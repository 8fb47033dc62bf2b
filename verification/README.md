# Display directive selection for a TRMNL e-ink server, in Dafny

This project models the part of the server that decides, on every wake-up of
an e-ink device, which image the device should fetch. `DisplayResponse::from_device`
takes the stored device record and the server's base URL. It returns an
eight-field directive: the image URL and file name, the refresh interval, and
five constant fields. If the device has a rendered screen image, the directive
names that image's BMP or PNG artifact. The choice is made by comparing the
device's firmware string with `"1.5.2"` in plain string order, not as a
semantic version. If the device has no image, the directive names the setup
logo.

Alongside the selector, the model covers these string derivations from the
HTTP module:

- the friendly id `"device-" + mac[12..]`, with Rust's byte-offset slicing
  and its panic;
- the setup and registration replies;
- the file names and converter command of a screenshot render.

It also covers the static-file mount that serves the directive's URL.

Modules:

- `Wrappers`: `Option` and `Result`.
- `Strings`: lexicographic order `LexLess`, Rust's `str::cmp` as `Cmp`, and
  prefix and suffix predicates. Rust orders `str` by its UTF-8 bytes, and that
  order is the same as code-point order. Dafny's `char` is a Unicode scalar
  value, so lexicographic order on `string` matches Rust exactly.
- `Utf8`: encoding widths and bytes, character boundaries, and `&s[n..]` as
  `SliceFrom`, which gives `None` where Rust panics.
- `Display`: `src/api/display.rs`, the copy of the selector that carries the unit tests in its source file.
- `Api`: `src/api/mod.rs`. This covers its duplicate selector (proved equal to
  the `Display` one), the friendly id, the setup and add-device replies, and
  the render plan.
- `Storage`: the static mount in `src/main.rs`, which turns a directive URL
  into a file (see Findings).

Two facts about the code worth stating up front:

- `"1.2.0"` and `"1.10.0"` both sort below `"1.5.2"`, so a device with a
  stored image and either firmware string gets BMP. `"1.10.0"` is where
  string order and version order disagree: as a version it is newer than the
  gate (`Display.SelectionFollowsStringOrder`).
- `src/api/mod.rs` declares its own `DisplayResponse` struct, with the same
  eight fields as the one in `display.rs`. The model uses one datatype for
  both, so that `Api.FromDevice` can be proved equal to `Display.FromDevice`.

## Model

| member | source | states |
|---|---|---|
| Strings.Cmp | src/api/display.rs:60-64 | `str::cmp` gives Equal exactly when the strings are equal, Less exactly when `a` sorts before `b`, and Greater exactly when `b` sorts before `a` |
| Strings.LexLessMatchesSpec | src/api/display.rs:58-65 | the recursive order equals the textbook definition: `a` is a proper prefix of `b`, or `a` has the smaller character at the first position where they differ |
| Strings.LexLessIrreflexive | src/api/display.rs:60-64 | no string sorts before itself |
| Strings.LexLessTransitive | src/api/display.rs:60-64 | the string order is transitive |
| Strings.LexTrichotomy | src/api/display.rs:60-64 | exactly one of less, equal and greater holds for any two strings |
| Utf8.SliceFrom | src/api/mod.rs:133 | `&s[n..]` exists exactly when byte offset `n` is a character boundary, and its UTF-8 bytes are the bytes of `s` from offset `n` |
| Utf8.AsciiSliceFrom | src/api/mod.rs:133 | on ASCII text every offset up to the length is a boundary, and the byte slice is the character suffix |
| Utf8.SliceBeyondEndPanics | src/api/mod.rs:238 | slicing past the end of the encoding panics |
| Display.VersionCompare | src/api/display.rs:59-65 | the result is -1, 0 or 1; it is 0 iff the strings are equal, negative iff `a` sorts before `b`, and positive iff `b` sorts before `a` |
| Display.VersionCompareAntisymmetric | src/api/display.rs:211-217 | `version_compare(a, b) == -version_compare(b, a)` for all strings |
| Display.VersionCompareIsNotSemver | src/api/display.rs:211-217 | `"1.10.0"` compares below `"1.2.0"` (-1), and the reverse comparison gives 1 |
| Display.UseBmp | src/api/display.rs:19-23 | BMP is chosen iff the firmware is absent or sorts strictly below `"1.5.2"` |
| Display.AsU32 | src/api/display.rs:49 | the `i32` to `u32` cast keeps the value modulo 2^32, and is the identity on non-negative values |
| Display.SelectImage | src/api/display.rs:18-41 | with no image the pair is `setup-logo.bmp` and `images/setup-logo.bmp`; with image `u` the file name is `u` plus `.bmp` when BMP is chosen and `.png` otherwise, and the path is `images/generated/` followed by that file name |
| Display.FromDevice | src/api/display.rs:17-55 | with no image: `setup-logo.bmp` and `base + "/storage/images/setup-logo.bmp"`; with image `u`: `u.bmp` if firmware is absent or below the gate, else `u.png`, under `base + "/storage/images/generated/"`; the refresh rate agrees with the interval modulo 2^32; timeout 15, no reset, no update, no firmware URL, special function `sleep` |
| Display.SelectionFollowsStringOrder | src/api/display.rs:111-165 | for any stored image `u`: `"1.4.0"`, `"1.10.0"` and `"1.2.0"` give `u.bmp`, `"1.6.0"` and `"1.5.2"` give `u.png`, and absent firmware gives `u.bmp` |
| Display.SelectionImageUrls | src/api/display.rs:111-165 | for any stored image `u`: `"1.4.0"` and absent firmware give `base + "/storage/images/generated/" + u + ".bmp"`, and `"1.6.0"` and `"1.5.2"` give the same with `.png` |
| Display.FilenameEndsImageUrl | src/api/display.rs:25-43 | the file name is a suffix of the image URL, and both end in `.png` when an image is stored and the firmware is not below the gate, and in `.bmp` otherwise |
| Display.PngIffCapableFirmware | src/api/display.rs:18-35 | the file ends in `.png` iff an image is stored and the firmware is known and not below `"1.5.2"` |
| Display.SetupLogoIgnoresFirmware | src/api/display.rs:36-43 | with no stored image, changing the firmware string does not change the directive |
| Display.PngSurvivesUpgrade | src/api/display.rs:22 | a device that gets PNG still gets PNG when its firmware string stays the same or moves up in string order |
| Display.RefreshRateCast | src/api/display.rs:49 | `refresh_rate` is the interval when it is non-negative, and the interval plus 2^32 when it is negative |
| Api.VersionCompare | src/api/mod.rs:380-386 | the module's copy of `version_compare` agrees with the `display.rs` one on every pair of strings |
| Api.FromDevice | src/api/mod.rs:41-79 | the module's copy of `from_device` builds the same directive as the `display.rs` one for every device and base URL |
| Api.FriendlyId | src/api/mod.rs:133 | succeeds iff byte 12 of the MAC is a character boundary, and then its bytes are `device-` followed by the MAC's bytes from offset 12; otherwise the handler panics |
| Api.AsciiFriendlyId | src/api/mod.rs:238 | for an ASCII MAC of at least 12 characters, the friendly id is `"device-" + mac[12..]` |
| Api.FriendlyIdExample | src/api/mod.rs:133 | `"AA:BB:CC:DD:EE:FF"` gives `"device-EE:FF"` |
| Api.ShortMacPanics | src/api/mod.rs:238 | a MAC shorter than 12 bytes panics |
| Api.StraddlingCharPanics | src/api/mod.rs:133 | a MAC with a multi-byte character spanning byte 12 panics |
| Api.NewDeviceRow | src/api/mod.rs:134-140 | the record given to `Device::create` has the MAC, the key, the derived friendly id and the name `TRMNL Device`, and exists iff the slice is defined |
| Api.AddDevice | src/api/mod.rs:127-148 | the registration succeeds iff the friendly id is defined and the insert succeeded; a panic happens exactly when the slice is undefined; success carries the message `Succesfully added device` |
| Api.Setup | src/api/mod.rs:219-259 | a known device gets back its own key and its stored friendly id, or `unknown` if none is stored; a new device gets the fresh key and the derived friendly id, or the handler panics when that id is undefined; the image URL is always the setup logo, and the message is `Hello from TRMNL!` |
| Api.AddDevicePanicsIffSetupPanics | src/api/mod.rs:133 | the add endpoint panics on a MAC exactly when first-time setup of that MAC panics, and when it succeeds setup reports the friendly id the add endpoint stores |
| Api.SetupImageMatchesDisplay | src/api/mod.rs:254 | the setup reply's image URL equals the directive's image URL for any device without a stored image |
| Api.SetupReportsStoredFriendlyId | src/api/mod.rs:237-248 | a new device is told the same friendly id and key that are handed to `Device::create` |
| Api.PlanRender | src/api/mod.rs:319-374 | the PNG and the BMP share the stem `assets/images/generated/<uuid>` and differ in extension; the converter reads the PNG, is passed `-monochrome -depth 1 -strip`, and writes `bmp3:` plus the BMP path; the reply names the PNG file |
| Api.PlanRenderInjective | src/api/mod.rs:319-340 | distinct identifiers never share a PNG path or a BMP path, and no render's PNG path equals any render's BMP path |
| Api.DirectiveNamesRenderedArtifact | src/api/mod.rs:49-59 | for a device showing render `u`, the directive's file name is the last part of that render's BMP path or PNG path, whichever format was chosen |
| Storage.Serve | src/main.rs:65 | a request path resolves to a file iff it lies under the mount point and none of its segments below the mount is `..`; the file lies under the served directory and its path below that directory is the request's path below the mount |
| Storage.ServeRoundTrip | src/main.rs:65 | a request for `mount/rest` is answered from `root/rest`, and is not found when `rest` has a `..` segment |
| Storage.ParentSegmentNotFound | src/main.rs:65 | `/storage/images/../secret` is not found |
| Storage.ServedFileAsWritten | src/main.rs:65 | as mounted, `/storage/images/x` is answered from `assets/x` (the `/images` part of the URL is dropped), for every `x` without a `..` segment; `x` is taken undecoded (see "## Left out") |
| Storage.ServedFile | src/main.rs:65 | with the intended mount, `/storage/images/x` is answered from `assets/images/x`: the URL path below `/storage` names the file below `assets`; found for every `x` without a `..` segment, taken undecoded (see "## Left out") |
| Storage.GeneratedServedFileAsWritten | src/main.rs:65 | as mounted, a generated image's URL with a plain image name (no `/`, `%`, `?` or `#`) resolves to `assets/generated/` followed by the file name |
| Storage.AsWrittenMissesRenderedArtifact | src/main.rs:65 | as mounted, for a plain image name (no `/`, `%`, `?` or `#`), a generated image's URL resolves to `assets/generated/<file>`, which is neither artifact of the render |
| Storage.AsWrittenExample | src/main.rs:65 | for image `u` with unknown firmware, the mount serves `assets/generated/u.bmp`, while the render wrote `assets/images/generated/u.bmp` |
| Storage.GeneratedServedFile | src/main.rs:65 | with the intended mount and a plain image name (no `/`, `%`, `?` or `#`), a generated image's URL resolves into `assets/images/generated/` |
| Storage.ServedFileIsRenderedArtifact | src/main.rs:65 | with the intended mount, every directive for render `u`, `u` a plain name (no `/`, `%`, `?` or `#`), resolves to that render's BMP or PNG, matching the format chosen |
| Storage.AsWrittenSetupLogo | src/main.rs:65 | as mounted, the setup logo URL is served from `assets/setup-logo.bmp` |
| Storage.SetupLogoServedFile | src/main.rs:65 | with the intended mount, the setup logo resolves to `assets/images/setup-logo.bmp` |

## Left out

- Headless-browser driving: launch, viewport override, navigation, wait and screenshot (`src/api/mod.rs:265-337`, `src/render.rs`, `src/render/image.rs`). These are calls into a foreign browser library. The 800x480 size is enforced by the browser, not by code visible here.
- Grayscale conversion, dithering and the ImageMagick subprocess (`src/render/image.rs`, `src/api/mod.rs:348-367`, `src/render.rs`). These are opaque library or tool calls. Of the subprocess, only its argument list is modelled (`Api.PlanRender`).
- `RenderedImage::default`: random UUID generation. The uuid is a parameter of `Api.PlanRender`, which states the shared-stem property.
- Liquid templating (`src/render/template.rs`): a wrapper over a templating library and a file read.
- Header extraction (`src/api/helpers.rs`), database queries (`src/models/device.rs`, `src/db/mod.rs`), routing, logging and process start-up. The database lookup is a parameter of `Api.Setup`, and the insert outcome is a parameter of `Api.AddDevice`. `HeaderValue::to_str` only accepts visible ASCII, so inside the endpoints the MAC is ASCII. There, only the short-MAC panic can happen (`Api.AsciiFriendlyId`, `Api.ShortMacPanics`). `Api.FriendlyId` still models the general byte-offset slice.
- `log_endpoint` and the device-info update in `display_endpoint`: I/O only, with floating-point battery voltage and payload deserialisation.
- `setup_endpoint` discards the result of `Device::create`. The model's `Api.Setup` therefore takes no insert outcome, and a failed insert does not change the reply.
- Api.Setup: the failure of the lookup by MAC (`find_by_mac`), which returns HTTP 500, is not modelled; the lookup's result is the `existing` parameter, so the only error the model returns is the friendly-id panic.
- Storage.ImageUrlPath: takes the request path to be everything after the base URL, which holds only when `BASE_URL` has no path component of its own (the default `http://localhost:<port>` has none), and only when the image name holds no `?` or `#`, which would start the query or fragment.
- Storage.Serve, Storage.ServedFileAsWritten, Storage.ServedFile: the static-directory service also percent-decodes the request path, trims leading slashes and skips empty and `.` segments; the model does none of this. So a path with `%` escapes is resolved as written instead of decoded (an escaped `..` is not refused), and `a//b` or `a/./b` yields that text rather than the normalised `a/b`, which names the same file. Only the refusal of a `..` segment is modelled.
- Storage.ServeRoundTrip: holds for the real service only when `rest` has no `%`, no empty and no `.` segment, for the reason above.
- Storage.AsWrittenMissesRenderedArtifact, Storage.GeneratedServedFileAsWritten, Storage.GeneratedServedFile, Storage.ServedFileIsRenderedArtifact: state nothing for an image name containing `/`, `%`, `?` or `#`. A `?` or `#` would end the URL's path, and the others would need decoding or nesting. Image names are assumed to be the UUIDs `render_webpage` generates (`src/api/mod.rs:319`), which contain none of these; no code in these sources stores a render's id in `current_screen_image`.
- A panic in a handler is modelled as the error value `Api.Fault.Panic`. What the web framework then sends to the device is not modelled.

## Findings

| source | as written | input that shows it | evidently intended | confidence | as-written member | corrected member |
|---|---|---|---|---|---|---|
| src/main.rs:65 | the static directory `assets` is mounted at `/storage/images`, so directive URLs under `/storage/images/generated/` resolve to `assets/generated/<file>`, but `render_webpage` writes `assets/images/generated/<file>` (`src/api/mod.rs:323-340`) | device with image `u` and no firmware: the URL `/storage/images/generated/u.bmp` is served from `assets/generated/u.bmp`, but the render wrote `assets/images/generated/u.bmp` | mount `assets/images` at `/storage/images`, so that every generated image URL resolves to the file the render wrote; this also moves the setup logo from `assets/setup-logo.bmp` (`Storage.AsWrittenSetupLogo`) to `assets/images/setup-logo.bmp`, so if the repository keeps the logo at `assets/setup-logo.bmp`, the other remedy is to render into `assets/generated/` | medium, not executed (the `assets/` tree is not part of the Rust sources) | Storage.AsWrittenMissesRenderedArtifact | Storage.ServedFileIsRenderedArtifact |
