/**
  How a directive's image URL is answered. `src/main.rs` serves files with a
  static-directory service nested under a fixed URL prefix: the prefix and the
  following `/` are stripped and the rest of the path is resolved below the
  directory, except that a path climbing out through a `..` segment is not
  found. This module models that mapping as written and as evidently intended,
  and relates it to the files `render_webpage` writes.
 */
module Storage {
  import opened Wrappers
  import opened Strings
  import Display
  import Api

  /** Whether a relative path climbs out of its directory: some `/`-separated
      segment is `..`. */
  predicate Climbs(p: string)
  {
    exists i :: 0 <= i < |p| - 1 && IsParentAt(p, i)
  }

  /** Positions `i` and `i + 1` hold a whole `..` segment. */
  predicate IsParentAt(p: string, i: int)
    requires 0 <= i < |p| - 1
  {
    p[i] == '.' && p[i + 1] == '.' && (i == 0 || p[i - 1] == '/') && (i + 2 == |p| || p[i + 2] == '/')
  }

  /** A single segment that does not end in `.` is never `..`. */
  lemma FileNameStays(f: string)
    requires '/' !in f && |f| > 0 && f[|f| - 1] != '.'
    ensures !Climbs(f)
  {
    forall i | 0 <= i < |f| - 1
      ensures !IsParentAt(f, i)
    {
      if i + 2 < |f| { assert f[i + 2] in f; }
    }
  }

  /** A file name that names no sub-directory, carries no percent-escape and
      does not end the URL's path early (no `?` query, no `#` fragment), as every
      UUID-derived image name does; in a URL such a name is the last path segment
      as written, and the service needs no decoding for it. */
  predicate PlainName(name: string)
  {
    '/' !in name && '%' !in name && '?' !in name && '#' !in name
  }

  /** A rendered image's name below `generated/` does not climb. The directory
      comes in as a parameter fixed by `requires` rather than as a literal in the
      ensures, so the solver does not expand the literal's characters in callers. */
  lemma GeneratedNameStays(dir: string, uuid: string, ext: string)
    requires dir == "generated/" && '/' !in uuid && (ext == ".bmp" || ext == ".png")
    ensures !Climbs(dir + (uuid + ext))
  {
    var f := uuid + ext;
    var p := dir + f;
    assert '/' !in f && f[|f| - 1] == ext[3] != '.';
    forall i | 0 <= i < |p| - 1
      ensures !IsParentAt(p, i)
    {
      if i < |dir| {
        assert p[i] == dir[i] != '.';
      } else if i + 2 < |p| {
        assert p[i + 2] == f[i + 2 - |dir|];
        assert f[i + 2 - |dir|] in f;
      } else {
        assert p[i + 1] == f[|f| - 1];
      }
    }
  }

  /** A static-directory service for `root` nested at URL prefix `mount`: the
      file a request path resolves to, or `None` (not found) when the path is not
      under `mount` or climbs out of the directory through a `..` segment. */
  function Serve(mount: string, root: string, urlPath: string): (r: Option<string>)
    ensures r.Some? <==> IsPrefix(mount + "/", urlPath) && !Climbs(urlPath[|mount| + 1..])
    ensures r.Some? ==> IsPrefix(root + "/", r.value) && |r.value| - |root| == |urlPath| - |mount|
    ensures r.Some? ==> r.value[|root| + 1..] == urlPath[|mount| + 1..]
  {
    if IsPrefix(mount + "/", urlPath) && !Climbs(urlPath[|mount| + 1..]) then
      Some(root + "/" + urlPath[|mount| + 1..])
    else None
  }

  /** A request for `rest` below the mount point is answered from `rest` below the
      root, unless `rest` has a `..` segment. */
  lemma ServeRoundTrip(mount: string, root: string, rest: string)
    ensures Serve(mount, root, mount + "/" + rest) ==
      if Climbs(rest) then None else Some(root + "/" + rest)
  {
    var p := mount + "/" + rest;
    assert p[..|mount + "/"|] == mount + "/";
    assert p[|mount| + 1..] == rest;
  }

  /** The request that climbs out of the images directory is not found. */
  lemma ParentSegmentNotFound(root: string, urlPath: string)
    requires urlPath == "/storage/images/../secret"
    ensures Serve(ImagesMount, root, urlPath) == None
  {
    var rest := urlPath[|ImagesMount| + 1..];
    assert rest == "../secret";
    assert IsParentAt(rest, 0);
  }

  const ImagesMount: string := "/storage/images"

  /** The service as `main.rs` mounts it: directory `assets` at `/storage/images`,
      so `/storage/images/x` is answered from `assets/x`. */
  function ServedFileAsWritten(urlPath: string): (file: Option<string>)
    ensures file.Some? <==>
      IsPrefix(ImagesMount + "/", urlPath) && !Climbs(urlPath[|ImagesMount| + 1..])
    ensures file.Some? ==> file.value == "assets" + urlPath[|ImagesMount|..]
  {
    var file := Serve(ImagesMount, "assets", urlPath);
    if file.Some? then
      assert urlPath[|ImagesMount|..] == "/" + urlPath[|ImagesMount| + 1..];
      file
    else file
  }

  /** The evidently intended service: directory `assets/images` at `/storage/images`,
      so `/storage/images/x` is answered from `assets/images/x`, the URL below
      `/storage` naming the file below `assets`. */
  function ServedFile(urlPath: string): (file: Option<string>)
    ensures file.Some? <==>
      IsPrefix(ImagesMount + "/", urlPath) && !Climbs(urlPath[|ImagesMount| + 1..])
    ensures file.Some? ==> file.value == "assets" + urlPath[|"/storage"|..]
  {
    var file := Serve(ImagesMount, "assets/images", urlPath);
    if file.Some? then
      assert urlPath[..|ImagesMount + "/"|] == ImagesMount + "/";
      assert urlPath[|"/storage"|..] == "/images/" + urlPath[|ImagesMount| + 1..];
      file
    else file
  }

  /** The path part of a directive's image URL, after the base URL. */
  function ImageUrlPath(device: Display.Device, baseUrl: string): (path: string)
    ensures Display.FromDevice(device, baseUrl).imageUrl == baseUrl + path
  {
    var url := Display.FromDevice(device, baseUrl).imageUrl;
    assert url[..|baseUrl|] == baseUrl;
    url[|baseUrl|..]
  }

  lemma PrefixCancel(a: string, x: string, y: string)
    requires a + x == a + y
    ensures x == y
  {
    assert x == (a + x)[|a|..] && y == (a + y)[|a|..];
  }

  /** The URL path of a generated image is the mount point, then `generated/` and the file name. */
  lemma GeneratedUrlPath(device: Display.Device, baseUrl: string)
    requires device.currentScreenImage.Some?
    ensures ImageUrlPath(device, baseUrl) ==
      ImagesMount + "/" + ("generated/" + Display.FromDevice(device, baseUrl).filename)
  {
    var f := Display.FromDevice(device, baseUrl).filename;
    ConcatAssoc(baseUrl, Display.GeneratedUrlPrefix, f);
    PrefixCancel(baseUrl, ImageUrlPath(device, baseUrl), Display.GeneratedUrlPrefix + f);
    assert Display.GeneratedUrlPrefix == ImagesMount + "/" + "generated/";
    ConcatAssoc(ImagesMount + "/", "generated/", f);
  }

  /** As mounted in `main.rs`, the directive for rendered image `uuid` resolves to a
      file under `assets/generated/`, which is neither artifact of that render. */
  lemma AsWrittenMissesRenderedArtifact(device: Display.Device, baseUrl: string, uuid: string)
    requires device.currentScreenImage == Some(uuid) && PlainName(uuid)
    ensures var f := Display.FromDevice(device, baseUrl).filename;
      ServedFileAsWritten(ImageUrlPath(device, baseUrl)) == Some("assets/generated/" + f)
    ensures ServedFileAsWritten(ImageUrlPath(device, baseUrl)) != Some(Api.PlanRender(uuid).bmpPath)
    ensures ServedFileAsWritten(ImageUrlPath(device, baseUrl)) != Some(Api.PlanRender(uuid).screenshotPath)
  {
    GeneratedServedFileAsWritten(device, baseUrl, uuid);
    Api.DirectiveNamesRenderedArtifact(device, baseUrl, uuid);
    var f := Display.FromDevice(device, baseUrl).filename;
    assert |"assets/generated/" + f| < |Api.GeneratedDir + f|;
  }

  /** As mounted in `main.rs`, a generated image's URL resolves under `assets/generated/`. */
  lemma GeneratedServedFileAsWritten(device: Display.Device, baseUrl: string, uuid: string)
    requires device.currentScreenImage == Some(uuid) && PlainName(uuid)
    ensures ServedFileAsWritten(ImageUrlPath(device, baseUrl)) ==
      Some("assets/generated/" + Display.FromDevice(device, baseUrl).filename)
  {
    var f := Display.FromDevice(device, baseUrl).filename;
    GeneratedUrlPath(device, baseUrl);
    GeneratedNameStays("generated/", uuid, Display.ServedExtension(device));
    ServeRoundTrip(ImagesMount, "assets", "generated/" + f);
    AssetsDirSplit("assets", f);
  }

  /** The concrete request that shows it: device showing render "u" with unknown firmware. */
  lemma AsWrittenExample(device: Display.Device, baseUrl: string, uuid: string)
    requires uuid == "u" && device == Display.Device(Some(uuid), None, 60)
    ensures ServedFileAsWritten(ImageUrlPath(device, baseUrl)) == Some("assets/generated/u.bmp")
    ensures Api.PlanRender(uuid).bmpPath == "assets/images/generated/u.bmp"
  {
    ExampleNameIsPlain(uuid);
    AsWrittenMissesRenderedArtifact(device, baseUrl, uuid);
    assert Display.FromDevice(device, baseUrl).filename == uuid + ".bmp";
    ExampleLiterals(uuid);
  }

  // The literals in these two helpers come in through `requires` so that the
  // solver meets them only here, not while proving `AsWrittenExample` itself.
  lemma ExampleNameIsPlain(uuid: string)
    requires uuid == "u"
    ensures PlainName(uuid)
  {
  }

  lemma ExampleLiterals(uuid: string)
    requires uuid == "u"
    ensures "assets/generated/" + (uuid + ".bmp") == "assets/generated/u.bmp"
    ensures Api.GeneratedDir + uuid + ".bmp" == "assets/images/generated/u.bmp"
  {
  }

  /** With the intended mount, a generated image's URL resolves into the render directory. */
  lemma GeneratedServedFile(device: Display.Device, baseUrl: string, uuid: string)
    requires device.currentScreenImage == Some(uuid) && PlainName(uuid)
    ensures ServedFile(ImageUrlPath(device, baseUrl)) == Some(Api.GeneratedDir + Display.FromDevice(device, baseUrl).filename)
  {
    var f := Display.FromDevice(device, baseUrl).filename;
    GeneratedUrlPath(device, baseUrl);
    GeneratedNameStays("generated/", uuid, Display.ServedExtension(device));
    ServeRoundTrip(ImagesMount, "assets/images", "generated/" + f);
    GeneratedDirSplit("assets/images", f);
  }

  /** With the intended mount, every directive for a rendered image resolves to the
      artifact of that render in the format the firmware was given. */
  lemma ServedFileIsRenderedArtifact(device: Display.Device, baseUrl: string, uuid: string)
    requires device.currentScreenImage == Some(uuid) && PlainName(uuid)
    ensures ServedFile(ImageUrlPath(device, baseUrl)) ==
      Some(if Display.UseBmp(device.lastFirmwareVersion) then Api.PlanRender(uuid).bmpPath
           else Api.PlanRender(uuid).screenshotPath)
  {
    GeneratedServedFile(device, baseUrl, uuid);
    Api.DirectiveNamesRenderedArtifact(device, baseUrl, uuid);
  }

  /** As mounted in `main.rs`, the setup logo is served from `assets/setup-logo.bmp`. */
  lemma AsWrittenSetupLogo(device: Display.Device, baseUrl: string)
    requires device.currentScreenImage.None?
    ensures ServedFileAsWritten(ImageUrlPath(device, baseUrl)) == Some("assets/setup-logo.bmp")
  {
    var path := ImageUrlPath(device, baseUrl);
    PrefixCancel(baseUrl, path, Display.SetupLogoUrlPath);
    SetupLogoPaths();
    SetupLogoStays(Display.SetupLogo);
    ServeRoundTrip(ImagesMount, "assets", Display.SetupLogo);
  }

  /** With the intended mount, the setup logo resolves to `assets/images/setup-logo.bmp`. */
  lemma SetupLogoServedFile(device: Display.Device, baseUrl: string)
    requires device.currentScreenImage.None?
    ensures ServedFile(ImageUrlPath(device, baseUrl)) == Some("assets/images/setup-logo.bmp")
  {
    var path := ImageUrlPath(device, baseUrl);
    PrefixCancel(baseUrl, path, Display.SetupLogoUrlPath);
    SetupLogoPaths();
    SetupLogoStays(Display.SetupLogo);
    ServeRoundTrip(ImagesMount, "assets/images", Display.SetupLogo);
  }

  lemma SetupLogoPaths()
    ensures Display.SetupLogoUrlPath == ImagesMount + "/" + Display.SetupLogo
    ensures "assets/images" + "/" + Display.SetupLogo == "assets/images/setup-logo.bmp"
    ensures "assets" + "/" + Display.SetupLogo == "assets/setup-logo.bmp"
  {
  }

  /** The setup logo's name does not climb; the name is a parameter fixed by
      `requires`, so the solver meets the literal only here. */
  lemma SetupLogoStays(name: string)
    requires name == Display.SetupLogo
    ensures !Climbs(name)
  {
    assert '/' !in name && |name| != 2;
    FileNameStays(name);
  }

  // The two directory splits below take the root through `requires` for the same
  // reason: callers then see one equation, not the literal's characters.
  lemma GeneratedDirSplit(root: string, f: string)
    requires root == "assets/images"
    ensures root + "/" + ("generated/" + f) == Api.GeneratedDir + f
  {
    assert root + "/" + "generated/" == Api.GeneratedDir;
    ConcatAssoc(root + "/", "generated/", f);
  }

  lemma AssetsDirSplit(root: string, f: string)
    requires root == "assets"
    ensures root + "/" + ("generated/" + f) == "assets/generated/" + f
  {
    assert root + "/" + "generated/" == "assets/generated/";
    ConcatAssoc(root + "/", "generated/", f);
  }
}
