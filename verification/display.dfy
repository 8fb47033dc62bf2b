/**
  The display format selector of `src/api/display.rs`: given a device record
  and the server's base URL, build the directive a device fetches on every
  wake-up (which image to show, how long to sleep).
 */
module Display {
  import opened Wrappers
  import opened Strings

  /** Rust's `i32`, the width of `Device::default_refresh_interval`. */
  newtype int32 = x: int | -0x8000_0000 <= x < 0x8000_0000

  const U32Modulus: int := 0x1_0000_0000

  /** Rust's `u32`, the width of the directive's numeric fields. */
  type u32 = x: int | 0 <= x < U32Modulus

  /** The fields of a stored device that the selector reads. */
  datatype Device = Device(
    currentScreenImage: Option<string>,
    lastFirmwareVersion: Option<string>,
    defaultRefreshInterval: int32)

  /** The display directive, serialised to the device as a JSON object with these eight fields. */
  datatype DisplayResponse = DisplayResponse(
    imageUrl: string,
    imageUrlTimeout: u32,
    filename: string,
    refreshRate: u32,
    resetFirmware: bool,
    updateFirmware: bool,
    firmwareUrl: Option<string>,
    specialFunction: string)

  /** Firmware strictly below this string (in string order) only understands BMP. */
  const FirmwareGate: string := "1.5.2"
  const SetupLogo: string := "setup-logo.bmp"
  const SetupLogoUrlPath: string := "/storage/images/setup-logo.bmp"
  const GeneratedUrlPrefix: string := "/storage/images/generated/"

  /** `version_compare`: -1, 0 or 1 as `a` sorts before, equal to or after `b` in plain string order. */
  function VersionCompare(a: string, b: string): (r: int)
    ensures -1 <= r <= 1
    ensures r == 0 <==> a == b
    ensures r < 0 <==> LexLess(a, b)
    ensures r > 0 <==> LexLess(b, a)
  {
    match Cmp(a, b)
    case Less => -1
    case Equal => 0
    case Greater => 1
  }

  /** `map(|v| version_compare(v, "1.5.2") < 0).unwrap_or(true)`: BMP for unknown or older firmware. */
  function UseBmp(firmware: Option<string>): (bmp: bool)
    ensures bmp <==> firmware.None? || LexLess(firmware.value, FirmwareGate)
  {
    match firmware
    case Some(v) => VersionCompare(v, FirmwareGate) < 0
    case None => true
  }

  /** Rust's `x as u32` on an `i32`: keep the low 32 bits, so negatives wrap. */
  function AsU32(x: int32): (r: u32)
    ensures r % U32Modulus == x as int % U32Modulus
    ensures 0 <= x ==> r == x as int
  {
    if 0 <= x then x as int else x as int + U32Modulus
  }

  /** `DisplayResponse::from_device`. */
  function FromDevice(device: Device, baseUrl: string): (r: DisplayResponse)
    ensures device.currentScreenImage.None? ==>
      r.filename == SetupLogo && r.imageUrl == baseUrl + SetupLogoUrlPath
    ensures device.currentScreenImage.Some? ==>
      r.imageUrl == baseUrl + GeneratedUrlPrefix + r.filename
    ensures device.currentScreenImage.Some? ==>
      (device.lastFirmwareVersion.None? || LexLess(device.lastFirmwareVersion.value, FirmwareGate)) ==>
      r.filename == device.currentScreenImage.value + ".bmp"
    ensures device.currentScreenImage.Some? ==>
      (device.lastFirmwareVersion.Some? && !LexLess(device.lastFirmwareVersion.value, FirmwareGate)) ==>
      r.filename == device.currentScreenImage.value + ".png"
    ensures r.refreshRate % U32Modulus == device.defaultRefreshInterval as int % U32Modulus
    ensures r.imageUrlTimeout == 15 && !r.resetFirmware && !r.updateFirmware
    ensures r.firmwareUrl == None && r.specialFunction == "sleep"
  {
    var (filename, imagePath) := SelectImage(device);
    ConcatAssoc(baseUrl, "/storage/", imagePath);
    DisplayResponse(
      imageUrl := baseUrl + "/storage/" + imagePath,
      imageUrlTimeout := 15,
      filename := filename,
      refreshRate := AsU32(device.defaultRefreshInterval),
      resetFirmware := false,
      updateFirmware := false,
      firmwareUrl := None,
      specialFunction := "sleep")
  }

  /** The `(filename, image_path)` pair of `from_device`: the served file name and its path below `/storage/`. */
  function SelectImage(device: Device): (sel: (string, string))
    ensures device.currentScreenImage.None? ==> sel == (SetupLogo, "images/setup-logo.bmp")
    ensures device.currentScreenImage.Some? ==> sel.1 == "images/generated/" + sel.0
    ensures device.currentScreenImage.Some? ==>
      sel.0 == device.currentScreenImage.value + (if UseBmp(device.lastFirmwareVersion) then ".bmp" else ".png")
  {
    match device.currentScreenImage
    case Some(uuid) =>
      if UseBmp(device.lastFirmwareVersion) then
        ConcatAssoc("images/generated/", uuid, ".bmp");
        (uuid + ".bmp", "images/generated/" + uuid + ".bmp")
      else
        ConcatAssoc("images/generated/", uuid, ".png");
        (uuid + ".png", "images/generated/" + uuid + ".png")
    case None =>
      ("setup-logo.bmp", "images/setup-logo.bmp")
  }

  /** `version_compare(a, b) == -version_compare(b, a)`. */
  lemma VersionCompareAntisymmetric(a: string, b: string)
    ensures VersionCompare(a, b) == -VersionCompare(b, a)
  {
  }

  /** Plain string order, not semantic-version order: "1.10.0" sorts before "1.2.0". */
  lemma VersionCompareIsNotSemver()
    ensures VersionCompare("1.10.0", "1.2.0") == -1
    ensures VersionCompare("1.2.0", "1.10.0") == 1
  {
    assert LexLess("1.10.0"[2..], "1.2.0"[2..]);
    assert LexLess("1.10.0", "1.2.0");
  }

  /** String order decides the format: "1.10.0", newer than the gate as a semantic
      version, sorts below it and gets BMP, as do "1.4.0" and "1.2.0"; "1.6.0" and
      the gate itself get PNG; unknown firmware gets BMP. */
  lemma SelectionFollowsStringOrder(device: Device, baseUrl: string, uuid: string)
    requires device.currentScreenImage == Some(uuid)
    ensures FromDevice(device.(lastFirmwareVersion := Some("1.4.0")), baseUrl).filename == uuid + ".bmp"
    ensures FromDevice(device.(lastFirmwareVersion := Some("1.10.0")), baseUrl).filename == uuid + ".bmp"
    ensures FromDevice(device.(lastFirmwareVersion := Some("1.2.0")), baseUrl).filename == uuid + ".bmp"
    ensures FromDevice(device.(lastFirmwareVersion := Some("1.6.0")), baseUrl).filename == uuid + ".png"
    ensures FromDevice(device.(lastFirmwareVersion := Some(FirmwareGate)), baseUrl).filename == uuid + ".png"
    ensures FromDevice(device.(lastFirmwareVersion := None), baseUrl).filename == uuid + ".bmp"
  {
    assert LexLess("1.4.0"[2..], FirmwareGate[2..]);
    assert LexLess("1.10.0"[2..], FirmwareGate[2..]);
    assert LexLess("1.2.0"[2..], FirmwareGate[2..]);
    assert LexLess(FirmwareGate[2..], "1.6.0"[2..]);
    LexTrichotomy("1.6.0", FirmwareGate);
    LexLessIrreflexive(FirmwareGate);
  }

  /** The image URLs of the same cases: the generated-image directory below the base URL, then the file name. */
  lemma SelectionImageUrls(device: Device, baseUrl: string, uuid: string)
    requires device.currentScreenImage == Some(uuid)
    ensures FromDevice(device.(lastFirmwareVersion := Some("1.4.0")), baseUrl).imageUrl
      == baseUrl + "/storage/images/generated/" + uuid + ".bmp"
    ensures FromDevice(device.(lastFirmwareVersion := Some("1.6.0")), baseUrl).imageUrl
      == baseUrl + "/storage/images/generated/" + uuid + ".png"
    ensures FromDevice(device.(lastFirmwareVersion := Some(FirmwareGate)), baseUrl).imageUrl
      == baseUrl + "/storage/images/generated/" + uuid + ".png"
    ensures FromDevice(device.(lastFirmwareVersion := None), baseUrl).imageUrl
      == baseUrl + "/storage/images/generated/" + uuid + ".bmp"
  {
    SelectionFollowsStringOrder(device, baseUrl, uuid);
    ConcatAssoc(baseUrl + GeneratedUrlPrefix, uuid, ".bmp");
    ConcatAssoc(baseUrl + GeneratedUrlPrefix, uuid, ".png");
  }

  /** The extension of the file the directive names: PNG only for a stored image and capable firmware. */
  function ServedExtension(device: Device): (ext: string)
  {
    if device.currentScreenImage.Some? && !UseBmp(device.lastFirmwareVersion) then ".png" else ".bmp"
  }

  /** The served file name is always the tail of the URL, and both end in the chosen format's extension. */
  lemma FilenameEndsImageUrl(device: Device, baseUrl: string)
    ensures EndsWith(FromDevice(device, baseUrl).imageUrl, FromDevice(device, baseUrl).filename)
    ensures EndsWith(FromDevice(device, baseUrl).filename, ServedExtension(device))
    ensures EndsWith(FromDevice(device, baseUrl).imageUrl, ServedExtension(device))
  {
    var r := FromDevice(device, baseUrl);
    UrlEndsWithFilename(device, baseUrl, r);
    FilenameHasExtension(device, baseUrl, r.filename);
    EndsWithTransitive(r.imageUrl, r.filename, ServedExtension(device));
  }

  lemma UrlEndsWithFilename(device: Device, baseUrl: string, r: DisplayResponse)
    requires r == FromDevice(device, baseUrl)
    ensures EndsWith(r.imageUrl, r.filename)
  {
    if device.currentScreenImage.None? {
      assert SetupLogoUrlPath == "/storage/images/" + SetupLogo;
      ConcatAssoc(baseUrl, "/storage/images/", SetupLogo);
      EndsWithAppend(baseUrl + "/storage/images/", SetupLogo);
    } else {
      EndsWithAppend(baseUrl + GeneratedUrlPrefix, r.filename);
    }
  }

  lemma FilenameHasExtension(device: Device, baseUrl: string, filename: string)
    requires filename == FromDevice(device, baseUrl).filename
    ensures EndsWith(filename, ServedExtension(device))
  {
    if device.currentScreenImage.None? {
      assert SetupLogo == "setup-logo" + ".bmp";
      EndsWithAppend("setup-logo", ".bmp");
    } else {
      EndsWithAppend(device.currentScreenImage.value, ServedExtension(device));
    }
  }

  /** PNG is served exactly when a screen image exists and the firmware is known and not below the gate. */
  lemma PngIffCapableFirmware(device: Device, baseUrl: string)
    ensures EndsWith(FromDevice(device, baseUrl).filename, ".png") <==>
      device.currentScreenImage.Some? && device.lastFirmwareVersion.Some?
      && !LexLess(device.lastFirmwareVersion.value, FirmwareGate)
  {
  }

  /** Without a screen image the directive does not depend on the firmware string. */
  lemma SetupLogoIgnoresFirmware(device: Device, firmware: Option<string>, baseUrl: string)
    requires device.currentScreenImage.None?
    ensures FromDevice(device.(lastFirmwareVersion := firmware), baseUrl) == FromDevice(device, baseUrl)
  {
  }

  /** A device that already receives PNG keeps receiving PNG when its firmware
      string moves up (or stays) in string order. */
  lemma PngSurvivesUpgrade(device: Device, newer: string, baseUrl: string)
    requires device.currentScreenImage.Some? && device.lastFirmwareVersion.Some?
    requires EndsWith(FromDevice(device, baseUrl).filename, ".png")
    requires !LexLess(newer, device.lastFirmwareVersion.value)
    ensures EndsWith(FromDevice(device.(lastFirmwareVersion := Some(newer)), baseUrl).filename, ".png")
  {
    var current := device.lastFirmwareVersion.value;
    PngIffCapableFirmware(device, baseUrl);
    LexTrichotomy(newer, current);
    if LexLess(newer, FirmwareGate) {
      LexLessTransitive(current, newer, FirmwareGate);
    }
    PngIffCapableFirmware(device.(lastFirmwareVersion := Some(newer)), baseUrl);
  }

  /** `refresh_rate` is the interval when non-negative and wraps by 2^32 when negative. */
  lemma RefreshRateCast(device: Device, baseUrl: string)
    ensures 0 <= device.defaultRefreshInterval ==>
      FromDevice(device, baseUrl).refreshRate == device.defaultRefreshInterval as int
    ensures device.defaultRefreshInterval < 0 ==>
      FromDevice(device, baseUrl).refreshRate == device.defaultRefreshInterval as int + U32Modulus
  {
  }
}
