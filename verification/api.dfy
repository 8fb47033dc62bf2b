/**
  The pure parts of the device-facing endpoints in `src/api/mod.rs`: the
  module's own copy of the display selector, the friendly id derived from a
  MAC address, the setup and registration replies, and the file names and
  converter command of the screenshot render. Header extraction, database
  lookups and the browser session are outside this model; their outcomes are
  parameters.
 */
module Api {
  import opened Wrappers
  import opened Strings
  import opened Utf8
  import Display

  /** How a handler ends when it does not produce its reply. */
  datatype Fault =
    | Panic                  // a slice at a non-boundary byte offset aborts the handler
    | InternalServerError    // a failed database write, mapped to HTTP 500

  /** The module's own `version_compare`; it is the same function as the one in `display.rs`. */
  function VersionCompare(a: string, b: string): (r: int)
    ensures r == Display.VersionCompare(a, b)
  {
    match Cmp(a, b)
    case Less => -1
    case Equal => 0
    case Greater => 1
  }

  /** The module's own `DisplayResponse::from_device`; it builds the same directive as the one in `display.rs`. */
  function FromDevice(device: Display.Device, baseUrl: string): (r: Display.DisplayResponse)
    ensures r == Display.FromDevice(device, baseUrl)
  {
    var (filename, imagePath) :=
      match device.currentScreenImage
      case Some(uuid) =>
        var useBmp :=
          match device.lastFirmwareVersion
          case Some(v) => VersionCompare(v, "1.5.2") < 0
          case None => true;
        if useBmp then
          (uuid + ".bmp", "images/generated/" + uuid + ".bmp")
        else
          (uuid + ".png", "images/generated/" + uuid + ".png")
      case None =>
        ("setup-logo.bmp", "images/setup-logo.bmp");
    Display.DisplayResponse(
      imageUrl := baseUrl + "/storage/" + imagePath,
      imageUrlTimeout := 15,
      filename := filename,
      refreshRate := Display.AsU32(device.defaultRefreshInterval),
      resetFirmware := false,
      updateFirmware := false,
      firmwareUrl := None,
      specialFunction := "sleep")
  }

  const FriendlyIdPrefix: string := "device-"

  /** Byte offset of the MAC suffix kept in a friendly id. */
  const MacSuffixOffset: nat := 12

  /** `format!("device-{}", &mac_address[12..])`: panics unless byte 12 is a character boundary. */
  function FriendlyId(mac: string): (r: Result<string, Fault>)
    ensures r.Ok? <==> IsCharBoundary(mac, MacSuffixOffset)
    ensures r.Ok? ==> MacSuffixOffset <= ByteLen(mac)
    ensures r.Ok? ==> Encode(r.value) == Encode(FriendlyIdPrefix) + Encode(mac)[MacSuffixOffset..]
    ensures r.Err? ==> r.error == Panic
  {
    match SliceFrom(mac, MacSuffixOffset)
    case None => Err(Panic)
    case Some(tail) =>
      EncodeAppend(FriendlyIdPrefix, tail);
      Ok(FriendlyIdPrefix + tail)
  }

  /** An ASCII MAC of at least 12 characters keeps everything from character 12 on. */
  lemma AsciiFriendlyId(mac: string)
    requires forall i :: 0 <= i < |mac| ==> mac[i] as int < 0x80
    requires MacSuffixOffset <= |mac|
    ensures FriendlyId(mac) == Ok(FriendlyIdPrefix + mac[MacSuffixOffset..])
  {
    AsciiSliceFrom(mac, MacSuffixOffset);
  }

  lemma FriendlyIdExample(mac: string)
    requires mac == "AA:BB:CC:DD:EE:FF"
    ensures FriendlyId(mac) == Ok("device-EE:FF")
  {
    ExampleMacIsAscii(mac);
    AsciiFriendlyId(mac);
    var id := FriendlyIdPrefix + mac[MacSuffixOffset..];
    assert mac[MacSuffixOffset..] == "EE:FF";
    assert id == "device-EE:FF";
  }

  /** The example MAC is 17 ASCII characters. The MAC is a parameter fixed by
      `requires` so that the solver checks the literal's characters only here. */
  lemma ExampleMacIsAscii(mac: string)
    requires mac == "AA:BB:CC:DD:EE:FF"
    ensures |mac| == 17
    ensures forall i :: 0 <= i < |mac| ==> mac[i] as int < 0x80
  {
    forall i | 0 <= i < |mac| ensures mac[i] as int < 0x80 {
      assert mac[i] in ":ABCDEF";
    }
  }

  /** A MAC shorter than 12 bytes makes the handler panic. */
  lemma ShortMacPanics(mac: string)
    requires ByteLen(mac) < MacSuffixOffset
    ensures FriendlyId(mac) == Err(Panic)
  {
    SliceBeyondEndPanics(mac, MacSuffixOffset);
  }

  /** So does a MAC whose character `j` spans byte offset 12. */
  lemma StraddlingCharPanics(mac: string, j: nat)
    requires j < |mac|
    requires ByteLen(mac[..j]) < MacSuffixOffset < ByteLen(mac[..j + 1])
    ensures FriendlyId(mac) == Err(Panic)
  {
    forall k | 0 <= k <= |mac|
      ensures ByteLen(mac[..k]) != MacSuffixOffset
    {
      if k <= j {
        PrefixByteLen(mac[..j], k);
        assert mac[..j][..k] == mac[..k];
      } else {
        PrefixByteLen(mac[..k], j + 1);
        assert mac[..k][..j + 1] == mac[..j + 1];
      }
    }
  }

  const DeviceName: string := "TRMNL Device"

  /** The arguments `Device::create` receives when a device is registered. */
  datatype NewDevice = NewDevice(macAddress: string, apiKey: string, friendlyId: string, name: string)

  /** The record both registration paths hand to `Device::create`. */
  function NewDeviceRow(mac: string, apiKey: string): (r: Result<NewDevice, Fault>)
    ensures r.Ok? <==> IsCharBoundary(mac, MacSuffixOffset)
    ensures r.Ok? ==> r.value.macAddress == mac && r.value.apiKey == apiKey && r.value.name == DeviceName
    ensures r.Ok? ==> MacSuffixOffset <= ByteLen(mac)
    ensures r.Ok? ==> Encode(r.value.friendlyId) == Encode(FriendlyIdPrefix) + Encode(mac)[MacSuffixOffset..]
  {
    match FriendlyId(mac)
    case Err(e) => Err(e)
    case Ok(id) => Ok(NewDevice(mac, apiKey, id, DeviceName))
  }

  datatype CreateDeviceResponse = CreateDeviceResponse(message: string)

  /** `create_device_endpoint` once both headers are present; `inserted` is the outcome of `Device::create`. */
  function AddDevice(mac: string, apiKey: string, inserted: bool): (r: Result<CreateDeviceResponse, Fault>)
    ensures r.Ok? <==> IsCharBoundary(mac, MacSuffixOffset) && inserted
    ensures r.Ok? ==> r.value.message == "Succesfully added device"
    ensures r.Err? ==> (r.error == Panic <==> !IsCharBoundary(mac, MacSuffixOffset))
  {
    match NewDeviceRow(mac, apiKey)
    case Err(e) => Err(e)
    case Ok(_) =>
      if inserted then Ok(CreateDeviceResponse("Succesfully added device"))
      else Err(InternalServerError)
  }

  /** Registering a MAC through the add endpoint panics exactly when first-time setup
      of that MAC panics: both derive the same friendly id. */
  lemma AddDevicePanicsIffSetupPanics(mac: string, apiKey: string, inserted: bool,
                                      freshApiKey: string, baseUrl: string)
    ensures AddDevice(mac, apiKey, inserted) == Err(Panic) <==> Setup(None, mac, freshApiKey, baseUrl).Err?
    ensures AddDevice(mac, apiKey, inserted).Ok? ==>
      Setup(None, mac, freshApiKey, baseUrl).Ok?
      && Setup(None, mac, freshApiKey, baseUrl).value.friendlyId == NewDeviceRow(mac, apiKey).value.friendlyId
  {
  }

  /** The stored fields `setup_endpoint` reads from an already registered device. */
  datatype KnownDevice = KnownDevice(apiKey: string, friendlyId: Option<string>)

  datatype SetupResponse = SetupResponse(apiKey: string, friendlyId: string, imageUrl: string, message: string)

  /** `setup_endpoint` after the lookup by MAC: `existing` is the device found, if any,
      and `freshApiKey` the random key a new device is given. The result of
      registering a new device is discarded, so it does not affect the reply. */
  function Setup(existing: Option<KnownDevice>, mac: string, freshApiKey: string, baseUrl: string)
    : (r: Result<SetupResponse, Fault>)
    ensures existing.Some? ==> r.Ok? && r.value.apiKey == existing.value.apiKey
    ensures existing.Some? && existing.value.friendlyId.Some? ==> r.Ok? && r.value.friendlyId == existing.value.friendlyId.value
    ensures existing.Some? && existing.value.friendlyId.None? ==> r.Ok? && r.value.friendlyId == "unknown"
    ensures existing.None? ==> (r.Ok? <==> IsCharBoundary(mac, MacSuffixOffset))
    ensures existing.None? && r.Ok? ==> r.value.apiKey == freshApiKey
    ensures existing.None? && r.Ok? ==> MacSuffixOffset <= ByteLen(mac)
    ensures existing.None? && r.Ok? ==>
      Encode(r.value.friendlyId) == Encode(FriendlyIdPrefix) + Encode(mac)[MacSuffixOffset..]
    ensures r.Ok? ==> r.value.imageUrl == baseUrl + Display.SetupLogoUrlPath && r.value.message == "Hello from TRMNL!"
    ensures r.Err? ==> r.error == Panic
  {
    var pair: Result<(string, string), Fault> :=
      match existing
      case Some(device) => Ok((device.apiKey, device.friendlyId.GetOr("unknown")))
      case None =>
        match NewDeviceRow(mac, freshApiKey)
        case Err(e) => Err(e)
        case Ok(row) => Ok((freshApiKey, row.friendlyId));
    match pair
    case Err(e) => Err(e)
    case Ok(credentials) =>
      Ok(SetupResponse(credentials.0, credentials.1, baseUrl + "/storage/images/setup-logo.bmp", "Hello from TRMNL!"))
  }

  /** The setup reply points at the same image as the directive for a device without a screen image. */
  lemma SetupImageMatchesDisplay(existing: Option<KnownDevice>, mac: string, freshApiKey: string,
                                 baseUrl: string, device: Display.Device)
    requires device.currentScreenImage.None?
    requires Setup(existing, mac, freshApiKey, baseUrl).Ok?
    ensures Setup(existing, mac, freshApiKey, baseUrl).value.imageUrl == Display.FromDevice(device, baseUrl).imageUrl
  {
  }

  /** A newly registered device is told the friendly id that is stored for it. */
  lemma SetupReportsStoredFriendlyId(mac: string, freshApiKey: string, baseUrl: string)
    requires IsCharBoundary(mac, MacSuffixOffset)
    ensures Setup(None, mac, freshApiKey, baseUrl).Ok?
    ensures Setup(None, mac, freshApiKey, baseUrl).value.friendlyId == NewDeviceRow(mac, freshApiKey).value.friendlyId
    ensures Setup(None, mac, freshApiKey, baseUrl).value.apiKey == NewDeviceRow(mac, freshApiKey).value.apiKey
  {
  }

  /** Directory, relative to the working directory, where rendered images are written. */
  const GeneratedDir: string := "assets/images/generated/"

  /** What `render_webpage` writes and reports for one render, keyed by its fresh `uuid`. */
  datatype RenderPlan = RenderPlan(
    filename: string,
    screenshotPath: string,
    bmpPath: string,
    converterArgs: seq<string>,
    message: string)

  /** `render_webpage` after the screenshot: the PNG it writes, the BMP the converter
      produces, the converter's argument list and the reply message. */
  function PlanRender(uuid: string): (p: RenderPlan)
    ensures p.screenshotPath == GeneratedDir + p.filename && p.filename == uuid + ".png"
    ensures EndsWith(p.bmpPath, ".bmp") && EndsWith(p.screenshotPath, ".png")
    ensures p.bmpPath[..|p.bmpPath| - 4] == p.screenshotPath[..|p.screenshotPath| - 4] == GeneratedDir + uuid
    ensures |p.converterArgs| == 6 && p.converterArgs[0] == p.screenshotPath
    ensures p.converterArgs[1..5] == ["-monochrome", "-depth", "1", "-strip"]
    ensures p.converterArgs[5] == "bmp3:" + p.bmpPath
    ensures p.message == "Screenshot saved as " + p.filename
  {
    var filename := uuid + ".png";
    var screenshotPath := GeneratedDir + filename;
    var outputPath := GeneratedDir + uuid + ".bmp";
    var bmpOutput := "bmp3:" + outputPath;
    assert screenshotPath == GeneratedDir + uuid + ".png";
    assert screenshotPath[..|screenshotPath| - 4] == GeneratedDir + uuid;
    assert outputPath[..|outputPath| - 4] == GeneratedDir + uuid;
    RenderPlan(
      filename := filename,
      screenshotPath := screenshotPath,
      bmpPath := outputPath,
      converterArgs := [screenshotPath, "-monochrome", "-depth", "1", "-strip", bmpOutput],
      message := "Screenshot saved as " + filename)
  }

  /** Distinct identifiers never share an artifact path, and no PNG path is ever a BMP path. */
  lemma PlanRenderInjective(u: string, v: string)
    ensures PlanRender(u).screenshotPath == PlanRender(v).screenshotPath ==> u == v
    ensures PlanRender(u).bmpPath == PlanRender(v).bmpPath ==> u == v
    ensures PlanRender(u).screenshotPath != PlanRender(v).bmpPath
  {
    var p, q := PlanRender(u), PlanRender(v);
    if p.screenshotPath == q.screenshotPath || p.bmpPath == q.bmpPath {
      assert (GeneratedDir + u)[|GeneratedDir|..] == u;
      assert (GeneratedDir + v)[|GeneratedDir|..] == v;
    }
    assert p.screenshotPath[|p.screenshotPath| - 1] == 'g';
    assert q.bmpPath[|q.bmpPath| - 1] == 'p';
  }

  /** For a device showing render `uuid`, the directive's file name is the name of
      the artifact of that render in the chosen format. */
  lemma DirectiveNamesRenderedArtifact(device: Display.Device, baseUrl: string, uuid: string)
    requires device.currentScreenImage == Some(uuid)
    ensures var f := Display.FromDevice(device, baseUrl).filename;
      if Display.UseBmp(device.lastFirmwareVersion) then PlanRender(uuid).bmpPath == GeneratedDir + f
      else PlanRender(uuid).screenshotPath == GeneratedDir + f
  {
    ConcatAssoc(GeneratedDir, uuid, ".bmp");
  }
}
