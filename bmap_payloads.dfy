/**
 * The payload decoders of src/devices/bose.py and the registry that picks
 * one by function block and function id.
 *
 * Function ids are scoped by block: the same byte names different
 * operations in different blocks (the `Function` enum makes the later names
 * aliases of the earlier ones), so a function is identified here by its byte.
 * Enum members are represented by their values; `_applyBitmask` over an
 * enum is `ApplyBitmaskToBytes` over the list of its values in declaration
 * order.
 */
module BmapPayloads {
  import opened Common
  import opened Helpers
  import opened BmapCodec

  // Function blocks that have registered decoders, and DEVICE_MANAGEMENT.
  const PRODUCT_INFO: byte := 0x00
  const SETTINGS: byte := 0x01
  const DEVICE_MANAGEMENT: byte := 0x04
  const CONTROL: byte := 0x07

  // PRODUCT_INFO functions
  const ALL_FUNCTIONS: byte := 0x04
  const FIRMWARE_VERSION: byte := 0x05
  const MAC_ADDRESS: byte := 0x06
  const SERIAL_NUMBER: byte := 0x07
  const HARDWARE_REVISION: byte := 0x0a
  const COMPONENT_DEVICES: byte := 0x0b

  // SETTINGS functions
  const ALL_SETTINGS: byte := 0x01
  const DEVICE_NAME: byte := 0x02
  const VOICE_PROMPTS: byte := 0x03
  const STANDBY_TIMER: byte := 0x04
  const CNC: byte := 0x05
  const ANR: byte := 0x06
  const BASS_CONTROL: byte := 0x07
  const ALERTS: byte := 0x08
  const BUTTONS: byte := 0x09
  const MULTIPOINT: byte := 0x0a
  const SIDETONE: byte := 0x0b
  const IMU_VOLUME_CT: byte := 0x17

  // CONTROL functions
  const ALL_CONTROLS: byte := 0x01
  const CHIRP: byte := 0x02

  // Values of the enums whose members `_applyBitmask` enumerates.
  const LANGUAGES: seq<nat> := [0x00, 0x01, 0x02, 0x03, 0x04, 0x05, 0x06, 0x07, 0x08, 0x09, 0x0a,
                                0x0b, 0x0c, 0x0d, 0x0e, 0x0f, 0x10, 0x11, 0x12, 0x13, 0x14, 0x15]
  const ANR_LEVELS: seq<nat> := [0, 1, 2, 3]
  const BUTTON_MODES: seq<nat> := [0, 1, 2, 3, 4]
  const SIDETONE_LEVELS: seq<nat> := [0, 1, 2, 3]

  const LAST_LANGUAGE: nat := 0x15
  const LAST_ANR_LEVEL: nat := 3
  const LAST_BUTTON_MODE: nat := 4
  const LAST_SIDETONE_LEVEL: nat := 3
  const LAST_CHIRP_STOP_REASON: nat := 4

  // ActionButtonSetting defaults
  const DEFAULT_BUTTON_ID: byte := 16
  const DEFAULT_EVENT_TYPE: byte := 4
  const DEFAULT_FUNCTION: nat := 0

  /** The transformations registered in `_FUNCTIONS`. */
  datatype Decoder =
    | Text            // `bytes.decode`
    | MacAddress      // `_bytesToMacAddress`
    | DeviceName      // `x[1:].decode()`
    | VoicePrompts
    | StandbyTimer
    | Cnc
    | Anr
    | BassControl
    | Alerts
    | Buttons
    | Multipoint
    | Sidetone
    | ImuVolume
    | Chirp

  datatype VoicePromptSetting = VoicePromptSetting(canChange: bool, isEnabled: bool, language: nat, supportedLanguages: seq<nat>)

  datatype ActionButtonSetting = ActionButtonSetting(isConfigurable: bool, buttonId: byte, buttonEventType: byte,
                                                     configuredFunctionality: nat, supportedFunctionality: seq<nat>)

  datatype PairedDevice = PairedDevice(macAddress: string, isConnected: bool, isLocalDevice: bool, isBoseProduct: bool,
                                       productType: Option<nat>, productId: Option<nat>, productVariant: Option<byte>,
                                       name: seq<byte>)

  /** What a registered decoder returns. Text stays as its UTF-8 bytes. */
  datatype Decoded =
    | TextValue(utf8: seq<byte>)
    | MacValue(mac: string)
    | Number(n: byte)                                   // STANDBY_TIMER
    | Steps(numberOfSteps: byte, currentStep: byte)     // CNC
    | AnrValue(level: nat, supportedLevels: seq<nat>)
    | BassValue(minStep: byte, maxStep: byte, currentStep: byte)
    | TwoFlags(first: bool, second: bool)               // ALERTS, MULTIPOINT
    | SidetoneValue(persist: byte, level: nat, supportedLevels: seq<nat>)
    | VoicePromptValue(voice: VoicePromptSetting)
    | ButtonValue(button: ActionButtonSetting)
    | Switch(on: bool)                                  // IMU_VOLUME_CT
    | ChirpValue(isInProgress: bool, stopReason: nat)

  /** The exceptions a decoder raises on a payload. */
  datatype PayloadError =
    | IndexOutOfRange          // IndexError on `x[i]`
    | BadEnumValue(value: nat) // ValueError from an enum constructor

  // ---------------------------------------------------------------------
  // Decoders
  // ---------------------------------------------------------------------

  /**
   * `VoicePromptSetting(bytes)`: the first byte holds canChange in bit 7,
   * the enabled flag in bit 5 and the language in bits 0-4; the remaining
   * bytes are the bitmask of supported languages.
   */
  function DecodeVoicePrompt(x: seq<byte>): (r: Result<VoicePromptSetting, PayloadError>)
    ensures r.Ok? <==> |x| > 0 && x[0] % 32 <= LAST_LANGUAGE
    ensures r.Ok? ==> r.value.language <= LAST_LANGUAGE
    ensures r.Ok? ==>
      r.value.canChange == (x[0] >= 128) &&
      r.value.isEnabled == (x[0] % 64 >= 32) &&
      r.value.language == x[0] % 32
    ensures r.Ok? ==> r.value.supportedLanguages == ApplyBitmaskToBytes(LANGUAGES, x[1..])
    ensures r.Ok? ==> forall m :: m in r.value.supportedLanguages ==> m in LANGUAGES
  {
    if |x| == 0 then Err(IndexOutOfRange)
    else
      var b1 := x[0];
      LowSixBits(b1);
      assert Pow2(7) == 128;
      assert Bit(b1, 7) <==> b1 >= 128;
      if b1 % 32 > LAST_LANGUAGE then Err(BadEnumValue(b1 % 32))
      else Ok(VoicePromptSetting(Bit(b1, 7), Bit(b1, 5), b1 % 32, ApplyBitmaskToBytes(LANGUAGES, x[1..])))
  }

  /** `VoicePromptSetting._getPayload()`: language and the enabled flag, never canChange. */
  function VoicePromptPayload(s: VoicePromptSetting): (r: seq<byte>)
    ensures |r| == 1 && r[0] < 64
  {
    [s.language % 32 + (if s.isEnabled then 32 else 0)]
  }

  /** `ActionButtonSetting(bytes)`: a single byte means "not configurable now". */
  function DecodeActionButton(x: seq<byte>): (r: Result<ActionButtonSetting, PayloadError>)
    ensures r.Ok? <==> |x| == 1 || (|x| >= 3 && x[2] <= LAST_BUTTON_MODE)
    ensures |x| == 1 ==>
      r == Ok(ActionButtonSetting(false, DEFAULT_BUTTON_ID, DEFAULT_EVENT_TYPE, DEFAULT_FUNCTION, []))
    ensures |x| >= 3 && r.Ok? ==>
      r.value == ActionButtonSetting(true, x[0], x[1], x[2], ApplyBitmaskToBytes(BUTTON_MODES, x[3..]))
  {
    if |x| == 1 then Ok(ActionButtonSetting(false, DEFAULT_BUTTON_ID, DEFAULT_EVENT_TYPE, DEFAULT_FUNCTION, []))
    else if |x| < 3 then Err(IndexOutOfRange)
    else if x[2] > LAST_BUTTON_MODE then Err(BadEnumValue(x[2]))
    else Ok(ActionButtonSetting(true, x[0], x[1], x[2], ApplyBitmaskToBytes(BUTTON_MODES, x[3..])))
  }

  /**
   * `ActionButtonSetting._getPayload()`; decoding the payload of a setting
   * with a valid mode gives back its id, event type and mode, as
   * configurable and with no supported modes listed.
   */
  function ActionButtonPayload(b: ActionButtonSetting): (r: Result<seq<byte>, PayloadError>)
    ensures r.Ok? <==> b.configuredFunctionality < 256
    ensures r.Ok? ==> r.value == [b.buttonId, b.buttonEventType, b.configuredFunctionality]
    ensures b.configuredFunctionality <= LAST_BUTTON_MODE ==>
      r.Ok? && DecodeActionButton(r.value)
        == Ok(ActionButtonSetting(true, b.buttonId, b.buttonEventType, b.configuredFunctionality, []))
  {
    if b.configuredFunctionality < 256 then
      var x: seq<byte> := [b.buttonId, b.buttonEventType, b.configuredFunctionality];
      assert x[3..] == [];
      EmptyMaskSelectsNothing(BUTTON_MODES);
      Ok(x)
    else Err(BadEnumValue(b.configuredFunctionality))
  }

  /**
   * The branch of `PairedDevice(bytes)` taken when `bytes[6] & 0x0100` is
   * set: product type, id and variant, and the name from offset 10.
   */
  function BoseProductFields(x: seq<byte>): (r: Result<(nat, nat, byte, seq<byte>), PayloadError>)
    requires |x| >= 7
    ensures r.Ok? ==> |x| >= 10 && r.value.0 == 1
  {
    var productType := (x[6] / 128) % 2;
    if productType != 1 then Err(BadEnumValue(productType))
    else if |x| < 10 then Err(IndexOutOfRange)
    else Ok((productType, x[7] as int * 256 + x[8] as int, x[9], x[10..]))
  }

  /**
   * `PairedDevice(bytes)`, as written, including its `0x0100` test on a
   * byte: the first six bytes are the MAC, byte 6 holds the flags.
   */
  function DecodePairedDevice(x: seq<byte>): (r: Result<PairedDevice, PayloadError>)
    ensures |x| < 7 ==> r == Err(IndexOutOfRange)
    ensures r.Ok? ==> |x| >= 7 && r.value.macAddress == BytesToMacAddress(x[..6]) && |r.value.macAddress| == 17
    ensures r.Ok? ==> r.value.isConnected == (x[6] % 2 == 1) && r.value.isLocalDevice == Bit(x[6], 4)
  {
    if |x| < 7 then Err(IndexOutOfRange)
    else
      var mac := BytesToMacAddress(x[..6]);
      var b := x[6];
      if Bit(b, 8) then
        match BoseProductFields(x)
        case Err(e) => Err(e)
        case Ok((productType, productId, variant, name)) =>
          Ok(PairedDevice(mac, Bit(b, 0), Bit(b, 4), true, Some(productType), Some(productId), Some(variant), name))
      else
        Ok(PairedDevice(mac, Bit(b, 0), Bit(b, 4), false, None, None, None, Suffix(x, 9)))
  }

  /** The argument `setAlerts` sends: `ringtoneEnabled | (hapticsEnabled << 1)`. */
  function AlertsPayload(ringtoneEnabled: bool, hapticsEnabled: bool): (r: byte)
    ensures r < 4
  {
    (if ringtoneEnabled then 1 else 0) + (if hapticsEnabled then 2 else 0)
  }

  /** The argument `setMultipoint` sends: `isEnabled | (isSupported << 1)`. */
  function MultipointPayload(isSupported: bool, isEnabled: bool): (r: byte)
    ensures r < 4
  {
    (if isEnabled then 1 else 0) + (if isSupported then 2 else 0)
  }

  /** A registered transformation applied to a STATUS payload. */
  function ApplyDecoder(d: Decoder, x: seq<byte>): (r: Result<Decoded, PayloadError>)
    ensures d in {Text, MacAddress, DeviceName, ImuVolume} ==> r.Ok?
    ensures r.Err? && r.error.IndexOutOfRange? ==> |x| < 3
  {
    match d
    case Text => Ok(TextValue(x))
    case MacAddress => Ok(MacValue(BytesToMacAddress(x)))
    case DeviceName => Ok(TextValue(Suffix(x, 1)))
    case VoicePrompts =>
      (match DecodeVoicePrompt(x)
       case Ok(s) => Ok(VoicePromptValue(s))
       case Err(e) => Err(e))
    case StandbyTimer => if |x| < 1 then Err(IndexOutOfRange) else Ok(Number(x[0]))
    case Cnc => if |x| < 2 then Err(IndexOutOfRange) else Ok(Steps(x[0], x[1]))
    case Anr =>
      if |x| < 1 then Err(IndexOutOfRange)
      else if x[0] > LAST_ANR_LEVEL then Err(BadEnumValue(x[0]))
      else Ok(AnrValue(x[0], ApplyBitmaskToBytes(ANR_LEVELS, x[1..])))
    case BassControl => if |x| < 3 then Err(IndexOutOfRange) else Ok(BassValue(x[0], x[1], x[2]))
    case Alerts => if |x| < 1 then Err(IndexOutOfRange) else Ok(TwoFlags(Bit(x[0], 0), Bit(x[0], 1)))
    case Buttons =>
      (match DecodeActionButton(x)
       case Ok(b) => Ok(ButtonValue(b))
       case Err(e) => Err(e))
    case Multipoint => if |x| < 1 then Err(IndexOutOfRange) else Ok(TwoFlags(Bit(x[0], 1), Bit(x[0], 0)))
    case Sidetone =>
      if |x| < 2 then Err(IndexOutOfRange)
      else if x[1] > LAST_SIDETONE_LEVEL then Err(BadEnumValue(x[1]))
      else Ok(SidetoneValue(x[0], x[1], ApplyBitmaskToBytes(SIDETONE_LEVELS, x[2..])))
    case ImuVolume => Ok(Switch(|x| > 0))
    case Chirp =>
      if |x| < 1 then Err(IndexOutOfRange)
      else
        var reason := (x[0] / 2) % 128;
        if reason > LAST_CHIRP_STOP_REASON then Err(BadEnumValue(reason))
        else Ok(ChirpValue(Bit(x[0], 0), reason))
  }

  // ---------------------------------------------------------------------
  // Registry and dispatch
  // ---------------------------------------------------------------------

  /** `_FUNCTIONS`, keyed by block byte and then by function id byte. */
  const Registry: map<byte, map<byte, Decoder>> := map[
    PRODUCT_INFO := map[
      FIRMWARE_VERSION := Text,
      MAC_ADDRESS := MacAddress,
      SERIAL_NUMBER := Text,
      HARDWARE_REVISION := Text,
      COMPONENT_DEVICES := Text],
    SETTINGS := map[
      DEVICE_NAME := DeviceName,
      VOICE_PROMPTS := VoicePrompts,
      STANDBY_TIMER := StandbyTimer,
      CNC := Cnc,
      ANR := Anr,
      BASS_CONTROL := BassControl,
      ALERTS := Alerts,
      BUTTONS := Buttons,
      MULTIPOINT := Multipoint,
      SIDETONE := Sidetone,
      IMU_VOLUME_CT := ImuVolume],
    CONTROL := map[
      CHIRP := Chirp]]

  /** The decoder registered for a (block, function) pair; only three blocks have any. */
  function Lookup(block: byte, functionId: byte): (r: Option<Decoder>)
    ensures r.Some? <==> block in Registry && functionId in Registry[block]
    ensures r.Some? ==> r.value == Registry[block][functionId]
    ensures r.Some? ==> block in {PRODUCT_INFO, SETTINGS, CONTROL}
    ensures r.Some? && block == CONTROL ==> functionId == CHIRP && r.value == Chirp
  {
    if block in Registry && functionId in Registry[block] then Some(Registry[block][functionId]) else None
  }

  /** Why a registered decode did not produce a value. */
  datatype DispatchError =
    | RegistryMiss(block: byte, functionId: byte)  // no decoder for the pair
    | NotAPayload                                   // the response was a list or "no value"
    | NotTagged                                     // a list element without a function id
    | PayloadFailed(cause: PayloadError)            // the decoder raised

  /** The decoder applied to a decoded response, which must be a single payload. */
  function DecodeResponse(d: Decoder, resp: Response): (r: Result<Decoded, DispatchError>)
    ensures !resp.Payload? ==> r == Err(NotAPayload)
    ensures resp.Payload? ==>
      (r.Ok? <==> ApplyDecoder(d, resp.bytes).Ok?) &&
      (r.Ok? ==> r.value == ApplyDecoder(d, resp.bytes).value) &&
      (r.Err? ==> r.error == PayloadFailed(ApplyDecoder(d, resp.bytes).error))
  {
    match resp
    case Payload(x) =>
      (match ApplyDecoder(d, x)
       case Ok(v) => Ok(v)
       case Err(e) => Err(PayloadFailed(e)))
    case _ => Err(NotAPayload)
  }

  /**
   * The dictionary comprehension of `_sendAndParseAll`, applied to
   * `elements` on top of the entries already in `acc`: each
   * `(function, payload)` element is decoded with the decoder registered
   * for it, and a later element for the same function replaces an earlier one.
   */
  function KeyedDecodeFrom(block: byte, elements: seq<Response>, acc: map<byte, Decoded>): (r: Result<map<byte, Decoded>, DispatchError>)
    ensures r.Ok? ==> acc.Keys <= r.value.Keys
    ensures r.Ok? ==> forall i :: 0 <= i < |elements| ==>
      elements[i].Tagged? && Lookup(block, elements[i].functionId).Some? && elements[i].functionId in r.value
    decreases |elements|
  {
    if |elements| == 0 then Ok(acc)
    else
      match ElementEntry(block, elements[0])
      case Err(e) => Err(e)
      case Ok((k, v)) => KeyedDecodeFrom(block, elements[1..], acc[k := v])
  }

  /** One element of the comprehension: its function id and its decoded payload. */
  function ElementEntry(block: byte, element: Response): (r: Result<(byte, Decoded), DispatchError>)
    ensures r.Ok? ==> element.Tagged? && r.value.0 == element.functionId
    ensures r.Ok? ==> Lookup(block, element.functionId).Some?
  {
    match element
    case Tagged(k, x) =>
      (match Lookup(block, k)
       case None => Err(RegistryMiss(block, k))
       case Some(d) =>
         match ApplyDecoder(d, x)
         case Ok(v) => Ok((k, v))
         case Err(e) => Err(PayloadFailed(e)))
    case _ => Err(NotTagged)
  }

  /**
   * The whole comprehension: on success every element is a registered
   * `(function, payload)` pair whose function is a key.
   */
  function KeyedDecode(block: byte, elements: seq<Response>): (r: Result<map<byte, Decoded>, DispatchError>)
    ensures r.Ok? ==> forall i :: 0 <= i < |elements| ==>
      elements[i].Tagged? && Lookup(block, elements[i].functionId).Some? && elements[i].functionId in r.value
    ensures |elements| == 0 ==> r == Ok(map[])
  {
    KeyedDecodeFrom(block, elements, map[])
  }

  // ---------------------------------------------------------------------
  // Properties
  // ---------------------------------------------------------------------

  /** The ALERTS decoder reads back what `setAlerts` sends. */
  lemma AlertsRoundTrip(ringtoneEnabled: bool, hapticsEnabled: bool)
    ensures ApplyDecoder(Alerts, [AlertsPayload(ringtoneEnabled, hapticsEnabled)])
         == Ok(TwoFlags(ringtoneEnabled, hapticsEnabled))
  {
    var b := AlertsPayload(ringtoneEnabled, hapticsEnabled);
    assert b / Pow2(1) == if hapticsEnabled then 1 else 0;
  }

  /** The MULTIPOINT decoder reads back what `setMultipoint` sends, in (isSupported, isEnabled) order. */
  lemma MultipointRoundTrip(isSupported: bool, isEnabled: bool)
    ensures ApplyDecoder(Multipoint, [MultipointPayload(isSupported, isEnabled)])
         == Ok(TwoFlags(isSupported, isEnabled))
  {
    var b := MultipointPayload(isSupported, isEnabled);
    assert b / Pow2(1) == if isSupported then 1 else 0;
  }

  /**
   * The CHIRP decoder accepts exactly the first bytes below 10: bit 0 is
   * "in progress" and the rest is a stop reason up to 4.
   */
  lemma ChirpDecoding(x: seq<byte>)
    ensures ApplyDecoder(Chirp, x).Ok? <==> |x| > 0 && x[0] < 10
    ensures ApplyDecoder(Chirp, x).Ok? ==>
      ApplyDecoder(Chirp, x).value == ChirpValue(x[0] % 2 == 1, x[0] / 2)
  {
    if |x| > 0 {
      assert x[0] / 2 < 128;
    }
  }

  /** `(b1 & 0x1f) | (b1 & 0x20) == b1 & 0x3f` for a byte. */
  lemma LowSixBits(b: byte)
    ensures b % 64 == b % 32 + (if Bit(b, 5) then 32 else 0)
  {
    assert Pow2(5) == 32;
    var q := b / 32;
    DivUnique(b, 64, q / 2, 32 * (q % 2) + b % 32);
  }

  /** The byte `_getPayload` builds carries the language in bits 0-4 and the flag in bit 5. */
  lemma VoicePromptByte(s: VoicePromptSetting)
    requires s.language <= LAST_LANGUAGE
    ensures var b := VoicePromptPayload(s)[0];
      b % 32 == s.language && Bit(b, 5) == s.isEnabled && !Bit(b, 7)
  {
    var b := VoicePromptPayload(s)[0];
    var enabled := if s.isEnabled then 1 else 0;
    DivUnique(s.language, 32, 0, s.language);
    DivUnique(b, 32, enabled, s.language);
    DivUnique(b, 128, 0, b);
    assert Pow2(5) == 32 && Pow2(7) == 128;
  }

  /**
   * Decoding what `_getPayload` produces keeps the language and the enabled
   * flag; canChange reads back false and no language is listed as supported.
   */
  lemma VoicePromptRoundTrip(s: VoicePromptSetting)
    requires s.language <= LAST_LANGUAGE
    ensures DecodeVoicePrompt(VoicePromptPayload(s))
         == Ok(VoicePromptSetting(false, s.isEnabled, s.language, []))
  {
    var x := VoicePromptPayload(s);
    assert x[1..] == [];
    EmptyMaskSelectsNothing(LANGUAGES);
    VoicePromptByte(s);
  }

  /** Re-encoding a decoded setting gives its first byte with canChange (bits 6-7) cleared. */
  lemma VoicePromptReencode(x: seq<byte>)
    requires DecodeVoicePrompt(x).Ok?
    ensures VoicePromptPayload(DecodeVoicePrompt(x).value) == [x[0] % 64]
  {
    var v := DecodeVoicePrompt(x).value;
    assert v.language == x[0] % 32 && v.isEnabled == Bit(x[0], 5);
    DivUnique(v.language, 32, 0, v.language);
    LowSixBits(x[0]);
    var p := VoicePromptPayload(v);
    assert p[0] == v.language + (if v.isEnabled then 32 else 0);
    assert p[0] == x[0] % 64;
  }

  /** A button reads as not configurable exactly when its payload is one byte long. */
  lemma ActionButtonConfigurable(x: seq<byte>)
    requires DecodeActionButton(x).Ok?
    ensures !DecodeActionButton(x).value.isConfigurable <==> |x| == 1
  {
  }

  /**
   * `bytes[6] & 0x0100` is zero for every byte, so a paired device is never
   * a Bose product and its name always starts at offset 9.
   */
  lemma PairedDeviceIsNeverBoseProduct(x: seq<byte>)
    ensures DecodePairedDevice(x).Ok? <==> |x| >= 7
    ensures |x| >= 7 ==>
      DecodePairedDevice(x).value
        == PairedDevice(BytesToMacAddress(x[..6]), x[6] % 2 == 1, Bit(x[6], 4), false, None, None, None, Suffix(x, 9))
  {
    if |x| >= 7 {
      assert Pow2(8) == 256;
      assert x[6] / Pow2(8) == 0;
    }
  }

  /** Function ids are scoped by block: 0x0a is HARDWARE_REVISION in one and MULTIPOINT in another. */
  lemma RegistryIsScopedByBlock()
    ensures HARDWARE_REVISION == MULTIPOINT
    ensures Lookup(PRODUCT_INFO, HARDWARE_REVISION) == Some(Text)
    ensures Lookup(SETTINGS, MULTIPOINT) == Some(Multipoint)
    ensures Lookup(SETTINGS, ALERTS) == Some(Alerts)
    ensures Lookup(CONTROL, MULTIPOINT) == None
  {
  }

  /** Only PRODUCT_INFO, SETTINGS and CONTROL have decoders; the "all" functions have none. */
  lemma RegistryBlocks(block: byte, functionId: byte)
    ensures Lookup(block, functionId).Some? ==> block in {PRODUCT_INFO, SETTINGS, CONTROL}
    ensures Lookup(PRODUCT_INFO, ALL_FUNCTIONS).None? && Lookup(SETTINGS, ALL_SETTINGS).None?
    ensures Lookup(CONTROL, ALL_CONTROLS).None? && Lookup(DEVICE_MANAGEMENT, functionId).None?
  {
  }

  /** The first element that fails decides the error; otherwise every element is entered in order. */
  lemma {:induction false} KeyedDecodeSnoc(block: byte, elements: seq<Response>, e: Response, acc: map<byte, Decoded>)
    ensures KeyedDecodeFrom(block, elements + [e], acc) ==
      match KeyedDecodeFrom(block, elements, acc)
      case Err(err) => Err(err)
      case Ok(m) =>
        match ElementEntry(block, e)
        case Err(err) => Err(err)
        case Ok((k, v)) => Ok(m[k := v])
    decreases |elements|
  {
    if |elements| == 0 {
      assert elements + [e] == [e];
      assert [e][1..] == [];
    } else {
      assert (elements + [e])[1..] == elements[1..] + [e];
      match ElementEntry(block, elements[0])
      case Err(_) =>
      case Ok((k, v)) => KeyedDecodeSnoc(block, elements[1..], e, acc[k := v]);
    }
  }

  /** A successful keyed decode has exactly the function ids of the list as keys. */
  lemma {:induction false} KeyedDecodeKeys(block: byte, elements: seq<Response>)
    requires KeyedDecode(block, elements).Ok?
    ensures var m := KeyedDecode(block, elements).value;
      forall k :: k in m <==> exists i :: 0 <= i < |elements| && elements[i].functionId == k
    decreases |elements|
  {
    if |elements| > 0 {
      var init := elements[..|elements| - 1];
      var e := elements[|elements| - 1];
      assert elements == init + [e];
      KeyedDecodeSnoc(block, init, e, map[]);
      KeyedDecodeKeys(block, init);
      var m := KeyedDecode(block, elements).value;
      forall k | k in m && k != e.functionId
        ensures exists i :: 0 <= i < |elements| && elements[i].functionId == k
      {
        var i :| 0 <= i < |init| && init[i].functionId == k;
        assert elements[i].functionId == k;
      }
    }
  }

  /**
   * A successful keyed decode has one entry per function id in the list,
   * and each maps to the decoding of the last element with that id.
   */
  lemma {:induction false} KeyedDecodeLastWins(block: byte, elements: seq<Response>)
    requires KeyedDecode(block, elements).Ok?
    ensures forall i :: 0 <= i < |elements| ==> elements[i].Tagged?
    ensures var m := KeyedDecode(block, elements).value;
      forall k :: k in m <==> exists i :: 0 <= i < |elements| && elements[i].functionId == k
    ensures var m := KeyedDecode(block, elements).value;
      forall i :: 0 <= i < |elements| && (forall j :: i < j < |elements| ==> elements[j].functionId != elements[i].functionId)
        ==> ElementEntry(block, elements[i]) == Ok((elements[i].functionId, m[elements[i].functionId]))
    decreases |elements|
  {
    KeyedDecodeKeys(block, elements);
    if |elements| > 0 {
      var init := elements[..|elements| - 1];
      var e := elements[|elements| - 1];
      assert elements == init + [e];
      KeyedDecodeSnoc(block, init, e, map[]);
      KeyedDecodeLastWins(block, init);
      var m, mi := KeyedDecode(block, elements).value, KeyedDecode(block, init).value;
      var v := ElementEntry(block, e).value.1;
      assert m == mi[e.functionId := v];
      forall i | 0 <= i < |elements| && (forall j :: i < j < |elements| ==> elements[j].functionId != elements[i].functionId)
        ensures ElementEntry(block, elements[i]) == Ok((elements[i].functionId, m[elements[i].functionId]))
      {
        if i < |init| {
          assert init[i] == elements[i];
          assert elements[i].functionId != e.functionId;
          assert forall j :: i < j < |init| ==> init[j] == elements[j];
        }
      }
    }
  }
}
