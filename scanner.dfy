/**
 * The BLE advertisement parser of src/scanners/bose.py: the manufacturer
 * specific field, the display name, and the decoders for the Legacy and
 * v1.0.4 layouts of that field.
 *
 * The platform probe that tells whether the advertised name is shortened
 * is an input here (`shortenedName`).
 */
module BoseScanner {
  import opened Common
  import opened Helpers

  // ---------------------------------------------------------------------
  // Manufacturer specific field
  // ---------------------------------------------------------------------

  /**
   * `_getManufacturerSpecificField`: with exactly one (company id, data)
   * entry, the company id low byte first, then its next byte, then the data.
   */
  function ManufacturerField(entries: seq<(nat, seq<byte>)>): (r: Option<seq<byte>>)
    ensures r.Some? <==> |entries| == 1
    ensures r.Some? ==> |r.value| == 2 + |entries[0].1| && r.value[2..] == entries[0].1
  {
    if |entries| != 1 then None
    else
      var (key, data) := entries[0];
      Some([key % 256, (key / 256) % 256] + data)
  }

  /** A 16-bit company id is read back from the first two bytes, low byte first. */
  lemma CompanyIdLowByteFirst(key: nat, data: seq<byte>)
    requires key < 0x1_0000
    ensures var f := ManufacturerField([(key, data)]).value;
      f[0] as int + 256 * f[1] as int == key
  {
    DivUnique(key / 256, 256, 0, key / 256);
  }

  // ---------------------------------------------------------------------
  // Display name
  // ---------------------------------------------------------------------

  const ELLIPSIS: char := '…'

  /** Python's truth value of an optional string: present and non-empty. */
  predicate Truthy(name: Option<string>)
  {
    name.Some? && |name.value| > 0
  }

  /**
   * `getFullName`: the device name, else the advertised local name, without
   * one leading "LE-", with "…" appended when the name is shortened.
   */
  function FullName(deviceName: Option<string>, localName: Option<string>, shortenedName: bool): (r: Option<string>)
    ensures r.Some? <==> Truthy(deviceName) || Truthy(localName)
  {
    var name := if Truthy(deviceName) then deviceName else localName;
    if !Truthy(name) then None
    else
      var n := name.value;
      var stripped := if |n| >= 3 && n[..3] == "LE-" then n[3..] else n;
      Some(if shortenedName then stripped + [ELLIPSIS] else stripped)
  }

  /** The device name wins over the local name whenever it is non-empty. */
  lemma FullNamePrefersDeviceName(deviceName: string, localName: Option<string>, shortenedName: bool)
    requires |deviceName| > 0
    ensures FullName(Some(deviceName), localName, shortenedName) == FullName(Some(deviceName), None, shortenedName)
    ensures FullName(None, Some(deviceName), shortenedName) == FullName(Some(deviceName), localName, shortenedName)
    ensures FullName(Some(""), Some(deviceName), shortenedName) == FullName(Some(deviceName), None, shortenedName)
  {
  }

  /** Only one "LE-" is removed. */
  lemma FullNameStripsOnePrefix(name: string)
    ensures FullName(Some("LE-" + name), None, false) == Some(name)
    ensures FullName(Some("LE-LE-" + name), None, false) == Some("LE-" + name)
  {
    assert ("LE-" + name)[..3] == "LE-";
    assert ("LE-LE-" + name)[..3] == "LE-";
    assert ("LE-LE-" + name)[3..] == "LE-" + name;
  }

  /** A name that does not start with "LE-" comes back unchanged. */
  lemma FullNameKeepsUnprefixed(name: string)
    requires |name| > 0 && !(|name| >= 3 && name[..3] == "LE-")
    ensures FullName(Some(name), None, false) == Some(name)
    ensures FullName(None, Some(name), false) == Some(name)
  {
  }

  /** The shortened flag appends exactly one "…" and changes nothing else. */
  lemma FullNameShortened(deviceName: Option<string>, localName: Option<string>)
    requires Truthy(deviceName) || Truthy(localName)
    ensures FullName(deviceName, localName, true) == Some(FullName(deviceName, localName, false).value + [ELLIPSIS])
  {
  }

  // ---------------------------------------------------------------------
  // Bit fields
  // ---------------------------------------------------------------------

  /**
   * `shiftBitsMagic(value, shift1, shift2)`: `(value >> shift1) & (255 >> (8 - shift2))`,
   * that is, the `shift2` bits of `value` from bit `shift1` up.
   */
  function ShiftBitsMagic(value: nat, shift1: nat, shift2: nat): (r: nat)
    requires shift2 <= 8
    ensures r < Pow2(shift2)
  {
    Shr(value, shift1) % Pow2(shift2)
  }

  /** The two nibbles of a byte: `shiftBitsMagic(b, 0, 4)` and `shiftBitsMagic(b, 4, 4)`. */
  lemma ByteNibbles(b: byte)
    ensures ShiftBitsMagic(b, 0, 4) == b % 16
    ensures ShiftBitsMagic(b, 4, 4) == b / 16
  {
    assert Pow2(0) == 1 && Pow2(4) == 16;
    assert Shr(b, 0) == b;
    assert Shr(b, 4) == b / 16;
  }

  /** The mask `255 >> (8 - w)` is `2^w - 1`, so `& mask` keeps the low `w` bits. */
  lemma ShiftMaskIsLowBits(w: nat)
    requires w <= 8
    ensures 255 / Pow2(8 - w) == Pow2(w) - 1
  {
    Pow2Add(8 - w, w);
    assert Pow2(8) == 256;
    var d := Pow2(8 - w);
    assert 255 == d * (Pow2(w) - 1) + (d - 1);
    DivUnique(255, d, Pow2(w) - 1, d - 1);
  }

  /** Bit `i` of the result is bit `shift1 + i` of the value for `i < shift2`, and clear above. */
  lemma ShiftBitsMagicBits(value: nat, shift1: nat, shift2: nat, i: nat)
    requires shift2 <= 8
    ensures Bit(ShiftBitsMagic(value, shift1, shift2), i) <==> i < shift2 && Bit(value, shift1 + i)
  {
    var r := ShiftBitsMagic(value, shift1, shift2);
    if i < shift2 {
      BitOfMod(Shr(value, shift1), shift2, i);
      BitOfShift(value, shift1, i);
    } else {
      Pow2Monotone(shift2, i);
      DivUnique(r, Pow2(i), 0, r);
    }
  }

  // ---------------------------------------------------------------------
  // Decimal text
  // ---------------------------------------------------------------------

  predicate IsDecimalDigit(c: char)
  {
    '0' <= c <= '9'
  }

  /** `str(n)` for a non-negative integer. */
  function Decimal(n: nat): (r: string)
    ensures |r| >= 1 && forall i :: 0 <= i < |r| ==> IsDecimalDigit(r[i])
    ensures n >= 10 ==> r[0] != '0'
    decreases n
  {
    if n < 10 then [(48 + n) as char] else Decimal(n / 10) + [(48 + n % 10) as char]
  }

  /** The digits of `str(n)`, read back. */
  function DecimalValue(s: string): nat
    requires forall i :: 0 <= i < |s| ==> IsDecimalDigit(s[i])
  {
    if |s| == 0 then 0
    else
      var d := s[|s| - 1];
      assert IsDecimalDigit(d);
      10 * DecimalValue(s[..|s| - 1]) + (d as int - 48)
  }

  lemma {:induction false} DecimalRoundTrip(n: nat)
    ensures DecimalValue(Decimal(n)) == n
    decreases n
  {
    if n >= 10 {
      DecimalRoundTrip(n / 10);
      var s := Decimal(n);
      assert s[..|s| - 1] == Decimal(n / 10);
    }
  }

  // ---------------------------------------------------------------------
  // Decoded advertisement fields
  // ---------------------------------------------------------------------

  // `PairedDevice.ProductType` values
  const HEADPHONES: nat := 1
  const SPEAKER: nat := 2

  /** The attributes a valid version parser carries. */
  datatype AdvertFields = AdvertFields(
    bmapVersion: string,
    isInPairingMode: bool,
    isDevice1Connected: bool,
    device1MacAddress: Option<string>,
    isDevice2Connected: bool,
    device2MacAddress: Option<string>,
    productType: nat,
    productId: nat,
    variantId: nat,
    supportsMusicShare: bool,
    isInMusicShare: bool)

  // ---------------------------------------------------------------------
  // Legacy layout
  // ---------------------------------------------------------------------

  const LEGACY_LENGTH_MINIMUM: nat := 6
  const LEGACY_LENGTH_PER_MAC: nat := 6

  /** The length a Legacy field must have, from its connection bits in byte 5. */
  function LegacyLength(d5: byte): (n: nat)
    ensures n in {6, 12, 18}
  {
    LEGACY_LENGTH_MINIMUM + (if Bit(d5, 0) then LEGACY_LENGTH_PER_MAC else 0) + (if Bit(d5, 1) then LEGACY_LENGTH_PER_MAC else 0)
  }

  /**
   * The second version component as written: `shiftBitsMagic(d0, 0, 4) << 4 + shiftBitsMagic(d1, 4, 4)`,
   * where `+` binds tighter than `<<`.
   */
  function LegacyMinorVersion(d0: byte, d1: byte): (r: nat)
    ensures r == (d0 % 16) * Pow2(4 + d1 / 16)
  {
    ByteNibbles(d0);
    ByteNibbles(d1);
    ShiftBitsMagic(d0, 0, 4) * Pow2(4 + ShiftBitsMagic(d1, 4, 4))
  }

  /** `bmapVersion`: high nibble of byte 0, the minor version, low nibble of byte 1. */
  function LegacyVersion(d0: byte, d1: byte): (r: string)
    ensures r == Decimal(d0 / 16) + "." + Decimal(LegacyMinorVersion(d0, d1)) + "." + Decimal(d1 % 16)
  {
    ByteNibbles(d0);
    ByteNibbles(d1);
    Decimal(ShiftBitsMagic(d0, 4, 4)) + "." + Decimal(LegacyMinorVersion(d0, d1)) + "." + Decimal(ShiftBitsMagic(d1, 0, 4))
  }

  /** `BoseMFSParserLegacy(data)`, `None` where it ends with `isValid == False`. */
  function DecodeLegacy(data: seq<byte>): (r: Option<AdvertFields>)
    ensures r.Some? <==> |data| >= LEGACY_LENGTH_MINIMUM && |data| == LegacyLength(data[5])
  {
    if |data| < LEGACY_LENGTH_MINIMUM then None
    else
      var d5 := data[5];
      var connected1, connected2 := Bit(d5, 0), Bit(d5, 1);
      if |data| != LegacyLength(d5) then None
      else
        var pos2 := if connected1 then 12 else 6;
        Some(AdvertFields(
          LegacyVersion(data[0], data[1]),
          Bit(d5, 7),
          connected1,
          if connected1 then Some(BytesToMacAddress(data[6..12])) else None,
          connected2,
          if connected2 then Some(BytesToMacAddress(data[pos2..pos2 + 6])) else None,
          if Bit(d5, 5) then HEADPHONES else SPEAKER,
          data[2] as int * 256 + data[3] as int,
          data[4],
          Bit(d5, 4),
          Bit(d5, 2) || Bit(d5, 3)))
  }

  /**
   * A Legacy field built from a 6-byte header and the MACs of the connected
   * peers, in order, decodes to those MACs and the header's fields.
   */
  lemma LegacyLayout(header: seq<byte>, mac1: seq<byte>, mac2: seq<byte>)
    requires |header| == 6 && |mac1| == 6 && |mac2| == 6
    ensures var d5 := header[5];
      var data := header + (if Bit(d5, 0) then mac1 else []) + (if Bit(d5, 1) then mac2 else []);
      var r := DecodeLegacy(data);
      r.Some? &&
      r.value.device1MacAddress == (if Bit(d5, 0) then Some(BytesToMacAddress(mac1)) else None) &&
      r.value.device2MacAddress == (if Bit(d5, 1) then Some(BytesToMacAddress(mac2)) else None) &&
      r.value.productId == header[2] as int * 256 + header[3] as int && r.value.variantId == header[4] &&
      r.value.bmapVersion == LegacyVersion(header[0], header[1]) &&
      r.value.isInPairingMode == Bit(d5, 7) &&
      r.value.isDevice1Connected == Bit(d5, 0) && r.value.isDevice2Connected == Bit(d5, 1) &&
      r.value.productType == (if Bit(d5, 5) then HEADPHONES else SPEAKER) &&
      r.value.supportsMusicShare == Bit(d5, 4) &&
      r.value.isInMusicShare == (Bit(d5, 2) || Bit(d5, 3))
  {
    var d5 := header[5];
    var data := header + (if Bit(d5, 0) then mac1 else []) + (if Bit(d5, 1) then mac2 else []);
    assert data[0] == header[0] && data[1] == header[1] && data[5] == d5;
    if Bit(d5, 0) {
      assert data[6..12] == mac1;
      if Bit(d5, 1) {
        assert data[12..18] == mac2;
      }
    } else if Bit(d5, 1) {
      assert data[6..12] == mac2;
    }
  }

  /**
   * The precedence in the minor version: with low nibble 1 in `d0` and high
   * nibble 2 in `d1` it is `1 << 6`, not the nibble pair `0x12`.
   */
  lemma LegacyMinorVersionPrecedence()
    ensures LegacyMinorVersion(0x01, 0x20) == 64
    ensures ShiftBitsMagic(0x01, 0, 4) * 16 + ShiftBitsMagic(0x20, 4, 4) == 0x12
  {
    assert Pow2(4) == 16 && Pow2(6) == 64 && Pow2(0) == 1;
    assert ShiftBitsMagic(0x20, 4, 4) == 2;
  }

  // ---------------------------------------------------------------------
  // v1.0.4 layout
  // ---------------------------------------------------------------------

  const V104_LENGTH_MINIMUM: nat := 9
  const V104_LENGTH_PER_MAC: nat := 3

  function V104Length(d2: byte): (n: nat)
    ensures n in {9, 12, 15}
  {
    V104_LENGTH_MINIMUM + (if Bit(d2, 4) then V104_LENGTH_PER_MAC else 0) + (if Bit(d2, 5) then V104_LENGTH_PER_MAC else 0)
  }

  /** A v1.0.4 peer MAC: the three advertised bytes after three zero bytes. */
  function PartialMac(tail: seq<byte>): (r: string)
    requires |tail| == 3
    ensures |r| == 17
  {
    BytesToMacAddress([0, 0, 0] + tail)
  }

  /** A v1.0.4 peer MAC reads as "00:00:00:" followed by the advertised bytes' text. */
  lemma PartialMacText(tail: seq<byte>)
    requires |tail| == 3
    ensures PartialMac(tail) == "00:00:00:" + BytesToMacAddress(tail)
  {
    MacAddressAppend([0, 0, 0], tail);
    assert HexGroups([0, 0, 0]) == ["00", "00", "00"];
    assert BytesToMacAddress([0, 0, 0]) == "00:00:00";
  }

  /** `BoseMFSParser104(data)`, `None` where it ends with `isValid == False`. */
  function Decode104(data: seq<byte>): (r: Option<AdvertFields>)
    ensures r.Some? <==> |data| >= V104_LENGTH_MINIMUM && data[0] <= 1 && |data| == V104Length(data[2])
    ensures r.Some? ==> r.value.bmapVersion == "1.0.4"
  {
    if |data| < V104_LENGTH_MINIMUM then None
    else if data[0] !in {0x00, 0x01} then None
    else
      var d2, d3 := data[2], data[3];
      var connected1, connected2 := Bit(d2, 4), Bit(d2, 5);
      if |data| != V104Length(d2) then None
      else
        var pos2 := if connected1 then 12 else 9;
        Some(AdvertFields(
          "1.0.4",
          Bit(d2, 7),
          connected1,
          if connected1 then Some(PartialMac(data[9..12])) else None,
          connected2,
          if connected2 then Some(PartialMac(data[pos2..pos2 + 3])) else None,
          if Bit(d3, 2) then HEADPHONES else SPEAKER,
          data[1],
          ShiftBitsMagic(d2, 0, 4),
          Bit(d3, 1),
          Bit(d3, 0)))
  }

  /**
   * A v1.0.4 field built from a 9-byte header and 3-byte MAC tails of the
   * connected peers decodes to those peers, in order, and the header's fields.
   */
  lemma V104Layout(header: seq<byte>, tail1: seq<byte>, tail2: seq<byte>)
    requires |header| == 9 && header[0] <= 1 && |tail1| == 3 && |tail2| == 3
    ensures var d2 := header[2];
      var data := header + (if Bit(d2, 4) then tail1 else []) + (if Bit(d2, 5) then tail2 else []);
      var r := Decode104(data);
      r.Some? &&
      r.value.device1MacAddress == (if Bit(d2, 4) then Some("00:00:00:" + BytesToMacAddress(tail1)) else None) &&
      r.value.device2MacAddress == (if Bit(d2, 5) then Some("00:00:00:" + BytesToMacAddress(tail2)) else None) &&
      r.value.productId == header[1] && r.value.variantId == header[2] % 16 &&
      r.value.isInPairingMode == Bit(d2, 7) &&
      r.value.isDevice1Connected == Bit(d2, 4) && r.value.isDevice2Connected == Bit(d2, 5) &&
      r.value.productType == (if Bit(header[3], 2) then HEADPHONES else SPEAKER) &&
      r.value.isInMusicShare == Bit(header[3], 0) &&
      r.value.supportsMusicShare == Bit(header[3], 1)
  {
    var d2 := header[2];
    var data := header + (if Bit(d2, 4) then tail1 else []) + (if Bit(d2, 5) then tail2 else []);
    assert data[..9] == header;
    ByteNibbles(d2);
    PartialMacText(tail1);
    PartialMacText(tail2);
    if Bit(d2, 4) {
      assert data[9..12] == tail1;
      if Bit(d2, 5) {
        assert data[12..15] == tail2;
      }
    } else if Bit(d2, 5) {
      assert data[9..12] == tail2;
    }
  }

  // ---------------------------------------------------------------------
  // The version parsers as objects
  // ---------------------------------------------------------------------

  /** `BoseMFSParserLegacy`: the constructor sets the attributes one by one. */
  class LegacyParser {
    var isValid: bool
    var bmapVersion: string
    var isInPairingMode: bool
    var isDevice1Connected: bool
    var isDevice2Connected: bool
    var device1MacAddress: Option<string>
    var device2MacAddress: Option<string>
    var productId: nat
    var variantId: nat
    var supportsMusicShare: bool
    var isInMusicShare: bool
    var productType: nat

    function Fields(): AdvertFields
      reads this
    {
      AdvertFields(bmapVersion, isInPairingMode, isDevice1Connected, device1MacAddress, isDevice2Connected,
                   device2MacAddress, productType, productId, variantId, supportsMusicShare, isInMusicShare)
    }

    constructor(data: seq<byte>)
      ensures isValid <==> DecodeLegacy(data).Some?
      ensures isValid ==> Fields() == DecodeLegacy(data).value
    {
      isValid := true;
      bmapVersion, isInPairingMode, isDevice1Connected, isDevice2Connected := "", false, false, false;
      device1MacAddress, device2MacAddress := None, None;
      productId, variantId, supportsMusicShare, isInMusicShare, productType := 0, 0, false, false, 0;
      if |data| < LEGACY_LENGTH_MINIMUM {
        isValid := false;
      } else {
        bmapVersion := LegacyVersion(data[0], data[1]);
        isInPairingMode := Bit(data[5], 7);
        var connected1, connected2 := Bit(data[5], 0), Bit(data[5], 1);
        isDevice1Connected, isDevice2Connected := connected1, connected2;
        var expectedLength := LEGACY_LENGTH_MINIMUM;
        if connected1 {
          expectedLength := expectedLength + LEGACY_LENGTH_PER_MAC;
        }
        if connected2 {
          expectedLength := expectedLength + LEGACY_LENGTH_PER_MAC;
        }
        if |data| != expectedLength {
          isValid := false;
        } else {
          var macPos := 6;
          if connected1 {
            device1MacAddress := Some(BytesToMacAddress(data[macPos..macPos + 6]));
            macPos := macPos + 6;
          }
          if connected2 {
            device2MacAddress := Some(BytesToMacAddress(data[macPos..macPos + 6]));
          }
          productId := data[2] as int * 256 + data[3] as int;
          variantId := data[4];
          supportsMusicShare := Bit(data[5], 4);
          isInMusicShare := Bit(data[5], 2) || Bit(data[5], 3);
          productType := if Bit(data[5], 5) then HEADPHONES else SPEAKER;
          assert |data| == LegacyLength(data[5]);
        }
      }
    }
  }

  /** `BoseMFSParser104`. */
  class Parser104 {
    var isValid: bool
    var bmapVersion: string
    var isInPairingMode: bool
    var isDevice1Connected: bool
    var isDevice2Connected: bool
    var device1MacAddress: Option<string>
    var device2MacAddress: Option<string>
    var productId: nat
    var variantId: nat
    var supportsMusicShare: bool
    var isInMusicShare: bool
    var productType: nat

    function Fields(): AdvertFields
      reads this
    {
      AdvertFields(bmapVersion, isInPairingMode, isDevice1Connected, device1MacAddress, isDevice2Connected,
                   device2MacAddress, productType, productId, variantId, supportsMusicShare, isInMusicShare)
    }

    constructor(data: seq<byte>)
      ensures isValid <==> Decode104(data).Some?
      ensures isValid ==> Fields() == Decode104(data).value
    {
      isValid := true;
      bmapVersion, isInPairingMode, isDevice1Connected, isDevice2Connected := "", false, false, false;
      device1MacAddress, device2MacAddress := None, None;
      productId, variantId, supportsMusicShare, isInMusicShare, productType := 0, 0, false, false, 0;
      if |data| < V104_LENGTH_MINIMUM {
        isValid := false;
      } else if data[0] !in {0x00, 0x01} {
        isValid := false;
      } else {
        bmapVersion := "1.0.4";
        var connected1, connected2 := Bit(data[2], 4), Bit(data[2], 5);
        isDevice1Connected, isDevice2Connected := connected1, connected2;
        var expectedLength := V104_LENGTH_MINIMUM;
        if connected1 {
          expectedLength := expectedLength + V104_LENGTH_PER_MAC;
        }
        if connected2 {
          expectedLength := expectedLength + V104_LENGTH_PER_MAC;
        }
        if |data| != expectedLength {
          isValid := false;
        } else {
          var macPos := 9;
          if connected1 {
            device1MacAddress := Some(PartialMac(data[macPos..macPos + 3]));
            macPos := macPos + V104_LENGTH_PER_MAC;
          }
          if connected2 {
            device2MacAddress := Some(PartialMac(data[macPos..macPos + 3]));
          }
          isInPairingMode := Bit(data[2], 7);
          productType := if Bit(data[3], 2) then HEADPHONES else SPEAKER;
          productId := data[1];
          variantId := ShiftBitsMagic(data[2], 0, 4);
          isInMusicShare := Bit(data[3], 0);
          supportsMusicShare := Bit(data[3], 1);
          assert |data| == V104Length(data[2]);
        }
      }
    }
  }

  // ---------------------------------------------------------------------
  // Dispatch
  // ---------------------------------------------------------------------

  /** What the scanner knows about one received advertisement. */
  datatype Advertisement = Advertisement(
    deviceName: Option<string>,
    address: string,
    localName: Option<string>,
    manufacturerData: seq<(nat, seq<byte>)>,
    shortenedName: bool)

  datatype ScannedBoseDevice = ScannedBoseDevice(name: string, macAddress: string, fields: AdvertFields)

  const V120_TAG: byte := 0x9E
  const LEGACY_TAGS: set<byte> := {0x00, 0x10}
  const V104_TAG: byte := 0x01

  /**
   * The version parser chosen by the first byte of the field; `None` for an
   * unknown tag and for the 1.2.0 stub, read as a parser that is never valid.
   */
  function DecodeField(data: seq<byte>): (r: Option<AdvertFields>)
    requires |data| >= 1
    ensures data[0] !in {V120_TAG, V104_TAG} + LEGACY_TAGS ==> r.None?
    ensures data[0] == V120_TAG ==> r.None?
    ensures data[0] in LEGACY_TAGS ==> r == DecodeLegacy(data)
    ensures data[0] == V104_TAG ==> r == Decode104(data)
  {
    var tag := data[0];
    if tag == V120_TAG then None
    else if tag in LEGACY_TAGS then DecodeLegacy(data)
    else if tag == V104_TAG then Decode104(data)
    else None
  }

  /**
   * `BoseParser.parse`: a record only when the manufacturer field exists,
   * a name exists, and the chosen parser is valid.
   */
  function ParseAdvertisement(adv: Advertisement): (r: Option<ScannedBoseDevice>)
    ensures r.Some? ==>
      ManufacturerField(adv.manufacturerData).Some? &&
      FullName(adv.deviceName, adv.localName, adv.shortenedName) == Some(r.value.name) &&
      r.value.macAddress == adv.address &&
      DecodeField(ManufacturerField(adv.manufacturerData).value) == Some(r.value.fields)
  {
    match ManufacturerField(adv.manufacturerData)
    case None => None
    case Some(field) =>
      match FullName(adv.deviceName, adv.localName, adv.shortenedName)
      case None => None
      case Some(name) =>
        match DecodeField(field)
        case None => None
        case Some(fields) => Some(ScannedBoseDevice(name, adv.address, fields))
  }

  /** An exception `parse` lets escape. */
  datatype ParseException = AttributeError

  /**
   * `BoseParser.parse` as written: for tag 0x9E the stub parser object has
   * no `isValid` attribute, and reading it raises.
   */
  function ParseAdvertisementAsWritten(adv: Advertisement): (r: Result<Option<ScannedBoseDevice>, ParseException>)
  {
    match ManufacturerField(adv.manufacturerData)
    case None => Ok(None)
    case Some(field) =>
      match FullName(adv.deviceName, adv.localName, adv.shortenedName)
      case None => Ok(None)
      case Some(name) =>
        if field[0] == V120_TAG then Err(AttributeError)
        else Ok(ParseAdvertisement(adv))
  }

  /** A record is produced exactly when the field, the name and a valid Legacy or v1.0.4 parse exist. */
  lemma ParseAdvertisementSome(adv: Advertisement)
    ensures ParseAdvertisement(adv).Some? <==>
      |adv.manufacturerData| == 1 &&
      (Truthy(adv.deviceName) || Truthy(adv.localName)) &&
      var field := ManufacturerField(adv.manufacturerData).value;
      ((field[0] in LEGACY_TAGS && DecodeLegacy(field).Some?) || (field[0] == V104_TAG && Decode104(field).Some?))
  {
  }

  /** Apart from tag 0x9E, the corrected parse is the parse as written. */
  lemma ParseAgreesAwayFromV120(adv: Advertisement)
    requires ManufacturerField(adv.manufacturerData).Some? ==> ManufacturerField(adv.manufacturerData).value[0] != V120_TAG
    ensures ParseAdvertisementAsWritten(adv) == Ok(ParseAdvertisement(adv))
  {
  }

  /**
   * Bose's own company id, 0x009E, puts 0x9E first in the field: such an
   * advertisement makes `parse` raise as written, and yields no record
   * once the stub counts as invalid.
   */
  lemma BoseCompanyIdRaises(data: seq<byte>)
    ensures var adv := Advertisement(Some("QC35"), "00:11:22:33:44:55", None, [(0x009E, data)], false);
      ParseAdvertisementAsWritten(adv) == Err(AttributeError) && ParseAdvertisement(adv) == None
  {
  }
}
