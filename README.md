# A verified model of oboe-py's Bose BMAP client and advertisement scanner

oboe-py talks to Bose headphones and speakers in two ways:

- **Over an RFCOMM socket, using the BMAP protocol.** Every message is a frame
  `[function block, function id, operator, length, payload…]`.
  `BoseDevice._sendCommand` writes one request frame. `_parseResponse` reads
  the answer: a single STATUS payload, an ERROR, PROCESS frames that are
  skipped, or a START … FINAL list of nested answers. `_sendAndParse` and
  `_sendAndParseAll` pass the payloads to the decoder registered in
  `_FUNCTIONS` for the block and function id.
- **From Bluetooth LE advertisements.** `BoseParser.parse` takes the single
  manufacturer-specific field. The field's first byte selects one of three
  layouts: legacy, 1.0.4 or the 1.2.0 stub. The chosen parser extracts the
  BMAP version, pairing mode, connected-device MAC addresses, product id and
  variant, and music-share flags.

The project models these as follows:

| file | module | what it holds |
|---|---|---|
| `common.dfy` | `Common` | bytes, `Option`/`Result`, and `1 << n`, `>>` and bit tests on unbounded naturals |
| `helpers.dfy` | `Helpers` | `src/devices/helpers.py`: the bitmask fold (a `while` loop, proved against a big-endian fold function), `_applyBitmask`, the MAC/hex printers and `_macAddressToBytes`, with their round trips |
| `bmap_codec.dfy` | `BmapCodec` | the frame layout, `_sendCommand`'s encoding, and `_parseResponse` as two mutually recursive functions over the received byte stream (`Parse`, `Collect`) |
| `bmap_payloads.dfy` | `BmapPayloads` | the `_FUNCTIONS` registry, every payload decoder, the `VoicePromptSetting`, `ActionButtonSetting` and `PairedDevice` parsers, and the setters' payload builders |
| `bmap_device.dfy` | `BmapDevice` | the class `BoseDevice` (see below) |
| `scanner.dfy` | `BoseScanner` | `src/scanners/bose.py`: manufacturer field, display name, the bit-field helpers, the legacy and 1.0.4 parsers as classes whose constructors set the fields, and `parse` |

`BoseDevice` keeps three fields:

- the bytes the device will answer with, `incoming`;
- a read `cursor` into `incoming`;
- the bytes sent so far, `outgoing`.

Its methods follow the source closely. `ParseResponse` calls itself for
PROCESS frames and for list elements, and uses a `while true` loop for the
list. Each method's postcondition ties its result and its new cursor to the
pure `Parse` function. The properties are then proved once, about `Parse`:

- ERROR frames fail with the device's error code.
- PROCESS frames are transparent.
- FINAL closes a list.
- A START … FINAL sequence yields exactly the STATUS payloads, in order.
- An ERROR frame, an illegal status or a truncated frame among a list's
  elements fails the whole response.

Python behaviour written out explicitly:

- Enum members are represented by their byte values. `Function` has
  duplicate values (for instance `HARDWARE_REVISION` and `MULTIPOINT` are
  both 0x0a), which Python turns into aliases of one member. `_FUNCTIONS`
  is re-keyed by `.value` at `src/devices/bose.py:509`. So a per-block
  lookup by byte is exactly what the source does.
- Exceptions become `Err` values. An out-of-range index is `IndexOutOfRange`
  and an invalid enum value is `BadEnumValue`. A value that does not fit in
  a byte makes `bytes([...])` fail. In `_sendCommand` that failure means no
  frame is encoded. In `ActionButtonSetting._getPayload` the only such value
  is a mode outside the enum, so it is reported as `BadEnumValue`.
- In `self._FUNCTIONS[...][...][1](self._parseResponse())` the registry
  lookup is evaluated before the call's argument. So a missing decoder
  leaves the input stream untouched.
- In `_sendAndParseAll` the lookup happens per list element. So an empty
  list gives an empty dictionary even for a block with no decoders, and a
  later element for the same function replaces an earlier one.
- The legacy BMAP version computes its middle number as
  `shiftBitsMagic(d0, 0, 4) << 4 + shiftBitsMagic(d1, 4, 4)`. Python parses
  this as `a << (4 + b)`. It is kept as written (`LegacyMinorVersion`);
  `LegacyMinorVersionPrecedence` shows how it differs from concatenating
  the two nibbles.
- `PairedDevice` tests `bytes[6] & 0x0100` on a byte. That test is never
  true, so a paired device is never reported as a Bose product. This is
  kept as written and stated by `PairedDeviceIsNeverBoseProduct`.
- A FINAL frame read where a single answer is expected returns "no value"
  (`None` in the source); it is not an error by itself.

## Model

| member | source | states |
|---|---|---|
| Common.BitMaskTest | src/scanners/bose.py:101-102 | `Bit(v, p)`, the model of `isBitSet`, holds iff `v & (1 << p)` is non-zero, i.e. iff `v mod 2^(p+1)` reaches `2^p` |
| Helpers.BytesToBitmask | src/devices/helpers.py:29-34 | the loop `ret <<= 8; ret \|= b` computes the most-significant-byte-first value of the bytes, which is below 2^(8n) |
| Helpers.BigEndianBound | src/devices/helpers.py:29-34 | the value folded from `n` bytes is below 2^(8n) |
| Helpers.BigEndianAppend | src/devices/helpers.py:29-34 | folding `a + b` shifts the fold of `a` left past all the bytes of `b` |
| Helpers.LeadingZeroes | src/devices/helpers.py:29-34 | a leading zero byte does not change the bitmask |
| Helpers.BitOfBigEndian | src/devices/helpers.py:29-34 | bit `i` of the folded mask is bit `i % 8` of the byte `i / 8` places from the end; bits at or above `8·n` are clear |
| Helpers.ApplyBitmask | src/devices/helpers.py:45-49 | every selected value is an enum member whose bit is set in the mask, and there are at most as many as members |
| Helpers.ApplyBitmaskToBytes | src/devices/helpers.py:45-49 | on a byte mask, every selected member `m` lies below `8·len` and has bit `m % 8` set in the byte `m / 8` places from the end |
| Helpers.ApplyBitmaskMembers | src/devices/helpers.py:45-49 | a value is selected iff it is an enum member and its bit is set in the mask |
| Helpers.ApplyBitmaskSplit | src/devices/helpers.py:49 | selection keeps declaration order: selecting from `a + b` is selecting from `a` then from `b` |
| Helpers.ApplyBitmaskNoDuplicates | src/devices/helpers.py:49 | a member list without repeats yields a selection without repeats |
| Helpers.NothingSet | src/devices/helpers.py:49 | if no member's bit is set, nothing is selected |
| Helpers.ZeroMaskSelectsNothing | src/devices/helpers.py:45-49 | an all-zero byte mask selects nothing |
| Helpers.EmptyMaskSelectsNothing | src/devices/helpers.py:45-49 | an empty byte mask (such as `bytes[1:]` of a one-byte payload) selects nothing |
| Helpers.ApplyBitmaskToBytesMembers | src/devices/helpers.py:45-49 | on a byte mask, member `m` is selected iff `m < 8·len` and bit `m % 8` of the byte `m / 8` from the end is set |
| Helpers.BytesToMacAddress | src/devices/helpers.py:36-37 | no bytes print as the empty string; `n ≥ 1` bytes print as `3n - 1` characters |
| Helpers.BytesToHexString | src/devices/helpers.py:39-40 | no bytes print as the empty string; `n ≥ 1` bytes print as `3n - 1` characters |
| Helpers.MacAddressLayout | src/devices/helpers.py:36-37 | the MAC text has length `3n - 1`: two lower-case hex digits per byte at offset `3i`, a colon between |
| Helpers.HexStringLayout | src/devices/helpers.py:39-40 | the same layout with a space separator |
| Helpers.MacAddressAppend | src/devices/helpers.py:36-37 | printing `a + b` prints `a`, a colon, then `b` |
| Helpers.SplitJoin | src/devices/helpers.py:42-43 | `split(":")` undoes `":".join` of parts without colons |
| Helpers.JoinSplit | src/devices/helpers.py:42-43 | `":".join` undoes `split(":")` of any string |
| Helpers.HexByteValue | src/devices/helpers.py:42-43 | `int(f"{b:02x}", 16) == b` for every byte |
| Helpers.ParseHexGroups | src/devices/helpers.py:43 | the groups convert iff each part is a hex-digit numeral below 256 (the spellings of `int(x, 16)` modelled); then there is one byte per part, holding that part's value |
| Helpers.MacAddressToBytes | src/devices/helpers.py:42-43 | the text converts exactly as its `:`-separated parts do: iff every part is a hex-digit numeral below 256, and then there is one byte per part, holding its value |
| Helpers.ParseHexGroupsOfBytes | src/devices/helpers.py:42-43 | parsing the printed hex groups of bytes gives the bytes back |
| Helpers.MacAddressRoundTrip | src/devices/helpers.py:36-43 | `_macAddressToBytes(_bytesToMacAddress(b)) == b` for every non-empty `b` |
| Helpers.MacTextRoundTrip | src/devices/helpers.py:36-43 | every lower-case colon-separated hex-pair text parses, and printing the bytes gives it back |
| BmapCodec.EncodeCommand | src/devices/bose.py:443-444 | a command encodes iff the payload has fewer than 256 elements, each a byte; the payload follows the 4-byte header |
| BmapCodec.CommandRoundTrip | src/devices/bose.py:443-451 | a sent frame is read back by the four receives of `_parseResponse` with the same block, function, operator and payload |
| BmapCodec.CommandTooLong | src/devices/bose.py:443-444 | a payload of 256 or more elements cannot be sent |
| BmapCodec.EncodeFrame | src/devices/bose.py:443-444 | a frame is a 4-byte header followed by its payload |
| BmapCodec.ReadEncodedFrame | src/devices/bose.py:448-451 | the four receives read an encoded frame back at any offset and stop right after it |
| BmapCodec.ReadFrame | src/devices/bose.py:448-451 | a frame read consumes exactly 4 header bytes plus the announced payload length, within the stream |
| BmapCodec.Parse | src/devices/bose.py:446-472 | parsing never moves backwards or past the end; a successful parse consumes a full frame; a short read consumes the rest; a parse expecting a list returns a list |
| BmapCodec.Collect | src/devices/bose.py:455-462 | the list loop never moves backwards or past the end; a successful loop consumes at least one frame and returns a list; a short read ends at the end of the stream |
| BmapCodec.ErrorFrameFails | src/devices/bose.py:453-454 | an ERROR frame fails with its first payload byte as the error code; with an empty payload it fails without one |
| BmapCodec.StatusFrameYieldsPayload | src/devices/bose.py:463-466 | a STATUS frame yields its payload, paired with the function id when `withFunction` is set |
| BmapCodec.ProcessFrameIsTransparent | src/devices/bose.py:467-468 | a PROCESS frame is skipped and parsing continues with the same flags |
| BmapCodec.FinalFrameYieldsNoValue | src/devices/bose.py:469-470 | a FINAL frame yields no value |
| BmapCodec.IllegalStatusFails | src/devices/bose.py:472 | any other status (SET, GET, SET_GET, or above PROCESS) fails naming the status |
| BmapCodec.TruncatedFrameIsShortRead | src/devices/bose.py:448-451 | a stream ending inside a frame, after any bytes already read, is a short read that consumes the rest |
| BmapCodec.CollectStep | src/devices/bose.py:457-461 | one round of the loop over a STATUS frame appends its element; over a PROCESS frame it appends nothing |
| BmapCodec.ClosingResult | src/devices/bose.py:453-472 | a closing frame yields the collected list iff it is FINAL; ERROR and illegal statuses yield their error |
| BmapCodec.CollectClosing | src/devices/bose.py:453-472 | a FINAL, ERROR or illegal-status frame ends the loop right after itself, with the list or with that frame's error |
| BmapCodec.CollectFrames | src/devices/bose.py:453-472 | STATUS and PROCESS frames collect the STATUS elements, appended in order, and the closing frame then returns them (FINAL) or fails the whole loop with its own error (ERROR, illegal status), ending right after it |
| BmapCodec.OpenList | src/devices/bose.py:453-458 | a START frame, or any non-ERROR frame when a list is expected, starts the loop right after itself |
| BmapCodec.ListResponse | src/devices/bose.py:453-472 | START (or any non-ERROR frame when a list is expected), then STATUS/PROCESS frames, then FINAL decodes to the STATUS payloads in order; closed instead by ERROR or an illegal status, the whole response fails with that error |
| BmapCodec.ListErrorElement | src/devices/bose.py:453-462 | an ERROR frame among a list's elements fails the whole response with its code |
| BmapCodec.CollectTruncated | src/devices/bose.py:448-461 | a stream ending inside a frame after STATUS and PROCESS frames ends the loop with a short read at the end of the stream |
| BmapCodec.ListTruncated | src/devices/bose.py:448-462 | a list whose stream ends inside one of its frames fails the whole response as a short read |
| BmapCodec.ListExample | src/devices/bose.py:455-462 | START, STATUS(a), PROCESS, STATUS(b), FINAL decodes to `[a, b]` |
| BmapCodec.CollectNestedList | src/devices/bose.py:455-462 | a START frame among a list's elements opens a nested list with the default flags; its untagged elements, up to its FINAL, become one element of the outer list |
| BmapCodec.NestedListExample | src/devices/bose.py:455-462 | START, START, STATUS(a), FINAL, FINAL decodes to `[[a]]` |
| BmapPayloads.DecodeVoicePrompt | src/devices/bose.py:353-359 | decoding succeeds iff there is a first byte whose low five bits name a language (at most 0x15); then `canChange` is bit 7, `isEnabled` bit 5 and the language bits 0-4 of that byte, and the supported languages are the enum members selected by the bitmask of the remaining bytes |
| BmapPayloads.VoicePromptRoundTrip | src/devices/bose.py:353-365 | decoding `_getPayload()` gives back the language and the enabled flag, with `canChange` cleared and no supported languages |
| BmapPayloads.VoicePromptReencode | src/devices/bose.py:353-365 | re-encoding a decoded setting keeps the low six bits of the first byte and drops `canChange` |
| BmapPayloads.VoicePromptPayload | src/devices/bose.py:361-365 | the payload is one byte below 64: `canChange` is never sent |
| BmapPayloads.DecodeActionButton | src/devices/bose.py:386-400 | decoding succeeds iff the payload is one byte or has at least 3 bytes with a valid mode in the third; one byte gives the non-configurable default setting, and otherwise the setting is configurable with the id, event type and mode of the first three bytes and the button modes selected by the bitmask of the rest |
| BmapPayloads.ActionButtonPayload | src/devices/bose.py:386-403 | the payload is button id, event type and mode, and it encodes iff the mode fits in a byte; for a valid mode, decoding the payload gives back the id, event type and mode, marked configurable |
| BmapPayloads.ActionButtonConfigurable | src/devices/bose.py:386-400 | a decoded button is configurable iff the payload was longer than one byte |
| BmapPayloads.PairedDeviceIsNeverBoseProduct | src/devices/bose.py:416-432 | a paired device decodes iff the payload has 7 bytes; the `0x0100` test on a byte is never true, so the name always starts at offset 9 |
| BmapPayloads.BoseProductFields | src/devices/bose.py:426-430 | the Bose-product branch yields product type 1 and needs 10 bytes |
| BmapPayloads.DecodePairedDevice | src/devices/bose.py:416-420 | fewer than 7 bytes is an index error; otherwise the MAC is the first six bytes printed (17 characters), `isConnected` is bit 0 and `isLocalDevice` bit 4 of byte 6 |
| BmapPayloads.AlertsRoundTrip | src/devices/bose.py:134-136 | the ALERTS decoder reads back the ringtone and haptics flags `setAlerts` sends |
| BmapPayloads.MultipointRoundTrip | src/devices/bose.py:148-150 | the MULTIPOINT decoder reads back the supported and enabled flags `setMultipoint` sends |
| BmapPayloads.ChirpDecoding | src/devices/bose.py:506 | the CHIRP decoder succeeds iff the first byte is below 10, giving bit 0 as "in progress" and the rest as the stop reason |
| BmapPayloads.ApplyDecoder | src/devices/bose.py:492-506 | the text, MAC, device-name and IMU decoders never fail; an index error needs a payload shorter than 3 bytes |
| BmapPayloads.AlertsPayload | src/devices/bose.py:135 | the byte `setAlerts` sends uses only the two low bits |
| BmapPayloads.MultipointPayload | src/devices/bose.py:149 | the byte `setMultipoint` sends uses only the two low bits |
| BmapPayloads.DecodeResponse | src/devices/bose.py:476 | a single payload gives exactly the registered decoder's value, or its error; anything but a single payload fails |
| BmapPayloads.Lookup | src/devices/bose.py:484-509 | a decoder is found iff the block and function id are registered, and it is the registered one; only PRODUCT_INFO, SETTINGS and CONTROL have any, and CONTROL only CHIRP |
| BmapPayloads.RegistryIsScopedByBlock | src/devices/bose.py:484-509 | the same function id means different things in different blocks (0x0a: hardware revision as text, multipoint flags) |
| BmapPayloads.RegistryBlocks | src/devices/bose.py:484-509 | only PRODUCT_INFO, SETTINGS and CONTROL have decoders; the "all functions" ids have none |
| BmapPayloads.ElementEntry | src/devices/bose.py:481 | an element decodes only if it carries a function id, which becomes its key |
| BmapPayloads.KeyedDecodeFrom | src/devices/bose.py:481 | on success the earlier entries keep their keys, and every element was a registered `(function, payload)` pair whose function is a key |
| BmapPayloads.KeyedDecode | src/devices/bose.py:481 | on success every element was a registered `(function, payload)` pair whose function is a key; an empty list gives an empty dictionary |
| BmapPayloads.KeyedDecodeSnoc | src/devices/bose.py:481 | the comprehension over `elements + [e]` is the comprehension over `elements`, then `e`'s entry added |
| BmapPayloads.KeyedDecodeKeys | src/devices/bose.py:481 | the keys of a successful decode are exactly the function ids received |
| BmapPayloads.KeyedDecodeLastWins | src/devices/bose.py:481 | on success every element was tagged, the keys are exactly the function ids received, and each key holds the decoded payload of its last element |
| BmapDevice.Finish | src/devices/bose.py:476 | a parse error is passed on; a payload decodes iff its registered decoder succeeds on it, and then to that decoder's value |
| BmapDevice.FinishAll | src/devices/bose.py:481 | a parse error is passed on; an empty list gives an empty dictionary |
| BmapDevice.BoseDevice.constructor | src/devices/bose.py:10-14 | a device starts with nothing sent and nothing read |
| BmapDevice.BoseDevice.Recv | src/devices/bose.py:448-451 | a receive returns exactly the next `n` bytes, or fails and exhausts the stream |
| BmapDevice.BoseDevice.SendCommand | src/devices/bose.py:443-444 | the encoded frame is appended to what was sent iff it encodes; otherwise nothing is sent |
| BmapDevice.BoseDevice.ReceiveFrame | src/devices/bose.py:448-451 | the four receives return the frame `ReadFrame` finds and advance past it |
| BmapDevice.BoseDevice.ParseResponse | src/devices/bose.py:446-472 | returns what `Parse` returns at the current position and advances the cursor to where `Parse` stops |
| BmapDevice.BoseDevice.SendAndParse | src/devices/bose.py:474-476 | sends the command; an unencodable command or a missing decoder fails without reading; otherwise the result is the registered decoder applied to the parsed response |
| BmapDevice.BoseDevice.SendAndParseAll | src/devices/bose.py:478-482 | sends `[block, function, START, 0]` and returns the keyed decode of the list parsed with function ids |
| BmapDevice.SetAlertsEcho | src/devices/bose.py:134-136 | a STATUS echo of the ALERTS byte decodes back to the two flags set |
| BmapDevice.SetMultipointEcho | src/devices/bose.py:148-150 | a STATUS echo of the MULTIPOINT byte decodes back to the two flags set |
| BmapDevice.KeyedListResponse | src/devices/bose.py:478-482 | a list answer to `_sendAndParseAll` yields the keyed decode of its STATUS elements |
| BoseScanner.ManufacturerField | src/scanners/bose.py:25-36 | there is a field iff there is exactly one manufacturer entry; it is the two company-id bytes followed by the data |
| BoseScanner.CompanyIdLowByteFirst | src/scanners/bose.py:33-36 | the field starts with the company id, low byte first |
| BoseScanner.FullName | src/scanners/bose.py:57-70 | there is a name iff the device name or the advertised local name is non-empty |
| BoseScanner.FullNamePrefersDeviceName | src/scanners/bose.py:57-62 | a non-empty device name wins over the local name; an empty or missing one falls back to it |
| BoseScanner.FullNameStripsOnePrefix | src/scanners/bose.py:64-65 | exactly one `LE-` prefix is stripped |
| BoseScanner.FullNameKeepsUnprefixed | src/scanners/bose.py:57-70 | a non-empty name without the `LE-` prefix, from the device or the advertisement, comes back unchanged |
| BoseScanner.FullNameShortened | src/scanners/bose.py:67-68 | a shortened name gets `…` appended after stripping |
| BoseScanner.ShiftBitsMagic | src/scanners/bose.py:104-106 | the result fits in `shift2` bits |
| BoseScanner.ShiftMaskIsLowBits | src/scanners/bose.py:106 | the mask `255 >> (8 - w)` is `2^w - 1` |
| BoseScanner.ShiftBitsMagicBits | src/scanners/bose.py:100-106 | bit `i` of the result is bit `shift1 + i` of the value for `i < shift2`, and clear above |
| BoseScanner.ByteNibbles | src/scanners/bose.py:104-106 | `shiftBitsMagic(b, 0, 4)` is the low nibble of a byte and `shiftBitsMagic(b, 4, 4)` the high one |
| BoseScanner.Decimal | src/scanners/bose.py:121 | a version number prints as decimal digits without a leading zero |
| BoseScanner.DecimalRoundTrip | src/scanners/bose.py:121 | the decimal text of a version number reads back as that number |
| BoseScanner.DecodeLegacy | src/scanners/bose.py:108-156 | the legacy layout is valid iff it has at least 6 bytes and exactly 6 more per connected-device bit set in byte 5 |
| BoseScanner.LegacyLength | src/scanners/bose.py:128-132 | the expected legacy length is 6, 12 or 18 |
| BoseScanner.LegacyMinorVersion | src/scanners/bose.py:119 | the middle number is the low nibble of byte 0 shifted left by (4 + the high nibble of byte 1), as Python's precedence reads `a << 4 + b` |
| BoseScanner.LegacyVersion | src/scanners/bose.py:118-121 | the version text is the high nibble of byte 0, the middle number and the low nibble of byte 1, in decimal, separated by dots |
| BoseScanner.LegacyLayout | src/scanners/bose.py:118-156 | a header plus one MAC per connected flag decodes to those MACs, the header's version, the big-endian product id, the variant, the pairing bit (5.7), the two connected bits (5.0 and 5.1), the product type (5.5), music-share support (5.4) and music-share state (5.2 or 5.3) |
| BoseScanner.LegacyMinorVersionPrecedence | src/scanners/bose.py:119 | as written the middle version number is `a << (4 + b)`, so (0x01, 0x20) gives 64 where concatenating the nibbles gives 0x12 |
| BoseScanner.LegacyParser.constructor | src/scanners/bose.py:111-156 | the parser is valid iff the legacy decoding succeeds, and then its fields are the decoded ones |
| BoseScanner.Decode104 | src/scanners/bose.py:158-207 | the 1.0.4 layout is valid iff it has at least 9 bytes, a first byte of 0 or 1, and exactly 3 more per connected flag in byte 2; the version is "1.0.4" |
| BoseScanner.V104Length | src/scanners/bose.py:176-180 | the expected 1.0.4 length is 9, 12 or 15 |
| BoseScanner.PartialMac | src/scanners/bose.py:189-192 | a padded 1.0.4 MAC is 17 characters long |
| BoseScanner.PartialMacText | src/scanners/bose.py:189-192 | a 3-byte MAC tail prints as `00:00:00:` followed by the tail's own text |
| BoseScanner.V104Layout | src/scanners/bose.py:173-207 | a header plus one 3-byte tail per connected flag decodes to the padded MACs, the BLE product id, the variant nibble, the pairing bit (2.7), the two connected bits (2.4 and 2.5), the product type (3.2), music-share state (3.0) and support (3.1) |
| BoseScanner.Parser104.constructor | src/scanners/bose.py:161-207 | the parser is valid iff the 1.0.4 decoding succeeds, and then its fields are the decoded ones |
| BoseScanner.DecodeField | src/scanners/bose.py:84-91 | tags 0x00 and 0x10 give the Legacy parser's result and tag 0x01 the v1.0.4 parser's; any other first byte, and the 1.2.0 stub's 0x9E, yields no device |
| BoseScanner.ParseAdvertisement | src/scanners/bose.py:73-96 | a device is reported only with a manufacturer field and a name, and it carries that name, the device address and the decoded fields |
| BoseScanner.ParseAdvertisementSome | src/scanners/bose.py:73-96 | a device is reported iff there is one manufacturer entry, a non-empty name, and a legacy or 1.0.4 field that decodes |
| BoseScanner.ParseAgreesAwayFromV120 | src/scanners/bose.py:84-96 | away from the 0x9E selector, `parse` as written agrees with the corrected dispatch |
| BoseScanner.BoseCompanyIdRaises | src/scanners/bose.py:84-93 | an advertisement under Bose's company id 0x009E raises AttributeError as written, where the corrected dispatch reports nothing |

## Left out

- The socket itself is not modelled: `connect`, the Bluetooth address and the port. The device's answer is a byte sequence given up front, and what is sent is appended to another sequence.
- BmapDevice.BoseDevice.Recv: a receive either returns all requested bytes or fails and exhausts the stream. A real `recv` may return fewer bytes without failing, and the source would then go on with a short payload.
- `bytes.decode()` of names, versions and serial numbers is not modelled: text stays as its UTF-8 bytes, so a `UnicodeDecodeError` is not represented.
- `_isShortenedName` reads platform-specific scan records; it becomes a boolean input of `FullName`.
- `NestedEnum` in `src/devices/helpers.py` is not used by the modelled code.
- Enum objects are represented by their values. The dictionary `_sendAndParseAll` returns is keyed by function id rather than by the (possibly aliased) enum member.
- BmapDevice.Finish: a response that is not a single payload (a list, or no value) is an error for every decoder. In Python some decoders still return something for such a response:
  - `bool(x)` for IMU_VOLUME_CT, on a list, and `bool(None)`, which is `False`, on a FINAL answer;
  - the plain indexing of STANDBY_TIMER, CNC and BASS_CONTROL, on a list;
  - the MAC-text decoders (`_bytesToMacAddress`), which return `""` on an empty list;
  - `ActionButtonSetting`, which returns its default setting on a one-element list.
- The one-line getters and setters of `BoseDevice` are not modelled separately; each is `SendAndParse` with fixed block and function ids. Only the ALERTS and MULTIPOINT setters have their payloads modelled (`AlertsPayload`, `MultipointPayload`). `setSidetone` sends the BUTTONS function id; that is not modelled.
- BmapPayloads.DecodeResponse: the same restriction as for `BmapDevice.Finish` above; a list or no-value response is refused before any decoder runs.
- Helpers.ParseHexGroups: a part converts only when it is made of hex digits; the other spellings `int(x, 16)` accepts (surrounding whitespace, a sign, a `0x` prefix, underscores, non-ASCII Unicode decimal digits such as "٠٧") are refused.
- Helpers.MacAddressToBytes: only hex digits are accepted. The other spellings `int(x, 16)` allows (surrounding whitespace, a sign, a `0x` prefix, underscores, non-ASCII Unicode decimal digits) are not modelled.
- `src/scanners/scan.py` (the bleak scan loop) and `src/main.py` (the command-line front end) are I/O drivers and are not part of this model.

## Findings

| source | as written | input that shows it | evidently intended | confidence | as-written member | corrected member |
|---|---|---|---|---|---|---|
| src/scanners/bose.py:86-93 | The selector `mfs_data[0]` is the low byte of the company id. For Bose (0x009E) it is always 0x9E, which picks `BoseMFSParser120`. That class's `__init__` is `pass`, so `parser.isValid` raises AttributeError | a single manufacturer entry `{0x009E: data}` with device name "QC35" | a parser without a decoding yields no device, as an invalid one does | high (not executed) | BoseScanner.ParseAdvertisementAsWritten | BoseScanner.ParseAdvertisement |
