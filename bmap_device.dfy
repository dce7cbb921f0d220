/**
 * `BoseDevice` of src/devices/bose.py over an abstract transport: the bytes
 * the device will answer with, a read cursor into them, and the bytes sent
 * so far.  Each method is proved to agree with the functions of BmapCodec
 * and BmapPayloads.
 */
module BmapDevice {
  import opened Common
  import opened BmapCodec
  import opened BmapPayloads

  /** Why a request did not produce a decoded value. */
  datatype DeviceFailure =
    | EncodeFailed                      // `bytes([...])` raised in `_sendCommand`; nothing was sent
    | DecodeFailed(cause: DecodeError)  // `_parseResponse` raised
    | DispatchFailed(why: DispatchError) // no decoder, or the decoder raised

  /** The decoder applied to what `_parseResponse` returned, errors passed on. */
  function Finish(d: Decoder, result: Result<Response, DecodeError>): (r: Result<Decoded, DeviceFailure>)
    ensures result.Err? ==> r == Err(DecodeFailed(result.error))
    ensures result.Ok? && result.value.Payload? ==>
      (r.Ok? <==> ApplyDecoder(d, result.value.bytes).Ok?) &&
      (r.Ok? ==> r.value == ApplyDecoder(d, result.value.bytes).value)
  {
    match result
    case Err(e) => Err(DecodeFailed(e))
    case Ok(resp) =>
      match DecodeResponse(d, resp)
      case Ok(v) => Ok(v)
      case Err(e) => Err(DispatchFailed(e))
  }

  /** `_sendAndParseAll`'s comprehension applied to what `_parseResponse(expectList=True, ...)` returned. */
  function FinishAll(block: byte, result: Result<Response, DecodeError>): (r: Result<map<byte, Decoded>, DeviceFailure>)
    requires result.Ok? ==> result.value.Items?
    ensures result.Err? ==> r == Err(DecodeFailed(result.error))
    ensures result.Ok? && result.value.elements == [] ==> r == Ok(map[])
  {
    match result
    case Err(e) => Err(DecodeFailed(e))
    case Ok(resp) =>
      match KeyedDecode(block, resp.elements)
      case Ok(m) => Ok(m)
      case Err(e) => Err(DispatchFailed(e))
  }

  class BoseDevice {
    /** Everything the device will send, in order. */
    var incoming: seq<byte>
    /** How much of `incoming` has been received. */
    var cursor: nat
    /** Everything written to the socket. */
    var outgoing: seq<byte>

    predicate Valid()
      reads this
    {
      cursor <= |incoming|
    }

    constructor(incoming: seq<byte>)
      ensures Valid()
      ensures this.incoming == incoming && cursor == 0 && outgoing == []
    {
      this.incoming := incoming;
      cursor := 0;
      outgoing := [];
    }

    /** `socket.recv(n)` that delivers exactly `n` bytes, or fails at the end of the stream. */
    method Recv(n: nat) returns (r: Option<seq<byte>>)
      requires Valid()
      modifies this`cursor
      ensures Valid()
      ensures old(cursor) + n <= |incoming| ==>
        r == Some(incoming[old(cursor)..old(cursor) + n]) && cursor == old(cursor) + n
      ensures old(cursor) + n > |incoming| ==> r == None && cursor == |incoming|
    {
      if cursor + n <= |incoming| {
        r := Some(incoming[cursor..cursor + n]);
        cursor := cursor + n;
      } else {
        r := None;
        cursor := |incoming|;
      }
    }

    /** `_sendCommand`: the encoded command is appended to what was sent, or nothing is sent. */
    method SendCommand(block: byte, functionId: byte, operator: byte, payload: seq<int>) returns (sent: bool)
      modifies this`outgoing
      ensures sent <==> EncodeCommand(block, functionId, operator, payload).Some?
      ensures sent ==> outgoing == old(outgoing) + EncodeCommand(block, functionId, operator, payload).value
      ensures !sent ==> outgoing == old(outgoing)
    {
      var command := EncodeCommand(block, functionId, operator, payload);
      if command.Some? {
        outgoing := outgoing + command.value;
        sent := true;
      } else {
        sent := false;
      }
    }

    /**
     * The four `recv` calls of `_parseResponse`: two header bytes (the block
     * is dropped), the status, the length, then `length` payload bytes.
     */
    method ReceiveFrame() returns (frame: Option<Frame>)
      requires Valid()
      modifies this`cursor
      ensures Valid()
      ensures ReadFrame(incoming, old(cursor)).None? ==> frame.None? && cursor == |incoming|
      ensures ReadFrame(incoming, old(cursor)).Some? ==>
        frame == Some(ReadFrame(incoming, old(cursor)).value.0) && cursor == ReadFrame(incoming, old(cursor)).value.1
    {
      var c0 := cursor;
      var header := Recv(2);
      if header.None? {
        return None;
      }
      assert header.value == incoming[c0..c0 + 2];
      var functionId := header.value[1];
      var statusByte := Recv(1);
      if statusByte.None? {
        return None;
      }
      var status := statusByte.value[0];
      var lengthByte := Recv(1);
      if lengthByte.None? {
        return None;
      }
      var length := lengthByte.value[0];
      var payload := Recv(length);
      if payload.None? {
        return None;
      }
      assert functionId == incoming[c0 + 1] && status == incoming[c0 + 2] && length == incoming[c0 + 3];
      frame := Some(Frame(header.value[0], functionId, status, payload.value));
    }

    /** `_parseResponse(withFunction=.., expectList=.., listWithFunction=..)`. */
    method ParseResponse(withFunction: bool, expectList: bool, listWithFunction: bool) returns (r: Result<Response, DecodeError>)
      requires Valid()
      modifies this`cursor
      ensures Valid()
      ensures var o := Parse(incoming, old(cursor), Flags(withFunction, expectList, listWithFunction));
        r == o.result && cursor == o.next
      decreases |incoming| - cursor
    {
      var c0 := cursor;
      var frame := ReceiveFrame();
      if frame.None? {
        return Err(ShortRead);
      }
      var functionId, status, payload := frame.value.functionId, frame.value.status, frame.value.payload;
      ghost var flags := Flags(withFunction, expectList, listWithFunction);

      if status == ERROR {
        if |payload| > 0 {
          r := Err(DeviceError(payload[0]));
        } else {
          r := Err(MissingErrorCode);
        }
      } else if status == START || expectList {
        var data: seq<Response> := [];
        while true
          invariant Valid() && c0 < cursor
          invariant Collect(incoming, cursor, listWithFunction, data) == Parse(incoming, c0, flags)
          decreases |incoming| - cursor
        {
          var part := ParseResponse(listWithFunction, false, false);
          if part.Err? {
            return Err(part.error);
          }
          if part.value == NoValue {
            return Ok(Items(data));
          }
          data := data + [part.value];
        }
      } else if status == STATUS {
        if withFunction {
          r := Ok(Tagged(functionId, payload));
        } else {
          r := Ok(Payload(payload));
        }
      } else if status == PROCESS {
        r := ParseResponse(withFunction, expectList, listWithFunction);
      } else if status == FINAL {
        r := Ok(NoValue);
      } else {
        r := Err(IllegalStatus(status));
      }
    }

    /**
     * `_sendAndParse`: send the command, find the registered decoder, then
     * read one response and decode it.  The decoder is looked up before
     * anything is read, so a missing one leaves the stream untouched.
     */
    method SendAndParse(block: byte, functionId: byte, operator: byte, payload: seq<int>) returns (r: Result<Decoded, DeviceFailure>)
      requires Valid()
      modifies this`cursor, this`outgoing
      ensures Valid()
      ensures EncodeCommand(block, functionId, operator, payload).None? ==>
        r == Err(EncodeFailed) && outgoing == old(outgoing) && cursor == old(cursor)
      ensures EncodeCommand(block, functionId, operator, payload).Some? ==>
        outgoing == old(outgoing) + EncodeCommand(block, functionId, operator, payload).value
      ensures EncodeCommand(block, functionId, operator, payload).Some? && Lookup(block, functionId).None? ==>
        r == Err(DispatchFailed(RegistryMiss(block, functionId))) && cursor == old(cursor)
      ensures EncodeCommand(block, functionId, operator, payload).Some? && Lookup(block, functionId).Some? ==>
        var o := Parse(incoming, old(cursor), DefaultFlags);
        r == Finish(Lookup(block, functionId).value, o.result) && cursor == o.next
    {
      var sent := SendCommand(block, functionId, operator, payload);
      if !sent {
        return Err(EncodeFailed);
      }
      var decoder := Lookup(block, functionId);
      if decoder.None? {
        return Err(DispatchFailed(RegistryMiss(block, functionId)));
      }
      var response := ParseResponse(false, false, false);
      r := Finish(decoder.value, response);
    }

    /**
     * `_sendAndParseAll`: send a START command without payload, read the
     * response as a list of `(function, payload)` elements, and decode each
     * with its registered decoder.
     */
    method SendAndParseAll(block: byte, functionId: byte) returns (r: Result<map<byte, Decoded>, DeviceFailure>)
      requires Valid()
      modifies this`cursor, this`outgoing
      ensures Valid()
      ensures outgoing == old(outgoing) + [block, functionId, START, 0]
      ensures var o := Parse(incoming, old(cursor), Flags(false, true, true));
        r == FinishAll(block, o.result) && cursor == o.next
    {
      var sent := SendCommand(block, functionId, START, []);
      assert EncodeCommand(block, functionId, START, []).Some?;
      var values := ParseResponse(false, true, true);
      r := FinishAll(block, values);
    }
  }

  // ---------------------------------------------------------------------
  // Properties of whole exchanges
  // ---------------------------------------------------------------------

  /**
   * `setAlerts(ringtone, haptics)` against a device that answers with a
   * STATUS frame echoing the setting returns that setting, through the
   * decoder registered for (SETTINGS, ALERTS).
   */
  lemma SetAlertsEcho(prefix: seq<byte>, rest: seq<byte>, ringtoneEnabled: bool, hapticsEnabled: bool)
    ensures var answer := Frame(SETTINGS, ALERTS, STATUS, [AlertsPayload(ringtoneEnabled, hapticsEnabled)]);
      var s := prefix + EncodeFrame(answer) + rest;
      Finish(Alerts, Parse(s, |prefix|, DefaultFlags).result)
        == Ok(TwoFlags(ringtoneEnabled, hapticsEnabled))
  {
    var x := [AlertsPayload(ringtoneEnabled, hapticsEnabled)];
    var answer := Frame(SETTINGS, ALERTS, STATUS, x);
    StatusFrameYieldsPayload(prefix, answer, rest, DefaultFlags);
    var o := Parse(prefix + EncodeFrame(answer) + rest, |prefix|, DefaultFlags);
    assert o.result == Ok(Payload(x));
    AlertsRoundTrip(ringtoneEnabled, hapticsEnabled);
  }

  /** The same for `setMultipoint(isSupported, isEnabled)`. */
  lemma SetMultipointEcho(prefix: seq<byte>, rest: seq<byte>, isSupported: bool, isEnabled: bool)
    ensures var answer := Frame(SETTINGS, MULTIPOINT, STATUS, [MultipointPayload(isSupported, isEnabled)]);
      var s := prefix + EncodeFrame(answer) + rest;
      Finish(Multipoint, Parse(s, |prefix|, DefaultFlags).result)
        == Ok(TwoFlags(isSupported, isEnabled))
  {
    var x := [MultipointPayload(isSupported, isEnabled)];
    var answer := Frame(SETTINGS, MULTIPOINT, STATUS, x);
    StatusFrameYieldsPayload(prefix, answer, rest, DefaultFlags);
    var o := Parse(prefix + EncodeFrame(answer) + rest, |prefix|, DefaultFlags);
    assert o.result == Ok(Payload(x));
    MultipointRoundTrip(isSupported, isEnabled);
  }

  /**
   * What `_sendAndParseAll` makes of a well-formed list: the keyed decode of
   * the `(function, payload)` pairs of its STATUS frames, in order.
   */
  lemma KeyedListResponse(prefix: seq<byte>, opener: Frame, frames: seq<Frame>, closing: Frame, rest: seq<byte>, block: byte)
    requires |opener.payload| < 256 && opener.status != ERROR
    requires forall i :: 0 <= i < |frames| ==> ElementFrame(frames[i])
    requires |closing.payload| < 256 && closing.status == FINAL
    ensures var s := prefix + EncodeFrame(opener) + EncodeFrames(frames) + EncodeFrame(closing) + rest;
      FinishAll(block, Parse(s, |prefix|, Flags(false, true, true)).result)
        == match KeyedDecode(block, Elements(true, frames))
           case Ok(m) => Ok(m)
           case Err(e) => Err(DispatchFailed(e))
  {
    ListResponse(prefix, opener, frames, closing, rest, Flags(false, true, true));
  }
}
