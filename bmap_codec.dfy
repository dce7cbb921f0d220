/**
 * The BMAP frame format and the response decoder of src/devices/bose.py,
 * as functions of the byte stream and a read position.
 *
 * A frame is `[block][function][operator or status][length][payload]`.
 * `Parse` is the meaning of `BoseDevice._parseResponse`: the device class
 * in BmapDevice runs the same decoder against a socket-like cursor and is
 * proved to agree with it.
 */
module BmapCodec {
  import opened Common

  // Operator (request) and status (response) codes share one vocabulary.
  const SET: byte := 0x00
  const GET: byte := 0x01
  const SET_GET: byte := 0x02
  const STATUS: byte := 0x03
  const ERROR: byte := 0x04
  const START: byte := 0x05
  const FINAL: byte := 0x06
  const PROCESS: byte := 0x07

  datatype Frame = Frame(block: byte, functionId: byte, status: byte, payload: seq<byte>)

  predicate FitsInByte(x: int)
  {
    0 <= x < 256
  }

  /** The wire bytes of a frame whose payload length fits the length byte. */
  function EncodeFrame(fr: Frame): (r: seq<byte>)
    requires |fr.payload| < 256
    ensures |r| == 4 + |fr.payload|
  {
    [fr.block, fr.functionId, fr.status, |fr.payload| as byte] + fr.payload
  }

  /**
   * `_sendCommand`'s `bytes([block, functionId, operator, len(payload), *payload])`:
   * `None` where `bytes` raises, because the length or a payload element
   * does not fit in a byte.
   */
  function EncodeCommand(block: byte, functionId: byte, operator: byte, payload: seq<int>): (r: Option<seq<byte>>)
    ensures r.Some? <==> |payload| < 256 && forall i :: 0 <= i < |payload| ==> FitsInByte(payload[i])
    ensures r.Some? ==> |r.value| == 4 + |payload|
    ensures r.Some? ==> forall i :: 0 <= i < |payload| ==> r.value[4 + i] == payload[i]
  {
    if |payload| < 256 && forall i :: 0 <= i < |payload| ==> FitsInByte(payload[i]) then
      Some(EncodeFrame(Frame(block, functionId, operator, seq(|payload|, i requires 0 <= i < |payload| => payload[i] as byte))))
    else
      None
  }

  /**
   * Reads one frame at `pos`: the four header bytes, then `length` payload
   * bytes.  `None` on a short read.
   */
  function ReadFrame(s: seq<byte>, pos: nat): (r: Option<(Frame, nat)>)
    requires pos <= |s|
    ensures r.Some? ==> r.value.1 == pos + 4 + |r.value.0.payload| <= |s|
    ensures r.Some? ==> |r.value.0.payload| < 256
  {
    if pos + 4 > |s| then None
    else
      var length := s[pos + 3];
      if pos + 4 + length > |s| then None
      else Some((Frame(s[pos], s[pos + 1], s[pos + 2], s[pos + 4..pos + 4 + length]), pos + 4 + length))
  }

  /** What `_parseResponse` returns. */
  datatype Response =
    | Payload(bytes: seq<byte>)                  // a STATUS payload
    | Tagged(functionId: byte, bytes: seq<byte>)   // `(function, payload)` when `withFunction`
    | Items(elements: seq<Response>)             // a collected list
    | NoValue                                    // `None`, for FINAL

  /** The exceptions `_parseResponse` raises. */
  datatype DecodeError =
    | ShortRead                  // the transport ended inside a frame
    | DeviceError(code: byte)    // ERROR status, `payload[0]` is the code
    | MissingErrorCode           // ERROR status with an empty payload: `payload[0]` fails
    | IllegalStatus(status: byte)

  datatype Flags = Flags(withFunction: bool, expectList: bool, listWithFunction: bool)

  /** The keyword defaults of `_parseResponse()`. */
  const DefaultFlags := Flags(false, false, false)

  /** A decoded result and the stream position after the bytes it consumed. */
  datatype Outcome = Outcome(result: Result<Response, DecodeError>, next: nat)

  /**
   * `_parseResponse(withFunction=.., expectList=.., listWithFunction=..)`
   * reading from position `pos`.  A short read consumes the rest of the
   * stream.
   */
  function Parse(s: seq<byte>, pos: nat, flags: Flags): (o: Outcome)
    requires pos <= |s|
    ensures pos <= o.next <= |s|
    ensures o.result.Ok? ==> pos + 4 <= o.next
    ensures o.result == Err(ShortRead) ==> o.next == |s|
    ensures flags.expectList && o.result.Ok? ==> o.result.value.Items?
    decreases |s| - pos, 0
  {
    match ReadFrame(s, pos)
    case None => Outcome(Err(ShortRead), |s|)
    case Some((fr, p)) =>
      if fr.status == ERROR then
        Outcome(if |fr.payload| > 0 then Err(DeviceError(fr.payload[0])) else Err(MissingErrorCode), p)
      else if fr.status == START || flags.expectList then
        Collect(s, p, flags.listWithFunction, [])
      else if fr.status == STATUS then
        Outcome(Ok(if flags.withFunction then Tagged(fr.functionId, fr.payload) else Payload(fr.payload)), p)
      else if fr.status == PROCESS then
        Parse(s, p, flags)
      else if fr.status == FINAL then
        Outcome(Ok(NoValue), p)
      else
        Outcome(Err(IllegalStatus(fr.status)), p)
  }

  /**
   * The `while True` loop of `_parseResponse`: nested responses, each read
   * with `withFunction=listWithFunction`, are appended to `acc` until one
   * of them is `None`.
   */
  function Collect(s: seq<byte>, pos: nat, listWithFunction: bool, acc: seq<Response>): (o: Outcome)
    requires pos <= |s|
    ensures pos <= o.next <= |s|
    ensures o.result.Ok? ==> pos + 4 <= o.next && o.result.value.Items?
    ensures o.result == Err(ShortRead) ==> o.next == |s|
    decreases |s| - pos, 1
  {
    var part := Parse(s, pos, Flags(listWithFunction, false, false));
    match part.result
    case Err(e) => Outcome(Err(e), part.next)
    case Ok(NoValue) => Outcome(Ok(Items(acc)), part.next)
    case Ok(v) => Collect(s, part.next, listWithFunction, acc + [v])
  }

  // ---------------------------------------------------------------------
  // Properties
  // ---------------------------------------------------------------------

  /** Reading back an encoded frame gives its four fields and its payload. */
  lemma ReadEncodedFrame(prefix: seq<byte>, fr: Frame, rest: seq<byte>)
    requires |fr.payload| < 256
    ensures ReadFrame(prefix + EncodeFrame(fr) + rest, |prefix|) == Some((fr, |prefix| + 4 + |fr.payload|))
  {
    var s := prefix + EncodeFrame(fr) + rest;
    var pos := |prefix|;
    assert s[pos..pos + 4 + |fr.payload|] == EncodeFrame(fr);
    assert s[pos + 4..pos + 4 + |fr.payload|] == fr.payload;
  }

  /** Every command `_sendCommand` can encode is read back exactly. */
  lemma CommandRoundTrip(block: byte, functionId: byte, operator: byte, payload: seq<byte>)
    requires |payload| < 256
    ensures EncodeCommand(block, functionId, operator, payload).Some?
    ensures ReadFrame(EncodeCommand(block, functionId, operator, payload).value, 0)
         == Some((Frame(block, functionId, operator, payload), 4 + |payload|))
  {
    var fr := Frame(block, functionId, operator, payload);
    assert seq(|payload|, i requires 0 <= i < |payload| => payload[i] as byte) == payload;
    ReadEncodedFrame([], fr, []);
    assert [] + EncodeFrame(fr) + [] == EncodeFrame(fr);
  }

  /** A payload longer than the length byte can hold cannot be sent. */
  lemma CommandTooLong(block: byte, functionId: byte, operator: byte, payload: seq<int>)
    requires |payload| >= 256
    ensures EncodeCommand(block, functionId, operator, payload).None?
  {
  }

  /**
   * ERROR fails with the first payload byte as the code, and it is checked
   * before list mode: it fails even when a list is expected.
   */
  lemma ErrorFrameFails(prefix: seq<byte>, fr: Frame, rest: seq<byte>, flags: Flags)
    requires |fr.payload| < 256 && fr.status == ERROR
    ensures var o := Parse(prefix + EncodeFrame(fr) + rest, |prefix|, flags);
      o.next == |prefix| + 4 + |fr.payload| &&
      o.result == if |fr.payload| > 0 then Err(DeviceError(fr.payload[0])) else Err(MissingErrorCode)
  {
    ReadEncodedFrame(prefix, fr, rest);
  }

  /** A STATUS frame outside list mode yields its payload, tagged with the function id on request. */
  lemma StatusFrameYieldsPayload(prefix: seq<byte>, fr: Frame, rest: seq<byte>, flags: Flags)
    requires |fr.payload| < 256 && fr.status == STATUS && !flags.expectList
    ensures var o := Parse(prefix + EncodeFrame(fr) + rest, |prefix|, flags);
      o.next == |prefix| + 4 + |fr.payload| &&
      o.result == Ok(if flags.withFunction then Tagged(fr.functionId, fr.payload) else Payload(fr.payload))
  {
    ReadEncodedFrame(prefix, fr, rest);
  }

  /** A PROCESS frame outside list mode is skipped: parsing resumes after it with the same flags. */
  lemma ProcessFrameIsTransparent(prefix: seq<byte>, fr: Frame, rest: seq<byte>, flags: Flags)
    requires |fr.payload| < 256 && fr.status == PROCESS && !flags.expectList
    ensures Parse(prefix + EncodeFrame(fr) + rest, |prefix|, flags)
         == Parse(prefix + EncodeFrame(fr) + rest, |prefix| + 4 + |fr.payload|, flags)
  {
    ReadEncodedFrame(prefix, fr, rest);
  }

  /** FINAL outside list mode yields "no value". */
  lemma FinalFrameYieldsNoValue(prefix: seq<byte>, fr: Frame, rest: seq<byte>, flags: Flags)
    requires |fr.payload| < 256 && fr.status == FINAL && !flags.expectList
    ensures Parse(prefix + EncodeFrame(fr) + rest, |prefix|, flags)
         == Outcome(Ok(NoValue), |prefix| + 4 + |fr.payload|)
  {
    ReadEncodedFrame(prefix, fr, rest);
  }

  /** Statuses 0-2 and 8-255 are illegal outside list mode. */
  lemma IllegalStatusFails(prefix: seq<byte>, fr: Frame, rest: seq<byte>, flags: Flags)
    requires |fr.payload| < 256 && !flags.expectList
    requires fr.status < STATUS || fr.status > PROCESS
    ensures Parse(prefix + EncodeFrame(fr) + rest, |prefix|, flags)
         == Outcome(Err(IllegalStatus(fr.status)), |prefix| + 4 + |fr.payload|)
  {
    ReadEncodedFrame(prefix, fr, rest);
  }

  /** A stream that ends inside the header or the payload is a short read. */
  lemma TruncatedFrameIsShortRead(prefix: seq<byte>, fr: Frame, cut: nat, flags: Flags)
    requires |fr.payload| < 256 && cut < 4 + |fr.payload|
    ensures Parse(prefix + EncodeFrame(fr)[..cut], |prefix|, flags) == Outcome(Err(ShortRead), |prefix| + cut)
  {
    var s := prefix + EncodeFrame(fr)[..cut];
    if cut >= 4 {
      assert s[|prefix| + 3] == |fr.payload|;
    }
  }

  // Frames that may appear between a list's opening frame and its FINAL.

  predicate ElementFrame(fr: Frame)
  {
    |fr.payload| < 256 && (fr.status == STATUS || fr.status == PROCESS)
  }

  function EncodeFrames(frames: seq<Frame>): seq<byte>
    requires forall i :: 0 <= i < |frames| ==> ElementFrame(frames[i])
  {
    if |frames| == 0 then []
    else
      assert ElementFrame(frames[0]);
      EncodeFrame(frames[0]) + EncodeFrames(frames[1..])
  }

  /** The list element one frame contributes: a STATUS payload, or nothing for PROCESS. */
  function ElementOf(withFunction: bool, fr: Frame): seq<Response>
  {
    if fr.status == STATUS then [if withFunction then Tagged(fr.functionId, fr.payload) else Payload(fr.payload)] else []
  }

  /** The list elements those frames produce: one per STATUS frame, PROCESS frames vanish. */
  function Elements(withFunction: bool, frames: seq<Frame>): seq<Response>
  {
    if |frames| == 0 then [] else ElementOf(withFunction, frames[0]) + Elements(withFunction, frames[1..])
  }

  /** Appending the first frame's element and then the others' is appending all of them. */
  lemma ElementsAfter(withFunction: bool, frames: seq<Frame>, acc: seq<Response>)
    requires |frames| > 0
    ensures (acc + ElementOf(withFunction, frames[0])) + Elements(withFunction, frames[1..]) == acc + Elements(withFunction, frames)
  {
    assert Elements(withFunction, frames) == ElementOf(withFunction, frames[0]) + Elements(withFunction, frames[1..]);
  }

  /** One round of the collecting loop over a STATUS or PROCESS frame. */
  lemma CollectStep(s: seq<byte>, pos: nat, fr: Frame, listWithFunction: bool, acc: seq<Response>)
    requires pos <= |s| && ElementFrame(fr)
    requires ReadFrame(s, pos) == Some((fr, pos + 4 + |fr.payload|))
    ensures Collect(s, pos, listWithFunction, acc)
         == Collect(s, pos + 4 + |fr.payload|, listWithFunction, acc + ElementOf(listWithFunction, fr))
  {
    var p := pos + 4 + |fr.payload|;
    var elementFlags := Flags(listWithFunction, false, false);
    if fr.status == PROCESS {
      assert Parse(s, pos, elementFlags) == Parse(s, p, elementFlags);
      assert acc + [] == acc;
    }
  }

  /** A frame that ends the collecting loop: FINAL, ERROR, or a status no branch accepts. */
  predicate ClosingFrame(fr: Frame)
  {
    |fr.payload| < 256 && (fr.status == FINAL || fr.status == ERROR || fr.status < STATUS || fr.status > PROCESS)
  }

  /**
   * What a closing frame makes of the elements collected so far: FINAL
   * returns them, ERROR fails with its code, any other status is illegal.
   */
  function ClosingResult(closing: Frame, acc: seq<Response>): (r: Result<Response, DecodeError>)
    ensures r.Ok? <==> closing.status == FINAL
  {
    if closing.status == FINAL then Ok(Items(acc))
    else if closing.status != ERROR then Err(IllegalStatus(closing.status))
    else if |closing.payload| > 0 then Err(DeviceError(closing.payload[0]))
    else Err(MissingErrorCode)
  }

  /** A closing frame ends the loop: with what has been collected, or with its own error. */
  lemma CollectClosing(prefix: seq<byte>, closing: Frame, rest: seq<byte>, listWithFunction: bool, acc: seq<Response>)
    requires ClosingFrame(closing)
    ensures var s := prefix + EncodeFrame(closing) + rest;
      Collect(s, |prefix|, listWithFunction, acc) == Outcome(ClosingResult(closing, acc), |s| - |rest|)
  {
    var elementFlags := Flags(listWithFunction, false, false);
    if closing.status == FINAL {
      FinalFrameYieldsNoValue(prefix, closing, rest, elementFlags);
    } else if closing.status == ERROR {
      ErrorFrameFails(prefix, closing, rest, elementFlags);
    } else {
      IllegalStatusFails(prefix, closing, rest, elementFlags);
    }
  }

  /** The first of the element frames is consumed by one round of the loop, whatever follows them. */
  lemma CollectFirst(prefix: seq<byte>, frames: seq<Frame>, after: seq<byte>, listWithFunction: bool, acc: seq<Response>)
    requires |frames| > 0 && forall i :: 0 <= i < |frames| ==> ElementFrame(frames[i])
    ensures prefix + EncodeFrames(frames) + after == (prefix + EncodeFrame(frames[0])) + EncodeFrames(frames[1..]) + after
    ensures var s := prefix + EncodeFrames(frames) + after;
      Collect(s, |prefix|, listWithFunction, acc)
        == Collect(s, |prefix| + 4 + |frames[0].payload|, listWithFunction, acc + ElementOf(listWithFunction, frames[0]))
  {
    var fr := frames[0];
    assert ElementFrame(fr);
    var head, tail := EncodeFrame(fr), EncodeFrames(frames[1..]);
    assert EncodeFrames(frames) == head + tail;
    var s := prefix + EncodeFrames(frames) + after;
    assert s == prefix + head + (tail + after);
    assert (prefix + head) + tail + after == prefix + head + (tail + after);
    ReadEncodedFrame(prefix, fr, tail + after);
    CollectStep(s, |prefix|, fr, listWithFunction, acc);
  }

  /**
   * STATUS and PROCESS frames up to a closing frame: one element per STATUS
   * frame, in order, then the closing frame's result.
   */
  lemma {:induction false} CollectFrames(prefix: seq<byte>, frames: seq<Frame>, closing: Frame, rest: seq<byte>,
                                         listWithFunction: bool, acc: seq<Response>)
    requires forall i :: 0 <= i < |frames| ==> ElementFrame(frames[i])
    requires ClosingFrame(closing)
    ensures var s := prefix + EncodeFrames(frames) + (EncodeFrame(closing) + rest);
      Collect(s, |prefix|, listWithFunction, acc)
        == Outcome(ClosingResult(closing, acc + Elements(listWithFunction, frames)), |s| - |rest|)
    decreases |frames|
  {
    var after := EncodeFrame(closing) + rest;
    if |frames| == 0 {
      assert prefix + EncodeFrames(frames) + after == prefix + EncodeFrame(closing) + rest;
      CollectClosing(prefix, closing, rest, listWithFunction, acc);
      assert acc + [] == acc;
    } else {
      var prefix' := prefix + EncodeFrame(frames[0]);
      var e0 := ElementOf(listWithFunction, frames[0]);
      CollectFirst(prefix, frames, after, listWithFunction, acc);
      CollectFrames(prefix', frames[1..], closing, rest, listWithFunction, acc + e0);
      assert |prefix'| == |prefix| + 4 + |frames[0].payload|;
      ElementsAfter(listWithFunction, frames, acc);
    }
  }

  /** A stream that ends inside a frame after some STATUS and PROCESS frames ends the loop with a short read. */
  lemma {:induction false} CollectTruncated(prefix: seq<byte>, frames: seq<Frame>, last: Frame, cut: nat,
                                            listWithFunction: bool, acc: seq<Response>)
    requires forall i :: 0 <= i < |frames| ==> ElementFrame(frames[i])
    requires |last.payload| < 256 && cut < 4 + |last.payload|
    ensures var s := prefix + EncodeFrames(frames) + EncodeFrame(last)[..cut];
      Collect(s, |prefix|, listWithFunction, acc) == Outcome(Err(ShortRead), |s|)
    decreases |frames|
  {
    var after := EncodeFrame(last)[..cut];
    if |frames| == 0 {
      assert prefix + EncodeFrames(frames) + after == prefix + after;
      TruncatedFrameIsShortRead(prefix, last, cut, Flags(listWithFunction, false, false));
    } else {
      var prefix' := prefix + EncodeFrame(frames[0]);
      CollectFirst(prefix, frames, after, listWithFunction, acc);
      CollectTruncated(prefix', frames[1..], last, cut, listWithFunction, acc + ElementOf(listWithFunction, frames[0]));
      assert |prefix'| == |prefix| + 4 + |frames[0].payload|;
    }
  }

  /** A START frame (or any non-ERROR frame when a list is expected) opens the collecting loop. */
  lemma OpenList(prefix: seq<byte>, opener: Frame, after: seq<byte>, flags: Flags)
    requires |opener.payload| < 256 && opener.status != ERROR && (opener.status == START || flags.expectList)
    ensures Parse(prefix + EncodeFrame(opener) + after, |prefix|, flags)
         == Collect(prefix + EncodeFrame(opener) + after, |prefix + EncodeFrame(opener)|, flags.listWithFunction, [])
  {
    ReadEncodedFrame(prefix, opener, after);
    assert |prefix + EncodeFrame(opener)| == |prefix| + 4 + |opener.payload|;
  }

  /**
   * A START frame (or, when a list is expected, any non-ERROR frame) followed
   * by STATUS and PROCESS frames and a FINAL decodes to the STATUS payloads
   * in order; PROCESS frames, the FINAL and the opening frame's own payload
   * do not appear.  Closed instead by an ERROR frame or an illegal status,
   * the whole response fails with that frame's error.
   */
  lemma ListResponse(prefix: seq<byte>, opener: Frame, frames: seq<Frame>, closing: Frame, rest: seq<byte>, flags: Flags)
    requires |opener.payload| < 256 && opener.status != ERROR && (opener.status == START || flags.expectList)
    requires forall i :: 0 <= i < |frames| ==> ElementFrame(frames[i])
    requires ClosingFrame(closing)
    ensures var s := prefix + EncodeFrame(opener) + EncodeFrames(frames) + EncodeFrame(closing) + rest;
      Parse(s, |prefix|, flags) == Outcome(ClosingResult(closing, Elements(flags.listWithFunction, frames)), |s| - |rest|)
  {
    var after := EncodeFrames(frames) + EncodeFrame(closing) + rest;
    var prefix' := prefix + EncodeFrame(opener);
    var s := prefix' + after;
    assert s == prefix + EncodeFrame(opener) + EncodeFrames(frames) + EncodeFrame(closing) + rest;
    assert s == prefix' + EncodeFrames(frames) + (EncodeFrame(closing) + rest);
    var items := Elements(flags.listWithFunction, frames);
    OpenList(prefix, opener, after, flags);
    assert Parse(s, |prefix|, flags) == Collect(s, |prefix'|, flags.listWithFunction, []);
    CollectFrames(prefix', frames, closing, rest, flags.listWithFunction, []);
    assert [] + items == items;
    assert Collect(s, |prefix'|, flags.listWithFunction, []) == Outcome(ClosingResult(closing, items), |s| - |rest|);
  }

  /**
   * An ERROR frame among a list's elements fails the whole response with its
   * code, whatever STATUS and PROCESS frames came before it.
   */
  lemma ListErrorElement(prefix: seq<byte>, opener: Frame, frames: seq<Frame>, code: byte, rest: seq<byte>, flags: Flags)
    requires |opener.payload| < 256 && opener.status != ERROR && (opener.status == START || flags.expectList)
    requires forall i :: 0 <= i < |frames| ==> ElementFrame(frames[i])
    ensures var s := prefix + EncodeFrame(opener) + EncodeFrames(frames) + EncodeFrame(Frame(opener.block, opener.functionId, ERROR, [code])) + rest;
      Parse(s, |prefix|, flags).result == Err(DeviceError(code))
  {
    ListResponse(prefix, opener, frames, Frame(opener.block, opener.functionId, ERROR, [code]), rest, flags);
  }

  /** A list whose stream ends inside one of its frames fails as a short read. */
  lemma ListTruncated(prefix: seq<byte>, opener: Frame, frames: seq<Frame>, last: Frame, cut: nat, flags: Flags)
    requires |opener.payload| < 256 && opener.status != ERROR && (opener.status == START || flags.expectList)
    requires forall i :: 0 <= i < |frames| ==> ElementFrame(frames[i])
    requires |last.payload| < 256 && cut < 4 + |last.payload|
    ensures var s := prefix + EncodeFrame(opener) + EncodeFrames(frames) + EncodeFrame(last)[..cut];
      Parse(s, |prefix|, flags) == Outcome(Err(ShortRead), |s|)
  {
    var after := EncodeFrame(last)[..cut];
    var prefix' := prefix + EncodeFrame(opener);
    var s := prefix' + (EncodeFrames(frames) + after);
    assert s == prefix + EncodeFrame(opener) + EncodeFrames(frames) + after;
    assert s == prefix' + EncodeFrames(frames) + after;
    OpenList(prefix, opener, EncodeFrames(frames) + after, flags);
    CollectTruncated(prefix', frames, last, cut, flags.listWithFunction, []);
  }

  /** Example: START, STATUS(A), PROCESS, STATUS(B), FINAL decodes to [A, B]. */
  lemma ListExample(a: seq<byte>, b: seq<byte>)
    requires |a| < 256 && |b| < 256
    ensures var frames := [Frame(0, 1, STATUS, a), Frame(0, 1, PROCESS, []), Frame(0, 1, STATUS, b)];
      var s := EncodeFrame(Frame(0, 1, START, [])) + EncodeFrames(frames) + EncodeFrame(Frame(0, 1, FINAL, []));
      Parse(s, 0, DefaultFlags).result == Ok(Items([Payload(a), Payload(b)]))
  {
    var frames := [Frame(0, 1, STATUS, a), Frame(0, 1, PROCESS, []), Frame(0, 1, STATUS, b)];
    var s := EncodeFrame(Frame(0, 1, START, [])) + EncodeFrames(frames) + EncodeFrame(Frame(0, 1, FINAL, []));
    ListResponse([], Frame(0, 1, START, []), frames, Frame(0, 1, FINAL, []), [], DefaultFlags);
    assert [] + EncodeFrame(Frame(0, 1, START, [])) + EncodeFrames(frames) + EncodeFrame(Frame(0, 1, FINAL, [])) + [] == s;
    var tail := [Frame(0, 1, STATUS, b)];
    assert frames[1..][1..] == tail && tail[1..] == [];
    assert Elements(false, tail) == [Payload(b)] + Elements(false, []);
    assert Elements(false, frames[1..]) == [] + Elements(false, tail);
    assert Elements(false, frames) == [Payload(a)] + Elements(false, frames[1..]);
    assert Elements(false, frames) == [Payload(a), Payload(b)];
    assert Parse(s, 0, DefaultFlags).result == Ok(Items(Elements(DefaultFlags.listWithFunction, frames)));
  }

  /**
   * A START frame among a list's elements opens a nested list through the
   * recursive call, which passes the default `listWithFunction`: its
   * elements, untagged, become one element of the outer list.
   */
  lemma CollectNestedList(prefix: seq<byte>, opener: Frame, inner: seq<Frame>, closing: Frame, rest: seq<byte>,
                          listWithFunction: bool, acc: seq<Response>)
    requires |opener.payload| < 256 && opener.status == START
    requires forall i :: 0 <= i < |inner| ==> ElementFrame(inner[i])
    requires |closing.payload| < 256 && closing.status == FINAL
    ensures var s := prefix + EncodeFrame(opener) + EncodeFrames(inner) + EncodeFrame(closing) + rest;
      Collect(s, |prefix|, listWithFunction, acc)
        == Collect(s, |s| - |rest|, listWithFunction, acc + [Items(Elements(false, inner))])
  {
    ListResponse(prefix, opener, inner, closing, rest, Flags(listWithFunction, false, false));
  }

  /** Example: START, START, STATUS(A), FINAL, FINAL decodes to [[A]]. */
  lemma NestedListExample(a: seq<byte>)
    requires |a| < 256
    ensures var start, fin := Frame(0, 1, START, []), Frame(0, 1, FINAL, []);
      var s := EncodeFrame(start) + EncodeFrame(start) + EncodeFrames([Frame(0, 1, STATUS, a)]) + EncodeFrame(fin) + EncodeFrame(fin);
      Parse(s, 0, DefaultFlags).result == Ok(Items([Items([Payload(a)])]))
  {
    var start, fin := Frame(0, 1, START, []), Frame(0, 1, FINAL, []);
    var inner := [Frame(0, 1, STATUS, a)];
    var outer := EncodeFrame(start);
    var s := outer + EncodeFrame(start) + EncodeFrames(inner) + EncodeFrame(fin) + EncodeFrame(fin);
    OpenList([], start, s[4..], DefaultFlags);
    assert [] + EncodeFrame(start) + s[4..] == s;
    CollectNestedList(outer, start, inner, fin, EncodeFrame(fin), false, []);
    var acc := [Items(Elements(false, inner))];
    assert |outer| == 4 && |EncodeFrame(fin)| == 4 && [] + acc == acc;
    assert inner[1..] == [] && Elements(false, []) == [];
    assert ElementOf(false, inner[0]) == [Payload(a)];
    assert Elements(false, inner) == [Payload(a)];
    CollectClosing(s[..|s| - 4], fin, [], false, acc);
    assert s[..|s| - 4] + EncodeFrame(fin) + [] == s;
  }
}
