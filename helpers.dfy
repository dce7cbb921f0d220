/**
 * Wire helpers of the BMAP client (src/devices/helpers.py): the big-endian
 * byte fold behind capability bitmasks, bitmask-to-enumeration decoding,
 * and the hexadecimal text forms of byte strings and MAC addresses.
 *
 * An enumeration is modelled by the sequence of its members' values in
 * declaration order; a member is identified with its value.
 */
module Helpers {
  import opened Common

  // ---------------------------------------------------------------------
  // Bitmasks
  // ---------------------------------------------------------------------

  /** The bytes read as one unsigned integer, most significant byte first. */
  function BigEndian(s: seq<byte>): nat
  {
    if |s| == 0 then 0 else BigEndian(s[..|s| - 1]) * 256 + s[|s| - 1]
  }

  /**
   * `_bytesToBitmask`: shifts the accumulator left by eight bits and ORs in
   * each byte.  After the shift the low eight bits are zero, so the OR of a
   * byte is an addition.
   */
  method BytesToBitmask(bytes: seq<byte>) returns (ret: nat)
    ensures ret == BigEndian(bytes)
    ensures ret < Pow2(8 * |bytes|)
  {
    ret := 0;
    var i := 0;
    while i < |bytes|
      invariant 0 <= i <= |bytes|
      invariant ret == BigEndian(bytes[..i])
    {
      assert bytes[..i + 1][..i] == bytes[..i];
      ret := ret * 256 + bytes[i];
      i := i + 1;
    }
    assert bytes[..i] == bytes;
    BigEndianBound(bytes);
  }

  /** The fold of `n` bytes stays below `2^(8n)`. */
  lemma {:induction false} BigEndianBound(s: seq<byte>)
    ensures BigEndian(s) < Pow2(8 * |s|)
  {
    if |s| > 0 {
      var init := s[..|s| - 1];
      BigEndianBound(init);
      Pow2Add(8 * |init|, 8);
      assert Pow2(8) == 256;
    }
  }

  /** Folding a concatenation: the left part is shifted past the right part. */
  lemma {:induction false} BigEndianAppend(a: seq<byte>, b: seq<byte>)
    ensures BigEndian(a + b) == BigEndian(a) * Pow2(8 * |b|) + BigEndian(b)
    decreases |b|
  {
    if |b| > 0 {
      var b' := b[..|b| - 1];
      var x, p, u, l := BigEndian(a), Pow2(8 * |b'|), BigEndian(b'), b[|b| - 1];
      assert BigEndian(a + b) == (x * p + u) * 256 + l by {
        assert (a + b)[..|a + b| - 1] == a + b';
        BigEndianAppend(a, b');
      }
      assert Pow2(8 * |b|) == p * 256 by {
        Pow2Add(8 * |b'|, 8);
        assert Pow2(8) == 256;
      }
      assert BigEndian(b) == u * 256 + l by {
        assert b[..|b| - 1] == b';
      }
      ShiftPast(x, p, u, l, Pow2(8 * |b|), BigEndian(b));
    } else {
      assert a + b == a;
    }
  }

  lemma ShiftPast(x: nat, p: nat, u: nat, l: nat, q: nat, v: nat)
    requires q == p * 256 && v == u * 256 + l
    ensures (x * p + u) * 256 + l == x * q + v
  {
  }

  /** Leading zero bytes do not change a bitmask. */
  lemma LeadingZeroes(s: seq<byte>)
    ensures BigEndian([0] + s) == BigEndian(s)
  {
    BigEndianAppend([0], s);
    assert [0 as byte][..0] == [];
  }

  /**
   * Most significant byte first: bit `i` of the fold is bit `i % 8` of the
   * `i / 8`-th byte counted from the END of the sequence, and every bit at
   * or above `8 * |s|` is clear.
   */
  lemma {:induction false} BitOfBigEndian(s: seq<byte>, i: nat)
    ensures Bit(BigEndian(s), i) == (i < 8 * |s| && Bit(s[|s| - 1 - i / 8], i % 8))
  {
    if |s| == 0 {
      assert BigEndian(s) == 0;
    } else {
      var init, last := s[..|s| - 1], s[|s| - 1];
      assert BigEndian(s) == BigEndian(init) * 256 + last;
      if i < 8 {
        BitOfByteAppendLow(BigEndian(init), last, i);
        assert i / 8 == 0 && i % 8 == i;
      } else {
        BitOfByteAppendHigh(BigEndian(init), last, i);
        BitOfBigEndian(init, i - 8);
        assert (i - 8) / 8 == i / 8 - 1 && (i - 8) % 8 == i % 8;
        if i < 8 * |s| {
          assert init[|init| - 1 - (i - 8) / 8] == s[|s| - 1 - i / 8];
        }
      }
    }
  }

  /**
   * `_applyBitmask(enum, bitmask)` on an integer mask: the members `m`, in
   * declaration order, with `bitmask & (1 << m.value)` non-zero.
   */
  function ApplyBitmask(members: seq<nat>, mask: nat): (r: seq<nat>)
    ensures |r| <= |members|
    ensures forall m :: m in r ==> m in members && Bit(mask, m)
  {
    if |members| == 0 then []
    else (if Bit(mask, members[0]) then [members[0]] else []) + ApplyBitmask(members[1..], mask)
  }

  /**
   * `_applyBitmask(enum, bitmask)` on a byte string: folded first, so a
   * member's bit lies in the byte `value / 8` positions from the end.
   */
  function ApplyBitmaskToBytes(members: seq<nat>, mask: seq<byte>): (r: seq<nat>)
    ensures |r| <= |members|
    ensures forall m :: m in r ==> m in members && m < 8 * |mask| && Bit(mask[|mask| - 1 - m / 8], m % 8)
  {
    SelectedBitsOfBytes(members, mask);
    ApplyBitmask(members, BigEndian(mask))
  }

  lemma SelectedBitsOfBytes(members: seq<nat>, mask: seq<byte>)
    ensures forall m :: m in ApplyBitmask(members, BigEndian(mask)) ==>
      m < 8 * |mask| && Bit(mask[|mask| - 1 - m / 8], m % 8)
  {
    forall m | m in ApplyBitmask(members, BigEndian(mask))
      ensures m < 8 * |mask| && Bit(mask[|mask| - 1 - m / 8], m % 8)
    {
      BitOfBigEndian(mask, m);
    }
  }

  predicate NoDuplicates(s: seq<nat>)
  {
    forall i, j :: 0 <= i < j < |s| ==> s[i] != s[j]
  }

  /** Exactly the members whose bit is set are returned. */
  lemma {:induction false} ApplyBitmaskMembers(members: seq<nat>, mask: nat, m: nat)
    ensures m in ApplyBitmask(members, mask) <==> m in members && Bit(mask, m)
  {
    if |members| > 0 {
      ApplyBitmaskMembers(members[1..], mask, m);
      assert members == [members[0]] + members[1..];
    }
  }

  /**
   * Declaration order is kept: decoding a split enumeration is decoding
   * each part, earlier members first.
   */
  lemma {:induction false} ApplyBitmaskSplit(a: seq<nat>, b: seq<nat>, mask: nat)
    ensures ApplyBitmask(a + b, mask) == ApplyBitmask(a, mask) + ApplyBitmask(b, mask)
  {
    if |a| > 0 {
      assert (a + b)[1..] == a[1..] + b;
      ApplyBitmaskSplit(a[1..], b, mask);
    } else {
      assert a + b == b;
    }
  }

  /** An enumeration without duplicate values decodes to a list without duplicates. */
  lemma {:induction false} ApplyBitmaskNoDuplicates(members: seq<nat>, mask: nat)
    requires NoDuplicates(members)
    ensures NoDuplicates(ApplyBitmask(members, mask))
  {
    if |members| > 0 {
      var tail := members[1..];
      assert NoDuplicates(tail);
      ApplyBitmaskNoDuplicates(tail, mask);
      ApplyBitmaskMembers(tail, mask, members[0]);
      assert members[0] !in tail;
    }
  }

  /** An all-zero or empty byte mask selects nothing. */
  lemma {:induction false} ZeroMaskSelectsNothing(members: seq<nat>, mask: seq<byte>)
    requires forall i :: 0 <= i < |mask| ==> mask[i] == 0
    ensures ApplyBitmaskToBytes(members, mask) == []
  {
    ZeroBytesFoldToZero(mask);
    assert forall m :: m in members ==> !Bit(0, m);
    NothingSet(members, 0);
  }

  lemma {:induction false} ZeroBytesFoldToZero(s: seq<byte>)
    requires forall i :: 0 <= i < |s| ==> s[i] == 0
    ensures BigEndian(s) == 0
  {
    if |s| > 0 {
      ZeroBytesFoldToZero(s[..|s| - 1]);
    }
  }

  lemma {:induction false} NothingSet(members: seq<nat>, mask: nat)
    requires forall m :: m in members ==> !Bit(mask, m)
    ensures ApplyBitmask(members, mask) == []
  {
    if |members| > 0 {
      NothingSet(members[1..], mask);
    }
  }

  /** An empty byte mask selects nothing. */
  lemma EmptyMaskSelectsNothing(members: seq<nat>)
    ensures ApplyBitmaskToBytes(members, []) == []
  {
    assert BigEndian([]) == 0;
    NothingSet(members, 0);
  }

  /**
   * A member selected from a byte mask is one whose bit is set in the byte
   * `value / 8` positions from the end, at bit `value % 8`.
   */
  lemma ApplyBitmaskToBytesMembers(members: seq<nat>, mask: seq<byte>, m: nat)
    ensures m in ApplyBitmaskToBytes(members, mask)
        <==> m in members && m < 8 * |mask| && Bit(mask[|mask| - 1 - m / 8], m % 8)
  {
    ApplyBitmaskMembers(members, BigEndian(mask), m);
    BitOfBigEndian(mask, m);
  }

  // ---------------------------------------------------------------------
  // Hexadecimal text
  // ---------------------------------------------------------------------

  /** A lower-case hexadecimal digit for `0 <= n < 16`. */
  function HexDigit(n: nat): (c: char)
    requires n < 16
    ensures IsLowerHexDigit(c)
  {
    if n < 10 then (48 + n) as char else (87 + n) as char
  }

  predicate IsLowerHexDigit(c: char)
  {
    '0' <= c <= '9' || 'a' <= c <= 'f'
  }

  /** `f"{p:02x}"` for a byte `p`. */
  function HexByte(b: byte): (r: string)
    ensures |r| == 2 && IsLowerHexDigit(r[0]) && IsLowerHexDigit(r[1])
  {
    [HexDigit(b / 16), HexDigit(b % 16)]
  }

  /** The list `[f"{p:02x}" for p in bytes]`. */
  function HexGroups(bytes: seq<byte>): (r: seq<string>)
    ensures |r| == |bytes|
    ensures forall i :: 0 <= i < |bytes| ==> r[i] == HexByte(bytes[i])
  {
    if |bytes| == 0 then [] else [HexByte(bytes[0])] + HexGroups(bytes[1..])
  }

  /** `sep.join(parts)` */
  function Join(parts: seq<string>, sep: char): string
  {
    if |parts| == 0 then ""
    else if |parts| == 1 then parts[0]
    else parts[0] + [sep] + Join(parts[1..], sep)
  }

  /** `_bytesToMacAddress`: three characters per byte but the last; no bytes print as "". */
  function BytesToMacAddress(bytes: seq<byte>): (r: string)
    ensures |bytes| == 0 ==> r == ""
    ensures |bytes| >= 1 ==> |r| == 3 * |bytes| - 1
  {
    if |bytes| == 0 then ""
    else
      JoinPairsLayout(HexGroups(bytes), ':');
      Join(HexGroups(bytes), ':')
  }

  /** `_bytesToHexString`: the same length rule as the MAC text. */
  function BytesToHexString(bytes: seq<byte>): (r: string)
    ensures |bytes| == 0 ==> r == ""
    ensures |bytes| >= 1 ==> |r| == 3 * |bytes| - 1
  {
    if |bytes| == 0 then ""
    else
      JoinPairsLayout(HexGroups(bytes), ' ');
      Join(HexGroups(bytes), ' ')
  }

  /**
   * Joining `n >= 1` two-character parts: `3n - 1` characters, part `i` at
   * offset `3i`, the separator after every part but the last.
   */
  lemma {:induction false} JoinPairsLayout(parts: seq<string>, sep: char)
    requires |parts| >= 1
    requires forall i :: 0 <= i < |parts| ==> |parts[i]| == 2
    ensures |Join(parts, sep)| == 3 * |parts| - 1
    ensures forall i :: 0 <= i < |parts| ==> Join(parts, sep)[3 * i..3 * i + 2] == parts[i]
    ensures forall i :: 0 <= i < |parts| - 1 ==> Join(parts, sep)[3 * i + 2] == sep
  {
    if |parts| > 1 {
      var tail := parts[1..];
      JoinPairsLayout(tail, sep);
      var j := Join(parts, sep);
      var jt := Join(tail, sep);
      assert j == parts[0] + [sep] + jt;
      forall i | 1 <= i < |parts|
        ensures j[3 * i..3 * i + 2] == parts[i]
      {
        assert j[3 * i..3 * i + 2] == jt[3 * (i - 1)..3 * (i - 1) + 2];
      }
      forall i | 1 <= i < |parts| - 1
        ensures j[3 * i + 2] == sep
      {
        assert j[3 * i + 2] == jt[3 * (i - 1) + 2];
      }
    }
  }

  /**
   * The MAC text of `n >= 1` bytes: `n` two-digit lower-case hex groups,
   * byte order preserved, separated by ':'; `3n - 1` characters.
   */
  lemma MacAddressLayout(bytes: seq<byte>)
    requires |bytes| >= 1
    ensures |BytesToMacAddress(bytes)| == 3 * |bytes| - 1
    ensures forall i :: 0 <= i < |bytes| ==> BytesToMacAddress(bytes)[3 * i..3 * i + 2] == HexByte(bytes[i])
    ensures forall i :: 0 <= i < |bytes| - 1 ==> BytesToMacAddress(bytes)[3 * i + 2] == ':'
  {
    JoinPairsLayout(HexGroups(bytes), ':');
  }

  /** The hex-string form: the same groups, separated by ' '. */
  lemma HexStringLayout(bytes: seq<byte>)
    requires |bytes| >= 1
    ensures |BytesToHexString(bytes)| == 3 * |bytes| - 1
    ensures forall i :: 0 <= i < |bytes| ==> BytesToHexString(bytes)[3 * i..3 * i + 2] == HexByte(bytes[i])
    ensures forall i :: 0 <= i < |bytes| - 1 ==> BytesToHexString(bytes)[3 * i + 2] == ' '
  {
    JoinPairsLayout(HexGroups(bytes), ' ');
  }

  /** Joining two non-empty lists puts one separator between their joins. */
  lemma {:induction false} JoinAppend(p: seq<string>, q: seq<string>, sep: char)
    requires |p| >= 1 && |q| >= 1
    ensures Join(p + q, sep) == Join(p, sep) + [sep] + Join(q, sep)
  {
    if |p| > 1 {
      assert (p + q)[1..] == p[1..] + q;
      JoinAppend(p[1..], q, sep);
    } else {
      assert (p + q)[1..] == q;
    }
  }

  /** The MAC text of a concatenation is the two MAC texts joined by ':'. */
  lemma MacAddressAppend(a: seq<byte>, b: seq<byte>)
    requires |a| >= 1 && |b| >= 1
    ensures BytesToMacAddress(a + b) == BytesToMacAddress(a) + ":" + BytesToMacAddress(b)
  {
    assert HexGroups(a + b) == HexGroups(a) + HexGroups(b);
    JoinAppend(HexGroups(a), HexGroups(b), ':');
  }

  // ---------------------------------------------------------------------
  // Parsing MAC text
  // ---------------------------------------------------------------------

  /** `s.split(sep)`: the maximal separator-free pieces, always at least one. */
  function Split(s: string, sep: char): (parts: seq<string>)
    ensures |parts| >= 1
  {
    if |s| == 0 then [""]
    else
      var rest := Split(s[1..], sep);
      if s[0] == sep then [""] + rest else [[s[0]] + rest[0]] + rest[1..]
  }

  /** The digit value `int(c, 16)` gives a single character. */
  function HexDigitValue(c: char): Option<nat>
  {
    if '0' <= c <= '9' then Some(c as int - 48)
    else if 'a' <= c <= 'f' then Some(c as int - 87)
    else if 'A' <= c <= 'F' then Some(c as int - 55)
    else None
  }

  /** `int(s, 16)` for a string of hex digits; `None` where Python raises. */
  function HexNumeral(s: string): Option<nat>
  {
    if |s| == 0 then None
    else
      match (HexNumeral(s[..|s| - 1]), HexDigitValue(s[|s| - 1]))
      case (Some(h), Some(d)) => Some(if |s| == 1 then d else 16 * h + d)
      case (None, Some(d)) => if |s| == 1 then Some(d) else None
      case _ => None
  }

  /** A group `int(x, 16)` reads as a value `bytes` accepts. */
  predicate IsByteNumeral(part: string)
  {
    HexNumeral(part).Some? && HexNumeral(part).value < 256
  }

  /**
   * `bytes(map(lambda x: int(x, 16), parts))`: defined exactly when every
   * group is a hex numeral below 256, and then byte `i` is group `i`'s value.
   */
  function ParseHexGroups(parts: seq<string>): (r: Option<seq<byte>>)
    ensures r.Some? <==> forall i :: 0 <= i < |parts| ==> IsByteNumeral(parts[i])
    ensures r.Some? ==> |r.value| == |parts|
    ensures r.Some? ==> forall i :: 0 <= i < |parts| ==> HexNumeral(parts[i]) == Some(r.value[i] as nat)
  {
    if |parts| == 0 then Some([])
    else
      match HexNumeral(parts[0])
      case None => None
      case Some(v) =>
        if v >= 256 then None
        else match ParseHexGroups(parts[1..])
          case None => None
          case Some(rest) => Some([v as byte] + rest)
  }

  /**
   * `_macAddressToBytes`: one byte per ':'-separated group, `None` where
   * some group is not a hex numeral below 256.
   */
  function MacAddressToBytes(mac: string): (r: Option<seq<byte>>)
    ensures r == ParseHexGroups(Split(mac, ':'))
    ensures r.Some? <==> forall i :: 0 <= i < |Split(mac, ':')| ==> IsByteNumeral(Split(mac, ':')[i])
    ensures r.Some? ==> |r.value| == |Split(mac, ':')|
    ensures r.Some? ==> forall i :: 0 <= i < |r.value| ==> HexNumeral(Split(mac, ':')[i]) == Some(r.value[i] as nat)
  {
    ParseHexGroups(Split(mac, ':'))
  }

  lemma {:induction false} SplitWithoutSeparator(p: string, sep: char)
    requires sep !in p
    ensures Split(p, sep) == [p]
  {
    if |p| > 0 {
      SplitWithoutSeparator(p[1..], sep);
      assert [p[0]] + p[1..] == p;
    }
  }

  lemma {:induction false} SplitAtFirstSeparator(p: string, sep: char, rest: string)
    requires sep !in p
    ensures Split(p + [sep] + rest, sep) == [p] + Split(rest, sep)
  {
    var s := p + [sep] + rest;
    if |p| == 0 {
      assert s[1..] == rest;
    } else {
      assert s[1..] == p[1..] + [sep] + rest;
      SplitAtFirstSeparator(p[1..], sep, rest);
      assert [p[0]] + p[1..] == p;
    }
  }

  /** Splitting undoes joining, when no part holds the separator. */
  lemma {:induction false} SplitJoin(parts: seq<string>, sep: char)
    requires |parts| >= 1
    requires forall i :: 0 <= i < |parts| ==> sep !in parts[i]
    ensures Split(Join(parts, sep), sep) == parts
  {
    if |parts| == 1 {
      SplitWithoutSeparator(parts[0], sep);
    } else {
      SplitJoin(parts[1..], sep);
      SplitAtFirstSeparator(parts[0], sep, Join(parts[1..], sep));
    }
  }

  /** Joining undoes splitting. */
  lemma {:induction false} JoinSplit(s: string, sep: char)
    ensures Join(Split(s, sep), sep) == s
  {
    if |s| > 0 {
      var rest := Split(s[1..], sep);
      JoinSplit(s[1..], sep);
      if s[0] == sep {
        assert Join([""] + rest, sep) == "" + [sep] + Join(rest, sep);
      } else {
        var parts := [[s[0]] + rest[0]] + rest[1..];
        if |rest| == 1 {
          assert Join(parts, sep) == [s[0]] + rest[0];
        } else {
          assert Join(rest, sep) == rest[0] + [sep] + Join(rest[1..], sep);
          assert parts[1..] == rest[1..];
        }
      }
    }
  }

  lemma HexByteValue(b: byte)
    ensures HexNumeral(HexByte(b)) == Some(b)
  {
    var h := HexByte(b);
    assert h[..1] == [h[0]];
  }

  lemma HexGroupsHaveNoColon(bytes: seq<byte>, sep: char)
    requires !IsLowerHexDigit(sep)
    ensures forall i :: 0 <= i < |bytes| ==> sep !in HexGroups(bytes)[i]
  {
  }

  lemma {:induction false} ParseHexGroupsOfBytes(bytes: seq<byte>)
    ensures ParseHexGroups(HexGroups(bytes)) == Some(bytes)
  {
    if |bytes| > 0 {
      HexByteValue(bytes[0]);
      ParseHexGroupsOfBytes(bytes[1..]);
      assert HexGroups(bytes)[1..] == HexGroups(bytes[1..]);
      assert [bytes[0]] + bytes[1..] == bytes;
    }
  }

  /** Parsing the MAC text of any non-empty byte string gives the bytes back. */
  lemma MacAddressRoundTrip(bytes: seq<byte>)
    requires |bytes| >= 1
    ensures MacAddressToBytes(BytesToMacAddress(bytes)) == Some(bytes)
  {
    HexGroupsHaveNoColon(bytes, ':');
    SplitJoin(HexGroups(bytes), ':');
    ParseHexGroupsOfBytes(bytes);
  }

  /** Lower-case, colon-separated, two hex digits per group. */
  predicate WellFormedMac(mac: string)
  {
    forall part :: part in Split(mac, ':') ==>
      |part| == 2 && IsLowerHexDigit(part[0]) && IsLowerHexDigit(part[1])
  }

  /** A lower-case hex digit is read as a value that prints back as the same digit. */
  lemma LowerHexDigit(c: char)
    requires IsLowerHexDigit(c)
    ensures HexDigitValue(c).Some? && HexDigitValue(c).value < 16
    ensures HexDigit(HexDigitValue(c).value) == c
  {
  }

  lemma LowerHexPair(part: string)
    requires |part| == 2 && IsLowerHexDigit(part[0]) && IsLowerHexDigit(part[1])
    ensures HexNumeral(part).Some? && HexNumeral(part).value < 256
    ensures HexByte(HexNumeral(part).value as byte) == part
  {
    LowerHexDigit(part[0]);
    LowerHexDigit(part[1]);
    var hi, lo := HexDigitValue(part[0]).value, HexDigitValue(part[1]).value;
    assert part[..1] == [part[0]];
    assert HexNumeral(part[..1]) == Some(hi);
    var v := 16 * hi + lo;
    assert HexNumeral(part) == Some(v);
    DivUnique(v, 16, hi, lo);
    assert HexByte(v as byte) == [HexDigit(hi), HexDigit(lo)];
  }

  lemma {:induction false} ParseLowerHexPairs(parts: seq<string>)
    requires forall part :: part in parts ==>
      |part| == 2 && IsLowerHexDigit(part[0]) && IsLowerHexDigit(part[1])
    ensures ParseHexGroups(parts).Some?
    ensures HexGroups(ParseHexGroups(parts).value) == parts
  {
    if |parts| > 0 {
      LowerHexPair(parts[0]);
      ParseLowerHexPairs(parts[1..]);
      var r := ParseHexGroups(parts).value;
      assert r[1..] == ParseHexGroups(parts[1..]).value;
    }
  }

  /** A well-formed MAC text parses, and printing the bytes gives the text back. */
  lemma MacTextRoundTrip(mac: string)
    requires WellFormedMac(mac)
    ensures MacAddressToBytes(mac).Some?
    ensures BytesToMacAddress(MacAddressToBytes(mac).value) == mac
  {
    ParseLowerHexPairs(Split(mac, ':'));
    JoinSplit(mac, ':');
  }
}
