/**
 * Shared vocabulary: bytes, optional values and results, and the integer
 * arithmetic that stands in for Python's `<<`, `>>` and `&` on
 * non-negative integers.
 */
module Common {

  /** A Python `bytes` element. */
  type byte = x: int | 0 <= x < 256

  datatype Option<+T> = None | Some(value: T)

  /** A value, or the exception the source would raise instead. */
  datatype Result<+T, +E> = Ok(value: T) | Err(error: E)

  /** Python's `s[n:]`: empty once `n` is past the end. */
  function Suffix<T>(s: seq<T>, n: nat): (r: seq<T>)
    ensures |r| == if n <= |s| then |s| - n else 0
    ensures forall i :: 0 <= i < |r| ==> r[i] == s[n + i]
  {
    if n <= |s| then s[n..] else []
  }

  /** `1 << n` */
  function Pow2(n: nat): (r: nat)
    ensures r >= 1
  {
    if n == 0 then 1 else 2 * Pow2(n - 1)
  }

  /** `v >> s` */
  function Shr(v: nat, s: nat): nat
  {
    DivMod(v, Pow2(s));
    v / Pow2(s)
  }

  /** `(v >> p) & 1 == 1`, equivalently `v & (1 << p) != 0`. */
  predicate Bit(v: nat, p: nat)
  {
    (v / Pow2(p)) % 2 == 1
  }

  lemma {:induction false} Pow2Add(a: nat, b: nat)
    ensures Pow2(a + b) == Pow2(a) * Pow2(b)
  {
    if a > 0 {
      Pow2Add(a - 1, b);
      assert Pow2(a + b) == 2 * Pow2(a - 1 + b);
    }
  }

  lemma {:induction false} Pow2Monotone(a: nat, b: nat)
    requires a <= b
    ensures Pow2(a) <= Pow2(b)
    decreases b
  {
    if a < b {
      Pow2Monotone(a, b - 1);
    }
  }

  lemma MulSign(d: int, k: int)
    requires d > 0
    ensures k >= 1 ==> d * k >= d
    ensures k <= -1 ==> d * k <= -d
  {
  }

  /** Euclidean division is determined by its quotient and remainder. */
  lemma DivUnique(v: int, d: int, q: int, r: int)
    requires d > 0 && 0 <= r < d && v == d * q + r
    ensures v / d == q && v % d == r
  {
    var q', r' := v / d, v % d;
    assert v == d * q' + r';
    MulSign(d, q' - q);
    assert d * (q' - q) == d * q' - d * q;
    assert d * (q' - q) == r - r';
  }

  lemma MulMonotone(a: nat, x: nat, y: nat)
    requires x <= y
    ensures a * x <= a * y
  {
  }

  /** `(v >> a) >> b == v >> (a + b)`, with divisors in place of shifts. */
  lemma DivDiv(v: nat, a: nat, b: nat)
    requires a > 0 && b > 0
    ensures (v / a) / b == v / (a * b)
  {
    var q1, r1 := v / a, v % a;
    var q2, r2 := q1 / b, q1 % b;
    assert v == a * q1 + r1;
    assert q1 == b * q2 + r2;
    assert a * q1 == a * (b * q2) + a * r2;
    assert a * (b * q2) == (a * b) * q2;
    MulMonotone(a, r2, b - 1);
    assert a * (b - 1) == a * b - a;
    DivUnique(v, a * b, q2, a * r2 + r1);
  }

  lemma DivAddMultiple(q: nat, d: nat, l: nat)
    requires d > 0
    ensures (q * d + l) / d == q + l / d
  {
    DivUnique(q * d + l, d, q + l / d, l % d);
  }

  /** Bit `s + i` of `v` is bit `i` of `v >> s`. */
  lemma BitOfShift(v: nat, s: nat, i: nat)
    ensures Bit(Shr(v, s), i) == Bit(v, s + i)
  {
    var a, b := Pow2(s), Pow2(i);
    DivDiv(v, a, b);
    Pow2Add(s, i);
    assert Shr(v, s) / b == v / Pow2(s + i);
  }

  lemma MulRearrange(p: nat, h: nat, q: nat)
    ensures (p * (2 * h)) * q == (2 * (q * h)) * p
  {
  }

  lemma DivMod(v: nat, d: nat)
    requires d > 0
    ensures v / d >= 0 && v == d * (v / d) + v % d
  {
  }

  lemma ModKeepsLowBit(v: nat, p: nat, h: nat)
    requires p > 0 && h > 0
    ensures ((v % (p * (2 * h))) / p) % 2 == (v / p) % 2
  {
    var n := p * (2 * h);
    DivMod(v, n);
    var m: nat, q: nat := v % n, v / n;
    MulRearrange(p, h, q);
    var k := q * h;
    assert n * q == (2 * k) * p;
    DivAddMultiple(2 * k, p, m);
    assert v / p == 2 * k + m / p;
  }

  /**
   * `Bit` is the test `v & (1 << p) != 0`: bit `p` is set exactly when the
   * part of `v` below bit `p + 1` reaches `2^p`.
   */
  lemma BitMaskTest(v: nat, p: nat)
    ensures Bit(v, p) <==> v % Pow2(p + 1) >= Pow2(p)
  {
    var d := Pow2(p);
    assert Pow2(p + 1) == 2 * d;
    DivMod(v, d);
    var q: nat := v / d;
    DivMod(q, 2);
    var k: nat, b: nat := q / 2, q % 2;
    assert d * q == (2 * d) * k + d * b;
    MulMonotone(d, b, 1);
    DivUnique(v, 2 * d, k, d * b + v % d);
  }

  /** Masking with `(1 << w) - 1` keeps the bits below `w`. */
  lemma BitOfMod(v: nat, w: nat, i: nat)
    requires i < w
    ensures Bit(v % Pow2(w), i) == Bit(v, i)
  {
    Pow2Add(i, w - i);
    assert Pow2(w) == Pow2(i) * (2 * Pow2(w - i - 1));
    ModKeepsLowBit(v, Pow2(i), Pow2(w - i - 1));
  }

  /** `(2 * k + m) % 2 == m % 2`: an even addend leaves the low bit alone. */
  lemma EvenAddend(k: nat, m: nat)
    ensures (2 * k + m) % 2 == m % 2
  {
    DivUnique(2 * k + m, 2, k + m / 2, m % 2);
  }

  /** The low byte of `x * 256 + l` is `l`. */
  lemma BitOfByteAppendLow(x: nat, l: nat, i: nat)
    requires l < 256 && i < 8
    ensures Bit(x * 256 + l, i) == Bit(l, i)
  {
    var p, h := Pow2(i), Pow2(7 - i);
    Pow2Add(i, 8 - i);
    assert Pow2(8) == 256;
    assert Pow2(8 - i) == 2 * h;
    MulRearrange(p, h, x);
    assert x * 256 == (2 * (x * h)) * p;
    DivAddMultiple(2 * (x * h), p, l);
    EvenAddend(x * h, l / p);
  }

  /** Above the low byte, `x * 256 + l` holds the bits of `x`. */
  lemma BitOfByteAppendHigh(x: nat, l: nat, i: nat)
    requires l < 256 && i >= 8
    ensures Bit(x * 256 + l, i) == Bit(x, i - 8)
  {
    Pow2Add(8, i - 8);
    assert Pow2(8) == 256;
    DivDiv(x * 256 + l, 256, Pow2(i - 8));
    DivAddMultiple(x, 256, l);
    assert (x * 256 + l) / 256 == x;
  }
}
