/** What a 96-bit extended significand tells the rounder about an exact quotient, and what
    softfloat_roundPackMToExtF80M makes of it at full precision in the normal exponent range. */
module Rounding {
  import opened Arith
  import opened SoftFloatWords
  import opened QuotientDigit
  import opened ExtF80
  import opened DigitRecurrence

  /** The top 64 bits of v are the integer part of n/d and its low word compares with 0 and with one half
      as the fraction of n/d does. */
  ghost predicate Faithful(v: int, n: int, d: int)
    requires d > 0
  {
    && TWO95 <= v < TWO96
    && v / BASE == n / d
    && (v % BASE == 0 <==> n % d == 0)
    && (v % BASE < TWO31 <==> 2 * (n % d) < d)
    && (v % BASE == TWO31 <==> 2 * (n % d) == d)
  }

  datatype RoundingMode = NearEven | MinMag | Min | Max | NearMaxMag

  /** The correctly rounded integer significand of the exact n/d with the given sign. */
  function RoundExact(mode: RoundingMode, sign: bool, n: int, d: int): int
    requires n >= 0 && d > 0
  {
    match mode
    case NearEven => NearestEven(n, d)
    case NearMaxMag => (2 * n + d) / (2 * d)
    case MinMag => n / d
    case Min => if sign then (n + d - 1) / d else n / d
    case Max => if sign then n / d else (n + d - 1) / d
  }

  /** The precision80 path of softfloat_roundPackMToExtF80M for 0 < exp < 0x7FFE: significand and exponent. */
  function RoundPack80(mode: RoundingMode, sign: bool, exp: int, v: int): (r: (int, int))
    requires 0 <= v < TWO96
  {
    var sig, sigExtra := v / BASE, v % BASE;
    var doIncrement :=
      if mode != NearEven && mode != NearMaxMag then mode == (if sign then Min else Max) && sigExtra != 0
      else TWO31 <= sigExtra;
    if !doIncrement then (exp, sig)
    else if sig + 1 == BASE2 then (exp + 1, TWO63)
    else if sigExtra % TWO31 == 0 && mode == NearEven then (exp, (sig + 1) / 2 * 2)
    else (exp, sig + 1)
  }

  lemma CeilingOf(n: int, d: int)
    requires d > 0
    ensures (n + d - 1) / d == if n % d == 0 then n / d else n / d + 1
  {
    var q, r := n / d, n % d;
    assert n == d * q + r;
    if r == 0 {
      ModUnique(d - 1, n + d - 1, q, d);
    } else {
      Distribute(q, 1, d);
      ModUnique(r - 1, n + d - 1, q + 1, d);
    }
  }

  lemma HalfUpOf(n: int, d: int)
    requires d > 0
    ensures (2 * n + d) / (2 * d) == if 2 * (n % d) < d then n / d else n / d + 1
  {
    var q, r := n / d, n % d;
    assert n == d * q + r;
    assert q * (2 * d) == 2 * (d * q);
    Distribute(q, 1, 2 * d);
    if 2 * r < d {
      ModUnique(2 * r + d, 2 * n + d, q, 2 * d);
    } else {
      ModUnique(2 * r - d, 2 * n + d, q + 1, 2 * d);
    }
  }

  /** Rounding a faithful extended significand is rounding the exact quotient, in every mode: the significand
      and exponent returned stand for the correctly rounded integer, carry into the exponent included. */
  lemma RoundingIsCorrect(mode: RoundingMode, sign: bool, exp: int, v: int, n: int, d: int)
    requires n >= 0 && d > 0 && Faithful(v, n, d)
    ensures var (e, sig) := RoundPack80(mode, sign, exp, v);
            && TWO63 <= sig < BASE2
            && (e == exp || e == exp + 1)
            && RoundExact(mode, sign, n, d) == (if e == exp then sig else 2 * sig)
  {
    CeilingOf(n, d);
    HalfUpOf(n, d);
  }

  lemma ScaleMod(n: int, d: int, c: int)
    requires d > 0 && c > 0
    ensures d * c > 0
    ensures (n * c) / (d * c) == n / d && (n * c) % (d * c) == (n % d) * c
  {
    var q, r := n / d, n % d;
    assert n == d * q + r;
    MulMono(0, r, c);
    MulMono(r, d - 1, c);
    Distribute(d, 1, c);
    Distribute(d * q, r, c);
    assert (d * q) * c == q * (d * c);
    MulMono(1, d, c);
    ModUnique(r * c, n * c, q, d * c);
  }

  lemma FaithfulScale(v: int, n: int, d: int, c: int)
    requires d > 0 && c > 0
    ensures d * c > 0
    ensures Faithful(v, n * c, d * c) <==> Faithful(v, n, d)
  {
    ScaleMod(n, d, c);
    var r := n % d;
    ScaleEq(r, 0, c);
    ScaleEq(2 * r, d, c);
    ScaleLess(2 * r, d, c);
  }

  lemma ScaleLess(a: int, b: int, c: int)
    requires c > 0
    ensures a * c < b * c <==> a < b
  {
    if a < b {
      MulMono(a + 1, b, c);
    } else {
      MulMono(b, a, c);
    }
  }

  /** Faithfulness is about the rational number, not about how it is written. */
  lemma FaithfulRational(v: int, n: int, d: int, n': int, d': int)
    requires d > 0 && d' > 0 && n * d' == n' * d
    requires Faithful(v, n, d)
    ensures Faithful(v, n', d')
  {
    hide Faithful;
    FaithfulScale(v, n, d, d');
    FaithfulScale(v, n', d', d);
    assert d * d' == d' * d;
  }

  /** The rational m / (k * 2^e), for e of either sign. */
  function ExactNum(m: int, e: int): int {
    if e < 0 then m * Pow2(-e) else m
  }

  function ExactDen(k: int, e: int): int {
    if e < 0 then k else k * Pow2(e)
  }

  lemma ExactDenPositive(k: int, e: int)
    requires k > 0
    ensures ExactDen(k, e) > 0
  {
    if e >= 0 {
      MulMono(1, k, Pow2(e));
    }
  }

  lemma Interchange(a: int, b: int, c: int, d: int)
    ensures (a * b) * (c * d) == (a * c) * (b * d)
  {
    assert (a * b) * (c * d) == a * (b * (c * d));
    assert b * (c * d) == c * (b * d);
  }
}
