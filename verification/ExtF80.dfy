/** 80-bit extended numbers, the exact results that section 5 of IEEE 754-2008 asks for, and what the
    multiword operations hand on. */
module ExtF80 {
  import opened Arith
  import opened SoftFloatWords
  import opened QuotientDigit

  const EXP_MAX: int := 0x7FFF

  /** The three fields of an extFloat80M; the integer bit is explicit, as bit 63 of the significand. */
  datatype Float80 = Float80(sign: bool, exp: int, signif: int) {
    ghost predicate Valid() {
      0 <= exp <= EXP_MAX && 0 <= signif < BASE2
    }

    predicate IsNaN() {
      exp == EXP_MAX && signif % TWO63 != 0
    }

    predicate IsFinite() {
      exp != EXP_MAX
    }

    /** The magnitude of a finite number, in units of the smallest subnormal. */
    function Mag(): (m: int)
      requires Valid()
      ensures m >= 0
    {
      MulMono(0, signif, Pow2((if exp == 0 then 1 else exp) - 1));
      signif * Pow2((if exp == 0 then 1 else exp) - 1)
    }
  }

  /** Where an operation ends: the call it makes, or the fields it stores itself. An extended significand
      has 96 bits, the low 32 of them below the last place of the result. */
  datatype Outcome =
    | PropagateNaN
    | Invalid
    | DivideByZero(sign: bool)
    | Packed(sign: bool, exp: int, signif: int)
    | NormRoundPack(sign: bool, exp: int, extSig: int)
    | RoundPack(sign: bool, exp: int, extSig: int)

  /** With the exponent all ones, an empty fraction is an infinity, whatever the integer bit, and any other a NaN. */
  lemma NaNEncodings(a: Float80)
    requires a.Valid()
    ensures a.IsNaN() <==> a.exp == 0x7FFF && a.signif != 0 && a.signif != 0x8000_0000_0000_0000
    ensures a.IsFinite() <==> a.exp < 0x7FFF
  {
  }

  // ---- Nearest integer quotient, ties to even ----

  function NearestEven(n: int, d: int): (q: int)
    requires n >= 0 && d > 0
  {
    var q, r := n / d, n % d;
    if 2 * r < d || (2 * r == d && q % 2 == 0) then q else q + 1
  }

  ghost predicate IsNearestEven(n: int, d: int, q: int) {
    && -d <= 2 * (n - q * d) <= d
    && (2 * (n - q * d) == d || 2 * (n - q * d) == -d ==> q % 2 == 0)
  }

  lemma NearestEvenIs(n: int, d: int)
    requires n >= 0 && d > 0
    ensures IsNearestEven(n, d, NearestEven(n, d))
    ensures NearestEven(n, d) >= 0
  {
    var q, r := n / d, n % d;
    assert n == d * q + r;
    assert (q + 1) * d == q * d + d;
    if q < 0 {
      MulMono(q, -1, d);
    }
  }

  /** The nearest integer with ties to even is unique. */
  lemma NearestEvenUnique(n: int, d: int, q: int)
    requires n >= 0 && d > 0
    ensures IsNearestEven(n, d, q) <==> q == NearestEven(n, d)
  {
    hide NearestEven;
    NearestEvenIs(n, d);
    if IsNearestEven(n, d, q) {
      NearestTwo(n, d, NearestEven(n, d), q);
    }
  }

  lemma NearestTwo(n: int, d: int, p: int, q: int)
    requires d > 0 && IsNearestEven(n, d, p) && IsNearestEven(n, d, q)
    ensures p == q
  {
    Distribute(p, q, d);
    NearestGap(n - p * d, n - q * d, p, q, d);
  }

  lemma MulUnit(k: int, d: int)
    ensures k == 1 ==> k * d == d
    ensures k == -1 ==> k * d == -d
  {
  }

  lemma NearestGap(v: int, w: int, p: int, q: int, d: int)
    requires d > 0 && w - v == (p - q) * d
    requires -d <= 2 * v <= d && -d <= 2 * w <= d
    requires 2 * v == d || 2 * v == -d ==> p % 2 == 0
    requires 2 * w == d || 2 * w == -d ==> q % 2 == 0
    ensures p == q
  {
    MulUnit(p - q, d);
    if p - q >= 2 {
      MulMono(2, p - q, d);
    } else if p - q <= -2 {
      MulMono(p - q, -2, d);
    }
  }

  lemma ScaleNearest(n: int, d: int, c: int, q: int)
    requires c > 0 && IsNearestEven(n, d, q)
    ensures IsNearestEven(n * c, d * c, q)
  {
    var v := n - q * d;
    assert n * c - q * (d * c) == v * c by {
      assert q * (d * c) == (q * d) * c;
      Distribute(n, q * d, c);
    }
    ScaleBounds(2 * v, d, c);
  }

  lemma ScaleBounds(v: int, d: int, c: int)
    requires c > 0 && -d <= v <= d
    ensures -(d * c) <= v * c <= d * c
    ensures v * c == d * c <==> v == d
    ensures v * c == -(d * c) <==> v == -d
  {
    MulMono(-d, v, c);
    MulMono(v, d, c);
    ScaleEq(v, d, c);
    ScaleEq(v, -d, c);
  }

  lemma NearestEvenScale(n: int, d: int, c: int)
    requires n >= 0 && d > 0 && c > 0
    ensures n * c >= 0 && d * c > 0
    ensures NearestEven(n * c, d * c) == NearestEven(n, d)
  {
    hide NearestEven, IsNearestEven;
    MulMono(0, n, c);
    MulMono(1, d, c);
    NearestEvenIs(n, d);
    ScaleNearest(n, d, c, NearestEven(n, d));
    NearestEvenUnique(n * c, d * c, NearestEven(n, d));
  }

  lemma ScaleEq(a: int, b: int, c: int)
    requires c > 0
    ensures a * c == b * c <==> a == b
  {
    if a < b {
      MulMono(a + 1, b, c);
    } else if b < a {
      MulMono(b + 1, a, c);
    }
  }

  // ---- Normalisation ----

  function CountLeadingZeros64(sig: int): (n: nat)
    requires 0 < sig < BASE2
    ensures TWO63 <= sig * Pow2(n) < BASE2
    decreases BASE2 - sig
  {
    if sig >= TWO63 then 0 else CountLeadingZeros64(2 * sig) + 1
  }

  lemma LeadingZerosBound(sig: int)
    requires 0 < sig < BASE2
    ensures CountLeadingZeros64(sig) <= 63
  {
    var n := CountLeadingZeros64(sig);
    if n >= 64 {
      Pow2Of64();
      Pow2Mono(64, n);
      MulMono(1, sig, Pow2(n));
    }
  }

  /** softfloat_normExtF80SigM, applied only when the integer bit is clear: the exponent change and the
      significand with its top bit set. */
  function NormExtF80Sig(sig: int): (r: (int, int))
    requires 0 < sig < BASE2
    ensures -63 <= r.0 <= 0
    ensures TWO63 <= r.1 < BASE2
    ensures r.1 == sig * Pow2(-r.0)
    ensures sig >= TWO63 ==> r == (0, sig)
  {
    LeadingZerosBound(sig);
    var shiftDist: int := CountLeadingZeros64(sig);
    (0 - shiftDist, sig * Pow2(shiftDist))
  }

  lemma ThreeFactors(a: int, b: int, c: int, d: int, e: int)
    requires b * c == d * e
    ensures (a * b) * c == (a * d) * e
  {
    assert (a * b) * c == a * (b * c);
    assert (a * d) * e == a * (d * e);
  }

  /** Normalising keeps the value; a normalised exponent below 1 is undone exactly by the right shift that
      stores a subnormal. */
  lemma NormaliseValue(sig0: int, e0: int)
    requires 0 < sig0 < BASE2 && e0 >= 1
    ensures var (d, sig) := NormExtF80Sig(sig0);
            var exp := e0 + d;
            && exp + 62 >= 0
            && (sig0 * Pow2(e0 - 1)) * TWO63 == sig * Pow2(exp + 62)
            && (exp <= 0 ==> sig == (sig0 * Pow2(e0 - 1)) * Pow2(1 - exp))
            && (exp >= 1 ==> sig0 * Pow2(e0 - 1) == sig * Pow2(exp - 1))
  {
    hide NormExtF80Sig, Pow2;
    var (d, sig) := NormExtF80Sig(sig0);
    var exp := e0 + d;
    Pow2Of63();
    Pow2Add(e0 - 1, 63);
    Pow2Add(-d, exp + 62);
    ThreeFactors(sig0, Pow2(e0 - 1), TWO63, Pow2(-d), Pow2(exp + 62));
    if exp <= 0 {
      Pow2Add(e0 - 1, 1 - exp);
      ThreeFactors(sig0, Pow2(e0 - 1), Pow2(1 - exp), Pow2(-d), 1);
    } else {
      Pow2Add(-d, exp - 1);
      ThreeFactors(sig0, Pow2(e0 - 1), 1, Pow2(-d), Pow2(exp - 1));
    }
  }

  lemma Pow2Of63()
    ensures Pow2(63) == TWO63
  {
    Pow2Of29();
    Pow2Add(29, 29);
    Pow2Add(58, 5);
  }

  lemma MagPositive(f: Float80)
    requires f.Valid() && f.signif != 0
    ensures f.Mag() > 0
  {
    MulMono(1, f.signif, Pow2((if f.exp == 0 then 1 else f.exp) - 1));
  }
}
