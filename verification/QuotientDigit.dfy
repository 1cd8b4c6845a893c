/** How far a quotient digit estimated from the top words can be from the exact one.

    x is a normalised divisor of 94 bits, sig32 its top 32 bits, recip32 the 32-bit reciprocal of those,
    and rem a running remainder whose top word is rem / 2^64. */
module QuotientDigit {
  import opened Arith
  import opened SoftFloatWords

  const TWO29: int := 0x2000_0000
  const TWO31: int := 0x8000_0000
  const TWO61: int := 0x2000_0000_0000_0000
  const TWO62: int := 0x4000_0000_0000_0000
  const TWO63: int := 0x8000_0000_0000_0000
  const TWO93: int := TWO29 * BASE2
  const TWO94: int := 2 * TWO93
  const TWO95: int := 4 * TWO93
  const TWO96: int := 8 * TWO93
  const TWO125: int := TWO93 * BASE

  /** softfloat_approxRecip32_1 in the builds that divide 64 bits by 32. */
  function ApproxRecip32(a: int): (r: int)
    requires TWO31 <= a < BASE
    ensures TWO31 <= r < BASE
    ensures TWO63 - a <= r * a < TWO63
  {
    var r := (TWO63 - 1) / a;
    assert TWO63 - 1 == a * r + (TWO63 - 1) % a;
    if r >= BASE then MulMono(TWO31, a, r); r
    else if r < TWO31 then MulMono(a, BASE - 1, r); MulMono(r, TWO31 - 1, BASE - 1); r
    else r
  }

  /** What the loop heads of remainder and division keep about a running remainder. */
  ghost predicate Bounded(rem: int, x: int) {
    0 <= rem < 2 * x && rem < 3 * TWO93
  }

  ghost predicate Normalised(x: int) {
    TWO93 <= x < TWO94
  }

  lemma ProductUpper(h: int, r: int, s: int, l: int, x: int, rem: int)
    requires 0 <= h && 0 < r < BASE && 0 <= l < TWO62
    requires x == s * TWO62 + l
    requires r * s < TWO63
    requires h * BASE2 <= rem < 2 * x
    ensures h * r * x < rem * TWO61 + TWO31 * x
  {
    var hr := h * r;
    assert hr * x == (h * (r * s)) * TWO62 + hr * l by {
      assert hr * x == hr * (s * TWO62) + hr * l;
      assert hr * (s * TWO62) == (h * (r * s)) * TWO62;
    }
    MulMono(r * s, TWO63 - 1, h);
    assert h * (r * s) <= h * TWO63 - h;
    MulMono(0, h, r);
    MulMono(l, TWO62 - 1, hr);
    MulMono(r, BASE - 1, h);
    assert hr <= h * BASE - h;
  }

  lemma ProductLower(h: int, r: int, s: int, l: int, x: int, rem: int)
    requires 0 <= h < 3 * TWO29 && 0 < r && 0 <= l < TWO62
    requires x == s * TWO62 + l && s >= 0
    requires TWO63 - s <= r * s
    requires rem < h * BASE2 + BASE2
    requires TWO93 <= x
    ensures rem * TWO61 - h * r * x < 3 * TWO29 * x + TWO125
  {
    var hr := h * r;
    assert hr * x == (h * (r * s)) * TWO62 + hr * l by {
      assert hr * x == hr * (s * TWO62) + hr * l;
      assert hr * (s * TWO62) == (h * (r * s)) * TWO62;
    }
    MulMono(TWO63 - s, r * s, h);
    assert h * (r * s) >= h * TWO63 - h * s;
    MulMono(0, h, r);
    MulMono(0, l, hr);
    MulMono(h, 3 * TWO29, s);
    assert h * s * TWO62 <= 3 * TWO29 * x;
  }

  /** The product of top word and reciprocal, an estimate of rem * 2^61 / x. */
  ghost function Estimate(rem: int, x: int): int
    requires Normalised(x)
  {
    (rem / BASE2) * ApproxRecip32(x / TWO62)
  }

  /** The 29-bit digit of the division loops, rounded to nearest. */
  ghost function FullDigit(rem: int, x: int): int
    requires Normalised(x)
  {
    (Estimate(rem, x) + TWO31) / BASE
  }

  /** The truncated last digit of the remainder loop, of s bits. */
  ghost function LastDigit(rem: int, x: int, s: nat): int
    requires Normalised(x) && 1 <= s <= 29
  {
    Estimate(rem, x) / BASE / Pow2(29 - s)
  }

  lemma EstimateError(rem: int, x: int)
    requires Normalised(x) && Bounded(rem, x)
    ensures var p := Estimate(rem, x);
            && 0 <= p < 3 * TWO29 * BASE
            && p * x < rem * TWO61 + TWO31 * x
            && rem * TWO61 - p * x < 3 * TWO29 * x + TWO125
  {
    var s, l := x / TWO62, x % TWO62;
    var r, h := ApproxRecip32(s), rem / BASE2;
    ProductUpper(h, r, s, l, x, rem);
    ProductLower(h, r, s, l, x, rem);
    MulMono(0, h, r);
    MulMono(h, 3 * TWO29 - 1, r);
  }

  lemma DigitBounds(rem: int, x: int, p: int, q: int)
    requires Normalised(x)
    requires q * BASE <= p + TWO31 < q * BASE + BASE
    requires p * x < rem * TWO61 + TWO31 * x
    requires rem * TWO61 - p * x < 3 * TWO29 * x + TWO125
    ensures -x < rem * TWO29 - q * x < 2 * x
    ensures rem * TWO29 - q * x < 3 * TWO93
  {
    MulMono(q * BASE, p + TWO31, x);
    MulMono(p - TWO31, q * BASE, x);
    Distribute(p, TWO31, x);
    assert (q * BASE) * x == (q * x) * BASE;
  }

  /** A full 29-bit digit, rounded to nearest as the source does, is off by less than 2. */
  lemma DigitStep(rem: int, x: int)
    requires Normalised(x) && Bounded(rem, x)
    ensures var q := FullDigit(rem, x);
            && 0 <= q < 3 * TWO29 + 1
            && -x < rem * TWO29 - q * x < 2 * x
            && rem * TWO29 - q * x < 3 * TWO93
  {
    hide Estimate;
    EstimateError(rem, x);
    var p := Estimate(rem, x);
    DigitBounds(rem, x, p, (p + TWO31) / BASE);
  }

  lemma Divide(e: int, t: int)
    requires 0 <= e && 0 < t
    ensures t * (e / t) <= e < t * (e / t) + t
    ensures 0 <= e / t <= e
  {
    assert e == t * (e / t) + e % t;
    DivBelow(e, e + 1, t) by { MulMono(1, t, e + 1); }
  }

  /** The last, shorter digit of the remainder loop: truncated, so it may be too small by one more. */
  lemma LastDigitStep(rem: int, x: int, s: nat)
    requires Normalised(x) && Bounded(rem, x)
    requires 1 <= s <= 29
    ensures var q := LastDigit(rem, x, s);
            && 0 <= q < 3 * TWO29
            && -x < rem * Pow2(s) - q * x < TWO95
  {
    hide Estimate, Pow2;
    EstimateError(rem, x);
    var p := Estimate(rem, x);
    var t, e := Pow2(29 - s), p / BASE;
    Pow2Add(s, 29 - s);
    Pow2Of29();
    Divide(e, t);
    LastDigitBounds(rem, x, p, Pow2(s), t, e / t);
  }

  lemma Scaled(rem: int, x: int, d: int, t: int, q: int)
    requires d * t == TWO29
    ensures (rem * d - q * x) * (t * BASE) == rem * TWO61 - (t * q) * BASE * x
  {
    assert (rem * d) * t == rem * TWO29;
    assert (q * x) * t == (t * q) * x;
    Distribute(rem * d, q * x, t);
  }

  lemma LastDigitLow(v: int, x: int, k: int)
    requires Normalised(x) && BASE <= k && v * k > -TWO31 * x
    ensures -x < v
  {
    if v <= -x {
      MulMono(v, -x, k);
      MulMono(BASE, k, x);
    }
  }

  lemma LastDigitHigh(v: int, x: int, k: int)
    requires Normalised(x) && BASE <= k && v * k < 3 * TWO29 * x + TWO125 + k * x
    ensures v < TWO95
  {
    if v >= TWO95 {
      MulMono(TWO95 - x, v - x, k);
      Distribute(v, x, k);
      assert (v - x) * k < 3 * TWO29 * x + TWO125;
      MulMono(BASE, k, TWO95 - x);
    }
  }

  lemma LastDigitBounds(rem: int, x: int, p: int, d: int, t: int, q: int)
    requires Normalised(x) && 0 < t && 0 < d && d * t == TWO29
    requires t * q <= p / BASE < t * q + t
    requires p * x < rem * TWO61 + TWO31 * x
    requires rem * TWO61 - p * x < 3 * TWO29 * x + TWO125
    ensures -x < rem * d - q * x < TWO95
  {
    var k := t * BASE;
    Scaled(rem, x, d, t, q);
    MulMono((t * q) * BASE, p, x);
    MulMono(p - k, (t * q) * BASE, x);
    Distribute(p, k, x);
    LastDigitLow(rem * d - q * x, x, k);
    LastDigitHigh(rem * d - q * x, x, k);
  }
}
