/** extF80M_mul on 32-bit words: the 128-bit product reduced to 96 bits with a sticky bit. */
module ExtF80Mul {
  import opened Arith
  import opened SoftFloatWords
  import opened QuotientDigit
  import opened DigitRecurrence
  import opened ExtF80
  import opened Rounding

  /** The top three words of the product, the low bit of the lowest standing for the word dropped. */
  function Jammed(w1: int, w0: int): int {
    if w0 != 0 && w1 % 2 == 0 then w1 + 1 else w1
  }

  lemma JamIs(w1: Word, w0: Word)
    ensures Jammed(w1, w0) == if w0 != 0 then (if w1 % 2 == 0 then w1 + 1 else w1) else w1
    ensures 0 <= Jammed(w1, w0) < BASE
  {
  }

  lemma ProductRange(a: int, b: int)
    requires TWO63 <= a < BASE2 && TWO63 <= b < BASE2
    ensures TWO62 * BASE2 <= a * b < BASE2 * BASE2
  {
    MulMono(TWO63, a, b);
    MulMono(a, BASE2 - 1, b);
  }

  lemma FaithfulParts(hi: int, low: int, f: int)
    requires TWO63 <= hi < BASE2 && 0 <= low < BASE && 0 <= f < BASE2
    requires low == 0 <==> f == 0
    requires low < TWO31 <==> 2 * f < BASE2
    requires low == TWO31 <==> 2 * f == BASE2
    ensures Faithful(low + BASE * hi, f + BASE2 * hi, BASE2)
  {
    ModUnique(low, low + BASE * hi, hi, BASE);
    ModUnique(f, f + BASE2 * hi, hi, BASE2);
  }

  lemma JammedHalf(w0: Word, w1: Word)
    ensures var j, f := Jammed(w1, w0), w0 + BASE * w1;
            && 0 <= j < BASE && 0 <= f < BASE2
            && (j == 0 <==> f == 0) && (j < TWO31 <==> 2 * f < BASE2) && (j == TWO31 <==> 2 * f == BASE2)
  {
  }

  /** The same comparisons one bit further down, for the product that has to be doubled. */
  lemma JammedQuarter(w0: Word, w1: Word)
    ensures var c := if w1 >= TWO31 then 1 else 0;
            var j, f := 2 * Jammed(w1, w0) - c * BASE, 2 * (w0 + BASE * w1) - c * BASE2;
            && 0 <= j < BASE && 0 <= f < BASE2
            && (j == 0 <==> f == 0) && (j < TWO31 <==> 2 * f < BASE2) && (j == TWO31 <==> 2 * f == BASE2)
  {
  }

  /** Dropping the low word, with or without the doubling that normalises, leaves what the rounder needs. */
  lemma JammedProduct(w0: Word, w1: Word, w2: Word, w3: Word)
    requires TWO31 <= 2 * w3
    ensures var p := w0 + BASE * w1 + BASE2 * (w2 + BASE * w3);
            var v := Jammed(w1, w0) + BASE * w2 + BASE2 * w3;
            if w3 < TWO31 then Faithful(2 * v, 2 * p, BASE2) else Faithful(v, p, BASE2)
  {
    hide Faithful, Jammed;
    var j, f, hi := Jammed(w1, w0), w0 + BASE * w1, w2 + BASE * w3;
    if w3 < TWO31 {
      var c := if w1 >= TWO31 then 1 else 0;
      JammedQuarter(w0, w1);
      FaithfulParts(2 * hi + c, 2 * j - c * BASE, 2 * f - c * BASE2);
    } else {
      JammedHalf(w0, w1);
      FaithfulParts(hi, j, f);
    }
  }

  /** The words of a product of normalised significands: its top bit tells whether to double, and doubling fits. */
  lemma ReducedProduct(w0: Word, w1: Word, w2: Word, w3: Word, p: int)
    requires p == w0 + BASE * w1 + BASE2 * (w2 + BASE * w3) && TWO62 * BASE2 <= p
    ensures w3 < TWO31 <==> p < TWO63 * BASE2
    ensures var v := Jammed(w1, w0) + BASE * w2 + BASE2 * w3;
            if w3 < TWO31 then 0 <= 2 * v < TWO96 && Faithful(2 * v, 2 * p, BASE2) else Faithful(v, p, BASE2)
  {
    hide Faithful, Jammed;
    JamIs(w1, w0);
    JammedProduct(w0, w1, w2, w3);
  }

  /** Lines 120 to 123: doubled when the top bit is clear. */
  method Normalise(extSigZ: array<Word>, top: Word) returns (doubled: int)
    requires extSigZ.Length == 3
    requires top < TWO31 ==> 2 * Val(extSigZ[..]) < TWO96
    modifies extSigZ
    ensures doubled == if top < TWO31 then 1 else 0
    ensures Val(extSigZ[..]) == (1 + doubled) * old(Val(extSigZ[..]))
  {
    hide Val, Wrap;
    doubled := 0;
    if top < 0x8000_0000 {
      doubled := 1;
      ghost var before := Val(extSigZ[..]);
      AddM(extSigZ, extSigZ, extSigZ);
      Unwrapped(before + before);
    }
  }

  /** Lines 117 to 123. */
  method MulSignificands(sigA: int, sigB: int) returns (doubled: int, v: int)
    requires TWO63 <= sigA < BASE2 && TWO63 <= sigB < BASE2
    ensures doubled == if sigA * sigB < TWO63 * BASE2 then 1 else 0
    ensures Faithful(v, (1 + doubled) * (sigA * sigB), BASE2)
  {
    hide Val, Wrap, Faithful, Jammed;
    var sigProd, extSigZ := new Word[4], new Word[3];
    Mul64To128M(sigA, sigB, sigProd);
    Val4(sigProd[..]);
    ProductRange(sigA, sigB);
    ReducedProduct(sigProd[0], sigProd[1], sigProd[2], sigProd[3], sigA * sigB);
    JamIs(sigProd[1], sigProd[0]);
    if sigProd[0] != 0 {
      sigProd[1] := if sigProd[1] % 2 == 0 then sigProd[1] + 1 else sigProd[1];
    }
    extSigZ[0], extSigZ[1], extSigZ[2] := sigProd[1], sigProd[2], sigProd[3];
    Val3(extSigZ[..]);
    doubled := Normalise(extSigZ, sigProd[3]);
    Val3(extSigZ[..]);
    v := extSigZ[0] + BASE * extSigZ[1] + BASE2 * extSigZ[2];
  }

  lemma Unwrapped(v: int)
    requires 0 <= v < TWO96
    ensures Wrap(v, 3) == v
  {
    hide Wrap;
    Wrap96(v);
  }

  lemma ProductCross(A: int, B: int, eA: int, eB: int, sigA: int, sigB: int, c: int)
    requires eA + 62 >= 0 && eB + 62 >= 0 && 0 <= c <= 1
    requires A * TWO63 == sigA * Pow2(eA + 62) && B * TWO63 == sigB * Pow2(eB + 62)
    ensures ((1 + c) * (sigA * sigB)) * ExactDen(1, eA + eB + 62 - c) == ExactNum(A * B, eA + eB + 62 - c) * BASE2
  {
    hide Pow2;
    var e, s, m := eA + eB + 62 - c, sigA * sigB, A * B;
    Pow2Add(eA + 62, eB + 62);
    Interchange(sigA, Pow2(eA + 62), sigB, Pow2(eB + 62));
    Interchange(A, TWO63, B, TWO63);
    var t := Pow2(eA + eB + 124);
    assert m * (TWO63 * TWO63) == s * t;
    assert Pow2(c) == 1 + c by { Pow2Zero(); Pow2Double(0); }
    Pow2Of62();
    if e < 0 {
      Pow2Add(-e, eA + eB + 124);
      Pow2Add(62, c);
      assert (m * Pow2(-e)) * (TWO63 * TWO63) == s * (Pow2(-e) * t);
    } else {
      Pow2Add(c, e);
      Pow2Add(e + c, 62);
      assert ((1 + c) * s) * Pow2(e) == s * Pow2(c + e);
    }
  }

  lemma Pow2Of62()
    ensures Pow2(62) == TWO62
  {
    hide Pow2;
    Pow2Of63();
    Pow2Double(62);
  }

  /** z hands over the product of the magnitudes as IsQuotient does the quotient. */
  ghost predicate IsProduct(a: Float80, b: Float80, z: Outcome)
    requires a.Valid() && b.Valid()
  {
    && z.RoundPack?
    && z.sign == (a.sign != b.sign)
    && ExactDen(1, z.exp + 16444) > 0
    && Faithful(z.extSig, ExactNum(a.Mag() * b.Mag(), z.exp + 16444), ExactDen(1, z.exp + 16444))
  }

  lemma ProductHanded(a: Float80, b: Float80, z: Outcome, c: int)
    requires a.Valid() && b.Valid() && a.signif != 0 && b.signif != 0
    requires z.RoundPack? && z.sign == (a.sign != b.sign) && 0 <= c <= 1
    requires var (dA, sigA) := NormExtF80Sig(a.signif);
             var (dB, sigB) := NormExtF80Sig(b.signif);
             var eA, eB := (if a.exp == 0 then 1 else a.exp) + dA, (if b.exp == 0 then 1 else b.exp) + dB;
             && z.exp == eA + eB - 0x3FFE - c
             && Faithful(z.extSig, (1 + c) * (sigA * sigB), BASE2)
    ensures IsProduct(a, b, z)
  {
    hide Pow2, NormExtF80Sig, Faithful;
    var (dA, sigA) := NormExtF80Sig(a.signif);
    var (dB, sigB) := NormExtF80Sig(b.signif);
    NormaliseValue(a.signif, if a.exp == 0 then 1 else a.exp);
    NormaliseValue(b.signif, if b.exp == 0 then 1 else b.exp);
    var eA, eB := (if a.exp == 0 then 1 else a.exp) + dA, (if b.exp == 0 then 1 else b.exp) + dB;
    ProductCross(a.Mag(), b.Mag(), eA, eB, sigA, sigB, c);
    ExactDenPositive(1, z.exp + 16444);
    FaithfulRational(z.extSig, (1 + c) * (sigA * sigB), BASE2,
                     ExactNum(a.Mag() * b.Mag(), z.exp + 16444), ExactDen(1, z.exp + 16444));
  }

  /** extF80M_mul. */
  method Mul(a: Float80, b: Float80) returns (z: Outcome)
    requires a.Valid() && b.Valid()
    ensures z.PropagateNaN? <==> a.IsNaN() || b.IsNaN()
    ensures z.Invalid? <==> !a.IsNaN() && !b.IsNaN()
                            && ((!a.IsFinite() && b.IsFinite() && b.signif == 0)
                                || (a.IsFinite() && a.signif == 0 && !b.IsFinite()))
    ensures !a.IsNaN() && !b.IsNaN() && (!a.IsFinite() || !b.IsFinite()) && !z.Invalid? ==>
              z == Packed(a.sign != b.sign, EXP_MAX, TWO63)
    ensures a.IsFinite() && b.IsFinite() && (a.signif == 0 || b.signif == 0) ==> z == Packed(a.sign != b.sign, 0, 0)
    ensures a.IsFinite() && b.IsFinite() && a.signif != 0 && b.signif != 0 ==> IsProduct(a, b, z)
  {
    hide Pow2, NormExtF80Sig, IsProduct, Faithful;
    var expA, expB := a.exp, b.exp;
    var signZ := a.sign != b.sign;
    if expA == EXP_MAX || expB == EXP_MAX {
      if a.IsNaN() || b.IsNaN() {
        return PropagateNaN;
      }
      if (a.signif == 0 && expA != EXP_MAX) || (b.signif == 0 && expB != EXP_MAX) {
        return Invalid;
      }
      return Packed(signZ, EXP_MAX, TWO63);
    }
    if expA == 0 {
      expA := 1;
    }
    if a.signif == 0 {
      return Packed(signZ, 0, 0);
    }
    var normA := NormExtF80Sig(a.signif);
    if expB == 0 {
      expB := 1;
    }
    if b.signif == 0 {
      return Packed(signZ, 0, 0);
    }
    var normB := NormExtF80Sig(b.signif);
    expA, expB := expA + normA.0, expB + normB.0;
    var expZ := expA + expB - 0x3FFE;
    var doubled, v := MulSignificands(normA.1, normB.1);
    z := RoundPack(signZ, expZ - doubled, v);
    ProductHanded(a, b, z, doubled);
  }
}
