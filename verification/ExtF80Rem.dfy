/** extF80M_rem on 32-bit words: reduction by 29-bit quotient digits, then the nearest remainder. */
module ExtF80Rem {
  import opened Arith
  import opened SoftFloatWords
  import opened QuotientDigit
  import opened DigitRecurrence
  import opened ExtF80

  // ---- The reduction loop ----

  /** The last digit, of s bits. */
  lemma FinalDigit(a: int, shifted: nat, n: int, x: int, rem: int, s: nat, q: int)
    requires Normalised(x) && Bounded(rem, x) && Reduced(a, shifted, n, x, rem)
    requires 1 <= s <= 29
    requires q == LastDigit(rem, x, s)
    ensures 0 <= q < 3 * TWO29
    ensures var v := StepValue(rem, s, x, q);
            && Signed96(Wrap(v, 3)) == v
            && -x < v
            && Reduced(a, shifted + s, Append(n, s, q), x, v)
  {
    hide Wrap, Pow2, FullDigit, LastDigit, Reduced, Append;
    LastDigitStep(rem, x, s);
    var v := StepValue(rem, s, x, q);
    Wrap96(v);
    ReduceStep(a, shifted, n, x, rem, s, q);
  }

  lemma EvenMultiple(n: int, s: nat, q: int)
    requires s >= 1
    ensures Append(n, s, q) % 2 == q % 2
  {
    var h := n * Pow2(s - 1);
    assert n * Pow2(s) == 2 * h;
  }

  /** The quotient digits of a * 2^expDiff by x: what is left in `rem` is the remainder for a quotient n
      whose parity is that of the last digit returned. */
  method ReduceDigits(rem: array<Word>, x: array<Word>, sig32B: int, expDiff0: int)
      returns (q: Word, ghost n: int)
    requires rem.Length == x.Length == 3 && rem != x
    requires Normalised(Val(x[..])) && Bounded(Val(rem[..]), Val(x[..]))
    requires sig32B == Val(x[..]) / TWO62
    requires expDiff0 >= 1
    modifies rem
    ensures Reduced(old(Val(rem[..])), expDiff0, n, Val(x[..]), Signed96(Val(rem[..])))
    ensures -Val(x[..]) < Signed96(Val(rem[..]))
    ensures q % 2 == n % 2
    ensures q < 3 * TWO29
  {
    hide Val, Pow2, ApproxRecip32, Wrap, StepValue, Reduced, FullDigit, LastDigit, Signed96, Append;
    ghost var X, A := Val(x[..]), Val(rem[..]);
    var recip32 := ApproxRecip32(sig32B);
    var expDiff := expDiff0 - 30;
    var x64: int;
    ghost var shifted: nat := 0;
    n := 0;
    ReduceStart(A, X);
    while true
      invariant expDiff >= -29
      invariant shifted + expDiff + 30 == expDiff0
      invariant Bounded(Val(rem[..]), X)
      invariant Reduced(A, shifted, n, X, Val(rem[..]))
      decreases expDiff
    {
      ghost var r := Val(rem[..]);
      TopWordEstimate(rem[..], X, recip32);
      x64 := rem[2] * recip32;
      if expDiff < 0 {
        break;
      }
      var digit := (x64 + 0x8000_0000) / BASE;
      LoopDigit(A, shifted, n, X, r, digit);
      RemStepMBy32(rem, 29, x, digit, rem);
      TopWord(rem[..]);
      n := Append(n, 29, digit);
      if rem[2] >= 0x8000_0000 {
        AddM(rem, x, rem);
        n := n - 1;
      }
      shifted := shifted + 29;
      expDiff := expDiff - 29;
    }
    var s, notExpDiff := expDiff + 30, (-expDiff - 1) % 32;  // ~expDiff & 31
    var digit := x64 / BASE / Pow2(notExpDiff);
    FinalDigit(A, shifted, n, X, Val(rem[..]), s, digit);
    EvenMultiple(n, s, digit);
    q := digit;
    n := Append(n, s, q);
    RemStepMBy32(rem, s, x, q, rem);
  }

  // ---- The nearest remainder ----

  /** remPtr holds a remainder below zero and altRemPtr the one next above it, not below zero; the lower one
      belongs to the quotient n. */
  ghost predicate Straddles(a: int, n: int, x: int, low: int, high: int) {
    && Remains(a, n, x, low)
    && -x <= low < 0
    && high == low + x
  }

  lemma SubtractStep(a: int, n: int, x: int, v: int, q: Word)
    requires 0 < x < TWO95 && 0 <= v < TWO95
    requires Remains(a, n, x, v) && q % 2 == n % 2
    ensures Remains(a, n + 1, x, v - x)
    ensures ((q + 1) % BASE) % 2 == (n + 1) % 2
    ensures v < x ==> Straddles(a, n + 1, x, Signed96(Wrap(v - x, 3)), v) && Signed96(Wrap(v - x, 3)) < 0
    ensures v >= x ==> Wrap(v - x, 3) == Signed96(Wrap(v - x, 3)) == v - x
  {
    hide Wrap;
    Distribute(n, 1, x);
    Wrap96(v - x);
  }

  /** The do-while loop: subtract x until the remainder goes negative. */
  method SubtractDown(rem: array<Word>, x: array<Word>, rem2: array<Word>, q0: Word, ghost a: int, ghost n0: int)
      returns (remPtr: array<Word>, altRemPtr: array<Word>, q: Word, ghost n: int)
    requires rem.Length == x.Length == rem2.Length == 3
    requires rem != x && rem != rem2 && x != rem2
    requires 0 < Val(x[..]) < TWO95
    requires 0 <= Val(rem[..]) < TWO95
    requires Remains(a, n0, Val(x[..]), Val(rem[..]))
    requires q0 % 2 == n0 % 2
    modifies rem, rem2
    ensures (remPtr == rem && altRemPtr == rem2) || (remPtr == rem2 && altRemPtr == rem)
    ensures Straddles(a, n, Val(x[..]), Signed96(Val(remPtr[..])), Val(altRemPtr[..]))
    ensures q % 2 == n % 2
  {
    hide Val, Wrap, Remains, Straddles, Signed96;
    remPtr, altRemPtr, q, n := rem, rem2, q0, n0;
    ghost var X := Val(x[..]);
    while true
      invariant (remPtr == rem && altRemPtr == rem2) || (remPtr == rem2 && altRemPtr == rem)
      invariant Val(x[..]) == X
      invariant 0 <= Val(remPtr[..]) < TWO95
      invariant Remains(a, n, X, Val(remPtr[..]))
      invariant q % 2 == n % 2
      decreases Val(remPtr[..])
    {
      ghost var v, before := Val(remPtr[..]), remPtr[..];
      SubtractStep(a, n, X, v, q);
      q := (q + 1) % BASE;
      n := n + 1;
      var newRemPtr := altRemPtr;
      SubM(remPtr, x, newRemPtr);
      assert remPtr[..] == before;
      altRemPtr := remPtr;
      remPtr := newRemPtr;
      TopWord(remPtr[..]);
      if remPtr[2] >= 0x8000_0000 {
        break;
      }
    }
  }

  /** The mean of the two candidates decides between them: negative means the upper one is nearer, zero with
      an odd quotient that the upper one has the even quotient. */
  lemma MeanDecides(a: int, n: int, x: int, low: int, high: int)
    requires x > 0 && a >= 0 && Straddles(a, n, x, low, high)
    ensures var up := low + high < 0 || (low + high == 0 && n % 2 == 1);
            && NearestEven(a, x) == (if up then n - 1 else n)
            && (if up then high else low) == a - NearestEven(a, x) * x
  {
    hide NearestEven;
    Distribute(n, 1, x);
    var up := low + high < 0 || (low + high == 0 && n % 2 == 1);
    NearestEvenUnique(a, x, if up then n - 1 else n);
  }

  /** From `selectRem` on: the sign of the result relative to a and its magnitude. */
  method SelectRemainder(remPtr0: array<Word>, altRemPtr: array<Word>, x: array<Word>, q: Word,
                         signA: bool, ghost a: int, ghost n: int)
      returns (signRem: bool, sig: int)
    requires remPtr0.Length == altRemPtr.Length == x.Length == 3
    requires remPtr0 != altRemPtr && x != remPtr0 && x != altRemPtr
    requires 0 < Val(x[..]) < TWO95 && a >= 0
    requires Straddles(a, n, Val(x[..]), Signed96(Val(remPtr0[..])), Val(altRemPtr[..]))
    requires q % 2 == n % 2
    modifies remPtr0, altRemPtr, x
    ensures old(Val(x[..])) > 0
    ensures 0 <= sig < TWO96
    ensures (if signRem != signA then -sig else sig) == a - NearestEven(a, old(Val(x[..]))) * old(Val(x[..]))
    ensures sig == 0 ==> signRem == signA
  {
    hide Val, Wrap, NearestEven;
    signRem := signA;
    var remPtr := remPtr0;
    ghost var X, low, high := Val(x[..]), Signed96(Val(remPtr[..])), Val(altRemPtr[..]);
    MeanDecides(a, n, X, low, high);
    TopWord(remPtr[..]);
    TopWord(altRemPtr[..]);
    SignedSum(Val(remPtr[..]), high, low + high);
    AddM(remPtr, altRemPtr, x);
    var wordMeanRem := x[2];
    TopWord(x[..]);
    ZeroWords(x[..]);
    if wordMeanRem >= 0x8000_0000 || (wordMeanRem == 0 && q % 2 == 1 && x[0] == 0 && x[1] == 0) {
      remPtr := altRemPtr;
    }
    ghost var r := Signed96(Val(remPtr[..]));
    assert r == a - NearestEven(a, X) * X;
    TopWord(remPtr[..]);
    if remPtr[2] >= 0x8000_0000 {
      signRem := !signRem;
      NegateSigned(Val(remPtr[..]));
      NegXM(remPtr);
      TopWord(remPtr[..]);
    }
    sig := remPtr[0] + BASE * remPtr[1] + BASE2 * remPtr[2];
    Val3(remPtr[..]);
  }

  lemma NegateSigned(v: int)
    requires TWO95 <= v < TWO96
    ensures Wrap(-v, 3) == -Signed96(v)
  {
    assert Pow(3) == TWO96 by { hide Val; Val3([0, 0, 0]); }
    ModUnique(TWO96 - v, -v, -1, TWO96);
  }

  // ---- The whole operation ----

  /** Dividend and divisor as integers in a common unit, once the exponents differ by d. */
  ghost function Dividend(sigA: int, d: int): int {
    if d < 0 then sigA * TWO30 else sigA * TWO30 * Pow2(d)
  }

  ghost function Divisor(sigB: int, d: int): int {
    if d < 0 then 2 * (sigB * TWO30) else sigB * TWO30
  }

  lemma DividendPositive(sigA: int, d: int)
    requires sigA >= 0
    ensures Dividend(sigA, d) >= 0
  {
    if d >= 0 {
      MulMono(0, sigA * TWO30, Pow2(d));
    }
  }

  lemma ShortDividend(sigA: int, sigB: int, d: int)
    requires -1 <= d <= 0
    ensures Dividend(sigA, d) == sigA * TWO30
    ensures Remains(sigA * TWO30, 0, Divisor(sigB, d), sigA * TWO30)
    ensures Remains(sigA * TWO30, 1, Divisor(sigB, d), sigA * TWO30 - Divisor(sigB, d))
  {
  }

  /** Exponents that differ by at most nothing: no digit to find, at most one subtraction. */
  method AlignShort(rem: array<Word>, x: array<Word>, d: int, ghost sigA: int, ghost sigB: int)
      returns (q: Word, ghost n: int)
    requires rem.Length == x.Length == 3 && rem != x
    requires TWO63 <= sigA < BASE2 && TWO63 <= sigB < BASE2
    requires Val(rem[..]) == sigA * TWO30 && Val(x[..]) == sigB * TWO30
    requires -1 <= d <= 0
    modifies rem, x
    ensures Val(x[..]) == Divisor(sigB, d)
    ensures 0 <= Val(rem[..]) < TWO95
    ensures Remains(Dividend(sigA, d), n, Divisor(sigB, d), Val(rem[..]))
    ensures q % 2 == n % 2
  {
    hide Val, Wrap, Pow2, Remains, Dividend;
    ShortDividend(sigA, sigB, d);
    n := 0;
    if d != 0 {
      Wrap96(Val(x[..]) + Val(x[..]));
      AddM(x, x, x);
      q := 0;
    } else {
      var c := Compare96M(x, rem);
      q := if c <= 0 then 1 else 0;
      if q != 0 {
        Wrap96(Val(rem[..]) - Val(x[..]));
        SubM(rem, x, rem);
        n := 1;
      }
    }
  }

  lemma LongDividend(sigA: int, sigB: int, d: int, n: int, rem: int)
    requires d >= 1
    ensures Reduced(sigA * TWO30, d, n, sigB * TWO30, rem) <==> Remains(Dividend(sigA, d), n, Divisor(sigB, d), rem)
  {
  }

  lemma Straddle(a: int, n: int, x: int, low: int)
    requires Remains(a, n, x, low) && -x <= low < 0
    ensures Straddles(a, n, x, low, low + x)
  {
  }

  /** From the alignment of the significands to the call that rounds. */
  method RemNormalised(signA: bool, sigA: int, sigB: int, d: int, expB0: int) returns (z: Outcome)
    requires TWO63 <= sigA < BASE2 && TWO63 <= sigB < BASE2
    requires d >= -1
    ensures z.NormRoundPack? && 0 <= z.extSig < TWO96
    ensures z.exp == (if d < 0 then expB0 - 1 else expB0) + 2
    ensures Dividend(sigA, d) >= 0 && Divisor(sigB, d) > 0
    ensures (if z.sign != signA then -z.extSig else z.extSig)
         == Dividend(sigA, d) - NearestEven(Dividend(sigA, d), Divisor(sigB, d)) * Divisor(sigB, d)
    ensures z.extSig == 0 ==> z.sign == signA
  {
    hide Val, Wrap, Pow2, NearestEven, Remains, Reduced, Straddles, Dividend;
    var rem, x, rem2 := new Word[3], new Word[3], new Word[3];
    var expB, signRem, sig := expB0, signA, 0;
    var q: Word;
    Store30(sigA, rem);
    Store30(sigB, x);
    ghost var a, n := Dividend(sigA, d), 0;
    DividendPositive(sigA, d);
    if d < 1 {
      q, n := AlignShort(rem, x, d, sigA, sigB);
      if d != 0 {
        expB := expB - 1;
      }
    } else {
      q, n := ReduceDigits(rem, x, sigB / BASE, d);
      LongDividend(sigA, sigB, d, n, Signed96(Val(rem[..])));
    }
    TopWord(rem[..]);
    if d >= 1 && rem[2] >= 0x8000_0000 {
      ghost var v := Signed96(Val(rem[..]));
      SignedSum(Val(rem[..]), Val(x[..]), v + Val(x[..]));
      Straddle(a, n, Val(x[..]), v);
      AddM(rem, x, rem2);
      TopWord(rem2[..]);
      signRem, sig := SelectRemainder(rem, rem2, x, q, signA, a, n);
    } else {
      var remPtr, altRemPtr;
      remPtr, altRemPtr, q, n := SubtractDown(rem, x, rem2, q, a, n);
      signRem, sig := SelectRemainder(remPtr, altRemPtr, x, q, signA, a, n);
    }
    z := NormRoundPack(signRem, expB + 2, sig);
  }

  /** A normalised operand in the unit in which the significands are aligned. */
  lemma AlignedValue(f: Float80, m: int)
    requires f.Valid() && f.signif != 0
    requires var e0 := if f.exp == 0 then 1 else f.exp;
             -62 <= m <= e0 + NormExtF80Sig(f.signif).0
    ensures var (d, sig) := NormExtF80Sig(f.signif);
            var exp := (if f.exp == 0 then 1 else f.exp) + d;
            (sig * TWO30 * Pow2(exp - m)) * Pow2(m + 62) == f.Mag() * TWO93
  {
    hide Pow2, NormExtF80Sig;
    var e0 := if f.exp == 0 then 1 else f.exp;
    var (d, sig) := NormExtF80Sig(f.signif);
    NormaliseValue(f.signif, e0);
    Pow2Add(e0 + d - m, m + 62);
    ThreeFactors(sig * TWO30, Pow2(e0 + d - m), Pow2(m + 62), 1, Pow2(e0 + d + 62));
  }

  lemma NearestScaledDown(a: int, b: int, n: int, d: int, c: int, k: int)
    requires a >= 0 && b > 0 && n >= 0 && d > 0 && c > 0 && k > 0
    requires n * c == a * k && d * c == b * k
    ensures NearestEven(a, b) == NearestEven(n, d)
    ensures (n - NearestEven(n, d) * d) * c == (a - NearestEven(a, b) * b) * k
  {
    hide NearestEven;
    NearestEvenScale(a, b, k);
    NearestEvenScale(n, d, c);
    var q := NearestEven(a, b);
    Distribute(n, q * d, c);
    Distribute(a, q * b, k);
    assert (q * d) * c == q * (d * c);
    assert (q * b) * k == q * (b * k);
  }

  lemma DividendUnfold(sigA: int, sigB: int, d: int)
    requires d >= -1
    ensures d >= 0 ==> Dividend(sigA, d) == sigA * TWO30 * Pow2(d) && Divisor(sigB, d) == sigB * TWO30 * Pow2(0)
    ensures d < 0 ==> Dividend(sigA, d) == sigA * TWO30 * Pow2(0) && Divisor(sigB, d) == sigB * TWO30 * Pow2(1)
  {
    assert Pow2(1) == 2;
  }

  /** What the aligned significands say about the operands themselves. */
  lemma RemValue(a: Float80, b: Float80, eA: int, sigA: int, eB: int, sigB: int)
    requires a.Valid() && b.Valid() && a.signif != 0 && b.signif != 0
    requires sigA == NormExtF80Sig(a.signif).1 && eA == (if a.exp == 0 then 1 else a.exp) + NormExtF80Sig(a.signif).0
    requires sigB == NormExtF80Sig(b.signif).1 && eB == (if b.exp == 0 then 1 else b.exp) + NormExtF80Sig(b.signif).0
    requires eA - eB >= -1
    ensures var d, A, B := eA - eB, a.Mag(), b.Mag();
            var m := if d < 0 then eA else eB;
            && A >= 0 && B > 0 && Dividend(sigA, d) >= 0 && Divisor(sigB, d) > 0 && m + 63 >= 0
            && (Dividend(sigA, d) - NearestEven(Dividend(sigA, d), Divisor(sigB, d)) * Divisor(sigB, d)) * Pow2(m + 63)
            == (A - NearestEven(A, B) * B) * (2 * TWO93)
  {
    hide Pow2, NearestEven, Dividend, Divisor, NormExtF80Sig;
    var d, A, B := eA - eB, a.Mag(), b.Mag();
    var m := if d < 0 then eA else eB;
    AlignedValue(a, m);
    AlignedValue(b, m);
    DividendUnfold(sigA, sigB, d);
    DividendPositive(sigA, d);
    MagPositive(b);
    NearestScaledDown(A, B, Dividend(sigA, d), Divisor(sigB, d), Pow2(m + 62), TWO93);
    Pow2Double(m + 62);
  }

  lemma AlignedBelowHalf(sigA: int, eA: int, sigB: int, eB: int, A: int, B: int)
    requires 0 <= sigA < BASE2 && TWO63 <= sigB && eA + 62 >= 0 && eB >= eA + 2
    requires A * TWO63 == sigA * Pow2(eA + 62) && B * TWO63 == sigB * Pow2(eB + 62)
    ensures 2 * A < B
  {
    hide Pow2;
    var p, q := Pow2(eA + 62), Pow2(eB - eA);
    Pow2Add(eB - eA, eA + 62);
    Pow2Mono(2, eB - eA);
    assert Pow2(2) == 4 by { Pow2Double(1); Pow2Double(0); Pow2Zero(); }
    MulMono(4, q, p);
    MulMono(sigA, BASE2 - 1, p);
    MulMono(TWO63, sigB, q * p);
  }

  /** A number small enough beside b is its own remainder. */
  lemma BelowHalf(a: Float80, b: Float80, eA: int, sigA: int, eB: int, sigB: int)
    requires a.Valid() && b.Valid() && a.signif != 0 && b.signif != 0
    requires sigA == NormExtF80Sig(a.signif).1 && eA == (if a.exp == 0 then 1 else a.exp) + NormExtF80Sig(a.signif).0
    requires sigB == NormExtF80Sig(b.signif).1 && eB == (if b.exp == 0 then 1 else b.exp) + NormExtF80Sig(b.signif).0
    requires eB >= eA + 2
    ensures b.Mag() > 0 && NearestEven(a.Mag(), b.Mag()) == 0
  {
    hide Pow2, NormExtF80Sig;
    NormaliseValue(a.signif, if a.exp == 0 then 1 else a.exp);
    NormaliseValue(b.signif, if b.exp == 0 then 1 else b.exp);
    MagPositive(b);
    AlignedBelowHalf(sigA, eA, sigB, eB, a.Mag(), b.Mag());
    ModUnique(a.Mag(), a.Mag(), 0, b.Mag());
  }

  lemma ExactShift(sig: int, v: int, t: int)
    requires t >= 2 && v >= 0 && sig == v * t && sig < BASE2
    ensures sig / t == v && v < TWO63
  {
    ModUnique(0, sig, v, t);
    MulMono(2, t, v);
  }

  /** The fields `copyA` stores for a nonzero a. */
  lemma CopyValue(a: Float80, expA: int, sigA: int)
    requires a.Valid() && a.IsFinite() && a.signif != 0
    requires sigA == NormExtF80Sig(a.signif).1 && expA == (if a.exp == 0 then 1 else a.exp) + NormExtF80Sig(a.signif).0
    ensures var z := if expA < 1 then Packed(a.sign, 0, sigA / Pow2(1 - expA)) else Packed(a.sign, expA, sigA);
            Canonical(z) && Float80(z.sign, z.exp, z.signif).Mag() == a.Mag()
  {
    hide Pow2, NormExtF80Sig;
    NormaliseValue(a.signif, if a.exp == 0 then 1 else a.exp);
    if expA < 1 {
      Pow2Mono(1, 1 - expA);
      Pow2Double(0);
      Pow2Zero();
      ExactShift(sigA, a.Mag(), Pow2(1 - expA));
    }
  }

  /** Fields of a finite number whose integer bit is clear exactly when it is subnormal or zero. */
  ghost predicate Canonical(z: Outcome) {
    && z.Packed?
    && 0 <= z.exp < EXP_MAX && 0 <= z.signif < BASE2
    && (z.exp == 0 <==> z.signif < TWO63)
  }

  /** The exact value an outcome stands for, in units of 2^-94 smallest subnormals. */
  ghost function ExactScaled(z: Outcome): int
    requires Canonical(z) || (z.NormRoundPack? && z.exp + 61 >= 0)
  {
    if z.Packed? then Float80(z.sign, z.exp, z.signif).Mag() * (2 * TWO93) else z.extSig * Pow2(z.exp + 61)
  }

  /** z stands for exactly a - n*b, with n the integer nearest a/b and the even one of two: the operation
      `remainder` of section 5.3.1 of IEEE 754-2008, a zero result taking the sign of a. */
  ghost predicate IsRemainder(a: Float80, b: Float80, z: Outcome)
    requires a.Valid() && b.Valid() && b.signif != 0
  {
    MagPositive(b);
    && (Canonical(z) || (z.NormRoundPack? && z.exp + 61 >= 0 && 0 <= z.extSig < TWO96))
    && (if z.sign != a.sign then -ExactScaled(z) else ExactScaled(z))
       == (a.Mag() - NearestEven(a.Mag(), b.Mag()) * b.Mag()) * (2 * TWO93)
    && (ExactScaled(z) == 0 ==> z.sign == a.sign)
  }

  lemma CopyIsRemainder(a: Float80, b: Float80, z: Outcome)
    requires a.Valid() && b.Valid() && b.signif != 0
    requires Canonical(z) && z.sign == a.sign && Float80(z.sign, z.exp, z.signif).Mag() == a.Mag()
    requires b.Mag() > 0 && NearestEven(a.Mag(), b.Mag()) == 0
    ensures IsRemainder(a, b, z)
  {
    hide NearestEven;
  }

  lemma CopyZero(a: Float80, b: Float80)
    requires a.Valid() && b.Valid() && a.signif == 0
    ensures Canonical(Packed(a.sign, 0, 0)) && Float80(a.sign, 0, 0).Mag() == a.Mag()
    ensures b.signif != 0 ==> IsRemainder(a, b, Packed(a.sign, 0, 0))
  {
    hide Pow2;
    if b.signif != 0 {
      MagPositive(b);
      ModUnique(0, 0, 0, b.Mag());
      CopyIsRemainder(a, b, Packed(a.sign, 0, 0));
    }
  }

  lemma HandedIsRemainder(a: Float80, b: Float80, z: Outcome, r: int)
    requires a.Valid() && b.Valid() && b.signif != 0
    requires z.NormRoundPack? && z.exp + 61 >= 0 && 0 <= z.extSig < TWO96
    requires r == (if z.sign != a.sign then -z.extSig else z.extSig)
    requires b.Mag() > 0
    requires r * Pow2(z.exp + 61) == (a.Mag() - NearestEven(a.Mag(), b.Mag()) * b.Mag()) * (2 * TWO93)
    requires z.extSig == 0 ==> z.sign == a.sign
    ensures IsRemainder(a, b, z)
  {
    hide NearestEven, Pow2;
    Distribute(0, z.extSig, Pow2(z.exp + 61));
    ScaleEq(z.extSig, 0, Pow2(z.exp + 61));
  }

  /** extF80M_rem. */
  method Rem(a: Float80, b: Float80) returns (z: Outcome)
    requires a.Valid() && b.Valid()
    ensures z.PropagateNaN? <==> a.IsNaN() || b.IsNaN()
    ensures z.Invalid? <==> !a.IsNaN() && !b.IsNaN() && (!a.IsFinite() || b.signif == 0)
    ensures a.IsFinite() && b.IsFinite() && b.signif != 0 ==> IsRemainder(a, b, z)
    ensures a.IsFinite() && !b.IsFinite() && !b.IsNaN() && b.signif != 0 ==>
              Canonical(z) && z.sign == a.sign && Float80(z.sign, z.exp, z.signif).Mag() == a.Mag()
  {
    hide Pow2, NearestEven, NormExtF80Sig, IsRemainder, ExactScaled, Float80.Mag;
    var expA, expB := a.exp, b.exp;
    if expA == EXP_MAX || expB == EXP_MAX {
      if a.IsNaN() || b.IsNaN() {
        return PropagateNaN;
      }
      if expA == EXP_MAX {
        return Invalid;
      }
      // b is infinite: a doubled exponent sends a to copyA
      expB := expB + expB;
    }
    if expB == 0 {
      expB := 1;
    }
    var x64 := b.signif;
    if x64 < TWO63 {
      if x64 == 0 {
        return Invalid;
      }
    }
    var normB := NormExtF80Sig(x64);
    x64, expB := normB.1, expB + normB.0;
    if expA == 0 {
      expA := 1;
    }
    var sigA := a.signif;
    if sigA == 0 {
      CopyZero(a, b);
      return Packed(a.sign, 0, 0);
    }
    var normA := NormExtF80Sig(sigA);
    sigA, expA := normA.1, expA + normA.0;
    if expA - expB < -1 {
      CopyValue(a, expA, sigA);
      if b.IsFinite() {
        BelowHalf(a, b, expA, sigA, expB, x64);
      }
      if expA < 1 {
        sigA := sigA / Pow2(1 - expA);
        expA := 0;
      }
      z := Packed(a.sign, expA, sigA);
      if b.IsFinite() {
        CopyIsRemainder(a, b, z);
      }
      return z;
    }
    z := RemNormalised(a.sign, sigA, x64, expA - expB, expB);
    RemValue(a, b, expA, sigA, expB, x64);
    MagPositive(b);
    HandedIsRemainder(a, b, z, if z.sign != a.sign then -z.extSig else z.extSig);
  }
}
