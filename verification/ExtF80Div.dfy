/** extF80M_div on 32-bit words: three 29-bit quotient digits, the last one repaired only when it might matter
    to the rounding. */
module ExtF80Div {
  import opened Arith
  import opened SoftFloatWords
  import opened QuotientDigit
  import opened DigitRecurrence
  import opened ExtF80
  import opened Rounding

  const M22: int := 0x40_0000
  const M23: int := 0x80_0000

  // ---- Why a digit that is off by one still rounds correctly ----

  /** q, cut at bit 23, says of n/x what a faithful extended significand must. */
  ghost predicate Cut(n: int, x: int, q: int)
    requires x > 0
  {
    && n / x == q / M23
    && (q % M23 == 0 <==> n % x == 0)
    && (q % M23 < M22 <==> 2 * (n % x) < x)
    && (q % M23 == M22 <==> 2 * (n % x) == x)
  }

  ghost predicate InRange(n: int, x: int)
    requires x > 0
  {
    TWO63 <= n / x < BASE2
  }

  /** q digits and a remainder of 2^23 * n divided by x. */
  ghost predicate Splits(n: int, x: int, q: int, v: int) {
    n * M23 == q * x + v
  }

  lemma CutIsFaithful(n: int, x: int, q: int)
    requires x > 0 && Cut(n, x, q) && InRange(n, x)
    ensures Faithful(512 * q, n, x)
  {
    ModUnique(512 * (q % M23), 512 * q, q / M23, BASE);
  }

  ghost predicate SameTop(n: int, x: int, q: int)
    requires x > 0
  {
    n / x == q / M23
  }

  ghost function Rest(n: int, x: int): int
    requires x > 0
  {
    (n % x) * M23
  }

  /** The quotient of w by x, w = q*x + v, cut at bit 23: the integer part of n/x and 2^23 times what is left
      of it, when w is 2^23 * n. */
  lemma CutQuotient(n: int, x: int, q: int, v: int)
    requires x > 0 && Splits(n, x, q, v)
    requires 0 <= (q % M23) * x + v < x * M23
    ensures SameTop(n, x, q)
    ensures Rest(n, x) == (q % M23) * x + v
  {
    var g, l := q / M23, q % M23;
    Distribute(g * M23, l, x);
    assert (g * M23) * x == (g * x) * M23;
    var r := n - g * x;
    assert r * M23 == l * x + v;
    ModUnique(r, n, g, x);
  }

  lemma CompareRest(n: int, x: int, q: int, t: int)
    requires x > 0 && SameTop(n, x, q) && Rest(n, x) == t
    requires q % M23 == 0 <==> t == 0
    requires q % M23 < M22 <==> t < M22 * x
    requires q % M23 == M22 <==> t == M22 * x
    ensures Cut(n, x, q)
  {
  }

  lemma CellPosition(q: int)
    requires 2 <= (q + 1) % M22
    ensures 1 <= q % M23 <= M23 - 2 && q % M23 != M22 && q % M23 != M22 - 1
  {
    var h, l := (q + 1) / M22, (q + 1) % M22;
    if h % 2 == 0 {
      ModUnique(l - 1, q, h / 2, M23);
    } else {
      ModUnique(M22 + l - 1, q, h / 2, M23);
    }
  }

  lemma CellBounds(l: int, x: int, v: int)
    requires x > 0 && 1 <= l <= M23 - 2 && l != M22 && l != M22 - 1 && -x < v < 2 * x
    ensures 0 < l * x + v < x * M23
    ensures l < M22 <==> l * x + v < M22 * x
    ensures l * x + v != M22 * x
  {
    MulMono(1, l, x);
    MulMono(l, M23 - 2, x);
    if l < M22 {
      MulMono(l, M22 - 2, x);
    } else {
      MulMono(M22 + 1, l, x);
    }
  }

  /** Strictly inside a cell of 2^22 quotients, an error of one digit either way changes neither the top bits nor
      how the rest compares with 0 and one half. */
  lemma InsideCell(n: int, x: int, q: int, v: int)
    requires x > 0 && Splits(n, x, q, v)
    requires -x < v < 2 * x
    requires 2 <= (q + 1) % M22
    ensures Cut(n, x, q)
  {
    hide Cut, Rest, Splits, SameTop;
    CellPosition(q);
    CellBounds(q % M23, x, v);
    CutQuotient(n, x, q, v);
    CompareRest(n, x, q, (q % M23) * x + v);
  }

  lemma ExactBounds(l: int, x: int, v: int)
    requires x > 0 && 0 <= l < M23 && 0 <= v < x
    ensures 0 <= l * x + v < x * M23
    ensures l * x + v == 0 <==> l == 0 && v == 0
    ensures l * x + v < M22 * x <==> l < M22
    ensures l * x + v == M22 * x <==> l == M22 && v == 0
  {
    MulMono(0, l, x);
    MulMono(l, M23 - 1, x);
    if l < M22 {
      MulMono(l, M22 - 1, x);
    } else {
      MulMono(M22, l, x);
    }
    if l >= 1 {
      MulMono(1, l, x);
    }
    if l >= M22 + 1 {
      MulMono(M22 + 1, l, x);
    }
  }

  /** The digit with its low bit set when there is a remainder: `q |= 1`. */
  function Sticky(q: int, v: int): int {
    if v != 0 && q % 2 == 0 then q + 1 else q
  }

  lemma SameTopSticky(n: int, x: int, q: int, v: int)
    requires x > 0 && SameTop(n, x, q)
    ensures SameTop(n, x, Sticky(q, v))
  {
    if v != 0 && q % 2 == 0 {
      var h := q / 2;
      var g, r := h / M22, h % M22;
      ModUnique(2 * r, q, g, M23);
      ModUnique(2 * r + 1, q + 1, g, M23);
    }
  }

  lemma ExactDigit(n: int, x: int, q: int, v: int)
    requires x > 0 && Splits(n, x, q, v)
    requires 0 <= v < x
    ensures Cut(n, x, Sticky(q, v))
  {
    hide Cut, Rest, Splits, SameTop;
    ExactBounds(q % M23, x, v);
    CutQuotient(n, x, q, v);
    SameTopSticky(n, x, q, v);
    CompareRest(n, x, Sticky(q, v), (q % M23) * x + v);
  }

  // ---- The digit recurrence ----

  /** One digit: what the step leaves in y, before and after the add-back. */
  lemma DivDigit(y0: int, shifted: nat, e: int, x: int, y: int, q: int)
    requires Normalised(x) && Bounded(y, x) && Reduced(y0, shifted, e, x, y)
    requires q == FullDigit(y, x)
    ensures 0 <= q <= 3 * TWO29
    ensures var v := StepValue(y, 29, x, q);
            && Signed96(Wrap(v, 3)) == v
            && (v >= 0 ==> Wrap(v, 3) == v && Bounded(v, x) && Reduced(y0, shifted + 29, Append(e, 29, q), x, v))
            && (v < 0 ==> q >= 1 && Wrap(Wrap(v, 3) + x, 3) == v + x && Bounded(v + x, x) && v + x < x
                          && Reduced(y0, shifted + 29, Append(e, 29, q - 1), x, v + x))
  {
    hide Wrap, FullDigit, Reduced, Pow2;
    DigitStep(y, x);
    LoopDigit(y0, shifted, e, x, y, q);
    var v := StepValue(y, 29, x, q);
    if v < 0 && q == 0 {
      MulMono(0, y, Pow2(29));
    }
  }

  lemma Append29(e: int, q: int)
    ensures Append(e, 29, q) == e * TWO29 + q
  {
    hide Pow2;
    Pow2Of29();
  }

  /** The first two digits, as softfloat leaves them in qs, and the third estimate. */
  method DivDigits(y: array<Word>, sigB: array<Word>, sig32B: int, qs: array<Word>)
      returns (q: Word, ghost e: int)
    requires y.Length == sigB.Length == 3 && qs.Length == 2 && y != sigB && y != qs && sigB != qs
    requires Normalised(Val(sigB[..])) && 0 <= Val(y[..]) < Val(sigB[..])
    requires sig32B == Val(sigB[..]) / TWO62
    modifies y, qs
    ensures e == qs[1] * TWO29 + qs[0]
    ensures Bounded(Val(y[..]), Val(sigB[..]))
    ensures q == FullDigit(Val(y[..]), Val(sigB[..]))
    ensures Reduced(old(Val(y[..])), 58, e, Val(sigB[..]), Val(y[..]))
  {
    hide Val, Wrap, StepValue, Pow2, Reduced, ApproxRecip32, FullDigit, LastDigit, Signed96, Append;
    ghost var X, Y0 := Val(sigB[..]), Val(y[..]);
    var recip32 := ApproxRecip32(sig32B);
    var ix := 2;
    e := 0;
    ReduceStart(Y0, X);
    while true
      invariant 0 <= ix <= 2
      invariant Bounded(Val(y[..]), X)
      invariant Reduced(Y0, 29 * (2 - ix), e, X, Val(y[..]))
      invariant ix == 2 ==> e == 0
      invariant ix == 1 ==> e == qs[1]
      invariant ix == 0 ==> e == qs[1] * TWO29 + qs[0]
      decreases ix
    {
      ghost var r := Val(y[..]);
      TopWordEstimate(y[..], X, recip32);
      DivDigit(Y0, 29 * (2 - ix), e, X, r, FullDigit(r, X));
      var x64: int := y[2] * recip32;
      q := (x64 + 0x8000_0000) / BASE;
      ix := ix - 1;
      if ix < 0 {
        break;
      }
      RemStepMBy32(y, 29, sigB, q, y);
      TopWord(y[..]);
      if y[2] >= 0x8000_0000 {
        q := q - 1;
        AddM(y, sigB, y);
      }
      Append29(e, q);
      e := Append(e, 29, q);
      qs[ix] := q;
    }
  }

  // ---- The last digit ----

  ghost function Joined(e: int, q: int): int {
    e * TWO29 + q
  }

  /** The digit that goes into the result together with the first two gives a faithful significand of y0*2^64/x. */
  ghost predicate FinalDigits(y0: int, x: int, e: int, q: int)
    requires x > 0
  {
    Faithful(512 * Joined(e, q), y0 * BASE2, x)
  }

  lemma TotalQuotient(y0: int, x: int, e: int, y: int, q: int, v: int)
    requires Reduced(y0, 58, e, x, y)
    requires v == y * TWO29 - q * x
    ensures Splits(y0 * BASE2, x, Joined(e, q), v)
  {
    hide Pow2;
    Pow2Of58();
    Distribute(e * TWO29, q, x);
    assert (e * TWO29) * x == (e * x) * TWO29;
  }

  lemma Pow2Of58()
    ensures Pow2(58) == TWO29 * TWO29
  {
    hide Pow2;
    Pow2Of29();
    Pow2Add(29, 29);
  }

  lemma QuotientRange(y0: int, x: int)
    requires 0 < x && y0 < x <= 2 * y0
    ensures InRange(y0 * BASE2, x)
  {
    var n := y0 * BASE2;
    var g := n / x;
    assert n == x * g + n % x;
    if g >= BASE2 {
      MulMono(BASE2, g, x);
    }
    if g < TWO63 {
      MulMono(g, TWO63 - 1, x);
    }
  }

  lemma JoinedCell(e: int, q: int)
    ensures (Joined(e, q) + 1) % M22 == (q + 1) % M22
  {
    ModUnique((q + 1) % M22, Joined(e, q) + 1, e * (TWO29 / M22) + (q + 1) / M22, M22);
  }

  /** Without repair: the estimate is away from a cell boundary. */
  lemma Unrepaired(y0: int, x: int, e: int, y: int, q: int)
    requires Normalised(x) && Bounded(y, x) && Reduced(y0, 58, e, x, y)
    requires y0 < x <= 2 * y0
    requires q == FullDigit(y, x) && (q + 1) % M22 >= 2
    ensures FinalDigits(y0, x, e, q)
  {
    hide Reduced, FullDigit, Cut, Faithful, Splits, InRange, Joined;
    DigitStep(y, x);
    JoinedCell(e, q);
    TotalQuotient(y0, x, e, y, q, y * TWO29 - q * x);
    QuotientRange(y0, x);
    InsideCell(y0 * BASE2, x, Joined(e, q), y * TWO29 - q * x);
    CutIsFaithful(y0 * BASE2, x, Joined(e, q));
  }

  lemma TotalOf87(y0: int, x: int, e: int, q: int, v: int)
    requires Reduced(y0, 87, Append(e, 29, q), x, v)
    ensures Splits(y0 * BASE2, x, Joined(e, q), v)
  {
    hide Pow2, Append;
    Append29(e, q);
    Pow2Of58();
    Pow2Of29();
    Pow2Add(58, 29);
  }

  lemma StickyJoined(e: int, q: int, v: int)
    ensures Sticky(Joined(e, q), v) == Joined(e, Sticky(q, v))
  {
  }

  /** With repair: v is the exact remainder of the exact digit q. */
  lemma Repaired(y0: int, x: int, e: int, q: int, v: int)
    requires x > 0 && Reduced(y0, 87, Append(e, 29, q), x, v) && 0 <= v < x
    requires y0 < x <= 2 * y0
    ensures FinalDigits(y0, x, e, Sticky(q, v))
  {
    hide Reduced, Append, Cut, Faithful, Splits, InRange, Joined, Sticky;
    TotalOf87(y0, x, e, q, v);
    QuotientRange(y0, x);
    ExactDigit(y0 * BASE2, x, Joined(e, q), v);
    CutIsFaithful(y0 * BASE2, x, Sticky(Joined(e, q), v));
    StickyJoined(e, q, v);
  }

  // ---- The whole operation ----

  lemma AssembledWords(q: int, q0: Word, q1: Word)
    requires 0 <= q < BASE && 512 * Joined(q1 * TWO29 + q0, q) < TWO96
    ensures var x64 := q * 512;
            var mid := (q0 * 64 + x64 / BASE) % BASE2;
            x64 % BASE + BASE * (mid % BASE) + BASE2 * (((q1 * 8) % BASE + mid / BASE) % BASE)
            == 512 * Joined(q1 * TWO29 + q0, q)
  {
    var x64 := q * 512;
    var mid := q0 * 64 + x64 / BASE;
    var top := q1 * 8 + mid / BASE;
    var low := x64 % BASE + BASE * (mid % BASE);
    assert low + BASE2 * top == 512 * Joined(q1 * TWO29 + q0, q);
    TopWord3(top, low);
    SmallMod(mid, BASE2);
    SmallMod(top, BASE);
    AddMod(q1 * 8, mid / BASE, BASE);
  }

  /** What is left for the top word of a 96-bit value fits it. */
  lemma TopWord3(top: int, low: int)
    requires 0 <= low && 0 <= top && low + BASE2 * top < TWO96
    ensures top < BASE
  {
  }

  lemma SmallMod(v: int, m: int)
    requires 0 <= v < m
    ensures v % m == v
  {
    ModUnique(v, v, 0, m);
  }

  lemma AddMod(x: int, y: int, m: int)
    requires m > 0
    ensures (x % m + y) % m == (x + y) % m
  {
    var k, r := (x + y) / m, (x + y) % m;
    var j := x / m;
    assert x + y == r + k * m && x == x % m + j * m;
    Distribute(k, j, m);
    ModUnique(r, x % m + y, k - j, m);
  }

  /** The three digits written into the 96-bit significand, 9 bits up. */
  method AssembleDigits(q: int, qs: array<Word>, y: array<Word>)
    requires y.Length == 3 && qs.Length == 2 && y != qs
    requires 0 <= q < BASE
    requires 512 * Joined(qs[1] * TWO29 + qs[0], q) < TWO96
    modifies y
    ensures Val(y[..]) == 512 * Joined(qs[1] * TWO29 + qs[0], q)
  {
    hide Val, Joined;
    AssembledWords(q, qs[0], qs[1]);
    var x64 := q * 512;
    y[0] := x64 % BASE;
    x64 := (qs[0] * 64 + x64 / BASE) % BASE2;
    y[1] := x64 % BASE;
    y[2] := ((qs[1] * 8) % BASE + x64 / BASE) % BASE;
    Val3(y[..]);
  }

  function FirstShift(sigA: int, sigB: int): (s: nat) {
    if sigA < sigB then 30 else 29
  }

  lemma Pow2Of30()
    ensures Pow2(30) == TWO30
  {
    hide Pow2;
    Pow2Of29();
    Pow2Double(29);
  }

  /** The aligned dividend is below the divisor and at least half of it. */
  lemma StartValues(sigA: int, sigB: int)
    requires TWO63 <= sigA < BASE2 && TWO63 <= sigB < BASE2
    ensures Normalised(sigB * TWO30)
    ensures (sigB * TWO30) / TWO62 == sigB / BASE
    ensures var y0 := sigA * Pow2(FirstShift(sigA, sigB));
            0 <= y0 < sigB * TWO30 <= 2 * y0
  {
    hide Pow2;
    Pow2Of29();
    Pow2Of30();
  }

  lemma DigitUp(y0: int, e: int, q: int, x: int, v: int)
    requires Reduced(y0, 87, Append(e, 29, q), x, v)
    ensures Reduced(y0, 87, Append(e, 29, q + 1), x, v - x)
  {
    hide Pow2;
    Distribute(Append(e, 29, q), 1, x);
  }

  lemma FinalBound(y0: int, x: int, e: int, q: int)
    requires x > 0 && FinalDigits(y0, x, e, q)
    ensures Faithful(512 * Joined(e, q), y0 * BASE2, x)
    ensures 512 * Joined(e, q) < TWO96
  {
  }

  /** The quotient of the aligned significands is that of the significands themselves. */
  lemma ScaledQuotient(v: int, sigA: int, sigB: int)
    requires sigB > 0
    requires Faithful(v, sigA * Pow2(FirstShift(sigA, sigB)) * BASE2, sigB * TWO30)
    ensures Faithful(v, sigA * (if sigA < sigB then BASE2 else TWO63), sigB)
  {
    hide Pow2, Faithful;
    Pow2Of29();
    Pow2Of30();
    FaithfulScale(v, sigA * (if sigA < sigB then BASE2 else TWO63), sigB, TWO30);
  }

  /** The last digit where it matters: made exact, its low bit set when there is a remainder. */
  method RepairDigit(y: array<Word>, sigB: array<Word>, q0: Word, ghost y0: int, ghost e: int) returns (q: Word)
    requires y.Length == sigB.Length == 3 && y != sigB
    requires Normalised(Val(sigB[..])) && Bounded(Val(y[..]), Val(sigB[..]))
    requires Reduced(y0, 58, e, Val(sigB[..]), Val(y[..]))
    requires y0 < Val(sigB[..]) <= 2 * y0
    requires q0 == FullDigit(Val(y[..]), Val(sigB[..]))
    modifies y
    ensures FinalDigits(y0, Val(sigB[..]), e, q)
  {
    hide Val, Wrap, StepValue, Pow2, Reduced, FullDigit, Signed96, Append, Faithful, FinalDigits, Joined;
    q := q0;
    ghost var X := Val(sigB[..]);
    DivDigit(y0, 58, e, X, Val(y[..]), q);
    RemStepMBy32(y, 29, sigB, q, y);
    TopWord(y[..]);
    if y[2] >= 0x8000_0000 {
      q := q - 1;
      AddM(y, sigB, y);
    } else {
      var c := Compare96M(sigB, y);
      if c <= 0 {
        DigitUp(y0, e, q, X, Val(y[..]));
        Wrap96(Val(y[..]) - X);
        q := q + 1;
        SubM(y, sigB, y);
      }
    }
    Repaired(y0, X, e, q, Val(y[..]));
    ZeroWords(y[..]);
    if y[0] != 0 || y[1] != 0 || y[2] != 0 {
      q := if q % 2 == 0 then q + 1 else q;
    }
  }

  /** Lines 119 to 167: from normalised significands to the word handed to the rounder. */
  method DivSignificands(sigA: int, sigB0: int) returns (borrow: int, v: int)
    requires TWO63 <= sigA < BASE2 && TWO63 <= sigB0 < BASE2
    ensures borrow == if sigA < sigB0 then 1 else 0
    ensures Faithful(v, sigA * (if sigA < sigB0 then BASE2 else TWO63), sigB0)
  {
    hide Val, Wrap, Pow2, Reduced, FullDigit, Faithful, FinalDigits, Joined;
    var y, sigB, qs := new Word[3], new Word[3], new Word[2];
    borrow := 0;
    var shiftDist := 29;
    if sigA < sigB0 {
      borrow := 1;
      shiftDist := 30;
    }
    ShortShiftLeft64To96M(sigA, shiftDist, y);
    Store30(sigB0, sigB);
    ghost var Y0, X := Val(y[..]), Val(sigB[..]);
    StartValues(sigA, sigB0);
    var q;
    ghost var e;
    q, e := DivDigits(y, sigB, sigB0 / BASE, qs);
    if (q + 1) % M22 < 2 {
      q := RepairDigit(y, sigB, q, Y0, e);
    } else {
      Unrepaired(Y0, X, e, Val(y[..]), q);
    }
    FinalBound(Y0, X, e, q);
    AssembleDigits(q, qs, y);
    v := y[0] + BASE * y[1] + BASE2 * y[2];
    Val3(y[..]);
    ScaledQuotient(v, sigA, sigB0);
  }

  lemma QuotientCross(A: int, B: int, eA: int, eB: int, sigA: int, sigB: int, k: nat)
    requires eA + 62 >= 0 && eB + 62 >= 0
    requires A * TWO63 == sigA * Pow2(eA + 62) && B * TWO63 == sigB * Pow2(eB + 62)
    ensures (sigA * Pow2(k)) * ExactDen(B, eA - eB - k) == ExactNum(A, eA - eB - k) * sigB
  {
    hide Pow2;
    var e := eA - eB - k;
    var l, r := (sigA * Pow2(k)) * ExactDen(B, e), ExactNum(A, e) * sigB;
    if e < 0 {
      Pow2Add(k, eB + 62);
      Pow2Add(-e, eA + 62);
      assert l * TWO63 == (sigA * sigB) * (Pow2(k) * Pow2(eB + 62)) by {
        assert l * TWO63 == (sigA * Pow2(k)) * (B * TWO63);
        Interchange(sigA, Pow2(k), sigB, Pow2(eB + 62));
      }
      assert r * TWO63 == (sigA * sigB) * (Pow2(-e) * Pow2(eA + 62)) by {
        assert r * TWO63 == (Pow2(-e) * sigB) * (A * TWO63);
        Interchange(Pow2(-e), sigB, sigA, Pow2(eA + 62));
      }
    } else {
      Pow2Add(k, e);
      Pow2Add(k + e, eB + 62);
      assert l * TWO63 == (sigA * sigB) * (Pow2(k + e) * Pow2(eB + 62)) by {
        assert l == (sigA * Pow2(k + e)) * B by { Interchange(sigA, Pow2(k), B, Pow2(e)); }
        assert l * TWO63 == (sigA * Pow2(k + e)) * (B * TWO63);
        Interchange(sigA, Pow2(k + e), sigB, Pow2(eB + 62));
      }
      assert r * TWO63 == (sigA * sigB) * Pow2(eA + 62);
    }
    ScaleEq(l, r, TWO63);
  }

  /** z hands over the quotient of the magnitudes: scaled by the exponent it hands over, its integer part and how its
      fraction compares with one half. */
  ghost predicate IsQuotient(a: Float80, b: Float80, z: Outcome)
    requires a.Valid() && b.Valid() && b.signif != 0
  {
    && z.RoundPack?
    && z.sign == (a.sign != b.sign)
    && b.Mag() > 0 && ExactDen(b.Mag(), z.exp - 16446) > 0
    && Faithful(z.extSig, ExactNum(a.Mag(), z.exp - 16446), ExactDen(b.Mag(), z.exp - 16446))
  }

  lemma QuotientHanded(a: Float80, b: Float80, z: Outcome, borrow: int)
    requires a.Valid() && b.Valid() && a.signif != 0 && b.signif != 0
    requires z.RoundPack? && z.sign == (a.sign != b.sign)
    requires var (dA, sigA) := NormExtF80Sig(a.signif);
             var (dB, sigB) := NormExtF80Sig(b.signif);
             var eA, eB := (if a.exp == 0 then 1 else a.exp) + dA, (if b.exp == 0 then 1 else b.exp) + dB;
             && borrow == (if sigA < sigB then 1 else 0)
             && z.exp == eA - eB + 0x3FFF - borrow
             && Faithful(z.extSig, sigA * (if sigA < sigB then BASE2 else TWO63), sigB)
    ensures IsQuotient(a, b, z)
  {
    hide Pow2, NormExtF80Sig, Faithful;
    var (dA, sigA) := NormExtF80Sig(a.signif);
    var (dB, sigB) := NormExtF80Sig(b.signif);
    NormaliseValue(a.signif, if a.exp == 0 then 1 else a.exp);
    NormaliseValue(b.signif, if b.exp == 0 then 1 else b.exp);
    MagPositive(b);
    Pow2Of63();
    Pow2Of64();
    var eA, eB := (if a.exp == 0 then 1 else a.exp) + dA, (if b.exp == 0 then 1 else b.exp) + dB;
    QuotientCross(a.Mag(), b.Mag(), eA, eB, sigA, sigB, 63 + borrow);
    ExactDenPositive(b.Mag(), z.exp - 16446);
    FaithfulRational(z.extSig, sigA * Pow2(63 + borrow), sigB,
                     ExactNum(a.Mag(), z.exp - 16446), ExactDen(b.Mag(), z.exp - 16446));
  }

  /** extF80M_div. */
  method Div(a: Float80, b: Float80) returns (z: Outcome)
    requires a.Valid() && b.Valid()
    ensures z.PropagateNaN? <==> a.IsNaN() || b.IsNaN()
    ensures z.Invalid? <==> !a.IsNaN() && !b.IsNaN()
                            && ((!a.IsFinite() && !b.IsFinite())
                                || (a.IsFinite() && b.IsFinite() && a.signif == 0 == b.signif))
    ensures z.DivideByZero? <==> a.IsFinite() && b.IsFinite() && a.signif != 0 && b.signif == 0
    ensures z.DivideByZero? ==> z.sign == (a.sign != b.sign)
    ensures !a.IsFinite() && !a.IsNaN() && b.IsFinite() ==> z == Packed(a.sign != b.sign, EXP_MAX, TWO63)
    ensures a.IsFinite() && !b.IsNaN() && (!b.IsFinite() || (a.signif == 0 && b.signif != 0)) ==>
              z == Packed(a.sign != b.sign, 0, 0)
    ensures a.IsFinite() && b.IsFinite() && a.signif != 0 && b.signif != 0 ==> IsQuotient(a, b, z)
  {
    hide Pow2, NormExtF80Sig, IsQuotient, Faithful;
    var expA, expB := a.exp, b.exp;
    var signZ := a.sign != b.sign;
    if expA == EXP_MAX || expB == EXP_MAX {
      if a.IsNaN() || b.IsNaN() {
        return PropagateNaN;
      }
      if expA == EXP_MAX {
        if expB == EXP_MAX {
          return Invalid;
        }
        return Packed(signZ, EXP_MAX, TWO63);
      }
      return Packed(signZ, 0, 0);
    }
    var sigA, x64 := a.signif, b.signif;
    if expB == 0 {
      expB := 1;
    }
    if x64 == 0 {
      return if sigA == 0 then Invalid else DivideByZero(signZ);
    }
    var normB := NormExtF80Sig(x64);
    expB, x64 := expB + normB.0, normB.1;
    if expA == 0 {
      expA := 1;
    }
    if sigA == 0 {
      return Packed(signZ, 0, 0);
    }
    var normA := NormExtF80Sig(sigA);
    expA, sigA := expA + normA.0, normA.1;
    var expZ := expA - expB + 0x3FFF;
    var borrow, v := DivSignificands(sigA, x64);
    z := RoundPack(signZ, expZ - borrow, v);
    QuotientHanded(a, b, z, borrow);
  }
}
