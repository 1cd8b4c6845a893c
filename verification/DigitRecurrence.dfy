/** The step that remainder and division share: estimate a 29-bit digit, subtract its multiple of the divisor,
    add the divisor back once if that went below zero; and the signed reading of 96-bit words it relies on. */
module DigitRecurrence {
  import opened Arith
  import opened SoftFloatWords
  import opened QuotientDigit

  // ---- 96-bit values read as signed ----

  function Signed96(v: int): int {
    if v < TWO95 then v else v - TWO96
  }

  lemma Wrap96(v: int)
    requires -TWO95 <= v < TWO96
    ensures Wrap(v, 3) == if v < 0 then v + TWO96 else v
    ensures v < TWO95 ==> Signed96(Wrap(v, 3)) == v
  {
    assert Pow(3) == TWO96 by { hide Val; Val3([0, 0, 0]); }
    ModUnique(if v < 0 then v + TWO96 else v, v, if v < 0 then -1 else 0, TWO96);
  }

  lemma TopWord(s: seq<Word>)
    requires |s| == 3
    ensures s[2] == Val(s) / BASE2
    ensures Val(s) < TWO96
    ensures s[2] >= TWO31 <==> Signed96(Val(s)) < 0
  {
    hide Val;
    Val3(s);
  }

  lemma ZeroWords(s: seq<Word>)
    requires |s| == 3
    ensures s[0] == 0 && s[1] == 0 && s[2] == 0 <==> Val(s) == 0
  {
    hide Val;
    Val3(s);
  }

  /** Adding or subtracting within the signed range is exact. */
  lemma SignedSum(a: int, b: int, v: int)
    requires 0 <= a < TWO96 && 0 <= b < TWO96
    requires v == Signed96(a) + Signed96(b) || v == Signed96(a) - Signed96(b)
    requires -TWO95 <= v < TWO95
    ensures v == Signed96(a) + Signed96(b) ==> Signed96(Wrap(a + b, 3)) == v
    ensures v == Signed96(a) - Signed96(b) ==> Signed96(Wrap(a - b, 3)) == v
  {
    assert Pow(3) == TWO96 by { hide Val; Val3([0, 0, 0]); }
    var u := if v < 0 then v + TWO96 else v;
    if v == Signed96(a) + Signed96(b) {
      ModUnique(u, a + b, (a + b - u) / TWO96, TWO96);
    }
    if v == Signed96(a) - Signed96(b) {
      ModUnique(u, a - b, (a - b - u) / TWO96, TWO96);
    }
  }

  // ---- The recurrence ----

  ghost predicate Remains(a: int, n: int, x: int, rem: int) {
    a == n * x + rem
  }

  /** After `shifted` bits, a * 2^shifted is n times x and the running remainder. */
  ghost predicate Reduced(a: int, shifted: nat, n: int, x: int, rem: int) {
    Remains(a * Pow2(shifted), n, x, rem)
  }

  /** The quotient n with a digit of s bits appended. */
  ghost function Append(n: int, s: nat, q: int): int {
    n * Pow2(s) + q
  }

  lemma ReduceStep(a: int, shifted: nat, n: int, x: int, rem: int, s: nat, q: int)
    requires Reduced(a, shifted, n, x, rem)
    ensures Reduced(a, shifted + s, Append(n, s, q), x, rem * Pow2(s) - q * x)
  {
    hide Pow2;
    Pow2Add(shifted, s);
    var d := Pow2(s);
    assert a * (Pow2(shifted) * d) == (n * x + rem) * d;
    assert (n * x) * d == (n * d) * x;
    Distribute(n * x, rem, d);
    Distribute(n * d, q, x);
  }

  lemma AddBack(a: int, shifted: nat, n: int, x: int, rem: int)
    requires Reduced(a, shifted, n, x, rem)
    ensures Reduced(a, shifted, n - 1, x, rem + x)
  {
    Distribute(n, 1, x);
  }

  lemma ReduceStart(a: int, x: int)
    ensures Reduced(a, 0, 0, x, a)
  {
  }

  /** One full digit of the loop, with its one conditional add-back. */
  lemma LoopDigit(a: int, shifted: nat, n: int, x: int, rem: int, q: int)
    requires Normalised(x) && Bounded(rem, x) && Reduced(a, shifted, n, x, rem)
    requires q == FullDigit(rem, x)
    ensures 0 <= q < BASE
    ensures var v := StepValue(rem, 29, x, q);
            var n' := Append(n, 29, q);
            && Signed96(Wrap(v, 3)) == v
            && (v >= 0 ==> Wrap(v, 3) == v && Bounded(v, x) && Reduced(a, shifted + 29, n', x, v))
            && (v < 0 ==> Wrap(Wrap(v, 3) + x, 3) == v + x && Bounded(v + x, x)
                          && Reduced(a, shifted + 29, n' - 1, x, v + x))
  {
    hide Wrap, Pow2, FullDigit, LastDigit, Reduced, Append;
    DigitStep(rem, x);
    Pow2Of29();
    var v := StepValue(rem, 29, x, q);
    Wrap96(v);
    ReduceStep(a, shifted, n, x, rem, 29, q);
    if v < 0 {
      AddBack(a, shifted + 29, Append(n, 29, q), x, v);
      Wrap96Add(Wrap(v, 3), x, v + x);
    }
  }

  lemma Wrap96Add(a: int, b: int, v: int)
    requires a + b == v + TWO96 && 0 <= v < TWO96
    ensures Wrap(a + b, 3) == v
  {
    assert Pow(3) == TWO96 by { hide Val; Val3([0, 0, 0]); }
    ModUnique(v, a + b, 1, TWO96);
  }

  lemma TopWordEstimate(s: seq<Word>, x: int, recip32: int)
    requires |s| == 3
    requires Normalised(x) && Bounded(Val(s), x) && recip32 == ApproxRecip32(x / TWO62)
    ensures var x64 := s[2] * recip32;
            && (x64 + TWO31) / BASE == FullDigit(Val(s), x)
            && forall k :: 1 <= k <= 29 ==> x64 / BASE / Pow2(29 - k) == LastDigit(Val(s), x, k)
  {
    hide Val, ApproxRecip32;
    TopWord(s);
    EstimateError(Val(s), x);
  }

  const TWO30: int := 0x4000_0000

  lemma Split30(sig: int)
    requires 0 <= sig < BASE2
    ensures sig * TWO30 == ((sig % BASE) * TWO30) % BASE + BASE * ((sig / 4) % BASE) + BASE2 * (sig / 0x4_0000_0000)
    ensures 0 <= sig / 0x4_0000_0000 < BASE
  {
    ModUnique((sig % 4) * TWO30, (sig % BASE) * TWO30, (sig % BASE) / 4, BASE);
    assert sig / 4 == BASE * (sig / 0x4_0000_0000) + (sig / 4) % BASE;
  }

  /** A 64-bit significand shifted left by 30 bits into three words. */
  method Store30(sig: int, z: array<Word>)
    requires 0 <= sig < BASE2 && z.Length == 3
    modifies z
    ensures Val(z[..]) == sig * TWO30
  {
    hide Val;
    Split30(sig);
    z[2] := sig / 0x4_0000_0000;
    z[1] := (sig / 4) % BASE;
    z[0] := ((sig % BASE) * TWO30) % BASE;
    Val3(z[..]);
  }
}
