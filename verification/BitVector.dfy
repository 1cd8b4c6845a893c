/** The bit vector of sim_bitvec.hh on 64-bit words: the freelist of the simulator. */
module BitVector {
  import opened Arith
  import opened WordBits

  /** Bit i of a vector of words. */
  predicate Has(ws: seq<Word>, i: nat)
    requires i < 64 * |ws|
  {
    Bit(ws[i / 64], i % 64)
  }

  /** The words that the machine operations compute. */
  lemma SetWord(w: Word, b: nat) returns (x: Word)
    requires b < 64
    ensures x == Or(w, Pow2(b))
    ensures forall i :: 0 <= i < 64 ==> (Bit(x, i) <==> i == b || Bit(w, i))
  {
    hide Pow2, Or, Bit;
    Pow2Of64();
    Pow2Below(b);
    OrBound(w, Pow2(b), 64);
    x := Or(w, Pow2(b));
    forall i | 0 <= i < 64 ensures Bit(x, i) <==> i == b || Bit(w, i) {
      OrBit(w, Pow2(b), i);
      PowBit(b, i);
    }
  }

  lemma Pow2Below(b: nat)
    requires b < 64
    ensures Pow2(b) <= ALL_ONES
  {
    hide Pow2;
    Pow2Of64();
    Pow2Mono(b, 63);
    Pow2Double(63);
  }

  lemma ClearWord(w: Word, b: nat) returns (x: Word)
    requires b < 64
    ensures Pow2(b) < Pow2(64) && x == And(w, Not(Pow2(b), 64))
    ensures forall i :: 0 <= i < 64 ==> (Bit(x, i) <==> i != b && Bit(w, i))
  {
    hide Pow2, And, Bit, Not;
    Pow2Of64();
    Pow2Below(b);
    var m := Not(Pow2(b), 64);
    AndBound(w, m);
    x := And(w, m);
    forall i | 0 <= i < 64 ensures Bit(x, i) <==> i != b && Bit(w, i) {
      AndBit(w, m, i);
      NotBit(Pow2(b), 64, i);
      PowBit(b, i);
    }
  }

  /** Changing bit idx in its word changes bit idx of the vector only. */
  lemma OneBit(ws: seq<Word>, idx: nat, x: Word, v: bool)
    requires idx < 64 * |ws|
    requires forall b :: 0 <= b < 64 ==> (Bit(x, b) <==> if b == idx % 64 then v else Bit(ws[idx / 64], b))
    ensures forall i :: 0 <= i < 64 * |ws| ==> (Has(ws[idx / 64 := x], i) <==> if i == idx then v else Has(ws, i))
  {
    hide Bit;
    forall i | 0 <= i < 64 * |ws|
      ensures Has(ws[idx / 64 := x], i) <==> if i == idx then v else Has(ws, i)
    {
      if i / 64 == idx / 64 {
        assert i == idx <==> i % 64 == idx % 64;
      }
    }
  }

  // ---- A word of the vector ----

  lemma OnesWord(ws: seq<Word>, w: nat)
    requires w < |ws| && ws[w] == ALL_ONES
    ensures forall i :: 64 * w <= i < 64 * (w + 1) ==> Has(ws, i)
  {
    hide Bit, Pow2;
    Pow2Of64();
    forall i | 64 * w <= i < 64 * (w + 1) ensures Has(ws, i) {
      NotBit(0, 64, i % 64);
      NoBits(i % 64);
    }
  }

  lemma ZeroWord(ws: seq<Word>, w: nat)
    requires w < |ws| && ws[w] == 0
    ensures forall i :: 64 * w <= i < 64 * (w + 1) ==> !Has(ws, i)
  {
    hide Bit;
    forall i | 64 * w <= i < 64 * (w + 1) ensures !Has(ws, i) {
      NoBits(i % 64);
    }
  }

  /** The first zero of a word, by the first one of its complement. */
  lemma UnsetWord(ws: seq<Word>, w: nat)
    requires w < |ws| && ws[w] != ALL_ONES
    ensures ws[w] < Pow2(64) && Not(ws[w], 64) > 0
    ensures var k := FirstSet(Not(ws[w], 64));
            && k < 64
            && !Has(ws, 64 * w + k)
            && forall i :: 64 * w <= i < 64 * w + k ==> Has(ws, i)
  {
    hide Bit, Pow2, FirstSet;
    Pow2Of64();
    var x := Not(ws[w], 64);
    FirstSetIs(x);
    FirstSetBound(x, 64);
    var k := FirstSet(x);
    NotBit(ws[w], 64, k);
    forall i | 64 * w <= i < 64 * w + k ensures Has(ws, i) {
      NotBit(ws[w], 64, i % 64);
    }
  }

  /** The first one of a word at or after bit b: the bits below are shifted out and back in as zeros. */
  lemma SetWordFrom(ws: seq<Word>, w: nat, b: nat)
    requires w < |ws| && b < 64
    ensures var ww := Left(Right(ws[w], b), b);
            if ww == 0 then forall i :: 64 * w + b <= i < 64 * (w + 1) ==> !Has(ws, i)
            else var k := FirstSet(ww);
                 b <= k < 64 && Has(ws, 64 * w + k) && forall i :: 64 * w + b <= i < 64 * w + k ==> !Has(ws, i)
  {
    hide Bit, Pow2, FirstSet, Left, Right;
    var ww := Left(Right(ws[w], b), b);
    forall i | 0 <= i ensures Bit(ww, i) <==> b <= i && Bit(ws[w], i) {
      LeftBit(Right(ws[w], b), b, i);
      if b <= i {
        RightBit(ws[w], b, i - b);
      }
    }
    Pow2Of64();
    if ww == 0 {
      forall i | 64 * w + b <= i < 64 * (w + 1) ensures !Has(ws, i) {
        NoBits(i % 64);
      }
    } else {
      FirstSetIs(ww);
      var k := FirstSet(ww);
      if k >= 64 {
        BitAbove(ws[w], 64, k);
      }
      forall i | 64 * w + b <= i < 64 * w + k ensures !Has(ws, i) {
        assert !Bit(ww, i % 64);
      }
    }
  }

  lemma FirstOfWord(ws: seq<Word>, w: nat)
    requires w < |ws| && ws[w] != 0
    ensures var k := FirstSet(ws[w]);
            k < 64 && Has(ws, 64 * w + k) && forall i :: 64 * w <= i < 64 * w + k ==> !Has(ws, i)
  {
    hide Bit, Pow2, FirstSet, Left, Right;
    RightHalf(ws[w], 0);
    LeftNone(ws[w]);
    SetWordFrom(ws, w, 0);
  }

  lemma LeftNone(w: nat)
    ensures Left(w, 0) == w
  {
    Pow2Zero();
  }

  /** (arr[w] >> b) & 3. */
  lemma TwoBits(w: Word, b: nat)
    ensures And(Right(w, b), 3) == 0 <==> !Bit(w, b) && !Bit(w, b + 1)
  {
    hide Right;
    RightBit(w, b, 0);
    RightBit(w, b, 1);
    LowPair(Right(w, b));
  }

  lemma LowPair(x: nat)
    ensures And(x, 3) == 0 <==> !Bit(x, 0) && !Bit(x, 1)
  {
    assert And(x / 2, 1) == 0 <==> x / 2 % 2 == 0;
  }

  /** idx & ~1. */
  lemma Even(x: nat)
    requires x < 64
    ensures And(x, ALL_ONES - 1) == x - x % 2
  {
    hide Pow2, Low;
    Pow2Of64();
    Pow2Double(63);
    AndLowOnes(x / 2, 63);
    LowSmall(x / 2, 63);
    assert (ALL_ONES - 1) / 2 == Pow2(63) - 1;
    AndEvenOperand(x, ALL_ONES - 1);
  }

  lemma AndEvenOperand(x: nat, y: nat)
    requires y % 2 == 0
    ensures And(x, y) == 2 * And(x / 2, y / 2)
  {
  }

  lemma LowSmall(x: nat, k: nat)
    requires x < 64 && k == 63
    ensures Low(x, k) == x
  {
    hide Pow2;
    Pow2Mono(6, 63);
    Pow6();
    ModUnique(x, x, 0, Pow2(k));
  }

  lemma Pow6()
    ensures Pow2(6) == 64
  {
  }

  // ---- What the searches find ----

  ghost predicate IsFirstUnset(ws: seq<Word>, n: nat, r: int)
    requires n <= 64 * |ws|
  {
    if r == -1 then forall i :: 0 <= i < n ==> Has(ws, i)
    else 0 <= r < n && !Has(ws, r) && forall i :: 0 <= i < r ==> Has(ws, i)
  }

  ghost predicate IsFirstSet(ws: seq<Word>, lo: nat, n: nat, r: int)
    requires n <= 64 * |ws|
  {
    if r == -1 then forall i :: lo <= i < n ==> !Has(ws, i)
    else lo <= r < n && Has(ws, r) && forall i :: lo <= i < r ==> !Has(ws, i)
  }

  predicate FreePair(ws: seq<Word>, p: nat)
    requires p + 1 < 64 * |ws|
  {
    !Has(ws, p) && !Has(ws, p + 1)
  }

  ghost predicate NoFreePair(ws: seq<Word>, hi: nat)
    requires hi <= 64 * |ws|
  {
    forall p :: 0 <= p < hi - 1 && p % 2 == 0 ==> !FreePair(ws, p)
  }

  ghost predicate IsFirstFreePair(ws: seq<Word>, n: nat, r: int)
    requires n <= 64 * |ws|
  {
    if r == -1 then NoFreePair(ws, n)
    else 0 <= r < n - 1 && r % 2 == 0 && FreePair(ws, r) && NoFreePair(ws, r)
  }

  /** In the cyclic order n - 1, 0, 1, ... */
  ghost predicate IsFirstUnsetRr(ws: seq<Word>, n: nat, r: int)
    requires n <= 64 * |ws|
  {
    if r == -1 then forall i :: 0 <= i < n ==> Has(ws, i)
    else 0 <= r < n && !Has(ws, r) && (r < n - 1 ==> Has(ws, n - 1) && forall i :: 0 <= i < r ==> Has(ws, i))
  }

  lemma NoPairYet(ws: seq<Word>)
    ensures NoFreePair(ws, 0)
  {
  }

  lemma FirstPairFree(ws: seq<Word>, p: nat)
    requires p + 1 < 64 * |ws| && !Has(ws, p) && !Has(ws, p + 1)
    ensures FreePair(ws, p)
  {
  }

  lemma PairTaken(ws: seq<Word>, p: nat)
    requires p + 1 < 64 * |ws| && p % 2 == 0 && NoFreePair(ws, p) && !FreePair(ws, p)
    ensures NoFreePair(ws, p + 2)
  {
    hide FreePair;
  }

  lemma PairsTaken(ws: seq<Word>, lo: nat, hi: nat)
    requires lo <= hi <= 64 * |ws| && lo % 2 == 0 && NoFreePair(ws, lo)
    requires forall i :: lo <= i < hi ==> Has(ws, i)
    ensures NoFreePair(ws, hi)
  {
    hide Has;
  }

  lemma PairBits(ws: seq<Word>, w: nat, b: nat)
    requires w < |ws| && b < 64 && b % 2 == 0
    ensures And(Right(ws[w], b), 3) == 0 <==> FreePair(ws, 64 * w + b)
  {
    hide Bit, Right, And;
    TwoBits(ws[w], b);
  }

  /** One look at the pair p. */
  lemma PairFound(ws: seq<Word>, n: nat, p: nat)
    requires n % 2 == 0 && p % 2 == 0 && n <= 64 * |ws| && p < 64 * |ws| && NoFreePair(ws, p)
    ensures p >= n ==> IsFirstFreePair(ws, n, -1)
    ensures p < n && FreePair(ws, p) ==> IsFirstFreePair(ws, n, p)
  {
    hide NoFreePair, FreePair;
    if p >= n {
      FewerPairs(ws, n, p);
    }
  }

  /** One look at a pair of a word. */
  lemma PairInWord(ws: seq<Word>, n: nat, w: nat, b: nat)
    requires w < |ws| && b < 64 && b % 2 == 0 && n % 2 == 0 && n <= 64 * |ws|
    requires NoFreePair(ws, 64 * w + b)
    ensures 64 * w + b >= n ==> IsFirstFreePair(ws, n, -1)
    ensures 64 * w + b < n && And(Right(ws[w], b), 3) == 0 ==> IsFirstFreePair(ws, n, 64 * w + b)
    ensures And(Right(ws[w], b), 3) != 0 ==> b + 2 <= 64 && NoFreePair(ws, 64 * w + (b + 2))
  {
    hide Bit, Right, And, NoFreePair, FreePair, IsFirstFreePair;
    var p := 64 * w + b;
    PairBits(ws, w, b);
    PairFound(ws, n, p);
    if !FreePair(ws, p) {
      PairTaken(ws, p);
    }
  }

  lemma FewerPairs(ws: seq<Word>, lo: nat, hi: nat)
    requires lo <= hi <= 64 * |ws| && NoFreePair(ws, hi)
    ensures NoFreePair(ws, lo)
  {
    hide FreePair;
  }

  /** No pair of a word is free below its first zero, rounded down to a pair. */
  lemma FirstEven(ws: seq<Word>, w: nat)
    requires w < |ws| && ws[w] != ALL_ONES && NoFreePair(ws, 64 * w)
    ensures ws[w] < Pow2(64) && Not(ws[w], 64) > 0
    ensures var idx := And(FirstSet(Not(ws[w], 64)), ALL_ONES - 1);
            idx % 2 == 0 && idx < 64 && NoFreePair(ws, 64 * w + idx)
  {
    hide Bit, Not, Has, FirstSet, And, NoFreePair, Pow2;
    Pow2Of64();
    UnsetWord(ws, w);
    var k := FirstSet(Not(ws[w], 64));
    Even(k);
    PairsTaken(ws, 64 * w, 64 * w + (k - k % 2));
  }

  /** What asking for the first set bit and then for the next one, until there is none, yields. */
  ghost predicate Enumerated(ws: seq<Word>, lo: nat, n: nat, s: seq<nat>)
    requires n <= 64 * |ws|
    decreases s
  {
    if s == [] then IsFirstSet(ws, lo, n, -1)
    else IsFirstSet(ws, lo, n, s[0]) && Enumerated(ws, s[0] + 1, n, s[1..])
  }

  /** There always is such a sequence: the calls come to an end. */
  lemma {:induction false} EnumerationEnds(ws: seq<Word>, lo: nat, n: nat) returns (s: seq<nat>)
    requires n <= 64 * |ws|
    ensures Enumerated(ws, lo, n, s)
    decreases n - lo
  {
    hide Has;
    var i := lo;
    while i < n && !Has(ws, i)
      invariant lo <= i
      invariant forall j :: lo <= j < i && j < n ==> !Has(ws, j)
    {
      i := i + 1;
    }
    s := [];
    if i < n {
      var rest := EnumerationEnds(ws, i + 1, n);
      s := [i] + rest;
    }
  }

  /** It is every set bit, once, in ascending order. */
  lemma {:induction false} EnumeratesTheSet(ws: seq<Word>, lo: nat, n: nat, s: seq<nat>)
    requires n <= 64 * |ws| && Enumerated(ws, lo, n, s)
    ensures forall i: nat :: i in s <==> lo <= i < n && Has(ws, i)
    ensures forall i, j :: 0 <= i < j < |s| ==> s[i] < s[j]
    decreases s
  {
    hide Has;
    if s != [] {
      EnumeratesTheSet(ws, s[0] + 1, n, s[1..]);
      assert s == [s[0]] + s[1..];
      forall j | 0 < j < |s| ensures s[0] < s[j] {
        assert s[1..][j - 1] in s[1..];
      }
    }
  }

  // ---- The vector as a number ----

  function Number(ws: seq<Word>): nat {
    if ws == [] then 0 else ws[0] + 0x1_0000_0000_0000_0000 * Number(ws[1..])
  }

  lemma {:induction false} NumberBound(ws: seq<Word>)
    ensures Number(ws) < Pow2(64 * |ws|)
  {
    if ws == [] {
      Pow2Zero();
    } else {
      hide Pow2;
      NumberBound(ws[1..]);
      Pow2Of64();
      Pow2Add(64, 64 * (|ws| - 1));
    }
  }

  lemma LeftAdds(a: nat, b: nat, k: nat)
    ensures Left(a + 0x1_0000_0000_0000_0000 * b, k) == Left(a, k) + 0x1_0000_0000_0000_0000 * Left(b, k)
  {
    hide Pow2;
    Distribute(a, 0x1_0000_0000_0000_0000 * b, Pow2(k));
  }

  lemma LeftMore(a: nat, k: nat)
    ensures Left(a, k + 64) == 0x1_0000_0000_0000_0000 * Left(a, k)
  {
    hide Pow2;
    Pow2Of64();
    Pow2Add(64, k);
    Reorder(a, 0x1_0000_0000_0000_0000, Pow2(k));
  }

  lemma Reorder(a: int, r: int, p: int)
    ensures a * (r * p) == r * (a * p)
  {
  }

  /** A shifted word: what wraps into the next one, and what stays, whose low bits are clear. */
  lemma ShiftParts(x: Word, k: nat)
    requires 0 < k < 64
    ensures var q, s := Right(x, 64 - k), Low(x, 64 - k);
            && q < Pow2(k)
            && Low(Left(x, k), 64) == Left(s, k) <= ALL_ONES
            && Left(x, k) == 0x1_0000_0000_0000_0000 * q + Left(s, k)
  {
    hide Pow2;
    var p, t := Pow2(64 - k), Pow2(k);
    var q, s := x / p, x % p;
    Pow2Of64();
    Pow2Add(64 - k, k);
    Parts(x, p, t, q, s);
    ModUnique(s * t, x * t, q, 0x1_0000_0000_0000_0000);
  }

  lemma Parts(x: Word, p: int, t: int, q: int, s: int)
    requires p > 0 && t > 0 && p * t == 0x1_0000_0000_0000_0000 && q == x / p && s == x % p
    ensures 0 <= q < t && 0 <= s * t < 0x1_0000_0000_0000_0000
    ensures x * t == 0x1_0000_0000_0000_0000 * q + s * t
  {
    DivBelow(x, t, p);
    Expand(x, p, t, q, s);
    Remains(s, p, t);
  }

  lemma Expand(x: int, p: int, t: int, q: int, s: int)
    requires p > 0 && q == x / p && s == x % p
    ensures x * t == (p * t) * q + s * t
  {
    assert x == p * q + s;
    Distribute(p * q, s, t);
    Reorder(q, p, t);
  }

  lemma Remains(s: int, p: int, t: int)
    requires 0 <= s < p && t > 0
    ensures 0 <= s * t < p * t
  {
    MulMono(0, s, t);
    MulMono(s + 1, p, t);
    Distribute(s, 1, t);
  }

  /** The words from some index up, shifted: out is what left at the top. */
  ghost predicate Shifted(was: seq<Word>, now: seq<Word>, k: nat, out: nat) {
    && |now| == |was| > 0
    && Left(Number(was), k) == Number(now) + Left(out, 64 * |now|)
    && exists s :: now[0] == Left(s, k)
  }

  lemma ShiftTop(x: Word, k: nat)
    requires 0 < k < 64
    ensures Low(Left(x, k), 64) <= ALL_ONES
    ensures Shifted([x], [Low(Left(x, k), 64)], k, Right(x, 64 - k))
  {
    hide Left, Right, Low;
    ShiftParts(x, k);
    LeftMore(Right(x, 64 - k), 0);
    LeftNone(Right(x, 64 - k));
    NumberOne(x);
    NumberOne(Low(Left(x, k), 64));
  }

  lemma NumberOne(x: Word)
    ensures Number([x]) == x
  {
    assert [x][1..] == [];
  }

  lemma NumberMore(x: Word, ws: seq<Word>)
    ensures Number([x] + ws) == x + 0x1_0000_0000_0000_0000 * Number(ws)
  {
    assert ([x] + ws)[1..] == ws;
  }

  /** One turn of the loop: the bits that wrap go into the clear bits of the word above. */
  lemma ShiftWord(x: Word, was: seq<Word>, now: seq<Word>, k: nat, out: nat)
    requires 0 < k < 64 && Shifted(was, now, k, out)
    ensures var wrap, low := Right(x, 64 - k), Low(Left(x, k), 64);
            && Or(now[0], wrap) <= ALL_ONES && low <= ALL_ONES
            && Shifted([x] + was, [low] + now[0 := Or(now[0], wrap)], k, out)
  {
    hide Left, Right, Low, Pow2, Or;
    var wrap, low := Right(x, 64 - k), Low(Left(x, k), 64);
    ShiftParts(x, k);
    var s :| now[0] == Left(s, k);
    Joined(now[0], s, wrap, k);
    var up := now[0 := Or(now[0], wrap)];
    assert up[1..] == now[1..];
    NumberMore(x, was);
    NumberMore(low, up);
    LeftAdds(x, Number(was), k);
    LeftMore(out, 64 * |now|);
  }

  lemma Joined(x: Word, s: nat, wrap: nat, k: nat)
    requires k < 64 && x == Left(s, k) && wrap < Pow2(k)
    ensures Or(x, wrap) == x + wrap <= ALL_ONES
  {
    hide Pow2, Or;
    OrApart(s, wrap, k);
    Pow2Of64();
    Pow2Mono(k, 64);
    OrBound(x, wrap, 64);
  }

  class BitVec {
    const nBits: nat
    const arr: array<Word>

    ghost predicate Valid()
      reads arr
    {
      && arr.Length == (nBits + 64 - 1) / 64
      && forall i :: nBits <= i < 64 * arr.Length ==> !Has(arr[..], i)
    }

    constructor (nBits: nat)
      ensures this.nBits == nBits && fresh(arr) && Valid()
      ensures forall i :: 0 <= i < 64 * arr.Length ==> !Has(arr[..], i)
    {
      this.nBits := nBits;
      arr := new Word[(nBits + 64 - 1) / 64](_ => 0);
      new;
      forall i | 0 <= i < 64 * arr.Length ensures !Has(arr[..], i) {
        NoBits(i % 64);
      }
    }

    method Clear()
      modifies arr
      ensures forall i :: 0 <= i < 64 * arr.Length ==> !Has(arr[..], i)
    {
      for w := 0 to arr.Length
        invariant forall k :: 0 <= k < w ==> arr[k] == 0
      {
        arr[w] := 0;
      }
      forall i | 0 <= i < 64 * arr.Length ensures !Has(arr[..], i) {
        NoBits(i % 64);
      }
    }

    /** Outside the vector the simulator dies. */
    method SetBit(idx: nat) returns (died: bool)
      requires Valid()
      modifies arr
      ensures died <==> idx >= nBits
      ensures died ==> arr[..] == old(arr[..])
      ensures Valid()
      ensures !died ==> forall i :: 0 <= i < 64 * arr.Length ==> (Has(arr[..], i) <==> i == idx || old(Has(arr[..], i)))
    {
      if idx >= nBits {
        return true;
      }
      hide Bit, Or, And, Not, Has, Pow2;
      died := false;
      var w, b := idx / 64, idx % 64;
      ghost var x := SetWord(arr[w], b);
      OneBit(arr[..], idx, x, true);
      arr[w] := Or(arr[w], Pow2(b));
      assert arr[..] == old(arr[..])[idx / 64 := x];
      forall i | nBits <= i < 64 * arr.Length ensures !Has(arr[..], i) {
        assert !old(Has(arr[..], i));
      }
      assert arr.Length == (nBits + 64 - 1) / 64;
    }

    method ClearBit(idx: nat) returns (died: bool)
      requires Valid()
      modifies arr
      ensures died <==> idx >= nBits
      ensures died ==> arr[..] == old(arr[..])
      ensures Valid()
      ensures !died ==> forall i :: 0 <= i < 64 * arr.Length ==> (Has(arr[..], i) <==> i != idx && old(Has(arr[..], i)))
    {
      if idx >= nBits {
        return true;
      }
      hide Bit, Or, And, Not, Has, Pow2;
      died := false;
      var w, b := idx / 64, idx % 64;
      ghost var x := ClearWord(arr[w], b);
      OneBit(arr[..], idx, x, false);
      arr[w] := And(arr[w], Not(Pow2(b), 64));
      assert arr[..] == old(arr[..])[idx / 64 := x];
      forall i | nBits <= i < 64 * arr.Length ensures !Has(arr[..], i) {
        assert !old(Has(arr[..], i));
      }
      assert arr.Length == (nBits + 64 - 1) / 64;
    }

    method FindFirstUnset() returns (r: int)
      requires Valid()
      ensures IsFirstUnset(arr[..], nBits, r)
    {
      hide Bit, Not, Has, FirstSet;
      for w := 0 to arr.Length
        invariant forall i :: 0 <= i < 64 * w && i < nBits ==> Has(arr[..], i)
      {
        if arr[w] == ALL_ONES {
          OnesWord(arr[..], w);
        } else if arr[w] == 0 {
          ZeroWord(arr[..], w);
          return 64 * w;
        } else {
          Pow2Of64();
          UnsetWord(arr[..], w);
          var x := Not(arr[w], 64);
          var idx := 64 * w + FirstSet(x);
          if idx < nBits {
            return idx;
          }
        }
      }
      r := -1;
    }

    /** The inner loop of the search for a pair: found (-1 past the end), or nothing in this word. */
    method ScanPairs(w: nat, idx: nat) returns (found: bool, r: int)
      requires Valid() && nBits % 2 == 0
      requires w < arr.Length && idx % 2 == 0 && idx < 64 && NoFreePair(arr[..], 64 * w + idx)
      ensures if found then IsFirstFreePair(arr[..], nBits, r) else NoFreePair(arr[..], 64 * (w + 1))
    {
      hide Bit, Has, And, Right, NoFreePair, IsFirstFreePair;
      var b := idx;
      while b < 64
        invariant b <= 64 && b % 2 == 0
        invariant NoFreePair(arr[..], 64 * w + b)
      {
        PairInWord(arr[..], nBits, w, b);
        var p := 64 * w + b;
        if p >= nBits {
          return true, -1;
        }
        if And(Right(arr[w], b), 3) == 0 {
          return true, p;
        }
        b := b + 2;
      }
      found, r := false, -1;
    }

    method FindFirstUnsetPair() returns (r: int)
      requires Valid() && nBits % 2 == 0
      ensures IsFirstFreePair(arr[..], nBits, r)
    {
      hide Bit, Not, Has, FirstSet, And, FreePair, NoFreePair;
      NoPairYet(arr[..]);
      for w := 0 to arr.Length
        invariant NoFreePair(arr[..], 64 * w)
      {
        if arr[w] == ALL_ONES {
          OnesWord(arr[..], w);
          PairsTaken(arr[..], 64 * w, 64 * (w + 1));
        } else if arr[w] == 0 {
          ZeroWord(arr[..], w);
          FirstPairFree(arr[..], 64 * w);
          return 64 * w;
        } else {
          FirstEven(arr[..], w);
          var idx := FirstSet(Not(arr[w], 64));
          idx := And(idx, ALL_ONES - 1);
          var found;
          found, r := ScanPairs(w, idx);
          if found {
            return;
          }
        }
      }
      FewerPairs(arr[..], nBits, 64 * arr.Length);
      r := -1;
    }

    method FindFirstUnsetRr() returns (r: int)
      requires Valid()
      ensures IsFirstUnsetRr(arr[..], nBits, r)
    {
      hide Bit, Has, Mod;
      var i, b := 0, nBits - 1;
      while i < nBits
        invariant 0 <= i <= nBits
        invariant b == if i == 0 then nBits - 1 else i - 1
        invariant i > 0 ==> Has(arr[..], nBits - 1) && forall k :: 0 <= k < i - 1 ==> Has(arr[..], k)
      {
        if !GetBit(b) {
          return b;
        }
        ModNext(b, nBits);
        b := Mod(b + 1, nBits);
        i := i + 1;
      }
      r := -1;
    }

    predicate GetBit(idx: nat)
      requires idx < 64 * arr.Length
      reads arr
    {
      Has(arr[..], idx)
    }

    method FindFirstSet() returns (r: int)
      requires Valid()
      ensures IsFirstSet(arr[..], 0, nBits, r)
    {
      hide Bit, Has, FirstSet;
      for w := 0 to arr.Length
        invariant forall i :: 0 <= i < 64 * w ==> !Has(arr[..], i)
      {
        if arr[w] == 0 {
          ZeroWord(arr[..], w);
        } else {
          FirstOfWord(arr[..], w);
          var idx := 64 * w + FirstSet(arr[w]);
          return if idx < nBits then idx else -1;
        }
      }
      r := -1;
    }

    /** The next bit after idx; idx + 1 has to be inside the array. */
    method FindNextSet(idx: int) returns (r: int)
      requires Valid()
      requires -1 <= idx && idx + 1 < 64 * arr.Length
      ensures IsFirstSet(arr[..], idx + 1, nBits, r)
    {
      hide Bit, Has, FirstSet, Left, Right;
      var i := idx + 1;
      var wIdx, bIdx := i / 64, i % 64;
      SetWordFrom(arr[..], wIdx, bIdx);
      var ww := Left(Right(arr[wIdx], bIdx), bIdx);
      if ww != 0 {
        return wIdx * 64 + FirstSet(ww);
      }
      for w := wIdx + 1 to arr.Length
        invariant forall k :: i <= k < 64 * w ==> !Has(arr[..], k)
      {
        if arr[w] == 0 {
          ZeroWord(arr[..], w);
        } else {
          FirstOfWord(arr[..], w);
          var next := 64 * w + FirstSet(arr[w]);
          if next < nBits {
            return next;
          }
          break;
        }
      }
      r := -1;
    }

    /** Multiplies the number in the words by 2^amt, from the top word down. */
    method ShiftLeft(amt: nat)
      requires arr.Length > 0 && 0 < amt < 64
      modifies arr
      ensures Number(arr[..]) == Left(Number(old(arr[..])), amt) % Pow2(64 * arr.Length)
    {
      hide Or, Pow2, Number, Left, Right, Low, Shifted;
      var n := arr.Length;
      ghost var was := arr[..];
      ghost var out := Right(was[n - 1], 64 - amt);
      ShiftTop(arr[n - 1], amt);
      arr[n - 1] := Low(Left(arr[n - 1], amt), 64);
      assert was[n - 1..] == [was[n - 1]];
      assert arr[n - 1..] == [arr[n - 1]];
      for i := n - 1 downto 0
        invariant arr[..i] == was[..i]
        invariant Shifted(was[i..], arr[i..], amt, out)
      {
        ghost var now := arr[i + 1..];
        assert arr[i] == was[i];
        ShiftWord(was[i], was[i + 1..], now, amt, out);
        var wrap := Right(arr[i], 64 - amt);
        arr[i + 1] := Or(arr[i + 1], wrap);
        arr[i] := Low(Left(arr[i], amt), 64);
        assert [was[i]] + was[i + 1..] == was[i..];
        assert arr[i..] == [arr[i]] + now[0 := arr[i + 1]];
      }
      assert arr[0..] == arr[..] && was[0..] == was;
      ShiftedAll(was, arr[..], amt, out);
    }
  }

  lemma ShiftedAll(was: seq<Word>, now: seq<Word>, k: nat, out: nat)
    requires Shifted(was, now, k, out)
    ensures Number(now) == Left(Number(was), k) % Pow2(64 * |now|)
  {
    hide Number, Pow2;
    NumberBound(now);
    ModUnique(Number(now), Left(Number(was), k), out, Pow2(64 * |now|));
  }
}
