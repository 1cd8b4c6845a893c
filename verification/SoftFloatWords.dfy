/** Unsigned multiword integers held in arrays of 32-bit words, least significant word first:
    the word-at-a-time primitives of SoftFloat on which the 80-bit operations are built. */
module SoftFloatWords {
  import opened Arith

  const BASE: int := 0x1_0000_0000

  type Word = x: int | 0 <= x < 0x1_0000_0000

  function Pow(n: nat): (p: int)
    ensures p > 0
  {
    if n == 0 then 1 else BASE * Pow(n - 1)
  }

  /** The number a sequence of words denotes. */
  function Val(s: seq<Word>): (v: int)
    ensures v >= 0
  {
    if s == [] then 0 else s[0] + BASE * Val(s[1..])
  }

  /** What n words keep of an integer. */
  function Wrap(v: int, n: nat): int {
    v % Pow(n)
  }

  lemma {:induction false} ValSnoc(s: seq<Word>, x: Word)
    ensures Val(s + [x]) == Val(s) + x * Pow(|s|)
  {
    if s == [] {
    } else {
      assert (s + [x])[1..] == s[1..] + [x];
      ValSnoc(s[1..], x);
    }
  }

  lemma {:induction false} ValBound(s: seq<Word>)
    ensures 0 <= Val(s) < Pow(|s|)
  {
    if s == [] {
    } else {
      ValBound(s[1..]);
    }
  }

  lemma ValPrefix(s: seq<Word>, i: nat)
    requires i < |s|
    ensures Val(s[..i + 1]) == Val(s[..i]) + s[i] * Pow(i)
  {
    assert s[..i + 1] == s[..i] + [s[i]];
    ValSnoc(s[..i], s[i]);
  }

  /** Storing w in column i carries the invariant of a carry chain from i to i + 1: `low` is what the
      columns below i add up to, x is what column i adds, c and c' are the carries in and out. */
  lemma StoreColumn(z: seq<Word>, i: nat, low: int, c: int, x: int, w: Word, c': int)
    requires i < |z|
    requires low == Val(z[..i]) + c * Pow(i)
    requires x + c == w + c' * BASE
    ensures low + x * Pow(i) == Val(z[i := w][..i + 1]) + c' * Pow(i + 1)
  {
    ValPrefix(z[i := w], i);
    assert z[i := w][..i] == z[..i];
    var p := Pow(i);
    assert (x + c) * p == (w + c' * BASE) * p;
  }

  /** The chain has run through every column: what is stored is the exact value mod the word size. */
  lemma ChainDone(z: seq<Word>, v: int, c: int)
    requires v == Val(z[..|z|]) + c * Pow(|z|)
    ensures Val(z) == Wrap(v, |z|)
  {
    assert z[..|z|] == z;
    ValBound(z);
    ModUnique(Val(z), v, c, Pow(|z|));
  }

  /** The columns below i of a and b, summed, are what z holds there and the carry out. */
  ghost predicate AddChain(a: seq<Word>, b: seq<Word>, z: seq<Word>, i: nat, carry: int) {
    && |a| == |b| == |z| && i <= |z|
    && Val(a[..i]) + Val(b[..i]) == Val(z[..i]) + carry * Pow(i)
  }

  lemma AddStart(a: seq<Word>, b: seq<Word>, z: seq<Word>)
    requires |a| == |b| == |z|
    ensures AddChain(a, b, z, 0, 0)
  {
  }

  lemma AddDone(a: seq<Word>, b: seq<Word>, z: seq<Word>, c: int)
    requires AddChain(a, b, z, |z|, c)
    ensures Val(z) == Wrap(Val(a) + Val(b), |z|)
  {
    hide Wrap, Val, Pow;
    assert a[..|z|] == a && b[..|z|] == b;
    ChainDone(z, Val(a) + Val(b), c);
  }

  lemma AddStep(a: seq<Word>, b: seq<Word>, z: seq<Word>, i: nat, carry: int, w: Word, c': int)
    requires i < |z| && AddChain(a, b, z, i, carry)
    requires a[i] as int + b[i] as int + carry == w + c' * BASE
    ensures AddChain(a, b, z[i := w], i + 1, c')
  {
    var x: int, y: int := a[i], b[i];
    ValPrefix(a, i);
    ValPrefix(b, i);
    StoreColumn(z, i, Val(a[..i]) + Val(b[..i]), carry, x + y, w, c');
    Distribute(x, y, Pow(i));
  }

  /** softfloat_addM: z may be a or b. */
  method AddM(a: array<Word>, b: array<Word>, z: array<Word>)
    requires a.Length == b.Length == z.Length >= 1
    modifies z
    ensures Val(z[..]) == Wrap(old(Val(a[..])) + old(Val(b[..])), z.Length)
  {
    hide Pow, Val, Wrap, AddChain;
    ghost var A, B := a[..], b[..];
    AddStart(A, B, z[..]);
    var index, lastIndex := 0, z.Length - 1;
    var carry := 0;
    while true
      invariant 0 <= index <= lastIndex
      invariant 0 <= carry <= 1
      invariant forall k :: index <= k < z.Length ==> a[k] == A[k] && b[k] == B[k]
      invariant AddChain(A, B, z[..], index, carry)
      decreases lastIndex - index
    {
      var wordA: int := a[index];
      assert wordA == A[index] && b[index] == B[index];
      var sum: int := wordA + b[index] as int + carry;
      var wordZ := sum % BASE;
      AddStep(A, B, z[..], index, carry, wordZ, sum / BASE);
      z[index] := wordZ;
      if index == lastIndex {
        AddDone(A, B, z[..], sum / BASE);
        break;
      }
      if wordZ != wordA {
        carry := if wordZ < wordA then 1 else 0;
      }
      index := index + 1;
    }
  }

  ghost predicate SubChain(a: seq<Word>, b: seq<Word>, z: seq<Word>, i: nat, borrow: int) {
    && |a| == |b| == |z| && i <= |z|
    && Val(a[..i]) - Val(b[..i]) == Val(z[..i]) + (-borrow) * Pow(i)
  }

  lemma SubStart(a: seq<Word>, b: seq<Word>, z: seq<Word>)
    requires |a| == |b| == |z|
    ensures SubChain(a, b, z, 0, 0)
  {
  }

  lemma SubDone(a: seq<Word>, b: seq<Word>, z: seq<Word>, c: int)
    requires SubChain(a, b, z, |z|, c)
    ensures Val(z) == Wrap(Val(a) - Val(b), |z|)
  {
    hide Wrap, Val, Pow;
    assert a[..|z|] == a && b[..|z|] == b;
    ChainDone(z, Val(a) - Val(b), -c);
  }

  lemma SubStep(a: seq<Word>, b: seq<Word>, z: seq<Word>, i: nat, borrow: int, w: Word, b': int)
    requires i < |z| && SubChain(a, b, z, i, borrow)
    requires a[i] as int - b[i] as int - borrow == w - b' * BASE
    ensures SubChain(a, b, z[i := w], i + 1, b')
  {
    var x: int, y: int := a[i], b[i];
    ValPrefix(a, i);
    ValPrefix(b, i);
    StoreColumn(z, i, Val(a[..i]) - Val(b[..i]), -borrow, x - y, w, -b');
    Distribute(x, y, Pow(i));
  }

  /** softfloat_subM: z may be a or b. */
  method SubM(a: array<Word>, b: array<Word>, z: array<Word>)
    requires a.Length == b.Length == z.Length >= 1
    modifies z
    ensures Val(z[..]) == Wrap(old(Val(a[..])) - old(Val(b[..])), z.Length)
  {
    hide Pow, Val, Wrap, SubChain;
    ghost var A, B := a[..], b[..];
    SubStart(A, B, z[..]);
    var index, lastIndex := 0, z.Length - 1;
    var borrow := 0;
    while true
      invariant 0 <= index <= lastIndex
      invariant 0 <= borrow <= 1
      invariant forall k :: index <= k < z.Length ==> a[k] == A[k] && b[k] == B[k]
      invariant SubChain(A, B, z[..], index, borrow)
      decreases lastIndex - index
    {
      var wordA: int, wordB: int := a[index], b[index];
      assert wordA == A[index] && wordB == B[index];
      var wordZ := (wordA - wordB - borrow) % BASE;
      ghost var b' := if wordA < wordB + borrow then 1 else 0;
      SubStep(A, B, z[..], index, borrow, wordZ, b');
      z[index] := wordZ;
      if index == lastIndex {
        SubDone(A, B, z[..], b');
        break;
      }
      borrow := if (if borrow != 0 then wordA <= wordB else wordA < wordB) then 1 else 0;
      index := index + 1;
    }
  }

  ghost predicate NegChain(a: seq<Word>, z: seq<Word>, i: nat, carry: int) {
    && |a| == |z| && i <= |z|
    && -Val(a[..i]) == Val(z[..i]) + (carry - 1) * Pow(i)
  }

  lemma NegStep(a: seq<Word>, z: seq<Word>, i: nat, carry: int, w: Word, c': int)
    requires i < |z| && NegChain(a, z, i, carry)
    requires BASE - 1 - a[i] as int + carry == w + c' * BASE
    ensures NegChain(a, z[i := w], i + 1, c')
  {
    var x: int := a[i];
    ValPrefix(a, i);
    StoreColumn(z, i, -Val(a[..i]), carry - 1, -x, w, c' - 1);
    Distribute(0, x, Pow(i));
  }

  /** softfloat_negXM: two's complement negation in place. */
  method NegXM(z: array<Word>)
    requires z.Length >= 1
    modifies z
    ensures Val(z[..]) == Wrap(-old(Val(z[..])), z.Length)
  {
    ghost var Z := z[..];
    var index, lastIndex := 0, z.Length - 1;
    var carry := 1;
    while true
      invariant 0 <= index <= lastIndex
      invariant 0 <= carry <= 1
      invariant forall k :: index <= k < z.Length ==> z[k] == Z[k]
      invariant NegChain(Z, z[..], index, carry)
      decreases lastIndex - index
    {
      assert z[index] == Z[index];
      var word := (BASE - 1 - z[index] as int + carry) % BASE;
      ghost var c' := if word == 0 then carry else 0;
      NegStep(Z, z[..], index, carry, word, c');
      z[index] := word;
      if index == lastIndex {
        assert Z[..z.Length] == Z;
        ChainDone(z[..], -Val(Z), c' - 1);
        break;
      }
      index := index + 1;
      if word != 0 {
        carry := 0;
      }
    }
  }

  lemma {:induction false} CompareAt(a: seq<Word>, b: seq<Word>, i: nat)
    requires |a| == |b| && i < |a|
    requires a[i] < b[i] && a[i + 1..] == b[i + 1..]
    ensures Val(a) < Val(b)
  {
    if i == 0 {
    } else {
      assert a[1..][i..] == a[i + 1..] && b[1..][i..] == b[i + 1..];
      CompareAt(a[1..], b[1..], i - 1);
    }
  }

  /** softfloat_compare96M: from the top word down. */
  method Compare96M(a: array<Word>, b: array<Word>) returns (r: int)
    requires a.Length == b.Length == 3
    ensures r == if Val(a[..]) < Val(b[..]) then -1 else if Val(a[..]) == Val(b[..]) then 0 else 1
  {
    var index, lastIndex := 2, 0;
    while true
      invariant 0 <= index <= 2
      invariant a[index + 1..] == b[index + 1..]
      decreases index
    {
      var wordA: int, wordB: int := a[index], b[index];
      if wordA != wordB {
        if wordA < wordB {
          CompareAt(a[..], b[..], index);
        } else {
          CompareAt(b[..], a[..], index);
        }
        return if wordA < wordB then -1 else 1;
      }
      if index == lastIndex {
        break;
      }
      index := index - 1;
    }
    assert a[..] == b[..];
    return 0;
  }

  lemma MulDistrib3(u: int, hi: int, lo: int, d: int)
    ensures (u * hi + lo) * d == (d * u) * hi + lo * d
  {
    assert (u * hi) * d == (d * u) * hi;
  }

  lemma SplitAt(w: int, d: int, u: int)
    requires d > 0 && u > 0 && d * u == BASE && 0 <= w < BASE
    ensures 0 <= w / u < d
    ensures w * d == (w * d) % BASE + (w / u) * BASE
    ensures 0 <= (w * d) % BASE <= BASE - d
  {
    DivBelow(w, d, u);
    var hi, lo := w / u, w % u;
    MulDistrib3(u, hi, lo, d);
    MulMono(lo, u - 1, d);
    MulMono(0, lo, d);
    Distribute(u, 1, d);
    ModUnique(lo * d, w * d, hi, BASE);
  }

  /** `w << dist` within the word, and the bits it loses at the top, `w >> (-dist & 31)`. */
  function ShiftUp(w: Word, dist: nat): int {
    (w * Pow2(dist)) % BASE
  }

  function ShiftOut(w: Word, dist: nat): int
    requires dist <= 32
  {
    w / Pow2(32 - dist)
  }

  /** A word shifted left by dist: its top dist bits leave, and below what stays there is room for
      the dist bits that enter. */
  lemma SplitWord(w: Word, dist: nat)
    requires 1 <= dist <= 31
    ensures 0 <= ShiftOut(w, dist) < Pow2(dist)
    ensures w * Pow2(dist) == ShiftUp(w, dist) + ShiftOut(w, dist) * BASE
    ensures 0 <= ShiftUp(w, dist) <= BASE - Pow2(dist)
  {
    Pow2Add(dist, 32 - dist);
    Pow2Of32();
    SplitAt(w, Pow2(dist), Pow2(32 - dist));
  }

  /** One step of long division. */
  ghost function StepValue(rem: int, dist: nat, b: int, q: int): int {
    rem * Pow2(dist) - b * q
  }

  /** The columns below i of rem * 2^dist - b * q are what z holds there, plus the bits shifted out of
      `wordRem`, less the high half of the last product and the borrow. */
  ghost predicate RemChain(rem: seq<Word>, b: seq<Word>, z: seq<Word>, i: nat,
                           d: int, q: int, over: int, hi: int, borrow: int)
  {
    && |rem| == |b| == |z| && i <= |z|
    && Val(rem[..i]) * d - Val(b[..i]) * q == Val(z[..i]) + (over - hi - borrow) * Pow(i)
  }

  lemma RemRegroup(v: int, r: int, w: int, y: int, d: int, q: int, p: int)
    ensures (v + r * p) * d - (w + y * p) * q == (v * d - w * q) + (r * d - y * q) * p
  {
    assert (r * p) * d == (r * d) * p;
    assert (y * p) * q == (y * q) * p;
  }

  lemma RemStep(rem: seq<Word>, b: seq<Word>, z: seq<Word>, i: nat, d: int, q: int,
                over: int, hi: int, borrow: int, w: Word, over': int, hi': int, borrow': int)
    requires i < |z| && RemChain(rem, b, z, i, d, q, over, hi, borrow)
    requires rem[i] * d - b[i] * q + (over - hi - borrow) == w + (over' - hi' - borrow') * BASE
    ensures RemChain(rem, b, z[i := w], i + 1, d, q, over', hi', borrow')
  {
    ValPrefix(rem, i);
    ValPrefix(b, i);
    RemRegroup(Val(rem[..i]), rem[i], Val(b[..i]), b[i], d, q, Pow(i));
    StoreColumn(z, i, Val(rem[..i]) * d - Val(b[..i]) * q, over - hi - borrow, rem[i] * d - b[i] * q, w,
                over' - hi' - borrow');
  }

  lemma ProdHigh(y: int, q: int, hi: int, m: int)
    requires 0 <= y < m && 0 <= q < m && 0 <= hi < m
    ensures 0 <= (y * q + hi) / m < m
  {
    MulMono(y, m - 1, q);
    MulMono(q, m - 1, m - 1);
    MulMono(0, y, q);
    DivBelow(y * q + hi, m, m);
  }

  lemma RemArith(rd: int, bq: int, over: int, hi: int, borrow: int, up: int, out: int)
    requires rd == up + out * BASE
    requires 0 <= over + up < BASE && 0 <= borrow <= 1
    ensures var t := over + up - (bq + hi) % BASE - borrow;
            rd - bq + (over - hi - borrow)
            == t % BASE + (out - (bq + hi) / BASE - (if t < 0 then 1 else 0)) * BASE
  {
  }

  /** The word that one column of the digit step stores, and the chain it extends. */
  lemma RemColumn(rem: seq<Word>, b: seq<Word>, z: seq<Word>, i: nat, dist: nat, q: Word,
                  over: int, hi: int, borrow: int)
    requires i < |z| && 1 <= dist <= 31
    requires RemChain(rem, b, z, i, Pow2(dist), q, over, hi, borrow)
    requires 0 <= over < Pow2(dist) && 0 <= hi < BASE && 0 <= borrow <= 1
    ensures var s: int := over + ShiftUp(rem[i], dist);
            var prod: int := b[i] * q + hi;
            var t := s - prod % BASE - borrow;
            && 0 <= ShiftOut(rem[i], dist) < Pow2(dist)
            && 0 <= s < BASE
            && 0 <= prod / BASE < BASE
            && RemChain(rem, b, z[i := t % BASE], i + 1, Pow2(dist), q,
                        ShiftOut(rem[i], dist), prod / BASE, if t < 0 then 1 else 0)
  {
    assert |rem| == |b| == |z|;
    hide ShiftUp, ShiftOut, Pow2, Pow, Val, RemChain;
    SplitWord(rem[i], dist);
    ProdHigh(b[i], q, hi, BASE);
    var s: int := over + ShiftUp(rem[i], dist);
    var prod: int := b[i] * q + hi;
    var t := s - prod % BASE - borrow;
    RemArith(rem[i] * Pow2(dist), b[i] * q, over, hi, borrow, ShiftUp(rem[i], dist), ShiftOut(rem[i], dist));
    RemStep(rem, b, z, i, Pow2(dist), q, over, hi, borrow, t % BASE,
            ShiftOut(rem[i], dist), prod / BASE, if t < 0 then 1 else 0);
  }

  lemma RemStart(rem: seq<Word>, b: seq<Word>, z: seq<Word>, d: int, q: int)
    requires |rem| == |b| == |z|
    ensures RemChain(rem, b, z, 0, d, q, 0, 0, 0)
  {
  }

  lemma RemDone(rem: seq<Word>, b: seq<Word>, z: seq<Word>, dist: nat, q: int, over: int, hi: int, borrow: int)
    requires RemChain(rem, b, z, |z|, Pow2(dist), q, over, hi, borrow)
    ensures Val(z) == Wrap(StepValue(Val(rem), dist, Val(b), q), |z|)
  {
    hide Wrap, Val, Pow, Pow2;
    assert rem[..|z|] == rem && b[..|z|] == b;
    ChainDone(z, Val(rem) * Pow2(dist) - Val(b) * q, over - hi - borrow);
  }

  /** softfloat_remStepMBy32: one quotient digit of long division, z may be rem. */
  method RemStepMBy32(rem: array<Word>, dist: nat, b: array<Word>, q: Word, z: array<Word>)
    requires rem.Length == b.Length == z.Length >= 1
    requires b != z
    requires 1 <= dist <= 31
    modifies z
    ensures Val(z[..]) == Wrap(StepValue(old(Val(rem[..])), dist, Val(b[..]), q), z.Length)
  {
    hide Pow2, Pow, Val, Wrap, RemChain, StepValue, ShiftUp, ShiftOut;
    ghost var R, B, n, d := rem[..], b[..], z.Length, Pow2(dist);
    var index, lastIndex := 0, z.Length - 1;
    RemStart(R, B, z[..], d, q);
    RemColumn(R, B, z[..], 0, dist, q, 0, 0, 0);
    var dwordProd: int := b[index] * q;
    var wordRem: Word := rem[index];
    var wordShiftedRem: int := ShiftUp(wordRem, dist);
    var wordProd := dwordProd % BASE;
    var borrow := if wordShiftedRem < wordProd then 1 else 0;
    ghost var owed := borrow;
    z[index] := (wordShiftedRem - wordProd) % BASE;
    if index != lastIndex {
      while true
        invariant 0 <= index < lastIndex
        invariant 0 <= borrow <= 1 && owed == borrow
        invariant 0 <= ShiftOut(wordRem, dist) < d && 0 <= dwordProd / BASE < BASE
        invariant forall k :: index < k < n ==> rem[k] == R[k]
        invariant RemChain(R, B, z[..], index + 1, d, q, ShiftOut(wordRem, dist), dwordProd / BASE, borrow)
        decreases lastIndex - index
      {
        RemColumn(R, B, z[..], index + 1, dist, q, ShiftOut(wordRem, dist), dwordProd / BASE, borrow);
        wordShiftedRem := ShiftOut(wordRem, dist);
        index := index + 1;
        dwordProd := b[index] * q + dwordProd / BASE;
        wordRem := rem[index];
        wordShiftedRem := wordShiftedRem + ShiftUp(wordRem, dist);
        wordProd := dwordProd % BASE;
        z[index] := (wordShiftedRem - wordProd - borrow) % BASE;
        owed := if wordShiftedRem - wordProd - borrow < 0 then 1 else 0;
        if index == lastIndex {
          break;
        }
        borrow := if (if borrow != 0 then wordShiftedRem <= wordProd else wordShiftedRem < wordProd) then 1 else 0;
      }
    }
    RemDone(R, B, z[..], dist, q, ShiftOut(wordRem, dist), dwordProd / BASE, owed);
  }

  const BASE2: int := 0x1_0000_0000_0000_0000

  lemma Val3(s: seq<Word>)
    requires |s| == 3
    ensures Val(s) == s[0] + BASE * s[1] + BASE2 * s[2]
    ensures Pow(3) == BASE2 * BASE
  {
    var t := s[1..];
    var u := t[1..];
    assert u[1..] == [];
    assert Val(u) == u[0] && Val(t) == t[0] + BASE * Val(u);
    assert Pow(3) == BASE * (BASE * (BASE * Pow(0)));
  }

  lemma Val4(s: seq<Word>)
    requires |s| == 4
    ensures Val(s) == s[0] + BASE * s[1] + BASE2 * (s[2] + BASE * s[3])
  {
    assert s[1..][0] == s[1] && s[1..][1] == s[2] && s[1..][2] == s[3];
    Val3(s[1..]);
  }

  lemma ShiftSplit(a: int, d: int, u: int)
    requires a >= 0 && d > 0 && u > 0 && d * u == BASE
    ensures a * d == ((a % BASE) * d) % BASE + BASE * (a / u)
  {
    var hi, lo := a / u, a % u;
    MulDistrib3(u, hi, lo, d);
    MulMono(lo, u - 1, d);
    MulMono(0, lo, d);
    Distribute(u, 1, d);
    Distribute(BASE * (a / BASE), a % BASE, d);
    assert (BASE * (a / BASE)) * d == BASE * ((a / BASE) * d);
    ModUnique(lo * d, (a % BASE) * d, hi - (a / BASE) * d, BASE);
  }

  /** softfloat_shortShiftLeft64To96M. */
  method ShortShiftLeft64To96M(a: int, dist: nat, z: array<Word>)
    requires 0 <= a < BASE2 && 1 <= dist <= 31
    requires z.Length == 3
    modifies z
    ensures Val(z[..]) == a * Pow2(dist)
  {
    ghost var a0 := a;
    ghost var u := Pow2(32 - dist);
    Pow2Add(dist, 32 - dist);
    Pow2Of32();
    ShiftSplit(a, Pow2(dist), u);
    DivBelow(a, BASE2, u) by { MulMono(1, u, BASE2); }
    z[0] := ((a % BASE) * Pow2(dist)) % BASE;
    var a' := a / Pow2(32 - dist);
    z[2] := a' / BASE;
    z[1] := a' % BASE;
    Val3(z[..]);
  }

  lemma MulHalves(a1: int, a0: int, b1: int, b0: int)
    ensures (a1 * BASE + a0) * (b1 * BASE + b0) == (a1 * b1) * BASE2 + (a1 * b0 + a0 * b1) * BASE + a0 * b0
  {
    Distribute(a1 * BASE, a0, b1 * BASE + b0);
    assert (a1 * BASE) * (b1 * BASE + b0) == (a1 * b1) * BASE2 + (a1 * b0) * BASE;
    assert a0 * (b1 * BASE + b0) == (a0 * b1) * BASE + a0 * b0;
  }

  lemma HalfProduct(x: int, y: int)
    requires 0 <= x < BASE && 0 <= y < BASE
    ensures 0 <= x * y <= (BASE - 1) * (BASE - 1)
  {
    MulMono(x, BASE - 1, y);
    MulMono(0, x, y);
  }

  /** The four half products of a and b and what they add up to. */
  lemma HalfProducts(a: int, b: int)
    requires 0 <= a < BASE2 && 0 <= b < BASE2
    ensures var p00, p10, p01, p11 := (a % BASE) * (b % BASE), (a / BASE) * (b % BASE), (a % BASE) * (b / BASE),
                                      (a / BASE) * (b / BASE);
            && 0 <= p00 <= (BASE - 1) * (BASE - 1) && 0 <= p10 <= (BASE - 1) * (BASE - 1)
            && 0 <= p01 <= (BASE - 1) * (BASE - 1) && 0 <= p11 <= (BASE - 1) * (BASE - 1)
            && a * b == p11 * BASE2 + (p10 + p01) * BASE + p00
  {
    HalfProduct(a % BASE, b % BASE);
    HalfProduct(a / BASE, b % BASE);
    HalfProduct(a % BASE, b / BASE);
    HalfProduct(a / BASE, b / BASE);
    MulHalves(a / BASE, a % BASE, b / BASE, b % BASE);
  }

  /** A 64-bit sum, and its carry found by comparing it with an operand. */
  method AddCarry(x: int, y: int) returns (s: int, c: int)
    requires 0 <= x < BASE2 && 0 <= y < BASE2
    ensures 0 <= s < BASE2 && 0 <= c <= 1
    ensures x + y == s + c * BASE2
  {
    s := (x + y) % BASE2;
    c := if s < x then 1 else 0;
  }

  /** The middle sum moved up by 32 bits: what stays below bit 64, and what goes above it. */
  lemma MiddleParts(mid: int)
    requires 0 <= mid < BASE2
    ensures (mid * BASE) % BASE2 == (mid % BASE) * BASE
    ensures 0 <= mid / BASE < BASE && (mid % BASE) * BASE < BASE2
    ensures mid * BASE == (mid % BASE) * BASE + (mid / BASE) * BASE2
  {
    ModUnique((mid % BASE) * BASE, mid * BASE, mid / BASE, BASE2);
  }

  /** The high half has room for every carry. */
  lemma HighFits(hi: int, lo: int, a: int, b: int)
    requires 0 <= a < BASE2 && 0 <= b < BASE2 && 0 <= lo && hi * BASE2 + lo == a * b
    ensures hi < BASE2
  {
    MulMono(a, BASE2 - 1, b);
    MulMono(b, BASE2 - 1, BASE2 - 1);
  }

  lemma NoWrap(x: int)
    requires 0 <= x < BASE2
    ensures x % BASE2 == x
  {
  }

  /** The arithmetic of softfloat_mul64To128M: the product in two 64-bit halves. */
  method MulToHalves(a: int, b: int) returns (z0: int, z64: int)
    requires 0 <= a < BASE2 && 0 <= b < BASE2
    ensures 0 <= z0 < BASE2 && 0 <= z64 < BASE2
    ensures z64 * BASE2 + z0 == a * b
  {
    var a32, a0, b32, b0 := a / BASE, a % BASE, b / BASE, b % BASE;
    HalfProducts(a, b);
    z0 := a0 * b0;
    var mid1 := a32 * b0;
    var mid, midCarry := AddCarry(mid1, a0 * b32);
    ghost var hi := a32 * b32 + midCarry * BASE + mid / BASE;
    MiddleParts(mid);
    z64 := a32 * b32;
    z64 := (z64 + (midCarry * BASE + mid / BASE)) % BASE2;
    mid := (mid * BASE) % BASE2;
    var carry;
    z0, carry := AddCarry(mid, z0);
    HighFits(hi + carry, z0, a, b);
    NoWrap(hi);
    NoWrap(hi + carry);
    z64 := (z64 + carry) % BASE2;
  }

  /** softfloat_mul64To128M. */
  method Mul64To128M(a: int, b: int, z: array<Word>)
    requires 0 <= a < BASE2 && 0 <= b < BASE2
    requires z.Length == 4
    modifies z
    ensures Val(z[..]) == a * b
  {
    hide Val;
    var z0, z64 := MulToHalves(a, b);
    TwoWords(z0);
    TwoWords(z64);
    z[1] := z0 / BASE;
    z[0] := z0 % BASE;
    z[3] := z64 / BASE;
    z[2] := z64 % BASE;
    Val4(z[..]);
  }

  lemma TwoWords(v: int)
    requires 0 <= v < BASE2
    ensures 0 <= v / BASE < BASE && v % BASE + BASE * (v / BASE) == v
  {
  }
}
