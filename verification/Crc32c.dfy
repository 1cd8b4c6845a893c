/** CRC-32C as helper.cc computes it, a bit at a time on the reflected polynomial (section 12.1 of RFC 3720). */
module Crc32c {
  import opened Arith
  import opened Gf2

  const POLY: nat := 0x82f6_3b78

  /** x^32 + x^28 + x^27 + x^26 + x^25 + x^23 + x^22 + x^20 + x^19 + x^18 + x^14 + x^13 + x^11 + x^10 + x^9 + x^8 + x^6
      + 1. */
  const GENERATOR: nat := 0x1_1edc_6f41

  type Byte = n: nat | n < 256
  type Word32 = n: nat | n < 0x1_0000_0000

  lemma Pow32()
    ensures Pow2(32) == 0x1_0000_0000 && Pow2(31) == 0x8000_0000 && Pow2(8) == 256
  {
    hide Pow2;
    Pow2Of8();
    Pow2Of32();
    Pow2Double(31);
  }

  lemma Xor32(a: Word32, b: Word32)
    ensures Xor(a, b) < 0x1_0000_0000
  {
    Pow32();
    XorBound(a, b, 32);
  }

  // ---- The computation ----

  /** One round of the inner loop. */
  function Shift(c: nat): nat {
    if c % 2 == 1 then Xor(c / 2, POLY) else c / 2
  }

  function Shifts(c: nat, k: nat): nat {
    if k == 0 then c else Shift(Shifts(c, k - 1))
  }

  function Update(crc: Word32, buf: seq<Byte>): nat {
    if buf == [] then crc else Shifts(Xor(Update(crc, buf[..|buf| - 1]), buf[|buf| - 1]), 8)
  }

  function Crc32(buf: seq<Byte>): nat { Xor(Update(0xffff_ffff, buf), 0xffff_ffff) }

  lemma ShiftBound(c: Word32)
    ensures Shift(c) < 0x1_0000_0000
  {
    Xor32(c / 2, POLY);
  }

  /** update_crc. */
  method UpdateCrc(crc: Word32, buf: seq<Byte>) returns (c: Word32)
    ensures c == Update(crc, buf)
  {
    hide Xor;
    c := crc;
    for n := 0 to |buf|
      invariant c == Update(crc, buf[..n])
    {
      assert buf[..n + 1][..n] == buf[..n];
      Xor32(c, buf[n]);
      c := Xor(c, buf[n]);
      ghost var x := c;
      for k := 0 to 8
        invariant c == Shifts(x, k)
      {
        ShiftBound(c);
        c := if c % 2 == 1 then Xor(c / 2, POLY) else c / 2;
      }
    }
    assert buf[..|buf|] == buf;
  }

  /** crc32. */
  method Crc(buf: seq<Byte>) returns (c: Word32)
    ensures c == Crc32(buf)
  {
    hide Xor;
    c := UpdateCrc(0xffff_ffff, buf);
    Xor32(c, 0xffff_ffff);
    c := Xor(c, 0xffff_ffff);
  }

  // ---- A bit at a time ----

  /** The bits of a byte, lowest first. */
  function ByteBits(b: nat, k: nat): seq<Bit> {
    if k == 0 then [] else [b % 2] + ByteBits(b / 2, k - 1)
  }

  function Bits(buf: seq<Byte>): (r: seq<Bit>)
    ensures |r| == 8 * |buf|
  {
    if buf == [] then [] else
      ByteBitsLength(buf[|buf| - 1], 8);
      Bits(buf[..|buf| - 1]) + ByteBits(buf[|buf| - 1], 8)
  }

  lemma {:induction false} ByteBitsLength(b: nat, k: nat)
    ensures |ByteBits(b, k)| == k
  {
    if k > 0 {
      ByteBitsLength(b / 2, k - 1);
    }
  }

  /** The number whose bits these are, lowest first. */
  function Value(bits: seq<Bit>): nat {
    if bits == [] then 0 else bits[0] + 2 * Value(bits[1..])
  }

  lemma {:induction false} ByteBitsValue(b: nat, k: nat)
    requires b < Pow2(k)
    ensures Value(ByteBits(b, k)) == b
  {
    if k > 0 {
      ByteBitsValue(b / 2, k - 1);
      assert ByteBits(b, k)[1..] == ByteBits(b / 2, k - 1);
    }
  }

  function Feed(c: nat, m: Bit): nat { Shift(Xor(c, m)) }

  function FeedAll(c: nat, bits: seq<Bit>): nat {
    if bits == [] then c else Feed(FeedAll(c, bits[..|bits| - 1]), bits[|bits| - 1])
  }

  lemma {:induction false} FeedConcat(c: nat, x: seq<Bit>, y: seq<Bit>)
    ensures FeedAll(c, x + y) == FeedAll(FeedAll(c, x), y)
  {
    if y == [] {
      assert x + y == x;
    } else {
      FeedConcat(c, x, y[..|y| - 1]);
      assert (x + y)[..|x + y| - 1] == x + y[..|y| - 1];
    }
  }

  lemma ShiftEven(x: nat, y: nat)
    ensures Shift(Xor(x, 2 * y)) == Xor(Shift(x), y)
  {
    hide Xor;
    XorHalf(x, 2 * y);
    XorAssociates(x / 2, POLY, y);
    XorAssociates(x / 2, y, POLY);
    XorCommutes(POLY, y);
  }

  lemma ShiftBit(c: nat, m: Bit, v: nat)
    ensures Shift(Xor(c, m + 2 * v)) == Xor(Feed(c, m), v)
  {
    hide Xor, Shift;
    XorLow(m, v);
    XorAssociates(c, m, 2 * v);
    ShiftEven(Xor(c, m), v);
  }

  /** Bits folded in at once and then shifted out are the bits fed in one by one. */
  lemma {:induction false} Pack(c: nat, bits: seq<Bit>)
    ensures Shifts(Xor(c, Value(bits)), |bits|) == FeedAll(c, bits)
    decreases |bits|
  {
    if bits == [] {
      XorZero(c);
    } else {
      hide Xor, Shift, Feed, FeedAll, Shifts;
      var m, rest := bits[0], bits[1..];
      ShiftBit(c, m, Value(rest));
      ShiftsFirst(Xor(c, Value(bits)), |rest|);
      Pack(Feed(c, m), rest);
      FeedConcat(c, [m], rest);
      FeedOne(c, m);
      assert [m] + rest == bits;
    }
  }

  lemma FeedOne(c: nat, m: Bit)
    ensures FeedAll(c, [m]) == Feed(c, m)
  {
    assert [m][..0] == [];
  }

  lemma XorLow(m: Bit, y: nat)
    ensures Xor(m, 2 * y) == m + 2 * y
  {
    XorZero(y);
  }

  lemma {:induction false} ShiftsFirst(c: nat, k: nat)
    ensures Shifts(c, k + 1) == Shifts(Shift(c), k)
  {
    if k > 0 {
      ShiftsFirst(c, k - 1);
    }
  }

  lemma {:induction false} UpdateFeeds(crc: Word32, buf: seq<Byte>)
    ensures Update(crc, buf) == FeedAll(crc, Bits(buf))
  {
    if buf == [] {
    } else {
      hide Xor;
      var x, b := buf[..|buf| - 1], buf[|buf| - 1];
      UpdateFeeds(crc, x);
      Pow32();
      ByteBitsValue(b, 8);
      ByteBitsLength(b, 8);
      Pack(Update(crc, x), ByteBits(b, 8));
      FeedConcat(crc, Bits(x), ByteBits(b, 8));
    }
  }

  /** Running on from a checksum is the checksum of the whole. */
  lemma {:induction false} UpdateConcat(crc: Word32, x: seq<Byte>, y: seq<Byte>)
    ensures Update(crc, x) < 0x1_0000_0000
    ensures Update(Update(crc, x), y) == Update(crc, x + y)
  {
    UpdateBound(crc, x);
    if y == [] {
      assert x + y == x;
    } else {
      hide Xor, Shifts;
      var z := y[..|y| - 1];
      UpdateConcat(crc, x, z);
      assert (x + y)[..|x + y| - 1] == x + z;
    }
  }

  lemma {:induction false} ShiftsBound(c: Word32, k: nat)
    ensures Shifts(c, k) < 0x1_0000_0000
  {
    if k > 0 {
      ShiftsBound(c, k - 1);
      ShiftBound(Shifts(c, k - 1));
    }
  }

  lemma {:induction false} UpdateBound(crc: Word32, buf: seq<Byte>)
    ensures Update(crc, buf) < 0x1_0000_0000
  {
    if buf != [] {
      hide Xor, Shifts;
      var x, b := buf[..|buf| - 1], buf[|buf| - 1];
      UpdateBound(crc, x);
      Xor32(Update(crc, x), b);
      ShiftsBound(Xor(Update(crc, x), b), 8);
    }
  }

  // ---- The polynomial remainder ----

  /** The n low bits of c in the opposite order. */
  function Reflect(c: nat, n: nat): nat {
    if n == 0 then 0 else (if c % 2 == 1 then Pow2(n - 1) else 0) + Reflect(c / 2, n - 1)
  }

  lemma {:induction false} ReflectBound(c: nat, n: nat)
    ensures Reflect(c, n) < Pow2(n)
  {
    if n > 0 {
      ReflectBound(c / 2, n - 1);
    }
  }

  lemma {:induction false} ReflectWider(c: nat, n: nat)
    requires c < Pow2(n)
    ensures Reflect(c, n + 1) == 2 * Reflect(c, n)
  {
    if n > 0 {
      ReflectWider(c / 2, n - 1);
    }
  }

  lemma ReflectTop(c: nat, n: nat)
    requires n > 0
    ensures Reflect(c, n) == Xor(Reflect(c / 2, n - 1), c % 2 * Pow2(n - 1))
  {
    hide Xor, Pow2;
    ReflectBound(c / 2, n - 1);
    XorAbove(Reflect(c / 2, n - 1), c % 2, n - 1);
    if c % 2 == 1 {} else {}
  }

  lemma {:induction false} ReflectAdds(a: nat, b: nat, n: nat)
    ensures Reflect(Xor(a, b), n) == Xor(Reflect(a, n), Reflect(b, n))
  {
    if n == 0 {
      XorZero(0);
    } else {
      hide Xor, Reflect, Pow2;
      ReflectAdds(a / 2, b / 2, n - 1);
      ReflectTop(a, n);
      ReflectTop(b, n);
      ReflectSum(a, b, n);
      TopsAdd(Reflect(a / 2, n - 1), a % 2, Reflect(b / 2, n - 1), b % 2, n - 1);
    }
  }

  lemma ReflectSum(a: nat, b: nat, n: nat)
    requires n > 0
    ensures Reflect(Xor(a, b), n) == Xor(Reflect(Xor(a / 2, b / 2), n - 1), (a % 2 + b % 2) % 2 * Pow2(n - 1))
  {
    hide Xor, Reflect, Pow2;
    ReflectTop(Xor(a, b), n);
    XorHalf(a, b);
  }

  lemma TopsAdd(u: nat, x: Bit, v: nat, y: Bit, n: nat)
    ensures Xor(Xor(u, v), (x + y) % 2 * Pow2(n)) == Xor(Xor(u, x * Pow2(n)), Xor(v, y * Pow2(n)))
  {
    hide Xor, Pow2;
    XorSwap(u, x * Pow2(n), v, y * Pow2(n));
    XorScale(x, y, n);
    XorBits(x, y);
  }

  lemma XorBits(x: Bit, y: Bit)
    ensures Xor(x, y) == (x + y) % 2
  {
    XorZero(0);
  }

  /** Reflection onto the bits of acc. */
  function ReflectOnto(c: nat, n: nat, acc: nat): nat {
    if n == 0 then acc else ReflectOnto(c / 2, n - 1, 2 * acc + c % 2)
  }

  lemma {:induction false} OntoNothing(c: nat, n: nat, acc: nat)
    ensures ReflectOnto(c, n, acc) == acc * Pow2(n) + Reflect(c, n)
  {
    if n > 0 {
      hide Pow2;
      OntoNothing(c / 2, n - 1, 2 * acc + c % 2);
      Pow2Double(n - 1);
      AddBit(acc, c % 2, Pow2(n - 1));
    }
  }

  lemma AddBit(acc: nat, b: Bit, p: nat)
    ensures (2 * acc + b) * p == acc * (2 * p) + (if b == 1 then p else 0)
  {
    if b == 1 {} else {}
  }

  lemma ReflectBit(h: nat, b: Bit, n: nat, acc: nat)
    ensures ReflectOnto(2 * h + b, n + 1, acc) == ReflectOnto(h, n, 2 * acc + b)
  {
  }

  lemma ReflectNibble(h: nat, d: Bit, c: Bit, b: Bit, a: Bit, n: nat, acc: nat)
    ensures ReflectOnto(16 * h + 8 * d + 4 * c + 2 * b + a, n + 4, acc)
         == ReflectOnto(h, n, 16 * acc + 8 * a + 4 * b + 2 * c + d)
  {
    hide ReflectOnto;
    ReflectBit(8 * h + 4 * d + 2 * c + b, a, n + 3, acc);
    ReflectBit(4 * h + 2 * d + c, b, n + 2, 2 * acc + a);
    ReflectBit(2 * h + d, c, n + 1, 4 * acc + 2 * a + b);
    ReflectBit(h, d, n, 8 * acc + 4 * a + 2 * b + c);
  }

  lemma OntoNone(acc: nat)
    ensures ReflectOnto(0, 0, acc) == acc
  {
  }

  lemma ReflectPoly()
    ensures Reflect(POLY, 32) == 0x1edc_6f41
  {
    hide Reflect, ReflectOnto, Pow2;
    OntoNothing(POLY, 32, 0);
    ReflectNibble(0x82f63b7, 1, 0, 0, 0, 28, 0x0);
    ReflectNibble(0x82f63b, 0, 1, 1, 1, 24, 0x1);
    ReflectNibble(0x82f63, 1, 0, 1, 1, 20, 0x1e);
    ReflectNibble(0x82f6, 0, 0, 1, 1, 16, 0x1ed);
    ReflectNibble(0x82f, 0, 1, 1, 0, 12, 0x1edc);
    ReflectNibble(0x82, 1, 1, 1, 1, 8, 0x1edc6);
    ReflectNibble(0x8, 0, 0, 1, 0, 4, 0x1edc6f);
    ReflectNibble(0x0, 1, 0, 0, 0, 0, 0x1edc6f4);
    OntoNone(0x1edc_6f41);
  }

  /** The message as a polynomial: the first bit has the highest degree. */
  function Message(bits: seq<Bit>): nat {
    if bits == [] then 0 else 2 * Message(bits[..|bits| - 1]) + bits[|bits| - 1]
  }

  /** The initial state ahead of the message, and 32 places below it. */
  function Dividend(c: Word32, bits: seq<Bit>): nat {
    Xor(Reflect(c, 32) * Pow2(|bits|), Message(bits) * Pow2(32))
  }

  lemma DividendStep(c: Word32, bits: seq<Bit>, m: Bit)
    ensures Dividend(c, bits + [m]) == Xor(2 * Dividend(c, bits), m * Pow2(32))
  {
    hide Xor, Reflect, Pow2;
    var a, y := Reflect(c, 32) * Pow2(|bits|), Message(bits);
    assert (bits + [m])[..|bits|] == bits;
    Pow2Double(|bits|);
    TwiceScaled(Reflect(c, 32), |bits| + 1);
    MessageBit(y, m);
    XorDouble(a, y * Pow2(32));
    XorAssociates(2 * a, 2 * (y * Pow2(32)), m * Pow2(32));
  }

  lemma MessageBit(y: nat, m: Bit)
    ensures (2 * y + m) * Pow2(32) == Xor(2 * (y * Pow2(32)), m * Pow2(32))
  {
    hide Xor, Pow2;
    XorLow(m, y);
    XorCommutes(m, 2 * y);
    XorScale(2 * y, m, 32);
    Distribute(y, y, Pow2(32));
  }

  /** Feeding a bit is multiplying by x, adding the bit at x^32, and dropping the generator if x^32 is there. */
  lemma FeedStep(c: Word32, m: Bit)
    ensures var t := (c % 2 + m) % 2;
            Xor(2 * Reflect(c, 32), m * Pow2(32)) == Xor(if t == 1 then GENERATOR else 0, Reflect(Feed(c, m), 32))
  {
    hide Xor, Reflect, Pow2;
    var t, u := (c % 2 + m) % 2, Reflect(c / 2, 32);
    ReflectDouble(c);
    XorAssociates(u, c % 2 * Pow2(32), m * Pow2(32));
    XorScale(c % 2, m, 32);
    XorBits(c % 2, m);
    assert Xor(2 * Reflect(c, 32), m * Pow2(32)) == Xor(u, t * Pow2(32));
    FeedIs(c, m);
    if t == 1 {
      GeneratorParts();
      ReflectAdds(c / 2, POLY, 32);
      ReflectPoly();
      var p := 0x1edc_6f41;
      XorCommutes(u, p);
      XorSwap(p, Pow2(32), p, u);
      XorSelf(p);
      XorZero(Xor(Pow2(32), u));
      XorCommutes(Pow2(32), u);
    } else {
      XorZero(u);
    }
  }

  lemma FeedIs(c: nat, m: Bit)
    ensures Feed(c, m) == if (c % 2 + m) % 2 == 1 then Xor(c / 2, POLY) else c / 2
  {
    hide Xor;
    XorHalf(c, m);
    XorZero(c / 2);
  }

  lemma GeneratorParts()
    ensures GENERATOR == Xor(0x1edc_6f41, Pow2(32))
  {
    hide Pow2, Xor;
    Pow32();
    XorPow(0x1edc_6f41, 32);
  }

  lemma ReflectDouble(c: Word32)
    ensures 2 * Reflect(c, 32) == Xor(Reflect(c / 2, 32), c % 2 * Pow2(32))
  {
    hide Xor, Reflect, Pow2;
    Pow32();
    ReflectFirst(c, 31);
    ReflectWider(c / 2, 31);
    ReflectBound(c / 2, 32);
    XorAbove(Reflect(c / 2, 32), c % 2, 32);
  }

  lemma ReflectFirst(c: nat, n: nat)
    ensures Reflect(c, n + 1) == c % 2 * Pow2(n) + Reflect(c / 2, n)
  {
  }

  lemma FeedBound(c: Word32, m: Bit)
    ensures Feed(c, m) < 0x1_0000_0000
  {
    hide Xor, Shift;
    Xor32(c, m);
    ShiftBound(Xor(c, m));
  }

  lemma {:induction false} FeedAllBound(c: Word32, bits: seq<Bit>)
    ensures FeedAll(c, bits) < 0x1_0000_0000
  {
    if bits != [] {
      FeedAllBound(c, bits[..|bits| - 1]);
      FeedBound(FeedAll(c, bits[..|bits| - 1]), bits[|bits| - 1]);
    }
  }

  /** q is the quotient so far. */
  ghost predicate Divides(q: nat, c: Word32, bits: seq<Bit>) {
    Dividend(c, bits) == Xor(Times(q, GENERATOR), Reflect(FeedAll(c, bits), 32))
  }

  lemma DividesNothing(c: Word32)
    ensures Divides(0, c, [])
  {
    hide Reflect;
    XorZero(Reflect(c, 32));
    Pow2Zero();
  }

  lemma DividesMore(q: nat, c: Word32, bits: seq<Bit>, m: Bit)
    requires Divides(q, c, bits)
    ensures Divides(2 * q + (FeedAll(c, bits) % 2 + m) % 2, c, bits + [m])
  {
    hide Xor, Times, Reflect, Pow2, Feed, Dividend, FeedAll;
    var s := FeedAll(c, bits);
    var t := (s % 2 + m) % 2;
    FeedAllBound(c, bits);
    FeedConcat(c, bits, [m]);
    FeedOne(s, m);
    DividendStep(c, bits, m);
    FeedStep(s, m);
    TimesStep(q, t, GENERATOR);
    Regroup(Times(q, GENERATOR), Reflect(s, 32), m * Pow2(32), if t == 1 then GENERATOR else 0,
            Reflect(Feed(s, m), 32));
  }

  lemma {:induction false} FeedDivides(c: Word32, bits: seq<Bit>) returns (q: nat)
    ensures Divides(q, c, bits)
    decreases |bits|
  {
    hide Divides;
    if bits == [] {
      q := 0;
      DividesNothing(c);
    } else {
      var x, m := bits[..|bits| - 1], bits[|bits| - 1];
      assert x + [m] == bits;
      q := FeedDivides(c, x);
      DividesMore(q, c, x, m);
      q := 2 * q + (FeedAll(c, x) % 2 + m) % 2;
    }
  }

  lemma Regroup(t: nat, r: nat, m: nat, g: nat, f: nat)
    requires Xor(2 * r, m) == Xor(g, f)
    ensures Xor(2 * Xor(t, r), m) == Xor(Xor(g, 2 * t), f)
  {
    hide Xor;
    XorDouble(t, r);
    XorAssociates(2 * t, 2 * r, m);
    XorAssociates(2 * t, g, f);
    XorCommutes(2 * t, g);
  }

  /** update_crc is the remainder of the message, behind the initial state, by the generator polynomial: the only
      one. */
  lemma UpdateIsRemainder(crc: Word32, buf: seq<Byte>, r: nat)
    ensures r == Reflect(Update(crc, buf), 32) <==> IsRemainder(r, Dividend(crc, Bits(buf)), GENERATOR, 32)
  {
    hide Xor, Times, Reflect, Pow2, Dividend, Update, FeedAll;
    var c := Reflect(Update(crc, buf), 32);
    UpdateFeeds(crc, buf);
    ReflectBound(Update(crc, buf), 32);
    var q := FeedDivides(crc, Bits(buf));
    assert IsRemainder(c, Dividend(crc, Bits(buf)), GENERATOR, 32);
    Pow32();
    Pow2Double(32);
    if IsRemainder(r, Dividend(crc, Bits(buf)), GENERATOR, 32) {
      RemainderUnique(r, c, Dividend(crc, Bits(buf)), GENERATOR, 32);
    }
  }

  // ---- The checksum ----

  /** Adding all ones to n bits is the complement. */
  lemma {:induction false} XorOnes(a: nat, n: nat)
    requires a < Pow2(n)
    ensures Xor(a, Pow2(n) - 1) == Pow2(n) - 1 - a
  {
    hide Xor;
    if n == 0 {
      XorZero(0);
    } else {
      XorOnes(a / 2, n - 1);
      XorHalf(a, Pow2(n) - 1);
      assert (Pow2(n) - 1) / 2 == Pow2(n - 1) - 1 && (Pow2(n) - 1) % 2 == 1;
    }
  }

  /** Bit i of the reflection is bit n - 1 - i. */
  lemma {:induction false} ReflectedBit(c: nat, n: nat, i: nat)
    requires i < n
    ensures Reflect(c, n) / Pow2(i) % 2 == c / Pow2(n - 1 - i) % 2
  {
    hide Reflect, Pow2;
    ReflectFirst(c, n - 1);
    ReflectBound(c / 2, n - 1);
    var low := Reflect(c / 2, n - 1);
    if i == n - 1 {
      Pow2Zero();
      ModUnique(low, c % 2 * Pow2(i) + low, c % 2, Pow2(i));
    } else {
      ReflectedBit(c / 2, n - 1, i);
      BitBelow(c % 2, low, n - 1, i);
      HalfThenShift(c, n - 2 - i);
    }
  }

  lemma BitBelow(b: Bit, low: nat, n: nat, i: nat)
    requires i < n
    ensures (b * Pow2(n) + low) / Pow2(i) % 2 == low / Pow2(i) % 2
  {
    hide Pow2;
    if b == 1 {
      Pow2Double(i);
      Pow2Add(i + 1, n - 1 - i);
      EvenMultiple(low, Pow2(n - 1 - i), Pow2(i), Pow2(n));
    }
  }

  lemma EvenMultiple(low: nat, k: nat, p: nat, m: nat)
    requires p > 0 && m == 2 * p * k
    ensures (m + low) / p % 2 == low / p % 2
  {
    var d := low / p;
    Distribute(2 * k, d, p);
    assert m == 2 * k * p;
    ModUnique(low % p, m + low, 2 * k + d, p);
  }

  lemma HalfThenShift(c: nat, k: nat)
    ensures c / 2 / Pow2(k) == c / Pow2(k + 1)
  {
    hide Pow2;
    Pow2Double(k);
    var p := Pow2(k);
    var q := c / 2 / p;
    assert c / 2 == p * q + c / 2 % p;
    ModUnique(2 * (c / 2 % p) + c % 2, c, q, 2 * p);
  }

  lemma {:induction false} ReflectInjective(a: nat, b: nat, n: nat)
    requires a < Pow2(n) && b < Pow2(n) && Reflect(a, n) == Reflect(b, n)
    ensures a == b
  {
    if n > 0 {
      ReflectBound(a / 2, n - 1);
      ReflectBound(b / 2, n - 1);
      ReflectInjective(a / 2, b / 2, n - 1);
    }
  }

  /** crc32 is the remainder of the message behind an all-ones state, reflected and complemented. */
  lemma CrcIsRemainder(buf: seq<Byte>, r: nat)
    ensures r == Crc32(buf) <==>
            r <= 0xffff_ffff
            && IsRemainder(Reflect(0xffff_ffff - r, 32), Dividend(0xffff_ffff, Bits(buf)), GENERATOR, 32)
  {
    hide Xor, Times, Reflect, Pow2, Dividend, Update, IsRemainder;
    var u := Update(0xffff_ffff, buf);
    UpdateBound(0xffff_ffff, buf);
    Pow32();
    XorOnes(u, 32);
    if r <= 0xffff_ffff {
      UpdateIsRemainder(0xffff_ffff, buf, Reflect(0xffff_ffff - r, 32));
      if Reflect(0xffff_ffff - r, 32) == Reflect(u, 32) {
        ReflectInjective(0xffff_ffff - r, u, 32);
      }
    }
  }

  // ---- Burst errors ----

  function AddBits(m: Bit, n: Bit): Bit { (m + n) % 2 }

  /** The positions at which two messages differ. */
  function Difference(x: seq<Bit>, y: seq<Bit>): (e: seq<Bit>)
    requires |x| == |y|
    ensures |e| == |x|
    ensures forall i :: 0 <= i < |e| ==> e[i] == AddBits(x[i], y[i])
  {
    seq(|x|, i requires 0 <= i < |x| => AddBits(x[i], y[i]))
  }

  lemma ShiftAdds(a: nat, b: nat)
    ensures Shift(Xor(a, b)) == Xor(Shift(a), Shift(b))
  {
    hide Xor;
    XorHalf(a, b);
    var p, q := if a % 2 == 1 then POLY else 0, if b % 2 == 1 then POLY else 0;
    XorSwap(a / 2, p, b / 2, q);
    XorSelf(POLY);
    XorZero(POLY);
    XorZero(0);
    XorZero(a / 2);
    XorZero(b / 2);
    XorZero(Xor(a / 2, b / 2));
  }

  lemma FeedAdds(a: nat, m: Bit, b: nat, n: Bit)
    ensures Xor(Feed(a, m), Feed(b, n)) == Feed(Xor(a, b), AddBits(m, n))
  {
    hide Xor, Shift;
    XorBits(m, n);
    XorSwap(a, m, b, n);
    ShiftAdds(Xor(a, m), Xor(b, n));
  }

  /** The checksums of two messages differ by that of their difference, from a zero state. */
  lemma {:induction false} DifferenceFeeds(c: nat, x: seq<Bit>, y: seq<Bit>)
    requires |x| == |y|
    ensures Xor(FeedAll(c, x), FeedAll(c, y)) == FeedAll(0, Difference(x, y))
    decreases |x|
  {
    if x == [] {
      XorSelf(c);
    } else {
      hide Xor, Feed;
      var n := |x| - 1;
      DifferenceFeeds(c, x[..n], y[..n]);
      FeedAdds(FeedAll(c, x[..n]), x[n], FeedAll(c, y[..n]), y[n]);
      assert Difference(x, y)[..n] == Difference(x[..n], y[..n]);
    }
  }

  predicate AllZero(e: seq<Bit>) { forall i :: 0 <= i < |e| ==> e[i] == 0 }

  lemma {:induction false} ZerosFeed(c: nat, e: seq<Bit>)
    requires AllZero(e)
    ensures FeedAll(c, e) == Shifts(c, |e|)
    decreases |e|
  {
    if e != [] {
      ZerosFeed(c, e[..|e| - 1]);
      XorZero(Shifts(c, |e| - 1));
    }
  }

  /** The shift loses nothing: POLY has its top bit. */
  lemma ShiftZero(c: Word32)
    ensures Shift(c) == 0 <==> c == 0
  {
    hide Xor;
    if c % 2 == 1 {
      Pow32();
      XorTop(c / 2, POLY, 31);
    }
  }

  lemma {:induction false} ShiftsZero(c: Word32, k: nat)
    ensures Shifts(c, k) == 0 <==> c == 0
  {
    if k > 0 {
      ShiftsZero(c, k - 1);
      ShiftsBound(c, k - 1);
      ShiftZero(Shifts(c, k - 1));
    }
  }

  lemma {:induction false} ValueBound(bits: seq<Bit>)
    ensures Value(bits) < Pow2(|bits|)
    ensures Value(bits) == 0 <==> AllZero(bits)
  {
    if bits != [] {
      ValueBound(bits[1..]);
      assert AllZero(bits) <==> bits[0] == 0 && AllZero(bits[1..]) by {
        assert forall i :: 0 < i < |bits| ==> bits[i] == bits[1..][i - 1];
      }
    }
  }

  /** A burst of at most 32 bits, with zeros before and after it, leaves a nonzero state unless it is zero. */
  lemma BurstFeeds(before: seq<Bit>, burst: seq<Bit>, after: seq<Bit>)
    requires AllZero(before) && AllZero(after) && |burst| <= 32
    ensures FeedAll(0, before + burst + after) == 0 <==> AllZero(burst)
  {
    hide FeedAll, Value, Shifts, Xor, AllZero, Pow2;
    var v := Value(burst);
    ZerosFeed(0, before);
    ShiftsZero(0, |before|);
    FeedConcat(0, before, burst);
    Pack(0, burst);
    XorZero(v);
    ValueBound(burst);
    Pow2Mono(|burst|, 32);
    Pow32();
    ShiftsZero(v, |burst|);
    ShiftsBound(v, |burst|);
    FeedConcat(0, before + burst, after);
    ZerosFeed(Shifts(v, |burst|), after);
    ShiftsZero(Shifts(v, |burst|), |after|);
  }

  lemma {:induction false} BitsInjective(x: seq<Byte>, y: seq<Byte>)
    requires |x| == |y| && Bits(x) == Bits(y)
    ensures x == y
  {
    if x != [] {
      var n := |x| - 1;
      LastByte(x);
      LastByte(y);
      BitsInjective(x[..n], y[..n]);
      assert x == x[..n] + [x[n]] && y == y[..n] + [y[n]];
    }
  }

  lemma LastByte(x: seq<Byte>)
    requires x != []
    ensures var n := |x| - 1; Bits(x)[..8 * n] == Bits(x[..n]) && Value(Bits(x)[8 * n..]) == x[n]
  {
    var n := |x| - 1;
    var last := ByteBits(x[n], 8);
    Pow32();
    ByteBitsLength(x[n], 8);
    ByteBitsValue(x[n], 8);
    assert Bits(x) == Bits(x[..n]) + last;
    assert Bits(x)[8 * n..] == last;
  }

  predicate DiffersWithin(a: seq<Bit>, b: seq<Bit>, lo: nat, hi: nat)
    requires |a| == |b|
  {
    forall i :: 0 <= i < |a| && a[i] != b[i] ==> lo <= i < hi
  }

  /** On the bits: equal states mean equal bits. */
  lemma BurstBits(c: nat, a: seq<Bit>, b: seq<Bit>, lo: nat, hi: nat)
    requires |a| == |b| && lo <= hi <= |a| && hi <= lo + 32 && DiffersWithin(a, b, lo, hi)
    requires FeedAll(c, a) == FeedAll(c, b)
    ensures a == b
  {
    hide FeedAll, Xor, AllZero, AddBits, DiffersWithin;
    var e := Difference(a, b);
    assert e == e[..lo] + e[lo..hi] + e[hi..];
    ZeroOutside(a, b, lo, hi);
    BurstFeeds(e[..lo], e[lo..hi], e[hi..]);
    DifferenceFeeds(c, a, b);
    XorSelf(FeedAll(c, a));
    SameBits(a, b, lo, hi);
  }

  lemma ZeroOutside(a: seq<Bit>, b: seq<Bit>, lo: nat, hi: nat)
    requires |a| == |b| && lo <= hi <= |a| && DiffersWithin(a, b, lo, hi)
    ensures AllZero(Difference(a, b)[..lo]) && AllZero(Difference(a, b)[hi..])
  {
  }

  lemma SameBits(a: seq<Bit>, b: seq<Bit>, lo: nat, hi: nat)
    requires |a| == |b| && lo <= hi <= |a| && DiffersWithin(a, b, lo, hi)
    requires AllZero(Difference(a, b)[lo..hi])
    ensures a == b
  {
    var e := Difference(a, b);
    forall i | 0 <= i < |a| ensures a[i] == b[i] {
      if lo <= i < hi {
        assert e[lo..hi][i - lo] == 0;
      }
    }
  }

  /** Two messages of the same length that differ only within 32 consecutive bits, lowest bit of each byte first, have
      different checksums. */
  lemma BurstDetected(x: seq<Byte>, y: seq<Byte>, s: nat)
    requires |x| == |y| && x != y
    requires forall i :: 0 <= i < 8 * |x| && Bits(x)[i] != Bits(y)[i] ==> s <= i < s + 32
    ensures Crc32(x) != Crc32(y)
  {
    hide FeedAll, Xor, Bits, Update;
    var a, b := Bits(x), Bits(y);
    var lo := if s < |a| then s else |a|;
    var hi := if lo + 32 < |a| then lo + 32 else |a|;
    if Crc32(x) == Crc32(y) {
      XorCancels(Update(0xffff_ffff, x), 0xffff_ffff);
      XorCancels(Update(0xffff_ffff, y), 0xffff_ffff);
      UpdateFeeds(0xffff_ffff, x);
      UpdateFeeds(0xffff_ffff, y);
      BurstBits(0xffff_ffff, a, b, lo, hi);
      BitsInjective(x, y);
    }
  }
}
