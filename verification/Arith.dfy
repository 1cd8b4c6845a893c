/** Powers of two and the few facts about products and remainders that the solver is not left to find. */
module Arith {

  function Pow2(n: nat): (p: int)
    ensures p > 0
  {
    if n == 0 then 1 else 2 * Pow2(n - 1)
  }

  lemma Distribute(x: int, y: int, p: int)
    ensures (x + y) * p == x * p + y * p
    ensures (x - y) * p == x * p - y * p
  {
  }

  lemma MulMono(a: int, b: int, d: int)
    requires a <= b && d >= 0
    ensures a * d <= b * d
  {
  }

  /** A value below m that differs from v by a multiple of m is v mod m. */
  lemma ModUnique(x: int, v: int, k: int, m: int)
    requires 0 <= x < m
    requires v == x + k * m
    ensures v % m == x
    ensures v / m == k
  {
    var d := v / m - k;
    assert v == m * (v / m) + v % m;
    assert m * d == x - v % m;
    if d >= 1 {
    } else if d <= -1 {
    }
  }

  lemma DivBelow(w: int, d: int, u: int)
    requires 0 <= w < d * u && d > 0 && u > 0
    ensures 0 <= w / u < d
  {
    var h := w / u;
    assert w == u * h + w % u;
    if h >= d {
      MulMono(d, h, u);
    }
  }

  lemma {:induction false} Pow2Add(a: nat, b: nat)
    ensures Pow2(a + b) == Pow2(a) * Pow2(b)
  {
    if a == 0 {
    } else {
      Pow2Add(a - 1, b);
      assert Pow2(a + b) == 2 * (Pow2(a - 1) * Pow2(b));
    }
  }

  lemma Pow2Zero()
    ensures Pow2(0) == 1
  {
  }

  lemma Pow2Double(n: nat)
    ensures Pow2(n + 1) == 2 * Pow2(n)
  {
  }

  lemma Pow2Mono(a: nat, b: nat)
    requires a <= b
    ensures Pow2(a) <= Pow2(b)
  {
    Pow2Add(a, b - a);
    MulMono(1, Pow2(b - a), Pow2(a));
  }

  lemma Pow2Of8()
    ensures Pow2(8) == 256
  {
  }

  lemma Pow2Of29()
    ensures Pow2(29) == 0x2000_0000
  {
    hide Pow2;
    Pow2Of8();
    Pow2Add(8, 8);
    Pow2Add(16, 8);
    Pow2Double(24);
    Pow2Double(25);
    Pow2Double(26);
    Pow2Double(27);
    Pow2Double(28);
  }

  lemma Pow2Of32()
    ensures Pow2(32) == 0x1_0000_0000
  {
    hide Pow2;
    Pow2Of8();
    Pow2Add(8, 8);
    Pow2Add(16, 16);
  }

  lemma Pow2Of64()
    ensures Pow2(64) == 0x1_0000_0000_0000_0000
  {
    hide Pow2;
    Pow2Of32();
    Pow2Add(32, 32);
  }
}
