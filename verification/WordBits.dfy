/** The bits of natural numbers, and the machine operations on them. */
module WordBits {
  import opened Arith

  const ALL_ONES: nat := 0xffff_ffff_ffff_ffff

  /** A 64-bit machine word. */
  type Word = w: nat | w <= ALL_ONES

  predicate Bit(w: nat, i: nat) {
    if i == 0 then w % 2 == 1 else Bit(w / 2, i - 1)
  }

  function Or(a: nat, b: nat): nat {
    if a == 0 && b == 0 then 0 else (if a % 2 == 1 || b % 2 == 1 then 1 else 0) + 2 * Or(a / 2, b / 2)
  }

  function And(a: nat, b: nat): nat {
    if a == 0 || b == 0 then 0 else (if a % 2 == 1 && b % 2 == 1 then 1 else 0) + 2 * And(a / 2, b / 2)
  }

  lemma {:induction false} NoBits(i: nat)
    ensures !Bit(0, i)
  {
    if i > 0 {
      NoBits(i - 1);
    }
  }

  lemma {:induction false} OrBit(a: nat, b: nat, i: nat)
    ensures Bit(Or(a, b), i) <==> Bit(a, i) || Bit(b, i)
  {
    if a == 0 && b == 0 {
      NoBits(i);
    } else if i > 0 {
      OrBit(a / 2, b / 2, i - 1);
    }
  }

  lemma {:induction false} AndBit(a: nat, b: nat, i: nat)
    ensures Bit(And(a, b), i) <==> Bit(a, i) && Bit(b, i)
  {
    if a == 0 || b == 0 {
      NoBits(i);
    } else if i > 0 {
      AndBit(a / 2, b / 2, i - 1);
    }
  }

  lemma {:induction false} OrBound(a: nat, b: nat, n: nat)
    requires a < Pow2(n) && b < Pow2(n)
    ensures Or(a, b) < Pow2(n)
  {
    if n > 0 {
      OrBound(a / 2, b / 2, n - 1);
    }
  }

  lemma {:induction false} AndBound(a: nat, b: nat)
    ensures And(a, b) <= a
  {
    if a > 0 && b > 0 {
      AndBound(a / 2, b / 2);
    }
  }

  /** The complement in n bits. */
  function Not(w: nat, n: nat): nat
    requires w < Pow2(n)
  {
    Pow2(n) - 1 - w
  }

  lemma {:induction false} NotBit(w: nat, n: nat, i: nat)
    requires w < Pow2(n) && i < n
    ensures Bit(Not(w, n), i) <==> !Bit(w, i)
  {
    if i > 0 {
      NotBit(w / 2, n - 1, i - 1);
      assert Not(w, n) / 2 == Not(w / 2, n - 1);
    }
  }

  lemma {:induction false} PowBit(b: nat, i: nat)
    ensures Bit(Pow2(b), i) <==> i == b
  {
    if b == 0 {
      if i > 0 {
        NoBits(i - 1);
      }
    } else if i > 0 {
      PowBit(b - 1, i - 1);
    }
  }

  function Right(w: nat, k: nat): nat {
    hide Pow2;
    w / Pow2(k)
  }

  function Left(w: nat, k: nat): nat { w * Pow2(k) }
  function Low(w: nat, k: nat): nat { w % Pow2(k) }

  lemma RightHalf(w: nat, k: nat)
    ensures Right(w, 0) == w && Right(w, k + 1) == Right(w / 2, k)
  {
    Pow2Zero();
    HalfDiv(w, Pow2(k));
  }

  lemma LowHalf(w: nat, k: nat)
    ensures Low(w, 0) == 0 && Low(w, k + 1) == w % 2 + 2 * Low(w / 2, k)
  {
    Pow2Zero();
    HalfMod(w, Pow2(k));
  }

  lemma LowZero(k: nat)
    ensures Low(0, k) == 0
  {
  }

  lemma {:induction false} RightBit(w: nat, k: nat, i: nat)
    ensures Bit(Right(w, k), i) <==> Bit(w, i + k)
  {
    hide Right;
    if k == 0 {
      RightHalf(w, 0);
    } else {
      RightHalf(w, k - 1);
      RightBit(w / 2, k - 1, i);
    }
  }

  lemma HalfDiv(w: nat, p: nat)
    requires p > 0
    ensures w / (2 * p) == w / 2 / p
  {
    var q, r := w / 2 / p, w / 2 % p;
    assert w / 2 == p * q + r;
    ModUnique(w % 2 + 2 * r, w, q, 2 * p);
  }

  lemma {:induction false} LeftBit(w: nat, k: nat, i: nat)
    ensures Bit(Left(w, k), i) <==> i >= k && Bit(w, i - k)
  {
    if k > 0 {
      TwiceProduct(w, Pow2(k - 1));
      if i > 0 {
        LeftBit(w, k - 1, i - 1);
      }
    }
  }

  lemma TwiceProduct(w: nat, p: nat)
    ensures w * (2 * p) == 2 * (w * p)
  {
  }

  lemma {:induction false} BitAbove(w: nat, n: nat, i: nat)
    requires w < Pow2(n) && n <= i
    ensures !Bit(w, i)
  {
    if n == 0 {
      NoBits(i);
    } else {
      BitAbove(w / 2, n - 1, i - 1);
    }
  }

  /** One less than __builtin_ffsl. */
  function FirstSet(w: nat): nat
    requires w > 0
  {
    if w % 2 == 1 then 0 else 1 + FirstSet(w / 2)
  }

  lemma {:induction false} FirstSetIs(w: nat)
    requires w > 0
    ensures Bit(w, FirstSet(w)) && forall i :: 0 <= i < FirstSet(w) ==> !Bit(w, i)
  {
    if w % 2 == 0 {
      FirstSetIs(w / 2);
      forall i | 0 <= i < FirstSet(w) ensures !Bit(w, i) {
        if i > 0 {
          assert !Bit(w / 2, i - 1);
        }
      }
    }
  }

  lemma {:induction false} FirstSetBound(w: nat, n: nat)
    requires 0 < w < Pow2(n)
    ensures FirstSet(w) < n
  {
    FirstSetIs(w);
    if FirstSet(w) >= n {
      BitAbove(w, n, FirstSet(w));
    }
  }

  /** Or is addition when the bits are apart. */
  lemma {:induction false} OrApart(h: nat, l: nat, k: nat)
    requires l < Pow2(k)
    ensures Or(h * Pow2(k), l) == h * Pow2(k) + l
  {
    if k == 0 {
      OrZero(h);
    } else {
      OrApart(h, l / 2, k - 1);
      TwiceProduct(h, Pow2(k - 1));
    }
  }

  lemma {:induction false} OrZero(a: nat)
    ensures Or(a, 0) == a
  {
    if a > 0 {
      OrZero(a / 2);
    }
  }

  // ---- helper.hh ----

  /** isPow2. */
  predicate IsPow2(x: nat)
    requires x > 0
  {
    And(x - 1, x) == 0
  }

  /** mod: a mask when the modulus is a power of two. */
  function Mod(x: nat, y: nat): nat
    requires y > 0
  {
    if IsPow2(y) then And(x, y - 1) else x % y
  }

  lemma {:induction false} AndLowOnes(x: nat, k: nat)
    ensures And(x, Pow2(k) - 1) == Low(x, k)
  {
    hide Low;
    if k == 0 {
      LowHalf(x, 0);
    } else if x == 0 {
      LowZero(k);
    } else {
      AndLowOnes(x / 2, k - 1);
      LowHalf(x, k - 1);
    }
  }

  lemma HalfMod(x: nat, p: nat)
    requires p > 0
    ensures x % (2 * p) == x % 2 + 2 * (x / 2 % p)
  {
    var q, r := x / 2 / p, x / 2 % p;
    assert x / 2 == p * q + r;
    ModUnique(x % 2 + 2 * r, x, q, 2 * p);
  }

  lemma {:induction false} IsPow2Exponent(y: nat) returns (k: nat)
    requires y > 0 && IsPow2(y)
    ensures y == Pow2(k)
  {
    if y == 1 {
      k := 0;
    } else {
      AndHalves(y);
      k := IsPow2Exponent(y / 2);
      k := k + 1;
    }
  }

  lemma {:induction false} PowersPass(k: nat)
    ensures IsPow2(Pow2(k))
  {
    if k > 0 {
      PowersPass(k - 1);
    }
  }

  /** An odd number above one shares its top bit with the number below it. */
  lemma {:induction false} AndHalves(y: nat)
    requires y > 1 && And(y - 1, y) == 0
    ensures y % 2 == 0 && And(y / 2 - 1, y / 2) == 0
  {
    if y % 2 == 1 {
      AndSelf(y / 2);
    }
  }

  lemma {:induction false} AndSelf(a: nat)
    ensures And(a, a) == a
  {
    if a > 0 {
      AndSelf(a / 2);
    }
  }

  /** The helper is the remainder. */
  lemma ModIs(x: nat, y: nat)
    requires y > 0
    ensures Mod(x, y) == x % y
  {
    if IsPow2(y) {
      var k := IsPow2Exponent(y);
      AndLowOnes(x, k);
    }
  }

  lemma ModNext(b: nat, n: nat)
    requires b < n
    ensures Mod(b + 1, n) == if b + 1 == n then 0 else b + 1
  {
    hide Mod;
    ModIs(b + 1, n);
    if b + 1 == n {
      ModUnique(0, n, 1, n);
    } else {
      ModUnique(b + 1, b + 1, 0, n);
    }
  }
}
