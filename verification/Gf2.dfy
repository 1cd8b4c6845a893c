/** Polynomials over GF(2) as natural numbers: bit i is the coefficient of x^i. */
module Gf2 {
  import opened Arith

  type Bit = n: nat | n < 2

  /** Addition, which is exclusive or bit by bit. */
  function Xor(a: nat, b: nat): nat {
    if a == 0 && b == 0 then 0 else (a % 2 + b % 2) % 2 + 2 * Xor(a / 2, b / 2)
  }

  lemma {:induction false} XorHalf(a: nat, b: nat)
    ensures Xor(a, b) % 2 == (a % 2 + b % 2) % 2 && Xor(a, b) / 2 == Xor(a / 2, b / 2)
  {
  }

  lemma {:induction false} XorZero(a: nat)
    ensures Xor(a, 0) == a && Xor(0, a) == a
  {
    if a > 0 {
      XorZero(a / 2);
    }
  }

  lemma {:induction false} XorSelf(a: nat)
    ensures Xor(a, a) == 0
  {
    if a > 0 {
      XorSelf(a / 2);
    }
  }

  lemma {:induction false} XorCommutes(a: nat, b: nat)
    ensures Xor(a, b) == Xor(b, a)
  {
    if a > 0 || b > 0 {
      XorCommutes(a / 2, b / 2);
    }
  }

  lemma {:induction false} XorAssociates(a: nat, b: nat, c: nat)
    ensures Xor(Xor(a, b), c) == Xor(a, Xor(b, c))
    decreases a + b + c
  {
    hide Xor;
    if a == 0 {
      XorZero(b);
      XorZero(Xor(b, c));
    } else {
      XorAssociates(a / 2, b / 2, c / 2);
      XorHalf(a, b);
      XorHalf(b, c);
      XorHalf(Xor(a, b), c);
      XorHalf(a, Xor(b, c));
    }
  }

  /** (a + b) + (c + d) = (a + c) + (b + d). */
  lemma XorSwap(a: nat, b: nat, c: nat, d: nat)
    ensures Xor(Xor(a, b), Xor(c, d)) == Xor(Xor(a, c), Xor(b, d))
  {
    hide Xor;
    XorAssociates(a, b, Xor(c, d));
    XorAssociates(b, c, d);
    XorCommutes(b, c);
    XorAssociates(c, b, d);
    XorAssociates(a, c, Xor(b, d));
  }

  lemma XorDouble(a: nat, b: nat)
    ensures Xor(2 * a, 2 * b) == 2 * Xor(a, b)
  {
  }

  lemma XorCancels(a: nat, b: nat)
    ensures Xor(Xor(a, b), b) == a
    ensures Xor(a, b) == 0 ==> a == b
  {
    hide Xor;
    XorAssociates(a, b, b);
    XorSelf(b);
    XorZero(a);
    XorZero(b);
  }

  lemma {:induction false} XorBound(a: nat, b: nat, n: nat)
    requires a < Pow2(n) && b < Pow2(n)
    ensures Xor(a, b) < Pow2(n)
  {
    if n > 0 {
      XorBound(a / 2, b / 2, n - 1);
    }
  }

  /** A polynomial of degree n or more keeps it when one of lower degree is added. */
  lemma {:induction false} XorTop(a: nat, b: nat, n: nat)
    requires a < Pow2(n) <= b
    ensures Xor(a, b) >= Pow2(n)
  {
    if n == 0 {
      XorZero(b);
    } else {
      XorTop(a / 2, b / 2, n - 1);
    }
  }

  /** Adding a bit above all others is ordinary addition. */
  lemma {:induction false} XorAbove(a: nat, y: Bit, n: nat)
    requires a < Pow2(n)
    ensures Xor(a, y * Pow2(n)) == a + y * Pow2(n)
  {
    hide Xor, Pow2;
    if y == 0 {
      XorZero(a);
    } else {
      XorPow(a, n);
    }
  }

  lemma {:induction false} XorPow(a: nat, n: nat)
    requires a < Pow2(n)
    ensures Xor(a, Pow2(n)) == a + Pow2(n)
  {
    hide Xor;
    if n == 0 {
      XorZero(1);
    } else {
      XorPow(a / 2, n - 1);
      XorHalf(a, Pow2(n));
    }
  }

  lemma {:induction false} XorScale(a: nat, b: nat, n: nat)
    ensures Xor(a * Pow2(n), b * Pow2(n)) == Xor(a, b) * Pow2(n)
  {
    hide Xor, Pow2;
    if n == 0 {
      Pow2Zero();
    } else {
      XorScale(a, b, n - 1);
      XorDouble(a * Pow2(n - 1), b * Pow2(n - 1));
      TwiceScaled(a, n);
      TwiceScaled(b, n);
      TwiceScaled(Xor(a, b), n);
    }
  }

  lemma TwiceScaled(a: nat, n: nat)
    requires n > 0
    ensures a * Pow2(n) == 2 * (a * Pow2(n - 1))
  {
  }

  // ---- Multiplication ----

  function Times(q: nat, g: nat): nat {
    if q == 0 then 0 else Xor(if q % 2 == 1 then g else 0, 2 * Times(q / 2, g))
  }

  lemma TimesStep(q: nat, y: Bit, g: nat)
    ensures Times(2 * q + y, g) == Xor(if y == 1 then g else 0, 2 * Times(q, g))
  {
    if q == 0 && y == 0 {
      XorZero(0);
    }
  }

  lemma {:induction false} TimesAdds(p: nat, q: nat, g: nat)
    ensures Times(Xor(p, q), g) == Xor(Times(p, g), Times(q, g))
  {
    if p == 0 {
      XorZero(q);
      XorZero(Times(q, g));
    } else if q == 0 {
      XorZero(p);
      XorZero(Times(p, g));
    } else {
      TimesAdds(p / 2, q / 2, g);
      XorHalf(p, q);
      AddSteps(p, q, g);
    }
  }

  lemma AddSteps(p: nat, q: nat, g: nat)
    requires Times(Xor(p / 2, q / 2), g) == Xor(Times(p / 2, g), Times(q / 2, g))
    ensures Times(Xor(p, q), g) == Xor(Times(p, g), Times(q, g))
  {
    hide Xor, Times;
    var a, b := if p % 2 == 1 then g else 0, if q % 2 == 1 then g else 0;
    TimesStep(p / 2, p % 2, g);
    TimesStep(q / 2, q % 2, g);
    XorHalf(p, q);
    TimesStep(Xor(p / 2, q / 2), (p % 2 + q % 2) % 2, g);
    XorSwap(a, 2 * Times(p / 2, g), b, 2 * Times(q / 2, g));
    XorDouble(Times(p / 2, g), Times(q / 2, g));
    XorSelf(g);
    XorZero(g);
    XorZero(0);
  }

  /** A nonzero multiple of g has at least the degree of g. */
  lemma {:induction false} TimesDegree(q: nat, g: nat, n: nat)
    requires q > 0 && Pow2(n) <= g < Pow2(n + 1)
    ensures Times(q, g) >= Pow2(n)
  {
    if q == 1 {
      XorZero(g);
    } else {
      TimesDegree(q / 2, g, n);
      var b := if q % 2 == 1 then g else 0;
      XorTop(b, 2 * Times(q / 2, g), n + 1);
    }
  }

  /** r is the remainder of a by g, whose degree is n. */
  ghost predicate IsRemainder(r: nat, a: nat, g: nat, n: nat) {
    r < Pow2(n) && exists q :: a == Xor(Times(q, g), r)
  }

  lemma RemainderUnique(r: nat, t: nat, a: nat, g: nat, n: nat)
    requires Pow2(n) <= g < Pow2(n + 1)
    requires IsRemainder(r, a, g, n) && IsRemainder(t, a, g, n)
    ensures r == t
  {
    hide Xor, Times;
    var p :| a == Xor(Times(p, g), r);
    var q :| a == Xor(Times(q, g), t);
    XorSelf(a);
    XorSwap(Times(p, g), r, Times(q, g), t);
    TimesAdds(p, q, g);
    XorCancels(Times(Xor(p, q), g), Xor(r, t));
    XorBound(r, t, n);
    if Xor(p, q) > 0 {
      TimesDegree(Xor(p, q), g, n);
    }
    TimesZero(g);
    XorCancels(r, t);
  }

  lemma TimesZero(g: nat)
    ensures Times(0, g) == 0
  {
  }
}
