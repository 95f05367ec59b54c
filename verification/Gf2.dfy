/** Polynomials over GF(2) as natural numbers: bit k is the coefficient of x^k, addition is
    exclusive or and multiplication is carry-less. */
module Gf2 {

  function Xor(a: nat, b: nat): nat
    decreases a
  {
    if a == 0 then b
    else if b == 0 then a
    else 2 * Xor(a / 2, b / 2) + (a + b) % 2
  }

  function Pow2(n: nat): (p: nat)
    ensures p > 0
  {
    if n == 0 then 1 else 2 * Pow2(n - 1)
  }

  /** Carry-less product. */
  function Clmul(q: nat, g: nat): nat
    decreases q
  {
    if q == 0 then 0 else Xor(q % 2 * g, 2 * Clmul(q / 2, g))
  }

  lemma XorBits(a: nat, b: nat)
    ensures Xor(a, b) / 2 == Xor(a / 2, b / 2)
    ensures Xor(a, b) % 2 == (a + b) % 2
  {
  }

  lemma XorZero(a: nat)
    ensures Xor(a, 0) == a && Xor(0, a) == a
  {
  }

  lemma ClmulZero(g: nat)
    ensures Clmul(0, g) == 0
  {
  }

  lemma {:induction false} XorCommutes(a: nat, b: nat)
    ensures Xor(a, b) == Xor(b, a)
    decreases a
  {
    if a > 0 && b > 0 {
      XorCommutes(a / 2, b / 2);
    }
  }

  lemma HalfAndParity(x: nat, y: nat)
    requires x / 2 == y / 2 && x % 2 == y % 2
    ensures x == y
  {
  }

  lemma SumParity(a: nat, b: nat, c: nat, ab: nat, bc: nat)
    requires ab % 2 == (a + b) % 2 && bc % 2 == (b + c) % 2
    ensures (ab + c) % 2 == (a + bc) % 2
  {
  }

  lemma {:induction false} XorAssociates(a: nat, b: nat, c: nat)
    ensures Xor(Xor(a, b), c) == Xor(a, Xor(b, c))
    decreases a
  {
    if a > 0 {
      var ab, bc := Xor(a, b), Xor(b, c);
      XorBits(a, b);
      XorBits(b, c);
      assert Xor(ab, c) / 2 == Xor(a, bc) / 2 by {
        XorAssociates(a / 2, b / 2, c / 2);
        XorBits(ab, c);
        XorBits(a, bc);
      }
      assert Xor(ab, c) % 2 == Xor(a, bc) % 2 by {
        XorBits(ab, c);
        XorBits(a, bc);
        SumParity(a, b, c, ab, bc);
      }
      HalfAndParity(Xor(ab, c), Xor(a, bc));
    }
  }

  lemma {:induction false} XorSelf(a: nat)
    ensures Xor(a, a) == 0
  {
    if a > 0 {
      XorSelf(a / 2);
    }
  }

  lemma XorCancels(a: nat, b: nat)
    ensures Xor(a, Xor(a, b)) == b
  {
    XorAssociates(a, a, b);
    XorSelf(a);
    assert Xor(0, b) == b;
  }

  lemma XorInjective(a: nat, b: nat, c: nat)
    requires Xor(a, b) == Xor(a, c)
    ensures b == c
  {
    hide Xor;
    XorCancels(a, b);
    XorCancels(a, c);
  }

  lemma XorDoubles(a: nat, b: nat)
    ensures Xor(2 * a, 2 * b) == 2 * Xor(a, b)
  {
    XorOfDoubles(2 * a, 2 * b, a, b);
  }

  lemma XorOfDoubles(x: nat, y: nat, a: nat, b: nat)
    requires x == 2 * a && y == 2 * b
    ensures Xor(x, y) == 2 * Xor(a, b)
  {
    hide Xor;
    XorBits(x, y);
    assert x / 2 == a && y / 2 == b && (x + y) % 2 == 0;
  }

  lemma XorDigit(x: nat, y: nat, a: nat, b: nat)
    requires x < 2 && y < 2
    ensures Xor(x + 2 * a, y + 2 * b) == (x + y) % 2 + 2 * Xor(a, b)
  {
    hide Xor;
    XorBits(x + 2 * a, y + 2 * b);
    assert (x + 2 * a) / 2 == a && (y + 2 * b) / 2 == b;
  }

  /** Rearrange a sum of four terms. */
  lemma XorSwap(a: nat, b: nat, c: nat, d: nat)
    ensures Xor(Xor(a, b), Xor(c, d)) == Xor(Xor(a, c), Xor(b, d))
  {
    hide Xor;
    XorAssociates(a, b, Xor(c, d));
    XorAssociates(b, c, d);
    XorCommutes(b, c);
    XorAssociates(c, b, d);
    XorAssociates(a, c, Xor(b, d));
  }

  lemma {:induction false} XorBelow(a: nat, b: nat, n: nat)
    requires a < Pow2(n) && b < Pow2(n)
    ensures Xor(a, b) < Pow2(n)
    decreases n
  {
    if n > 0 {
      XorBelow(a / 2, b / 2, n - 1);
      XorBits(a, b);
    }
  }

  /** Adding a polynomial of smaller degree keeps the leading coefficient. */
  lemma {:induction false} XorKeepsDegree(a: nat, b: nat, n: nat)
    requires Pow2(n) <= a < Pow2(n + 1) && b < Pow2(n)
    ensures Pow2(n) <= Xor(a, b) < Pow2(n + 1)
    decreases n
  {
    if n > 0 {
      assert Pow2(n + 1) == 2 * Pow2(n);
      XorKeepsDegree(a / 2, b / 2, n - 1);
      XorBits(a, b);
    }
  }

  function Shl(a: nat, n: nat): (r: nat)
    ensures r >= a
    decreases n
  {
    if n == 0 then a else 2 * Shl(a, n - 1)
  }

  lemma {:induction false} XorShifted(a: nat, b: nat, n: nat)
    ensures Xor(Shl(a, n), Shl(b, n)) == Shl(Xor(a, b), n)
    decreases n
  {
    if n > 0 {
      XorShifted(a, b, n - 1);
      XorDoubles(Shl(a, n - 1), Shl(b, n - 1));
    }
  }

  /** Terms with disjoint digits are added as numbers. */
  lemma {:induction false} XorDisjoint(low: nat, high: nat, n: nat)
    requires low < Pow2(n)
    ensures Xor(low, Shl(high, n)) == low + Shl(high, n)
    decreases n
  {
    hide Xor;
    if n == 0 {
      XorZero(high);
    } else {
      var h := Shl(high, n - 1);
      XorDisjoint(low / 2, high, n - 1);
      XorBits(low, 2 * h);
      HalfAndParity(Xor(low, 2 * h), low + 2 * h);
    }
  }

  /** A sum splits at digit `n`. */
  lemma XorSplits(a: nat, b: nat, i: nat, j: nat, n: nat)
    requires a < Pow2(n) && b < Pow2(n)
    ensures Xor(a, b) < Pow2(n)
    ensures Xor(a + Shl(i, n), b + Shl(j, n)) == Xor(a, b) + Shl(Xor(i, j), n)
  {
    hide Xor, Shl;
    XorDisjoint(a, i, n);
    XorDisjoint(b, j, n);
    XorSwap(a, Shl(i, n), b, Shl(j, n));
    XorShifted(i, j, n);
    XorBelow(a, b, n);
    XorDisjoint(Xor(a, b), Xor(i, j), n);
  }
}
