/** The greatest common divisor: a reference definition on naturals, and the
    source's `__gcd`, which runs Euclid's algorithm with the truncating C++ `%`
    and so may return a negative value. */
module Euclid {
  import opened IntArith

  /** Reference gcd on naturals, with gcd(a, 0) == a. */
  function Gcd(a: nat, b: nat): (g: nat)
    decreases b
    ensures g == 0 <==> a == 0 && b == 0
  {
    if b == 0 then a else Gcd(b, a % b)
  }

  /** g is a common divisor of a and b that every common divisor divides. */
  ghost predicate IsGcd(g: nat, a: nat, b: nat) {
    && Divides(g, a)
    && Divides(g, b)
    && forall c: nat :: Divides(c, a) && Divides(c, b) ==> Divides(c, g)
  }

  /** Gcd meets the divisibility definition of the greatest common divisor. */
  lemma {:induction false} GcdIsGcd(a: nat, b: nat)
    ensures IsGcd(Gcd(a, b), a, b)
    decreases b
  {
    if b == 0 {
      assert Divides(a, 0) by {
        if a > 0 {
          DividesMul(a, 0);
        }
      }
    } else {
      var r := a % b;
      GcdIsGcd(b, r);
      var g := Gcd(b, r);
      // g divides b and r, hence a == b * (a / b) + r
      DividesLinear(g, b, r, a / b);
      forall c: nat | Divides(c, a) && Divides(c, b)
        ensures Divides(c, g)
      {
        DividesMod(c, a, b);
      }
    }
  }

  /** Every common divisor of a and b divides Gcd(a, b). */
  lemma GcdGreatest(c: nat, a: nat, b: nat)
    requires Divides(c, a) && Divides(c, b)
    ensures Divides(c, Gcd(a, b))
  {
    GcdIsGcd(a, b);
  }

  /** Gcd(k * a, k * b) == k * Gcd(a, b). */
  lemma {:induction false} GcdScale(a: nat, b: nat, k: nat)
    ensures Gcd(k * a, k * b) == k * Gcd(a, b)
    decreases b
  {
    if k == 0 {
    } else if b == 0 {
      assert k * b == 0;
    } else {
      ModScale(a, b, k);
      GcdScale(b, a % b, k);
    }
  }

  /** The source's `__gcd(a, b)`: `b == 0 ? a : __gcd(b, a % b)` with C++ `%`.
      Its magnitude is the greatest common divisor of |a| and |b|; its sign is
      not fixed. */
  function TruncGcd(a: int, b: int): (g: int)
    decreases Abs(b)
    ensures b == 0 ==> g == a
    ensures Abs(g) == Gcd(Abs(a), Abs(b))
  {
    if b == 0 then a else TruncGcd(b, TruncRem(a, b))
  }

  /** `__gcd(a, b)` is nonzero whenever b is, so `reduce` never divides by zero. */
  lemma TruncGcdNonzero(a: int, b: int)
    requires b != 0
    ensures TruncGcd(a, b) != 0
  {
  }

  /** |__gcd(a, b)| divides both a and b. */
  lemma TruncGcdDivides(a: int, b: int)
    ensures Divides(Abs(TruncGcd(a, b)), Abs(a))
    ensures Divides(Abs(TruncGcd(a, b)), Abs(b))
  {
    GcdIsGcd(Abs(a), Abs(b));
  }

  lemma TruncRemScale(a: int, b: int, k: nat)
    requires b != 0 && k > 0
    ensures TruncRem(k * a, k * b) == k * TruncRem(a, b)
  {
    assert Abs(k * a) == k * Abs(a);
    assert Abs(k * b) == k * Abs(b);
    ModScale(Abs(a), Abs(b), k);
  }

  /** Scaling both arguments by k > 0 scales `__gcd`, sign included. */
  lemma {:induction false} TruncGcdScale(a: int, b: int, k: nat)
    requires k > 0
    ensures TruncGcd(k * a, k * b) == k * TruncGcd(a, b)
    decreases Abs(b)
  {
    if b == 0 {
      assert k * b == 0;
    } else {
      TruncRemScale(a, b, k);
      TruncGcdScale(b, TruncRem(a, b), k);
    }
  }

  lemma TruncRemNegate(a: int, b: int)
    requires b != 0
    ensures TruncRem(-a, -b) == -TruncRem(a, b)
  {
    var m := Abs(a) % Abs(b);
    assert Abs(-a) % Abs(-b) == m by {
      assert Abs(-a) == Abs(a) && Abs(-b) == Abs(b);
    }
    if a < 0 {
      assert TruncRem(-a, -b) == m;
    } else if a > 0 {
      assert TruncRem(-a, -b) == -m;
    } else {
      assert TruncRem(-a, -b) == 0;
    }
  }

  /** Negating both arguments negates `__gcd`: the truncating remainder follows
      the signs of its operands. */
  lemma {:induction false} TruncGcdNegate(a: int, b: int)
    ensures TruncGcd(-a, -b) == -TruncGcd(a, b)
    decreases Abs(b)
  {
    if b != 0 {
      TruncRemNegate(a, b);
      TruncGcdNegate(b, TruncRem(a, b));
    }
  }

  /** `__gcd` scales with any nonzero factor, sign included. */
  lemma TruncGcdScaleSigned(a: int, b: int, k: int)
    requires k != 0
    ensures TruncGcd(k * a, k * b) == k * TruncGcd(a, b)
  {
    if k > 0 {
      TruncGcdScale(a, b, k);
    } else {
      var j: nat := -k;
      TruncGcdScale(a, b, j);
      TruncGcdNegate(j * a, j * b);
      NegateFactor(j, a);
      NegateFactor(j, b);
      NegateFactor(j, TruncGcd(a, b));
    }
  }
}
