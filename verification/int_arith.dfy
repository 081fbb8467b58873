/** C++ integer division and remainder, which truncate toward zero, written out
    over Dafny's Euclidean operators, and the divisibility facts the gcd proofs
    rest on. */
module IntArith {

  function Abs(x: int): nat {
    if x < 0 then -x else x
  }

  /** C++ `a / b`: the quotient rounded toward zero. */
  function TruncDiv(a: int, b: int): (q: int)
    requires b != 0
    ensures Abs(q) == Abs(a) / Abs(b)
    ensures q > 0 ==> ((a < 0) <==> (b < 0))
    ensures q < 0 ==> ((a < 0) <==> !(b < 0))
  {
    var m: int := NatQuotient(Abs(a), Abs(b));
    if (a < 0) == (b < 0) then m else -m
  }

  /** Quotient of naturals, kept separate so its sign is carried by its type. */
  function NatQuotient(x: nat, y: nat): nat
    requires y > 0
  {
    x / y
  }

  /** C++ `a % b`: the remainder carries the sign of the dividend. */
  function TruncRem(a: int, b: int): (r: int)
    requires b != 0
    ensures Abs(r) < Abs(b)
    ensures r == 0 || (r < 0 <==> a < 0)
    ensures b * TruncDiv(a, b) + r == a
  {
    var x, y := Abs(a), Abs(b);
    QuotientRemainder(x, y);
    NegateFactor(b, TruncDiv(a, b));
    NegateFactor(-b, TruncDiv(a, b));
    var r: int := x % y;
    if a < 0 then -r else r
  }

  /** Euclidean division of naturals. */
  lemma QuotientRemainder(x: nat, y: nat)
    requires y > 0
    ensures y * NatQuotient(x, y) + x % y == x
    ensures 0 <= x % y < y
  {
  }

  /** Negating dividend and divisor keeps the truncating quotient. */
  lemma TruncDivNegate(a: int, b: int)
    requires b != 0
    ensures TruncDiv(-a, -b) == TruncDiv(a, b)
  {
    assert Abs(-a) == Abs(a) && Abs(-b) == Abs(b);
  }

  /** When b divides a, the truncating quotient is the exact one. */
  lemma TruncDivExact(a: int, b: int)
    requires b != 0 && Divides(Abs(b), Abs(a))
    ensures b * TruncDiv(a, b) == a
  {
    assert TruncRem(a, b) == 0;
  }

  /** c divides a (0 divides only 0). */
  predicate Divides(c: nat, a: nat) {
    if c == 0 then a == 0 else a % c == 0
  }

  lemma DivModUnique(x: nat, y: nat, q: nat, r: nat)
    requires y > 0 && r < y && x == y * q + r
    ensures x / y == q && x % y == r
  {
    var q', r' := x / y, x % y;
    assert y * q + r == y * q' + r';
    if q > q' {
      MulAtLeast(y, q - q');
    } else if q < q' {
      MulAtLeast(y, q' - q);
    }
  }

  lemma MulAtLeast(y: nat, z: int)
    requires z >= 1
    ensures y * z >= y
  {
  }

  /** Scaling dividend and divisor by k > 0 keeps the quotient and scales the remainder. */
  lemma ModScale(x: nat, y: nat, k: nat)
    requires y > 0 && k > 0
    ensures (k * x) / (k * y) == x / y
    ensures (k * x) % (k * y) == k * (x % y)
  {
    var q, r := x / y, x % y;
    assert k * x == (k * y) * q + k * r;
    assert k * r < k * y;
    DivModUnique(k * x, k * y, q, k * r);
  }

  lemma DividesMul(c: nat, m: nat)
    ensures Divides(c, c * m)
  {
    if c > 0 {
      DivModUnique(c * m, c, m, 0);
    }
  }

  lemma DividesWitness(c: nat, a: nat)
    requires c > 0 && Divides(c, a)
    ensures a == c * (a / c)
  {
  }

  /** A common divisor of a and b divides a % b. */
  lemma DividesMod(c: nat, a: nat, b: nat)
    requires b > 0 && Divides(c, a) && Divides(c, b)
    ensures Divides(c, a % b)
  {
    if c > 0 {
      var i, j := a / c, b / c;
      DividesWitness(c, a);
      DividesWitness(c, b);
      var q := a / b;
      assert a % b == a - b * q;
      assert a - b * q == c * (i - j * q) by {
        assert b * q == c * (j * q);
      }
      var m := i - j * q;
      assert m >= 0;
      DividesMul(c, m);
    }
  }

  /** A common divisor of b and r divides b * q + r. */
  lemma DividesLinear(c: nat, b: nat, r: nat, q: nat)
    requires Divides(c, b) && Divides(c, r)
    ensures Divides(c, b * q + r)
  {
    if c > 0 {
      DividesWitness(c, b);
      DividesWitness(c, r);
      var i, j := b / c, r / c;
      assert b * q == c * (i * q);
      assert b * q + r == c * (i * q + j);
      DividesMul(c, i * q + j);
    }
  }

  /** Two naturals that divide each other are equal. */
  lemma DividesAntisym(a: nat, b: nat)
    requires Divides(a, b) && Divides(b, a)
    ensures a == b
  {
    if a > 0 && b > 0 {
      DividesWitness(a, b);
      DividesWitness(b, a);
      assert b / a >= 1 && a / b >= 1;
      assert b >= a by { assert a * (b / a) >= a * 1; }
      assert a >= b by { assert b * (a / b) >= b * 1; }
    }
  }

  lemma NegateFactor(j: int, g: int)
    ensures (-j) * g == -(j * g)
  {
  }

  /** Regrouping a product of three factors. */
  lemma MulRotate(a: int, b: int, c: int)
    ensures a * (b * c) == (b * a) * c
  {
  }
}
