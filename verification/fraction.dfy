/** The `ariel::Fraction` value type: its two `int` fields, the constructors,
    and the normalisation every result goes through (reject a zero
    denominator, move the sign into the numerator, divide by `__gcd`). */
module Fractions {
  import opened IntArith
  import opened Euclid

  /** The one error the type raises: `std::invalid_argument`. */
  datatype Error = InvalidArgument

  /** A value, or the exception the constructor throws. */
  datatype Result<T> = Success(value: T) | Failure(error: Error)

  /** The two stored fields. */
  datatype FractionFields = FractionFields(numerator: int, denominator: int)

  /** Every way of building a `Fraction` leaves a nonzero denominator. */
  type Fraction = f: FractionFields | f.denominator != 0 witness FractionFields(0, 1)

  /** The rational number the fraction stands for. */
  function Value(f: Fraction): real {
    f.numerator as real / f.denominator as real
  }

  /** f stands for the rational n / d (cross-multiplication). */
  predicate Represents(f: Fraction, n: int, d: int) {
    f.numerator * d == n * f.denominator
  }

  /** Numerator and denominator have no common factor. */
  predicate LowestTerms(f: Fraction) {
    Gcd(Abs(f.numerator), Abs(f.denominator)) == 1
  }

  /** A successful construction that stores the fields n and d. */
  function Stored(n: int, d: int): Result<Fraction>
    requires d != 0
  {
    Success(FractionFields(n, d))
  }

  /** The default constructor `Fraction()`. */
  function Default(): (r: Fraction)
    ensures Value(r) == 0.0 && Normalized(r)
  {
    FractionFields(0, 1)
  }

  /** The converting constructor `Fraction(int)`: k over 1, not reduced. */
  function FromInt(k: int): (r: Fraction)
    ensures Value(r) == k as real && Normalized(r)
  {
    assert TruncRem(k, 1) == 0;
    FractionFields(k, 1)
  }

  /** The sign step of `Fraction(int, int)`: both fields are negated when the
      denominator is negative. */
  function SignStep(n: int, d: int): (f: Fraction)
    requires d != 0
    ensures f.denominator > 0
    ensures Abs(f.numerator) == Abs(n) && Abs(f.denominator) == Abs(d)
    ensures Represents(f, n, d)
  {
    if d < 0 then FractionFields(-n, -d) else FractionFields(n, d)
  }

  /** `reduce()`: divide both fields by `__gcd(numerator, denominator)`. The
      quotient's denominator is positive exactly when the gcd and the old
      denominator have the same sign. */
  function Reduce(f: Fraction): (r: Fraction)
    ensures Represents(r, f.numerator, f.denominator)
    ensures LowestTerms(r)
    ensures r.denominator > 0 <==> (f.denominator > 0 <==> TruncGcd(f.numerator, f.denominator) > 0)
  {
    var g := TruncGcd(f.numerator, f.denominator);
    ReduceFacts(f.numerator, f.denominator);
    FractionFields(TruncDiv(f.numerator, g), TruncDiv(f.denominator, g))
  }

  lemma ReduceFacts(n: int, d: int)
    requires d != 0
    ensures TruncGcd(n, d) != 0
    ensures var g := TruncGcd(n, d);
      && TruncDiv(d, g) != 0
      && Gcd(Abs(TruncDiv(n, g)), Abs(TruncDiv(d, g))) == 1
      && TruncDiv(n, g) * d == n * TruncDiv(d, g)
      && (TruncDiv(d, g) > 0 <==> (d > 0 <==> g > 0))
  {
    var g := TruncGcd(n, d);
    TruncGcdDivides(n, d);
    TruncDivExact(n, g);
    TruncDivExact(d, g);
    QuotientFacts(n, d, g, TruncDiv(n, g), TruncDiv(d, g));
  }

  /** Dividing n and d exactly by a gcd g of either sign leaves a pair in
      lowest terms that stands for the same rational. */
  lemma QuotientFacts(n: int, d: int, g: int, n': int, d': int)
    requires d != 0 && g * n' == n && g * d' == d
    requires Abs(g) == Gcd(Abs(n), Abs(d))
    ensures d' != 0
    ensures Gcd(Abs(n'), Abs(d')) == 1
    ensures n' * d == n * d'
    ensures d' > 0 <==> (d > 0 <==> g > 0)
  {
    AbsMul(g, n');
    AbsMul(g, d');
    GcdScale(Abs(n'), Abs(d'), Abs(g));
    CancelLeft(Abs(g), Gcd(Abs(n'), Abs(d')), 1);
    MulRotate(n', g, d');
    SignOfProduct(g, d');
  }

  lemma SignOfProduct(a: int, b: int)
    requires a != 0 && b != 0
    ensures a * b > 0 <==> (a > 0 <==> b > 0)
  {
    if a > 0 && b < 0 {
      assert a * b == -(a * (-b));
    } else if a < 0 && b > 0 {
      assert a * b == -((-a) * b);
    } else if a < 0 && b < 0 {
      assert a * b == (-a) * (-b);
    }
  }

  lemma AbsMul(a: int, b: int)
    ensures Abs(a * b) == Abs(a) * Abs(b)
  {
    if a < 0 && b < 0 {
      assert a * b == (-a) * (-b);
    } else if a < 0 {
      assert -(a * b) == (-a) * b;
    } else if b < 0 {
      assert -(a * b) == a * (-b);
    }
  }

  /** Reducing (-n, -d) stores the same fields as reducing (n, d). */
  lemma ReduceNegateBoth(n: int, d: int)
    requires d != 0
    ensures Reduce(FractionFields(-n, -d)) == Reduce(FractionFields(n, d))
  {
    var t := TruncGcd(n, d);
    TruncGcdNegate(n, d);
    TruncGcdNonzero(n, d);
    TruncDivNegate(n, t);
    TruncDivNegate(d, t);
  }

  /** The sign step has no effect on the result: reducing the raw pair gives
      the same fields, because `__gcd` changes sign with its arguments. */
  lemma ConstructIsReduce(n: int, d: int)
    requires d != 0
    ensures Construct(n, d) == Success(Reduce(FractionFields(n, d)))
  {
    if d < 0 {
      ReduceNegateBoth(n, d);
    }
  }

  /** A fraction the constructor leaves as it is: `__gcd` of its fields is
      exactly 1 (see NormalizedIff). */
  predicate Normalized(f: Fraction) {
    TruncGcd(f.numerator, f.denominator) == 1
  }

  /** Normalized fractions are exactly the fixed points of the constructor. */
  lemma NormalizedIff(f: Fraction)
    ensures Normalized(f) <==> Construct(f.numerator, f.denominator) == Success(f)
  {
    var n, d := f.numerator, f.denominator;
    var t := TruncGcd(n, d);
    ConstructIsReduce(n, d);
    TruncGcdNonzero(n, d);
    TruncGcdDivides(n, d);
    TruncDivExact(n, t);
    TruncDivExact(d, t);
    if Reduce(f) == f {
      assert t * d == d;
      CancelLeft(d, t, 1);
    }
  }

  /** `reduce()` always leaves `__gcd` of the new fields equal to 1. */
  lemma ReduceNormalized(f: Fraction)
    ensures Normalized(Reduce(f))
  {
    var n, d := f.numerator, f.denominator;
    var t := TruncGcd(n, d);
    var r := Reduce(f);
    ReduceFacts(n, d);
    TruncGcdDivides(n, d);
    TruncDivExact(n, t);
    TruncDivExact(d, t);
    assert n == t * r.numerator && d == t * r.denominator;
    TruncGcdScaleSigned(r.numerator, r.denominator, t);
    assert t == t * TruncGcd(r.numerator, r.denominator);
    CancelLeft(t, TruncGcd(r.numerator, r.denominator), 1);
  }

  /** The constructor `Fraction(numerator, denominator)`. */
  function Construct(n: int, d: int): (r: Result<Fraction>)
    ensures d == 0 ==> r == Failure(InvalidArgument)
    ensures d != 0 ==> r.Success? && Represents(r.value, n, d) && LowestTerms(r.value)
    ensures d != 0 ==> (r.value.denominator > 0 <==> TruncGcd(SignStep(n, d).numerator, Abs(d)) > 0)
    ensures d != 0 ==> Normalized(r.value)
  {
    if d == 0 then Failure(InvalidArgument)
    else
      var f := SignStep(n, d);
      CrossTrans(Reduce(f), f, n, d);
      ReduceNormalized(f);
      Success(Reduce(f))
  }

  /** If r stands for f and f for n / d, then r stands for n / d. */
  lemma CrossTrans(r: Fraction, f: Fraction, n: int, d: int)
    requires Represents(r, f.numerator, f.denominator) && Represents(f, n, d)
    ensures Represents(r, n, d)
  {
    var a, b, x, y := r.numerator, r.denominator, f.numerator, f.denominator;
    // a * y == x * b and x * d == n * y, so y * (a * d) == y * (n * b)
    assert y * (a * d) == (a * y) * d == (x * b) * d == b * (x * d) == b * (n * y);
    CancelLeft(y, a * d, n * b);
  }

  lemma CancelLeft(c: int, x: int, y: int)
    requires c != 0 && c * x == c * y
    ensures x == y
  {
    assert c * (x - y) == 0;
  }

  /** If d0 and d1 are positive and n0 / d0 == n1 / d1, both in lowest terms,
      then the pairs are equal: a rational has one such representation. */
  lemma {:induction false} LowestTermsUnique(p: Fraction, q: Fraction)
    requires p.denominator > 0 && q.denominator > 0
    requires LowestTerms(p) && LowestTerms(q)
    requires p.numerator * q.denominator == q.numerator * p.denominator
    ensures p == q
  {
    DenominatorDivides(p, q);
    DenominatorDivides(q, p);
    DividesAntisym(p.denominator, q.denominator);
    CancelLeft(p.denominator, p.numerator, q.numerator);
  }

  lemma DenominatorDivides(p: Fraction, q: Fraction)
    requires p.denominator > 0 && q.denominator > 0 && LowestTerms(p)
    requires p.numerator * q.denominator == q.numerator * p.denominator
    ensures Divides(p.denominator, q.denominator)
  {
    var a, b, c, d := p.numerator, p.denominator, q.numerator, q.denominator;
    // Gcd(d * |a|, d * b) == d, and b divides both arguments
    GcdScale(Abs(a), b, d);
    DividesMul(b, d);
    AbsCross(a, b, c, d);
    DividesMul(b, Abs(c));
    GcdGreatest(b, d * Abs(a), d * b);
  }

  /** Cross-multiplied magnitudes over positive denominators. */
  lemma AbsCross(a: int, b: int, c: int, d: int)
    requires b > 0 && d > 0 && a * d == c * b
    ensures d * Abs(a) == b * Abs(c)
  {
    AbsMul(a, d);
    AbsMul(c, b);
  }

  /** The normal form the type documents: positive denominator, both fields
      divided by the non-negative greatest common divisor. */
  function Canonical(f: Fraction): (r: Fraction)
    requires f.denominator > 0
    ensures r.denominator > 0
    ensures Represents(r, f.numerator, f.denominator)
    ensures LowestTerms(r)
  {
    var g := Gcd(Abs(f.numerator), f.denominator);
    GcdIsGcd(Abs(f.numerator), f.denominator);
    TruncDivExact(f.numerator, g);
    TruncDivExact(f.denominator, g);
    QuotientFacts(f.numerator, f.denominator, g, TruncDiv(f.numerator, g), TruncDiv(f.denominator, g));
    FractionFields(TruncDiv(f.numerator, g), TruncDiv(f.denominator, g))
  }

  /** The constructor as the type documents it: reject a zero denominator and
      return the canonical form of n / d. */
  function ConstructCanonical(n: int, d: int): (r: Result<Fraction>)
    ensures d == 0 ==> r == Failure(InvalidArgument)
    ensures d != 0 ==> r.Success? && r.value.denominator > 0
    ensures d != 0 ==> Represents(r.value, n, d) && LowestTerms(r.value)
  {
    if d == 0 then Failure(InvalidArgument)
    else
      var f := SignStep(n, d);
      CrossTrans(Canonical(f), f, n, d);
      Success(Canonical(f))
  }

  /** If two fractions both stand for n / d, then n / d == m / e follows from
      their standing for m / e. */
  lemma CrossCancel(f: Fraction, n: int, d: int, m: int, e: int)
    requires d != 0 && e != 0
    requires Represents(f, n, d) && Represents(f, m, e)
    ensures n * e == m * d
  {
    var a, b := f.numerator, f.denominator;
    assert b * (n * e) == (n * b) * e == (a * d) * e == d * (a * e) == d * (m * b) == b * (m * d);
    CancelLeft(b, n * e, m * d);
  }

  /** Two pairs that stand for the same rational have the same canonical form,
      and conversely. */
  lemma ConstructCanonicalEqIff(n: int, d: int, m: int, e: int)
    requires d != 0 && e != 0
    ensures ConstructCanonical(n, d) == ConstructCanonical(m, e) <==> n * e == m * d
  {
    var p, q := ConstructCanonical(n, d).value, ConstructCanonical(m, e).value;
    if n * e == m * d {
      CrossLink(p, q, n, d, m, e);
      LowestTermsUnique(p, q);
    }
    if p == q {
      CrossCancel(p, n, d, m, e);
    }
  }

  /** Fractions standing for equal rationals n / d == m / e cross-multiply equal. */
  lemma CrossLink(p: Fraction, q: Fraction, n: int, d: int, m: int, e: int)
    requires d != 0 && e != 0 && n * e == m * d
    requires Represents(p, n, d) && Represents(q, m, e)
    ensures p.numerator * q.denominator == q.numerator * p.denominator
  {
    var a, b, x, y := p.numerator, p.denominator, q.numerator, q.denominator;
    calc {
      (a * y) * (d * e);
    == { Swap4(a, y, d, e); }
      (a * d) * (y * e);
    == // p stands for n / d
      (n * b) * (e * y);
    == { Swap4(n, b, e, y); }
      (n * e) * (b * y);
    == // n / d == m / e
      (m * d) * (y * b);
    == { Swap4(m, d, y, b); }
      (m * y) * (d * b);
    == // q stands for m / e
      (x * e) * (d * b);
    == { Swap4(x, e, d, b); }
      (x * d) * (e * b);
    == { Swap4(x, d, b, e); }
      (x * b) * (d * e);
    }
    CancelLeft(d * e, a * y, x * b);
  }

  /** (p * q) * (r * s) == (p * r) * (q * s) */
  lemma Swap4(p: int, q: int, r: int, s: int)
    ensures (p * q) * (r * s) == (p * r) * (q * s)
  {
  }

  /** For a positive denominator, `reduce()` yields the canonical form times a
      unit s == __gcd of the canonical pair: the sign `__gcd` picks depends on
      the rational alone. */
  lemma {:induction false} ReduceIsSignedCanonical(f: Fraction)
    requires f.denominator > 0
    ensures var c := Canonical(f);
      var s := TruncGcd(c.numerator, c.denominator);
      && (s == 1 || s == -1)
      && Reduce(f) == FractionFields(c.numerator * s, c.denominator * s)
  {
    var c := Canonical(f);
    var s := TruncGcd(c.numerator, c.denominator);
    var g := Gcd(Abs(f.numerator), f.denominator);
    GcdIsGcd(Abs(f.numerator), f.denominator);
    TruncDivExact(f.numerator, g);
    TruncDivExact(f.denominator, g);
    assert f.numerator == g * c.numerator && f.denominator == g * c.denominator;
    TruncGcdScale(c.numerator, c.denominator, g);
    var t := TruncGcd(f.numerator, f.denominator);
    assert t == g * s;
    AbsMul(g, s);
    CancelLeft(g, Abs(s), 1);
    TruncGcdNonzero(f.numerator, f.denominator);
    TruncDivExact(f.numerator, t) by { TruncGcdDivides(f.numerator, f.denominator); }
    TruncDivExact(f.denominator, t) by { TruncGcdDivides(f.numerator, f.denominator); }
    UnitQuotient(g, s, c.numerator, TruncDiv(f.numerator, t));
    UnitQuotient(g, s, c.denominator, TruncDiv(f.denominator, t));
  }

  lemma UnitQuotient(g: int, s: int, x: int, q: int)
    requires g != 0 && (s == 1 || s == -1)
    requires (g * s) * q == g * x
    ensures q == x * s
  {
    assert g * (s * q) == g * x;
    CancelLeft(g, s * q, x);
  }

  /** The constructor's result is the canonical form or its field-wise
      negation. */
  lemma ConstructIsSignedCanonical(n: int, d: int)
    requires d != 0
    ensures var c := ConstructCanonical(n, d).value;
      var s := TruncGcd(c.numerator, c.denominator);
      && (s == 1 || s == -1)
      && Construct(n, d).value == FractionFields(c.numerator * s, c.denominator * s)
  {
    ReduceIsSignedCanonical(SignStep(n, d));
  }

  /** Construction is deterministic in the rational: two constructions give
      the same fields exactly when their inputs stand for the same rational.
      This is what makes the field-wise `==` a value comparison, negative
      denominators notwithstanding. */
  lemma ConstructEqIff(n: int, d: int, m: int, e: int)
    requires d != 0 && e != 0
    ensures Construct(n, d) == Construct(m, e) <==> n * e == m * d
  {
    if n * e == m * d {
      ConstructCanonicalEqIff(n, d, m, e);
      ConstructIsSignedCanonical(n, d);
      ConstructIsSignedCanonical(m, e);
    }
    if Construct(n, d) == Construct(m, e) {
      CrossCancel(Construct(n, d).value, n, d, m, e);
    }
  }

  /** Cross-multiplication agrees with the rational value. */
  lemma RepresentsValue(f: Fraction, n: int, d: int)
    requires d != 0
    ensures Represents(f, n, d) <==> Value(f) == n as real / d as real
  {
    var a, b := f.numerator as real, f.denominator as real;
    var x, y := n as real, d as real;
    assert (f.numerator * d) as real == a * y;
    assert (n * f.denominator) as real == x * b;
    assert a / b == x / y <==> a * y == x * b;
  }

  /** The constructed fraction has the value n / d. */
  lemma ConstructValue(n: int, d: int)
    requires d != 0
    ensures Construct(n, d).Success?
    ensures Value(Construct(n, d).value) == n as real / d as real
  {
    RepresentsValue(Construct(n, d).value, n, d);
  }

  /** `Fraction(n, d)` and `Fraction(-n, -d)` store the same fields. */
  lemma ConstructNegateBoth(n: int, d: int)
    ensures Construct(n, d) == Construct(-n, -d)
  {
  }

  /** Zero over any nonzero denominator normalises to 0/1. */
  lemma ConstructZero(d: int)
    requires d != 0
    ensures Construct(0, d) == Stored(0, 1)
  {
    var f := SignStep(0, d);
    assert TruncRem(0, f.denominator) == 0;
    assert TruncGcd(0, f.denominator) == f.denominator;
    assert TruncDiv(f.denominator, f.denominator) == 1;
  }

  /** `Fraction()` and `Fraction(k)` skip the reduction, and need none: they
      equal what the two-argument constructor would build. */
  lemma IntConstructorsCanonical(k: int)
    ensures Construct(0, 1) == Success(Default())
    ensures Construct(k, 1) == Success(FromInt(k))
    ensures Value(Default()) == 0.0 && Value(FromInt(k)) == k as real
  {
    assert TruncRem(k, 1) == 0;
  }

  /** Re-constructing from a constructed fraction's own fields changes nothing. */
  lemma ConstructIdempotent(n: int, d: int)
    requires d != 0
    ensures var f := Construct(n, d).value;
      Construct(f.numerator, f.denominator) == Construct(n, d)
  {
    var f := Construct(n, d).value;
    ConstructEqIff(f.numerator, f.denominator, n, d);
  }

  /** `__gcd` may be negative and then so is the stored denominator:
      `Fraction(-1, 2)` stores 1/-2, and its canonical form is -1/2. */
  lemma ConstructNegativeDenominator()
    ensures Construct(-1, 2) == Stored(1, -2)
    ensures ConstructCanonical(-1, 2) == Stored(-1, 2)
  {
    assert TruncRem(-1, 2) == -1;
    assert TruncRem(2, -1) == 0;
    assert TruncGcd(-1, 2) == -1;
    assert Gcd(1, 2) == 1;
  }

  /** Reduction examples: 2/4 stores 1/2, -2/4 stores 1/-2. */
  lemma ConstructExamples()
    ensures Construct(2, 4) == Stored(1, 2)
    ensures Construct(-2, 4) == Stored(1, -2)
    ensures Construct(1, 0).Failure? && Construct(-1, 0).Failure?
    ensures Construct(1, -1) == Stored(-1, 1)
    ensures Construct(-1, -1) == Stored(1, 1)
  {
    assert TruncGcd(2, 4) == 2 by {
      assert TruncRem(2, 4) == 2;
      assert TruncRem(4, 2) == 0;
    }
    assert TruncGcd(-2, 4) == -2 by {
      assert TruncRem(-2, 4) == -2;
      assert TruncRem(4, -2) == 0;
    }
    assert TruncRem(-1, 1) == 0 && TruncRem(1, 1) == 0;
  }
}
