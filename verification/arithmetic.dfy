/** The arithmetic and equality operators of `ariel::Fraction`. Each binary
    operator forms the textbook cross-product pair and hands it to the
    two-argument constructor. Six integer-operand forms first convert the
    integer with `Fraction(int)`; the two subtraction forms, the member `f - k`
    and the friend `k - f`, write out their pair by hand, and the member form
    computes k - f. */
module FractionOps {
  import opened IntArith
  import opened Euclid
  import opened Fractions

  /** The result of `Fraction(n, d)` for a nonzero d, with its value and
      normal-form facts. */
  function Make(n: int, d: int): (r: Fraction)
    requires d != 0
    ensures Value(r) == n as real / d as real
    ensures Normalized(r) && LowestTerms(r)
  {
    ConstructValue(n, d);
    Construct(n, d).value
  }

  /** `a + b`. */
  function Add(a: Fraction, b: Fraction): (r: Fraction)
    ensures Value(r) == Value(a) + Value(b)
    ensures Normalized(r)
  {
    SumValue(a.numerator, a.denominator, b.numerator, b.denominator);
    Make(a.numerator * b.denominator + b.numerator * a.denominator, a.denominator * b.denominator)
  }

  /** `a - b`. */
  function Sub(a: Fraction, b: Fraction): (r: Fraction)
    ensures Value(r) == Value(a) - Value(b)
    ensures Normalized(r)
  {
    DifferenceValue(a.numerator, a.denominator, b.numerator, b.denominator);
    Make(a.numerator * b.denominator - b.numerator * a.denominator, a.denominator * b.denominator)
  }

  /** `a * b`. */
  function Mul(a: Fraction, b: Fraction): (r: Fraction)
    ensures Value(r) == Value(a) * Value(b)
    ensures Normalized(r)
  {
    ProductValue(a.numerator, a.denominator, b.numerator, b.denominator);
    Make(a.numerator * b.numerator, a.denominator * b.denominator)
  }

  /** `a / b`: the constructor throws when b's numerator is zero, because the
      new denominator a.denominator * b.numerator is then zero. */
  function Div(a: Fraction, b: Fraction): (r: Result<Fraction>)
    ensures r.Failure? <==> b.numerator == 0
    ensures r.Failure? ==> r.error == InvalidArgument
    ensures b.numerator != 0 ==> Value(b) != 0.0 && r.Success? && Value(r.value) == Value(a) / Value(b)
    ensures r.Success? ==> Normalized(r.value)
  {
    var n, d := a.numerator * b.denominator, a.denominator * b.numerator;
    if b.numerator == 0 then
      assert d == 0;
      Construct(n, d)
    else
      QuotientValue(a.numerator, a.denominator, b.numerator, b.denominator);
      Success(Make(n, d))
  }

  /** `f + k` (member) */
  function AddInt(f: Fraction, k: int): (r: Fraction)
    ensures Value(r) == Value(f) + k as real
    ensures Normalized(r)
  {
    Add(f, FromInt(k))
  }

  /** `k + f` (friend) */
  function IntAdd(k: int, f: Fraction): (r: Fraction)
    ensures Value(r) == k as real + Value(f)
    ensures Normalized(r)
  {
    Add(FromInt(k), f)
  }

  /** `f - k` (member), as written: the body computes k * f.denominator -
      f.numerator, the value of k - f. */
  function SubInt(f: Fraction, k: int): (r: Fraction)
    ensures Value(r) == k as real - Value(f)
    ensures Normalized(r)
  {
    DifferenceValue(k, 1, f.numerator, f.denominator);
    Make(k * f.denominator - f.numerator, f.denominator)
  }

  /** `f - k` as the sibling member `f - double` computes it
      (sources/Fraction.hpp:216-218): f minus the converted integer. */
  function SubIntIntended(f: Fraction, k: int): (r: Fraction)
    ensures Value(r) == Value(f) - k as real
    ensures Normalized(r)
  {
    Sub(f, FromInt(k))
  }

  /** `k - f` (friend) */
  function IntSub(k: int, f: Fraction): (r: Fraction)
    ensures Value(r) == k as real - Value(f)
    ensures Normalized(r)
  {
    DifferenceValue(k, 1, f.numerator, f.denominator);
    Make(k * f.denominator - f.numerator, f.denominator)
  }

  /** `f * k` (member) */
  function MulInt(f: Fraction, k: int): (r: Fraction)
    ensures Value(r) == Value(f) * k as real
    ensures Normalized(r)
  {
    MulValues(f, FromInt(k), Value(f), k as real);
    Mul(f, FromInt(k))
  }

  /** `k * f` (friend) */
  function IntMul(k: int, f: Fraction): (r: Fraction)
    ensures Value(r) == k as real * Value(f)
    ensures Normalized(r)
  {
    MulValues(FromInt(k), f, k as real, Value(f));
    Mul(FromInt(k), f)
  }

  /** `f / k` (member): throws when k is zero. */
  function DivInt(f: Fraction, k: int): (r: Result<Fraction>)
    ensures r.Failure? <==> k == 0
    ensures k != 0 ==> r.Success? && Value(r.value) == Value(f) / k as real
    ensures r.Success? ==> Normalized(r.value)
  {
    Div(f, FromInt(k))
  }

  /** `k / f` (friend): throws when f is zero. */
  function IntDiv(k: int, f: Fraction): (r: Result<Fraction>)
    ensures r.Failure? <==> f.numerator == 0
    ensures f.numerator != 0 ==> Value(f) != 0.0 && r.Success? && Value(r.value) == k as real / Value(f)
    ensures r.Success? ==> Normalized(r.value)
  {
    Div(FromInt(k), f)
  }

  /** Unary `+f`: runs the constructor on f's own fields. */
  function Plus(f: Fraction): (r: Fraction)
    ensures Value(r) == Value(f)
    ensures Normalized(r)
  {
    RepresentsValue(f, f.numerator, f.denominator);
    Make(f.numerator, f.denominator)
  }

  /** Unary `-f`: the constructor applied to the negated numerator. */
  function Neg(f: Fraction): (r: Fraction)
    ensures Value(r) == -Value(f)
    ensures Normalized(r)
  {
    NegationValue(f.numerator, f.denominator);
    Make(-f.numerator, f.denominator)
  }

  /** `a == b` between fractions: field by field. */
  function Eq(a: Fraction, b: Fraction): (r: bool)
    ensures r <==> a == b
  {
    a.numerator == b.numerator && a.denominator == b.denominator
  }

  /** `a != b` between fractions: some field differs. */
  function Ne(a: Fraction, b: Fraction): (r: bool)
    ensures r <==> !Eq(a, b)
  {
    a.numerator != b.numerator || a.denominator != b.denominator
  }

  /** On normalized fractions the field-wise `==` is equality of rational
      values, in both directions. */
  lemma NormalizedEqIff(a: Fraction, b: Fraction)
    requires Normalized(a) && Normalized(b)
    ensures Eq(a, b) <==> Value(a) == Value(b)
  {
    NormalizedIff(a);
    NormalizedIff(b);
    ConstructEqIff(a.numerator, a.denominator, b.numerator, b.denominator);
    RepresentsValue(a, b.numerator, b.denominator);
  }

  /** `f + k == k + f`, field for field. */
  lemma AddIntSymmetric(f: Fraction, k: int)
    ensures AddInt(f, k) == IntAdd(k, f)
  {
  }

  /** `f * k == k * f`, field for field. */
  lemma MulIntSymmetric(f: Fraction, k: int)
    ensures MulInt(f, k) == IntMul(k, f)
  {
  }

  /** The member `f - k` returns exactly what the friend `k - f` returns. */
  lemma SubIntReversed(f: Fraction, k: int)
    ensures SubInt(f, k) == IntSub(k, f)
  {
  }

  /** The member `f - k` agrees with f minus k only when f's value is k. */
  lemma SubIntDefect(f: Fraction, k: int)
    ensures SubInt(f, k) == SubIntIntended(f, k) <==> Value(f) == k as real
  {
    NormalizedEqIff(SubInt(f, k), SubIntIntended(f, k));
  }

  /** `Fraction(0) - 1` stores 1/1; zero minus one is -1/1. */
  lemma SubIntCounterexample()
    ensures SubInt(FromInt(0), 1) == FromInt(1)
    ensures SubIntIntended(FromInt(0), 1) == FromInt(-1)
  {
    IntConstructorsCanonical(1);
    IntConstructorsCanonical(-1);
    NormalizedEqIff(SubInt(FromInt(0), 1), FromInt(1));
    NormalizedEqIff(SubIntIntended(FromInt(0), 1), FromInt(-1));
  }

  /** Unary `+` leaves a normalized fraction unchanged. */
  lemma PlusIdentity(f: Fraction)
    requires Normalized(f)
    ensures Plus(f) == f
  {
    NormalizedEqIff(Plus(f), f);
  }

  /** Negating twice gives back the value, in normal form. */
  lemma NegNeg(f: Fraction)
    ensures Neg(Neg(f)) == Plus(f)
  {
    NormalizedEqIff(Neg(Neg(f)), Plus(f));
  }

  /** 1/2 + 1/3 == 5/6 */
  lemma AddExample()
    ensures Add(FractionFields(1, 2), FractionFields(1, 3)) == FractionFields(5, 6)
  {
    assert TruncRem(5, 6) == 5 && TruncRem(6, 5) == 1 && TruncRem(5, 1) == 0;
    NormalizedEqIff(Add(FractionFields(1, 2), FractionFields(1, 3)), FractionFields(5, 6));
  }

  /** 1/2 * 1/3 == 1/6 */
  lemma MulExample()
    ensures Mul(FractionFields(1, 2), FractionFields(1, 3)) == FractionFields(1, 6)
  {
    assert TruncRem(1, 6) == 1 && TruncRem(6, 1) == 0;
    NormalizedEqIff(Mul(FractionFields(1, 2), FractionFields(1, 3)), FractionFields(1, 6));
  }

  /** (1/2) / (1/3) == 3/2, and 1/2 divided by 0/1 throws. */
  lemma DivExamples()
    ensures Div(FractionFields(1, 2), FractionFields(1, 3)) == Stored(3, 2)
    ensures Div(FractionFields(1, 2), Default()) == Failure(InvalidArgument)
  {
    assert TruncRem(3, 2) == 1 && TruncRem(2, 1) == 0;
    NormalizedEqIff(Div(FractionFields(1, 2), FractionFields(1, 3)).value, FractionFields(3, 2));
  }

  /** The value of a product, stated over the factors' values. */
  lemma MulValues(a: Fraction, b: Fraction, x: real, y: real)
    requires Value(a) == x && Value(b) == y
    ensures Value(Mul(a, b)) == x * y
  {
  }

  // Rational identities over the cross-product pairs the operators build.

  lemma SumValue(a: int, b: int, c: int, d: int)
    requires b != 0 && d != 0
    ensures b * d != 0
    ensures (a * d + c * b) as real / (b * d) as real == a as real / b as real + c as real / d as real
  {
    var x, y, u, v := a as real, b as real, c as real, d as real;
    assert (a * d + c * b) as real == x * v + u * y;
    assert (b * d) as real == y * v;
  }

  lemma DifferenceValue(a: int, b: int, c: int, d: int)
    requires b != 0 && d != 0
    ensures b * d != 0
    ensures (a * d - c * b) as real / (b * d) as real == a as real / b as real - c as real / d as real
  {
    var x, y, u, v := a as real, b as real, c as real, d as real;
    assert (a * d - c * b) as real == x * v - u * y;
    assert (b * d) as real == y * v;
  }

  lemma ProductValue(a: int, b: int, c: int, d: int)
    requires b != 0 && d != 0
    ensures b * d != 0
    ensures (a * c) as real / (b * d) as real == (a as real / b as real) * (c as real / d as real)
  {
    var x, y, u, v := a as real, b as real, c as real, d as real;
    assert (a * c) as real == x * u;
    assert (b * d) as real == y * v;
  }

  lemma QuotientValue(a: int, b: int, c: int, d: int)
    requires b != 0 && c != 0 && d != 0
    ensures b * c != 0 && c as real / d as real != 0.0
    ensures (a * d) as real / (b * c) as real == (a as real / b as real) / (c as real / d as real)
  {
    var x, y, u, v := a as real, b as real, c as real, d as real;
    assert (a * d) as real == x * v;
    assert (b * c) as real == y * u;
  }

  lemma NegationValue(a: int, b: int)
    requires b != 0
    ensures (-a) as real / b as real == -(a as real / b as real)
  {
  }
}
