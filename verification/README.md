# ariel::Fraction in Dafny

A model of the rational-number value type `ariel::Fraction`. A `Fraction`
holds two `int` fields, a numerator and a denominator. The two-argument
constructor throws `std::invalid_argument` on a zero denominator, moves a
negative sign into the numerator, and then divides both fields by `__gcd`.
Every Fraction×Fraction operator (`+ - * /`) builds the textbook cross-product
pair and passes it back through that constructor. Six of the eight
integer-operand forms convert the integer with `Fraction(int)` first. The two
subtraction forms, the member `f - k` and the friend `k - f`, write out their
pair by hand and pass it to the constructor. Unary `+` and `-` also re-run
the constructor. `==` and `!=` compare the stored fields. The string
conversion writes `"numerator/denominator"`.

The model works over unbounded `int`. The C++ operators `/` and `%` truncate
toward zero, so they are written out as `IntArith.TruncDiv` and
`IntArith.TruncRem`; Dafny's own `/` and `%` are Euclidean.

Modules:

- `IntArith` (int_arith.dfy): truncating division and remainder, divisibility.
- `Euclid` (euclid.dfy): a reference `Gcd` on naturals, and `TruncGcd`, the
  source's `__gcd`.
- `Fractions` (fraction.dfy): the fields, the constructors and `reduce`, plus
  the canonical form the documentation describes.
- `FractionOps` (arithmetic.dfy): the arithmetic and equality operators.
- `Render` (render.dfy): the string conversion and a parser that inverts it.

A `Fraction` is the subset type of `FractionFields` whose denominator is
nonzero. Every construction path in the source guarantees that. Values are
stated with `Fractions.Value`, the exact `real` quotient of the two fields.

Points where the code and its documentation part ways (the model follows the
code):

- `__gcd` with a truncating `%` can return a negative number. The stored
  denominator is then negative, even though the constructor has just made it
  positive. For example, `Fraction(-1, 2)` and `Fraction(-2, 4)` both store
  `1/-2`, not `-1/2`. The stored pair still depends only on the rational value
  (`Fractions.ConstructEqIff`), so field-wise `==` remains value equality.
- The header declares the reduction step as `__reduce()`
  (sources/Fraction.hpp:29). Fraction.cpp calls and defines `reduce()`. Both
  names stand for the one function `Fractions.Reduce`.
- The member `f - k` computes `k - f`.
- The sign step in the constructor never changes the outcome. `__gcd(-n, -d)`
  is `-__gcd(n, d)`, so reducing the flipped pair stores the same fields as
  reducing the original pair (`Fractions.ConstructIsReduce`).

A fraction is called normalized (`Fractions.Normalized`) when `__gcd` of its
two fields is exactly 1. `Fractions.NormalizedIff` proves that these are
exactly the fractions the constructor leaves unchanged. Every constructor and
operator returns one.

## Model

| member | source | states |
|---|---|---|
| IntArith.TruncRem | sources/Fraction.hpp:41 | C++ `%`: the remainder is smaller than the divisor in magnitude, takes the dividend's sign when nonzero, and satisfies b * (a / b) + a % b == a with the truncating quotient |
| IntArith.TruncDiv | sources/Fraction.cpp:22-23 | C++ `/` as used by `/=`: the quotient's magnitude is abs(a) / abs(b) rounded down, it is positive only when the operands have the same sign and negative only when their signs differ |
| IntArith.TruncDivExact | sources/Fraction.cpp:22-23 | when the divisor divides the dividend, the truncating `/=` gives the exact quotient |
| Euclid.Gcd | sources/Fraction.hpp:31-39 | reference greatest common divisor on naturals; it is zero only for gcd(0, 0) |
| Euclid.GcdIsGcd | sources/Fraction.hpp:31-39 | Gcd(a, b) divides a and b, and every common divisor of a and b divides it |
| Euclid.TruncGcd | sources/Fraction.hpp:40-42 | `__gcd` terminates, returns a when b == 0, and its absolute value is the greatest common divisor of abs(a) and abs(b) |
| Euclid.TruncGcdNonzero | sources/Fraction.cpp:21-23 | `__gcd(n, d)` is nonzero whenever d is, so `reduce` never divides by zero |
| Euclid.TruncGcdDivides | sources/Fraction.hpp:40-42 | the absolute value of `__gcd(a, b)` divides both a and b |
| Euclid.TruncGcdNegate | sources/Fraction.hpp:40-42 | negating both arguments of `__gcd` negates its result |
| Euclid.TruncGcdScale | sources/Fraction.hpp:40-42 | scaling both arguments by k > 0 scales `__gcd` by k, sign included |
| Fractions.Default | sources/Fraction.hpp:53 | `Fraction()` has the value 0 and is normalized |
| Fractions.FromInt | sources/Fraction.hpp:61 | `Fraction(k)` has the value k and is normalized |
| Fractions.SignStep | sources/Fraction.cpp:10-14 | after the sign step the denominator is positive, both magnitudes are kept, and the value is unchanged |
| Fractions.Reduce | sources/Fraction.cpp:19-24 | the reduced pair has the same value and is in lowest terms; its denominator is positive exactly when the old denominator and `__gcd` have the same sign |
| Euclid.TruncGcdScaleSigned | sources/Fraction.hpp:40-42 | scaling both arguments of `__gcd` by any nonzero k scales the result by k |
| Fractions.ReduceNormalized | sources/Fraction.cpp:19-24 | after `reduce`, `__gcd` of the new fields is exactly 1 |
| Fractions.ReduceNegateBoth | sources/Fraction.cpp:19-24 | reducing (-n, -d) stores the same fields as reducing (n, d) |
| Fractions.Construct | sources/Fraction.cpp:5-17 | fails with InvalidArgument exactly when the denominator is 0, whatever the numerator; otherwise the result has the value n / d, is in lowest terms and normalized, and has a positive denominator exactly when `__gcd` of the sign-normalised pair is positive |
| Fractions.ConstructIsReduce | sources/Fraction.cpp:5-24 | for a nonzero denominator the constructor stores exactly what `reduce` stores for the raw pair, so the sign step has no effect |
| Fractions.NormalizedIff | sources/Fraction.cpp:5-24 | a fraction is a fixed point of the constructor if and only if `__gcd` of its fields is 1 |
| Fractions.ConstructValue | sources/Fraction.cpp:5-24 | the constructed fraction's value is n / d |
| Fractions.ConstructEqIff | sources/Fraction.cpp:5-24 | two constructions give identical fields if and only if their inputs are the same rational |
| Fractions.ReduceIsSignedCanonical | sources/Fraction.cpp:19-24 | for a positive denominator, `reduce` yields the canonical pair multiplied by a unit (+1 or -1), namely `__gcd` of the canonical pair |
| Fractions.ConstructIsSignedCanonical | sources/Fraction.cpp:5-24 | the constructor's result is the canonical form or its field-wise negation |
| Fractions.ConstructNegateBoth | sources/Fraction.cpp:10-16 | `Fraction(n, d)` and `Fraction(-n, -d)` store identical fields |
| Fractions.ConstructZero | sources/Fraction.cpp:10-23 | a zero numerator over any nonzero denominator stores 0/1 |
| Fractions.IntConstructorsCanonical | sources/Fraction.hpp:53-61 | `Fraction()` is 0/1 and `Fraction(k)` is k/1; both equal what the two-argument constructor builds, so skipping the reduction loses nothing |
| Fractions.ConstructIdempotent | sources/Fraction.cpp:5-24 | constructing again from a constructed fraction's own fields returns the same fraction |
| Fractions.ConstructNegativeDenominator | sources/Fraction.cpp:19-24 | `Fraction(-1, 2)` stores 1/-2, while its canonical form is -1/2 |
| Fractions.ConstructExamples | Test.cpp:9-15 | (1,0) and (-1,0) throw; (1,-1) stores -1/1; (-1,-1) stores 1/1; 2/4 stores 1/2; -2/4 stores 1/-2 |
| Fractions.ConstructCanonical | sources/Fraction.hpp:70-77 | the documented constructor: fails exactly on a zero denominator; otherwise gives the value n / d in lowest terms with a positive denominator |
| Fractions.ConstructCanonicalEqIff | sources/Fraction.hpp:70-77 | two canonical constructions agree if and only if their inputs are the same rational |
| FractionOps.Add | sources/Fraction.hpp:160-162 | the value of `a + b` is the sum of the values, and the result is normalized; these two facts fix the result's fields |
| FractionOps.Sub | sources/Fraction.hpp:207-209 | the value of `a - b` is the difference of the values; the result is normalized |
| FractionOps.Mul | sources/Fraction.hpp:252-254 | the value of `a * b` is the product of the values; the result is normalized |
| FractionOps.Div | sources/Fraction.hpp:299-301 | `a / b` throws InvalidArgument exactly when b's numerator is 0; otherwise the value is the quotient of the values and the result is normalized |
| FractionOps.AddInt | sources/Fraction.hpp:188-190 | the value of `f + k` is the value of f plus k |
| FractionOps.IntAdd | sources/Fraction.hpp:198-200 | the value of `k + f` is k plus the value of f |
| FractionOps.SubInt | sources/Fraction.hpp:234-236 | the member `f - k` as written: its value is k minus the value of f |
| FractionOps.SubIntIntended | sources/Fraction.hpp:216-218 | `f - k` computed like the sibling member `f - double`, as `*this - Fraction(num)`: its value is the value of f minus k |
| FractionOps.IntSub | sources/Fraction.hpp:243-245 | the value of `k - f` is k minus the value of f |
| FractionOps.MulInt | sources/Fraction.hpp:280-282 | the value of `f * k` is the value of f times k |
| FractionOps.IntMul | sources/Fraction.hpp:290-292 | the value of `k * f` is k times the value of f |
| FractionOps.DivInt | sources/Fraction.hpp:327-329 | `f / k` throws exactly when k is 0; otherwise its value is the value of f divided by k |
| FractionOps.IntDiv | sources/Fraction.hpp:337-339 | `k / f` throws exactly when f's numerator is 0; otherwise its value is k divided by the value of f |
| FractionOps.Plus | sources/Fraction.hpp:345-347 | unary `+` keeps the value and returns a normalized fraction |
| FractionOps.Neg | sources/Fraction.hpp:353-355 | unary `-` negates the value and returns a normalized fraction |
| FractionOps.Eq | sources/Fraction.hpp:528-530 | `==` holds exactly when the two stored records are identical |
| FractionOps.Ne | sources/Fraction.hpp:575-577 | `!=` is the exact negation of `==` |
| FractionOps.NormalizedEqIff | sources/Fraction.hpp:528-530 | on normalized fractions (every result of the constructors and operators) the field-wise `==` holds if and only if the rational values are equal |
| FractionOps.AddIntSymmetric | sources/Fraction.hpp:188-200 | `f + k` and `k + f` store the same fields |
| FractionOps.MulIntSymmetric | sources/Fraction.hpp:280-292 | `f * k` and `k * f` store the same fields |
| FractionOps.SubIntReversed | sources/Fraction.hpp:234-245 | the member `f - k` returns exactly what the friend `k - f` returns |
| FractionOps.SubIntDefect | sources/Fraction.hpp:229-236 | the member `f - k` agrees with f minus k if and only if the value of f is k |
| FractionOps.SubIntCounterexample | sources/Fraction.hpp:234-236 | `Fraction(0) - 1` stores 1/1, where zero minus one is -1/1 |
| FractionOps.PlusIdentity | sources/Fraction.hpp:345-347 | unary `+` returns a normalized fraction unchanged |
| FractionOps.NegNeg | sources/Fraction.hpp:353-355 | negating twice gives the normal form of the original value |
| FractionOps.AddExample | sources/Fraction.hpp:160-162 | 1/2 + 1/3 stores 5/6 |
| FractionOps.MulExample | sources/Fraction.hpp:252-254 | 1/2 * 1/3 stores 1/6 |
| FractionOps.DivExamples | sources/Fraction.hpp:299-301 | (1/2) / (1/3) stores 3/2; 1/2 divided by 0/1 throws InvalidArgument |
| Render.IntToString | sources/Fraction.hpp:823 | `std::to_string(int)` text is non-empty, has no '/', and starts with '-' exactly for negative numbers |
| Render.IntRoundTrip | sources/Fraction.hpp:823 | reading the decimal text of an int gives the int back |
| Render.ToString | sources/Fraction.hpp:822-824 | the rendering contains the separator '/' |
| Render.ToStringRoundTrip | sources/Fraction.hpp:822-824 | parsing "numerator/denominator" gives back the same fields |
| Render.ToStringInjective | sources/Fraction.hpp:822-824 | two fractions render the same text if and only if their fields are equal |
| Render.ToStringExamples | sources/Fraction.hpp:822-824 | 3/4 renders "3/4"; the stored 1/-2 renders "1/-2" |

## Findings

| source | as written | input that shows it | evidently intended | confidence | as-written member | corrected member |
|---|---|---|---|---|---|---|
| sources/Fraction.cpp:19-24 | `reduce` divides by `__gcd`, whose truncating `%` (sources/Fraction.hpp:41) can return a negative gcd, which makes the denominator negative again after the sign step | `Fraction(-1, 2)` stores 1/-2 (also `Fraction(-2, 4)`) | divide by the non-negative gcd, so the denominator stays positive: -1/2 | not executed | Fractions.ConstructNegativeDenominator | Fractions.ConstructCanonical |
| sources/Fraction.hpp:234-236 | member `f - k` returns `Fraction(num * denominator - numerator, denominator)`, which is k - f | `Fraction(0) - 1` stores 1/1 | f minus k, as the other `f - x` overloads compute: -1/1 | not executed | FractionOps.SubIntCounterexample | FractionOps.SubIntIntended |

The operators are modelled as the code stands, so they use `Construct` and
`SubInt`. Two corrected members are defined and proved. `ConstructCanonical`
gives a positive denominator, lowest terms and the right value. The proof of
`Fractions.ConstructEqIff` runs through it, via
`Fractions.ConstructIsSignedCanonical`. `SubIntIntended` is proved to give
f − k. `FractionOps.SubIntDefect` shows that the as-written and intended `f - k`
agree only when f equals k.

## Left out

- `Fraction(double)` and every `double`-operand operator (sources/Fraction.hpp:68, 169-181, 216-227, 261-273, 308-320): floating point. The double constructor's definition is not part of this model.
- The relational operators `< > <= >=`, and `==`/`!=` against `int` or `double` (sources/Fraction.hpp:537-568, 584-803): the source computes all of them with `double` division and comparison, which is floating-point rounding.
- `operator double` (sources/Fraction.hpp:814-816): floating point.
- The stream operators (sources/Fraction.hpp:135-148): I/O. `<<` writes the same text as `Render.ToString`, and `>>` is an empty stub.
- Assignment, compound assignment, and increment/decrement (sources/Fraction.hpp:109-122, 368-480, 487-516): marked `@TODO` in the source. They return `*this` unchanged, so there is no implemented behaviour to model.
- The copy and move constructors and the destructor (sources/Fraction.hpp:83-96): plain field copies.
- Fixed-width `int` overflow: the model uses unbounded integers. The source's cross-products (for example `denominator * other.denominator`) and the sign flip of `INT_MIN` can overflow; the model does not reproduce that.
- Test.cpp: a doctest harness. Its four cases appear as `Fractions.ConstructExamples`.
