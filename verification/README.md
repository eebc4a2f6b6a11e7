# static_poly in Dafny

A model of `static_poly<T, N>`, a C++ polynomial type whose capacity N is
fixed at compile time, and of the code built around it:

- the container: construction, `degree()`, `operator bool` and the scalar
  compound operators;
- polynomial sum, difference, negation, the full product (capacity N1 + N2)
  and the same-capacity "headroom" product `detail::mul`;
- `power<e>`, exponentiation by squaring on the headroom product;
- division by Knuth's Algorithm D (field coefficients) and Algorithm R
  (pseudo-division, integer coefficients), from The Art of Computer
  Programming, Vol. 2, 3rd ed., section 4.6.1, with `integer_power`,
  `quotient_remainder` and the free `/` and `%`;
- equality and ordering, degree first and independent of capacity;
- the canonical text form written by the stream inserter, with `xpow`,
  `ifnotone` and the `is_negative` sign rules;
- Horner evaluation (`evaluate_polynomial`);
- Euclid's `gcd` from the complex example.

A polynomial of capacity N is a `seq<int>` of length N, index 0 holding the
constant term. Capacity is the length of the sequence. `Poly.At` reads
coefficients outside the capacity as zero. `Poly.Equiv` says that two
sequences are the same polynomial whatever their capacities. Integer
coefficients are unbounded `int`. Algorithm D runs over `real`, which stands
for an exact field. C++'s truncating `/` and `%` are written out as
`Arith.TruncDiv` and `Arith.TruncMod`. The reference definitions the
contracts compare against are:

- `Multiplication.Product`, the convolution;
- `Power.PowP`, the repeated product;
- `Evaluate.PolyValue`, the sum of `p[i] * z^i`;
- `Arith.Pow`.

Modules: `Arith`, `Poly` (container, scalar operators, sum and difference),
`Multiplication`, `Power`, `Division` (Algorithm R and the free `/` and `%`),
`FieldDivision` (Algorithm D), `Ordering`, `Render`, `Evaluate`, `Gcd`.

Two facts about the code shape the model:

- The product has capacity N1 + N2, as `operator*` declares
  (static_poly.hpp:321-331), so its top coefficient is always zero.
- `quotient_remainder` on a dividend of smaller capacity returns an empty
  quotient and the dividend (static_poly.hpp:131-138).

## Model

| member | source | states |
|---|---|---|
| `Arith.TruncDiv` | static_poly.hpp:234-239 | C++ integer division truncates toward zero: the remainder `a - b*q` is smaller than the divisor and has the sign of `a` |
| `Arith.TruncMod` | static_poly.hpp:245-247 | C++ `%`: smaller in magnitude than the divisor and either zero or of the dividend's sign |
| `Arith.DividesTruncMod` | complex-example.cpp:11-13 | a divisor of `b` divides `a` exactly when it divides `a % b` |
| `Poly.Degree` | static_poly.hpp:184-189 | the highest index holding a nonzero coefficient, all above it zero, or -1 when every coefficient is zero |
| `Poly.IsNonzero` | static_poly.hpp:255-257 | `bool(p)` holds exactly when some coefficient is nonzero |
| `Poly.Zeros` | static_poly.hpp:150 | the default polynomial has N coefficients and is zero |
| `Poly.Resize` | static_poly.hpp:155-162 | construction copies the first min(N, len) inputs and zero-fills the rest |
| `Poly.ResizeKeepsValue` | static_poly.hpp:171-174 | converting to capacity N keeps the polynomial exactly when every dropped high coefficient is zero |
| `Poly.ResizeRoundTrip` | static_poly.hpp:155-162 | widening and converting back returns the original coefficients |
| `Poly.FromScalar` | static_poly.hpp:164-165 | construction from one value puts it at index 0: degree 0, or -1 when it is zero |
| `Poly.AddScalar` | static_poly.hpp:213-218 | `+=` changes only the constant term |
| `Poly.SubScalar` | static_poly.hpp:220-225 | `-=` changes only the constant term |
| `Poly.AddSubScalarRoundTrip` | static_poly.hpp:213-225 | `-= c` undoes `+= c` |
| `Poly.MulScalar` | static_poly.hpp:227-232 | `*=` scales every coefficient and keeps the capacity |
| `Poly.MulScalarDegree` | static_poly.hpp:227-232 | scaling by a nonzero integer keeps the degree; by zero gives the zero polynomial |
| `Poly.DivScalar` | static_poly.hpp:234-239 | integer `/=` divides every coefficient with truncation toward zero |
| `Poly.ModScalar` | static_poly.hpp:241-253 | integer `%=` leaves each coefficient a remainder smaller than the divisor with the coefficient's sign |
| `Poly.DivModIdentity` | static_poly.hpp:243-247 | `p == c * (p / c) + p % c` for integer coefficients and c != 0 |
| `Poly.FieldDivScalar` | static_poly.hpp:234-239 | over a field `/=` gives coefficients that multiply back to the originals |
| `Poly.FieldModScalar` | static_poly.hpp:248-251 | for a non-integer type `%=` gives the zero polynomial of the same capacity |
| `Poly.PlusScalar` | static_poly.hpp:261-265 | `p + c` has capacity max(N, 1), constant term shifted by c, other terms kept; capacity 0 yields a capacity-1 polynomial holding c |
| `Poly.MinusScalar` | static_poly.hpp:267-271 | `p - c` likewise, the capacity-0 case holding -c |
| `Poly.ScalarMinus` | static_poly.hpp:294-298 | `c - p` has capacity max(N, 1), constant `c - p[0]` and every other coefficient negated |
| `Poly.Add` | static_poly.hpp:305-311 | `a + b` has capacity max(N1, N2) and coefficient i is a[i] + b[i], a missing one counting as zero |
| `Poly.Sub` | static_poly.hpp:313-319 | `a - b` has capacity max(N1, N2) and coefficient i is a[i] - b[i] |
| `Poly.AddCommutes` | static_poly.hpp:305-311 | the sum does not depend on the order of the operands |
| `Poly.AddSubRoundTrip` | static_poly.hpp:305-319 | subtracting b undoes adding it |
| `Poly.AddNegIsZero` | static_poly.hpp:395-401 | `a + (-a)` is the zero polynomial |
| `Poly.AddDegree` | static_poly.hpp:305-311 | the degree of a sum is at most the larger operand degree |
| `Poly.AddEquivLeft` | static_poly.hpp:305-311 | the sum depends only on the left operand's polynomial, not its capacity |
| `Poly.AddEquivRight` | static_poly.hpp:305-311 | the same for the right operand |
| `Poly.Neg` | static_poly.hpp:395-401 | unary minus keeps the capacity and negates every coefficient |
| `Poly.NegInvolutive` | static_poly.hpp:395-401 | negating twice gives the original |
| `Poly.NegDegree` | static_poly.hpp:395-401 | negation keeps the degree |
| `Poly.EquivDegree` | static_poly.hpp:184-189 | the degree depends only on the polynomial, not on the capacity |
| `Multiplication.Product` | static_poly.hpp:321-323 | the product has capacity N1 + N2 |
| `Multiplication.ConvAtOutside` | static_poly.hpp:327-329 | no pair `i + j` reaches below 0 or above N1 + N2 - 2 |
| `Multiplication.ConvAtHigh` | static_poly.hpp:327-329 | above deg a + deg b every product coefficient is zero |
| `Multiplication.ConvAtTop` | static_poly.hpp:327-329 | at deg a + deg b only the two leading coefficients contribute |
| `Multiplication.Mul` | static_poly.hpp:321-331 | `a * b`, with the zero short-circuit and the double accumulation loop, is the convolution: coefficient k sums a[i]*b[j] over i + j == k |
| `Multiplication.MulHeadroom` | static_poly.hpp:336-346 | `detail::mul` with its triangular loop equals the full product cut to capacity N |
| `Multiplication.ProductZeros` | static_poly.hpp:324-326 | a zero operand gives all zeros, and index N1 + N2 - 1 is always zero |
| `Multiplication.ProductDegree` | static_poly.hpp:321-331 | for nonzero integer operands deg(a*b) = deg a + deg b |
| `Multiplication.HeadroomExact` | static_poly.hpp:334-335 | when deg a + deg b < N the product cut to capacity N loses nothing |
| `Multiplication.ConvAtAdd` | static_poly.hpp:321-331 | the product distributes over the sum |
| `Multiplication.ConvAtScale` | static_poly.hpp:321-331 | scaling an operand scales the product |
| `Multiplication.ProductFront` | static_poly.hpp:321-331 | `a * b == a[0]*b + x*(a[1..] * b)` |
| `Multiplication.ProductAssociative` | static_poly.hpp:321-331 | the product is associative as polynomials |
| `Multiplication.ProductCongruence` | static_poly.hpp:321-331 | the product depends only on the operands' polynomials, not their capacities |
| `Multiplication.ProductOneLeft` | static_poly.hpp:321-331 | the constant 1 is a unit of the product |
| `Power.PowPAdd` | static_poly.hpp:403-417 | `b^x * b^y == b^(x+y)`, which the squaring loop relies on |
| `Power.PowPHigh` | static_poly.hpp:403-404 | `b^x` has no coefficient above x * deg b, so it fits in capacity N * e |
| `Power.DegreeFits` | static_poly.hpp:403-404 | x * deg b stays below the capacity N * e for every x <= e |
| `Power.HeadroomStep` | static_poly.hpp:411-415 | each headroom product of two powers inside capacity N * e is the exact power |
| `Power.SquaringStep` | static_poly.hpp:408-415 | the exponent bookkeeping of one squaring round keeps e == done + 2 * base * remaining |
| `Power.WidenedBase` | static_poly.hpp:406-407 | converting b to capacity N * e keeps it equal to b^1 |
| `Power.PowerRound` | static_poly.hpp:411-415 | one squaring round keeps base == b^bp and result == b^rp in capacity N * e while the exponent bookkeeping stays exact |
| `Power.Power` | static_poly.hpp:403-417 | `power<e>(b)` has capacity N * e and equals b multiplied by itself e times |
| `Division.IntegerPower` | static_poly.hpp:50-69 | `integer_power(t, n)` is t^n for every n >= 0 |
| `Division.PseudoStep` | static_poly.hpp:81-91 | one round of Algorithm R keeps lc^(m-n+1) * u == lc^k * (working dividend) + q * v |
| `Division.PseudoFinish` | static_poly.hpp:120-122 | when no quotient coefficient remains, the live part below n is the remainder of the pseudo-division identity |
| `Division.PseudoDivide` | static_poly.hpp:101-123 | Algorithm R: m-n+1 quotient and n remainder coefficients with lc(v)^(m-n+1) * u == q * v + r |
| `Division.QuotientRemainder` | static_poly.hpp:131-138 | a smaller dividend gives (zero, dividend); otherwise the pseudo-division identity holds with deg r < deg v |
| `Division.QuotientCapacity` | static_poly.hpp:349-352 | the corrected quotient capacity is max(N1 - N2 + 1, 1): N1 - N2 + 1 when N1 >= N2, and always one more than the declared max(N1 - N2, 0) |
| `Division.QuotientCapacityAsWrittenDropsTerm` | static_poly.hpp:350 | with the declared capacity max(N1 - N2, 0), x / 1 loses the x term |
| `Division.QuotientFits` | static_poly.hpp:349-352 | the quotient's m-n+1 coefficients fit in N1 - N2 + 1 when the divisor fills its capacity |
| `Division.Quotient` | static_poly.hpp:349-352 | `a / b` has capacity N1 - N2 + 1 and, when the divisor fills its capacity, keeps the whole quotient of the identity |
| `Division.Remainder` | static_poly.hpp:354-357 | `a % b` has capacity min(N1, N2), degree below deg b, and completes the pseudo-division identity with a quotient of m - n + 1 coefficients, none when deg a < deg b |
| `FieldDivision.RConvAtAbove` | static_poly.hpp:38-48 | over a field no product coefficient lies above |q| + deg v |
| `FieldDivision.FieldStep` | static_poly.hpp:38-48 | one round of Algorithm D keeps u == (working dividend) + q * v |
| `FieldDivision.FieldDivide` | static_poly.hpp:101-123 | Algorithm D: m-n+1 quotient and n remainder coefficients with u == q * v + r |
| `FieldDivision.FieldQuotientRemainder` | static_poly.hpp:131-138 | over a field u == q * v + r with deg r < deg v, and a smaller dividend gives (zero, dividend) |
| `Ordering.SameCoefficientsIffEquiv` | static_poly.hpp:359-366 | equal degrees and equal coefficients up to the degree hold exactly when the operands are the same polynomial, whatever their capacities |
| `Ordering.EqualAsWritten` | static_poly.hpp:359-366 | `==` with the loop bound `i < n` as written: the same polynomial always compares equal, and equal operands have the same degree |
| `Ordering.EqualAsWrittenIgnoresLead` | static_poly.hpp:359-366 | with the loop bound `i < n`, x^2 + 1 and 2x^2 + 1 compare equal |
| `Ordering.Equal` | static_poly.hpp:359-366 | with the bound `i <= n`, `==` holds exactly when the operands are the same polynomial |
| `Ordering.EqualIsEquivalence` | static_poly.hpp:359-366 | `==` is reflexive, symmetric and transitive |
| `Ordering.EqualAcrossCapacities` | static_poly.hpp:359-366 | {1,0,1} in capacity 3 equals {1,0,1,0,0} in capacity 5 |
| `Ordering.NotEqual` | static_poly.hpp:368-371 | `!=` holds exactly when the operands are different polynomials |
| `Ordering.Less` | static_poly.hpp:373-379 | the lower degree is the smaller polynomial |
| `Ordering.LessTrichotomy` | static_poly.hpp:373-383 | exactly one of `a < b`, `a == b`, `b < a` holds |
| `Ordering.LessTransitive` | static_poly.hpp:373-379 | `<` is transitive on equal capacities; with `LessTrichotomy` it is a strict total order |
| `Ordering.LessEq` | static_poly.hpp:380-383 | `a <= b`, written `a < b \|\| a == b`, holds exactly when `b < a` does not |
| `Ordering.GreaterEq` | static_poly.hpp:385-388 | `a >= b`, written `!(a < b)`, is `b <= a` |
| `Ordering.Greater` | static_poly.hpp:390-393 | `a > b`, written `!(a <= b)`, is `b < a` |
| `Render.NatToString` | static_poly_io.hpp:176 | the decimal form of a natural number is nonempty, all digits, without leading zeros |
| `Render.NatToStringRoundTrip` | static_poly_io.hpp:176 | the decimal digits read back as the number |
| `Render.IntToStringRoundTrip` | static_poly_io.hpp:176 | a written `int` reads back as itself |
| `Render.IntToStringZero` | static_poly_io.hpp:176 | only zero is written "0" |
| `Render.XPow` | static_poly_io.hpp:37-43 | `xpow{k}` writes nothing exactly for k <= 0 and otherwise starts with "x" |
| `Render.XPowShape` | static_poly_io.hpp:37-43 | `xpow{k}` is "x" for k = 1, "x^k" for k > 1, nothing for k <= 0 |
| `Render.IfNotOne` | static_poly_io.hpp:92-99 | `ifnotone(c)` is "-" exactly when -c is one and empty exactly when c is one |
| `Render.IfNotOneRecovers` | static_poly_io.hpp:92-99 | otherwise it writes c itself |
| `Render.FirstNonzero` | static_poly_io.hpp:120-121 | `find_if` finds the first nonzero component, or the end |
| `Render.NegSwapsCounts` | static_poly_io.hpp:118-124 | negating the components swaps the negative and positive counts and keeps the first nonzero index |
| `Render.IsNegativeAntisymmetric` | static_poly_io.hpp:112-142 | a value and its negation are never both negative; all-zero components are not negative |
| `Render.IsNegativeScalar` | static_poly_io.hpp:101-104 | the scalar `is_negative` is the quaternion and octonion component rule on one component |
| `Render.IsNegativeComplex` | static_poly_io.hpp:106-110 | the complex `is_negative` (negative real part, or zero real part and negative imaginary part) is the component rule on two components |
| `Render.IsNegativeQuaternion` | static_poly_io.hpp:112-125 | a quaternion and its negation are never both negative, and zero is not negative |
| `Render.IsNegativeOctonion` | static_poly_io.hpp:127-142 | the same two guarantees for an octonion |
| `Render.IsNegativeEvenSplitQuaternion` | static_poly_io.hpp:112-125 | (-1, 1, 0, 0) is negative and its negation is not: an even split follows the first nonzero component |
| `Render.IsNegativeNeitherQuaternion` | static_poly_io.hpp:112-125 | (-1, 1, 1, 0) and its negation are both not negative, so the sign test can reject both a value and its negation |
| `Render.IsNegativeMajorityOctonion` | static_poly_io.hpp:127-142 | an octonion whose first nonzero component is negative but whose positive components are in the majority is not negative |
| `Render.MiddleTerm` | static_poly_io.hpp:180-185 | a middle term is empty exactly for a zero coefficient; otherwise it opens with a separator that is " - " exactly when the coefficient is negative |
| `Render.MiddleTerms` | static_poly_io.hpp:180-185 | the middle-term loop adds nothing exactly when every coefficient it visits is zero; when the text after it is empty or opens with a space, so does the whole |
| `Render.ConstantTerm` | static_poly_io.hpp:187-190 | the constant term is empty exactly for zero; otherwise it opens with a separator that is " - " exactly when the constant is negative |
| `Render.Render` | static_poly_io.hpp:168-192 | the text is "0" exactly for the zero polynomial |
| `Render.IntTextReadBack` | static_poly_io.hpp:176 | a written `int` has no space and reads back as that constant at power 0 |
| `Render.LeadingWordReadBack` | static_poly_io.hpp:178 | the leading term `ifnotone(c) << xpow{i}` for c != 0 and i >= 1 has no space and reads back as (c, i), its sign included |
| `Render.MiddleTermReadBack` | static_poly_io.hpp:180-185 | for i >= 1 a nonzero middle term reads back as (c, i), the " - " separator restoring the sign that `ifnotone(-c)` leaves out; a zero coefficient writes nothing |
| `Render.ConstantTermReadBack` | static_poly_io.hpp:187-190 | a nonzero constant reads back as (c, 0), the separator carrying its sign and the text after it its magnitude; zero writes nothing |
| `Render.MiddleTermsReadBack` | static_poly_io.hpp:180-185 | the middle-term loop from i down to 1 reads back as exactly the nonzero coefficients at those powers |
| `Render.RenderLeadingTerm` | static_poly_io.hpp:178-190 | above degree 0 the text opens with the leading term (p[d], d), d = deg p, and the lower terms follow |
| `Render.RenderReadBack` | static_poly_io.hpp:168-192 | reading the text back gives every coefficient of the polynomial |
| `Render.RenderIffSamePolynomial` | static_poly_io.hpp:168-192 | two polynomials are written alike exactly when they are the same polynomial, whatever their capacities |
| `Render.RenderConstant` | static_poly_io.hpp:175-176 | a degree-0 polynomial is written as its constant alone |
| `Render.RenderSameCoefficients` | static_poly_io.hpp:172-191 | the text reads only the degree and the coefficients up to it |
| `Render.RenderEquiv` | static_poly_io.hpp:168-192 | the text depends only on the polynomial, not on the capacity |
| `Render.ExampleProduct` | example.cpp:7-9 | {1,0,1} * {-1,1} is {-1,1,-1,1,0} in capacity 5 |
| `Render.RenderExample` | example.cpp:7-10 | (x^2 + 1)(x - 1) is written "x^3 - x^2 + x - 1" |
| `Evaluate.PolyValueCons` | evaluate.hpp:36-39 | prepending a constant c gives c + z * value, the step Horner's rule takes |
| `Evaluate.HornerStep` | evaluate.hpp:37-38 | one loop round extends the evaluated suffix by one index |
| `Evaluate.Horner` | evaluate.hpp:33-41 | for count > 0 the result is the sum of poly[i] * z^i over i < count |
| `Evaluate.EvaluateAll` | evaluate.hpp:47-51 | the fixed-size form evaluates over all N coefficients |
| `Evaluate.PolyValueZeroExtend` | evaluate.hpp:35-39 | appending zero high coefficients does not change the value |
| `Evaluate.PolyValueAtZero` | evaluate.hpp:35-39 | at z = 0 the value is poly[0] |
| `Evaluate.PolyValueSingle` | evaluate.hpp:35 | with one coefficient the value is that coefficient for every z |
| `Evaluate.PolyValueEquiv` | static_poly.hpp:199-201 | `p(z)` depends only on the polynomial, not on the capacity |
| `Gcd.ReduceKeepsDivisors` | complex-example.cpp:11-13 | `m %= n` keeps the common divisors of the pair |
| `Gcd.Gcd` | complex-example.cpp:9-16 | gcd(m, 0) is m; the result divides both inputs; every common divisor divides it; nonnegative inputs give a nonnegative result |

## Left out

- Integer overflow: coefficients, exponents and `int` values are unbounded, so no wrap-around or undefined behaviour is modelled.
- Floating-point `is_zero` and `isone` with their tolerance and relative-difference tests: only the exact-type predicates are modelled.
- The concrete coefficient types `smath::complex`, `boost::math::quaternion` and `boost::math::octonion` are foreign. Their components are `int` values or a `seq<int>` of length 2, 4 or 8.
- The complex stream printer and all `std::ostream` plumbing: the polynomial inserter is a pure function to `string`.
- Render.Render: written for integer coefficients only; complex, quaternion and octonion coefficients would need their own value printers, which are outside this model.
- Poly.PlusScalar: models the evident intent of `p + c` and `p - c` at capacity 0 (static_poly.hpp:261-271). As written the plain `if (N)` still instantiates `a += b`, whose `static_assert(N, ...)` fails for N = 0, and a capacity-0 result would not convert to capacity 1. Poly.MinusScalar is modelled the same way.
- Poly.Resize: models the evident intent of the array constructor and the converting constructor (static_poly.hpp:153, 173). As written they pass `&data, &data + M`, a pointer to the whole array, so they cannot instantiate for a scalar T.
- `data()` pointer-pair accessors and `operator[]`: these are plumbing; the model indexes the sequence directly.
- The older duplicate formatter and `xpow` near the end of static_poly.hpp: the io header supersedes them.
- `cyclotomic`, `euler_totient` and both `main` functions: demonstrations on double complex roots of unity.
- polynomial_horner2_20.hpp is not part of this model. Its unrolled evaluators are replaced by the runtime Horner loop they fall back to.
- `constexpr` and compile-time evaluation.
- Division sizing: the division engine was written for a dynamically sized polynomial. Here m and n are the degrees of dividend and divisor, the divisor must be nonzero, the quotient has m - n + 1 coefficients and the remainder n. `quotient_remainder` compares degrees where the original compares capacities.
- Division.QuotientRemainder: states the pseudo-division identity with the leading-coefficient power, not plain u == q * v + r, because integer coefficients do not form a field.
- Division.Quotient: keeps the whole quotient only when the divisor's top coefficient is nonzero. A divisor with zero high capacity can give a quotient longer than N1 - N2 + 1.
- Division.Remainder: states the identity for some quotient of the right length rather than naming it, because `operator %` discards the quotient.
- FieldDivision.FieldQuotientRemainder: `real` stands for the field; rounding is not modelled.
- Power.Power: requires e >= 1 and N >= 1, because capacity N * e = 0 cannot hold the initial 1. The exponent is a local copy; the original shifts its template parameter in place.
- Ordering.Less: defined only for operands of equal capacity, compared from the top index down. The original's reverse iteration over a pointer pair does not compile as written.
- Ordering.EqualAsWritten: models the loop bound as written. `LessEq` and the rest of the model use the corrected `Ordering.Equal`.

## Findings

| source | as written | input that shows it | evidently intended | confidence | as-written member | corrected member |
|---|---|---|---|---|---|---|
| static_poly.hpp:363 | the equality loop runs `i < n`, so the leading coefficients are never compared | {1,0,1} == {1,0,2}: both degree 2, indices 0 and 1 agree, result true | `i <= n`, equal exactly when the coefficients agree | high, not executed | `Ordering.EqualAsWrittenIgnoresLead` | `Ordering.Equal` |
| static_poly.hpp:350 | `a / b` declares capacity max(N1 - N2, 0), one short of the m - n + 1 coefficients the division produces | x (capacity 2) / 1 (capacity 1): capacity 1 keeps only the constant 0 of the quotient x | N1 - N2 + 1 | high, not executed | `Division.QuotientCapacityAsWrittenDropsTerm` | `Division.Quotient` |
