# Dense univariate polynomials (bored-algebra `poly`)

This project models the polynomial type of the `bored-algebra` Rust library and proves properties about it in Dafny.

A `Polynomial` is a backing coefficient vector, where index `i` holds the coefficient of x^i, together with a cached degree. `from` builds a polynomial from a raw vector. It keeps the vector unchanged, trailing zeros included. It sets the degree to the index of the last nonzero coefficient, or to 0 when there is none. Equality compares degrees and the first `deg + 1` stored coefficients. `zero()` is `from([0])` and `one()` is `from([1])`. `compare_deg` tells whether the first operand has higher or equal degree.

Addition, negation and multiplication are unfinished in the library: their bodies are `todo!()`. The model gives their **intended behaviour**:

- addition follows the documented formula, with coefficient i equal to a_i + b_i up to the larger degree and missing coefficients read as zero. The operand of higher or equal degree goes first;
- negation follows the commented-out body: negate every stored coefficient, then call `from`;
- subtraction is `a + (-b)`, exactly as written;
- multiplication follows the commented-out nested loops. `Poly.Mul` is a method with those loops, proved equal to the pure convolution `Poly.Product`.

Files:

- `poly.dfy` (module `Poly`): the datatype, the normalization invariant `Normalized`, and the operations.
- `properties.dfy` (module `PolyProperties`): normalization, the equality relation, the identities, and the ring laws.
- `examples.dfy` (module `PolyExamples`): the doc-comment example and the examples from the library's tests.

Coefficients are mathematical integers. The accessors `deg()` and `coeffs()` are the datatype's fields. The polynomial's fields are private in the source, so every live value comes from `default` or `from`. That is why the lemmas assume `Normalized`.

Where the library's comments and its code disagree, the model follows the code. The comment in `from` (src/poly.rs:76) calls the empty-vector result the zero polynomial, but `eq` (src/poly.rs:103-112) compares the stored prefixes of length `deg + 1`, so `default() != zero()` (`DefaultIsNotZero`). For the same reason, `Zero()` is an additive identity only for polynomials with at least one stored coefficient (`AddZeroIdentity`, `AddZeroToDefault`). The comment in the multiplication (src/poly.rs:207) calls `n` and `m` the degrees of the operands, but the commented code (src/poly.rs:210-211) takes `len - 1` of the whole backing vectors, and the model follows the code.

## Model

| member | source | states |
|---|---|---|
| `Poly.RPosition` | src/poly.rs:81-84 | the reverse search returns the last index holding a nonzero element, with every later element zero; it returns nothing exactly when every element is zero |
| `Poly.From` | src/poly.rs:71-91 | the backing vector is kept as given; the degree is the last nonzero index, or 0 (`Normalized`); an empty vector gives the default polynomial |
| `Poly.Default` | src/poly.rs:62-68 | the empty-backed, degree-0 default polynomial satisfies the normalization invariant |
| `Poly.Coeff` | src/poly.rs:157-161 | the coefficient of x^i reads as zero beyond the degree or the backing vector; for a normalized polynomial it is the stored element at every stored index |
| `Poly.CompareDeg` | src/poly.rs:40-49 | `compare_deg(a, b)` holds iff a's degree is the larger (or equal) one, i.e. the maximum of the two degrees; otherwise b's degree is the maximum |
| `Poly.Equal` | src/poly.rs:94-116 | `eq` is reflexive on identical values; when it holds, every coefficient up to the degree agrees and both or neither backing vector is empty |
| `Poly.Term` | src/poly.rs:221-227 | the summand of the inner loop is a_i * b_(k-i), where an index outside a backing vector contributes a zero factor (the loop skips it) |
| `Poly.KthCoeff` | src/poly.rs:219-228 | the accumulated coefficient k is zero once k lies beyond the last product index len(a) + len(b) - 2 |
| `Poly.NotEqual` | src/poly.rs:118-120 | `ne` is the negation of `eq`; two values that are not `eq` are different values |
| `Poly.Zero` | src/poly.rs:141-144 | `zero()` is the normalized polynomial with backing `[0]` and degree 0 |
| `Poly.One` | src/poly.rs:126-129 | `one()` is the normalized polynomial with backing `[1]` and degree 0 |
| `Poly.IsZero` | src/poly.rs:146-152 | `is_zero(p)` holds iff p has degree 0 and a stored constant term equal to 0, whatever the backing length |
| `Poly.IsOne` | src/poly.rs:131-137 | `is_one(p)` holds iff p has degree 0 and a stored constant term equal to 1 |
| `Poly.AddPadSecond` | src/poly.rs:56-59 | intended: for deg(b) <= deg(a), the sum has deg(a) + 1 stored coefficients, is normalized, and coefficient i is a_i + b_i |
| `Poly.Add` | src/poly.rs:157-173 | intended: the sum has max(deg a, deg b) + 1 stored coefficients, is normalized, and every coefficient is the sum of the operands' coefficients, missing ones read as zero |
| `Poly.Neg` | src/poly.rs:176-187 | intended: the negation keeps the backing length; for a normalized input it keeps the degree and negates every coefficient |
| `Poly.Sub` | src/poly.rs:189-195 | `a - b = a + (-b)`; every coefficient of the difference is a_i - b_i |
| `Poly.Product` | src/poly.rs:197-232 | intended: the product of non-empty polynomials has len(a) + len(b) - 1 stored coefficients and is normalized |
| `Poly.Mul` | src/poly.rs:205-232 | the nested loops, which accumulate each coefficient's summands in order and push it, compute exactly `Product` |
| `PolyProperties.NormalizedDegreeUnique` | src/poly.rs:80-84 | the degree is determined by the backing vector: two normalized polynomials with the same vector are identical |
| `PolyProperties.FromNormalized` | src/poly.rs:71-91 | normalization is idempotent: `from(coeffs(p)) == p` |
| `PolyProperties.FromNonEmpty` | src/poly.rs:80-88 | `from` of a non-empty vector has `deg < len`; `coeffs[deg] != 0` unless deg is 0, and then every later element is zero |
| `PolyProperties.TrailingZeros` | src/poly.rs:258-269 | appending any number of zeros to a non-empty vector keeps the degree and equality |
| `PolyProperties.TrailingZerosOfEmpty` | src/poly.rs:76-78 | zeros appended to the empty vector give degree 0, but not a polynomial equal to `from([])` |
| `PolyProperties.EqualIsEquivalence` | src/poly.rs:94-123 | equality is reflexive, symmetric and transitive; `ne` is its negation |
| `PolyProperties.EqualIffSameCoefficients` | src/poly.rs:94-116 | on normalized polynomials, `eq` holds iff every coefficient agrees and both or neither backing vector is empty |
| `PolyProperties.DefaultIsNotZero` | src/poly.rs:140-153 | `from([])` is the default; it reads all coefficients as zero yet is not equal to `zero()` and is not `is_zero` |
| `PolyProperties.ZeroIsFromAllZeros` | src/poly.rs:146-152 | `from` of any non-empty all-zero vector is `is_zero` |
| `PolyProperties.ZeroIsNotOne` | src/poly.rs:125-153 | `zero()` is zero and not one; `one()` is one and not zero |
| `PolyProperties.CompareDegOrder` | src/poly.rs:40-49 | `compare_deg(a, b)` iff deg a >= deg b; it is total and transitive, and it agrees with equality |
| `PolyProperties.AddCommutes` | src/poly.rs:162-173 | thanks to the dispatch on `compare_deg`, `a + b` and `b + a` are the same value |
| `PolyProperties.AddAssociative` | src/poly.rs:157-161 | addition is associative up to equality |
| `PolyProperties.AddZeroIdentity` | src/poly.rs:157-173 | `p + zero() == p` and `zero() + p == p` for normalized p with a stored coefficient |
| `PolyProperties.AddZeroToDefault` | src/poly.rs:162-173 | `default() + zero()` is `zero()`, which is not equal to `default()` |
| `PolyProperties.NegInvolutive` | src/poly.rs:180-184 | negating twice gives back the same polynomial |
| `PolyProperties.AddInverse` | src/poly.rs:176-195 | `p + (-p) == zero()` and `p - p` is zero, for every normalized p |
| `PolyProperties.SubUndoesAdd` | src/poly.rs:189-195 | `(a + b) - b == a` |
| `PolyProperties.KthCoeffIsConv` | src/poly.rs:216-231 | the loop's accumulator over the backing vectors equals the convolution sum over the significant coefficients |
| `PolyProperties.ProductCoefficients` | src/poly.rs:197-201 | coefficient k of a product is the sum over i <= k of a_i * b_(k-i), with coefficients outside the degree read as zero |
| `PolyProperties.ProductDistributes` | src/poly.rs:197-232 | `a * (b + c) == a*b + a*c` |
| `PolyProperties.ProductCommutes` | src/poly.rs:197-201 | `a * b == b * a` up to equality |
| `PolyProperties.ProductOneIdentity` | src/poly.rs:197-232 | `p * one() == p` and `one() * p == p` |
| `PolyProperties.ProductZero` | src/poly.rs:197-232 | `p * zero()` is zero |
| `PolyProperties.ProductDegree` | src/poly.rs:197-201 | over the integers, the degree of a product of two nonzero polynomials is the sum of their degrees |
| `PolyExamples.FromDocExample` | src/poly.rs:16-20 | `from([0, 1, 2])` has degree 2 and keeps its vector |
| `PolyExamples.FromTestExample` | src/poly.rs:258-269 | `[1,2,3,4,0,0,0,0,0,0] == [1,2,3,4]`, and both differ from `[1,2,3,4,0,1]` |
| `PolyExamples.CompareDegTestExample` | src/poly.rs:273-279 | `compare_deg([0,1,1], [1,1,0,0,0,0])` is true, and false the other way round |
| `PolyExamples.AddSubIntegerExample` | src/poly.rs:286-302 | `[1,1] + [-1,0,2] == [0,1,2]` and `[1,1] - [-1,0,2] == [2,1,-2]` |
| `PolyExamples.AddSubModFourExample` | src/poly.rs:304-340 | over Z/4Z, `[1,3,0,2] + [3,1]` is `[0,0,0,2]` (degree 3) and `[1,3,0,2] - [3,1]` is `[2,2,0,2]` |
| `PolyExamples.ProductModFourExample` | src/poly.rs:342-367 | over Z/4Z, `[1,3,0,2] * [3,1]` is `[3,2,3,2,2]`; over the integers it is `[3,10,3,6,2]` |
| `PolyExamples.MulModFourExample` | src/poly.rs:356-367 | the multiplication loop gives `[3,10,3,6,2]` with degree 4 on the same operands |

## Left out

- Division and remainder (src/poly.rs:237-251): the bodies are `todo!()` and there is no algorithm to model.
- `mul_pad_second` (src/poly.rs:51-54): `todo!()`, never called, no intended body given.
- `new()` returns `default()`, so it is the same value as `Poly.Default`. `deg()` and `coeffs()` are the datatype's fields.
- `Rc` reference counting and handle sharing: the backing vector is an immutable `seq<int>`.
- Coefficients are mathematical integers rather than a generic ring type. The model does not cover `i64` overflow. It does not cover `Polynomial<Polynomial<T>>` nesting (multivariate polynomials), so the unfinished multivariate test (src/poly.rs:371-403) is out too.
- The `integers_mod!` macro and the `IntegerModN`/`RingType` traits are not part of this model. The Z/4Z examples compute over the integers and then reduce each coefficient modulo 4, which the examples verify one by one.
- `u64`/`usize` conversions and `try_into().unwrap()`: degrees are `nat`.
- Poly.Product and Poly.Mul: both require non-empty backing vectors. The source computes `len - 1` in `usize`, which underflows on an empty vector, so the default polynomial cannot be multiplied.
- Poly.Neg: the degree and coefficient guarantees are stated for normalized inputs only. Every polynomial the library can build is normalized.
