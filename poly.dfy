/**
 * Dense univariate polynomials with integer coefficients.
 *
 * A polynomial is a backing coefficient sequence (index i holds the
 * coefficient of x^i) together with a cached degree. Trailing zeros may stay
 * in the backing sequence; only the indices 0..deg are significant.
 *
 * Addition, negation and multiplication are unfinished in the original
 * library; the definitions here follow its documented formulas and its
 * commented-out bodies, i.e. they are the intended behaviour.
 */
module Poly {

  datatype Option<T> = None | Some(value: T)

  /** `coeffs` is the shared, never-mutated backing vector; `deg` the cached degree. */
  datatype Polynomial = Polynomial(coeffs: seq<int>, deg: nat)

  /**
   * What normalization establishes: the degree is the last index holding a
   * nonzero coefficient, or 0 when there is none (or no coefficient at all).
   */
  predicate Normalized(p: Polynomial) {
    if |p.coeffs| == 0 then p.deg == 0
    else
      && p.deg < |p.coeffs|
      && (p.deg > 0 ==> p.coeffs[p.deg] != 0)
      && forall j :: p.deg < j < |p.coeffs| ==> p.coeffs[j] == 0
  }

  /** The coefficient of x^i as every operation reads it: zero beyond the degree or the backing vector. */
  function Coeff(p: Polynomial, i: nat): (c: int)
    ensures i > p.deg || i >= |p.coeffs| ==> c == 0
    ensures Normalized(p) && i < |p.coeffs| ==> c == p.coeffs[i]
  {
    if i <= p.deg && i < |p.coeffs| then p.coeffs[i] else 0
  }

  /** The empty-backed polynomial of degree 0 (also what `new` returns). */
  function Default(): (p: Polynomial)
    ensures Normalized(p)
  {
    Polynomial([], 0)
  }

  /** Index of the last nonzero element, searching from the back. */
  function RPosition(s: seq<int>): (r: Option<nat>)
    ensures r.Some? ==> r.value < |s| && s[r.value] != 0
    ensures r.Some? ==> forall j :: r.value < j < |s| ==> s[j] == 0
    ensures r.None? ==> forall j :: 0 <= j < |s| ==> s[j] == 0
  {
    if |s| == 0 then None
    else if s[|s| - 1] != 0 then Some(|s| - 1)
    else RPosition(s[..|s| - 1])
  }

  /** Builds a polynomial from a raw coefficient vector, keeping the vector as it is. */
  function From(s: seq<int>): (p: Polynomial)
    ensures p.coeffs == s
    ensures Normalized(p)
    ensures s == [] ==> p == Default()
  {
    if |s| == 0 then Default()
    else
      var degree := match RPosition(s) case Some(index) => index case None => 0;
      Polynomial(s, degree)
  }

  /** True iff the first polynomial has higher or equal degree. */
  function CompareDeg(a: Polynomial, b: Polynomial): (r: bool)
    ensures r <==> Max(a.deg, b.deg) == a.deg
    ensures !r ==> Max(a.deg, b.deg) == b.deg
  {
    a.deg >= b.deg
  }

  /** The first n elements of s, or all of s when it is shorter (an iterator's `take`). */
  function Take(s: seq<int>, n: nat): (r: seq<int>)
    ensures |r| == if n <= |s| then n else |s|
    ensures forall i :: 0 <= i < |r| ==> r[i] == s[i]
  {
    if n <= |s| then s[..n] else s
  }

  /** Same degree, and the backing vectors agree on their first deg + 1 elements. */
  predicate Equal(a: Polynomial, b: Polynomial)
    ensures a == b ==> Equal(a, b)
    ensures Equal(a, b) ==> forall i: nat :: i <= a.deg ==> Coeff(a, i) == Coeff(b, i)
    ensures Equal(a, b) ==> (|a.coeffs| == 0 <==> |b.coeffs| == 0)
  {
    a.deg == b.deg && Take(a.coeffs, a.deg + 1) == Take(b.coeffs, a.deg + 1)
  }

  /** The negation of Equal. */
  predicate NotEqual(a: Polynomial, b: Polynomial)
    ensures NotEqual(a, b) ==> a != b
  {
    !Equal(a, b)
  }

  function Zero(): (p: Polynomial)
    ensures Normalized(p) && p.deg == 0 && p.coeffs == [0]
  {
    From([0])
  }

  function One(): (p: Polynomial)
    ensures Normalized(p) && p.deg == 0 && p.coeffs == [1]
  {
    From([1])
  }

  /** Equality with Zero(): degree 0 and a zero constant term actually stored. */
  predicate IsZero(p: Polynomial)
    ensures IsZero(p) <==> p.deg == 0 && |p.coeffs| > 0 && p.coeffs[0] == 0
  {
    Equal(p, Zero())
  }

  /** Equality with One(): degree 0 and a constant term 1 actually stored. */
  predicate IsOne(p: Polynomial)
    ensures IsOne(p) <==> p.deg == 0 && |p.coeffs| > 0 && p.coeffs[0] == 1
  {
    Equal(p, One())
  }

  function Max(x: nat, y: nat): nat {
    if x >= y then x else y
  }

  /**
   * Intended addition when b has lower or equal degree than a: coefficient i
   * of the sum is a_i + b_i for i up to deg(a), missing coefficients read as zero.
   */
  function AddPadSecond(a: Polynomial, b: Polynomial): (r: Polynomial)
    requires b.deg <= a.deg
    ensures Normalized(r) && |r.coeffs| == a.deg + 1
    ensures forall i: nat :: Coeff(r, i) == Coeff(a, i) + Coeff(b, i)
  {
    From(seq(a.deg + 1, i requires 0 <= i < a.deg + 1 => Coeff(a, i) + Coeff(b, i)))
  }

  /** Intended addition: the operand of higher or equal degree goes first. */
  function Add(a: Polynomial, b: Polynomial): (r: Polynomial)
    ensures Normalized(r) && |r.coeffs| == Max(a.deg, b.deg) + 1
    ensures forall i: nat :: Coeff(r, i) == Coeff(a, i) + Coeff(b, i)
  {
    if CompareDeg(a, b) then AddPadSecond(a, b) else AddPadSecond(b, a)
  }

  /** Intended negation: negate every stored coefficient, then normalize. */
  function Neg(p: Polynomial): (r: Polynomial)
    ensures Normalized(r) && |r.coeffs| == |p.coeffs|
    ensures Normalized(p) ==> r.deg == p.deg
    ensures Normalized(p) ==> forall i: nat :: Coeff(r, i) == -Coeff(p, i)
  {
    var s := seq(|p.coeffs|, i requires 0 <= i < |p.coeffs| => -p.coeffs[i]);
    SameZerosSameDegree(p, s);
    From(s)
  }

  /** A vector that is zero exactly where a normalized polynomial's is normalizes to the same degree. */
  lemma SameZerosSameDegree(p: Polynomial, s: seq<int>)
    requires |s| == |p.coeffs|
    requires forall i :: 0 <= i < |s| ==> (s[i] == 0 <==> p.coeffs[i] == 0)
    ensures Normalized(p) ==> From(s).deg == p.deg
  {
  }

  /** Subtraction is addition of the negation. */
  function Sub(a: Polynomial, b: Polynomial): (r: Polynomial)
    ensures Normalized(r) && |r.coeffs| == Max(a.deg, Neg(b).deg) + 1
    ensures Normalized(b) ==> forall i: nat :: Coeff(r, i) == Coeff(a, i) - Coeff(b, i)
  {
    Add(a, Neg(b))
  }

  /**
   * One summand of the k-th product coefficient: lhs[i] * rhs[k - i], or
   * nothing when i > n or k - i > m (n, m the last indices of the vectors).
   */
  function Term(lhs: seq<int>, rhs: seq<int>, k: nat, i: nat): (t: int)
    requires i <= k
    ensures t == (if i < |lhs| then lhs[i] else 0) * (if k - i < |rhs| then rhs[k - i] else 0)
  {
    if i > |lhs| - 1 || k - i > |rhs| - 1 then 0 else lhs[i] * rhs[k - i]
  }

  /** The accumulator after the summands i = 0 .. j - 1 of coefficient k, in loop order. */
  function KthCoeff(lhs: seq<int>, rhs: seq<int>, k: nat, j: nat): (c: int)
    requires j <= k + 1
    ensures k + 1 >= |lhs| + |rhs| ==> c == 0
  {
    if j == 0 then 0 else KthCoeff(lhs, rhs, k, j - 1) + Term(lhs, rhs, k, j - 1)
  }

  /**
   * Intended product: n + m + 1 convolution coefficients over the whole
   * backing vectors (n = |a.coeffs| - 1, m = |b.coeffs| - 1), then normalized.
   * Both vectors must be non-empty, since n and m are computed as len - 1.
   */
  function Product(a: Polynomial, b: Polynomial): (r: Polynomial)
    requires |a.coeffs| > 0 && |b.coeffs| > 0
    ensures Normalized(r) && |r.coeffs| == |a.coeffs| + |b.coeffs| - 1
  {
    From(seq(|a.coeffs| + |b.coeffs| - 1,
             k requires 0 <= k < |a.coeffs| + |b.coeffs| - 1 => KthCoeff(a.coeffs, b.coeffs, k, k + 1)))
  }

  /** The intended multiplication loop: nested loops accumulating each coefficient, pushed in order. */
  method Mul(a: Polynomial, b: Polynomial) returns (r: Polynomial)
    requires |a.coeffs| > 0 && |b.coeffs| > 0
    ensures r == Product(a, b)
  {
    var lhs, rhs := a.coeffs, b.coeffs;
    var n, m := |lhs| - 1, |rhs| - 1;
    var result: seq<int> := [];
    for k := 0 to n + m + 1
      invariant |result| == k
      invariant forall j :: 0 <= j < k ==> result[j] == KthCoeff(lhs, rhs, j, j + 1)
    {
      var kthCoeff := 0;
      for i := 0 to k + 1
        invariant kthCoeff == KthCoeff(lhs, rhs, k, i)
      {
        if i > n || k - i > m {
        } else {
          kthCoeff := kthCoeff + lhs[i] * rhs[k - i];
        }
      }
      result := result + [kthCoeff];
    }
    assert result == Product(a, b).coeffs;
    r := From(result);
  }
}
