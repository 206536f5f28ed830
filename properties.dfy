/**
 * Properties of the polynomial model: normalization, the equality relation,
 * the identities, and the algebraic laws of the intended ring operations.
 */
module PolyProperties {
  import opened Poly

  /** Two polynomials read the same coefficient at every power of x. */
  ghost predicate SameCoefficients(a: Polynomial, b: Polynomial) {
    forall i: nat :: Coeff(a, i) == Coeff(b, i)
  }

  // ---------------------------------------------------------------------------
  // Normalization

  /** The degree `from` computes is the only one that satisfies the invariant. */
  lemma {:induction false} NormalizedDegreeUnique(p: Polynomial, q: Polynomial)
    requires Normalized(p) && Normalized(q) && p.coeffs == q.coeffs
    ensures p == q
  {
    if p.deg > 0 {
      assert p.coeffs[p.deg] != 0;
    }
    if q.deg > 0 {
      assert q.coeffs[q.deg] != 0;
    }
  }

  /** Normalization is idempotent: rebuilding from the backing vector gives the same polynomial. */
  lemma FromNormalized(p: Polynomial)
    requires Normalized(p)
    ensures From(p.coeffs) == p
  {
    NormalizedDegreeUnique(From(p.coeffs), p);
  }

  /** From of a non-empty vector: degree below the length, nonzero leading coefficient unless degree 0. */
  lemma FromNonEmpty(s: seq<int>)
    requires |s| > 0
    ensures From(s).deg < |s|
    ensures From(s).deg > 0 ==> s[From(s).deg] != 0
    ensures From(s).deg == 0 ==> forall j :: 0 < j < |s| ==> s[j] == 0
  {
  }

  function Zeros(k: nat): (z: seq<int>)
    ensures |z| == k && forall i :: 0 <= i < k ==> z[i] == 0
  {
    seq(k, i => 0)
  }

  /** Appending zeros to a non-empty vector does not change the polynomial up to equality. */
  lemma {:induction false} TrailingZeros(s: seq<int>, k: nat)
    requires |s| > 0
    ensures From(s + Zeros(k)).deg == From(s).deg
    ensures Equal(From(s + Zeros(k)), From(s))
  {
    var p, q := From(s + Zeros(k)), From(s);
    var t := s + Zeros(k);
    if q.deg > 0 {
      assert t[q.deg] == s[q.deg] != 0;
    }
    if p.deg > 0 {
      assert t[p.deg] != 0;
      assert p.deg < |s| && s[p.deg] == t[p.deg];
    }
    assert Take(t, p.deg + 1) == Take(s, p.deg + 1);
  }

  /** The same, when the appended zeros make the vector non-empty: the empty vector is the exception. */
  lemma TrailingZerosOfEmpty(k: nat)
    requires k > 0
    ensures From(Zeros(k)).deg == 0
    ensures NotEqual(From(Zeros(k)), From([]))
  {
    assert Take(Zeros(k), 1) == [0];
  }

  // ---------------------------------------------------------------------------
  // Equality

  lemma EqualIsEquivalence(a: Polynomial, b: Polynomial, c: Polynomial)
    ensures Equal(a, a)
    ensures Equal(a, b) <==> Equal(b, a)
    ensures Equal(a, b) && Equal(b, c) ==> Equal(a, c)
    ensures NotEqual(a, b) <==> !Equal(a, b)
  {
  }

  /**
   * On normalized polynomials, equality holds exactly when every coefficient
   * agrees and either both or neither backing vector is empty.
   */
  lemma {:induction false} EqualIffSameCoefficients(a: Polynomial, b: Polynomial)
    requires Normalized(a) && Normalized(b)
    ensures Equal(a, b) <==> SameCoefficients(a, b) && (|a.coeffs| == 0 <==> |b.coeffs| == 0)
  {
    if Equal(a, b) {
      if |a.coeffs| == 0 {
        assert |Take(b.coeffs, 1)| == 0;
      } else if |b.coeffs| > 0 {
        forall i: nat ensures Coeff(a, i) == Coeff(b, i) {
          if i <= a.deg {
            assert Take(a.coeffs, a.deg + 1)[i] == Take(b.coeffs, a.deg + 1)[i];
          }
        }
      }
    }
    if SameCoefficients(a, b) && (|a.coeffs| == 0 <==> |b.coeffs| == 0) && |a.coeffs| > 0 {
      if a.deg > 0 {
        assert Coeff(b, a.deg) == Coeff(a, a.deg) != 0;
      }
      if b.deg > 0 {
        assert Coeff(a, b.deg) == Coeff(b, b.deg) != 0;
      }
      var ta, tb := Take(a.coeffs, a.deg + 1), Take(b.coeffs, a.deg + 1);
      forall i | 0 <= i < |ta| ensures ta[i] == tb[i] {
        assert Coeff(a, i) == Coeff(b, i);
      }
    }
  }

  // ---------------------------------------------------------------------------
  // Identities and the degree comparison

  /** The empty-backed default polynomial is not equal to Zero(): equality compares stored prefixes. */
  lemma DefaultIsNotZero()
    ensures From([]) == Default()
    ensures NotEqual(Default(), Zero()) && !IsZero(Default())
    ensures SameCoefficients(Default(), Zero())
  {
    assert Take(Default().coeffs, 1) == [];
  }

  /** `from` of any non-empty vector of zeros is the zero polynomial, whatever its length. */
  lemma ZeroIsFromAllZeros(s: seq<int>)
    requires |s| > 0 && forall j :: 0 <= j < |s| ==> s[j] == 0
    ensures IsZero(From(s))
  {
  }

  lemma ZeroIsNotOne()
    ensures IsZero(Zero()) && IsOne(One()) && !IsZero(One()) && !IsOne(Zero())
  {
  }

  /** CompareDeg is a total preorder on degrees and agrees with equality. */
  lemma CompareDegOrder(a: Polynomial, b: Polynomial, c: Polynomial)
    ensures CompareDeg(a, b) <==> a.deg >= b.deg
    ensures CompareDeg(a, b) || CompareDeg(b, a)
    ensures CompareDeg(a, b) && CompareDeg(b, a) <==> a.deg == b.deg
    ensures CompareDeg(a, b) && CompareDeg(b, c) ==> CompareDeg(a, c)
    ensures Equal(a, c) ==> (CompareDeg(a, b) <==> CompareDeg(c, b))
  {
  }

  // ---------------------------------------------------------------------------
  // Addition, negation, subtraction

  /** The dispatch on CompareDeg makes addition commutative, not only up to equality. */
  lemma AddCommutes(a: Polynomial, b: Polynomial)
    ensures Add(a, b) == Add(b, a)
  {
    if a.deg == b.deg {
      var r, q := Add(a, b), Add(b, a);
      assert r.coeffs == q.coeffs by {
        forall i | 0 <= i < |r.coeffs| ensures r.coeffs[i] == q.coeffs[i] {
          assert r.coeffs[i] == Coeff(a, i) + Coeff(b, i);
          assert q.coeffs[i] == Coeff(b, i) + Coeff(a, i);
        }
      }
      NormalizedDegreeUnique(r, q);
    }
  }

  lemma AddAssociative(a: Polynomial, b: Polynomial, c: Polynomial)
    ensures Equal(Add(Add(a, b), c), Add(a, Add(b, c)))
  {
    EqualIffSameCoefficients(Add(Add(a, b), c), Add(a, Add(b, c)));
  }

  /** Zero() is a right identity for every polynomial with a stored coefficient. */
  lemma AddZeroIdentity(p: Polynomial)
    requires Normalized(p) && |p.coeffs| > 0
    ensures Equal(Add(p, Zero()), p)
    ensures Equal(Add(Zero(), p), p)
  {
    AddCommutes(Zero(), p);
    EqualIffSameCoefficients(Add(p, Zero()), p);
  }

  /** ... but not for the empty-backed default polynomial, whose sum with Zero() is Zero(). */
  lemma AddZeroToDefault()
    ensures Add(Default(), Zero()) == Zero()
    ensures NotEqual(Add(Default(), Zero()), Default())
  {
    var r := Add(Default(), Zero());
    assert r.coeffs == [0] by {
      assert r.coeffs[0] == Coeff(r, 0);
    }
    NormalizedDegreeUnique(r, Zero());
    DefaultIsNotZero();
  }

  /** Negating twice gives back the polynomial. */
  lemma NegInvolutive(p: Polynomial)
    requires Normalized(p)
    ensures Neg(Neg(p)) == p
  {
    var q := Neg(Neg(p));
    assert q.coeffs == p.coeffs;
    NormalizedDegreeUnique(q, p);
  }

  /** p + (-p) is the zero polynomial, for every normalized p (including the default). */
  lemma AddInverse(p: Polynomial)
    requires Normalized(p)
    ensures Equal(Add(p, Neg(p)), Zero())
    ensures IsZero(Sub(p, p))
  {
    var r := Add(p, Neg(p));
    EqualIffSameCoefficients(r, Zero());
  }

  /** Subtracting is adding the negation, coefficient by coefficient, and undoes addition. */
  lemma SubUndoesAdd(a: Polynomial, b: Polynomial)
    requires Normalized(a) && Normalized(b) && |a.coeffs| > 0
    ensures Equal(Sub(Add(a, b), b), a)
  {
    EqualIffSameCoefficients(Sub(Add(a, b), b), a);
  }

  // ---------------------------------------------------------------------------
  // Multiplication

  /**
   * The convolution sum over significant coefficients: the summands
   * Coeff(a, i) * Coeff(b, k - i) for i = 0 .. j - 1.
   */
  function Conv(a: Polynomial, b: Polynomial, k: nat, j: nat): int
    requires j <= k + 1
  {
    if j == 0 then 0 else Conv(a, b, k, j - 1) + Coeff(a, j - 1) * Coeff(b, k - (j - 1))
  }

  /** The loop's accumulator over the backing vectors equals the convolution over coefficients. */
  lemma {:induction false} KthCoeffIsConv(a: Polynomial, b: Polynomial, k: nat, j: nat)
    requires Normalized(a) && Normalized(b)
    requires j <= k + 1
    ensures KthCoeff(a.coeffs, b.coeffs, k, j) == Conv(a, b, k, j)
  {
    if j > 0 {
      KthCoeffIsConv(a, b, k, j - 1);
    }
  }

  /** Past the last product index every summand has a factor beyond its backing vector. */
  lemma {:induction false} ConvVanishes(a: Polynomial, b: Polynomial, k: nat, j: nat)
    requires j <= k + 1 && k + 1 >= |a.coeffs| + |b.coeffs|
    ensures Conv(a, b, k, j) == 0
  {
    if j > 0 {
      ConvVanishes(a, b, k, j - 1);
      var i := j - 1;
      assert i >= |a.coeffs| || k - i >= |b.coeffs|;
    }
  }

  /** Coefficient k of a product is the convolution sum of the factors' coefficients. */
  lemma ProductCoefficients(a: Polynomial, b: Polynomial)
    requires Normalized(a) && Normalized(b) && |a.coeffs| > 0 && |b.coeffs| > 0
    ensures forall k: nat :: Coeff(Product(a, b), k) == Conv(a, b, k, k + 1)
  {
    var r := Product(a, b);
    forall k: nat ensures Coeff(r, k) == Conv(a, b, k, k + 1) {
      if k < |r.coeffs| {
        KthCoeffIsConv(a, b, k, k + 1);
      } else {
        ConvVanishes(a, b, k, k + 1);
      }
    }
  }

  lemma {:induction false} ConvLeftDistributes(a: Polynomial, b: Polynomial, c: Polynomial, k: nat, j: nat)
    requires j <= k + 1
    ensures Conv(a, Add(b, c), k, j) == Conv(a, b, k, j) + Conv(a, c, k, j)
  {
    if j > 0 {
      ConvLeftDistributes(a, b, c, k, j - 1);
      var i := j - 1;
      var x, y, z := Coeff(a, i), Coeff(b, k - i), Coeff(c, k - i);
      assert Coeff(Add(b, c), k - i) == y + z;
      assert x * (y + z) == x * y + x * z;
    }
  }

  /** Multiplication distributes over addition. */
  lemma ProductDistributes(a: Polynomial, b: Polynomial, c: Polynomial)
    requires Normalized(a) && Normalized(b) && Normalized(c)
    requires |a.coeffs| > 0 && |b.coeffs| > 0 && |c.coeffs| > 0
    ensures Equal(Product(a, Add(b, c)), Add(Product(a, b), Product(a, c)))
  {
    var lhs, rhs := Product(a, Add(b, c)), Add(Product(a, b), Product(a, c));
    ProductCoefficients(a, Add(b, c));
    ProductCoefficients(a, b);
    ProductCoefficients(a, c);
    forall k: nat ensures Coeff(lhs, k) == Coeff(rhs, k) {
      ConvLeftDistributes(a, b, c, k, k + 1);
    }
    EqualIffSameCoefficients(lhs, rhs);
  }

  /** Swapping the factors reverses the order of the summands; the sums agree. */
  lemma {:induction false} ConvReverse(a: Polynomial, b: Polynomial, k: nat, j: nat)
    requires j <= k + 1
    ensures Conv(a, b, k, j) + Conv(b, a, k, k + 1 - j) == Conv(b, a, k, k + 1)
  {
    if j > 0 {
      ConvReverse(a, b, k, j - 1);
      var i := j - 1;
      assert Conv(b, a, k, k + 1 - i) == Conv(b, a, k, k - i) + Coeff(b, k - i) * Coeff(a, i);
    }
  }

  /** Multiplication is commutative up to equality. */
  lemma ProductCommutes(a: Polynomial, b: Polynomial)
    requires Normalized(a) && Normalized(b) && |a.coeffs| > 0 && |b.coeffs| > 0
    ensures Equal(Product(a, b), Product(b, a))
  {
    ProductCoefficients(a, b);
    ProductCoefficients(b, a);
    forall k: nat ensures Coeff(Product(a, b), k) == Coeff(Product(b, a), k) {
      ConvReverse(a, b, k, k + 1);
    }
    EqualIffSameCoefficients(Product(a, b), Product(b, a));
  }

  lemma {:induction false} ConvOne(p: Polynomial, k: nat, j: nat)
    requires j <= k + 1
    ensures Conv(p, One(), k, j) == if j == k + 1 then Coeff(p, k) else 0
  {
    if j > 0 {
      ConvOne(p, k, j - 1);
    }
  }

  /** One() is a multiplicative identity on both sides. */
  lemma ProductOneIdentity(p: Polynomial)
    requires Normalized(p) && |p.coeffs| > 0
    ensures Equal(Product(p, One()), p)
    ensures Equal(Product(One(), p), p)
  {
    ProductCoefficients(p, One());
    forall k: nat ensures Coeff(Product(p, One()), k) == Coeff(p, k) {
      ConvOne(p, k, k + 1);
    }
    EqualIffSameCoefficients(Product(p, One()), p);
    ProductCommutes(One(), p);
  }

  lemma {:induction false} ConvZero(p: Polynomial, k: nat, j: nat)
    requires j <= k + 1
    ensures Conv(p, Zero(), k, j) == 0
  {
    if j > 0 {
      ConvZero(p, k, j - 1);
    }
  }

  /** Multiplying by Zero() gives the zero polynomial. */
  lemma ProductZero(p: Polynomial)
    requires Normalized(p) && |p.coeffs| > 0
    ensures IsZero(Product(p, Zero()))
  {
    ProductCoefficients(p, Zero());
    forall k: nat ensures Coeff(Product(p, Zero()), k) == Coeff(Zero(), k) {
      ConvZero(p, k, k + 1);
    }
    EqualIffSameCoefficients(Product(p, Zero()), Zero());
  }

  /** With the leading term at index n of a, the only summand of coefficient n + m that can be nonzero is a_n * b_m. */
  lemma {:induction false} ConvTop(a: Polynomial, b: Polynomial, j: nat)
    requires Normalized(a) && Normalized(b)
    requires j <= a.deg + b.deg + 1
    ensures Conv(a, b, a.deg + b.deg, j) == if j > a.deg then Coeff(a, a.deg) * Coeff(b, b.deg) else 0
  {
    if j > 0 {
      ConvTop(a, b, j - 1);
    }
  }

  /** Integer coefficients have no zero divisors: the degrees of nonzero factors add up. */
  lemma ProductDegree(a: Polynomial, b: Polynomial)
    requires Normalized(a) && Normalized(b) && |a.coeffs| > 0 && |b.coeffs| > 0
    requires !IsZero(a) && !IsZero(b)
    ensures Product(a, b).deg == a.deg + b.deg
  {
    var r := Product(a, b);
    ProductCoefficients(a, b);
    ConvTop(a, b, a.deg + b.deg + 1);
    assert Coeff(a, a.deg) != 0 && Coeff(b, b.deg) != 0;
    assert Coeff(r, a.deg + b.deg) != 0;
    if r.deg > a.deg + b.deg {
      var k := r.deg;
      assert Coeff(r, k) == r.coeffs[k] != 0;
      ConvBeyondTop(a, b, k, k + 1);
      assert false;
    }
  }

  /** Above deg(a) + deg(b) every summand has a factor beyond its degree. */
  lemma {:induction false} ConvBeyondTop(a: Polynomial, b: Polynomial, k: nat, j: nat)
    requires j <= k + 1 && k > a.deg + b.deg
    ensures Conv(a, b, k, j) == 0
  {
    if j > 0 {
      ConvBeyondTop(a, b, k, j - 1);
    }
  }
}
