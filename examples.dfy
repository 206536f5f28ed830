/**
 * The library's documented and tested examples, stated over the model.
 */
module PolyExamples {
  import opened Poly
  import opened PolyProperties

  /** Reduces every coefficient modulo n, as a modular-integer coefficient type stores it. */
  function Reduce(s: seq<int>, n: nat): (r: seq<int>)
    requires n > 0
    ensures |r| == |s| && forall i :: 0 <= i < |s| ==> 0 <= r[i] < n
  {
    seq(|s|, i requires 0 <= i < |s| => s[i] % n)
  }

  /** `from([0, 1, 2])` keeps its vector and has degree 2 (x + 2x^2). */
  lemma FromDocExample()
    ensures From([0, 1, 2]).deg == 2 && From([0, 1, 2]).coeffs == [0, 1, 2]
  {
  }

  /** Trailing zeros do not matter to equality; a later nonzero coefficient does. */
  lemma FromTestExample()
    ensures Equal(From([1, 2, 3, 4, 0, 0, 0, 0, 0, 0]), From([1, 2, 3, 4]))
    ensures NotEqual(From([1, 2, 3, 4, 0, 0, 0, 0, 0, 0]), From([1, 2, 3, 4, 0, 1]))
    ensures NotEqual(From([1, 2, 3, 4]), From([1, 2, 3, 4, 0, 1]))
  {
    assert [1, 2, 3, 4, 0, 0, 0, 0, 0, 0] == [1, 2, 3, 4] + Zeros(6);
    TrailingZeros([1, 2, 3, 4], 6);
    assert From([1, 2, 3, 4, 0, 1]).deg == 5;
  }

  /** x + x^2 has higher degree than 1 + x padded with zeros, and not the other way round. */
  lemma CompareDegTestExample()
    ensures CompareDeg(From([0, 1, 1]), From([1, 1, 0, 0, 0, 0]))
    ensures !CompareDeg(From([1, 1, 0, 0, 0, 0]), From([0, 1, 1]))
  {
    var b := From([1, 1, 0, 0, 0, 0]);
    assert b.coeffs[1] != 0;
    if b.deg > 0 {
      assert b.coeffs[b.deg] != 0;
    }
  }

  /** Over the integers: (1 + x) + (2x^2 - 1) = x + 2x^2 and (1 + x) - (2x^2 - 1) = 2 + x - 2x^2. */
  lemma AddSubIntegerExample()
    ensures Equal(Add(From([1, 1]), From([-1, 0, 2])), From([0, 1, 2]))
    ensures Equal(Sub(From([1, 1]), From([-1, 0, 2])), From([2, 1, -2]))
  {
    var a, b := From([1, 1]), From([-1, 0, 2]);
    assert Add(a, b).coeffs == [0, 1, 2] by {
      var r := Add(a, b);
      assert r.coeffs[0] == Coeff(r, 0) && r.coeffs[1] == Coeff(r, 1) && r.coeffs[2] == Coeff(r, 2);
    }
    assert Neg(b).coeffs == [1, 0, -2];
    assert Sub(a, b).coeffs == [2, 1, -2] by {
      var r := Sub(a, b);
      assert r.coeffs[0] == Coeff(r, 0) && r.coeffs[1] == Coeff(r, 1) && r.coeffs[2] == Coeff(r, 2);
    }
  }

  /**
   * Over Z/4Z: (1 + 3x + 2x^3) + (3 + x) = 2x^3 and (1 + 3x + 2x^3) - (3 + x) = 2 + 2x + 2x^3,
   * computed over the integers and reduced modulo 4.
   */
  lemma AddSubModFourExample()
    ensures Reduce(Add(From([1, 3, 0, 2]), From([3, 1])).coeffs, 4) == [0, 0, 0, 2]
    ensures From(Reduce(Add(From([1, 3, 0, 2]), From([3, 1])).coeffs, 4)).deg == 3
    ensures Reduce(Sub(From([1, 3, 0, 2]), From([3, 1])).coeffs, 4) == [2, 2, 0, 2]
  {
    var a, b := From([1, 3, 0, 2]), From([3, 1]);
    var r := Add(a, b);
    assert r.coeffs == [4, 4, 0, 2] by {
      assert r.coeffs[0] == Coeff(r, 0) && r.coeffs[1] == Coeff(r, 1);
      assert r.coeffs[2] == Coeff(r, 2) && r.coeffs[3] == Coeff(r, 3);
    }
    assert Neg(b).coeffs == [-3, -1];
    var d := Sub(a, b);
    assert d.coeffs == [-2, 2, 0, 2] by {
      assert d.coeffs[0] == Coeff(d, 0) && d.coeffs[1] == Coeff(d, 1);
      assert d.coeffs[2] == Coeff(d, 2) && d.coeffs[3] == Coeff(d, 3);
    }
  }

  /**
   * Over Z/4Z: (1 + 3x + 2x^3)(3 + x) = 3 + 2x + 3x^2 + 2x^3 + 2x^4: the integer
   * product is 3 + 10x + 3x^2 + 6x^3 + 2x^4, reduced modulo 4.
   */
  lemma ProductModFourExample()
    ensures Product(From([1, 3, 0, 2]), From([3, 1])).coeffs == [3, 10, 3, 6, 2]
    ensures Reduce(Product(From([1, 3, 0, 2]), From([3, 1])).coeffs, 4) == [3, 2, 3, 2, 2]
  {
    var lhs, rhs := [1, 3, 0, 2], [3, 1];
    assert KthCoeff(lhs, rhs, 0, 1) == 3;
    assert KthCoeff(lhs, rhs, 1, 2) == 10;
    assert KthCoeff(lhs, rhs, 2, 3) == 3;
    assert KthCoeff(lhs, rhs, 3, 4) == 6;
    assert KthCoeff(lhs, rhs, 4, 5) == 2;
  }

  /** The multiplication loop computes the same product. */
  method MulModFourExample() returns (r: Polynomial)
    ensures r.coeffs == [3, 10, 3, 6, 2] && r.deg == 4
  {
    r := Mul(From([1, 3, 0, 2]), From([3, 1]));
    ProductModFourExample();
  }
}
