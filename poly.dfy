/**
 * The operations of `include/Poly.h` over real coefficients.
 *
 * `Poly<T>` is a value type whose value is its coefficient vector (highest
 * degree first), so the free operators and the const members are methods on
 * coefficient sequences that fill their result with the same index loops as
 * the C++ code. The members that rewrite a polynomial in place are methods of
 * the class `Poly`, whose fields are `coef_` and `deg_`.
 */
module Polynomial {
  import opened PolySpec

  // ---------------------------------------------------------------------
  // Evaluation

  /** `At`: Horner evaluation, starting from the leading coefficient. */
  method At(c: seq<real>, x: real) returns (b: real)
    requires |c| >= 1
    ensures b == Value(c, x)
  {
    b := c[0];
    assert c[..1] == [] + [c[0]];
    ValueSnoc([], c[0], x);
    var d := 1;
    while d < |c|
      invariant 1 <= d <= |c|
      invariant b == Value(c[..d], x)
    {
      assert c[..d + 1] == c[..d] + [c[d]];
      ValueSnoc(c[..d], c[d], x);
      b := c[d] + b * x;
      d := d + 1;
    }
    assert c[..|c|] == c;
  }

  /** `eval`: the power sum, walking from the constant term with a running power of x. */
  method Eval(c: seq<real>, x: real) returns (sum: real)
    requires |c| >= 1
    ensures sum == PowerSum(c, x, |c|)
    ensures sum == Value(c, x)
  {
    ValueIsPowerSum(c, x);
    if |c| == 1 {
      return c[0];
    }
    sum := 0.0;
    var t := 1.0;
    var k := 0;
    while k < |c|
      invariant 0 <= k <= |c|
      invariant sum == PowerSum(c, x, k) && t == Pow(x, k)
    {
      sum := sum + t * c[|c| - 1 - k];
      t := t * x;
      k := k + 1;
    }
  }

  // ---------------------------------------------------------------------
  // Derivative, antiderivative, definite integral

  /** `der`. */
  method Der(c: seq<real>) returns (r: seq<real>)
    requires |c| >= 1
    ensures r == Derivative(c)
  {
    var deg := |c| - 1;
    if deg == 0 {
      return [0.0];
    }
    if deg == 1 {
      assert Derivative(c) == [c[0] * 1.0];
      return [c[0]];
    }
    r := seq(deg, _ => 0.0);
    var i := 0;
    while i < deg
      invariant 0 <= i <= deg && |r| == deg
      invariant forall t :: 0 <= t < i ==> r[t] == c[t] * ((deg - t) as real)
    {
      r := r[i := c[i] * ((deg - i) as real)];
      i := i + 1;
    }
    assert forall t :: 0 <= t < deg ==> r[t] == Derivative(c)[t];
  }

  /** `antider`. */
  method Antider(c: seq<real>) returns (r: seq<real>)
    requires |c| >= 1
    ensures r == Antiderivative(c)
  {
    var deg := |c| - 1;
    if deg == 0 {
      assert Antiderivative(c) == [c[0] / 1.0, 0.0];
      return [c[0], 0.0];
    }
    r := seq(deg + 2, _ => 0.0);
    var i := 0;
    while i <= deg
      invariant 0 <= i <= deg + 1 && |r| == deg + 2
      invariant forall t :: 0 <= t < i ==> r[t] == c[t] / ((deg - t + 1) as real)
      invariant forall t :: i <= t < deg + 2 ==> r[t] == 0.0
    {
      r := r[i := c[i] / ((deg - i + 1) as real)];
      i := i + 1;
    }
  }

  /** `integral(from, to)`: the antiderivative at `to` minus at `from`. */
  method Integral(c: seq<real>, from: real, to: real) returns (r: real)
    requires |c| >= 1
    ensures r == DefiniteIntegral(c, from, to)
  {
    var a := Antider(c);
    var hi := At(a, to);
    var lo := At(a, from);
    r := hi - lo;
  }

  // ---------------------------------------------------------------------
  // Addition, negation, subtraction

  /** `plus`: rhs added into a copy of lhs, aligned at the constant term. */
  method Plus(lhs: seq<real>, rhs: seq<real>) returns (r: seq<real>)
    requires |lhs| >= |rhs| >= 1
    ensures r == Sum(lhs, rhs)
  {
    var degL, degR := |lhs| - 1, |rhs| - 1;
    r := lhs;
    var i := 0;
    while i <= degR
      invariant 0 <= i <= degR + 1 && |r| == |lhs|
      invariant forall k: nat :: k < |lhs| ==> Coef(r, k) == Coef(lhs, k) + (if k < i then Coef(rhs, k) else 0.0)
    {
      r := r[degL - i := r[degL - i] + rhs[degR - i]];
      i := i + 1;
    }
    CoefExt(r, Sum(lhs, rhs));
  }

  /** `operator+`: the longer operand receives the shorter one. */
  method Add(p1: seq<real>, p2: seq<real>) returns (r: seq<real>)
    requires |p1| >= 1 && |p2| >= 1
    ensures r == Sum(p1, p2)
  {
    if |p1| >= |p2| {
      r := Plus(p1, p2);
    } else {
      r := Plus(p2, p1);
      SumCommutes(p2, p1);
    }
  }

  /** Unary `operator-`. */
  method Negate(p: seq<real>) returns (r: seq<real>)
    ensures r == Negation(p)
  {
    r := p;
    var i := 0;
    while i < |p|
      invariant 0 <= i <= |p| && |r| == |p|
      invariant forall t :: 0 <= t < i ==> r[t] == -p[t]
      invariant forall t :: i <= t < |p| ==> r[t] == p[t]
    {
      r := r[i := -p[i]];
      i := i + 1;
    }
  }

  /** `operator-`: lhs + (-rhs). */
  method Subtract(lhs: seq<real>, rhs: seq<real>) returns (r: seq<real>)
    requires |lhs| >= 1 && |rhs| >= 1
    ensures r == Difference(lhs, rhs)
  {
    var n := Negate(rhs);
    r := Add(lhs, n);
  }

  // ---------------------------------------------------------------------
  // Products and quotients

  /** `operator*` of two polynomials: res[i + j] += p1[i] * p2[j]. */
  method Multiply(p1: seq<real>, p2: seq<real>) returns (r: seq<real>)
    requires |p1| >= 1 && |p2| >= 1
    ensures r == Product(p1, p2)
  {
    var n := |p1| + |p2| - 1;
    r := seq(n, _ => 0.0);
    var i := 0;
    while i < |p1|
      invariant 0 <= i <= |p1| && |r| == n
      invariant forall m :: 0 <= m < n ==> r[m] == ConvSum(p1, p2, m, i)
    {
      var j := 0;
      while j < |p2|
        invariant 0 <= j <= |p2| && |r| == n
        invariant forall m :: 0 <= m < n ==>
          r[m] == ConvSum(p1, p2, m, i) + (if i <= m < i + j then p1[i] * p2[m - i] else 0.0)
      {
        r := r[i + j := r[i + j] + p1[i] * p2[j]];
        j := j + 1;
      }
      i := i + 1;
    }
  }

  /** `operator*` by a scalar: by zero it returns [0]. */
  method ScalarProduct(p: seq<real>, v: real) returns (r: seq<real>)
    ensures r == Times(p, v)
  {
    if v == 0.0 {
      return [0.0];
    }
    r := seq(|p|, _ => 0.0);
    var i := 0;
    while i < |p|
      invariant 0 <= i <= |p| && |r| == |p|
      invariant forall t :: 0 <= t < i ==> r[t] == p[t] * v
    {
      r := r[i := p[i] * v];
      i := i + 1;
    }
    assert forall t :: 0 <= t < |p| ==> r[t] == ScaleEach(p, v)[t];
  }

  /** `operator/` by a scalar. */
  method ScalarQuotient(p: seq<real>, v: real) returns (r: seq<real>)
    requires v != 0.0
    ensures r == DivideEach(p, v)
  {
    r := seq(|p|, _ => 0.0);
    var i := 0;
    while i < |p|
      invariant 0 <= i <= |p| && |r| == |p|
      invariant forall t :: 0 <= t < i ==> r[t] == p[t] / v
    {
      r := r[i := p[i] / v];
      i := i + 1;
    }
  }

  /**
   * `operator/` of two polynomials: synthetic division row by row, then the
   * remainder trimmed by `update`. A lower-degree lhs is the C++ logic_error.
   */
  method Divide(lhs: seq<real>, rhs: seq<real>) returns (r: DivResult)
    requires |lhs| >= 1 && |rhs| >= 1
    requires |lhs| >= |rhs| ==> rhs[0] != 0.0
    ensures r == Division(lhs, rhs)
  {
    var deg1, deg2 := |lhs| - 1, |rhs| - 1;
    if deg1 < deg2 {
      return DegreeError;
    }
    var rem := lhs;
    var res: seq<real> := [];
    var i := 0;
    while i <= deg1 - deg2
      invariant 0 <= i <= deg1 - deg2 + 1 && |rem| == |lhs| && |res| == i
      invariant SynthDiv(lhs, rhs, 0, []) == SynthDiv(rem, rhs, i, res)
    {
      ghost var row := rem;
      var a := rem[i];
      rem := rem[i := 0.0];
      res := res + [a / rhs[0]];
      var j := 1;
      while j <= deg2
        invariant 1 <= j <= deg2 + 1 && |rem| == |lhs|
        invariant forall t :: 0 <= t < |rem| ==> rem[t] == if t < i + j then Eliminate(row, rhs, i)[t] else row[t]
      {
        assert Eliminate(row, rhs, i)[i + j] == row[i + j] - rhs[j] * a / rhs[0];
        rem := rem[i + j := rem[i + j] - rhs[j] * a / rhs[0]];
        j := j + 1;
      }
      assert rem == Eliminate(row, rhs, i);
      i := i + 1;
    }
    var q := new Poly.FromCoefs(rem);
    q.Update();
    r := QuotRem(res, q.coef);
  }

  /** `accumulate`: the running product from the first polynomial on; [0] for none. */
  method Accumulate(ps: seq<seq<real>>) returns (r: seq<real>)
    requires forall i :: 0 <= i < |ps| ==> |ps[i]| >= 1
    ensures r == ProductOfAll(ps)
  {
    if |ps| == 0 {
      return [0.0];
    }
    r := ps[0];
    assert ps[..1] == [ps[0]];
    var i := 1;
    while i < |ps|
      invariant 1 <= i <= |ps|
      invariant r == ProductOfAll(ps[..i])
    {
      assert ps[..i + 1][..i] == ps[..i];
      r := Multiply(r, ps[i]);
      i := i + 1;
    }
    assert ps[..|ps|] == ps;
  }

  // ---------------------------------------------------------------------
  // Root bounds and the closed-form roots

  /** `upper_bound`: one plus the largest |c[i] / c[0]|. */
  method UpperBound(c: seq<real>) returns (r: real)
    requires |c| >= 2 && c[0] != 0.0
    ensures r == RootBound(c)
  {
    var ub := Abs(c[1] / c[0]);
    var i := 2;
    while i < |c|
      invariant 2 <= i <= |c|
      invariant ub == MaxRatio(c, i)
    {
      if Abs(c[i] / c[0]) > ub {
        ub := Abs(c[i] / c[0]);
      }
      i := i + 1;
    }
    r := 1.0 + ub;
  }

  /** `lower_bound`: the reciprocal of `upper_bound`. */
  method LowerBound(c: seq<real>) returns (r: real)
    requires |c| >= 2 && c[0] != 0.0
    ensures r == 1.0 / RootBound(c) && 0.0 < r <= 1.0
  {
    var ub := UpperBound(c);
    LowerBoundRange(c);
    r := 1.0 / ub;
  }

  /**
   * The closed-form branches of `solve`: degree 1 gives its one root, degree 0
   * the placeholder (1, 0). Higher degrees go to numerical solvers (None here).
   */
  method Solve(c: seq<real>) returns (r: Option<seq<Root>>)
    requires |c| >= 1 && (|c| == 2 ==> c[0] != 0.0)
    ensures r.Some? <==> |c| <= 2
    ensures |c| == 1 ==> r == Some([Root(1, 0.0)])
    ensures |c| == 2 ==> r.Some? && |r.value| == 1 && r.value[0].multiplicity == 1
    ensures |c| == 2 ==> forall z :: Value(c, z) == 0.0 <==> z == r.value[0].x
  {
    if |c| == 2 {
      var root := -c[1] / c[0];
      forall z ensures Value(c, z) == 0.0 <==> z == root {
        LinearRoot(c, z);
      }
      return Some([Root(1, root)]);
    }
    if |c| == 1 {
      return Some([Root(1, 0.0)]);
    }
    return None;
  }

  // ---------------------------------------------------------------------
  // The in-place members

  /** A `Poly<T>` variable: the coefficients (highest degree first) and the cached degree. */
  class Poly {
    var coef: seq<real>
    var deg: nat

    ghost predicate Valid()
      reads this
    {
      |coef| >= 1 && deg == |coef| - 1
    }

    /** `Poly()`: the zero polynomial [0]. */
    constructor ()
      ensures Valid() && coef == [0.0]
    {
      coef, deg := [0.0], 0;
    }

    /** `Poly(std::vector<T>)`. */
    constructor FromCoefs(c: seq<real>)
      requires |c| >= 1
      ensures Valid() && coef == c
    {
      coef, deg := c, |c| - 1;
    }

    /** `Poly(deg, value)`: deg + 1 copies of value. */
    constructor Filled(d: nat, v: real)
      ensures Valid() && deg == d && forall i :: 0 <= i < |coef| ==> coef[i] == v
    {
      coef, deg := seq(d + 1, _ => v), d;
    }

    /** `Poly(value)`: the constant polynomial. */
    constructor Constant(v: real)
      ensures Valid() && coef == [v]
    {
      coef, deg := [v], 0;
    }

    /** `Clear`: back to [0]. */
    method Clear()
      modifies this
      ensures Valid() && coef == [0.0]
    {
      coef, deg := [0.0], 0;
    }

    /**
     * `normalize`: divide by the leading coefficient a0 unless it is zero,
     * and return a0.
     */
    method Normalize() returns (a0: real)
      requires Valid()
      modifies this
      ensures Valid() && deg == old(deg) && a0 == old(coef)[0]
      ensures coef == if a0 != 0.0 then DivideEach(old(coef), a0) else old(coef)
      ensures a0 != 0.0 ==> coef[0] == 1.0
    {
      a0 := coef[0];
      if a0 != 0.0 {
        var i := 0;
        while i < |coef|
          invariant 0 <= i <= |coef| == |old(coef)| && deg == old(deg)
          invariant forall t :: 0 <= t < i ==> coef[t] == old(coef)[t] / a0
          invariant forall t :: i <= t < |coef| ==> coef[t] == old(coef)[t]
        {
          coef := coef[i := coef[i] / a0];
          i := i + 1;
        }
        DivSelf(a0);
      }
    }

    /**
     * `update`: skip leading zeros, at most deg of them, and keep the rest.
     */
    method Update()
      requires Valid()
      modifies this
      ensures Valid() && coef == StripZeros(old(coef))
    {
      var i := 0;
      while coef[i] == 0.0 && i < deg
        invariant 0 <= i <= deg
        invariant forall t :: 0 <= t < i ==> coef[t] == 0.0
        decreases deg - i
      {
        i := i + 1;
      }
      StripZerosAt(coef, i);
      coef := coef[i..];
      deg := deg - i;
    }

    /**
     * `update_real` with tolerance eps (1e-8 in the C++ default): skip
     * leading coefficients below eps in absolute value, at most deg of them.
     */
    method UpdateReal(eps: real := 0.00000001)
      requires Valid()
      modifies this
      ensures Valid() && coef == StripSmall(old(coef), eps)
    {
      var i := 0;
      while Abs(coef[i]) < eps && i < deg
        invariant 0 <= i <= deg
        invariant forall t :: 0 <= t < i ==> Abs(coef[t]) < eps
        decreases deg - i
      {
        i := i + 1;
      }
      StripSmallAt(coef, eps, i);
      coef := coef[i..];
      deg := deg - i;
    }

    /** `resize(d)`: keep the last d + 1 coefficients. */
    method Resize(d: nat)
      requires Valid() && d <= deg
      modifies this
      ensures Valid() && deg == d && coef == Truncate(old(coef), d)
    {
      var temp := deg;
      deg := d;
      coef := coef[temp - d..];
    }

    /** `*=` by a scalar: every coefficient scaled, the degree kept even for 0. */
    method MulAssignScalar(v: real)
      requires Valid()
      modifies this
      ensures Valid() && coef == ScaleEach(old(coef), v)
    {
      var i := 0;
      while i <= deg
        invariant 0 <= i <= deg + 1 && |coef| == |old(coef)| && Valid()
        invariant forall t :: 0 <= t < i ==> coef[t] == old(coef)[t] * v
        invariant forall t :: i <= t < |coef| ==> coef[t] == old(coef)[t]
      {
        coef := coef[i := coef[i] * v];
        i := i + 1;
      }
      assert forall t :: 0 <= t < |coef| ==> coef[t] == ScaleEach(old(coef), v)[t];
    }

    /** `/=` by a scalar. */
    method DivAssignScalar(v: real)
      requires Valid() && v != 0.0
      modifies this
      ensures Valid() && coef == DivideEach(old(coef), v)
    {
      var i := 0;
      while i <= deg
        invariant 0 <= i <= deg + 1 && |coef| == |old(coef)| && Valid()
        invariant forall t :: 0 <= t < i ==> coef[t] == old(coef)[t] / v
        invariant forall t :: i <= t < |coef| ==> coef[t] == old(coef)[t]
      {
        coef := coef[i := coef[i] / v];
        i := i + 1;
      }
      assert forall t :: 0 <= t < |coef| ==> coef[t] == DivideEach(old(coef), v)[t];
    }

    /** `+=` a scalar: added to the constant term. */
    method AddAssignScalar(v: real)
      requires Valid()
      modifies this
      ensures Valid() && coef == old(coef)[old(deg) := old(coef)[old(deg)] + v]
    {
      coef := coef[deg := coef[deg] + v];
    }

    /** `+=` a polynomial. */
    method AddAssign(rhs: seq<real>)
      requires Valid() && |rhs| >= 1
      modifies this
      ensures Valid() && coef == Sum(old(coef), rhs)
    {
      var temp := Add(coef, rhs);
      coef, deg := temp, |temp| - 1;
    }

    /** `-=` a polynomial. */
    method SubAssign(rhs: seq<real>)
      requires Valid() && |rhs| >= 1
      modifies this
      ensures Valid() && coef == Difference(old(coef), rhs)
    {
      var temp := Subtract(coef, rhs);
      coef, deg := temp, |temp| - 1;
    }

    /** `*=` a polynomial. */
    method MulAssign(rhs: seq<real>)
      requires Valid() && |rhs| >= 1
      modifies this
      ensures Valid() && coef == Product(old(coef), rhs)
    {
      var temp := Multiply(coef, rhs);
      coef, deg := temp, |temp| - 1;
    }

    /**
     * `/=` a polynomial: the quotient replaces the polynomial. When the
     * divisor has the higher degree the C++ operator throws and the
     * polynomial is left as it was; here `ok` is false.
     */
    method DivAssign(rhs: seq<real>) returns (ok: bool)
      requires Valid() && |rhs| >= 1
      requires |coef| >= |rhs| ==> rhs[0] != 0.0
      modifies this
      ensures Valid() && ok == (|old(coef)| >= |rhs|)
      ensures coef == if ok then Division(old(coef), rhs).quot else old(coef)
    {
      var d := Divide(coef, rhs);
      if d.DegreeError? {
        return false;
      }
      DivisionTheorem(coef, rhs);
      coef, deg := d.quot, |d.quot| - 1;
      ok := true;
    }
  }
}
