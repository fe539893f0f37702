/**
 * The polynomial form of a NURBS curve (`NURBS/nurbs.h`): the de Boor
 * recurrence run on polynomials to get one rational function per segment,
 * the polishing passes over those segments, and the sampling walk that
 * evaluates the curve and its slope.
 *
 * Every method here is proved equal to a function of `NurbsSpec`, whose
 * properties are proved there.
 */
module NurbsCurve {
  import opened PolySpec
  import opened Polynomial
  import opened NurbsSpec

  // ---------------------------------------------------------------------
  // de_boor_nurbs

  /**
   * One blend of the recurrence, as the source writes it:
   * (cur * {1, 0} + B * cur + prev * {-1, 0} + D * prev) / (D - lo) with
   * B = -lo and D = hi.
   */
  method BlendStep(lo: real, hi: real, prev: seq<real>, cur: seq<real>) returns (r: seq<real>)
    requires hi != lo && |prev| >= 1 && |cur| >= 1
    ensures r == Blend(lo, hi, prev, cur)
  {
    var temp1 := CurHalf(lo, cur);
    var temp2 := PrevHalf(hi, prev);
    var s := Add(temp1, temp2);
    assert s == Sum(BlendHalf(cur, X, -lo), BlendHalf(prev, NegX, hi));
    r := ScalarQuotient(s, hi - lo);
    assert r == BlendWith(X, NegX, lo, hi, prev, cur);
  }

  /** `temp1 = cur * {1, 0} + B * cur` with B = -lo. */
  method CurHalf(lo: real, cur: seq<real>) returns (temp1: seq<real>)
    requires |cur| >= 1
    ensures temp1 == BlendHalf(cur, X, -lo)
  {
    var curX := Multiply(cur, X);
    var curB := ScalarProduct(cur, -lo);
    temp1 := Add(curX, curB);
    assert temp1 == Sum(Product(cur, X), Times(cur, -lo));
  }

  /** `temp2 = prev * {-1, 0} + D * prev` with D = hi. */
  method PrevHalf(hi: real, prev: seq<real>) returns (temp2: seq<real>)
    requires |prev| >= 1
    ensures temp2 == BlendHalf(prev, NegX, hi)
  {
    var prevX := Multiply(prev, NegX);
    var prevD := ScalarProduct(prev, hi);
    temp2 := Add(prevX, prevD);
    assert temp2 == Sum(Product(prev, NegX), Times(prev, hi));
  }

  /** The same blend for every coordinate of a point of polynomials (lines 33-37). */
  method BlendPoint(lo: real, hi: real, prev: seq<seq<real>>, cur: seq<seq<real>>) returns (r: seq<seq<real>>)
    requires hi != lo && Operands(prev, cur)
    ensures |r| == |cur| && forall i :: 0 <= i < |cur| ==> r[i] == Blend(lo, hi, prev[i], cur[i])
  {
    r := cur;
    for i := 0 to |cur|
      invariant |r| == |cur|
      invariant forall i' :: 0 <= i' < i ==> r[i'] == Blend(lo, hi, prev[i'], cur[i'])
      invariant forall i' :: i <= i' < |cur| ==> r[i'] == cur[i']
    {
      var b := BlendStep(lo, hi, prev[i], r[i]);
      r := r[i := b];
    }
  }

  /** Coordinate i of every point of a column. */
  ghost function Coordinate(pts: seq<seq<seq<real>>>, i: nat): (col: seq<seq<real>>)
    requires forall j :: 0 <= j < |pts| ==> i < |pts[j]|
    ensures |col| == |pts|
  {
    seq(|pts|, j requires 0 <= j < |pts| => pts[j][i])
  }

  /** Storing a point at j stores its coordinate i at j of coordinate column i. */
  lemma CoordinateUpdate(d: seq<seq<seq<real>>>, i: nat, j: nat, pt: seq<seq<real>>)
    requires 1 <= j < |d| && i < |pt| && forall jj :: 0 <= jj < |d| ==> i < |d[jj]|
    ensures Coordinate(d, i)[j - 1] == d[j - 1][i] && Coordinate(d, i)[j] == d[j][i]
    ensures Coordinate(d[j := pt], i) == Coordinate(d, i)[j := pt[i]]
  {
    assert Coordinate(d[j := pt], i) == Coordinate(d, i)[j := pt[i]];
  }

  /** A column part-way through a round: entries 0 .. j still hold prev, the entries above j hold next. */
  ghost predicate Progress(a: seq<seq<real>>, prev: seq<seq<real>>, next: seq<seq<real>>, j: int) {
    |a| == |prev| == |next| && forall jj :: 0 <= jj < |a| ==> a[jj] == if jj <= j then prev[jj] else next[jj]
  }

  /** Storing next[j] at j moves the boundary one step down. */
  lemma ProgressStep(a: seq<seq<real>>, prev: seq<seq<real>>, next: seq<seq<real>>, j: nat, b: seq<real>)
    requires Progress(a, prev, next, j) && j < |a| && b == next[j]
    ensures Progress(a[j := b], prev, next, j - 1)
  {
  }

  /** Once the boundary is below every entry that changes, the column is next. */
  lemma ProgressDone(a: seq<seq<real>>, prev: seq<seq<real>>, next: seq<seq<real>>, r: nat)
    requires Progress(a, prev, next, r - 1)
    requires forall jj :: 0 <= jj < r && jj < |a| ==> next[jj] == prev[jj]
    ensures a == next
  {
  }

  /** Round r keeps the entries below r. */
  lemma RoundKeeps(knots: seq<real>, k: nat, p: nat, r: nat, col: seq<seq<real>>)
    requires p <= k && k + p < |knots| && Divisors(knots, k, p)
    requires 1 <= r <= p && Column(col, p)
    ensures forall jj :: 0 <= jj < r ==> Round(knots, k, p, r, col)[jj] == col[jj]
  {
  }

  /** Entries 0 .. j of a column part-way through a round are still the previous round's. */
  lemma ProgressOperands(a: seq<seq<real>>, prev: seq<seq<real>>, next: seq<seq<real>>, j: nat)
    requires Progress(a, prev, next, j) && 1 <= j < |a|
    ensures a[j - 1] == prev[j - 1] && a[j] == prev[j]
  {
  }

  /** The blend of entry j in round r, for one column. */
  lemma ColumnStep(a: seq<seq<real>>, knots: seq<real>, k: nat, p: nat, col0: seq<seq<real>>, r: nat, j: nat)
    requires p <= k && k + p < |knots| && Divisors(knots, k, p)
    requires Column(col0, p) && 1 <= r <= j <= p
    requires Progress(a, Rounds(knots, k, p, col0, r - 1), Rounds(knots, k, p, col0, r), j)
    ensures |a[j - 1]| >= 1 && |a[j]| >= 1
    ensures Progress(a[j := Blend(Lo(knots, k, p, j), Hi(knots, k, r, j), a[j - 1], a[j])],
      Rounds(knots, k, p, col0, r - 1), Rounds(knots, k, p, col0, r), j - 1)
  {
    var prev, next := Rounds(knots, k, p, col0, r - 1), Rounds(knots, k, p, col0, r);
    assert next == Round(knots, k, p, r, prev);
    ProgressOperands(a, prev, next, j);
    RoundEntry(knots, k, p, r, prev, j);
    ProgressStep(a, prev, next, j, Blend(Lo(knots, k, p, j), Hi(knots, k, r, j), a[j - 1], a[j]));
  }

  /** The end of round r for one column. */
  lemma ColumnDone(a: seq<seq<real>>, knots: seq<real>, k: nat, p: nat, col0: seq<seq<real>>, r: nat)
    requires p <= k && k + p < |knots| && Divisors(knots, k, p)
    requires Column(col0, p) && 1 <= r <= p
    requires Progress(a, Rounds(knots, k, p, col0, r - 1), Rounds(knots, k, p, col0, r), r - 1)
    ensures a == Rounds(knots, k, p, col0, r)
  {
    var prev, next := Rounds(knots, k, p, col0, r - 1), Rounds(knots, k, p, col0, r);
    assert next == Round(knots, k, p, r, prev);
    RoundKeeps(knots, k, p, r, prev);
    ProgressDone(a, prev, next, r);
  }

  /** Every coordinate column of d holds round r (points of dim coordinates). */
  ghost predicate NumRound(d: seq<seq<seq<real>>>, knots: seq<real>, weights: seq<real>, points: seq<seq<real>>,
                           k: nat, p: nat, r: nat)
    requires Admissible(knots, weights, points, k, p) && r <= p
  {
    |d| == p + 1 && (forall jj :: 0 <= jj <= p ==> |d[jj]| == |points[0]|) &&
    forall i :: 0 <= i < |points[0]| ==> Coordinate(d, i) == Rounds(knots, k, p, NumInit(weights, points, k, p, i), r)
  }

  /** Every coordinate column of d part-way through round r. */
  ghost predicate NumProgress(d: seq<seq<seq<real>>>, knots: seq<real>, weights: seq<real>, points: seq<seq<real>>,
                              k: nat, p: nat, r: nat, j: int)
    requires Admissible(knots, weights, points, k, p) && 1 <= r <= p
  {
    |d| == p + 1 && (forall jj :: 0 <= jj <= p ==> |d[jj]| == |points[0]|) &&
    forall i :: 0 <= i < |points[0]| ==>
      Progress(Coordinate(d, i), Rounds(knots, k, p, NumInit(weights, points, k, p, i), r - 1),
        Rounds(knots, k, p, NumInit(weights, points, k, p, i), r), j)
  }

  lemma NumStart(d: seq<seq<seq<real>>>, knots: seq<real>, weights: seq<real>, points: seq<seq<real>>, k: nat, p: nat, r: nat)
    requires Admissible(knots, weights, points, k, p) && 1 <= r <= p
    requires NumRound(d, knots, weights, points, k, p, r - 1)
    ensures NumProgress(d, knots, weights, points, k, p, r, p)
  {
  }

  /** Coordinate i of the points after blending entry j. */
  lemma CoordinateStep(d: seq<seq<seq<real>>>, knots: seq<real>, weights: seq<real>, points: seq<seq<real>>,
                       k: nat, p: nat, r: nat, j: nat, pt: seq<seq<real>>, i: nat)
    requires Admissible(knots, weights, points, k, p) && 1 <= r <= j <= p && i < |points[0]|
    requires NumProgress(d, knots, weights, points, k, p, r, j)
    requires |pt| == |points[0]| && |d[j - 1][i]| >= 1 && |d[j][i]| >= 1
    requires pt[i] == Blend(Lo(knots, k, p, j), Hi(knots, k, r, j), d[j - 1][i], d[j][i])
    ensures Progress(Coordinate(d[j := pt], i), Rounds(knots, k, p, NumInit(weights, points, k, p, i), r - 1),
      Rounds(knots, k, p, NumInit(weights, points, k, p, i), r), j - 1)
  {
    var a := Coordinate(d, i);
    CoordinateUpdate(d, i, j, pt);
    ColumnStep(a, knots, k, p, NumInit(weights, points, k, p, i), r, j);
  }

  /** The points after blending entry j in every coordinate. */
  lemma NumStep(d: seq<seq<seq<real>>>, knots: seq<real>, weights: seq<real>, points: seq<seq<real>>,
                k: nat, p: nat, r: nat, j: nat, pt: seq<seq<real>>)
    requires Admissible(knots, weights, points, k, p) && 1 <= r <= j <= p
    requires NumProgress(d, knots, weights, points, k, p, r, j)
    requires |pt| == |points[0]|
    requires forall i :: 0 <= i < |pt| ==>
      |d[j - 1][i]| >= 1 && |d[j][i]| >= 1 && pt[i] == Blend(Lo(knots, k, p, j), Hi(knots, k, r, j), d[j - 1][i], d[j][i])
    ensures NumProgress(d[j := pt], knots, weights, points, k, p, r, j - 1)
  {
    forall i | 0 <= i < |points[0]|
      ensures Progress(Coordinate(d[j := pt], i), Rounds(knots, k, p, NumInit(weights, points, k, p, i), r - 1),
        Rounds(knots, k, p, NumInit(weights, points, k, p, i), r), j - 1)
    {
      CoordinateStep(d, knots, weights, points, k, p, r, j, pt, i);
    }
  }

  /** Two points of polynomials, each coordinate a proper polynomial. */
  predicate Operands(prev: seq<seq<real>>, cur: seq<seq<real>>) {
    |prev| == |cur| && forall i :: 0 <= i < |cur| ==> |prev[i]| >= 1 && |cur[i]| >= 1
  }

  /** Every numerator entry the next blend reads is a proper polynomial. */
  lemma NumOperands(d: seq<seq<seq<real>>>, knots: seq<real>, weights: seq<real>, points: seq<seq<real>>,
                    k: nat, p: nat, r: nat, j: nat)
    requires Admissible(knots, weights, points, k, p) && 1 <= r <= j <= p
    requires NumProgress(d, knots, weights, points, k, p, r, j)
    ensures |d[j - 1]| == |d[j]| == |points[0]| && Operands(d[j - 1], d[j])
  {
    var prevPt, curPt := d[j - 1], d[j];
    forall i | 0 <= i < |points[0]|
      ensures |prevPt[i]| >= 1 && |curPt[i]| >= 1
    {
      var col0 := NumInit(weights, points, k, p, i);
      var a := Coordinate(d, i);
      var prev := Rounds(knots, k, p, col0, r - 1);
      ProgressOperands(a, prev, Rounds(knots, k, p, col0, r), j);
      assert a[j - 1] == d[j - 1][i] && a[j] == d[j][i];
      assert |prev[j - 1]| >= 1 && |prev[j]| >= 1;
    }
  }

  lemma NumDone(d: seq<seq<seq<real>>>, knots: seq<real>, weights: seq<real>, points: seq<seq<real>>, k: nat, p: nat, r: nat)
    requires Admissible(knots, weights, points, k, p) && 1 <= r <= p
    requires NumProgress(d, knots, weights, points, k, p, r, r - 1)
    ensures NumRound(d, knots, weights, points, k, p, r)
  {
    forall i | 0 <= i < |points[0]|
      ensures Coordinate(d, i) == Rounds(knots, k, p, NumInit(weights, points, k, p, i), r)
    {
      ColumnDone(Coordinate(d, i), knots, k, p, NumInit(weights, points, k, p, i), r);
    }
  }

  /** The starting numerator points are round 0. */
  lemma NumInitRound(d: seq<seq<seq<real>>>, k: nat, knots: seq<real>, weights: seq<real>, points: seq<seq<real>>, p: nat)
    requires Admissible(knots, weights, points, k, p)
    requires |d| == p + 1 && forall jj :: 0 <= jj <= p ==>
      |d[jj]| == |points[0]| && forall i :: 0 <= i < |points[0]| ==> d[jj][i] == [Weighted(points[jj + k - p][i], weights[jj + k - p])]
    ensures NumRound(d, knots, weights, points, k, p, 0)
  {
    forall i | 0 <= i < |points[0]|
      ensures Coordinate(d, i) == Rounds(knots, k, p, NumInit(weights, points, k, p, i), 0)
    {
      assert Coordinate(d, i) == NumInit(weights, points, k, p, i);
    }
  }

  /** The buffers `d_den` and `d` hold round r of the segment's recurrence. */
  ghost predicate Buffers(den: seq<seq<real>>, d: seq<seq<seq<real>>>, k: nat, knots: seq<real>, weights: seq<real>,
                          points: seq<seq<real>>, p: nat, r: nat)
  {
    Admissible(knots, weights, points, k, p) && r <= p
    && den == Rounds(knots, k, p, DenInit(weights, k, p), r)
    && NumRound(d, knots, weights, points, k, p, r)
  }

  /** The columns after p rounds are the segment. */
  lemma DeBoorResult(den: seq<seq<real>>, d: seq<seq<seq<real>>>, k: nat, knots: seq<real>, weights: seq<real>,
                     points: seq<seq<real>>, p: nat)
    requires Buffers(den, d, k, knots, weights, points, p, p)
    ensures Rational(d[p], den[p]) == DeBoorNurbs(k, knots, weights, points, p)
  {
    var q := DeBoorNurbs(k, knots, weights, points, p);
    forall i | 0 <= i < |points[0]|
      ensures d[p][i] == q.num[i]
    {
      assert Coordinate(d, i)[p] == d[p][i];
    }
  }

  /** Lines 15-22: the buffers `d_den` and `d` filled with the weights and the weighted control points. */
  method StartColumns(k: nat, knots: seq<real>, weights: seq<real>, points: seq<seq<real>>, p: nat)
    returns (dDen: array<seq<real>>, d: array<seq<seq<real>>>)
    requires Admissible(knots, weights, points, k, p)
    ensures fresh(dDen) && fresh(d)
    ensures dDen[..] == DenInit(weights, k, p)
    ensures NumRound(d[..], knots, weights, points, k, p, 0)
  {
    var dim := |points[0]|;
    dDen := new seq<real>[p + 1](_ => [0.0]);
    d := new seq<seq<real>>[p + 1](_ => seq(dim, _ => [0.0]));
    for i := 0 to p + 1
      invariant forall ii :: 0 <= ii < i ==> dDen[ii] == [weights[ii + k - p]]
      invariant forall ii :: 0 <= ii < i ==> |d[ii]| == dim && forall c :: 0 <= c < dim ==>
        d[ii][c] == [Weighted(points[ii + k - p][c], weights[ii + k - p])]
    {
      dDen[i] := [weights[i + k - p]];
      var pt := seq(dim, _ => [0.0]);
      for c := 0 to dim
        invariant |pt| == dim
        invariant forall c' :: 0 <= c' < c ==> pt[c'] == [Weighted(points[i + k - p][c'], weights[i + k - p])]
      {
        pt := pt[c := [Weighted(points[i + k - p][c], weights[i + k - p])]];
      }
      d[i] := pt;
    }
    assert dDen[..] == DenInit(weights, k, p);
    NumInitRound(d[..], k, knots, weights, points, p);
  }

  /** Lines 27-37: blend entry j of round r in both buffers. */
  method BlendEntry(dDen: array<seq<real>>, d: array<seq<seq<real>>>, k: nat, knots: seq<real>, weights: seq<real>,
                    points: seq<seq<real>>, p: nat, r: nat, j: nat)
    requires Admissible(knots, weights, points, k, p) && 1 <= r <= j <= p
    requires Progress(dDen[..], Rounds(knots, k, p, DenInit(weights, k, p), r - 1), Rounds(knots, k, p, DenInit(weights, k, p), r), j)
    requires NumProgress(d[..], knots, weights, points, k, p, r, j)
    modifies dDen, d
    ensures Progress(dDen[..], Rounds(knots, k, p, DenInit(weights, k, p), r - 1), Rounds(knots, k, p, DenInit(weights, k, p), r), j - 1)
    ensures NumProgress(d[..], knots, weights, points, k, p, r, j - 1)
  {
    ghost var den0 := DenInit(weights, k, p);
    ghost var dd := d[..];
    var lo, hi := knots[j + k - p], knots[j + 1 + k - r];
    assert lo == Lo(knots, k, p, j) && hi == Hi(knots, k, r, j);
    ColumnStep(dDen[..], knots, k, p, den0, r, j);
    var nd := BlendStep(lo, hi, dDen[j - 1], dDen[j]);
    NumOperands(dd, knots, weights, points, k, p, r, j);
    var pt := BlendPoint(lo, hi, d[j - 1], d[j]);
    NumStep(dd, knots, weights, points, k, p, r, j, pt);
    dDen[j] := nd;
    d[j] := pt;
    assert d[..] == dd[j := pt];
  }

  /** Lines 26-38: round r, j running from p down to r over both buffers. */
  method RunRound(dDen: array<seq<real>>, d: array<seq<seq<real>>>, k: nat, knots: seq<real>, weights: seq<real>,
                  points: seq<seq<real>>, p: nat, r: nat)
    requires 1 <= r <= p && Buffers(dDen[..], d[..], k, knots, weights, points, p, r - 1)
    modifies dDen, d
    ensures Buffers(dDen[..], d[..], k, knots, weights, points, p, r)
  {
    ghost var den0 := DenInit(weights, k, p);
    NumStart(d[..], knots, weights, points, k, p, r);
    var j := p;
    while j > r - 1
      invariant r - 1 <= j <= p
      invariant Progress(dDen[..], Rounds(knots, k, p, den0, r - 1), Rounds(knots, k, p, den0, r), j)
      invariant NumProgress(d[..], knots, weights, points, k, p, r, j)
    {
      BlendEntry(dDen, d, k, knots, weights, points, p, r, j);
      j := j - 1;
    }
    ColumnDone(dDen[..], knots, k, p, den0, r);
    NumDone(d[..], knots, weights, points, k, p, r);
  }

  /**
   * `de_boor_nurbs(k, knots, weights, points, p)`: p rounds of blends over
   * the buffers `d_den` (denominator column) and `d` (one point of
   * numerators per entry), each round running j from p down to r so that
   * entry j - 1 still holds the previous round when entry j is blended.
   */
  method DeBoor(k: nat, knots: seq<real>, weights: seq<real>, points: seq<seq<real>>, p: nat) returns (q: Rational)
    requires Admissible(knots, weights, points, k, p)
    ensures q == DeBoorNurbs(k, knots, weights, points, p)
  {
    var dDen, d := StartColumns(k, knots, weights, points, p);
    for r := 1 to p + 1
      invariant Buffers(dDen[..], d[..], k, knots, weights, points, p, r - 1)
    {
      RunRound(dDen, d, k, knots, weights, points, p, r);
    }
    ghost var den, num := dDen[..], d[..];
    DeBoorResult(den, num, k, knots, weights, points, p);
    q := Rational(d[p], dDen[p]);
    assert q == Rational(num[p], den[p]);
  }

  /** The loop of `create_coefs`: `de_boor_nurbs` for the segment starting at each ks[i], in order. */
  method AllSegments(knots: seq<real>, weights: seq<real>, cv: seq<seq<real>>, ks: seq<nat>, p: nat)
    returns (segs: seq<Rational>)
    requires |ks| >= 1 && forall s :: 0 <= s < |ks| - 1 ==> Admissible(knots, weights, cv, ks[s], p)
    ensures segs == CurveSegments(knots, weights, cv, ks, p)
  {
    ghost var target := CurveSegments(knots, weights, cv, ks, p);
    segs := [];
    for i := 0 to |ks| - 1
      invariant segs == target[..i]
    {
      var q := DeBoor(ks[i], knots, weights, cv, p);
      assert target[..i + 1] == target[..i] + [q];
      segs := segs + [q];
    }
  }

  // ---------------------------------------------------------------------
  // One segment at a time, through `Poly` variables

  /** `update_real(eps)` on a `Poly` holding `c`. */
  method PolishPoly(c: seq<real>, eps: real) returns (r: seq<real>)
    requires |c| >= 1
    ensures r == StripSmall(c, eps)
  {
    var pl := new Poly.FromCoefs(c);
    pl.UpdateReal(eps);
    r := pl.coef;
  }

  /** `update_real(eps)` on every numerator. */
  method PolishNumerators(num: seq<seq<real>>, eps: real) returns (ns: seq<seq<real>>)
    requires forall d :: 0 <= d < |num| ==> |num[d]| >= 1
    ensures |ns| == |num| && forall d :: 0 <= d < |num| ==> ns[d] == StripSmall(num[d], eps)
  {
    ns := num;
    for d := 0 to |num|
      invariant |ns| == |num|
      invariant forall d' :: 0 <= d' < d ==> ns[d'] == StripSmall(num[d'], eps)
      invariant forall d' :: d <= d' < |num| ==> ns[d'] == num[d']
    {
      var c := PolishPoly(ns[d], eps);
      ns := ns[d := c];
    }
  }

  /** `update_real(eps)` on the denominator and on every numerator. */
  method PolishSegment(q: Rational, eps: real) returns (r: Rational)
    requires WellFormed(q, |q.num|)
    ensures r == PolishRational(q, eps)
  {
    var dc := PolishPoly(q.den, eps);
    var num := PolishNumerators(q.num, eps);
    ghost var target := PolishRational(q, eps);
    assert dc == target.den;
    assert num == target.num;
    r := Rational(num, dc);
  }

  /** `normalize()` on the denominator, then every numerator divided by its old leading coefficient. */
  method MonicSegment(q: Rational) returns (r: Rational)
    requires WellFormed(q, |q.num|) && q.den[0] != 0.0
    ensures r == MonicRational(q)
  {
    var den := new Poly.FromCoefs(q.den);
    var temp := den.Normalize();
    var dc := den.coef;
    var num := q.num;
    for d := 0 to |q.num|
      invariant |num| == |q.num|
      invariant forall d' :: 0 <= d' < d ==> num[d'] == DivideEach(q.num[d'], temp)
      invariant forall d' :: d <= d' < |q.num| ==> num[d'] == q.num[d']
    {
      var pl := new Poly.FromCoefs(num[d]);
      pl.DivAssignScalar(temp);
      num := num[d := pl.coef];
    }
    assert num == MonicRational(q).num;
    r := Rational(num, dc);
  }

  /** `resize(1)` on the denominator and `update_real(eps)` on every numerator. */
  method ResizeSegment(q: Rational, eps: real) returns (r: Rational)
    requires WellFormed(q, |q.num|) && |q.den| >= 2
    ensures r == ResizedRational(q, eps)
  {
    var den := new Poly.FromCoefs(q.den);
    den.Resize(1);
    var dc := den.coef;
    var num := PolishNumerators(q.num, eps);
    assert num == ResizedRational(q, eps).num;
    r := Rational(num, dc);
  }

  /** The first loop of `polishing_uniform`: the first and the last m segments polished. */
  method PolishEnds(cs: seq<Rational>, m: nat, eps: real) returns (r: seq<Rational>)
    requires AllWellFormed(cs) && 2 * m <= |cs|
    ensures |r| == |cs| && AllWellFormed(r)
    ensures forall s :: 0 <= s < |cs| ==>
      r[s] == if s < m || s >= |cs| - m then PolishRational(cs[s], eps) else cs[s]
  {
    var len := |cs|;
    r := cs;
    for i := 0 to m
      invariant |r| == len
      invariant forall s :: 0 <= s < i ==> r[s] == PolishRational(cs[s], eps)
      invariant forall s :: len - i <= s < len ==> r[s] == PolishRational(cs[s], eps)
      invariant forall s :: i <= s < len - i ==> r[s] == cs[s]
    {
      var a := PolishSegment(r[i], eps);
      r := r[i := a];
      var b := PolishSegment(r[len - i - 1], eps);
      r := r[len - i - 1 := b];
    }
  }

  /** The second loop of `polishing_uniform`: the segments between keep a linear denominator. */
  method ResizeMiddle(cs: seq<Rational>, m: nat, eps: real) returns (r: seq<Rational>)
    requires AllWellFormed(cs) && 2 * m <= |cs|
    requires forall s :: m <= s < |cs| - m ==> |cs[s].den| >= 2
    ensures |r| == |cs| && AllWellFormed(r)
    ensures forall s :: 0 <= s < |cs| ==>
      r[s] == if m <= s < |cs| - m then ResizedRational(cs[s], eps) else cs[s]
  {
    var len := |cs|;
    r := cs;
    for i := m to len - m
      invariant |r| == len
      invariant forall s :: m <= s < i ==> r[s] == ResizedRational(cs[s], eps)
      invariant forall s :: 0 <= s < m || i <= s < len ==> r[s] == cs[s]
    {
      var q := ResizeSegment(r[i], eps);
      r := r[i := q];
    }
  }

  /** The point of one segment at `t`: every numerator over the denominator. */
  method EvalPoint(q: Rational, t: real) returns (pt: seq<real>)
    requires WellFormed(q, |q.num|) && Value(q.den, t) != 0.0
    ensures pt == PointAt(q, t)
  {
    pt := Zeros(|q.num|);
    for d := 0 to |q.num|
      invariant |pt| == |q.num|
      invariant forall d' :: 0 <= d' < d ==> pt[d'] == Value(q.num[d'], t) / Value(q.den, t)
    {
      var n := At(q.num[d], t);
      var m := At(q.den, t);
      pt := pt[d := n / m];
    }
  }

  /** dy/dx of the first two coordinates of segment q at `t`, by the quotient rule. */
  method EvalSlope(q: Rational, t: real) returns (s: real)
    requires |q.num| >= 2 && |q.den| >= 1 && |q.num[0]| >= 1 && |q.num[1]| >= 1
    requires SlopeDivisor(q, t) != 0.0
    ensures s == Slope(q, t)
  {
    var px, py, den := q.num[0], q.num[1], q.den;
    var dpy := Der(py);
    var dden := Der(den);
    var dpx := Der(px);
    var a := At(dpy, t);
    var b := At(den, t);
    var c := At(py, t);
    var e := At(dden, t);
    var f := At(dpx, t);
    var g := At(px, t);
    s := Cross(a, b, c, e) / Cross(f, b, g, e);
  }

  // ---------------------------------------------------------------------
  // Sampling the curve

  /**
   * The state of the walk of `get_points` before segment j: the samples
   * before i are done, the others are still at the origin, and the walk
   * would resume at segment j for sample i, whose parameter is t.
   */
  ghost predicate PointsWalked(coefs: seq<Rational>, ends: seq<real>, S: seq<real>, dim: nat,
                           j: nat, i: nat, t: real, points: seq<seq<real>>)
  {
    Evaluable(coefs, ends, S, dim) && j <= |ends| && i <= |S| && |points| == |S|
    && (forall ii :: 0 <= ii < i ==> points[ii] == CurvePoints(coefs, ends, S, dim)[ii])
    && (forall ii :: i <= ii < |S| ==> points[ii] == Zeros(dim))
    && (i < |S| ==> t == S[i] && Owner(ends, S, i) == FirstFrom(ends, j, S[i]))
  }

  /** A walk that has been through every segment has produced the whole result. */
  lemma PointsDone(coefs: seq<Rational>, ends: seq<real>, S: seq<real>, dim: nat, i: nat, t: real, points: seq<seq<real>>)
    requires PointsWalked(coefs, ends, S, dim, |ends|, i, t, points)
    ensures points == CurvePoints(coefs, ends, S, dim)
  {
    forall ii | i <= ii < |S|
      ensures Owner(ends, S, ii) == |ends|
    {
      OwnerExhausted(ends, S, i, ii);
    }
  }

  /** Sample i, due on segment j, takes value x; the walk moves on to sample i + 1 at parameter next. */
  lemma PointsAdvance(coefs: seq<Rational>, ends: seq<real>, S: seq<real>, dim: nat, j: nat, i: nat, t: real,
                      points: seq<seq<real>>, x: seq<real>, next: real)
    requires PointsWalked(coefs, ends, S, dim, j, i, t, points) && i < |S| && j < |ends| && t <= ends[j]
    requires x == CurvePoints(coefs, ends, S, dim)[i]
    requires i + 1 < |S| ==> next == S[i + 1]
    ensures PointsWalked(coefs, ends, S, dim, j, i + 1, next, points[i := x])
  {
    PointDue(coefs, ends, S, dim, i, j);
    if i + 1 < |S| {
      OwnerNext(ends, S, i);
    }
  }

  /** One step of the walk: sample i, not past the end of segment j, evaluated there. */
  method PointsStep(coefs: seq<Rational>, ghost ends: seq<real>, ghost S: seq<real>, ts: seq<real>, dim: nat,
                 j: nat, i: nat, t: real, points: seq<seq<real>>)
    returns (i': nat, t': real, points': seq<seq<real>>)
    requires j < |ends| && t <= ends[j] && i < |ts|
    requires |S| == |ts| && forall k :: 1 <= k < |ts| ==> S[k] == ts[k]
    requires PointsWalked(coefs, ends, S, dim, j, i, t, points)
    ensures i' == i + 1 && PointsWalked(coefs, ends, S, dim, j, i', t', points')
  {
    PointDue(coefs, ends, S, dim, i, j);
    var q := coefs[j];
    var x := EvalPoint(q, t);
    var next := if i + 1 < |ts| then ts[i + 1] else t;
    PointsAdvance(coefs, ends, S, dim, j, i, t, points, x, next);
    i', t', points' := i + 1, next, points[i := x];
  }

  /**
   * One segment of the walk: while the parameter has not passed the end e
   * of segment j, the sample gets the point of segment j and the
   * next parameter is taken.
   */
  method PointsOnSegment(coefs: seq<Rational>, ghost ends: seq<real>, ghost S: seq<real>, ts: seq<real>, dim: nat,
                         j: nat, e: real, i0: nat, t0: real, points0: seq<seq<real>>)
    returns (i: nat, t: real, points: seq<seq<real>>)
    requires j < |ends| && e == ends[j]
    requires |S| == |ts| && forall k :: 1 <= k < |ts| ==> S[k] == ts[k]
    requires PointsWalked(coefs, ends, S, dim, j, i0, t0, points0)
    ensures i0 <= i && PointsWalked(coefs, ends, S, dim, j + 1, i, t, points)
  {
    i, t, points := i0, t0, points0;
    var N := |ts|;
    while t <= e && i < N
      invariant i0 <= i && PointsWalked(coefs, ends, S, dim, j, i, t, points)
      decreases N - i
    {
      i, t, points := PointsStep(coefs, ends, S, ts, dim, j, i, t, points);
    }
    if i < N {
      assert t > ends[j];
    }
  }

  /**
   * The walk of `get_points`: the parameter starts at t0 and then takes
   * ts[1], ts[2], ...; walking the segments in order, every sample up to
   * the end of the current segment is evaluated on that segment, and
   * samples past the last segment stay at the origin.
   */
  method WalkPoints(coefs: seq<Rational>, knots: seq<real>, ks: seq<nat>, t0: real, ts: seq<real>, dim: nat)
    returns (points: seq<seq<real>>)
    requires |ks| >= 1 && forall i :: 0 <= i < |ks| ==> ks[i] < |knots|
    requires Evaluable(coefs, SegmentEnds(knots, ks), Samples(t0, ts), dim)
    ensures points == CurvePoints(coefs, SegmentEnds(knots, ks), Samples(t0, ts), dim)
  {
    ghost var ends := SegmentEnds(knots, ks);
    ghost var S := Samples(t0, ts);
    var N := |ts|;
    points := seq(N, _ => Zeros(dim));
    var t := t0;
    var i := 0;
    if N > 0 {
      OwnerFirst(ends, S);
    }
    for j := 0 to |ks| - 1
      invariant PointsWalked(coefs, ends, S, dim, j, i, t, points)
    {
      i, t, points := PointsOnSegment(coefs, ends, S, ts, dim, j, knots[ks[j + 1]], i, t, points);
    }
    PointsDone(coefs, ends, S, dim, i, t, points);
  }

  /**
   * The state of the walk of `get_dy_dx_points` before segment j: the samples
   * before i are done, the others are still 0, and the walk
   * would resume at segment j for sample i, whose parameter is t.
   */
  ghost predicate SlopesWalked(coefs: seq<Rational>, ends: seq<real>, S: seq<real>, dim: nat,
                           j: nat, i: nat, t: real, slopes: seq<real>)
  {
    SlopeEvaluable(coefs, ends, S, dim) && j <= |ends| && i <= |S| && |slopes| == |S|
    && (forall ii :: 0 <= ii < i ==> slopes[ii] == CurveSlopes(coefs, ends, S, dim)[ii])
    && (forall ii :: i <= ii < |S| ==> slopes[ii] == 0.0)
    && (i < |S| ==> t == S[i] && Owner(ends, S, i) == FirstFrom(ends, j, S[i]))
  }

  /** A walk that has been through every segment has produced the whole result. */
  lemma SlopesDone(coefs: seq<Rational>, ends: seq<real>, S: seq<real>, dim: nat, i: nat, t: real, slopes: seq<real>)
    requires SlopesWalked(coefs, ends, S, dim, |ends|, i, t, slopes)
    ensures slopes == CurveSlopes(coefs, ends, S, dim)
  {
    forall ii | i <= ii < |S|
      ensures Owner(ends, S, ii) == |ends|
    {
      OwnerExhausted(ends, S, i, ii);
    }
  }

  /** Sample i, due on segment j, can be evaluated there. */
  lemma SlopeReady(coefs: seq<Rational>, ends: seq<real>, S: seq<real>, dim: nat, j: nat, i: nat, t: real, slopes: seq<real>)
    requires SlopesWalked(coefs, ends, S, dim, j, i, t, slopes) && i < |S| && j < |ends| && t <= ends[j]
    ensures j < |coefs| && WellFormed(coefs[j], dim) && dim >= 2 && SlopeDivisor(coefs[j], t) != 0.0
  {
    SlopeDue(coefs, ends, S, dim, i, j, t);
  }

  /** Sample i, due on segment j, takes value x; the walk moves on to sample i + 1 at parameter next. */
  lemma SlopesAdvance(coefs: seq<Rational>, ends: seq<real>, S: seq<real>, dim: nat, j: nat, i: nat, t: real,
                      slopes: seq<real>, x: real, next: real)
    requires SlopesWalked(coefs, ends, S, dim, j, i, t, slopes) && i < |S| && j < |ends| && t <= ends[j]
    requires j < |coefs| && WellFormed(coefs[j], dim) && dim >= 2 && SlopeDivisor(coefs[j], t) != 0.0
    requires x == Slope(coefs[j], t)
    requires i + 1 < |S| ==> next == S[i + 1]
    ensures SlopesWalked(coefs, ends, S, dim, j, i + 1, next, slopes[i := x])
  {
    SlopeDue(coefs, ends, S, dim, i, j, t);
    if i + 1 < |S| {
      OwnerNext(ends, S, i);
    }
  }

  /** One step of the walk: sample i, not past the end of segment j, evaluated there. */
  method SlopesStep(coefs: seq<Rational>, ghost ends: seq<real>, ghost S: seq<real>, ts: seq<real>, dim: nat,
                 j: nat, i: nat, t: real, slopes: seq<real>)
    returns (i': nat, t': real, slopes': seq<real>)
    requires j < |ends| && t <= ends[j] && i < |ts|
    requires |S| == |ts| && forall k :: 1 <= k < |ts| ==> S[k] == ts[k]
    requires SlopesWalked(coefs, ends, S, dim, j, i, t, slopes)
    ensures i' == i + 1 && SlopesWalked(coefs, ends, S, dim, j, i', t', slopes')
  {
    SlopeReady(coefs, ends, S, dim, j, i, t, slopes);
    var q := coefs[j];
    var x := EvalSlope(q, t);
    var next := if i + 1 < |ts| then ts[i + 1] else t;
    SlopesAdvance(coefs, ends, S, dim, j, i, t, slopes, x, next);
    i', t', slopes' := i + 1, next, slopes[i := x];
  }

  /**
   * One segment of the walk: while the parameter has not passed the end e
   * of segment j, the sample gets the slope dy/dx of segment j and the
   * next parameter is taken.
   */
  method SlopesOnSegment(coefs: seq<Rational>, ghost ends: seq<real>, ghost S: seq<real>, ts: seq<real>, dim: nat,
                         j: nat, e: real, i0: nat, t0: real, slopes0: seq<real>)
    returns (i: nat, t: real, slopes: seq<real>)
    requires j < |ends| && e == ends[j]
    requires |S| == |ts| && forall k :: 1 <= k < |ts| ==> S[k] == ts[k]
    requires SlopesWalked(coefs, ends, S, dim, j, i0, t0, slopes0)
    ensures i0 <= i && SlopesWalked(coefs, ends, S, dim, j + 1, i, t, slopes)
  {
    i, t, slopes := i0, t0, slopes0;
    var N := |ts|;
    while t <= e && i < N
      invariant i0 <= i && SlopesWalked(coefs, ends, S, dim, j, i, t, slopes)
      decreases N - i
    {
      i, t, slopes := SlopesStep(coefs, ends, S, ts, dim, j, i, t, slopes);
    }
    if i < N {
      assert t > ends[j];
    }
  }

  /**
   * The walk of `get_dy_dx_points`: as `WalkPoints`, each sample giving
   * the slope dy/dx of the first two coordinates; samples past the last
   * segment stay 0.
   */
  method WalkSlopes(coefs: seq<Rational>, knots: seq<real>, ks: seq<nat>, t0: real, ts: seq<real>, dim: nat)
    returns (slopes: seq<real>)
    requires |ks| >= 1 && forall i :: 0 <= i < |ks| ==> ks[i] < |knots|
    requires SlopeEvaluable(coefs, SegmentEnds(knots, ks), Samples(t0, ts), dim)
    ensures slopes == CurveSlopes(coefs, SegmentEnds(knots, ks), Samples(t0, ts), dim)
  {
    ghost var ends := SegmentEnds(knots, ks);
    ghost var S := Samples(t0, ts);
    var N := |ts|;
    slopes := seq(N, _ => 0.0);
    var t := t0;
    var i := 0;
    if N > 0 {
      OwnerFirst(ends, S);
    }
    for j := 0 to |ks| - 1
      invariant SlopesWalked(coefs, ends, S, dim, j, i, t, slopes)
    {
      i, t, slopes := SlopesOnSegment(coefs, ends, S, ts, dim, j, knots[ks[j + 1]], i, t, slopes);
    }
    SlopesDone(coefs, ends, S, dim, i, t, slopes);
  }

  // ---------------------------------------------------------------------
  // The curve object

  /**
   * `NURBS<T, p>`: the degree, knot vector, weights and control points,
   * the parameter domain, the knot index where each segment starts and the
   * rational function of each segment.
   */
  class Nurbs {
    var p: nat
    var dim: nat
    var nSegments: nat
    var knots: seq<real>
    var weights: seq<real>
    var cv: seq<seq<real>>
    var domain: (nat, nat)
    var ks: seq<nat>
    var coefs: seq<Rational>

    ghost predicate Valid()
      reads this
    {
      |cv| >= 1 && dim == |cv[0]| && p < |knots| && domain == (p, |knots| - p - 1)
      && |ks| == nSegments + 1 && (forall i :: 0 <= i < |ks| ==> ks[i] < |knots|)
      && (forall s :: 0 <= s < nSegments ==> Admissible(knots, weights, cv, ks[s], p))
      && (forall s :: 0 <= s < |coefs| ==> WellFormed(coefs[s], dim))
    }

    /** Everything but the segment functions. */
    ghost function Setup(): (nat, nat, nat, seq<real>, seq<real>, seq<seq<real>>, (nat, nat), seq<nat>)
      reads this
    {
      (p, dim, nSegments, knots, weights, cv, domain, ks)
    }

    /** Knots, weights and control points given: the segment functions, polished with 1e-13. */
    constructor (p': nat, knots': seq<real>, weights': seq<real>, cv': seq<seq<real>>, ks': seq<nat>)
      requires |cv'| >= 1 && p' < |knots'| && |ks'| >= 1
      requires forall i :: 0 <= i < |ks'| ==> ks'[i] < |knots'|
      requires forall s :: 0 <= s < |ks'| - 1 ==> Admissible(knots', weights', cv', ks'[s], p')
      ensures Valid()
      ensures Setup() == (p', |cv'[0]|, |ks'| - 1, knots', weights', cv', (p', |knots'| - p' - 1), ks')
      ensures coefs == PolishAll(CurveSegments(knots', weights', cv', ks', p'), DefaultEps)
    {
      p, dim, nSegments := p', |cv'[0]|, |ks'| - 1;
      knots, weights, cv := knots', weights', cv';
      domain, ks, coefs := (p', |knots'| - p' - 1), ks', [];
      new;
      CreateCoefs();
      assert coefs == CurveSegments(knots', weights', cv', ks', p');
      Polishing(DefaultEps);
    }

    /** Uniform weights given: the segment functions, polished by `polishing_uniform`. */
    constructor Uniform(p': nat, knots': seq<real>, weights': seq<real>, cv': seq<seq<real>>, ks': seq<nat>)
      requires |cv'| >= 1 && 1 <= p' < |knots'| && |ks'| >= 1
      requires forall i :: 0 <= i < |ks'| ==> ks'[i] < |knots'|
      requires forall s :: 0 <= s < |ks'| - 1 ==> Admissible(knots', weights', cv', ks'[s], p')
      ensures Valid()
      ensures Setup() == (p', |cv'[0]|, |ks'| - 1, knots', weights', cv', (p', |knots'| - p' - 1), ks')
      ensures coefs == UniformPolishAll(CurveSegments(knots', weights', cv', ks', p'), p', DefaultEps)
    {
      p, dim, nSegments := p', |cv'[0]|, |ks'| - 1;
      knots, weights, cv := knots', weights', cv';
      domain, ks, coefs := (p', |knots'| - p' - 1), ks', [];
      new;
      CreateCoefs();
      assert coefs == CurveSegments(knots', weights', cv', ks', p');
      PolishingUniform(DefaultEps);
    }

    /** `create_coefs`: appends the function of every segment, in order. */
    method CreateCoefs()
      requires Valid()
      modifies this
      ensures Valid() && Setup() == old(Setup())
      ensures coefs == old(coefs) + CurveSegments(knots, weights, cv, ks, p)
    {
      var segs := AllSegments(knots, weights, cv, ks, p);
      coefs := coefs + segs;
    }

    /** `polishing(eps)`: drops the negligible leading terms of every polynomial. */
    method Polishing(eps: real)
      requires Valid()
      modifies this
      ensures Valid() && Setup() == old(Setup())
      ensures coefs == PolishAll(old(coefs), eps)
    {
      var cs := coefs;
      for s := 0 to |cs|
        invariant |cs| == |coefs|
        modifies {}
        invariant forall s' :: 0 <= s' < s ==> cs[s'] == PolishRational(coefs[s'], eps)
        invariant forall s' :: s <= s' < |cs| ==> cs[s'] == coefs[s']
      {
        var q := PolishSegment(cs[s], eps);
        cs := cs[s := q];
      }
      coefs := cs;
    }

    /** `polishing2`: makes every denominator monic, dividing the numerators alike. */
    method Polishing2()
      requires Valid() && forall s :: 0 <= s < |coefs| ==> coefs[s].den[0] != 0.0
      modifies this
      ensures Valid() && Setup() == old(Setup())
      ensures coefs == MonicAll(old(coefs))
    {
      var cs := coefs;
      for s := 0 to |cs|
        invariant |cs| == |coefs|
        modifies {}
        invariant forall s' :: 0 <= s' < s ==> cs[s'] == MonicRational(coefs[s'])
        invariant forall s' :: s <= s' < |cs| ==> cs[s'] == coefs[s']
      {
        var q := MonicSegment(cs[s]);
        cs := cs[s := q];
      }
      coefs := cs;
    }

    /**
     * `polishing_uniform(eps)`: the first and last p - 1 segments are
     * polished, the others keep a linear denominator and polished numerators;
     * with too few segments for that split, `polishing()` with 1e-13.
     * The source interleaves the updates of segment i and segment len - i - 1;
     * they touch different segments, so they are done one after the other here.
     */
    method PolishingUniform(eps: real)
      requires Valid() && p >= 1
      requires |coefs| > 2 * (p - 1) ==> forall s :: p - 1 <= s <= |coefs| - p ==> |coefs[s].den| >= 2
      modifies this
      ensures Valid() && Setup() == old(Setup())
      ensures coefs == UniformPolishAll(old(coefs), p, eps)
    {
      var len := |coefs|;
      if len <= 2 * (p - 1) {
        Polishing(DefaultEps);
        return;
      }
      var cs := PolishEnds(coefs, p - 1, eps);
      cs := ResizeMiddle(cs, p - 1, eps);
      assert forall s :: 0 <= s < len ==> cs[s] == UniformPolished(coefs[s], s, len, p, eps);
      coefs := cs;
    }

    /**
     * `get_points(N)` for the parameters `ts` (`linspace` over the domain
     * in the source).
     */
    method GetPoints(N: nat, ts: seq<real>) returns (points: seq<seq<real>>)
      requires Valid() && |ts| == N
      requires Evaluable(coefs, SegmentEnds(knots, ks), Samples(knots[domain.0], ts), dim)
      ensures points == CurvePoints(coefs, SegmentEnds(knots, ks), Samples(knots[domain.0], ts), dim)
    {
      points := WalkPoints(coefs, knots, ks, knots[domain.0], ts, dim);
    }

    /** `get_dy_dx_points(N)` for the parameters `ts`. */
    method GetDyDxPoints(N: nat, ts: seq<real>) returns (slopes: seq<real>)
      requires Valid() && |ts| == N
      requires SlopeEvaluable(coefs, SegmentEnds(knots, ks), Samples(knots[domain.0], ts), dim)
      ensures slopes == CurveSlopes(coefs, SegmentEnds(knots, ks), Samples(knots[domain.0], ts), dim)
    {
      slopes := WalkSlopes(coefs, knots, ks, knots[domain.0], ts, dim);
    }
  }
}
