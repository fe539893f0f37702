# BSpline: polynomial algebra and the polynomial form of NURBS curves

This project is a Dafny model of two headers of the BSpline library.

- `include/Poly.h` is a dense single-variable polynomial class, `Poly<T>`.
  - Coefficients are stored highest degree first, with the degree cached in `deg_`.
  - It provides addition aligned at the constant term, negation, subtraction, the convolution product, scalar product and quotient.
  - It provides long division with quotient and remainder, derivative, antiderivative and definite integral.
  - It evaluates by Horner's rule (`At`) and by a power sum (`eval`).
  - It has in-place normalisation, leading-term trimming (`update`, `update_real`), `resize` and `Clear`.
  - It also has the `accumulate` product, the Cauchy root bounds `upper_bound`/`lower_bound`, and the closed-form root in `solve` for degree 0 and 1.
- `NURBS/nurbs.h` turns a NURBS curve into one rational function per knot segment.
  - `de_boor_nurbs` runs the rational de Boor recurrence on polynomials. It keeps one column for the shared denominator and one per coordinate.
  - `create_coefs` builds the rational for every segment.
  - `polishing`, `polishing2` and `polishing_uniform` trim or rescale these polynomials in place.
  - `get_points` and `get_dy_dx_points` walk a sorted list of parameters across the segments. They evaluate the point, or the slope dy/dx, of the segment that owns each parameter.

Coefficients are Dafny `real`s, so the algebraic identities the code relies on are proved exactly.

The project has four modules:

- `PolySpec` (`poly_spec.dfy`) defines polynomials as `seq<real>`.
  - `Value` is the polynomial function. `Coef(c, k)` is the coefficient of x^k.
  - It defines every operation as a function and proves its properties.
- `Polynomial` (`poly.dfy`) holds the code of `Poly.h`.
  - The free operators and the const members are methods with index loops. Each is proved equal to its `PolySpec` function.
  - The members that rewrite a polynomial in place belong to the class `Poly`, whose fields are `coef` and `deg`.
- `NurbsSpec` (`nurbs_spec.dfy`) is the recurrence as a function, together with:
  - the polishing passes on segment functions;
  - the sampling walk, as a function `Owner` from samples to segments;
  - what these promise.
- `NurbsCurve` (`nurbs.dfy`) holds the code of `nurbs.h`.
  - `DeBoor` updates the arrays `d_den` and `d` round by round.
  - The class `Nurbs` keeps the curve's fields, and its methods rewrite `coefs`.
  - The sampling loops fill their output one sample at a time.

The knot vector, the segment start indices `ks` and the sample parameters `ts` are inputs. The helpers that compute them (`create_knots`, `create_intervals`, `linspace`) are not part of this model.

## Model

| member | source | states |
|---|---|---|
| Polynomial.At | include/Poly.h:243-249 | Horner evaluation from the leading coefficient gives the value of the polynomial at x |
| Polynomial.Eval | include/Poly.h:584-595 | the power sum over the coefficients, with or without the degree-0 shortcut, is the value at x, the same value `At` gives |
| PolySpec.ValueIsPowerSum | include/Poly.h:584-595 | the Horner value and the power sum of all coefficients agree at every point |
| Polynomial.Der | include/Poly.h:194-207 | `der` fills exactly the derivative: [0] for a constant, otherwise one coefficient fewer with k-th coefficient (k+1)·c_{k+1} |
| PolySpec.DerivativeCoef | include/Poly.h:194-207 | the coefficient of x^k in the derivative is (k+1) times that of x^(k+1) |
| PolySpec.DerivativeExample | include/Poly.h:195 | x^2 + x differentiates to 2x + 1 |
| Polynomial.Antider | include/Poly.h:179-190 | `antider` fills exactly the antiderivative with constant term 0, including the degree-0 branch |
| PolySpec.AntiderivativeCoef | include/Poly.h:179-190 | the antiderivative has constant term 0 and its x^(k+1) coefficient is c_k/(k+1) |
| PolySpec.DerivativeOfAntiderivative | include/Poly.h:179-207 | differentiating the antiderivative gives back exactly the same coefficient sequence |
| PolySpec.AntiderivativeOfDerivative | include/Poly.h:179-207 | the antiderivative of the derivative agrees with c except for its constant term, which is 0 |
| Polynomial.Integral | include/Poly.h:170-173 | `integral(from, to)` is the antiderivative at `to` minus the antiderivative at `from` |
| PolySpec.IntegralOfDerivative | include/Poly.h:170-173 | the integral of a derivative over [from, to] is the change in the polynomial (fundamental theorem) |
| PolySpec.IntegralAdditive | include/Poly.h:170-173 | integrals over adjacent intervals add up, and reversing the bounds negates the integral |
| PolySpec.IntegralExample | include/Poly.h:170-173 | x^2 - 1 integrated over [0, 1] is -2/3 |
| PolySpec.Sum | include/Poly.h:615-632 | the sum is as long as the longer operand, and the coefficient of each x^k is the sum of the two |
| Polynomial.Plus | include/Poly.h:615-625 | `plus` adds rhs into a copy of lhs aligned at the constant term, giving the sum |
| Polynomial.Add | include/Poly.h:628-632 | `operator+` gives the sum whichever operand is longer |
| PolySpec.SumCommutes | include/Poly.h:628-632 | addition is commutative |
| PolySpec.SumValue | include/Poly.h:615-632 | the sum evaluates to the sum of the values |
| PolySpec.SumExample | include/Poly.h:630 | [1,1,1,1] + [1,1] = [1,1,2,2] |
| PolySpec.Negation | include/Poly.h:604-611 | negation keeps the length and negates the coefficient of every x^k |
| Polynomial.Negate | include/Poly.h:604-611 | unary `operator-` negates every coefficient |
| PolySpec.NegationValue | include/Poly.h:604-611 | the negation evaluates to minus the value |
| Polynomial.Subtract | include/Poly.h:636-640 | `operator-` is lhs + (-rhs) |
| PolySpec.DifferenceCoefs | include/Poly.h:636-640 | the difference is as long as the longer operand, coefficient-wise, and evaluates to the difference of the values |
| PolySpec.AddThenSubtract | include/Poly.h:615-640 | (a + b) - b has the coefficients and the value of a, and equals a when b is not longer |
| Polynomial.Multiply | include/Poly.h:281-292 | the loop `res[i + j] += p1[i] * p2[j]` gives the convolution product with deg p1 + deg p2 + 1 coefficients |
| PolySpec.ProductValue | include/Poly.h:281-292 | the product is an evaluation homomorphism: At(p1 * p2, x) = At(p1, x) · At(p2, x) |
| PolySpec.ProductSnocCoefs | include/Poly.h:281-292 | appending a coefficient c to a multiplies the product by x and adds c·b, coefficient by coefficient |
| PolySpec.ScaleEach | include/Poly.h:301-306 | scaling in place keeps the length and multiplies the coefficient of every x^k by v |
| Polynomial.ScalarProduct | include/Poly.h:644-658 | `p * value` is [0] when value is 0 and p scaled coefficient-wise otherwise |
| PolySpec.TimesValue | include/Poly.h:644-653 | the scalar product scales the value and every coefficient; only a zero factor changes the length, to 1 |
| Polynomial.ScalarQuotient | include/Poly.h:661-669 | `p / value` divides every coefficient by value |
| PolySpec.DivideEachValue | include/Poly.h:661-669 | dividing by a scalar divides every coefficient and the value |
| PolySpec.Division | include/Poly.h:672-696 | long division reports the degree error exactly when deg lhs < deg rhs |
| Polynomial.Divide | include/Poly.h:672-696 | the elimination loop and the final `update` of the remainder give exactly `Division`, including the error case |
| PolySpec.DivisionTheorem | include/Poly.h:672-696 | the quotient has deg1 - deg2 + 1 coefficients; the remainder is shorter than rhs when deg rhs >= 1, and [0] when rhs is a constant |
| PolySpec.DivisionValue | include/Poly.h:672-696 | lhs = rhs · quotient + remainder at every point |
| PolySpec.SynthDivZeros | include/Poly.h:686-693 | every row the elimination loop has processed is zero in the remainder |
| PolySpec.DivideExample | include/Poly.h:672-696 | x^3 / (x - 1) gives quotient x^2 + x + 1 and remainder 1 |
| Polynomial.Accumulate | include/Poly.h:710-717 | `accumulate` is the left-to-right product of the list, or [0] for an empty list |
| PolySpec.ProductOfAllValue | include/Poly.h:710-717 | the product of a non-empty list evaluates to the product of the values |
| PolySpec.ProductOfAllDegree | include/Poly.h:710-717 | the degree of the product of a non-empty list is the sum of the degrees |
| PolySpec.MaxRatio | include/Poly.h:431-438 | the running maximum is an upper bound of every abs(c[i]/c[0]) and equals one of them |
| Polynomial.UpperBound | include/Poly.h:431-438 | `upper_bound` is one plus the largest abs(c[i]/c[0]) |
| PolySpec.CauchyBound | include/Poly.h:431-438 | every real root z satisfies abs(z) < upper_bound (Cauchy's bound) |
| Polynomial.LowerBound | include/Poly.h:441-443 | `lower_bound` is the reciprocal of the upper bound and lies in (0, 1] |
| PolySpec.LowerBoundRange | include/Poly.h:441-443 | the upper bound is at least 1, so its reciprocal lies in (0, 1] |
| Polynomial.Solve | include/Poly.h:410-426 | degree 0 gives {(1, 0)}; degree 1 gives one simple root, and z is a root exactly when it is that root; higher degrees are not covered |
| PolySpec.LinearRoot | include/Poly.h:413-415 | c0·x + c1 with c0 != 0 vanishes exactly at -c1/c0 |
| Polynomial.Poly.constructor | include/Poly.h:118-119 | `Poly()` is the zero polynomial [0] with degree 0 |
| Polynomial.Poly.FromCoefs | include/Poly.h:124-128 | `Poly(std::vector)` holds the given coefficients with degree size - 1 |
| Polynomial.Poly.Filled | include/Poly.h:136-140 | `Poly(deg, value)` is deg + 1 copies of value |
| Polynomial.Poly.Constant | include/Poly.h:130-134 | `Poly(value)` is the constant polynomial |
| Polynomial.Poly.Clear | include/Poly.h:162-167 | `Clear` resets to [0] with degree 0 |
| Polynomial.Poly.Normalize | include/Poly.h:142-150 | returns a0; if a0 != 0 every coefficient is divided by a0 and the leading one becomes 1, otherwise nothing changes; the degree is kept |
| PolySpec.StripZeros | include/Poly.h:539-552 | `update` keeps a non-empty suffix, drops only exact zeros, and leaves a nonzero leading coefficient unless one coefficient remains |
| Polynomial.Poly.Update | include/Poly.h:539-552 | `update` replaces the coefficients by their stripped form and restores deg == size - 1 |
| PolySpec.StripZerosAt | include/Poly.h:541-551 | the scan that stops at the first nonzero index i (or at the constant term) keeps c[i..] |
| PolySpec.StripZerosValue | include/Poly.h:539-552 | dropping leading zeros keeps the value at every point |
| PolySpec.StripZerosCoef | include/Poly.h:539-552 | dropping leading zeros keeps the coefficient of every x^k |
| PolySpec.StripZerosIdempotent | include/Poly.h:539-552 | `update` twice is `update` once |
| PolySpec.StripZerosAllZero | include/Poly.h:539-552 | an all-zero polynomial becomes [0] |
| PolySpec.StripSmall | include/Poly.h:554-567 | `update_real` keeps at least one coefficient, drops only leading terms of magnitude below eps, and stops at one of magnitude at least eps |
| PolySpec.StripSmallSuffix | include/Poly.h:554-567 | what `update_real` keeps is a suffix of the coefficients: the low-order terms unchanged |
| PolySpec.StripSmallAt | include/Poly.h:556-566 | the scan that stops at the first index i with abs(c[i]) >= eps (or at the constant term) keeps c[i..] |
| Polynomial.Poly.UpdateReal | include/Poly.h:554-567 | `update_real(eps)` replaces the coefficients by their eps-trimmed form and restores deg == size - 1 |
| PolySpec.StripSmallIdempotent | include/Poly.h:554-567 | trimming twice with the same tolerance is trimming once |
| PolySpec.StripSmallCoef | include/Poly.h:554-567 | the kept coefficients of x^k are unchanged and every dropped one has magnitude below eps |
| PolySpec.StripSmallAfterZeros | include/Poly.h:539-567 | with a positive tolerance, `update` followed by `update_real` is `update_real` alone |
| Polynomial.Poly.Resize | include/Poly.h:570-575 | `resize(d)` with d <= deg sets the degree to d and keeps the last d + 1 coefficients |
| PolySpec.TruncateCoef | include/Poly.h:570-575 | resizing keeps the coefficients of x^0 .. x^d and drops the rest; resizing to the current degree changes nothing |
| Polynomial.Poly.MulAssignScalar | include/Poly.h:300-306 | `*=` by a scalar multiplies every coefficient and keeps the degree, even for 0 |
| Polynomial.Poly.DivAssignScalar | include/Poly.h:321-327 | `/=` by a scalar divides every coefficient |
| Polynomial.Poly.AddAssignScalar | include/Poly.h:308-312 | `+=` a scalar adds it to the constant term only |
| PolySpec.AddConstantValue | include/Poly.h:308-312 | adding to the constant term adds the same amount to the value at every point |
| Polynomial.Poly.AddAssign | include/Poly.h:314-319 | `+=` a polynomial stores the sum |
| Polynomial.Poly.SubAssign | include/Poly.h:597-601 | `-=` a polynomial stores the difference |
| Polynomial.Poly.MulAssign | include/Poly.h:294-298 | `*=` a polynomial stores the product |
| Polynomial.Poly.DivAssign | include/Poly.h:329-333 | `/=` a polynomial stores the quotient of long division; on the degree error it reports failure and changes nothing |
| NurbsSpec.BlendLength | NURBS/nurbs.h:30-36 | each blend has one coefficient more than the longer of its operands |
| NurbsSpec.BlendValue | NURBS/nurbs.h:26-37 | the blended polynomial at t is ((t - lo)·cur(t) + (hi - t)·prev(t)) / (hi - lo) |
| NurbsSpec.BlendConstant | NURBS/nurbs.h:30-32 | blending two polynomials that take the same value at t gives that value |
| NurbsCurve.CurHalf | NURBS/nurbs.h:30 | `d_den[j] * {1, 0} + B * d_den[j]` with B = -lo is the left half of the blend |
| NurbsCurve.PrevHalf | NURBS/nurbs.h:31 | `d_den[j-1] * {-1, 0} + D * d_den[j-1]` with D = hi is the right half of the blend |
| NurbsCurve.BlendStep | NURBS/nurbs.h:27-32 | the two halves summed and divided by the knot difference form the blend |
| NurbsCurve.BlendPoint | NURBS/nurbs.h:33-37 | the same blend for every coordinate of a point of polynomials |
| NurbsSpec.RoundValue | NURBS/nurbs.h:26-37 | entry j of round r is the affine combination of entries j and j-1 of round r-1 with knots knots[j+k-p] and knots[j+1+k-r] |
| NurbsSpec.RoundsLength | NURBS/nurbs.h:25-39 | after r rounds on constants, entry j has min(j, r) + 1 coefficients |
| NurbsSpec.RoundsConstant | NURBS/nurbs.h:25-39 | rounds preserve a value that every entry of the column takes at t |
| NurbsSpec.DeBoorNurbs | NURBS/nurbs.h:7-41 | the segment function has one numerator per coordinate of the control points and non-empty polynomials |
| NurbsCurve.StartColumns | NURBS/nurbs.h:14-22 | `d_den` holds the constants weights[k-p..k] and `d` the weighted control points |
| NurbsCurve.BlendEntry | NURBS/nurbs.h:27-37 | blending entry j of round r in both buffers moves the boundary of the finished entries one step down |
| NurbsCurve.RunRound | NURBS/nurbs.h:26-38 | one pass j = p down to r turns round r-1 of both buffers into round r |
| NurbsCurve.DeBoor | NURBS/nurbs.h:7-41 | the nested r/j loop over the arrays `d_den` and `d` returns exactly the recurrence's segment function |
| NurbsSpec.DeBoorDegree | NURBS/nurbs.h:25-40 | the denominator and every numerator of the segment have exactly p + 1 coefficients |
| NurbsSpec.EqualWeights | NURBS/nurbs.h:18-40 | when every weight in the window is w, the denominator evaluates to w at every t |
| NurbsSpec.LinearEndpoints | NURBS/nurbs.h:18-40 | for p = 1 the numerator is w_{k-1}·P_{k-1} at knots[k] and w_k·P_k at knots[k+1]; the denominator is w_{k-1} and w_k there |
| NurbsSpec.LinearNumerator | NURBS/nurbs.h:18-40 | for p = 1 each numerator interpolates the two weighted control points between knots[k] and knots[k+1] |
| NurbsSpec.LinearSegment | NURBS/nurbs.h:18-40 | for p = 1 with equal nonzero weights the curve point is the straight-line interpolation between the two control points |
| NurbsSpec.RoundsLocal | NURBS/nurbs.h:25-39 | the rounds read only the knots k-p+1 .. k+p |
| NurbsSpec.DeBoorLocal | NURBS/nurbs.h:18-32 | the segment function depends only on weights and points k-p..k and knots k-p+1..k+p |
| NurbsSpec.SortedKnotsDivisors | NURBS/nurbs.h:27 | on a sorted knot vector with knots[k] < knots[k+1], every divisor of the recurrence is positive |
| NurbsSpec.CurveSegments | NURBS/nurbs.h:117-120 | one segment function per interval, each with p + 1 coefficients in the denominator |
| NurbsSpec.SegmentDegrees | NURBS/nurbs.h:117-120 | every segment's denominator has p + 1 coefficients |
| NurbsCurve.AllSegments | NURBS/nurbs.h:117-120 | the loop calls `de_boor_nurbs` for ks[0], ks[1], ... in order and collects exactly the segment functions |
| NurbsCurve.Nurbs.CreateCoefs | NURBS/nurbs.h:117-120 | `create_coefs` appends the N_segments segment functions, in order, and changes no other field |
| NurbsCurve.Nurbs.constructor | NURBS/nurbs.h:64-78 | the fields are set as in the constructor, and `coefs` is the polished segment functions with tolerance 1e-13 |
| NurbsCurve.Nurbs.Uniform | NURBS/nurbs.h:100-114 | the fields are set as in the constructor, and `coefs` is the segment functions after `polishing_uniform` with tolerance 1e-13 |
| NurbsSpec.StripSmallTrimmed | include/Poly.h:554-567 | `update_real(eps)` keeps the low-order coefficients and drops only leading ones below eps |
| NurbsSpec.PolishRational | NURBS/nurbs.h:123-130 | polishing one segment keeps it well formed |
| NurbsSpec.PolishRationalEffect | NURBS/nurbs.h:122-131 | polishing trims the denominator and every numerator with eps, in the sense above |
| NurbsSpec.PolishRationalIdempotent | NURBS/nurbs.h:122-131 | polishing twice with the same tolerance is polishing once |
| NurbsCurve.PolishPoly | NURBS/nurbs.h:124 | `update_real(eps)` on a `Poly` variable holding c gives the trimmed c |
| NurbsCurve.PolishNumerators | NURBS/nurbs.h:126-129 | every numerator is trimmed with eps |
| NurbsCurve.PolishSegment | NURBS/nurbs.h:123-130 | the denominator and every numerator are trimmed |
| NurbsSpec.PolishAll | NURBS/nurbs.h:122-131 | polishing the curve keeps its number of segments and their well-formedness |
| NurbsCurve.Nurbs.Polishing | NURBS/nurbs.h:122-131 | `polishing(eps)` replaces every segment by its polished form and changes no other field |
| NurbsSpec.MonicRational | NURBS/nurbs.h:135-140 | `polishing2` on one segment keeps it well formed |
| NurbsCurve.MonicSegment | NURBS/nurbs.h:135-140 | `normalize()` on the denominator, then every numerator divided by the returned leading coefficient |
| NurbsSpec.MonicPoint | NURBS/nurbs.h:134-141 | the denominator becomes monic and the curve point at every t with a nonzero denominator is unchanged |
| NurbsSpec.MonicSlope | NURBS/nurbs.h:134-141 | dy/dx is unchanged wherever the quotient rule's divisor is nonzero |
| NurbsSpec.MonicAll | NURBS/nurbs.h:134-141 | `polishing2` keeps the number of segments and their well-formedness |
| NurbsCurve.Nurbs.Polishing2 | NURBS/nurbs.h:134-141 | `polishing2` makes every denominator monic, divides the numerators alike, and changes no other field |
| NurbsSpec.ResizedRational | NURBS/nurbs.h:159-162 | an interior segment gets a denominator of exactly 2 coefficients |
| NurbsCurve.ResizeSegment | NURBS/nurbs.h:159-162 | `resize(1)` on the denominator and `update_real(eps)` on every numerator |
| NurbsCurve.PolishEnds | NURBS/nurbs.h:149-157 | the first and the last p-1 segments are polished and the others untouched |
| NurbsCurve.ResizeMiddle | NURBS/nurbs.h:158-163 | segments p-1 .. len-p are resized and the others untouched |
| NurbsSpec.UniformPolished | NURBS/nurbs.h:144-165 | what `polishing_uniform` does to one segment keeps it well formed |
| NurbsSpec.UniformPolishedEffect | NURBS/nurbs.h:144-165 | every numerator is trimmed; an interior segment's denominator keeps exactly its x^0 and x^1 coefficients; other denominators are trimmed; with len <= 2(p-1) everything is trimmed with 1e-13 |
| NurbsSpec.UniformPolishAll | NURBS/nurbs.h:144-165 | `polishing_uniform` keeps the number of segments and their well-formedness |
| NurbsCurve.Nurbs.PolishingUniform | NURBS/nurbs.h:144-165 | `polishing_uniform(eps)` falls back to `polishing()` when len <= 2(p-1) and otherwise treats end and interior segments as above; no other field changes |
| NurbsSpec.SegmentEnds | NURBS/nurbs.h:175 | the right end knots[ks[j+1]] of each of the N_segments segments |
| NurbsSpec.FirstFrom | NURBS/nurbs.h:173-181 | the segment loop moves from j to the first j' >= j with t <= knots[ks[j'+1]], every skipped segment ending before t, or runs out |
| NurbsSpec.OwnerFirst | NURBS/nurbs.h:171-175 | the first sample starts the walk at segment 0 |
| NurbsSpec.OwnerNext | NURBS/nurbs.h:173-180 | each sample resumes the walk at the segment of the previous sample |
| NurbsSpec.OwnerMonotone | NURBS/nurbs.h:173-180 | segments are visited in increasing order: a later sample never goes back to an earlier segment |
| NurbsSpec.OwnerExhausted | NURBS/nurbs.h:173-181 | once the segments are exhausted, every later sample stays unevaluated |
| NurbsSpec.OwnerSorted | NURBS/nurbs.h:173-180 | for sorted samples, a sample is owned by the first segment whose end is not below it |
| NurbsSpec.Samples | NURBS/nurbs.h:170-179 | the walk visits knots[domain.first] first and then ts[1], ts[2], ... |
| NurbsSpec.PointAt | NURBS/nurbs.h:176-178 | the point of a segment has one coordinate per numerator |
| NurbsCurve.EvalPoint | NURBS/nurbs.h:176-178 | each coordinate is the numerator's `At(t)` divided by the denominator's `At(t)` |
| NurbsSpec.CurvePoints | NURBS/nurbs.h:168-183 | `get_points` gives one output per sample: N outputs, never more |
| NurbsSpec.CurvePointsSorted | NURBS/nurbs.h:168-183 | for sorted samples, output i is numerator/denominator of the owning segment, which is the first segment not ending before the sample; past the last segment the output stays the point with all coordinates 0 |
| NurbsSpec.PointDue | NURBS/nurbs.h:175-178 | a sample the walk reaches on segment j, not past its end, is evaluated with segment j |
| NurbsCurve.PointsStep | NURBS/nurbs.h:176-179 | one step of the inner loop fills output i and moves to sample i + 1 |
| NurbsCurve.PointsOnSegment | NURBS/nurbs.h:175-180 | the inner while loop fills every sample segment j owns and stops at the first sample past its end |
| NurbsCurve.WalkPoints | NURBS/nurbs.h:171-181 | the nested loops fill exactly `CurvePoints` |
| NurbsCurve.Nurbs.GetPoints | NURBS/nurbs.h:168-183 | `get_points(N)` for the parameters ts returns exactly the curve points |
| NurbsCurve.EvalSlope | NURBS/nurbs.h:192-198 | (y'·den - y·den') / (x'·den - x·den') at t, from `der` and `At` on the first two numerators and the denominator |
| NurbsSpec.CurveSlopes | NURBS/nurbs.h:185-204 | `get_dy_dx_points` gives one output per sample |
| NurbsSpec.CurveSlopesSorted | NURBS/nurbs.h:185-204 | for sorted samples, output i is the quotient-rule slope of the owning segment; past the last segment it stays 0 |
| NurbsSpec.SlopeDue | NURBS/nurbs.h:196-198 | a sample the walk reaches on segment j, not past its end, takes segment j's slope |
| NurbsCurve.SlopesStep | NURBS/nurbs.h:197-200 | one step of the inner loop fills slope i and moves to sample i + 1 |
| NurbsCurve.SlopesOnSegment | NURBS/nurbs.h:196-201 | the inner while loop fills every slope segment j owns and stops at the first sample past its end |
| NurbsCurve.WalkSlopes | NURBS/nurbs.h:189-202 | the nested loops fill exactly `CurveSlopes` |
| NurbsCurve.Nurbs.GetDyDxPoints | NURBS/nurbs.h:185-204 | `get_dy_dx_points(N)` for the parameters ts returns exactly the slopes |

## Left out

- Floating point: operations run on exact reals. Rounding, `inf` and `NaN` are not modelled.
  - A division by zero that would give `inf` in C++ is a precondition instead. This covers `Polynomial.ScalarQuotient`, `Polynomial.Poly.DivAssignScalar`, `Polynomial.Divide` (rhs[0] != 0), `Polynomial.UpperBound`/`Polynomial.LowerBound` (c[0] != 0), `Polynomial.Solve` (c[0] != 0 for degree 1, where the source returns -coef_[1]/coef_[0]), `NurbsCurve.EvalPoint` (denominator nonzero at t) and `NurbsCurve.EvalSlope` (quotient-rule divisor nonzero at t).
  - It also covers the divisors of the de Boor recurrence, required nonzero by `NurbsSpec.Admissible`.
- `solve_quadratic`, `solve_cubic` (degree 2 and 3 of `solve`) are left out. They depend on `sqrt`, `acos`, `cos` and `pow` and on tolerance-gated branches, which have no exact real counterpart.
- `solve_numerical`, `solve_with_eigenvalues` and `solve_laguerre` (degree 4 and up of `solve`) are left out. They use the Eigen library or a complex floating-point iteration.
- Polynomial.UpperBound: requires degree at least 1 (|c| >= 2), because `upper_bound` reads poly[1] unconditionally (`include/Poly.h:432`), which is past the end for a constant. `Polynomial.LowerBound` calls it and has the same requirement.
- Polynomial.Solve: returns `None` for degree 2 and up, since those branches are left out as above. Its degree-1 root is stated over the reals, not as a `std::complex`.
- `two_sum`, `two_prod` and `At2` are left out. They are error-free transformations of floating-point arithmetic (`fma`) and mean nothing over the reals.
- Complex-coefficient polynomials are left out: the `upper_bound`/`lower_bound` overloads for `Poly<std::complex<T>>` and `make_complex_poly`. Only real coefficients are modelled.
- Printing and file output are left out: `PrintIter`, `PrintVec`, `operator<<`, `save_denominators`, `save_coefs`.
- `numerical_integral`, `analytic_integral1` and `analytic_integral2` are left out. They rely on quadrature tables, complex logarithms and helpers that are not part of this model.
- `operator==`, `operator[]`, the copy constructor, assignment, `deg()` and `GetCoef()` are plain field access and have no members of their own. They are the `coef` and `deg` fields of `Poly`.
- The initializer-list constructor (`include/Poly.h:577-581`) is the same as `Poly.FromCoefs`.
- The unused member `EPS` is left out.
- `der(int)` is declared but has no definition in the header, so it is left out.
- Polynomial.Poly.Update: the branch `i == deg_ + 1` (`include/Poly.h:545-547`) cannot be taken, because the scan stops at `deg_`. The model has no such branch. The same holds for `Polynomial.Poly.UpdateReal`.
- Polynomial.Poly.UpdateReal: takes its tolerance as a parameter, with default 1e-8, because `polishing` calls `update_real(eps_)` while the header's `update_real()` has none and uses 1e-8 literally.
- PolySpec.StripSmall: when trimming drops a nonzero term the value changes. So only the kept coefficients are stated, not equality of values; `PolySpec.StripZerosValue` gives value equality for exact zeros.
- Polynomial.Divide: where the C++ operator throws `std::logic_error` (deg lhs < deg rhs), the model returns `DegreeError`. `Polynomial.Poly.DivAssign` then returns false and leaves the coefficients as they were.
- Polynomial.Poly.Resize: requires d <= deg. For d > deg the C++ code would build a vector from an iterator before `begin()`, which is undefined behaviour.
- NurbsCurve.Nurbs.constructor: `domain`, `ks` and `N_segments` use the given knots and `ks`. `create_intervals` is not part of this model, and `ks` must only satisfy the `Admissible` requirement of each segment.
- The second constructor (`NURBS/nurbs.h:83-96`) differs from the first only in computing its knots with `create_knots`, which is not part of this model. With the knots as an input it is `NurbsCurve.Nurbs.constructor`.
- NurbsCurve.Nurbs.Uniform: the weights come from `linspace(w_start, w_end, n)`, which is not part of this model, so they are an input. It requires p >= 1, because `polishing_uniform` computes `p - 1` and `2*(p-1)` as signed integers.
- NurbsCurve.Nurbs.PolishingUniform: also requires that interior denominators have at least two coefficients, the condition under which `resize(1)` is defined. In the first loop each iteration polishes segment i and then segment len-i-1, as the source does; the only difference is that the model finishes all polynomials of segment i before starting segment len-i-1, where the source alternates polynomial by polynomial. This gives the same result, because the two segments are distinct when len > 2(p-1).
- The `polishing_uniform` fallback calls `polishing()` with its own default 1e-13, not with `eps_`. The model does the same (`NurbsSpec.UniformTolerance`).
- NurbsCurve.Nurbs.Polishing2: requires every denominator's leading coefficient to be nonzero. When it is zero, `normalize` returns 0 and the numerators would be divided by zero.
- NurbsCurve.Nurbs.GetPoints: deviates from the source in one place. After `++i` the C++ loop reads `t = ts[i]` even when `i == N`, an out-of-bounds read (`NURBS/nurbs.h:179`). The model reads `ts[i]` only when `i < N`; once `i == N` the loop condition stops the walk, so the value read is never used.
- NurbsCurve.Nurbs.GetPoints: needs every owned sample's denominator to be nonzero (`NurbsSpec.Evaluable`).
- NurbsCurve.Nurbs.GetPoints: the sample list is `ts` with its first entry replaced by `knots[domain.first]`, because the walk starts from that knot (`NURBS/nurbs.h:171`). `linspace` is not part of this model.
- NurbsSpec.CurvePoints: assumes that `Point<T>(dim)` starts with all coordinates 0 (`NURBS/nurbs.h:169`). `include/Point.h` is not part of this model, so samples the walk never reaches are modelled as the zero point on that assumption; `NurbsCurve.WalkPoints` and `NurbsCurve.Nurbs.GetPoints` inherit it.
- NurbsCurve.Nurbs.GetDyDxPoints: has the same guard on `ts[i]` (`NURBS/nurbs.h:200`).
- NurbsCurve.Nurbs.GetDyDxPoints: requires dim >= 2, because it reads the first two numerators.
- NurbsCurve.Nurbs.GetDyDxPoints: needs the quotient-rule divisor to be nonzero at every owned sample (`NurbsSpec.SlopeEvaluable`).
