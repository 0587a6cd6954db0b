/** The interest-rate curve, the weighted overall rate and the utilization of
    `test/helpers/utils/calculations.ts`. */
module Rates {
  import opened FixedPoint
  import opened Interest

  datatype ReserveParams = ReserveParams(
    optimalUtilizationRate: int,
    baseVariableBorrowRate: int,
    variableRateSlope1: int,
    variableRateSlope2: int,
    reserveFactor: int)
  {
    /** The curve divides by the optimal utilization and by its complement. */
    predicate HasKink() { optimalUtilizationRate != 0 && optimalUtilizationRate != RAY }

    predicate Valid() {
      && 0 < optimalUtilizationRate < RAY
      && 0 <= baseVariableBorrowRate && 0 <= variableRateSlope1 && 0 <= variableRateSlope2
      && 0 <= reserveFactor <= PERCENTAGE_FACTOR
    }
  }

  function VariableBorrowRate(p: ReserveParams, utilization: int): int
    requires p.HasKink()
  {
    var excessRate := RAY - p.optimalUtilizationRate;
    if utilization > p.optimalUtilizationRate then
      var excessRatio := RayDiv(utilization - p.optimalUtilizationRate, excessRate);
      p.baseVariableBorrowRate + p.variableRateSlope1 + RayMul(p.variableRateSlope2, excessRatio)
    else
      p.baseVariableBorrowRate + RayMul(RayDiv(utilization, p.optimalUtilizationRate), p.variableRateSlope1)
  }

  function OverallBorrowRate(totalDebt: int, variableRate: int): int {
    if totalDebt == 0 then 0
    else RayDiv(RayMul(WadToRay(totalDebt), variableRate), WadToRay(totalDebt))
  }

  function LiquidityRate(p: ReserveParams, utilization: int, totalDebt: int): int
    requires p.HasKink()
  {
    PercentMul(RayMul(OverallBorrowRate(totalDebt, VariableBorrowRate(p, utilization)), utilization),
               PERCENTAGE_FACTOR - p.reserveFactor)
  }

  /** The utilization has a value unless there is debt against no liquidity at all. */
  predicate HasUtilization(totalDebt: int, totalLiquidity: int) {
    totalDebt == 0 || totalLiquidity != 0
  }

  function UtilizationRate(totalDebt: int, totalLiquidity: int): int
    requires HasUtilization(totalDebt, totalLiquidity)
  {
    if totalDebt == 0 then 0 else RayDiv(totalDebt, totalLiquidity)
  }

  // ----- Utilization -----

  /** Utilization never exceeds one exactly when the excess debt is less than half the liquidity
      divided by a ray. */
  lemma UtilizationAtMostOne(debt: int, total: int)
    requires debt >= 0 && total >= 0 && HasUtilization(debt, total)
    ensures 0 <= UtilizationRate(debt, total)
    ensures UtilizationRate(debt, total) <= RAY <==> debt == 0 || 2 * RAY * (debt - total) < total
    ensures debt <= total ==> UtilizationRate(debt, total) <= RAY
    ensures UtilizationRate(debt, total) == 0 <==> debt == 0 || 2 * RAY * debt < total
  {
    if debt > 0 {
      var u := UtilizationRate(debt, total);
      DivOrdered(0, debt, total, RAY);
      DivIsNearest(debt, total, RAY, u);
      DivIsNearest(debt, total, RAY, 0);
      if u <= RAY {
        MulMonotone(total, u, RAY);
      } else {
        MulMonotone(total, RAY + 1, u);
      }
    }
  }

  // ----- The kinked curve -----

  /** At the kink and at full utilization the curve meets its nominal values; in between it stays
      within them. */
  lemma CurveAnchors(p: ReserveParams)
    requires p.Valid()
    ensures VariableBorrowRate(p, 0) == p.baseVariableBorrowRate
    ensures VariableBorrowRate(p, p.optimalUtilizationRate) == p.baseVariableBorrowRate + p.variableRateSlope1
    ensures VariableBorrowRate(p, RAY)
         == p.baseVariableBorrowRate + p.variableRateSlope1 + p.variableRateSlope2
  {
    hide MulHalfUp, DivHalfUp;
    DivUnits(p.optimalUtilizationRate, RAY);
    DivUnits(RAY - p.optimalUtilizationRate, RAY);
    MulUnits(p.variableRateSlope1, RAY);
    MulUnits(p.variableRateSlope2, RAY);
  }

  lemma CurveOrdered(p: ReserveParams, u: int, u': int)
    requires p.Valid() && 0 <= u <= u'
    ensures p.baseVariableBorrowRate <= VariableBorrowRate(p, u) <= VariableBorrowRate(p, u')
  {
    hide MulHalfUp, DivHalfUp;
    var o, e := p.optimalUtilizationRate, RAY - p.optimalUtilizationRate;
    if u > o {
      DivOrdered(u - o, u' - o, e, RAY);
      MulOrdered(p.variableRateSlope2, p.variableRateSlope2, RayDiv(u - o, e), RayDiv(u' - o, e), RAY);
    } else if u' <= o {
      DivOrdered(u, u', o, RAY);
      MulOrdered(RayDiv(u, o), RayDiv(u', o), p.variableRateSlope1, p.variableRateSlope1, RAY);
    } else {
      DivOrdered(u, o, o, RAY);
      DivUnits(o, RAY);
      MulOrdered(RayDiv(u, o), RAY, p.variableRateSlope1, p.variableRateSlope1, RAY);
      MulUnits(p.variableRateSlope1, RAY);
      DivOrdered(0, u' - o, e, RAY);
      MulOrdered(0, p.variableRateSlope2, 0, RayDiv(u' - o, e), RAY);
    }
  }

  /** A ratio times a slope rises by the slope pro rata, up to the two roundings, in either order of the
      factors. */
  lemma Interpolates(x: int, d: int, slope: int)
    requires x >= 0 && d > 0 && slope >= 0
    ensures RayMul(RayDiv(x, d), slope) == RayMul(slope, RayDiv(x, d))
    ensures -(d * (RAY + slope)) <= 2 * RAY * (d * RayMul(RayDiv(x, d), slope) - x * slope) <= d * (RAY + slope)
  {
    hide MulHalfUp, DivHalfUp;
    var q := RayDiv(x, d);
    DivOrdered(0, x, d, RAY);
    DivIsNearest(x, d, RAY, q);
    ProductNonNegative(q, slope);
    assert q * slope == slope * q;
    MulIsNearest(q, slope, RAY, RayMul(q, slope));
    MulIsNearest(slope, q, RAY, RayMul(q, slope));
    InterpolationErrors(x, d, slope, q, RayMul(q, slope));
  }

  /** So the curve itself rises pro rata from the base rate to the kink, and from the kink to full
      utilization and beyond, up to those roundings. */
  lemma CurveInterpolates(p: ReserveParams, u: int)
    requires p.Valid() && u >= 0
    ensures var o, rise := p.optimalUtilizationRate, VariableBorrowRate(p, u) - p.baseVariableBorrowRate;
      u <= o ==> -(o * (RAY + p.variableRateSlope1)) <= 2 * RAY * (o * rise - u * p.variableRateSlope1) <= o * (RAY + p.variableRateSlope1)
    ensures var o, e := p.optimalUtilizationRate, RAY - p.optimalUtilizationRate;
      var rise := VariableBorrowRate(p, u) - p.baseVariableBorrowRate - p.variableRateSlope1;
      u > o ==> -(e * (RAY + p.variableRateSlope2)) <= 2 * RAY * (e * rise - (u - o) * p.variableRateSlope2) <= e * (RAY + p.variableRateSlope2)
  {
    hide RayMul, RayDiv;
    if u <= p.optimalUtilizationRate {
      Interpolates(u, p.optimalUtilizationRate, p.variableRateSlope1);
    } else {
      Interpolates(u - p.optimalUtilizationRate, RAY - p.optimalUtilizationRate, p.variableRateSlope2);
    }
  }

  lemma InterpolationErrors(x: int, d: int, slope: int, q: int, y: int)
    requires d > 0 && slope >= 0 && Nearest(x * RAY, d, q) && Nearest(q * slope, RAY, y)
    ensures -(d * (RAY + slope)) <= 2 * RAY * (d * y - x * slope) <= d * (RAY + slope)
  {
    Scaled(d, 2 * (RAY * y) - 2 * (q * slope), RAY);
    Scaled(slope, 2 * (d * q) - 2 * (x * RAY), d);
    Distribute(d, 2 * (RAY * y), -2 * (q * slope));
    Distribute(slope, 2 * (d * q), -2 * (x * RAY));
    assert d * (q * slope) == slope * (d * q);
  }

  lemma CurveWithinSlopes(p: ReserveParams, u: int)
    requires p.Valid() && 0 <= u <= RAY
    ensures p.baseVariableBorrowRate <= VariableBorrowRate(p, u)
         <= p.baseVariableBorrowRate + p.variableRateSlope1 + p.variableRateSlope2
  {
    CurveAnchors(p);
    CurveOrdered(p, u, RAY);
  }

  // ----- The weighted overall rate -----

  lemma OverallRateBounds(debt: int, rate: int)
    requires debt > 0 && rate >= 0
    ensures var w := RayMul(WadToRay(debt), rate);
      && OverallBorrowRate(debt, rate) >= 0
      && Nearest(WadToRay(debt) * rate, RAY, w)
      && Nearest(w * RAY, WadToRay(debt), OverallBorrowRate(debt, rate))
  {
    var d := WadToRay(debt);
    var w := RayMul(d, rate);
    MulOrdered(0, d, 0, rate, RAY);
    MulIsNearest(d, rate, RAY, w);
    DivOrdered(0, w, d, RAY);
    DivIsNearest(w, d, RAY, OverallBorrowRate(debt, rate));
  }

  /** With a debt of at least one wad the weighting is lossless. */
  lemma OverallRateExact(debt: int, rate: int)
    requires debt >= WAD && rate >= 0
    ensures OverallBorrowRate(debt, rate) == rate
  {
    OverallRateBounds(debt, rate);
    var d := WadToRay(debt);
    var w := RayMul(d, rate);
    if d == RAY {
      MulUnits(rate, RAY);
    }
    DivIsNearest(w, d, RAY, rate);
  }

  /** Below one wad the error is at most half a unit plus `5 * 10^17 / debt`. */
  lemma OverallRateError(debt: int, rate: int)
    requires debt > 0 && rate >= 0
    ensures -(WAD + debt) <= 2 * (debt * (OverallBorrowRate(debt, rate) - rate)) <= WAD + debt
  {
    hide RayMul, OverallBorrowRate, Nearest;
    OverallRateBounds(debt, rate);
    WeightingErrors(debt, rate, RayMul(WadToRay(debt), rate), OverallBorrowRate(debt, rate));
  }

  lemma WeightingErrors(debt: int, rate: int, w: int, o: int)
    requires Nearest(WadToRay(debt) * rate, RAY, w) && Nearest(w * RAY, WadToRay(debt), o)
    ensures -(WAD + debt) <= 2 * (debt * (o - rate)) <= WAD + debt
  {
    assert WadToRay(debt) * rate == WAD_RAY_RATIO * (debt * rate);
    assert WadToRay(debt) * o == WAD_RAY_RATIO * (debt * o);
    Distribute(debt, o, -rate);
  }

  /** A rate that the weighting of a small debt misses. */
  function MissedRate(debt: int): int
    requires 0 < debt < WAD
  {
    var gap := RAY - WadToRay(debt);
    (WadToRay(debt) / 2 + gap - 1) / gap
  }

  /** The threshold of one wad is sharp: every smaller debt misses some rate. */
  lemma OverallRateExactIff(debt: int)
    requires debt > 0
    ensures (forall rate {:trigger OverallBorrowRate(debt, rate)} :: rate >= 0 ==> OverallBorrowRate(debt, rate) == rate)
       <==> debt >= WAD
  {
    if debt >= WAD {
      forall rate | rate >= 0
        ensures OverallBorrowRate(debt, rate) == rate
      {
        OverallRateExact(debt, rate);
      }
    } else {
      SmallDebtMisses(debt);
    }
  }

  lemma SmallDebtMisses(debt: int)
    requires 0 < debt < WAD
    ensures MissedRate(debt) >= 0 && OverallBorrowRate(debt, MissedRate(debt)) != MissedRate(debt)
  {
    hide MulHalfUp, DivHalfUp, Nearest, MissedRate;
    var d, gap, v := WadToRay(debt), RAY - WadToRay(debt), MissedRate(debt);
    MissedRateIsCeiling(debt);
    var w := if gap * v <= RAY / 2 then v else v - 1;
    MissesByHalf(d, gap, v, w);
    assert d * v >= 0;
    OverallRateBounds(debt, v);
    MulIsNearest(d, v, RAY, w);
    assert !Nearest(w * RAY, d, v);
  }

  lemma Ceiling(x: int, g: int, v: int)
    requires x >= 0 && g > 0 && v == (x + g - 1) / g
    ensures v >= 0 && x <= g * v < x + g
  {
    var n := x + g - 1;
    assert n == g * v + n % g;
  }

  lemma MissedRateIsCeiling(debt: int)
    requires 0 < debt < WAD
    ensures var d, gap, v := WadToRay(debt), RAY - WadToRay(debt), MissedRate(debt);
      0 < d < RAY && d % 2 == 0 && v >= 0 && d / 2 <= gap * v < d / 2 + gap
  {
    Ceiling(WadToRay(debt) / 2, RAY - WadToRay(debt), MissedRate(debt));
  }

  lemma MissesByHalf(d: int, gap: int, v: int, w: int)
    requires 0 < d < RAY && d % 2 == 0 && gap == RAY - d && v >= 0
    requires d / 2 <= gap * v < d / 2 + gap
    requires w == if gap * v <= RAY / 2 then v else v - 1
    ensures Nearest(d * v, RAY, w) && !Nearest(w * RAY, d, v)
  {
    Distribute(v, RAY, -gap);
    assert d * v == v * (RAY + -gap);
    assert v * gap == gap * v && v * -gap == -(v * gap);
    NearestMiss(d, gap, v, w, gap * v, d * v, w * RAY);
  }

  lemma NearestMiss(d: int, gap: int, v: int, w: int, e: int, dv: int, wr: int)
    requires 0 < d < RAY && gap == RAY - d && d <= 2 * e < d + 2 * gap
    requires w == if e <= RAY / 2 then v else v - 1
    requires dv == RAY * v - e && wr == w * RAY && dv == d * v
    ensures Nearest(dv, RAY, w) && !Nearest(wr, d, v)
  {
  }

  // ----- Rates of a reserve -----

  lemma RatesNonNegative(p: ReserveParams, u: int, debt: int)
    requires p.Valid() && u >= 0 && debt >= 0
    ensures LiquidityRate(p, u, debt) >= 0 && VariableBorrowRate(p, u) >= 0
    ensures u == 0 ==> LiquidityRate(p, u, debt) == 0
  {
    hide MulHalfUp, DivHalfUp;
    CurveOrdered(p, 0, u);
    CurveAnchors(p);
    var v := VariableBorrowRate(p, u);
    if debt > 0 {
      OverallRateBounds(debt, v);
    }
    var o := OverallBorrowRate(debt, v);
    MulOrdered(0, o, 0, u, RAY);
    MulUnits(o, RAY);
    MulOrdered(0, RayMul(o, u), 0, PERCENTAGE_FACTOR - p.reserveFactor, PERCENTAGE_FACTOR);
    MulUnits(PERCENTAGE_FACTOR - p.reserveFactor, PERCENTAGE_FACTOR);
  }

  /** The reserve factor only ever takes a share away. */
  lemma ShareAtMostWhole(x: int, k: int)
    requires x >= 0 && 0 <= k <= PERCENTAGE_FACTOR
    ensures 0 <= PercentMul(x, k) <= x
  {
    MulOrdered(0, x, 0, k, PERCENTAGE_FACTOR);
    MulOrdered(x, x, k, PERCENTAGE_FACTOR, PERCENTAGE_FACTOR);
    MulUnits(x, PERCENTAGE_FACTOR);
  }

  /** Up to full utilization depositors are paid at most the rate borrowers are charged. */
  lemma LiquidityRateBelowBorrowRate(p: ReserveParams, u: int, debt: int)
    requires p.Valid() && 0 <= u <= RAY && debt >= WAD
    ensures LiquidityRate(p, u, debt) <= VariableBorrowRate(p, u)
  {
    hide MulHalfUp, DivHalfUp;
    RatesNonNegative(p, u, debt);
    var v := VariableBorrowRate(p, u);
    OverallRateExact(debt, v);
    MulOrdered(v, v, u, RAY, RAY);
    MulUnits(v, RAY);
    MulOrdered(0, v, 0, u, RAY);
    ShareAtMostWhole(RayMul(v, u), PERCENTAGE_FACTOR - p.reserveFactor);
  }

  /** `k` parts in ten thousand of the borrowers' interest, spread over the liquidity: the rounded
      utilization, product and share stay close to it in both directions, and never promise
      depositors more than the borrowers' interest by more than two roundings. */
  lemma InterestIsShared(debt: int, total: int, u: int, rate: int, k: int)
    requires debt >= 0 && total > 0 && u >= 0 && rate >= 0 && 0 <= k <= PERCENTAGE_FACTOR
    requires Nearest(debt * RAY, total, u)
    ensures var l := PercentMul(RayMul(rate, u), k);
      && l >= 0
      && 2 * RAY * (total * l) <= 2 * RAY * (rate * debt) + rate * total + RAY * total
      && -(total * (RAY * PERCENTAGE_FACTOR + k * (RAY + rate)))
           <= 2 * RAY * PERCENTAGE_FACTOR * (total * l) - 2 * RAY * (k * (rate * debt))
           <= total * (RAY * PERCENTAGE_FACTOR + k * (RAY + rate))
  {
    hide MulHalfUp;
    var x := RayMul(rate, u);
    var l := PercentMul(x, k);
    MulOrdered(0, rate, 0, u, RAY);
    ProductNonNegative(rate, u);
    ProductNonNegative(x, k);
    MulIsNearest(rate, u, RAY, x);
    MulIsNearest(x, k, PERCENTAGE_FACTOR, l);
    ShareBelowInterest(debt, total, u, rate, k);
    ShareBounds(debt, total, u, rate, k, x, l);
  }

  /** The upper half needs of the utilization only that it was not rounded up by more than half. */
  lemma ShareBelowInterest(debt: int, total: int, u: int, rate: int, k: int)
    requires total > 0 && u >= 0 && rate >= 0 && 0 <= k <= PERCENTAGE_FACTOR
    requires 2 * (total * u) <= 2 * (debt * RAY) + total
    ensures var l := PercentMul(RayMul(rate, u), k);
      l >= 0 && 2 * RAY * (total * l) <= 2 * RAY * (rate * debt) + rate * total + RAY * total
  {
    hide MulHalfUp;
    var x := RayMul(rate, u);
    MulOrdered(0, rate, 0, u, RAY);
    ProductNonNegative(rate, u);
    MulIsNearest(rate, u, RAY, x);
    ShareAtMostWhole(x, k);
    Spread(debt, total, u, rate, x, PercentMul(x, k));
  }

  lemma Spread(debt: int, total: int, u: int, rate: int, x: int, y: int)
    requires total > 0 && rate >= 0 && y <= x
    requires 2 * (total * u) <= 2 * (debt * RAY) + total && 2 * (RAY * x) <= 2 * (rate * u) + RAY
    ensures 2 * RAY * (total * y) <= 2 * RAY * (rate * debt) + rate * total + RAY * total
  {
    MulMonotone(total, y, x);
    MulMonotone(total, 2 * (RAY * x), 2 * (rate * u) + RAY);
    MulMonotone(rate, 2 * (total * u), 2 * (debt * RAY) + total);
    assert total * (2 * (rate * u)) == rate * (2 * (total * u));
  }

  lemma ShareBounds(debt: int, total: int, u: int, rate: int, k: int, x: int, l: int)
    requires total > 0 && rate >= 0 && k >= 0
    requires Nearest(debt * RAY, total, u) && Nearest(rate * u, RAY, x) && Nearest(x * k, PERCENTAGE_FACTOR, l)
    ensures -(total * (RAY * PERCENTAGE_FACTOR + k * (RAY + rate)))
      <= 2 * RAY * PERCENTAGE_FACTOR * (total * l) - 2 * RAY * (k * (rate * debt))
      <= total * (RAY * PERCENTAGE_FACTOR + k * (RAY + rate))
  {
    var e1 := 2 * (total * u) - 2 * (debt * RAY);
    var e2 := 2 * (RAY * x) - 2 * (rate * u);
    var e3 := 2 * (PERCENTAGE_FACTOR * l) - 2 * (x * k);
    Scaled(total, e3, PERCENTAGE_FACTOR);
    Scaled(k * total, e2, RAY);
    Scaled(k * rate, e1, total);
    ErrorSum(debt, total, u, rate, k, x, l);
    ExpandBound(total, k, rate);
  }

  lemma Scaled(f: int, e: int, bound: int)
    requires f >= 0 && -bound <= e <= bound
    ensures -(f * bound) <= f * e <= f * bound
  {
    MulMonotone(f, e, bound);
    MulMonotone(f, -bound, e);
  }

  /** The three rounding errors telescope. */
  lemma ErrorSum(debt: int, total: int, u: int, rate: int, k: int, x: int, l: int)
    ensures RAY * (total * (2 * (PERCENTAGE_FACTOR * l) - 2 * (x * k)))
          + (k * total) * (2 * (RAY * x) - 2 * (rate * u))
          + (k * rate) * (2 * (total * u) - 2 * (debt * RAY))
         == 2 * RAY * PERCENTAGE_FACTOR * (total * l) - 2 * RAY * (k * (rate * debt))
  {
    var tkx, tkru := total * (x * k), (k * total) * (rate * u);
    Distribute(total, 2 * (PERCENTAGE_FACTOR * l), -2 * (x * k));
    Distribute(k * total, 2 * (RAY * x), -2 * (rate * u));
    Distribute(k * rate, 2 * (total * u), -2 * (debt * RAY));
    assert (k * total) * (2 * (RAY * x)) == 2 * RAY * tkx;
    assert (k * rate) * (2 * (total * u)) == 2 * tkru;
    assert (k * rate) * (2 * (debt * RAY)) == 2 * RAY * (k * (rate * debt));
  }

  lemma ExpandBound(total: int, k: int, rate: int)
    ensures total * (RAY * PERCENTAGE_FACTOR + k * (RAY + rate))
         == RAY * (total * PERCENTAGE_FACTOR) + (k * total) * RAY + (k * rate) * total
  {
    Distribute(k, RAY, rate);
    Distribute(total, RAY * PERCENTAGE_FACTOR, k * RAY + k * rate);
    Distribute(total, k * RAY, k * rate);
  }

  /** What the detour over the overall rate can add per second to the interest on the total. */
  function WeightingSlack(debt: int, total: int): int {
    if debt == 0 || debt >= WAD then 0 else RAY * (WAD + debt) + WAD * total
  }

  /** The truncated per-second rate, the rounding of the liquidity rate and that detour, over `n` seconds
      (scaled by `2 * RAY * ONE_YEAR`). */
  function EarningSlack(debt: int, total: int, rate: int, n: int): int {
    n * (2 * RAY * ONE_YEAR * debt + total * (rate + RAY) + WeightingSlack(debt, total))
  }

  /** Over any period the interest that the liquidity rate pays on the recorded total is at most the
      interest on the debt, up to `EarningSlack`. Whether depositors hold that total is another matter. */
  lemma TotalNeverOutearnsDebt(p: ReserveParams, debt: int, total: int, n: nat, last: int)
    requires p.Valid() && debt >= 0 && total >= 0 && (debt > 0 ==> total > 0)
    ensures var u := UtilizationRate(debt, total);
      var rate := VariableBorrowRate(p, u);
      var earned := total * (LinearInterest(LiquidityRate(p, u, debt), last + n, last) - RAY);
      var paid := debt * (CompoundedInterest(rate, last + n, last) - RAY);
      2 * RAY * ONE_YEAR * earned <= 2 * RAY * ONE_YEAR * paid + EarningSlack(debt, total, rate, n)
  {
    hide RayMul, RayDiv, PercentMul, VariableBorrowRate, OverallBorrowRate, LinearInterest, CompoundedInterest, UtilizationRate,
      WeightingSlack;
    var u := UtilizationRate(debt, total);
    UtilizationAtMostOne(debt, total);
    RatesNonNegative(p, u, debt);
    var rate := VariableBorrowRate(p, u);
    WeightingBounds(debt, rate, total);
    if debt == 0 {
      NothingEarned(total, rate, n, last);
    } else {
      UtilizationIsNearest(debt, total);
      EarningsBounded(debt, total, u, OverallBorrowRate(debt, rate), rate, PERCENTAGE_FACTOR - p.reserveFactor, WeightingSlack(debt, total), n, last);
    }
  }

  lemma NothingEarned(total: int, rate: int, n: nat, last: int)
    requires total >= 0 && rate >= 0
    ensures total * (LinearInterest(0, last + n, last) - RAY) == 0 && EarningSlack(0, total, rate, n) >= 0
  {
    ProductNonNegative(total, rate + RAY);
    ProductNonNegative(n, total * (rate + RAY));
  }

  /** What replacing the borrow rate by the overall rate costs in the bound on the interest. */
  lemma WeightingBounds(debt: int, rate: int, total: int)
    requires debt >= 0 && rate >= 0 && total >= 0
    ensures var o := OverallBorrowRate(debt, rate);
      && o >= 0
      && (debt > 0 ==> 2 * RAY * (o * debt) + o * total <= 2 * RAY * (rate * debt) + rate * total + WeightingSlack(debt, total))
  {
    hide RayMul, RayDiv, OverallBorrowRate;
    var o := OverallBorrowRate(debt, rate);
    if debt == 0 {
      NoDebtNoRate(rate);
    } else if debt >= WAD {
      OverallRateExact(debt, rate);
    } else {
      OverallRateError(debt, rate);
      OverallRateBounds(debt, rate);
      SmallDebtExcess(debt, rate, o);
      MulMonotone(total, o, rate + WAD);
    }
  }

  /** The same per second when the debt has grown to `debt` since the rates were set from `priced`. */
  function DelayedSlack(priced: int, debt: int, total: int): int {
    if priced == 0 || priced >= WAD then 0 else WAD * (2 * RAY * debt + total)
  }

  lemma DelayedWeighting(priced: int, rate: int, debt: int, total: int)
    requires priced > 0 && rate >= 0 && debt >= 0 && total >= 0
    ensures var o := OverallBorrowRate(priced, rate);
      o >= 0 && 2 * RAY * (o * debt) + o * total <= 2 * RAY * (rate * debt) + rate * total + DelayedSlack(priced, debt, total)
  {
    hide RayMul, RayDiv, OverallBorrowRate;
    var o := OverallBorrowRate(priced, rate);
    OverallRateBounds(priced, rate);
    if priced >= WAD {
      OverallRateExact(priced, rate);
    } else {
      OverallRateError(priced, rate);
      SmallDebtExcess(priced, rate, o);
      MulMonotone(total, o, rate + WAD);
      MulMonotone(debt, o, rate + WAD);
    }
  }

  lemma SlackOrdered(debt: int, total: int)
    requires debt >= 0 && total >= 0
    ensures 0 <= WeightingSlack(debt, total) <= DelayedSlack(debt, debt, total)
  {
    if 0 < debt < WAD {
      MulMonotone(WAD, 1, debt);
    }
  }

  lemma NoDebtNoRate(rate: int)
    ensures OverallBorrowRate(0, rate) == 0
  {
  }

  lemma SmallDebtExcess(debt: int, rate: int, o: int)
    requires 0 < debt < WAD && 2 * (debt * (o - rate)) <= WAD + debt
    ensures o <= rate + WAD && 2 * RAY * (o * debt) <= 2 * RAY * (rate * debt) + RAY * (WAD + debt)
  {
    Distribute(debt, o, -rate);
    if o - rate > WAD {
      MulMonotone(debt, WAD + 1, o - rate);
    }
  }

  /** With at least one wad of debt the detour over the overall rate is immaterial: the liquidity rate
      is the share of `InterestIsShared` with everything but the reserve factor going to depositors. */
  lemma LiquidityRateIsShare(p: ReserveParams, u: int, debt: int)
    requires p.Valid() && debt >= WAD && u >= 0
    ensures LiquidityRate(p, u, debt) == PercentMul(RayMul(VariableBorrowRate(p, u), u), PERCENTAGE_FACTOR - p.reserveFactor)
  {
    hide RayMul, RayDiv, PercentMul, VariableBorrowRate, OverallBorrowRate;
    RatesNonNegative(p, u, debt);
    OverallRateExact(debt, VariableBorrowRate(p, u));
  }

  lemma UtilizationIsNearest(debt: int, total: int)
    requires debt > 0 && total > 0
    ensures Nearest(debt * RAY, total, UtilizationRate(debt, total))
  {
    DivIsNearest(debt, total, RAY, UtilizationRate(debt, total));
  }

  lemma EarningsBounded(debt: int, total: int, u: int, overall: int, rate: int, k: int, slack: int, n: nat, last: int)
    requires debt >= 0 && total > 0 && u >= 0 && overall >= 0 && rate >= 0 && 0 <= k <= PERCENTAGE_FACTOR
    requires 2 * (total * u) <= 2 * (debt * RAY) + total
    requires 2 * RAY * (overall * debt) + overall * total <= 2 * RAY * (rate * debt) + rate * total + slack
    ensures var l := PercentMul(RayMul(overall, u), k);
      2 * RAY * ONE_YEAR * (total * (LinearInterest(l, last + n, last) - RAY))
        <= 2 * RAY * ONE_YEAR * (debt * (CompoundedInterest(rate, last + n, last) - RAY))
           + n * (2 * RAY * ONE_YEAR * debt + total * (rate + RAY) + slack)
  {
    hide RayMul, PercentMul, LinearInterest, CompoundedInterest, Power2, Power3, Choose2, Choose3, RatePerSecond;
    var l, r := PercentMul(RayMul(overall, u), k), RatePerSecond(rate);
    ShareBelowInterest(debt, total, u, overall, k);
    LinearIsExact(l, n, last);
    YearOfSeconds(rate);
    CompoundedIsTruncated(rate, n, last);
    Powers(r);
    ProductOrdered(0, Choose2(n), 0, Power2(r));
    ProductOrdered(0, Choose3(n), 0, Power3(r));
    Outearn(debt, total, n, rate, r, l, LinearInterest(l, last + n, last) - RAY, CompoundedInterest(rate, last + n, last) - RAY, slack);
  }

  /** Linear interest is the yearly rate pro rata, truncated. */
  lemma LinearIsExact(rate: int, n: nat, last: int)
    requires rate >= 0
    ensures var earned := LinearInterest(rate, last + n, last) - RAY;
      ONE_YEAR * earned <= rate * n < ONE_YEAR * earned + ONE_YEAR
  {
    ProductNonNegative(rate, n);
  }

  lemma YearOfSeconds(rate: int)
    requires rate >= 0
    ensures RatePerSecond(rate) >= 0 && rate <= ONE_YEAR * RatePerSecond(rate) + ONE_YEAR
  {
  }

  lemma Outearn(debt: int, total: int, n: int, rate: int, r: int, l: int, lin: int, comp: int, slack: int)
    requires debt >= 0 && total >= 0 && n >= 0
    requires 2 * RAY * (total * l) <= 2 * RAY * (rate * debt) + (rate * total + slack) + RAY * total
    requires ONE_YEAR * lin <= l * n && rate <= ONE_YEAR * r + ONE_YEAR && r * n <= comp
    ensures 2 * RAY * ONE_YEAR * (total * lin)
         <= 2 * RAY * ONE_YEAR * (debt * comp) + n * (2 * RAY * ONE_YEAR * debt + total * (rate + RAY) + slack)
  {
    MulMonotone(total, ONE_YEAR * lin, l * n);
    MulMonotone(debt, r * n, comp);
    ScaleSpread(n, total * l, rate * debt, rate * total + slack, total);
    ScaleYear(n, debt, rate, r);
    ExpandSlack(n, debt, total, rate, slack);
    assert total * (l * n) == n * (total * l);
    assert n * (r * debt) == debt * (r * n);
    ChainEarnings(total * lin, n * (total * l), n * (rate * debt), n * (rate * total + slack), n * total, n * debt, n * (r * debt), debt * comp);
  }

  lemma ScaleSpread(n: int, x: int, a: int, b: int, c: int)
    requires n >= 0 && 2 * RAY * x <= 2 * RAY * a + b + RAY * c
    ensures 2 * RAY * (n * x) <= 2 * RAY * (n * a) + n * b + RAY * (n * c)
  {
    MulMonotone(n, 2 * RAY * x, 2 * RAY * a + b + RAY * c);
  }

  lemma ScaleYear(n: int, debt: int, rate: int, r: int)
    requires n >= 0 && debt >= 0 && rate <= ONE_YEAR * r + ONE_YEAR
    ensures n * (rate * debt) <= ONE_YEAR * (n * (r * debt)) + ONE_YEAR * (n * debt)
  {
    MulMonotone(debt, rate, ONE_YEAR * r + ONE_YEAR);
    MulMonotone(n, rate * debt, ONE_YEAR * (r * debt) + ONE_YEAR * debt);
  }

  lemma ExpandSlack(n: int, debt: int, total: int, rate: int, slack: int)
    ensures n * (2 * RAY * ONE_YEAR * debt + total * (rate + RAY) + slack)
         == 2 * RAY * ONE_YEAR * (n * debt) + n * (rate * total + slack) + RAY * (n * total)
  {
    Distribute(total, rate, RAY);
    Distribute(n, 2 * RAY * ONE_YEAR * debt, rate * total + RAY * total + slack);
    Distribute(n, rate * total + slack, RAY * total);
  }

  lemma ChainEarnings(tl: int, tln: int, nrd: int, nrt: int, nt: int, nd: int, nrsd: int, dc: int)
    requires ONE_YEAR * tl <= tln && 2 * RAY * tln <= 2 * RAY * nrd + nrt + RAY * nt
    requires nrd <= ONE_YEAR * nrsd + ONE_YEAR * nd && nrsd <= dc
    ensures 2 * RAY * ONE_YEAR * tl <= 2 * RAY * ONE_YEAR * dc + 2 * RAY * ONE_YEAR * nd + nrt + RAY * nt
  {
  }
}
