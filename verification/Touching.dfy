/** Touching a reserve, that is settling it without moving anything, against leaving it alone. */
module Touching {
  import opened FixedPoint
  import opened Interest
  import opened Rates
  import opened Reserve
  import opened Accrual

  /** More debt against the same liquidity never lowers the utilization. */
  lemma UtilizationOrdered(available: int, debt: int, debt': int)
    requires available >= 0 && 0 <= debt <= debt'
    ensures UtilizationRate(debt, available + debt) <= UtilizationRate(debt', available + debt')
  {
    hide DivHalfUp;
    UtilizationAtMostOne(debt', available + debt');
    if debt > 0 {
      var l, l' := available + debt, available + debt';
      var u, u' := UtilizationRate(debt, l), UtilizationRate(debt', l');
      DivIsNearest(debt, l, RAY, u);
      DivIsNearest(debt', l', RAY, u');
      CrossMultiplied(available, debt, debt');
      QuotientsOrdered(debt, l, u, debt', l', u');
    }
  }

  lemma CrossMultiplied(available: int, debt: int, debt': int)
    requires available >= 0 && 0 <= debt <= debt'
    ensures debt * (available + debt') <= debt' * (available + debt)
  {
    MulMonotone(available, debt, debt');
  }

  lemma QuotientsOrdered(d: int, l: int, u: int, d': int, l': int, u': int)
    requires l > 0 && l' > 0 && d * l' <= d' * l
    requires Nearest(d * RAY, l, u) && Nearest(d' * RAY, l', u')
    ensures u <= u'
  {
    if u' < u {
      MulMonotone(l', u' + 1, u);
      Distribute(l', u', 1);
      CompareQuotients(d, l, u, d', l', u');
    }
  }

  /** `2dR >= l(2u - 1)` and `dl' <= d'l` give `2d'R >= l'(2u - 1)`. */
  lemma CompareQuotients(d: int, l: int, u: int, d': int, l': int, u': int)
    requires l > 0 && l' > 0 && d * l' <= d' * l
    requires 2 * (l * u) - l <= 2 * (d * RAY)
    ensures 2 * (l' * u) - l' <= 2 * (d' * RAY)
  {
    MulMonotone(l', 2 * (l * u) - l, 2 * (d * RAY));
    assert l' * (2 * (l * u) - l) == l * (2 * (l' * u) - l');
    assert l' * (2 * (d * RAY)) == 2 * RAY * (d * l');
    assert l * (2 * (d' * RAY)) == 2 * RAY * (d' * l);
    CancelFactor(l, 2 * (l' * u) - l', 2 * (d' * RAY));
  }

  lemma CancelFactor(f: int, a: int, b: int)
    requires f > 0 && f * a <= f * b
    ensures a <= b
  {
    if b < a {
      MulMonotone(f, b + 1, a);
      Distribute(f, b, 1);
    }
  }

  /** A touch never lowers the borrow rate: the accrued debt raises the utilization. */
  lemma TouchRaisesRate(p: ReserveParams, r: ReserveData, t: int)
    requires p.Valid() && Sound(r) && Priced(p, r) && Balanced(r) && t >= r.lastUpdateTimestamp
    requires r.totalVariableDebt == RayMul(r.scaledVariableDebt, r.variableBorrowIndex)
    ensures CanSettle(r, t, 0, 0)
    ensures Settle(p, r, t, 0, 0).variableBorrowRate >= r.variableBorrowRate
  {
    hide RayMul, RayDiv, LiquidityRate, VariableBorrowRate, LiquidityIndex, VariableBorrowIndex, UtilizationRate;
    SettleSound(p, r, t, 0, 0);
    IndicesGrow(r, t);
    MoreIndexMoreDebt(r.scaledVariableDebt, r.variableBorrowIndex, VariableBorrowIndex(r, t));
    var debt' := DebtAt(r, t, 0);
    UtilizationOrdered(r.availableLiquidity, r.totalVariableDebt, debt');
    CurveOrdered(p, r.utilizationRate, UtilizationRate(debt', r.availableLiquidity + debt'));
  }

  /** Two accruals in a row against one over the whole period, for one rate. */
  lemma IndexSplit(rate: int, index: int, m: nat, n: nat, t: int)
    requires rate >= 0 && index >= 0
    ensures var c1, c2 := CompoundedInterest(rate, t + m, t), CompoundedInterest(rate, t + m + n, t + m);
      2 * RAY * RayMul(CompoundedInterest(rate, t + m + n, t), index)
        <= 2 * RAY * RayMul(c2, RayMul(c1, index)) + SplitLoss(m, n) * index + c2 + 2 * RAY
  {
    hide MulHalfUp, CompoundedInterest, Truncated, SplitLoss, Nearest;
    var r := RatePerSecond(rate);
    CompoundedIsTruncated(rate, m, t);
    CompoundedIsTruncated(rate, n, t + m);
    CompoundedIsTruncated(rate, m + n, t);
    SplitAtRates(r, m, n);
    CompoundedOrdered(rate, rate, m, m, t, t);
    CompoundedOrdered(rate, rate, n, n, t + m, t + m);
    CompoundedOrdered(rate, rate, m + n, m + n, t, t);
    var c1, c2, c := Truncated(r, m), Truncated(r, n), Truncated(r, m + n);
    MulOrdered(0, c1, 0, index, RAY);
    RoundedProduct(c1, index);
    RoundedProduct(c2, RayMul(c1, index));
    RoundedProduct(c, index);
    IndexAlgebra(c, c1, c2, index, SplitLoss(m, n), RayMul(c1, index), RayMul(c2, RayMul(c1, index)), RayMul(c, index));
  }

  lemma RoundedProduct(a: int, b: int)
    requires a >= 0 && b >= 0
    ensures 2 * (a * b) - RAY <= 2 * (RAY * RayMul(a, b)) <= 2 * (a * b) + RAY
  {
    ProductNonNegative(a, b);
    MulIsNearest(a, b, RAY, RayMul(a, b));
  }

  lemma IndexAlgebra(c: int, c1: int, c2: int, i: int, s: int, i1: int, i2: int, i0: int)
    requires c2 >= 0 && i >= 0
    requires 2 * (RAY * c) <= 2 * (c1 * c2) + RAY * s
    requires 2 * (c1 * i) - RAY <= 2 * (RAY * i1) && 2 * (c2 * i1) - RAY <= 2 * (RAY * i2)
    requires 2 * (RAY * i0) <= 2 * (c * i) + RAY
    ensures 2 * RAY * i0 <= 2 * RAY * i2 + s * i + c2 + 2 * RAY
  {
    MulMonotone(i, 2 * (RAY * c), 2 * (c1 * c2) + RAY * s);
    MulMonotone(c2, 2 * (c1 * i) - RAY, 2 * (RAY * i1));
    assert i * (c1 * c2) == c2 * (c1 * i);
  }

  /** Settling nothing `m` seconds after the last update keeps what is owed after `n` more seconds, up to
      the rounding of the cross terms and of the two products. */
  predicate TouchKeeps(p: ReserveParams, r: ReserveData, m: nat, n: nat) {
    var t := r.lastUpdateTimestamp;
    && p.HasKink() && CanSettle(r, t + m, 0, 0)
    && 2 * RAY * VariableBorrowIndex(r, t + m + n)
       <= 2 * RAY * VariableBorrowIndex(Settle(p, r, t + m, 0, 0), t + m + n) + SplitLoss(m, n) * r.variableBorrowIndex
          + CompoundedInterest(r.variableBorrowRate, t + m + n, t + m) + 2 * RAY
  }

  /** Borrowers owe at least as much when the reserve is touched halfway as when it is left alone,
      up to the rounding of the cross terms and of the two products: the touch compounds the
      interest and can only raise the rate. */
  lemma TouchingKeepsInterest(p: ReserveParams, r: ReserveData, m: nat, n: nat)
    requires p.Valid() && Sound(r) && Priced(p, r) && Balanced(r)
    requires r.totalVariableDebt == RayMul(r.scaledVariableDebt, r.variableBorrowIndex)
    ensures TouchKeeps(p, r, m, n)
  {
    hide RayMul, RayDiv, LiquidityRate, VariableBorrowRate, CompoundedInterest, LiquidityIndex, UtilizationRate, SplitLoss;
    var t, rate, index := r.lastUpdateTimestamp, r.variableBorrowRate, r.variableBorrowIndex;
    SettleSound(p, r, t + m, 0, 0);
    SettledFields(p, r, t + m, 0, 0);
    TouchRaisesRate(p, r, t + m);
    var touched := Settle(p, r, t + m, 0, 0);
    CompoundedOrdered(rate, touched.variableBorrowRate, n, n, t + m, t + m);
    ProductNonNegative(SplitLoss(m, n), index);
    if r.totalVariableDebt != 0 {
      IndexSplit(rate, index, m, n, t);
      var c2, c2' := CompoundedInterest(rate, t + m + n, t + m), CompoundedInterest(touched.variableBorrowRate, t + m + n, t + m);
      RaisedFactor(c2, c2', VariableBorrowIndex(r, t + m));
    }
  }

  lemma RaisedFactor(factor: int, factor': int, index: int)
    requires 0 <= factor <= factor' && index >= 0
    ensures RayMul(factor, index) <= RayMul(factor', index)
  {
    MulOrdered(factor, factor', index, index, RAY);
  }

  // ----- The same for a borrow read back later -----

  /** The interest on the recorded total for a settled reserve `b` read back at `now`: the debt and the
      total are the later ones, the rates those of the settlement. The later utilization can only be higher, so it
      bounds what the rates were set from. */
  lemma ObservedEarnings(p: ReserveParams, b: ReserveData, now: int, n: nat)
    requires p.Valid() && Sound(b) && Priced(p, b) && Balanced(b) && now >= b.lastUpdateTimestamp
    requires b.totalVariableDebt == RayMul(b.scaledVariableDebt, b.variableBorrowIndex)
    ensures CanObserve(b, now)
    ensures var r, t := Observe(b, now), b.lastUpdateTimestamp;
      2 * RAY * ONE_YEAR * (r.totalLiquidity * (LinearInterest(r.liquidityRate, t + n, t) - RAY))
        <= 2 * RAY * ONE_YEAR * (r.totalVariableDebt * (CompoundedInterest(r.variableBorrowRate, t + n, t) - RAY))
           + n * (2 * RAY * ONE_YEAR * r.totalVariableDebt + r.totalLiquidity * (r.variableBorrowRate + RAY)
                  + DelayedSlack(b.totalVariableDebt, r.totalVariableDebt, r.totalLiquidity))
  {
    hide RayMul, RayDiv, PercentMul, OverallBorrowRate, VariableBorrowRate, NormalizedDebt, UtilizationRate, LinearInterest,
      CompoundedInterest, DelayedSlack;
    ObserveSound(p, b, now);
    var r := Observe(b, now);
    var u, debt, total, rate := b.utilizationRate, r.totalVariableDebt, r.totalLiquidity, b.variableBorrowRate;
    if b.totalVariableDebt == 0 {
      NoDebtEver(p, b, now);
      NothingEarned(total, rate, n, b.lastUpdateTimestamp);
    } else {
      UtilizationOrdered(b.availableLiquidity, b.totalVariableDebt, debt);
      UtilizationIsNearest(debt, total);
      MulMonotone(total, u, UtilizationRate(debt, total));
      DelayedWeighting(b.totalVariableDebt, rate, debt, total);
      EarningsBounded(debt, total, u, OverallBorrowRate(b.totalVariableDebt, rate), rate, PERCENTAGE_FACTOR - p.reserveFactor,
                      DelayedSlack(b.totalVariableDebt, debt, total), n, b.lastUpdateTimestamp);
    }
  }

  lemma NoDebtEver(p: ReserveParams, b: ReserveData, now: int)
    requires p.Valid() && Sound(b) && Priced(p, b) && b.totalVariableDebt == 0 && now >= b.lastUpdateTimestamp && CanObserve(b, now)
    ensures b.liquidityRate == 0 && Observe(b, now).totalVariableDebt == 0
    ensures forall total :: DelayedSlack(0, 0, total) == 0
  {
    hide RayMul, RayDiv, NormalizedDebt, VariableBorrowIndex;
    IndicesGrow(b, now);
    DebtAtLeastScaled(b.scaledVariableDebt, NormalizedDebt(b, now));
  }

  /** Reading a reserve back later changes neither the borrow index it will accrue nor what a later
      settlement of nothing makes of it. */
  lemma ObserveKeepsAccrual(p: ReserveParams, b: ReserveData, now: int, t: int, later: int)
    requires p.Valid() && Sound(b) && CanObserve(b, now) && Sound(Observe(b, now)) && t >= b.lastUpdateTimestamp
    requires CanSettle(b, t, 0, 0)
    ensures var r := Observe(b, now);
      && CanSettle(r, t, 0, 0)
      && VariableBorrowIndex(r, later) == VariableBorrowIndex(b, later)
      && VariableBorrowIndex(Settle(p, r, t, 0, 0), later) == VariableBorrowIndex(Settle(p, b, t, 0, 0), later)
  {
    hide RayMul, RayDiv, LiquidityRate, VariableBorrowRate, NormalizedDebt, UtilizationRate, LiquidityIndex, CompoundedInterest;
    var r := Observe(b, now);
    assert VariableBorrowIndex(r, t) == VariableBorrowIndex(b, t);
    assert DebtAt(r, t, 0) == DebtAt(b, t, 0);
  }
}
