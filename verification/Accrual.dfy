/** What every transition keeps of a reserve, and how transitions compose. */
module Accrual {
  import opened FixedPoint
  import opened Interest
  import opened Rates
  import opened Reserve

  /** The facts every reachable reserve satisfies. */
  predicate Sound(r: ReserveData) {
    && r.liquidityIndex >= RAY && r.variableBorrowIndex >= RAY
    && r.availableLiquidity >= 0 && r.totalLiquidity >= 0
    && r.scaledVariableDebt >= 0 && r.totalVariableDebt >= 0
    && (r.totalVariableDebt == 0 <==> r.scaledVariableDebt == 0)
    && (r.scaledVariableDebt > 0 ==> r.totalLiquidity > 0)
    && r.liquidityRate >= 0 && r.variableBorrowRate >= 0 && r.utilizationRate >= 0
    && (r.utilizationRate == 0 ==> r.liquidityRate == 0)
  }

  /** The total is the sum of its parts and at most all of it is lent out. */
  predicate Balanced(r: ReserveData) {
    r.totalLiquidity == r.availableLiquidity + r.totalVariableDebt && r.utilizationRate <= RAY
  }

  /** The stored rates are those of the stored debt and liquidity. */
  predicate Priced(p: ReserveParams, r: ReserveData)
    requires p.HasKink()
  {
    && HasUtilization(r.totalVariableDebt, r.totalLiquidity)
    && r.utilizationRate == UtilizationRate(r.totalVariableDebt, r.totalLiquidity)
    && r.liquidityRate == LiquidityRate(p, r.utilizationRate, r.totalVariableDebt)
    && r.variableBorrowRate == VariableBorrowRate(p, r.utilizationRate)
  }

  // ----- Indices -----

  lemma GrowsBy(factor: int, index: int)
    requires factor >= RAY && index >= 0
    ensures RayMul(factor, index) >= index
  {
    MulOrdered(RAY, factor, index, index, RAY);
    MulUnits(index, RAY);
  }

  /** Neither index ever falls. */
  lemma IndicesGrow(r: ReserveData, t: int)
    requires Sound(r) && t >= r.lastUpdateTimestamp
    ensures LiquidityIndex(r, t) >= r.liquidityIndex
    ensures NormalizedDebt(r, t) >= VariableBorrowIndex(r, t) >= r.variableBorrowIndex
  {
    hide MulHalfUp, CompoundedInterest, LinearInterest;
    var n, last := t - r.lastUpdateTimestamp, r.lastUpdateTimestamp;
    LinearOrdered(r.liquidityRate, n, n, last, last);
    CompoundedOrdered(r.variableBorrowRate, r.variableBorrowRate, n, n, last, last);
    CompoundedAtRateZero(r, t);
    GrowsBy(LinearInterest(r.liquidityRate, t, last), r.liquidityIndex);
    GrowsBy(CompoundedInterest(r.variableBorrowRate, t, last), r.variableBorrowIndex);
  }

  lemma CompoundedAtRateZero(r: ReserveData, t: int)
    requires t >= r.lastUpdateTimestamp && r.variableBorrowIndex >= 0 && r.liquidityIndex >= 0
    ensures CompoundedInterest(0, t, r.lastUpdateTimestamp) == RAY == LinearInterest(0, t, r.lastUpdateTimestamp)
    ensures RayMul(RAY, r.variableBorrowIndex) == r.variableBorrowIndex
    ensures RayMul(RAY, r.liquidityIndex) == r.liquidityIndex
  {
    hide MulHalfUp, CompoundedInterest, Choose2, Choose3;
    CompoundedIsTruncated(0, t - r.lastUpdateTimestamp, r.lastUpdateTimestamp);
    MulUnits(0, RAY);
    assert Power2(0) == 0 && Power3(0) == 0;
    MulUnits(r.variableBorrowIndex, RAY);
    MulUnits(r.liquidityIndex, RAY);
  }

  /** The two accrual paths agree on every sound reserve, although one looks at a rate where the
      other looks at the utilization or at the debt. */
  lemma AccrualsAgree(r: ReserveData, t: int)
    requires Sound(r) && t >= r.lastUpdateTimestamp
    ensures NormalizedIncome(r, t) == LiquidityIndex(r, t)
    ensures r.totalVariableDebt != 0 ==> NormalizedDebt(r, t) == VariableBorrowIndex(r, t)
  {
    hide MulHalfUp, CompoundedInterest, LinearInterest;
    CompoundedAtRateZero(r, t);
  }

  /** Nothing accrues at the moment of the last update. */
  lemma NoTimeNoAccrual(r: ReserveData)
    requires r.liquidityIndex >= 0 && r.variableBorrowIndex >= 0
    ensures var t := r.lastUpdateTimestamp;
      && LiquidityIndex(r, t) == NormalizedIncome(r, t) == r.liquidityIndex
      && VariableBorrowIndex(r, t) == NormalizedDebt(r, t) == r.variableBorrowIndex
  {
    hide MulHalfUp;
    CompoundedAtRateZero(r, r.lastUpdateTimestamp);
  }

  /** Scaled debt is worth at least itself, and nothing only when there is none. */
  lemma DebtAtLeastScaled(scaled: int, index: int)
    requires scaled >= 0 && index >= RAY
    ensures RayMul(scaled, index) >= scaled
    ensures RayMul(scaled, index) == 0 <==> scaled == 0
  {
    MulOrdered(scaled, scaled, RAY, index, RAY);
    MulUnits(scaled, RAY);
    MulUnits(index, RAY);
  }

  /** A repayment takes at most the scaled debt away exactly when it stays half a scaled unit below the
      next one; in particular when it is at most what is owed. */
  lemma PartialRepayFits(amount: int, scaled: int, index: int)
    requires amount >= 0 && scaled >= 0 && index > 0
    ensures 0 <= RayDiv(amount, index)
    ensures RayDiv(amount, index) <= scaled <==> 2 * RAY * amount < (2 * scaled + 1) * index
    ensures index >= RAY && amount <= RayMul(scaled, index) ==> RayDiv(amount, index) <= scaled
  {
    hide MulHalfUp, DivHalfUp;
    var q := RayDiv(amount, index);
    DivOrdered(0, amount, index, RAY);
    DivIsNearest(amount, index, RAY, q);
    BelowNextUnit(amount, scaled, index, q);
    if index >= RAY && amount <= RayMul(scaled, index) {
      ScaledRoundTrip(scaled, index, RAY);
      DivOrdered(amount, RayMul(scaled, index), index, RAY);
    }
  }

  lemma BelowNextUnit(amount: int, scaled: int, index: int, q: int)
    requires index > 0 && Nearest(amount * RAY, index, q)
    ensures q <= scaled <==> 2 * RAY * amount < (2 * scaled + 1) * index
  {
    Distribute(index, 2 * scaled, 1);
    if q <= scaled {
      MulMonotone(index, q, scaled);
    } else {
      MulMonotone(index, scaled + 1, q);
      Distribute(index, scaled, 1);
    }
  }

  // ----- Every transition keeps a reserve sound -----

  lemma RepriceSound(p: ReserveParams, r: ReserveData, t: int, scaled: int, available: int, total: int)
    requires p.Valid() && Sound(r) && t >= r.lastUpdateTimestamp
    requires scaled >= 0 && available >= 0 && total >= 0 && (scaled > 0 ==> total > 0)
    ensures HasUtilization(RayMul(scaled, VariableBorrowIndex(r, t)), total)
    ensures var r' := Reprice(p, r, t, scaled, available, total);
      && Sound(r') && Priced(p, r')
      && r'.liquidityIndex >= r.liquidityIndex && r'.variableBorrowIndex >= r.variableBorrowIndex
  {
    hide RayMul, RayDiv, LiquidityRate, VariableBorrowRate, LiquidityIndex, VariableBorrowIndex;
    IndicesGrow(r, t);
    var debt := RayMul(scaled, VariableBorrowIndex(r, t));
    DebtAtLeastScaled(scaled, VariableBorrowIndex(r, t));
    UtilizationAtMostOne(debt, total);
    RatesNonNegative(p, UtilizationRate(debt, total), debt);
  }

  lemma SettleSound(p: ReserveParams, r: ReserveData, t: int, dScaled: int, dAvailable: int)
    requires p.Valid() && Sound(r) && t >= r.lastUpdateTimestamp
    requires r.scaledVariableDebt + dScaled >= 0 && r.availableLiquidity + dAvailable >= 0
    ensures CanSettle(r, t, dScaled, dAvailable)
    ensures var r' := Settle(p, r, t, dScaled, dAvailable);
      && Sound(r') && Priced(p, r') && Balanced(r')
      && r'.liquidityIndex >= r.liquidityIndex && r'.variableBorrowIndex >= r.variableBorrowIndex
  {
    hide RayMul, RayDiv, LiquidityRate, VariableBorrowRate, LiquidityIndex, VariableBorrowIndex;
    IndicesGrow(r, t);
    var scaled, available := r.scaledVariableDebt + dScaled, r.availableLiquidity + dAvailable;
    var debt := DebtAt(r, t, dScaled);
    DebtAtLeastScaled(scaled, VariableBorrowIndex(r, t));
    RepriceSound(p, r, t, scaled, available, available + debt);
    UtilizationAtMostOne(debt, available + debt);
  }

  /** Reading a balanced reserve later keeps it sound: a utilization that rounds to zero later
      already did so when the rates were set. */
  lemma ObserveSound(p: ReserveParams, r: ReserveData, now: int)
    requires p.Valid() && Sound(r) && Priced(p, r) && Balanced(r) && now >= r.lastUpdateTimestamp
    requires r.totalVariableDebt == RayMul(r.scaledVariableDebt, r.variableBorrowIndex)
    ensures CanObserve(r, now)
    ensures Sound(Observe(r, now)) && Balanced(Observe(r, now))
    ensures Observe(r, now).totalVariableDebt >= r.totalVariableDebt
    ensures now == r.lastUpdateTimestamp ==> Observe(r, now) == r
  {
    hide RayMul, RayDiv, LiquidityRate, VariableBorrowRate, NormalizedDebt, VariableBorrowIndex, UtilizationRate;
    IndicesGrow(r, now);
    NoTimeNoAccrual(r);
    var debt := RayMul(r.scaledVariableDebt, NormalizedDebt(r, now));
    DebtAtLeastScaled(r.scaledVariableDebt, NormalizedDebt(r, now));
    MoreIndexMoreDebt(r.scaledVariableDebt, r.variableBorrowIndex, NormalizedDebt(r, now));
    UtilizationAtMostOne(debt, r.availableLiquidity + debt);
    UtilizationAtMostOne(r.totalVariableDebt, r.totalLiquidity);
  }

  lemma MoreIndexMoreDebt(scaled: int, index: int, index': int)
    requires scaled >= 0 && 0 <= index <= index'
    ensures RayMul(scaled, index) <= RayMul(scaled, index')
  {
    MulOrdered(scaled, scaled, index, index', RAY);
  }

  // ----- Transitions at one timestamp compose -----

  /** A second settlement at the same timestamp overwrites the first. */
  lemma RepriceTwice(p: ReserveParams, r: ReserveData, t: int, s1: int, a1: int, l1: int, s2: int, a2: int, l2: int)
    requires p.HasKink() && LiquidityIndex(r, t) >= 0 && VariableBorrowIndex(r, t) >= 0
    requires HasUtilization(RayMul(s1, VariableBorrowIndex(r, t)), l1)
    requires HasUtilization(RayMul(s2, VariableBorrowIndex(r, t)), l2)
    ensures var r1 := Reprice(p, r, t, s1, a1, l1);
      && HasUtilization(RayMul(s2, VariableBorrowIndex(r1, t)), l2)
      && Reprice(p, r1, t, s2, a2, l2) == Reprice(p, r, t, s2, a2, l2)
  {
    hide RayMul, RayDiv, LiquidityRate, VariableBorrowRate, LiquidityIndex, VariableBorrowIndex;
    NoTimeNoAccrual(Reprice(p, r, t, s1, a1, l1));
  }

  /** Settlements at one timestamp add up; in particular their order does not matter. */
  lemma SettleTwice(p: ReserveParams, r: ReserveData, t: int, ds1: int, da1: int, ds2: int, da2: int)
    requires p.HasKink() && LiquidityIndex(r, t) >= 0 && VariableBorrowIndex(r, t) >= 0
    requires CanSettle(r, t, ds1, da1) && CanSettle(r, t, ds1 + ds2, da1 + da2)
    ensures var r1 := Settle(p, r, t, ds1, da1);
      CanSettle(r1, t, ds2, da2) && Settle(p, r1, t, ds2, da2) == Settle(p, r, t, ds1 + ds2, da1 + da2)
  {
    hide RayMul, RayDiv, LiquidityRate, VariableBorrowRate, LiquidityIndex, VariableBorrowIndex;
    var r1 := Settle(p, r, t, ds1, da1);
    NoTimeNoAccrual(r1);
    assert r1.scaledVariableDebt + ds2 == r.scaledVariableDebt + (ds1 + ds2);
    assert DebtAt(r1, t, ds2) == DebtAt(r, t, ds1 + ds2);
  }

  /** A settlement read back at once is itself. */
  lemma ObserveAtOnce(p: ReserveParams, r: ReserveData, t: int, ds: int, da: int)
    requires p.HasKink() && CanSettle(r, t, ds, da)
    requires LiquidityIndex(r, t) >= 0 && VariableBorrowIndex(r, t) >= 0
    ensures var b := Settle(p, r, t, ds, da);
      CanObserve(b, t) && Observe(b, t) == b
  {
    hide RayMul, RayDiv, LiquidityRate, VariableBorrowRate, LiquidityIndex, VariableBorrowIndex, NormalizedDebt;
    var b := Settle(p, r, t, ds, da);
    NoTimeNoAccrual(b);
    assert RayMul(b.scaledVariableDebt, NormalizedDebt(b, t)) == b.totalVariableDebt;
  }

  /** Borrowing and repaying the same amount at one timestamp is the same as repaying nothing,
      whatever the amount. */
  lemma BorrowRepayCancels(p: ReserveParams, r: ReserveData, amount: int, t: int)
    requires p.HasKink() && LiquidityIndex(r, t) >= 0 && VariableBorrowIndex(r, t) > 0
    requires CanSettle(r, t, RayDiv(amount, VariableBorrowIndex(r, t)), -amount) && CanSettle(r, t, 0, 0)
    ensures CanBorrow(p, r, amount, t, t) && CanRepay(r, 0, t)
    ensures var b := Borrowed(p, r, amount, t, t);
      CanRepay(b, amount, t) && Settled(p, b, amount, t) == Settled(p, r, 0, t)
  {
    hide RayMul, RayDiv, LiquidityRate, VariableBorrowRate, LiquidityIndex, VariableBorrowIndex, Reprice, CanObserve, Observe, CanSettle;
    var index := VariableBorrowIndex(r, t);
    RayDivOfAmount(0, index);
    var ds := RayDiv(amount, index);
    ObserveAtOnce(p, r, t, ds, -amount);
    var b := Settle(p, r, t, ds, -amount);
    SettledFields(p, r, t, ds, -amount);
    NoTimeNoAccrual(b);
    SettleTwice(p, r, t, ds, -amount, -ds, amount);
  }

  lemma RayDivOfAmount(amount: int, index: int)
    requires amount >= 0 && index > 0
    ensures RayDiv(amount, index) >= 0 && RayDiv(0, index) == 0
  {
    DivOrdered(0, amount, index, RAY);
    DivUnits(index, RAY);
  }

  lemma SettledFields(p: ReserveParams, r: ReserveData, t: int, ds: int, da: int)
    requires p.HasKink() && CanSettle(r, t, ds, da)
    ensures var b := Settle(p, r, t, ds, da);
      && b.lastUpdateTimestamp == t && b.variableBorrowIndex == VariableBorrowIndex(r, t)
      && b.liquidityIndex == LiquidityIndex(r, t)
      && b.scaledVariableDebt == r.scaledVariableDebt + ds && b.availableLiquidity == r.availableLiquidity + da
      && b.totalVariableDebt == RayMul(b.scaledVariableDebt, b.variableBorrowIndex)
  {
  }

  // ----- Liquidity accounting -----

  /** What the recorded total is short of the sum of its parts. */
  function Shortfall(r: ReserveData): int { r.availableLiquidity + r.totalVariableDebt - r.totalLiquidity }

  /** A deposit adds exactly the interest accrued since the debt was last read to the shortfall of
      the total, and can so push the recorded utilization above one. */
  lemma DepositMissesInterest(p: ReserveParams, r: ReserveData, t: int, amount: int)
    requires p.Valid() && Sound(r) && t >= r.lastUpdateTimestamp && amount >= 0
    ensures HasUtilization(DebtAt(r, t, 0), r.totalLiquidity + amount)
    ensures var d := Deposited(p, r, t, amount);
      var debt := DebtAt(r, t, 0);
      var excess := debt - (r.totalLiquidity + amount);
      && Shortfall(d) == Shortfall(r) + (debt - r.totalVariableDebt)
      && (d.utilizationRate <= RAY <==> debt == 0 || 2 * RAY * excess < r.totalLiquidity + amount)
      && (excess <= 0 ==> d.utilizationRate <= RAY)
      && (0 < debt && r.totalLiquidity + amount <= 2 * RAY && d.utilizationRate <= RAY ==> excess <= 0)
  {
    hide RayMul, RayDiv, LiquidityRate, VariableBorrowRate, LiquidityIndex, VariableBorrowIndex, UtilizationRate;
    RepriceSound(p, r, t, r.scaledVariableDebt, r.availableLiquidity + amount, r.totalLiquidity + amount);
    UtilizationAtMostOne(DebtAt(r, t, 0), r.totalLiquidity + amount);
  }

  /** A deposit is a settlement exactly when the recorded total already includes the accrued debt. */
  lemma DepositSettlesIff(p: ReserveParams, r: ReserveData, t: int, amount: int)
    requires p.HasKink() && CanSettle(r, t, 0, amount) && HasUtilization(DebtAt(r, t, 0), r.totalLiquidity + amount)
    ensures r.totalLiquidity == r.availableLiquidity + DebtAt(r, t, 0)
       <==> Deposited(p, r, t, amount) == Settle(p, r, t, 0, amount)
  {
    hide RayMul, RayDiv, LiquidityRate, VariableBorrowRate, LiquidityIndex, VariableBorrowIndex, UtilizationRate;
    assert r.scaledVariableDebt + 0 == r.scaledVariableDebt;
  }

  // ----- Reading a record back -----

  /** Reading the reserve back at `now` does not round the utilization of a paying reserve to zero. */
  predicate Readable(r: ReserveData, now: int) {
    var debt := RayMul(r.scaledVariableDebt, NormalizedDebt(r, now));
    r.liquidityRate == 0 || (debt > 0 && r.availableLiquidity + debt <= 2 * RAY * debt)
  }

  /** Reading any sound reserve back recomputes its total and utilization but not its rates: the
      reading is sound exactly when it does not round the utilization of a paying reserve to zero. */
  lemma ReadBackSoundIff(r: ReserveData, now: int)
    requires Sound(r) && now >= r.lastUpdateTimestamp
    ensures CanObserve(r, now)
    ensures Sound(Observe(r, now)) <==> Readable(r, now)
  {
    hide RayMul, RayDiv, LiquidityRate, VariableBorrowRate, NormalizedDebt, VariableBorrowIndex, UtilizationRate;
    IndicesGrow(r, now);
    var debt := RayMul(r.scaledVariableDebt, NormalizedDebt(r, now));
    DebtAtLeastScaled(r.scaledVariableDebt, NormalizedDebt(r, now));
    UtilizationAtMostOne(debt, r.availableLiquidity + debt);
  }

  /** A deposit at the moment its record was read settles: the reading has made up the total. */
  lemma ReadDepositSettles(p: ReserveParams, r: ReserveData, t: int, amount: int)
    requires p.Valid() && Sound(r) && t >= r.lastUpdateTimestamp && amount >= 0
    ensures CanObserve(r, t)
    ensures var read := Observe(r, t);
      && read.totalLiquidity == read.availableLiquidity + DebtAt(read, t, 0)
      && CanSettle(read, t, 0, amount) && HasUtilization(DebtAt(read, t, 0), read.totalLiquidity + amount)
      && Deposited(p, read, t, amount) == Settle(p, read, t, 0, amount)
  {
    hide RayMul, RayDiv, LiquidityRate, VariableBorrowRate, CompoundedInterest, UtilizationRate, LiquidityIndex, Readable;
    ReadBackSoundIff(r, t);
    IndicesGrow(r, t);
    CompoundedAtRateZero(r, t);
    DebtAtLeastScaled(r.scaledVariableDebt, NormalizedDebt(r, t));
    DebtAtLeastScaled(0, VariableBorrowIndex(Observe(r, t), t));
    DepositSettlesIff(p, Observe(r, t), t, amount);
  }
}
