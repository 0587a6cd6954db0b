/** Deposits made on a record that is a year old, in runs from an unused pool. */
module LateDeposits {
  import opened FixedPoint
  import opened Interest
  import opened Rates
  import opened Reserve
  import opened Accrual
  import opened Loans
  import opened Pool
  import opened PoolSteps
  import opened PoolRuns
  import opened Solvency
  import opened PoolSolvency
  import opened Witnesses

  // ----- Everything lent out for a year -----

  /** A flat borrow rate of one unit, all of it for the depositors. */
  predicate Flat(p: ReserveParams) {
    && p.Valid() && p.baseVariableBorrowRate == RAY && p.variableRateSlope1 == 0 == p.variableRateSlope2 && p.reserveFactor == 0
  }

  /** The liquidity rate then is the utilization. */
  lemma FlatRates(p: ReserveParams, u: int, debt: int)
    requires Flat(p) && u >= 0 && debt > 0
    ensures VariableBorrowRate(p, u) == RAY && LiquidityRate(p, u, debt) == u
  {
    hide MulHalfUp, DivHalfUp;
    var d := WadToRay(debt);
    if u > p.optimalUtilizationRate {
      DivOrdered(0, u - p.optimalUtilizationRate, RAY - p.optimalUtilizationRate, RAY);
      MulUnits(RayDiv(u - p.optimalUtilizationRate, RAY - p.optimalUtilizationRate), RAY);
    } else {
      DivOrdered(0, u, p.optimalUtilizationRate, RAY);
      MulUnits(RayDiv(u, p.optimalUtilizationRate), RAY);
    }
    MulUnits(d, RAY);
    DivUnits(d, RAY);
    MulUnits(u, RAY);
    MulUnits(u, PERCENTAGE_FACTOR);
  }

  function LentOut(amount: int): seq<Move> { [Act(Deposits(amount))] + [Act(Borrows(0, "a", amount))] }

  lemma LentOutRun(p: ReserveParams, amount: nat)
    requires p.Valid()
    ensures CanSettle(UNUSED.reserve, 0, amount, 0) && Feasible(p, UNUSED, LentOut(amount))
    ensures After(p, UNUSED, LentOut(amount)) == Opened(p, amount, amount, 0, [Loan("a", amount)])
    ensures Invariant(p, After(p, UNUSED, LentOut(amount))) && SeparatedThroughout(p, UNUSED, LentOut(amount))
  {
    hide Invariant, Possible, Next, CanSettle, At0;
    DepositStep(p, amount);
    BorrowStep(p, amount, 0, amount, [], "a", amount);
    assert [] + [Loan("a", amount)] == [Loan("a", amount)] && [] + [Act(Deposits(amount))] == [Act(Deposits(amount))];
    NoRun(p);
    RunActs(p, UNUSED, [], Deposits(amount));
    RunActs(p, UNUSED, [Act(Deposits(amount))], Borrows(0, "a", amount));
    FreshInvariant(p, "reserve", "WETH", 0, 0);
    NothingToSeparate(UNUSED, Deposits(amount));
    NothingToSeparate(Opened(p, amount, 0, amount, []), Borrows(0, "a", amount));
    RunInvariantIff(p, UNUSED, LentOut(amount));
  }

  lemma LentOutRates(p: ReserveParams, amount: nat)
    requires Flat(p) && amount > 0
    ensures CanSettle(UNUSED.reserve, 0, amount, 0)
    ensures var r := At0(p, amount, 0);
      r.variableBorrowRate == RAY == r.liquidityRate == r.utilizationRate
  {
    hide RayMul, RayDiv, VariableBorrowIndex, VariableBorrowRate, LiquidityIndex, LiquidityRate;
    UnusedIndices();
    OneToOne(amount);
    FullUtilization(amount);
    FlatRates(p, RAY, amount);
  }

  lemma FullUtilization(amount: nat)
    requires amount > 0
    ensures RayDiv(amount, amount) == RAY
  {
    DivUnits(amount, RAY);
  }

  /** After that year deposits have doubled and debt has grown by the compounded factor. */
  lemma YearAtOne(r: ReserveData)
    requires r.totalVariableDebt != 0 && r.utilizationRate != 0 && r.lastUpdateTimestamp == 0
    requires r.variableBorrowRate == RAY == r.liquidityRate && r.liquidityIndex == RAY == r.variableBorrowIndex
    ensures LiquidityIndex(r, ONE_YEAR) == 2 * RAY && VariableBorrowIndex(r, ONE_YEAR) == YEAR_AT_RAY
  {
    hide CompoundedInterest;
    YearAtRay();
    assert LinearInterest(RAY, ONE_YEAR, 0) == 2 * RAY;
    MulUnits(2 * RAY, RAY);
  }

  function LateDeposit(amount: int): Event { Event(Deposit("d", amount), ONE_YEAR, ONE_YEAR) }

  /** The record and the balance that a deposit a year later leaves. */
  function Late(lent: int, amount: int, debt: int, u: int): Pool {
    Pool(ReserveData("reserve", "WETH", lent + amount, amount, debt, lent, u, RAY, u, 2 * RAY, YEAR_AT_RAY, ONE_YEAR),
         map["d" := lent + RayDiv(amount, 2 * RAY)], [Loan("a", lent)], ONE_YEAR)
  }

  lemma LateDepositStep(p: ReserveParams, lent: nat, amount: nat, debt: int, u: int)
    requires Flat(p) && lent > 0 && debt > 0 && u >= 0
    requires RayMul(lent, YEAR_AT_RAY) == debt && RayDiv(debt, lent + amount) == u
    ensures CanSettle(UNUSED.reserve, 0, lent, 0)
    ensures var s := Opened(p, lent, lent, 0, [Loan("a", lent)]);
      Possible(p, s, LateDeposit(amount)) && Next(p, s, LateDeposit(amount)) == Late(lent, amount, debt, u)
  {
    hide RayMul, RayDiv, VariableBorrowRate, LiquidityRate, LiquidityIndex, VariableBorrowIndex, CanSettle, At0;
    LentOutRates(p, lent);
    OneToOne(lent);
    OneToOne(0);
    At0Fields(p, lent, 0);
    YearAtOne(At0(p, lent, 0));
    FlatRates(p, u, debt);
    NothingTaken();
    var s := Opened(p, lent, lent, 0, [Loan("a", lent)]);
    assert s.reserve.scaledVariableDebt + 0 == lent;
    assert NextDeposits(s, LateDeposit(amount)) == map["d" := lent + RayDiv(amount, 2 * RAY)];
  }

  lemma NothingTaken()
    ensures RayDiv(0, 2 * RAY) == 0
  {
  }

  /** The run up to the deposit keeps the whole invariant, the deposit included. */
  lemma LateDepositRun(p: ReserveParams, lent: nat, amount: nat, debt: int, u: int)
    requires Flat(p) && lent > 0 && debt > 0 && u >= 0
    requires RayMul(lent, YEAR_AT_RAY) == debt && RayDiv(debt, lent + amount) == u
    ensures var run := LentOut(lent) + [Act(LateDeposit(amount))];
      && Feasible(p, UNUSED, run) && InvariantThroughout(p, UNUSED, run) && CoveredThroughout(p, UNUSED, run)
      && After(p, UNUSED, run) == Late(lent, amount, debt, u)
      && Invariant(p, Late(lent, amount, debt, u))
  {
    hide Invariant, Possible, Next, CanSettle, At0, RayMul, RayDiv, Covered, Separated, Opened, Late;
    LentOutRun(p, lent);
    LateDepositStep(p, lent, amount, debt, u);
    RunActs(p, UNUSED, LentOut(lent), LateDeposit(amount));
    NothingToSeparate(After(p, UNUSED, LentOut(lent)), LateDeposit(amount));
    FreshInvariant(p, "reserve", "WETH", 0, 0);
    RunInvariantIff(p, UNUSED, LentOut(lent) + [Act(LateDeposit(amount))]);
  }

  // ----- Depositors who cannot be paid -----

  const DEBT: int := 266666903047972677259
  const UTILIZATION: int := 2640266366811610665930693069

  const LATE: seq<Move> := LentOut(100 * WAD) + [Act(LateDeposit(WAD))]

  /** With 100 wad lent out for a year at a rate of one, a deposit of one wad records a total of 101 against
      267 of debt and 201 of claims. Every step is enabled and covered and the whole invariant holds
      throughout. From there the liquidity rate is that of a utilization of 2.6, and after one more year
      the claims exceed what the reserve holds and is owed by more than 18 wad. */
  lemma LateDepositUnderfunds(p: ReserveParams)
    requires Flat(p)
    ensures Feasible(p, UNUSED, LATE) && InvariantThroughout(p, UNUSED, LATE) && CoveredThroughout(p, UNUSED, LATE)
    ensures var s := After(p, UNUSED, LATE);
      && s.reserve.totalLiquidity == 101 * WAD && s.reserve.totalVariableDebt == DEBT && s.reserve.utilizationRate == UTILIZATION > RAY
      && Claims(s.deposits, s.reserve.liquidityIndex) == 201 * WAD && !Backed(s.reserve, s.deposits)
      && Excess(s.reserve, s.deposits, ONE_YEAR) < -66 * WAD
      && Excess(s.reserve, s.deposits, 2 * ONE_YEAR) > 18 * WAD
  {
    hide Invariant, Feasible, After, InvariantThroughout, CoveredThroughout, Claims, RayMul, RayDiv, LiquidityIndex, VariableBorrowIndex;
    LateAmounts();
    LateDepositRun(p, 100 * WAD, WAD, DEBT, UTILIZATION);
    var s := Late(100 * WAD, WAD, DEBT, UTILIZATION);
    ClaimsOfOne("d", 1005 * WAD / 10, 2 * RAY);
    ClaimsOfOne("d", 1005 * WAD / 10, 7280532733623221331861386138);
    LateIndices(s.reserve);
    NoTimeNoAccrual(s.reserve);
  }

  lemma ClaimsOfOne(user: string, scaled: int, index: int)
    ensures Claims(map[user := scaled], index) == RayMul(scaled, index)
  {
    hide RayMul;
    NoClaims(index);
    OneMoreClaim(map[user := scaled], user, index);
    assert map[user := scaled] - {user} == map[];
  }

  lemma LateAmounts()
    ensures RayMul(100 * WAD, YEAR_AT_RAY) == DEBT && RayDiv(DEBT, 101 * WAD) == UTILIZATION && RayDiv(WAD, 2 * RAY) == WAD / 2
    ensures RayMul(1005 * WAD / 10, 2 * RAY) == 201 * WAD
    ensures RayMul(1005 * WAD / 10, 7280532733623221331861386138) == 731693539729133743852
    ensures RayMul(YEAR_AT_RAY, YEAR_AT_RAY) == 7111123718119685954879973547
    ensures RayMul(100 * WAD, 7111123718119685954879973547) == 711112371811968595488
  {
  }

  /** Where both indices stand after one more year. */
  lemma LateIndices(r: ReserveData)
    requires r.totalVariableDebt == DEBT && r.utilizationRate == UTILIZATION == r.liquidityRate && r.variableBorrowRate == RAY
    requires r.liquidityIndex == 2 * RAY && r.variableBorrowIndex == YEAR_AT_RAY && r.lastUpdateTimestamp == ONE_YEAR
    ensures LiquidityIndex(r, 2 * ONE_YEAR) == 7280532733623221331861386138
    ensures VariableBorrowIndex(r, 2 * ONE_YEAR) == RayMul(YEAR_AT_RAY, YEAR_AT_RAY)
  {
    hide CompoundedInterest, RayMul, LinearInterest;
    YearAtRay();
    SameYear(RAY);
    YearlyInterest();
  }

  lemma YearlyInterest()
    ensures LinearInterest(UTILIZATION, 2 * ONE_YEAR, ONE_YEAR) == UTILIZATION + RAY
    ensures RayMul(UTILIZATION + RAY, 2 * RAY) == 7280532733623221331861386138
  {
  }

  lemma SameYear(rate: int)
    ensures CompoundedInterest(rate, 2 * ONE_YEAR, ONE_YEAR) == CompoundedInterest(rate, ONE_YEAR, 0)
  {
  }

  // ----- A record that cannot be read back -----

  const UNREADABLE: seq<Move> := LentOut(1) + [Act(LateDeposit(6 * RAY - 1))]

  /** After 1 was lent out for a year and 6 * 10^27 - 1 deposited, the pool satisfies the whole invariant, yet
      reading its record back rounds the utilization to zero while its depositors are paid, and from
      then on the two income paths part. */
  lemma ReadBackUnsound(p: ReserveParams)
    requires Flat(p)
    ensures Feasible(p, UNUSED, UNREADABLE) && InvariantThroughout(p, UNUSED, UNREADABLE)
    ensures var run := UNREADABLE + [ReadBack(ONE_YEAR)];
      && Feasible(p, UNUSED, run) && !CoveredThroughout(p, UNUSED, run) && !HealthyThroughout(p, UNUSED, run)
      && var r := After(p, UNUSED, run).reserve;
      LiquidityIndex(r, 2 * ONE_YEAR) < NormalizedIncome(r, 2 * ONE_YEAR)
  {
    hide Invariant, Feasible, After, InvariantThroughout, CoveredThroughout, HealthyThroughout, RayMul, RayDiv, Readable, Sound,
      LiquidityIndex, NormalizedIncome, CanObserve, Observe, Late, Conserved, Healthy;
    SmallAmounts();
    LateDepositRun(p, 1, 6 * RAY - 1, 3, 1);
    var s := Late(1, 6 * RAY - 1, 3, 1);
    RoundsToZero(s);
    SoundOfInvariant(p, s);
    RereadHealthyIff(p, s, ONE_YEAR);
    RunExtends(p, UNUSED, UNREADABLE, ReadBack(ONE_YEAR));
    FreshInvariant(p, "reserve", "WETH", 0, 0);
    SoundOfInvariant(p, UNUSED);
    RunHealthyIff(p, UNUSED, UNREADABLE + [ReadBack(ONE_YEAR)]);
  }

  lemma SoundOfInvariant(p: ReserveParams, s: Pool)
    requires Invariant(p, s)
    ensures Healthy(p, s) && Sound(s.reserve)
  {
  }

  lemma SmallAmounts()
    ensures RayMul(1, YEAR_AT_RAY) == 3 && RayDiv(3, 6 * RAY) == 1 && RayDiv(3, 6 * RAY + 2) == 0
  {
  }

  lemma RoundsToZero(s: Pool)
    requires s == Late(1, 6 * RAY - 1, 3, 1)
    ensures CanObserve(s.reserve, ONE_YEAR) && !Readable(s.reserve, ONE_YEAR) && s.clock == ONE_YEAR
    ensures var r := Observe(s.reserve, ONE_YEAR);
      LiquidityIndex(r, 2 * ONE_YEAR) < NormalizedIncome(r, 2 * ONE_YEAR)
  {
    hide RayMul, RayDiv, CompoundedInterest;
    SmallAmounts();
    NoTimeNoAccrual(s.reserve);
    assert LinearInterest(1, 2 * ONE_YEAR, ONE_YEAR) == RAY + 1;
    OneMoreRay();
  }

  lemma OneMoreRay()
    ensures RayMul(RAY + 1, 2 * RAY) == 2 * RAY + 2
  {
  }
}
