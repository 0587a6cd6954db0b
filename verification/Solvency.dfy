/** What all depositors together can claim, against what the reserve holds and is owed. */
module Solvency {
  import opened FixedPoint
  import opened Interest
  import opened Rates
  import opened Reserve
  import opened Accrual

  // ----- Sums over depositors -----

  ghost function Pick(m: map<string, int>): (user: string)
    requires m != map[]
    ensures user in m
  {
    var user :| user in m; user
  }

  ghost function Sum(m: map<string, int>): int
    decreases |m|
  {
    if m == map[] then 0 else m[Pick(m)] + Sum(m - {Pick(m)})
  }

  /** Any user may be counted first. */
  lemma {:induction false} SumWithout(m: map<string, int>, user: string)
    requires user in m
    ensures Sum(m) == m[user] + Sum(m - {user})
    decreases |m|
  {
    var first := Pick(m);
    if user == first {
    } else {
      SumWithout(m - {first}, user);
      SumWithout(m - {user}, first);
      assert m - {first} - {user} == m - {user} - {first};
    }
  }

  lemma SumUpdate(m: map<string, int>, user: string, amount: int)
    ensures Sum(m[user := amount]) == Sum(m) - (if user in m then m[user] else 0) + amount
  {
    var m' := m[user := amount];
    SumWithout(m', user);
    assert m' - {user} == m - {user};
    if user in m {
      SumWithout(m, user);
    } else {
      assert m - {user} == m;
    }
  }

  /** The balance of every depositor at the given index. */
  function Balances(deposits: map<string, int>, index: int): map<string, int> {
    map user | user in deposits :: RayMul(deposits[user], index)
  }

  ghost function Claims(deposits: map<string, int>, index: int): int { Sum(Balances(deposits, index)) }

  lemma ClaimsUpdate(deposits: map<string, int>, user: string, scaled: int, index: int)
    requires index >= 0
    ensures Claims(deposits[user := scaled], index)
         == Claims(deposits, index) - RayMul(if user in deposits then deposits[user] else 0, index) + RayMul(scaled, index)
  {
    hide Sum;
    SumUpdate(Balances(deposits, index), user, RayMul(scaled, index));
    assert Balances(deposits[user := scaled], index) == Balances(deposits, index)[user := RayMul(scaled, index)];
    MulUnits(index, RAY);
  }

  // ----- Claims over a period -----

  /** When an index grows by a factor, every balance does, up to the rounding of index and balances. */
  lemma BalanceGrows(scaled: int, index: int, factor: int)
    requires scaled >= 0 && index >= 0 && factor >= 0
    ensures var before, after := RayMul(scaled, index), RayMul(scaled, RayMul(factor, index));
      factor * (2 * before - 1) - scaled - RAY <= 2 * RAY * after <= factor * (2 * before + 1) + scaled + RAY
  {
    hide RayMul;
    RoundedTwice(factor, index);
    RoundedTwice(scaled, index);
    RoundedTwice(scaled, RayMul(factor, index));
    GrowthAlgebra(scaled, index, factor, RayMul(scaled, index), RayMul(factor, index), RayMul(scaled, RayMul(factor, index)));
  }

  lemma RoundedTwice(a: int, b: int)
    requires a >= 0 && b >= 0
    ensures RayMul(a, b) >= 0 && 2 * (a * b) - RAY <= 2 * (RAY * RayMul(a, b)) <= 2 * (a * b) + RAY
  {
    ProductNonNegative(a, b);
    MulOrdered(0, a, 0, b, RAY);
    MulIsNearest(a, b, RAY, RayMul(a, b));
  }

  lemma GrowthAlgebra(x: int, i: int, f: int, b: int, i': int, b': int)
    requires x >= 0 && f >= 0
    requires 2 * (x * i) - RAY <= 2 * (RAY * b) <= 2 * (x * i) + RAY
    requires 2 * (f * i) - RAY <= 2 * (RAY * i') <= 2 * (f * i) + RAY
    requires 2 * (x * i') - RAY <= 2 * (RAY * b') <= 2 * (x * i') + RAY
    ensures f * (2 * b - 1) - x - RAY <= 2 * RAY * b' <= f * (2 * b + 1) + x + RAY
  {
    ScaleBounds(f, x * i, b);
    ScaleBounds(x, f * i, i');
    SwapFactors(f, x, i);
    Gather(f, b);
    CancelUnit(f, x, f * b, f * (x * i), x * i', b');
  }

  lemma SwapFactors(f: int, x: int, i: int)
    ensures f * (x * i) == x * (f * i)
  {
  }

  lemma ScaleBounds(f: int, x: int, b: int)
    requires f >= 0 && 2 * x - RAY <= 2 * (RAY * b) <= 2 * x + RAY
    ensures 2 * (f * x) - f * RAY <= 2 * (RAY * (f * b)) <= 2 * (f * x) + f * RAY
  {
    MulMonotone(f, 2 * x - RAY, 2 * (RAY * b));
    MulMonotone(f, 2 * (RAY * b), 2 * x + RAY);
    Distribute(f, 2 * x, RAY);
    Distribute(f, 2 * x, -RAY);
  }

  lemma Gather(f: int, b: int)
    ensures f * (2 * b - 1) == 2 * (f * b) - f && f * (2 * b + 1) == 2 * (f * b) + f
  {
    Distribute(f, 2 * b, 1);
    Distribute(f, 2 * b, -1);
  }

  lemma CancelUnit(f: int, x: int, fb: int, fxi: int, xi': int, b': int)
    requires 2 * fxi - f * RAY <= 2 * (RAY * fb) <= 2 * fxi + f * RAY
    requires 2 * fxi - x * RAY <= 2 * (RAY * xi') <= 2 * fxi + x * RAY
    requires 2 * xi' - RAY <= 2 * (RAY * b') <= 2 * xi' + RAY
    ensures 2 * fb - f - x - RAY <= 2 * RAY * b' <= 2 * fb + f + x + RAY
  {
  }

  predicate AllNonNegative(deposits: map<string, int>) { forall user :: user in deposits ==> deposits[user] >= 0 }

  /** All claims together grow by the factor, up to the rounding of index and balances. */
  lemma {:induction false} ClaimsGrow(deposits: map<string, int>, index: int, factor: int)
    requires AllNonNegative(deposits) && index >= 0 && factor >= 0
    ensures var before, after, k := Claims(deposits, index), Claims(deposits, RayMul(factor, index)), |deposits|;
      factor * (2 * before - k) - Sum(deposits) - k * RAY <= 2 * RAY * after <= factor * (2 * before + k) + Sum(deposits) + k * RAY
    decreases |deposits|
  {
    hide RayMul, Claims, Sum;
    if deposits == map[] {
      NoClaims(index);
      NoClaims(RayMul(factor, index));
    } else {
      var user := Pick(deposits);
      var rest := deposits - {user};
      ClaimsGrow(rest, index, factor);
      BalanceGrows(deposits[user], index, factor);
      OneMoreClaim(deposits, user, index);
      OneMoreClaim(deposits, user, RayMul(factor, index));
      AddGrowth(factor, RayMul(deposits[user], index), Claims(rest, index), |rest|);
    }
  }

  lemma NoClaims(index: int)
    ensures Claims(map[], index) == 0 && Sum(map[]) == 0
  {
    assert Balances(map[], index) == map[];
  }

  lemma OneMoreClaim(deposits: map<string, int>, user: string, index: int)
    requires user in deposits
    ensures var rest := deposits - {user};
      && Claims(deposits, index) == RayMul(deposits[user], index) + Claims(rest, index)
      && Sum(deposits) == deposits[user] + Sum(rest) && |deposits| == |rest| + 1
  {
    SumWithout(Balances(deposits, index), user);
    assert Balances(deposits, index) - {user} == Balances(deposits - {user}, index);
    SumWithout(deposits, user);
    assert deposits.Keys == (deposits - {user}).Keys + {user};
  }

  lemma AddGrowth(f: int, b: int, c: int, k: int)
    ensures f * (2 * b - 1) + f * (2 * c - k) == f * (2 * (b + c) - (k + 1))
    ensures f * (2 * b + 1) + f * (2 * c + k) == f * (2 * (b + c) + (k + 1))
  {
    Distribute(f, 2 * b - 1, 2 * c - k);
    Distribute(f, 2 * b + 1, 2 * c + k);
  }

  // ----- Claims against the recorded total -----

  /** The stored rates are those of the recorded debt and total; without debt there is no borrow rate
      that matters. */
  predicate Earns(p: ReserveParams, r: ReserveData) {
    && p.HasKink() && HasUtilization(r.totalVariableDebt, r.totalLiquidity)
    && var u := UtilizationRate(r.totalVariableDebt, r.totalLiquidity);
    && r.liquidityRate == LiquidityRate(p, u, r.totalVariableDebt)
    && (r.totalVariableDebt != 0 ==> r.variableBorrowRate == VariableBorrowRate(p, u))
  }

  function Linear(r: ReserveData, t: int): int { LinearInterest(r.liquidityRate, t, r.lastUpdateTimestamp) }

  function Compounded(r: ReserveData, t: int): int { CompoundedInterest(r.variableBorrowRate, t, r.lastUpdateTimestamp) }

  /** The rounding of an index that grew by `factor` and of `k` amounts scaled by it. */
  function RoundingSlack(k: int, scaled: int, factor: int): int { k * (factor + RAY) + scaled }

  lemma IndexIsIncome(r: ReserveData, t: int)
    requires Sound(r) && t >= r.lastUpdateTimestamp
    ensures Linear(r, t) >= RAY && LiquidityIndex(r, t) == RayMul(Linear(r, t), r.liquidityIndex)
  {
    hide RayMul, LinearInterest;
    LinearOrdered(r.liquidityRate, t - r.lastUpdateTimestamp, t - r.lastUpdateTimestamp, r.lastUpdateTimestamp, r.lastUpdateTimestamp);
    CompoundedAtRateZero(r, t);
  }

  /** So the claims at a later index are the sum of what everybody's balance is at that time. */
  lemma ClaimsAreBalances(r: ReserveData, deposits: map<string, int>, t: int)
    requires Sound(r) && t >= r.lastUpdateTimestamp
    ensures Claims(deposits, LiquidityIndex(r, t)) == Sum(map user | user in deposits :: CTokenBalance(r, deposits[user], t))
  {
    hide RayMul, LiquidityIndex, NormalizedIncome, Sum;
    AccrualsAgree(r, t);
    assert Balances(deposits, LiquidityIndex(r, t)) == map user | user in deposits :: CTokenBalance(r, deposits[user], t);
  }

  lemma TotalEarns(p: ReserveParams, r: ReserveData, n: nat)
    requires p.Valid() && Sound(r) && Earns(p, r)
    ensures var t, debt, total := r.lastUpdateTimestamp + n, r.totalVariableDebt, r.totalLiquidity;
      2 * RAY * ONE_YEAR * (total * (Linear(r, t) - RAY))
        <= 2 * RAY * ONE_YEAR * (debt * (Compounded(r, t) - RAY)) + EarningSlack(debt, total, r.variableBorrowRate, n)
  {
    hide LinearInterest, CompoundedInterest, VariableBorrowRate, RayMul, RayDiv, PercentMul, EarningSlack;
    if r.totalVariableDebt == 0 {
      NoLiquidityRate(p);
      NothingEarned(r.totalLiquidity, r.variableBorrowRate, n, r.lastUpdateTimestamp);
    } else {
      TotalNeverOutearnsDebt(p, r.totalVariableDebt, r.totalLiquidity, n, r.lastUpdateTimestamp);
    }
  }

  lemma NoLiquidityRate(p: ReserveParams)
    requires p.Valid()
    ensures LiquidityRate(p, 0, 0) == 0
  {
    hide RayMul, RayDiv, PercentMul, VariableBorrowRate;
    RatesNonNegative(p, 0, 0);
  }

  /** All claims after a period are at most the recorded total and the borrowers' interest on the recorded
      debt, up to the rounding, and up to what the claims exceeded the recorded total by at its start. */
  lemma ClaimsOverPeriod(p: ReserveParams, r: ReserveData, deposits: map<string, int>, n: nat)
    requires p.Valid() && Sound(r) && Earns(p, r) && AllNonNegative(deposits)
    ensures var t, debt, total := r.lastUpdateTimestamp + n, r.totalVariableDebt, r.totalLiquidity;
      2 * RAY * RAY * ONE_YEAR * (Claims(deposits, LiquidityIndex(r, t)) - total)
        <= 2 * RAY * ONE_YEAR * (Linear(r, t) * (Claims(deposits, r.liquidityIndex) - total))
           + 2 * RAY * ONE_YEAR * (debt * (Compounded(r, t) - RAY)) + EarningSlack(debt, total, r.variableBorrowRate, n)
           + RAY * ONE_YEAR * RoundingSlack(|deposits|, Sum(deposits), Linear(r, t))
  {
    hide Claims, Sum, Linear, Compounded, RayMul, Earns, EarningSlack, LiquidityIndex;
    var t, total := r.lastUpdateTimestamp + n, r.totalLiquidity;
    var lin, before := Linear(r, t), Claims(deposits, r.liquidityIndex);
    IndexIsIncome(r, t);
    TotalEarns(p, r, n);
    ClaimsGrow(deposits, r.liquidityIndex, lin);
    Distribute(lin, 2 * before, |deposits|);
    Distribute(lin, before, -total);
    Distribute(total, lin, -RAY);
    Distribute(|deposits|, lin, RAY);
  }

  // ----- Claims against what the reserve holds and is owed -----

  /** What the reserve holds, and what borrowers owe it at time `t`. */
  function Assets(r: ReserveData, t: int): int { r.availableLiquidity + DebtAt(r, t, 0) }

  /** What all depositors can claim at time `t` beyond what the reserve holds and is owed. */
  ghost function Excess(r: ReserveData, deposits: map<string, int>, t: int): int {
    Claims(deposits, LiquidityIndex(r, t)) - Assets(r, t)
  }

  function DebtAtUpdate(r: ReserveData): int { RayMul(r.scaledVariableDebt, r.variableBorrowIndex) }

  function TotalAtUpdate(r: ReserveData): int { r.availableLiquidity + DebtAtUpdate(r) }

  /** The record that the stored rates were set from: the debt of the last update, and a total that was
      `short` of the liquidity and the debt of then. */
  function PricedRecord(r: ReserveData, short: int): ReserveData
    requires HasUtilization(DebtAtUpdate(r), TotalAtUpdate(r) - short)
  {
    r.(totalVariableDebt := DebtAtUpdate(r), totalLiquidity := TotalAtUpdate(r) - short,
       utilizationRate := UtilizationRate(DebtAtUpdate(r), TotalAtUpdate(r) - short))
  }

  predicate PricedShort(p: ReserveParams, r: ReserveData, short: int) {
    && TotalAtUpdate(r) - short >= 0 && (DebtAtUpdate(r) != 0 ==> TotalAtUpdate(r) - short > 0)
    && Earns(p, PricedRecord(r, short))
  }

  /** What the rounding of a period can cost, and the interest on what the total was short of. */
  ghost function PeriodCost(r: ReserveData, short: int, deposits: map<string, int>, t: int): int {
    EarningSlack(DebtAtUpdate(r), TotalAtUpdate(r) - short, r.variableBorrowRate, t - r.lastUpdateTimestamp)
    + RAY * ONE_YEAR * (RoundingSlack(|deposits|, Sum(deposits), Linear(r, t)) + RoundingSlack(1, r.scaledVariableDebt, Compounded(r, t)))
    + 2 * RAY * ONE_YEAR * (short * (Linear(r, t) - RAY))
  }

  lemma PricedRecordSound(p: ReserveParams, r: ReserveData, short: int)
    requires p.Valid() && Sound(r) && PricedShort(p, r, short)
    ensures Sound(PricedRecord(r, short))
  {
    hide RayMul, RayDiv, LiquidityRate, VariableBorrowRate;
    DebtAtLeastScaled(r.scaledVariableDebt, r.variableBorrowIndex);
    UtilizationAtMostOne(DebtAtUpdate(r), TotalAtUpdate(r) - short);
    RatesNonNegative(p, PricedRecord(r, short).utilizationRate, DebtAtUpdate(r));
  }

  /** The debt at a later time is the scaled debt at the index grown by the compounded factor. */
  lemma DebtIsCompounded(r: ReserveData, t: int)
    requires Sound(r) && t >= r.lastUpdateTimestamp
    ensures Compounded(r, t) >= RAY
    ensures DebtAt(r, t, 0) == RayMul(r.scaledVariableDebt, RayMul(Compounded(r, t), r.variableBorrowIndex))
  {
    hide RayMul, CompoundedInterest;
    var n, last := t - r.lastUpdateTimestamp, r.lastUpdateTimestamp;
    CompoundedOrdered(r.variableBorrowRate, r.variableBorrowRate, n, n, last, last);
    if r.totalVariableDebt == 0 {
      RoundedTwice(Compounded(r, t), r.variableBorrowIndex);
      NothingOwed(r.variableBorrowIndex);
      NothingOwed(RayMul(Compounded(r, t), r.variableBorrowIndex));
    }
  }

  lemma NothingOwed(index: int)
    requires index >= 0
    ensures RayMul(0, index) == 0
  {
    MulUnits(index, RAY);
  }

  /** What all can claim beyond what the reserve holds and is owed grows over a period by no more than the
      linear factor, the rounding, and the interest on what the total was short of when the rates were
      set. A pool that could pay its depositors then, with a total that was not short, still can. */
  lemma SolvencyOverPeriod(p: ReserveParams, r: ReserveData, short: int, deposits: map<string, int>, n: nat)
    requires p.Valid() && Sound(r) && PricedShort(p, r, short) && AllNonNegative(deposits)
    ensures var last := r.lastUpdateTimestamp;
      2 * RAY * RAY * ONE_YEAR * Excess(r, deposits, last + n)
        <= 2 * RAY * ONE_YEAR * (Linear(r, last + n) * Excess(r, deposits, last)) + PeriodCost(r, short, deposits, last + n)
    ensures Linear(r, r.lastUpdateTimestamp + n) >= RAY
  {
    hide Claims, Sum, Linear, Compounded, RayMul, Earns, EarningSlack, LiquidityIndex, DebtAt, LiquidityRate, VariableBorrowRate,
      UtilizationRate, Sound;
    var last, t, b := r.lastUpdateTimestamp, r.lastUpdateTimestamp + n, PricedRecord(r, short);
    var debt, lin, comp := DebtAtUpdate(r), Linear(r, t), Compounded(r, t);
    PricedRecordSound(p, r, short);
    ClaimsOverPeriod(p, b, deposits, n);
    SameAccrual(p, r, short, t);
    AtLastUpdate(r);
    IndexIsIncome(r, t);
    DebtIsCompounded(r, t);
    BalanceGrows(r.scaledVariableDebt, r.variableBorrowIndex, comp);
    Distribute(comp, 2 * debt, -1);
    Distribute(debt, comp, -RAY);
    Distribute(lin, Claims(deposits, r.liquidityIndex) - TotalAtUpdate(r), short);
    Distribute(short, lin, -RAY);
    MinusDebt(Claims(deposits, LiquidityIndex(r, t)), TotalAtUpdate(r), DebtAt(r, t, 0), debt, debt * (comp - RAY),
              r.availableLiquidity, comp + r.scaledVariableDebt + RAY);
  }

  lemma SameAccrual(p: ReserveParams, r: ReserveData, short: int, t: int)
    requires p.Valid() && Sound(r) && PricedShort(p, r, short) && t >= r.lastUpdateTimestamp
    ensures LiquidityIndex(PricedRecord(r, short), t) == LiquidityIndex(r, t)
    ensures Linear(PricedRecord(r, short), t) == Linear(r, t) && Compounded(PricedRecord(r, short), t) == Compounded(r, t)
  {
    hide RayMul, RayDiv, LiquidityRate, VariableBorrowRate;
    PricedRecordSound(p, r, short);
    IndexIsIncome(r, t);
    IndexIsIncome(PricedRecord(r, short), t);
  }

  lemma AtLastUpdate(r: ReserveData)
    requires Sound(r)
    ensures LiquidityIndex(r, r.lastUpdateTimestamp) == r.liquidityIndex
    ensures DebtAt(r, r.lastUpdateTimestamp, 0) == RayMul(r.scaledVariableDebt, r.variableBorrowIndex)
    ensures r.scaledVariableDebt >= 0 && r.variableBorrowIndex >= RAY
  {
    hide RayMul;
    NoTimeNoAccrual(r);
  }

  lemma MinusDebt(claims: int, total: int, debt': int, debt: int, paid: int, available: int, slack: int)
    requires total == available + debt && 2 * paid - slack <= 2 * RAY * (debt' - debt)
    ensures 2 * RAY * RAY * ONE_YEAR * (claims - (available + debt'))
         <= 2 * RAY * RAY * ONE_YEAR * (claims - total) - 2 * RAY * ONE_YEAR * paid + RAY * ONE_YEAR * slack
  {
  }
}
