/** The reserve record and its transitions (`test/helpers/utils/calculations.ts`). */
module Reserve {
  import opened FixedPoint
  import opened Interest
  import opened Rates

  datatype ReserveData = ReserveData(
    address: string,
    symbol: string,
    totalLiquidity: int,
    availableLiquidity: int,
    totalVariableDebt: int,
    scaledVariableDebt: int,
    liquidityRate: int,
    variableBorrowRate: int,
    utilizationRate: int,
    liquidityIndex: int,
    variableBorrowIndex: int,
    lastUpdateTimestamp: int)

  // ----- The two accrual paths -----

  function LiquidityIndex(r: ReserveData, t: int): int {
    if r.utilizationRate == 0 then r.liquidityIndex
    else RayMul(LinearInterest(r.liquidityRate, t, r.lastUpdateTimestamp), r.liquidityIndex)
  }

  function VariableBorrowIndex(r: ReserveData, t: int): int {
    if r.totalVariableDebt == 0 then r.variableBorrowIndex
    else RayMul(CompoundedInterest(r.variableBorrowRate, t, r.lastUpdateTimestamp), r.variableBorrowIndex)
  }

  function NormalizedIncome(r: ReserveData, t: int): int {
    if r.liquidityRate == 0 then r.liquidityIndex
    else RayMul(LinearInterest(r.liquidityRate, t, r.lastUpdateTimestamp), r.liquidityIndex)
  }

  function NormalizedDebt(r: ReserveData, t: int): int {
    if r.variableBorrowRate == 0 then r.variableBorrowIndex
    else RayMul(CompoundedInterest(r.variableBorrowRate, t, r.lastUpdateTimestamp), r.variableBorrowIndex)
  }

  // ----- What a transition does -----

  /** The reserve after accruing both indices to `t`, with the given scaled debt and liquidity
      and the rates that follow from them. */
  function Reprice(p: ReserveParams, r: ReserveData, t: int, scaled: int, available: int, total: int): ReserveData
    requires p.HasKink()
    requires HasUtilization(RayMul(scaled, VariableBorrowIndex(r, t)), total)
  {
    var debt := RayMul(scaled, VariableBorrowIndex(r, t));
    var u := UtilizationRate(debt, total);
    ReserveData(r.address, r.symbol, total, available, debt, scaled,
                LiquidityRate(p, u, debt), VariableBorrowRate(p, u), u,
                LiquidityIndex(r, t), VariableBorrowIndex(r, t), t)
  }

  /** The total debt once `dScaled` has been added to the scaled debt at time `t`. */
  function DebtAt(r: ReserveData, t: int, dScaled: int): int {
    RayMul(r.scaledVariableDebt + dScaled, VariableBorrowIndex(r, t))
  }

  predicate CanSettle(r: ReserveData, t: int, dScaled: int, dAvailable: int) {
    HasUtilization(DebtAt(r, t, dScaled), r.availableLiquidity + dAvailable + DebtAt(r, t, dScaled))
  }

  /** Moves `dScaled` of scaled debt and `dAvailable` of liquidity at time `t`. */
  function Settle(p: ReserveParams, r: ReserveData, t: int, dScaled: int, dAvailable: int): ReserveData
    requires p.HasKink() && CanSettle(r, t, dScaled, dAvailable)
  {
    Reprice(p, r, t, r.scaledVariableDebt + dScaled, r.availableLiquidity + dAvailable,
            r.availableLiquidity + dAvailable + DebtAt(r, t, dScaled))
  }

  predicate CanObserve(r: ReserveData, now: int) {
    var debt := RayMul(r.scaledVariableDebt, NormalizedDebt(r, now));
    HasUtilization(debt, r.availableLiquidity + debt)
  }

  /** The same reserve read at a later time `now`: the debt has grown, nothing has been stored. */
  function Observe(r: ReserveData, now: int): ReserveData
    requires CanObserve(r, now)
  {
    var debt := RayMul(r.scaledVariableDebt, NormalizedDebt(r, now));
    r.(totalVariableDebt := debt,
       totalLiquidity := r.availableLiquidity + debt,
       utilizationRate := UtilizationRate(debt, r.availableLiquidity + debt))
  }

  // ----- Sentinel amounts -----

  function Abs(x: int): int { if x >= 0 then x else -x }

  /** Repayments read the maximum as "everything" whatever its sign, withdrawals only as is. */
  predicate RepaysAll(amount: int) { Abs(amount) == MAX_UINT_AMOUNT }

  function RepaidAmount(amount: int, debt: int): int {
    if RepaysAll(amount) then debt else amount
  }

  function WithdrawnAmount(amount: int, balance: int): int {
    if amount == MAX_UINT_AMOUNT then balance else amount
  }

  /** The sentinel is the largest number of 256 bits. A repayment takes either sign of it for the whole debt,
      a withdrawal the positive one only for the whole balance; no other amount is replaced. */
  lemma SentinelsResolve(amount: int, owned: int)
    ensures var b64 := 0x1_0000_0000_0000_0000;
      MAX_UINT_AMOUNT + 1 == b64 * b64 * b64 * b64
    ensures RepaidAmount(amount, owned) == if amount in {MAX_UINT_AMOUNT, -MAX_UINT_AMOUNT} then owned else amount
    ensures WithdrawnAmount(amount, owned) == if amount in {MAX_UINT_AMOUNT} then owned else amount
  {
  }

  function CTokenBalance(r: ReserveData, scaledCTokenBalance: int, t: int): int {
    RayMul(scaledCTokenBalance, NormalizedIncome(r, t))
  }

  function DebtBalance(r: ReserveData, scaledDebt: int, t: int): int {
    RayMul(scaledDebt, NormalizedDebt(r, t))
  }

  // ----- The coded transitions, each proved to be a settlement -----

  /** Deposit keeps the old debt in `totalLiquidity`: it adds the amount to the total instead of
      recomputing it. */
  function Deposited(p: ReserveParams, r: ReserveData, t: int, amount: int): ReserveData
    requires p.HasKink() && HasUtilization(DebtAt(r, t, 0), r.totalLiquidity + amount)
  {
    Reprice(p, r, t, r.scaledVariableDebt, r.availableLiquidity + amount, r.totalLiquidity + amount)
  }

  method ReserveAfterDeposit(p: ReserveParams, amountDeposited: int, before: ReserveData, txTimestamp: int)
    returns (expected: ReserveData)
    requires p.HasKink() && HasUtilization(DebtAt(before, txTimestamp, 0), before.totalLiquidity + amountDeposited)
    ensures expected == Deposited(p, before, txTimestamp, amountDeposited)
  {
    expected := before;
    expected := expected.(totalLiquidity := before.totalLiquidity + amountDeposited);
    expected := expected.(availableLiquidity := before.availableLiquidity + amountDeposited);
    expected := expected.(liquidityIndex := LiquidityIndex(before, txTimestamp));
    expected := expected.(variableBorrowIndex := VariableBorrowIndex(before, txTimestamp));
    expected := expected.(totalVariableDebt := RayMul(before.scaledVariableDebt, expected.variableBorrowIndex));
    expected := expected.(scaledVariableDebt := before.scaledVariableDebt);
    expected := expected.(utilizationRate := UtilizationRate(expected.totalVariableDebt, expected.totalLiquidity));
    expected := SetRates(p, expected);
    expected := expected.(lastUpdateTimestamp := txTimestamp);
  }

  function SetRates(p: ReserveParams, r: ReserveData): ReserveData
    requires p.HasKink()
  {
    r.(liquidityRate := LiquidityRate(p, r.utilizationRate, r.totalVariableDebt),
       variableBorrowRate := VariableBorrowRate(p, r.utilizationRate))
  }

  method ReserveAfterWithdraw(p: ReserveParams, amountWithdrawn: int, before: ReserveData,
                              scaledCTokenBalance: int, txTimestamp: int)
    returns (expected: ReserveData)
    requires p.HasKink()
    requires CanSettle(before, txTimestamp, 0, -WithdrawnAmount(amountWithdrawn, CTokenBalance(before, scaledCTokenBalance, txTimestamp)))
    ensures expected == Settle(p, before, txTimestamp, 0,
                               -WithdrawnAmount(amountWithdrawn, CTokenBalance(before, scaledCTokenBalance, txTimestamp)))
  {
    var amount := amountWithdrawn;
    expected := before;
    if amount == MAX_UINT_AMOUNT {
      amount := CTokenBalance(before, scaledCTokenBalance, txTimestamp);
    }
    expected := expected.(availableLiquidity := before.availableLiquidity - amount);
    expected := expected.(scaledVariableDebt := before.scaledVariableDebt);
    expected := expected.(liquidityIndex := LiquidityIndex(before, txTimestamp));
    expected := expected.(variableBorrowIndex := VariableBorrowIndex(before, txTimestamp));
    expected := expected.(totalVariableDebt := RayMul(expected.scaledVariableDebt, expected.variableBorrowIndex));
    expected := expected.(totalLiquidity := before.availableLiquidity - amount + expected.totalVariableDebt);
    expected := expected.(utilizationRate := UtilizationRate(expected.totalVariableDebt, expected.totalLiquidity));
    expected := SetRates(p, expected);
    expected := expected.(lastUpdateTimestamp := txTimestamp);
  }

  predicate CanBorrow(p: ReserveParams, r: ReserveData, amount: int, tx: int, now: int)
    requires p.HasKink()
  {
    && VariableBorrowIndex(r, tx) != 0
    && var dScaled := RayDiv(amount, VariableBorrowIndex(r, tx));
    && CanSettle(r, tx, dScaled, -amount)
    && CanObserve(Settle(p, r, tx, dScaled, -amount), now)
  }

  /** A borrow settles at the transaction and is read back at the later current time. */
  function Borrowed(p: ReserveParams, r: ReserveData, amount: int, tx: int, now: int): ReserveData
    requires p.HasKink() && CanBorrow(p, r, amount, tx, now)
  {
    Observe(Settle(p, r, tx, RayDiv(amount, VariableBorrowIndex(r, tx)), -amount), now)
  }

  method ReserveAfterBorrow(p: ReserveParams, amountBorrowed: int, before: ReserveData, txTimestamp: int, currentTimestamp: int)
    returns (expected: ReserveData)
    requires p.HasKink() && CanBorrow(p, before, amountBorrowed, txTimestamp, currentTimestamp)
    ensures expected == Borrowed(p, before, amountBorrowed, txTimestamp, currentTimestamp)
  {
    hide MulHalfUp, DivHalfUp, LiquidityRate, VariableBorrowRate, LiquidityIndex, VariableBorrowIndex;
    expected := before;
    expected := expected.(liquidityIndex := LiquidityIndex(before, txTimestamp));
    expected := expected.(variableBorrowIndex := VariableBorrowIndex(before, txTimestamp));
    expected := expected.(availableLiquidity := before.availableLiquidity - amountBorrowed);
    expected := expected.(lastUpdateTimestamp := txTimestamp);
    expected := expected.(scaledVariableDebt :=
      before.scaledVariableDebt + RayDiv(amountBorrowed, expected.variableBorrowIndex));
    var debtAfterTx := RayMul(expected.scaledVariableDebt, expected.variableBorrowIndex);
    var utilizationAfterTx := UtilizationRate(debtAfterTx, expected.availableLiquidity + debtAfterTx);
    expected := expected.(liquidityRate := LiquidityRate(p, utilizationAfterTx, debtAfterTx));
    expected := expected.(variableBorrowRate := VariableBorrowRate(p, utilizationAfterTx));
    expected := expected.(totalVariableDebt := RayMul(expected.scaledVariableDebt, NormalizedDebt(expected, currentTimestamp)));
    expected := expected.(totalLiquidity := expected.availableLiquidity + expected.totalVariableDebt);
    expected := expected.(utilizationRate := UtilizationRate(expected.totalVariableDebt, expected.totalLiquidity));
  }

  predicate CanRepay(r: ReserveData, amount: int, tx: int) {
    && VariableBorrowIndex(r, tx) != 0
    && CanSettle(r, tx, -RayDiv(amount, VariableBorrowIndex(r, tx)), amount)
  }

  function Settled(p: ReserveParams, r: ReserveData, amount: int, tx: int): ReserveData
    requires p.HasKink() && CanRepay(r, amount, tx)
  {
    Settle(p, r, tx, -RayDiv(amount, VariableBorrowIndex(r, tx)), amount)
  }

  method ReserveAfterRepay(p: ReserveParams, amountRepaid: int, before: ReserveData, scaledUserDebt: int, txTimestamp: int)
    returns (expected: ReserveData)
    requires p.HasKink()
    requires CanRepay(before, RepaidAmount(amountRepaid, DebtBalance(before, scaledUserDebt, txTimestamp)), txTimestamp)
    ensures expected == Settled(p, before, RepaidAmount(amountRepaid, DebtBalance(before, scaledUserDebt, txTimestamp)), txTimestamp)
  {
    expected := before;
    var amount := amountRepaid;
    var userVariableDebt := DebtBalance(before, scaledUserDebt, txTimestamp);
    if Abs(amount) == MAX_UINT_AMOUNT {
      amount := userVariableDebt;
    }
    expected := expected.(liquidityIndex := LiquidityIndex(before, txTimestamp));
    expected := expected.(variableBorrowIndex := VariableBorrowIndex(before, txTimestamp));
    expected := expected.(scaledVariableDebt := before.scaledVariableDebt - RayDiv(amount, expected.variableBorrowIndex));
    expected := expected.(totalVariableDebt := RayMul(expected.scaledVariableDebt, expected.variableBorrowIndex));
    expected := expected.(availableLiquidity := before.availableLiquidity + amount);
    expected := expected.(totalLiquidity := expected.availableLiquidity + expected.totalVariableDebt);
    expected := expected.(utilizationRate := UtilizationRate(expected.totalVariableDebt, expected.totalLiquidity));
    expected := SetRates(p, expected);
    expected := expected.(lastUpdateTimestamp := txTimestamp);
  }
}
