/** The user record and its transitions (`test/helpers/utils/calculations.ts`). */
module Positions {
  import opened FixedPoint
  import opened Interest
  import opened Rates
  import opened Reserve
  import opened Accrual
  import opened Actions

  datatype UserReserveData = UserReserveData(
    scaledCTokenBalance: int,
    currentCTokenBalance: int,
    currentVariableDebt: int,
    scaledVariableDebt: int,
    liquidityRate: int,
    walletBalance: int)

  function ScaledCTokenBalance(scaled: int, index: int, added: int, taken: int): int
    requires index != 0
  {
    scaled + RayDiv(added, index) - RayDiv(taken, index)
  }

  function UserAfterDeposit(amountDeposited: int, before: ReserveData, after: ReserveData,
                            user: UserReserveData, txTimestamp: int): UserReserveData
    requires after.liquidityIndex != 0
  {
    UserReserveData(
      ScaledCTokenBalance(user.scaledCTokenBalance, after.liquidityIndex, amountDeposited, 0),
      CTokenBalance(before, user.scaledCTokenBalance, txTimestamp) + amountDeposited,
      DebtBalance(before, user.scaledVariableDebt, txTimestamp),
      user.scaledVariableDebt,
      after.liquidityRate,
      user.walletBalance - amountDeposited)
  }

  /** The borrower's new scaled debt starts from the debt of the whole reserve. */
  function UserAfterBorrow(amountBorrowed: int, before: ReserveData, after: ReserveData,
                           user: UserReserveData, currentTimestamp: int): UserReserveData
    requires after.variableBorrowIndex != 0
  {
    var scaledDebt := before.scaledVariableDebt + RayDiv(amountBorrowed, after.variableBorrowIndex);
    UserReserveData(
      user.scaledCTokenBalance,
      CTokenBalance(after, user.scaledCTokenBalance, currentTimestamp),
      DebtBalance(after, scaledDebt, currentTimestamp),
      scaledDebt,
      after.liquidityRate,
      user.walletBalance + amountBorrowed)
  }

  /** Withdrawing the maximum empties the position exactly, in scaled and in current terms. */
  method UserAfterWithdraw(amountWithdrawn: int, before: ReserveData, after: ReserveData,
                           user: UserReserveData, txTimestamp: int) returns (expected: UserReserveData)
    requires after.liquidityIndex != 0
    ensures var balance := CTokenBalance(before, user.scaledCTokenBalance, txTimestamp);
      var amount := WithdrawnAmount(amountWithdrawn, balance);
      && expected.scaledCTokenBalance == ScaledCTokenBalance(user.scaledCTokenBalance, after.liquidityIndex, 0, amount)
      && expected.currentCTokenBalance + amount == balance
      && expected.walletBalance - amount == user.walletBalance
      && expected.scaledVariableDebt == user.scaledVariableDebt
      && expected.currentVariableDebt == DebtBalance(before, user.scaledVariableDebt, txTimestamp)
      && expected.liquidityRate == after.liquidityRate
    ensures Sound(before) && txTimestamp >= before.lastUpdateTimestamp && user.scaledCTokenBalance >= 0
        && after.liquidityIndex == LiquidityIndex(before, txTimestamp) && amountWithdrawn == MAX_UINT_AMOUNT
        ==> expected.scaledCTokenBalance == 0 && expected.currentCTokenBalance == 0
  {
    hide MulHalfUp, DivHalfUp, LiquidityIndex, NormalizedIncome, NormalizedDebt;
    var amount := amountWithdrawn;
    var cTokenBalance := CTokenBalance(before, user.scaledCTokenBalance, txTimestamp);
    if amount == MAX_UINT_AMOUNT {
      amount := cTokenBalance;
    }
    expected := UserReserveData(
      ScaledCTokenBalance(user.scaledCTokenBalance, after.liquidityIndex, 0, amount),
      cTokenBalance - amount,
      DebtBalance(before, user.scaledVariableDebt, txTimestamp),
      user.scaledVariableDebt,
      after.liquidityRate,
      user.walletBalance + amount);
    if Sound(before) && txTimestamp >= before.lastUpdateTimestamp && user.scaledCTokenBalance >= 0
       && after.liquidityIndex == LiquidityIndex(before, txTimestamp) {
      WithdrawAllEmpties(before, user.scaledCTokenBalance, txTimestamp);
    }
  }

  /** Repaying the maximum clears the debt exactly, in scaled and in current terms. */
  method UserAfterRepay(totalRepaid: int, before: ReserveData, after: ReserveData, user: UserReserveData,
                        repaysOwnDebt: bool, txTimestamp: int, currentTimestamp: int) returns (expected: UserReserveData)
    requires after.variableBorrowIndex != 0
    ensures var debt := DebtBalance(before, user.scaledVariableDebt, currentTimestamp);
      var amount := RepaidAmount(totalRepaid, debt);
      && expected.scaledVariableDebt + RayDiv(amount, after.variableBorrowIndex) == user.scaledVariableDebt
      && expected.currentVariableDebt == RayMul(expected.scaledVariableDebt, after.variableBorrowIndex)
      && expected.scaledCTokenBalance == user.scaledCTokenBalance
      && expected.currentCTokenBalance == CTokenBalance(before, user.scaledCTokenBalance, txTimestamp)
      && expected.liquidityRate == after.liquidityRate
      && expected.walletBalance == if repaysOwnDebt then user.walletBalance - amount else user.walletBalance
    ensures Sound(before) && currentTimestamp >= before.lastUpdateTimestamp
        && 0 <= user.scaledVariableDebt <= before.scaledVariableDebt
        && after.variableBorrowIndex == VariableBorrowIndex(before, currentTimestamp) && RepaysAll(totalRepaid)
        ==> expected.scaledVariableDebt == 0 && expected.currentVariableDebt == 0
  {
    hide MulHalfUp, DivHalfUp, VariableBorrowIndex, NormalizedIncome, NormalizedDebt;
    var variableDebt := DebtBalance(before, user.scaledVariableDebt, currentTimestamp);
    var amount := totalRepaid;
    if Abs(amount) == MAX_UINT_AMOUNT {
      amount := variableDebt;
    }
    var scaledDebt := user.scaledVariableDebt - RayDiv(amount, after.variableBorrowIndex);
    var wallet := user.walletBalance;
    if repaysOwnDebt {
      wallet := wallet - amount;
    }
    expected := UserReserveData(
      user.scaledCTokenBalance,
      CTokenBalance(before, user.scaledCTokenBalance, txTimestamp),
      RayMul(scaledDebt, after.variableBorrowIndex),
      scaledDebt,
      after.liquidityRate,
      wallet);
    if Sound(before) && currentTimestamp >= before.lastUpdateTimestamp
       && 0 <= user.scaledVariableDebt <= before.scaledVariableDebt
       && after.variableBorrowIndex == VariableBorrowIndex(before, currentTimestamp) {
      RepayAllClears(before, user.scaledVariableDebt, currentTimestamp);
      IndicesGrow(before, currentTimestamp);
      MulUnits(after.variableBorrowIndex, RAY);
    }
  }

  // ----- Exact zeroing -----

  /** The balance read off one accrual path scales back, along the other, to the whole position. */
  lemma WithdrawAllEmpties(r: ReserveData, scaled: int, t: int)
    requires Sound(r) && t >= r.lastUpdateTimestamp && scaled >= 0
    ensures LiquidityIndex(r, t) >= RAY
    ensures ScaledCTokenBalance(scaled, LiquidityIndex(r, t), 0, CTokenBalance(r, scaled, t)) == 0
  {
    hide MulHalfUp, DivHalfUp, LiquidityIndex, NormalizedIncome;
    IndicesGrow(r, t);
    AccrualsAgree(r, t);
    ScaledRoundTrip(scaled, LiquidityIndex(r, t), RAY);
    RayDivOfAmount(0, LiquidityIndex(r, t));
  }

  /** The debt read off one accrual path never scales back, along the other, to less than itself, and
      to exactly itself when it has not grown by half a scaled unit in between. On a reserve that has
      debt the paths agree, so it never has; without reserve debt only one of them accrues. */
  lemma RepayAllClearsIff(r: ReserveData, scaled: int, t: int)
    requires Sound(r) && t >= r.lastUpdateTimestamp && scaled >= 0
    ensures var index, balance := VariableBorrowIndex(r, t), DebtBalance(r, scaled, t);
      && index >= RAY && balance >= 0
      && RayDiv(balance, index) >= scaled
      && (RayDiv(balance, index) == scaled <==> 2 * RAY * balance < (2 * scaled + 1) * index)
      && (r.totalVariableDebt != 0 || scaled == 0 || r.variableBorrowRate == 0 ==> RayDiv(balance, index) == scaled)
  {
    hide RayMul, RayDiv, VariableBorrowIndex, NormalizedDebt;
    IndicesGrow(r, t);
    AccrualsAgree(r, t);
    if r.variableBorrowRate == 0 {
      RateZeroKeepsIndex(r, t);
    }
    var index, balance := VariableBorrowIndex(r, t), DebtBalance(r, scaled, t);
    MoreIndexMoreDebt(scaled, index, NormalizedDebt(r, t));
    GrownBalance(scaled, index, balance);
    NoDebtNoBalance(NormalizedDebt(r, t));
    RayDivOfAmount(0, index);
    PartialRepayFits(balance, scaled, index);
  }

  lemma RateZeroKeepsIndex(r: ReserveData, t: int)
    requires Sound(r) && t >= r.lastUpdateTimestamp && r.variableBorrowRate == 0
    ensures NormalizedDebt(r, t) == VariableBorrowIndex(r, t)
  {
    hide MulHalfUp, CompoundedInterest;
    CompoundedAtRateZero(r, t);
  }

  lemma NoDebtNoBalance(index: int)
    requires index >= 0
    ensures RayMul(0, index) == 0
  {
    MulUnits(index, RAY);
  }

  lemma GrownBalance(scaled: int, index: int, balance: int)
    requires scaled >= 0 && index >= RAY && balance >= RayMul(scaled, index)
    ensures balance >= 0 && RayDiv(balance, index) >= scaled
    ensures balance == RayMul(scaled, index) ==> RayDiv(balance, index) == scaled
  {
    MulOrdered(0, scaled, 0, index, RAY);
    ScaledRoundTrip(scaled, index, RAY);
    DivOrdered(RayMul(scaled, index), balance, index, RAY);
  }

  /** In particular every part of the reserve's own debt scales back to exactly itself. */
  lemma RepayAllClears(r: ReserveData, scaled: int, t: int)
    requires Sound(r) && t >= r.lastUpdateTimestamp && 0 <= scaled <= r.scaledVariableDebt
    ensures VariableBorrowIndex(r, t) >= RAY
    ensures RayDiv(DebtBalance(r, scaled, t), VariableBorrowIndex(r, t)) == scaled
  {
    hide RayMul, RayDiv, VariableBorrowIndex, NormalizedDebt;
    RepayAllClearsIff(r, scaled, t);
  }

  // ----- Drift between the scaled and the current balance -----

  lemma Drift(index: int, s: int, q: int, x: int, before: int, after: int)
    requires Nearest(s * index, RAY, before) && Nearest((s + q) * index, RAY, after)
    requires -index <= 2 * (q * index) - 2 * (x * RAY) <= index
    ensures -(2 * RAY + index) <= 2 * RAY * (after - before - x) <= 2 * RAY + index
  {
    Distribute(index, s, q);
  }

  lemma DriftDown(index: int, s: int, q: int, x: int, before: int, after: int)
    requires Nearest(s * index, RAY, before) && Nearest((s - q) * index, RAY, after)
    requires -index <= 2 * (q * index) - 2 * (x * RAY) <= index
    ensures -(2 * RAY + index) <= 2 * RAY * (after - (before - x)) <= 2 * RAY + index
  {
    Distribute(index, s, -q);
    Distribute(index, q, -q);
  }

  /** After a deposit the scaled balance is worth the current balance, up to one unit and half the
      index; so the suite accepts it while the index stays below six. The amount comes out of the
      wallet, and the debt is only accrued. */
  lemma DepositDrift(r: ReserveData, after: ReserveData, user: UserReserveData, amount: int, t: int)
    requires Sound(r) && t >= r.lastUpdateTimestamp && user.scaledCTokenBalance >= 0 && amount >= 0
    requires after.liquidityIndex == LiquidityIndex(r, t)
    ensures after.liquidityIndex >= RAY
    ensures var u, index := UserAfterDeposit(amount, r, after, user, t), after.liquidityIndex;
      var worth := RayMul(u.scaledCTokenBalance, index);
      && u.scaledCTokenBalance >= user.scaledCTokenBalance
      && -(2 * RAY + index) <= 2 * RAY * (worth - u.currentCTokenBalance) <= 2 * RAY + index
      && (index < 6 * RAY ==> AlmostEqualOrEqual(worth, u.currentCTokenBalance))
      && u.walletBalance + amount == user.walletBalance
      && u.currentCTokenBalance - amount == CTokenBalance(r, user.scaledCTokenBalance, t)
      && u.scaledVariableDebt == user.scaledVariableDebt
      && u.currentVariableDebt == DebtBalance(r, user.scaledVariableDebt, t)
      && u.liquidityRate == after.liquidityRate
  {
    hide RayMul, RayDiv, LiquidityIndex, NormalizedIncome, NormalizedDebt;
    IndicesGrow(r, t);
    AccrualsAgree(r, t);
    var index, scaled := after.liquidityIndex, user.scaledCTokenBalance;
    RayDivOfAmount(0, index);
    DriftOfAdded(scaled, index, amount);
  }

  /** The same after a withdrawal of at most the balance. */
  lemma WithdrawDrift(r: ReserveData, scaled: int, amount: int, t: int)
    requires Sound(r) && t >= r.lastUpdateTimestamp && scaled >= 0
    requires 0 <= amount <= CTokenBalance(r, scaled, t)
    ensures LiquidityIndex(r, t) >= RAY
    ensures var index := LiquidityIndex(r, t);
      var left := ScaledCTokenBalance(scaled, index, 0, amount);
      var current := CTokenBalance(r, scaled, t) - amount;
      && 0 <= left <= scaled
      && -(2 * RAY + index) <= 2 * RAY * (RayMul(left, index) - current) <= 2 * RAY + index
      && (index < 6 * RAY ==> AlmostEqualOrEqual(RayMul(left, index), current))
  {
    hide RayMul, RayDiv, LiquidityIndex, NormalizedIncome;
    IndicesGrow(r, t);
    AccrualsAgree(r, t);
    RayDivOfAmount(0, LiquidityIndex(r, t));
    PartialRepayFits(amount, scaled, LiquidityIndex(r, t));
    DriftOfTaken(scaled, LiquidityIndex(r, t), amount);
  }

  lemma DriftOfTaken(scaled: int, index: int, amount: int)
    requires index >= RAY && amount >= 0 && RayDiv(amount, index) <= scaled
    ensures var left := scaled - RayDiv(amount, index);
      && 0 <= left <= scaled
      && -(2 * RAY + index) <= 2 * RAY * (RayMul(left, index) - (RayMul(scaled, index) - amount)) <= 2 * RAY + index
  {
    hide RayMul, RayDiv, Nearest;
    var q := RayDiv(amount, index);
    RayDivOfAmount(amount, index);
    BalanceBounds(scaled, index);
    BalanceBounds(scaled - q, index);
    AmountBounds(amount, index);
    DriftDown(index, scaled, q, amount, RayMul(scaled, index), RayMul(scaled - q, index));
  }

  lemma DriftOfAdded(scaled: int, index: int, amount: int)
    requires scaled >= 0 && index > 0 && amount >= 0
    ensures var more := scaled + RayDiv(amount, index);
      && more >= scaled
      && -(2 * RAY + index) <= 2 * RAY * (RayMul(more, index) - RayMul(scaled, index) - amount) <= 2 * RAY + index
  {
    hide RayMul, RayDiv, Nearest;
    var q := RayDiv(amount, index);
    RayDivOfAmount(amount, index);
    BalanceBounds(scaled, index);
    BalanceBounds(scaled + q, index);
    AmountBounds(amount, index);
    Drift(index, scaled, q, amount, RayMul(scaled, index), RayMul(scaled + q, index));
  }

  lemma BalanceBounds(scaled: int, index: int)
    requires scaled >= 0 && index >= 0
    ensures Nearest(scaled * index, RAY, RayMul(scaled, index))
  {
    ProductNonNegative(scaled, index);
    MulIsNearest(scaled, index, RAY, RayMul(scaled, index));
  }

  lemma AmountBounds(amount: int, index: int)
    requires amount >= 0 && index > 0
    ensures -index <= 2 * (RayDiv(amount, index) * index) - 2 * (amount * RAY) <= index
  {
    DivIsNearest(amount, index, RAY, RayDiv(amount, index));
  }

  /** After a borrow the wallet holds the amount, deposits are worth what they accrued to, and the debt is
      the worth of the scaled debt. If the borrower was the only one with debt, a borrow read back at once
      raises the debt by the amount, up to one unit and half the index. */
  lemma BorrowDrift(p: ReserveParams, r: ReserveData, user: UserReserveData, amount: int, tx: int, now: int)
    requires p.HasKink() && CanBorrow(p, r, amount, tx, now)
    ensures Borrowed(p, r, amount, tx, now).variableBorrowIndex == VariableBorrowIndex(r, tx) != 0
    ensures var after := Borrowed(p, r, amount, tx, now);
      var u := UserAfterBorrow(amount, r, after, user, now);
      && u.walletBalance - amount == user.walletBalance
      && u.scaledCTokenBalance == user.scaledCTokenBalance
      && u.currentCTokenBalance == CTokenBalance(after, user.scaledCTokenBalance, now)
      && u.currentVariableDebt == DebtBalance(after, u.scaledVariableDebt, now)
      && u.scaledVariableDebt == r.scaledVariableDebt + RayDiv(amount, after.variableBorrowIndex)
      && u.liquidityRate == after.liquidityRate
    ensures Sound(r) && r.lastUpdateTimestamp <= tx == now && amount >= 0 && user.scaledVariableDebt == r.scaledVariableDebt ==>
      var after := Borrowed(p, r, amount, tx, now);
      var u, index := UserAfterBorrow(amount, r, after, user, now), after.variableBorrowIndex;
      && -(2 * RAY + index) <= 2 * RAY * (u.currentVariableDebt - DebtBalance(r, user.scaledVariableDebt, tx) - amount) <= 2 * RAY + index
      && (index < 6 * RAY ==> AlmostEqualOrEqual(u.currentVariableDebt, DebtBalance(r, user.scaledVariableDebt, tx) + amount))
  {
    hide RayMul, RayDiv, VariableBorrowIndex, LiquidityIndex, NormalizedDebt, NormalizedIncome, LiquidityRate, VariableBorrowRate, UtilizationRate;
    var after := Borrowed(p, r, amount, tx, now);
    if Sound(r) && r.lastUpdateTimestamp <= tx == now && amount >= 0 {
      DebtOfBorrow(r, after, tx);
      DriftOfAdded(r.scaledVariableDebt, after.variableBorrowIndex, amount);
    }
  }

  lemma DebtOfBorrow(r: ReserveData, after: ReserveData, t: int)
    requires Sound(r) && t >= r.lastUpdateTimestamp && after.lastUpdateTimestamp == t
    requires after.variableBorrowIndex == VariableBorrowIndex(r, t) && after.liquidityIndex == LiquidityIndex(r, t)
    ensures after.variableBorrowIndex >= RAY && NormalizedDebt(after, t) == after.variableBorrowIndex
    ensures DebtBalance(r, r.scaledVariableDebt, t) == RayMul(r.scaledVariableDebt, after.variableBorrowIndex)
  {
    hide RayMul, VariableBorrowIndex, LiquidityIndex, NormalizedDebt, NormalizedIncome;
    IndicesGrow(r, t);
    AccrualsAgree(r, t);
    NoTimeNoAccrual(after);
    if r.scaledVariableDebt == 0 {
      NoDebtNoBalance(NormalizedDebt(r, t));
      NoDebtNoBalance(VariableBorrowIndex(r, t));
    }
  }

  // ----- Nobody else's position moves -----

  /** Repricing a reserve changes no position at its timestamp: what anybody's scaled balance or
      scaled debt is worth is the same before and after. */
  lemma RepriceKeepsWorth(r: ReserveData, after: ReserveData, t: int, scaledBalance: int, scaledDebt: int)
    requires Sound(r) && Sound(after) && t >= r.lastUpdateTimestamp && after.lastUpdateTimestamp == t
    requires after.liquidityIndex == LiquidityIndex(r, t) && after.variableBorrowIndex == VariableBorrowIndex(r, t)
    requires 0 <= scaledDebt <= r.scaledVariableDebt
    ensures CTokenBalance(after, scaledBalance, t) == CTokenBalance(r, scaledBalance, t)
    ensures DebtBalance(after, scaledDebt, t) == DebtBalance(r, scaledDebt, t)
  {
    hide MulHalfUp, LiquidityIndex, NormalizedIncome, VariableBorrowIndex, NormalizedDebt;
    AccrualsAgree(r, t);
    NoTimeNoAccrual(after);
    IndicesGrow(r, t);
    if scaledDebt == 0 {
      MulUnits(NormalizedDebt(r, t), RAY);
      MulUnits(NormalizedDebt(after, t), RAY);
    }
  }
}
