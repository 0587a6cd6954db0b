/** What every step of the pool keeps. */
module PoolSteps {
  import opened FixedPoint
  import opened Rates
  import opened Reserve
  import opened Accrual
  import opened Positions
  import opened Loans
  import opened Pool

  /** What a repay-like action takes off the loan it names. */
  function TakenOff(s: Pool, e: Event): int
    requires RepayLike(e.action) && LiveLoan(s, e.action.id) && VariableBorrowIndex(s.reserve, e.tx) != 0
  {
    var requested := RequestedRepayment(s, e);
    if e.action.Liquidate? || RepaysAll(requested) then s.loans[e.action.id].scaledAmount
    else RayDiv(requested, VariableBorrowIndex(s.reserve, e.tx))
  }

  /** A repayment never is negative in scaled terms; and what the reserve gives up is what the loan
      does, except that a repayment of everything gives up the borrower's whole debt, and that the two
      debt paths may part on a reserve that has no debt of its own. */
  lemma RepaymentInScaledTerms(p: ReserveParams, s: Pool, e: Event)
    requires Healthy(p, s) && Enabled(s, e) && RepayLike(e.action)
    ensures VariableBorrowIndex(s.reserve, e.tx) >= RAY && Repayment(s, e) >= 0
    ensures var loan := s.loans[e.action.id];
      var given := RayDiv(Repayment(s, e), VariableBorrowIndex(s.reserve, e.tx));
      && given >= 0
      && (s.reserve.scaledVariableDebt > 0 || Conserved(s) ==>
           given == if RepaysAll(RequestedRepayment(s, e)) then DebtOf(s.loans, loan.borrower) else TakenOff(s, e))
      && (Conserved(s) ==> Covered(s, e))
      && (Covered(s, e) ==> 0 <= TakenOff(s, e) <= loan.scaledAmount)
  {
    hide RayMul, RayDiv, VariableBorrowIndex, NormalizedDebt, LiveDebt, DebtOf;
    var r, t, loan := s.reserve, e.tx, s.loans[e.action.id];
    var index := VariableBorrowIndex(r, t);
    DebtsNest(s.loans, loan.borrower);
    var debt := DebtOf(s.loans, loan.borrower);
    RepayAllClearsIff(r, debt, t);
    RepayAllClearsIff(r, loan.scaledAmount, t);
    RayDivOfAmount(Repayment(s, e), index);
    RayDivOfAmount(0, index);
    if Affordable(s, e.action.id, Repayment(s, e), t) {
      QuotientsOrdered(Repayment(s, e), LoanBorrowBalance(r, loan, t), index);
    }
  }

  lemma QuotientsOrdered(amount: int, balance: int, index: int)
    requires 0 <= amount <= balance && index > 0
    ensures 0 <= RayDiv(amount, index) <= RayDiv(balance, index)
  {
    DivOrdered(amount, balance, index, RAY);
  }

  /** Everything a covered action does is well defined. Its transaction leaves the reserve sound, priced
      and with indices that did not fall; all but deposits leave it balanced. */
  lemma StepAtTransaction(p: ReserveParams, s: Pool, e: Event)
    requires Healthy(p, s) && Enabled(s, e) && Covered(s, e)
    ensures Defined(p, s, e)
    ensures var b := AtTransaction(p, s, e);
      && Sound(b) && Priced(p, b) && b.lastUpdateTimestamp == e.tx
      && b.liquidityIndex == LiquidityIndex(s.reserve, e.tx) >= s.reserve.liquidityIndex
      && b.variableBorrowIndex == VariableBorrowIndex(s.reserve, e.tx) >= s.reserve.variableBorrowIndex
      && b.totalVariableDebt == RayMul(b.scaledVariableDebt, b.variableBorrowIndex)
      && (!e.action.Deposit? ==> Balanced(b))
      && CanObserve(b, e.now)
      && NextReserve(p, s, e) == if e.action.Borrow? then Observe(b, e.now) else b
  {
    hide RayMul, RayDiv, LiquidityIndex, VariableBorrowIndex, LiquidityRate, VariableBorrowRate, NormalizedDebt, UtilizationRate,
      CTokenBalance, Repayment, Priced, Reprice, Settle, RequestedRepayment, Observe;
    var r, t := s.reserve, e.tx;
    IndicesGrow(r, t);
    match e.action
    case Deposit(_, amount) =>
      RepriceSound(p, r, t, r.scaledVariableDebt, r.availableLiquidity + amount, r.totalLiquidity + amount);
      RepriceFields(p, r, t, r.scaledVariableDebt, r.availableLiquidity + amount, r.totalLiquidity + amount);
      ReadBackSoundIff(NextReserve(p, s, e), e.now);
    case Withdraw(user, amount) =>
      SettleStep(p, r, t, 0, -WithdrawnAmount(amount, CTokenBalance(r, s.ScaledCTokens(user), t)));
      ReadBackSoundIff(NextReserve(p, s, e), e.now);
    case Borrow(_, _, amount) =>
      var ds := RayDiv(amount, VariableBorrowIndex(r, t));
      RayDivOfAmount(amount, VariableBorrowIndex(r, t));
      SettleStep(p, r, t, ds, -amount);
      ReadBackSoundIff(Settle(p, r, t, ds, -amount), e.now);
    case _ =>
      RepaymentInScaledTerms(p, s, e);
      SettleStep(p, r, t, -RayDiv(Repayment(s, e), VariableBorrowIndex(r, t)), Repayment(s, e));
      ReadBackSoundIff(NextReserve(p, s, e), e.now);
  }

  lemma RepriceFields(p: ReserveParams, r: ReserveData, t: int, scaled: int, available: int, total: int)
    requires p.HasKink() && HasUtilization(RayMul(scaled, VariableBorrowIndex(r, t)), total)
    ensures var r' := Reprice(p, r, t, scaled, available, total);
      && r'.lastUpdateTimestamp == t && r'.liquidityIndex == LiquidityIndex(r, t)
      && r'.variableBorrowIndex == VariableBorrowIndex(r, t) && r'.scaledVariableDebt == scaled
      && r'.totalVariableDebt == RayMul(scaled, r'.variableBorrowIndex)
  {
  }

  lemma SettleStep(p: ReserveParams, r: ReserveData, t: int, ds: int, da: int)
    requires p.Valid() && Sound(r) && t >= r.lastUpdateTimestamp
    requires r.scaledVariableDebt + ds >= 0 && r.availableLiquidity + da >= 0
    ensures CanSettle(r, t, ds, da)
    ensures var r' := Settle(p, r, t, ds, da);
      && Sound(r') && Priced(p, r') && Balanced(r') && r'.lastUpdateTimestamp == t
      && r'.liquidityIndex == LiquidityIndex(r, t) && r'.variableBorrowIndex == VariableBorrowIndex(r, t)
      && r'.totalVariableDebt == RayMul(r'.scaledVariableDebt, r'.variableBorrowIndex)
      && r'.scaledVariableDebt == r.scaledVariableDebt + ds
  {
    hide RayMul, LiquidityIndex, VariableBorrowIndex, Reprice, Priced, Settle;
    SettleSound(p, r, t, ds, da);
    SettledFields(p, r, t, ds, da);
  }

  /** The same for the reserve as read back. */
  lemma StepKeepsReserve(p: ReserveParams, s: Pool, e: Event)
    requires Healthy(p, s) && Enabled(s, e) && Covered(s, e)
    ensures Possible(p, s, e)
    ensures var r' := NextReserve(p, s, e);
      && Sound(r') && r'.lastUpdateTimestamp == e.tx
      && r'.liquidityIndex == LiquidityIndex(s.reserve, e.tx) >= s.reserve.liquidityIndex
      && r'.variableBorrowIndex == VariableBorrowIndex(s.reserve, e.tx) >= s.reserve.variableBorrowIndex
      && (!e.action.Deposit? ==> Balanced(r'))
  {
    hide RayMul, RayDiv, LiquidityIndex, VariableBorrowIndex, NormalizedDebt, UtilizationRate, LiquidityRate, VariableBorrowRate,
      Defined, NextReserve, AtTransaction, Covered, Priced;
    StepAtTransaction(p, s, e);
    IndicesAtLeastRay(s.reserve, e.tx);
    if e.action.Borrow? {
      ObserveSound(p, AtTransaction(p, s, e), e.now);
    }
  }

  /** The named loan keeps its borrower, and its live amount moves by what is lent or taken off. */
  lemma NextLoanAmount(p: ReserveParams, s: Pool, e: Event, after: ReserveData)
    requires Healthy(p, s) && Enabled(s, e) && Covered(s, e) && !e.action.Deposit? && !e.action.Withdraw?
    requires after.variableBorrowIndex == VariableBorrowIndex(s.reserve, e.tx) >= RAY
    ensures var loan := NextLoan(s, e, after);
      && LiveAmount(loan) >= 0
      && (RepayLike(e.action) ==>
           && loan.borrower == s.loans[e.action.id].borrower
           && LiveAmount(loan) == s.loans[e.action.id].scaledAmount - TakenOff(s, e))
      && (e.action.Borrow? ==>
           var lent := RayDiv(e.action.amount, after.variableBorrowIndex);
           var before := LoanBeforeBorrow(s, e.action.id, e.action.identity);
           lent >= 0 && loan.borrower == before.borrower && LiveAmount(loan) == before.scaledAmount + lent)
  {
    hide RayMul, RayDiv, VariableBorrowIndex, NormalizedDebt, LiveDebt, DebtOf, Sound, LoanBorrowBalance, Repayment;
    if e.action.Borrow? {
      RayDivOfAmount(e.action.amount, after.variableBorrowIndex);
    } else {
      RepaymentInScaledTerms(p, s, e);
      RepaysNothing(after.variableBorrowIndex);
    }
  }

  /** The record that every action leaves on its loan. It is worth its scaled amount at the time it is read;
      only a sentinel repayment and a liquidation close it, and keep its scaled amount; buying sets a
      bid over the debt of the moment, a liquidation keeps the bid, and everything else clears it. */
  lemma NextLoanRecord(p: ReserveParams, s: Pool, e: Event)
    requires Healthy(p, s) && Enabled(s, e) && Covered(s, e) && !e.action.Deposit? && !e.action.Withdraw?
    ensures Possible(p, s, e)
    ensures var after := NextReserve(p, s, e);
      var before := if e.action.Borrow? then LoanBeforeBorrow(s, e.action.id, e.action.identity) else s.loans[e.action.id];
      var loan := NextLoan(s, e, after);
      && loan.SameAs(before)
      && loan.currentAmount == LoanBorrowBalance(after, loan, e.now)
      && loan.state == (match e.action
           case BuyItNow(_, _, _) => LoanState.BuyItNow
           case Liquidate(_) => Defaulted
           case Repay(_, amount) => if RepaysAll(amount) then Repaid else Active
           case _ => Active)
      && (!loan.Live() ==> loan.scaledAmount == before.scaledAmount)
      && (!e.action.BuyItNow? && !e.action.Liquidate? ==> loan.NoBid())
      && (e.action.BuyItNow? ==> loan.buyItNowBuyerAddress == e.action.buyer && loan.buyItNowPrice == e.action.price)
      && (e.action.Liquidate? ==>
           loan.buyItNowBuyerAddress == before.buyItNowBuyerAddress && loan.buyItNowPrice == before.buyItNowPrice)
      && (e.action.BuyItNow? || e.action.Liquidate? ==>
           loan.buyItNowFine == before.buyItNowFine && loan.buyItNowBorrowAmount == LoanBorrowBalance(s.reserve, before, e.tx))
  {
    hide RayMul, RayDiv, VariableBorrowIndex, LiquidityIndex, NormalizedDebt, Defined, NextReserve, Sound, NonNegative, Covered, Repayment;
    StepKeepsReserve(p, s, e);
    IndicesAtLeastRay(s.reserve, e.tx);
    DebtAtOnce(NextReserve(p, s, e));
  }

  lemma DebtAtOnce(r: ReserveData)
    requires Sound(r)
    ensures NormalizedDebt(r, r.lastUpdateTimestamp) == r.variableBorrowIndex
  {
    NoTimeNoAccrual(r);
  }

  /** Only a loan that is being bought or was liquidated carries a bid. */
  predicate BidsOnlyOnSale(loans: seq<LoanData>) {
    forall i :: 0 <= i < |loans| && loans[i].state != LoanState.BuyItNow && loans[i].state != Defaulted ==> loans[i].NoBid()
  }

  lemma MoveKeepsBids(p: ReserveParams, s: Pool, move: Move)
    requires Happens(p, s, move) && BidsOnlyOnSale(s.loans)
    ensures BidsOnlyOnSale(Moved(p, s, move).loans)
  {
    hide NextReserve, Defined, NextDeposits, CanObserve, Observe, RayMul, RayDiv, LoanBorrowBalance, LiquidityIndex, VariableBorrowIndex,
      DebtBalance, CTokenBalance;
  }

  lemma RepaysNothing(index: int)
    requires index > 0
    ensures RayDiv(0, index) == 0 && !RepaysAll(0)
  {
    RayDivOfAmount(0, index);
  }

  /** The live debt changes by exactly what the action moves on its one loan. */
  lemma StepMovesLoans(p: ReserveParams, s: Pool, e: Event, who: string)
    requires Healthy(p, s) && Enabled(s, e) && Covered(s, e) && Defined(p, s, e)
    requires !e.action.Deposit? && !e.action.Withdraw?
    requires NextReserve(p, s, e).variableBorrowIndex == VariableBorrowIndex(s.reserve, e.tx) >= RAY
    ensures var after := NextReserve(p, s, e);
      var loans' := NextLoans(s, e, after);
      && NonNegative(loans')
      && (RepayLike(e.action) ==>
           && LiveDebt(loans') == LiveDebt(s.loans) - TakenOff(s, e)
           && DebtOf(loans', who) == DebtOf(s.loans, who)
              - (if who == s.loans[e.action.id].borrower then TakenOff(s, e) else 0))
      && (e.action.Borrow? ==>
           var lent := RayDiv(e.action.amount, after.variableBorrowIndex);
           && lent >= 0
           && LiveDebt(loans') == LiveDebt(s.loans) + lent
           && DebtOf(loans', who) == DebtOf(s.loans, who)
              + (if who == LoanBeforeBorrow(s, e.action.id, e.action.identity).borrower then lent else 0))
  {
    hide MulHalfUp, DivHalfUp, VariableBorrowIndex, NormalizedDebt, LiquidityIndex, LiveDebt, DebtOf, NextReserve,
      Defined, Sound, Repayment, Covered;
    var after := NextReserve(p, s, e);
    var loan := NextLoan(s, e, after);
    NextLoanAmount(p, s, e, after);
    if e.action.id < |s.loans| {
      ReplaceLoan(s.loans, e.action.id, loan, who);
    } else {
      AppendLoan(s.loans, loan, who);
    }
  }

  /** Conservation survives a step exactly when a repayment of everything is made by a borrower
      with no other live debt. */
  lemma StepConservesIff(p: ReserveParams, s: Pool, e: Event)
    requires Invariant(p, s) && Enabled(s, e)
    ensures Covered(s, e) && Possible(p, s, e)
    ensures Conserved(Next(p, s, e)) <==> Separated(s, e)
  {
    hide RayMul, RayDiv, LiquidityIndex, VariableBorrowIndex, LiveDebt, DebtOf, Deposited, Settle, Sound, Balanced, NonNegative,
      NextDeposits, Borrowed, Repayment, RequestedRepayment, TakenOff, CanSettle, CanBorrow, CanObserve;
    InvariantCovers(p, s, e);
    StepKeepsReserve(p, s, e);
    IndicesAtLeastRay(s.reserve, e.tx);
    ScaledDebtMoves(p, s, e);
    if !e.action.Deposit? && !e.action.Withdraw? {
      StepMovesLoans(p, s, e, "");
      if RepayLike(e.action) {
        RepaymentInScaledTerms(p, s, e);
        RepayAllTakesLoan(s, e);
      }
    }
  }

  /** Where debt is conserved every repayment is covered. */
  lemma InvariantCovers(p: ReserveParams, s: Pool, e: Event)
    requires Invariant(p, s) && Enabled(s, e)
    ensures Covered(s, e)
  {
    hide Covered, Healthy, Conserved;
    if RepayLike(e.action) {
      RepaymentInScaledTerms(p, s, e);
    } else {
      NothingToCover(s, e);
    }
  }

  lemma NothingToCover(s: Pool, e: Event)
    requires !RepayLike(e.action)
    ensures Covered(s, e)
  {
  }

  lemma RepayAllTakesLoan(s: Pool, e: Event)
    requires RepayLike(e.action) && LiveLoan(s, e.action.id) && VariableBorrowIndex(s.reserve, e.tx) != 0
    ensures RepaysAll(RequestedRepayment(s, e)) ==> TakenOff(s, e) == s.loans[e.action.id].scaledAmount
  {
  }

  lemma ScaledDebtMoves(p: ReserveParams, s: Pool, e: Event)
    requires Defined(p, s, e)
    ensures NextReserve(p, s, e).scaledVariableDebt == s.reserve.scaledVariableDebt +
      match e.action
      case Deposit(_, _) => 0
      case Withdraw(_, _) => 0
      case Borrow(_, _, amount) => RayDiv(amount, VariableBorrowIndex(s.reserve, e.tx))
      case _ => -RayDiv(Repayment(s, e), VariableBorrowIndex(s.reserve, e.tx))
  {
    hide RayMul, RayDiv, LiquidityIndex, VariableBorrowIndex, Repayment, LiquidityRate, VariableBorrowRate, UtilizationRate;
  }

  /** Depositors' scaled balances stay non-negative. */
  lemma StepKeepsDeposits(p: ReserveParams, s: Pool, e: Event)
    requires Healthy(p, s) && Enabled(s, e)
    ensures LiquidityIndex(s.reserve, e.tx) != 0
    ensures forall user :: user in NextDeposits(s, e) ==> NextDeposits(s, e)[user] >= 0
  {
    hide RayMul, RayDiv, LiquidityIndex, Sound, NonNegative;
    assert Sound(s.reserve);
    IndicesAtLeastRay(s.reserve, e.tx);
    match e.action
    case Deposit(user, amount) =>
      RayDivOfAmount(amount, LiquidityIndex(s.reserve, e.tx));
    case Withdraw(user, amount) =>
      WithdrawDrift(s.reserve, s.ScaledCTokens(user), WithdrawnAmount(amount, CTokenBalance(s.reserve, s.ScaledCTokens(user), e.tx)), e.tx);
    case _ =>
  }

  lemma IndicesAtLeastRay(r: ReserveData, t: int)
    requires Sound(r) && t >= r.lastUpdateTimestamp
    ensures LiquidityIndex(r, t) >= RAY && VariableBorrowIndex(r, t) >= RAY
  {
    IndicesGrow(r, t);
  }

  /** A step keeps the pool healthy exactly when it is covered; a repayment that is not leaves the
      reserve with a negative scaled debt. */
  lemma StepHealthyIff(p: ReserveParams, s: Pool, e: Event)
    requires Healthy(p, s) && Enabled(s, e)
    ensures Covered(s, e) ==> Possible(p, s, e)
    ensures Possible(p, s, e) ==> (Healthy(p, Next(p, s, e)) <==> Covered(s, e))
    ensures Possible(p, s, e) ==> (Sound(NextReserve(p, s, e)) <==> Covered(s, e))
    ensures Possible(p, s, e) && !Covered(s, e) ==> Next(p, s, e).reserve.scaledVariableDebt < 0
  {
    hide NextReserve, NextDeposits, NextLoans, Defined, NonNegative, Repayment, RayDiv, RayMul, VariableBorrowIndex, LiquidityIndex;
    if Covered(s, e) {
      StepKeepsReserve(p, s, e);
      StepKeepsDeposits(p, s, e);
      CoveredKeepsLoans(p, s, e);
    } else if Possible(p, s, e) {
      IndicesAtLeastRay(s.reserve, e.tx);
      ScaledDebtMoves(p, s, e);
    }
  }

  lemma CoveredKeepsLoans(p: ReserveParams, s: Pool, e: Event)
    requires Healthy(p, s) && Enabled(s, e) && Covered(s, e)
    ensures Possible(p, s, e) && NonNegative(Next(p, s, e).loans)
  {
    hide NextReserve, NextDeposits, NextLoans, Defined, NonNegative, Covered, RayDiv, RayMul, VariableBorrowIndex, LiquidityIndex, Sound;
    StepKeepsReserve(p, s, e);
    IndicesAtLeastRay(s.reserve, e.tx);
    if !e.action.Deposit? && !e.action.Withdraw? {
      StepMovesLoans(p, s, e, "");
    } else {
      DepositsKeepLoans(s, e, NextReserve(p, s, e));
    }
  }

  /** From a state that satisfies the whole invariant a step keeps it exactly when it is separated. */
  lemma StepInvariantIff(p: ReserveParams, s: Pool, e: Event)
    requires Invariant(p, s) && Enabled(s, e)
    ensures Covered(s, e) && Possible(p, s, e)
    ensures Healthy(p, Next(p, s, e))
    ensures Invariant(p, Next(p, s, e)) <==> Separated(s, e)
  {
    hide Healthy, Next, Enabled, Defined, NextReserve, Conserved, Separated, Covered;
    StepConservesIff(p, s, e);
    StepHealthyIff(p, s, e);
  }

  /** Whose deposits or loan an action touches. */
  function Actor(s: Pool, e: Event): string
    requires RepayLike(e.action) ==> LiveLoan(s, e.action.id)
  {
    match e.action
    case Deposit(user, _) => user
    case Withdraw(user, _) => user
    case Borrow(id, identity, _) => LoanBeforeBorrow(s, id, identity).borrower
    case _ => s.loans[e.action.id].borrower
  }

  /** Nobody but the actor is affected: every other user's scaled balance and scaled debt stay, and
      are worth at the time of the action what they were worth before it. */
  lemma StepLeavesOthersAlone(p: ReserveParams, s: Pool, e: Event, who: string)
    requires Invariant(p, s) && Enabled(s, e) && who != Actor(s, e)
    ensures Possible(p, s, e)
    ensures var s' := Next(p, s, e);
      && s'.ScaledCTokens(who) == s.ScaledCTokens(who)
      && DebtOf(s'.loans, who) == DebtOf(s.loans, who)
      && CTokenBalance(s'.reserve, s'.ScaledCTokens(who), e.tx) == CTokenBalance(s.reserve, s.ScaledCTokens(who), e.tx)
      && DebtBalance(s'.reserve, DebtOf(s'.loans, who), e.tx) == DebtBalance(s.reserve, DebtOf(s.loans, who), e.tx)
  {
    hide RayMul, RayDiv, LiquidityIndex, VariableBorrowIndex, LiveDebt, DebtOf, NextReserve, NextLoans, Defined, CTokenBalance,
      DebtBalance, Sound, NonNegative, Covered;
    InvariantCovers(p, s, e);
    StepKeepsReserve(p, s, e);
    IndicesAtLeastRay(s.reserve, e.tx);
    DebtsNest(s.loans, who);
    if !e.action.Deposit? && !e.action.Withdraw? {
      StepMovesLoans(p, s, e, who);
    } else {
      DepositsKeepLoans(s, e, NextReserve(p, s, e));
    }
    RepriceKeepsWorth(s.reserve, NextReserve(p, s, e), e.tx, s.ScaledCTokens(who), DebtOf(s.loans, who));
  }

  lemma DepositsKeepLoans(s: Pool, e: Event, after: ReserveData)
    requires (e.action.Deposit? || e.action.Withdraw?) && after.variableBorrowIndex != 0
    ensures NextLoans(s, e, after) == s.loans
  {
  }

  // ----- The coded transitions behind a step -----

  /** Each action's reserve is what the coded transition for it returns. */
  method ReserveOf(p: ReserveParams, s: Pool, e: Event) returns (after: ReserveData)
    requires Healthy(p, s) && Enabled(s, e) && Defined(p, s, e)
    ensures after == NextReserve(p, s, e)
  {
    hide RayMul, RayDiv, LiquidityRate, VariableBorrowRate, LiquidityIndex, VariableBorrowIndex, NormalizedDebt, UtilizationRate,
      CTokenBalance, DebtBalance, DebtOf, NonNegative;
    IndicesAtLeastRay(s.reserve, e.tx);
    RepaysNothing(VariableBorrowIndex(s.reserve, e.tx));
    match e.action {
      case Deposit(_, amount) =>
        after := ReserveAfterDeposit(p, amount, s.reserve, e.tx);
      case Withdraw(user, amount) =>
        after := ReserveAfterWithdraw(p, amount, s.reserve, s.ScaledCTokens(user), e.tx);
      case Borrow(_, _, amount) =>
        after := ReserveAfterBorrow(p, amount, s.reserve, e.tx, e.now);
      case Repay(id, amount) =>
        after := ReserveAfterRepay(p, amount, s.reserve, DebtOf(s.loans, s.loans[id].borrower), e.tx);
      case BuyItNow(id, _, _) =>
        after := ReserveAfterBuyItNow(p, s.reserve, DebtOf(s.loans, s.loans[id].borrower), e.tx);
      case Redeem(id, amount) =>
        after := ReserveAfterRedeem(p, amount, s.reserve, DebtOf(s.loans, s.loans[id].borrower), e.tx);
      case Liquidate(id) =>
        after := ReserveAfterLiquidate(p, s.reserve, DebtOf(s.loans, s.loans[id].borrower), s.loans[id], e.tx, e.now);
    }
  }

  // ----- The expected user record against the loans -----

  /** After a borrow the expected user record carries the borrower's own live debt exactly when the
      borrower was the only one with live debt, since it starts from the debt of the reserve. */
  lemma BorrowerRecordExactIff(p: ReserveParams, s: Pool, e: Event, user: UserReserveData)
    requires Invariant(p, s) && Enabled(s, e) && e.action.Borrow?
    ensures Possible(p, s, e)
    ensures var who := LoanBeforeBorrow(s, e.action.id, e.action.identity).borrower;
      var s' := Next(p, s, e);
      (UserAfterBorrow(e.action.amount, s.reserve, s'.reserve, user, e.now).scaledVariableDebt == DebtOf(s'.loans, who)
       <==> LiveDebt(s.loans) == DebtOf(s.loans, who))
  {
    hide RayMul, RayDiv, LiquidityIndex, VariableBorrowIndex, LiveDebt, DebtOf, NextReserve, NextDeposits, NextLoans,
      Defined, Sound, NonNegative, Covered, CTokenBalance, DebtBalance;
    InvariantCovers(p, s, e);
    StepKeepsReserve(p, s, e);
    IndicesAtLeastRay(s.reserve, e.tx);
    StepMovesLoans(p, s, e, LoanBeforeBorrow(s, e.action.id, e.action.identity).borrower);
  }

  // ----- Moves -----

  lemma MoveNamesLiveLoan(s: Pool, move: Move)
    requires Allowed(s, move)
    ensures NamesLiveLoan(s, move)
  {
  }

  /** Reading the record back keeps the pool healthy exactly when it does not round the utilization of a
      paying reserve to zero; it touches neither indices nor loans. */
  lemma RereadHealthyIff(p: ReserveParams, s: Pool, now: int)
    requires Healthy(p, s) && s.clock <= now
    ensures CanObserve(s.reserve, now)
    ensures Healthy(p, Reread(s, now)) <==> Readable(s.reserve, now)
    ensures Conserved(Reread(s, now)) <==> Conserved(s)
    ensures Reread(s, now).reserve.liquidityIndex == s.reserve.liquidityIndex
    ensures Reread(s, now).reserve.variableBorrowIndex == s.reserve.variableBorrowIndex
  {
    hide RayMul, RayDiv, NormalizedDebt, UtilizationRate, Readable, Sound, NonNegative, LiveDebt, CanObserve;
    ReadBackSoundIff(s.reserve, now);
    RereadFields(s, now);
  }

  lemma RereadFields(s: Pool, now: int)
    requires CanObserve(s.reserve, now)
    ensures var r' := Reread(s, now).reserve;
      && r'.liquidityIndex == s.reserve.liquidityIndex && r'.variableBorrowIndex == s.reserve.variableBorrowIndex
      && r'.scaledVariableDebt == s.reserve.scaledVariableDebt && r'.lastUpdateTimestamp == s.reserve.lastUpdateTimestamp
  {
  }

  /** A move keeps the pool healthy exactly when it is covered. */
  lemma MoveHealthyIff(p: ReserveParams, s: Pool, move: Move)
    requires Healthy(p, s) && Allowed(s, move)
    ensures NamesLiveLoan(s, move)
    ensures CoveredMove(s, move) ==> Happens(p, s, move)
    ensures Happens(p, s, move) ==> (Healthy(p, Moved(p, s, move)) <==> CoveredMove(s, move))
  {
    hide Healthy, Enabled, Possible, Next, Reread, Covered, CanObserve, Readable;
    MoveNamesLiveLoan(s, move);
    match move
    case Act(e) =>
      StepHealthyIff(p, s, e);
    case ReadBack(now) =>
      RereadHealthyIff(p, s, now);
  }

  /** From a state of the whole invariant every action is covered, and a move keeps the invariant
      exactly when it is separated. */
  lemma MoveInvariantIff(p: ReserveParams, s: Pool, move: Move)
    requires Invariant(p, s) && Allowed(s, move)
    ensures NamesLiveLoan(s, move) && Happens(p, s, move)
    ensures (move.Act? || SeparatedMove(s, move)) ==> CoveredMove(s, move)
    ensures Invariant(p, Moved(p, s, move)) <==> SeparatedMove(s, move)
  {
    hide Healthy, Conserved, Enabled, Possible, Next, Reread, Covered, Separated, CanObserve, Readable;
    MoveNamesLiveLoan(s, move);
    match move
    case Act(e) =>
      StepInvariantIff(p, s, e);
    case ReadBack(now) =>
      RereadHealthyIff(p, s, now);
  }

  /** A covered move takes neither index nor the clock back. */
  lemma MoveAdvances(p: ReserveParams, s: Pool, move: Move)
    requires Healthy(p, s) && Happens(p, s, move) && NamesLiveLoan(s, move) && CoveredMove(s, move)
    ensures var s' := Moved(p, s, move);
      && s'.clock >= s.clock
      && s'.reserve.liquidityIndex >= s.reserve.liquidityIndex
      && s'.reserve.variableBorrowIndex >= s.reserve.variableBorrowIndex
  {
    hide Healthy, Defined, NextReserve, Covered, CanObserve, Readable, LiquidityIndex, VariableBorrowIndex, NextDeposits, NextLoans, Observe;
    match move
    case Act(e) =>
      StepKeepsReserve(p, s, e);
    case ReadBack(now) =>
      RereadFields(s, now);
  }
}
