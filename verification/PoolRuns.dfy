/** What whole runs of the pool keep, and exactly which runs keep it. */
module PoolRuns {
  import opened FixedPoint
  import opened Interest
  import opened Rates
  import opened Reserve
  import opened Accrual
  import T = Touching
  import opened Positions
  import opened Loans
  import opened Pool
  import opened PoolSteps

  // ----- Runs -----

  /** Every move of the run succeeds and is well defined; nothing else is asked. */
  predicate Feasible(p: ReserveParams, s: Pool, moves: seq<Move>)
    decreases |moves|
  {
    moves == [] || (Happens(p, s, moves[0]) && Feasible(p, Moved(p, s, moves[0]), moves[1..]))
  }

  function After(p: ReserveParams, s: Pool, moves: seq<Move>): Pool
    requires Feasible(p, s, moves)
    decreases |moves|
  {
    if moves == [] then s else After(p, Moved(p, s, moves[0]), moves[1..])
  }

  predicate SeparatedThroughout(p: ReserveParams, s: Pool, moves: seq<Move>)
    requires Feasible(p, s, moves)
    decreases |moves|
  {
    moves == [] || (SeparatedMove(s, moves[0]) && SeparatedThroughout(p, Moved(p, s, moves[0]), moves[1..]))
  }

  predicate CoveredThroughout(p: ReserveParams, s: Pool, moves: seq<Move>)
    requires Feasible(p, s, moves)
    decreases |moves|
  {
    moves == [] || (CoveredMove(s, moves[0]) && CoveredThroughout(p, Moved(p, s, moves[0]), moves[1..]))
  }

  /** Every state of the run, the first and the last included, satisfies the invariant. */
  predicate InvariantThroughout(p: ReserveParams, s: Pool, moves: seq<Move>)
    requires Feasible(p, s, moves)
    decreases |moves|
  {
    Invariant(p, s) && (moves == [] || InvariantThroughout(p, Moved(p, s, moves[0]), moves[1..]))
  }

  predicate HealthyThroughout(p: ReserveParams, s: Pool, moves: seq<Move>)
    requires Feasible(p, s, moves)
    decreases |moves|
  {
    Healthy(p, s) && (moves == [] || HealthyThroughout(p, Moved(p, s, moves[0]), moves[1..]))
  }

  lemma StepOfRun(p: ReserveParams, s: Pool, e: Event)
    requires Possible(p, s, e)
    ensures Enabled(s, e) && Defined(p, s, e) && NextReserve(p, s, e).variableBorrowIndex != 0
    ensures RepayLike(e.action) ==> LiveLoan(s, e.action.id)
    ensures Next(p, s, e).reserve == NextReserve(p, s, e) && Next(p, s, e).deposits == NextDeposits(s, e)
    ensures Next(p, s, e).clock == e.now >= e.tx >= s.clock
  {
  }

  lemma MoveOfRun(p: ReserveParams, s: Pool, move: Move)
    requires Happens(p, s, move)
    ensures Allowed(s, move) && NamesLiveLoan(s, move)
  {
  }

  /** A run satisfies the whole invariant in every state exactly when every repayment of everything on
      the way is made by a borrower with no other live debt and every reading is readable; and while it
      does, every move of it is covered. */
  lemma {:induction false} RunInvariantIff(p: ReserveParams, s: Pool, moves: seq<Move>)
    requires Invariant(p, s) && Feasible(p, s, moves)
    ensures InvariantThroughout(p, s, moves) <==> SeparatedThroughout(p, s, moves)
    ensures SeparatedThroughout(p, s, moves) ==> Invariant(p, After(p, s, moves)) && CoveredThroughout(p, s, moves)
    decreases |moves|
  {
    hide Invariant, Happens, Moved, SeparatedMove, CoveredMove, Allowed, NamesLiveLoan;
    if moves == [] {
    } else {
      MoveOfRun(p, s, moves[0]);
      MoveInvariantIff(p, s, moves[0]);
      var s' := Moved(p, s, moves[0]);
      if Invariant(p, s') {
        RunInvariantIff(p, s', moves[1..]);
      } else {
        StartsInvariant(p, s', moves[1..]);
      }
    }
  }

  lemma StartsInvariant(p: ReserveParams, s: Pool, moves: seq<Move>)
    requires Feasible(p, s, moves)
    ensures InvariantThroughout(p, s, moves) ==> Invariant(p, s)
  {
  }

  /** A run keeps the pool healthy in every state exactly when every repayment on the way takes at most
      the reserve's own scaled debt off it and every reading is readable. */
  lemma {:induction false} RunHealthyIff(p: ReserveParams, s: Pool, moves: seq<Move>)
    requires Healthy(p, s) && Feasible(p, s, moves)
    ensures HealthyThroughout(p, s, moves) <==> CoveredThroughout(p, s, moves)
    decreases |moves|
  {
    hide Healthy, Happens, Moved, CoveredMove, Allowed, NamesLiveLoan;
    if moves == [] {
    } else {
      MoveOfRun(p, s, moves[0]);
      MoveHealthyIff(p, s, moves[0]);
      var s' := Moved(p, s, moves[0]);
      if Healthy(p, s') {
        RunHealthyIff(p, s', moves[1..]);
      }
    }
  }

  /** Along every covered run nothing becomes negative, and neither index nor the clock goes back. */
  lemma {:induction false} RunIndicesGrow(p: ReserveParams, s: Pool, moves: seq<Move>)
    requires Healthy(p, s) && Feasible(p, s, moves) && CoveredThroughout(p, s, moves)
    ensures Healthy(p, After(p, s, moves)) && After(p, s, moves).clock >= s.clock
    ensures After(p, s, moves).reserve.liquidityIndex >= s.reserve.liquidityIndex
    ensures After(p, s, moves).reserve.variableBorrowIndex >= s.reserve.variableBorrowIndex
    decreases |moves|
  {
    hide Healthy, Happens, Moved, CoveredMove, Allowed, NamesLiveLoan;
    if moves == [] {
    } else {
      MoveOfRun(p, s, moves[0]);
      MoveHealthyIff(p, s, moves[0]);
      MoveAdvances(p, s, moves[0]);
      RunIndicesGrow(p, Moved(p, s, moves[0]), moves[1..]);
    }
  }

  /** One more move at the end of a run. */
  lemma {:induction false} RunExtends(p: ReserveParams, s: Pool, moves: seq<Move>, move: Move)
    requires Feasible(p, s, moves) && Happens(p, After(p, s, moves), move)
    ensures Feasible(p, s, moves + [move]) && After(p, s, moves + [move]) == Moved(p, After(p, s, moves), move)
    ensures NamesLiveLoan(After(p, s, moves), move)
    ensures SeparatedThroughout(p, s, moves + [move]) <==>
      SeparatedThroughout(p, s, moves) && SeparatedMove(After(p, s, moves), move)
    ensures CoveredThroughout(p, s, moves + [move]) <==>
      CoveredThroughout(p, s, moves) && CoveredMove(After(p, s, moves), move)
    decreases |moves|
  {
    hide Happens, Moved, SeparatedMove, CoveredMove, Allowed, NamesLiveLoan;
    MoveOfRun(p, After(p, s, moves), move);
    if moves == [] {
      assert [] + [move] == [move];
    } else {
      assert (moves + [move])[0] == moves[0] && (moves + [move])[1..] == moves[1..] + [move];
      MoveOfRun(p, s, moves[0]);
      RunExtends(p, Moved(p, s, moves[0]), moves[1..], move);
    }
  }

  lemma RunActs(p: ReserveParams, s: Pool, moves: seq<Move>, e: Event)
    requires Feasible(p, s, moves) && Possible(p, After(p, s, moves), e)
    ensures Feasible(p, s, moves + [Act(e)]) && After(p, s, moves + [Act(e)]) == Next(p, After(p, s, moves), e)
    ensures RepayLike(e.action) ==> LiveLoan(After(p, s, moves), e.action.id)
    ensures SeparatedThroughout(p, s, moves + [Act(e)]) <==>
      SeparatedThroughout(p, s, moves) && Separated(After(p, s, moves), e)
    ensures CoveredThroughout(p, s, moves + [Act(e)]) <==>
      CoveredThroughout(p, s, moves) && Covered(After(p, s, moves), e)
  {
    hide Possible, Next, Separated, Covered, Feasible, After, SeparatedThroughout, CoveredThroughout;
    RunExtends(p, s, moves, Act(e));
    StepOfRun(p, After(p, s, moves), e);
  }

  /** Along every run at all, only loans that are being bought or were liquidated carry bids. */
  lemma {:induction false} RunKeepsBids(p: ReserveParams, s: Pool, moves: seq<Move>)
    requires BidsOnlyOnSale(s.loans) && Feasible(p, s, moves)
    ensures BidsOnlyOnSale(After(p, s, moves).loans)
    decreases |moves|
  {
    hide Happens, Moved, BidsOnlyOnSale;
    if moves == [] {
    } else {
      MoveKeepsBids(p, s, moves[0]);
      RunKeepsBids(p, Moved(p, s, moves[0]), moves[1..]);
    }
  }

  // ----- Every state that a covered run reaches -----

  /** A pool nobody has used yet. */
  function Fresh(address: string, symbol: string, borrowRate: int, t: int): Pool {
    Pool(ReserveData(address, symbol, 0, 0, 0, 0, 0, borrowRate, 0, RAY, RAY, t), map[], [], t)
  }

  lemma FreshInvariant(p: ReserveParams, address: string, symbol: string, borrowRate: int, t: int)
    requires p.Valid() && borrowRate >= 0
    ensures Invariant(p, Fresh(address, symbol, borrowRate, t))
  {
  }

  /** In every state a covered run reaches, at any later time: the two accrual paths agree for every
      position on a reserve with debt, withdrawing everything leaves a scaled balance of zero, and
      repaying everything leaves a scaled debt of zero exactly when the balance read back stays half
      a scaled unit below the next one, which it does unless the reserve itself owes nothing. */
  lemma ReachableZeroing(p: ReserveParams, s0: Pool, moves: seq<Move>, who: string, t: int)
    requires Healthy(p, s0) && Feasible(p, s0, moves) && CoveredThroughout(p, s0, moves) && t >= After(p, s0, moves).clock
    ensures var s := After(p, s0, moves);
      var r, debt := s.reserve, DebtOf(s.loans, who);
      var index, balance := VariableBorrowIndex(r, t), DebtBalance(r, debt, t);
      && NormalizedIncome(r, t) == LiquidityIndex(r, t) >= RAY && index >= RAY
      && (r.totalVariableDebt != 0 ==> NormalizedDebt(r, t) == index)
      && ScaledCTokenBalance(s.ScaledCTokens(who), LiquidityIndex(r, t), 0, CTokenBalance(r, s.ScaledCTokens(who), t)) == 0
      && debt - RayDiv(balance, index) <= 0
      && (debt - RayDiv(balance, index) == 0 <==> 2 * RAY * balance < (2 * debt + 1) * index)
      && (r.totalVariableDebt != 0 || debt == 0 || r.variableBorrowRate == 0 ==> debt - RayDiv(balance, index) == 0)
  {
    hide Feasible, After, CoveredThroughout, Sound, RayMul, RayDiv, LiquidityIndex, NormalizedIncome, VariableBorrowIndex,
      NormalizedDebt, DebtOf, LiveDebt;
    RunIndicesGrow(p, s0, moves);
    var s := After(p, s0, moves);
    IndicesAtLeastRay(s.reserve, t);
    AccrualsAgree(s.reserve, t);
    WithdrawAllEmpties(s.reserve, s.ScaledCTokens(who), t);
    DebtsNest(s.loans, who);
    RepayAllClearsIff(s.reserve, DebtOf(s.loans, who), t);
  }

  /** After a separated run, repaying everything always leaves a scaled debt of zero. */
  lemma SeparatedZeroing(p: ReserveParams, s0: Pool, moves: seq<Move>, who: string, t: int)
    requires Invariant(p, s0) && Feasible(p, s0, moves) && SeparatedThroughout(p, s0, moves) && t >= After(p, s0, moves).clock
    ensures var s := After(p, s0, moves);
      var debt, index := DebtOf(s.loans, who), VariableBorrowIndex(s.reserve, t);
      index >= RAY && debt - RayDiv(DebtBalance(s.reserve, debt, t), index) == 0
  {
    hide Feasible, After, SeparatedThroughout, Sound, RayMul, RayDiv, LiquidityIndex, VariableBorrowIndex, NormalizedDebt,
      DebtOf, LiveDebt;
    RunInvariantIff(p, s0, moves);
    var s := After(p, s0, moves);
    DebtsNest(s.loans, who);
    RepayAllClears(s.reserve, DebtOf(s.loans, who), t);
  }

  /** After any covered step that was not a deposit the liquidity adds up and at most all of it is
      lent out. From any covered step, deposits included, the interest that the liquidity rate pays on the
      recorded total is at most that on the recorded debt, up to the rounding, at whatever time the step is
      read back. */
  lemma ReachableAccounting(p: ReserveParams, s0: Pool, moves: seq<Move>, e: Event, n: nat)
    requires Healthy(p, s0) && Feasible(p, s0, moves) && CoveredThroughout(p, s0, moves)
    requires Enabled(After(p, s0, moves), e) && Covered(After(p, s0, moves), e)
    ensures Possible(p, After(p, s0, moves), e)
    ensures var r := Next(p, After(p, s0, moves), e).reserve;
      var t := r.lastUpdateTimestamp;
      && (!e.action.Deposit? ==> Balanced(r))
      && 2 * RAY * ONE_YEAR * (r.totalLiquidity * (LinearInterest(r.liquidityRate, t + n, t) - RAY))
         <= 2 * RAY * ONE_YEAR * (r.totalVariableDebt * (CompoundedInterest(r.variableBorrowRate, t + n, t) - RAY))
            + n * (2 * RAY * ONE_YEAR * r.totalVariableDebt + r.totalLiquidity * (r.variableBorrowRate + RAY)
                   + DelayedSlack(RayMul(r.scaledVariableDebt, r.variableBorrowIndex), r.totalVariableDebt, r.totalLiquidity))
  {
    hide Feasible, After, CoveredThroughout, Healthy, Enabled, Covered, Defined, NextDeposits, NextLoans;
    RunIndicesGrow(p, s0, moves);
    StepAccounting(p, After(p, s0, moves), e, n);
  }

  lemma StepAccounting(p: ReserveParams, s: Pool, e: Event, n: nat)
    requires Healthy(p, s) && Enabled(s, e) && Covered(s, e)
    ensures Possible(p, s, e)
    ensures var r := Next(p, s, e).reserve;
      var t := r.lastUpdateTimestamp;
      && (!e.action.Deposit? ==> Balanced(r))
      && 2 * RAY * ONE_YEAR * (r.totalLiquidity * (LinearInterest(r.liquidityRate, t + n, t) - RAY))
         <= 2 * RAY * ONE_YEAR * (r.totalVariableDebt * (CompoundedInterest(r.variableBorrowRate, t + n, t) - RAY))
            + n * (2 * RAY * ONE_YEAR * r.totalVariableDebt + r.totalLiquidity * (r.variableBorrowRate + RAY)
                   + DelayedSlack(RayMul(r.scaledVariableDebt, r.variableBorrowIndex), r.totalVariableDebt, r.totalLiquidity))
  {
    hide Enabled, Defined, AtTransaction, NextReserve, NextDeposits, NextLoans, Covered, LinearInterest, CompoundedInterest,
      LiquidityRate, VariableBorrowRate, LiquidityIndex, VariableBorrowIndex, UtilizationRate, RayMul, RayDiv, Observe, Sound, NonNegative, WeightingSlack, DelayedSlack;
    StepAtTransaction(p, s, e);
    StepKeepsReserve(p, s, e);
    StepOfRun(p, s, e);
    var b := AtTransaction(p, s, e);
    if e.action.Borrow? {
      ObserveKeepsScaled(b, e.now);
      T.ObservedEarnings(p, b, e.now, n);
    } else {
      SoundTotal(b);
      TotalNeverOutearnsDebt(p, b.totalVariableDebt, b.totalLiquidity, n, b.lastUpdateTimestamp);
      SlackOrdered(b.totalVariableDebt, b.totalLiquidity);
      MulMonotone(n, WeightingSlack(b.totalVariableDebt, b.totalLiquidity), DelayedSlack(b.totalVariableDebt, b.totalVariableDebt, b.totalLiquidity));
      SplitSlack(n, 2 * RAY * ONE_YEAR * b.totalVariableDebt + b.totalLiquidity * (b.variableBorrowRate + RAY), WeightingSlack(b.totalVariableDebt, b.totalLiquidity));
      SplitSlack(n, 2 * RAY * ONE_YEAR * b.totalVariableDebt + b.totalLiquidity * (b.variableBorrowRate + RAY), DelayedSlack(b.totalVariableDebt, b.totalVariableDebt, b.totalLiquidity));
    }
  }

  lemma SoundTotal(b: ReserveData)
    requires Sound(b)
    ensures b.totalVariableDebt >= 0 && b.totalLiquidity >= 0 && (b.totalVariableDebt > 0 ==> b.totalLiquidity > 0)
  {
  }

  lemma SplitSlack(n: int, a: int, b: int)
    ensures n * (a + b) == n * a + n * b
  {
  }

  lemma ObserveKeepsScaled(b: ReserveData, now: int)
    requires CanObserve(b, now)
    ensures var r := Observe(b, now);
      && r.scaledVariableDebt == b.scaledVariableDebt && r.variableBorrowIndex == b.variableBorrowIndex
      && r.lastUpdateTimestamp == b.lastUpdateTimestamp && r.variableBorrowRate == b.variableBorrowRate
  {
  }

  /** After any covered step that is no deposit, at whatever time it was read back: an action that moves
      nothing, `m` seconds after the transaction, never lowers what borrowers owe after `n` more
      seconds, beyond rounding. */
  lemma ReachableTouching(p: ReserveParams, s0: Pool, moves: seq<Move>, e: Event, m: nat, n: nat)
    requires Healthy(p, s0) && Feasible(p, s0, moves) && CoveredThroughout(p, s0, moves)
    requires Enabled(After(p, s0, moves), e) && Covered(After(p, s0, moves), e) && !e.action.Deposit?
    ensures Possible(p, After(p, s0, moves), e)
    ensures T.TouchKeeps(p, Next(p, After(p, s0, moves), e).reserve, m, n)
  {
    hide Feasible, After, CoveredThroughout, Healthy, Enabled, Covered, Defined, NextReserve, NextDeposits, NextLoans;
    RunIndicesGrow(p, s0, moves);
    StepTouching(p, After(p, s0, moves), e, m, n);
  }

  lemma StepTouching(p: ReserveParams, s: Pool, e: Event, m: nat, n: nat)
    requires Healthy(p, s) && Enabled(s, e) && Covered(s, e) && !e.action.Deposit?
    ensures Possible(p, s, e)
    ensures T.TouchKeeps(p, Next(p, s, e).reserve, m, n)
  {
    hide Enabled, Defined, AtTransaction, NextReserve, NextDeposits, NextLoans, Covered, CompoundedInterest, SplitLoss, Priced,
      Balanced, LiquidityIndex, VariableBorrowIndex, RayMul, Observe, Settle, CanSettle, CanObserve, Sound, NonNegative;
    StepAtTransaction(p, s, e);
    StepKeepsReserve(p, s, e);
    StepOfRun(p, s, e);
    var b := AtTransaction(p, s, e);
    T.TouchingKeepsInterest(p, b, m, n);
    if e.action.Borrow? {
      ObserveKeepsScaled(b, e.now);
      T.ObserveKeepsAccrual(p, b, e.now, e.tx + m, e.tx + m + n);
    }
  }

  // ----- One live loan per borrower -----

  predicate OneLoanEach(loans: seq<LoanData>) {
    forall i, j :: 0 <= i < j < |loans| && loans[i].Live() && loans[j].Live() ==> loans[i].borrower != loans[j].borrower
  }

  /** A new loan is only opened for a borrower without a live one. */
  predicate OpensFirstLoan(s: Pool, e: Event) {
    e.action.Borrow? && e.action.id == |s.loans| ==>
      forall i :: 0 <= i < |s.loans| && s.loans[i].Live() ==> s.loans[i].borrower != e.action.identity.borrower
  }

  predicate OpensFirstThroughout(p: ReserveParams, s: Pool, moves: seq<Move>)
    requires Feasible(p, s, moves)
    decreases |moves|
  {
    moves == [] || ((moves[0].Act? ==> OpensFirstLoan(s, moves[0].event)) && OpensFirstThroughout(p, Moved(p, s, moves[0]), moves[1..]))
  }

  predicate ReadableThroughout(p: ReserveParams, s: Pool, moves: seq<Move>)
    requires Feasible(p, s, moves)
    decreases |moves|
  {
    moves == [] || ((moves[0].ReadBack? ==> Readable(s.reserve, moves[0].now)) && ReadableThroughout(p, Moved(p, s, moves[0]), moves[1..]))
  }

  lemma OneLoanIsSeparated(s: Pool, e: Event)
    requires OneLoanEach(s.loans) && (RepayLike(e.action) ==> LiveLoan(s, e.action.id))
    ensures Separated(s, e)
  {
    if RepayLike(e.action) {
      SingleLoan(s.loans, e.action.id);
    }
  }

  lemma MoveKeepsOneLoan(p: ReserveParams, s: Pool, move: Move)
    requires Happens(p, s, move) && NamesLiveLoan(s, move) && OneLoanEach(s.loans) && (move.Act? ==> OpensFirstLoan(s, move.event))
    ensures OneLoanEach(Moved(p, s, move).loans)
    ensures SeparatedMove(s, move) <==> (move.ReadBack? ==> Readable(s.reserve, move.now))
  {
    hide Next, Defined, NextReserve, Enabled, OneLoanEach, OpensFirstLoan, Separated, Readable, CanObserve, Observe;
    if move.Act? {
      OneLoanIsSeparated(s, move.event);
      StepKeepsOneLoan(p, s, move.event);
    }
  }

  lemma StepKeepsOneLoan(p: ReserveParams, s: Pool, e: Event)
    requires Possible(p, s, e) && OneLoanEach(s.loans) && OpensFirstLoan(s, e)
    ensures OneLoanEach(Next(p, s, e).loans)
  {
    hide NextReserve, Defined, NextDeposits, RayMul, RayDiv, LoanBorrowBalance, LiquidityIndex, VariableBorrowIndex, DebtBalance;
  }

  lemma {:induction false} RunKeepsOneLoan(p: ReserveParams, s: Pool, moves: seq<Move>)
    requires OneLoanEach(s.loans) && Feasible(p, s, moves) && OpensFirstThroughout(p, s, moves)
    ensures OneLoanEach(After(p, s, moves).loans)
    decreases |moves|
  {
    hide Happens, Moved, OneLoanEach, OpensFirstLoan, Readable, Allowed, NamesLiveLoan, SeparatedMove;
    if moves == [] {
    } else {
      MoveOfRun(p, s, moves[0]);
      MoveKeepsOneLoan(p, s, moves[0]);
      RunKeepsOneLoan(p, Moved(p, s, moves[0]), moves[1..]);
    }
  }

  /** With one live loan per borrower every action of a run is separated, so that its states all satisfy
      the invariant exactly when its readings are readable, in particular when there are none. */
  lemma {:induction false} SingleLoanRunsConserve(p: ReserveParams, s: Pool, moves: seq<Move>)
    requires Invariant(p, s) && OneLoanEach(s.loans) && Feasible(p, s, moves) && OpensFirstThroughout(p, s, moves)
    ensures InvariantThroughout(p, s, moves) <==> ReadableThroughout(p, s, moves)
    ensures (forall i :: 0 <= i < |moves| ==> moves[i].Act?) ==> InvariantThroughout(p, s, moves)
    decreases |moves|
  {
    hide Invariant, Happens, Moved, OneLoanEach, OpensFirstLoan, Readable, Allowed, NamesLiveLoan, SeparatedMove;
    if moves == [] {
    } else {
      MoveOfRun(p, s, moves[0]);
      MoveKeepsOneLoan(p, s, moves[0]);
      MoveInvariantIff(p, s, moves[0]);
      var s' := Moved(p, s, moves[0]);
      assert forall i :: 0 <= i < |moves| - 1 ==> moves[1..][i] == moves[i + 1];
      if Invariant(p, s') {
        SingleLoanRunsConserve(p, s', moves[1..]);
      } else {
        StartsInvariant(p, s', moves[1..]);
      }
    }
  }
}
