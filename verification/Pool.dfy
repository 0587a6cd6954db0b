/** Whole runs of the lending pool: the reserve, the depositors' scaled balances and the loans,
    driven by the actions of `test/helpers/actions.ts`.

    Before every action the suite reads a borrower's debt back from the protocol; here it is the
    debt of the borrower's live loans. */
module Pool {
  import opened FixedPoint
  import opened Rates
  import opened Reserve
  import opened Accrual
  import opened Positions
  import opened Loans

  datatype Pool = Pool(reserve: ReserveData, deposits: map<string, int>, loans: seq<LoanData>, clock: int)
  {
    function ScaledCTokens(user: string): int {
      if user in deposits then deposits[user] else 0
    }
  }

  datatype Action =
    | Deposit(user: string, amount: int)
    | Withdraw(user: string, amount: int)
    | Borrow(id: nat, identity: LoanData, amount: int)
    | Repay(id: nat, amount: int)
    | BuyItNow(id: nat, price: int, buyer: string)
    | Redeem(id: nat, amount: int)
    | Liquidate(id: nat)

  /** An action, the time of its transaction, and the time at which its effect is read back. */
  datatype Event = Event(action: Action, tx: int, now: int)

  /** A run performs actions and reads the reserve's record back from the protocol in between. */
  datatype Move = Act(event: Event) | ReadBack(now: int)

  /** The actions whose effect on the reserve is that of a repayment. */
  predicate RepayLike(a: Action) { a.Repay? || a.BuyItNow? || a.Redeem? || a.Liquidate? }

  // ----- When an action succeeds -----

  predicate LiveLoan(s: Pool, id: nat) { id < |s.loans| && s.loans[id].Live() }

  predicate Affordable(s: Pool, id: nat, amount: int, t: int)
    requires LiveLoan(s, id)
  {
    0 <= amount <= LoanBorrowBalance(s.reserve, s.loans[id], t)
  }

  predicate Enabled(s: Pool, e: Event) {
    && s.clock <= e.tx <= e.now
    && (!e.action.Borrow? ==> e.now == e.tx)
    && match e.action
       case Deposit(user, amount) => amount >= 0
       case Withdraw(user, amount) =>
         var balance := CTokenBalance(s.reserve, s.ScaledCTokens(user), e.tx);
         0 <= WithdrawnAmount(amount, balance) <= balance && WithdrawnAmount(amount, balance) <= s.reserve.availableLiquidity
       case Borrow(id, _, amount) =>
         0 <= amount <= s.reserve.availableLiquidity && (id == |s.loans| || LiveLoan(s, id))
       case Repay(id, amount) => LiveLoan(s, id) && (RepaysAll(amount) || Affordable(s, id, amount, e.tx))
       case BuyItNow(id, _, _) => LiveLoan(s, id)
       case Redeem(id, amount) => LiveLoan(s, id) && !RepaysAll(amount) && Affordable(s, id, amount, e.tx)
       case Liquidate(id) => LiveLoan(s, id)
  }

  // ----- What an action does -----

  function RequestedRepayment(s: Pool, e: Event): int
    requires RepayLike(e.action) && LiveLoan(s, e.action.id)
  {
    match e.action
    case Repay(_, amount) => amount
    case BuyItNow(_, _, _) => 0
    case Redeem(_, amount) => amount
    case Liquidate(id) => LoanBorrowBalance(s.reserve, s.loans[id], e.now)
  }

  /** The amount the reserve receives: the sentinel stands for the borrower's whole debt. */
  function Repayment(s: Pool, e: Event): int
    requires RepayLike(e.action) && LiveLoan(s, e.action.id)
  {
    RepaidAmount(RequestedRepayment(s, e), DebtBalance(s.reserve, DebtOf(s.loans, s.loans[e.action.id].borrower), e.tx))
  }

  /** No arithmetic of the action divides by zero. */
  predicate Defined(p: ReserveParams, s: Pool, e: Event) {
    && p.HasKink() && LiquidityIndex(s.reserve, e.tx) != 0 && VariableBorrowIndex(s.reserve, e.tx) != 0
    && match e.action
       case Deposit(_, amount) => HasUtilization(DebtAt(s.reserve, e.tx, 0), s.reserve.totalLiquidity + amount)
       case Withdraw(user, amount) =>
         CanSettle(s.reserve, e.tx, 0, -WithdrawnAmount(amount, CTokenBalance(s.reserve, s.ScaledCTokens(user), e.tx)))
       case Borrow(_, _, amount) => CanBorrow(p, s.reserve, amount, e.tx, e.now)
       case _ => LiveLoan(s, e.action.id) && CanRepay(s.reserve, Repayment(s, e), e.tx)
  }

  function NextReserve(p: ReserveParams, s: Pool, e: Event): ReserveData
    requires Defined(p, s, e)
  {
    match e.action
    case Deposit(_, amount) => Deposited(p, s.reserve, e.tx, amount)
    case Withdraw(user, amount) =>
      Settle(p, s.reserve, e.tx, 0, -WithdrawnAmount(amount, CTokenBalance(s.reserve, s.ScaledCTokens(user), e.tx)))
    case Borrow(_, _, amount) => Borrowed(p, s.reserve, amount, e.tx, e.now)
    case _ => Settled(p, s.reserve, Repayment(s, e), e.tx)
  }

  function NextDeposits(s: Pool, e: Event): map<string, int>
    requires LiquidityIndex(s.reserve, e.tx) != 0
  {
    match e.action
    case Deposit(user, amount) =>
      s.deposits[user := ScaledCTokenBalance(s.ScaledCTokens(user), LiquidityIndex(s.reserve, e.tx), amount, 0)]
    case Withdraw(user, amount) =>
      var taken := WithdrawnAmount(amount, CTokenBalance(s.reserve, s.ScaledCTokens(user), e.tx));
      s.deposits[user := ScaledCTokenBalance(s.ScaledCTokens(user), LiquidityIndex(s.reserve, e.tx), 0, taken)]
    case _ => s.deposits
  }

  /** The loan record before a borrow: a new loan starts blank. */
  function LoanBeforeBorrow(s: Pool, id: nat, identity: LoanData): LoanData {
    if id < |s.loans| then s.loans[id] else identity.Blank()
  }

  function NextLoan(s: Pool, e: Event, after: ReserveData): LoanData
    requires after.variableBorrowIndex != 0
    requires e.action.Borrow? || (RepayLike(e.action) && LiveLoan(s, e.action.id))
  {
    match e.action
    case Borrow(id, identity, amount) =>
      LoanAfterBorrow(amount, LoanBeforeBorrow(s, id, identity), LoanBeforeBorrow(s, id, identity), after, e.now)
    case Repay(id, amount) => RepaidLoan(amount, s.loans[id], s.loans[id], after)
    case BuyItNow(id, price, buyer) => LoanAfterBuyItNow(price, s.reserve, after, s.loans[id], s.loans[id], buyer, e.now)
    case Redeem(id, amount) => LoanAfterRedeem(amount, s.loans[id], s.loans[id], after)
    case Liquidate(id) => LoanAfterLiquidate(s.reserve, after, s.loans[id], s.loans[id], e.now)
  }

  function NextLoans(s: Pool, e: Event, after: ReserveData): seq<LoanData>
    requires after.variableBorrowIndex != 0
    requires e.action.Borrow? ==> e.action.id <= |s.loans|
    requires RepayLike(e.action) ==> LiveLoan(s, e.action.id)
  {
    if e.action.Deposit? || e.action.Withdraw? then s.loans
    else if e.action.id == |s.loans| then s.loans + [NextLoan(s, e, after)]
    else s.loans[e.action.id := NextLoan(s, e, after)]
  }

  function Next(p: ReserveParams, s: Pool, e: Event): Pool
    requires Enabled(s, e) && Defined(p, s, e)
    requires NextReserve(p, s, e).variableBorrowIndex != 0
  {
    var after := NextReserve(p, s, e);
    Pool(after, NextDeposits(s, e), NextLoans(s, e, after), e.now)
  }

  predicate Possible(p: ReserveParams, s: Pool, e: Event) {
    Enabled(s, e) && Defined(p, s, e) && NextReserve(p, s, e).variableBorrowIndex != 0
  }

  /** Nothing is moved by a reading but the recorded debt, total and utilization. */
  function Reread(s: Pool, now: int): Pool
    requires CanObserve(s.reserve, now)
  {
    s.(reserve := Observe(s.reserve, now), clock := now)
  }

  /** The move is one that succeeds. */
  predicate Allowed(s: Pool, move: Move) {
    match move
    case Act(e) => Enabled(s, e)
    case ReadBack(now) => s.clock <= now
  }

  /** It succeeds and nothing divides by zero on the way. */
  predicate Happens(p: ReserveParams, s: Pool, move: Move) {
    match move
    case Act(e) => Possible(p, s, e)
    case ReadBack(now) => s.clock <= now && CanObserve(s.reserve, now)
  }

  function Moved(p: ReserveParams, s: Pool, move: Move): Pool
    requires Happens(p, s, move)
  {
    match move
    case Act(e) => Next(p, s, e)
    case ReadBack(now) => Reread(s, now)
  }

  /** The reserve as stored by the transaction. Only a borrow may be read back later than that. */
  function AtTransaction(p: ReserveParams, s: Pool, e: Event): ReserveData
    requires Defined(p, s, e)
  {
    match e.action
    case Borrow(_, _, amount) => Settle(p, s.reserve, e.tx, RayDiv(amount, VariableBorrowIndex(s.reserve, e.tx)), -amount)
    case _ => NextReserve(p, s, e)
  }

  // ----- What runs keep -----

  /** A sound reserve, and nobody's balance or live loan below zero. */
  predicate Healthy(p: ReserveParams, s: Pool) {
    && p.Valid() && Sound(s.reserve) && s.reserve.lastUpdateTimestamp <= s.clock
    && (forall user :: user in s.deposits ==> s.deposits[user] >= 0)
    && NonNegative(s.loans)
  }

  /** The reserve owes nothing but what live loans owe it. */
  predicate Conserved(s: Pool) { s.reserve.scaledVariableDebt == LiveDebt(s.loans) }

  predicate Invariant(p: ReserveParams, s: Pool) { Healthy(p, s) && Conserved(s) }

  /** A repayment takes at most the reserve's own scaled debt off it. */
  predicate Covered(s: Pool, e: Event)
    requires RepayLike(e.action) ==> LiveLoan(s, e.action.id)
  {
    RepayLike(e.action) ==>
      VariableBorrowIndex(s.reserve, e.tx) != 0
      && RayDiv(Repayment(s, e), VariableBorrowIndex(s.reserve, e.tx)) <= s.reserve.scaledVariableDebt
  }

  /** A repayment of everything repays the borrower's whole debt although it closes one loan only. */
  predicate Separated(s: Pool, e: Event)
    requires RepayLike(e.action) ==> LiveLoan(s, e.action.id)
  {
    RepayLike(e.action) && RepaysAll(RequestedRepayment(s, e)) ==>
      DebtOf(s.loans, s.loans[e.action.id].borrower) == s.loans[e.action.id].scaledAmount
  }

  // ----- The same conditions on moves -----

  predicate NamesLiveLoan(s: Pool, move: Move) { move.Act? && RepayLike(move.event.action) ==> LiveLoan(s, move.event.action.id) }

  predicate CoveredMove(s: Pool, move: Move)
    requires NamesLiveLoan(s, move)
  {
    match move
    case Act(e) => Covered(s, e)
    case ReadBack(now) => Readable(s.reserve, now)
  }

  predicate SeparatedMove(s: Pool, move: Move)
    requires NamesLiveLoan(s, move)
  {
    match move
    case Act(e) => Separated(s, e)
    case ReadBack(now) => Readable(s.reserve, now)
  }
}
