/** Runs from an unused pool on which properties fail that hold of all other runs. */
module Witnesses {
  import opened FixedPoint
  import opened Interest
  import opened Rates
  import opened Reserve
  import opened Accrual
  import opened Positions
  import opened Loans
  import opened Pool
  import opened PoolSteps
  import opened PoolRuns

  // ----- Runs at time zero -----

  /** A flat base rate and a climb up to half utilization; everything goes to the depositors. */
  function Params(base: nat, slope: nat): ReserveParams { ReserveParams(RAY / 2, base, slope, 0, 0) }

  const UNUSED: Pool := Fresh("reserve", "WETH", 0, 0)

  /** The unused reserve with the given scaled debt and liquidity, at time zero. */
  function At0(p: ReserveParams, scaled: int, available: int): ReserveData
    requires p.HasKink() && CanSettle(UNUSED.reserve, 0, scaled, available)
  {
    Settle(p, UNUSED.reserve, 0, scaled, available)
  }

  lemma At0Fields(p: ReserveParams, scaled: int, available: int)
    requires p.HasKink()
    ensures CanSettle(UNUSED.reserve, 0, scaled, available) <==> HasUtilization(RayMul(scaled, RAY), available + RayMul(scaled, RAY))
    ensures CanSettle(UNUSED.reserve, 0, scaled, available) ==>
      var r := At0(p, scaled, available);
      && r.address == UNUSED.reserve.address && r.symbol == UNUSED.reserve.symbol
      && r.lastUpdateTimestamp == 0 && r.liquidityIndex == RAY == r.variableBorrowIndex
      && r.scaledVariableDebt == scaled && r.availableLiquidity == available
      && r.totalVariableDebt == RayMul(scaled, RAY) && r.totalLiquidity == available + RayMul(scaled, RAY)
      && LiquidityIndex(r, 0) == RAY == VariableBorrowIndex(r, 0) && NormalizedIncome(r, 0) == RAY == NormalizedDebt(r, 0)
  {
    hide RayMul, RayDiv, VariableBorrowIndex, LiquidityIndex, NormalizedIncome, NormalizedDebt;
    UnusedIndices();
    if CanSettle(UNUSED.reserve, 0, scaled, available) {
      SettledFields(p, UNUSED.reserve, 0, scaled, available);
      SettledName(p, UNUSED.reserve, 0, scaled, available);
      NoTimeNoAccrual(At0(p, scaled, available));
    }
  }

  lemma SettledName(p: ReserveParams, r: ReserveData, t: int, scaled: int, available: int)
    requires p.HasKink() && CanSettle(r, t, scaled, available)
    ensures var r' := Settle(p, r, t, scaled, available);
      r'.address == r.address && r'.symbol == r.symbol
  {
  }

  lemma UnusedIndices()
    ensures LiquidityIndex(UNUSED.reserve, 0) == RAY == VariableBorrowIndex(UNUSED.reserve, 0)
  {
    NoTimeNoAccrual(UNUSED.reserve);
  }

  lemma Moves(p: ReserveParams, s1: int, a1: int, s2: int, a2: int)
    requires p.HasKink() && CanSettle(UNUSED.reserve, 0, s1, a1) && CanSettle(UNUSED.reserve, 0, s2, a2)
    ensures CanSettle(At0(p, s1, a1), 0, s2 - s1, a2 - a1)
    ensures Settle(p, At0(p, s1, a1), 0, s2 - s1, a2 - a1) == At0(p, s2, a2)
  {
    hide Reprice, CanSettle, Settle, LiquidityIndex, VariableBorrowIndex;
    UnusedIndices();
    assert s1 + (s2 - s1) == s2 && a1 + (a2 - a1) == a2;
    SettleTwice(p, UNUSED.reserve, 0, s1, a1, s2 - s1, a2 - a1);
  }

  /** At an index of one unit scaled amounts are amounts. */
  lemma OneToOne(x: int)
    requires x >= 0
    ensures RayMul(x, RAY) == x == RayDiv(x, RAY)
  {
    MulUnits(x, RAY);
    DivByOne(x, RAY);
  }

  function Loan(borrower: string, scaled: int): LoanData {
    LoanData(0, Active, borrower, "nft", 0, "weth", scaled, scaled, ZERO_ADDRESS, 0, 0, 0, 0, 0)
  }

  function Borrows(id: nat, borrower: string, amount: int): Event { Event(Borrow(id, Loan(borrower, 0), amount), 0, 0) }

  function Deposits(amount: int): Event { Event(Deposit("d", amount), 0, 0) }

  /** A pool at time zero with the given debt, liquidity and loans and one depositor. */
  function Opened(p: ReserveParams, deposited: int, scaled: int, available: int, loans: seq<LoanData>): Pool
    requires p.HasKink() && CanSettle(UNUSED.reserve, 0, scaled, available)
  {
    Pool(At0(p, scaled, available), map["d" := deposited], loans, 0)
  }

  lemma DepositStep(p: ReserveParams, amount: nat)
    requires p.HasKink()
    ensures Possible(p, UNUSED, Deposits(amount)) && CanSettle(UNUSED.reserve, 0, 0, amount)
    ensures Next(p, UNUSED, Deposits(amount)) == Opened(p, amount, 0, amount, [])
  {
    hide RayMul, RayDiv, VariableBorrowIndex, LiquidityIndex, LiquidityRate, VariableBorrowRate;
    UnusedIndices();
    OneToOne(0);
    OneToOne(amount);
    At0Fields(p, 0, amount);
    DepositSettlesIff(p, UNUSED.reserve, 0, amount);
  }

  lemma BorrowStep(p: ReserveParams, deposited: int, scaled: nat, available: nat, loans: seq<LoanData>, borrower: string, amount: nat)
    requires p.HasKink() && amount <= available && CanSettle(UNUSED.reserve, 0, scaled, available)
    ensures CanSettle(UNUSED.reserve, 0, scaled + amount, available - amount)
    ensures var s, e := Opened(p, deposited, scaled, available, loans), Borrows(|loans|, borrower, amount);
      && Possible(p, s, e)
      && Next(p, s, e) == Opened(p, deposited, scaled + amount, available - amount, loans + [Loan(borrower, amount)])
  {
    hide RayMul, RayDiv, VariableBorrowIndex, LiquidityIndex, LiquidityRate, VariableBorrowRate, NormalizedDebt, CanSettle, Settle,
      Observe, CanObserve, At0;
    OneToOne(scaled + amount);
    OneToOne(amount);
    At0Fields(p, scaled, available);
    At0Fields(p, scaled + amount, available - amount);
    Moves(p, scaled, available, scaled + amount, available - amount);
    ObserveOpened(p, scaled + amount, available - amount);
  }

  lemma ObserveOpened(p: ReserveParams, scaled: int, available: int)
    requires p.HasKink() && CanSettle(UNUSED.reserve, 0, scaled, available)
    ensures var r := At0(p, scaled, available);
      CanObserve(r, 0) && Observe(r, 0) == r
  {
    UnusedIndices();
    ObserveAtOnce(p, UNUSED.reserve, 0, scaled, available);
  }

  /** Deposit 100, then borrow 10 and 20 on two loans. */
  function Opening(first: string, second: string): seq<Move> {
    [Act(Deposits(100))] + [Act(Borrows(0, first, 10))] + [Act(Borrows(1, second, 20))]
  }

  function TwoLoans(p: ReserveParams, first: string, second: string): Pool
    requires p.HasKink() && CanSettle(UNUSED.reserve, 0, 30, 70)
  {
    Opened(p, 100, 30, 70, [Loan(first, 10), Loan(second, 20)])
  }

  lemma OpeningRun(p: ReserveParams, first: string, second: string)
    requires p.Valid()
    ensures CanSettle(UNUSED.reserve, 0, 30, 70) && Feasible(p, UNUSED, Opening(first, second))
    ensures After(p, UNUSED, Opening(first, second)) == TwoLoans(p, first, second)
    ensures Invariant(p, TwoLoans(p, first, second)) && CoveredThroughout(p, UNUSED, Opening(first, second))
    ensures DebtOf([Loan(first, 10), Loan(second, 20)], first) == if first == second then 30 else 10
    ensures LiveDebt([Loan(first, 10), Loan(second, 20)]) == 30
  {
    hide Invariant, Possible, Next, CanSettle, At0, LiveDebt, DebtOf;
    var a, b := Loan(first, 10), Loan(second, 20);
    DepositStep(p, 100);
    BorrowStep(p, 100, 0, 100, [], first, 10);
    BorrowStep(p, 100, 10, 90, [a], second, 20);
    assert [] + [a] == [a] && [a] + [b] == [a, b];
    NoRun(p);
    assert [] + [Act(Deposits(100))] == [Act(Deposits(100))];
    RunActs(p, UNUSED, [], Deposits(100));
    RunActs(p, UNUSED, [Act(Deposits(100))], Borrows(0, first, 10));
    RunActs(p, UNUSED, [Act(Deposits(100))] + [Act(Borrows(0, first, 10))], Borrows(1, second, 20));
    FreshInvariant(p, "reserve", "WETH", 0, 0);
    NothingToSeparate(UNUSED, Deposits(100));
    NothingToSeparate(Opened(p, 100, 0, 100, []), Borrows(0, first, 10));
    NothingToSeparate(Opened(p, 100, 10, 90, [a]), Borrows(1, second, 20));
    RunInvariantIff(p, UNUSED, Opening(first, second));
    NoLoans(first);
    AppendLoan([], a, first);
    AppendLoan([a], b, first);
  }

  lemma NoRun(p: ReserveParams)
    ensures Feasible(p, UNUSED, []) && After(p, UNUSED, []) == UNUSED && SeparatedThroughout(p, UNUSED, [])
  {
  }

  lemma NothingToSeparate(s: Pool, e: Event)
    requires !RepayLike(e.action)
    ensures Separated(s, e)
  {
  }

  lemma NoLoans(who: string)
    ensures LiveDebt([]) == 0 && DebtOf([], who) == 0
  {
  }

  // ----- A borrower with two loans -----

  function Repays(id: nat, amount: int, t: int): Event { Event(Repay(id, amount), t, t) }

  /** What repaying `amount` on a live loan comes to at an index of one unit. */
  predicate Asks(loans: seq<LoanData>, loan: LoanData, amount: int, repaid: int) {
    && loan.Live() && loan.scaledAmount >= 0
    && if RepaysAll(amount) then repaid == DebtOf(loans, loan.borrower) else repaid == amount <= loan.scaledAmount
  }

  lemma RepaymentAtZero(p: ReserveParams, scaled: int, available: int, loans: seq<LoanData>, id: nat, amount: int, repaid: nat)
    requires p.HasKink() && CanSettle(UNUSED.reserve, 0, scaled, available)
    requires id < |loans| && Asks(loans, loans[id], amount, repaid)
    ensures var s, e := Opened(p, 100, scaled, available, loans), Repays(id, amount, 0);
      Enabled(s, e) && Repayment(s, e) == repaid
  {
    hide RayMul, RayDiv, VariableBorrowIndex, LiquidityIndex, NormalizedDebt, CanSettle, At0, DebtOf;
    OneToOne(repaid);
    OneToOne(loans[id].scaledAmount);
    At0Fields(p, scaled, available);
  }

  /** A repayment at time zero moves as much debt as it says, or all of the borrower's. */
  lemma RepayStep(p: ReserveParams, scaled: int, available: int, loans: seq<LoanData>, id: nat, amount: int, repaid: nat)
    requires p.HasKink() && CanSettle(UNUSED.reserve, 0, scaled, available)
    requires CanSettle(UNUSED.reserve, 0, scaled - repaid, available + repaid)
    requires id < |loans| && Asks(loans, loans[id], amount, repaid)
    ensures var s, e := Opened(p, 100, scaled, available, loans), Repays(id, amount, 0);
      && Possible(p, s, e) && Next(p, s, e) == Pool(NextReserve(p, s, e), s.deposits, NextLoans(s, e, NextReserve(p, s, e)), 0)
      && NextReserve(p, s, e) == At0(p, scaled - repaid, available + repaid)
  {
    hide RayMul, RayDiv, VariableBorrowIndex, LiquidityIndex, LiquidityRate, VariableBorrowRate, NormalizedDebt, CanSettle, Settle,
      At0, DebtOf, RepaidLoan, Repayment, Enabled, RepaysAll;
    assert loans[id].Live();
    RepaymentAtZero(p, scaled, available, loans, id, amount, repaid);
    OneToOne(repaid);
    At0Fields(p, scaled, available);
    At0Fields(p, scaled - repaid, available + repaid);
    Moves(p, scaled, available, scaled - repaid, available + repaid);
  }

  /** The first of the two loans repaid with everything the borrower owes. */
  function Overpaid(): seq<LoanData> { [Loan("a", 10).(state := Repaid), Loan("a", 20)] }

  function OverpayingRun(): seq<Move> { Opening("a", "a") + [Act(Repays(0, MAX_UINT_AMOUNT, 0))] }

  lemma OverpayStep(p: ReserveParams)
    requires p.Valid()
    ensures CanSettle(UNUSED.reserve, 0, 30, 70) && CanSettle(UNUSED.reserve, 0, 0, 100)
    ensures var s, e := TwoLoans(p, "a", "a"), Repays(0, MAX_UINT_AMOUNT, 0);
      Possible(p, s, e) && Next(p, s, e) == Opened(p, 100, 0, 100, Overpaid()) && !Separated(s, e)
  {
    hide Possible, Next, NextReserve, NextLoans, Defined, CanSettle, At0, LiveDebt, DebtOf, RepaidLoan, RayMul, Repayment;
    var loans := [Loan("a", 10), Loan("a", 20)];
    OpeningRun(p, "a", "a");
    DepositStep(p, 100);
    RepayStep(p, 30, 70, loans, 0, MAX_UINT_AMOUNT, 30);
    At0Fields(p, 0, 100);
    ClosedLoan("a", 10, At0(p, 0, 100));
    OneLoanRepaid(TwoLoans(p, "a", "a"), 0, MAX_UINT_AMOUNT, At0(p, 0, 100));
    assert loans[0 := Loan("a", 10).(state := Repaid)] == Overpaid();
  }

  lemma OneLoanRepaid(s: Pool, id: nat, amount: int, after: ReserveData)
    requires LiveLoan(s, id) && after.variableBorrowIndex != 0
    ensures NextLoans(s, Repays(id, amount, 0), after) == s.loans[id := RepaidLoan(amount, s.loans[id], s.loans[id], after)]
  {
  }

  lemma ClosedLoan(borrower: string, scaled: nat, after: ReserveData)
    requires after.variableBorrowIndex == RAY
    ensures RepaidLoan(MAX_UINT_AMOUNT, Loan(borrower, scaled), Loan(borrower, scaled), after) == Loan(borrower, scaled).(state := Repaid)
  {
    OneToOne(scaled);
  }

  /** A borrower with two loans who repays one of them in full breaks the conservation of debt, without
      harming the reserve yet: nothing is owed to it while a loan of 20 is live. */
  lemma RepayAllBreaksConservation(p: ReserveParams)
    requires p.Valid()
    ensures CanSettle(UNUSED.reserve, 0, 0, 100)
    ensures Feasible(p, UNUSED, OverpayingRun()) && CoveredThroughout(p, UNUSED, OverpayingRun())
    ensures var s := After(p, UNUSED, OverpayingRun());
      s == Opened(p, 100, 0, 100, Overpaid()) && Healthy(p, s) && !Conserved(s)
  {
    hide Invariant, Healthy, Conserved, Enabled, Defined, NextReserve, Possible, Next, CanSettle, At0, LiveDebt, DebtOf, Covered, Separated,
      TwoLoans, Opened;
    OpeningRun(p, "a", "a");
    OverpayStep(p);
    var e := Repays(0, MAX_UINT_AMOUNT, 0);
    RunActs(p, UNUSED, Opening("a", "a"), e);
    StepOfRun(p, TwoLoans(p, "a", "a"), e);
    StepInvariantIff(p, TwoLoans(p, "a", "a"), e);
    StepConservesIff(p, TwoLoans(p, "a", "a"), e);
  }

  // ----- Repaying the second loan: what was overpaid becomes a negative debt -----

  const OVERDRAWN: seq<Move> := OverpayingRun() + [Act(Repays(1, 20, 0))]

  lemma RateOfNegativeDebt()
    ensures RayMul(-20, RAY) == -19 && CanSettle(UNUSED.reserve, 0, -20, 120)
    ensures At0(Params(0, RAY), -20, 120).variableBorrowRate == -376237623762376237623762372
  {
    hide VariableBorrowIndex, LiquidityIndex, LiquidityRate;
    UnusedIndices();
    assert RayMul(-20, RAY) == -19;
    assert RayDiv(-19, 101) == -188118811881188118811881187;
    assert RayDiv(-188118811881188118811881187, RAY / 2) == -376237623762376237623762373;
    assert RayMul(-376237623762376237623762373, RAY) == -376237623762376237623762372;
  }

  /** A year of that rate leaves about two thirds. */
  lemma YearOfNegativeRate()
    ensures RayMul(CompoundedInterest(-376237623762376237623762372, ONE_YEAR, 0), RAY) < RAY
  {
    assert RatePerSecond(-376237623762376237623762372) == -11930416785970834526;
    assert RayMul(-11930416785970834526, -11930416785970834526) == 142334844687;
    assert RayMul(142334844687, -11930416785970834526) == -1697;
    assert TruncDiv(ONE_YEAR * (ONE_YEAR - 1) * 142334844687, 2) == 70777372522856459151384000;
    assert TruncDiv(ONE_YEAR * (ONE_YEAR - 1) * (ONE_YEAR - 2) * -1697, 6) == -8870546389510267182864000;
    assert CompoundedInterest(-376237623762376237623762372, ONE_YEAR, 0) == 685669202370969954356584000;
    MulUnits(685669202370969954356584000, RAY);
  }

  /** If a repayment is not covered an index falls: after overpaying with two loans of 10 and 20,
      repaying the live loan's own 20 succeeds, leaves the reserve with a scaled debt of -20 and a
      negative borrow rate, and a year later the borrow index is lower than before. */
  lemma UncoveredIndexFalls()
    ensures var p := Params(0, RAY);
      && Feasible(p, UNUSED, OVERDRAWN) && !CoveredThroughout(p, UNUSED, OVERDRAWN)
      && var r := After(p, UNUSED, OVERDRAWN).reserve;
      && r.scaledVariableDebt == -20 && r.variableBorrowRate < 0
      && VariableBorrowIndex(r, ONE_YEAR) < r.variableBorrowIndex
  {
    hide Invariant, Healthy, Conserved, Enabled, Defined, NextReserve, Possible, Next, CanSettle, At0, LiveDebt, DebtOf, Covered,
      RayMul, CompoundedInterest;
    var p, e := Params(0, RAY), Repays(1, 20, 0);
    RepayAllBreaksConservation(p);
    RateOfNegativeDebt();
    YearOfNegativeRate();
    RepayStep(p, 0, 100, Overpaid(), 1, 20, 20);
    RunActs(p, UNUSED, OverpayingRun(), e);
    At0Fields(p, -20, 120);
    StepOfRun(p, Opened(p, 100, 0, 100, Overpaid()), e);
    StepHealthyIff(p, Opened(p, 100, 0, 100, Overpaid()), e);
    NegativeIsUnsound(Next(p, Opened(p, 100, 0, 100, Overpaid()), e), p);
  }

  lemma NegativeIsUnsound(s: Pool, p: ReserveParams)
    requires s.reserve.scaledVariableDebt < 0
    ensures !Healthy(p, s)
  {
  }

  // ----- Waiting: the two debt paths part on a reserve that owes nothing -----

  /** The coded factor for one unit of rate over a year. */
  const YEAR_AT_RAY: int := 2666669030479726772588992000

  lemma YearAtRay()
    ensures CompoundedInterest(RAY, ONE_YEAR, 0) == YEAR_AT_RAY == RayMul(YEAR_AT_RAY, RAY)
  {
    assert RatePerSecond(RAY) == 31709791983764586504;
    assert RayMul(31709791983764586504, 31709791983764586504) == 1005510907654;
    assert RayMul(1005510907654, 31709791983764586504) == 31885;
  }

  const WAITED: seq<Move> := OverpayingRun() + [Act(Repays(1, MAX_UINT_AMOUNT, ONE_YEAR))]

  /** After overpaying, a year later the two debt paths disagree and repaying everything, which the
      reserve lets happen, takes 53 off a scaled debt of nothing for a loan of 20. */
  lemma UncoveredOverpays(p: ReserveParams)
    requires p.Valid() && p.baseVariableBorrowRate == RAY
    ensures Feasible(p, UNUSED, OverpayingRun()) && Feasible(p, UNUSED, WAITED) && !CoveredThroughout(p, UNUSED, WAITED)
    ensures var s := After(p, UNUSED, OverpayingRun());
      && NormalizedDebt(s.reserve, ONE_YEAR) != VariableBorrowIndex(s.reserve, ONE_YEAR) == RAY
      && DebtOf(s.loans, "a") == 20 && RayDiv(DebtBalance(s.reserve, 20, ONE_YEAR), RAY) == 53
      && After(p, UNUSED, WAITED).reserve.scaledVariableDebt == -53
  {
    hide Invariant, Healthy, Conserved, Enabled, Defined, NextReserve, Possible, Next, CanSettle, At0, LiveDebt, DebtOf, Covered,
      RayMul, RayDiv, CompoundedInterest, VariableBorrowIndex, NormalizedDebt;
    RepayAllBreaksConservation(p);
    DebtlessYear(p);
    OverpaidDebt();
    OneToOne(53);
    LateRepay(p);
    RunActs(p, UNUSED, OverpayingRun(), Repays(1, MAX_UINT_AMOUNT, ONE_YEAR));
  }

  lemma OverpaidDebt()
    ensures DebtOf(Overpaid(), "a") == 20
  {
    hide DebtOf, LiveDebt;
    var a, b := Loan("a", 10).(state := Repaid), Loan("a", 20);
    NoLoans("a");
    AppendLoan([], a, "a");
    AppendLoan([a], b, "a");
    assert [] + [a] == [a] && [a] + [b] == Overpaid();
  }

  lemma DebtlessYear(p: ReserveParams)
    requires p.Valid() && p.baseVariableBorrowRate == RAY
    ensures CanSettle(UNUSED.reserve, 0, 0, 100)
    ensures var r := At0(p, 0, 100);
      && LiquidityIndex(r, ONE_YEAR) == RAY == VariableBorrowIndex(r, ONE_YEAR)
      && NormalizedDebt(r, ONE_YEAR) == YEAR_AT_RAY && DebtBalance(r, 20, ONE_YEAR) == 53
      && r.scaledVariableDebt == 0 && r.availableLiquidity == 100
  {
    hide RayMul, LiquidityIndex, VariableBorrowIndex, NormalizedDebt, DebtBalance, At0, CanSettle;
    DepositStep(p, 100);
    At0Fields(p, 0, 100);
    OneToOne(0);
    DebtlessRate(p);
    DebtlessAccrual(At0(p, 0, 100));
  }

  lemma DebtlessAccrual(r: ReserveData)
    requires r.totalVariableDebt == 0 == r.utilizationRate && r.variableBorrowRate == RAY
    requires r.liquidityIndex == RAY == r.variableBorrowIndex && r.lastUpdateTimestamp == 0
    ensures LiquidityIndex(r, ONE_YEAR) == RAY == VariableBorrowIndex(r, ONE_YEAR)
    ensures NormalizedDebt(r, ONE_YEAR) == YEAR_AT_RAY && DebtBalance(r, 20, ONE_YEAR) == 53
  {
    hide RayMul, CompoundedInterest, LinearInterest;
    YearAtRay();
    RoundedAmounts();
  }

  lemma RoundedAmounts()
    ensures RayMul(20, YEAR_AT_RAY) == 53 && RayMul(-53, RAY) == -52
  {
  }

  lemma DebtlessRate(p: ReserveParams)
    requires p.Valid() && p.baseVariableBorrowRate == RAY && CanSettle(UNUSED.reserve, 0, 0, 100)
    ensures At0(p, 0, 100).variableBorrowRate == RAY && At0(p, 0, 100).utilizationRate == 0
  {
    hide RayMul, RayDiv, VariableBorrowIndex, VariableBorrowRate, LiquidityIndex, LiquidityRate;
    UnusedIndices();
    OneToOne(0);
    CurveAnchors(p);
  }

  lemma LateRepayment(s: Pool, t: int, debt: int, balance: int)
    requires s.clock <= t && |s.loans| == 2 && s.loans[1].Live()
    requires DebtOf(s.loans, s.loans[1].borrower) == debt && DebtBalance(s.reserve, debt, t) == balance
    ensures Enabled(s, Repays(1, MAX_UINT_AMOUNT, t)) && Repayment(s, Repays(1, MAX_UINT_AMOUNT, t)) == balance
  {
    hide RayMul, RayDiv, LiquidityIndex, VariableBorrowIndex, NormalizedDebt, DebtOf, LoanBorrowBalance, CTokenBalance, DebtBalance;
  }

  /** Repaying everything on the second loan a year later. */
  lemma LateRepay(p: ReserveParams)
    requires p.Valid() && p.baseVariableBorrowRate == RAY
    ensures CanSettle(UNUSED.reserve, 0, 0, 100)
    ensures var s, e := Opened(p, 100, 0, 100, Overpaid()), Repays(1, MAX_UINT_AMOUNT, ONE_YEAR);
      Possible(p, s, e) && !Covered(s, e) && Next(p, s, e).reserve.scaledVariableDebt == -53
  {
    hide DebtOf, At0, CanSettle, DebtBalance, VariableBorrowIndex, NormalizedDebt, LiquidityIndex, Possible, Covered, Next, Enabled;
    DebtlessYear(p);
    OverpaidDebt();
    LateRepayment(Opened(p, 100, 0, 100, Overpaid()), ONE_YEAR, 20, 53);
    TakesFiftyThree(p, Opened(p, 100, 0, 100, Overpaid()), Repays(1, MAX_UINT_AMOUNT, ONE_YEAR));
  }

  lemma TakesFiftyThree(p: ReserveParams, s: Pool, e: Event)
    requires p.HasKink() && e.action.Repay? && LiveLoan(s, e.action.id) && Enabled(s, e) && Repayment(s, e) == 53
    requires LiquidityIndex(s.reserve, e.tx) == RAY == VariableBorrowIndex(s.reserve, e.tx)
    requires s.reserve.scaledVariableDebt == 0 && s.reserve.availableLiquidity == 100
    ensures Possible(p, s, e) && !Covered(s, e) && Next(p, s, e).reserve.scaledVariableDebt == -53
  {
    hide RayMul, RayDiv, LiquidityRate, VariableBorrowRate, LiquidityIndex, VariableBorrowIndex, NormalizedDebt, UtilizationRate, Enabled,
      Repayment, RepaidLoan;
    OneToOne(53);
    RoundedAmounts();
  }

  // ----- The expected record of one of two borrowers -----

  /** With two borrowers, the expected record of the one who borrows again shows the debt of both. */
  lemma BorrowerRecordMisses(p: ReserveParams, user: UserReserveData)
    requires p.Valid()
    ensures Feasible(p, UNUSED, Opening("a", "b"))
    ensures var s, e := After(p, UNUSED, Opening("a", "b")), Borrows(0, "a", 5);
      && Invariant(p, s) && Possible(p, s, e)
      && UserAfterBorrow(5, s.reserve, Next(p, s, e).reserve, user, 0).scaledVariableDebt != DebtOf(Next(p, s, e).loans, "a")
  {
    hide Invariant, Defined, Next, NextReserve, RayMul, RayDiv, DebtOf, LiveDebt, UserAfterBorrow, CanSettle, At0, Feasible, After;
    OpeningRun(p, "a", "b");
    At0Fields(p, 30, 70);
    BorrowerRecordExactIff(p, TwoLoans(p, "a", "b"), Borrows(0, "a", 5), user);
  }
}
