/** Whether the pool can pay its depositors: what a step does to their claims, and which runs leave them
    covered. */
module PoolSolvency {
  import opened FixedPoint
  import opened Interest
  import opened Rates
  import opened Reserve
  import opened Accrual
  import opened Positions
  import opened Loans
  import opened Pool
  import opened PoolSteps
  import opened PoolRuns
  import opened Solvency

  // ----- One step -----

  predicate MovesDeposits(a: Action) { a.Deposit? || a.Withdraw? }

  /** The index by which an action scales its amount. */
  function ScalingIndex(s: Pool, e: Event): int {
    if MovesDeposits(e.action) then LiquidityIndex(s.reserve, e.tx) else VariableBorrowIndex(s.reserve, e.tx)
  }

  /** What the rounding of its one scaled amount adds to the claims, or takes off the debt. */
  function Rounding(s: Pool, e: Event): int
    requires LiquidityIndex(s.reserve, e.tx) != 0 && VariableBorrowIndex(s.reserve, e.tx) != 0
    requires RepayLike(e.action) ==> LiveLoan(s, e.action.id)
  {
    var r, t := s.reserve, e.tx;
    var index, debtIndex := LiquidityIndex(r, t), VariableBorrowIndex(r, t);
    match e.action
    case Deposit(user, amount) =>
      var scaled := s.ScaledCTokens(user);
      RayMul(scaled + RayDiv(amount, index), index) - RayMul(scaled, index) - amount
    case Withdraw(user, amount) =>
      var scaled, taken := s.ScaledCTokens(user), WithdrawnAmount(amount, CTokenBalance(r, s.ScaledCTokens(user), t));
      RayMul(scaled - RayDiv(taken, index), index) - RayMul(scaled, index) + taken
    case Borrow(_, _, amount) =>
      amount - DebtAt(r, t, RayDiv(amount, debtIndex)) + DebtAt(r, t, 0)
    case _ =>
      -Repayment(s, e) - DebtAt(r, t, -RayDiv(Repayment(s, e), debtIndex)) + DebtAt(r, t, 0)
  }

  /** The rounding is at most one unit and half the index. */
  lemma RoundingBounds(p: ReserveParams, s: Pool, e: Event)
    requires Healthy(p, s) && Enabled(s, e) && Covered(s, e)
    ensures LiquidityIndex(s.reserve, e.tx) >= RAY && VariableBorrowIndex(s.reserve, e.tx) >= RAY
    ensures -(2 * RAY + ScalingIndex(s, e)) <= 2 * RAY * Rounding(s, e) <= 2 * RAY + ScalingIndex(s, e)
  {
    hide RayMul, RayDiv, LiquidityIndex, VariableBorrowIndex, Repayment, NormalizedIncome, NonNegative, Sound, DebtAt, RequestedRepayment;
    var r, t := s.reserve, e.tx;
    IndicesAtLeastRay(r, t);
    ScaledNotNegative(p, s);
    match e.action
    case Deposit(user, amount) =>
      DriftOfAdded(s.ScaledCTokens(user), LiquidityIndex(r, t), amount);
    case Withdraw(user, amount) =>
      var taken := WithdrawnAmount(amount, CTokenBalance(r, s.ScaledCTokens(user), t));
      AccrualsAgree(r, t);
      PartialRepayFits(taken, s.ScaledCTokens(user), LiquidityIndex(r, t));
      DriftOfTaken(s.ScaledCTokens(user), LiquidityIndex(r, t), taken);
    case Borrow(_, _, amount) =>
      DebtRounding(r, t, amount);
    case _ =>
      RepaymentInScaledTerms(p, s, e);
      DebtRounding(r, t, Repayment(s, e));
  }

  lemma DebtRounding(r: ReserveData, t: int, amount: int)
    requires r.scaledVariableDebt >= 0 && VariableBorrowIndex(r, t) >= RAY && amount >= 0
    ensures var index := VariableBorrowIndex(r, t);
      var q := RayDiv(amount, index);
      && -(2 * RAY + index) <= 2 * RAY * (amount - DebtAt(r, t, q) + DebtAt(r, t, 0)) <= 2 * RAY + index
      && (q <= r.scaledVariableDebt ==>
           -(2 * RAY + index) <= 2 * RAY * (-amount - DebtAt(r, t, -q) + DebtAt(r, t, 0)) <= 2 * RAY + index)
  {
    hide RayMul, RayDiv, VariableBorrowIndex;
    var scaled, index := r.scaledVariableDebt, VariableBorrowIndex(r, t);
    var q := RayDiv(amount, index);
    assert scaled + 0 == scaled && scaled + -q == scaled - q;
    DriftOfAdded(scaled, index, amount);
    if q <= scaled {
      DriftOfTaken(scaled, index, amount);
    }
  }

  lemma ScaledNotNegative(p: ReserveParams, s: Pool)
    requires Healthy(p, s)
    ensures s.reserve.scaledVariableDebt >= 0 && AllNonNegative(s.deposits)
    ensures forall user :: s.ScaledCTokens(user) >= 0
  {
  }

  /** What an action adds to the claims. */
  lemma StepMovesClaims(p: ReserveParams, s: Pool, e: Event)
    requires Healthy(p, s) && Enabled(s, e) && Covered(s, e)
    ensures LiquidityIndex(s.reserve, e.tx) >= RAY && VariableBorrowIndex(s.reserve, e.tx) >= RAY
    ensures var index := LiquidityIndex(s.reserve, e.tx);
      Claims(NextDeposits(s, e), index) == Claims(s.deposits, index) +
        match e.action
        case Deposit(_, amount) => amount + Rounding(s, e)
        case Withdraw(user, amount) => -WithdrawnAmount(amount, CTokenBalance(s.reserve, s.ScaledCTokens(user), e.tx)) + Rounding(s, e)
        case _ => 0
  {
    hide RayMul, RayDiv, LiquidityIndex, VariableBorrowIndex, CTokenBalance, Claims, Sound, NonNegative, Repayment;
    var index := LiquidityIndex(s.reserve, e.tx);
    IndicesAtLeastRay(s.reserve, e.tx);
    RayDivOfAmount(0, index);
    match e.action
    case Deposit(user, amount) =>
      ClaimsUpdate(s.deposits, user, NextDeposits(s, e)[user], index);
    case Withdraw(user, amount) =>
      ClaimsUpdate(s.deposits, user, NextDeposits(s, e)[user], index);
    case _ =>
  }

  /** The recorded total after the transaction. */
  lemma StepMovesTotal(p: ReserveParams, s: Pool, e: Event)
    requires Healthy(p, s) && Enabled(s, e) && Covered(s, e)
    ensures Defined(p, s, e)
    ensures LiquidityIndex(s.reserve, e.tx) >= RAY && VariableBorrowIndex(s.reserve, e.tx) >= RAY
    ensures AtTransaction(p, s, e).totalLiquidity == match e.action
      case Deposit(_, amount) => s.reserve.totalLiquidity + amount
      case Withdraw(user, amount) =>
        Assets(s.reserve, e.tx) - WithdrawnAmount(amount, CTokenBalance(s.reserve, s.ScaledCTokens(user), e.tx))
      case _ => Assets(s.reserve, e.tx) - Rounding(s, e)
    ensures e.action.Deposit? ==>
      var b := AtTransaction(p, s, e);
      b.availableLiquidity + b.totalVariableDebt == Assets(s.reserve, e.tx) + e.action.amount
  {
    hide RayMul, RayDiv, LiquidityIndex, VariableBorrowIndex, CTokenBalance, NonNegative, LiquidityRate, VariableBorrowRate, UtilizationRate,
      Repayment, Priced, Covered;
    IndicesAtLeastRay(s.reserve, e.tx);
    StepAtTransaction(p, s, e);
  }

  /** The claims are within the recorded total. */
  ghost predicate Backed(r: ReserveData, deposits: map<string, int>) { Claims(deposits, r.liquidityIndex) <= r.totalLiquidity }

  /** What an action's recorded total starts from: a deposit adds to the old record, everything else to
      what the reserve holds and is owed. */
  function Base(s: Pool, e: Event): int {
    if e.action.Deposit? then s.reserve.totalLiquidity else Assets(s.reserve, e.tx)
  }

  /** A transaction leaves the claims within the recorded total exactly when, up to the rounding of its
      one amount, they were within what that total starts from: for a deposit, within the old record. */
  lemma StepBackedIff(p: ReserveParams, s: Pool, e: Event)
    requires Healthy(p, s) && Enabled(s, e) && Covered(s, e)
    ensures Defined(p, s, e)
    ensures LiquidityIndex(s.reserve, e.tx) >= RAY && VariableBorrowIndex(s.reserve, e.tx) >= RAY
    ensures Backed(AtTransaction(p, s, e), NextDeposits(s, e))
       <==> Claims(s.deposits, LiquidityIndex(s.reserve, e.tx)) + Rounding(s, e) <= Base(s, e)
  {
    hide RayMul, RayDiv, LiquidityIndex, VariableBorrowIndex, CTokenBalance, Claims, Healthy, Enabled, Covered, Rounding, Assets, Defined,
      NextDeposits, AtTransaction, Sound, Priced, Balanced, CanObserve;
    StepAtTransaction(p, s, e);
    StepMovesClaims(p, s, e);
    StepMovesTotal(p, s, e);
  }

  /** After any covered action, deposits included: over any period all claims grow by no more than the
      interest on the debt, up to the rounding, if the transaction left them within the recorded total; and
      what they exceed it by, which nobody pays for, earns the linear factor on top. */
  lemma StepBoundsClaims(p: ReserveParams, s: Pool, e: Event, n: nat)
    requires Healthy(p, s) && Enabled(s, e) && Covered(s, e)
    ensures Defined(p, s, e) && LiquidityIndex(s.reserve, e.tx) != 0
    ensures var b, deposits, t := AtTransaction(p, s, e), NextDeposits(s, e), e.tx + n;
      var bound := 2 * RAY * ONE_YEAR * (b.totalVariableDebt * (Compounded(b, t) - RAY))
                   + EarningSlack(b.totalVariableDebt, b.totalLiquidity, b.variableBorrowRate, n)
                   + RAY * ONE_YEAR * RoundingSlack(|deposits|, Sum(deposits), Linear(b, t));
      var gap := 2 * RAY * RAY * ONE_YEAR * (Claims(deposits, LiquidityIndex(b, t)) - b.totalLiquidity);
      && gap <= 2 * RAY * ONE_YEAR * (Linear(b, t) * (Claims(deposits, b.liquidityIndex) - b.totalLiquidity)) + bound
      && (Backed(b, deposits) ==> gap <= bound)
  {
    hide RayMul, RayDiv, LiquidityIndex, VariableBorrowIndex, CTokenBalance, Claims, Sum, Enabled, Covered, Defined, NextDeposits, AtTransaction,
      Balanced, CanObserve, EarningSlack, Linear, Compounded, LiquidityRate, VariableBorrowRate, UtilizationRate, NonNegative, Sound;
    StepAtTransaction(p, s, e);
    StepKeepsDeposits(p, s, e);
    var b, deposits := AtTransaction(p, s, e), NextDeposits(s, e);
    IndexIsIncome(b, e.tx + n);
    ClaimsOverPeriod(p, b, deposits, n);
    if Backed(b, deposits) {
      MulMonotone(Linear(b, e.tx + n), Claims(deposits, b.liquidityIndex) - b.totalLiquidity, 0);
    }
  }

  /** An action moves the excess of the claims over what the reserve holds and is owed by the rounding of
      its one amount only, at whatever time it is read back. */
  lemma StepMovesExcess(p: ReserveParams, s: Pool, e: Event)
    requires Healthy(p, s) && Enabled(s, e) && Covered(s, e)
    ensures Possible(p, s, e)
    ensures LiquidityIndex(s.reserve, e.tx) >= RAY && VariableBorrowIndex(s.reserve, e.tx) >= RAY
    ensures var s' := Next(p, s, e);
      && s'.reserve.lastUpdateTimestamp == e.tx
      && Excess(s'.reserve, s'.deposits, e.tx) == Excess(s.reserve, s.deposits, e.tx) + Rounding(s, e)
  {
    hide RayMul, RayDiv, LiquidityIndex, VariableBorrowIndex, CTokenBalance, Claims, Healthy, Enabled, Covered, Rounding, Assets, Defined,
      NextDeposits, NextReserve, NextLoans, AtTransaction, Sound, Priced, CanObserve, Observe;
    StepAtTransaction(p, s, e);
    StepKeepsReserve(p, s, e);
    StepOfRun(p, s, e);
    StepMovesClaims(p, s, e);
    StepMovesTotal(p, s, e);
    var b := AtTransaction(p, s, e);
    AssetsAtUpdate(b);
    if e.action.Borrow? {
      ReadingKeepsPosition(b, e.now, e.tx);
    }
  }

  lemma AssetsAtUpdate(b: ReserveData)
    requires Sound(b) && b.totalVariableDebt == RayMul(b.scaledVariableDebt, b.variableBorrowIndex)
    ensures LiquidityIndex(b, b.lastUpdateTimestamp) == b.liquidityIndex
    ensures Assets(b, b.lastUpdateTimestamp) == b.availableLiquidity + b.totalVariableDebt
  {
    hide RayMul, LiquidityIndex, DebtAt;
    AtLastUpdate(b);
  }

  /** Reading a record back moves neither what accrues from it nor what it was at its update. */
  lemma ReadingKeepsPosition(r: ReserveData, now: int, t: int)
    requires Sound(r) && CanObserve(r, now) && Sound(Observe(r, now)) && t >= r.lastUpdateTimestamp
    ensures var read := Observe(r, now);
      && read.lastUpdateTimestamp == r.lastUpdateTimestamp
      && LiquidityIndex(read, t) == LiquidityIndex(r, t) && Assets(read, t) == Assets(r, t)
      && TotalAtUpdate(read) == TotalAtUpdate(r) && DebtAtUpdate(read) == DebtAtUpdate(r)
      && forall p, short :: PricedShort(p, r, short) ==> PricedShort(p, read, short)
  {
    hide RayMul, NormalizedDebt, UtilizationRate, LinearInterest, CompoundedInterest;
    IndexIsIncome(r, t);
    IndexIsIncome(Observe(r, now), t);
  }

  // ----- What the total was short of when the rates were set -----

  /** A deposit sets its rates from the old record; everything else from what there is. */
  function ShortBy(s: Pool, e: Event): int { Assets(s.reserve, e.tx) - Base(s, e) }

  /** A deposit is short of nothing if its record was read at its own time. */
  lemma ReadMakesTimely(p: ReserveParams, s: Pool, e: Event)
    requires Healthy(p, s) && s.clock <= e.tx
    ensures CanObserve(s.reserve, e.tx) && ShortBy(Reread(s, e.tx), e) == 0
  {
    hide RayMul, NormalizedDebt, VariableBorrowIndex, UtilizationRate, Sound, NonNegative, CanSettle;
    ReadDepositSettles(p, s.reserve, e.tx, 0);
  }

  /** A record whose rates were set from a total that was not short can be read back at any time. */
  lemma CurrentIsReadable(p: ReserveParams, r: ReserveData, now: int)
    requires p.Valid() && Sound(r) && PricedShort(p, r, 0) && now >= r.lastUpdateTimestamp
    ensures Readable(r, now)
  {
    hide RayMul, RayDiv, NormalizedDebt, VariableBorrowIndex, LiquidityRate, VariableBorrowRate, UtilizationRate;
    PricedRecordSound(p, r, 0);
    IndicesGrow(r, now);
    MoreIndexMoreDebt(r.scaledVariableDebt, r.variableBorrowIndex, NormalizedDebt(r, now));
    DebtAtLeastScaled(r.scaledVariableDebt, r.variableBorrowIndex);
    UtilizationAtMostOne(DebtAtUpdate(r), TotalAtUpdate(r));
  }

  /** Every transaction records a total that is short of exactly `ShortBy`, and sets its rates from it. */
  lemma StepIsPriced(p: ReserveParams, s: Pool, e: Event)
    requires Healthy(p, s) && Enabled(s, e) && Covered(s, e)
    ensures Possible(p, s, e)
    ensures Shortfall(AtTransaction(p, s, e)) == ShortBy(s, e)
    ensures ShortBy(s, e) == 0 ==> Balanced(NextReserve(p, s, e))
    ensures PricedShort(p, NextReserve(p, s, e), ShortBy(s, e))
  {
    hide RayMul, RayDiv, LiquidityIndex, VariableBorrowIndex, CTokenBalance, Enabled, Covered, Rounding, Defined, NextReserve, AtTransaction,
      LiquidityRate, VariableBorrowRate, UtilizationRate, CanObserve, Observe, NonNegative, Repayment, Sound, Assets;
    StepAtTransaction(p, s, e);
    StepKeepsReserve(p, s, e);
    StepMovesTotal(p, s, e);
    var b := AtTransaction(p, s, e);
    if e.action.Deposit? && ShortBy(s, e) == 0 {
      DepositWithin(b);
    }
    RecordIsPriced(p, b);
    if e.action.Borrow? {
      ReadingKeepsPosition(b, e.now, e.tx);
    }
  }

  lemma DepositWithin(b: ReserveData)
    requires Sound(b) && b.totalLiquidity == b.availableLiquidity + b.totalVariableDebt && HasUtilization(b.totalVariableDebt, b.totalLiquidity)
    requires b.utilizationRate == UtilizationRate(b.totalVariableDebt, b.totalLiquidity)
    ensures Balanced(b)
  {
    hide RayDiv;
    UtilizationAtMostOne(b.totalVariableDebt, b.totalLiquidity);
  }

  lemma RecordIsPriced(p: ReserveParams, b: ReserveData)
    requires p.Valid() && Sound(b) && Priced(p, b) && b.totalVariableDebt == DebtAtUpdate(b)
    ensures PricedShort(p, b, Shortfall(b))
  {
    hide RayMul, UtilizationRate, LiquidityRate, VariableBorrowRate;
  }

  // ----- Runs -----

  /** The excess of the claims is bounded in units of this many parts. */
  const UNIT: int := 2 * RAY * RAY * ONE_YEAR

  /** A bound on the excess at the last update, carried to `t`: what was missing earns interest too, and
      the period costs its rounding and the interest on what the total was short of. */
  ghost function Carried(s: Pool, short: int, t: int, bound: int): int {
    (Linear(s.reserve, t) * bound + RAY - 1) / RAY + PeriodCost(s.reserve, short, s.deposits, t)
  }

  /** A bound carried over one move: an action adds one unit and half the index for its rounding. */
  ghost function CarriedOver(s: Pool, move: Move, short: int, bound: int): int {
    match move
    case Act(e) => Carried(s, short, e.tx, bound) + RAY * ONE_YEAR * (2 * RAY + ScalingIndex(s, e))
    case ReadBack(_) => bound
  }

  function ShortAfter(s: Pool, move: Move, short: int): int {
    match move
    case Act(e) => ShortBy(s, e)
    case ReadBack(_) => short
  }

  function ShortAtEnd(p: ReserveParams, s: Pool, moves: seq<Move>, short: int): int
    requires Feasible(p, s, moves)
    decreases |moves|
  {
    if moves == [] then short
    else ShortAtEnd(p, Moved(p, s, moves[0]), moves[1..], ShortAfter(s, moves[0], short))
  }

  ghost function CarriedThroughout(p: ReserveParams, s: Pool, moves: seq<Move>, short: int, bound: int): int
    requires Feasible(p, s, moves)
    decreases |moves|
  {
    if moves == [] then bound
    else CarriedThroughout(p, Moved(p, s, moves[0]), moves[1..], ShortAfter(s, moves[0], short), CarriedOver(s, moves[0], short, bound))
  }

  /** The excess of the claims at the last update is within a bound, and the rates are those of a total
      short of the given amount. */
  ghost predicate Within(p: ReserveParams, s: Pool, short: int, bound: int) {
    && PricedShort(p, s.reserve, short)
    && UNIT * Excess(s.reserve, s.deposits, s.reserve.lastUpdateTimestamp) <= bound
  }

  lemma CarriedBounds(p: ReserveParams, s: Pool, short: int, t: int, bound: int)
    requires Healthy(p, s) && Within(p, s, short, bound) && t >= s.reserve.lastUpdateTimestamp
    ensures UNIT * Excess(s.reserve, s.deposits, t) <= Carried(s, short, t, bound)
  {
    hide Excess, PeriodCost, Linear, Sound, NonNegative, PricedShort;
    var r, excess, lin := s.reserve, Excess(s.reserve, s.deposits, s.reserve.lastUpdateTimestamp), Linear(s.reserve, t);
    SolvencyOverPeriod(p, r, short, s.deposits, t - r.lastUpdateTimestamp);
    MulMonotone(lin, UNIT * excess, bound);
    RoundUp(lin * excess, lin * bound);
  }

  lemma RoundUp(x: int, y: int)
    requires UNIT * x <= y
    ensures 2 * RAY * ONE_YEAR * x <= (y + RAY - 1) / RAY
  {
  }

  lemma ActCarries(p: ReserveParams, s: Pool, e: Event, short: int, bound: int)
    requires Healthy(p, s) && Within(p, s, short, bound) && Enabled(s, e) && Covered(s, e)
    ensures Possible(p, s, e)
    ensures var s' := Next(p, s, e);
      Healthy(p, s') && Within(p, s', ShortBy(s, e), CarriedOver(s, Act(e), short, bound))
  {
    hide Excess, Carried, PricedShort, Enabled, Covered, Defined, NextReserve, NextDeposits, NextLoans, Rounding, LiquidityIndex,
      VariableBorrowIndex, ShortBy, Healthy, AtTransaction;
    UpdatedBefore(p, s, e);
    CarriedBounds(p, s, short, e.tx, bound);
    StepMovesExcess(p, s, e);
    RoundingBounds(p, s, e);
    StepIsPriced(p, s, e);
    StepHealthyIff(p, s, e);
    StepOfRun(p, s, e);
  }

  lemma UpdatedBefore(p: ReserveParams, s: Pool, e: Event)
    requires Healthy(p, s) && Enabled(s, e)
    ensures e.tx >= s.reserve.lastUpdateTimestamp
  {
  }

  lemma ReadBackCarries(p: ReserveParams, s: Pool, now: int, short: int, bound: int)
    requires Healthy(p, s) && Within(p, s, short, bound) && s.clock <= now && Readable(s.reserve, now)
    ensures CanObserve(s.reserve, now)
    ensures Healthy(p, Reread(s, now)) && Within(p, Reread(s, now), short, bound)
  {
    hide Claims, Assets, LiquidityIndex, PricedShort, Observe, CanObserve, NormalizedDebt, RayMul, Sound, NonNegative, Readable;
    RereadHealthyIff(p, s, now);
    ReadingKeepsPosition(s.reserve, now, s.reserve.lastUpdateTimestamp);
  }

  lemma MoveCarries(p: ReserveParams, s: Pool, move: Move, short: int, bound: int)
    requires Healthy(p, s) && Within(p, s, short, bound) && Happens(p, s, move) && NamesLiveLoan(s, move) && CoveredMove(s, move)
    ensures var s' := Moved(p, s, move);
      Healthy(p, s') && Within(p, s', ShortAfter(s, move, short), CarriedOver(s, move, short, bound))
  {
    hide Healthy, Within, Defined, NextReserve, Next, Reread, Covered, Readable, CanObserve, Enabled, Carried, ShortBy;
    match move
    case Act(e) =>
      ActCarries(p, s, e, short, bound);
    case ReadBack(now) =>
      ReadBackCarries(p, s, now, short, bound);
  }

  /** Along every covered run the claims of all depositors exceed what the reserve holds and is owed by at
      most the starting excess, the rounding carried along, and the interest on what late deposits left the
      total short of; at the end of the run and at any later time. */
  lemma {:induction false} RunBoundsExcess(p: ReserveParams, s: Pool, moves: seq<Move>, short: int, bound: int)
    requires Healthy(p, s) && Within(p, s, short, bound) && Feasible(p, s, moves) && CoveredThroughout(p, s, moves)
    ensures var s', short' := After(p, s, moves), ShortAtEnd(p, s, moves, short);
      var bound' := CarriedThroughout(p, s, moves, short, bound);
      && Healthy(p, s') && Within(p, s', short', bound')
      && forall t {:trigger Excess(s'.reserve, s'.deposits, t)} :: t >= s'.reserve.lastUpdateTimestamp ==>
           UNIT * Excess(s'.reserve, s'.deposits, t) <= Carried(s', short', t, bound')
    decreases |moves|
  {
    hide Healthy, Within, Happens, Moved, CoveredMove, ShortAfter, CarriedOver, Carried, Excess, NamesLiveLoan, Allowed;
    if moves == [] {
      forall t {:trigger Excess(s.reserve, s.deposits, t)} | t >= s.reserve.lastUpdateTimestamp
        ensures UNIT * Excess(s.reserve, s.deposits, t) <= Carried(s, short, t, bound)
      {
        CarriedBounds(p, s, short, t, bound);
      }
    } else {
      MoveOfRun(p, s, moves[0]);
      MoveCarries(p, s, moves[0], short, bound);
      RunBoundsExcess(p, Moved(p, s, moves[0]), moves[1..], ShortAfter(s, moves[0], short), CarriedOver(s, moves[0], short, bound));
    }
  }

  /** A pool nobody has used owes nobody anything and is short of nothing. */
  lemma FreshIsSolvent(p: ReserveParams, address: string, symbol: string, borrowRate: int, t: int)
    requires p.Valid() && borrowRate >= 0
    ensures var s := Fresh(address, symbol, borrowRate, t);
      Healthy(p, s) && Within(p, s, 0, 0)
  {
    hide RayMul, LiquidityRate, Claims, Sum;
    FreshInvariant(p, address, symbol, borrowRate, t);
    NothingOwed(RAY);
    NoClaims(RAY);
    NoLiquidityRate(p);
    AtLastUpdate(Fresh(address, symbol, borrowRate, t).reserve);
  }

  // ----- Runs whose deposits find an up-to-date record -----

  predicate TimelyThroughout(p: ReserveParams, s: Pool, moves: seq<Move>)
    requires Feasible(p, s, moves)
    decreases |moves|
  {
    moves == [] || ((moves[0].Act? ==> ShortBy(s, moves[0].event) == 0) && TimelyThroughout(p, Moved(p, s, moves[0]), moves[1..]))
  }

  /** Along a timely run nothing is ever short, so that only rounding is carried; and every reading of it
      is readable, so that it is covered when its actions are. */
  lemma {:induction false} TimelyRunsAreNeverShort(p: ReserveParams, s: Pool, moves: seq<Move>)
    requires Feasible(p, s, moves) && TimelyThroughout(p, s, moves)
    ensures ShortAtEnd(p, s, moves, 0) == 0
    ensures Healthy(p, s) && PricedShort(p, s.reserve, 0) ==> (CoveredThroughout(p, s, moves) <==> ActsCovered(p, s, moves))
    decreases |moves|
  {
    hide Healthy, PricedShort, Happens, Moved, CoveredMove, Allowed, NamesLiveLoan, ShortBy, Covered;
    if moves == [] {
    } else {
      MoveOfRun(p, s, moves[0]);
      TimelyRunsAreNeverShort(p, Moved(p, s, moves[0]), moves[1..]);
      if Healthy(p, s) && PricedShort(p, s.reserve, 0) {
        TimelyMoveIsCovered(p, s, moves[0]);
      }
    }
  }

  predicate ActsCovered(p: ReserveParams, s: Pool, moves: seq<Move>)
    requires Feasible(p, s, moves)
    decreases |moves|
  {
    moves == [] || ((moves[0].Act? ==> CoveredMove(s, moves[0])) && ActsCovered(p, Moved(p, s, moves[0]), moves[1..]))
  }

  lemma TimelyMoveIsCovered(p: ReserveParams, s: Pool, move: Move)
    requires Healthy(p, s) && PricedShort(p, s.reserve, 0) && Happens(p, s, move) && NamesLiveLoan(s, move)
    requires move.Act? ==> ShortBy(s, move.event) == 0
    ensures move.ReadBack? ==> CoveredMove(s, move)
    ensures CoveredMove(s, move) ==> Healthy(p, Moved(p, s, move)) && PricedShort(p, Moved(p, s, move).reserve, 0)
  {
    hide PricedShort, Defined, NextReserve, NextDeposits, NextLoans, Covered, Readable, CanObserve, Enabled, ShortBy, AtTransaction, Sound, NonNegative,
      Observe;
    if move.ReadBack? {
      CurrentIsReadable(p, s.reserve, move.now);
    }
    if CoveredMove(s, move) {
      MoveHealthyIff(p, s, move);
      match move
      case Act(e) =>
        StepIsPriced(p, s, e);
      case ReadBack(now) =>
        ReadingKeepsPosition(s.reserve, now, s.reserve.lastUpdateTimestamp);
    }
  }
}
