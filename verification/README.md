# Confetti lending-pool model, verified

The repository's executable description of its lending pool is
`test/helpers/utils/calculations.ts`: from the records of a reserve, a user and a loan before an
action it computes the records expected after it. It rests on the half-up fixed-point arithmetic of
`test/helpers/utils/math.ts`. This project restates that model in Dafny and proves what it keeps over
single steps and over whole runs. It also covers three smaller imperative pieces: bytecode linking,
the development mint loop and the reserve initialiser.

| module | what it models |
|---|---|
| `FixedPoint` | `math.ts`: integers with quotients truncated towards zero (every suite that uses the model sets no decimal places, rounding down), and the meaning of the roundings |
| `Interest` | linear and compounded interest |
| `Rates` | rate curve, overall and liquidity rate, utilization |
| `Reserve` | the reserve record; each coded transition is a method proved to be one settlement (`Settle`, `Deposited`, `Borrowed`) |
| `Accrual` | what every settlement keeps, and how settlements compose |
| `Touching` | settling a reserve halfway against leaving it alone |
| `Positions`, `Loans` | the user and loan records and their transitions |
| `Pool`, `PoolSteps` | all actions as steps of one state machine, and exactly when a step keeps what |
| `PoolRuns` | every run of that machine, and exactly which runs keep what |
| `Solvency`, `PoolSolvency` | the claims of all depositors against what the reserve records, holds and is owed, over periods, steps and runs |
| `Witnesses`, `LateDeposits` | runs from an unused pool on which properties fail |
| `Actions` | the tolerance of the comparisons and the price that hits a target health |
| `LinkBytecode`, `MintTopTokens`, `InitReserves`, `Chunks` | the imperative helpers |

Run `dafny verify dfyconfig.toml` to check everything.

## Reading the model

- A transition function of the source leaves `symbol` and, for deposits and withdrawals,
  `lastUpdateTimestamp` unset; the model carries the first along and sets the second to the
  transaction's timestamp, as borrow and repay do.
- `Settle` accrues both indices, moves scaled debt and liquidity and reprices. Withdraw, borrow and
  repay are settlements; a deposit is one with a carried instead of a recomputed total; a borrow with
  a later current time is a settlement read back later (`Observe`).
- Before an action the suite reads the records back. In a run the borrower's debt read back is the debt
  of the borrower's live loans (`Active` or `BuyItNow`), and a run is a sequence of moves: actions, and
  readings (`ReadBack`) of the reserve's record at any time in between. An action starts from the record
  as the previous move left it.
- `Enabled` says when an action of a run succeeds: time does not go back, amounts are not negative,
  a withdrawal is within balance and liquidity, a borrow within liquidity, a repayment within the
  loan's debt unless it is the sentinel, and the loan is live. Only a borrow is read back later.
  `Possible` adds that no arithmetic of the step divides by zero, and `Feasible` is a run of such moves.
- `Healthy` means a sound reserve and no negative balance or live loan, `Conserved` that the reserve's
  scaled debt is the sum over its live loans, `Invariant` both. Conditions on a move, all of which a
  caller can check before it, decide which of them a run keeps. `Covered`: a repayment takes at most the
  reserve's own scaled debt off it. `Separated`: a repayment of everything is by a borrower with no live
  debt besides the loan it closes. `Readable`: a reading does not round the utilization of a paying
  reserve to zero. From a state that satisfies the invariant every action is covered.
- `ShortBy` is what the total that a transaction records, and sets its rates from, misses of what the
  reserve then holds and is owed: nothing, except for a deposit on a record that was not read at its
  own time (`ReadMakesTimely`). A run is timely if it is zero throughout.
- `Claims` is the sum of all depositors' balances, `Excess` what the claims exceed the available
  liquidity and the debt by. The recorded total is neither of the two.

## Findings about the code

- A full repayment repays the user's whole debt on the reserve but closes one loan, so a run keeps the
  whole invariant exactly when every action is separated and every reading readable (`RunInvariantIff`; witness
  `RepayAllBreaksConservation`, a borrower with loans of 10 and 20). After such a repayment the reserve
  can be asked for debt it no longer has. A run whose readings are readable stays healthy exactly when
  that never happens (`RunHealthyIff`); along such runs nothing becomes negative, indices never fall (`RunIndicesGrow`) and
  positions zero out as `ReachableZeroing` says. On others this can fail: `UncoveredIndexFalls` repays the
  second loan's own 20 at once and gets a scaled debt of -20 whose index shrinks; `UncoveredOverpays`
  waits a year and repays 53 for it.
- The expected user record after a borrow starts from the reserve's scaled debt
  (`BorrowerRecordExactIff`: right exactly when nobody else has live debt; `BorrowerRecordMisses`).
- A deposit adds to the recorded total instead of recomputing it, so the total misses the interest
  accrued since the debt was last read, and utilization can exceed one (`DepositMissesInterest` says
  exactly when). Rates set from such a total pay depositors more than borrowers bring in.
  `LateDepositUnderfunds` is a run of three enabled and covered actions after which depositors hold 201
  wad against a recorded 101, and a year later can claim 18 wad more than there is. Along every covered
  run the claims exceed what the reserve holds and is owed by at most carried rounding and the interest
  on what late deposits left the total short of (`RunBoundsExcess`), and along timely runs nothing ever is
  short (`TimelyRunsAreNeverShort`). The suite reads the record right before each deposit, so the
  year-old record of that witness does not occur in it; only the seconds between the two can be missing.
- A deposit on a record that is not up to date can leave one that cannot be read back soundly:
  `ReadBackUnsound` is such a run. Records of timely runs always can (`CurrentIsReadable`).
- The comment above `calcExpectedReserveNormalizedIncome` and the normalized debt speaks of a zero
  utilization, while the code tests a zero rate. The model follows the code. `AccrualsAgree` shows that
  the income tests give the same result on every sound reserve, which is every reserve a covered run
  reaches, and the debt tests on every sound reserve that has debt; `RepayAllClearsIff` says what the
  difference does on one that has none.
- `rayToWad` of a negative amount does not invert `wadToRay` (`WadRoundTrip`), and the overall rate
  misses some rate for every debt below one wad (`OverallRateExactIff`).

## Model

| member | source | states |
|---|---|---|
| FixedPoint.MulIsNearest | test/helpers/utils/math.ts:55-57 | `rayMul`, `wadMul` and `percentMul` are round-half-up: a result is theirs exactly when it is the nearest one, ties upwards |
| FixedPoint.DivIsNearest | test/helpers/utils/math.ts:59-67 | `rayDiv`, `wadDiv` and `percentDiv` are round-half-up for odd divisors too, although half the divisor is truncated |
| FixedPoint.ScaledRoundTrip | test/helpers/utils/math.ts:55-67 | scaled to amount to scaled is lossless for every index of at least one unit |
| FixedPoint.AmountRoundTrip | test/helpers/utils/math.ts:55-67 | amount to scaled to amount is lossless up to an index of one unit and otherwise off by at most half a unit plus half the index |
| FixedPoint.WadRoundTrip | test/helpers/utils/math.ts:69-77 | widening and narrowing returns every non-negative amount, and loses one unit of every negative one |
| FixedPoint.RayToWadIsNearest | test/helpers/utils/math.ts:69-73 | `rayToWad` is round-half-up for every non-negative amount |
| Interest.CompoundedIsTruncated | test/helpers/utils/calculations.ts:983-1016 | the divisions by two and six are exact: the factor is the four-term binomial expansion with rounded powers |
| Interest.CompoundedOrdered | test/helpers/utils/calculations.ts:983-1016 | the factor is at least one and monotone in time and rate |
| Interest.SecondIsTruncated | test/helpers/utils/calculations.ts:983-1016 | over one second the factor is the yearly rate pro rata, cut off to whole units |
| Interest.CompoundedNearExpansion | test/helpers/utils/calculations.ts:983-1016 | against the exact expansion in the yearly rate the factor is above only by the rounding of the two powers, and below only by that and the truncation of the rate per second |
| Interest.CompoundedBelowPower | test/helpers/utils/calculations.ts:983-1016 | it exceeds the true compound interest of the yearly rate by at most the rounding of the powers, for every number of seconds |
| Interest.SplittingKeepsInterest | test/helpers/utils/calculations.ts:983-1016 | splitting a period never loses interest beyond half a unit per cross term of the binomial |
| Interest.Vandermonde | test/helpers/utils/calculations.ts:1002-1010 | how the second and third coefficients of a sum of periods decompose |
| Interest.LinearOrdered | test/helpers/utils/calculations.ts:968-981 | linear interest is at least one and grows with time |
| Rates.LinearIsExact | test/helpers/utils/calculations.ts:968-981 | linear interest is the yearly rate pro rata, truncated |
| Rates.CurveAnchors | test/helpers/utils/calculations.ts:1032-1058 | the curve takes its nominal values at zero, at the kink and at full utilization |
| Rates.CurveOrdered | test/helpers/utils/calculations.ts:1032-1058 | the curve is monotone across the kink |
| Rates.CurveWithinSlopes | test/helpers/utils/calculations.ts:1032-1058 | up to full utilization it stays between the base and the sum of both slopes |
| Rates.CurveInterpolates | test/helpers/utils/calculations.ts:1032-1058 | below the kink and above it the curve rises by its slope pro rata, up to the two roundings |
| Rates.UtilizationAtMostOne | test/helpers/utils/calculations.ts:1092-1103 | exactly when utilization is at most one, and exactly when it is zero |
| Rates.OverallRateExactIff | test/helpers/utils/calculations.ts:1073-1090 | the weighting returns every rate unchanged exactly when the debt is at least one wad |
| Rates.OverallRateError | test/helpers/utils/calculations.ts:1073-1090 | below that it is off by at most half a unit plus 5 * 10^17 / debt |
| Rates.LiquidityRateBelowBorrowRate | test/helpers/utils/calculations.ts:1060-1070 | up to full utilization depositors are paid at most the borrowers' rate |
| Rates.InterestIsShared | test/helpers/utils/calculations.ts:1064-1068 | a share of the borrowers' interest spread over the liquidity stays within explicit rounding, in both directions |
| Rates.LiquidityRateIsShare | test/helpers/utils/calculations.ts:1060-1090 | with at least one wad of debt the liquidity rate is that share with the reserve factor taken off |
| Rates.ShareBelowInterest | test/helpers/utils/calculations.ts:1064-1068 | the upper bound needs of the utilization only that it is not rounded above the debt's share |
| Rates.TotalNeverOutearnsDebt | test/helpers/utils/calculations.ts:968-1103 | over any period, for any debt and reserve factor, the liquidity rate pays on the recorded total at most the interest on the debt, up to the truncated rate per second, two roundings and, below one wad, the weighting |
| Reserve.SentinelsResolve | test/helpers/utils/calculations.ts:174-334 | repayments take the maximum of either sign for everything, withdrawals the positive one only, and no other amount is replaced |
| Reserve.ReserveAfterDeposit | test/helpers/utils/calculations.ts:126-172 | the coded deposit is a repricing with the amount added to the recorded total |
| Reserve.ReserveAfterWithdraw | test/helpers/utils/calculations.ts:174-232 | the coded withdrawal is a settlement of the resolved amount |
| Reserve.ReserveAfterBorrow | test/helpers/utils/calculations.ts:234-310 | the coded borrow is a settlement at the transaction, read back at the current time |
| Reserve.ReserveAfterRepay | test/helpers/utils/calculations.ts:312-382 | the coded repayment is a settlement of the resolved amount, the sentinel standing for the user's whole debt |
| Accrual.IndicesGrow | test/helpers/utils/calculations.ts:1127-1183 | neither index ever falls, and the normalized debt is never below the borrow index |
| Accrual.AccrualsAgree | test/helpers/utils/calculations.ts:1105-1183 | the two accrual paths of deposits agree on every sound reserve, and those of debt on every sound reserve that has debt, although they test different fields |
| Accrual.NoTimeNoAccrual | test/helpers/utils/calculations.ts:1105-1183 | nothing accrues on either path at the moment of the last update |
| Accrual.PartialRepayFits | test/helpers/utils/calculations.ts:346-349 | exactly which repayments leave scaled debt non-negative; those of at most what is owed do |
| Accrual.RepriceSound | test/helpers/utils/calculations.ts:126-232 | every repricing keeps a reserve sound, in particular "utilization zero implies liquidity rate zero" |
| Accrual.SettleSound | test/helpers/utils/calculations.ts:174-382 | every settlement re-establishes the accounting identity and a utilization of at most one |
| Accrual.ObserveSound | test/helpers/utils/calculations.ts:273-306 | reading a borrow back later keeps the reserve sound although its rates were set from the earlier utilization |
| Accrual.RepriceTwice | test/helpers/utils/calculations.ts:126-382 | of two transitions at one timestamp the last decides |
| Accrual.SettleTwice | test/helpers/utils/calculations.ts:174-382 | settlements at one timestamp add up, so their order does not matter |
| Accrual.BorrowRepayCancels | test/helpers/utils/calculations.ts:234-382 | borrowing and repaying an amount at one timestamp gives the same record as repaying nothing, whatever the amount |
| Accrual.ReadBackSoundIff | test/helpers/utils/helpers.ts:20-71 | reading any sound reserve back keeps it sound exactly when that does not round the utilization of a paying reserve to zero |
| Accrual.ReadDepositSettles | test/helpers/utils/calculations.ts:126-172 | a deposit at the moment its record was read is a settlement |
| Accrual.DepositSettlesIff | test/helpers/utils/calculations.ts:126-172 | a deposit is a settlement exactly when the recorded total already includes the accrued debt |
| Accrual.DepositMissesInterest | test/helpers/utils/calculations.ts:126-172 | a deposit adds exactly the accrued interest to what the total is short of, and exactly when its utilization stays at most one |
| Touching.UtilizationOrdered | test/helpers/utils/calculations.ts:1092-1103 | more debt against the same liquidity never lowers the utilization |
| Touching.TouchRaisesRate | test/helpers/utils/calculations.ts:312-382 | settling nothing never lowers the borrow rate |
| Touching.IndexSplit | test/helpers/utils/calculations.ts:1167-1183 | two accruals of an index against one over the whole period |
| Touching.TouchingKeepsInterest | test/helpers/utils/calculations.ts:312-382 | a reserve settled halfway owes at least as much in the end as one left alone, up to explicit rounding |
| Touching.ObservedEarnings | test/helpers/utils/calculations.ts:273-306 | the same bound on the recorded total and debt of a borrow read back later, whose rates are those of the transaction |
| Touching.ObserveKeepsAccrual | test/helpers/utils/calculations.ts:273-306 | reading a borrow back later changes neither the index it will accrue nor what a later settlement of nothing makes of it |
| Positions.UserAfterWithdraw | test/helpers/utils/calculations.ts:77-124 | the record after a withdrawal; withdrawing the maximum leaves exactly zero |
| Positions.UserAfterRepay | test/helpers/utils/calculations.ts:493-546 | the record after a repayment; repaying the maximum leaves exactly zero |
| Positions.WithdrawAllEmpties | test/helpers/utils/calculations.ts:908-932 | the balance read off one accrual path scales back to the whole position along the other |
| Positions.RepayAllClearsIff | test/helpers/utils/calculations.ts:934-949 | the debt read off one accrual path never scales back to less than itself along the other, and to exactly itself exactly when it stays half a scaled unit below the next, which it does whenever the reserve has debt |
| Positions.RepayAllClears | test/helpers/utils/calculations.ts:934-949 | in particular every part of the reserve's own debt scales back to exactly itself |
| Positions.DepositDrift | test/helpers/utils/calculations.ts:28-75 | after a deposit the scaled balance is worth the current one up to one unit and half the index, so the suite's tolerance accepts it below an index of six; the amount leaves the wallet, the debt only accrues and the rate is the new one |
| Positions.BorrowDrift | test/helpers/utils/calculations.ts:451-491 | every field of the record after a borrow; a sole borrower's debt grows by the amount, up to one unit and half the index |
| Positions.WithdrawDrift | test/helpers/utils/calculations.ts:98-105 | the same after a withdrawal, which never takes more than the scaled balance |
| Positions.RepriceKeepsWorth | test/helpers/utils/calculations.ts:919-949 | a transition changes what no scaled balance or debt is worth at its timestamp |
| Loans.ReserveAfterBuyItNow | test/helpers/utils/calculations.ts:384-403 | buying a loan moves nothing on the reserve |
| Loans.ReserveAfterLiquidate | test/helpers/utils/calculations.ts:426-449 | a liquidation takes exactly the loan's scaled amount off a sound reserve |
| Loans.UserAfterBuyItNow | test/helpers/utils/calculations.ts:548-579 | the buyer pays the price, the borrower's debt stays |
| Loans.LoanAfterRepay | test/helpers/utils/calculations.ts:711-769 | a full repayment closes the loan and keeps its scaled amount, a partial one takes the scaled repayment off |
| Loans.DebtsNest | test/helpers/utils/calculations.ts:951-966 | a loan is part of its borrower's debt, which is part of the debt of all |
| PoolSteps.RepaymentInScaledTerms | test/helpers/utils/calculations.ts:312-449 | what repay, buyItNow, redeem and liquidate take off the reserve in scaled terms; where debt is conserved it is at most the reserve's own |
| PoolSteps.StepAtTransaction | test/helpers/utils/calculations.ts:126-449 | every covered action is well defined, and its transaction leaves the reserve sound, priced, and balanced unless it is a deposit |
| PoolSteps.StepKeepsReserve | test/helpers/utils/calculations.ts:126-449 | the same for the reserve as read back, whose indices did not fall |
| PoolSteps.NextLoanAmount | test/helpers/utils/calculations.ts:666-906 | what borrow, repay, buyItNow, redeem and liquidate do to the live amount of their loan |
| PoolSteps.NextLoanRecord | test/helpers/utils/calculations.ts:666-906 | every field of the record that each action leaves on its loan: state, bid, identity, and a current amount worth its scaled amount |
| PoolSteps.StepMovesLoans | test/helpers/utils/calculations.ts:666-906 | the live debt of all and of each borrower changes by exactly that amount |
| PoolSteps.StepLeavesOthersAlone | test/helpers/utils/calculations.ts:126-949 | nobody but the actor is affected, in scaled terms or in worth |
| PoolSteps.StepKeepsDeposits | test/helpers/utils/calculations.ts:908-917 | depositors' scaled balances stay non-negative |
| PoolSteps.StepHealthyIff | test/helpers/utils/calculations.ts:312-449 | a step leaves a sound reserve and a healthy pool exactly when it is covered, and otherwise a negative scaled debt |
| PoolSteps.StepConservesIff | test/helpers/utils/calculations.ts:325-349 | a step conserves debt exactly when a repayment of everything is by a borrower with no other live debt |
| PoolSteps.StepInvariantIff | test/helpers/utils/calculations.ts:126-906 | from a state of the whole invariant a step is covered, stays healthy, and keeps the invariant exactly when it is separated |
| PoolSteps.BorrowerRecordExactIff | test/helpers/utils/calculations.ts:451-491 | the borrower's expected record is right exactly when nobody else has live debt |
| PoolSteps.ReserveOf | test/helpers/utils/calculations.ts:126-449 | the coded transitions, one per action, return the reserve of the state machine |
| PoolSteps.RereadHealthyIff | test/helpers/utils/helpers.ts:20-71 | reading back keeps the pool healthy exactly when the record is readable, and moves neither indices nor loans |
| PoolSteps.MoveHealthyIff | test/helpers/utils/calculations.ts:126-906 | an action or reading keeps the pool healthy exactly when it is covered or readable |
| PoolSteps.MoveInvariantIff | test/helpers/utils/calculations.ts:126-906 | and keeps the whole invariant exactly when it is separated or readable |
| PoolRuns.RunInvariantIff | test/helpers/utils/calculations.ts:126-906 | every state of a run of actions and readings satisfies the whole invariant exactly when every action is separated and every reading readable; such runs are covered |
| PoolRuns.RunHealthyIff | test/helpers/utils/calculations.ts:126-906 | every state of a run of actions and readings is healthy exactly when every action is covered and every reading readable |
| PoolRuns.RunIndicesGrow | test/helpers/utils/calculations.ts:1127-1183 | along every covered run nothing is negative and neither index nor clock goes back |
| PoolRuns.RunKeepsBids | test/helpers/utils/calculations.ts:666-906 | along every run only loans that are being bought or were liquidated carry bids |
| PoolRuns.SingleLoanRunsConserve | test/helpers/utils/calculations.ts:234-906 | with one live loan per borrower the invariant holds throughout a run exactly when its readings are readable, in particular when it has none |
| PoolRuns.ReachableZeroing | test/helpers/utils/calculations.ts:77-124 | in every state a covered run reaches, withdraw-all leaves exactly zero, repay-all never less than it should take and exactly zero under the condition of `RepayAllClearsIff` |
| PoolRuns.SeparatedZeroing | test/helpers/utils/calculations.ts:493-546 | in every state a separated run reaches, repay-all leaves exactly zero |
| PoolRuns.ReachableAccounting | test/helpers/utils/calculations.ts:126-382 | after any covered step but a deposit liquidity adds up; from any covered step, also a borrow read back later, the liquidity rate pays on the recorded total at most the interest on the recorded debt, up to rounding |
| PoolRuns.ReachableTouching | test/helpers/utils/calculations.ts:312-382 | from any covered step that is no deposit, also a borrow read back later, an action that moves nothing never lowers the borrow index later on, beyond rounding |
| PoolRuns.FreshInvariant | test/helpers/utils/helpers.ts:20-71 | a pool nobody has used satisfies the invariant |
| Witnesses.RepayAllBreaksConservation | test/helpers/utils/calculations.ts:325-334 | from an unused pool, a borrower with two loans repays one in full: nothing is owed to the reserve while a loan is live |
| Witnesses.UncoveredIndexFalls | test/helpers/utils/calculations.ts:312-382 | repaying the other loan then is not covered, leaves a scaled debt of -20 and a borrow index that falls |
| Witnesses.UncoveredOverpays | test/helpers/utils/calculations.ts:934-949 | waiting a year instead, the debt paths part and repaying everything takes 53 for a loan of 20 |
| Witnesses.BorrowerRecordMisses | test/helpers/utils/calculations.ts:464-467 | from an unused pool, with two borrowers the record shows the debt of both |
| Solvency.ClaimsAreBalances | test/helpers/utils/calculations.ts:919-932 | the claims at the accrued index are the sum of all current balances |
| Solvency.ClaimsGrow | test/helpers/utils/calculations.ts:919-932 | all claims together grow by the factor of the index, within explicit rounding in both directions |
| Solvency.ClaimsOverPeriod | test/helpers/utils/calculations.ts:919-1103 | after any period all claims are at most the recorded total and the interest on the recorded debt, up to rounding and up to what they exceeded the total by before |
| Solvency.SolvencyOverPeriod | test/helpers/utils/calculations.ts:919-1183 | what all can claim beyond what the reserve holds and is owed grows over a period by at most the linear factor, the rounding, and the interest on what the total was short of when the rates were set |
| PoolSolvency.RoundingBounds | test/helpers/utils/calculations.ts:126-449 | the rounding of an action's one scaled amount is at most one unit and half the index |
| PoolSolvency.StepMovesClaims | test/helpers/utils/calculations.ts:28-124 | a deposit or withdrawal moves the claims by its amount and that rounding, nothing else moves them |
| PoolSolvency.StepBackedIff | test/helpers/utils/calculations.ts:126-449 | a transaction leaves the claims within the recorded total exactly when, with that rounding, they were within the old record (a deposit) or within what the reserve held and was owed (all else) |
| PoolSolvency.StepBoundsClaims | test/helpers/utils/calculations.ts:126-1103 | after any covered action that leaves the claims within the recorded total, all claims grow by no more than the interest on the debt, up to rounding; what they exceed the total by earns the linear factor on top |
| PoolSolvency.StepMovesExcess | test/helpers/utils/calculations.ts:126-449 | every covered action moves the excess of the claims by the rounding of its one amount only |
| PoolSolvency.StepIsPriced | test/helpers/utils/calculations.ts:126-449 | every covered transaction records a total short of exactly `ShortBy` and sets its rates from it; if that is zero the liquidity is balanced |
| PoolSolvency.CurrentIsReadable | test/helpers/utils/helpers.ts:20-71 | a record whose rates were set from a total that was not short can be read back soundly at any time |
| PoolSolvency.ReadMakesTimely | test/helpers/actions.ts:436-437 | a deposit at the time of the reading before it is short of nothing |
| PoolSolvency.RunBoundsExcess | test/helpers/utils/calculations.ts:28-1183 | along every covered run the claims exceed what the reserve holds and is owed by at most the starting excess, the rounding carried along, and the interest on what late deposits left the total short of, at its end and at any later time |
| PoolSolvency.TimelyRunsAreNeverShort | test/helpers/utils/calculations.ts:126-172 | if no deposit finds an out-of-date record nothing is ever short, and the run is covered exactly when its actions are |
| PoolSolvency.FreshIsSolvent | test/helpers/utils/helpers.ts:20-71 | a pool nobody has used starts a run without excess and short of nothing |
| LateDeposits.LateDepositUnderfunds | test/helpers/utils/calculations.ts:126-172 | from an unused pool, a deposit a year after everything was lent out records a utilization above one and less than the claims, and a year later the claims exceed what there is |
| LateDeposits.ReadBackUnsound | test/helpers/utils/helpers.ts:20-71 | a run from an unused pool that keeps the whole invariant until its record is read back, from when the income paths part |
| Actions.ToleranceIsThree | test/helpers/actions.ts:107-129 | the comparison accepts exactly a difference of at most three |
| Actions.PriceHitsHealth | test/helpers/actions.ts:307-324 | for the debt cut off to whole units of ether, the price is the nearest to the target share over the threshold and weighted by the threshold exactly that share; an error is raised only for a zero target |
| LinkBytecode.Link | helpers/contracts-helpers.ts:192-215 | the nested loops splice the patches of all linked libraries in traversal order, on every input; if their fixups fit and lie apart, each of them then holds its library's address without the `0x` and every other character is the old one |
| LinkBytecode.FixupFits | helpers/contracts-helpers.ts:205-210 | a fixup fits exactly when its address has two digits per byte and it ends inside the code |
| LinkBytecode.SplicingSubstitutes | helpers/contracts-helpers.ts:192-215 | well-placed patches substitute simultaneously: length kept, every range linked, all else unchanged |
| LinkBytecode.LinkOrderIrrelevant | helpers/contracts-helpers.ts:192-215 | well-placed patches in any other order are well placed too and give the same code |
| LinkBytecode.LinkIdempotent | helpers/contracts-helpers.ts:192-215 | linking linked code changes nothing |
| MintTopTokens.MintAll | tasks/dev/mock_nfts.ts:129-190 | the signer in turn for each token is the first with quota left; a token somebody owned goes to the target exactly when its owner was in turn for it, and one nobody owned always; nobody is pushed beyond ten, mints are all accounted for, and stopping early means every signer is saturated |
| MintTopTokens.CreditKeeps | tasks/dev/mock_nfts.ts:181-188 | a mint by the current signer keeps quota, turn and saturation |
| Chunks.ChunksConcat | helpers/misc-utils.ts:88-94 | the chunks concatenate to the array exactly when the size is positive or there is nothing to cut, and all but the last are full; a size of zero gives one empty chunk per element |
| Chunks.ChunksAligned | helpers/misc-utils.ts:88-94 | lists of one length are cut at the same places |
| InitReserves.InitReservesByHelper | helpers/init-helpers.ts:34-171 | each configured reserve is sent once, in order, with every field its own and the address deployed for its strategy name, and the symbols logged after each batch are those of the batch |
| InitReserves.SharedStrategyIff | helpers/init-helpers.ts:94-138 | two reserves are sent with the same strategy exactly when they name the same one |
| InitReserves.DeployedOnceWithFirstRates | helpers/init-helpers.ts:94-115 | a strategy name is deployed once, with the rates of the first reserve that uses it |
| InitReserves.OwnRatesIff | helpers/init-helpers.ts:94-130 | a reserve gets its own rates exactly when that first reserve has the same |

## Left out

- The Solidity contracts are not part of this model: their guards appear only as `Enabled`, and their tokens only as the records the suite reads.
- Wallet balances after redeem and liquidate: the source compares number objects with `<` and `>`, which compares their text, and the extra repayment has its sign reversed.
- Divisions by zero: the source gets NaN or Infinity; `HasKink`, `HasUtilization` and the `Can` predicates exclude exactly these, and `StepAtTransaction` shows that covered steps never meet them.
- The default configuration with twenty decimal places, which no suite that uses the model keeps.
- The lookup of a reserve's parameters by symbol: they are a parameter.
- `decimals` and `cTokenAddress` of a reserve, which are never compared, and the `variableBorrowIndex` copied on some user records.
- Identity and configuration of a loan record, which the source copies from the record read after the action: in runs they are those before it.
- A current time later than the transaction for actions other than borrow: only borrow travels in time in `test/helpers/actions.ts`.
- `configureReservesByHelper` and `initNftsByHelper`, which repeat the loop of `initReservesByHelper` without the cache.
- The gas money the mint script sends to signers, and what else the token contract may refuse; `MintAll` needs of it that minting a new token and transferring an owned one succeed.
- Names that JavaScript finds on every object (such as `constructor`) used as strategy or library names.
- Deployment, verification, databases, signatures, configuration tables and getters: plumbing and lookups.
