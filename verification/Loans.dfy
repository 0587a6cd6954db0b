/** The loan record and its transitions (`test/helpers/utils/calculations.ts`). */
module Loans {
  import opened FixedPoint
  import opened Rates
  import opened Reserve
  import opened Accrual
  import opened Positions

  datatype LoanState = None | Created | Active | BuyItNow | Repaid | Defaulted

  const ZERO_ADDRESS: string := "0x0000000000000000000000000000000000000000"

  datatype LoanData = LoanData(
    loanId: nat,
    state: LoanState,
    borrower: string,
    nftAsset: string,
    nftTokenId: nat,
    reserveAsset: string,
    scaledAmount: int,
    currentAmount: int,
    buyItNowBuyerAddress: string,
    buyItNowPrice: int,
    buyItNowBorrowAmount: int,
    buyItNowFine: int,
    nftCfgRedeemFine: int,
    nftCfgMinBuyItNowFine: int)
  {
    /** The debt of an active loan and of a loan being bought is still owed to the reserve. */
    predicate Live() { state == Active || state == BuyItNow }

    predicate NoBid() {
      buyItNowBuyerAddress == ZERO_ADDRESS && buyItNowPrice == 0 && buyItNowBorrowAmount == 0 && buyItNowFine == 0
    }

    /** What no action changes: which NFT is borrowed against, by whom, from where and on what terms. */
    predicate SameAs(other: LoanData) {
      && loanId == other.loanId && borrower == other.borrower && nftAsset == other.nftAsset && nftTokenId == other.nftTokenId
      && reserveAsset == other.reserveAsset
      && nftCfgRedeemFine == other.nftCfgRedeemFine && nftCfgMinBuyItNowFine == other.nftCfgMinBuyItNowFine
    }

    /** A loan of this identity that owes nothing and has no bid. */
    function Blank(): LoanData {
      this.(state := None, scaledAmount := 0, currentAmount := 0, buyItNowBuyerAddress := ZERO_ADDRESS,
            buyItNowPrice := 0, buyItNowBorrowAmount := 0, buyItNowFine := 0)
    }
  }

  function LoanBorrowBalance(r: ReserveData, loan: LoanData, t: int): int {
    DebtBalance(r, loan.scaledAmount, t)
  }

  /** Identity and configuration are those of the record read after the action; there is no bid. */
  function WithoutBid(read: LoanData): LoanData {
    read.(buyItNowBuyerAddress := ZERO_ADDRESS, buyItNowPrice := 0, buyItNowBorrowAmount := 0, buyItNowFine := 0)
  }

  function LoanAfterBorrow(amountBorrowed: int, before: LoanData, read: LoanData, after: ReserveData, now: int): LoanData
    requires after.variableBorrowIndex != 0
  {
    var scaled := before.scaledAmount + RayDiv(amountBorrowed, after.variableBorrowIndex);
    WithoutBid(read).(state := Active, scaledAmount := scaled, currentAmount := DebtBalance(after, scaled, now))
  }

  /** A full repayment closes the loan but leaves its scaled amount on the record. */
  method LoanAfterRepay(totalRepaid: int, reserveBefore: ReserveData, after: ReserveData, before: LoanData,
                        read: LoanData, currentTimestamp: int) returns (expected: LoanData)
    requires after.variableBorrowIndex != 0
    ensures expected == RepaidLoan(totalRepaid, before, read, after)
  {
    expected := WithoutBid(read);
    var borrowAmount := LoanBorrowBalance(reserveBefore, before, currentTimestamp);
    var amount := totalRepaid;
    var isRepayAll := false;
    if Abs(amount) == MAX_UINT_AMOUNT {
      isRepayAll := true;
      amount := borrowAmount;
      expected := expected.(state := Repaid);
    } else {
      expected := expected.(state := Active);
    }
    if isRepayAll {
      expected := expected.(scaledAmount := before.scaledAmount);
    } else {
      expected := expected.(scaledAmount := before.scaledAmount - RayDiv(amount, after.variableBorrowIndex));
    }
    expected := expected.(currentAmount := RayMul(expected.scaledAmount, after.variableBorrowIndex));
  }

  /** The amount of a full repayment plays no role for the loan record. */
  function RepaidLoan(totalRepaid: int, before: LoanData, read: LoanData, after: ReserveData): LoanData
    requires after.variableBorrowIndex != 0
  {
    if RepaysAll(totalRepaid) then
      Reduced(before, WithoutBid(read), 0, after).(state := Repaid)
    else
      Reduced(before, WithoutBid(read), RayDiv(totalRepaid, after.variableBorrowIndex), after)
  }

  /** The active loan left after taking `dScaled` off. */
  function Reduced(before: LoanData, read: LoanData, dScaled: int, after: ReserveData): LoanData {
    var scaled := before.scaledAmount - dScaled;
    read.(state := Active, scaledAmount := scaled, currentAmount := RayMul(scaled, after.variableBorrowIndex))
  }

  function LoanAfterBuyItNow(amountToBuyItNow: int, reserveBefore: ReserveData, after: ReserveData, before: LoanData,
                             read: LoanData, onBehalfOf: string, currentTimestamp: int): LoanData
  {
    read.(state := BuyItNow,
          buyItNowBuyerAddress := onBehalfOf,
          buyItNowPrice := amountToBuyItNow,
          buyItNowBorrowAmount := LoanBorrowBalance(reserveBefore, before, currentTimestamp),
          scaledAmount := before.scaledAmount,
          currentAmount := RayMul(before.scaledAmount, after.variableBorrowIndex))
  }

  function LoanAfterRedeem(amountToRedeem: int, before: LoanData, read: LoanData, after: ReserveData): LoanData
    requires after.variableBorrowIndex != 0
  {
    Reduced(before, WithoutBid(read), RayDiv(amountToRedeem, after.variableBorrowIndex), after)
  }

  function LoanAfterLiquidate(reserveBefore: ReserveData, after: ReserveData, before: LoanData, read: LoanData,
                              currentTimestamp: int): LoanData
  {
    read.(state := Defaulted,
          buyItNowBuyerAddress := before.buyItNowBuyerAddress,
          buyItNowPrice := before.buyItNowPrice,
          buyItNowBorrowAmount := LoanBorrowBalance(reserveBefore, before, currentTimestamp),
          scaledAmount := before.scaledAmount,
          currentAmount := RayMul(before.scaledAmount, after.variableBorrowIndex))
  }

  // ----- The reserve and the borrower behind a loan -----

  /** Buying a loan now only accrues: it settles the reserve without moving anything. */
  method ReserveAfterBuyItNow(p: ReserveParams, before: ReserveData, scaledUserDebt: int, txTimestamp: int)
    returns (expected: ReserveData)
    requires p.HasKink() && VariableBorrowIndex(before, txTimestamp) > 0 && CanSettle(before, txTimestamp, 0, 0)
    ensures expected == Settle(p, before, txTimestamp, 0, 0)
  {
    hide RayMul, RayDiv, LiquidityRate, VariableBorrowRate, LiquidityIndex, VariableBorrowIndex;
    RayDivOfAmount(0, VariableBorrowIndex(before, txTimestamp));
    expected := ReserveAfterRepay(p, 0, before, scaledUserDebt, txTimestamp);
  }

  /** A redemption repays its amount, and the sentinel the borrower's whole debt. */
  method ReserveAfterRedeem(p: ReserveParams, amountRedeemed: int, before: ReserveData, scaledUserDebt: int, txTimestamp: int)
    returns (expected: ReserveData)
    requires p.HasKink()
    requires CanRepay(before, RepaidAmount(amountRedeemed, DebtBalance(before, scaledUserDebt, txTimestamp)), txTimestamp)
    ensures expected == Settled(p, before, RepaidAmount(amountRedeemed, DebtBalance(before, scaledUserDebt, txTimestamp)), txTimestamp)
  {
    expected := ReserveAfterRepay(p, amountRedeemed, before, scaledUserDebt, txTimestamp);
  }

  /** A liquidation repays the balance of the loan: on a sound reserve it takes exactly the loan's
      scaled amount off the reserve's scaled debt. */
  method ReserveAfterLiquidate(p: ReserveParams, before: ReserveData, scaledUserDebt: int, loan: LoanData,
                               txTimestamp: int, currentTimestamp: int)
    returns (expected: ReserveData)
    requires p.HasKink()
    requires CanRepay(before, RepaidAmount(LoanBorrowBalance(before, loan, currentTimestamp), DebtBalance(before, scaledUserDebt, txTimestamp)), txTimestamp)
    ensures expected == Settled(p, before, RepaidAmount(LoanBorrowBalance(before, loan, currentTimestamp), DebtBalance(before, scaledUserDebt, txTimestamp)), txTimestamp)
    ensures Sound(before) && currentTimestamp == txTimestamp >= before.lastUpdateTimestamp
        && 0 <= loan.scaledAmount <= before.scaledVariableDebt && !RepaysAll(LoanBorrowBalance(before, loan, currentTimestamp))
        ==> expected.scaledVariableDebt == before.scaledVariableDebt - loan.scaledAmount
  {
    hide RayMul, RayDiv, LiquidityRate, VariableBorrowRate, LiquidityIndex, VariableBorrowIndex, NormalizedDebt, UtilizationRate;
    var amountRepaid := LoanBorrowBalance(before, loan, currentTimestamp);
    expected := ReserveAfterRepay(p, amountRepaid, before, scaledUserDebt, txTimestamp);
    if Sound(before) && currentTimestamp == txTimestamp >= before.lastUpdateTimestamp
       && 0 <= loan.scaledAmount <= before.scaledVariableDebt {
      RepayAllClears(before, loan.scaledAmount, txTimestamp);
    }
  }

  /** Buying a loan now costs the buyer its price and leaves the borrower's debt as it was. */
  method UserAfterBuyItNow(price: int, before: ReserveData, after: ReserveData, user: UserReserveData,
                           repaysOwnDebt: bool, txTimestamp: int, currentTimestamp: int) returns (expected: UserReserveData)
    requires after.variableBorrowIndex > 0
    ensures expected.walletBalance == user.walletBalance - price
    ensures expected.scaledVariableDebt == user.scaledVariableDebt && expected.scaledCTokenBalance == user.scaledCTokenBalance
    ensures expected.currentVariableDebt == RayMul(user.scaledVariableDebt, after.variableBorrowIndex)
    ensures expected.currentCTokenBalance == CTokenBalance(before, user.scaledCTokenBalance, txTimestamp)
    ensures expected.liquidityRate == after.liquidityRate
  {
    hide RayMul, RayDiv, NormalizedDebt, NormalizedIncome;
    RayDivOfAmount(0, after.variableBorrowIndex);
    expected := UserAfterRepay(0, before, after, user, repaysOwnDebt, txTimestamp, currentTimestamp);
    expected := expected.(walletBalance := user.walletBalance - price);
  }

  // ----- Sums over loans -----

  /** What a loan contributes to the debt of `who`, or to the debt of everyone. */
  function Owes(loan: LoanData, who: string): int {
    if loan.Live() && loan.borrower == who then loan.scaledAmount else 0
  }

  function LiveAmount(loan: LoanData): int {
    if loan.Live() then loan.scaledAmount else 0
  }

  function LiveDebt(loans: seq<LoanData>): int {
    if loans == [] then 0 else LiveDebt(loans[..|loans| - 1]) + LiveAmount(loans[|loans| - 1])
  }

  function DebtOf(loans: seq<LoanData>, who: string): int {
    if loans == [] then 0 else DebtOf(loans[..|loans| - 1], who) + Owes(loans[|loans| - 1], who)
  }

  lemma {:induction false} ReplaceLoan(loans: seq<LoanData>, i: nat, loan: LoanData, who: string)
    requires i < |loans|
    ensures LiveDebt(loans[i := loan]) == LiveDebt(loans) - LiveAmount(loans[i]) + LiveAmount(loan)
    ensures DebtOf(loans[i := loan], who) == DebtOf(loans, who) - Owes(loans[i], who) + Owes(loan, who)
  {
    var n := |loans| - 1;
    if i < n {
      ReplaceLoan(loans[..n], i, loan, who);
      assert loans[i := loan][..n] == loans[..n][i := loan];
    } else {
      assert loans[i := loan][..n] == loans[..n];
    }
  }

  lemma AppendLoan(loans: seq<LoanData>, loan: LoanData, who: string)
    ensures LiveDebt(loans + [loan]) == LiveDebt(loans) + LiveAmount(loan)
    ensures DebtOf(loans + [loan], who) == DebtOf(loans, who) + Owes(loan, who)
  {
    assert (loans + [loan])[..|loans|] == loans;
  }

  predicate NonNegative(loans: seq<LoanData>) {
    forall i :: 0 <= i < |loans| && loans[i].Live() ==> loans[i].scaledAmount >= 0
  }

  /** A loan is part of its borrower's debt, which is part of the debt of all. */
  lemma {:induction false} DebtsNest(loans: seq<LoanData>, who: string)
    requires NonNegative(loans)
    ensures 0 <= DebtOf(loans, who) <= LiveDebt(loans)
    ensures forall i :: 0 <= i < |loans| && loans[i].borrower == who ==> LiveAmount(loans[i]) <= DebtOf(loans, who)
  {
    if loans == [] {
    } else {
      var init := loans[..|loans| - 1];
      assert forall i :: 0 <= i < |init| ==> init[i] == loans[i];
      DebtsNest(init, who);
    }
  }

  /** A borrower whose only live loan is `i` owes exactly that loan. */
  lemma {:induction false} SingleLoan(loans: seq<LoanData>, i: nat)
    requires i < |loans|
    requires forall j :: 0 <= j < |loans| && j != i && loans[j].Live() ==> loans[j].borrower != loans[i].borrower
    ensures DebtOf(loans, loans[i].borrower) == LiveAmount(loans[i])
  {
    var n := |loans| - 1;
    var init := loans[..n];
    assert forall j :: 0 <= j < n ==> init[j] == loans[j];
    if i < n {
      SingleLoan(init, i);
    } else {
      OwesNothing(init, loans[i].borrower);
    }
  }

  lemma {:induction false} OwesNothing(loans: seq<LoanData>, who: string)
    requires forall j :: 0 <= j < |loans| && loans[j].Live() ==> loans[j].borrower != who
    ensures DebtOf(loans, who) == 0
  {
    if loans == [] {
    } else {
      var init := loans[..|loans| - 1];
      assert forall j :: 0 <= j < |init| ==> init[j] == loans[j];
      OwesNothing(init, who);
    }
  }
}
