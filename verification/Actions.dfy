/** The arithmetic of `test/helpers/actions.ts`: the tolerance of the comparisons and the price that
    puts a debt at a chosen health. */
module Actions {
  import opened FixedPoint

  /** Two amounts compare as equal when stepping one of them by at most three meets the other. */
  predicate AlmostEqualOrEqual(actual: int, expected: int) {
    || actual == expected
    || actual + 1 == expected
    || actual == expected + 1
    || actual + 2 == expected
    || actual == expected + 2
    || actual + 3 == expected
    || actual == expected + 3
  }

  /** The comparison accepts exactly a difference of at most three. */
  lemma ToleranceIsThree(actual: int, expected: int)
    ensures AlmostEqualOrEqual(actual, expected) <==> -3 <= actual - expected <= 3
  {
  }

  datatype Result<+T> = Ok(value: T) | Err(message: string)

  /** The debt in ether, at the reserve's price and decimals. */
  function EthAmount(debtAmount: int, reservePrice: int, oneReserve: int): int
    requires oneReserve != 0
  {
    TruncDiv(debtAmount * reservePrice, oneReserve)
  }

  function NftPriceForDebt(debtAmount: int, reservePrice: int, oneReserve: int, healthPercent: int,
                           liquidationThreshold: int): Result<int>
    requires oneReserve != 0 && liquidationThreshold != 0
  {
    var ethAmount := EthAmount(debtAmount, reservePrice, oneReserve);
    var nftPrice := PercentDiv(PercentMul(ethAmount, healthPercent * 100), liquidationThreshold);
    if nftPrice <= 0 then Err("invalid zero nftPrice") else Ok(nftPrice)
  }

  /** The chosen price hits the target health exactly: weighted by the threshold it is the target
      share of the debt in ether, which is the whole number of units the debt is worth. So a percentage of
      at most 100 never leaves the weighted collateral above the debt. */
  lemma PriceHitsHealth(debtAmount: int, reservePrice: int, oneReserve: int, healthPercent: int, threshold: int, ether: int)
    requires debtAmount >= 0 && reservePrice >= 0 && oneReserve > 0 && healthPercent >= 0 && 0 < threshold <= PERCENTAGE_FACTOR
    requires oneReserve * ether <= debtAmount * reservePrice < oneReserve * ether + oneReserve
    ensures var target := PercentMul(ether, healthPercent * 100);
      match NftPriceForDebt(debtAmount, reservePrice, oneReserve, healthPercent, threshold)
      case Ok(price) =>
        && price > 0 && Nearest(target * PERCENTAGE_FACTOR, threshold, price)
        && PercentMul(price, threshold) == target && (healthPercent <= 100 ==> PercentMul(price, threshold) <= ether)
      case Err(_) => target == 0
  {
    hide MulHalfUp, DivHalfUp, EthAmount;
    EthAmountIsTruncated(debtAmount, reservePrice, oneReserve, ether);
    var target := PercentMul(ether, healthPercent * 100);
    MulOrdered(0, ether, 0, healthPercent * 100, PERCENTAGE_FACTOR);
    AmountRoundTrip(target, threshold, PERCENTAGE_FACTOR);
    DivIsNearest(target, threshold, PERCENTAGE_FACTOR, PercentDiv(target, threshold));
    DivOrdered(0, target, threshold, PERCENTAGE_FACTOR);
    MulUnits(threshold, PERCENTAGE_FACTOR);
    if healthPercent <= 100 {
      MulOrdered(ether, ether, healthPercent * 100, PERCENTAGE_FACTOR, PERCENTAGE_FACTOR);
      MulUnits(ether, PERCENTAGE_FACTOR);
    }
  }

  /** The debt in ether is cut off to whole units. */
  lemma EthAmountIsTruncated(debtAmount: int, reservePrice: int, oneReserve: int, ether: int)
    requires debtAmount >= 0 && reservePrice >= 0 && oneReserve > 0
    requires oneReserve * ether <= debtAmount * reservePrice < oneReserve * ether + oneReserve
    ensures EthAmount(debtAmount, reservePrice, oneReserve) == ether >= 0
  {
    ProductNonNegative(debtAmount, reservePrice);
    QuotientUnique(debtAmount * reservePrice, oneReserve, ether);
    if ether < 0 {
      MulMonotone(oneReserve, ether, -1);
    }
  }
}
