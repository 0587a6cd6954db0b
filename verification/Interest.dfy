/** `calcLinearInterest` and `calcCompoundedInterest` of `test/helpers/utils/calculations.ts`. */
module Interest {
  import opened FixedPoint

  function LinearInterest(rate: int, now: int, last: int): int {
    TruncDiv(rate * (now - last), ONE_YEAR) + RAY
  }

  function RatePerSecond(rate: int): int { TruncDiv(rate, ONE_YEAR) }

  function CompoundedInterest(rate: int, now: int, last: int): int {
    var n := now - last;
    if n == 0 then RAY
    else
      var expMinusOne := n - 1;
      var expMinusTwo := if n > 2 then n - 2 else 0;
      var ratePerSecond := RatePerSecond(rate);
      var basePowerTwo := RayMul(ratePerSecond, ratePerSecond);
      var basePowerThree := RayMul(basePowerTwo, ratePerSecond);
      var secondTerm := TruncDiv(n * expMinusOne * basePowerTwo, 2);
      var thirdTerm := TruncDiv(n * expMinusOne * expMinusTwo * basePowerThree, 6);
      RAY + ratePerSecond * n + secondTerm + thirdTerm
  }

  // ----- Binomial coefficients -----

  function Choose2(n: nat): nat {
    if n == 0 then 0 else Choose2(n - 1) + (n - 1)
  }

  function Choose3(n: nat): nat {
    if n == 0 then 0 else Choose3(n - 1) + Choose2(n - 1)
  }

  lemma {:induction false} ChooseClosed(n: nat)
    ensures 2 * Choose2(n) == n * (n - 1)
    ensures 6 * Choose3(n) == n * (n - 1) * (n - 2)
  {
    if n == 0 {
    } else {
      ChooseClosed(n - 1);
      ClosedStep(n);
    }
  }

  lemma ClosedStep(n: int)
    ensures n * (n - 1) == (n - 1) * (n - 2) + 2 * (n - 1)
    ensures n * (n - 1) * (n - 2) == (n - 1) * (n - 2) * (n - 3) + 3 * ((n - 1) * (n - 2))
  {
  }

  lemma {:induction false} Vandermonde(m: nat, n: nat)
    ensures Choose2(m + n) == Choose2(m) + m * n + Choose2(n)
    ensures Choose3(m + n) == Choose3(m) + Choose2(m) * n + m * Choose2(n) + Choose3(n)
  {
    if n == 0 {
    } else {
      Vandermonde(m, n - 1);
      assert m + n - 1 == m + (n - 1);
      Distribute(m, n - 1, 1);
      Distribute(Choose2(m), n - 1, 1);
      Distribute(m, Choose2(n - 1), n - 1);
    }
  }

  lemma {:induction false} ChooseOrdered(m: nat, n: nat)
    requires m <= n
    ensures Choose2(m) <= Choose2(n) && Choose3(m) <= Choose3(n)
  {
    if m == n {
    } else {
      ChooseOrdered(m, n - 1);
    }
  }

  // ----- The compounded factor as a truncated binomial -----

  /** The rounded powers of the per-second rate `r`. */
  function Power2(r: int): int { RayMul(r, r) }

  function Power3(r: int): int { RayMul(Power2(r), r) }

  /** The first four terms of the binomial expansion over `n` seconds, with the rounded powers. */
  function Truncated(r: int, n: nat): int {
    RAY + r * n + Choose2(n) * Power2(r) + Choose3(n) * Power3(r)
  }

  lemma Powers(r: int)
    requires r >= 0
    ensures Nearest(r * r, RAY, Power2(r)) && Nearest(Power2(r) * r, RAY, Power3(r))
    ensures Power2(r) >= 0 && Power3(r) >= 0
  {
    MulOrdered(0, r, 0, r, RAY);
    MulOrdered(0, Power2(r), 0, r, RAY);
    MulIsNearest(r, r, RAY, Power2(r));
    MulIsNearest(Power2(r), r, RAY, Power3(r));
  }

  /** Neither division loses anything: the coded factor is the truncated binomial itself. */
  lemma CompoundedIsTruncated(rate: int, n: nat, last: int)
    requires rate >= 0
    ensures CompoundedInterest(rate, last + n, last) == Truncated(RatePerSecond(rate), n)
  {
    var r := RatePerSecond(rate);
    if n > 0 {
      Powers(r);
      ChooseClosed(n);
      var k := if n > 2 then n - 2 else 0;
      assert n * (n - 1) * k == n * (n - 1) * (n - 2);
      ExactQuotient(2, Choose2(n), n * (n - 1), Power2(r));
      ExactQuotient(6, Choose3(n), n * (n - 1) * k, Power3(r));
    }
  }

  /** The factor never falls below one, and grows with the time and with the rate. */
  lemma CompoundedOrdered(rate: int, rate': int, n: nat, n': nat, last: int, last': int)
    requires 0 <= rate <= rate' && n <= n'
    ensures RAY <= CompoundedInterest(rate, last + n, last) <= CompoundedInterest(rate', last' + n', last')
  {
    CompoundedIsTruncated(rate, n, last);
    CompoundedIsTruncated(rate', n', last');
    var r, r' := RatePerSecond(rate), RatePerSecond(rate');
    Powers(r);
    Powers(r');
    MulOrdered(r, r', r, r', RAY);
    MulOrdered(Power2(r), Power2(r'), r, r', RAY);
    ChooseOrdered(n, n');
    ProductOrdered(r, r', n, n');
    ProductOrdered(Choose2(n), Choose2(n'), Power2(r), Power2(r'));
    ProductOrdered(Choose3(n), Choose3(n'), Power3(r), Power3(r'));
  }

  lemma LinearOrdered(rate: int, n: nat, n': nat, last: int, last': int)
    requires 0 <= rate && n <= n'
    ensures RAY <= LinearInterest(rate, last + n, last) <= LinearInterest(rate, last' + n', last')
  {
    ProductOrdered(rate, rate, n, n');
  }

  lemma ProductOrdered(a: int, a': int, b: int, b': int)
    requires 0 <= a <= a' && 0 <= b <= b'
    ensures 0 <= a * b <= a' * b'
  {
    MulMonotone(a, b, b');
    MulMonotone(b', a, a');
  }

  // ----- Splitting an accrual period -----

  /** Twice the interest that rounding the powers can cost when a period is split in `m` and `n`. */
  function SplitLoss(m: nat, n: nat): nat {
    m * n + m * Choose2(n) + n * Choose2(m)
  }

  /** Compounding over two consecutive periods yields at least as much as compounding once
      over their union, up to half a unit for each rounded cross term. */
  lemma SplittingKeepsInterest(rate: int, m: nat, n: nat, last: int)
    requires rate >= 0
    ensures 2 * CompoundedInterest(rate, last + m + n, last)
         <= 2 * RayMul(CompoundedInterest(rate, last + m, last), CompoundedInterest(rate, last + m + n, last + m))
            + SplitLoss(m, n)
  {
    hide MulHalfUp, CompoundedInterest, Truncated, SplitLoss;
    var r := RatePerSecond(rate);
    CompoundedIsTruncated(rate, m, last);
    CompoundedIsTruncated(rate, n, last + m);
    CompoundedIsTruncated(rate, m + n, last);
    var x, y := Truncated(r, m), Truncated(r, n);
    CompoundedOrdered(rate, rate, m, m, last, last);
    CompoundedOrdered(rate, rate, n, n, last + m, last + m);
    SplitAtRates(r, m, n);
    ProductOrdered(x, x, y, y);
    MulIsNearest(x, y, RAY, RayMul(x, y));
  }

  lemma SplitAtRates(r: int, m: nat, n: nat)
    requires r >= 0
    ensures 2 * (RAY * Truncated(r, m + n)) <= 2 * (Truncated(r, m) * Truncated(r, n)) + RAY * SplitLoss(m, n)
  {
    hide Power2, Power3, Choose2, Choose3;
    Powers(r);
    Vandermonde(m, n);
    CrossTerms(r, Power2(r), Power3(r), m, n, Choose2(m), Choose2(n), Choose3(m), Choose3(n));
  }

  /** The algebra of a split: the product of two truncated binomials dominates the binomial of
      the sum, because its cross terms use exact products where the sum uses rounded powers. */
  lemma CrossTerms(r: int, p2: int, p3: int, m: int, n: int, m2: int, n2: int, m3: int, n3: int)
    requires r >= 0 && p2 >= 0 && p3 >= 0 && m >= 0 && n >= 0 && m2 >= 0 && n2 >= 0 && m3 >= 0 && n3 >= 0
    requires 2 * (RAY * p2) <= 2 * (r * r) + RAY && 2 * (RAY * p3) <= 2 * (p2 * r) + RAY
    ensures var x := RAY + r * m + m2 * p2 + m3 * p3;
      var y := RAY + r * n + n2 * p2 + n3 * p3;
      var z := RAY + r * (m + n) + (m2 + m * n + n2) * p2 + (m3 + m2 * n + m * n2 + n3) * p3;
      2 * (RAY * z) <= 2 * (x * y) + RAY * (m * n + m * n2 + n * m2)
  {
    var X1, X2, X3 := r * m, m2 * p2, m3 * p3;
    var Y1, Y2, Y3 := r * n, n2 * p2, n3 * p3;
    ProductsOfTerms(r, p2, m, n, m2, n2);
    NineProducts(X1, X2, X3, Y1, Y2, Y3);
    Assemble(X1 + X2 + X3, Y1 + Y2 + Y3, m * n, m * n2 + n * m2, r * r, p2 * r, p2, p3);
    SumOfTerms(p2, p3, m, n, m2, n2, m3, n3);
  }

  lemma ProductsOfTerms(r: int, p2: int, m: int, n: int, m2: int, n2: int)
    ensures (r * m) * (r * n) == (m * n) * (r * r)
    ensures (r * m) * (n2 * p2) + (m2 * p2) * (r * n) == (m * n2 + n * m2) * (p2 * r)
  {
    assert (r * m) * (n2 * p2) == (m * n2) * (p2 * r);
    assert (m2 * p2) * (r * n) == (n * m2) * (p2 * r);
  }

  lemma SumOfTerms(p2: int, p3: int, m: int, n: int, m2: int, n2: int, m3: int, n3: int)
    ensures (m2 + m * n + n2) * p2 == m2 * p2 + (m * n) * p2 + n2 * p2
    ensures (m3 + m2 * n + m * n2 + n3) * p3 == m3 * p3 + (m * n2 + n * m2) * p3 + n3 * p3
  {
  }

  lemma Assemble(X: int, Y: int, a: int, k: int, rr: int, p2r: int, p2: int, p3: int)
    requires a >= 0 && k >= 0
    requires X * Y >= a * rr + k * p2r
    requires 2 * (RAY * p2) <= 2 * rr + RAY && 2 * (RAY * p3) <= 2 * p2r + RAY
    ensures 2 * (RAY * (RAY + X + Y + a * p2 + k * p3)) <= 2 * ((RAY + X) * (RAY + Y)) + RAY * (a + k)
  {
    MulMonotone(a, 2 * (RAY * p2), 2 * rr + RAY);
    MulMonotone(k, 2 * (RAY * p3), 2 * p2r + RAY);
  }

  lemma NineProducts(x1: int, x2: int, x3: int, y1: int, y2: int, y3: int)
    requires x1 >= 0 && x2 >= 0 && x3 >= 0 && y1 >= 0 && y2 >= 0 && y3 >= 0
    ensures (x1 + x2 + x3) * (y1 + y2 + y3) >= x1 * y1 + x1 * y2 + x2 * y1
  {
  }

  // ----- Against the exact power -----

  function Pow(b: int, e: nat): int {
    if e == 0 then 1 else Pow(b, e - 1) * b
  }

  /** The k-th term `C(n, k) * r^k` of the expansion, by its own recurrence. */
  function Term(k: nat, r: int, n: nat): int
    decreases n
  {
    if k == 0 then 1 else if n == 0 then 0 else Term(k, r, n - 1) + Term(k - 1, r, n - 1) * r
  }

  lemma {:induction false} TermsClosed(r: int, n: nat)
    ensures Term(1, r, n) == n * r
    ensures Term(2, r, n) == Choose2(n) * (r * r)
    ensures Term(3, r, n) == Choose3(n) * (r * r * r)
  {
    if n == 0 {
    } else {
      TermsClosed(r, n - 1);
      TermsStep(r, n - 1, Choose2(n - 1), Choose3(n - 1));
    }
  }

  lemma TermsStep(r: int, n: int, c2: int, c3: int)
    ensures n * r + r == (n + 1) * r
    ensures c2 * (r * r) + (n * r) * r == (c2 + n) * (r * r)
    ensures c3 * (r * r * r) + (c2 * (r * r)) * r == (c3 + c2) * (r * r * r)
  {
    Associate(n, r, r);
    Associate(c2, r * r, r);
    Distribute(r * r, c2, n);
    Distribute(r * r * r, c3, c2);
  }

  /** `RAY^3` times the first four terms of the exact `(1 + r / RAY)^n`. */
  function Expansion(r: int, n: nat): int {
    RAY * RAY * RAY + RAY * RAY * Term(1, r, n) + RAY * Term(2, r, n) + Term(3, r, n)
  }

  /** The k-th summand `C(n, k) * r^k * RAY^(n - k)` of `(RAY + r)^n`, by Pascal's rule. */
  function Summand(k: nat, r: int, n: nat): int
    decreases n
  {
    if n == 0 then (if k == 0 then 1 else 0)
    else Summand(k, r, n - 1) * RAY + if k == 0 then 0 else Summand(k - 1, r, n - 1) * r
  }

  /** The first four summands are part of the whole power. */
  lemma {:induction false} SummandsBelowPower(r: int, n: nat)
    requires r >= 0
    ensures Summand(0, r, n) + Summand(1, r, n) + Summand(2, r, n) + Summand(3, r, n) <= Pow(RAY + r, n)
    ensures Summand(3, r, n) >= 0 && Summand(2, r, n) >= 0 && Summand(1, r, n) >= 0 && Summand(0, r, n) >= 0
  {
    if n == 0 {
    } else {
      hide Summand, Pow;
      SummandsBelowPower(r, n - 1);
      PascalRules(r, n);
      AddPascal(r, Summand(0, r, n - 1), Summand(1, r, n - 1), Summand(2, r, n - 1), Summand(3, r, n - 1), Pow(RAY + r, n - 1));
    }
  }

  lemma PascalRules(r: int, n: nat)
    requires n > 0
    ensures Summand(0, r, n) == Summand(0, r, n - 1) * RAY
    ensures forall k :: 1 <= k <= 3 ==> Summand(k, r, n) == Summand(k, r, n - 1) * RAY + Summand(k - 1, r, n - 1) * r
    ensures forall k :: 1 <= k <= 3 ==> Term(k, r, n) == Term(k, r, n - 1) + Term(k - 1, r, n - 1) * r
    ensures Pow(RAY + r, n) == Pow(RAY + r, n - 1) * (RAY + r) && Pow(RAY, n) == Pow(RAY, n - 1) * RAY
    ensures Term(0, r, n - 1) == 1
  {
  }

  lemma AddPascal(r: int, b0: int, b1: int, b2: int, b3: int, q: int)
    requires r >= 0 && b0 >= 0 && b1 >= 0 && b2 >= 0 && b3 >= 0 && b0 + b1 + b2 + b3 <= q
    ensures b0 * RAY + (b1 * RAY + b0 * r) + (b2 * RAY + b1 * r) + (b3 * RAY + b2 * r) <= q * (RAY + r)
    ensures b0 * r >= 0 && b1 * r >= 0 && b2 * r >= 0
  {
    MulMonotone(r, 0, b0);
    MulMonotone(r, 0, b1);
    MulMonotone(r, 0, b2);
    MulMonotone(r, 0, b3);
    Distribute(q, RAY, r);
    MulMonotone(r, b0 + b1 + b2 + b3, q);
    Distribute(r, b0 + b1, b2 + b3);
    Distribute(r, b0, b1);
    Distribute(r, b2, b3);
  }

  lemma {:induction false} SummandsClosed(r: int, n: nat)
    ensures Summand(0, r, n) == Pow(RAY, n) > 0
    ensures RAY * Summand(1, r, n) == Term(1, r, n) * Pow(RAY, n)
    ensures RAY * RAY * Summand(2, r, n) == Term(2, r, n) * Pow(RAY, n)
    ensures RAY * RAY * RAY * Summand(3, r, n) == Term(3, r, n) * Pow(RAY, n)
  {
    if n == 0 {
    } else {
      hide Summand, Pow, Term;
      SummandsClosed(r, n - 1);
      PascalRules(r, n);
      ScalePascal(r, Pow(RAY, n - 1), Term(1, r, n - 1), Term(2, r, n - 1), Term(3, r, n - 1));
      var b1, b2 := Summand(1, r, n - 1), Summand(2, r, n - 1);
      Associate(RAY, b1, r);
      Associate(RAY * RAY, b2, r);
    }
  }

  lemma ScalePascal(r: int, p: int, x1: int, x2: int, x3: int)
    ensures (x1 + 1 * r) * (p * RAY) == RAY * (x1 * p) + RAY * (p * r)
    ensures (x2 + x1 * r) * (p * RAY) == RAY * (x2 * p) + RAY * ((x1 * p) * r)
    ensures (x3 + x2 * r) * (p * RAY) == RAY * (x3 * p) + RAY * ((x2 * p) * r)
  {
    Distribute(p, x1, r);
    Distribute(p, x2, x1 * r);
    Distribute(p, x3, x2 * r);
    assert (x1 * r) * p == (x1 * p) * r;
    assert (x2 * r) * p == (x2 * p) * r;
  }

  lemma Associate(a: int, b: int, c: int)
    ensures (a * b) * c == a * (b * c)
  {
  }

  /** `2 * RAY` times what rounding the two powers of the rate can contribute over `n` seconds. */
  function RoundingLoss(r: int, n: nat): int {
    Choose2(n) * RAY + Choose3(n) * (r + RAY)
  }

  /** For the rate per second rounding the powers is the only source of error, in both directions. */
  lemma NearExpansionOfSeconds(rate: int, n: nat, last: int)
    requires rate >= 0
    ensures var r := RatePerSecond(rate);
      var c := CompoundedInterest(rate, last + n, last);
      -RAY * RoundingLoss(r, n) <= 2 * (RAY * RAY * c) - 2 * Expansion(r, n) <= RAY * RoundingLoss(r, n)
  {
    var r := RatePerSecond(rate);
    CompoundedIsTruncated(rate, n, last);
    var p2, p3 := Power2(r), Power3(r);
    var e2, e3 := 2 * (RAY * p2) - 2 * (r * r), 2 * (RAY * RAY * p3) - 2 * (r * r * r);
    PowerErrors(r);
    TermsClosed(r, n);
    WeighErrors(r, Choose2(n), Choose3(n), e2, e3);
    TruncatedError(r, n, p2, p3, Choose2(n), Choose3(n), e2, e3);
  }

  lemma PowerErrors(r: int)
    requires r >= 0
    ensures -RAY <= 2 * (RAY * Power2(r)) - 2 * (r * r) <= RAY
    ensures -RAY * (r + RAY) <= 2 * (RAY * RAY * Power3(r)) - 2 * (r * r * r) <= RAY * (r + RAY)
  {
    hide Power2, Power3;
    Powers(r);
    var p2, p3 := Power2(r), Power3(r);
    var e2 := 2 * (RAY * p2) - 2 * (r * r);
    MulMonotone(r, e2, RAY);
    MulMonotone(r, -RAY, e2);
    Distribute(r, 2 * (RAY * p2), -2 * (r * r));
    assert r * (2 * (RAY * p2)) == 2 * (RAY * (p2 * r));
    assert r * (-2 * (r * r)) == -2 * (r * r * r);
  }

  lemma WeighErrors(r: int, c2: int, c3: int, e2: int, e3: int)
    requires c2 >= 0 && c3 >= 0 && -RAY <= e2 <= RAY && -RAY * (r + RAY) <= e3 <= RAY * (r + RAY)
    ensures -RAY * (c2 * RAY + c3 * (r + RAY)) <= RAY * (c2 * e2) + c3 * e3 <= RAY * (c2 * RAY + c3 * (r + RAY))
  {
    MulMonotone(c2, e2, RAY);
    MulMonotone(c2, -RAY, e2);
    MulMonotone(c3, e3, RAY * (r + RAY));
    MulMonotone(c3, -RAY * (r + RAY), e3);
  }

  lemma TruncatedError(r: int, n: int, p2: int, p3: int, c2: int, c3: int, e2: int, e3: int)
    requires e2 == 2 * (RAY * p2) - 2 * (r * r) && e3 == 2 * (RAY * RAY * p3) - 2 * (r * r * r)
    ensures 2 * (RAY * RAY * (RAY + r * n + c2 * p2 + c3 * p3))
         == 2 * (RAY * RAY * RAY + RAY * RAY * (n * r) + RAY * (c2 * (r * r)) + c3 * (r * r * r)) + RAY * (c2 * e2) + c3 * e3
  {
    Distribute(c2, 2 * (RAY * p2), -2 * (r * r));
    Distribute(c3, 2 * (RAY * RAY * p3), -2 * (r * r * r));
  }

  /** The coded factor exceeds the true `(1 + r / RAY)^n` for the rate per second `r` by rounding only. */
  lemma BelowPowerOfSeconds(rate: int, n: nat, last: int)
    requires rate >= 0
    ensures var r := RatePerSecond(rate);
      2 * RAY * (CompoundedInterest(rate, last + n, last) * Pow(RAY, n))
        <= 2 * RAY * RAY * Pow(RAY + r, n) + RoundingLoss(r, n) * Pow(RAY, n)
  {
    hide CompoundedInterest, RoundingLoss, Pow, Term, Summand;
    var r := RatePerSecond(rate);
    NearExpansionOfSeconds(rate, n, last);
    SummandsBelowPower(r, n);
    SummandsClosed(r, n);
    CancelRay(CompoundedInterest(rate, last + n, last), Pow(RAY, n), Term(1, r, n), Term(2, r, n), Term(3, r, n),
              RoundingLoss(r, n), Pow(RAY + r, n));
  }

  lemma CancelRay(c: int, p: int, x1: int, x2: int, x3: int, l: int, q: int)
    requires p >= 0
    requires 2 * (RAY * RAY * c) <= 2 * (RAY * RAY * RAY + RAY * RAY * x1 + RAY * x2 + x3) + RAY * l
    requires RAY * RAY * RAY * p + RAY * RAY * (x1 * p) + RAY * (x2 * p) + x3 * p <= RAY * RAY * RAY * q
    ensures 2 * RAY * (c * p) <= 2 * RAY * RAY * q + l * p
  {
    MulMonotone(p, 2 * (RAY * RAY * c), 2 * (RAY * RAY * RAY + RAY * RAY * x1 + RAY * x2 + x3) + RAY * l);
  }

  // ----- Against the yearly rate -----

  /** Over a single second the interest is the yearly rate pro rata, truncated. */
  lemma SecondIsTruncated(rate: int, last: int)
    requires rate >= 0
    ensures var s := CompoundedInterest(rate, last + 1, last) - RAY;
      ONE_YEAR * s <= rate < ONE_YEAR * s + ONE_YEAR
  {
    CompoundedIsTruncated(rate, 1, last);
    assert Choose2(1) == 0 && Choose3(1) == 0;
  }

  lemma SecondsOfYear(rate: int)
    requires rate >= 0
    ensures RatePerSecond(rate) >= 0 && ONE_YEAR * RatePerSecond(rate) <= rate < ONE_YEAR * RatePerSecond(rate) + ONE_YEAR
  {
  }

  /** `(ONE_YEAR * RAY)^3` times the first four terms of the exact `(1 + rate / (ONE_YEAR * RAY))^n`. */
  function YearlyExpansion(rate: int, n: nat): int {
    ONE_YEAR * ONE_YEAR * ONE_YEAR * (RAY * RAY * RAY) + ONE_YEAR * ONE_YEAR * (RAY * RAY) * (n * rate)
    + ONE_YEAR * RAY * (Choose2(n) * (rate * rate)) + Choose3(n) * (rate * rate * rate)
  }

  /** `2 * RAY * ONE_YEAR` times what rounding the two powers can contribute. */
  function PowerLoss(rate: int, n: nat): int {
    Choose2(n) * (ONE_YEAR * RAY) + Choose3(n) * (rate + ONE_YEAR * RAY)
  }

  /** What truncating the rate to whole units per second can take off each term. */
  function SecondLoss(rate: int, n: nat): int {
    ONE_YEAR * (ONE_YEAR * ONE_YEAR * (RAY * RAY) * n + 2 * ONE_YEAR * RAY * (Choose2(n) * rate) + 3 * (Choose3(n) * (rate * rate)))
  }

  /** The coded factor against the exact expansion in the yearly rate: above it only by the rounding of
      the powers, below it only by that and the truncation of the rate per second. */
  lemma CompoundedNearExpansion(rate: int, n: nat, last: int)
    requires rate >= 0
    ensures var c := ONE_YEAR * ONE_YEAR * ONE_YEAR * (RAY * RAY * CompoundedInterest(rate, last + n, last));
      && 2 * c <= 2 * YearlyExpansion(rate, n) + ONE_YEAR * ONE_YEAR * (RAY * PowerLoss(rate, n))
      && 2 * c >= 2 * YearlyExpansion(rate, n) - ONE_YEAR * ONE_YEAR * (RAY * PowerLoss(rate, n)) - 2 * SecondLoss(rate, n)
  {
    hide CompoundedInterest, RatePerSecond, RoundingLoss, Choose2, Choose3, Expansion, YearlyExpansion, PowerLoss, SecondLoss;
    var r := RatePerSecond(rate);
    SecondsOfYear(rate);
    NearExpansionOfSeconds(rate, n, last);
    ExpansionOfYear(r, rate, n);
    PowerLossOfYear(r, rate, n);
  }

  lemma PowerLossOfYear(r: int, rate: int, n: nat)
    requires 0 <= r && ONE_YEAR * r <= rate
    ensures 0 <= ONE_YEAR * RoundingLoss(r, n) <= PowerLoss(rate, n)
  {
    hide Choose2, Choose3;
    MulMonotone(Choose3(n), ONE_YEAR * (r + RAY), rate + ONE_YEAR * RAY);
    ProductNonNegative(Choose3(n), r + RAY);
    assert Choose3(n) * (ONE_YEAR * (r + RAY)) == ONE_YEAR * (Choose3(n) * (r + RAY));
  }

  lemma ExpansionOfYear(r: int, rate: int, n: nat)
    requires 0 <= r && ONE_YEAR * r <= rate <= ONE_YEAR * r + ONE_YEAR
    ensures var e := ONE_YEAR * ONE_YEAR * ONE_YEAR * Expansion(r, n);
      YearlyExpansion(rate, n) - SecondLoss(rate, n) <= e <= YearlyExpansion(rate, n)
  {
    hide Choose2, Choose3, Term;
    TermsClosed(r, n);
    PowersOfRates(ONE_YEAR * r, rate);
    PowersOfYear(r);
    WeighTerm(n, ONE_YEAR * r, rate, ONE_YEAR);
    WeighTerm(Choose2(n), ONE_YEAR * ONE_YEAR * (r * r), rate * rate, 2 * ONE_YEAR * rate);
    WeighTerm(Choose3(n), ONE_YEAR * ONE_YEAR * ONE_YEAR * (r * r * r), rate * rate * rate, 3 * ONE_YEAR * (rate * rate));
    SumOfYear(r, rate, n, Choose2(n), Choose3(n));
  }

  lemma PowersOfYear(r: int)
    ensures var x := ONE_YEAR * r;
      x * x == ONE_YEAR * ONE_YEAR * (r * r) && x * x * x == ONE_YEAR * ONE_YEAR * ONE_YEAR * (r * r * r)
  {
  }

  /** How far apart the powers of two rates within a second's truncation are. */
  lemma PowersOfRates(x: int, rate: int)
    requires 0 <= x <= rate <= x + ONE_YEAR
    ensures rate * rate - 2 * ONE_YEAR * rate <= x * x <= rate * rate
    ensures rate * rate * rate - 3 * ONE_YEAR * (rate * rate) <= x * x * x <= rate * rate * rate
  {
    SquaresOfRates(x, rate);
    CubesOfRates(x, rate, x * x, rate * rate);
  }

  lemma SquaresOfRates(x: int, rate: int)
    requires 0 <= x <= rate <= x + ONE_YEAR
    ensures 0 <= x * x <= rate * x <= rate * rate
    ensures rate * rate - 2 * ONE_YEAR * rate <= x * x
  {
    MulMonotone(x, 0, x);
    MulMonotone(x, x, rate);
    MulMonotone(rate, x, rate);
    MulMonotone(rate, rate, x + ONE_YEAR);
    MulMonotone(x, rate, x + ONE_YEAR);
    Distribute(rate, x, ONE_YEAR);
    Distribute(x, x, ONE_YEAR);
  }

  lemma CubesOfRates(x: int, rate: int, x2: int, rate2: int)
    requires 0 <= x <= rate <= x + ONE_YEAR && x2 == x * x && rate2 == rate * rate
    requires 0 <= x2 <= rate * x <= rate2 && rate2 - 2 * ONE_YEAR * rate <= x2
    ensures rate2 * rate - 3 * ONE_YEAR * rate2 <= x2 * x <= rate2 * rate
  {
    MulMonotone(x, x2, rate2);
    MulMonotone(rate2, x, rate);
    MulMonotone(x, rate2 - 2 * ONE_YEAR * rate, x2);
    Distribute(x, rate2, -2 * ONE_YEAR * rate);
    assert x * (2 * ONE_YEAR * rate) == 2 * ONE_YEAR * (rate * x);
    MulMonotone(rate2, rate, x + ONE_YEAR);
    Distribute(rate2, x, ONE_YEAR);
  }

  lemma WeighTerm(c: int, low: int, high: int, gap: int)
    requires c >= 0 && high - gap <= low <= high
    ensures c * high - c * gap <= c * low <= c * high
  {
    MulMonotone(c, low, high);
    MulMonotone(c, high - gap, low);
    Distribute(c, high, -gap);
  }

  lemma SumOfYear(r: int, rate: int, n: int, c2: int, c3: int)
    requires n * rate - n * ONE_YEAR <= n * (ONE_YEAR * r) <= n * rate
    requires c2 * (rate * rate) - c2 * (2 * ONE_YEAR * rate) <= c2 * (ONE_YEAR * ONE_YEAR * (r * r)) <= c2 * (rate * rate)
    requires c3 * (rate * rate * rate) - c3 * (3 * ONE_YEAR * (rate * rate))
      <= c3 * (ONE_YEAR * ONE_YEAR * ONE_YEAR * (r * r * r)) <= c3 * (rate * rate * rate)
    ensures var e := ONE_YEAR * ONE_YEAR * ONE_YEAR * (RAY * RAY * RAY + RAY * RAY * (n * r) + RAY * (c2 * (r * r)) + c3 * (r * r * r));
      var y := ONE_YEAR * ONE_YEAR * ONE_YEAR * (RAY * RAY * RAY) + ONE_YEAR * ONE_YEAR * (RAY * RAY) * (n * rate)
               + ONE_YEAR * RAY * (c2 * (rate * rate)) + c3 * (rate * rate * rate);
      var loss := ONE_YEAR * (ONE_YEAR * ONE_YEAR * (RAY * RAY) * n + 2 * ONE_YEAR * RAY * (c2 * rate) + 3 * (c3 * (rate * rate)));
      y - loss <= e <= y
  {
    PullOut(n, ONE_YEAR, r);
    PullOut(c2, ONE_YEAR * ONE_YEAR, r * r);
    PullOut(c3, ONE_YEAR * ONE_YEAR * ONE_YEAR, r * r * r);
    PullOut(c2, 2 * ONE_YEAR, rate);
    PullOut(c3, 3 * ONE_YEAR, rate * rate);
    AddTerms(n * r, c2 * (r * r), c3 * (r * r * r), n * rate, c2 * (rate * rate), c3 * (rate * rate * rate), n, c2 * rate, c3 * (rate * rate));
  }

  lemma PullOut(c: int, k: int, x: int)
    ensures c * (k * x) == k * (c * x)
  {
  }

  lemma AddTerms(t1: int, t2: int, t3: int, y1: int, y2: int, y3: int, g1: int, g2: int, g3: int)
    requires y1 - ONE_YEAR * g1 <= ONE_YEAR * t1 <= y1
    requires y2 - 2 * ONE_YEAR * g2 <= ONE_YEAR * ONE_YEAR * t2 <= y2
    requires y3 - 3 * ONE_YEAR * g3 <= ONE_YEAR * ONE_YEAR * ONE_YEAR * t3 <= y3
    ensures var e := ONE_YEAR * ONE_YEAR * ONE_YEAR * (RAY * RAY * RAY + RAY * RAY * t1 + RAY * t2 + t3);
      var y := ONE_YEAR * ONE_YEAR * ONE_YEAR * (RAY * RAY * RAY) + ONE_YEAR * ONE_YEAR * (RAY * RAY) * y1 + ONE_YEAR * RAY * y2 + y3;
      y - ONE_YEAR * (ONE_YEAR * ONE_YEAR * (RAY * RAY) * g1 + 2 * ONE_YEAR * RAY * g2 + 3 * g3) <= e <= y
  {
  }

  /** The coded factor exceeds the true compound interest `(1 + rate / (ONE_YEAR * RAY))^n` by the
      rounding of the powers only, for every number of seconds. */
  lemma CompoundedBelowPower(rate: int, n: nat, last: int)
    requires rate >= 0
    ensures 2 * RAY * ONE_YEAR * (CompoundedInterest(rate, last + n, last) * Pow(ONE_YEAR * RAY, n))
         <= 2 * RAY * RAY * ONE_YEAR * Pow(ONE_YEAR * RAY + rate, n) + PowerLoss(rate, n) * Pow(ONE_YEAR * RAY, n)
  {
    hide CompoundedInterest, RatePerSecond, RoundingLoss, PowerLoss, Pow;
    var r, c := RatePerSecond(rate), CompoundedInterest(rate, last + n, last);
    SecondsOfYear(rate);
    BelowPowerOfSeconds(rate, n, last);
    PowerLossOfYear(r, rate, n);
    PowOfProduct(ONE_YEAR, RAY, n);
    PowOfProduct(ONE_YEAR, RAY + r, n);
    PowOrdered(ONE_YEAR * (RAY + r), ONE_YEAR * RAY + rate, n);
    PowOrdered(0, ONE_YEAR, n);
    PowOrdered(0, RAY, n);
    ScalePower(c, Pow(ONE_YEAR, n), Pow(RAY, n), Pow(RAY + r, n), RoundingLoss(r, n), PowerLoss(rate, n));
  }

  lemma {:induction false} PowOfProduct(a: int, b: int, n: nat)
    ensures Pow(a * b, n) == Pow(a, n) * Pow(b, n)
  {
    if n == 0 {
    } else {
      PowOfProduct(a, b, n - 1);
      RegroupFactors(Pow(a, n - 1), Pow(b, n - 1), a, b);
    }
  }

  lemma RegroupFactors(x: int, y: int, a: int, b: int)
    ensures (x * y) * (a * b) == (x * a) * (y * b)
  {
    Associate(x, y, a * b);
    Associate(x, a, y * b);
    Associate(y, a, b);
    Associate(a, y, b);
  }

  lemma {:induction false} PowOrdered(a: int, b: int, n: nat)
    requires 0 <= a <= b
    ensures 0 <= Pow(a, n) <= Pow(b, n)
  {
    if n == 0 {
    } else {
      PowOrdered(a, b, n - 1);
      ProductOrdered(Pow(a, n - 1), Pow(b, n - 1), a, b);
    }
  }

  lemma ScalePower(c: int, y: int, q: int, pr: int, l: int, pl: int)
    requires y >= 0 && q >= 0 && ONE_YEAR * l <= pl
    requires 2 * RAY * (c * q) <= 2 * RAY * RAY * pr + l * q
    ensures 2 * RAY * ONE_YEAR * (c * (y * q)) <= 2 * RAY * RAY * ONE_YEAR * (y * pr) + pl * (y * q)
  {
    MulMonotone(y, 2 * RAY * (c * q), 2 * RAY * RAY * pr + l * q);
    Distribute(y, 2 * RAY * RAY * pr, l * q);
    assert y * (c * q) == c * (y * q);
    assert y * (l * q) == l * (y * q);
    ProductNonNegative(y, q);
    MulMonotone(y * q, ONE_YEAR * l, pl);
    assert (y * q) * (ONE_YEAR * l) == ONE_YEAR * (l * (y * q));
  }
}
