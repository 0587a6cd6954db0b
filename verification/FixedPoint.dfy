/** The half-up fixed-point arithmetic of `test/helpers/utils/math.ts`.

    Every suite that runs the model configures its numbers with no decimal places and
    rounding towards zero, so each quotient below is the truncating one, also for negative
    operands. */
module FixedPoint {

  const RAY: int := 1_000_000_000_000_000_000_000_000_000
  const WAD: int := 1_000_000_000_000_000_000
  const WAD_RAY_RATIO: int := 1_000_000_000
  const PERCENTAGE_FACTOR: int := 10_000
  const ONE_YEAR: int := 31_536_000
  const MAX_UINT_AMOUNT: int := 0xFFFF_FFFF_FFFF_FFFF_FFFF_FFFF_FFFF_FFFF_FFFF_FFFF_FFFF_FFFF_FFFF_FFFF_FFFF_FFFF

  /** Integer quotient rounded towards zero. */
  function TruncDiv(a: int, b: int): int
    requires b != 0
  {
    if a >= 0 then a / b else -((-a) / b)
  }

  /** The common shape of `wadMul`, `rayMul` and `percentMul`. */
  function MulHalfUp(a: int, b: int, one: int): int
    requires one > 0
  {
    TruncDiv(one / 2 + a * b, one)
  }

  /** The common shape of `wadDiv`, `rayDiv` and `percentDiv`. */
  function DivHalfUp(a: int, b: int, one: int): int
    requires b != 0
  {
    TruncDiv(TruncDiv(b, 2) + a * one, b)
  }

  function RayMul(a: int, b: int): int { MulHalfUp(a, b, RAY) }

  function RayDiv(a: int, b: int): int
    requires b != 0
  {
    DivHalfUp(a, b, RAY)
  }

  function WadMul(a: int, b: int): int { MulHalfUp(a, b, WAD) }

  function WadDiv(a: int, b: int): int
    requires b != 0
  {
    DivHalfUp(a, b, WAD)
  }

  function PercentMul(a: int, b: int): int { MulHalfUp(a, b, PERCENTAGE_FACTOR) }

  function PercentDiv(a: int, b: int): int
    requires b != 0
  {
    DivHalfUp(a, b, PERCENTAGE_FACTOR)
  }

  function RayToWad(a: int): int { TruncDiv(WAD_RAY_RATIO / 2 + a, WAD_RAY_RATIO) }

  function WadToRay(a: int): int { a * WAD_RAY_RATIO }

  // ----- What the roundings mean -----

  /** `q` is `n / d` rounded to the nearest integer, ties upwards. */
  ghost predicate Nearest(n: int, d: int, q: int)
  {
    2 * (d * q) - d <= 2 * n < 2 * (d * q) + d
  }

  lemma MulMonotone(d: int, x: int, y: int)
    requires d >= 0 && x <= y
    ensures d * x <= d * y
  {
  }

  lemma Distribute(a: int, b: int, c: int)
    ensures a * (b + c) == a * b + a * c == (b + c) * a
  {
  }

  /** A product of a multiple divides back exactly. */
  lemma ExactQuotient(f: int, c: int, x: int, p: int)
    requires f > 0 && x == f * c && c >= 0 && p >= 0
    ensures TruncDiv(x * p, f) == c * p
  {
    assert x * p == f * (c * p);
    assert c * p >= 0;
    QuotientUnique(x * p, f, c * p);
  }

  /** A truncated quotient is pinned by its two bounds. */
  lemma QuotientUnique(n: int, d: int, q: int)
    requires d > 0
    requires d * q <= n < d * q + d
    ensures n / d == q
  {
    var k, m := n / d, n % d;
    assert n == d * k + m && 0 <= m < d;
    if k > q {
      MulMonotone(d, q + 1, k);
    } else if k < q {
      MulMonotone(d, k + 1, q);
    }
  }

  /** Multiplication is round-half-up, in both directions. */
  lemma MulIsNearest(a: int, b: int, one: int, r: int)
    requires one > 0 && one % 2 == 0 && a * b >= 0
    ensures MulHalfUp(a, b, one) == r <==> Nearest(a * b, one, r)
  {
    var n := one / 2 + a * b;
    var k := n / one;
    assert one * k <= n < one * k + one;
    if Nearest(a * b, one, r) {
      QuotientUnique(n, one, r);
    }
  }

  /** Division is round-half-up for odd divisors too, although half the divisor is truncated. */
  lemma DivIsNearest(a: int, b: int, one: int, r: int)
    requires a >= 0 && b > 0 && one > 0
    ensures DivHalfUp(a, b, one) == r <==> Nearest(a * one, b, r)
  {
    var x := a * one;
    assert x >= 0;
    var n := b / 2 + x;
    var k := n / b;
    assert b * k <= n < b * k + b;
    if Nearest(x, b, r) {
      QuotientUnique(n, b, r);
    }
  }

  // ----- Order -----

  lemma MulOrdered(a: int, a': int, b: int, b': int, one: int)
    requires one > 0 && one % 2 == 0
    requires 0 <= a <= a' && 0 <= b <= b'
    ensures 0 <= MulHalfUp(a, b, one) <= MulHalfUp(a', b', one)
  {
    MulMonotone(a, b, b');
    MulMonotone(b', a, a');
    MulIsNearest(a, b, one, MulHalfUp(a, b, one));
    MulIsNearest(a', b', one, MulHalfUp(a', b', one));
    NearestOrdered(a * b, a' * b', one, MulHalfUp(a, b, one), MulHalfUp(a', b', one));
  }

  lemma DivOrdered(a: int, a': int, b: int, one: int)
    requires one > 0 && b > 0 && 0 <= a <= a'
    ensures 0 <= DivHalfUp(a, b, one) <= DivHalfUp(a', b, one)
  {
    MulMonotone(one, a, a');
    DivIsNearest(a, b, one, DivHalfUp(a, b, one));
    DivIsNearest(a', b, one, DivHalfUp(a', b, one));
    NearestOrdered(a * one, a' * one, b, DivHalfUp(a, b, one), DivHalfUp(a', b, one));
  }

  lemma NearestOrdered(n: int, n': int, d: int, q: int, q': int)
    requires d > 0 && 0 <= n <= n'
    requires Nearest(n, d, q) && Nearest(n', d, q')
    ensures 0 <= q <= q'
  {
    if q < 0 {
      MulMonotone(d, q, -1);
    }
    if q' < q {
      MulMonotone(d, q' + 1, q);
      Distribute(d, q', 1);
    }
  }

  // ----- Round trips -----

  /** Scaled -> amount -> scaled loses nothing once the index is at least one unit. */
  lemma ScaledRoundTrip(s: int, i: int, one: int)
    requires s >= 0 && one > 0 && one % 2 == 0 && i >= one
    ensures DivHalfUp(MulHalfUp(s, i, one), i, one) == s
  {
    var m := MulHalfUp(s, i, one);
    MulOrdered(0, s, 0, i, one);
    MulIsNearest(s, i, one, m);
    if i == one {
      MulIsNearest(s, i, one, s);
    }
    assert one * m == m * one && s * i == i * s;
    DivIsNearest(m, i, one, s);
  }

  /** Amount -> scaled -> amount loses nothing while the index is at most one unit, and in
      general misses by at most half a unit plus half the index. */
  lemma AmountRoundTrip(x: int, i: int, one: int)
    requires x >= 0 && one > 0 && one % 2 == 0 && i > 0
    ensures var y := MulHalfUp(DivHalfUp(x, i, one), i, one);
      && -(one + i) <= 2 * (one * (y - x)) <= one + i
      && (i <= one ==> y == x)
  {
    hide MulHalfUp, DivHalfUp, Nearest;
    var d := DivHalfUp(x, i, one);
    DivOrdered(0, x, i, one);
    DivIsNearest(x, i, one, d);
    var y := MulHalfUp(d, i, one);
    ProductNonNegative(d, i);
    MulIsNearest(d, i, one, y);
    NearestDrift(x, i, one, d, y);
    if i == one {
      DivByOne(x, one);
      MulUnits(x, one);
    } else if i < one {
      MulIsNearest(d, i, one, x);
    }
  }

  lemma DivByOne(x: int, one: int)
    requires x >= 0 && one > 0
    ensures DivHalfUp(x, one, one) == x
  {
    DivIsNearest(x, one, one, x);
  }

  lemma NearestDrift(x: int, i: int, one: int, d: int, y: int)
    requires Nearest(x * one, i, d) && Nearest(d * i, one, y) && i > 0 && one > 0
    ensures -(one + i) <= 2 * (one * (y - x)) <= one + i
    ensures i < one ==> Nearest(d * i, one, x)
  {
    assert x * one == one * x && d * i == i * d;
    Distribute(one, y, -x);
  }

  lemma ProductNonNegative(a: int, b: int)
    requires a >= 0 && b >= 0
    ensures a * b >= 0
  {
  }

  /** Widening and narrowing is lossless exactly on the non-negative amounts: truncation
      towards zero costs a negative one a whole unit. */
  lemma WadRoundTrip(x: int)
    ensures RayToWad(WadToRay(x)) == if x >= 0 then x else x + 1
  {
  }

  /** Narrowing is round-half-up too. */
  lemma RayToWadIsNearest(a: int, r: int)
    requires a >= 0
    ensures RayToWad(a) == r <==> Nearest(a, WAD_RAY_RATIO, r)
  {
  }

  // ----- Units and zeroes -----

  lemma MulUnits(a: int, one: int)
    requires a >= 0 && one > 0 && one % 2 == 0
    ensures MulHalfUp(a, one, one) == MulHalfUp(one, a, one) == a
    ensures MulHalfUp(a, 0, one) == MulHalfUp(0, a, one) == 0
  {
    MulIsNearest(a, one, one, a);
    MulIsNearest(one, a, one, a);
    MulIsNearest(a, 0, one, 0);
    MulIsNearest(0, a, one, 0);
  }

  lemma DivUnits(b: int, one: int)
    requires b > 0 && one > 0
    ensures DivHalfUp(b, b, one) == one && DivHalfUp(0, b, one) == 0
  {
    DivIsNearest(b, b, one, one);
    DivIsNearest(0, b, one, 0);
  }
}
