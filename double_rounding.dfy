/** IEEE 754 binary64 rounding, enough of it to replay the calculation
    block the way the browser evaluates it. A positive real in the binade
    [2^e, 2^(e+1)) is rounded to the nearest multiple of 2^(e-52), ties to
    even: a 53-bit significand. Overflow and subnormals are not modelled;
    every value the calculator produces lies far from both.
 */
module DoubleRounding {
  import Calculation

  function Pow2(n: nat): (p: nat)
    ensures p >= 1
  {
    if n == 0 then 1 else 2 * Pow2(n - 1)
  }

  lemma {:induction false} Pow2Add(m: nat, n: nat)
    ensures Pow2(m + n) == Pow2(m) * Pow2(n)
  {
    if m > 0 {
      Pow2Add(m - 1, n);
    }
  }

  /** 2^k for any integer k. */
  function Scale(k: int): (s: real)
    ensures s > 0.0
  {
    if k >= 0 then Pow2(k) as real else 1.0 / Pow2(-k) as real
  }

  lemma ScaleStep(k: int)
    ensures Scale(k + 1) == 2.0 * Scale(k)
  {
    if k < 0 {
      assert Pow2(-k) == 2 * Pow2(-k - 1);
    }
  }

  lemma FloorHalves(x: real)
    requires x >= 2.0
    ensures 1 <= (x / 2.0).Floor < x.Floor
  {
    assert x / 2.0 <= x - 1.0;
  }

  function BinadeUp(x: real): nat
    requires x >= 1.0
    decreases x.Floor
  {
    if x < 2.0 then 0 else (FloorHalves(x); BinadeUp(x / 2.0) + 1)
  }

  lemma FloorOfInverseHalves(x: real)
    requires 0.0 < x < 0.5
    ensures 0 <= (1.0 / (2.0 * x)).Floor < (1.0 / x).Floor
  {
    var y := 1.0 / x;
    assert y > 2.0 by {
      assert x * y == 1.0;
    }
    assert 1.0 / (2.0 * x) == y / 2.0;
    FloorHalves(y);
  }

  function BinadeDown(x: real): nat
    requires 0.0 < x < 1.0
    decreases (1.0 / x).Floor
  {
    if x >= 0.5 then 1 else (FloorOfInverseHalves(x); BinadeDown(2.0 * x) + 1)
  }

  /** The exponent e with 2^e <= x < 2^(e+1). */
  function Binade(x: real): int
    requires x > 0.0
  {
    if x >= 1.0 then BinadeUp(x) else -(BinadeDown(x) as int)
  }

  lemma {:induction false} BinadeUpBounds(x: real)
    requires x >= 1.0
    ensures Scale(BinadeUp(x)) <= x < Scale(BinadeUp(x) + 1)
    decreases x.Floor
  {
    if x >= 2.0 {
      FloorHalves(x);
      BinadeUpBounds(x / 2.0);
      ScaleStep(BinadeUp(x / 2.0));
      ScaleStep(BinadeUp(x / 2.0) + 1);
    }
  }

  lemma {:induction false} BinadeDownBounds(x: real)
    requires 0.0 < x < 1.0
    ensures Scale(-(BinadeDown(x) as int)) <= x < Scale(-(BinadeDown(x) as int) + 1)
    decreases (1.0 / x).Floor
  {
    if x >= 0.5 {
      assert Scale(-1) == 0.5;
    } else {
      FloorOfInverseHalves(x);
      var e := -(BinadeDown(2.0 * x) as int);
      BinadeDownBounds(2.0 * x);
      ScaleStep(e - 1);
      ScaleStep(e);
    }
  }

  /** The binade really holds x. */
  lemma BinadeBounds(x: real)
    requires x > 0.0
    ensures Scale(Binade(x)) <= x < Scale(Binade(x) + 1)
  {
    if x >= 1.0 {
      BinadeUpBounds(x);
    } else {
      BinadeDownBounds(x);
    }
  }

  lemma ScaleMonotone(j: int, k: int)
    requires j <= k
    ensures Scale(j) <= Scale(k)
    decreases k - j
  {
    if j < k {
      ScaleMonotone(j + 1, k);
      ScaleStep(j);
    }
  }

  /** Only one binade holds x, so exhibiting bounds names it. */
  lemma BinadeOf(x: real, e: int)
    requires x > 0.0 && Scale(e) <= x < Scale(e + 1)
    ensures Binade(x) == e
  {
    BinadeBounds(x);
    var b := Binade(x);
    if b < e {
      ScaleMonotone(b + 1, e);
    } else if e < b {
      ScaleMonotone(e + 1, b);
    }
  }

  /** The nearest integer, ties to the even neighbour. */
  function RoundHalfEven(s: real): (m: int)
    ensures s - 0.5 <= m as real <= s + 0.5
    ensures (s - m as real == 0.5 || m as real - s == 0.5) ==> m % 2 == 0
  {
    var m := (s + 0.5).Floor;
    if m as real == s + 0.5 && m % 2 == 1 then m - 1 else m
  }

  /** The binary64 value nearest to a positive x: its significand, x
      measured in units of 2^(e-52) for the binade 2^e, rounded to an
      integer, ties to even. */
  function FlPositive(x: real): real
    requires x > 0.0
  {
    var u := Scale(Binade(x) - 52);
    RoundHalfEven(x / u) as real * u
  }

  /** The binary64 value nearest to x, by symmetry for a negative x.
      Rounding keeps the sign: zero only for zero, negative only for a
      negative x. */
  function Fl(x: real): (d: real)
    ensures d > 0.0 <==> x > 0.0
    ensures d < 0.0 <==> x < 0.0
  {
    if x == 0.0 then 0.0
    else if x < 0.0 then (FlPositivePositive(-x); -FlPositive(-x))
    else (FlPositivePositive(x); FlPositive(x))
  }

  /** The unit in the last place of a non-zero x: 2^(e-52) for the binade
      2^e that holds |x|. */
  function Ulp(x: real): (u: real)
    requires x != 0.0
    ensures u > 0.0
  {
    Scale(Binade(if x > 0.0 then x else -x) - 52)
  }

  /** An integer within half of x / u, scaled back by u, lies within half
      of u from x. */
  lemma ScaledRoundingError(x: real, m: real, u: real)
    requires u > 0.0 && x / u - 0.5 <= m <= x / u + 0.5
    ensures x - u / 2.0 <= m * u <= x + u / 2.0
  {
    var s := x / u;
    assert s * u == x;
    var d := m - s;
    assert -0.5 <= d <= 0.5;
    assert d * u <= 0.5 * u;
    assert -0.5 * u <= d * u;
    assert m * u == x + d * u;
  }

  lemma FlPositiveAccurate(x: real)
    requires x > 0.0
    ensures -Scale(Binade(x) - 52) / 2.0 <= FlPositive(x) - x <= Scale(Binade(x) - 52) / 2.0
  {
    var u := Scale(Binade(x) - 52);
    ScaledRoundingError(x, RoundHalfEven(x / u) as real, u);
  }

  /** A positive x never rounds to zero or below: the unit is far smaller
      than x. */
  lemma FlPositivePositive(x: real)
    requires x > 0.0
    ensures FlPositive(x) > 0.0
  {
    var e := Binade(x);
    BinadeBounds(x);
    ScaleMonotone(e - 52, e);
    FlPositiveAccurate(x);
  }

  /** Rounding to a double errs by at most half a unit in the last place,
      for either sign of x. */
  lemma FlAccurate(x: real)
    requires x != 0.0
    ensures -Ulp(x) / 2.0 <= Fl(x) - x <= Ulp(x) / 2.0
  {
    if x > 0.0 {
      FlPositiveAccurate(x);
    } else {
      FlPositiveAccurate(-x);
      assert Fl(x) == -FlPositive(-x);
    }
  }

  lemma ScaleUp4(j: int)
    ensures Scale(j + 4) == 16.0 * Scale(j)
  {
    ScaleStep(j);
    ScaleStep(j + 1);
    ScaleStep(j + 2);
    ScaleStep(j + 3);
  }

  lemma ScaleUp13(j: int)
    ensures Scale(j + 13) == 8192.0 * Scale(j)
  {
    ScaleUp4(j);
    ScaleUp4(j + 4);
    ScaleUp4(j + 8);
    ScaleStep(j + 12);
  }

  /** 2^(j+52) is 2^52 times 2^j. */
  lemma ScaleUp52(j: int)
    ensures Scale(j + 52) == 4503599627370496.0 * Scale(j)
  {
    ScaleUp13(j);
    ScaleUp13(j + 13);
    ScaleUp13(j + 26);
    ScaleUp13(j + 39);
  }

  /** A positive x measured in units of its last place lies in
      [2^52, 2^53). */
  lemma SignificandRange(x: real)
    requires x > 0.0
    ensures 4503599627370496.0 <= x / Scale(Binade(x) - 52) < 9007199254740992.0
  {
    var e := Binade(x);
    var u := Scale(e - 52);
    BinadeBounds(x);
    ScaleUp52(e - 52);
    ScaleStep(e);
    DivideBounds(x, u, 4503599627370496.0, 9007199254740992.0);
  }

  /** Bounds on x in multiples of a positive u are bounds on x / u. */
  lemma DivideBounds(x: real, u: real, lo: real, hi: real)
    requires u > 0.0 && lo * u <= x < hi * u
    ensures lo <= x / u < hi
  {
    var s := x / u;
    assert s * u == x;
  }

  /** Every rounded value lies on the binary64 grid: a whole number m of
      units in the last place of x, with a 53-bit significand (2^52 <= m
      <= 2^53, the top value only where rounding carries into the next
      binade); when x lies halfway between two neighbours, m is even.
      This lemma is for a positive x, the next for a negative one. */
  lemma FlOnGridPositive(x: real) returns (m: int)
    requires x > 0.0
    ensures Fl(x) == m as real * Ulp(x)
    ensures 4503599627370496 <= m <= 9007199254740992
    ensures (Fl(x) - x == Ulp(x) / 2.0 || x - Fl(x) == Ulp(x) / 2.0) ==> m % 2 == 0
  {
    m := FlPositiveOnGrid(x);
    FlOfPositiveSide(x, m);
  }

  lemma FlOnGridNegative(x: real) returns (m: int)
    requires x < 0.0
    ensures Fl(x) == m as real * Ulp(x)
    ensures 4503599627370496 <= -m <= 9007199254740992
    ensures (Fl(x) - x == Ulp(x) / 2.0 || x - Fl(x) == Ulp(x) / 2.0) ==> m % 2 == 0
  {
    var k := FlPositiveOnGrid(-x);
    m := -k;
    FlOfNegativeSide(x, k);
    EvenNegation(k);
  }

  lemma FlOfPositiveSide(x: real, m: int)
    requires x > 0.0
    requires FlPositive(x) == m as real * Scale(Binade(x) - 52)
    ensures Fl(x) == FlPositive(x) && Ulp(x) == Scale(Binade(x) - 52)
    ensures Fl(x) == m as real * Ulp(x)
  {
    var u := Scale(Binade(x) - 52);
    assert Ulp(x) == u;
    assert Fl(x) == FlPositive(x);
  }

  lemma FlOfNegativeSide(x: real, k: int)
    requires x < 0.0
    requires FlPositive(-x) == k as real * Scale(Binade(-x) - 52)
    ensures Fl(x) == -FlPositive(-x) && Ulp(x) == Scale(Binade(-x) - 52)
    ensures Fl(x) == (-k) as real * Ulp(x)
  {
    var u := Scale(Binade(-x) - 52);
    assert Ulp(x) == u;
    assert Fl(x) == -FlPositive(-x);
    NegatedProduct(k, u);
  }

  lemma NegatedProduct(k: int, u: real)
    ensures (-k) as real * u == -(k as real * u)
  {
  }

  lemma EvenNegation(k: int)
    ensures (-k) % 2 == 0 <==> k % 2 == 0
  {
  }

  lemma FlPositiveOnGrid(y: real) returns (k: int)
    requires y > 0.0
    ensures FlPositive(y) == k as real * Scale(Binade(y) - 52)
    ensures 4503599627370496 <= k <= 9007199254740992
    ensures (FlPositive(y) - y == Scale(Binade(y) - 52) / 2.0 || y - FlPositive(y) == Scale(Binade(y) - 52) / 2.0) ==> k % 2 == 0
  {
    var u := Scale(Binade(y) - 52);
    k := RoundHalfEven(y / u);
    SignificandRange(y);
    RoundedSignificand(y / u, k);
    ScaledTie(y, u, k);
  }

  /** Rounding a value in [2^52, 2^53) to an integer stays in [2^52, 2^53]. */
  lemma RoundedSignificand(s: real, k: int)
    requires 4503599627370496.0 <= s < 9007199254740992.0
    requires s - 0.5 <= k as real <= s + 0.5
    ensures 4503599627370496 <= k <= 9007199254740992
  {
  }

  /** A tie after scaling by u is a tie before it. */
  lemma ScaledTie(y: real, u: real, k: int)
    requires u > 0.0
    ensures k as real * u - y == u / 2.0 ==> k as real - y / u == 0.5
    ensures y - k as real * u == u / 2.0 ==> y / u - k as real == 0.5
  {
    var s := y / u;
    assert s * u == y;
    assert k as real * u - y == (k as real - s) * u;
    TieScaled(k as real - s, u);
  }

  lemma TieScaled(d: real, u: real)
    requires u > 0.0
    ensures d * u == u / 2.0 ==> d == 0.5
    ensures d * u == -u / 2.0 ==> d == -0.5
  {
  }

  /** Math.round: the nearest integer, halves upward. */
  function JsRound(x: real): (n: int)
    ensures x - 0.5 < n as real <= x + 0.5
  {
    (x + 0.5).Floor
  }

  /** Revenue as the browser computes it at ROICalculator.tsx line 34:
      closed deals rounded to a double, then the product rounded. It stays
      positive for every slider input. */
  function RevenueAsWritten(i: Calculation.Inputs): (revenue: real)
    ensures Calculation.ValidInputs(i) ==> revenue > 0.0
  {
    var a, r, v := i.appointmentsPerMonth, i.closingRate, i.avgJobValue;
    RoundedRevenue((a * r) as real / 100.0, v as real)
  }

  /** The two double operations of the revenue: the closed deals are rounded
      to a double, and so is their product with the job value. */
  function RoundedRevenue(deals: real, jobValue: real): (revenue: real)
    ensures deals > 0.0 && jobValue > 0.0 ==> revenue > 0.0
  {
    var rounded := Fl(deals);
    assert deals > 0.0 && jobValue > 0.0 ==> rounded * jobValue > 0.0 by {
      if deals > 0.0 && jobValue > 0.0 {
        PositiveProduct(rounded, jobValue);
      }
    }
    Fl(rounded * jobValue)
  }

  lemma PositiveProduct(x: real, y: real)
    requires x > 0.0 && y > 0.0
    ensures x * y > 0.0
  {
  }

  /** Profit as written at line 36: the double difference, not rounded to
      whole dollars. It is negative exactly when the double revenue falls
      short of the investment and zero exactly when the two are equal. */
  function ProfitAsWritten(i: Calculation.Inputs): (profit: real)
    ensures profit < 0.0 <==> RevenueAsWritten(i) < (i.appointmentsPerMonth * Calculation.CostPerAppointment) as real
    ensures profit == 0.0 <==> RevenueAsWritten(i) == (i.appointmentsPerMonth * Calculation.CostPerAppointment) as real
  {
    Fl(RevenueAsWritten(i) - (i.appointmentsPerMonth * Calculation.CostPerAppointment) as real)
  }

  /** The ROI percentage as written at line 37: the double profit divided by
      the investment, times 100, each step rounded, and the result floored.
      It is negative exactly when the double profit is, so a double profit a
      hair below zero shows a negative ROI. */
  function RoiAsWritten(i: Calculation.Inputs): (roi: int)
    requires Calculation.ValidInputs(i)
    ensures roi < 0 <==> ProfitAsWritten(i) < 0.0
  {
    var investment := (i.appointmentsPerMonth * Calculation.CostPerAppointment) as real;
    Fl(Fl(ProfitAsWritten(i) / investment) * 100.0).Floor
  }

  /** The unit in the last place of x is at most 2^-52 of its magnitude. */
  lemma UlpRelative(x: real)
    requires x != 0.0
    ensures Ulp(x) * 4503599627370496.0 <= (if x > 0.0 then x else -x)
  {
    var y := if x > 0.0 then x else -x;
    BinadeBounds(y);
    ScaleUp52(Binade(y) - 52);
  }

  /** Rounding to the nearest double errs by at most 2^-53 of the magnitude
      of its argument. */
  lemma FlRelative(x: real)
    ensures var size := if x >= 0.0 then x else -x;
      -size / 9007199254740992.0 <= Fl(x) - x <= size / 9007199254740992.0
  {
    if x != 0.0 {
      FlAccurate(x);
      UlpRelative(x);
    }
  }

  /** Multiplying a bracket by a positive factor keeps it a bracket. */
  lemma ScaleBracket(lo: real, x: real, hi: real, v: real)
    requires v > 0.0 && lo <= x <= hi
    ensures lo * v <= x * v <= hi * v
  {
  }

  /** A value within 2^-53 of q, where q is within 2^-53 of p and p is at
      most 2250000, is within a thousandth of p. */
  lemma BracketOfBracket(p: real, q: real, result: real)
    requires 0.0 <= p <= 2250000.0
    requires 9007199254740991.0 * p <= 9007199254740992.0 * q <= 9007199254740993.0 * p
    requires 9007199254740991.0 * q <= 9007199254740992.0 * result <= 9007199254740993.0 * q
    ensures p - 0.001 <= result <= p + 0.001
  {
  }

  /** A relative error of 2^-53 in d stays a relative error of 2^-53 in the
      product with a positive v. */
  lemma RelativeProduct(d: real, v: real, rounded: real)
    requires v > 0.0
    requires 9007199254740991.0 * d <= 9007199254740992.0 * rounded <= 9007199254740993.0 * d
    ensures 9007199254740991.0 * (d * v) <= 9007199254740992.0 * (rounded * v)
    ensures 9007199254740992.0 * (rounded * v) <= 9007199254740993.0 * (d * v)
  {
    ScaleBracket(9007199254740991.0 * d, 9007199254740992.0 * rounded, 9007199254740993.0 * d, v);
  }

  /** A double within half of a whole number t rounds to t. */
  lemma RoundsTo(x: real, t: int)
    requires t as real - 0.5 < x < t as real + 0.5
    ensures JsRound(x) == t
  {
  }

  /** Rounding a positive x errs by at most 2^-53 of x. */
  lemma FlRelativePositive(x: real)
    requires x > 0.0
    ensures 9007199254740991.0 * x <= 9007199254740992.0 * Fl(x) <= 9007199254740993.0 * x
  {
    FlRelative(x);
  }

  /** Rounding d, multiplying by v and rounding again lands within a
      thousandth of the exact d * v. */
  lemma RoundedRevenueAccurate(d: real, v: real)
    requires 0.0 < d <= 45.0 && 0.0 < v <= 50000.0
    ensures d * v - 0.001 <= RoundedRevenue(d, v) <= d * v + 0.001
  {
    var p, q := FirstRounding(d, v);
    FlRelativePositive(q);
    BracketOfBracket(p, q, Fl(q));
  }

  /** Rounding d before the product with v errs by at most 2^-53 of the
      exact product p = d * v; q is the product of the rounded d with v. */
  lemma FirstRounding(d: real, v: real) returns (p: real, q: real)
    requires 0.0 < d <= 45.0 && 0.0 < v <= 50000.0
    ensures p == d * v && q == Fl(d) * v
    ensures 0.0 <= p <= 2250000.0 && q > 0.0
    ensures 9007199254740991.0 * p <= 9007199254740992.0 * q <= 9007199254740993.0 * p
  {
    var rounded := Fl(d);
    p, q := d * v, rounded * v;
    ProductBound(d, v);
    PositiveProduct(rounded, v);
    FlRelativePositive(d);
    RelativeProduct(d, v, rounded);
  }

  /** A product of a closed-deal count and a job value within the slider
      ranges is at most 45 * 50000. */
  lemma ProductBound(d: real, v: real)
    requires 0.0 < d <= 45.0 && 0.0 < v <= 50000.0
    ensures 0.0 < d * v <= 2250000.0
  {
    ScaleBracket(d, d, 45.0, v);
    ScaleBracket(v, v, 50000.0, 45.0);
    PositiveProduct(d, v);
  }

  /** The double revenue of any slider position lies within a thousandth of
      the exact whole-dollar revenue, which is at most 50 * 90 * 500. */
  lemma RevenueClose(i: Calculation.Inputs)
    requires Calculation.ValidInputs(i)
    ensures 0 < Calculation.Project(i).totalRevenue <= 2250000
    ensures var exact := Calculation.Project(i).totalRevenue as real;
      exact - 0.001 <= RevenueAsWritten(i) <= exact + 0.001
  {
    var d, v := RevenueFactors(i);
    RevenueOfFactors(i, d, v);
    RoundedRevenueAccurate(d, v);
    ProductBound(d, v);
  }

  /** The double revenue is the closed deals d, rounded, times the job value
      v, rounded again. */
  lemma RevenueFactors(i: Calculation.Inputs) returns (d: real, v: real)
    requires Calculation.ValidInputs(i)
    ensures 0.0 < d <= 45.0 && 0.0 < v <= 50000.0
    ensures RevenueAsWritten(i) == RoundedRevenue(d, v)
    ensures d == (i.appointmentsPerMonth * i.closingRate) as real / 100.0
    ensures v == i.avgJobValue as real
  {
    var a, r := i.appointmentsPerMonth, i.closingRate;
    d, v := (a * r) as real / 100.0, i.avgJobValue as real;
    Calculation.MulMonotone(a, r, 50, 90);
  }

  /** The exact revenue of the model is the product of the closed deals and
      the job value. */
  lemma RevenueOfFactors(i: Calculation.Inputs, d: real, v: real)
    requires Calculation.ValidInputs(i)
    requires d == (i.appointmentsPerMonth * i.closingRate) as real / 100.0
    requires v == i.avgJobValue as real
    ensures Calculation.Project(i).totalRevenue as real == d * v
  {
  }

  /** Math.round of the double revenue is the exact whole-dollar revenue, so
      the revenue card, animated towards the rounded value, ends on it. */
  lemma RevenueRoundsBack(i: Calculation.Inputs)
    requires Calculation.ValidInputs(i)
    ensures JsRound(RevenueAsWritten(i)) == Calculation.Project(i).totalRevenue
  {
    RevenueClose(i);
    RoundsTo(RevenueAsWritten(i), Calculation.Project(i).totalRevenue);
  }

  /** Math.round of the double profit is the exact whole-dollar profit, so
      the profit card ends on it; only the floored ROI can disagree. */
  lemma ProfitRoundsBack(i: Calculation.Inputs)
    requires Calculation.ValidInputs(i)
    ensures JsRound(ProfitAsWritten(i)) == Calculation.Project(i).profit
  {
    var investment := i.appointmentsPerMonth * Calculation.CostPerAppointment;
    var revenue := RevenueAsWritten(i);
    var y := revenue - investment as real;
    assert ProfitAsWritten(i) == Fl(y);
    RevenueClose(i);
    assert investment <= 3500;
    FlRelative(y);
    RoundsTo(Fl(y), Calculation.Project(i).profit);
  }

  /** Naming the binade and the rounded significand names the double. */
  lemma FlAt(x: real, e: int, m: int)
    requires x > 0.0 && Scale(e) <= x < Scale(e + 1)
    requires RoundHalfEven(x / Scale(e - 52)) == m
    ensures Fl(x) == m as real * Scale(e - 52)
  {
    BinadeOf(x, e);
    FlOfPositive(x, e, m);
  }

  lemma FlOfPositive(x: real, e: int, m: int)
    requires x > 0.0 && Binade(x) == e
    requires RoundHalfEven(x / Scale(e - 52)) == m
    ensures Fl(x) == m as real * Scale(e - 52)
  {
    assert Fl(x) == FlPositive(x);
  }

  lemma Pow2Forty()
    ensures Pow2(40) == 1099511627776
  {
    assert Pow2(10) == 1024;
    Pow2Add(10, 10);
    Pow2Add(20, 20);
  }

  lemma ScaleValues()
    ensures Scale(2) == 4.0 && Scale(3) == 8.0 && Scale(9) == 512.0 && Scale(10) == 1024.0
    ensures Scale(11) == 2048.0 && Scale(12) == 4096.0
    ensures Scale(-41) == 1.0 / 2199023255552.0
    ensures Scale(-43) == 1.0 / 8796093022208.0
    ensures Scale(-50) == 1.0 / 1125899906842624.0
  {
    assert Pow2(2) == 4 && Pow2(3) == 8 && Pow2(9) == 512 && Pow2(10) == 1024;
    assert Pow2(11) == 2048 && Pow2(12) == 4096;
    Pow2Forty();
    Pow2Add(40, 1);
    Pow2Add(40, 3);
    Pow2Add(40, 10);
  }

  /** The doubles met on the way, as significand times 2^-50, 2^-41, 2^-43. */
  const Deals: real := 5742089524897382.0 / 1125899906842624.0
  const Revenue: real := 7850513022320639.0 / 2199023255552.0
  const Profit: real := 6926923254988799.0 / 2199023255552.0
  const Ratio: real := 8444249301319679.0 / 1125899906842624.0
  const Percent: real := 6597069766655999.0 / 8796093022208.0

  lemma DealsRounded()
    ensures Fl(510.0 / 100.0) == Deals
  {
    ScaleValues();
    FlAt(510.0 / 100.0, 2, 5742089524897382);
  }

  lemma RevenueRounded()
    ensures Fl(Deals * 700.0) == Revenue
  {
    ScaleValues();
    FlAt(Deals * 700.0, 11, 7850513022320639);
  }

  lemma ProfitRounded()
    ensures Fl(Revenue - 420.0) == Profit
  {
    ScaleValues();
    FlAt(Revenue - 420.0, 11, 6926923254988799);
  }

  lemma RatioRounded()
    ensures Fl(Profit / 420.0) == Ratio
  {
    ScaleValues();
    FlAt(Profit / 420.0, 2, 8444249301319679);
  }

  lemma PercentRounded()
    ensures Fl(Ratio * 100.0) == Percent
  {
    ScaleValues();
    FlAt(Ratio * 100.0, 9, 6597069766655999);
  }

  lemma PercentFloor()
    ensures Percent.Floor == 749
  {
    assert 749.0 <= Percent < 750.0;
  }

  lemma RevenueExample()
    ensures RevenueAsWritten(Calculation.Inputs(6, 85, 700)) == Revenue
  {
    assert (6 * 85) as real / 100.0 == 510.0 / 100.0;
    DealsRounded();
    assert Fl((6 * 85) as real / 100.0) == Deals;
    RevenueRounded();
  }

  lemma ProfitExample()
    ensures ProfitAsWritten(Calculation.Inputs(6, 85, 700)) == Profit
  {
    RevenueExample();
    ProfitRounded();
  }

  lemma RoiExample()
    ensures RoiAsWritten(Calculation.Inputs(6, 85, 700)) == 749
  {
    ProfitExample();
    RatioRounded();
    PercentRounded();
    PercentFloor();
  }

  /** 6 appointments at 85% and $700: the exact ratio of profit to
      investment is 3150 / 420 = 7.5, so the ROI is 750%; in doubles the
      closed deals 5.1 are stored a little low, the revenue comes out as
      3569.9999999999995, and the percentage is floored to 749. Math.round
      repairs the revenue target, but the ROI is computed before it. */
  lemma RoiAsWrittenFloorsTooLow()
    ensures Calculation.ValidInputs(Calculation.Inputs(6, 85, 700))
    ensures Calculation.Project(Calculation.Inputs(6, 85, 700)).roiPercentage == 750
    ensures RoiAsWritten(Calculation.Inputs(6, 85, 700)) == 749
    ensures RevenueAsWritten(Calculation.Inputs(6, 85, 700)) != 3570.0
    ensures JsRound(RevenueAsWritten(Calculation.Inputs(6, 85, 700))) == 3570
  {
    RevenueExample();
    RoiExample();
  }

  /** A negative x rounds to the negation of |x| rounded. */
  lemma FlAtNegative(x: real, e: int, m: int)
    requires x < 0.0 && Scale(e) <= -x < Scale(e + 1)
    requires RoundHalfEven(-x / Scale(e - 52)) == m
    ensures Fl(x) == -(m as real * Scale(e - 52))
  {
    assert Fl(x) == -FlPositive(-x);
    FlAt(-x, e, m);
  }

  lemma Pow2Small()
    ensures Pow2(3) == 8 && Pow2(4) == 16 && Pow2(6) == 64 && Pow2(7) == 128
    ensures Pow2(8) == 256 && Pow2(12) == 4096 && Pow2(13) == 8192
  {
    assert Pow2(4) == 16;
    assert Pow2(8) == 256;
    assert Pow2(13) == 8192;
  }

  lemma Pow2Binary64()
    ensures Pow2(43) == 8796093022208 && Pow2(44) == 17592186044416
    ensures Pow2(46) == 70368744177664 && Pow2(47) == 140737488355328
    ensures Pow2(52) == 4503599627370496 && Pow2(53) == 9007199254740992
  {
    Pow2Forty();
    Pow2Small();
    Pow2Add(40, 3);
    Pow2Add(40, 4);
    Pow2Add(40, 6);
    Pow2Add(40, 7);
    Pow2Add(40, 12);
    Pow2Add(40, 13);
  }

  lemma Pow2Eighty()
    ensures Pow2(80) == 1208925819614629174706176
  {
    Pow2Forty();
    Pow2Add(40, 40);
  }

  lemma Pow2Tiny()
    ensures Pow2(96) == 79228162514264337593543950336
    ensures Pow2(99) == 633825300114114700748351602688
    ensures Pow2(105) == 40564819207303340847894502572032
  {
    Pow2Eighty();
    Pow2Small();
    Pow2Add(8, 8);
    Pow2Add(16, 3);
    Pow2Add(12, 13);
    Pow2Add(80, 16);
    Pow2Add(80, 19);
    Pow2Add(80, 25);
  }

  /** The binades and units of the five break-even rounding steps. */
  lemma EvenDealsScales()
    ensures Scale(-1) == 0.5 && Scale(0) == 1.0
    ensures Scale(-53) == 1.0 / 9007199254740992.0
  {
    Pow2Binary64();
  }

  lemma EvenRevenueScales()
    ensures Scale(8) == 256.0 && Scale(9) == 512.0
    ensures Scale(-44) == 1.0 / 17592186044416.0
  {
    Pow2Small();
    Pow2Binary64();
    assert Pow2(9) == 512;
  }

  lemma EvenProfitScales()
    ensures Scale(-44) == 1.0 / 17592186044416.0
    ensures Scale(-43) == 1.0 / 8796093022208.0
    ensures Scale(-96) == 1.0 / 79228162514264337593543950336.0
  {
    Pow2Binary64();
    Pow2Tiny();
  }

  lemma EvenRatioScales()
    ensures Scale(-53) == 1.0 / 9007199254740992.0
    ensures Scale(-52) == 1.0 / 4503599627370496.0
    ensures Scale(-105) == 1.0 / 40564819207303340847894502572032.0
  {
    Pow2Binary64();
    Pow2Tiny();
  }

  lemma EvenPercentScales()
    ensures Scale(-47) == 1.0 / 140737488355328.0
    ensures Scale(-46) == 1.0 / 70368744177664.0
    ensures Scale(-99) == 1.0 / 633825300114114700748351602688.0
  {
    Pow2Binary64();
    Pow2Tiny();
  }

  /** The doubles of a break-even run, 7 appointments at 10% and $700. */
  const EvenDeals: real := 6305039478318694.0 / 9007199254740992.0
  const EvenRevenue: real := 8620171161763839.0 / 17592186044416.0
  const EvenProfit: real := -1.0 / 17592186044416.0
  const EvenRatio: real := -4705802059619784.0 / 40564819207303340847894502572032.0
  const EvenPercent: real := -7352815718155912.0 / 633825300114114700748351602688.0

  lemma EvenDealsRounded()
    ensures Fl(70.0 / 100.0) == EvenDeals
  {
    EvenDealsScales();
    FlAt(70.0 / 100.0, -1, 6305039478318694);
  }

  lemma EvenRevenueRounded()
    ensures Fl(EvenDeals * 700.0) == EvenRevenue
  {
    EvenRevenueScales();
    FlAt(EvenDeals * 700.0, 8, 8620171161763839);
  }

  lemma EvenProfitRounded()
    ensures Fl(EvenRevenue - 490.0) == EvenProfit
  {
    EvenProfitScales();
    FlAtNegative(EvenRevenue - 490.0, -44, 4503599627370496);
  }

  lemma EvenRatioRounded()
    ensures Fl(EvenProfit / 490.0) == EvenRatio
  {
    EvenRatioScales();
    FlAtNegative(EvenProfit / 490.0, -53, 4705802059619784);
  }

  lemma EvenPercentRounded()
    ensures Fl(EvenRatio * 100.0) == EvenPercent
  {
    EvenPercentScales();
    FlAtNegative(EvenRatio * 100.0, -47, 7352815718155912);
  }

  lemma EvenRevenueExample()
    ensures RevenueAsWritten(Calculation.Inputs(7, 10, 700)) == EvenRevenue
  {
    assert (7 * 10) as real / 100.0 == 70.0 / 100.0;
    EvenDealsRounded();
    EvenRevenueRounded();
  }

  lemma EvenProfitExample()
    ensures ProfitAsWritten(Calculation.Inputs(7, 10, 700)) == EvenProfit
  {
    EvenRevenueExample();
    EvenProfitRounded();
  }

  lemma EvenRoiExample()
    ensures RoiAsWritten(Calculation.Inputs(7, 10, 700)) == -1
  {
    EvenProfitExample();
    EvenRatioRounded();
    EvenPercentRounded();
    assert -1.0 <= EvenPercent < 0.0;
  }

  /** 7 appointments at 10% and $700 break even: revenue 490 against an
      investment of 490, so the exact profit and ROI are 0. In doubles the
      closed deals 0.7 are stored a little low, the revenue comes out just
      under 490, the profit is -2^-44, and the page shows an ROI of -1%. */
  lemma RoiAsWrittenNegativeAtBreakEven()
    ensures Calculation.ValidInputs(Calculation.Inputs(7, 10, 700))
    ensures Calculation.Project(Calculation.Inputs(7, 10, 700)).profit == 0
    ensures Calculation.Project(Calculation.Inputs(7, 10, 700)).roiPercentage == 0
    ensures ProfitAsWritten(Calculation.Inputs(7, 10, 700)) < 0.0
    ensures RoiAsWritten(Calculation.Inputs(7, 10, 700)) == -1
  {
    EvenProfitExample();
    EvenRoiExample();
  }
}
