/** The ROI projection engine: the pure map from the three slider inputs
    (monthly appointments, closing rate in percent, average job value) to
    the figures the calculator shows.

    The component computes in IEEE doubles. Here every figure is exact:
    the job value is always a whole multiple of 100 (the default is 10000
    and the slider mapping rounds to 100), so revenue and profit are whole
    numbers, and the one fractional figure, the closed deals, is a `real`.
 */
module Calculation {

  /** Fixed acquisition cost of one booked appointment, in dollars. */
  const CostPerAppointment: int := 70

  /** Bounds and steps of the three sliders. */
  const MinAppointments: int := 5
  const MaxAppointments: int := 50
  const MinClosingRate: int := 10
  const MaxClosingRate: int := 90
  const ClosingRateStep: int := 5
  const MinJobValue: int := 500
  const MaxJobValue: int := 50000
  const JobValueStep: int := 100

  datatype Inputs = Inputs(appointmentsPerMonth: int, closingRate: int, avgJobValue: int)

  /** The figures derived from one set of inputs. */
  datatype Projection = Projection(
    closedDeals: real,
    totalRevenue: int,
    systemInvestment: int,
    profit: int,
    roiPercentage: int)

  /** The values the sliders can deliver: appointments 5..50 in steps of 1,
      closing rate 10..90 in steps of 5, and a job value in 500..50000 that
      the job-value slider has rounded to a multiple of 100. */
  predicate ValidInputs(i: Inputs): (valid: bool)
    ensures valid ==> i.appointmentsPerMonth * CostPerAppointment > 0
    ensures valid ==> i.appointmentsPerMonth * i.closingRate > 0
  {
    MinAppointments <= i.appointmentsPerMonth <= MaxAppointments &&
    MinClosingRate <= i.closingRate <= MaxClosingRate &&
    i.closingRate % ClosingRateStep == 0 &&
    MinJobValue <= i.avgJobValue <= MaxJobValue &&
    i.avgJobValue % JobValueStep == 0
  }

  /** The state the calculator starts in on every page load. */
  const Default: Inputs := Inputs(20, 35, 10000)

  /** Net gain per booked appointment: an appointment closes with
      probability closingRate/100, earns the job value, and costs CPA. The
      whole projection scales with this margin. */
  function MarginPerAppointment(closingRate: int, avgJobValue: int): int {
    closingRate * (avgJobValue / 100) - CostPerAppointment
  }

  /** The calculation block: closed deals, revenue, investment, profit and
      the floored ROI percentage. Revenue is the exact product of the
      fractional closed deals and the job value, and the ROI is the floor of
      profit * 100 / investment, which is negative exactly when the profit is. */
  function Project(i: Inputs): (p: Projection)
    requires ValidInputs(i)
    ensures p.closedDeals == (i.appointmentsPerMonth * i.closingRate) as real / 100.0
    ensures p.totalRevenue as real == p.closedDeals * i.avgJobValue as real
    ensures p.systemInvestment == i.appointmentsPerMonth * CostPerAppointment
    ensures p.systemInvestment > 0
    ensures p.profit == p.totalRevenue - p.systemInvestment
    ensures p.roiPercentage * p.systemInvestment <= p.profit * 100
    ensures p.profit * 100 < (p.roiPercentage + 1) * p.systemInvestment
    ensures p.roiPercentage < 0 <==> p.profit < 0
  {
    var a, r, v := i.appointmentsPerMonth, i.closingRate, i.avgJobValue;
    var deals := (a * r) as real / 100.0;
    var revenue := a * r * (v / 100);
    var investment := a * CostPerAppointment;
    var profit := revenue - investment;
    ExactRevenue(a * r, v);
    FloorDivision(profit * 100, investment);
    Projection(deals, revenue, investment, profit, (profit * 100) / investment)
  }

  /** The exact product (n / 100) * v is the whole number n * (v / 100)
      when v is a multiple of 100. */
  lemma ExactRevenue(n: int, v: int)
    requires v % 100 == 0
    ensures (n * (v / 100)) as real == (n as real / 100.0) * v as real
  {
    var k := v / 100;
    assert v == k * 100;
    assert v as real == k as real * 100.0;
    assert (n * k) as real == n as real * k as real;
  }

  /** Dafny's division by a positive divisor is the floor of the quotient,
      and its sign is the dividend's. */
  lemma FloorDivision(x: int, d: int)
    requires d > 0
    ensures (x / d) * d <= x < (x / d + 1) * d
    ensures x / d < 0 <==> x < 0
  {
  }

  /** Profit is the appointment count times the per-appointment margin. */
  lemma ProfitIsMarginTimesAppointments(i: Inputs)
    requires ValidInputs(i)
    ensures Project(i).profit == i.appointmentsPerMonth * MarginPerAppointment(i.closingRate, i.avgJobValue)
  {
  }

  /** The default state: 20 appointments at 35% and $10,000 per job. */
  lemma DefaultProjection()
    ensures ValidInputs(Default)
    ensures Project(Default) == Projection(7.0, 70000, 1400, 68600, 4900)
  {
  }

  /** A loss-making corner: 5 appointments at 10% and $500 per job earn 250
      against an investment of 350; the ROI is floored to -29, not
      truncated to -28. */
  lemma LossExample()
    ensures ValidInputs(Inputs(5, 10, 500))
    ensures Project(Inputs(5, 10, 500)) == Projection(0.5, 250, 350, -100, -29)
  {
  }

  lemma MulMonotone(x: int, y: int, x': int, y': int)
    requires 0 <= x <= x' && 0 <= y <= y'
    ensures x * y <= x' * y'
  {
    assert x * y <= x' * y;
    assert x' * y <= x' * y';
  }

  /** Revenue never decreases when any input grows with the others held,
      and indeed when all three grow together. */
  lemma RevenueMonotone(i: Inputs, j: Inputs)
    requires ValidInputs(i) && ValidInputs(j)
    requires i.appointmentsPerMonth <= j.appointmentsPerMonth
    requires i.closingRate <= j.closingRate
    requires i.avgJobValue <= j.avgJobValue
    ensures Project(i).totalRevenue <= Project(j).totalRevenue
  {
    var k, k' := i.avgJobValue / 100, j.avgJobValue / 100;
    assert k <= k';
    MulMonotone(i.appointmentsPerMonth, i.closingRate, j.appointmentsPerMonth, j.closingRate);
    MulMonotone(i.appointmentsPerMonth * i.closingRate, k, j.appointmentsPerMonth * j.closingRate, k');
  }

  /** For a fixed appointment count, profit never decreases when the
      closing rate or the job value grows. */
  lemma ProfitMonotone(i: Inputs, j: Inputs)
    requires ValidInputs(i) && ValidInputs(j)
    requires i.appointmentsPerMonth == j.appointmentsPerMonth
    requires i.closingRate <= j.closingRate
    requires i.avgJobValue <= j.avgJobValue
    ensures Project(i).profit <= Project(j).profit
  {
    RevenueMonotone(i, j);
  }

  lemma DivMonotone(x: int, y: int, d: int)
    requires d > 0 && x <= y
    ensures x / d <= y / d
  {
    FloorDivision(x, d);
    FloorDivision(y, d);
  }

  /** For a fixed appointment count, the ROI never decreases when the
      closing rate or the job value grows. */
  lemma RoiMonotone(i: Inputs, j: Inputs)
    requires ValidInputs(i) && ValidInputs(j)
    requires i.appointmentsPerMonth == j.appointmentsPerMonth
    requires i.closingRate <= j.closingRate
    requires i.avgJobValue <= j.avgJobValue
    ensures Project(i).roiPercentage <= Project(j).roiPercentage
  {
    ProfitMonotone(i, j);
    var inv := Project(i).systemInvestment;
    DivMonotone(Project(i).profit * 100, Project(j).profit * 100, inv);
  }

  /** A quotient is determined by any decomposition with an in-range remainder. */
  lemma DivisionUnique(x: int, d: int, q: int, r: int)
    requires d > 0 && x == q * d + r && 0 <= r < d
    ensures x / d == q
  {
    FloorDivision(x, d);
    var k := q - x / d;
    assert k * d == (x - (x / d) * d) - r;
    WholeMultiple(k, d);
  }

  /** A non-zero whole multiple of d is at least d away from 0. */
  lemma WholeMultiple(k: int, d: int)
    requires d > 0
    ensures k >= 1 ==> k * d >= d
    ensures k <= -1 ==> k * d <= -d
  {
  }

  lemma CancelCommonFactor(a: int, m: int, n: int)
    requires a > 0 && n > 0
    ensures (a * m) / (a * n) == m / n
  {
    var q, r := m / n, m % n;
    assert m == q * n + r && 0 <= r < n;
    calc {
      a * m;
      a * (q * n + r);
      a * (q * n) + a * r;
      q * (a * n) + a * r;
    }
    MulMonotone(a, r, a, n - 1);
    assert a * (n - 1) == a * n - a;
    DivisionUnique(a * m, a * n, q, a * r);
  }

  /** The ROI percentage depends on the closing rate and the job value
      only: the appointment count cancels between profit and investment. */
  lemma RoiIndependentOfAppointments(i: Inputs, j: Inputs)
    requires ValidInputs(i) && ValidInputs(j)
    requires i.closingRate == j.closingRate && i.avgJobValue == j.avgJobValue
    ensures Project(i).roiPercentage == Project(j).roiPercentage
  {
    var m := MarginPerAppointment(i.closingRate, i.avgJobValue);
    ProfitIsMarginTimesAppointments(i);
    ProfitIsMarginTimesAppointments(j);
    assert Project(i).profit * 100 == i.appointmentsPerMonth * (m * 100);
    assert Project(j).profit * 100 == j.appointmentsPerMonth * (m * 100);
    CancelCommonFactor(i.appointmentsPerMonth, m * 100, CostPerAppointment);
    CancelCommonFactor(j.appointmentsPerMonth, m * 100, CostPerAppointment);
  }

  /** More appointments never lower the profit if and only if each
      appointment pays for itself; otherwise every extra appointment
      deepens the loss. */
  lemma ProfitGrowsWithAppointmentsIff(i: Inputs, j: Inputs)
    requires ValidInputs(i) && ValidInputs(j)
    requires i.appointmentsPerMonth < j.appointmentsPerMonth
    requires i.closingRate == j.closingRate && i.avgJobValue == j.avgJobValue
    ensures Project(i).profit <= Project(j).profit <==> MarginPerAppointment(i.closingRate, i.avgJobValue) >= 0
  {
    ProfitIsMarginTimesAppointments(i);
    ProfitIsMarginTimesAppointments(j);
    ScaleOrder(i.appointmentsPerMonth, j.appointmentsPerMonth, MarginPerAppointment(i.closingRate, i.avgJobValue));
  }

  /** Scaling by a larger positive factor keeps the order exactly when the
      scaled quantity is not negative. */
  lemma ScaleOrder(x: int, y: int, m: int)
    requires 0 < x < y
    ensures x * m <= y * m <==> m >= 0
  {
    var d := y - x;
    assert y * m == x * m + d * m;
    if m >= 0 {
      MulMonotone(0, 0, d, m);
    } else {
      MulMonotone(1, 1, d, -m);
      assert d * m == -(d * (-m));
    }
  }
}
