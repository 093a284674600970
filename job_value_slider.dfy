/** The job-value slider. Its thumb moves over positions 0..100 in steps of
    1; a position is mapped onto 500..50000 dollars through a power curve
    and rounded to the nearest 100, and the stored job value is mapped back
    through the inverse curve to place the thumb.

    The curve itself (x raised to 2.38, and its inverse x raised to 1/2.38)
    is floating-point arithmetic. It is a parameter here, constrained only
    by the shape that the mapping relies on: it fixes 0 and 1 and never
    decreases in between.
 */
module JobValueSlider {
  import Calculation
  import DoubleRounding

  const MinPosition: int := 0
  const MaxPosition: int := 100

  /** A curve from [0, 1] onto [0, 1]: it sends 0 to 0 and 1 to 1 and is
      non-decreasing on [0, 1]. Both x^2.38 and x^(1/2.38) have this shape. */
  ghost predicate IsCurve(f: real -> real) {
    f(0.0) == 0.0 && f(1.0) == 1.0 &&
    forall x: real, y: real :: 0.0 <= x <= y <= 1.0 ==> f(x) <= f(y)
  }

  /** A curve of the required shape, showing that the constraint can be met. */
  function Square(x: real): real { x * x }

  lemma SquareIsCurve()
    ensures IsCurve(Square)
  {
    forall x: real, y: real | 0.0 <= x <= y <= 1.0
      ensures Square(x) <= Square(y)
    {
      assert x * x <= x * y <= y * y;
    }
  }

  /** The curve stays in [0, 1] on [0, 1]. */
  lemma CurveInUnitInterval(f: real -> real, x: real)
    requires IsCurve(f) && 0.0 <= x <= 1.0
    ensures 0.0 <= f(x) <= 1.0
  {
    assert f(0.0) <= f(x);
    assert f(x) <= f(1.0);
  }

  /** Rounding to the nearest multiple of 100, halves upward, as
      Math.round(val / 100) * 100 does. */
  function RoundToHundred(val: real): (r: int)
    ensures r % 100 == 0
    ensures (r - 50) as real <= val < (r + 50) as real
  {
    var n := DoubleRounding.JsRound(val / 100.0);
    assert (n as real - 0.5) * 100.0 <= val < (n as real + 0.5) * 100.0;
    n * 100
  }

  lemma RoundToHundredMonotone(x: real, y: real)
    requires x <= y
    ensures RoundToHundred(x) <= RoundToHundred(y)
  {
    assert x / 100.0 + 0.5 <= y / 100.0 + 0.5;
  }

  /** Rounding leaves a multiple of 100 where it is. */
  lemma RoundToHundredFixes(n: int)
    requires n % 100 == 0
    ensures RoundToHundred(n as real) == n
  {
    var r := RoundToHundred(n as real);
    assert (r - n) % 100 == 0;
    assert -50 < r - n <= 50;
  }

  /** The job value selected by slider position pos: always a multiple of
      100 inside [500, 50000], hence an admissible job value for the
      calculation. */
  function FromSliderValue(f: real -> real, pos: int): (v: int)
    requires IsCurve(f) && MinPosition <= pos <= MaxPosition
    ensures v % Calculation.JobValueStep == 0
    ensures Calculation.MinJobValue <= v <= Calculation.MaxJobValue
  {
    var t := pos as real / 100.0;
    CurveInUnitInterval(f, t);
    var val := 500.0 + 49500.0 * f(t);
    RoundToHundred(val)
  }

  /** The two ends of the track give exactly the two ends of the range. */
  lemma FromSliderEndpoints(f: real -> real)
    requires IsCurve(f)
    ensures FromSliderValue(f, MinPosition) == Calculation.MinJobValue
    ensures FromSliderValue(f, MaxPosition) == Calculation.MaxJobValue
  {
    RoundToHundredFixes(500);
    RoundToHundredFixes(50000);
  }

  /** Moving the thumb right never lowers the job value. */
  lemma FromSliderMonotone(f: real -> real, p: int, q: int)
    requires IsCurve(f) && MinPosition <= p <= q <= MaxPosition
    ensures FromSliderValue(f, p) <= FromSliderValue(f, q)
  {
    var s, t := p as real / 100.0, q as real / 100.0;
    assert f(s) <= f(t);
    RoundToHundredMonotone(500.0 + 49500.0 * f(s), 500.0 + 49500.0 * f(t));
  }

  /** Where the thumb is drawn for a stored job value, through the inverse
      curve g: always on the track, at its left end for 500 and at its right
      end for 50000. */
  function ToSliderValue(g: real -> real, value: int): (pos: real)
    requires IsCurve(g)
    requires Calculation.MinJobValue <= value <= Calculation.MaxJobValue
    ensures MinPosition as real <= pos <= MaxPosition as real
    ensures value == Calculation.MinJobValue ==> pos == MinPosition as real
    ensures value == Calculation.MaxJobValue ==> pos == MaxPosition as real
  {
    var t := (value - 500) as real / 49500.0;
    CurveInUnitInterval(g, t);
    g(t) * 100.0
  }

  /** A larger job value never puts the thumb further left. */
  lemma ToSliderMonotone(g: real -> real, v: int, w: int)
    requires IsCurve(g)
    requires Calculation.MinJobValue <= v <= w <= Calculation.MaxJobValue
    ensures ToSliderValue(g, v) <= ToSliderValue(g, w)
  {
    var s, t := (v - 500) as real / 49500.0, (w - 500) as real / 49500.0;
    assert s <= t;
    assert g(s) <= g(t);
  }
}
