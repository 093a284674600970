/** The calculator component's state: the three slider inputs, held in
    component state and replaced by the sliders' change handlers, and the
    count-up animation that follows the derived figures. Each handler
    stores the slider's value as it comes (the bounds are the sliders' own
    min and max), after which the component re-renders, recomputes the
    projection and, when revenue, profit or ROI changed, restarts the
    animation toward them.
 */
module RoiCalculator {
  import Calculation
  import JobValueSlider
  import CountUp

  class Calculator {
    /** The job-value curve and its inverse (x^2.38 and x^(1/2.38)). */
    const curve: real -> real
    const inverseCurve: real -> real
    var appointmentsPerMonth: int
    var closingRate: int
    var avgJobValue: int
    const animation: CountUp.Counter

    function CurrentInputs(): Calculation.Inputs
      reads this
    {
      Calculation.Inputs(appointmentsPerMonth, closingRate, avgJobValue)
    }

    /** The inputs are ones the sliders can deliver, and the animation is
        running (or has run) toward the revenue, profit and ROI of the
        current inputs. */
    ghost predicate Valid()
      reads this, animation
    {
      JobValueSlider.IsCurve(curve) && JobValueSlider.IsCurve(inverseCurve) &&
      Calculation.ValidInputs(CurrentInputs()) &&
      animation.Valid() &&
      animation.targetRevenue == Calculation.Project(CurrentInputs()).totalRevenue &&
      animation.targetProfit == Calculation.Project(CurrentInputs()).profit &&
      animation.targetRoi == Calculation.Project(CurrentInputs()).roiPercentage
    }

    /** A fresh page: 20 appointments, 35% and $10,000, with the figures
        counting up from 0 toward the default projection. */
    constructor (f: real -> real, g: real -> real)
      requires JobValueSlider.IsCurve(f) && JobValueSlider.IsCurve(g)
      ensures Valid() && fresh(animation)
      ensures CurrentInputs() == Calculation.Default
      ensures curve == f && inverseCurve == g
      ensures animation.running && animation.frame == 0
      ensures animation.targetRevenue == 70000 && animation.targetProfit == 68600 && animation.targetRoi == 4900
      ensures animation.displayedRevenue == 0 && animation.displayedProfit == 0 && animation.displayedRoi == 0
    {
      Calculation.DefaultProjection();
      curve, inverseCurve := f, g;
      appointmentsPerMonth, closingRate, avgJobValue := 20, 35, 10000;
      animation := new CountUp.Counter(70000, 68600, 4900);
    }

    /** Re-render after a state change: the projection of the new inputs
        becomes the animation's target. When revenue, profit or ROI changed,
        a new run starts at frame 0; otherwise the animation is untouched.
        Either way the displayed figures stay as they were until the next
        tick. */
    method Rerender()
      requires JobValueSlider.IsCurve(curve) && JobValueSlider.IsCurve(inverseCurve)
      requires Calculation.ValidInputs(CurrentInputs()) && animation.Valid()
      modifies animation
      ensures Valid()
      ensures animation.displayedRevenue == old(animation.displayedRevenue)
      ensures animation.displayedProfit == old(animation.displayedProfit)
      ensures animation.displayedRoi == old(animation.displayedRoi)
      ensures (animation.targetRevenue, animation.targetProfit, animation.targetRoi) != old((animation.targetRevenue, animation.targetProfit, animation.targetRoi)) ==> animation.running && animation.frame == 0
      ensures (animation.targetRevenue, animation.targetProfit, animation.targetRoi) == old((animation.targetRevenue, animation.targetProfit, animation.targetRoi)) ==> unchanged(animation)
    {
      var p := Calculation.Project(CurrentInputs());
      animation.Render(p.totalRevenue, p.profit, p.roiPercentage);
    }

    /** The job-value slider's change handler: the position is mapped
        through the curve and rounded, then stored. */
    method SetJobValueFromSlider(pos: int)
      requires Valid()
      requires JobValueSlider.MinPosition <= pos <= JobValueSlider.MaxPosition
      modifies this, animation
      ensures Valid()
      ensures avgJobValue == JobValueSlider.FromSliderValue(curve, pos)
      ensures appointmentsPerMonth == old(appointmentsPerMonth) && closingRate == old(closingRate)
      ensures animation.displayedRevenue == old(animation.displayedRevenue)
      ensures animation.displayedProfit == old(animation.displayedProfit)
      ensures animation.displayedRoi == old(animation.displayedRoi)
      ensures (animation.targetRevenue, animation.targetProfit, animation.targetRoi) != old((animation.targetRevenue, animation.targetProfit, animation.targetRoi)) ==> animation.running && animation.frame == 0
      ensures (animation.targetRevenue, animation.targetProfit, animation.targetRoi) == old((animation.targetRevenue, animation.targetProfit, animation.targetRoi)) ==> unchanged(animation)
    {
      avgJobValue := JobValueSlider.FromSliderValue(curve, pos);
      Rerender();
    }

    /** The closing-rate slider's change handler (10..90 in steps of 5). */
    method SetClosingRate(rate: int)
      requires Valid()
      requires Calculation.MinClosingRate <= rate <= Calculation.MaxClosingRate
      requires rate % Calculation.ClosingRateStep == 0
      modifies this, animation
      ensures Valid()
      ensures closingRate == rate
      ensures appointmentsPerMonth == old(appointmentsPerMonth) && avgJobValue == old(avgJobValue)
      ensures animation.displayedRevenue == old(animation.displayedRevenue)
      ensures animation.displayedProfit == old(animation.displayedProfit)
      ensures animation.displayedRoi == old(animation.displayedRoi)
      ensures (animation.targetRevenue, animation.targetProfit, animation.targetRoi) != old((animation.targetRevenue, animation.targetProfit, animation.targetRoi)) ==> animation.running && animation.frame == 0
      ensures (animation.targetRevenue, animation.targetProfit, animation.targetRoi) == old((animation.targetRevenue, animation.targetProfit, animation.targetRoi)) ==> unchanged(animation)
    {
      closingRate := rate;
      Rerender();
    }

    /** The appointments slider's change handler (5..50). */
    method SetAppointments(n: int)
      requires Valid()
      requires Calculation.MinAppointments <= n <= Calculation.MaxAppointments
      modifies this, animation
      ensures Valid()
      ensures appointmentsPerMonth == n
      ensures closingRate == old(closingRate) && avgJobValue == old(avgJobValue)
      ensures animation.displayedRevenue == old(animation.displayedRevenue)
      ensures animation.displayedProfit == old(animation.displayedProfit)
      ensures animation.displayedRoi == old(animation.displayedRoi)
      ensures (animation.targetRevenue, animation.targetProfit, animation.targetRoi) != old((animation.targetRevenue, animation.targetProfit, animation.targetRoi)) ==> animation.running && animation.frame == 0
      ensures (animation.targetRevenue, animation.targetProfit, animation.targetRoi) == old((animation.targetRevenue, animation.targetProfit, animation.targetRoi)) ==> unchanged(animation)
    {
      appointmentsPerMonth := n;
      Rerender();
    }

    /** Where the job-value thumb is drawn: always on the track. */
    method JobValueThumb() returns (pos: real)
      requires Valid()
      ensures JobValueSlider.MinPosition as real <= pos <= JobValueSlider.MaxPosition as real
      ensures pos == JobValueSlider.ToSliderValue(inverseCurve, avgJobValue)
    {
      pos := JobValueSlider.ToSliderValue(inverseCurve, avgJobValue);
    }
  }
}
