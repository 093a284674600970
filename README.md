# ROI calculator: a verified model

This project models the ROI projection engine of a contractor-marketing
website, the one component of the site with logic of its own
(`src/components/ROICalculator.tsx`). Three sliders set the monthly
appointment count (5..50), the closing rate (10..90% in steps of 5) and the
average job value (500..50000 dollars, chosen on a power-curve slider and
rounded to 100). From them the engine derives closed deals, revenue,
acquisition cost at $70 per appointment, profit and a floored ROI
percentage. The revenue, profit and ROI figures then count up from frame 0
to 60, one frame per timer tick. Money is shown floored, with a "$", and the
top job value is shown as "$50,000+".

Modules:

- `Calculation` (calculation.dfy): the inputs, the projection and its
  properties. The values are exact integers, and the closed deals are an
  exact `real`.
- `JobValueSlider` (job_value_slider.dfy): the slider-to-value mapping and
  its inverse. Both take the curve as a parameter, and the only thing
  assumed about it is its shape.
- `Formatting` (formatting.dfy): the currency and job-value labels, with the
  en-US digit grouping written out.
- `CountUp` (count_up.dfy): the animation as a class whose fields are the
  frame counter, the timer flag, the targets and the displayed figures.
- `RoiCalculator` (roi_calculator.dfy): the component's state and the three
  slider change handlers. Each handler re-renders the component and, when
  revenue, profit or ROI changed, restarts the animation.
- `DoubleRounding` (double_rounding.dfy): binary64 rounding and
  `Math.round`. Binary64 rounding replays the calculation the way the
  browser evaluates it. It shows that the rounded revenue and profit
  equal the exact ones, and that the ROI can differ (see Findings). The
  job-value slider rounds with the same `Math.round`.

Behaviour of the code worth noting:

- The change handlers do not clamp. The bounds come only from the sliders'
  `min`/`max` props, so they are preconditions here.
- A new animation run starts at frame 0. Its first tick shows
  floor(target/60); the run does not start from the value shown before.
- The appointments slider stops at 50.
- No exact round trip exists between `toSliderValue` and `fromSliderValue`,
  and the model states no round trip.

## Model

| member | source | states |
|---|---|---|
| Calculation.ValidInputs | src/components/ROICalculator.tsx:95-140 | the inputs the three sliders can deliver; each of them gives a strictly positive investment and a strictly positive a*r, so at least some deals close |
| Calculation.Project | src/components/ROICalculator.tsx:33-37 | closed deals are a*r/100; revenue is exactly closed deals times the job value and is a whole number; investment is a*70 and is strictly positive, so the ROI never divides by zero; profit is revenue minus investment; ROI is the floor of profit*100/investment (bracketed from both sides) and is negative exactly when profit is |
| Calculation.ExactRevenue | src/components/ROICalculator.tsx:33-34 | for a job value that is a multiple of 100, the product (a*r/100)*v is the whole number a*r*(v/100) |
| Calculation.FloorDivision | src/components/ROICalculator.tsx:37 | division by the positive investment is the floor of the quotient, and has the sign of the dividend |
| Calculation.ProfitIsMarginTimesAppointments | src/components/ROICalculator.tsx:33-36 | profit is the appointment count times the per-appointment margin r*(v/100)-70 |
| Calculation.DefaultProjection | src/components/ROICalculator.tsx:14-16 | the default state (20, 35%, $10,000) is valid and yields 7 deals, revenue 70000, investment 1400, profit 68600 and ROI 4900 |
| Calculation.LossExample | src/components/ROICalculator.tsx:33-37 | 5 appointments at 10% and $500 give revenue 250 against 350, profit -100 and ROI -29 (floored, not truncated) |
| Calculation.RevenueMonotone | src/components/ROICalculator.tsx:33-34 | revenue never decreases when appointments, closing rate or job value grow, singly or together |
| Calculation.ProfitMonotone | src/components/ROICalculator.tsx:33-36 | with the appointment count fixed, profit never decreases when the closing rate or the job value grows |
| Calculation.RoiMonotone | src/components/ROICalculator.tsx:33-37 | with the appointment count fixed, the ROI never decreases when the closing rate or the job value grows |
| Calculation.RoiIndependentOfAppointments | src/components/ROICalculator.tsx:35-37 | the ROI depends only on the closing rate and the job value; the appointment count cancels |
| Calculation.ProfitGrowsWithAppointmentsIff | src/components/ROICalculator.tsx:33-36 | more appointments never lower profit if and only if the per-appointment margin is not negative |
| JobValueSlider.CurveInUnitInterval | src/components/ROICalculator.tsx:28 | a curve fixing 0 and 1 and non-decreasing on [0,1] maps [0,1] into [0,1] |
| JobValueSlider.RoundToHundred | src/components/ROICalculator.tsx:29 | Math.round(val/100)*100, built on DoubleRounding.JsRound, is a multiple of 100 within [-50, +50) of val |
| JobValueSlider.RoundToHundredMonotone | src/components/ROICalculator.tsx:29 | rounding to 100 preserves order |
| JobValueSlider.RoundToHundredFixes | src/components/ROICalculator.tsx:29 | rounding leaves a multiple of 100 unchanged |
| JobValueSlider.FromSliderValue | src/components/ROICalculator.tsx:27-30 | every slider position 0..100 gives a multiple of 100 in [500, 50000] |
| JobValueSlider.FromSliderEndpoints | src/components/ROICalculator.tsx:27-30 | position 0 gives 500 and position 100 gives 50000 |
| JobValueSlider.FromSliderMonotone | src/components/ROICalculator.tsx:27-30 | the job value is non-decreasing in the slider position |
| JobValueSlider.ToSliderValue | src/components/ROICalculator.tsx:23-25 | every job value in range puts the thumb within [0, 100]; 500 gives 0 and 50000 gives 100 |
| JobValueSlider.ToSliderMonotone | src/components/ROICalculator.tsx:23-25 | a larger job value never puts the thumb further left |
| Formatting.ValueOfGrouped | src/components/ROICalculator.tsx:57 | the comma-grouped numeral of n reads back as n |
| Formatting.LocaleString | src/components/ROICalculator.tsx:57 | the en-US rendering is non-empty, starts with '-' exactly when the integer is negative, and holds only digits and commas after that |
| Formatting.LocaleStringFaithful | src/components/ROICalculator.tsx:57 | the en-US rendering of any integer, negative ones included, reads back as that integer and holds no '+' |
| Formatting.FormatCurrency | src/components/ROICalculator.tsx:57 | the label is "$" and then a numeral that reads back as floor(val); it holds no '+' |
| Formatting.FormatCurrencyDropsFraction | src/components/ROICalculator.tsx:57 | a fractional part below 1 never changes the currency label |
| Formatting.FormatJobValue | src/components/ROICalculator.tsx:59-61 | the label is "$50,000+" if and only if the value is at least 50000; below that it is the currency label |
| Formatting.TopLabelIsMaxPlus | src/components/ROICalculator.tsx:60 | "$50,000+" is the currency label of 50000 with a '+' appended |
| CountUp.Shown | src/components/ROICalculator.tsx:48-51 | the figure shown at frame k is the floor of target*k/60: shown*60 <= target*k < (shown+1)*60 |
| CountUp.ShownBounds | src/components/ROICalculator.tsx:48-51 | floor(target*k/60) is 0 at frame 0, equals target at frame 60, and lies between 0 and target, inclusive, for either sign of target |
| CountUp.ShownMonotone | src/components/ROICalculator.tsx:47-51 | frame by frame the displayed figure moves toward its target and never back |
| CountUp.Counter.constructor | src/components/ROICalculator.tsx:18-20 | on mount the displayed figures are 0 and a run starts at frame 0 toward the initial targets |
| CountUp.Counter.Render | src/components/ROICalculator.tsx:39-55 | a change in any target cancels the old run and starts a new one at frame 0, leaving the displayed figures alone; unchanged targets change nothing |
| CountUp.Counter.Tick | src/components/ROICalculator.tsx:46-53 | a live tick advances the frame by exactly 1, redraws every figure as floor(target*frame/60), and clears the timer at frame 60; a cleared timer changes nothing; the invariant is kept |
| CountUp.Counter.RunToEnd | src/components/ROICalculator.tsx:44-53 | the timer fires exactly 60 - frame more times (60 for a fresh run) and then every displayed figure equals its target exactly |
| RoiCalculator.Calculator.constructor | src/components/ROICalculator.tsx:14-20 | a fresh page has 20 appointments, 35% and $10,000, and the figures count up from 0 toward 70000, 68600 and 4900 |
| RoiCalculator.Calculator.Rerender | src/components/ROICalculator.tsx:39-42 | after a render the animation's targets are the revenue, profit and ROI of the current inputs; if any of them changed, a new run starts at frame 0, otherwise the animation is untouched; the displayed figures are kept until the next tick |
| RoiCalculator.Calculator.SetJobValueFromSlider | src/components/ROICalculator.tsx:95-101 | the job value becomes the mapped slider position, the other inputs are kept, and the state stays valid; the displayed figures are kept, and the animation restarts at frame 0 exactly when revenue, profit or ROI changed (otherwise it is untouched) |
| RoiCalculator.Calculator.SetClosingRate | src/components/ROICalculator.tsx:115-121 | the closing rate becomes the slider value, the other inputs are kept, and the state stays valid; the displayed figures are kept, and the animation restarts at frame 0 exactly when revenue, profit or ROI changed (otherwise it is untouched) |
| RoiCalculator.Calculator.SetAppointments | src/components/ROICalculator.tsx:135-141 | the appointment count becomes the slider value, the other inputs are kept, and the state stays valid; the displayed figures are kept, and the animation restarts at frame 0 exactly when revenue, profit or ROI changed (otherwise it is untouched) |
| RoiCalculator.Calculator.JobValueThumb | src/components/ROICalculator.tsx:96 | the job-value thumb is always drawn on the track |
| DoubleRounding.Fl | src/components/ROICalculator.tsx:33-37 | the double an arithmetic result is stored as keeps the sign of that result and maps 0 to 0; the rows below give its grid, its ties and its error |
| DoubleRounding.RoundHalfEven | src/components/ROICalculator.tsx:33-37 | the significand is rounded to an integer within half of it, and on a tie to the even one of the two neighbours |
| DoubleRounding.SignificandRange | src/components/ROICalculator.tsx:33-37 | a positive value measured in units of its last place lies in [2^52, 2^53) |
| DoubleRounding.FlOnGridPositive | src/components/ROICalculator.tsx:33-37 | a positive result is stored as m units in the last place with 2^52 <= m <= 2^53 (53 significant bits), and m is even when the result lies halfway between two doubles |
| DoubleRounding.FlOnGridNegative | src/components/ROICalculator.tsx:33-37 | the same for a negative result: -m lies in [2^52, 2^53], and m is even on a tie |
| DoubleRounding.FlAccurate | src/components/ROICalculator.tsx:33-37 | for a non-zero value of either sign, the rounded double lies within half a unit in the last place of that value |
| DoubleRounding.UlpRelative | src/components/ROICalculator.tsx:33-37 | a unit in the last place is at most 2^-52 of the magnitude of the value |
| DoubleRounding.FlRelative | src/components/ROICalculator.tsx:33-37 | every rounding, zero included, errs by at most 2^-53 of the magnitude of its argument |
| DoubleRounding.JsRound | src/components/ROICalculator.tsx:40-41 | Math.round: the integer n with x-0.5 < n <= x+0.5, so halves round up |
| DoubleRounding.RevenueAsWritten | src/components/ROICalculator.tsx:33-34 | the revenue as the browser computes it, rounding after the division and again after the product; for any valid inputs it is strictly positive |
| DoubleRounding.RoundedRevenueAccurate | src/components/ROICalculator.tsx:33-34 | rounding the closed deals d (at most 45) and then their product with a job value v (at most 50000) lands within 0.001 of d*v |
| DoubleRounding.RevenueClose | src/components/ROICalculator.tsx:33-34 | for every valid slider position the double revenue lies within 0.001 of the exact whole-dollar revenue of Calculation.Project, which is between 1 and 2250000 |
| DoubleRounding.RevenueRoundsBack | src/components/ROICalculator.tsx:33-40 | for every valid slider position Math.round of the double revenue is exactly the revenue of Calculation.Project |
| DoubleRounding.ProfitRoundsBack | src/components/ROICalculator.tsx:33-41 | for every valid slider position Math.round of the double profit is exactly the profit of Calculation.Project |
| DoubleRounding.ProfitAsWritten | src/components/ROICalculator.tsx:36 | the double profit is negative, or zero, exactly when the double revenue is below, or equal to, the investment a*70 |
| DoubleRounding.RoiAsWritten | src/components/ROICalculator.tsx:37 | the ROI as the browser computes it is negative exactly when the double profit is |
| DoubleRounding.RoiAsWrittenNegativeAtBreakEven | src/components/ROICalculator.tsx:33-37 | with 7 appointments, 10% and $700 the exact profit and ROI are 0, but the double profit is negative and the double evaluation shows an ROI of -1 |
| DoubleRounding.RoiAsWrittenFloorsTooLow | src/components/ROICalculator.tsx:33-41 | with 6 appointments, 85% and $700, the exact ROI is 750 but the double evaluation gives 749; the double revenue is not 3570, although Math.round gives 3570 again |

## Left out

- Calculation.Project: computes exactly rather than in binary64. DoubleRounding.RevenueRoundsBack and DoubleRounding.ProfitRoundsBack prove that the rounded targets at lines 40-41 equal its revenue and profit. The ROI at line 37 can come out one lower in doubles; see Findings. For the same reason the double ROI can differ by one between two appointment counts with the same rate and job value (5 and 6 appointments at 85% and $700 give 750 and 749), so Calculation.RoiIndependentOfAppointments holds for the exact ROI only.
- The negative zero of doubles is not modelled: `int` has no -0. At a break-even input whose double profit is slightly negative, Math.round at line 41 gives -0, and the profit card probably shows "$-0", where LocaleString(0) is "0".
- CountUp.Shown: the exact floor(target*k/60), where the code floors target*(k/60) in doubles. At frame 60 the two agree, because the progress is exactly 1.
- The power curve x^2.38 and its inverse are floating point, at lines 10 and 23-30. They are parameters here, constrained to fix 0 and 1 and to be non-decreasing. The model states no round trip between the two mappings.
- `toLocaleString` is taken to be the en-US format. Other locales' separators are not modelled.
- `closedDeals.toFixed(1)` at line 176 is not modelled. It is float-to-decimal formatting.
- The 16 ms interval, wall-clock time, and the clearing of the timer on unmount are not modelled. A tick is a method call, and a cleared timer is a flag.
- React rendering, JSX layout, and effects run twice in development mode are not modelled.
- DoubleRounding.Fl: does not model overflow, subnormals, infinities or NaN. No value of the calculator comes near them.
- The rest of the site is presentational and is not part of this model:
  - testimonials video control
  - navigation bar
  - scroll- and observer-driven sections
  - the booking iframe
  - the logo carousel
  - the video player
  - static pages

## Findings

| source | as written | input that shows it | evidently intended | confidence | as-written member | corrected member |
|---|---|---|---|---|---|---|
| src/components/ROICalculator.tsx:37 | the ROI is floored from (profit / systemInvestment) * 100, using the unrounded double profit | 6 appointments, 85%, $700 ($700 is what job-value slider positions 9 and 10 give: 660.6 and 706.4 on the curve, both rounded to 700): revenue is exactly 3570, profit 3150 and investment 420, so the ratio is 7.5; in doubles the revenue is 3569.9999999999995 and the ROI shows 749% | floor(profit * 100 / investment) on the whole-number profit, here 750% (lines 40-41 round revenue and profit to whole numbers for the display) | not executed | DoubleRounding.RoiAsWrittenFloorsTooLow | Calculation.Project |
| src/components/ROICalculator.tsx:33-37 | the break-even case is evaluated in doubles: 0.7 deals are stored slightly low, so the revenue falls just under the investment | 7 appointments, 10%, $700 (slider positions 9 or 10): revenue and investment are both exactly 490, so profit and ROI are 0; in doubles the profit is -2^-44 and the ROI shows -1%; the profit target Math.round(-2^-44) is -0, so the profit card probably reads "$-0" | an ROI of 0% when the campaign exactly breaks even | not executed | DoubleRounding.RoiAsWrittenNegativeAtBreakEven | Calculation.Project |
