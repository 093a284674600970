/** The count-up animation of the three result figures (revenue, profit
    and ROI). Every time one of the three targets changes, the old timer is
    cancelled and a new run starts at frame 0; each tick of the timer
    advances the frame by one and overwrites every displayed figure with
    floor(target * frame / 60); the timer clears itself at frame 60.

    A tick is a method call here; the 16 ms interval between ticks is not
    modelled.
 */
module CountUp {

  /** Frames in one run. */
  const TotalFrames: int := 60

  /** The figure displayed after frame k of a run toward target:
      floor(target * k / 60). Dafny's division by a positive divisor is the
      floor, for negative targets too. */
  function Shown(target: int, k: int): (shown: int)
    requires 0 <= k <= TotalFrames
    ensures shown * TotalFrames <= target * k < (shown + 1) * TotalFrames
  {
    target * k / TotalFrames
  }

  /** Before the first frame nothing is shown, every frame shows a figure
      between 0 and the target, whichever the target's sign, and the last
      frame shows the target exactly. */
  lemma ShownBounds(target: int, k: int)
    requires 0 <= k <= TotalFrames
    ensures Shown(target, 0) == 0
    ensures Shown(target, TotalFrames) == target
    ensures target >= 0 ==> 0 <= Shown(target, k) <= target
    ensures target < 0 ==> target <= Shown(target, k) <= 0
  {
    if target >= 0 {
      assert 0 <= target * k <= target * TotalFrames;
    } else {
      assert target * TotalFrames <= target * k <= 0;
    }
  }

  /** Frame by frame the figure moves toward the target and never back. */
  lemma ShownMonotone(target: int, k: int, k': int)
    requires 0 <= k <= k' <= TotalFrames
    ensures target >= 0 ==> Shown(target, k) <= Shown(target, k')
    ensures target < 0 ==> Shown(target, k') <= Shown(target, k)
  {
    var d := k' - k;
    assert target * k' == target * k + target * d;
    if target >= 0 {
      assert target * d >= 0;
      FloorDivMonotone(target * k, target * k');
    } else {
      assert target * d <= 0;
      FloorDivMonotone(target * k', target * k);
    }
  }

  lemma FloorDivMonotone(x: int, y: int)
    requires x <= y
    ensures x / TotalFrames <= y / TotalFrames
  {
  }

  /** The animation state: the frame counter, whether the interval timer is
      active, the three targets of the current run and the three displayed
      figures. */
  class Counter {
    var frame: int
    var running: bool
    var targetRevenue: int
    var targetProfit: int
    var targetRoi: int
    var displayedRevenue: int
    var displayedProfit: int
    var displayedRoi: int

    /** The frame stays in 0..60; the timer is active exactly while the run
        has frames left; once a frame has been drawn, every displayed figure
        is that frame's value for its target. */
    ghost predicate Valid()
      reads this
    {
      0 <= frame <= TotalFrames &&
      running == (frame < TotalFrames) &&
      (frame > 0 ==>
        displayedRevenue == Shown(targetRevenue, frame) &&
        displayedProfit == Shown(targetProfit, frame) &&
        displayedRoi == Shown(targetRoi, frame))
    }

    /** Mounting: the displayed figures start at 0 and the first run starts
        toward the initial targets. */
    constructor (revenue: int, profit: int, roi: int)
      ensures Valid() && running && frame == 0
      ensures targetRevenue == revenue && targetProfit == profit && targetRoi == roi
      ensures displayedRevenue == 0 && displayedProfit == 0 && displayedRoi == 0
    {
      frame, running := 0, true;
      targetRevenue, targetProfit, targetRoi := revenue, profit, roi;
      displayedRevenue, displayedProfit, displayedRoi := 0, 0, 0;
    }

    /** A render with the current targets: if any of them differs from the
        running run's, the old timer is cancelled and a new run starts at
        frame 0, leaving the displayed figures as they are until its first
        tick; otherwise nothing happens. */
    method Render(revenue: int, profit: int, roi: int)
      requires Valid()
      modifies this
      ensures Valid()
      ensures targetRevenue == revenue && targetProfit == profit && targetRoi == roi
      ensures displayedRevenue == old(displayedRevenue)
      ensures displayedProfit == old(displayedProfit)
      ensures displayedRoi == old(displayedRoi)
      ensures (revenue, profit, roi) != old((targetRevenue, targetProfit, targetRoi)) ==> running && frame == 0
      ensures (revenue, profit, roi) == old((targetRevenue, targetProfit, targetRoi)) ==> unchanged(this)
    {
      if (revenue, profit, roi) != (targetRevenue, targetProfit, targetRoi) {
        frame, running := 0, true;
        targetRevenue, targetProfit, targetRoi := revenue, profit, roi;
      }
    }

    /** One timer callback. While the timer is active it advances the frame
        by exactly one, redraws every figure for the new frame and clears
        the timer on reaching frame 60; a cleared timer never fires, so a
        tick after that changes nothing. */
    method Tick()
      requires Valid()
      modifies this
      ensures Valid()
      ensures targetRevenue == old(targetRevenue)
      ensures targetProfit == old(targetProfit)
      ensures targetRoi == old(targetRoi)
      ensures old(running) ==> frame == old(frame) + 1
      ensures old(running) ==> displayedRevenue == Shown(targetRevenue, frame)
      ensures old(running) ==> displayedProfit == Shown(targetProfit, frame)
      ensures old(running) ==> displayedRoi == Shown(targetRoi, frame)
      ensures !old(running) ==> unchanged(this)
    {
      if running {
        frame := frame + 1;
        displayedRevenue := Shown(targetRevenue, frame);
        displayedProfit := Shown(targetProfit, frame);
        displayedRoi := Shown(targetRoi, frame);
        if frame == TotalFrames {
          running := false;
        }
      }
    }

    /** Lets the timer fire until it clears itself. A run has exactly as many
        ticks as frames left, 60 for a fresh run, and afterwards every
        displayed figure equals its target exactly. */
    method RunToEnd() returns (ticks: nat)
      requires Valid()
      modifies this
      ensures Valid() && !running && frame == TotalFrames
      ensures ticks == TotalFrames - old(frame)
      ensures targetRevenue == old(targetRevenue)
      ensures targetProfit == old(targetProfit)
      ensures targetRoi == old(targetRoi)
      ensures displayedRevenue == targetRevenue
      ensures displayedProfit == targetProfit
      ensures displayedRoi == targetRoi
    {
      ticks := 0;
      while running
        invariant Valid()
        invariant ticks == frame - old(frame)
        invariant targetRevenue == old(targetRevenue)
        invariant targetProfit == old(targetProfit)
        invariant targetRoi == old(targetRoi)
        decreases TotalFrames - frame
      {
        Tick();
        ticks := ticks + 1;
      }
      ShownBounds(targetRevenue, TotalFrames);
      ShownBounds(targetProfit, TotalFrames);
      ShownBounds(targetRoi, TotalFrames);
    }
  }
}
