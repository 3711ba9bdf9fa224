/** The draggable separator between the two columns of the page
    (src/web/src/App.tsx): the left column's width is kept between a fixed
    minimum and a maximum derived from the page width, saved after every
    change, and moved by dragging, double-clicking, the keyboard and
    window resizes. Widths are whole pixels. */
module Layout {
  import opened Common

  const MIN_LEFT: int := 240
  const SNAP_DISTANCE: int := 24
  const KEY_STEP: int := 16
  const CTRL_KEY_STEP: int := 50

  /** `computeMaxLeft`: 85% of the page width less 100 pixels, but never
      below 480. */
  function MaxLeft(clientWidth: int): (m: int)
    ensures m >= 480 && m >= MIN_LEFT
    ensures m == 480 || 100 * m <= (clientWidth - 100) * 85 < 100 * (m + 1)
  {
    var scaled := ((clientWidth - 100) * 85) / 100;
    if scaled > 480 then scaled else 480
  }

  /** `Math.min(Math.max(px, minLeft), maxLeft)`. */
  function Clamp(px: int, maxLeft: int): int {
    if px < MIN_LEFT then (if MIN_LEFT < maxLeft then MIN_LEFT else maxLeft)
    else if px < maxLeft then px
    else maxLeft
  }

  /** With a maximum of at least the minimum, the clamped width is within
      the bounds, equals the request when that already was, and otherwise
      is the nearer bound. */
  lemma ClampInRange(px: int, maxLeft: int)
    requires maxLeft >= MIN_LEFT
    ensures MIN_LEFT <= Clamp(px, maxLeft) <= maxLeft
    ensures MIN_LEFT <= px <= maxLeft <==> Clamp(px, maxLeft) == px
    ensures px < MIN_LEFT ==> Clamp(px, maxLeft) == MIN_LEFT
    ensures px > maxLeft ==> Clamp(px, maxLeft) == maxLeft
  {
  }

  /** Clamping twice is clamping once, and it keeps the order of widths. */
  lemma ClampIdempotentMonotone(px: int, q: int, maxLeft: int)
    requires maxLeft >= MIN_LEFT
    ensures Clamp(Clamp(px, maxLeft), maxLeft) == Clamp(px, maxLeft)
    ensures px <= q ==> Clamp(px, maxLeft) <= Clamp(q, maxLeft)
  {
  }

  /** `Math.round(clientWidth * 0.5)`: halves round up. */
  function Mid(clientWidth: int): (m: int)
    ensures 2 * m == clientWidth || 2 * m == clientWidth + 1
  {
    (clientWidth + 1) / 2
  }

  /** The step of an arrow key: 50 pixels with Ctrl held, 16 without. */
  function Step(ctrl: bool): (s: int)
    ensures s > 0
  {
    if ctrl then CTRL_KEY_STEP else KEY_STEP
  }

  /** The width a key asks for, if the key is handled. */
  function KeyTarget(key: string, ctrl: bool, current: int, maxLeft: int): (r: Option<int>)
    ensures r.Some? <==> key in {"ArrowLeft", "ArrowRight", "Home", "End"}
    ensures key == "Home" ==> r == Some(MIN_LEFT)
    ensures key == "End" ==> r == Some(maxLeft)
    ensures key == "ArrowLeft" ==> r == Some(current - Step(ctrl))
    ensures key == "ArrowRight" ==> r == Some(current + Step(ctrl))
  {
    match key
    case "ArrowLeft" => Some(current - Step(ctrl))
    case "ArrowRight" => Some(current + Step(ctrl))
    case "Home" => Some(MIN_LEFT)
    case "End" => Some(maxLeft)
    case _ => None
  }

  /** Away from the bounds, one arrow key undoes the other. */
  lemma ArrowKeysUndo(current: int, ctrl: bool, maxLeft: int)
    requires MIN_LEFT <= current && current + Step(ctrl) <= maxLeft
    ensures var right := Clamp(KeyTarget("ArrowRight", ctrl, current, maxLeft).value, maxLeft);
      Clamp(KeyTarget("ArrowLeft", ctrl, right, maxLeft).value, maxLeft) == current
  {
  }

  /** The column state: the `--left-col` width on the page (0 while unset,
      as `Number('')` is), the saved width, the current maximum and whether
      a drag is in progress. */
  class Resizer {
    var left: int
    var saved: Option<int>
    var maxLeft: int
    var dragging: bool

    ghost predicate Valid()
      reads this
    {
      maxLeft >= 480 && left >= 0
    }

    /** Every width set by the handlers lies within the bounds and has
        been saved. */
    ghost predicate Settled()
      reads this
    {
      MIN_LEFT <= left <= maxLeft && saved == Some(left)
    }

    /** The width the handlers read back: the page value, or the minimum
        while it is unset. */
    function Current(): (c: int)
      reads this
      ensures left != 0 ==> c == left
      ensures left == 0 ==> c == MIN_LEFT
    {
      if left != 0 then left else MIN_LEFT
    }

    /** Set-up: a positive saved width is applied as it is, without being
        clamped. */
    constructor(clientWidth: int, stored: Option<int>)
      ensures Valid() && !dragging && saved == stored
      ensures maxLeft == MaxLeft(clientWidth)
      ensures stored.Some? && stored.value > 0 ==> left == stored.value
      ensures !(stored.Some? && stored.value > 0) ==> left == 0
    {
      left := if stored.Some? && stored.value > 0 then stored.value else 0;
      saved := stored;
      maxLeft := MaxLeft(clientWidth);
      dragging := false;
    }

    /** `applyLeft`: clamp, set and save. */
    method ApplyLeft(px: int)
      requires Valid()
      modifies this
      ensures Valid() && Settled()
      ensures left == Clamp(px, maxLeft)
      ensures maxLeft == old(maxLeft) && dragging == old(dragging)
    {
      ClampInRange(px, maxLeft);
      left := Clamp(px, maxLeft);
      saved := Some(left);
    }

    method PointerDown()
      modifies this
      ensures dragging
      ensures left == old(left) && saved == old(saved) && maxLeft == old(maxLeft)
    {
      dragging := true;
    }

    /** During a drag the column follows the pointer, 12 pixels left of it. */
    method PointerMove(clientX: int, rectLeft: int)
      requires Valid()
      modifies this
      ensures Valid() && dragging == old(dragging) && maxLeft == old(maxLeft)
      ensures old(dragging) ==> Settled() && left == Clamp(clientX - rectLeft - 12, maxLeft)
      ensures !old(dragging) ==> left == old(left) && saved == old(saved)
    {
      if dragging {
        ClampIdempotentMonotone(clientX - rectLeft - 12, clientX - rectLeft - 12, maxLeft);
        ApplyLeft(Clamp(clientX - rectLeft - 12, maxLeft));
      }
    }

    /** The end of a drag snaps to the middle of the page when within 24
        pixels of it. */
    method PointerUp(clientWidth: int)
      requires Valid()
      modifies this
      ensures Valid() && !dragging && maxLeft == old(maxLeft)
      ensures var d := old(Current()) - Mid(clientWidth);
        if -SNAP_DISTANCE < d < SNAP_DISTANCE then Settled() && left == Clamp(Mid(clientWidth), maxLeft)
        else left == old(left) && saved == old(saved)
    {
      dragging := false;
      var current := Current();
      var mid := Mid(clientWidth);
      if -SNAP_DISTANCE < current - mid < SNAP_DISTANCE {
        ApplyLeft(mid);
      }
    }

    /** A double click centres the separator. */
    method DoubleClick(clientWidth: int)
      requires Valid()
      modifies this
      ensures Valid() && Settled() && dragging == old(dragging) && maxLeft == old(maxLeft)
      ensures left == Clamp(Mid(clientWidth), maxLeft)
    {
      ApplyLeft(Mid(clientWidth));
    }

    /** Arrow keys move by a step, Home and End go to the bounds; the
        result says whether the key was handled. */
    method KeyDown(key: string, ctrl: bool) returns (handled: bool)
      requires Valid()
      modifies this
      ensures Valid() && dragging == old(dragging) && maxLeft == old(maxLeft)
      ensures var target := KeyTarget(key, ctrl, old(Current()), maxLeft);
        handled == target.Some? &&
        (if handled then Settled() && left == Clamp(target.value, maxLeft)
         else left == old(left) && saved == old(saved))
    {
      var target := KeyTarget(key, ctrl, Current(), maxLeft);
      handled := target.Some?;
      if handled {
        ApplyLeft(target.value);
      }
    }

    /** A window resize that changes the maximum re-clamps the width. */
    method Resize(clientWidth: int)
      requires Valid()
      modifies this
      ensures Valid() && dragging == old(dragging)
      ensures maxLeft == MaxLeft(clientWidth)
      ensures MaxLeft(clientWidth) != old(maxLeft) ==> Settled() && left == Clamp(old(Current()), maxLeft)
      ensures MaxLeft(clientWidth) == old(maxLeft) ==> left == old(left) && saved == old(saved)
    {
      var nextMax := MaxLeft(clientWidth);
      if nextMax != maxLeft {
        maxLeft := nextMax;
        ApplyLeft(Current());
      }
    }
  }

  /** Once settled, every handler keeps the width within the bounds. */
  method SettledStaysSettled(r: Resizer, clientWidth: int, key: string, ctrl: bool, x: int)
    requires r.Valid() && r.Settled()
    modifies r
    ensures r.Valid() && r.Settled()
  {
    r.PointerDown();
    r.PointerMove(x, 0);
    r.PointerUp(clientWidth);
    var _ := r.KeyDown(key, ctrl);
    r.Resize(clientWidth);
    r.DoubleClick(clientWidth);
  }
}
