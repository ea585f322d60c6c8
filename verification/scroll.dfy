/**
 * The scroll controller of the 18-diamond carousel. The module globals
 * (`scrollValue`, `scrollFinal`, `scrollDirection`, `isScrolling`,
 * `isSnapping` and the debounce timer) are one `Wheel` record; the React
 * context the controller reads and writes is a `Canvas` record. Each event
 * handler is a pure step. The debounce `setTimeout` is a generation
 * counter: only the timer of the latest wheel event can fire.
 */
module Scroll {
  import opened JsMath
  import opened ShapeTree
  import opened Easing
  import opened Layout
  import Tweening

  datatype Direction = Up | Down

  /** The scroll globals; `pending` is a live debounce timer of number `generation`. */
  datatype Wheel = Wheel(
    value: real,
    final: real,
    direction: Option<Direction>,
    scrolling: bool,
    snapping: bool,
    generation: nat,
    pending: bool)

  /** The globals at load time: both scroll values at 1000, no direction yet. */
  const InitialWheel: Wheel := Wheel(1000.0, 1000.0, None, false, false, 0, false)

  /** The state `useCanvas` keeps, which the controller reads as `contextData`. */
  datatype Canvas = Canvas(
    index: int,
    rotation: int,
    active: bool,
    ready: bool,
    locked: bool,
    scroll: real)

  const InitialCanvas: Canvas := Canvas(0, 17, false, false, false, 1000.0)

  /** The distance one wheel step scrolls, and one slot of the ellipse. */
  const SlotScroll: real := 200.0

  // ---------------------------------------------------------------------
  // Wheel input and the debounce
  // ---------------------------------------------------------------------

  /** The wheel is listened to: there is a context, and it is ready, not locked and not showing a diamond. */
  predicate Accepts(ctx: Option<Canvas>)
  {
    ctx.Some? && !ctx.value.active && !ctx.value.locked && ctx.value.ready
  }

  /**
   * `onWheel`: accumulate the delta, remember its direction, mark the
   * wheel as scrolling and restart the debounce timer.
   */
  function OnWheel(w: Wheel, ctx: Option<Canvas>, deltaY: real): (r: Wheel)
    ensures !Accepts(ctx) ==> r == w
    ensures Accepts(ctx) ==>
      && r.value == w.value + deltaY
      && r.direction == Some(if deltaY > 0.0 then Down else Up)
      && r.scrolling && r.pending && r.generation == w.generation + 1
      && r.final == w.final && r.snapping == w.snapping
  {
    if !Accepts(ctx) then w
    else
      w.(value := w.value + deltaY,
         direction := Some(if deltaY > 0.0 then Down else Up),
         scrolling := true,
         generation := w.generation + 1,
         pending := true)
  }

  function Sum(deltas: seq<real>): real
  {
    if deltas == [] then 0.0 else deltas[0] + Sum(deltas[1..])
  }

  /**
   * The whole `onWheel` handler: the globals step, then `onRotate`, which
   * reports the slot of the unchanged final value to the context.
   */
  function WheelEvent(w: Wheel, ctx: Option<Canvas>, deltaY: real): (r: (Wheel, Option<Canvas>))
    ensures r.0 == OnWheel(w, ctx, deltaY)
    ensures !Accepts(ctx) ==> r.1 == ctx
    ensures Accepts(ctx) ==> Reported(ctx, r.1, w.final)
  {
    var w1 := OnWheel(w, ctx, deltaY);
    if Accepts(ctx) then (w1, Rotate(w1, ctx)) else (w1, ctx)
  }

  /** A burst of wheel events, one after the other. */
  function Wheels(w: Wheel, ctx: Option<Canvas>, deltas: seq<real>): Wheel
    decreases |deltas|
  {
    if deltas == [] then w else Wheels(OnWheel(w, ctx, deltas[0]), ctx, deltas[1..])
  }

  /**
   * A burst of accepted wheel events adds up its deltas, takes the
   * direction of the last one, and leaves exactly one live timer: the
   * one started by the last event.
   */
  lemma {:induction false} WheelsAccumulate(w: Wheel, ctx: Option<Canvas>, deltas: seq<real>)
    requires Accepts(ctx) && deltas != []
    ensures Wheels(w, ctx, deltas).value == w.value + Sum(deltas)
    ensures Wheels(w, ctx, deltas).direction == Some(if deltas[|deltas| - 1] > 0.0 then Down else Up)
    ensures Wheels(w, ctx, deltas).generation == w.generation + |deltas|
    ensures Wheels(w, ctx, deltas).pending && Wheels(w, ctx, deltas).scrolling
    decreases |deltas|
  {
    var w1 := OnWheel(w, ctx, deltas[0]);
    if |deltas| > 1 {
      WheelsAccumulate(w1, ctx, deltas[1..]);
      assert deltas[1..][|deltas[1..]| - 1] == deltas[|deltas| - 1];
    } else {
      assert deltas[1..] == [];
    }
  }

  /**
   * The step a snap lands on: `Math.ceil(value / step)` when the last
   * wheel went up, `Math.floor(value / step)` otherwise, including before
   * any wheel event.
   */
  function SnapStep(value: real, direction: Option<Direction>, step: real): (k: int)
    requires step > 0.0
    ensures direction == Some(Up) ==> value <= k as real * step < value + step
    ensures direction != Some(Up) ==> k as real * step <= value < k as real * step + step
  {
    var q := value / step;
    assert q * step == value;
    if direction == Some(Up) then
      var k := Ceil(q);
      StepAbove(value, step, q, k as real);
      k
    else
      var k := Floor(q);
      StepBelow(value, step, q, k as real);
      k
  }

  /** Less than one unit, scaled by a positive step, stays below one step. */
  lemma UnitGap(d: real, step: real)
    requires step > 0.0 && 0.0 <= d < 1.0
    ensures 0.0 <= d * step < step
  {
    assert step - d * step == (1.0 - d) * step;
  }

  /** Scaling a unit window below the ratio `q = value / step` back by `step`. */
  lemma StepBelow(value: real, step: real, q: real, k: real)
    requires step > 0.0 && q * step == value && k <= q < k + 1.0
    ensures k * step <= value < k * step + step
  {
    var d := q - k;
    UnitGap(d, step);
    assert value - k * step == d * step;
  }

  /** Scaling a unit window above the ratio `q = value / step` back by `step`. */
  lemma StepAbove(value: real, step: real, q: real, k: real)
    requires step > 0.0 && q * step == value && q <= k < q + 1.0
    ensures value <= k * step < value + step
  {
    var d := k - q;
    UnitGap(d, step);
    assert k * step - value == d * step;
  }

  /** The window of a snap holds one multiple of the step: the snap is the only one. */
  lemma SnapStepUnique(value: real, direction: Option<Direction>, step: real, j: int)
    requires step > 0.0
    requires direction == Some(Up) ==> value <= j as real * step < value + step
    requires direction != Some(Up) ==> j as real * step <= value < j as real * step + step
    ensures SnapStep(value, direction, step) == j
  {
    var k := SnapStep(value, direction, step);
    var a, b := k as real * step, j as real * step;
    if direction == Some(Up) {
      SameWindow(value, step, a, b);
    } else {
      SameWindow(value - step, step, a, b);
    }
    WithinOneStep(k, j, step, a, b);
  }

  /** Two points of one half-open window narrower than `step` are less than `step` apart. */
  lemma SameWindow(low: real, step: real, a: real, b: real)
    requires (low <= a < low + step && low <= b < low + step) || (low < a <= low + step && low < b <= low + step)
    ensures -step < a - b < step
  {
  }

  /** Two multiples of a step less than one step apart are the same multiple. */
  lemma WithinOneStep(k: int, j: int, step: real, a: real, b: real)
    requires step > 0.0 && a == k as real * step && b == j as real * step && -step < a - b < step
    ensures k == j
  {
    var d := (k - j) as real;
    assert a - b == d * step;
  }

  /** A value already on a step stays where it is, whichever way the wheel went. */
  lemma SnapIdempotent(j: int, direction: Option<Direction>, step: real)
    requires step > 0.0
    ensures SnapStep(j as real * step, direction, step) == j
  {
    SnapStepUnique(j as real * step, direction, step, j);
  }

  /** `onSnap`: round the scroll value onto a step and make it the final value too. */
  function Snap(w: Wheel, step: real): (r: Wheel)
    requires step > 0.0
    ensures r.value == r.final == SnapStep(w.value, w.direction, step) as real * step
    ensures r.snapping
    ensures r.direction == w.direction && r.scrolling == w.scrolling && r.pending == w.pending
  {
    var v := SnapStep(w.value, w.direction, step) as real * step;
    w.(value := v, final := v, snapping := true)
  }

  /**
   * The debounce timer number `generation` fires: when it is the live
   * one, scrolling stops, the wheel snaps and the snap reports the slot it
   * landed on to the context, if there is one; a cleared timer does nothing.
   */
  function TimerFired(w: Wheel, ctx: Option<Canvas>, generation: nat, step: real): (r: (Wheel, Option<Canvas>))
    requires step > 0.0
    ensures !(w.pending && generation == w.generation) ==> r == (w, ctx)
    ensures w.pending && generation == w.generation ==>
      && !r.0.scrolling && !r.0.pending && r.0.snapping && r.0.value == r.0.final
      && Reported(ctx, r.1, r.0.final)
  {
    if w.pending && generation == w.generation then
      var snapped := Snap(w.(scrolling := false, pending := false), step);
      (snapped, ReportScroll(ctx, snapped.final))
    else (w, ctx)
  }

  /** The `onComplete` of a diamond's snap animation: the snap is over. */
  function SnapSettled(w: Wheel): (r: Wheel)
    ensures !r.snapping
    ensures r.(snapping := w.snapping) == w
  {
    w.(snapping := false)
  }

  /**
   * An unlocked carousel cannot open a diamond while its snap is running,
   * and can once a snap animation has completed.
   */
  lemma SnapGuardsActivation(c: Canvas, w: Wheel, step: real)
    requires !c.locked && w.pending && step > 0.0
    ensures var (w1, c1) := TimerFired(w, Some(c), w.generation, step);
      && SetActive(c1.value, w1, true) == c1.value
      && SetActive(c1.value, SnapSettled(w1), true) == c1.value.(active := true)
  {
  }

  /** Only the last of a burst of wheel events snaps: the timers of the earlier ones were cleared. */
  lemma StaleTimerIgnored(w: Wheel, ctx: Option<Canvas>, deltas: seq<real>, generation: nat, step: real)
    requires Accepts(ctx) && deltas != [] && step > 0.0
    requires generation < w.generation + |deltas|
    ensures TimerFired(Wheels(w, ctx, deltas), ctx, generation, step) == (Wheels(w, ctx, deltas), ctx)
  {
    WheelsAccumulate(w, ctx, deltas);
  }

  /** The render loop's damping: the final value moves a `factor` share of the way to the scroll value. */
  function Damp(w: Wheel, factor: real): (r: Wheel)
    ensures r.value == w.value
    ensures r == w.(final := r.final)
  {
    w.(final := w.final + (w.value - w.final) * factor)
  }

  /** With a factor in [0, 1] the final value never overshoots, and the gap shrinks by `1 - factor`. */
  lemma DampApproaches(w: Wheel, factor: real)
    requires 0.0 <= factor <= 1.0
    ensures w.value - Damp(w, factor).final == (1.0 - factor) * (w.value - w.final)
    ensures w.final <= w.value ==> w.final <= Damp(w, factor).final <= w.value
    ensures w.value <= w.final ==> w.value <= Damp(w, factor).final <= w.final
  {
    var g := w.value - w.final;
    assert Damp(w, factor).final == w.final + g * factor;
    assert g - g * factor == (1.0 - factor) * g;
    ShareOfGap(g, factor);
  }

  /** A share in [0, 1] of a gap lies between zero and the gap. */
  lemma ShareOfGap(g: real, factor: real)
    requires 0.0 <= factor <= 1.0
    ensures 0.0 <= g ==> 0.0 <= g * factor <= g
    ensures g <= 0.0 ==> g <= g * factor <= 0.0
  {
    assert g - g * factor == g * (1.0 - factor);
  }

  // ---------------------------------------------------------------------
  // What the controller reports to the context
  // ---------------------------------------------------------------------

  /** The slot reported for a final scroll value: `toIndex(4 - Math.round(final / 200))`. */
  function Report(final: real): (r: int)
    ensures 0 <= r < Slots
  {
    ToIndex(4 - Round(final / SlotScroll))
  }

  /** The initial scroll value of 1000 reports slot 17, the context's initial rotation. */
  lemma ReportInitial()
    ensures Report(InitialWheel.final) == InitialCanvas.rotation
  {
    assert Round(1000.0 / 200.0) == 5;
    ToIndexPeriodic(-1, 1);
  }

  /** Rounding commutes with a whole shift. */
  lemma RoundShift(x: real, k: int)
    ensures Round(x + k as real) == Round(x) + k
  {
    var r := Round(x) + k;
    assert r as real <= x + k as real + 0.5 < r as real + 1.0;
  }

  /** The slots of two whole numbers a whole number of turns apart are the same. */
  lemma ToIndexShift(a: int, k: int)
    ensures ToIndex(ToIndex(a) + k) == ToIndex(a + k)
  {
    var q := a / Slots;
    assert ToIndex(a) == a - q * Slots;
    ToIndexPeriodic(a + k, -q);
    assert ToIndex(a) + k == (a + k) + (-q) * Slots;
  }

  /** Scrolling back `k` whole slots moves the reported slot `k` forward. */
  lemma ReportStep(final: real, k: int)
    ensures Report(final - SlotScroll * k as real) == ToIndex(Report(final) + k)
  {
    var y := final / SlotScroll;
    SlotQuotient(final, k);
    RoundShift(y, -k);
    ToIndexShift(4 - Round(y), k);
  }

  /** Taking `k` slots off a scroll value takes `k` off its slot count. */
  lemma SlotQuotient(final: real, k: int)
    ensures (final - SlotScroll * k as real) / SlotScroll == final / SlotScroll + (-k) as real
  {
  }

  /** `setScroll(scroll, rotation)`: the stored content index is `((rotation % 9) + 9) % 9`. */
  function SetScroll(c: Canvas, scroll: real, rotation: int): (r: Canvas)
    ensures 0 <= r.index < 9 && (r.index - rotation) % 9 == 0
    ensures r.rotation == rotation && r.scroll == scroll
    ensures r == c.(index := r.index, rotation := rotation, scroll := scroll)
  {
    WrapCongruent(rotation, 9);
    c.(scroll := scroll, index := WrapIndex(rotation, 9), rotation := rotation)
  }

  /** Opposite diamonds of the ring, nine slots apart, show the same content item. */
  lemma ContentRepeats(rotation: int)
    ensures SetScroll(InitialCanvas, 0.0, rotation + 9).index == SetScroll(InitialCanvas, 0.0, rotation).index
    ensures SetScroll(InitialCanvas, 0.0, ToIndex(rotation)).index == SetScroll(InitialCanvas, 0.0, rotation).index
  {
    var q := rotation / 9;
    assert rotation + 9 == (q + 1) * 9 + rotation % 9;
    DivModUnique(rotation + 9, q + 1, rotation % 9, 9);
    var t := rotation / Slots;
    assert ToIndex(rotation) == rotation - t * Slots;
    assert ToIndex(rotation) == (q - 2 * t) * 9 + rotation % 9;
    DivModUnique(ToIndex(rotation), q - 2 * t, rotation % 9, 9);
  }

  /**
   * The context after `contextData.setScroll(final, toIndex(4 -
   * Math.round(final / 200)))`: it holds the final value and the slot it
   * reports, and keeps its flags.
   */
  predicate Reported(ctx: Option<Canvas>, r: Option<Canvas>, final: real)
  {
    && (r.Some? <==> ctx.Some?)
    && (ctx.Some? ==>
      && r.value.rotation == Report(final) && r.value.scroll == final
      && r.value.active == ctx.value.active && r.value.ready == ctx.value.ready
      && r.value.locked == ctx.value.locked)
  }

  /** The report of `onRotate`, `onSnap` and the shift's `onUpdate`, made only when there is a context. */
  function ReportScroll(ctx: Option<Canvas>, final: real): (r: Option<Canvas>)
    ensures Reported(ctx, r, final)
  {
    if ctx.Some? then Some(SetScroll(ctx.value, final, Report(final))) else None
  }

  /** `onRotate`'s report: while scrolling, the context learns the final value and its slot. */
  function Rotate(w: Wheel, ctx: Option<Canvas>): (r: Option<Canvas>)
    ensures w.scrolling ==> Reported(ctx, r, w.final)
    ensures !w.scrolling ==> r == ctx
  {
    if w.scrolling then ReportScroll(ctx, w.final) else ctx
  }

  // ---------------------------------------------------------------------
  // Diamond poses
  // ---------------------------------------------------------------------

  /** What `onRotate` sets on a diamond: visibility, position, scale and tilt. */
  datatype Pose = Pose(visible: bool, x: real, z: real, scale: real, tilt: Option<Rotation>)

  /** The sample columns of the movable points' rotations. */
  datatype Columns = Columns(rotX: seq<real>, rotY: seq<real>, rotZ: seq<real>)

  function PoseOf(p: Point, cols: Columns): (r: Pose)
    ensures r.visible <==> p.z > -0.1
    ensures r.x == p.x && r.z == p.z
    ensures r.scale == Scale(p.x) && r.tilt == GetRotation(cols.rotX, cols.rotY, cols.rotZ, p.x)
  {
    Pose(p.z > -0.1, p.x, p.z, Scale(p.x), GetRotation(cols.rotX, cols.rotY, cols.rotZ, p.x))
  }

  /** The pose of every diamond for a final scroll value: the ellipse turned by a tenth of it. */
  function Poses(m: Transcendentals, e: Ellipse, cols: Columns, final: real): (r: seq<Pose>)
    ensures |r| == Slots
  {
    seq(Slots, i requires 0 <= i < Slots => PoseOf(PointAt(m, e, Slots, i, final * 0.1), cols))
  }

  /** One slot of scrolling hands every diamond the pose of its neighbour. */
  lemma PosesShift(m: Transcendentals, e: Ellipse, cols: Columns, final: real, i: nat)
    requires i + 1 < Slots
    ensures Poses(m, e, cols, final + SlotScroll)[i] == Poses(m, e, cols, final)[i + 1]
  {
    ScrollStepIsOneSlot(m, e, final, i);
  }

  // ---------------------------------------------------------------------
  // Clicks and the scroll shift
  // ---------------------------------------------------------------------

  /** The slot offset `onClick` scrolls by: the raw offset, or wrapped by one turn when it exceeds 4. */
  function ClickOffset(diamond: int, rotation: int): (o: int)
    ensures (o - (diamond - rotation)) % Slots == 0
    ensures -4 <= diamond - rotation <= 4 ==> o == diamond - rotation
  {
    var offset := diamond - rotation;
    if Abs(offset as real) <= 4.0 then offset
    else if offset > 0 then
      assert (offset - 18) - offset == (-1) * Slots;
      offset - 18
    else
      assert (offset + 18) - offset == 1 * Slots;
      offset + 18
  }

  /** A diamond among the nine front slots is reached the short way: at most four slots. */
  lemma ClickFrontIsShort(rotation: int, k: int)
    requires 0 <= rotation < Slots && -4 <= k <= 4
    ensures ClickOffset(ToIndex(rotation + k), rotation) == k
  {
    var d := ToIndex(rotation + k);
    if 0 <= rotation + k < Slots {
      ToIndexPeriodic(rotation + k, 0);
    } else if rotation + k < 0 {
      ToIndexPeriodic(rotation + k + Slots, -1);
      ToIndexPeriodic(rotation + k + Slots, 0);
      assert d == rotation + k + Slots;
    } else {
      ToIndexPeriodic(rotation + k - Slots, 1);
      ToIndexPeriodic(rotation + k - Slots, 0);
      assert d == rotation + k - Slots;
    }
  }

  datatype ClickAction = Ignore | Activate | ScrollBy(offset: real)

  /**
   * `onClick` on diamond `diamond`: nothing while locked, showing a
   * diamond or scrolling; the current diamond opens; any other scrolls
   * by `-200` per slot of offset.
   */
  function OnClick(c: Canvas, w: Wheel, diamond: int): (r: ClickAction)
    ensures r.Ignore? <==> c.locked || c.active || w.scrolling
    ensures r.Activate? <==> !(c.locked || c.active || w.scrolling) && diamond == c.rotation
    ensures r.ScrollBy? ==> r.offset == -SlotScroll * ClickOffset(diamond, c.rotation) as real
  {
    if c.locked || c.active then Ignore
    else if w.scrolling then Ignore
    else if diamond == c.rotation then Activate
    else ScrollBy(ClickOffset(diamond, c.rotation) as real * SlotScroll * -1.0)
  }

  /** The two scroll values as the tree the shift animation interpolates. */
  function ScrollTree(value: real, final: real): Tree
  {
    Node(map["scrollValue" := Leaf(value), "scrollFinal" := Leaf(final)])
  }

  /** The outcome of `addScroll`: the globals, the context and the tween queue. */
  datatype Shift = Shift(wheel: Wheel, ctx: Canvas, tween: Tweening.Tween, events: seq<Tweening.Event>)

  /** The easing and length of the scroll shift. */
  const ShiftEasing: string := "out-quad"
  const ShiftDuration: real := 500.0

  /**
   * `addScroll(offset)`: mark the wheel as scrolling; unless the context
   * is locked, lock it and animate both scroll values by `offset`.
   */
  function AddScroll(w: Wheel, c: Canvas, tw: Tweening.Tween, now: real, offset: real): (r: Shift)
    ensures r.wheel == w.(scrolling := true)
    ensures c.locked ==> r == Shift(w.(scrolling := true), c, tw, [])
    ensures !c.locked ==>
      && r.ctx == c.(locked := true)
      && |r.tween.tasks| == |tw.tasks| + 1
      && var t := r.tween.tasks[|tw.tasks|];
         t.from == ScrollTree(w.value, w.final) && t.to == ScrollTree(w.value + offset, w.final + offset)
         && t.easing == ShiftEasing && t.duration == ShiftDuration
    ensures !c.locked && Tweening.Valid(tw) ==> Tweening.Valid(r.tween)
  {
    var w1 := w.(scrolling := true);
    if c.locked then Shift(w1, c, tw, [])
    else
      var from, to := ScrollTree(w.value, w.final), ScrollTree(w.value + offset, w.final + offset);
      assert Compatible(from, to);
      var s := Tweening.Animate(tw, now, from, to, ShiftDuration, Some(ShiftEasing), None).value;
      Shift(w1, c.(locked := true), s.tween, s.events)
  }

  /**
   * Both scroll values ride the same eased frame of the shift, so the gap
   * between them is the same at every frame as before the shift.
   */
  lemma ShiftKeepsGap(value: real, final: real, offset: real, frame: real)
    ensures
      var t := Tweening.Interp(ScrollTree(value, final), ScrollTree(value + offset, final + offset), frame);
      && At(t, ["scrollValue"]) == Some(Leaf(Tweening.Lerp(value, value + offset, frame)))
      && At(t, ["scrollFinal"]) == Some(Leaf(Tweening.Lerp(final, final + offset, frame)))
      && Tweening.Lerp(value, value + offset, frame) - Tweening.Lerp(final, final + offset, frame) == value - final
  {
    var from, to := ScrollTree(value, final), ScrollTree(value + offset, final + offset);
    assert At(from, ["scrollValue"]) == Some(Leaf(value)) by {
      assert ["scrollValue"][1..] == [];
    }
    assert At(to, ["scrollValue"]) == Some(Leaf(value + offset)) by {
      assert ["scrollValue"][1..] == [];
    }
    assert At(from, ["scrollFinal"]) == Some(Leaf(final)) by {
      assert ["scrollFinal"][1..] == [];
    }
    assert At(to, ["scrollFinal"]) == Some(Leaf(final + offset)) by {
      assert ["scrollFinal"][1..] == [];
    }
    Tweening.InterpLeaf(from, to, frame, ["scrollValue"]);
    Tweening.InterpLeaf(from, to, frame, ["scrollFinal"]);
  }

  /**
   * The shift's `onComplete`: the last `onUpdate` has set both scroll
   * values to their targets; scrolling stops, the context unlocks and the
   * wheel snaps, reporting the slot it lands on.
   */
  function ShiftComplete(w: Wheel, c: Canvas, value: real, final: real, step: real): (r: (Wheel, Canvas))
    requires step > 0.0
    ensures !r.0.scrolling && r.0.snapping && r.0.value == r.0.final
    ensures Reported(Some(c.(locked := false)), Some(r.1), r.0.final)
  {
    var snapped := Snap(w.(value := value, final := final, scrolling := false), step);
    (snapped, ReportScroll(Some(c.(locked := false)), snapped.final).value)
  }

  /**
   * Clicking a diamond from a snapped carousel scrolls it to the front:
   * after the shift completes and snaps on the 200 step, the reported
   * slot is the clicked diamond. Clicking it again asks to open it, and
   * the guarded `setActive` refuses while the snap animation runs and
   * opens it once that animation has completed.
   */
  lemma ClickBringsToFront(w: Wheel, c: Canvas, tw: Tweening.Tween, now: real, diamond: int, j: int)
    requires 0 <= diamond < Slots
    requires w.value == w.final == j as real * SlotScroll
    requires c.rotation == Report(w.final)
    requires OnClick(c, w, diamond).ScrollBy?
    ensures
      var offset := OnClick(c, w, diamond).offset;
      var s := AddScroll(w, c, tw, now, offset);
      var done := ShiftComplete(s.wheel, s.ctx, w.value + offset, w.final + offset, SlotScroll);
      && s.ctx.locked && !done.1.locked
      && Report(done.0.final) == diamond && done.1.rotation == diamond
      && OnClick(done.1, done.0, diamond) == Activate
      && SetActive(done.1, done.0, true) == done.1
      && SetActive(done.1, SnapSettled(done.0), true) == done.1.(active := true)
  {
    var offset := OnClick(c, w, diamond).offset;
    var s := AddScroll(w, c, tw, now, offset);
    assert s.wheel == w.(scrolling := true);
    ShiftLands(w.(scrolling := true), s.ctx, diamond, j, c.rotation);
  }

  /** The shift by the click offset, once complete and snapped, reports the clicked diamond. */
  lemma ShiftLands(w: Wheel, c: Canvas, diamond: int, j: int, rotation: int)
    requires 0 <= diamond < Slots
    requires w.value == w.final == j as real * SlotScroll
    requires rotation == Report(w.final)
    ensures
      var offset := -SlotScroll * ClickOffset(diamond, rotation) as real;
      Report(ShiftComplete(w, c, w.value + offset, w.final + offset, SlotScroll).0.final) == diamond
  {
    var o := ClickOffset(diamond, rotation);
    var offset := -SlotScroll * o as real;
    var target := (j - o) as real * SlotScroll;
    assert w.value + offset == target && w.final + offset == target;
    ShiftOntoSlot(w, c, j - o);
    OffsetReport(w.final, diamond, rotation);
    assert w.final - SlotScroll * o as real == target;
  }

  /** A shift that ends exactly on a slot stays there when it snaps. */
  lemma ShiftOntoSlot(w: Wheel, c: Canvas, k: int)
    ensures
      var v := k as real * SlotScroll;
      ShiftComplete(w, c, v, v, SlotScroll).0.final == v
  {
    SnapIdempotent(k, w.direction, SlotScroll);
  }

  /** Moving the scroll value back by the click offset's slots reports the clicked diamond. */
  lemma OffsetReport(final: real, diamond: int, rotation: int)
    requires 0 <= diamond < Slots && rotation == Report(final)
    ensures Report(final - SlotScroll * ClickOffset(diamond, rotation) as real) == diamond
  {
    ReportStep(final, ClickOffset(diamond, rotation));
    ToIndexPeriodic(rotation, 0);
    ClickOffsetReaches(diamond, rotation);
  }

  /** The click offset, taken from a slot's rotation, lands on the clicked diamond. */
  lemma ClickOffsetReaches(diamond: int, rotation: int)
    requires 0 <= diamond < Slots
    ensures ToIndex(ToIndex(rotation) + ClickOffset(diamond, ToIndex(rotation))) == diamond
  {
    var r := ToIndex(rotation);
    var o := ClickOffset(diamond, r);
    ToIndexShift(r, o);
    var q := (o - (diamond - r)) / Slots;
    assert o - (diamond - r) == q * Slots;
    ToIndexPeriodic(diamond, q);
    assert r + o == diamond + q * Slots;
    ToIndexPeriodic(diamond, 0);
    ToIndexPeriodic(r, 0);
  }

  // ---------------------------------------------------------------------
  // The context's guarded setters and the restore slots
  // ---------------------------------------------------------------------

  /**
   * `addIndex(offset)`: ignored while locked, showing a diamond or not
   * ready; otherwise a wheel event of `-200` per slot.
   */
  function AddIndex(w: Wheel, c: Canvas, offset: int): (r: (Wheel, Canvas))
    ensures c.locked || c.active || !c.ready ==> r == (w, c)
    ensures !(c.locked || c.active || !c.ready) ==>
      && r.0.value == w.value - SlotScroll * offset as real && r.0.pending && r.0.scrolling
      && (offset > 0 ==> r.0.direction == Some(Up))
      && Reported(Some(c), Some(r.1), w.final)
  {
    if c.locked || c.active || !c.ready then (w, c)
    else
      var e := WheelEvent(w, Some(c), offset as real * SlotScroll * -1.0);
      (e.0, e.1.value)
  }

  /**
   * From a snapped carousel, `addIndex(k)` and its debounce moves the
   * reported slot `k` forward, and the snap keeps the values on the step.
   */
  lemma AddIndexMovesSlot(w: Wheel, c: Canvas, offset: int, j: int)
    requires !(c.locked || c.active || !c.ready)
    requires w.value == w.final == j as real * SlotScroll
    ensures
      var (w1, c1) := AddIndex(w, c, offset);
      var (w2, c2) := TimerFired(w1, Some(c1), w1.generation, SlotScroll);
      && w2.value == w2.final == (j - offset) as real * SlotScroll
      && Report(w2.final) == ToIndex(Report(w.final) + offset)
      && c2.Some? && c2.value.rotation == Report(w2.final)
      && !c2.value.locked && !c2.value.active && c2.value.ready
  {
    var (w1, c1) := AddIndex(w, c, offset);
    TimerOntoSlot(w1, Some(c1), j - offset);
    ReportStep(w.final, offset);
  }

  /** The live timer of a wheel that ended on a slot snaps it in place and reports that slot. */
  lemma TimerOntoSlot(w: Wheel, ctx: Option<Canvas>, k: int)
    requires w.pending && w.value == k as real * SlotScroll
    ensures
      var (w2, c2) := TimerFired(w, ctx, w.generation, SlotScroll);
      && w2.value == w2.final == k as real * SlotScroll
      && Reported(ctx, c2, w2.final)
  {
    SnapIdempotent(k, w.direction, SlotScroll);
  }

  /** `setActive(state)`: refused while locked, scrolling or snapping. */
  function SetActive(c: Canvas, w: Wheel, state: bool): (r: Canvas)
    ensures c.locked || w.scrolling || w.snapping ==> r == c
    ensures !(c.locked || w.scrolling || w.snapping) ==> r == c.(active := state)
  {
    if c.locked || w.scrolling || w.snapping then c else c.(active := state)
  }

  /** The diamond `activeDiamond` records in restore slot `i`: `toIndex(rotation + 4 - i)`, slot 4 the centre. */
  function RestoreIndex(rotation: int, i: int): (r: int)
    ensures 0 <= r < Slots
  {
    ToIndex(rotation + (if i < 4 then 4 - i else if i > 4 then 4 - i else 0))
  }

  /**
   * The nine restore slots name nine different diamonds, and the middle
   * one is the current diamond.
   */
  lemma RestoreSlotsDistinct(rotation: int, i: int, j: int)
    requires 0 <= i < j < 9
    ensures RestoreIndex(rotation, i) != RestoreIndex(rotation, j)
    ensures RestoreIndex(rotation, 4) == ToIndex(rotation)
  {
    var a, b := rotation + 4 - i, rotation + 4 - j;
    assert RestoreIndex(rotation, i) == ToIndex(a) && RestoreIndex(rotation, j) == ToIndex(b);
    var qa, qb := a / Slots, b / Slots;
    if ToIndex(a) == ToIndex(b) {
      assert a - b == (qa - qb) * Slots;
      assert 0 < j - i < Slots;
      MulBound(qa - qb, Slots);
    }
  }

  /** The restore slots of the current rotation, in slot order. */
  function RestoreSlots(rotation: int): (r: seq<int>)
    ensures |r| == 9 && r[4] == ToIndex(rotation)
    ensures forall i, j | 0 <= i < j < 9 :: r[i] != r[j]
  {
    var r := seq(9, i requires 0 <= i < 9 => RestoreIndex(rotation, i));
    forall i, j | 0 <= i < j < 9
      ensures r[i] != r[j]
    {
      RestoreSlotsDistinct(rotation, i, j);
    }
    RestoreSlotsDistinct(rotation, 0, 4);
    r
  }
}
