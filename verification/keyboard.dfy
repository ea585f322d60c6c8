/**
 * The application's keyboard handler. Arrow and page keys move the
 * carousel one slot, space opens the diamond at the front and escape closes
 * it; nothing happens while the carousel is locked or not yet ready.
 */
module Keyboard {
  import opened JsMath
  import Scroll
  import Layout

  /** What one keyboard event asks of the carousel context. */
  datatype Action = NoAction | AddIndex(offset: int) | SetActive(state: bool)

  /** `onEvent(event)`, read against the context's `locked`, `isReady` and `active`. */
  function OnEvent(c: Scroll.Canvas, kind: string, key: string): (r: Action)
    ensures c.locked || !c.ready || kind != "keydown" ==> r == NoAction
  {
    if c.locked || !c.ready then NoAction
    else if kind != "keydown" then NoAction
    else if key == "ArrowLeft" || key == "PageUp" then AddIndex(1)
    else if key == "ArrowRight" || key == "PageDown" then AddIndex(-1)
    else if key == " " && !c.active then SetActive(true)
    else if key == "Escape" && c.active then SetActive(false)
    else NoAction
  }

  /** The keys the handler knows. */
  predicate IsBound(key: string)
  {
    key in {"ArrowLeft", "PageUp", "ArrowRight", "PageDown", " ", "Escape"}
  }

  /**
   * On a ready, unlocked carousel a key down moves it forward for
   * ArrowLeft and PageUp and back for ArrowRight and PageDown; space
   * activates exactly when nothing is active and escape deactivates
   * exactly when something is; every other key is ignored.
   */
  lemma KeyDispatch(c: Scroll.Canvas, key: string)
    requires !c.locked && c.ready
    ensures key == "ArrowLeft" || key == "PageUp" <==> OnEvent(c, "keydown", key) == AddIndex(1)
    ensures key == "ArrowRight" || key == "PageDown" <==> OnEvent(c, "keydown", key) == AddIndex(-1)
    ensures OnEvent(c, "keydown", key) == SetActive(true) <==> key == " " && !c.active
    ensures OnEvent(c, "keydown", key) == SetActive(false) <==> key == "Escape" && c.active
    ensures !IsBound(key) ==> OnEvent(c, "keydown", key) == NoAction
  {
  }

  /** The context's method an action calls, with that method's own guard. */
  function Perform(c: Scroll.Canvas, w: Scroll.Wheel, a: Action): (r: (Scroll.Canvas, Scroll.Wheel))
    ensures a.NoAction? ==> r == (c, w)
    ensures a.AddIndex? ==>
      r.0.locked == c.locked && r.0.active == c.active && r.0.ready == c.ready
    ensures a.SetActive? ==> r.1 == w
  {
    match a
    case NoAction => (c, w)
    case AddIndex(offset) =>
      var (w1, c1) := Scroll.AddIndex(w, c, offset);
      (c1, w1)
    case SetActive(state) => (Scroll.SetActive(c, w, state), w)
  }

  /** Space opens the front diamond of a settled carousel, and escape then closes it again. */
  lemma SpaceThenEscape(c: Scroll.Canvas, w: Scroll.Wheel)
    requires !c.locked && c.ready && !c.active && !w.scrolling && !w.snapping
    ensures var (c1, w1) := Perform(c, w, OnEvent(c, "keydown", " "));
      && c1.active && w1 == w
      && Perform(c1, w1, OnEvent(c1, "keydown", "Escape")) == (c, w)
  {
  }

  /** A key down, and then the snap timer it started, if it started one. */
  function KeyThenTimer(c: Scroll.Canvas, w: Scroll.Wheel, key: string): (r: (Scroll.Canvas, Scroll.Wheel))
  {
    var (c1, w1) := Perform(c, w, OnEvent(c, "keydown", key));
    var (w2, c2) := Scroll.TimerFired(w1, Some(c1), w1.generation, Scroll.SlotScroll);
    (c2.value, w2)
  }

  /**
   * ArrowLeft moves a settled carousel to the next content slot once its
   * snap timer fires, and ArrowRight then brings it back to the slot it
   * started from.
   */
  lemma ArrowsCancel(c: Scroll.Canvas, w: Scroll.Wheel, j: int)
    requires !c.locked && c.ready && !c.active
    requires w.value == w.final == j as real * Scroll.SlotScroll
    ensures
      var (c2, w2) := KeyThenTimer(c, w, "ArrowLeft");
      var (c4, w4) := KeyThenTimer(c2, w2, "ArrowRight");
      && c2.rotation == Layout.ToIndex(Scroll.Report(w.final) + 1)
      && c4.rotation == Scroll.Report(w.final)
  {
    var r := Scroll.Report(w.final);
    var (c2, w2) := KeyThenTimer(c, w, "ArrowLeft");
    assert
      && c2.rotation == Layout.ToIndex(r + 1) && Scroll.Report(w2.final) == c2.rotation
      && !c2.locked && c2.ready && !c2.active
      && w2.value == w2.final == (j - 1) as real * Scroll.SlotScroll
    by {
      ArrowSnaps(c, w, "ArrowLeft", 1, j);
    }
    var (c4, w4) := KeyThenTimer(c2, w2, "ArrowRight");
    assert c4.rotation == Layout.ToIndex(c2.rotation - 1) by {
      ArrowSnaps(c2, w2, "ArrowRight", -1, j - 1);
    }
    StepBack(r);
  }

  /** A key that moves a settled carousel, and then its snap timer: the carousel lands `offset` slots on and reports it. */
  lemma ArrowSnaps(c: Scroll.Canvas, w: Scroll.Wheel, key: string, offset: int, j: int)
    requires !c.locked && c.ready && !c.active
    requires OnEvent(c, "keydown", key) == AddIndex(offset)
    requires w.value == w.final == j as real * Scroll.SlotScroll
    ensures
      var (c2, w2) := KeyThenTimer(c, w, key);
      && w2.value == w2.final == (j - offset) as real * Scroll.SlotScroll
      && c2.rotation == Layout.ToIndex(Scroll.Report(w.final) + offset)
      && Scroll.Report(w2.final) == c2.rotation
      && !c2.locked && c2.ready && !c2.active
  {
    Scroll.AddIndexMovesSlot(w, c, offset, j);
  }

  /** A slot moved one forward and then one back is where it was. */
  lemma StepBack(r: int)
    requires 0 <= r < Layout.Slots
    ensures Layout.ToIndex(Layout.ToIndex(r + 1) - 1) == r
  {
    Layout.ToIndexPeriodic(r, 0);
    if r + 1 < Layout.Slots {
      Layout.ToIndexPeriodic(r + 1, 0);
    } else {
      Layout.ToIndexPeriodic(0, 1);
      Layout.ToIndexPeriodic(-1, 1);
      Layout.ToIndexPeriodic(Layout.Slots - 1, 0);
    }
  }
}
