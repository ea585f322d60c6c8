/**
 * The pointer dispatcher: a click or a mouse move is mapped to normalised
 * device coordinates and ray-cast; the first object hit (abstracted as
 * `Option<Obj>`) decides between a click, a focus change and a blur. The
 * dispatcher remembers the focused object in `current`.
 */
module Pointer {
  import opened JsMath

  /** A ray-cast target, identified by its `uuid`. */
  datatype Obj = Obj(uuid: nat)

  /** The listened event types; any other type is `Other`. */
  datatype Kind = Click | MouseMove | Other

  /** The callbacks the dispatcher invokes. */
  datatype Signal = Clicked(obj: Obj) | Focused(obj: Obj) | Blurred(obj: Obj)

  datatype Point2 = Point2(x: real, y: real)

  /** `mouse`: page coordinates to `[-1, 1]`, x to the right and y upwards. */
  function Ndc(pageX: real, pageY: real, width: real, height: real): Point2
    requires width > 0.0 && height > 0.0
  {
    Point2((pageX / width) * 2.0 - 1.0, -(pageY / height) * 2.0 + 1.0)
  }

  /** A share of a positive whole: between 0 and 1 exactly when the part is between 0 and the whole. */
  lemma Share(p: real, d: real)
    requires d > 0.0
    ensures 0.0 <= p <= d ==> 0.0 <= p / d <= 1.0
    ensures p == 0.0 ==> p / d == 0.0
    ensures p == d ==> p / d == 1.0
  {
    var u := p / d;
    assert u * d == p;
    if 0.0 <= p <= d {
      if u < 0.0 {
        assert false;
      }
    }
  }

  /**
   * A point inside the window maps into `[-1, 1]` on both axes; the left
   * edge is x = -1, the right edge x = 1, the top edge y = 1 and the
   * bottom edge y = -1.
   */
  lemma NdcRange(pageX: real, pageY: real, width: real, height: real)
    requires width > 0.0 && height > 0.0
    ensures 0.0 <= pageX <= width ==> -1.0 <= Ndc(pageX, pageY, width, height).x <= 1.0
    ensures 0.0 <= pageY <= height ==> -1.0 <= Ndc(pageX, pageY, width, height).y <= 1.0
    ensures pageX == 0.0 ==> Ndc(pageX, pageY, width, height).x == -1.0
    ensures pageX == width ==> Ndc(pageX, pageY, width, height).x == 1.0
    ensures pageY == 0.0 ==> Ndc(pageX, pageY, width, height).y == 1.0
    ensures pageY == height ==> Ndc(pageX, pageY, width, height).y == -1.0
  {
    Share(pageX, width);
    Share(pageY, height);
  }

  /** The outcome of one event: the new focused object and the callbacks, in order. */
  datatype Step = Step(current: Option<Obj>, signals: seq<Signal>)

  /** `trigger`: one pointer event with the ray-cast result `hit`. */
  function Trigger(current: Option<Obj>, kind: Kind, hit: Option<Obj>): (r: Step)
    ensures hit.Some? && kind == Click ==> r == Step(current, [Clicked(hit.value)])
    ensures hit.Some? && kind == MouseMove && current.None? ==> r == Step(hit, [Focused(hit.value)])
    ensures hit.Some? && kind == MouseMove && current.Some? && current.value.uuid != hit.value.uuid ==>
      r == Step(hit, [Blurred(current.value), Focused(hit.value)])
    ensures hit.Some? && kind == MouseMove && current.Some? && current.value.uuid == hit.value.uuid ==>
      r == Step(current, [])
    ensures hit.Some? && kind == Other ==> r == Step(current, [])
    ensures hit.None? && current.Some? ==> r == Step(None, [Blurred(current.value)])
    ensures hit.None? && current.None? ==> r == Step(None, [])
  {
    match hit
    case Some(o) =>
      if kind == Click then Step(current, [Clicked(o)])
      else if kind == MouseMove && current.None? then Step(Some(o), [Focused(o)])
      else if kind == MouseMove && current.Some? then
        if current.value.uuid != o.uuid then Step(Some(o), [Blurred(current.value), Focused(o)])
        else Step(current, [])
      else Step(current, [])
    case None =>
      if current.Some? then Step(None, [Blurred(current.value)]) else Step(None, [])
  }

  /** The focus and blur callbacks of a trace, clicks left out. */
  function Hover(s: seq<Signal>): (r: seq<Signal>)
    ensures forall i | 0 <= i < |r| :: !r[i].Clicked?
    ensures |r| <= |s|
  {
    if s == [] then []
    else (if s[0].Clicked? then [] else [s[0]]) + Hover(s[1..])
  }

  lemma {:induction false} HoverConcat(a: seq<Signal>, b: seq<Signal>)
    ensures Hover(a + b) == Hover(a) + Hover(b)
    decreases |a|
  {
    if a == [] {
      assert a + b == b;
    } else {
      assert (a + b)[0] == a[0] && (a + b)[1..] == a[1..] + b;
      HoverConcat(a[1..], b);
    }
  }

  /** The number of focus callbacks and of blur callbacks in a trace. */
  function Focuses(s: seq<Signal>): nat
  {
    if s == [] then 0 else Focuses(s[..|s| - 1]) + (if s[|s| - 1].Focused? then 1 else 0)
  }

  function Blurs(s: seq<Signal>): nat
  {
    if s == [] then 0 else Blurs(s[..|s| - 1]) + (if s[|s| - 1].Blurred? then 1 else 0)
  }

  /**
   * The hover trace alternates focus and blur, starting with a focus;
   * every blur is for the object focused just before; the dispatcher
   * holds a focused object exactly when focuses outnumber blurs by one,
   * and then it is the last one focused.
   */
  predicate Tracks(current: Option<Obj>, h: seq<Signal>)
  {
    && (forall i | 0 <= i < |h| :: h[i].Focused? <==> i % 2 == 0)
    && (forall i | 0 <= i < |h| :: !h[i].Clicked?)
    && (forall i | 0 < i < |h| && h[i].Blurred? :: h[i].obj == h[i - 1].obj)
    && (current.Some? <==> |h| % 2 == 1)
    && (current.Some? ==> h[|h| - 1] == Focused(current.value))
    && Focuses(h) == Blurs(h) + (if current.Some? then 1 else 0)
  }

  /** Appending one callback to a trace counts it once. */
  lemma CountAppend(h: seq<Signal>, x: Signal)
    ensures Focuses(h + [x]) == Focuses(h) + (if x.Focused? then 1 else 0)
    ensures Blurs(h + [x]) == Blurs(h) + (if x.Blurred? then 1 else 0)
  {
    assert (h + [x])[..|h|] == h;
  }

  /** Every event keeps the dispatcher's focus in step with its hover trace. */
  lemma TriggerTracks(current: Option<Obj>, h: seq<Signal>, kind: Kind, hit: Option<Obj>)
    requires Tracks(current, h)
    ensures var r := Trigger(current, kind, hit); Tracks(r.current, h + Hover(r.signals))
  {
    var r := Trigger(current, kind, hit);
    if hit.Some? && kind == MouseMove && current.None? {
      assert Hover(r.signals) == [Focused(hit.value)];
      TracksFocus(h, hit.value);
    } else if hit.Some? && kind == MouseMove && current.Some? && current.value.uuid != hit.value.uuid {
      assert Hover(r.signals) == [Blurred(current.value), Focused(hit.value)];
      var h1 := h + [Blurred(current.value)];
      TracksBlur(h, current.value);
      TracksFocus(h1, hit.value);
      assert h + Hover(r.signals) == h1 + [Focused(hit.value)];
    } else if hit.None? && current.Some? {
      assert Hover(r.signals) == [Blurred(current.value)];
      TracksBlur(h, current.value);
    } else {
      assert Hover(r.signals) == [] by {
        assert r.signals == [] || (r.signals == [Clicked(hit.value)]);
      }
      assert h + Hover(r.signals) == h;
    }
  }

  /** Focusing an object while none is focused keeps the trace in step. */
  lemma TracksFocus(h: seq<Signal>, o: Obj)
    requires Tracks(None, h)
    ensures Tracks(Some(o), h + [Focused(o)])
  {
    CountAppend(h, Focused(o));
    var h1 := h + [Focused(o)];
    assert forall i | 0 <= i < |h| :: h1[i] == h[i];
  }

  /** Blurring the focused object keeps the trace in step. */
  lemma TracksBlur(h: seq<Signal>, c: Obj)
    requires Tracks(Some(c), h)
    ensures Tracks(None, h + [Blurred(c)])
  {
    CountAppend(h, Blurred(c));
    var h1 := h + [Blurred(c)];
    assert forall i | 0 <= i < |h| :: h1[i] == h[i];
  }

  /** A sequence of events from the start, with no object focused. */
  function Run(events: seq<(Kind, Option<Obj>)>): (r: Step)
  {
    if events == [] then Step(None, [])
    else
      var before := Run(events[..|events| - 1]);
      var e := events[|events| - 1];
      var r := Trigger(before.current, e.0, e.1);
      Step(r.current, before.signals + r.signals)
  }

  /** From the start, focus and blur callbacks alternate whatever the events, and the focus is tracked. */
  lemma {:induction false} RunAlternates(events: seq<(Kind, Option<Obj>)>)
    ensures Tracks(Run(events).current, Hover(Run(events).signals))
    decreases |events|
  {
    if events != [] {
      var prefix := events[..|events| - 1];
      var before := Run(prefix);
      RunAlternates(prefix);
      var e := events[|events| - 1];
      var r := Trigger(before.current, e.0, e.1);
      TriggerTracks(before.current, Hover(before.signals), e.0, e.1);
      HoverConcat(before.signals, r.signals);
    }
  }
}
