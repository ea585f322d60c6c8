/**
 * The tween engine: a queue of interpolation tasks advanced once per
 * rendered frame. The clock (`performance.now()`) is a `now` parameter and
 * the callbacks a task was given are emitted as events, in call order, for
 * the caller to act on. The target object `animateObject` writes into is
 * named by an `ObjId`; its state is written by the caller with
 * `ShapeTree.SetObjectValues` on each `OnUpdate` event that names it.
 */
module Tweening {
  import opened JsMath
  import opened ShapeTree
  import opened Easing

  type ObjId = nat

  /** One queued animation, the record `animate` pushes. */
  datatype Task = Task(
    id: nat,
    from: Tree,
    to: Tree,
    current: Tree,
    stamp: real,
    duration: real,
    easing: string,
    target: Option<ObjId>,
    completed: bool,
    aborted: bool)

  /** A `Tween` instance: its queue, the time of its last update, and the next task id. */
  datatype Tween = Tween(tasks: seq<Task>, stamp: real, nextId: nat)

  /** The object `animate` returns; its `abort` is `Abort` below. */
  datatype Handle = Handle(id: nat)

  /**
   * A callback invocation. `OnUpdate` carries the object `animateObject`
   * writes the data onto, if the task came from `animateObject`.
   */
  datatype Event =
    | OnStart(id: nat, data: Tree)
    | OnUpdate(id: nat, target: Option<ObjId>, data: Tree)
    | OnComplete(id: nat, data: Tree)
  {
    function Id(): nat
    {
      match this
      case OnStart(i, _) => i
      case OnUpdate(i, _, _) => i
      case OnComplete(i, _) => i
    }
  }

  /** The `options` argument of `animateObject`. `easing` is `None` when it is not a string. */
  datatype Options = Options(duration: real, easing: Option<string>)

  /** One element of the `inputs` array of `animateAllObjects`. */
  datatype Input = Input(target: ObjId, source: Tree, to: Tree)

  datatype Scheduled = Scheduled(tween: Tween, handle: Handle, events: seq<Event>)

  datatype Batch = Batch(tween: Tween, handles: seq<Handle>, events: seq<Event>, failed: Option<ShapeError>)

  /**
   * The outcome of one `update`: the new instance, the callbacks in call
   * order, and, when a task's easing name is not in the table, the position
   * in the filtered queue of the task whose easing call threw.
   */
  datatype Frame = Frame(tween: Tween, events: seq<Event>, threw: Option<nat>)

  const DefaultEasing: string := "out-sine"

  // ---------------------------------------------------------------------
  // Queue invariant
  // ---------------------------------------------------------------------

  /** `from`, `to` and `current` are mutually compatible objects and the id was handed out. */
  predicate WellFormed(t: Task, nextId: nat)
  {
    t.id < nextId && t.from.Node? && Compatible(t.from, t.to) && Compatible(t.current, t.from)
  }

  predicate UniqueIds(tasks: seq<Task>)
  {
    forall i, j | 0 <= i < j < |tasks| :: tasks[i].id != tasks[j].id
  }

  predicate Valid(tw: Tween)
  {
    UniqueIds(tw.tasks) && forall t | t in tw.tasks :: WellFormed(t, tw.nextId)
  }

  /** Every task was stamped no later than `now` (the clock is monotonic). */
  predicate StartedBy(tasks: seq<Task>, now: real)
  {
    forall t | t in tasks :: t.stamp <= now
  }

  function Ids(tasks: seq<Task>): set<nat>
  {
    set t | t in tasks :: t.id
  }

  predicate Alive(t: Task)
  {
    !t.completed && !t.aborted
  }

  /** No task with this id is still alive: it finished, was aborted, or is gone. */
  predicate Settled(tasks: seq<Task>, id: nat)
  {
    forall t | t in tasks && t.id == id :: !Alive(t)
  }

  /** The callbacks of one task, in order. */
  function ForTask(events: seq<Event>, id: nat): (r: seq<Event>)
    ensures forall e | e in r :: e in events && e.Id() == id
    ensures |r| <= |events|
  {
    if events == [] then []
    else (if events[0].Id() == id then [events[0]] else []) + ForTask(events[1..], id)
  }

  lemma {:induction false} ForTaskConcat(a: seq<Event>, b: seq<Event>, id: nat)
    ensures ForTask(a + b, id) == ForTask(a, id) + ForTask(b, id)
  {
    if a != [] {
      assert (a + b)[0] == a[0];
      assert (a + b)[1..] == a[1..] + b;
      ForTaskConcat(a[1..], b, id);
    } else {
      assert a + b == b;
    }
  }

  lemma ForTaskNone(events: seq<Event>, id: nat)
    requires forall e | e in events :: e.Id() != id
    ensures ForTask(events, id) == []
  {
  }

  /** Callbacks that all belong to one task are all of that task's callbacks. */
  lemma {:induction false} ForTaskAll(events: seq<Event>, id: nat)
    requires forall e | e in events :: e.Id() == id
    ensures ForTask(events, id) == events
  {
    if events != [] {
      assert forall e | e in events[1..] :: e in events;
      ForTaskAll(events[1..], id);
    }
  }

  function CompleteCount(events: seq<Event>, id: nat): nat
  {
    if events == [] then 0
    else (if events[0].OnComplete? && events[0].id == id then 1 else 0) + CompleteCount(events[1..], id)
  }

  // ---------------------------------------------------------------------
  // The queue filter
  // ---------------------------------------------------------------------

  /** `queue.filter(item => !item.completed && !item.aborted)`. */
  function Live(tasks: seq<Task>): (r: seq<Task>)
    ensures forall t | t in r :: t in tasks && Alive(t)
    ensures forall t | t in tasks && Alive(t) :: t in r
    ensures UniqueIds(tasks) ==> UniqueIds(r)
    ensures |r| <= |tasks|
  {
    if tasks == [] then []
    else
      var rest := Live(tasks[1..]);
      assert forall t | t in tasks[1..] :: t in tasks;
      if Alive(tasks[0]) then
        assert UniqueIds(tasks) ==> forall t | t in rest :: t.id != tasks[0].id by {
          if UniqueIds(tasks) {
            forall t | t in rest
              ensures t.id != tasks[0].id
            {
              var j :| 0 <= j < |tasks[1..]| && tasks[1..][j] == t;
              assert tasks[j + 1] == t;
            }
          }
        }
        [tasks[0]] + rest
      else rest
  }

  // ---------------------------------------------------------------------
  // Interpolation
  // ---------------------------------------------------------------------

  /** One number of the state: `from + (to - from) * frame`. */
  function Lerp(from: real, to: real, frame: real): real
  {
    from + (to - from) * frame
  }

  /**
   * The inner recursive `update`: every number of `from` becomes
   * `from + (to - from) * frame`.
   */
  function Interp(from: Tree, to: Tree, frame: real): (r: Tree)
    requires Compatible(from, to)
    ensures Compatible(r, from)
    decreases from
  {
    match from
    case Leaf(x) => Leaf(Lerp(x, to.n, frame))
    case Node(fm) =>
      var r := Node(map k | k in fm :: Interp(fm[k], to.children[k], frame));
      assert forall k | k in fm :: Compatible(r.children[k], fm[k]);
      r
  }

  /** Interpolation acts number by number, along every path of `from`. */
  lemma {:induction false} InterpLeaf(from: Tree, to: Tree, frame: real, p: seq<string>)
    requires Compatible(from, to) && IsLeafPath(from, p)
    ensures IsLeafPath(to, p)
    ensures At(Interp(from, to, frame), p) == Some(Leaf(Lerp(At(from, p).value.n, At(to, p).value.n, frame)))
    decreases p
  {
    if p != [] {
      var k, q := p[0], p[1..];
      assert from.Node? && k in from.children;
      var fc, tc := from.children[k], to.children[k];
      assert At(from, p) == At(fc, q);
      assert At(to, p) == At(tc, q);
      InterpLeaf(fc, tc, frame, q);
      var c := Interp(fc, tc, frame);
      var r := Interp(from, to, frame);
      assert r.children[k] == c;
      assert At(r, p) == At(c, q);
    } else {
      assert At(from, p) == Some(from) && At(to, p) == Some(to);
      assert At(Interp(from, to, frame), p) == Some(Interp(from, to, frame));
    }
  }

  /** At frame 0 the interpolation is `from` ... */
  lemma {:induction false} InterpStart(from: Tree, to: Tree)
    requires Compatible(from, to)
    ensures Interp(from, to, 0.0) == from
    decreases from
  {
    match from
    case Leaf(_) =>
    case Node(fm) =>
      forall k | k in fm
        ensures Interp(fm[k], to.children[k], 0.0) == fm[k]
      {
        InterpStart(fm[k], to.children[k]);
      }
  }

  /** ... and at frame 1 it is exactly `to`. */
  lemma {:induction false} InterpEnd(from: Tree, to: Tree)
    requires Compatible(from, to)
    ensures Interp(from, to, 1.0) == to
    decreases from
  {
    match from
    case Leaf(_) =>
    case Node(fm) =>
      forall k | k in fm
        ensures Interp(fm[k], to.children[k], 1.0) == to.children[k]
      {
        InterpEnd(fm[k], to.children[k]);
      }
  }

  // ---------------------------------------------------------------------
  // update
  // ---------------------------------------------------------------------

  /**
   * The easing table as `update` calls it, `easings[name](x)`: `None` when
   * the name is not a key of the table (calling `undefined` throws).
   */
  type Easer = (string, real) -> Option<real>

  /** The module's easing table, over the given transcendental functions. */
  function Eases(m: Transcendentals): (ease: Easer)
    ensures forall name, x :: ease(name, x).Some? <==> Lookup(name).Some?
  {
    (name, x) => Ease(m, name, x)
  }

  datatype Stepped = Stepped(task: Task, events: seq<Event>) | Threw

  /** The identity of a task: everything `update` never changes. */
  predicate SameTask(a: Task, b: Task)
  {
    a.id == b.id && a.from == b.from && a.to == b.to && a.stamp == b.stamp &&
    a.duration == b.duration && a.easing == b.easing && a.target == b.target &&
    a.aborted == b.aborted
  }

  /** The loop body of `update` for one task of the filtered queue. */
  function Advance(ease: Easer, t: Task, now: real): (r: Stepped)
    requires Compatible(t.from, t.to) && t.stamp <= now
    ensures r.Stepped? ==> SameTask(t, r.task)
    ensures r.Stepped? ==> forall e | e in r.events :: e.Id() == t.id
    ensures r.Stepped? && Compatible(t.current, t.from) ==> Compatible(r.task.current, t.from)
  {
    var time := now - t.stamp;
    if time < t.duration then
      match ease(t.easing, time / t.duration)
      case None => Threw
      case Some(frame) =>
        var cur := Interp(t.from, t.to, frame);
        Stepped(t.(current := cur), [OnUpdate(t.id, t.target, cur)])
    else
      Stepped(t.(completed := true), [OnUpdate(t.id, t.target, t.to), OnComplete(t.id, t.to)])
  }

  datatype Pass = Pass(tasks: seq<Task>, events: seq<Event>, threw: Option<nat>)

  /** The `for` loop of `update` over the filtered queue; it stops where an easing call throws. */
  function Process(ease: Easer, items: seq<Task>, now: real): (r: Pass)
    requires forall t | t in items :: Compatible(t.from, t.to) && t.stamp <= now
    ensures |r.tasks| == |items|
    ensures r.threw.Some? ==> r.threw.value < |items| && Advance(ease, items[r.threw.value], now).Threw?
    decreases |items|
  {
    if items == [] then Pass([], [], None)
    else
      assert forall t | t in items[1..] :: t in items;
      match Advance(ease, items[0], now)
      case Threw => Pass(items, [], Some(0))
      case Stepped(t', ev) =>
        var rest := Process(ease, items[1..], now);
        Pass([t'] + rest.tasks, ev + rest.events,
             if rest.threw.Some? then Some(rest.threw.value + 1) else None)
  }

  /** One turn of the loop that does not throw: the head task's loop body, then the rest of the queue. */
  lemma ProcessCons(ease: Easer, items: seq<Task>, now: real)
    requires forall t | t in items :: Compatible(t.from, t.to) && t.stamp <= now
    requires items != [] && Advance(ease, items[0], now).Stepped?
    ensures forall t | t in items[1..] :: Compatible(t.from, t.to) && t.stamp <= now
    ensures
      var a := Advance(ease, items[0], now);
      var rest := Process(ease, items[1..], now);
      Process(ease, items, now) ==
        Pass([a.task] + rest.tasks, a.events + rest.events,
             if rest.threw.Some? then Some(rest.threw.value + 1) else None)
  {
    assert forall t | t in items[1..] :: t in items;
  }

  /** The pass changes no task's identity. */
  lemma {:induction false} ProcessKeepsIdentity(ease: Easer, items: seq<Task>, now: real)
    requires forall t | t in items :: Compatible(t.from, t.to) && t.stamp <= now
    ensures forall i | 0 <= i < |items| :: SameTask(items[i], Process(ease, items, now).tasks[i])
    decreases |items|
  {
    if items != [] && Advance(ease, items[0], now).Stepped? {
      ProcessCons(ease, items, now);
      ProcessKeepsIdentity(ease, items[1..], now);
      var r := Process(ease, items, now);
      var rest := Process(ease, items[1..], now);
      forall i | 1 <= i < |items|
        ensures SameTask(items[i], r.tasks[i])
      {
        assert items[i] == items[1..][i - 1] && r.tasks[i] == rest.tasks[i - 1];
      }
    }
  }

  /** The pass keeps every task's state the same shape as its `from`. */
  lemma {:induction false} ProcessKeepsShape(ease: Easer, items: seq<Task>, now: real)
    requires forall t | t in items :: Compatible(t.from, t.to) && t.stamp <= now
    ensures forall i | 0 <= i < |items| && Compatible(items[i].current, items[i].from) ::
      Compatible(Process(ease, items, now).tasks[i].current, items[i].from)
    decreases |items|
  {
    if items != [] && Advance(ease, items[0], now).Stepped? {
      ProcessCons(ease, items, now);
      ProcessKeepsShape(ease, items[1..], now);
      var r := Process(ease, items, now);
      var rest := Process(ease, items[1..], now);
      forall i | 1 <= i < |items|
        ensures Compatible(items[i].current, items[i].from) ==> Compatible(r.tasks[i].current, items[i].from)
      {
        assert items[i] == items[1..][i - 1] && r.tasks[i] == rest.tasks[i - 1];
      }
    }
  }

  /** When an easing call throws, that task and the ones after it are left exactly as they were. */
  lemma {:induction false} ProcessStopsAtThrow(ease: Easer, items: seq<Task>, now: real)
    requires forall t | t in items :: Compatible(t.from, t.to) && t.stamp <= now
    ensures Process(ease, items, now).threw.Some? ==>
      Process(ease, items, now).tasks[Process(ease, items, now).threw.value..] ==
      items[Process(ease, items, now).threw.value..]
    decreases |items|
  {
    if items != [] && Advance(ease, items[0], now).Stepped? {
      ProcessCons(ease, items, now);
      ProcessStopsAtThrow(ease, items[1..], now);
      var r := Process(ease, items, now);
      var rest := Process(ease, items[1..], now);
      if rest.threw.Some? {
        var j := rest.threw.value;
        assert r.tasks[j + 1..] == rest.tasks[j..];
        assert items[j + 1..] == items[1..][j..];
      }
    }
  }

  /** Every callback of the pass belongs to a task of the queue it ran over. */
  lemma {:induction false} ProcessEventIds(ease: Easer, items: seq<Task>, now: real)
    requires forall t | t in items :: Compatible(t.from, t.to) && t.stamp <= now
    ensures forall e | e in Process(ease, items, now).events :: e.Id() in Ids(items)
    decreases |items|
  {
    if items != [] && Advance(ease, items[0], now).Stepped? {
      ProcessCons(ease, items, now);
      ProcessEventIds(ease, items[1..], now);
      assert forall t | t in items[1..] :: t in items;
    }
  }

  /**
   * `update()`: stamp the instance, drop completed and aborted tasks, then
   * advance every remaining task once.
   */
  function Update(ease: Easer, tw: Tween, now: real): (r: Frame)
    requires Valid(tw) && StartedBy(tw.tasks, now)
    ensures Valid(r.tween) && StartedBy(r.tween.tasks, now)
    ensures r.tween.stamp == now && r.tween.nextId == tw.nextId
    ensures |r.tween.tasks| == |Live(tw.tasks)|
    ensures forall i | 0 <= i < |r.tween.tasks| :: SameTask(Live(tw.tasks)[i], r.tween.tasks[i])
    ensures forall e | e in r.events :: e.Id() in Ids(Live(tw.tasks))
  {
    var live := Live(tw.tasks);
    var p := Process(ease, live, now);
    ProcessKeepsIdentity(ease, live, now);
    ProcessKeepsShape(ease, live, now);
    ProcessEventIds(ease, live, now);
    var r := Frame(Tween(p.tasks, now, tw.nextId), p.events, p.threw);
    assert UniqueIds(p.tasks) by {
      forall i, j | 0 <= i < j < |p.tasks|
        ensures p.tasks[i].id != p.tasks[j].id
      {
        assert SameTask(live[i], p.tasks[i]) && SameTask(live[j], p.tasks[j]);
      }
    }
    forall t | t in p.tasks
      ensures WellFormed(t, tw.nextId) && t.stamp <= now
    {
      var i :| 0 <= i < |p.tasks| && p.tasks[i] == t;
      assert live[i] in live;
      assert SameTask(live[i], t);
    }
    r
  }

  /** Dropping the head of a queue with distinct ids keeps them distinct, and the head's id is gone. */
  lemma UniqueTail(items: seq<Task>)
    requires UniqueIds(items) && items != []
    ensures UniqueIds(items[1..])
    ensures items[0].id !in Ids(items[1..])
  {
    forall t | t in items[1..]
      ensures t.id != items[0].id
    {
      var j :| 0 <= j < |items[1..]| && items[1..][j] == t;
      assert items[j + 1] == t;
    }
  }

  /** When the pass gets past position `i`, the loop body advanced that task. */
  lemma {:induction false} ProcessAtTask(ease: Easer, items: seq<Task>, now: real, i: nat)
    requires forall t | t in items :: Compatible(t.from, t.to) && t.stamp <= now
    requires i < |items|
    requires Process(ease, items, now).threw.None? || Process(ease, items, now).threw.value > i
    ensures Advance(ease, items[i], now).Stepped?
    ensures Process(ease, items, now).tasks[i].current == Advance(ease, items[i], now).task.current
    ensures Process(ease, items, now).tasks[i].completed == Advance(ease, items[i], now).task.completed
    decreases i
  {
    assert forall t | t in items[1..] :: t in items;
    if i > 0 {
      assert items[1..][i - 1] == items[i];
      ProcessAtTask(ease, items[1..], now, i - 1);
    }
  }

  /** The head task's callbacks are the ones its loop body emitted. */
  lemma ProcessHeadEvents(ease: Easer, items: seq<Task>, now: real)
    requires forall t | t in items :: Compatible(t.from, t.to) && t.stamp <= now
    requires UniqueIds(items) && items != [] && Advance(ease, items[0], now).Stepped?
    ensures ForTask(Process(ease, items, now).events, items[0].id) == Advance(ease, items[0], now).events
  {
    ProcessCons(ease, items, now);
    UniqueTail(items);
    var a := Advance(ease, items[0], now);
    var rest := Process(ease, items[1..], now);
    ForTaskConcat(a.events, rest.events, items[0].id);
    ForTaskAll(a.events, items[0].id);
    ProcessEventIds(ease, items[1..], now);
    ForTaskNone(rest.events, items[0].id);
  }

  /** Any other task's callbacks come from the rest of the pass. */
  lemma ProcessTailEvents(ease: Easer, items: seq<Task>, now: real, id: nat)
    requires forall t | t in items :: Compatible(t.from, t.to) && t.stamp <= now
    requires items != [] && Advance(ease, items[0], now).Stepped? && items[0].id != id
    ensures forall t | t in items[1..] :: Compatible(t.from, t.to) && t.stamp <= now
    ensures ForTask(Process(ease, items, now).events, id) == ForTask(Process(ease, items[1..], now).events, id)
  {
    ProcessCons(ease, items, now);
    var a := Advance(ease, items[0], now);
    var rest := Process(ease, items[1..], now);
    ForTaskConcat(a.events, rest.events, id);
    ForTaskNone(a.events, id);
  }

  /**
   * When the pass gets past position `i`, the callbacks with that task's id
   * are exactly the ones its loop body emitted.
   */
  lemma {:induction false} ProcessAtEvents(ease: Easer, items: seq<Task>, now: real, i: nat)
    requires forall t | t in items :: Compatible(t.from, t.to) && t.stamp <= now
    requires UniqueIds(items) && i < |items|
    requires Process(ease, items, now).threw.None? || Process(ease, items, now).threw.value > i
    ensures Advance(ease, items[i], now).Stepped?
    ensures ForTask(Process(ease, items, now).events, items[i].id) == Advance(ease, items[i], now).events
    decreases i
  {
    ProcessAtTask(ease, items, now, i);
    ProcessAtTask(ease, items, now, 0);
    if i == 0 {
      ProcessHeadEvents(ease, items, now);
    } else {
      UniqueTail(items);
      ProcessTailEvents(ease, items, now, items[i].id);
      assert items[1..][i - 1] == items[i];
      ProcessAtEvents(ease, items[1..], now, i - 1);
    }
  }

  /** A pass that throws at position `j` emits nothing for a task that is not before `j`. */
  lemma {:induction false} ProcessSilentFromThrow(ease: Easer, items: seq<Task>, now: real, id: nat)
    requires forall t | t in items :: Compatible(t.from, t.to) && t.stamp <= now
    requires Process(ease, items, now).threw.Some?
    requires forall i | 0 <= i < Process(ease, items, now).threw.value :: items[i].id != id
    ensures ForTask(Process(ease, items, now).events, id) == []
    decreases |items|
  {
    var a := Advance(ease, items[0], now);
    if a.Stepped? {
      ProcessCons(ease, items, now);
      var rest := Process(ease, items[1..], now);
      forall i | 0 <= i < rest.threw.value
        ensures items[1..][i].id != id
      {
        assert items[1..][i] == items[i + 1];
      }
      ProcessSilentFromThrow(ease, items[1..], now, id);
      ForTaskNone(a.events, id);
      ForTaskConcat(a.events, rest.events, id);
    }
  }

  /** The event stream of an `update` names only tasks that were alive when it began. */
  lemma UpdateSilentOnSettled(ease: Easer, tw: Tween, now: real, id: nat)
    requires Valid(tw) && StartedBy(tw.tasks, now)
    requires Settled(tw.tasks, id)
    ensures ForTask(Update(ease, tw, now).events, id) == []
    ensures forall t | t in Update(ease, tw, now).tween.tasks :: t.id != id
  {
    var live := Live(tw.tasks);
    var r := Update(ease, tw, now);
    assert id !in Ids(live);
    ForTaskNone(r.events, id);
    forall t | t in r.tween.tasks
      ensures t.id != id
    {
      var i :| 0 <= i < |r.tween.tasks| && r.tween.tasks[i] == t;
      assert SameTask(live[i], t) && live[i] in live;
    }
  }

  /** When the `update` gets past position `i` of the filtered queue, that task went through the loop body. */
  lemma UpdateAt(ease: Easer, tw: Tween, now: real, i: nat)
    requires Valid(tw) && StartedBy(tw.tasks, now)
    requires i < |Live(tw.tasks)|
    requires Update(ease, tw, now).threw.None? || Update(ease, tw, now).threw.value > i
    ensures
      var t := Live(tw.tasks)[i];
      var r := Update(ease, tw, now);
      && Advance(ease, t, now).Stepped?
      && r.tween.tasks[i].current == Advance(ease, t, now).task.current
      && r.tween.tasks[i].completed == Advance(ease, t, now).task.completed
      && ForTask(r.events, t.id) == Advance(ease, t, now).events
  {
    var live := Live(tw.tasks);
    assert live[i] in live;
    ProcessAtTask(ease, live, now, i);
    ProcessAtEvents(ease, live, now, i);
  }

  /**
   * While a task is running, `update` sets its state to the interpolation
   * of `from` and `to` at `easing((now - stamp) / duration)`: the ratio is
   * passed to the easing as is, never clamped. Its only callback this frame
   * is `onUpdate` with that state.
   */
  lemma UpdateInterpolates(ease: Easer, tw: Tween, now: real, i: nat)
    requires Valid(tw) && StartedBy(tw.tasks, now)
    requires i < |Live(tw.tasks)|
    requires Update(ease, tw, now).threw.None? || Update(ease, tw, now).threw.value > i
    requires now - Live(tw.tasks)[i].stamp < Live(tw.tasks)[i].duration
    ensures
      var t := Live(tw.tasks)[i];
      var r := Update(ease, tw, now);
      && Compatible(t.from, t.to)
      && !r.tween.tasks[i].completed
      && ForTask(r.events, t.id) == [OnUpdate(t.id, t.target, r.tween.tasks[i].current)]
      && match ease(t.easing, (now - t.stamp) / t.duration)
         case None => false
         case Some(frame) => r.tween.tasks[i].current == Interp(t.from, t.to, frame)
  {
    var live := Live(tw.tasks);
    assert live[i] in live;
    UpdateAt(ease, tw, now, i);
    AdvanceInterpolates(ease, live[i], now);
  }

  /** The loop body on a running task: the state interpolated at the eased ratio, and one `onUpdate`. */
  lemma AdvanceInterpolates(ease: Easer, t: Task, now: real)
    requires Compatible(t.from, t.to) && t.stamp <= now
    requires Advance(ease, t, now).Stepped? && now - t.stamp < t.duration
    ensures
      var frame := ease(t.easing, (now - t.stamp) / t.duration);
      var a := Advance(ease, t, now);
      && frame.Some?
      && a.task.completed == t.completed
      && a.task.current == Interp(t.from, t.to, frame.value)
      && a.events == [OnUpdate(t.id, t.target, a.task.current)]
  {
  }

  /**
   * Once a task's time is up, `update` marks it completed and calls
   * `onUpdate` and then `onComplete`, both with `to` exactly. The easing is
   * not consulted on this path.
   */
  lemma UpdateCompletes(ease: Easer, tw: Tween, now: real, i: nat)
    requires Valid(tw) && StartedBy(tw.tasks, now)
    requires i < |Live(tw.tasks)|
    requires Update(ease, tw, now).threw.None? || Update(ease, tw, now).threw.value > i
    requires now - Live(tw.tasks)[i].stamp >= Live(tw.tasks)[i].duration
    ensures
      var t := Live(tw.tasks)[i];
      var r := Update(ease, tw, now);
      && r.tween.tasks[i].completed
      && ForTask(r.events, t.id) == [OnUpdate(t.id, t.target, t.to), OnComplete(t.id, t.to)]
      && Settled(r.tween.tasks, t.id)
  {
    var live := Live(tw.tasks);
    assert live[i] in live;
    UpdateAt(ease, tw, now, i);
    var r := Update(ease, tw, now);
    var t := live[i];
    forall u | u in r.tween.tasks && u.id == t.id
      ensures !Alive(u)
    {
      var j :| 0 <= j < |r.tween.tasks| && r.tween.tasks[j] == u;
      assert SameTask(live[j], u);
      assert j == i;
    }
  }

  /** The loop body emits `onComplete` at most once, and only when the task's time is up. */
  lemma AdvanceCompletesOnce(ease: Easer, t: Task, now: real)
    requires Compatible(t.from, t.to) && t.stamp <= now
    requires Advance(ease, t, now).Stepped?
    ensures CompleteCount(Advance(ease, t, now).events, t.id) <= 1
    ensures CompleteCount(Advance(ease, t, now).events, t.id) == 1 ==> now - t.stamp >= t.duration
  {
    var time := now - t.stamp;
    if time < t.duration {
      var e := OnUpdate(t.id, t.target, Interp(t.from, t.to, ease(t.easing, time / t.duration).value));
      assert Advance(ease, t, now).events == [e];
      assert [e][1..] == [];
    } else {
      var ev := [OnUpdate(t.id, t.target, t.to), OnComplete(t.id, t.to)];
      assert Advance(ease, t, now).events == ev;
      assert ev[1..] == [OnComplete(t.id, t.to)];
      assert ev[1..][1..] == [];
      assert CompleteCount(ev[1..], t.id) == 1;
    }
  }

  /**
   * In one `update` a task gets at most one `onComplete`, and one that gets
   * it is settled afterwards, so the filter of every later `update` drops it.
   */
  lemma UpdateCompletesOnce(ease: Easer, tw: Tween, now: real, id: nat)
    requires Valid(tw) && StartedBy(tw.tasks, now)
    ensures CompleteCount(ForTask(Update(ease, tw, now).events, id), id) <= 1
    ensures CompleteCount(ForTask(Update(ease, tw, now).events, id), id) == 1 ==>
      Settled(Update(ease, tw, now).tween.tasks, id)
  {
    var live := Live(tw.tasks);
    var r := Update(ease, tw, now);
    if id !in Ids(live) {
      ForTaskNone(r.events, id);
    } else {
      var t :| t in live && t.id == id;
      var i :| 0 <= i < |live| && live[i] == t;
      if r.threw.Some? && r.threw.value <= i {
        UpdateSilentFromThrow(ease, tw, now, i);
      } else {
        UpdateAt(ease, tw, now, i);
        AdvanceCompletesOnce(ease, t, now);
        if now - t.stamp >= t.duration {
          UpdateCompletes(ease, tw, now, i);
        }
      }
    }
  }

  /** An `update` that throws at or before a task's position emits nothing for that task. */
  lemma UpdateSilentFromThrow(ease: Easer, tw: Tween, now: real, i: nat)
    requires Valid(tw) && StartedBy(tw.tasks, now)
    requires i < |Live(tw.tasks)|
    requires Update(ease, tw, now).threw.Some? && Update(ease, tw, now).threw.value <= i
    ensures ForTask(Update(ease, tw, now).events, Live(tw.tasks)[i].id) == []
  {
    var live := Live(tw.tasks);
    var r := Update(ease, tw, now);
    forall j | 0 <= j < r.threw.value
      ensures live[j].id != live[i].id
    {
    }
    ProcessSilentFromThrow(ease, live, now, live[i].id);
  }

  /** Counting completions of one task only needs that task's callbacks. */
  lemma {:induction false} CountViaForTask(events: seq<Event>, id: nat)
    ensures CompleteCount(events, id) == CompleteCount(ForTask(events, id), id)
  {
    if events != [] {
      CountViaForTask(events[1..], id);
      assert events == [events[0]] + events[1..];
      ForTaskConcat([events[0]], events[1..], id);
      CountConcat(ForTask([events[0]], id), ForTask(events[1..], id), id);
    }
  }

  lemma {:induction false} CountConcat(a: seq<Event>, b: seq<Event>, id: nat)
    ensures CompleteCount(a + b, id) == CompleteCount(a, id) + CompleteCount(b, id)
  {
    if a != [] {
      assert (a + b)[0] == a[0];
      assert (a + b)[1..] == a[1..] + b;
      CountConcat(a[1..], b, id);
    } else {
      assert a + b == b;
    }
  }

  // ---------------------------------------------------------------------
  // Frames in sequence
  // ---------------------------------------------------------------------

  predicate Ascending(nows: seq<real>)
  {
    forall i, j | 0 <= i < j < |nows| :: nows[i] <= nows[j]
  }

  /** The callbacks of a run of `update`s at the given frame times, with no scheduling in between. */
  function Run(ease: Easer, tw: Tween, nows: seq<real>): seq<Event>
    requires Valid(tw) && Ascending(nows)
    requires |nows| > 0 ==> StartedBy(tw.tasks, nows[0])
    decreases |nows|
  {
    if nows == [] then []
    else
      var f := Update(ease, tw, nows[0]);
      assert |nows| > 1 ==> StartedBy(f.tween.tasks, nows[1]);
      f.events + Run(ease, f.tween, nows[1..])
  }

  /** A settled task stays silent for the rest of a run. */
  lemma {:induction false} SettledStaysSilent(ease: Easer, tw: Tween, nows: seq<real>, id: nat)
    requires Valid(tw) && Ascending(nows)
    requires |nows| > 0 ==> StartedBy(tw.tasks, nows[0])
    requires Settled(tw.tasks, id)
    ensures ForTask(Run(ease, tw, nows), id) == []
    decreases |nows|
  {
    if nows != [] {
      var f := Update(ease, tw, nows[0]);
      UpdateSilentOnSettled(ease, tw, nows[0], id);
      assert |nows| > 1 ==> StartedBy(f.tween.tasks, nows[1]);
      SettledStaysSilent(ease, f.tween, nows[1..], id);
      ForTaskConcat(f.events, Run(ease, f.tween, nows[1..]), id);
    }
  }

  /** Across any run of frames, a task's `onComplete` is delivered at most once. */
  lemma {:induction false} CompleteAtMostOnce(ease: Easer, tw: Tween, nows: seq<real>, id: nat)
    requires Valid(tw) && Ascending(nows)
    requires |nows| > 0 ==> StartedBy(tw.tasks, nows[0])
    ensures CompleteCount(Run(ease, tw, nows), id) <= 1
    decreases |nows|
  {
    if nows != [] {
      var f := Update(ease, tw, nows[0]);
      assert |nows| > 1 ==> StartedBy(f.tween.tasks, nows[1]);
      var rest := Run(ease, f.tween, nows[1..]);
      CountConcat(f.events, rest, id);
      CountViaForTask(f.events, id);
      UpdateCompletesOnce(ease, tw, nows[0], id);
      if CompleteCount(f.events, id) == 1 {
        SettledStaysSilent(ease, f.tween, nows[1..], id);
        CountViaForTask(rest, id);
      } else {
        CompleteAtMostOnce(ease, f.tween, nows[1..], id);
      }
    }
  }

  // ---------------------------------------------------------------------
  // Scheduling and aborting
  // ---------------------------------------------------------------------

  /**
   * `animate(input)`: stamp the task, default a non-string easing to
   * `'out-sine'`, call `onStart` with `current` and `onUpdate` with `from`,
   * and push the task. The easing name is not checked here. Objects whose
   * shapes differ are `PathMissing` (JavaScript would go on computing with
   * `undefined`).
   */
  function Animate(tw: Tween, now: real, from: Tree, to: Tree, duration: real,
                   easing: Option<string>, target: Option<ObjId>): (r: Result<Scheduled, ShapeError>)
    ensures r.Ok? <==> from.Node? && Compatible(from, to)
    ensures r.Ok? ==>
      var id := tw.nextId;
      var s := r.value;
      && s.handle == Handle(id)
      && s.tween.nextId == id + 1
      && |s.tween.tasks| == |tw.tasks| + 1
      && s.tween.tasks[..|tw.tasks|] == tw.tasks
      && s.tween.tasks[|tw.tasks|] ==
         Task(id, from, to, from, now, duration,
              if easing.Some? then easing.value else DefaultEasing, target, false, false)
      && s.events == [OnStart(id, from), OnUpdate(id, target, from)]
    ensures r.Ok? && Valid(tw) ==> Valid(r.value.tween)
  {
    if from.Node? && Compatible(from, to) then
      CompatibleReadsSelf(from, to);
      var current := Get(from, to);
      var id := tw.nextId;
      var task := Task(id, from, to, current, now, duration,
                       if easing.Some? then easing.value else DefaultEasing, target, false, false);
      var tasks := tw.tasks + [task];
      assert Compatible(current, from) by { CompatibleSelf(from); }
      assert Valid(tw) ==> Valid(Tween(tasks, tw.stamp, id + 1)) by {
        if Valid(tw) {
          forall i, j | 0 <= i < j < |tasks|
            ensures tasks[i].id != tasks[j].id
          {
            assert tasks[i] == tw.tasks[i] && tw.tasks[i] in tw.tasks;
            if j < |tw.tasks| {
              assert tasks[j] == tw.tasks[j];
            }
          }
          forall t | t in tasks
            ensures WellFormed(t, id + 1)
          {
            if t != task {
              assert t in tw.tasks;
            }
          }
        }
      }
      Ok(Scheduled(Tween(tasks, tw.stamp, id + 1), Handle(id),
                   [OnStart(id, current), OnUpdate(id, target, from)]))
    else Err(PathMissing)
  }

  lemma {:induction false} CompatibleSelf(a: Tree)
    ensures Compatible(a, a)
    decreases a
  {
    match a
    case Leaf(_) =>
    case Node(am) =>
      forall k | k in am
        ensures Compatible(am[k], am[k])
      {
        CompatibleSelf(am[k]);
      }
  }

  /**
   * `animateObject(target, to, options)`: the task starts from the values
   * the target holds at the paths `to` names, and every `onUpdate` writes
   * its data back onto the target. The first such write, made before the
   * task is queued, leaves the target unchanged.
   */
  function AnimateObject(tw: Tween, now: real, target: ObjId, source: Tree, to: Tree,
                         options: Options): (r: Result<Scheduled, ShapeError>)
    ensures r.Ok? <==> to.Node? && Readable(source, to) && Compatible(Get(source, to), to)
    ensures r.Ok? ==> |r.value.tween.tasks| == |tw.tasks| + 1 && |r.value.events| == 2
    ensures r.Ok? ==>
      && r.value.handle == Handle(tw.nextId) && r.value.tween.nextId == tw.nextId + 1
      && r.value.tween.tasks[..|tw.tasks|] == tw.tasks
    ensures r.Ok? ==>
      var task := r.value.tween.tasks[|tw.tasks|];
      && task.to == to && task.target == Some(target)
      && task.from == Get(source, to)
      && r.value.events[1] == OnUpdate(task.id, Some(target), task.from)
      && SetObjectValues(source, task.from) == Ok(source)
    ensures r.Ok? && Valid(tw) ==> Valid(r.value.tween)
  {
    match GetObjectValues(source, to)
    case Err(e) => Err(e)
    case Ok(from) =>
      if to.Node? then
        WriteAfterRead(source, to);
        Animate(tw, now, from, to, options.duration, options.easing, Some(target))
      else Err(PathMissing)
  }

  /**
   * `animateAllObjects(inputs, options)`: one handle per input, in input
   * order. When an input's target lacks a path its `to` names, the read
   * throws before that input is queued; the inputs before it stay queued
   * and their callbacks have run, so the batch is what they scheduled,
   * with the error.
   */
  function AnimateAllObjects(tw: Tween, now: real, inputs: seq<Input>, options: Options): (r: Batch)
    ensures |r.handles| <= |inputs|
    ensures r.failed.None? <==> |r.handles| == |inputs|
    ensures
      && r.tween.nextId == tw.nextId + |r.handles|
      && |r.tween.tasks| == |tw.tasks| + |r.handles|
      && r.tween.tasks[..|tw.tasks|] == tw.tasks
    ensures forall k | 0 <= k < |r.handles| :: r.handles[k] == Handle(tw.nextId + k)
    ensures forall k | 0 <= k < |r.handles| ::
      && r.tween.tasks[|tw.tasks| + k].to == inputs[k].to
      && r.tween.tasks[|tw.tasks| + k].target == Some(inputs[k].target)
    ensures r.failed.Some? ==>
      var bad := inputs[|r.handles|];
      AnimateObject(r.tween, now, bad.target, bad.source, bad.to, options) == Err(r.failed.value)
    ensures Valid(tw) ==> Valid(r.tween)
    decreases |inputs|
  {
    if inputs == [] then Batch(tw, [], [], None)
    else
      match AnimateObject(tw, now, inputs[0].target, inputs[0].source, inputs[0].to, options)
      case Err(e) => Batch(tw, [], [], Some(e))
      case Ok(s) =>
        var b := AnimateAllObjects(s.tween, now, inputs[1..], options);
        BatchStep(tw, s, b, inputs);
        Batch(b.tween, [s.handle] + b.handles, s.events + b.events, b.failed)
  }

  /** One input scheduled in front of the rest of a batch: the facts `AnimateAllObjects` states, one step. */
  lemma BatchStep(tw: Tween, s: Scheduled, b: Batch, inputs: seq<Input>)
    requires inputs != [] && |b.handles| < |inputs|
    requires s.handle == Handle(tw.nextId) && s.tween.nextId == tw.nextId + 1
    requires |s.tween.tasks| == |tw.tasks| + 1 && s.tween.tasks[..|tw.tasks|] == tw.tasks
    requires s.tween.tasks[|tw.tasks|].to == inputs[0].to
    requires s.tween.tasks[|tw.tasks|].target == Some(inputs[0].target)
    requires b.tween.nextId == s.tween.nextId + |b.handles|
    requires |b.tween.tasks| == |s.tween.tasks| + |b.handles|
    requires b.tween.tasks[..|s.tween.tasks|] == s.tween.tasks
    requires forall k | 0 <= k < |b.handles| :: b.handles[k] == Handle(s.tween.nextId + k)
    requires forall k | 0 <= k < |b.handles| ::
      && b.tween.tasks[|s.tween.tasks| + k].to == inputs[1..][k].to
      && b.tween.tasks[|s.tween.tasks| + k].target == Some(inputs[1..][k].target)
    ensures b.tween.tasks[..|tw.tasks|] == tw.tasks
    ensures forall k | 0 <= k < |b.handles| + 1 :: ([s.handle] + b.handles)[k] == Handle(tw.nextId + k)
    ensures forall k | 0 <= k < |b.handles| + 1 ::
      && b.tween.tasks[|tw.tasks| + k].to == inputs[k].to
      && b.tween.tasks[|tw.tasks| + k].target == Some(inputs[k].target)
  {
    assert b.tween.tasks[..|tw.tasks|] == b.tween.tasks[..|s.tween.tasks|][..|tw.tasks|];
    assert b.tween.tasks[|tw.tasks|] == b.tween.tasks[..|s.tween.tasks|][|tw.tasks|];
    forall k | 1 <= k < |b.handles| + 1
      ensures b.tween.tasks[|tw.tasks| + k].to == inputs[k].to
      ensures b.tween.tasks[|tw.tasks| + k].target == Some(inputs[k].target)
    {
      assert inputs[k] == inputs[1..][k - 1];
      assert |tw.tasks| + k == |s.tween.tasks| + (k - 1);
    }
  }

  /** The handle's `abort()`: only sets the flag; the task stays queued until the next filter. */
  function Abort(tw: Tween, h: Handle): (r: Tween)
    ensures |r.tasks| == |tw.tasks| && r.stamp == tw.stamp && r.nextId == tw.nextId
    ensures Settled(r.tasks, h.id)
    ensures forall i | 0 <= i < |tw.tasks| :: SameTask(tw.tasks[i], r.tasks[i]) || tw.tasks[i].id == h.id
    ensures forall i | 0 <= i < |tw.tasks| ::
      r.tasks[i] == if tw.tasks[i].id == h.id then tw.tasks[i].(aborted := true) else tw.tasks[i]
    ensures Valid(tw) ==> Valid(r)
  {
    var tasks := seq(|tw.tasks|, i requires 0 <= i < |tw.tasks| =>
      if tw.tasks[i].id == h.id then tw.tasks[i].(aborted := true) else tw.tasks[i]);
    assert forall t | t in tasks :: exists i | 0 <= i < |tw.tasks| :: t == tasks[i];
    assert Valid(tw) ==> Valid(Tween(tasks, tw.stamp, tw.nextId)) by {
      if Valid(tw) {
        forall t | t in tasks
          ensures WellFormed(t, tw.nextId)
        {
          var i :| 0 <= i < |tw.tasks| && t == tasks[i];
          assert tw.tasks[i] in tw.tasks;
        }
      }
    }
    Tween(tasks, tw.stamp, tw.nextId)
  }

  /**
   * After `abort()`, no `update` calls the task's `onUpdate` or
   * `onComplete`, and the first one drops it from the queue.
   */
  lemma AbortSilences(ease: Easer, tw: Tween, h: Handle, nows: seq<real>)
    requires Valid(tw) && Ascending(nows)
    requires |nows| > 0 ==> StartedBy(tw.tasks, nows[0])
    ensures ForTask(Run(ease, Abort(tw, h), nows), h.id) == []
    ensures |nows| > 0 ==> forall t | t in Update(ease, Abort(tw, h), nows[0]).tween.tasks :: t.id != h.id
  {
    var a := Abort(tw, h);
    assert |nows| > 0 ==> StartedBy(a.tasks, nows[0]) by {
      if |nows| > 0 {
        forall t | t in a.tasks
          ensures t.stamp <= nows[0]
        {
          var i :| 0 <= i < |a.tasks| && a.tasks[i] == t;
          assert tw.tasks[i] in tw.tasks;
        }
      }
    }
    SettledStaysSilent(ease, a, nows, h.id);
    if |nows| > 0 {
      UpdateSilentOnSettled(ease, a, nows[0], h.id);
    }
  }

  /**
   * An easing name outside the table, and not one of the methods it
   * inherits, is accepted when the task is scheduled, whatever else is
   * queued; the first `update` on a later frame before its time is up
   * throws, at the new task or at a task queued before it.
   */
  lemma UnknownEasingThrowsAtUpdate(m: Transcendentals, tw: Tween, now: real, later: real,
                                    from: Tree, to: Tree, duration: real, name: string)
    requires Valid(tw) && StartedBy(tw.tasks, now)
    requires from.Node? && Compatible(from, to) && !IsKnown(name) && !Inherited(name)
    requires now <= later < now + duration
    ensures Animate(tw, now, from, to, duration, Some(name), None).Ok?
    ensures
      var s := Animate(tw, now, from, to, duration, Some(name), None).value;
      var r := Update(Eases(m), s.tween, later);
      && r.threw.Some?
      && r.threw.value <= |Live(tw.tasks)|
  {
    var s := Animate(tw, now, from, to, duration, Some(name), None).value;
    var n := |tw.tasks|;
    var t := s.tween.tasks[n];
    assert s.tween.tasks == tw.tasks + [t];
    LiveSnoc(tw.tasks, t);
    assert StartedBy(s.tween.tasks, later) by {
      forall u | u in s.tween.tasks
        ensures u.stamp <= later
      {
        if u != t {
          assert u in tw.tasks;
        }
      }
    }
    var live := Live(s.tween.tasks);
    var k := |Live(tw.tasks)|;
    assert live[k] == t;
    var r := Update(Eases(m), s.tween, later);
    KnownNamesEase(m, name, (later - now) / duration);
    assert Advance(Eases(m), t, later).Threw?;
    if r.threw.None? || r.threw.value > k {
      UpdateAt(Eases(m), s.tween, later, k);
      assert false;
    }
  }

  /** Filtering a queue with a live task appended keeps that task last. */
  lemma {:induction false} LiveSnoc(a: seq<Task>, t: Task)
    requires Alive(t)
    ensures Live(a + [t]) == Live(a) + [t]
    decreases |a|
  {
    if a == [] {
      assert Live([t]) == [t];
    } else {
      assert (a + [t])[1..] == a[1..] + [t];
      LiveSnoc(a[1..], t);
    }
  }
}
