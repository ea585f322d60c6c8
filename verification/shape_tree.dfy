/**
 * The nested-state codec of the tween engine: `getObjectValues` reads the
 * members a template names off an object, and `setObjectValues` writes a
 * tree's members back. JavaScript values are numbers or plain objects; a
 * read of a member that does not exist (JavaScript's `undefined`) and every
 * `TypeError` the recursion can raise are reported as `PathMissing`.
 */
module ShapeTree {
  import opened JsMath

  /** A number, or a plain object mapping member names to values. */
  datatype Tree = Leaf(n: real) | Node(children: map<string, Tree>)

  datatype ShapeError = PathMissing

  const Empty: Tree := Node(map[])

  /** The own member `k` of `o`. A number has no members. */
  function Member(o: Tree, k: string): Option<Tree>
  {
    if o.Node? && k in o.children then Some(o.children[k]) else None
  }

  /**
   * The value reached from `t` by following the member names in `p`, or
   * `None` when some step of the path does not exist.
   */
  function At(t: Tree, p: seq<string>): Option<Tree>
    decreases |p|
  {
    if p == [] then Some(t)
    else
      match Member(t, p[0])
      case None => None
      case Some(c) => At(c, p[1..])
  }

  /** `p` leads from `t` to a number. */
  predicate IsLeafPath(t: Tree, p: seq<string>)
  {
    At(t, p).Some? && At(t, p).value.Leaf?
  }

  /** A path that reaches a number ends there. */
  lemma LeafEndsPath(t: Tree, p: seq<string>)
    requires t.Leaf? && IsLeafPath(t, p)
    ensures p == []
  {
  }

  /** An object with no members holds no number. */
  lemma EmptyHasNoLeafPath(p: seq<string>)
    ensures !IsLeafPath(Empty, p)
  {
  }

  /**
   * Identical key structure at every object level, numbers opposite numbers:
   * the relation `from`, `to` and `current` keep for a task's lifetime.
   */
  predicate Compatible(a: Tree, b: Tree)
    decreases a
  {
    match a
    case Leaf(_) => b.Leaf?
    case Node(am) =>
      b.Node? && am.Keys == b.children.Keys &&
      forall k | k in am :: Compatible(am[k], b.children[k])
  }

  /**
   * The output of a read holds exactly the template's keys at every level
   * the template is an object.
   */
  predicate Covers(r: Tree, input: Tree)
    decreases input
  {
    match input
    case Leaf(_) => true
    case Node(m) =>
      r.Node? && r.children.Keys == m.Keys &&
      forall k | k in m :: Covers(r.children[k], m[k])
  }

  // ---------------------------------------------------------------------
  // getObjectValues
  // ---------------------------------------------------------------------

  /**
   * The recursive read of `input`'s keys on `o` raises no `TypeError` and
   * reads no `undefined` number. A member whose template is an object but
   * which `o` lacks only succeeds when that template has no keys.
   */
  predicate Readable(o: Tree, input: Tree)
    decreases input
  {
    match input
    case Leaf(_) => true
    case Node(m) =>
      forall k | k in m ::
        if m[k].Leaf? then Member(o, k).Some?
        else if Member(o, k).Some? then Readable(Member(o, k).value, m[k])
        else m[k] == Empty
  }

  /** The recursive `get`: one output member per template key. */
  function Get(o: Tree, input: Tree): Tree
    requires Readable(o, input)
    decreases input
  {
    match input
    case Leaf(_) => Empty
    case Node(m) =>
      Node(map k | k in m ::
        if m[k].Leaf? then Member(o, k).value
        else if Member(o, k).Some? then Get(Member(o, k).value, m[k])
        else Empty)
  }

  /** `getObjectValues(object, input)`. */
  function GetObjectValues(o: Tree, input: Tree): (r: Result<Tree, ShapeError>)
    ensures r.Ok? <==> Readable(o, input)
    ensures r.Ok? ==> Covers(r.value, input)
  {
    if Readable(o, input) then
      GetCovers(o, input);
      Ok(Get(o, input))
    else Err(PathMissing)
  }

  lemma {:induction false} GetCovers(o: Tree, input: Tree)
    requires Readable(o, input)
    ensures Covers(Get(o, input), input)
    decreases input
  {
    match input
    case Leaf(_) =>
    case Node(m) =>
      var r := Get(o, input);
      forall k | k in m
        ensures Covers(r.children[k], m[k])
      {
        if m[k].Leaf? {
        } else if Member(o, k).Some? {
          GetCovers(Member(o, k).value, m[k]);
        } else {
          assert r.children[k] == Empty == m[k];
        }
      }
  }

  /**
   * Every number the template names is copied from the object at the same
   * path.
   */
  lemma {:induction false} GetCopiesLeaves(o: Tree, input: Tree, p: seq<string>)
    requires Readable(o, input)
    requires |p| > 0 && IsLeafPath(input, p)
    ensures At(o, p).Some?
    ensures At(Get(o, input), p) == At(o, p)
    decreases input
  {
    var m := input.children;
    var k := p[0];
    assert k in m;
    assert At(input, p) == At(m[k], p[1..]);
    var r := Get(o, input);
    assert At(r, p) == At(r.children[k], p[1..]);
    if m[k].Leaf? {
      LeafEndsPath(m[k], p[1..]);
    } else if Member(o, k).Some? {
      assert At(o, p) == At(Member(o, k).value, p[1..]);
      GetCopiesLeaves(Member(o, k).value, m[k], p[1..]);
    } else {
      EmptyHasNoLeafPath(p[1..]);
    }
  }

  // ---------------------------------------------------------------------
  // setObjectValues
  // ---------------------------------------------------------------------

  /**
   * The recursive write of `input` into `o` raises no `TypeError`: numbers
   * are only assigned onto objects (module code is strict), and descending
   * into a member `o` lacks only succeeds for a template with no keys.
   */
  predicate Writable(o: Tree, input: Tree)
    decreases input
  {
    match input
    case Leaf(_) => true
    case Node(m) =>
      forall k | k in m ::
        if m[k].Leaf? then o.Node?
        else if Member(o, k).Some? then Writable(Member(o, k).value, m[k])
        else m[k] == Empty
  }

  /** The recursive `set`: `o` after every number of `input` is assigned. */
  function Put(o: Tree, input: Tree): Tree
    requires Writable(o, input)
    decreases input
  {
    match input
    case Leaf(_) => o
    case Node(m) =>
      if o.Leaf? then o
      else
        var om := o.children;
        Node(map k | k in om.Keys + m.Keys && (k in om || m[k].Leaf?) ::
          if k !in m then om[k]
          else if m[k].Leaf? then m[k]
          else Put(om[k], m[k]))
  }

  /**
   * `setObjectValues(object, input)`: the updated object, or the error the
   * recursion raises.
   */
  function SetObjectValues(o: Tree, input: Tree): (r: Result<Tree, ShapeError>)
    ensures r.Ok? <==> Writable(o, input)
    ensures r.Ok? ==> (r.value.Node? <==> o.Node?)
    ensures r.Ok? && o.Node? ==> o.children.Keys <= r.value.children.Keys
    ensures r.Ok? && o.Node? && input.Node? ==>
      forall k | k in o.children && k !in input.children ::
        k in r.value.children && r.value.children[k] == o.children[k]
    ensures r.Ok? && o.Node? && input.Node? ==>
      forall k | k in input.children && input.children[k].Leaf? ::
        k in r.value.children && r.value.children[k] == input.children[k]
  {
    if !Writable(o, input) then Err(PathMissing)
    else if o.Node? && input.Node? then
      PutFrame(o, input);
      Ok(Put(o, input))
    else Ok(Put(o, input))
  }

  lemma PutFrame(o: Tree, input: Tree)
    requires Writable(o, input) && o.Node? && input.Node?
    ensures var r := Put(o, input);
      && r.Node?
      && (forall k | k in o.children && k !in input.children :: k in r.children && r.children[k] == o.children[k])
      && (forall k | k in input.children && input.children[k].Leaf? :: k in r.children && r.children[k] == input.children[k])
  {
  }

  /** Every number of the input lands on the object at the same path. */
  lemma {:induction false} PutWritesLeaves(o: Tree, input: Tree, p: seq<string>)
    requires Writable(o, input)
    requires |p| > 0 && IsLeafPath(input, p)
    ensures At(Put(o, input), p) == At(input, p)
    decreases input
  {
    var m := input.children;
    var k := p[0];
    assert k in m;
    assert At(input, p) == At(m[k], p[1..]);
    if m[k].Leaf? {
      LeafEndsPath(m[k], p[1..]);
      assert o.Node?;
    } else if Member(o, k).Some? {
      var w := Put(o, input);
      assert Member(w, k) == Some(Put(o.children[k], m[k]));
      assert At(w, p) == At(Put(o.children[k], m[k]), p[1..]);
      PutWritesLeaves(o.children[k], m[k], p[1..]);
    } else {
      EmptyHasNoLeafPath(p[1..]);
    }
  }

  /**
   * The frame of the write at every depth: a number of the object keeps its
   * value unless the input names a number on the way to it. Writing only
   * `x` and `z` of a position keeps its `y`.
   */
  lemma {:induction false} PutKeepsOthers(o: Tree, input: Tree, p: seq<string>)
    requires Writable(o, input)
    requires At(o, p).Some? && At(o, p).value.Leaf?
    requires forall n | 0 < n <= |p| :: !IsLeafPath(input, p[..n])
    ensures At(Put(o, input), p) == At(o, p)
    decreases input
  {
    if p != [] && input.Node? {
      var m := input.children;
      var k := p[0];
      var om := o.children;
      assert At(o, p) == At(om[k], p[1..]);
      var w := Put(o, input);
      if k in m {
        assert p[..1][1..] == [];
        assert At(input, p[..1]) == At(m[k], []);
        assert m[k].Node?;
        forall n | 0 < n <= |p| - 1
          ensures !IsLeafPath(m[k], p[1..][..n])
        {
          assert p[..n + 1][0] == k && p[..n + 1][1..] == p[1..][..n];
          assert At(input, p[..n + 1]) == At(m[k], p[1..][..n]);
        }
        assert Member(w, k) == Some(Put(om[k], m[k]));
        assert At(w, p) == At(Put(om[k], m[k]), p[1..]);
        PutKeepsOthers(om[k], m[k], p[1..]);
      } else {
        assert Member(w, k) == Some(om[k]);
        assert At(w, p) == At(om[k], p[1..]);
      }
    }
  }

  /** Writing an object onto itself changes nothing. */
  lemma {:induction false} PutSelf(x: Tree)
    ensures Writable(x, x) && Put(x, x) == x
    decreases x
  {
    match x
    case Leaf(_) =>
    case Node(m) =>
      forall k | k in m && m[k].Node?
        ensures Writable(m[k], m[k]) && Put(m[k], m[k]) == m[k]
      {
        PutSelf(m[k]);
      }
      assert Writable(x, x);
      var r := Put(x, x);
      assert r.children.Keys == m.Keys;
      forall k | k in m
        ensures r.children[k] == m[k]
      {
      }
  }

  /** Round trip: reading back what was just written gives the tree written. */
  lemma {:induction false} ReadAfterWrite(o: Tree, t: Tree)
    requires t.Node? && Writable(o, t)
    ensures Readable(Put(o, t), t)
    ensures Get(Put(o, t), t) == t
    decreases t
  {
    var m := t.children;
    var w := Put(o, t);
    forall k | k in m && m[k].Node? && Member(o, k).Some?
      ensures Readable(Put(Member(o, k).value, m[k]), m[k])
      ensures Get(Put(Member(o, k).value, m[k]), m[k]) == m[k]
    {
      ReadAfterWrite(Member(o, k).value, m[k]);
    }
    forall k | k in m
      ensures
        if m[k].Leaf? then Member(w, k).Some?
        else if Member(w, k).Some? then Readable(Member(w, k).value, m[k])
        else m[k] == Empty
    {
      if o.Node? && m[k].Node? && k in o.children {
        assert Member(w, k) == Some(Put(o.children[k], m[k]));
      }
    }
    assert Readable(w, t);
    var g := Get(w, t);
    forall k | k in m
      ensures g.children[k] == m[k]
    {
      if o.Node? && m[k].Node? && k in o.children {
        assert Member(w, k) == Some(Put(o.children[k], m[k]));
      }
    }
  }

  /** Round trip: writing back what was just read leaves the object unchanged. */
  lemma {:induction false} WriteAfterRead(o: Tree, t: Tree)
    requires t.Node? && Readable(o, t)
    ensures Writable(o, Get(o, t))
    ensures Put(o, Get(o, t)) == o
    decreases t
  {
    var m := t.children;
    var g := Get(o, t);
    var gm := g.children;
    forall k | k in m && m[k].Node? && Member(o, k).Some?
      ensures Writable(Member(o, k).value, Get(Member(o, k).value, m[k]))
      ensures Put(Member(o, k).value, Get(Member(o, k).value, m[k])) == Member(o, k).value
    {
      WriteAfterRead(Member(o, k).value, m[k]);
    }
    forall k | k in m && m[k].Leaf? && Member(o, k).value.Node?
      ensures Writable(Member(o, k).value, Member(o, k).value)
      ensures Put(Member(o, k).value, Member(o, k).value) == Member(o, k).value
    {
      PutSelf(Member(o, k).value);
    }
    forall k | k in gm
      ensures
        if gm[k].Leaf? then o.Node?
        else if Member(o, k).Some? then Writable(Member(o, k).value, gm[k])
        else gm[k] == Empty
    {
    }
    assert Writable(o, g);
    if o.Node? {
      var r := Put(o, g);
      var om := o.children;
      assert r.children.Keys == om.Keys;
      forall k | k in om
        ensures r.children[k] == om[k]
      {
      }
    }
  }

  /**
   * Reading a tree's own shape off a compatible tree returns that tree: the
   * `current` state a new task starts from is its `from` state.
   */
  lemma {:induction false} CompatibleReadsSelf(a: Tree, b: Tree)
    requires Compatible(a, b) && b.Node?
    ensures Readable(a, b) && Get(a, b) == a
    decreases a
  {
    var am := a.children;
    var bm := b.children;
    forall k | k in bm && bm[k].Node?
      ensures Readable(am[k], bm[k]) && Get(am[k], bm[k]) == am[k]
    {
      CompatibleReadsSelf(am[k], bm[k]);
    }
    assert Readable(a, b);
    var g := Get(a, b);
    forall k | k in am
      ensures g.children[k] == am[k]
    {
    }
  }

  lemma {:induction false} CompatibleSymmetric(a: Tree, b: Tree)
    requires Compatible(a, b)
    ensures Compatible(b, a)
    decreases a
  {
    match a
    case Leaf(_) =>
    case Node(am) =>
      forall k | k in b.children
        ensures Compatible(b.children[k], am[k])
      {
        CompatibleSymmetric(am[k], b.children[k]);
      }
  }

  lemma {:induction false} CompatibleTransitive(a: Tree, b: Tree, c: Tree)
    requires Compatible(a, b) && Compatible(b, c)
    ensures Compatible(a, c)
    decreases a
  {
    match a
    case Leaf(_) =>
    case Node(am) =>
      forall k | k in am
        ensures Compatible(am[k], c.children[k])
      {
        CompatibleTransitive(am[k], b.children[k], c.children[k]);
      }
  }
}
