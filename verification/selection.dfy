/**
 * The earlier nine-diamond carousel. There is no scrolling: the context
 * holds a content index in `[0, 9)`, and diamond `i` moves to the stored
 * point `toIndex(index + i)`. Shift 0 is the front point, and the diamond
 * there opens when the item is activated.
 */
module Selection {
  import opened JsMath

  /** The number of diamonds. */
  const Count: int := 9

  /** `toIndex` of the nine-diamond carousel: the residue modulo 9. */
  function ToIndex(i: int): (r: int)
    ensures 0 <= r < Count
    ensures (r - i) % Count == 0
  {
    Congruent(i);
    WrapIndex(i, Count)
  }

  lemma Congruent(i: int)
    ensures (WrapIndex(i, Count) - i) % Count == 0
  {
    var q := i / Count;
    assert WrapIndex(i, Count) - i == (-q) * Count;
    DivModUnique((-q) * Count, -q, 0, Count);
  }

  /** Two integers with the same residue differ by a whole number of turns, and conversely. */
  lemma SameResidue(a: int, b: int)
    ensures ToIndex(a) == ToIndex(b) <==> (a - b) % Count == 0
  {
    var qa, qb := a / Count, b / Count;
    assert a == qa * Count + ToIndex(a) && b == qb * Count + ToIndex(b);
    if ToIndex(a) == ToIndex(b) {
      DivModUnique(a - b, qa - qb, 0, Count);
    } else {
      var d := ToIndex(a) - ToIndex(b);
      if d > 0 {
        DivModUnique(a - b, qa - qb, d, Count);
      } else {
        DivModUnique(a - b, qa - qb - 1, d + Count, Count);
      }
    }
  }

  /** The context of `useCanvas`. */
  datatype Ui = Ui(index: int, active: bool, ready: bool, locked: bool)

  const InitialUi: Ui := Ui(0, false, false, false)

  /** `setIndex(i)`: ignored while locked or active; otherwise the residue of `i`. */
  function SetIndex(u: Ui, i: int): (r: Ui)
    ensures u.locked || u.active ==> r == u
    ensures !(u.locked || u.active) ==> r == u.(index := ToIndex(i))
  {
    if u.locked || u.active then u else u.(index := ToIndex(i))
  }

  /** `addIndex(offset)`: ignored while locked or active; otherwise moves the index by `offset`, wrapping. */
  function AddIndex(u: Ui, offset: int): (r: Ui)
    ensures u.locked || u.active ==> r == u
    ensures !(u.locked || u.active) ==> r == u.(index := ToIndex(u.index + offset))
  {
    if u.locked || u.active then u else u.(index := ToIndex(u.index + offset))
  }

  /** `setActive(state)`: ignored while locked. */
  function SetActive(u: Ui, state: bool): (r: Ui)
    ensures u.locked ==> r == u
    ensures !u.locked ==> r == u.(active := state)
  {
    if u.locked then u else u.(active := state)
  }

  /** Two index moves make one move by their sum, and a whole turn returns to the start. */
  lemma AddIndexComposes(u: Ui, a: int, b: int)
    requires 0 <= u.index < Count
    ensures AddIndex(AddIndex(u, a), b) == AddIndex(u, a + b)
    ensures AddIndex(u, Count) == u
  {
    if !(u.locked || u.active) {
      var i := ToIndex(u.index + a);
      SameResidue(i + b, u.index + a + b);
      SameResidue(u.index + Count, u.index);
      SameResidue(u.index, u.index);
      DivModUnique(u.index, 0, u.index, Count);
    }
  }

  /** The stored point diamond `i` moves to: `toIndex(index + i)`. */
  function Shift(index: int, i: int): (r: int)
    ensures 0 <= r < Count
  {
    ToIndex(index + i)
  }

  /** Shifting by the index is a permutation of the nine points: one-to-one, and every point is reached. */
  lemma ShiftPermutes(index: int, i: int, j: int, s: int)
    requires 0 <= i < Count && 0 <= j < Count && 0 <= s < Count
    ensures Shift(index, i) == Shift(index, j) ==> i == j
    ensures 0 <= ToIndex(s - index) < Count && Shift(index, ToIndex(s - index)) == s
  {
    ShiftInjective(index, i, j);
    ShiftOnto(index, s);
  }

  lemma ShiftInjective(index: int, i: int, j: int)
    requires 0 <= i < Count && 0 <= j < Count
    ensures Shift(index, i) == Shift(index, j) ==> i == j
  {
    if Shift(index, i) == Shift(index, j) {
      SameResidue(index + i, index + j);
      assert (i - j) % Count == 0;
      SmallMultiple(i - j);
    }
  }

  lemma ShiftOnto(index: int, s: int)
    requires 0 <= s < Count
    ensures 0 <= ToIndex(s - index) < Count && Shift(index, ToIndex(s - index)) == s
  {
    var k := ToIndex(s - index);
    SameResidue(index + k, s);
    DivModUnique(s, 0, s, Count);
  }

  /** The only multiple of nine strictly between -9 and 9 is 0. */
  lemma SmallMultiple(d: int)
    requires -Count < d < Count && d % Count == 0
    ensures d == 0
  {
    if d > 0 {
      DivModUnique(d, 0, d, Count);
    } else if d < 0 {
      DivModUnique(d, -1, d + Count, Count);
    }
  }

  /** The order `onFloat` starts the diamonds in, `toIndex(i - 4)`, is a permutation too. */
  lemma FloatOrderPermutes(i: int, j: int)
    requires 0 <= i < Count && 0 <= j < Count
    ensures ToIndex(i - 4) == ToIndex(j - 4) ==> i == j
  {
    ShiftPermutes(-4, i, j, 0);
  }

  /** The diamond `onClick` compares with the index: `toIndex(9 - diamond)`. */
  function ClickedIndex(diamond: int): (r: int)
    ensures 0 <= r < Count
  {
    ToIndex(Count - diamond)
  }

  /**
   * `onClick` on diamond `diamond`: when it is at the current index it
   * opens, otherwise the index moves to it. The context's setters apply
   * their own guards.
   */
  function OnClick(u: Ui, diamond: int): (r: Ui)
    ensures ClickedIndex(diamond) == u.index ==> r == SetActive(u, true)
    ensures ClickedIndex(diamond) != u.index ==> r == SetIndex(u, Count - diamond)
  {
    if ClickedIndex(diamond) == u.index then SetActive(u, true) else SetIndex(u, Count - diamond)
  }

  /** The clicked diamond matches the index exactly when the index puts it at the front point. */
  lemma ClickedIsFront(index: int, diamond: int)
    requires 0 <= index < Count
    ensures ClickedIndex(diamond) == index <==> Shift(index, diamond) == 0
  {
    SameResidue(Count - diamond, index);
    SameResidue(index + diamond, 0);
    DivModUnique(index, 0, index, Count);
    DivModUnique(0, 0, 0, Count);
    var a := index + diamond;
    var q := a / Count;
    if a % Count == 0 {
      DivModUnique(Count - a, 1 - q, 0, Count);
    }
    if (Count - a) % Count == 0 {
      var p := (Count - a) / Count;
      DivModUnique(a, 1 - p, 0, Count);
    }
  }

  /**
   * A click opens the diamond standing at the front point (shift 0) and
   * no other; any other click brings the clicked diamond to the front.
   */
  lemma ClickOpensFront(u: Ui, diamond: int)
    requires 0 <= u.index < Count && !u.locked && !u.active
    ensures OnClick(u, diamond).active <==> Shift(u.index, diamond) == 0
    ensures !OnClick(u, diamond).active ==> Shift(OnClick(u, diamond).index, diamond) == 0
  {
    ClickedIsFront(u.index, diamond);
    var j := ClickedIndex(diamond);
    ClickedIsFront(j, diamond);
  }

  /** A movement of one diamond in `activeDiamond`: to point `slot` of the selected or the movable set. */
  datatype Move = Move(diamond: int, slot: int, selected: bool)

  /**
   * `activeDiamond`'s loop: diamond `toIndex(9 - index)` is the front
   * one (its pieces animate instead); every other diamond moves to its
   * shifted point of the selected set when activating, of the movable set
   * when deactivating.
   */
  method ActiveMoves(index: int, active: bool) returns (front: int, moves: seq<Move>)
    requires 0 <= index < Count
    ensures front == ToIndex(Count - index) && Shift(index, front) == 0
    ensures |moves| == Count - 1
    ensures forall k | 0 <= k < |moves| :: moves[k].diamond == (if k < front then k else k + 1)
    ensures forall k | 0 <= k < |moves| ::
      moves[k].slot == Shift(index, moves[k].diamond) && moves[k].slot != 0 && moves[k].selected == active
  {
    front := ToIndex(Count - index);
    FrontIsShiftZero(index);
    moves := [];
    var i := 0;
    while i < Count
      invariant 0 <= i <= Count
      invariant |moves| == if i <= front then i else i - 1
      invariant forall k | 0 <= k < |moves| :: moves[k].diamond == (if k < front then k else k + 1)
      invariant forall k | 0 <= k < |moves| ::
        moves[k].slot == Shift(index, moves[k].diamond) && moves[k].slot != 0 && moves[k].selected == active
    {
      if i != front {
        ShiftPermutes(index, i, front, 0);
        moves := moves + [Move(i, Shift(index, i), active)];
      }
      i := i + 1;
    }
  }

  /** The diamond `toIndex(9 - index)` is the one at shift 0. */
  lemma FrontIsShiftZero(index: int)
    ensures Shift(index, ToIndex(Count - index)) == 0
  {
    var o := ToIndex(Count - index);
    SameResidue(index + o, 0);
    SameResidue(o, Count - index);
    SameResidue(0, 0);
  }

  /** The guard of `activeDiamond`: a context that is ready; the context is then locked. */
  function ActiveGuard(u: Option<Ui>): (r: Option<Ui>)
    ensures r.Some? <==> u.Some? && u.value.ready
    ensures r.Some? ==> r.value == u.value.(locked := true)
  {
    if u.None? || !u.value.ready then None else Some(u.value.(locked := true))
  }

  /** The guard of `selectDiamond`: a ready context that is neither active nor locked. */
  predicate SelectAllowed(u: Option<Ui>)
  {
    u.Some? && u.value.ready && !u.value.active && !u.value.locked
  }

  /** `selectDiamond`: every diamond moves to its shifted point of the movable set. */
  function SelectTargets(u: Option<Ui>): (r: Option<seq<int>>)
    ensures r.Some? <==> SelectAllowed(u)
    ensures r.Some? ==> |r.value| == Count && forall i | 0 <= i < Count :: r.value[i] == Shift(u.value.index, i)
  {
    if !SelectAllowed(u) then None
    else Some(seq(Count, i requires 0 <= i < Count => Shift(u.value.index, i)))
  }

  /** The visibility test of the selection animation: hidden behind the back wall, between the side walls. */
  predicate Visible(x: real, z: real)
  {
    !(z < -34.0 && (x < 38.0 && x > -38.0))
  }

  /** Visibility is mirror-symmetric, and a visible diamond stays visible as it comes forward. */
  lemma VisibleShape(x: real, z: real, z2: real)
    ensures Visible(x, z) == Visible(-x, z)
    ensures Visible(x, z) && z <= z2 ==> Visible(x, z2)
    ensures !Visible(x, z) <==> z < -34.0 && -38.0 < x < 38.0
  {
  }
}
