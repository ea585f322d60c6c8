/**
 * The geometry of the 18-diamond carousel: the slot index wrap, the points
 * of the ellipse the diamonds ride on, and the scale and tilt a diamond
 * takes from its horizontal position. `cos`, `sin` and `π` come from the
 * `Transcendentals` record and stay uninterpreted.
 */
module Layout {
  import opened JsMath
  import opened Easing

  /** The number of diamonds on the ellipse. */
  const Slots: int := 18

  /** `toIndex`: the slot of a diamond index, for any integer index. */
  function ToIndex(i: int): (r: int)
    ensures 0 <= r < Slots
    ensures (r - i) % Slots == 0
  {
    WrapCongruent(i, Slots);
    WrapIndex(i, Slots)
  }

  /** The wrap is the residue: it differs from `i` by a whole number of turns. */
  lemma WrapCongruent(i: int, n: int)
    requires n > 0
    ensures (WrapIndex(i, n) - i) % n == 0
  {
    var q := i / n;
    assert WrapIndex(i, n) - i == (-q) * n;
    DivModUnique((-q) * n, -q, 0, n);
  }

  /** A slot index is its own slot, and a whole turn changes nothing. */
  lemma {:induction false} ToIndexPeriodic(i: int, k: int)
    ensures 0 <= i < Slots ==> ToIndex(i) == i
    ensures ToIndex(i + k * Slots) == ToIndex(i)
  {
    var q, r := i / Slots, i % Slots;
    assert i == q * Slots + r;
    assert i + k * Slots == (q + k) * Slots + r;
    DivModUnique(i + k * Slots, q + k, r, Slots);
    if 0 <= i < Slots {
      DivModUnique(i, 0, i, Slots);
    }
  }

  // ---------------------------------------------------------------------
  // The ellipse
  // ---------------------------------------------------------------------

  /** `setup.ellipse`: the two diameters and the centre. */
  datatype Ellipse = Ellipse(major: real, minor: real, cx: real, cy: real)

  datatype Point = Point(x: real, z: real)

  /** The angle of diamond `i` of `n` for a rotation in degrees: `i * 2π/n + π/180 * (rotation + 10)`. */
  function Angle(m: Transcendentals, n: nat, i: int, rotation: real): real
    requires n > 0
  {
    (i as real) * ((2.0 * m.pi) / (n as real)) + (m.pi / 180.0) * (rotation + 10.0)
  }

  /** The point of diamond `i`: x from the centre's x and the major half-axis, z from the centre's y and the minor one. */
  function PointAt(m: Transcendentals, e: Ellipse, n: nat, i: int, rotation: real): Point
    requires n > 0
  {
    OnEllipse(m, e, Angle(m, n, i, rotation))
  }

  /** The point of the ellipse at an angle. */
  function OnEllipse(m: Transcendentals, e: Ellipse, angle: real): Point
  {
    Point(e.cx + (e.major / 2.0) * m.cos(angle), e.cy + (e.minor / 2.0) * m.sin(angle))
  }

  /** `getEllipsePoints(rotation)`: one point per diamond, in diamond order. */
  method EllipsePoints(m: Transcendentals, e: Ellipse, n: nat, rotation: real) returns (points: seq<Point>)
    ensures |points| == n
    ensures forall i | 0 <= i < n :: points[i] == PointAt(m, e, n, i, rotation)
  {
    points := [];
    var i := 0;
    while i < n
      invariant 0 <= i <= n && |points| == i
      invariant forall j | 0 <= j < i :: points[j] == PointAt(m, e, n, j, rotation)
    {
      points := points + [PointAt(m, e, n, i, rotation)];
      i := i + 1;
    }
  }

  /**
   * Turning the ellipse by `360/n` degrees moves every diamond onto the
   * angle of the next one: the layout has one slot per `360/n` degrees.
   */
  lemma AngleShift(m: Transcendentals, n: nat, i: int, rotation: real)
    requires n > 0
    ensures Angle(m, n, i, rotation + 360.0 / (n as real)) == Angle(m, n, i + 1, rotation)
  {
    var nr := n as real;
    var k := 360.0 / nr;
    assert k * nr == 360.0;
    var step := (2.0 * m.pi) / nr;
    assert step * nr == 2.0 * m.pi;
    assert (m.pi / 180.0) * k * nr == 2.0 * m.pi;
    MulCancel((m.pi / 180.0) * k, step, nr);
    assert (m.pi / 180.0) * (rotation + k + 10.0) == (m.pi / 180.0) * (rotation + 10.0) + (m.pi / 180.0) * k;
    assert ((i + 1) as real) * step == (i as real) * step + step;
  }

  lemma MulCancel(a: real, b: real, c: real)
    requires c != 0.0 && a * c == b * c
    ensures a == b
  {
    assert (a - b) * c == 0.0;
  }

  /**
   * The carousel turns the ellipse by a tenth of the scroll value: one
   * wheel step of 200 is 20 degrees, exactly one of the 18 slots.
   */
  lemma ScrollStepIsOneSlot(m: Transcendentals, e: Ellipse, scroll: real, i: int)
    ensures PointAt(m, e, 18, i, (scroll + 200.0) * 0.1) == PointAt(m, e, 18, i + 1, scroll * 0.1)
  {
    var rotation := scroll * 0.1;
    var turned := (scroll + 200.0) * 0.1;
    assert 360.0 / (18 as real) == 20.0;
    assert turned == rotation + 360.0 / (18 as real);
    AngleShift(m, 18, i, rotation);
    SameAngleSamePoint(m, e, 18, i, turned, i + 1, rotation);
  }

  /** Two diamonds at the same angle sit at the same point of the ellipse. */
  lemma SameAngleSamePoint(m: Transcendentals, e: Ellipse, n: nat, i: int, r1: real, j: int, r2: real)
    requires n > 0 && Angle(m, n, i, r1) == Angle(m, n, j, r2)
    ensures PointAt(m, e, n, i, r1) == PointAt(m, e, n, j, r2)
  {
  }

  // ---------------------------------------------------------------------
  // Clamped linear interpolation
  // ---------------------------------------------------------------------

  /** `Math.max(0, Math.min(factor, 1))`. */
  function Clamp01(f: real): (r: real)
    ensures 0.0 <= r <= 1.0
    ensures 0.0 <= f <= 1.0 ==> r == f
    ensures f <= 0.0 ==> r == 0.0
    ensures f >= 1.0 ==> r == 1.0
  {
    var low := if f < 1.0 then f else 1.0;
    if 0.0 < low then low else 0.0
  }

  /** The fractional position `factor * (n - 1)` of a clamped factor lies on the sample range. */
  function Position(n: nat, factor: real): (x: real)
    requires n > 0
    ensures 0.0 <= x <= (n - 1) as real
  {
    var f := Clamp01(factor);
    MulUnit(f, (n - 1) as real);
    f * ((n - 1) as real)
  }

  lemma MulUnit(f: real, b: real)
    requires 0.0 <= f <= 1.0 && 0.0 <= b
    ensures 0.0 <= f * b <= b
  {
    assert b - f * b == (1.0 - f) * b;
  }

  /**
   * The sample range read at fractional position `x`: the two samples
   * around it, blended by the fractional part.
   */
  function Blend(a: seq<real>, x: real): real
    requires |a| > 0 && 0.0 <= x <= (|a| - 1) as real
  {
    var lo, hi := Floor(x), Ceil(x);
    Mix(a[lo], a[hi], x - lo as real)
  }

  /** `(1 - t) * u + t * v`: the point a share `t` of the way from `u` to `v`. */
  function Mix(u: real, v: real, t: real): real
  {
    (1.0 - t) * u + t * v
  }

  /** At a whole position the blend is the sample there. */
  lemma BlendAt(a: seq<real>, k: nat)
    requires k < |a|
    ensures Blend(a, k as real) == a[k]
  {
    assert Floor(k as real) == k;
    assert Ceil(k as real) == k;
  }

  /**
   * `interpolate(array, factor)`: the sample range is read at the clamped
   * factor, blending the two samples around it. An empty array has no
   * samples and the result is `NaN` (`None`).
   */
  function Interpolate(a: seq<real>, factor: real): (r: Option<real>)
    ensures r.Some? <==> |a| > 0
  {
    if |a| == 0 then None else Some(Blend(a, Position(|a|, factor)))
  }

  /** At or below factor 0 the first sample; at or above 1 the last. */
  lemma InterpolateEnds(a: seq<real>, factor: real)
    requires |a| > 0
    ensures factor <= 0.0 ==> Interpolate(a, factor) == Some(a[0])
    ensures factor >= 1.0 ==> Interpolate(a, factor) == Some(a[|a| - 1])
  {
    if factor <= 0.0 {
      assert Position(|a|, factor) == 0 as real;
      BlendAt(a, 0);
    } else if factor >= 1.0 {
      assert Position(|a|, factor) == (|a| - 1) as real;
      BlendAt(a, |a| - 1);
    }
  }

  /** The factor `k/(n-1)` lands exactly on sample `k`. */
  lemma InterpolateSample(a: seq<real>, k: nat)
    requires 1 < |a| && k < |a|
    ensures Interpolate(a, (k as real) / ((|a| - 1) as real)) == Some(a[k])
  {
    var d := (|a| - 1) as real;
    var f := (k as real) / d;
    DivUnit(k as real, d);
    assert f * d == k as real;
    assert Position(|a|, f) == k as real;
    BlendAt(a, k);
  }

  /** A share of a positive whole lies in `[0, 1]`. */
  lemma DivUnit(p: real, d: real)
    requires 0.0 <= p <= d && d > 0.0
    ensures 0.0 <= p / d <= 1.0
  {
    DivMono(0.0, p, d);
    DivMono(p, d, d);
  }

  lemma DivMono(p: real, q: real, d: real)
    requires p <= q && d > 0.0
    ensures p / d <= q / d
  {
    var u, v := p / d, q / d;
    assert u * d == p && v * d == q;
  }

  /** The smallest and largest samples. */
  function Min(a: seq<real>): (r: real)
    requires |a| > 0
    ensures forall i | 0 <= i < |a| :: r <= a[i]
  {
    if |a| == 1 then a[0]
    else
      var rest := Min(a[1..]);
      assert forall i | 1 <= i < |a| :: a[i] == a[1..][i - 1];
      if a[0] < rest then a[0] else rest
  }

  function Max(a: seq<real>): (r: real)
    requires |a| > 0
    ensures forall i | 0 <= i < |a| :: a[i] <= r
  {
    if |a| == 1 then a[0]
    else
      var rest := Max(a[1..]);
      assert forall i | 1 <= i < |a| :: a[i] == a[1..][i - 1];
      if a[0] > rest then a[0] else rest
  }

  /** Interpolation never leaves the range of the samples. */
  lemma InterpolateInRange(a: seq<real>, factor: real)
    requires |a| > 0
    ensures Min(a) <= Interpolate(a, factor).value <= Max(a)
  {
    var x := Position(|a|, factor);
    assert Interpolate(a, factor) == Some(Blend(a, x));
    BlendInRange(a, x);
  }

  lemma BlendInRange(a: seq<real>, x: real)
    requires |a| > 0 && 0.0 <= x <= (|a| - 1) as real
    ensures Min(a) <= Blend(a, x) <= Max(a)
  {
    var lo, hi := Floor(x), Ceil(x);
    var t := x - lo as real;
    var mn, mx := Min(a), Max(a);
    assert mn <= a[lo] <= mx && mn <= a[hi] <= mx;
    Convex(a[lo], a[hi], t, mn, mx);
  }

  lemma Convex(u: real, v: real, t: real, lo: real, hi: real)
    requires 0.0 <= t <= 1.0 && lo <= u <= hi && lo <= v <= hi
    ensures lo <= Mix(u, v, t) <= hi
  {
    MixAbove(u, v, t, lo);
    MixAbove(-u, -v, t, -hi);
    assert Mix(-u, -v, t) == -Mix(u, v, t);
  }

  lemma MixAbove(u: real, v: real, t: real, lo: real)
    requires 0.0 <= t <= 1.0 && lo <= u && lo <= v
    ensures lo <= Mix(u, v, t)
  {
    var c := 1.0 - t;
    MulMono(c, lo, u);
    MulMono(t, lo, v);
    assert c * lo <= c * u;
    assert t * lo <= t * v;
    assert c * lo + t * lo == lo;
    assert c * lo + t * lo <= c * u + t * v;
    assert Mix(u, v, t) == c * u + t * v;
  }

  lemma MulMono(c: real, x: real, y: real)
    requires 0.0 <= c && x <= y
    ensures c * x <= c * y
  {
    assert c * y - c * x == c * (y - x);
  }

  // ---------------------------------------------------------------------
  // Scale and tilt from the horizontal position
  // ---------------------------------------------------------------------

  /** `getScale`: shrinks linearly away from the centre line, never below 0.06. */
  function Scale(x: real): (r: real)
    ensures r >= 0.06
  {
    var s := (12.8 - Abs(x)) * 0.03;
    if s < 0.06 then 0.06 else s
  }

  /** The scale only depends on the distance from the centre line, and never grows with it. */
  lemma ScaleSymmetricMonotone(x: real, y: real)
    ensures Scale(x) == Scale(-x)
    ensures Abs(x) <= Abs(y) ==> Scale(y) <= Scale(x)
    ensures Abs(x) <= 10.8 ==> Scale(x) == (12.8 - Abs(x)) * 0.03
  {
    assert Abs(-x) == Abs(x);
  }

  /** The lock points of the tilt table: the horizontal positions of the nine front slots. */
  const Locks: seq<real> := [
    -14.579712418677017,
    -12.557368354874356,
    -9.320420340454818,
    -4.959292078222206,
    0.0,
    4.959292078222206,
    9.320420340454818,
    12.557368354874356,
    14.579712418677017
  ]

  /** The lock points rise strictly and mirror around the middle one. */
  lemma LocksShape()
    ensures |Locks| == 9
    ensures forall i, j | 0 <= i < j < 9 :: Locks[i] < Locks[j]
    ensures forall i | 0 <= i < 9 :: Locks[8 - i] == -Locks[i]
  {
  }

  /** Bracket `i` holds `x`: the predicate `findIndex` searches with. */
  predicate InBracket(x: real, i: int)
  {
    0 < i < |Locks| && Locks[i - 1] <= x <= Locks[i]
  }

  /** `locks.findIndex(...)` from position `i` on: the first bracket holding `x`, or -1. */
  function FindBracketFrom(x: real, i: nat): (r: int)
    requires i <= |Locks|
    ensures r == -1 || (i <= r < |Locks| && InBracket(x, r))
    ensures r == -1 <==> forall j | i <= j < |Locks| :: !InBracket(x, j)
    ensures r != -1 ==> forall j | i <= j < r :: !InBracket(x, j)
    decreases |Locks| - i
  {
    if i == |Locks| then -1
    else if InBracket(x, i) then i
    else FindBracketFrom(x, i + 1)
  }

  function FindBracket(x: real): (r: int)
    ensures r == -1 || InBracket(x, r)
    ensures r != -1 ==> forall j | 0 <= j < r :: !InBracket(x, j)
  {
    FindBracketFrom(x, 0)
  }

  /** A position is bracketed exactly when it lies between the outer lock points. */
  lemma FindBracketInside(x: real)
    ensures FindBracket(x) != -1 <==> Locks[0] <= x <= Locks[8]
  {
    LocksShape();
    if Locks[0] <= x <= Locks[8] {
      var i := 1;
      while i < 8 && Locks[i] < x
        invariant 1 <= i <= 8
        invariant Locks[i - 1] <= x
      {
        i := i + 1;
      }
      assert InBracket(x, i);
    }
  }

  /** The progress of bracket `i` at `x`: `i/9 + (x - locks[i-1]) / gap / 9 - 0.03`. */
  function BracketFactor(i: int, x: real): real
    requires 0 < i < |Locks|
  {
    var piece := 1.0 / 9.0;
    var a := Locks[i - 1];
    var b := Locks[i];
    LocksShape();
    piece * (i as real) + piece * ((x - a) / (b - a)) - 0.03
  }

  /**
   * The factor `getRotation` interpolates with. Outside the table
   * `locks[-1]` is `undefined`, the arithmetic is `NaN`, and `pre || ...`
   * falls back to 0 on the left and 1 on the right; inside, a factor of
   * exactly 0 would fall back the same way.
   */
  function RotationFactor(x: real): real
  {
    var index := FindBracket(x);
    var fallback := if x < 0.0 then 0.0 else 1.0;
    if index == -1 then fallback
    else
      var pre := BracketFactor(index, x);
      if pre != 0.0 then pre else fallback
  }

  /** The share of the gap a bracketed position has covered: between 0 and 1. */
  lemma BracketShare(i: int, x: real)
    requires InBracket(x, i)
    ensures 0.0 <= (x - Locks[i - 1]) / (Locks[i] - Locks[i - 1]) <= 1.0
    ensures BracketFactor(i, x) == (i as real) / 9.0 + (x - Locks[i - 1]) / (Locks[i] - Locks[i - 1]) / 9.0 - 0.03
  {
    LocksShape();
    DivUnit(x - Locks[i - 1], Locks[i] - Locks[i - 1]);
  }

  /** Inside the table the `|| fallback` never fires: the bracket formula is at least 1/9 - 0.03. */
  lemma BracketFactorRange(i: int, x: real)
    requires InBracket(x, i)
    ensures 1.0 / 9.0 - 0.03 <= BracketFactor(i, x) <= (i as real + 1.0) / 9.0 - 0.03
    ensures (i as real) / 9.0 - 0.03 <= BracketFactor(i, x)
  {
    BracketShare(i, x);
  }

  /** Within one bracket the formula rises with the position. */
  lemma BracketFactorMonotone(i: int, x: real, y: real)
    requires InBracket(x, i) && InBracket(y, i) && x <= y
    ensures BracketFactor(i, x) <= BracketFactor(i, y)
  {
    BracketShare(i, x);
    BracketShare(i, y);
    DivMono(x - Locks[i - 1], y - Locks[i - 1], Locks[i] - Locks[i - 1]);
  }

  /** Left of the table the factor is 0, right of it 1; inside it is the first bracket's formula. */
  lemma RotationFactorCases(x: real)
    ensures x < Locks[0] ==> RotationFactor(x) == 0.0
    ensures x > Locks[8] ==> RotationFactor(x) == 1.0
    ensures Locks[0] <= x <= Locks[8] ==>
      FindBracket(x) != -1 && RotationFactor(x) == BracketFactor(FindBracket(x), x)
  {
    FindBracketInside(x);
    LocksShape();
    if FindBracket(x) != -1 {
      BracketFactorRange(FindBracket(x), x);
    }
  }

  /**
   * At a lock point two brackets meet; the first one is taken, and both
   * formulas agree there, so the factor has no jump.
   */
  lemma RotationFactorContinuous(i: int)
    requires 1 <= i < 8
    ensures FindBracket(Locks[i]) == i
    ensures BracketFactor(i, Locks[i]) == BracketFactor(i + 1, Locks[i])
  {
    LocksShape();
    var x := Locks[i];
    forall j | 0 <= j < i
      ensures !InBracket(x, j)
    {
    }
    FindSkip(x, 0, i);
    BracketShare(i, x);
    BracketShare(i + 1, x);
    var gap := Locks[i] - Locks[i - 1];
    assert (x - Locks[i - 1]) / gap == 1.0;
    assert (x - Locks[i]) / (Locks[i + 1] - Locks[i]) == 0.0;
  }

  lemma {:induction false} FindSkip(x: real, i: nat, k: nat)
    requires i <= k <= |Locks|
    requires forall j | i <= j < k :: !InBracket(x, j)
    ensures FindBracketFrom(x, i) == FindBracketFrom(x, k)
    decreases k - i
  {
    if i < k {
      FindSkip(x, i + 1, k);
    }
  }

  /** Where the first bracket of a position lies relative to another: never right of a position further right. */
  lemma BracketOrder(x: real, y: real)
    requires x < y && FindBracket(x) != -1 && FindBracket(y) != -1
    ensures FindBracket(x) <= FindBracket(y)
  {
    LocksShape();
    var i, j := FindBracket(x), FindBracket(y);
  }

  /** Moving right never lowers the tilt factor, across brackets and outside the table. */
  lemma RotationFactorMonotone(x: real, y: real)
    requires x <= y
    ensures RotationFactor(x) <= RotationFactor(y)
  {
    if x < y {
      RotationFactorCases(x);
      RotationFactorCases(y);
      var i, j := FindBracket(x), FindBracket(y);
      if i != -1 {
        BracketFactorRange(i, x);
      }
      if j != -1 {
        BracketFactorRange(j, y);
      }
      if i != -1 && j != -1 {
        BracketOrder(x, y);
        if i == j {
          BracketFactorMonotone(i, x, y);
        }
      }
    }
  }

  /** A tilt: the three rotation angles. */
  datatype Rotation = Rotation(x: real, y: real, z: real)

  /**
   * `getRotation(point)`: each angle interpolated over its sample column
   * of the movable points at the position's factor.
   */
  function GetRotation(rotX: seq<real>, rotY: seq<real>, rotZ: seq<real>, x: real): (r: Option<Rotation>)
    ensures r.Some? <==> |rotX| > 0 && |rotY| > 0 && |rotZ| > 0
  {
    var f := RotationFactor(x);
    match (Interpolate(rotX, f), Interpolate(rotY, f), Interpolate(rotZ, f))
    case (Some(rx), Some(ry), Some(rz)) => Some(Rotation(rx, ry, rz))
    case _ => None
  }

  /** Left of the table a diamond takes the first sample of each column, right of it the last. */
  lemma GetRotationOutside(rotX: seq<real>, rotY: seq<real>, rotZ: seq<real>, x: real)
    requires |rotX| > 0 && |rotY| > 0 && |rotZ| > 0
    ensures x < Locks[0] ==> GetRotation(rotX, rotY, rotZ, x) == Some(Rotation(rotX[0], rotY[0], rotZ[0]))
    ensures x > Locks[8] ==>
      GetRotation(rotX, rotY, rotZ, x) == Some(Rotation(rotX[|rotX| - 1], rotY[|rotY| - 1], rotZ[|rotZ| - 1]))
  {
    RotationFactorCases(x);
    var f := RotationFactor(x);
    InterpolateEnds(rotX, f);
    InterpolateEnds(rotY, f);
    InterpolateEnds(rotZ, f);
  }
}
