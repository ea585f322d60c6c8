/**
 * The named easing curves of the tween engine. Each maps normalised time to
 * progress. The sine, exponential and circular curves go through `sin`,
 * `cos`, `sqrt` and `2^x`, which enter as a `Transcendentals` parameter and
 * stay uninterpreted; the polynomial and "back" curves are exact rational
 * polynomials over `real`.
 */
module Easing {
  import opened JsMath

  /** `Math.sin`, `Math.cos`, `Math.sqrt`, `x => Math.pow(2, x)` and `Math.PI`. */
  datatype Transcendentals = Transcendentals(
    sin: real -> real,
    cos: real -> real,
    sqrt: real -> real,
    exp2: real -> real,
    pi: real)

  /** The entries of the easing table. */
  datatype Curve =
    | InSine | OutSine | InOutSine
    | InQuad | OutQuad | InOutQuad
    | InCubic | OutCubic | InOutCubic
    | InQuart | OutQuart | InOutQuart
    | InQuint | OutQuint | InOutQuint
    | InExpo | OutExpo | InOutExpo
    | InCirc | OutCirc | InOutCirc
    | InBack | OutBack | InOutBack

  /** The overshoot constants of the "back" curves. */
  const C1: real := 1.70158
  const C3: real := 2.70158
  const C2: real := 2.5949095

  /** The key under which a curve is stored in the table. */
  function Name(c: Curve): string
  {
    match c
    case InSine => "in-sine"
    case OutSine => "out-sine"
    case InOutSine => "in-out-sine"
    case InQuad => "in-quad"
    case OutQuad => "out-quad"
    case InOutQuad => "in-out-quad"
    case InCubic => "in-cubic"
    case OutCubic => "out-cubic"
    case InOutCubic => "in-out-cubic"
    case InQuart => "in-quart"
    case OutQuart => "out-quart"
    case InOutQuart => "in-out-quart"
    case InQuint => "in-quint"
    case OutQuint => "out-quint"
    case InOutQuint => "in-out-quint"
    case InExpo => "in-expo"
    case OutExpo => "out-expo"
    case InOutExpo => "in-out-expo"
    case InCirc => "in-circ"
    case OutCirc => "out-circ"
    case InOutCirc => "in-out-circ"
    case InBack => "in-back"
    case OutBack => "out-back"
    case InOutBack => "in-out-back"
  }

  /** The table lookup `easings[name]`; a missing key is `None` (JavaScript's `undefined`). */
  function Lookup(name: string): Option<Curve>
  {
    match name
    case "in-sine" => Some(InSine)
    case "out-sine" => Some(OutSine)
    case "in-out-sine" => Some(InOutSine)
    case "in-quad" => Some(InQuad)
    case "out-quad" => Some(OutQuad)
    case "in-out-quad" => Some(InOutQuad)
    case "in-cubic" => Some(InCubic)
    case "out-cubic" => Some(OutCubic)
    case "in-out-cubic" => Some(InOutCubic)
    case "in-quart" => Some(InQuart)
    case "out-quart" => Some(OutQuart)
    case "in-out-quart" => Some(InOutQuart)
    case "in-quint" => Some(InQuint)
    case "out-quint" => Some(OutQuint)
    case "in-out-quint" => Some(InOutQuint)
    case "in-expo" => Some(InExpo)
    case "out-expo" => Some(OutExpo)
    case "in-out-expo" => Some(InOutExpo)
    case "in-circ" => Some(InCirc)
    case "out-circ" => Some(OutCirc)
    case "in-out-circ" => Some(InOutCirc)
    case "in-back" => Some(InBack)
    case "out-back" => Some(OutBack)
    case "in-out-back" => Some(InOutBack)
    case _ => None
  }

  /** Every curve is found under its own name: the table has no two curves under one key. */
  lemma LookupName(c: Curve)
    ensures Lookup(Name(c)) == Some(c)
  {
  }

  /** A name the table finds is the key of the curve found: the lookup and `Name` are inverse. */
  lemma NameLookup(name: string)
    requires Lookup(name).Some?
    ensures Name(Lookup(name).value) == name
  {
  }

  /** The curve formulas, as the table defines them. */
  function Apply(m: Transcendentals, c: Curve, x: real): real
  {
    match c
    case InSine => 1.0 - m.cos((x * m.pi) / 2.0)
    case OutSine => m.sin((x * m.pi) / 2.0)
    case InOutSine => -(m.cos(m.pi * x) - 1.0) / 2.0
    case InQuad => x * x
    case OutQuad => 1.0 - (1.0 - x) * (1.0 - x)
    case InOutQuad => if x < 0.5 then 2.0 * x * x else 1.0 - Pow(-2.0 * x + 2.0, 2) / 2.0
    case InCubic => x * x * x
    case OutCubic => 1.0 - Pow(1.0 - x, 3)
    case InOutCubic => if x < 0.5 then 4.0 * x * x * x else 1.0 - Pow(-2.0 * x + 2.0, 3) / 2.0
    case InQuart => x * x * x * x
    case OutQuart => 1.0 - Pow(1.0 - x, 4)
    case InOutQuart => if x < 0.5 then 8.0 * x * x * x * x else 1.0 - Pow(-2.0 * x + 2.0, 4) / 2.0
    case InQuint => x * x * x * x * x
    case OutQuint => 1.0 - Pow(1.0 - x, 5)
    case InOutQuint => if x < 0.5 then 16.0 * x * x * x * x * x else 1.0 - Pow(-2.0 * x + 2.0, 5) / 2.0
    case InExpo => if x == 0.0 then 0.0 else m.exp2(10.0 * x - 10.0)
    case OutExpo => if x == 1.0 then 1.0 else 1.0 - m.exp2(-10.0 * x)
    case InOutExpo =>
      if x == 0.0 then 0.0
      else if x == 1.0 then 1.0
      else if x < 0.5 then m.exp2(20.0 * x - 10.0) / 2.0
      else (2.0 - m.exp2(-20.0 * x + 10.0)) / 2.0
    case InCirc => 1.0 - m.sqrt(1.0 - Pow(x, 2))
    case OutCirc => m.sqrt(1.0 - Pow(x - 1.0, 2))
    case InOutCirc =>
      if x < 0.5 then (1.0 - m.sqrt(1.0 - Pow(2.0 * x, 2))) / 2.0
      else (m.sqrt(1.0 - Pow(-2.0 * x + 2.0, 2)) + 1.0) / 2.0
    case InBack => C3 * x * x * x - C1 * x * x
    case OutBack => 1.0 + C3 * Pow(x - 1.0, 3) + C1 * Pow(x - 1.0, 2)
    case InOutBack =>
      if x < 0.5 then (Pow(2.0 * x, 2) * ((C2 + 1.0) * 2.0 * x - C2)) / 2.0
      else (Pow(2.0 * x - 2.0, 2) * ((C2 + 1.0) * (x * 2.0 - 2.0) + C2) + 2.0) / 2.0
  }

  /**
   * `easings[name](x)`: the value of the named curve, or `None` when the
   * name is not in the table (calling `undefined` throws).
   */
  function Ease(m: Transcendentals, name: string, x: real): (r: Option<real>)
    ensures r.Some? <==> Lookup(name).Some?
  {
    match Lookup(name)
    case None => None
    case Some(c) => Some(Apply(m, c, x))
  }

  /** The curves that are exact rational polynomials. */
  predicate IsPolynomial(c: Curve)
  {
    !(c.InSine? || c.OutSine? || c.InOutSine? || c.InExpo? || c.OutExpo? || c.InOutExpo? ||
      c.InCirc? || c.OutCirc? || c.InOutCirc?)
  }

  /** The names the table defines. */
  predicate IsKnown(name: string)
  {
    exists c: Curve :: Name(c) == name
  }

  /**
   * The methods the table inherits from `Object.prototype` that can be
   * called with one number without throwing: `easings[name]` finds them
   * too. `constructor` gives back a `Number` wrapper, the three property
   * tests give `false` and the rest a string, an object or `undefined`.
   * The model's table leaves them out.
   */
  predicate Inherited(name: string)
  {
    name in {"constructor", "hasOwnProperty", "isPrototypeOf", "propertyIsEnumerable",
             "toString", "toLocaleString", "valueOf", "__lookupGetter__", "__lookupSetter__"}
  }

  /** Exactly the table's names have a curve, whatever `x` is. */
  lemma KnownNamesEase(m: Transcendentals, name: string, x: real)
    ensures Ease(m, name, x).Some? <==> IsKnown(name)
  {
    if IsKnown(name) {
      var c: Curve :| Name(c) == name;
      LookupName(c);
    }
    if Lookup(name).Some? {
      NameLookup(name);
    }
  }

  /** Every polynomial and "back" curve starts at 0 and ends at 1. */
  lemma PolynomialEndpoints(m: Transcendentals, c: Curve)
    requires IsPolynomial(c)
    ensures Apply(m, c, 0.0) == 0.0
    ensures Apply(m, c, 1.0) == 1.0
  {
    assert Pow(0.0, 2) == 0.0 && Pow(-1.0, 2) == 1.0 && Pow(2.0, 2) == 4.0 && Pow(-2.0, 2) == 4.0;
    assert Pow(1.0, 3) == 1.0 && Pow(-1.0, 3) == -1.0 && Pow(0.0, 3) == 0.0 && Pow(2.0, 3) == 8.0;
    assert Pow(1.0, 4) == 1.0 && Pow(0.0, 4) == 0.0 && Pow(2.0, 4) == 16.0;
    assert Pow(1.0, 5) == 1.0 && Pow(0.0, 5) == 0.0 && Pow(2.0, 5) == 32.0;
  }

  /**
   * Each polynomial in-out curve is continuous where it switches formula:
   * the formula used below 0.5, evaluated at 0.5, equals the curve's value
   * there, which the upper formula gives. Both halves meet at 0.5.
   */
  lemma InOutMeetAtHalf(m: Transcendentals)
    ensures Apply(m, InOutQuad, 0.5) == 2.0 * 0.5 * 0.5 == 0.5
    ensures Apply(m, InOutCubic, 0.5) == 4.0 * 0.5 * 0.5 * 0.5 == 0.5
    ensures Apply(m, InOutQuart, 0.5) == 8.0 * 0.5 * 0.5 * 0.5 * 0.5 == 0.5
    ensures Apply(m, InOutQuint, 0.5) == 16.0 * 0.5 * 0.5 * 0.5 * 0.5 * 0.5 == 0.5
    ensures Apply(m, InOutBack, 0.5) == (Pow(2.0 * 0.5, 2) * ((C2 + 1.0) * 2.0 * 0.5 - C2)) / 2.0 == 0.5
  {
    assert Pow(1.0, 2) == 1.0 && Pow(-1.0, 2) == 1.0;
    assert Pow(1.0, 3) == 1.0 && Pow(1.0, 4) == 1.0 && Pow(1.0, 5) == 1.0;
  }

  /** The quadratic ease-out the carousel snaps with reaches three quarters of the way at half time. */
  lemma OutQuadAtHalf(m: Transcendentals)
    ensures Ease(m, "out-quad", 0.5) == Some(0.75)
  {
  }
}
