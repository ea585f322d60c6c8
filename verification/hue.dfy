/**
 * The hue-rotating texture loader. An input `source#degrees` names an image
 * and a hue rotation; every pixel is converted to HSL, its hue is turned by
 * `degrees / 360` of a full turn, and it is converted back to RGB. The
 * conversions are the HSL formulas of section 4.2.4 of CSS Color Module
 * Level 3, evaluated here over exact reals.
 */
module Hue {
  import opened JsMath
  import Layout

  /** An HSL colour with every component a share of its range. */
  datatype Hsl = Hsl(h: real, s: real, l: real)

  /** Three channels in `[0, 1]`, before rounding to bytes. */
  datatype Channels = Channels(r: real, g: real, b: real)

  /** A pixel's colour bytes. */
  datatype Rgb = Rgb(r: int, g: int, b: int)

  predicate IsByte(x: int)
  {
    0 <= x <= 255
  }

  predicate IsUnit(x: real)
  {
    0.0 <= x <= 1.0
  }

  /** `Math.max` of three. */
  function Max3(a: real, b: real, c: real): (r: real)
    ensures r >= a && r >= b && r >= c
    ensures r == a || r == b || r == c
  {
    if a >= b && a >= c then a else if b >= c then b else c
  }

  /** `Math.min` of three. */
  function Min3(a: real, b: real, c: real): (r: real)
    ensures r <= a && r <= b && r <= c
    ensures r == a || r == b || r == c
  {
    if a <= b && a <= c then a else if b <= c then b else c
  }

  /** The saturation of `toHSL` for distinct largest and smallest channels. */
  function Saturation(hi: real, lo: real): real
    requires 0.0 <= lo < hi <= 1.0
  {
    var d := hi - lo;
    if (hi + lo) / 2.0 > 0.5 then d / (2.0 - hi - lo) else d / (hi + lo)
  }

  /**
   * The hue of `toHSL` in sixths of a turn, before the division by 6. The
   * `switch (max)` tests the red, green and blue channels in that order;
   * the maximum is always one of them, so the fall-through case never runs.
   */
  function Sextant(red: real, green: real, blue: real, hi: real, d: real): real
    requires d > 0.0
  {
    if hi == red then (green - blue) / d + (if green < blue then 6.0 else 0.0)
    else if hi == green then (blue - red) / d + 2.0
    else (red - green) / d + 4.0
  }

  /** `toHSL` on channels already divided by 255. */
  function HslOf(red: real, green: real, blue: real): (c: Hsl)
    requires IsUnit(red) && IsUnit(green) && IsUnit(blue)
    ensures red == green == blue ==> c == Hsl(0.0, 0.0, red)
  {
    var hi := Max3(red, green, blue);
    var lo := Min3(red, green, blue);
    var l := (hi + lo) / 2.0;
    if hi == lo then Hsl(0.0, 0.0, l)
    else Hsl(Sextant(red, green, blue, hi, hi - lo) / 6.0, Saturation(hi, lo), l)
  }

  /** `toHSL(r, g, b)` on colour bytes. */
  function ToHsl(r: int, g: int, b: int): (c: Hsl)
    requires IsByte(r) && IsByte(g) && IsByte(b)
    ensures r == g == b ==> c == Hsl(0.0, 0.0, r as real / 255.0)
  {
    HslOf(r as real / 255.0, g as real / 255.0, b as real / 255.0)
  }

  /** A ratio `u = x / d` with `|x| <= d` lies in `[-1, 1]`, with the sign of `x`. */
  lemma UnitRatio(x: real, d: real, u: real)
    requires d > 0.0 && -d <= x <= d && u * d == x
    ensures -1.0 <= u <= 1.0
    ensures u < 0.0 <==> x < 0.0
    ensures u == 1.0 <==> x == d
  {
    if x == d {
      assert (u - 1.0) * d == 0.0;
    }
  }

  /** For distinct largest and smallest channels in `[0, 1]`, the saturation is in `[0, 1]`. */
  lemma SaturationRange(hi: real, lo: real)
    requires 0.0 <= lo < hi <= 1.0
    ensures IsUnit(Saturation(hi, lo)) && Saturation(hi, lo) != 0.0
  {
    var d := hi - lo;
    if (hi + lo) / 2.0 > 0.5 {
      var s := d / (2.0 - hi - lo);
      UnitRatio(d, 2.0 - hi - lo, s);
      assert s * (2.0 - hi - lo) == d;
    } else {
      var s := d / (hi + lo);
      UnitRatio(d, hi + lo, s);
      assert s * (hi + lo) == d;
    }
  }

  /**
   * The hue in sixths is the ratio `u` of a channel difference to the
   * spread, plus 0 or 6 (red largest), 2 (green) or 4 (blue); it lies in
   * `[0, 6)`.
   */
  lemma SextantRange(red: real, green: real, blue: real, hi: real, lo: real)
    requires hi == Max3(red, green, blue) && lo == Min3(red, green, blue) && lo < hi
    ensures 0.0 <= Sextant(red, green, blue, hi, hi - lo) < 6.0
  {
    var d := hi - lo;
    if hi == red {
      var u := (green - blue) / d;
      UnitRatio(green - blue, d, u);
    } else if hi == green {
      var u := (blue - red) / d;
      UnitRatio(blue - red, d, u);
    } else {
      var u := (red - green) / d;
      UnitRatio(red - green, d, u);
    }
  }

  /**
   * For channels in `[0, 1]`, the hue is in `[0, 1)`, the saturation and
   * lightness in `[0, 1]`, and the lightness is the mean of the largest
   * and the smallest channel.
   */
  lemma HslRange(red: real, green: real, blue: real)
    requires IsUnit(red) && IsUnit(green) && IsUnit(blue)
    ensures var c := HslOf(red, green, blue);
      && 0.0 <= c.h < 1.0 && IsUnit(c.s) && IsUnit(c.l)
      && c.l == (Max3(red, green, blue) + Min3(red, green, blue)) / 2.0
  {
    var hi := Max3(red, green, blue);
    var lo := Min3(red, green, blue);
    if hi != lo {
      SaturationRange(hi, lo);
      SextantRange(red, green, blue, hi, lo);
    }
  }

  /** The hue shift of `hue2rgb`: one unit up when negative, then one unit down when above 1. */
  function Wrap01(t: real): (r: real)
    ensures -1.0 <= t <= 2.0 ==> IsUnit(r)
    ensures r == t || r == t + 1.0 || r == t - 1.0
  {
    var t1 := if t < 0.0 then t + 1.0 else t;
    if t1 > 1.0 then t1 - 1.0 else t1
  }

  /** `hue2rgb(p, q, t)`: the channel at hue `t` between the bounds `p` and `q`. */
  function Hue2Rgb(p: real, q: real, t: real): real
  {
    var x := Wrap01(t);
    if x < 1.0 / 6.0 then p + (q - p) * 6.0 * x
    else if x < 1.0 / 2.0 then q
    else if x < 2.0 / 3.0 then p + (q - p) * (2.0 / 3.0 - x) * 6.0
    else p
  }

  /** For a hue within one unit of `[0, 1]`, `hue2rgb` returns a value between `p` and `q`. */
  lemma Hue2RgbBetween(p: real, q: real, t: real)
    requires -1.0 <= t <= 2.0
    ensures p <= q ==> p <= Hue2Rgb(p, q, t) <= q
    ensures q <= p ==> q <= Hue2Rgb(p, q, t) <= p
  {
    var x := Wrap01(t);
    var lo := if p <= q then p else q;
    var hi := if p <= q then q else p;
    if x < 1.0 / 6.0 {
      assert p + (q - p) * 6.0 * x == Layout.Mix(p, q, 6.0 * x);
      Layout.Convex(p, q, 6.0 * x, lo, hi);
    } else if 1.0 / 2.0 <= x < 2.0 / 3.0 {
      assert p + (q - p) * (2.0 / 3.0 - x) * 6.0 == Layout.Mix(p, q, (2.0 / 3.0 - x) * 6.0);
      Layout.Convex(p, q, (2.0 / 3.0 - x) * 6.0, lo, hi);
    }
  }

  /** The `q` bound of `toRGB`. */
  function Upper(s: real, l: real): real
  {
    if l < 0.5 then l * (1.0 + s) else l + s - l * s
  }

  /** `toRGB` before rounding: grey when unsaturated, otherwise `hue2rgb` at `h + 1/3`, `h` and `h - 1/3`. */
  function ChannelsOf(c: Hsl): Channels
  {
    if c.s == 0.0 then Channels(c.l, c.l, c.l)
    else
      var q := Upper(c.s, c.l);
      var p := 2.0 * c.l - q;
      Channels(Hue2Rgb(p, q, c.h + 1.0 / 3.0), Hue2Rgb(p, q, c.h), Hue2Rgb(p, q, c.h - 1.0 / 3.0))
  }

  /** `Math.round(x * 255)`. */
  function ToByte(x: real): int
  {
    Round(x * 255.0)
  }

  /** `toRGB(h, s, l)`. */
  function ToRgb(c: Hsl): (r: Rgb)
    ensures c.s == 0.0 ==> r.r == r.g == r.b == Round(c.l * 255.0)
  {
    var x := ChannelsOf(c);
    Rgb(ToByte(x.r), ToByte(x.g), ToByte(x.b))
  }

  /**
   * The bounds `toRGB` derives from the saturation and lightness `toHSL`
   * computed are the largest and the smallest channel again.
   */
  lemma BoundsRecovered(hi: real, lo: real)
    requires 0.0 <= lo < hi <= 1.0
    ensures Upper(Saturation(hi, lo), (hi + lo) / 2.0) == hi
  {
    var l := (hi + lo) / 2.0;
    var d := hi - lo;
    if l > 0.5 {
      var s := d / (2.0 - hi - lo);
      assert s * (2.0 - hi - lo) == d;
      assert l + s - l * s == l + s * (2.0 - hi - lo) / 2.0;
    } else {
      var s := d / (hi + lo);
      assert s * (hi + lo) == d;
      if l < 0.5 {
        assert l * (1.0 + s) == l + s * (hi + lo) / 2.0;
      } else {
        assert l + s - l * s == l + s * (hi + lo) / 2.0;
      }
    }
  }

  /** Red is the largest channel, `u` the ratio of green minus blue to the spread: `hue2rgb` gives the channels back. */
  lemma RedHues(red: real, green: real, blue: real, lo: real, u: real, h: real)
    requires lo <= green <= red && lo <= blue <= red && (lo == green || lo == blue) && lo < red
    requires u * (red - lo) == green - blue && -1.0 <= u <= 1.0
    requires u < 0.0 <==> green < blue
    requires u == 1.0 <==> green - blue == red - lo
    requires h == (u + (if green < blue then 6.0 else 0.0)) / 6.0
    ensures Hue2Rgb(lo, red, h + 1.0 / 3.0) == red
      && Hue2Rgb(lo, red, h) == green
      && Hue2Rgb(lo, red, h - 1.0 / 3.0) == blue
  {
  }

  /** Green is the largest channel and red is not, `u` the ratio of blue minus red to the spread. */
  lemma GreenHues(red: real, green: real, blue: real, lo: real, u: real, h: real)
    requires lo <= red < green && lo <= blue <= green && (lo == red || lo == blue)
    requires u * (green - lo) == blue - red && -1.0 <= u <= 1.0
    requires u < 0.0 <==> blue < red
    requires u == 1.0 <==> blue - red == green - lo
    requires h == (u + 2.0) / 6.0
    ensures Hue2Rgb(lo, green, h + 1.0 / 3.0) == red
      && Hue2Rgb(lo, green, h) == green
      && Hue2Rgb(lo, green, h - 1.0 / 3.0) == blue
  {
  }

  /** Blue alone is the largest channel, `u` the ratio of red minus green to the spread. */
  lemma BlueHues(red: real, green: real, blue: real, lo: real, u: real, h: real)
    requires lo <= red < blue && lo <= green < blue && (lo == red || lo == green)
    requires u * (blue - lo) == red - green && -1.0 <= u <= 1.0
    requires u < 0.0 <==> red < green
    requires u == 1.0 <==> red - green == blue - lo
    requires h == (u + 4.0) / 6.0
    ensures Hue2Rgb(lo, blue, h + 1.0 / 3.0) == red
      && Hue2Rgb(lo, blue, h) == green
      && Hue2Rgb(lo, blue, h - 1.0 / 3.0) == blue
  {
  }

  /** Red is the largest channel: the hue `toHSL` computes gives the three channels back. */
  lemma RedLargest(red: real, green: real, blue: real, hi: real, lo: real)
    requires hi == Max3(red, green, blue) && lo == Min3(red, green, blue) && lo < hi
    requires hi == red
    ensures var h := Sextant(red, green, blue, hi, hi - lo) / 6.0;
      && Hue2Rgb(lo, hi, h + 1.0 / 3.0) == red
      && Hue2Rgb(lo, hi, h) == green
      && Hue2Rgb(lo, hi, h - 1.0 / 3.0) == blue
  {
    var d := hi - lo;
    var h := Sextant(red, green, blue, hi, d) / 6.0;
    var u := (green - blue) / d;
    assert h == (u + (if green < blue then 6.0 else 0.0)) / 6.0;
    UnitRatio(green - blue, d, u);
    RedHues(red, green, blue, lo, u, h);
  }

  /** Green is the largest channel and red is not: the hue `toHSL` computes gives the three channels back. */
  lemma GreenLargest(red: real, green: real, blue: real, hi: real, lo: real)
    requires hi == Max3(red, green, blue) && lo == Min3(red, green, blue) && lo < hi
    requires hi != red && hi == green
    ensures var h := Sextant(red, green, blue, hi, hi - lo) / 6.0;
      && Hue2Rgb(lo, hi, h + 1.0 / 3.0) == red
      && Hue2Rgb(lo, hi, h) == green
      && Hue2Rgb(lo, hi, h - 1.0 / 3.0) == blue
  {
    var d := hi - lo;
    var h := Sextant(red, green, blue, hi, d) / 6.0;
    var u := (blue - red) / d;
    assert h == (u + 2.0) / 6.0;
    UnitRatio(blue - red, d, u);
    GreenHues(red, green, blue, lo, u, h);
  }

  /** Blue alone is the largest channel: the hue `toHSL` computes gives the three channels back. */
  lemma BlueLargest(red: real, green: real, blue: real, hi: real, lo: real)
    requires hi == Max3(red, green, blue) && lo == Min3(red, green, blue) && lo < hi
    requires hi != red && hi != green
    ensures var h := Sextant(red, green, blue, hi, hi - lo) / 6.0;
      && Hue2Rgb(lo, hi, h + 1.0 / 3.0) == red
      && Hue2Rgb(lo, hi, h) == green
      && Hue2Rgb(lo, hi, h - 1.0 / 3.0) == blue
  {
    var d := hi - lo;
    var h := Sextant(red, green, blue, hi, d) / 6.0;
    var u := (red - green) / d;
    assert h == (u + 4.0) / 6.0;
    UnitRatio(red - green, d, u);
    BlueHues(red, green, blue, lo, u, h);
  }

  /** The three channels come back from the hue in sixths, once the bounds are the largest and smallest channel. */
  lemma HueRecovered(red: real, green: real, blue: real, hi: real, lo: real)
    requires hi == Max3(red, green, blue) && lo == Min3(red, green, blue) && lo < hi
    ensures var h := Sextant(red, green, blue, hi, hi - lo) / 6.0;
      && Hue2Rgb(lo, hi, h + 1.0 / 3.0) == red
      && Hue2Rgb(lo, hi, h) == green
      && Hue2Rgb(lo, hi, h - 1.0 / 3.0) == blue
  {
    if hi == red {
      RedLargest(red, green, blue, hi, lo);
    } else if hi == green {
      GreenLargest(red, green, blue, hi, lo);
    } else {
      BlueLargest(red, green, blue, hi, lo);
    }
  }

  /** Over exact reals, converting channels to HSL and back returns them unchanged. */
  lemma ChannelsRoundTrip(red: real, green: real, blue: real)
    requires IsUnit(red) && IsUnit(green) && IsUnit(blue)
    ensures ChannelsOf(HslOf(red, green, blue)) == Channels(red, green, blue)
  {
    var hi := Max3(red, green, blue);
    var lo := Min3(red, green, blue);
    if hi != lo {
      SaturationRange(hi, lo);
      BoundsRecovered(hi, lo);
      HueRecovered(red, green, blue, hi, lo);
    }
  }

  /** Colour bytes survive `toRGB(toHSL(r, g, b))` unchanged. */
  lemma RgbRoundTrip(r: int, g: int, b: int)
    requires IsByte(r) && IsByte(g) && IsByte(b)
    ensures ToRgb(ToHsl(r, g, b)) == Rgb(r, g, b)
  {
    ChannelsRoundTrip(r as real / 255.0, g as real / 255.0, b as real / 255.0);
    assert (r as real / 255.0) * 255.0 == r as real;
    assert (g as real / 255.0) * 255.0 == g as real;
    assert (b as real / 255.0) * 255.0 == b as real;
  }

  /** JavaScript's `x % 1` on a number: the fractional part, with the sign of `x`. */
  function FracTrunc(x: real): (r: real)
    ensures x >= 0.0 ==> 0.0 <= r < 1.0
    ensures x < 0.0 ==> -1.0 < r <= 0.0
  {
    if x >= 0.0 then x - Floor(x) as real else x + Floor(-x) as real
  }

  /** The wrap into `[0, 1)` the hue rotation evidently intends: `x` minus its floor. */
  function FracFloor(x: real): (r: real)
    ensures 0.0 <= r < 1.0
  {
    x - Floor(x) as real
  }

  /** `(h + rotation / 360) % 1` as written. */
  function TurnAsWritten(h: real, degrees: int): real
  {
    FracTrunc(h + degrees as real / 360.0)
  }

  /** The hue turned by `degrees`, wrapped into `[0, 1)`. */
  function Turn(h: real, degrees: int): (r: real)
    ensures 0.0 <= r < 1.0
  {
    FracFloor(h + degrees as real / 360.0)
  }

  /** For a hue in `[0, 1)` and a rotation of no fewer than 0 degrees the two wraps agree, so the written hue stays in `[0, 1)`. */
  lemma TurnAgrees(h: real, degrees: int)
    requires 0.0 <= h < 1.0 && degrees >= 0
    ensures TurnAsWritten(h, degrees) == Turn(h, degrees)
    ensures 0.0 <= TurnAsWritten(h, degrees) < 1.0
  {
  }

  /** A whole number of turns leaves a hue in `[0, 1)` where it is. */
  lemma FullTurns(h: real, k: int)
    requires 0.0 <= h < 1.0
    ensures Turn(h, 360 * k) == h
  {
    assert (360 * k) as real / 360.0 == k as real;
    var x := h + k as real;
    assert Floor(x) == k;
  }

  /** Uint8ClampedArray's store of an integer: clamped to `[0, 255]`. */
  function Clamp(x: int): (r: int)
    ensures IsByte(r)
    ensures IsByte(x) ==> r == x
  {
    if x < 0 then 0 else if x > 255 then 255 else x
  }

  /**
   * A parsed rotation: `Some(degrees)`, or `None` when `parseInt` gave
   * NaN. A NaN hue fails every comparison of `hue2rgb`, which then returns
   * `p` for all three channels.
   */
  function Recolour(c: Hsl, rotation: Option<int>, turn: (real, int) -> real): Rgb
  {
    match rotation
    case Some(degrees) => ToRgb(c.(h := turn(c.h, degrees)))
    case None =>
      if c.s == 0.0 then ToRgb(c)
      else
        var p := 2.0 * c.l - Upper(c.s, c.l);
        Rgb(ToByte(p), ToByte(p), ToByte(p))
  }

  /** One pixel of `createCanvas` as written, with the truncating `% 1`. */
  function PixelAsWritten(r: int, g: int, b: int, rotation: Option<int>): Rgb
    requires IsByte(r) && IsByte(g) && IsByte(b)
  {
    Recolour(ToHsl(r, g, b), rotation, TurnAsWritten)
  }

  /** One pixel of `createCanvas`, with the hue wrapped into `[0, 1)`. */
  function Pixel(r: int, g: int, b: int, rotation: Option<int>): Rgb
    requires IsByte(r) && IsByte(g) && IsByte(b)
  {
    Recolour(ToHsl(r, g, b), rotation, Turn)
  }

  /**
   * The corrected pixel is the written one whenever the rotation is not
   * negative or not a number: only negative rotations tell them apart.
   */
  lemma PixelAgrees(r: int, g: int, b: int, rotation: Option<int>)
    requires IsByte(r) && IsByte(g) && IsByte(b)
    requires rotation.None? || rotation.value >= 0
    ensures PixelAsWritten(r, g, b, rotation) == Pixel(r, g, b, rotation)
  {
    if rotation.Some? {
      var c := ToHsl(r, g, b);
      HslRange(r as real / 255.0, g as real / 255.0, b as real / 255.0);
      TurnAgrees(c.h, rotation.value);
    }
  }

  /** Every byte of `[0, 255]`, as data of an image holds. */
  predicate Bytes(items: seq<int>)
  {
    forall j | 0 <= j < |items| :: IsByte(items[j])
  }

  /** Image data: whole pixels of four bytes each, red, green, blue and alpha. */
  predicate ImageData(items: seq<int>)
  {
    |items| % 4 == 0 && Bytes(items)
  }

  /** A recolouring of one pixel, defined on colour bytes. */
  type Recolouring = (int, int, int) --> Rgb

  ghost predicate OnBytes(f: Recolouring)
  {
    forall r, g, b | IsByte(r) && IsByte(g) && IsByte(b) :: f.requires(r, g, b)
  }

  /** Byte `j` after recolouring with `f`: alpha bytes are kept; colour bytes take their pixel's new channel. */
  function RecolouredByte(items: seq<int>, f: Recolouring, j: int): (r: int)
    requires ImageData(items) && OnBytes(f) && 0 <= j < |items|
    ensures IsByte(r)
    ensures j % 4 == 3 ==> r == items[j]
  {
    var base := j - j % 4;
    if j % 4 == 3 then items[j]
    else
      var px := f(items[base], items[base + 1], items[base + 2]);
      Clamp(if j % 4 == 0 then px.r else if j % 4 == 1 then px.g else px.b)
  }

  /** The bytes before `i` are recoloured and the bytes from `i` on are not yet touched. */
  predicate RecolouredBelow(items: seq<int>, f: Recolouring, out: seq<int>, i: int)
    requires ImageData(items) && OnBytes(f)
  {
    && |out| == |items|
    && (forall j | 0 <= j < |items| && i <= j :: out[j] == items[j])
    && (forall j | 0 <= j < |items| && j < i :: out[j] == RecolouredByte(items, f, j))
  }

  /** Writing the three colour bytes of the pixel at `i` extends the recoloured part by one whole pixel. */
  lemma WritePixel(items: seq<int>, f: Recolouring, out: seq<int>, i: int, px: Rgb)
    requires ImageData(items) && OnBytes(f) && 0 <= i && i + 4 <= |items| && i % 4 == 0
    requires RecolouredBelow(items, f, out, i)
    requires px == f(items[i], items[i + 1], items[i + 2])
    ensures RecolouredBelow(items, f, out[i := Clamp(px.r)][i + 1 := Clamp(px.g)][i + 2 := Clamp(px.b)], i + 4)
  {
    var o := out[i := Clamp(px.r)][i + 1 := Clamp(px.g)][i + 2 := Clamp(px.b)];
    forall j | 0 <= j < |items| && j < i + 4
      ensures o[j] == RecolouredByte(items, f, j)
    {
      if j < i {
        assert o[j] == out[j];
      } else {
        DivModUnique(j, i / 4, j - i, 4);
        assert j - j % 4 == i;
      }
    }
  }

  /** The loop of `createCanvas` over the pixel data, four bytes at a time, for any recolouring. */
  method RecolourPixels(items: seq<int>, f: Recolouring) returns (out: seq<int>)
    requires ImageData(items) && OnBytes(f)
    ensures |out| == |items| && Bytes(out)
    ensures forall j | 0 <= j < |items| :: out[j] == RecolouredByte(items, f, j)
  {
    out := items;
    var i := 0;
    while i < |items|
      invariant 0 <= i <= |items| && i % 4 == 0
      invariant RecolouredBelow(items, f, out, i)
    {
      assert IsByte(items[i]) && IsByte(items[i + 1]) && IsByte(items[i + 2]);
      var px := f(items[i], items[i + 1], items[i + 2]);
      WritePixel(items, f, out, i, px);
      out := out[i := Clamp(px.r)][i + 1 := Clamp(px.g)][i + 2 := Clamp(px.b)];
      i := i + 4;
    }
  }

  /** Byte `j` after the hue rotation of `createCanvas`. */
  function RotatedByte(items: seq<int>, rotation: Option<int>, j: int): (r: int)
    requires ImageData(items) && 0 <= j < |items|
    ensures IsByte(r)
    ensures j % 4 == 3 ==> r == items[j]
  {
    var base := j - j % 4;
    if j % 4 == 3 then items[j]
    else
      var px := Pixel(items[base], items[base + 1], items[base + 2], rotation);
      Clamp(if j % 4 == 0 then px.r else if j % 4 == 1 then px.g else px.b)
  }

  /** `createCanvas`: every colour byte takes its pixel's rotated channel and every alpha byte is kept. */
  method RotatePixels(items: seq<int>, rotation: Option<int>) returns (out: seq<int>)
    requires ImageData(items)
    ensures |out| == |items| && Bytes(out)
    ensures forall j | 0 <= j < |items| :: out[j] == RotatedByte(items, rotation, j)
    ensures forall j | 0 <= j < |items| && j % 4 == 3 :: out[j] == items[j]
  {
    var f: Recolouring := (r: int, g: int, b: int) requires IsByte(r) && IsByte(g) && IsByte(b) => Pixel(r, g, b, rotation);
    out := RecolourPixels(items, f);
    forall j | 0 <= j < |items|
      ensures out[j] == RotatedByte(items, rotation, j)
    {
      assert RecolouredByte(items, f, j) == RotatedByte(items, rotation, j);
    }
  }

  /** A rotation by a whole number of turns rewrites every pixel to itself. */
  lemma FullTurnKeepsImage(items: seq<int>, k: int, j: int)
    requires ImageData(items) && 0 <= j < |items|
    ensures RotatedByte(items, Some(360 * k), j) == items[j]
  {
    var base := j - j % 4;
    if j % 4 != 3 {
      var r, g, b := items[base], items[base + 1], items[base + 2];
      var c := ToHsl(r, g, b);
      HslRange(r as real / 255.0, g as real / 255.0, b as real / 255.0);
      FullTurns(c.h, k);
      assert c.(h := Turn(c.h, 360 * k)) == c;
      RgbRoundTrip(r, g, b);
    }
  }

  /**
   * A rotation that is not a number leaves grey pixels as they are and
   * turns every other pixel into the grey of its smallest channel.
   */
  lemma NaNRotationGreys(r: int, g: int, b: int)
    requires IsByte(r) && IsByte(g) && IsByte(b)
    ensures var lo := if r <= g && r <= b then r else if g <= b then g else b;
      Pixel(r, g, b, None) == if r == g == b then Rgb(r, g, b) else Rgb(lo, lo, lo)
  {
    if r == g == b {
      RgbRoundTrip(r, g, b);
    } else {
      NaNRotationGreysColour(r, g, b);
    }
  }

  /** The coloured half of the above: a pixel whose channels differ turns into the grey of its smallest one. */
  lemma NaNRotationGreysColour(r: int, g: int, b: int)
    requires IsByte(r) && IsByte(g) && IsByte(b) && !(r == g == b)
    ensures var lo := if r <= g && r <= b then r else if g <= b then g else b;
      Pixel(r, g, b, None) == Rgb(lo, lo, lo)
  {
    var red, green, blue := r as real / 255.0, g as real / 255.0, b as real / 255.0;
    var hi, lo := Max3(red, green, blue), Min3(red, green, blue);
    var m := if r <= g && r <= b then r else if g <= b then g else b;
    assert lo == m as real / 255.0 && hi != lo;
    var c := ToHsl(r, g, b);
    assert c.s == Saturation(hi, lo) && c.l == (hi + lo) / 2.0;
    SaturationRange(hi, lo);
    BoundsRecovered(hi, lo);
    assert (m as real / 255.0) * 255.0 == m as real;
    GreyWithoutRotation(c, m);
  }

  /** Without a rotation, a saturated colour turns into the grey its smallest channel `m` gives. */
  lemma GreyWithoutRotation(c: Hsl, m: int)
    requires c.s != 0.0 && Upper(c.s, c.l) == 2.0 * c.l - m as real / 255.0
    ensures Recolour(c, None, Turn) == Rgb(m, m, m)
  {
    assert (m as real / 255.0) * 255.0 == m as real;
  }

  /** The pixel (255, 128, 128) is pure-hued red: hue 0, full saturation. */
  lemma PinkToHsl()
    ensures ToHsl(255, 128, 128) == Hsl(0.0, 1.0, 383.0 / 510.0)
  {
    assert Max3(1.0, 128.0 / 255.0, 128.0 / 255.0) == 1.0;
    assert Min3(1.0, 128.0 / 255.0, 128.0 / 255.0) == 128.0 / 255.0;
    assert Saturation(1.0, 128.0 / 255.0) == 1.0;
  }

  /** The colours of the pink pixel's hue, at `-5/6` and at `1/6`. */
  lemma PinkToRgb()
    ensures ToRgb(Hsl(-5.0 / 6.0, 1.0, 383.0 / 510.0)) == Rgb(255, 255, 1)
    ensures ToRgb(Hsl(1.0 / 6.0, 1.0, 383.0 / 510.0)) == Rgb(255, 255, 128)
  {
    var l := 383.0 / 510.0;
    assert Upper(1.0, l) == 1.0;
    var p := 128.0 / 255.0;
    assert 2.0 * l - 1.0 == p;
    assert Hue2Rgb(p, 1.0, -5.0 / 6.0 + 1.0 / 3.0) == 1.0;
    assert Hue2Rgb(p, 1.0, -5.0 / 6.0) == 1.0;
    assert Hue2Rgb(p, 1.0, -5.0 / 6.0 - 1.0 / 3.0) == 1.0 / 255.0;
    assert Hue2Rgb(p, 1.0, 1.0 / 6.0 + 1.0 / 3.0) == 1.0;
    assert Hue2Rgb(p, 1.0, 1.0 / 6.0) == 1.0;
    assert Hue2Rgb(p, 1.0, 1.0 / 6.0 - 1.0 / 3.0) == p;
    assert ToByte(1.0) == 255 && ToByte(1.0 / 255.0) == 1 && ToByte(p) == 128;
  }

  /**
   * The truncating `% 1` leaves a negative hue for a negative rotation,
   * which `hue2rgb` does not wrap far enough: turning (255, 128, 128) by
   * -300 degrees gives blue 1 where the hue turned by +60 degrees, the same
   * angle, gives 128.
   */
  lemma NegativeTurnMiscolours()
    ensures PixelAsWritten(255, 128, 128, Some(-300)) == Rgb(255, 255, 1)
    ensures Pixel(255, 128, 128, Some(-300)) == Rgb(255, 255, 128)
    ensures Pixel(255, 128, 128, Some(60)) == Rgb(255, 255, 128)
  {
    PinkToHsl();
    assert TurnAsWritten(0.0, -300) == -5.0 / 6.0;
    assert Turn(0.0, -300) == 1.0 / 6.0;
    assert Turn(0.0, 60) == 1.0 / 6.0;
    PinkToRgb();
  }
}
