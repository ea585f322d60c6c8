/**
 * The texture input of the hue loader, `source#degrees`: the image
 * address before the first `#` and a rotation read by `parseInt` from the
 * text between the first and the second `#`. `parseInt` follows section
 * 19.2.5 of ECMAScript 2023 with no radix: leading white space, an
 * optional sign, an optional `0x` prefix, and the longest run of digits.
 */
module HueInput {
  import opened JsMath

  /**
   * The white space and line terminators `parseInt` skips: tab, vertical
   * tab, form feed, the byte order mark, line feed, carriage return, the
   * line and paragraph separators, and the space separators of Unicode.
   */
  predicate IsSpace(c: char)
  {
    var n := c as int;
    || n == 0x09 || n == 0x0B || n == 0x0C || n == 0xFEFF
    || n == 0x0A || n == 0x0D || n == 0x2028 || n == 0x2029
    || n == 0x20 || n == 0xA0 || n == 0x1680 || (0x2000 <= n <= 0x200A)
    || n == 0x202F || n == 0x205F || n == 0x3000
  }

  /** The value of a digit character in bases up to 36, if it is one. */
  function DigitValue(c: char): (r: Option<nat>)
    ensures r.Some? ==> r.value < 36
  {
    if '0' <= c <= '9' then Some(c as nat - '0' as nat)
    else if 'a' <= c <= 'z' then Some(c as nat - 'a' as nat + 10)
    else if 'A' <= c <= 'Z' then Some(c as nat - 'A' as nat + 10)
    else None
  }

  predicate IsDigit(c: char, radix: nat)
  {
    DigitValue(c).Some? && DigitValue(c).value < radix
  }

  predicate AllDigits(w: string, radix: nat)
  {
    forall i | 0 <= i < |w| :: IsDigit(w[i], radix)
  }

  /** The input with its leading white space removed. */
  function TrimStart(t: string): (r: string)
    ensures |r| <= |t| && r == t[|t| - |r|..]
    ensures r == [] || !IsSpace(r[0])
    ensures forall i | 0 <= i < |t| - |r| :: IsSpace(t[i])
  {
    if t != [] && IsSpace(t[0]) then TrimStart(t[1..]) else t
  }

  /** The length of the longest run of digits at the start of `w`. */
  function DigitRun(w: string, radix: nat): (n: nat)
    ensures n <= |w| && AllDigits(w[..n], radix)
    ensures n < |w| ==> !IsDigit(w[n], radix)
  {
    if w != [] && IsDigit(w[0], radix) then
      var n := 1 + DigitRun(w[1..], radix);
      assert forall i | 1 <= i < n :: w[..n][i] == w[1..][..n - 1][i - 1];
      n
    else 0
  }

  /** The number the digits of `w` write in base `radix`, most significant first. */
  function ValueOf(w: string, radix: nat): nat
    requires AllDigits(w, radix)
  {
    if w == [] then 0
    else ValueOf(w[..|w| - 1], radix) * radix + DigitValue(w[|w| - 1]).value
  }

  /** The unsigned part of `parseInt`: an optional `0x` prefix, then the longest run of digits. */
  function ParseUnsigned(v: string): Option<nat>
  {
    var hex := |v| >= 2 && v[0] == '0' && (v[1] == 'x' || v[1] == 'X');
    var radix := if hex then 16 else 10;
    var w := if hex then v[2..] else v;
    var n := DigitRun(w, radix);
    if n == 0 then None else Some(ValueOf(w[..n], radix))
  }

  /** The signed part of `parseInt`: an optional `-` or `+`, then the unsigned part. */
  function ParseSigned(u: string): Option<int>
  {
    var negative := u != [] && u[0] == '-';
    var digits := if u != [] && (u[0] == '-' || u[0] == '+') then u[1..] else u;
    match ParseUnsigned(digits)
    case None => None
    case Some(m) => if negative then Some(-(m as int)) else Some(m)
  }

  /** `parseInt(t)`: `None` stands for NaN. */
  function ParseInt(t: string): Option<int>
  {
    ParseSigned(TrimStart(t))
  }

  /** A text with no decimal digit in it is not a number: hex digits count only after `0x`. */
  lemma ParseNeedsDigit(t: string)
    requires forall i | 0 <= i < |t| :: !IsDigit(t[i], 10)
    ensures ParseInt(t) == None
  {
    var u := TrimStart(t);
    var v := if u != [] && (u[0] == '-' || u[0] == '+') then u[1..] else u;
    if v != [] {
      assert v[0] == t[|t| - |v|];
    }
    UnsignedNeedsDigit(v);
  }

  /** The unsigned part reads nothing from a text that does not start with a decimal digit. */
  lemma UnsignedNeedsDigit(v: string)
    requires v == [] || !IsDigit(v[0], 10)
    ensures ParseUnsigned(v) == None
  {
  }

  /** The character of a decimal digit. */
  function DigitChar(d: nat): (c: char)
    requires d < 10
    ensures DigitValue(c) == Some(d)
  {
    ('0' as nat + d) as char
  }

  /** The decimal numeral of `n`, without leading zeros. */
  function Decimal(n: nat): (w: string)
    ensures w != [] && AllDigits(w, 10)
    decreases n
  {
    if n < 10 then [DigitChar(n)] else Decimal(n / 10) + [DigitChar(n % 10)]
  }

  /** A decimal numeral's digits are worth the number it renders. */
  lemma {:induction false} DecimalValue(n: nat)
    ensures ValueOf(Decimal(n), 10) == n
    decreases n
  {
    var w := Decimal(n);
    if n >= 10 {
      DecimalValue(n / 10);
      assert w[..|w| - 1] == Decimal(n / 10);
    }
  }

  /** The numeral of an integer, with a minus sign when negative. */
  function Numeral(n: int): (w: string)
    ensures w != []
  {
    if n < 0 then "-" + Decimal(-n) else Decimal(n)
  }

  /** A run of decimal digits, unprefixed, reads as its value. */
  lemma UnsignedDigits(d: string)
    requires d != [] && AllDigits(d, 10)
    ensures ParseUnsigned(d) == Some(ValueOf(d, 10))
  {
    assert |d| >= 2 ==> IsDigit(d[1], 10);
    assert DigitRun(d, 10) == |d|;
    assert d[..|d|] == d;
  }

  /** A run of decimal digits reads as its value. */
  lemma ParseDigits(d: string)
    requires d != [] && AllDigits(d, 10)
    ensures ParseInt(d) == Some(ValueOf(d, 10))
  {
    assert IsDigit(d[0], 10) && !IsSpace(d[0]);
    UnsignedDigits(d);
  }

  /** A minus sign before an unsigned number negates it. */
  lemma ParseMinus(d: string, m: nat)
    requires ParseUnsigned(d) == Some(m)
    ensures ParseInt("-" + d) == Some(-(m as int))
  {
    MinusNotTrimmed(d);
    SignedMinus(d, m);
  }

  lemma MinusNotTrimmed(d: string)
    ensures TrimStart("-" + d) == "-" + d
  {
    assert ("-" + d)[0] == '-';
  }

  lemma SignedMinus(d: string, m: nat)
    requires ParseUnsigned(d) == Some(m)
    ensures ParseSigned("-" + d) == Some(-(m as int))
  {
    assert ("-" + d)[1..] == d;
  }

  /** `parseInt` reads back every numeral it is given. */
  lemma ParseNumeral(n: int)
    ensures ParseInt(Numeral(n)) == Some(n)
  {
    var m := if n < 0 then -n else n;
    DecimalValue(m);
    if n < 0 {
      UnsignedDigits(Decimal(m));
      ParseMinus(Decimal(m), m);
    } else {
      ParseDigits(Decimal(m));
    }
  }

  /** `input.split("#")[0]`: the text before the first `#`. */
  function Source(input: string): (r: string)
    ensures '#' !in r && r <= input
    ensures '#' in input ==> |r| < |input| && input[|r|] == '#'
    ensures '#' !in input ==> r == input
  {
    if input == [] || input[0] == '#' then [] else [input[0]] + Source(input[1..])
  }

  /** `input.split("#")[1]`: the text between the first and the second `#`, or `None` (undefined) without a `#`. */
  function Tag(input: string): (r: Option<string>)
    ensures r.None? <==> '#' !in input
    ensures r.Some? ==> '#' !in r.value && Source(input) + "#" + r.value <= input
  {
    var s := Source(input);
    if |s| == |input| then None
    else
      var rest := input[|s| + 1..];
      var t := Source(rest);
      assert input == s + "#" + rest;
      Some(t)
  }

  /** `parseInt(input.split("#")[1] || 0)`: an absent or empty tag reads as 0. */
  function Rotation(input: string): (r: Option<int>)
    ensures Tag(input).None? || Tag(input) == Some([]) ==> r == Some(0)
  {
    match Tag(input)
    case None => Some(0)
    case Some(t) => if t == [] then Some(0) else ParseInt(t)
  }

  /** The image address and the hue rotation `loadAsync` reads from its input. */
  datatype Load = Load(source: string, rotation: Option<int>)

  function LoadInput(input: string): (r: Load)
    ensures '#' !in r.source
  {
    Load(Source(input), Rotation(input))
  }

  /** An address without `#` loads unrotated, and tagged with a numeral it loads rotated by that many degrees. */
  lemma LoadRoundTrip(source: string, degrees: int)
    requires '#' !in source
    ensures LoadInput(source) == Load(source, Some(0))
    ensures LoadInput(source + "#" + Numeral(degrees)) == Load(source, Some(degrees))
  {
    NumeralHasNoHash(degrees);
    TagAfterHash(source, Numeral(degrees));
    ParseNumeral(degrees);
  }

  /** The text between the first and second `#` of `a#b`, where neither part has a `#`, is `b`; the text before it is `a`. */
  lemma TagAfterHash(a: string, b: string)
    requires '#' !in a && '#' !in b
    ensures Source(a + "#" + b) == a
    ensures Tag(a + "#" + b) == Some(b)
  {
    var input := a + "#" + b;
    assert input == a + ("#" + b);
    SourceBeforeHash(a, "#" + b);
    assert input[|a| + 1..] == b;
  }

  /** The text before the first `#` of `a + b` is `a` when `a` has none and `b` starts with one. */
  lemma {:induction false} SourceBeforeHash(a: string, b: string)
    requires '#' !in a && b != [] && b[0] == '#'
    ensures Source(a + b) == a
    decreases |a|
  {
    if a != [] {
      assert (a + b)[1..] == a[1..] + b;
      SourceBeforeHash(a[1..], b);
    }
  }

  lemma NumeralHasNoHash(n: int)
    ensures '#' !in Numeral(n)
  {
    var m := if n < 0 then -n else n;
    var d := Decimal(m);
    assert forall i | 0 <= i < |d| :: IsDigit(d[i], 10);
    assert '#' !in d;
  }
}
