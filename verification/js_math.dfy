/**
 * The JavaScript numeric operations the carousel relies on, stated over
 * exact integers and reals: `Math.floor`, `Math.ceil`, `Math.round`, the
 * truncating `%` operator and the `((i % n) + n) % n` index wrap used by
 * both canvas variants. Also the Option/Result carriers the other modules
 * use for JavaScript's `undefined` and thrown errors.
 */
module JsMath {

  datatype Option<T> = None | Some(value: T)

  datatype Result<T, E> = Ok(value: T) | Err(error: E)

  /** `Math.floor`: the greatest integer not above `x`. */
  function Floor(x: real): (r: int)
    ensures r as real <= x < r as real + 1.0
  {
    x.Floor
  }

  /** `Math.ceil`: the least integer not below `x`. */
  function Ceil(x: real): (r: int)
    ensures x <= r as real < x + 1.0
  {
    -((-x).Floor)
  }

  /** `Math.round`: halves round towards positive infinity. */
  function Round(x: real): (r: int)
    ensures x - 0.5 < r as real <= x + 0.5
  {
    (x + 0.5).Floor
  }

  function Abs(x: real): (r: real)
    ensures r >= 0.0 && (r == x || r == -x)
  {
    if x < 0.0 then -x else x
  }

  function Pow(b: real, n: nat): real
  {
    if n == 0 then 1.0 else b * Pow(b, n - 1)
  }

  /**
   * JavaScript's `a % n` on integers: the remainder truncates towards zero,
   * so it takes the sign of the dividend. Only positive divisors occur.
   */
  function Rem(a: int, n: int): (r: int)
    requires n > 0
    ensures a >= 0 ==> 0 <= r < n
    ensures a < 0 ==> -n < r <= 0
    ensures (a - r) % n == 0
  {
    if a >= 0 then
      DivModUnique(a - a % n, a / n, 0, n);
      a % n
    else
      DivModUnique(a + (-a) % n, -((-a) / n), 0, n);
      -((-a) % n)
  }

  /**
   * The index wrap `((i % n) + n) % n` written with the truncating `%`.
   * Its value is the mathematical (never negative) residue of `i`, so it
   * lies in `[0, n)` and is congruent to `i` even for negative `i`.
   */
  function WrapIndex(i: int, n: int): (r: int)
    requires n > 0
    ensures 0 <= r < n
    ensures r == i % n
  {
    WrapIndexIsResidue(i, n);
    Rem(Rem(i, n) + n, n)
  }

  lemma WrapIndexIsResidue(i: int, n: int)
    requires n > 0
    ensures Rem(Rem(i, n) + n, n) == i % n
  {
    if i >= 0 {
      var s := i % n;
      DivModUnique(s + n, 1, s, n);
    } else {
      var q, s := (-i) / n, (-i) % n;
      assert -i == q * n + s;
      if s == 0 {
        DivModUnique(n, 1, 0, n);
        DivModUnique(i, -q, 0, n);
      } else {
        DivModUnique(n - s, 0, n - s, n);
        DivModUnique(i, -q - 1, n - s, n);
      }
    }
  }

  /** Euclidean division is unique: a quotient and remainder in `[0, n)` are the ones `/` and `%` give. */
  lemma DivModUnique(a: int, q: int, r: int, n: int)
    requires n > 0 && 0 <= r < n && a == q * n + r
    ensures a / n == q && a % n == r
  {
    var q0, r0 := a / n, a % n;
    assert a == q0 * n + r0;
    assert (q - q0) * n == r0 - r;
    MulBound(q - q0, n);
  }

  lemma MulBound(d: int, n: int)
    requires n > 0
    ensures d >= 1 ==> d * n >= n
    ensures d <= -1 ==> d * n <= -n
  {
  }
}
