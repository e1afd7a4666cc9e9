/**
 * The reduction of a `random.nextInt()` draw to an index among the `n` cells that are
 * still unmined (`layOneMine`). Draws are 32-bit Java ints supplied by the caller.
 */
module MinePick {
  const INT_MIN: int := -0x8000_0000
  const INT_MAX: int := 0x7fff_ffff
  const TWO_32: int := 0x1_0000_0000

  predicate IsInt32(x: int) {
    INT_MIN <= x <= INT_MAX
  }

  /** Java's narrowing of an exact integer result to `int`: keep the low 32 bits, signed. */
  function Wrap32(x: int): (r: int)
    ensures IsInt32(r)
    ensures (x - r) % TWO_32 == 0
    ensures IsInt32(x) ==> r == x
  {
    var m := x % TWO_32;
    if m > INT_MAX then m - TWO_32 else m
  }

  /** Java's `%` on `int`: truncating division, so the remainder takes the dividend's sign. */
  function JavaRem(a: int, n: int): (r: int)
    requires n > 0
    ensures a >= 0 ==> 0 <= r < n
    ensures a < 0 ==> -n < r <= 0
    ensures (a - r) % n == 0
  {
    if a >= 0 then
      assert a - a % n == (a / n) * n;
      MultipleMod(a / n, n);
      a % n
    else
      var q := (-a) / n;
      assert a + (-a) % n == (-q) * n;
      MultipleMod(-q, n);
      -((-a) % n)
  }

  /** A multiple of `n` leaves remainder 0. */
  lemma MultipleMod(k: int, n: int)
    requires n > 0
    ensures (k * n) % n == 0
  {
    var d, m := (k * n) / n, (k * n) % n;
    assert k * n == d * n + m;
    assert m == (k - d) * n;
    if k - d >= 1 {
      assert false;
    } else if k - d <= -1 {
      assert false;
    }
  }

  /** The index `layOneMine` computes, as written: `if (pos < 0) pos *= -1; pos %= n;`. */
  function DrawAsWritten(draw: int, n: int): (r: int)
    requires IsInt32(draw) && n > 0
    ensures -n < r < n
    ensures draw != INT_MIN ==> 0 <= r
  {
    var pos := if draw < 0 then Wrap32(draw * -1) else draw;
    JavaRem(pos, n)
  }

  /** The index the reduction is meant to give: the draw's magnitude reduced modulo `n`. */
  function PickIndex(draw: int, n: int): (r: int)
    requires n > 0
    ensures 0 <= r < n
  {
    (if draw < 0 then -draw else draw) % n
  }

  /** On every draw except `Integer.MIN_VALUE` the code as written computes the intended index. */
  lemma AsWrittenMatchesPick(draw: int, n: int)
    requires IsInt32(draw) && n > 0 && draw != INT_MIN
    ensures DrawAsWritten(draw, n) == PickIndex(draw, n)
  {
  }

  /**
   * `Integer.MIN_VALUE * -1` wraps back to `Integer.MIN_VALUE`, so with three unmined cells
   * the index comes out as -2: no cell is ever reached and the scan falls through to the throw.
   * When `n` divides 2^31 the negative remainder is 0 and the pick is the intended one.
   */
  lemma MinValueDrawIsNegative()
    ensures DrawAsWritten(INT_MIN, 3) == -2
    ensures PickIndex(INT_MIN, 3) == 2
    ensures DrawAsWritten(INT_MIN, 64) == 0 == PickIndex(INT_MIN, 64)
  {
  }
}
