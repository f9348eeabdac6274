/**
 * Integer views of the game's real-valued coordinates: Python's `int()` on a
 * float, and the `range` of screen columns an entity occupies.
 */
module Grid {

  /** Python's `int()` on a float: it truncates toward zero, it does not floor. */
  function Trunc(r: real): (n: int)
    ensures 0.0 <= r ==> 0 <= n && n as real <= r < n as real + 1.0
    ensures r < 0.0 ==> n <= 0 && n as real - 1.0 < r <= n as real
  {
    if r >= 0.0 then r.Floor else -((-r).Floor)
  }

  /** The half-open column interval `range(lo, hi)`. */
  datatype Columns = Columns(lo: int, hi: int)

  /** `c in range(lo, hi)` */
  predicate InRange(a: Columns, c: int) {
    a.lo <= c < a.hi
  }

  /**
   * `any(c in b for c in a)`: the two column ranges share a column. It is
   * computed by comparing end points.
   */
  function Meet(a: Columns, b: Columns): (r: bool)
    ensures r <==> exists c :: InRange(a, c) && InRange(b, c)
  {
    if a.lo < a.hi && b.lo < b.hi && a.lo < b.hi && b.lo < a.hi then
      var c := if a.lo < b.lo then b.lo else a.lo;
      assert InRange(a, c) && InRange(b, c);
      true
    else
      false
  }
}
