/** Small functions on reals. */
module Reals {
  function Abs(x: real): (r: real)
    ensures r >= 0.0 && (r == x || r == -x)
  {
    if x < 0.0 then -x else x
  }

  function Min(a: real, b: real): (r: real)
    ensures r <= a && r <= b && (r == a || r == b)
  {
    if a <= b then a else b
  }

  function Max(a: real, b: real): (r: real)
    ensures r >= a && r >= b && (r == a || r == b)
  {
    if a <= b then b else a
  }

  /** The value of the range nearest to `y`. */
  function Clamp(y: real, lo: real, hi: real): (r: real)
    ensures lo <= hi ==> lo <= r <= hi
    ensures lo <= y <= hi ==> r == y
    ensures lo <= hi && y < lo ==> r == lo
    ensures lo <= hi && y > hi ==> r == hi
  {
    if y < lo then lo else if y > hi then hi else y
  }
}
