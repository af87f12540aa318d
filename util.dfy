/** Small shared definitions: an optional value and the integer helpers that
    stand for Python's built-ins `min`, `max`, `abs` and `int()` on a real. */
module Util {

  datatype Option<T> = None | Some(value: T)

  function Min(a: int, b: int): (m: int)
    ensures m <= a && m <= b && (m == a || m == b)
  {
    if a <= b then a else b
  }

  function Max(a: int, b: int): (m: int)
    ensures m >= a && m >= b && (m == a || m == b)
  {
    if a >= b then a else b
  }

  function Abs(a: int): (m: nat)
    ensures m == a || m == -a
  {
    if a >= 0 then a else -a
  }

  /** Python's `int(x)` on a float: truncation toward zero. */
  function Trunc(x: real): (n: int)
    ensures x >= 0.0 ==> n as real <= x < n as real + 1.0
    ensures x < 0.0 ==> n as real - 1.0 < x <= n as real
  {
    if x >= 0.0 then x.Floor else -((-x).Floor)
  }

  /** Python's normalisation of a slice bound `i` against a length `len`:
      a negative bound counts from the end, and the result is clamped. */
  function SliceIndex(len: nat, i: int): (k: nat)
    ensures k <= len
    ensures 0 <= i <= len ==> k == i
    ensures -(len as int) <= i < 0 ==> k == len + i
    ensures i > len ==> k == len
    ensures i < -(len as int) ==> k == 0
  {
    if i < 0 then Max(len + i, 0) else Min(i, len)
  }
}
