/** Integer helpers shared by the two problem families. */
module Integers {
  /** The absolute value, Python's `abs` on an `int`. */
  function Abs(x: int): (a: nat)
    ensures a == x || a == -x
  {
    if x < 0 then -x else x
  }
}
