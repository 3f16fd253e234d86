// Shared vocabulary of the model: optional values and the fixed-width integers
// of the C++ source that are visible in its arithmetic.
module Prelude {

  datatype Option<+T> = None | Some(value: T)

  const INT_MAX: int := 0x7FFF_FFFF
  const INT_MIN: int := -0x8000_0000

  // The C++ type int.
  type Int32 = x: int | -0x8000_0000 <= x <= 0x7FFF_FFFF

  // A 64-bit count converted to int: the value is reduced modulo 2^32.
  function ToInt32(x: int): (r: Int32)
    ensures INT_MIN <= x <= INT_MAX ==> r == x
    ensures (r - x) % 0x1_0000_0000 == 0
  {
    (x + 0x8000_0000) % 0x1_0000_0000 - 0x8000_0000
  }

  lemma Reassociate(a: string, b: string, c: string)
    ensures (a + b) + c == a + (b + c)
  {
  }

  // A clock whose readings are arbitrary but do not run backwards.
  class Clock {
    var last: int

    constructor (start: int)
      ensures last == start
    {
      last := start;
    }

    method Now() returns (t: int)
      modifies this
      ensures old(last) <= t == last
    {
      t :| t >= last;
      last := t;
    }
  }
}
