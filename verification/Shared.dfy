// What several models use: optional values, and a few functions and constants of C arithmetic.
module Shared {

  datatype Option<+T> = None | Some(value: T)

  const INT_LIMIT := 0x8000_0000
  const SIZE_T_RANGE := 0x1_0000_0000_0000_0000

  predicate IsInt(x: int) { -INT_LIMIT <= x < INT_LIMIT }

  function Abs(x: int): nat { if x < 0 then -x else x }

  function Max(a: nat, b: nat): nat { if a > b then a else b }
}
