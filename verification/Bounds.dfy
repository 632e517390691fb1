/** The larger and the smaller of two numbers. */
module Bounds {
  function Max(a: nat, b: nat): nat {
    if a > b then a else b
  }

  function Least(a: nat, b: nat): nat {
    if a < b then a else b
  }
}
