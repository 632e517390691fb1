/** Numbers in decimal, as character codes. */
module Decimals {

  function Decimal(n: nat): (s: seq<int>)
    ensures 0 < |s| && forall i :: 0 <= i < |s| ==> IsDigit(s[i])
  {
    if n < 10 then [48 + n] else Decimal(n / 10) + [48 + n % 10]
  }

  predicate IsDigit(c: int) {
    48 <= c <= 57
  }
}
