/** Decimal digits and the numbers they write, shared by every numeral the crate reads. */
module Digits {
  import opened Basics

  const ZERO: byte := 48
  const NINE: byte := 57

  predicate IsDigit(b: byte) {
    ZERO <= b <= NINE
  }

  predicate AllDigits(s: Bytes) {
    forall k :: 0 <= k < |s| ==> IsDigit(s[k])
  }

  /** The number that a run of digits writes; zero for none. */
  function DigitsValue(s: Bytes): int {
    if s == [] then 0 else DigitsValue(s[..|s| - 1]) * 10 + (s[|s| - 1] - ZERO)
  }
}
