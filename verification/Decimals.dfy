/** Decimal digit strings. */
module Decimals {
  import opened Prelude

  predicate IsDigit(b: byte) {
    48 <= b <= 57
  }

  predicate AllDigits(s: Text) {
    forall i :: 0 <= i < |s| ==> IsDigit(s[i])
  }

  function DecimalValue(s: Text): int {
    if s == [] then 0 else 10 * DecimalValue(s[..|s| - 1]) + (s[|s| - 1] as int - 48)
  }

  lemma {:induction false} DecimalNonNegative(s: Text)
    requires AllDigits(s)
    ensures DecimalValue(s) >= 0
  {
    if s != [] {
      DecimalNonNegative(s[..|s| - 1]);
    }
  }
}
