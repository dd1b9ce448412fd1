/**
 * Python's `str(n)` for the non-negative counts interpolated into the
 * synthesized result lines `# Errors: {n} (heuristic)` and
 * `# Errors: {n}, Warnings: {m} (override)`.
 */
module Decimal {

  predicate IsDigit(c: char) { '0' <= c <= '9' }

  /** A string made of decimal digits only. */
  predicate Digits(s: string)
  {
    forall i :: 0 <= i < |s| ==> IsDigit(s[i])
  }

  function DigitChar(d: nat): (c: char)
    requires d < 10
    ensures IsDigit(c) && c as int - '0' as int == d
  {
    ('0' as int + d) as char
  }

  /** Decimal notation of `n`, most significant digit first. */
  function ToDecimal(n: nat): (s: string)
    ensures |s| > 0
    ensures Digits(s)
    ensures s[0] == '0' ==> n == 0 && s == "0"
  {
    if n < 10 then [DigitChar(n)] else ToDecimal(n / 10) + [DigitChar(n % 10)]
  }

  /** The number a string of digits denotes (the `\d+` groups read by `int(...)`). */
  function DecimalValue(s: string): nat
    requires Digits(s)
  {
    if |s| == 0 then 0
    else
      var d := s[|s| - 1];
      assert IsDigit(d);
      DecimalValue(s[..|s| - 1]) * 10 + (d as int - '0' as int)
  }

  /**
   * `s` is the canonical decimal spelling of `n`: digits only, at least one,
   * no leading zero (0 itself is `"0"`), denoting `n`.
   */
  predicate Spells(s: string, n: nat)
  {
    Digits(s) && |s| > 0 && (s[0] == '0' ==> s == "0") && DecimalValue(s) == n
  }

  /** Reading back the notation gives the number: `int(str(n)) == n`. */
  lemma {:induction false} DecimalRoundTrip(n: nat)
    ensures DecimalValue(ToDecimal(n)) == n
  {
    if n >= 10 {
      var s := ToDecimal(n);
      assert s[..|s| - 1] == ToDecimal(n / 10);
      DecimalRoundTrip(n / 10);
    }
  }
}
