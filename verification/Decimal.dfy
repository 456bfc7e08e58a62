/** Decimal text of unsigned numbers, as the server prints and parses versions. */
module Decimal {
  import opened Storage

  const TWO_TO_THE_64 := 0x1_0000_0000_0000_0000

  function DigitChar(d: nat): char
    requires d < 10
  {
    "0123456789"[d]
  }

  predicate IsDigit(c: char) {
    '0' <= c <= '9'
  }

  function DigitValue(c: char): nat
    requires IsDigit(c)
  {
    c as nat - '0' as nat
  }

  lemma DigitRoundTrip(d: nat)
    requires d < 10
    ensures IsDigit(DigitChar(d)) && DigitValue(DigitChar(d)) == d
  {
  }

  function Format(n: nat): string {
    if n < 10 then [DigitChar(n)] else Format(n / 10) + [DigitChar(n % 10)]
  }

  predicate AllDigits(s: string) {
    forall i :: 0 <= i < |s| ==> IsDigit(s[i])
  }

  function Value(s: string): nat
    requires AllDigits(s)
  {
    if s == "" then 0 else 10 * Value(s[..|s| - 1]) + DigitValue(s[|s| - 1])
  }

  /** Base 10, at most 64 bits: no sign, no empty text; leading zeros are fine. */
  function ParseUint(s: string): Option<nat> {
    if s == "" || !AllDigits(s) || Value(s) >= TWO_TO_THE_64 then None else Some(Value(s))
  }

  lemma {:induction false} FormatValue(n: nat)
    ensures Format(n) != "" && AllDigits(Format(n)) && Value(Format(n)) == n
  {
    if n < 10 {
      DigitRoundTrip(n);
      assert Format(n)[..0] == "";
    } else {
      FormatValue(n / 10);
      DigitRoundTrip(n % 10);
      assert Format(n)[..|Format(n)| - 1] == Format(n / 10);
    }
  }

  /** A number that fits comes back from its own text. */
  lemma ParseFormat(n: nat)
    ensures ParseUint(Format(n)) == if n < TWO_TO_THE_64 then Some(n) else None
  {
    FormatValue(n);
  }

  lemma FormatInjective(m: nat, n: nat)
    ensures Format(m) == Format(n) <==> m == n
  {
    FormatValue(m);
    FormatValue(n);
  }
}
