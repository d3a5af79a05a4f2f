/** Numbers in decimal, as the standard library prints and reads them. */
module Decimal {
  import opened Lists

  predicate IsDigit(c: char) {
    '0' <= c <= '9'
  }

  predicate AllDigits(s: string) {
    forall i :: 0 <= i < |s| ==> IsDigit(s[i])
  }

  function Format(n: nat): (s: string)
    ensures s != "" && AllDigits(s)
    decreases n
  {
    if n < 10 then ['0' + n as char] else Format(n / 10) + ['0' + (n % 10) as char]
  }

  function Value(s: string): nat
    requires AllDigits(s)
  {
    if s == "" then 0 else 10 * Value(s[..|s|-1]) + (s[|s|-1] - '0') as nat
  }

  const UINT32_MAX := 0xFFFF_FFFF

  function ParseUint32(s: string): Option<nat> {
    if s != "" && AllDigits(s) && Value(s) <= UINT32_MAX then Some(Value(s)) else None
  }

  lemma DecimalExample()
    ensures Format(65530) == "65530" && Value("65530") == 65530
  {
    FormatValue(65530);
    assert Format(65) == "65" && Format(655) == "655";
  }

  lemma {:induction false} FormatValue(n: nat)
    ensures Value(Format(n)) == n
  {
    if n >= 10 {
      FormatValue(n / 10);
      assert Format(n)[..|Format(n)|-1] == Format(n / 10);
    }
  }
}
