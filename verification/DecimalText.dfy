/** Natural numbers as decimal text without leading zeros. */
module DecimalText {

  predicate IsDigit(c: char) {
    '0' <= c <= '9'
  }

  function DigitOf(d: nat): (c: char)
    requires d < 10
    ensures IsDigit(c)
  {
    '0' + d as char
  }

  function DigitValue(c: char): (d: nat)
    requires IsDigit(c)
    ensures d < 10
  {
    c as int - '0' as int
  }

  predicate AllDigits(s: string) {
    forall i :: 0 <= i < |s| ==> IsDigit(s[i])
  }

  /** The pattern (0|[1-9][0-9]*). */
  predicate IsNatText(s: string) {
    s != "" && AllDigits(s) && (|s| > 1 ==> s[0] != '0')
  }

  function NatText(n: nat): (s: string) {
    if n < 10 then [DigitOf(n)] else NatText(n / 10) + [DigitOf(n % 10)]
  }

  function NatValue(s: string): nat
    requires AllDigits(s)
  {
    if s == "" then 0 else NatValue(s[..|s| - 1]) * 10 + DigitValue(s[|s| - 1])
  }

  lemma {:induction false} NatTextRoundTrip(n: nat)
    ensures IsNatText(NatText(n)) && NatValue(NatText(n)) == n
    ensures NatText(n)[0] == '0' <==> n == 0
  {
    if n < 10 {
      assert [DigitOf(n)][..0] == "";
    } else {
      NatTextRoundTrip(n / 10);
      assert NatText(n)[..|NatText(n)| - 1] == NatText(n / 10);
      assert NatText(n)[0] == NatText(n / 10)[0];
    }
  }

  lemma {:induction false} NatValueRoundTrip(s: string)
    requires IsNatText(s)
    ensures NatText(NatValue(s)) == s
    ensures NatValue(s) == 0 <==> s == "0"
  {
    var front, last := s[..|s| - 1], s[|s| - 1];
    assert s == front + [last];
    if |s| > 1 {
      NatValueRoundTrip(front);
      assert front[0] == s[0];
    } else {
      assert front == "";
    }
  }

  /** Minus sign and magnitude; zero has no sign. */
  function IntText(n: int): string {
    if n < 0 then "-" + NatText(-n) else NatText(n)
  }

  lemma IntTextIsNat(n: int)
    ensures IsNatText(IntText(n)) <==> n >= 0
  {
    if n >= 0 { NatTextRoundTrip(n); } else { assert IntText(n)[0] == '-'; }
  }
}
