/** Decimals as text. */
module DecimalCodec {
  import opened Decimal
  import opened DecimalText

  function Zeros(n: nat): (s: string)
    ensures |s| == n && AllDigits(s)
  {
    seq(n, i => '0')
  }

  function PadStart(s: string, size: nat): string {
    if |s| >= size then s else Zeros(size - |s|) + s
  }

  /** The digits of the coefficient, at least one before the point. */
  function Digits(x: Decimal): (s: string)
    requires x.scale >= 0
    ensures |s| > x.scale
  {
    PadStart(NatText(Abs(x.coefficient)), x.scale + 1)
  }

  function FormatDecimal(x: Decimal): string
    requires x.scale >= 0
  {
    var digits := Digits(x);
    var at := |digits| - x.scale;
    var result := if x.scale == 0 then digits else digits[..at] + "." + digits[at..];
    if x.coefficient < 0 then "-" + result else result
  }

  function PointIndex(s: string): (i: nat)
    ensures i <= |s| && '.' !in s[..i] && (i < |s| ==> s[i] == '.')
  {
    if s == "" || s[0] == '.' then 0
    else
      var i := 1 + PointIndex(s[1..]);
      assert s[..i] == [s[0]] + s[1..][..i - 1];
      i
  }

  /** The canonical pattern: a whole part without leading zeros, and a point only before digits. */
  predicate Matches(body: string) {
    var i := PointIndex(body);
    IsNatText(body[..i]) && (i < |body| ==> body[i + 1..] != "" && AllDigits(body[i + 1..]))
  }

  function Fraction(body: string): string {
    if PointIndex(body) < |body| then body[PointIndex(body) + 1..] else ""
  }

  function Body(text: string): string {
    if text != "" && text[0] == '-' then text[1..] else text
  }

  function ParseDecimal(text: string): Result<Decimal> {
    var body := Body(text);
    if !Matches(body) || text == "-0" then Err(InvalidArgument)
    else
      var magnitude: int := NatValue(body[..PointIndex(body)] + Fraction(body));
      Made(if text[0] == '-' then -magnitude else magnitude, |Fraction(body)|)
  }

  // ---- digit strings

  lemma {:induction false} LeadingZero(s: string)
    requires AllDigits(s)
    ensures NatValue("0" + s) == NatValue(s)
  {
    if s == "" {
      assert "0" + s == "0" && ("0")[..0] == "";
    } else {
      LeadingZero(s[..|s| - 1]);
      assert ("0" + s)[..|s|] == "0" + s[..|s| - 1];
    }
  }

  lemma {:induction false} LeadingZeros(n: nat, s: string)
    requires AllDigits(s)
    ensures AllDigits(Zeros(n) + s) && NatValue(Zeros(n) + s) == NatValue(s)
  {
    if n == 0 {
      assert Zeros(n) + s == s;
    } else {
      LeadingZeros(n - 1, s);
      LeadingZero(Zeros(n - 1) + s);
      assert Zeros(n) + s == "0" + (Zeros(n - 1) + s);
    }
  }

  /** A digit string is the text of its value behind zeros. */
  lemma {:induction false} ZerosAndText(s: string)
    requires s != "" && AllDigits(s)
    ensures |NatText(NatValue(s))| <= |s|
    ensures s == Zeros(|s| - |NatText(NatValue(s))|) + NatText(NatValue(s))
  {
    if IsNatText(s) {
      NatValueRoundTrip(s);
    } else {
      var rest := s[1..];
      assert s == "0" + rest;
      LeadingZero(rest);
      ZerosAndText(rest);
      var k := |rest| - |NatText(NatValue(rest))|;
      assert Zeros(k + 1) == "0" + Zeros(k);
    }
  }

  lemma PointAfter(whole: string, fraction: string)
    requires AllDigits(whole)
    ensures PointIndex(whole + "." + fraction) == |whole|
    decreases |whole|
  {
    if whole == "" {
      assert whole + "." + fraction == "." + fraction;
    } else {
      PointAfter(whole[1..], fraction);
      assert (whole + "." + fraction)[1..] == whole[1..] + "." + fraction;
      assert (whole + "." + fraction)[0] == whole[0];
    }
  }

  lemma {:induction false} NoPoint(s: string)
    requires AllDigits(s)
    ensures PointIndex(s) == |s|
  {
    if s != "" { NoPoint(s[1..]); }
  }

  // ---- the round trips

  lemma DigitsShape(x: Decimal)
    requires x.scale >= 0
    ensures AllDigits(Digits(x)) && NatValue(Digits(x)) == Abs(x.coefficient)
    ensures IsNatText(Digits(x)[..|Digits(x)| - x.scale])
  {
    var t := NatText(Abs(x.coefficient));
    NatTextRoundTrip(Abs(x.coefficient));
    if |t| > x.scale {
      var whole := t[..|t| - x.scale];
      assert whole[0] == t[0];
    } else {
      LeadingZeros(x.scale + 1 - |t|, t);
      assert Digits(x)[..1] == "0";
    }
  }

  /** Every decimal is read back from its text, scale included. */
  lemma FormatParses(x: Decimal)
    requires ValidDecimal(x)
    ensures ParseDecimal(FormatDecimal(x)) == Ok(x)
  {
    hide Digits, NatValue, PointIndex, IsNatText;
    DigitsShape(x);
    var digits := Digits(x);
    var at := |digits| - x.scale;
    var whole, fraction := digits[..at], digits[at..];
    assert digits == whole + fraction;
    var result := if x.scale == 0 then digits else whole + "." + fraction;
    assert whole != "" && AllDigits(whole) by { WholeText(whole); }
    assert result[0] == whole[0] && IsDigit(whole[0]);
    assert Body(FormatDecimal(x)) == result;
    if x.scale == 0 { assert whole == digits; NoPoint(digits); } else { PointAfter(whole, fraction); }
    assert result[..PointIndex(result)] == whole && Fraction(result) == fraction;
    ZeroWritten(x, result);
    assert FormatDecimal(x)[1..] == if x.coefficient < 0 then result else result[1..];
    assert ("-0")[1..] == "0";
    assert FormatDecimal(x) != "-0";
    assert NatValue(whole + fraction) == Abs(x.coefficient);
    assert Matches(result);
    assert |fraction| == x.scale;
  }

  lemma WholeText(s: string)
    requires IsNatText(s)
    ensures s != "" && AllDigits(s)
  {
  }

  lemma ZeroWritten(x: Decimal, result: string)
    requires x.scale >= 0
    requires result == if x.scale == 0 then Digits(x)
                else Digits(x)[..|Digits(x)| - x.scale] + "." + Digits(x)[|Digits(x)| - x.scale..]
    ensures result == "0" ==> x.coefficient == 0
  {
    DigitsShape(x);
    assert ("0")[..0] == "" && NatValue("0") == 0;
  }

  /** A minus sign and nothing but zeros and a point behind it. */
  predicate SignedZero(text: string) {
    text != "" && text[0] == '-' && ZeroDigits(text[1..])
  }

  predicate ZeroDigits(s: string) { forall i :: 0 <= i < |s| ==> s[i] == '0' || s[i] == '.' }

  lemma {:induction false} ZeroValue(s: string)
    requires AllDigits(s)
    ensures NatValue(s) == 0 <==> ZeroDigits(s)
  {
    if s != "" {
      ZeroValue(s[..|s| - 1]);
      assert s == s[..|s| - 1] + [s[|s| - 1]];
      assert IsDigit(s[|s| - 1]);
    }
  }

  lemma ZeroBody(body: string)
    requires Matches(body)
    ensures AllDigits(body[..PointIndex(body)] + Fraction(body))
    ensures NatValue(body[..PointIndex(body)] + Fraction(body)) == 0 <==> ZeroDigits(body)
  {
    hide NatValue, PointIndex;
    var i := PointIndex(body);
    var digits := body[..i] + Fraction(body);
    WholeText(body[..i]);
    ZeroValue(digits);
    if i < |body| {
      assert forall k :: 0 <= k < |body| && k != i ==> body[k] == digits[if k < i then k else k - 1];
      assert forall k :: 0 <= k < |digits| ==> digits[k] == body[if k < i then k else k + 1];
    } else {
      assert digits == body;
    }
  }

  /** A text that is read is written back unchanged, except a signed zero with a fraction: only
      "-0" itself is refused, and "-0.0" comes back as "0.0". */
  lemma ParseFormats(text: string)
    requires ParseDecimal(text).Ok?
    ensures FormatDecimal(ParseDecimal(text).value) == text <==> !SignedZero(text)
  {
    hide NatValue, IsNatText, AllDigits, Digits, Matches, PointIndex, ZeroDigits;
    var x := ParseDecimal(text).value;
    var body := Body(text);
    BodyWritten(body, x);
    ZeroBody(body);
    assert text == if text[0] == '-' then "-" + body else body;
    if SignedZero(text) {
      BodyHasNoSign(body);
      assert FormatDecimal(x)[0] == body[0];
    }
  }

  lemma BodyHasNoSign(body: string)
    requires Matches(body)
    ensures body != "" && body[0] != '-'
  {
    WholeText(body[..PointIndex(body)]);
    assert body[0] == body[..PointIndex(body)][0];
  }

  lemma BodyWritten(body: string, x: Decimal)
    requires Matches(body) && x.scale == |Fraction(body)|
    requires Abs(x.coefficient) == NatValue(body[..PointIndex(body)] + Fraction(body))
    ensures var result := if x.scale == 0 then Digits(x)
                else Digits(x)[..|Digits(x)| - x.scale] + "." + Digits(x)[|Digits(x)| - x.scale..];
            result == body
  {
    hide NatValue, Digits, IsNatText;
    var i := PointIndex(body);
    var whole, fraction := body[..i], Fraction(body);
    var all := whole + fraction;
    assert body == if i < |body| then whole + "." + fraction else whole;
    AllWritten(whole, fraction, x);
    assert all[..|all| - x.scale] == whole && all[|all| - x.scale..] == fraction;
  }

  lemma AllWritten(whole: string, fraction: string, x: Decimal)
    requires IsNatText(whole) && AllDigits(fraction) && x.scale == |fraction|
    requires Abs(x.coefficient) == NatValue(whole + fraction)
    ensures Digits(x) == whole + fraction
  {
    hide NatValue;
    var all := whole + fraction;
    ZerosAndText(all);
    if |whole| > 1 {
      assert all[0] == whole[0] && IsNatText(all);
      NatValueRoundTrip(all);
    }
  }

  lemma SignedZeroSlipsThrough()
    ensures ParseDecimal("-0.0") == Ok(Decimal(0, 1)) && FormatDecimal(Decimal(0, 1)) == "0.0"
  {
    assert ("-0.0")[1..] == "0.0";
    PointAfter("0", "0");
    assert "0" + "." + "0" == "0.0";
    assert ("0.0")[..1] == "0" && ("0.0")[2..] == "0";
    assert "0" + "0" == "00" && ("00")[..1] == "0" && ("0")[..0] == "";
    assert NatValue("0") == 0 && NatValue("00") == 0;
    assert Zeros(1) + "0" == "00";
    assert ("00")[..1] + "." + ("00")[1..] == "0.0";
  }

  // ---- what a text means

  /** Digits in front count for more: joining digit strings shifts the first by the length of the
      second. */
  lemma {:induction false} JoinedDigits(a: string, b: string)
    requires AllDigits(a) && AllDigits(b)
    ensures NatValue(a + b) == NatValue(a) * Pow10(|b|) + NatValue(b)
  {
    if b == "" {
      assert a + b == a;
    } else {
      var front := b[..|b| - 1];
      assert (a + b)[..|a + b| - 1] == a + front;
      JoinedDigits(a, front);
      assert Pow10(|b|) == 10 * Pow10(|front|);
    }
  }

  lemma OneDigit(d: nat)
    requires d < 10
    ensures NatValue([['0', '1', '2', '3', '4', '5', '6', '7', '8', '9'][d]]) == d
  {
    var c := ['0', '1', '2', '3', '4', '5', '6', '7', '8', '9'][d];
    assert [c][..0] == "";
  }

  /** The text of a number: a sign, a whole part, and a fraction behind a point if it has one. */
  function Spelled(negative: bool, whole: string, fraction: string): string {
    (if negative then "-" else "") + Unsigned(whole, fraction)
  }

  /** A spelled number is read as its value: whole part plus fraction, with as many places as the
      fraction has digits. Only minus zero without a fraction is refused. */
  lemma SpelledIsRead(negative: bool, whole: string, fraction: string)
    requires IsNatText(whole) && AllDigits(fraction) && |fraction| <= MAX_SAFE_INTEGER
    ensures var magnitude: int := NatValue(whole) * Pow10(|fraction|) + NatValue(fraction);
            ParseDecimal(Spelled(negative, whole, fraction)) ==
              if negative && whole == "0" && fraction == "" then Err(InvalidArgument)
              else Ok(Decimal(if negative then -magnitude else magnitude, |fraction|))
  {
    hide NatValue, Pow10, PointIndex, Fraction, Spelled, Unsigned, AllDigits;
    SpelledParts(negative, whole, fraction);
    UnsignedParts(whole, fraction);
    JoinedDigits(whole, fraction);
  }

  function Unsigned(whole: string, fraction: string): string {
    whole + if fraction == "" then "" else "." + fraction
  }

  lemma SpelledParts(negative: bool, whole: string, fraction: string)
    requires IsNatText(whole) && AllDigits(fraction)
    ensures var text := Spelled(negative, whole, fraction);
            && text != "" && (text[0] == '-' <==> negative) && Body(text) == Unsigned(whole, fraction)
            && (text == "-0" <==> negative && whole == "0" && fraction == "")
  {
    var text, body := Spelled(negative, whole, fraction), Unsigned(whole, fraction);
    assert body[0] == whole[0] && IsDigit(whole[0]);
    if negative { assert text == "-" + body && text[1..] == body; }
    if fraction != "" { assert |body| >= 3; } else { assert body == whole; }
    assert ("-0")[1..] == "0";
  }

  lemma UnsignedParts(whole: string, fraction: string)
    requires IsNatText(whole) && AllDigits(fraction)
    ensures var body := Unsigned(whole, fraction);
            && PointIndex(body) == |whole| && body[..|whole|] == whole && Fraction(body) == fraction
            && (|whole| < |body| ==> fraction != "" && body[|whole| + 1..] == fraction)
  {
    hide PointIndex;
    if fraction == "" {
      assert Unsigned(whole, fraction) == whole;
      NoPoint(whole);
    } else {
      PointAfter(whole, fraction);
      assert Unsigned(whole, fraction) == whole + "." + fraction;
    }
  }

  /** Nothing else is read. */
  lemma OnlySpelledIsRead(text: string) returns (negative: bool, whole: string, fraction: string)
    requires ParseDecimal(text).Ok?
    ensures IsNatText(whole) && AllDigits(fraction) && text == Spelled(negative, whole, fraction)
  {
    hide NatValue;
    var body := Body(text);
    negative := text != "" && text[0] == '-';
    whole, fraction := body[..PointIndex(body)], Fraction(body);
    if PointIndex(body) < |body| { assert body == whole + ("." + fraction); } else { assert body == whole; }
  }
}
