/** What JSON texts are and what they mean, as RFC 8259 gives its grammar, and that the parser reads
    exactly these: strings and numbers first. */
module JsonGrammar {
  import opened DecimalText
  import Decimal
  import opened JsonText
  import Laws = JsonLaws

  /** Blanks, line ends and tabs only. */
  predicate Blank(s: string) { forall i :: 0 <= i < |s| ==> s[i] in " \n\r\t" }

  // ---- characters

  /** Four hexadecimal digits with this value. */
  predicate HexText(t: string, n: int) {
    && |t| == 4 && HexIs(t[0], n / 0x1000) && HexIs(t[1], n / 0x100 % 16) && HexIs(t[2], n / 0x10 % 16)
    && HexIs(t[3], n % 16) && 0 <= n < 0x1_0000
  }

  predicate HexIs(c: char, d: int) {
    0 <= d < 16 && (c == "0123456789abcdef"[d] || c == "0123456789ABCDEF"[d])
  }

  /** One character of a string, as itself, behind a backslash, or by its number. */
  ghost predicate CharText(t: string, c: char) {
    || (t == [c] && c as int >= 0x20 && c != '"' && c != '\\')
    || (t in ["\\\"", "\\\\", "\\/"] && c == t[1])
    || (t == "\\b" && c as int == 8) || (t == "\\f" && c as int == 12)
    || (t == "\\n" && c as int == 10) || (t == "\\r" && c as int == 13) || (t == "\\t" && c as int == 9)
    || (|t| == 6 && t[..2] == "\\u" && HexText(t[2..], c as int))
    || SurrogateText(t, c)
  }

  /** Beyond the basic plane: two numbers, of a high and a low surrogate. */
  ghost predicate SurrogateText(t: string, c: char) {
    && |t| == 12 && t[..2] == "\\u" && t[6..8] == "\\u"
    && exists high, low :: HexText(t[2..6], high) && HexText(t[8..], low) && 0xD800 <= high < 0xDC00
                           && 0xDC00 <= low < 0xE000
                           && c as int == 0x1_0000 + (high - 0xD800) * 0x400 + (low - 0xDC00)
  }

  lemma HexMeans(c: char)
    ensures IsHex(c) <==> exists d :: HexIs(c, d)
    ensures IsHex(c) ==> forall d :: HexIs(c, d) <==> d == HexValue(c)
  {
    if IsHex(c) {
      var v := HexValue(c);
      assert HexIs(c, v);
      forall d | HexIs(c, d) ensures d == v { HexAt(c, d); }
    }
    if d :| HexIs(c, d) { HexAt(c, d); }
  }

  lemma HexAt(c: char, d: int)
    requires HexIs(c, d)
    ensures IsHex(c) && HexValue(c) == d
  {
  }

  lemma FourHexMeans(t: string, n: int)
    ensures HexText(t, n) <==> |t| == 4 && FourHex(t) && n == HexNumber(t)
  {
    hide HexIs, IsHex, HexValue;
    if |t| == 4 {
      HexMeans(t[0]);
      HexMeans(t[1]);
      HexMeans(t[2]);
      HexMeans(t[3]);
      if FourHex(t) {
        var v := HexNumber(t);
        Nibbles(HexValue(t[0]), HexValue(t[1]), HexValue(t[2]), HexValue(t[3]), v, n);
      }
    }
  }

  lemma Nibbles(a: int, b: int, c: int, d: int, v: int, n: int)
    requires 0 <= a < 16 && 0 <= b < 16 && 0 <= c < 16 && 0 <= d < 16
    requires v == a * 0x1000 + b * 0x100 + c * 0x10 + d
    ensures v / 0x1000 == a && v / 0x100 % 16 == b && v / 0x10 % 16 == c && v % 16 == d
    ensures 0 <= n < 0x1_0000 && n / 0x1000 == a && n / 0x100 % 16 == b && n / 0x10 % 16 == c && n % 16 == d ==> n == v
  {
    LowNibble(v, a * 0x100 + b * 0x10 + c, d);
    LowNibble(v / 0x10, a * 0x10 + b, c);
    LowNibble(v / 0x100, a, b);
    assert v / 0x10 / 0x10 == v / 0x100 && v / 0x100 / 0x10 == v / 0x1000;
    assert n / 0x10 / 0x10 == n / 0x100 && n / 0x100 / 0x10 == n / 0x1000;
    assert n == n / 0x10 * 0x10 + n % 16;
    assert n / 0x10 == n / 0x100 * 0x10 + n / 0x10 % 16;
    assert n / 0x100 == n / 0x1000 * 0x10 + n / 0x100 % 16;
  }

  lemma LowNibble(v: int, high: int, low: int)
    requires v == high * 0x10 + low && 0 <= low < 16
    ensures v / 0x10 == high && v % 16 == low
  {
  }

  lemma FourHexFront(s: string)
    ensures FourHex(s) <==> |s| >= 4 && FourHex(s[..4])
    ensures FourHex(s) ==> HexNumber(s) == HexNumber(s[..4])
  {
  }

  /** A character's text in front of anything is read as that character. */
  lemma CharReads(t: string, c: char, rest: string)
    requires CharText(t, c)
    ensures t != "" && t[0] != '"' && StringChar(t + rest) == Ok(Read(c, rest))
  {
    hide HexText, FourHex, HexNumber;
    if |t| == 6 && t[..2] == "\\u" && HexText(t[2..], c as int) {
      EscapeReads(t, c, rest);
    } else if SurrogateText(t, c) {
      PairReads(t, c, rest);
    } else {
      assert (t + rest)[0] == t[0];
      if |t| == 1 { assert (t + rest)[1..] == rest; } else { assert (t + rest)[2..] == rest && (t + rest)[1] == t[1]; }
    }
  }

  lemma EscapeReads(t: string, c: char, rest: string)
    requires |t| == 6 && t[..2] == "\\u" && HexText(t[2..], c as int)
    ensures t[0] == '\\' && StringChar(t + rest) == Ok(Read(c, rest))
  {
    hide HexText, FourHex, HexNumber;
    assert t[0] == t[..2][0] && t[1] == t[..2][1];
    FourHexMeans(t[2..], c as int);
    var s := (t + rest)[2..];
    assert s == t[2..] + rest && s[..4] == t[2..] && s[4..] == rest;
    FourHexFront(s);
    assert (t + rest)[0] == '\\' && (t + rest)[1] == 'u';
  }

  lemma PairReads(t: string, c: char, rest: string)
    requires SurrogateText(t, c)
    ensures t[0] == '\\' && StringChar(t + rest) == Ok(Read(c, rest))
  {
    hide HexText, FourHex, HexNumber;
    var high, low :| HexText(t[2..6], high) && HexText(t[8..], low) && 0xD800 <= high < 0xDC00
                     && 0xDC00 <= low < 0xE000
                     && c as int == 0x1_0000 + (high - 0xD800) * 0x400 + (low - 0xDC00);
    assert t[0] == t[..2][0] && t[1] == t[..2][1] && t[6] == t[6..8][0] && t[7] == t[6..8][1];
    FourHexMeans(t[2..6], high);
    FourHexMeans(t[8..], low);
    var s := (t + rest)[2..];
    var u := s[4..];
    assert s[..4] == t[2..6] && u[0] == '\\' && u[1] == 'u';
    assert u[2..] == t[8..] + rest && u[2..][..4] == t[8..] && u[6..] == rest;
    FourHexFront(s);
    FourHexFront(u[2..]);
    assert (t + rest)[0] == '\\' && (t + rest)[1] == 'u';
  }

  /** What is read as one character is that character's text. */
  lemma ReadIsChar(s: string)
    requires s != "" && s[0] != '"' && StringChar(s).Ok?
    ensures var r := StringChar(s).value;
            s[|s| - |r.rest|..] == r.rest && CharText(s[..|s| - |r.rest|], r.value)
  {
    hide HexText, FourHex, HexNumber;
    if s[0] == '\\' && s[1] == 'u' {
      var t := s[2..];
      FourHexFront(t);
      FourHexMeans(t[..4], HexNumber(t));
      assert s[..2] == "\\u" && s[..6][2..] == t[..4] && s[..6][..2] == "\\u";
      var first := HexNumber(t);
      if 0xD800 <= first <= 0xDBFF {
        var u := t[4..];
        FourHexFront(u[2..]);
        FourHexMeans(u[2..][..4], HexNumber(u[2..]));
        var p := s[..12];
        assert p[..2] == "\\u" && p[6..8] == "\\u" && p[2..6] == t[..4] && p[8..] == u[2..][..4];
        assert SurrogateText(p, StringChar(s).value.value);
        assert u[6..] == s[12..];
      } else {
        assert t[4..] == s[6..];
      }
    } else if s[0] == '\\' {
      assert s[..2] == [s[0], s[1]];
    } else {
      assert s[..1] == [s[0]];
    }
  }

  // ---- strings

  /** The text between the quotes, character by character. */
  ghost predicate CharsText(t: string, str: string)
    decreases |str|
  {
    if str == "" then t == ""
    else exists k :: 0 < k <= |t| && CharText(t[..k], str[0]) && CharsText(t[k..], str[1..])
  }

  ghost predicate StringText(t: string, str: string) {
    |t| >= 2 && t[0] == '"' && t[|t| - 1] == '"' && CharsText(t[1..|t| - 1], str)
  }

  /** It gives the string and leaves the rest, unless the string is over the limit. */
  predicate GivesString(l: Limits, r: Result<Read<string>>, str: string, rest: string) {
    r == if Utf8Length(str) <= l.maxStringBytes then Ok(Read(str, rest)) else Err(ResourceLimit)
  }

  lemma {:induction false} CharsRead(l: Limits, t: string, str: string, rest: string, done: string)
    requires CharsText(t, str)
    ensures GivesString(l, StringChars(l, t + ("\"" + rest), done), done + str, rest)
    decreases |str|
  {
    hide CharText, StringChar, Utf8Length;
    var s := t + ("\"" + rest);
    if str == "" {
      assert s == "\"" + rest && s[1..] == rest && done + str == done;
    } else {
      var k :| 0 < k <= |t| && CharText(t[..k], str[0]) && CharsText(t[k..], str[1..]);
      var tail := t[k..] + ("\"" + rest);
      assert s == t[..k] + tail;
      CharReads(t[..k], str[0], tail);
      CharsRead(l, t[k..], str[1..], rest, done + [str[0]]);
      assert done + [str[0]] + str[1..] == done + str;
      assert s[0] == t[..k][0];
    }
  }

  lemma {:induction false} ReadChars(l: Limits, s: string, done: string) returns (str: string)
    requires StringChars(l, s, done).Ok?
    ensures var r := StringChars(l, s, done).value;
            && |r.rest| < |s| && s[|s| - |r.rest|..] == r.rest && s[|s| - |r.rest| - 1] == '"'
            && r.value == done + str && CharsText(s[..|s| - |r.rest| - 1], str)
    decreases |s|
  {
    hide CharText, StringChar, Utf8Length;
    if s[0] == '"' {
      str := "";
      assert s[..0] == "" && done + str == done;
    } else {
      var c := StringChar(s).value;
      ReadIsChar(s);
      var more := ReadChars(l, c.rest, done + [c.value]);
      str := [c.value] + more;
      var r := StringChars(l, s, done).value;
      var k, n := |s| - |c.rest|, |s| - |r.rest| - 1;
      assert s[..n][..k] == s[..k] && s[..n][k..] == c.rest[..n - k] && str[1..] == more;
      assert done + str == done + [c.value] + more;
      assert s[n] == c.rest[n - k];
      assert c.rest[|c.rest| - |r.rest|..] == s[|s| - |r.rest|..];
    }
  }

  lemma StringReads(l: Limits, t: string, str: string, rest: string)
    requires StringText(t, str)
    ensures GivesString(l, ParseString(l, t + rest), str, rest)
  {
    hide CharsText;
    var inner := t[1..|t| - 1];
    assert t == "\"" + inner + "\"";
    assert (t + rest)[1..] == inner + ("\"" + rest) && (t + rest)[0] == '"';
    CharsRead(l, inner, str, rest, "");
    assert "" + str == str;
  }

  lemma ReadString(l: Limits, s: string)
    requires ParseString(l, s).Ok?
    ensures var r := ParseString(l, s).value;
            |r.rest| < |s| && s[|s| - |r.rest|..] == r.rest && StringText(s[..|s| - |r.rest|], r.value)
  {
    hide CharsText;
    var r := ParseString(l, s).value;
    var str := ReadChars(l, s[1..], "");
    assert "" + str == str;
    var t := s[..|s| - |r.rest|];
    assert t[1..|t| - 1] == s[1..][..|s[1..]| - |r.rest| - 1];
    assert s[1..][|s[1..]| - |r.rest|..] == s[|s| - |r.rest|..];
    assert t[|t| - 1] == s[1..][|s[1..]| - |r.rest| - 1];
  }

  // ---- numbers

  /** A sign, a whole part, a fraction behind a point, and an exponent behind its mark. */
  datatype Spelling = Spelling(
    negative: bool, whole: string, fraction: string, mark: string, sign: string, power: string)

  predicate WellSpelled(sp: Spelling) {
    && IsNatText(sp.whole) && AllDigits(sp.fraction) && AllDigits(sp.power)
    && sp.mark in ["", "e", "E"] && sp.sign in ["", "+", "-"]
    && (sp.mark == "" ==> sp.sign == "" && sp.power == "") && (sp.mark != "" ==> sp.power != "")
  }

  function Spell(sp: Spelling): string {
    (if sp.negative then "-" else "")
    + (sp.whole + (PointText(sp.fraction) + (sp.mark + (sp.sign + sp.power))))
  }

  function Coefficient(sp: Spelling): int
    requires WellSpelled(sp)
  {
    var n: int := NatValue(sp.whole + sp.fraction);
    if sp.negative then -n else n
  }

  function PowerOf(sp: Spelling): int
    requires WellSpelled(sp)
  {
    SignedPower(sp.sign, sp.power)
  }

  /** The reduced number whose value is `c` times ten to the `k`. */
  ghost predicate Worth(v: Json, c: int, k: int) {
    && v.Number? && Laws.ReducedNumber(v.coefficient, v.scale) && (v.coefficient == 0 ==> v.scale == 0)
    && if k >= 0 then v.coefficient == c * Decimal.Pow10(k) * Decimal.Pow10(v.scale)
       else v.coefficient * Decimal.Pow10(-k) == c * Decimal.Pow10(v.scale)
  }

  /** These digits, point and exponent stand for this number. */
  ghost predicate Means(sp: Spelling, v: Json) {
    WellSpelled(sp) && Worth(v, Coefficient(sp), PowerOf(sp) - |sp.fraction|)
  }

  lemma {:induction false} ReducedWorth(c: int, scale: nat)
    ensures var r := Reduced(c, scale);
            r.1 <= scale && c == r.0 * Decimal.Pow10(scale - r.1) && (r.1 > 0 ==> r.0 % 10 != 0)
    decreases scale
  {
    if scale > 0 && c % 10 == 0 {
      ReducedWorth(c / 10, scale - 1);
      var r := Reduced(c, scale);
      assert c == 10 * (c / 10);
      assert Decimal.Pow10(scale - r.1) == 10 * Decimal.Pow10(scale - 1 - r.1);
    }
  }

  lemma ExactWorth(c: int, scale: int)
    ensures Worth(Exact(c, scale), c, -scale)
  {
    hide Reduced;
    if scale <= 0 {
      ReducedNothing(c * Decimal.Pow10(-scale));
      assert Decimal.Pow10(0) == 1;
      if scale == 0 { assert c * 1 == c; }
    } else {
      ReducedWorth(c, scale);
      var r := Reduced(c, scale);
      Decimal.Pow10Adds(scale - r.1, r.1);
      var v := Exact(c, scale);
      if r.0 == 0 {
        assert c == 0;
      } else {
        ScaleUp(r.0, c, Decimal.Pow10(scale - r.1), Decimal.Pow10(r.1), Decimal.Pow10(scale));
      }
    }
  }

  lemma ScaleUp(r: int, c: int, p: int, q: int, whole: int)
    requires c == r * p && whole == p * q
    ensures r * whole == c * q
  {
  }

  lemma ReducedNothing(c: int)
    ensures Reduced(c, 0) == (c, 0)
  {
  }

  /** There is only one such number. */
  lemma WorthUnique(v: Json, w: Json, c: int, k: int)
    requires Worth(v, c, k) && Worth(w, c, k)
    ensures v == w
  {
    var p, q := Decimal.Pow10(v.scale), Decimal.Pow10(w.scale);
    if k >= 0 {
      var x := c * Decimal.Pow10(k);
      assert v.coefficient * q == w.coefficient * p by { Crossed(v.coefficient, w.coefficient, x, p, q); }
    } else {
      CrossedBelow(v.coefficient, w.coefficient, c, Decimal.Pow10(-k), p, q);
    }
    if v.scale >= w.scale { SameScale(v, w); } else { SameScale(w, v); }
  }

  lemma Crossed(a: int, b: int, x: int, p: int, q: int)
    requires a == x * p && b == x * q
    ensures a * q == b * p
  {
  }

  lemma CrossedBelow(a: int, b: int, c: int, d: int, p: int, q: int)
    requires a * d == c * p && b * d == c * q && d > 0
    ensures a * q == b * p
  {
    assert (a * q) * d == (a * d) * q == (c * p) * q == (c * q) * p == (b * d) * p == (b * p) * d;
    if a * q != b * p { assert (a * q - b * p) * d != 0 by { NonZero(a * q - b * p, d); } }
  }

  lemma NonZero(x: int, d: int)
    requires x != 0 && d > 0
    ensures x * d != 0
  {
  }

  lemma SameScale(v: Json, w: Json)
    requires v.Number? && w.Number? && v.scale >= w.scale >= 0
    requires Laws.ReducedNumber(v.coefficient, v.scale) && Laws.ReducedNumber(w.coefficient, w.scale)
    requires v.coefficient == 0 ==> v.scale == 0
    requires v.coefficient * Decimal.Pow10(w.scale) == w.coefficient * Decimal.Pow10(v.scale)
    ensures v == w
  {
    var n := v.scale - w.scale;
    var p := Decimal.Pow10(w.scale);
    Decimal.Pow10Adds(n, w.scale);
    assert (v.coefficient - w.coefficient * Decimal.Pow10(n)) * p == 0 by {
      Regroup(v.coefficient, w.coefficient, Decimal.Pow10(n), p, Decimal.Pow10(v.scale));
    }
    var difference := v.coefficient - w.coefficient * Decimal.Pow10(n);
    if difference != 0 { NonZero(difference, p); }
    if n > 0 { TenDivides(v.coefficient, w.coefficient, n); } else { assert Decimal.Pow10(0) == 1; }
  }

  lemma TenDivides(a: int, b: int, n: nat)
    requires n > 0 && a == b * Decimal.Pow10(n)
    ensures a % 10 == 0
  {
    assert a == 10 * (b * Decimal.Pow10(n - 1));
  }

  lemma Regroup(a: int, b: int, m: int, p: int, whole: int)
    requires a * p == b * whole && whole == m * p
    ensures (a - b * m) * p == 0
  {
    assert b * whole == (b * m) * p;
  }

  predicate NoDigit(u: string) { u == "" || !IsDigit(u[0]) }

  lemma FractionReads(fraction: string, u: string)
    requires AllDigits(fraction) && NoDigit(u) && (u == "" || u[0] != '.')
    ensures var t := PointText(fraction) + u;
            FractionLength(t) == (if fraction == "" then 0 else 1 + |fraction|)
  {
    if fraction == "" {
      assert "" + u == u;
    } else {
      var t := "." + fraction + u;
      assert t[1..] == fraction + u;
      Laws.DigitsOf(fraction, u);
    }
  }

  lemma SignReads(sign: string, v: string)
    requires sign in ["", "+", "-"] && v != "" && IsDigit(v[0])
    ensures SignLength(sign + v) == |sign| && (sign + v)[|sign|..] == v
    ensures sign != "" ==> (sign + v)[0] == sign[0]
  {
    if sign == "" { assert sign + v == v; }
  }

  /** The value an exponent adds to the scale. */
  function SignedPower(sign: string, power: string): int
    requires AllDigits(power)
  {
    var n: int := NatValue(power);
    if sign == "-" then -n else n
  }

  lemma ExponentReads(mark: string, sign: string, power: string, u: string)
    requires mark in ["e", "E"] && sign in ["", "+", "-"] && power != "" && AllDigits(power) && NoDigit(u)
    ensures var t := mark + (sign + (power + u));
            && SignLength(t[1..]) == |sign| && ExponentLength(t) == 1 + |sign| + |power|
            && ExponentValue(t) == SignedPower(sign, power) && t[1 + |sign| + |power|..] == u
  {
    hide NatValue, Digits, SignLength;
    var t := mark + (sign + (power + u));
    assert t[0] == mark[0] && t[1..] == sign + (power + u);
    assert (power + u)[0] == power[0];
    SignReads(sign, power + u);
    assert t[1 + |sign|..] == t[1..][|sign|..] == power + u;
    Laws.DigitsOf(power, u);
    assert (power + u)[..|power|] == power && (power + u)[|power|..] == u;
    assert t[1 + |sign| + |power|..] == t[1 + |sign|..][|power|..];
    if sign != "" { assert t[1] == t[1..][0] == sign[0]; }
  }

  lemma EndsNumber(rest: string)
    requires NumberEnds(rest)
    ensures NoDigit(rest) && (rest == "" || (rest[0] != '.' && rest[0] !in "eE"))
  {
  }

  /** The limit on digits holds for all that are written and for the exponent's value. */
  predicate NumberFits(l: Limits, digits: nat, power: int) {
    digits <= l.maxNumberDigits && Decimal.Abs(power) <= l.maxNumberDigits
    && Decimal.Abs(power) <= Decimal.MAX_SAFE_INTEGER
  }

  predicate SpellingFits(l: Limits, sp: Spelling)
    requires WellSpelled(sp)
  {
    NumberFits(l, |sp.whole| + |sp.fraction| + |sp.power|, PowerOf(sp))
  }

  /** It gives the number and leaves the rest, unless the number is over the limit. */
  predicate GivesNumber(r: Result<Read<Json>>, fits: bool, v: Json, rest: string) {
    r == if fits then Ok(Read(v, rest)) else Err(ResourceLimit)
  }

  /** What the parser makes of a number whose parts have these lengths. */
  lemma UnsignedIs(l: Limits, negative: bool, t: string, whole: nat, fraction: nat, exponent: nat, more: nat,
                   power: int)
    requires whole == WholeLength(t) > 0 && fraction == FractionLength(t[whole..])
    requires exponent == ExponentLength(t[whole + fraction..]) && NumberEnds(t[whole + fraction..][exponent..])
    requires power == if exponent > 0 then ExponentValue(t[whole + fraction..]) else 0
    requires more == PowerDigits(t[whole + fraction..])
    ensures var digits := NumberDigits(t, whole, fraction);
            var n: int := NatValue(digits);
            var places := if fraction > 0 then fraction - 1 else 0;
            GivesNumber(ParseUnsigned(l, negative, t), NumberFits(l, |digits| + more, power),
                        Exact(if negative then -n else n, places - power), t[whole + fraction..][exponent..])
  {
    hide NatValue, Exact, NumberEnds, ExponentValue, ExponentLength, FractionLength, WholeLength;
  }

  function PowerDigits(tail: string): int {
    if ExponentLength(tail) > 0 then ExponentLength(tail) - 1 - SignLength(tail[1..]) else 0
  }

  function PointText(fraction: string): string { if fraction == "" then "" else "." + fraction }

  /** The parser's cuts of the text are the spelling's parts, and this is left. */
  ghost predicate Cut(t: string, sp: Spelling, rest: string) {
    && WellSpelled(sp) && WholeLength(t) == |sp.whole| > 0 && FractionCut(t, |sp.whole|, sp)
    && var tail := t[|sp.whole| + |PointText(sp.fraction)|..];
    tail[ExponentLength(tail)..] == rest && TailCut(tail, sp)
  }

  ghost predicate FractionCut(t: string, whole: nat, sp: Spelling)
    requires whole == WholeLength(t)
  {
    var point := |PointText(sp.fraction)|;
    FractionLength(t[whole..]) == point && NumberDigits(t, whole, point) == sp.whole + sp.fraction
  }

  ghost predicate TailCut(tail: string, sp: Spelling)
    requires WellSpelled(sp)
  {
    && PowerDigits(tail) == |sp.power|
    && PowerOf(sp) == if ExponentLength(tail) > 0 then ExponentValue(tail) else 0
  }

  /** What reading this spelling gives. */
  predicate ReadAs(l: Limits, r: Result<Read<Json>>, sp: Spelling, rest: string) {
    && WellSpelled(sp)
    && GivesNumber(r, SpellingFits(l, sp), Exact(Coefficient(sp), |sp.fraction| - PowerOf(sp)), rest)
  }

  lemma CutGives(l: Limits, t: string, sp: Spelling, rest: string)
    requires Cut(t, sp, rest) && NumberEnds(rest)
    ensures ReadAs(l, ParseUnsigned(l, sp.negative, t), sp, rest)
  {
    hide NatValue, Exact, IsNatText, NumberEnds, ExponentValue, ExponentLength, FractionLength, WholeLength;
    hide ParseUnsigned, NumberDigits, AllDigits, SignedPower, PowerDigits, NumberFits;
    var whole, fraction := |sp.whole|, |PointText(sp.fraction)|;
    var exponent := ExponentLength(t[whole + fraction..]);
    UnsignedIs(l, sp.negative, t, whole, fraction, exponent, |sp.power|, PowerOf(sp));
  }

  lemma SpeltCuts(sp: Spelling, rest: string)
    requires WellSpelled(sp) && NumberEnds(rest)
    ensures Cut(Spell(sp.(negative := false)) + rest, sp, rest)
  {
    hide IsNatText, NumberEnds, ExponentLength, FractionLength, WholeLength;
    hide NumberDigits, Spell, NoDigit, AllDigits, PointText, TailCut;
    Flattened(sp, rest);
    EndsNumber(rest);
    MarkStarts(sp, rest);
    PartsRead(sp.whole, sp.fraction, sp.mark + (sp.sign + (sp.power + rest)));
    TailReads(sp, rest);
  }

  lemma PartsRead(whole: string, fraction: string, u: string)
    requires IsNatText(whole) && AllDigits(fraction) && NoDigit(u) && (u == "" || u[0] != '.')
    ensures var t := whole + (PointText(fraction) + u);
            var n, k := |whole|, |PointText(fraction)|;
            && WholeLength(t) == n > 0 && FractionLength(t[n..]) == k && t[n + k..] == u
            && NumberDigits(t, n, k) == whole + fraction
  {
    hide WholeLength, FractionLength, NoDigit, IsNatText, AllDigits;
    var point := PointText(fraction);
    var t := whole + (point + u);
    var n, k := |whole|, |point|;
    PointStarts(fraction, u);
    Laws.WholeOf(whole, point + u);
    FractionReads(fraction, u);
    WholeNotEmpty(whole);
    assert t[n..] == point + u && t[..n] == whole && t[n + k..] == u;
    assert k > 0 ==> t[n + 1..n + k] == fraction;
  }

  lemma TailReads(sp: Spelling, rest: string)
    requires WellSpelled(sp) && NoDigit(rest) && (rest == "" || rest[0] !in "eE")
    ensures var u := sp.mark + (sp.sign + (sp.power + rest)); u[ExponentLength(u)..] == rest && TailCut(u, sp)
  {
    hide NatValue, ExponentValue, ExponentLength;
    if sp.mark == "" {
      assert "" + ("" + ("" + rest)) == rest;
      NoExponent(rest);
      NothingIsZero();
    } else {
      ExponentReads(sp.mark, sp.sign, sp.power, rest);
    }
  }

  lemma Flattened(sp: Spelling, rest: string)
    ensures Spell(sp.(negative := false)) + rest ==
              sp.whole + (PointText(sp.fraction) + (sp.mark + (sp.sign + (sp.power + rest))))
  {
    var end := sp.sign + sp.power;
    assert end + rest == sp.sign + (sp.power + rest);
    assert (sp.mark + end) + rest == sp.mark + (end + rest);
    var tail := PointText(sp.fraction) + (sp.mark + end);
    assert tail + rest == PointText(sp.fraction) + ((sp.mark + end) + rest);
    assert Spell(sp.(negative := false)) == sp.whole + tail;
    assert (sp.whole + tail) + rest == sp.whole + (tail + rest);
  }

  lemma PointStarts(fraction: string, u: string)
    requires NoDigit(u)
    ensures NoDigit(PointText(fraction) + u)
  {
    if fraction == "" { assert PointText(fraction) + u == u; }
  }

  lemma NoExponent(rest: string)
    requires rest == "" || rest[0] !in "eE"
    ensures ExponentLength(rest) == 0
  {
  }

  lemma NothingIsZero()
    ensures NatValue("") == 0
  {
  }

  lemma WholeNotEmpty(s: string)
    requires IsNatText(s)
    ensures s != "" && IsDigit(s[0])
  {
  }

  lemma MarkStarts(sp: Spelling, rest: string)
    requires WellSpelled(sp) && NoDigit(rest) && (rest == "" || rest[0] != '.')
    ensures var u := sp.mark + (sp.sign + (sp.power + rest)); NoDigit(u) && (u == "" || u[0] != '.')
  {
    var u := sp.mark + (sp.sign + (sp.power + rest));
    if sp.mark == "" { assert u == rest; } else { assert u[0] == sp.mark[0]; }
  }

  /** A number's text in front of what may follow it is read as that number. */
  lemma NumberReads(l: Limits, sp: Spelling, v: Json, rest: string)
    requires Means(sp, v) && NumberEnds(rest)
    ensures var t := Spell(sp);
            && t != "" && (t[0] == '-' || IsDigit(t[0]))
            && GivesNumber(ParseNumber(l, t + rest), SpellingFits(l, sp), v, rest)
  {
    hide ParseUnsigned, Worth, Exact, NumberEnds, Coefficient, PowerOf, Cut, SpellingFits;
    var c, scale := Coefficient(sp), |sp.fraction| - PowerOf(sp);
    ExactWorth(c, scale);
    WorthUnique(v, Exact(c, scale), c, -scale);
    var t, bare := Spell(sp), Spell(sp.(negative := false));
    SpeltCuts(sp, rest);
    CutGives(l, bare + rest, sp, rest);
    assert bare != "" && IsDigit(bare[0]) by { assert bare[0] == sp.whole[0]; }
    if sp.negative {
      assert t == "-" + bare && (t + rest)[1..] == bare + rest;
    } else {
      assert t == bare;
    }
  }

  /** What is read as a number is that number's text. */
  lemma ReadNumber(l: Limits, s: string) returns (sp: Spelling)
    requires ParseNumber(l, s).Ok?
    ensures var r := ParseNumber(l, s).value;
            Means(sp, r.value) && s == Spell(sp) + r.rest
  {
    hide NatValue, Exact, NumberEnds, Worth, ParseUnsigned, WellSpelled, Coefficient, PowerOf, Spell, SpellingFits;
    var r := ParseNumber(l, s).value;
    var negative := s != "" && s[0] == '-';
    var t := if negative then s[1..] else s;
    sp := SpellingOf(l, negative, t);
    ExactWorth(Coefficient(sp), |sp.fraction| - PowerOf(sp));
    SignedSpell(sp);
    if negative { assert s == "-" + t; }
  }

  lemma SignedSpell(sp: Spelling)
    ensures Spell(sp) == (if sp.negative then "-" else "") + Spell(sp.(negative := false))
    ensures sp.negative ==> forall rest :: Spell(sp) + rest == "-" + (Spell(sp.(negative := false)) + rest)
    ensures !sp.negative ==> Spell(sp) == Spell(sp.(negative := false))
  {
  }

  lemma SpellingOf(l: Limits, negative: bool, t: string) returns (sp: Spelling)
    requires ParseUnsigned(l, negative, t).Ok?
    ensures ReadAs(l, ParseUnsigned(l, negative, t), sp, ParseUnsigned(l, negative, t).value.rest)
    ensures sp.negative == negative && t == Spell(sp.(negative := false)) + ParseUnsigned(l, negative, t).value.rest
  {
    hide ParseUnsigned, Cut, Spell, WellSpelled, NumberEnds, Exact;
    UnsignedOk(l, negative, t);
    var rest: string;
    sp, rest := CutOf(negative, t);
    CutGives(l, t, sp, rest);
  }

  lemma CutOf(negative: bool, t: string) returns (sp: Spelling, rest: string)
    requires WholeLength(t) > 0
    ensures Cut(t, sp, rest) && sp.negative == negative && t == Spell(sp.(negative := false)) + rest
    ensures rest == AfterNumber(t)
  {
    hide ExponentValue, ExponentLength, FractionLength, WholeLength, Spell, IsNatText;
    hide NumberDigits, PointText, AllDigits, PowerDigits;
    var whole := WholeLength(t);
    var fraction := FractionLength(t[whole..]);
    var digits := FractionOf(t, whole);
    WholeIsNat(t);
    var exponent, mark, sign, power := TailOf(t[whole + fraction..]);
    sp, rest := Spelling(negative, t[..whole], digits, mark, sign, power), AfterNumber(t);
    ThreeParts(t, whole, fraction);
    Flattened(sp, rest);
  }

  lemma ThreeParts(t: string, a: nat, b: nat)
    requires a + b <= |t|
    ensures t == t[..a] + (t[a..a + b] + t[a + b..])
  {
  }

  function AfterNumber(t: string): string {
    var whole := WholeLength(t);
    var fraction := FractionLength(t[whole..]);
    t[whole + fraction..][ExponentLength(t[whole + fraction..])..]
  }

  lemma TailOf(tail: string) returns (exponent: nat, mark: string, sign: string, power: string)
    ensures exponent == ExponentLength(tail) <= |tail| && tail == mark + (sign + (power + tail[exponent..]))
    ensures AllDigits(power) && mark in ["", "e", "E"] && sign in ["", "+", "-"]
    ensures (mark == "" ==> sign == "" && power == "") && (mark != "" ==> power != "")
    ensures SignedPower(sign, power) == if exponent > 0 then ExponentValue(tail) else 0
    ensures PowerDigits(tail) == |power|
  {
    hide NatValue, ExponentValue, ExponentLength;
    exponent := ExponentLength(tail);
    if exponent == 0 {
      mark, sign, power := "", "", "";
      assert "" + ("" + ("" + tail)) == tail;
      NothingIsZero();
    } else {
      mark := tail[..1];
      sign, power := ExponentOf(tail);
    }
  }

  lemma UnsignedOk(l: Limits, negative: bool, t: string)
    requires ParseUnsigned(l, negative, t).Ok?
    ensures WholeLength(t) > 0 && NumberEnds(AfterNumber(t))
  {
    hide NatValue, Exact, NumberEnds, ExponentValue, ExponentLength, FractionLength, WholeLength;
  }

  lemma FractionOf(t: string, whole: nat) returns (digits: string)
    requires whole == WholeLength(t)
    ensures var fraction := FractionLength(t[whole..]);
            && AllDigits(digits) && t[whole..whole + fraction] == PointText(digits)
            && |digits| == (if fraction > 0 then fraction - 1 else 0)
            && NumberDigits(t, whole, fraction) == t[..whole] + digits
  {
    hide Digits;
    var fraction := FractionLength(t[whole..]);
    digits := if fraction > 0 then t[whole + 1..whole + fraction] else "";
    if fraction > 0 {
      assert t[whole..][1..fraction] == t[whole + 1..whole + fraction];
      assert t[whole..whole + fraction] == [t[whole]] + t[whole + 1..whole + fraction];
    }
  }

  lemma ExponentOf(tail: string) returns (sign: string, power: string)
    requires ExponentLength(tail) > 0
    ensures tail[..1] in ["e", "E"] && sign in ["", "+", "-"] && power != "" && AllDigits(power)
    ensures tail == tail[..1] + (sign + (power + tail[ExponentLength(tail)..]))
    ensures ExponentValue(tail) == SignedPower(sign, power) && PowerDigits(tail) == |power|
  {
    hide NatValue, Digits;
    var k := SignLength(tail[1..]);
    sign := tail[1..1 + k];
    var n := Digits(tail[1 + k..]);
    power := tail[1 + k..][..n];
    assert tail[..1] == [tail[0]];
    if k == 1 { assert sign == [tail[1]]; }
    FourParts(tail, 1, k, n);
  }

  lemma FourParts(t: string, a: nat, b: nat, c: nat)
    requires a + b + c <= |t|
    ensures t == t[..a] + (t[a..a + b] + (t[a + b..][..c] + t[a + b + c..]))
  {
    assert t[a + b..] == t[a + b..][..c] + t[a + b + c..];
    ThreeParts(t, a, b);
  }

  lemma WholeIsNat(t: string)
    requires WholeLength(t) > 0
    ensures IsNatText(t[..WholeLength(t)])
  {
    var whole := t[..WholeLength(t)];
    assert whole[0] == t[0];
  }
}
