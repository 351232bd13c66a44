/** Reading what was written, and what reading always gives. */
module JsonLaws {
  import opened Sorting
  import opened TextOrder
  import opened DecimalText
  import Decimal
  import DecimalCodec
  import opened JsonText

  // ---- canonical values

  ghost predicate KeysAscend(entries: seq<Entry>) {
    forall i, j ::
      0 <= i < j < |entries| ==> TextBefore(entries[i].key, entries[j].key) && entries[i].key != entries[j].key
  }

  predicate ReducedNumber(c: int, scale: int) {
    scale >= 0 && (scale > 0 ==> c % 10 != 0)
  }

  /** Numbers are reduced and objects have sorted unique keys. */
  ghost predicate Tidy(v: Json)
    decreases v
  {
    match v
    case Null => true
    case Bool(_) => true
    case Number(c, scale) => ReducedNumber(c, scale)
    case Str(_) => true
    case Array(values) => forall i :: 0 <= i < |values| ==> Tidy(values[i])
    case Object(entries) => (forall i :: 0 <= i < |entries| ==> TidyEntry(entries[i])) && KeysAscend(entries)
  }

  ghost predicate TidyEntry(e: Entry)
    decreases e
  {
    Tidy(e.value)
  }

  /** No string or key starts with a byte order mark. */
  ghost predicate BomFree(v: Json)
    decreases v
  {
    match v
    case Null => true
    case Bool(_) => true
    case Number(_, _) => true
    case Str(s) => !BomLed(s)
    case Array(values) => forall i :: 0 <= i < |values| ==> BomFree(values[i])
    case Object(entries) => forall i :: 0 <= i < |entries| ==> BomFreeEntry(entries[i])
  }

  ghost predicate BomFreeEntry(e: Entry)
    decreases e
  {
    !BomLed(e.key) && BomFree(e.value)
  }

  ghost predicate Canonical(v: Json) { Tidy(v) && BomFree(v) }

  lemma {:induction false} TidyNumbers(v: Json)
    requires Tidy(v)
    ensures NumbersOk(v)
    decreases v
  {
    match v
    case Null => case Bool(_) => case Number(_, _) => case Str(_) =>
    case Array(values) => forall i | 0 <= i < |values| ensures NumbersOk(values[i]) { TidyNumbers(values[i]); }
    case Object(entries) =>
      forall i | 0 <= i < |entries| ensures EntryNumbersOk(entries[i]) {
        assert TidyEntry(entries[i]);
        TidyNumbers(entries[i].value);
      }
  }

  // ---- what is left of a value in its text

  /** Each string and key without its leading byte order mark; members sorted again. */
  ghost function Stripped(v: Json): Json
    decreases v
  {
    match v
    case Null => v
    case Bool(_) => v
    case Number(_, _) => v
    case Str(s) => Str(HostText(s))
    case Array(values) => Array(StrippedItems(values))
    case Object(entries) => Object(Sort(StrippedMembers(entries), KeyBefore))
  }

  ghost function StrippedItems(values: seq<Json>): (r: seq<Json>)
    ensures |r| == |values|
    decreases values
  {
    if values == [] then [] else StrippedItems(values[..|values| - 1]) + [Stripped(values[|values| - 1])]
  }

  ghost function StrippedMember(e: Entry): Entry
    decreases e
  {
    Entry(HostText(e.key), Stripped(e.value))
  }

  ghost function StrippedMembers(entries: seq<Entry>): (r: seq<Entry>)
    ensures |r| == |entries|
    decreases entries
  {
    if entries == [] then [] else StrippedMembers(entries[..|entries| - 1]) + [StrippedMember(entries[|entries| - 1])]
  }

  /** The text of an earlier key is the same. */
  ghost predicate KeyTextBefore(entries: seq<Entry>, k: int)
    requires 0 <= k < |entries|
  {
    exists i :: 0 <= i < k && HostText(entries[i].key) == HostText(entries[k].key)
  }

  /** Somewhere in it an object has two keys with one text. */
  ghost predicate Clashes(v: Json)
    decreases v
  {
    match v
    case Null => false
    case Bool(_) => false
    case Number(_, _) => false
    case Str(_) => false
    case Array(values) => exists i :: 0 <= i < |values| && Clashes(values[i])
    case Object(entries) => exists i :: 0 <= i < |entries| && (MemberClashes(entries[i]) || KeyTextBefore(entries, i))
  }

  ghost predicate MemberClashes(e: Entry)
    decreases e
  {
    Clashes(e.value)
  }

  ghost predicate ItemsClash(values: seq<Json>, k: nat) {
    exists i :: k <= i < |values| && Clashes(values[i])
  }

  ghost predicate MembersClash(entries: seq<Entry>, k: nat) {
    exists i :: k <= i < |entries| && (MemberClashes(entries[i]) || KeyTextBefore(entries, i))
  }

  lemma {:induction false} StrippedKey(entries: seq<Entry>, k: nat, key: string)
    requires k <= |entries|
    ensures HasKey(StrippedMembers(entries[..k]), key) <==> exists i :: 0 <= i < k && HostText(entries[i].key) == key
  {
    hide HasKey, HostText, Stripped;
    if k == 0 {
      assert !HasKey(StrippedMembers(entries[..0]), key) by { assert StrippedMembers(entries[..0]) == []; NoKey(key); }
    } else {
      StrippedKey(entries, k - 1, key);
      assert entries[..k][..k - 1] == entries[..k - 1];
      LastKey(StrippedMembers(entries[..k - 1]), StrippedMember(entries[k - 1]), key);
    }
  }

  lemma NoKey(key: string)
    ensures !HasKey([], key)
  {
  }

  lemma LastKey(entries: seq<Entry>, e: Entry, key: string)
    ensures HasKey(entries + [e], key) <==> HasKey(entries, key) || e.key == key
  {
    if HasKey(entries, key) {
      var i :| 0 <= i < |entries| && entries[i].key == key;
      assert (entries + [e])[i].key == key;
    }
    assert (entries + [e])[|entries|] == e;
  }

  lemma SortKeptChars(entries: seq<Entry>)
    ensures CharsIn(Sort(entries, KeyBefore)) == CharsIn(entries)
  {
    if entries != [] {
      var front := entries[..|entries| - 1];
      SortKeptChars(front);
      InsertedChars(Sort(front, KeyBefore), entries[|entries| - 1]);
    }
  }

  lemma {:induction false} InsertedChars(entries: seq<Entry>, e: Entry)
    ensures CharsIn(Insert(entries, e, KeyBefore)) == CharsIn(entries) + EntryChars(e)
  {
    hide EntryChars, KeyBefore;
    if entries == [] || KeyBefore(entries[|entries| - 1], e) {
      assert (entries + [e])[..|entries|] == entries;
    } else {
      var front, last := entries[..|entries| - 1], entries[|entries| - 1];
      InsertedChars(front, e);
      assert (Insert(front, e, KeyBefore) + [last])[..|entries|] == Insert(front, e, KeyBefore);
    }
  }

  /** How many characters its strings and keys have. */
  ghost function Chars(v: Json): nat
    decreases v
  {
    match v
    case Null => 0
    case Bool(_) => 0
    case Number(_, _) => 0
    case Str(s) => |s|
    case Array(values) => CharsOf(values)
    case Object(entries) => CharsIn(entries)
  }

  ghost function CharsOf(values: seq<Json>): nat
    decreases values
  {
    if values == [] then 0 else CharsOf(values[..|values| - 1]) + Chars(values[|values| - 1])
  }

  ghost function EntryChars(e: Entry): nat
    decreases e
  {
    |e.key| + Chars(e.value)
  }

  ghost function CharsIn(entries: seq<Entry>): nat
    decreases entries
  {
    if entries == [] then 0 else CharsIn(entries[..|entries| - 1]) + EntryChars(entries[|entries| - 1])
  }

  /** Every mark that is dropped makes the value shorter. */
  lemma {:induction false} StrippedShorter(v: Json)
    ensures Chars(Stripped(v)) <= Chars(v) && (!BomFree(v) ==> Chars(Stripped(v)) < Chars(v))
    decreases v
  {
    hide Sort;
    match v
    case Null => case Bool(_) => case Number(_, _) => case Str(_) =>
    case Array(values) => ItemsShorter(values);
    case Object(entries) =>
      MembersShorter(entries);
      SortKeptChars(StrippedMembers(entries));
  }

  lemma {:induction false} ItemsShorter(values: seq<Json>)
    ensures CharsOf(StrippedItems(values)) <= CharsOf(values)
    ensures (exists i :: 0 <= i < |values| && !BomFree(values[i])) ==> CharsOf(StrippedItems(values)) < CharsOf(values)
    decreases values
  {
    hide BomFree, Stripped, Chars;
    if values != [] {
      var front, last := values[..|values| - 1], values[|values| - 1];
      ItemsShorter(front);
      StrippedShorter(last);
      assert StrippedItems(values)[..|front|] == StrippedItems(front);
      assert forall i :: 0 <= i < |front| ==> front[i] == values[i];
    }
  }

  lemma {:induction false} MembersShorter(entries: seq<Entry>)
    ensures CharsIn(StrippedMembers(entries)) <= CharsIn(entries)
    ensures (exists i :: 0 <= i < |entries| && !BomFreeEntry(entries[i])) ==>
              CharsIn(StrippedMembers(entries)) < CharsIn(entries)
    decreases entries
  {
    hide BomFree, Stripped, Chars;
    if entries != [] {
      var front, last := entries[..|entries| - 1], entries[|entries| - 1];
      MembersShorter(front);
      StrippedShorter(last.value);
      assert StrippedMembers(entries)[..|front|] == StrippedMembers(front);
      assert forall i :: 0 <= i < |front| ==> front[i] == entries[i];
    }
  }

  /** Without marks nothing is lost. */
  lemma {:induction false} NothingStripped(v: Json)
    requires Tidy(v) && BomFree(v)
    ensures Stripped(v) == v && !Clashes(v)
    decreases v
  {
    hide Sort, KeysAscend;
    match v
    case Null => case Bool(_) => case Number(_, _) => case Str(_) =>
    case Array(values) =>
      forall i | 0 <= i < |values|
        ensures Stripped(values[i]) == values[i] && !Clashes(values[i])
      {
        NothingStripped(values[i]);
      }
      SameItems(values);
    case Object(entries) =>
      forall i | 0 <= i < |entries| ensures StrippedMember(entries[i]) == entries[i] && !MemberClashes(entries[i]) {
        assert TidyEntry(entries[i]) && BomFreeEntry(entries[i]);
        NothingStripped(entries[i].value);
      }
      SameMembers(entries);
      AscendingStays(entries);
      NoKeyTwice(entries);
  }

  lemma {:induction false} SameItems(values: seq<Json>)
    requires forall i :: 0 <= i < |values| ==> Stripped(values[i]) == values[i]
    ensures StrippedItems(values) == values
  {
    hide Stripped;
    if values != [] { SameItems(values[..|values| - 1]); }
  }

  lemma {:induction false} SameMembers(entries: seq<Entry>)
    requires forall i :: 0 <= i < |entries| ==> StrippedMember(entries[i]) == entries[i]
    ensures StrippedMembers(entries) == entries
  {
    hide StrippedMember;
    if entries != [] { SameMembers(entries[..|entries| - 1]); }
  }

  lemma NoKeyTwice(entries: seq<Entry>)
    requires KeysAscend(entries) && forall i :: 0 <= i < |entries| ==> BomFreeEntry(entries[i])
    ensures forall i :: 0 <= i < |entries| ==> !KeyTextBefore(entries, i)
  {
    hide BomFree;
    assert forall i :: 0 <= i < |entries| ==> BomFreeEntry(entries[i]) && HostText(entries[i].key) == entries[i].key;
  }

  lemma AscendingStays(entries: seq<Entry>)
    requires KeysAscend(entries)
    ensures Sort(entries, KeyBefore) == entries
  {
    SortStays(entries, KeyBefore);
  }

  // ---- limits

  ghost predicate Fits(l: Limits, v: Json, depth: nat)
    decreases v
  {
    && depth <= l.maxDepth
    && match v
       case Null => true
       case Bool(_) => true
       case Number(c, scale) => scale >= 0 && |DecimalCodec.Digits(Decimal.Decimal(c, scale))| <= l.maxNumberDigits
       case Str(s) => Utf8Length(s) <= l.maxStringBytes
       case Array(values) => forall i :: 0 <= i < |values| ==> Fits(l, values[i], depth + 1)
       case Object(entries) => forall i :: 0 <= i < |entries| ==> EntryFits(l, entries[i], depth + 1)
  }

  ghost predicate EntryFits(l: Limits, e: Entry, depth: nat)
    decreases e
  {
    Utf8Length(e.key) <= l.maxStringBytes && Fits(l, e.value, depth)
  }

  /** How many values it holds, itself included. */
  ghost function Nodes(v: Json): (n: nat)
    ensures n >= 1
    decreases v
  {
    match v
    case Null => 1
    case Bool(_) => 1
    case Number(_, _) => 1
    case Str(_) => 1
    case Array(values) => 1 + NodesOf(values)
    case Object(entries) => 1 + NodesIn(entries)
  }

  ghost function NodesOf(values: seq<Json>): nat
    decreases values
  {
    if values == [] then 0 else Nodes(values[0]) + NodesOf(values[1..])
  }

  ghost function EntryNodes(e: Entry): nat
    decreases e
  {
    Nodes(e.value)
  }

  ghost function NodesIn(entries: seq<Entry>): nat
    decreases entries
  {
    if entries == [] then 0 else EntryNodes(entries[0]) + NodesIn(entries[1..])
  }

  // ---- strings

  lemma HexRoundTrip(n: nat)
    requires n < 16
    ensures IsHex(HexDigit(n)) && HexValue(HexDigit(n)) == n
  {
  }

  lemma EscapedChar(c: char, rest: string)
    ensures EscapeChar(c)[0] != '"' && StringChar(EscapeChar(c) + rest) == Ok(Read(c, rest))
  {
    var s := EscapeChar(c) + rest;
    if EscapeChar(c) == [c] {
      assert s[1..] == rest;
    } else if |EscapeChar(c)| == 2 {
      assert s[2..] == rest;
    } else {
      ControlChar(c, rest);
    }
  }

  lemma ControlChar(c: char, rest: string)
    requires c as int < 0x20 && EscapeChar(c) == "\\u00" + [HexDigit(c as int / 16), HexDigit(c as int % 16)]
    ensures StringChar(EscapeChar(c) + rest) == Ok(Read(c, rest))
  {
    var s := EscapeChar(c) + rest;
    HexRoundTrip(c as int / 16);
    HexRoundTrip(c as int % 16);
    var t := s[2..];
    assert t[0] == '0' && t[1] == '0' && t[2] == HexDigit(c as int / 16) && t[3] == HexDigit(c as int % 16);
    assert t[4..] == rest;
    assert FourHex(t) && HexNumber(t) == c as int;
  }

  lemma {:induction false} EscapedString(l: Limits, s: string, done: string, rest: string)
    requires Utf8Length(done + s) <= l.maxStringBytes
    ensures StringChars(l, EscapeChars(s) + "\"" + rest, done) == Ok(Read(done + s, rest))
    decreases |s|
  {
    hide StringChar, EscapeChar;
    var t := EscapeChars(s) + "\"" + rest;
    if s == "" {
      assert t == "\"" + rest && t[1..] == rest && done + s == done;
    } else {
      var after := EscapeChars(s[1..]) + "\"" + rest;
      assert t == EscapeChar(s[0]) + after;
      EscapedChar(s[0], after);
      assert done + s == done + [s[0]] + s[1..];
      EscapedString(l, s[1..], done + [s[0]], rest);
    }
  }

  lemma QuotedParses(l: Limits, s: string, rest: string)
    requires Utf8Length(s) <= l.maxStringBytes
    ensures ParseString(l, Quoted(s) + rest) == Ok(Read(s, rest))
  {
    hide StringChars, EscapeChars, Utf8Length;
    assert (Quoted(s) + rest)[1..] == EscapeChars(s) + "\"" + rest;
    assert "" + s == s;
    EscapedString(l, s, "", rest);
  }

  lemma HostTextFits(s: string)
    ensures Utf8Length(HostText(s)) <= Utf8Length(s)
  {
  }

  // ---- numbers

  lemma {:induction false} DigitsOf(p: string, u: string)
    requires AllDigits(p) && (u == "" || !IsDigit(u[0]))
    ensures Digits(p + u) == |p|
  {
    if p == "" {
      assert p + u == u;
    } else {
      assert (p + u)[1..] == p[1..] + u;
      DigitsOf(p[1..], u);
    }
  }

  lemma WholeOf(whole: string, u: string)
    requires IsNatText(whole) && (u == "" || !IsDigit(u[0]))
    ensures WholeLength(whole + u) == |whole|
  {
    hide Digits;
    assert (whole + u)[0] == whole[0];
    DigitsOf(whole, u);
  }

  lemma FractionOf(fraction: string, u: string)
    requires AllDigits(fraction) && fraction != "" && (u == "" || !IsDigit(u[0]))
    ensures FractionLength("." + fraction + u) == 1 + |fraction|
  {
    hide Digits;
    assert ("." + fraction + u)[1..] == fraction + u;
    DigitsOf(fraction, u);
  }

  lemma NothingAfter(rest: string)
    requires NumberEnds(rest)
    ensures FractionLength(rest) == 0 && ExponentLength(rest) == 0 && (rest == "" || !IsDigit(rest[0]))
  {
  }

  /** An unsigned number text splits as it was put together. */
  lemma BodySplits(whole: string, fraction: string, rest: string)
    requires IsNatText(whole) && AllDigits(fraction) && NumberEnds(rest)
    ensures var body := if fraction == "" then whole else whole + "." + fraction;
            var t := body + rest;
            var f := FractionLength(t[|whole|..]);
            && WholeLength(t) == |whole| && f == (if fraction == "" then 0 else 1 + |fraction|)
            && t[|whole| + f..] == rest && NumberDigits(t, |whole|, f) == whole + fraction
  {
    hide WholeLength, FractionLength, Digits;
    NothingAfter(rest);
    if fraction == "" {
      WholeOf(whole, rest);
      var t := whole + rest;
      assert t[|whole|..] == rest && t[..|whole|] == whole;
    } else {
      var u := "." + fraction + rest;
      WholeOf(whole, u);
      FractionOf(fraction, rest);
      var t := whole + "." + fraction + rest;
      assert t == whole + u;
      assert t[|whole|..] == u && t[..|whole|] == whole;
      assert t[|whole| + (1 + |fraction|)..] == rest && t[|whole| + 1..|whole| + (1 + |fraction|)] == fraction;
    }
  }

  lemma ReducedStays(c: int, scale: int)
    requires ReducedNumber(c, scale)
    ensures Exact(c, scale) == Number(c, scale)
  {
  }

  lemma NumberTextIs(c: int, scale: int)
    requires ReducedNumber(c, scale)
    ensures NumberText(c, scale) == DecimalCodec.FormatDecimal(Decimal.Decimal(c, scale))
  {
    if c == 0 { assert NatText(0) == "0"; }
  }

  function Body(whole: string, fraction: string): string {
    if fraction == "" then whole else whole + "." + fraction
  }

  lemma UnsignedParses(l: Limits, negative: bool, whole: string, fraction: string, rest: string)
    requires IsNatText(whole) && AllDigits(fraction) && AllDigits(whole + fraction) && NumberEnds(rest)
    requires |whole + fraction| <= l.maxNumberDigits
    ensures var n := NatValue(whole + fraction) as int;
            ParseUnsigned(l, negative, Body(whole, fraction) + rest) ==
              Ok(Read(Exact(if negative then -n else n, |fraction|), rest))
  {
    hide WholeLength, FractionLength, ExponentLength, NumberDigits, Exact, NatValue, NumberEnds, AllDigits;
    assert whole != "" by { DecimalCodec.WholeText(whole); }
    BodySplits(whole, fraction, rest);
    NothingAfter(rest);
    assert rest[0..] == rest;
  }

  lemma BodyParses(l: Limits, negative: bool, whole: string, fraction: string, rest: string)
    requires IsNatText(whole) && AllDigits(fraction) && AllDigits(whole + fraction) && NumberEnds(rest)
    requires |whole + fraction| <= l.maxNumberDigits
    ensures var n := NatValue(whole + fraction) as int;
            ParseNumber(l, (if negative then "-" else "") + Body(whole, fraction) + rest)
            == Ok(Read(Exact(if negative then -n else n, |fraction|), rest))
  {
    hide ParseUnsigned, Exact, NatValue, NumberEnds, AllDigits, Body, IsNatText;
    var b := Body(whole, fraction);
    BodyStarts(whole, fraction);
    var s := (if negative then "-" else "") + b + rest;
    assert s == if negative then "-" + (b + rest) else b + rest;
    assert negative ==> s[1..] == b + rest;
    assert (b + rest)[0] == b[0];
    UnsignedParses(l, negative, whole, fraction, rest);
  }

  /** The text of a decimal is its sign and its digits with a point. */
  lemma NumberTextShape(c: int, scale: int)
    requires ReducedNumber(c, scale)
    ensures var digits := DecimalCodec.Digits(Decimal.Decimal(c, scale));
            var whole, fraction := digits[..|digits| - scale], digits[|digits| - scale..];
            && NumberText(c, scale) == (if c < 0 then "-" else "") + Body(whole, fraction)
            && IsNatText(whole) && AllDigits(fraction) && whole + fraction == digits && AllDigits(digits)
            && NatValue(digits) == Decimal.Abs(c)
  {
    hide DecimalCodec.Digits, NumberText, NatValue, IsNatText;
    var x := Decimal.Decimal(c, scale);
    DecimalCodec.DigitsShape(x);
    NumberTextIs(c, scale);
    var digits := DecimalCodec.Digits(x);
    var whole, fraction := digits[..|digits| - scale], digits[|digits| - scale..];
    assert whole + fraction == digits;
    assert scale == 0 ==> whole == digits;
    assert "" + Body(whole, fraction) == Body(whole, fraction);
  }

  lemma NumberParses(l: Limits, c: int, scale: int, rest: string)
    requires ReducedNumber(c, scale) && NumberEnds(rest)
    requires |DecimalCodec.Digits(Decimal.Decimal(c, scale))| <= l.maxNumberDigits
    ensures ParseNumber(l, NumberText(c, scale) + rest) == Ok(Read(Number(c, scale), rest))
    ensures NumberText(c, scale) != "" && (NumberText(c, scale)[0] == '-' || IsDigit(NumberText(c, scale)[0]))
  {
    hide DecimalCodec.Digits, ParseNumber, Exact, NatValue, NumberText, NumberEnds, Body;
    NumberTextShape(c, scale);
    var digits := DecimalCodec.Digits(Decimal.Decimal(c, scale));
    var whole, fraction := digits[..|digits| - scale], digits[|digits| - scale..];
    BodyParses(l, c < 0, whole, fraction, rest);
    ReducedStays(c, scale);
    BodyStarts(whole, fraction);
    assert c < 0 ==> ("-" + Body(whole, fraction))[0] == '-';
    assert c >= 0 ==> ("" + Body(whole, fraction)) == Body(whole, fraction);
  }

  lemma BodyStarts(whole: string, fraction: string)
    requires IsNatText(whole)
    ensures Body(whole, fraction) != "" && IsDigit(Body(whole, fraction)[0])
  {
  }

  // ---- values

  lemma NothingSkipped(s: string)
    requires s == "" || !IsBlank(s[0])
    ensures SkipSpace(s) == s
  {
  }

  /** A value's text starts with a character of its own. */
  predicate GoodStart(s: string) {
    s != "" && !IsBlank(s[0]) && s[0] != ']' && s[0] != '}' && s[0] != ','
  }

  lemma Starts(v: Json)
    requires Tidy(v) && NumbersOk(v)
    ensures GoodStart(Serialize(v))
  {
    hide NumberText;
    if v.Number? { NumberStarts(v.coefficient, v.scale); }
  }

  lemma NumberStarts(c: int, scale: int)
    requires ReducedNumber(c, scale)
    ensures GoodStart(NumberText(c, scale)) && (NumberText(c, scale)[0] == '-' || IsDigit(NumberText(c, scale)[0]))
  {
    hide DecimalCodec.Digits, NumberText, Body;
    NumberTextShape(c, scale);
    var digits := DecimalCodec.Digits(Decimal.Decimal(c, scale));
    var whole, fraction := digits[..|digits| - scale], digits[|digits| - scale..];
    BodyStarts(whole, fraction);
    assert c >= 0 ==> ("" + Body(whole, fraction)) == Body(whole, fraction);
  }

  lemma ItemsStart(values: seq<Json>)
    requires values != [] && forall i :: 0 <= i < |values| ==> Tidy(values[i]) && NumbersOk(values[i])
    ensures GoodStart(SerializeItems(values)) && SerializeItems(values)[0] == Serialize(values[0])[0]
  {
    hide Serialize, Tidy;
    Starts(values[0]);
  }

  lemma AfterLast(rest: string, close: char)
    requires close == ']' || close == '}'
    ensures AfterElement([close] + rest, close) == Ok(Read(true, rest))
  {
    NothingSkipped([close] + rest);
    assert ([close] + rest)[1..] == rest;
  }

  lemma AfterComma(u: string, close: char)
    requires (close == ']' || close == '}') && u != "" && !IsBlank(u[0]) && u[0] != close
    ensures AfterElement("," + u, close) == Ok(Read(false, u))
  {
    NothingSkipped("," + u);
    assert ("," + u)[1..] == u;
    NothingSkipped(u);
  }

  /** What the text of a value is read as, in front of what may follow a value. */
  ghost function Reread(v: Json, rest: string, nodes: nat): Result<Counted<Json>> {
    if Clashes(v) then Err(DuplicateKey) else Ok(Counted(Stripped(v), rest, nodes))
  }

  ghost predicate Reads(l: Limits, v: Json, depth: nat, nodes: nat, rest: string)
    requires NumbersOk(v)
  {
    ParseValue(l, Serialize(v) + rest, depth, nodes) == Reread(v, rest, nodes + Nodes(v))
  }

  lemma WordReads(l: Limits, v: Json, depth: nat, nodes: nat, rest: string)
    requires (v.Null? || v.Bool?) && depth <= l.maxDepth && nodes + 1 <= l.maxNodes
    ensures Reads(l, v, depth, nodes, rest)
  {
    var w := Serialize(v);
    var s := w + rest;
    assert s[0] == w[0];
    NothingSkipped(s);
    assert s[..|w|] == w && s[|w|..] == rest;
  }

  lemma NumberReads(l: Limits, v: Json, depth: nat, nodes: nat, rest: string)
    requires v.Number? && Tidy(v) && NumbersOk(v) && Fits(l, v, depth) && nodes + 1 <= l.maxNodes && NumberEnds(rest)
    ensures Reads(l, v, depth, nodes, rest)
  {
    hide NumberText, ParseNumber, NumberEnds;
    NumberParses(l, v.coefficient, v.scale, rest);
    NumberStarts(v.coefficient, v.scale);
    var s := Serialize(v) + rest;
    assert s[0] == NumberText(v.coefficient, v.scale)[0];
    NothingSkipped(s);
  }

  lemma StringReads(l: Limits, v: Json, depth: nat, nodes: nat, rest: string)
    requires v.Str? && Fits(l, v, depth) && nodes + 1 <= l.maxNodes
    ensures Reads(l, v, depth, nodes, rest)
  {
    hide ParseString, Utf8Length, EscapeChars;
    HostTextFits(v.s);
    QuotedParses(l, HostText(v.s), rest);
    NothingSkipped(Serialize(v) + rest);
  }

  lemma {:induction false} ParseSerialized(l: Limits, v: Json, depth: nat, nodes: nat, rest: string)
    requires Tidy(v) && NumbersOk(v) && Fits(l, v, depth) && nodes + Nodes(v) <= l.maxNodes && NumberEnds(rest)
    ensures Reads(l, v, depth, nodes, rest)
    decreases v
  {
    hide ParseItems, ParseMembers, SerializeItems, SerializeMembers, Serialize, Reads, NumberEnds, DecimalCodec.Digits,
      Utf8Length, KeysAscend, Sort, MembersClash, ItemsClash;
    match v
    case Null => WordReads(l, v, depth, nodes, rest);
    case Bool(_) => WordReads(l, v, depth, nodes, rest);
    case Number(_, _) => NumberReads(l, v, depth, nodes, rest);
    case Str(_) => StringReads(l, v, depth, nodes, rest);
    case Array(values) =>
      if values != [] {
        ItemsRead(l, v, 0, depth + 1, nodes + 1, rest); assert values[0..] == values && values[..0] == [];
      }
      ArrayReads(l, values, depth, nodes, rest);
    case Object(entries) =>
      if entries != [] {
        MembersRead(l, v, 0, depth + 1, nodes + 1, rest); assert entries[0..] == entries && entries[..0] == [];
      }
      ObjectReads(l, entries, depth, nodes, rest);
  }

  ghost function ItemsReread(values: seq<Json>, k: nat, rest: string, nodes: nat): Result<Counted<Json>> {
    if ItemsClash(values, k) then Err(DuplicateKey) else Ok(Counted(Array(StrippedItems(values)), rest, nodes))
  }

  ghost function MembersReread(entries: seq<Entry>, k: nat, rest: string, nodes: nat): Result<Counted<Json>> {
    if MembersClash(entries, k) then Err(DuplicateKey)
    else Ok(Counted(Object(Sort(StrippedMembers(entries), KeyBefore)), rest, nodes))
  }

  lemma OpenBracket(l: Limits, body: string, depth: nat, nodes: nat)
    requires depth <= l.maxDepth && nodes + 1 <= l.maxNodes && body != "" && !IsBlank(body[0])
    ensures ParseValue(l, "[" + body, depth, nodes)
         == if body[0] == ']' then Ok(Counted(Array([]), body[1..], nodes + 1))
            else ParseItems(l, body, depth + 1, nodes + 1, [])
  {
    hide ParseItems, ParseMembers, ParseString, ParseNumber, StartsWith;
    var s := "[" + body;
    assert s[0] == '[' && s[1..] == body;
    NothingSkipped(s);
    NothingSkipped(body);
  }

  lemma OpenBrace(l: Limits, body: string, depth: nat, nodes: nat)
    requires depth <= l.maxDepth && nodes + 1 <= l.maxNodes && body != "" && !IsBlank(body[0])
    ensures ParseValue(l, "{" + body, depth, nodes)
         == if body[0] == '}' then Ok(Counted(Object([]), body[1..], nodes + 1))
            else ParseMembers(l, body, depth + 1, nodes + 1, [])
  {
    hide ParseItems, ParseMembers, ParseString, ParseNumber, StartsWith;
    var s := "{" + body;
    assert s[0] == '{' && s[1..] == body;
    NothingSkipped(s);
    NothingSkipped(body);
  }

  lemma ArrayReads(l: Limits, values: seq<Json>, depth: nat, nodes: nat, rest: string)
    requires NumbersOk(Array(values)) && depth <= l.maxDepth && nodes + Nodes(Array(values)) <= l.maxNodes
    requires forall i :: 0 <= i < |values| ==> Tidy(values[i])
    requires values != [] ==>
               ParseItems(l, SerializeItems(values) + "]" + rest, depth + 1, nodes + 1, []) ==
                 ItemsReread(values, 0, rest, nodes + 1 + NodesOf(values))
    ensures Reads(l, Array(values), depth, nodes, rest)
  {
    hide Tidy, ParseValue, ParseItems, NodesOf, Serialize, SerializeItems, Reread, ItemsReread;
    ArrayWritten(values, rest);
    var text := SerializeItems(values);
    var body := text + "]" + rest;
    if values == [] {
      NothingInside(rest, nodes + 1);
      assert body == "]" + rest && !IsBlank(body[0]) && body[0] == ']' && body[1..] == rest;
    } else {
      ItemsStart(values);
      assert body[0] == text[0];
    }
    OpenBracket(l, body, depth, nodes);
    ArrayReread(values, rest, nodes + 1 + NodesOf(values));
  }

  lemma ArrayWritten(values: seq<Json>, rest: string)
    requires NumbersOk(Array(values))
    ensures Serialize(Array(values)) + rest == "[" + (SerializeItems(values) + "]" + rest)
  {
    hide SerializeItems;
  }

  lemma ArrayReread(values: seq<Json>, rest: string, nodes: nat)
    ensures Reread(Array(values), rest, nodes) == ItemsReread(values, 0, rest, nodes)
  {
    hide StrippedItems;
  }

  lemma ObjectWritten(entries: seq<Entry>, rest: string)
    requires NumbersOk(Object(entries))
    ensures Serialize(Object(entries)) + rest == "{" + (SerializeMembers(entries) + "}" + rest)
  {
    hide SerializeMembers;
  }

  lemma ObjectReread(entries: seq<Entry>, rest: string, nodes: nat)
    ensures Reread(Object(entries), rest, nodes) == MembersReread(entries, 0, rest, nodes)
  {
    hide StrippedMembers, Sort, KeyTextBefore, MemberClashes;
  }

  lemma NothingInside(rest: string, nodes: nat)
    ensures SerializeItems([]) == "" && SerializeMembers([]) == "" && NodesOf([]) == 0 && NodesIn([]) == 0
    ensures Reread(Array([]), rest, nodes) == Ok(Counted(Array([]), rest, nodes))
    ensures Reread(Object([]), rest, nodes) == Ok(Counted(Object([]), rest, nodes))
  {
  }

  lemma ItemLast(l: Limits, item: Json, depth: nat, nodes: nat, done: seq<Json>, rest: string)
    requires NumbersOk(item) && Reads(l, item, depth, nodes, "]" + rest)
    ensures ParseItems(l, Serialize(item) + ("]" + rest), depth, nodes, done)
         == if Clashes(item) then Err(DuplicateKey)
            else Ok(Counted(Array(done + [Stripped(item)]), rest, nodes + Nodes(item)))
  {
    hide ParseValue, Serialize, AfterElement, Clashes, Stripped;
    AfterLast(rest, ']');
  }

  lemma ItemMore(l: Limits, item: Json, depth: nat, nodes: nat, done: seq<Json>, tail: string)
    requires NumbersOk(item) && Reads(l, item, depth, nodes, "," + tail) && GoodStart(tail)
    ensures ParseItems(l, Serialize(item) + ("," + tail), depth, nodes, done)
         == if Clashes(item) then Err(DuplicateKey)
            else ParseItems(l, tail, depth, nodes + Nodes(item), done + [Stripped(item)])
  {
    hide ParseValue, Serialize, AfterElement, Clashes, Stripped;
    AfterComma(tail, ']');
  }

  lemma NextItem(values: seq<Json>, k: nat)
    requires k < |values| && forall i :: 0 <= i < |values| ==> NumbersOk(values[i])
    ensures SerializeItems(values[k..]) == Serialize(values[k]) +
              if k + 1 == |values| then "" else "," + SerializeItems(values[k + 1..])
    ensures NodesOf(values[k..]) == Nodes(values[k]) + NodesOf(values[k + 1..])
    ensures StrippedItems(values[..k + 1]) == StrippedItems(values[..k]) + [Stripped(values[k])]
    ensures ItemsClash(values, k) <==> Clashes(values[k]) || ItemsClash(values, k + 1)
    ensures k + 1 == |values| ==> NodesOf(values[k + 1..]) == 0 && !ItemsClash(values, k + 1)
  {
    hide Serialize, Nodes, Stripped, Clashes, NumbersOk;
    assert values[k..][0] == values[k] && values[k..][1..] == values[k + 1..];
    assert values[..k + 1][..k] == values[..k] && values[..k + 1][k] == values[k];
  }

  lemma {:induction false} ItemsRead(l: Limits, v: Json, k: nat, depth: nat, nodes: nat, rest: string)
    requires v.Array? && Tidy(v) && NumbersOk(v) && k < |v.values|
    requires forall i :: 0 <= i < |v.values| ==> Fits(l, v.values[i], depth)
    requires nodes + NodesOf(v.values[k..]) <= l.maxNodes
    ensures ParseItems(l, SerializeItems(v.values[k..]) + "]" + rest, depth, nodes, StrippedItems(v.values[..k]))
         == ItemsReread(v.values, k, rest, nodes + NodesOf(v.values[k..]))
    decreases v, |v.values| - k
  {
    hide ParseItems, Reads, Serialize, Fits, Clashes, Stripped, SerializeItems, NodesOf, StrippedItems, ItemsClash;
    var values := v.values;
    var item := values[k];
    NextItem(values, k);
    var text := Serialize(item);
    if k + 1 == |values| {
      assert values[..k + 1] == values;
      assert SerializeItems(values[k..]) + "]" + rest == text + ("]" + rest);
      ParseSerialized(l, item, depth, nodes, "]" + rest);
      ItemLast(l, item, depth, nodes, StrippedItems(values[..k]), rest);
    } else {
      var tail := SerializeItems(values[k + 1..]) + "]" + rest;
      assert SerializeItems(values[k..]) + "]" + rest == text + ("," + tail);
      ParseSerialized(l, item, depth, nodes, "," + tail);
      ItemsStart(values[k + 1..]);
      assert tail[0] == SerializeItems(values[k + 1..])[0];
      ItemMore(l, item, depth, nodes, StrippedItems(values[..k]), tail);
      ItemsRead(l, v, k + 1, depth, nodes + Nodes(item), rest);
    }
  }

  lemma MembersStart(entries: seq<Entry>)
    requires entries != [] && forall i :: 0 <= i < |entries| ==> EntryNumbersOk(entries[i])
    ensures SerializeMembers(entries) != "" && SerializeMembers(entries)[0] == '"'
  {
    hide Serialize, EscapeChars;
  }

  lemma ObjectReads(l: Limits, entries: seq<Entry>, depth: nat, nodes: nat, rest: string)
    requires NumbersOk(Object(entries)) && depth <= l.maxDepth && nodes + Nodes(Object(entries)) <= l.maxNodes
    requires entries != [] ==>
               ParseMembers(l, SerializeMembers(entries) + "}" + rest, depth + 1, nodes + 1, []) ==
                 MembersReread(entries, 0, rest, nodes + 1 + NodesIn(entries))
    ensures Reads(l, Object(entries), depth, nodes, rest)
  {
    hide ParseValue, ParseMembers, NodesIn, Serialize, SerializeMembers, Reread, MembersReread;
    ObjectWritten(entries, rest);
    var text := SerializeMembers(entries);
    var body := text + "}" + rest;
    if entries == [] {
      NothingInside(rest, nodes + 1);
      assert body == "}" + rest && !IsBlank(body[0]) && body[0] == '}' && body[1..] == rest;
    } else {
      MembersStart(entries);
      assert body[0] == text[0] == '"' && !IsBlank('"');
    }
    OpenBrace(l, body, depth, nodes);
    ObjectReread(entries, rest, nodes + 1 + NodesIn(entries));
  }

  /** A member's text up to what follows it. */
  lemma MemberReads(l: Limits, e: Entry, after: string)
    requires EntryNumbersOk(e) && Utf8Length(e.key) <= l.maxStringBytes
    ensures var s := SerializeMember(e) + after;
            && ParseString(l, s) == Ok(Read(HostText(e.key), ":" + Serialize(e.value) + after))
            && SkipSpace(":" + Serialize(e.value) + after) == ":" + Serialize(e.value) + after
            && (":" + Serialize(e.value) + after)[1..] == Serialize(e.value) + after
  {
    hide ParseString, ParseValue, Serialize, Quoted, Utf8Length, HostText;
    var more := ":" + Serialize(e.value) + after;
    HostTextFits(e.key);
    QuotedParses(l, HostText(e.key), more);
    assert SerializeMember(e) + after == Quoted(HostText(e.key)) + more;
    NothingSkipped(more);
  }

  lemma MemberReread(l: Limits, e: Entry, depth: nat, nodes: nat, done: seq<Entry>, after: string)
    requires EntryNumbersOk(e) && Utf8Length(e.key) <= l.maxStringBytes && Reads(l, e.value, depth, nodes, after)
    ensures ParseMember(l, SerializeMember(e) + after, depth, nodes, done)
         == if MemberClashes(e) || HasKey(done, HostText(e.key)) then Err(DuplicateKey)
            else Ok(Counted(StrippedMember(e), after, nodes + EntryNodes(e)))
  {
    hide ParseValue, Serialize, ParseString, SerializeMember, Utf8Length, HasKey, HostText, Clashes, Stripped;
    MemberReads(l, e, after);
  }

  lemma MemberLast(l: Limits, e: Entry, depth: nat, nodes: nat, done: seq<Entry>, rest: string)
    requires EntryNumbersOk(e) && Utf8Length(e.key) <= l.maxStringBytes && Reads(l, e.value, depth, nodes, "}" + rest)
    ensures ParseMembers(l, SerializeMember(e) + ("}" + rest), depth, nodes, done)
         == if MemberClashes(e) || HasKey(done, HostText(e.key)) then Err(DuplicateKey)
            else Ok(Counted(Object(Sort(done + [StrippedMember(e)], KeyBefore)), rest, nodes + EntryNodes(e)))
  {
    hide ParseMember, Serialize, AfterElement, SerializeMember, Utf8Length, Sort, HasKey, HostText, MemberClashes,
      StrippedMember, Reads;
    MemberReread(l, e, depth, nodes, done, "}" + rest);
    AfterLast(rest, '}');
  }

  lemma MemberMore(l: Limits, e: Entry, depth: nat, nodes: nat, done: seq<Entry>, tail: string)
    requires EntryNumbersOk(e) && Utf8Length(e.key) <= l.maxStringBytes
    requires Reads(l, e.value, depth, nodes, "," + tail) && tail != "" && tail[0] == '"'
    ensures ParseMembers(l, SerializeMember(e) + ("," + tail), depth, nodes, done)
         == if MemberClashes(e) || HasKey(done, HostText(e.key)) then Err(DuplicateKey)
            else ParseMembers(l, tail, depth, nodes + EntryNodes(e), done + [StrippedMember(e)])
  {
    hide ParseMember, Serialize, AfterElement, SerializeMember, Utf8Length, Sort, HasKey, HostText, MemberClashes,
      StrippedMember, Reads;
    MemberReread(l, e, depth, nodes, done, "," + tail);
    AfterComma(tail, '}');
  }

  lemma NextMember(entries: seq<Entry>, k: nat)
    requires k < |entries| && forall i :: 0 <= i < |entries| ==> EntryNumbersOk(entries[i])
    ensures SerializeMembers(entries[k..]) == SerializeMember(entries[k]) +
              if k + 1 == |entries| then "" else "," + SerializeMembers(entries[k + 1..])
    ensures NodesIn(entries[k..]) == EntryNodes(entries[k]) + NodesIn(entries[k + 1..])
    ensures StrippedMembers(entries[..k + 1]) == StrippedMembers(entries[..k]) + [StrippedMember(entries[k])]
    ensures MembersClash(entries, k) <==>
              MemberClashes(entries[k]) || KeyTextBefore(entries, k) || MembersClash(entries, k + 1)
    ensures k + 1 == |entries| ==> NodesIn(entries[k + 1..]) == 0 && !MembersClash(entries, k + 1)
  {
    hide SerializeMember, EntryNodes, StrippedMember, MemberClashes, KeyTextBefore, EntryNumbersOk;
    assert entries[k..][0] == entries[k] && entries[k..][1..] == entries[k + 1..];
    assert entries[..k + 1][..k] == entries[..k] && entries[..k + 1][k] == entries[k];
  }

  lemma {:induction false} MembersRead(l: Limits, v: Json, k: nat, depth: nat, nodes: nat, rest: string)
    requires v.Object? && Tidy(v) && NumbersOk(v) && k < |v.entries|
    requires forall i :: 0 <= i < |v.entries| ==> EntryFits(l, v.entries[i], depth)
    requires nodes + NodesIn(v.entries[k..]) <= l.maxNodes
    ensures ParseMembers(l, SerializeMembers(v.entries[k..]) + "}" + rest,
              depth, nodes, StrippedMembers(v.entries[..k]))
         == MembersReread(v.entries, k, rest, nodes + NodesIn(v.entries[k..]))
    decreases v, |v.entries| - k
  {
    hide ParseMembers, Reads, Serialize, Fits, SerializeMember, Utf8Length, Sort, HasKey, KeysAscend, MemberClashes,
      StrippedMember, KeyTextBefore,
      HostText, SerializeMembers, NodesIn, StrippedMembers, MembersClash;
    var entries := v.entries;
    var e := entries[k];
    NextMember(entries, k);
    assert TidyEntry(e) && EntryNumbersOk(e) && EntryFits(l, e, depth);
    SeenKey(entries, k);
    if k + 1 == |entries| {
      assert entries[..k + 1] == entries;
      assert SerializeMembers(entries[k..]) + "}" + rest == SerializeMember(e) + ("}" + rest);
      ParseSerialized(l, e.value, depth, nodes, "}" + rest);
      MemberLast(l, e, depth, nodes, StrippedMembers(entries[..k]), rest);
    } else {
      var text := SerializeMembers(entries[k + 1..]);
      var tail := text + "}" + rest;
      assert SerializeMembers(entries[k..]) + "}" + rest == SerializeMember(e) + ("," + tail);
      ParseSerialized(l, e.value, depth, nodes, "," + tail);
      MembersStart(entries[k + 1..]);
      assert tail[0] == text[0];
      MemberMore(l, e, depth, nodes, StrippedMembers(entries[..k]), tail);
      MembersRead(l, v, k + 1, depth, nodes + EntryNodes(e), rest);
    }
  }

  lemma SeenKey(entries: seq<Entry>, k: nat)
    requires k < |entries|
    ensures HasKey(StrippedMembers(entries[..k]), HostText(entries[k].key)) <==> KeyTextBefore(entries, k)
  {
    StrippedKey(entries, k, HostText(entries[k].key));
  }

  /** Reading the text of a value within the limits: it fails when an object has two keys with one
      text, and otherwise gives the value without its leading byte order marks. */
  lemma ParseWritten(l: Limits, v: Json)
    requires Tidy(v) && NumbersOk(v) && Fits(l, v, 0) && Nodes(v) <= l.maxNodes
    requires Utf8Length(Serialize(v)) <= l.maxBytes
    ensures Parse(l, Serialize(v)) == if Clashes(v) then Err(DuplicateKey) else Ok(Stripped(v))
  {
    hide ParseValue, Serialize, Fits, Tidy, Nodes, Clashes, Stripped;
    ParseSerialized(l, v, 0, 0, "");
    assert Serialize(v) + "" == Serialize(v);
    NothingSkipped("");
  }

  /** The value comes back exactly when no string or key in it starts with a byte order mark. */
  lemma ParseSerialize(l: Limits, v: Json)
    requires Tidy(v) && NumbersOk(v) && Fits(l, v, 0) && Nodes(v) <= l.maxNodes
    requires Utf8Length(Serialize(v)) <= l.maxBytes
    ensures Parse(l, Serialize(v)) == Ok(v) <==> BomFree(v)
  {
    hide Parse, Serialize, Fits, Tidy, Nodes, Clashes, Stripped, BomFree, Chars;
    ParseWritten(l, v);
    StrippedShorter(v);
    if BomFree(v) { NothingStripped(v); }
  }
}
