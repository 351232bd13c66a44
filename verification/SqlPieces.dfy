/** Where the scanner ends a piece, stated on the text: the longest run of word or name characters,
    the first end of a comment, the closing quote that is not doubled. */
module SqlPieces {
  import opened DecimalText
  import opened SqlLexer

  // ---- runs

  /** Words, numbers and names run as long as their characters go on. */
  lemma {:induction false} RunsAreLongest(s: string)
    ensures (forall i :: 0 <= i < WordRun(s) ==> IsWordChar(s[i])) && (WordRun(s) < |s| ==> !IsWordChar(s[WordRun(s)]))
    ensures (forall i :: 0 <= i < NameRun(s) ==> IsNameChar(s[i])) && (NameRun(s) < |s| ==> !IsNameChar(s[NameRun(s)]))
    ensures (forall i :: 0 <= i < DigitRun(s) ==> IsDigit(s[i])) && (DigitRun(s) < |s| ==> !IsDigit(s[DigitRun(s)]))
    ensures '\n' !in s[..LineRun(s)] && (LineRun(s) < |s| ==> s[LineRun(s)] == '\n')
  {
    if s != "" {
      RunsAreLongest(s[1..]);
      var n := LineRun(s[1..]);
      if s[0] != '\n' { assert s[..n + 1] == [s[0]] + s[1..][..n]; }
    }
  }

  /** The two characters end a block comment here. */
  predicate EndsBlock(s: string, i: nat) { i + 1 < |s| && s[i] == '*' && s[i + 1] == '/' }

  /** A block comment goes to its first end, or to the end of the text. */
  lemma {:induction false} BlockGoesToFirstEnd(s: string)
    ensures var n := BlockRun(s);
            || (n == |s| && forall i: nat :: !EndsBlock(s, i))
            || (n >= 2 && EndsBlock(s, n - 2) && forall i: nat :: i < n - 2 ==> !EndsBlock(s, i))
  {
    if s != "" && !EndsBlock(s, 0) {
      var t := s[1..];
      BlockGoesToFirstEnd(t);
      forall i: nat ensures EndsBlock(s, i) <==> i > 0 && EndsBlock(t, i - 1) {}
      var n := BlockRun(s);
      if BlockRun(t) >= 2 && EndsBlock(t, BlockRun(t) - 2) { assert EndsBlock(s, n - 2); }
    }
  }

  // ---- quotes

  /** Every closing quote in the text is written twice; in brackets there is none. */
  function Doubled(body: string, close: char): string {
    if body == "" then ""
    else (if body[0] == close && close != ']' then [close, close] else [body[0]]) + Doubled(body[1..], close)
  }

  predicate Quotable(body: string, close: char) { close == ']' ==> ']' !in body }

  /** A quoted text ends at its closing quote. */
  lemma {:induction false} ClosedQuote(body: string, close: char, rest: string)
    requires Quotable(body, close) && (close == ']' || rest == "" || rest[0] != close)
    ensures QuoteRun(Doubled(body, close) + ([close] + rest), close) == |Doubled(body, close)| + 1
  {
    var s := Doubled(body, close) + ([close] + rest);
    if body == "" {
      assert s == [close] + rest;
      assert rest != "" ==> s[1] == rest[0];
    } else {
      assert close == ']' ==> body[0] != ']' && ']' !in body[1..];
      ClosedQuote(body[1..], close, rest);
      var tail := Doubled(body[1..], close) + ([close] + rest);
      if body[0] == close && close != ']' {
        assert s == [close, close] + tail && s[2..] == tail;
      } else {
        assert s == [body[0]] + tail && s[1..] == tail;
      }
    }
  }

  /** One that is never closed goes to the end. */
  lemma {:induction false} OpenQuote(body: string, close: char)
    requires Quotable(body, close)
    ensures QuoteRun(Doubled(body, close), close) == |Doubled(body, close)|
  {
    var s := Doubled(body, close);
    if body != "" {
      assert close == ']' ==> body[0] != ']' && ']' !in body[1..];
      OpenQuote(body[1..], close);
      var tail := Doubled(body[1..], close);
      if body[0] == close && close != ']' {
        assert s == [close, close] + tail && s[2..] == tail;
      } else {
        assert s == [body[0]] + tail && s[1..] == tail;
      }
    }
  }

  /** What follows an opening quote is of one of these two forms. */
  lemma {:induction false} QuoteForms(s: string, close: char) returns (body: string, closed: bool, rest: string)
    ensures Quotable(body, close)
    ensures closed ==> s == Doubled(body, close) + ([close] + rest) && (close == ']' || rest == "" || rest[0] != close)
    ensures !closed ==> s == Doubled(body, close)
    decreases |s|
  {
    if s == "" {
      return "", false, "";
    }
    if s[0] == close && (close == ']' || |s| == 1 || s[1] != close) {
      assert s == Doubled("", close) + ([close] + s[1..]);
      return "", true, s[1..];
    }
    var skip := if s[0] == close then 2 else 1;
    var inner;
    inner, closed, rest := QuoteForms(s[skip..], close);
    body := [s[0]] + inner;
    assert body[1..] == inner && s == s[..skip] + s[skip..];
    assert Doubled(body, close) == s[..skip] + Doubled(inner, close);
  }

  // ---- placeholders that start with a dollar sign

  /** A further part of the name: two colons and a name character. */
  predicate PartFollows(s: string, i: nat) { i + 2 < |s| && s[i] == ':' && s[i + 1] == ':' && IsNameChar(s[i + 2]) }

  /** The parts between two positions: each two colons and the longest name behind them. */
  ghost predicate Parts(s: string, from: nat, to: nat)
    requires from <= to <= |s|
    decreases |s| - from
  {
    from == to ||
    (PartFollows(s, from)
     && exists next :: from + 2 < next <= to && NameSpan(s, from + 2, next) && Parts(s, next, to))
  }

  /** The name characters from one position end at the other. */
  ghost predicate NameSpan(s: string, from: nat, to: nat)
    requires from <= to <= |s|
  {
    (forall i :: from <= i < to ==> IsNameChar(s[i])) && (to < |s| ==> !IsNameChar(s[to]))
  }

  /** A dollar alone; or a name, all parts that follow it, and a parenthesis up to its first end if
      one opens there and ends at all. */
  ghost predicate IsDollar(s: string, name: nat, parts: nat, n: nat)
    requires 1 <= name <= parts <= n <= |s|
  {
    && NameSpan(s, 1, name)
    && (name == 1 ==> n == 1)
    && (name > 1 ==> Parts(s, name, parts) && !PartFollows(s, parts) && ParenEnds(s, parts, n))
  }

  /** From an opening parenthesis to the first closing one, if there is one. */
  ghost predicate ParenEnds(s: string, from: nat, n: nat)
    requires from <= n <= |s|
  {
    if from < |s| && s[from] == '(' && ')' in s[from + 1..]
    then n >= from + 2 && s[n - 1] == ')' && ')' !in s[from..n - 1] else n == from
  }

  lemma DollarEnds(s: string) returns (name: nat, parts: nat)
    requires s != ""
    ensures 1 <= name <= parts <= DollarLength(s) && IsDollar(s, name, parts, DollarLength(s))
  {
    hide NameRun, ColonRun, ParenRun, Parts, ParenEnds, PartFollows, NameSpan;
    name := 1 + NameRun(s[1..]);
    NameEnds(s, 1);
    parts := name;
    if name > 1 {
      parts := name + ColonRun(s[name..]);
      PartsEnd(s, name);
      ParenthesisEnds(s, parts);
    }
  }

  lemma ParenthesisEnds(s: string, from: nat)
    requires from <= |s|
    ensures ParenEnds(s, from, from + ParenRun(s[from..]))
  {
    hide ToClose;
    var t := s[from..];
    if t != "" && t[0] == '(' {
      var inner := t[1..];
      assert t == ['('] + inner && inner == s[from + 1..];
      assert ')' in t <==> ')' in inner;
      if ')' in inner {
        FirstClose(inner);
        var k := ToClose(inner);
        assert s[from..from + k] == ['('] + inner[..k - 1];
        assert s[from + k] == inner[k - 1];
      }
    }
  }

  lemma NameEnds(s: string, from: nat)
    requires from <= |s|
    ensures NameSpan(s, from, from + NameRun(s[from..]))
  {
    hide NameRun;
    var t := s[from..];
    RunsAreLongest(t);
    assert forall i :: 0 <= i < |t| ==> t[i] == s[from + i];
    var n := NameRun(t);
    forall i | from <= i < from + n ensures IsNameChar(s[i]) { assert t[i - from] == s[i]; }
  }

  lemma {:induction false} PartsEnd(s: string, from: nat)
    requires from <= |s|
    ensures var to := from + ColonRun(s[from..]); Parts(s, from, to) && !PartFollows(s, to)
    decreases |s| - from
  {
    hide NameRun, NameSpan, ColonRun, IsNameChar;
    if PartFollows(s, from) {
      var next := NextPart(s, from);
      PartsEnd(s, next);
    } else {
      NoPart(s, from);
    }
  }

  lemma NextPart(s: string, from: nat) returns (next: nat)
    requires from <= |s| && PartFollows(s, from)
    ensures from + 2 < next <= |s| && NameSpan(s, from + 2, next)
    ensures from + ColonRun(s[from..]) == next + ColonRun(s[next..])
  {
    hide NameRun, NameSpan;
    var t := s[from..];
    assert t[0] == ':' && t[1] == ':' && IsNameChar(t[2]);
    NameEnds(s, from + 2);
    assert t[2..] == s[from + 2..];
    assert NameRun(t[2..]) > 0 by { RunsAreLongest(t[2..]); assert t[2..][0] == t[2]; }
    next := from + 2 + NameRun(t[2..]);
    assert t[next - from..] == s[next..];
  }

  lemma NoPart(s: string, from: nat)
    requires from <= |s| && !PartFollows(s, from)
    ensures ColonRun(s[from..]) == 0
  {
    hide NameRun;
    var t := s[from..];
    assert |t| > 2 ==> t[2] == s[from + 2];
  }

  lemma {:induction false} FirstClose(s: string)
    requires ')' in s
    ensures 1 <= ToClose(s) <= |s| && s[ToClose(s) - 1] == ')' && ')' !in s[..ToClose(s) - 1]
  {
    if s[0] != ')' {
      assert s == [s[0]] + s[1..];
      FirstClose(s[1..]);
      assert s[..ToClose(s) - 1] == [s[0]] + s[1..][..ToClose(s) - 2];
    }
  }

  // ---- which kind of piece

  /** The first character decides, with one more for comments; everything else is a piece of its own. */
  lemma PieceKinds(s: string)
    requires s != ""
    ensures var c, n := s[0], PieceLength(s);
            && (c in "'\"`" ==> n == 1 + QuoteRun(s[1..], c))
            && (c == '[' ==> n == 1 + QuoteRun(s[1..], ']'))
            && (|s| > 1 && s[..2] == "--" ==> n == 2 + LineRun(s[2..]))
            && (|s| > 1 && s[..2] == "/*" ==> n == 2 + BlockRun(s[2..]))
            && (IsLetter(c) ==> n == 1 + WordRun(s[1..]))
            && (c == '?' ==> n == 1 + DigitRun(s[1..]))
            && (c in ":@" ==> n == 1 + NameRun(s[1..]))
            && (c == '$' ==> n == DollarLength(s))
            && (c !in "'\"`[?:@$" && !IsLetter(c) && !(|s| > 1 && (s[..2] == "--" || s[..2] == "/*")) ==> n == 1)
  {
    hide QuoteRun, LineRun, BlockRun, WordRun, DigitRun, NameRun, DollarLength;
    if |s| > 1 { assert s[..2] == [s[0], s[1]]; }
  }
}
