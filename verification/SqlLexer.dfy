/** The compiler's own view of SQL text: quoted pieces, comments, words, placeholders, and single
    characters. */
module SqlLexer {
  import opened DecimalText

  predicate IsLetter(c: char) { 'a' <= c <= 'z' || 'A' <= c <= 'Z' || c == '_' }

  predicate IsWordChar(c: char) { IsLetter(c) || IsDigit(c) }

  /** `isSqliteParameterNameCharacter`. */
  predicate IsNameChar(c: char) { IsWordChar(c) || c as int >= 0x80 }

  predicate IsQuote(c: char) { c == '\'' || c == '"' || c == '`' || c == '[' }

  predicate IsMark(c: char) { c == '?' || c == ':' || c == '@' || c == '$' }

  /** What the host's trim removes. */
  predicate IsSpace(c: char) {
    || 9 <= c as int <= 13 || c == ' ' || c as int == 0xA0 || c as int == 0x1680 || 0x2000 <= c as int <= 0x200A
    || c as int == 0x2028 || c as int == 0x2029 || c as int == 0x202F || c as int == 0x205F || c as int == 0x3000
    || c as int == 0xFEFF
  }

  // ---- one piece

  function WordRun(s: string): (n: nat)
    ensures n <= |s|
  {
    if s == "" || !IsWordChar(s[0]) then 0 else 1 + WordRun(s[1..])
  }

  function NameRun(s: string): (n: nat)
    ensures n <= |s|
  {
    if s == "" || !IsNameChar(s[0]) then 0 else 1 + NameRun(s[1..])
  }

  function DigitRun(s: string): (n: nat)
    ensures n <= |s|
  {
    if s == "" || !IsDigit(s[0]) then 0 else 1 + DigitRun(s[1..])
  }

  function LineRun(s: string): (n: nat)
    ensures n <= |s|
  {
    if s == "" || s[0] == '\n' then 0 else 1 + LineRun(s[1..])
  }

  /** To the closing quote; a doubled quote is part of the text, except for brackets. */
  function QuoteRun(s: string, close: char): (n: nat)
    ensures n <= |s|
  {
    if s == "" then 0
    else if s[0] == close then
      if close != ']' && |s| > 1 && s[1] == close then 2 + QuoteRun(s[2..], close) else 1
    else 1 + QuoteRun(s[1..], close)
  }

  function BlockRun(s: string): (n: nat)
    ensures n <= |s|
  {
    if s == "" then 0 else if |s| > 1 && s[0] == '*' && s[1] == '/' then 2 else 1 + BlockRun(s[1..])
  }

  /** The ::name parts of a dollar placeholder. */
  function ColonRun(s: string): (n: nat)
    ensures n <= |s|
  {
    if |s| > 2 && s[0] == ':' && s[1] == ':' && IsNameChar(s[2]) then
      var n := 2 + NameRun(s[2..]);
      n + ColonRun(s[n..])
    else 0
  }

  /** Up to and with the first closing parenthesis; nothing when there is none. */
  function ParenRun(s: string): (n: nat)
    ensures n <= |s|
  {
    if s != "" && s[0] == '(' && ')' in s then 1 + ToClose(s[1..]) else 0
  }

  function ToClose(s: string): (n: nat)
    ensures n <= |s|
  {
    if s == "" then 0 else if s[0] == ')' then 1 else 1 + ToClose(s[1..])
  }

  function DollarLength(s: string): (n: nat)
    requires s != ""
    ensures 1 <= n <= |s|
  {
    var name := 1 + NameRun(s[1..]);
    if name == 1 then 1
    else
      var colons := name + ColonRun(s[name..]);
      colons + ParenRun(s[colons..])
  }

  predicate IsLineComment(s: string) { |s| > 1 && s[0] == '-' && s[1] == '-' }

  predicate IsBlockComment(s: string) { |s| > 1 && s[0] == '/' && s[1] == '*' }

  /** How much one turn of the scanner consumes. */
  function PieceLength(s: string): (n: nat)
    requires s != ""
    ensures 1 <= n <= |s|
  {
    var c := s[0];
    if IsQuote(c) then 1 + QuoteRun(s[1..], if c == '[' then ']' else c)
    else if IsLineComment(s) then 2 + LineRun(s[2..])
    else if IsBlockComment(s) then 2 + BlockRun(s[2..])
    else if IsLetter(c) then 1 + WordRun(s[1..])
    else if c == '?' then 1 + DigitRun(s[1..])
    else if c == ':' || c == '@' then 1 + NameRun(s[1..])
    else if c == '$' then DollarLength(s)
    else 1
  }

  /** A placeholder; a lone colon, at sign or dollar is none. */
  predicate IsParameter(p: string) { p != "" && (p[0] == '?' || (IsMark(p[0]) && |p| > 1)) }

  /** White space and comments. */
  predicate Insignificant(p: string) {
    p != "" && (IsSpace(p[0]) || IsLineComment(p) || IsBlockComment(p))
  }

  // ---- a text as its pieces

  function Pieces(s: string): seq<string> {
    if s == "" then [] else [s[..PieceLength(s)]] + Pieces(s[PieceLength(s)..])
  }

  function Render(pieces: seq<string>): string {
    if pieces == [] then "" else pieces[0] + Render(pieces[1..])
  }

  /** In front of this text, the piece ends where it ends. */
  predicate Fits(p: string, after: string) {
    p != "" && PieceLength(p + after) == |p|
  }

  predicate AllFit(pieces: seq<string>) {
    forall k :: 0 <= k < |pieces| ==> Fits(pieces[k], Render(pieces[k + 1..]))
  }

  lemma {:induction false} RenderPieces(s: string)
    ensures Render(Pieces(s)) == s
  {
    if s != "" {
      var n := PieceLength(s);
      RenderPieces(s[n..]);
      assert Pieces(s)[1..] == Pieces(s[n..]);
      assert s == s[..n] + s[n..];
    }
  }

  /** A list of pieces is what the scanner reads from its text exactly when each piece ends where
      the scanner would end it. */
  lemma {:induction false} PiecesExact(pieces: seq<string>)
    ensures Pieces(Render(pieces)) == pieces <==> AllFit(pieces)
  {
    hide PieceLength;
    if pieces != [] {
      var first, rest := pieces[0], pieces[1..];
      PiecesExact(rest);
      FitTail(pieces);
      if Fits(first, Render(rest)) {
        FirstPiece(first, Render(rest));
        if AllFit(rest) { assert Pieces(Render(pieces)) == [first] + rest == pieces; }
      }
      if Pieces(Render(pieces)) == pieces { HeadFits(pieces); }
    }
  }

  lemma FirstPiece(p: string, after: string)
    requires Fits(p, after)
    ensures Pieces(p + after) == [p] + Pieces(after)
  {
    hide PieceLength;
    assert (p + after)[..|p|] == p && (p + after)[|p|..] == after;
  }

  lemma HeadFits(pieces: seq<string>)
    requires pieces != [] && Pieces(Render(pieces)) == pieces
    ensures Fits(pieces[0], Render(pieces[1..])) && Pieces(Render(pieces[1..])) == pieces[1..]
  {
    hide PieceLength;
    var s := Render(pieces);
    var n := PieceLength(s);
    assert pieces[0] == s[..n] && pieces[1..] == Pieces(s[n..]);
    assert s == pieces[0] + Render(pieces[1..]);
    assert s[n..] == Render(pieces[1..]);
  }

  lemma FitTail(pieces: seq<string>)
    requires pieces != []
    ensures AllFit(pieces) <==> Fits(pieces[0], Render(pieces[1..])) && AllFit(pieces[1..])
  {
    hide Fits;
    var rest := pieces[1..];
    assert forall k :: 0 <= k < |rest| ==> rest[k] == pieces[k + 1] && rest[k + 1..] == pieces[k + 2..];
    if Fits(pieces[0], Render(rest)) && AllFit(rest) {
      forall k | 0 <= k < |pieces| ensures Fits(pieces[k], Render(pieces[k + 1..])) {
        if k > 0 { assert Fits(rest[k - 1], Render(rest[k..])); }
      }
    }
    if AllFit(pieces) {
      assert Fits(pieces[0], Render(pieces[0 + 1..]));
      forall k | 0 <= k < |rest| ensures Fits(rest[k], Render(rest[k + 1..])) {
        assert Fits(pieces[k + 1], Render(pieces[k + 2..]));
      }
    }
  }

  lemma PiecesFit(s: string)
    ensures AllFit(Pieces(s))
  {
    RenderPieces(s);
    PiecesExact(Pieces(s));
  }

  lemma Assoc(a: string, b: string, c: string)
    ensures (a + b) + c == a + (b + c)
  {
  }

  lemma {:induction false} RenderJoins(a: seq<string>, b: seq<string>)
    ensures Render(a + b) == Render(a) + Render(b)
  {
    if a == [] {
      assert a + b == b;
    } else {
      RenderJoins(a[1..], b);
      assert (a + b)[1..] == a[1..] + b;
      Assoc(a[0], Render(a[1..]), Render(b));
    }
  }

  // ---- how far a piece looks ahead

  lemma {:induction false} WordLooks(p: string, t: string, u: string)
    requires WordRun(p + t) == |p| && (u == "" || !IsWordChar(u[0]) || (t != "" && u[0] == t[0]))
    ensures WordRun(p + u) == |p|
  {
    if p != "" {
      assert (p + t)[1..] == p[1..] + t && (p + u)[1..] == p[1..] + u;
      WordLooks(p[1..], t, u);
    } else {
      assert p + u == u && p + t == t;
    }
  }

  lemma {:induction false} NameLooks(p: string, t: string)
    requires NameRun(p + t) == |p|
    ensures t == "" || !IsNameChar(t[0])
  {
    if p != "" {
      assert (p + t)[1..] == p[1..] + t;
      NameLooks(p[1..], t);
    } else {
      assert p + t == t;
    }
  }

  lemma {:induction false} DigitLooks(p: string, u: string)
    requires forall i :: 0 <= i < |p| ==> IsDigit(p[i])
    ensures DigitRun(p + u) == |p| <==> u == "" || !IsDigit(u[0])
  {
    if p != "" {
      assert (p + u)[1..] == p[1..] + u;
      DigitLooks(p[1..], u);
    } else {
      assert p + u == u;
    }
  }

  lemma {:induction false} DigitsOnly(p: string, t: string)
    requires DigitRun(p + t) == |p|
    ensures forall i :: 0 <= i < |p| ==> IsDigit(p[i])
  {
    if p != "" {
      assert (p + t)[1..] == p[1..] + t;
      DigitsOnly(p[1..], t);
      assert p == [p[0]] + p[1..];
    }
  }

  lemma {:induction false} LineLooks(p: string, t: string, u: string)
    requires LineRun(p + t) == |p|
    ensures t == "" || t[0] == '\n'
    ensures LineRun(p + u) == |p| <==> u == "" || u[0] == '\n'
  {
    if p != "" {
      assert (p + t)[1..] == p[1..] + t && (p + u)[1..] == p[1..] + u;
      LineLooks(p[1..], t, u);
    } else {
      assert p + u == u && p + t == t;
    }
  }

  /** A quoted piece with something behind it is closed, and stays so unless the closing quote is
      doubled. */
  lemma {:induction false} QuoteLooks(p: string, t: string, u: string, close: char)
    requires QuoteRun(p + t, close) == |p| && t != "" && (u == "" || u[0] != close || u[0] == t[0])
    ensures QuoteRun(p + u, close) == |p|
    decreases |p|
  {
    assert p == "" ==> p + t == t;
    if p != "" && p[0] != close {
      assert (p + t)[1..] == p[1..] + t && (p + u)[1..] == p[1..] + u;
      QuoteLooks(p[1..], t, u, close);
    } else if |p| > 1 && close != ']' && p[1] == close {
      assert (p + t)[2..] == p[2..] + t && (p + u)[2..] == p[2..] + u;
      QuoteLooks(p[2..], t, u, close);
    } else if p != "" {
      QuoteCloses(p, t, u, close);
    }
  }

  lemma QuoteCloses(p: string, t: string, u: string, close: char)
    requires p != "" && p[0] == close && !(close != ']' && |p| > 1 && p[1] == close)
    requires QuoteRun(p + t, close) == |p| && t != "" && (u == "" || u[0] != close || u[0] == t[0])
    ensures QuoteRun(p + u, close) == |p|
  {
    assert |p| == 1 ==> (p + t)[1] == t[0];
    assert |p| == 1 && u != "" ==> (p + u)[1] == u[0];
  }

  lemma {:induction false} BlockLooks(p: string, t: string, u: string)
    requires BlockRun(p + t) == |p| && t != ""
    ensures BlockRun(p + u) == |p|
  {
    assert p == "" ==> p + t == t;
    if |p| > 1 {
      assert (p + t)[0] == p[0] && (p + t)[1] == p[1] && (p + u)[1] == p[1];
      if !(p[0] == '*' && p[1] == '/') {
        assert (p + t)[1..] == p[1..] + t && (p + u)[1..] == p[1..] + u;
        BlockLooks(p[1..], t, u);
      }
    }
  }

  /** A character no piece runs on into, and that closes no quote. */
  predicate Plain(c: char) { c == '?' || c == ' ' || c == ',' || c == '\n' }

  /** `u` looks like `t` from the piece in front: it is empty, or starts the same way, or plainly. */
  predicate LooksLike(u: string, t: string) {
    u == "" || (t != "" && (u[0] == t[0] || Plain(u[0])))
  }

  lemma QuotedFits(p: string, t: string, u: string)
    requires Fits(p, t) && IsQuote(p[0]) && LooksLike(u, t)
    ensures Fits(p, u)
  {
    hide QuoteRun;
    assert (p + t)[1..] == p[1..] + t && (p + u)[1..] == p[1..] + u;
    if u != "" || t != "" { QuoteLooks(p[1..], t, u, if p[0] == '[' then ']' else p[0]); }
  }

  lemma CommentFits(p: string, t: string, u: string)
    requires Fits(p, t) && (IsLineComment(p) || IsBlockComment(p)) && LooksLike(u, t)
    requires IsLineComment(p) ==> u == "" || u[0] == '\n'
    ensures Fits(p, u)
  {
    hide LineRun, BlockRun;
    assert (p + t)[0] == p[0] && (p + t)[1] == p[1] && (p + u)[0] == p[0] && (p + u)[1] == p[1];
    assert (p + t)[2..] == p[2..] + t && (p + u)[2..] == p[2..] + u;
    if IsLineComment(p) {
      LineLooks(p[2..], t, u);
    } else if t != "" {
      BlockLooks(p[2..], t, u);
    }
  }

  lemma WordFits(p: string, t: string, u: string)
    requires Fits(p, t) && IsLetter(p[0]) && LooksLike(u, t)
    ensures Fits(p, u)
  {
    hide WordRun;
    assert (p + t)[1..] == p[1..] + t && (p + u)[1..] == p[1..] + u;
    assert (p + t)[0] == p[0] && (p + u)[0] == p[0];
    WordLooks(p[1..], t, u);
  }

  /** A single character that starts nothing longer. */
  lemma CharacterFits(p: string, t: string, u: string)
    requires Fits(p, t) && |p| == 1 && p[0] != '?' && !IsQuote(p[0]) && !IsLetter(p[0]) && LooksLike(u, t)
    ensures Fits(p, u)
  {
    hide LineRun, BlockRun;
    assert (p + t)[1..] == t && (p + u)[1..] == u && (p + t)[0] == p[0] && (p + u)[0] == p[0];
    assert t != "" ==> (p + t)[1] == t[0];
    assert u != "" ==> (p + u)[1] == u[0];
    assert !IsLineComment(p + t) && !IsBlockComment(p + t);
    assert !IsLineComment(p + u) && !IsBlockComment(p + u);
    assert p[0] == ':' || p[0] == '@' || p[0] == '$' ==> NameRun(t) == 0;
    assert NameRun(t) == 0 ==> NameRun(u) == 0;
  }

  /** What remains of the cases: a piece of more than one character is a quoted piece, a comment, a
      word or a placeholder. */
  lemma LongPieces(p: string, t: string)
    requires Fits(p, t) && |p| > 1
    ensures IsQuote(p[0]) || IsLineComment(p) || IsBlockComment(p) || IsLetter(p[0]) || IsParameter(p)
  {
    hide QuoteRun, LineRun, BlockRun, WordRun, DigitRun, NameRun, DollarLength;
    assert (p + t)[0] == p[0] && (p + t)[1] == p[1];
  }

  /** A piece that is no placeholder ends at the same place in front of a text that looks alike. */
  lemma PieceLooks(p: string, t: string, u: string)
    requires Fits(p, t) && !IsParameter(p) && LooksLike(u, t)
    requires IsLineComment(p) ==> u == "" || u[0] == '\n'
    ensures Fits(p, u)
  {
    hide Fits;
    assert p != "" by { NotEmpty(p, t); }
    if |p| > 1 { LongPieces(p, t); }
    if IsQuote(p[0]) {
      QuotedFits(p, t, u);
    } else if IsLineComment(p) || IsBlockComment(p) {
      CommentFits(p, t, u);
    } else if IsLetter(p[0]) {
      WordFits(p, t, u);
    } else {
      CharacterFits(p, t, u);
    }
  }

  lemma NotEmpty(p: string, t: string)
    requires Fits(p, t)
    ensures p != ""
  {
  }

  /** A numbered placeholder ends where its digits end. */
  lemma NumberedFits(digits: string, u: string)
    requires forall i :: 0 <= i < |digits| ==> IsDigit(digits[i])
    ensures Fits("?" + digits, u) <==> u == "" || !IsDigit(u[0])
  {
    hide DigitRun;
    assert ("?" + digits + u)[1..] == digits + u && ("?" + digits + u)[0] == '?';
    DigitLooks(digits, u);
  }

  /** After a placeholder of any other form than $name(...) comes no digit. */
  lemma DigitOnlyAfterParenthesis(p: string, t: string)
    requires Fits(p, t) && IsParameter(p) && t != "" && IsDigit(t[0])
    ensures p[0] == '$' && p[|p| - 1] == ')'
  {
    hide NameRun, DigitRun, ColonRun, ParenRun;
    var s := p + t;
    assert s[0] == p[0] && s[1..] == p[1..] + t;
    if p[0] == '?' {
      DigitsOnly(p[1..], t);
      DigitLooks(p[1..], t);
    } else if p[0] == ':' || p[0] == '@' {
      NameLooks(p[1..], t);
    } else {
      DollarEnds(p, t);
    }
  }

  lemma DollarEnds(p: string, t: string)
    requires p != "" && p[0] == '$' && |p| > 1 && DollarLength(p + t) == |p| && t != "" && IsDigit(t[0])
    ensures p[|p| - 1] == ')'
  {
    hide NameRun, ColonRun;
    var s := p + t;
    assert s[|p|] == t[0] && forall i :: 0 <= i < |p| ==> s[i] == p[i];
    var name := 1 + NameRun(s[1..]);
    var colons := name + ColonRun(s[name..]);
    if ParenRun(s[colons..]) > 0 {
      CloseIsLast(s[colons..][1..]);
      assert s[colons..][1..] == s[colons + 1..];
      assert s[|p| - 1] == ')';
    } else {
      if ColonRun(s[name..]) > 0 { ColonsEnd(s[name..]); } else { NameEnds(s[1..]); }
    }
  }

  lemma {:induction false} CloseIsLast(s: string)
    requires ')' in s
    ensures ToClose(s) > 0 && s[ToClose(s) - 1] == ')'
  {
    if s[0] != ')' {
      assert s == [s[0]] + s[1..];
      CloseIsLast(s[1..]);
    }
  }

  lemma {:induction false} NameEnds(s: string)
    ensures NameRun(s) < |s| ==> !IsNameChar(s[NameRun(s)])
  {
    if s != "" && IsNameChar(s[0]) { NameEnds(s[1..]); }
  }

  lemma {:induction false} ColonsEnd(s: string)
    requires ColonRun(s) > 0
    ensures ColonRun(s) < |s| ==> !IsNameChar(s[ColonRun(s)])
  {
    var n := 2 + NameRun(s[2..]);
    NameEnds(s[2..]);
    if ColonRun(s[n..]) > 0 { ColonsEnd(s[n..]); }
  }
}
