/** The two templates of an ordered mutation, and exactly when they mean what their source
    segments mean. */
module SqlTemplates {
  import opened DecimalText
  import opened SqlLexer
  import opened SqlRewrite

  // ---- trimming

  function TrimEnd(s: string): string {
    if s == "" || !IsSpace(s[|s| - 1]) then s else TrimEnd(s[..|s| - 1])
  }

  function TrimStart(s: string): string {
    if s == "" || !IsSpace(s[0]) then s else TrimStart(s[1..])
  }

  function Trim(s: string): string { TrimEnd(TrimStart(s)) }

  /** The pieces that are neither white space nor comments. */
  function Significant(pieces: seq<string>): seq<string> {
    if pieces == [] then []
    else (if Insignificant(pieces[0]) then [] else [pieces[0]]) + Significant(pieces[1..])
  }

  lemma {:induction false} SignificantJoins(a: seq<string>, b: seq<string>)
    ensures Significant(a + b) == Significant(a) + Significant(b)
  {
    hide Insignificant;
    if a == [] {
      assert a + b == b;
    } else {
      SignificantJoins(a[1..], b);
      assert (a + b)[1..] == a[1..] + b && (a + b)[0] == a[0];
      AssocPieces(if Insignificant(a[0]) then [] else [a[0]], Significant(a[1..]), Significant(b));
    }
  }

  lemma AssocPieces(a: seq<string>, b: seq<string>, c: seq<string>)
    ensures (a + b) + c == a + (b + c)
  {
  }

  /** A rewritten segment: it is read as its pieces, its placeholders are numbered, and nothing in
      it is left open. */
  ghost predicate Segment(r: seq<string>) {
    && AllFit(r) && Numbered(r)
    && (r != [] ==> Fits(r[|r| - 1], "\n"))
  }

  ghost predicate Numbered(r: seq<string>) { forall k :: 0 <= k < |r| && IsParameter(r[k]) ==> IsNumbered(r[k]) }

  /** In a segment, any piece still ends at its end in front of a text that looks alike. */
  lemma StillFits(p: string, t: string, u: string)
    requires Fits(p, t) && (IsParameter(p) ==> IsNumbered(p)) && LooksLike(u, t)
    requires IsLineComment(p) ==> u == "" || u[0] == '\n'
    ensures Fits(p, u)
  {
    hide PieceLength, LooksLike;
    if IsParameter(p) {
      assert p == "?" + p[1..];
      NumberedFits(p[1..], t);
      NumberedFits(p[1..], u);
      LooksNoDigit(u, t);
    } else {
      PieceLooks(p, t, u);
    }
  }

  lemma LooksNoDigit(u: string, t: string)
    requires LooksLike(u, t) && (t == "" || !IsDigit(t[0]))
    ensures u == "" || !IsDigit(u[0])
  {
  }

  /** Two lists that start alike. */
  lemma RestLooks(a: seq<string>, b: seq<string>)
    requires AllFit(b) && (a != [] ==> b != [] && a[0] != "" && a[0][0] == b[0][0])
    requires b != [] ==> b[0] != ""
    ensures LooksLike(Render(a), Render(b))
    ensures a != [] ==> Render(a) != "" && Render(a)[0] == Render(b)[0]
  {
    RenderStarts(a);
    RenderStarts(b);
  }

  // ---- from the end

  lemma SpaceIsOne(p: string, t: string)
    requires Fits(p, t) && IsSpace(p[0])
    ensures |p| == 1 && !IsLineComment(p) && !IsBlockComment(p) && !IsParameter(p)
  {
    assert (p + t)[0] == p[0];
  }

  lemma SpaceFits(c: char, u: string)
    requires IsSpace(c)
    ensures Fits([c], u)
  {
    assert ([c] + u)[0] == c;
  }

  /** All but the last piece of a segment, when the last one is white space or a comment that is
      made shorter. */
  lemma FrontFits(r: seq<string>, q: seq<string>)
    requires AllFit(r) && Numbered(r) && r != [] && |q| <= |r| && |q| >= |r| - 1 && q[..|r| - 1] == r[..|r| - 1]
    requires |q| == |r| ==> q[|q| - 1] != "" && q[|q| - 1][0] == r[|r| - 1][0] && Fits(q[|q| - 1], "")
    ensures AllFit(q)
  {
    hide PieceLength, Fits, Render;
    var n := |r| - 1;
    forall k | 0 <= k < |q| ensures Fits(q[k], Render(q[k + 1..])) {
      if k < n {
        assert q[k] == q[..n][k] == r[..n][k] == r[k];
        assert Fits(r[k], Render(r[k + 1..]));
        NonEmpty(r, k + 1);
        if k + 1 < |q| {
          assert k + 1 < n ==> q[k + 1] == q[..n][k + 1] == r[..n][k + 1] == r[k + 1];
          assert q[k + 1][0] == r[k + 1][0];
        }
        RestLooks(q[k + 1..], r[k + 1..]) by { SuffixFits(r, k + 1); }
        if IsLineComment(r[k]) { LineEnds(r[k], Render(r[k + 1..])); }
        RenderStarts(q[k + 1..]);
        StillFits(r[k], Render(r[k + 1..]), Render(q[k + 1..]));
      } else {
        assert q[k + 1..] == [];
        RenderStarts(q[k + 1..]);
      }
    }
  }

  lemma SuffixFits(r: seq<string>, m: nat)
    requires AllFit(r) && m <= |r|
    ensures AllFit(r[m..])
  {
    hide Fits;
    forall k | 0 <= k < |r[m..]| ensures Fits(r[m..][k], Render(r[m..][k + 1..])) {
      assert r[m..][k] == r[m + k] && r[m..][k + 1..] == r[m + k + 1..];
      assert Fits(r[m + k], Render(r[m + k + 1..]));
    }
  }

  lemma {:induction false} RenderLast(r: seq<string>)
    requires r != []
    ensures Render(r) == Render(r[..|r| - 1]) + r[|r| - 1]
  {
    assert r == r[..|r| - 1] + [r[|r| - 1]];
    RenderJoins(r[..|r| - 1], [r[|r| - 1]]);
    assert [r[|r| - 1]][1..] == [] && Render([r[|r| - 1]]) == r[|r| - 1] + "";
  }

  /** A closed piece that ends in white space is white space or a line comment. */
  lemma EndsInSpace(p: string)
    requires Fits(p, "\n") && IsSpace(p[|p| - 1]) && !IsSpace(p[0]) && (IsParameter(p) ==> IsNumbered(p))
    ensures IsLineComment(p)
  {
    hide PieceLength, QuoteRun, BlockRun, WordRun;
    if |p| > 1 { LongPieces(p, "\n"); }
    NumberedEnds(p);
    if IsQuote(p[0]) {
      QuoteEnds(p);
    } else if IsBlockComment(p) {
      BlockEnds(p);
    } else if !IsLineComment(p) && IsLetter(p[0]) {
      WordEnds(p);
    }
  }

  lemma NumberedEnds(p: string)
    ensures IsNumbered(p) ==> IsDigit(p[|p| - 1])
  {
    assert |p| > 1 ==> p[1..][|p| - 2] == p[|p| - 1];
  }

  lemma QuoteEnds(p: string)
    requires Fits(p, "\n") && IsQuote(p[0])
    ensures p[|p| - 1] == if p[0] == '[' then ']' else p[0]
  {
    hide QuoteRun;
    assert (p + "\n")[1..] == p[1..] + "\n";
    QuoteRunEnds(p[1..], "\n", if p[0] == '[' then ']' else p[0]);
    assert |p| > 1 ==> p[1..][|p| - 2] == p[|p| - 1];
  }

  lemma {:induction false} QuoteRunEnds(p: string, t: string, close: char)
    requires QuoteRun(p + t, close) == |p| && t != "" && t[0] != close
    ensures p != "" && p[|p| - 1] == close
    decreases |p|
  {
    assert p == "" ==> p + t == t;
    assert (p + t)[|p|..] == t;
    if |p| > 1 {
      assert (p + t)[0] == p[0] && (p + t)[1] == p[1];
      if p[0] != close {
        assert (p + t)[1..] == p[1..] + t;
        QuoteRunEnds(p[1..], t, close);
      } else if close != ']' && p[1] == close {
        assert (p + t)[2..] == p[2..] + t;
        if |p| > 2 { QuoteRunEnds(p[2..], t, close); }
      }
    }
  }

  lemma BlockEnds(p: string)
    requires Fits(p, "\n") && IsBlockComment(p)
    ensures p[|p| - 1] == '/'
  {
    hide BlockRun;
    assert (p + "\n")[0] == p[0] && (p + "\n")[1] == p[1] && (p + "\n")[2..] == p[2..] + "\n";
    BlockRunEnds(p[2..], "\n");
    assert |p| > 2 ==> p[2..][|p| - 3] == p[|p| - 1];
  }

  lemma {:induction false} BlockRunEnds(p: string, t: string)
    requires BlockRun(p + t) == |p| && t != "" && t[0] != '/'
    ensures p != "" && p[|p| - 1] == '/'
    decreases |p|
  {
    assert p == "" ==> p + t == t;
    assert (p + t)[|p|..] == t;
    if |p| > 1 {
      assert (p + t)[0] == p[0] && (p + t)[1] == p[1];
      if !(p[0] == '*' && p[1] == '/') {
        assert (p + t)[1..] == p[1..] + t;
        BlockRunEnds(p[1..], t);
      }
    }
  }

  lemma WordEnds(p: string)
    requires Fits(p, "\n") && IsLetter(p[0])
    ensures !IsSpace(p[|p| - 1])
  {
    hide WordRun;
    assert (p + "\n")[0] == p[0] && (p + "\n")[1..] == p[1..] + "\n";
    WordRunAll(p[1..], "\n");
    assert |p| > 1 ==> p[1..][|p| - 2] == p[|p| - 1];
  }

  lemma {:induction false} WordRunAll(p: string, t: string)
    requires WordRun(p + t) == |p|
    ensures forall i :: 0 <= i < |p| ==> IsWordChar(p[i])
  {
    if p != "" {
      assert (p + t)[1..] == p[1..] + t;
      WordRunAll(p[1..], t);
      assert p == [p[0]] + p[1..];
    }
  }

  lemma {:induction false} TrimEndIs(s: string)
    ensures TrimEnd(s) <= s && (TrimEnd(s) != "" ==> !IsSpace(TrimEnd(s)[|TrimEnd(s)| - 1]))
    ensures s != "" && !IsSpace(s[0]) ==> TrimEnd(s) != ""
  {
    if s != "" && IsSpace(s[|s| - 1]) { TrimEndIs(s[..|s| - 1]); }
  }

  lemma {:induction false} TrimEndTail(a: string, b: string)
    requires TrimEnd(b) != ""
    ensures TrimEnd(a + b) == a + TrimEnd(b)
  {
    assert b != "" && (a + b)[|a + b| - 1] == b[|b| - 1];
    if IsSpace(b[|b| - 1]) {
      TrimEndTail(a, b[..|b| - 1]);
      assert (a + b)[..|a + b| - 1] == a + b[..|b| - 1];
    }
  }

  /** The last piece that is not white space is a line comment. */
  ghost predicate EndsInComment(r: seq<string>) {
    && r != []
    && if r[|r| - 1] != "" && IsSpace(r[|r| - 1][0]) then EndsInComment(r[..|r| - 1]) else IsLineComment(r[|r| - 1])
  }

  /** Without the white space at the end, also at the end of a comment that is last. */
  function StripEnd(r: seq<string>): seq<string> {
    if r == [] then []
    else
      var w := r[|r| - 1];
      if w != "" && IsSpace(w[0]) then StripEnd(r[..|r| - 1])
      else r[..|r| - 1] + [TrimEnd(w)]
  }

  function StripStart(r: seq<string>): seq<string> {
    if r == [] || r[0] == "" || !IsSpace(r[0][0]) then r else StripStart(r[1..])
  }

  function Strip(r: seq<string>): seq<string> { StripEnd(StripStart(r)) }

  /** What trimming the end of a segment leaves. */
  ghost predicate Trimmed(r: seq<string>, q: seq<string>) {
    && q == StripEnd(r) && Segment(q) && Render(q) == TrimEnd(Render(r)) && Significant(q) == Significant(r)
    && (q != [] ==> q[|q| - 1] != "" && !IsSpace(q[|q| - 1][0]))
    && (q != [] && IsLineComment(q[|q| - 1]) <==> EndsInComment(r))
  }

  lemma SegmentFront(r: seq<string>)
    requires Segment(r) && r != [] && IsSpace(r[|r| - 1][0])
    ensures Segment(r[..|r| - 1])
  {
    hide PieceLength, Fits, Render;
    var front, w := r[..|r| - 1], r[|r| - 1];
    FrontFits(r, front);
    if front != [] {
      var v := front[|front| - 1];
      assert v == r[|r| - 2] && Fits(v, Render(r[|r| - 1..]));
      assert r[|r| - 1..] == [w];
      assert Fits(w, "\n");
      SpaceIsOne(w, "\n") by { assert w != "" by { NotEmpty(w, "\n"); } }
      RenderStarts([w]);
      assert LooksLike("\n", Render([w]));
      StillFits(v, Render([w]), "\n");
    }
  }

  lemma SegmentLast(r: seq<string>)
    requires Segment(r) && r != []
    ensures r[|r| - 1] != "" && Fits(r[|r| - 1], "\n")
  {
    NotEmpty(r[|r| - 1], "\n");
  }

  lemma DropSpace(r: seq<string>)
    requires r != [] && Segment(r) && IsSpace(r[|r| - 1][0])
    ensures TrimEnd(Render(r)) == TrimEnd(Render(r[..|r| - 1])) && Significant(r) == Significant(r[..|r| - 1])
    ensures EndsInComment(r) <==> EndsInComment(r[..|r| - 1])
  {
    hide PieceLength, AllFit;
    var front, w := r[..|r| - 1], r[|r| - 1];
    SpaceIsOne(w, "\n");
    RenderLast(r);
    assert Render(r)[|Render(r)| - 1] == w[0] && Render(r)[..|Render(r)| - 1] == Render(front);
    SignificantJoins(front, [w]);
    assert front + [w] == r && [w][1..] == [];
  }

  /** A line comment that loses the white space at its end is still that comment. */
  lemma ShorterComment(w: string)
    requires Fits(w, "\n") && IsLineComment(w)
    ensures IsLineComment(TrimEnd(w)) && Fits(TrimEnd(w), "\n") && Fits(TrimEnd(w), "")
  {
    hide LineRun;
    TrimEndIs(w);
    var v := TrimEnd(w);
    assert (w + "\n")[0] == '-' && (w + "\n")[1] == '-' && (w + "\n")[2..] == w[2..] + "\n";
    DashesStay(w);
    LineHasNoBreak(w[2..], "\n");
    assert v[2..] == w[2..|v|] && forall i :: 0 <= i < |v| - 2 ==> v[2..][i] == w[2..][i];
    LineOfNoBreak(v[2..], "\n");
    LineOfNoBreak(v[2..], "");
    assert (v + "\n")[0] == '-' && (v + "\n")[1] == '-' && (v + "\n")[2..] == v[2..] + "\n";
    assert v + "" == v && v[2..] + "" == v[2..];
  }

  lemma DashesStay(w: string)
    requires IsLineComment(w)
    ensures IsLineComment(TrimEnd(w))
    decreases |w|
  {
    if IsSpace(w[|w| - 1]) { DashesStay(w[..|w| - 1]); }
  }

  lemma {:induction false} LineHasNoBreak(p: string, t: string)
    requires LineRun(p + t) == |p|
    ensures '\n' !in p
  {
    if p != "" {
      assert (p + t)[1..] == p[1..] + t;
      LineHasNoBreak(p[1..], t);
      assert p == [p[0]] + p[1..];
    }
  }

  lemma {:induction false} LineOfNoBreak(p: string, u: string)
    requires '\n' !in p && (u == "" || u[0] == '\n')
    ensures LineRun(p + u) == |p|
  {
    if p != "" {
      assert (p + u)[1..] == p[1..] + u;
      LineOfNoBreak(p[1..], u);
    } else {
      assert p + u == u;
    }
  }

  lemma {:induction false} TrimEndPieces(r: seq<string>) returns (q: seq<string>)
    requires Segment(r)
    ensures Trimmed(r, q)
  {
    hide PieceLength, Fits, AllFit, Render, Significant;
    if r == [] {
      q := [];
      RenderStarts(q);
    } else {
      SegmentLast(r);
      var front, w := r[..|r| - 1], r[|r| - 1];
      if IsSpace(w[0]) {
        SegmentFront(r);
        DropSpace(r);
        q := TrimEndPieces(front);
      } else if !IsSpace(w[|w| - 1]) {
        q := r;
        RenderLast(r);
        assert Render(r)[|Render(r)| - 1] == w[|w| - 1];
      } else {
        q := CutComment(r);
      }
    }
  }

  lemma CutComment(r: seq<string>) returns (q: seq<string>)
    requires Segment(r) && r != [] && r[|r| - 1] != "" && !IsSpace(r[|r| - 1][0])
    requires IsSpace(r[|r| - 1][|r[|r| - 1]| - 1])
    ensures Trimmed(r, q)
  {
    hide PieceLength, Fits, Render;
    var front, w := r[..|r| - 1], r[|r| - 1];
    EndsInSpace(w);
    ShorterComment(w);
    TrimEndIs(w);
    var v := TrimEnd(w);
    q := front + [v];
    assert q[..|r| - 1] == r[..|r| - 1] && v[0] == w[0];
    FrontFits(r, q);
    forall k | 0 <= k < |q| && IsParameter(q[k]) ensures IsNumbered(q[k]) { if k < |front| { assert q[k] == r[k]; } }
    RenderLast(r);
    RenderLast(q);
    assert q[..|q| - 1] == front;
    TrimEndTail(Render(front), w);
    SignificantJoins(front, [v]);
    SignificantJoins(front, [w]);
    assert front + [w] == r && [w][1..] == [] && [v][1..] == [];
    assert Significant([w]) == [] == Significant([v]);
  }

  // ---- in front of the template's own text

  /** The template continues with a blank or a comma. */
  predicate Continues(suffix: string) { suffix != "" && (suffix[0] == ' ' || suffix[0] == ',') }

  lemma JoinFits(q: seq<string>, suffix: string)
    requires Segment(q) && Continues(suffix) && (q != [] ==> !IsLineComment(q[|q| - 1]))
    ensures AllFit(q + Pieces(suffix)) && Render(q + Pieces(suffix)) == Render(q) + suffix
  {
    hide PieceLength, Fits, Render, Pieces, Segment, Continues, IsLineComment;
    var tail := Pieces(suffix);
    RenderPieces(suffix);
    PiecesFit(suffix);
    RenderJoins(q, tail);
    forall k | 0 <= k < |q + tail| ensures Fits((q + tail)[k], Render((q + tail)[k + 1..])) {
      if k >= |q| {
        TailPieceFits(q, tail, k);
      } else {
        assert (q + tail)[k + 1..] == q[k + 1..] + tail;
        RenderJoins(q[k + 1..], tail);
        JoinOne(q, k, suffix);
      }
    }
  }

  lemma TailPieceFits(q: seq<string>, tail: seq<string>, k: nat)
    requires AllFit(tail) && |q| <= k < |q| + |tail|
    ensures Fits((q + tail)[k], Render((q + tail)[k + 1..]))
  {
    hide Fits, Render;
    assert (q + tail)[k + 1..] == tail[k - |q| + 1..];
    assert Fits(tail[k - |q|], Render(tail[k - |q| + 1..]));
  }

  lemma JoinOne(q: seq<string>, k: nat, suffix: string)
    requires Segment(q) && Continues(suffix) && k < |q| && !IsLineComment(q[|q| - 1])
    ensures Fits(q[k], Render(q[k + 1..]) + suffix)
  {
    hide PieceLength, Fits, Render;
    var t := Render(q[k + 1..]);
    RenderStarts(q[k + 1..]);
    if k == |q| - 1 {
      assert t + suffix == suffix;
      StillFits(q[k], "\n", suffix);
    } else {
      NonEmpty(q, k + 1);
      assert (t + suffix)[0] == t[0];
      assert Fits(q[k], t);
      if IsLineComment(q[k]) { LineEnds(q[k], t); }
      StillFits(q[k], t, t + suffix);
    }
  }

  /** Trimmed and continued, a segment keeps its meaning and the continuation is read on its own,
      exactly when it does not end in a line comment. */
  lemma TrimmedContinues(r: seq<string>, suffix: string)
    requires Segment(r) && Continues(suffix) && '\n' !in suffix && Significant(Pieces(suffix)) != []
    ensures Significant(Pieces(TrimEnd(Render(r)) + suffix)) == Significant(r) + Significant(Pieces(suffix)) <==>
              !EndsInComment(r)
  {
    hide PieceLength, Fits, Render, Pieces, Segment, Significant, EndsInComment;
    var q := TrimEndPieces(r);
    if EndsInComment(r) {
      Swallowed(q, suffix);
    } else {
      JoinFits(q, suffix);
      PiecesExact(q + Pieces(suffix));
      SignificantJoins(q, Pieces(suffix));
    }
  }

  /** Without the line break, the comment runs on and takes the continuation with it. */
  lemma Swallowed(q: seq<string>, suffix: string)
    requires Segment(q) && q != [] && IsLineComment(q[|q| - 1]) && Continues(suffix) && '\n' !in suffix
    ensures Significant(Pieces(Render(q) + suffix)) == Significant(q)
  {
    hide PieceLength, Fits, Render, Pieces, Significant, AllFit, Numbered, Continues;
    var front, w := q[..|q| - 1], q[|q| - 1];
    var longer := front + [w + suffix];
    assert w + suffix != "" && (w + suffix)[0] == w[0];
    SegmentLast(q);
    LongerComment(w, suffix);
    assert longer[..|q| - 1] == front;
    FrontFits(q, longer);
    PiecesExact(longer);
    LongerText(q, longer, suffix);
    SignificantJoins(front, [w]);
    SignificantJoins(front, [w + suffix]);
    assert front + [w] == q;
    OnlyComment(w);
    OnlyComment(w + suffix);
  }

  lemma LongerText(q: seq<string>, longer: seq<string>, suffix: string)
    requires q != [] && longer == q[..|q| - 1] + [q[|q| - 1] + suffix]
    ensures Render(longer) == Render(q) + suffix
  {
    hide Render;
    RenderLast(q);
    RenderLast(longer);
    assert longer[..|longer| - 1] == q[..|q| - 1];
    Assoc(Render(q[..|q| - 1]), q[|q| - 1], suffix);
  }

  lemma OnlyComment(w: string)
    requires IsLineComment(w)
    ensures Significant([w]) == []
  {
    assert [w][1..] == [];
  }

  lemma LongerComment(w: string, suffix: string)
    requires Fits(w, "\n") && IsLineComment(w) && '\n' !in suffix
    ensures IsLineComment(w + suffix) && Fits(w + suffix, "")
  {
    hide LineRun;
    assert (w + "\n")[0] == '-' && (w + "\n")[1] == '-' && (w + "\n")[2..] == w[2..] + "\n";
    LineHasNoBreak(w[2..], "\n");
    var v := w + suffix;
    assert v[2..] == w[2..] + suffix;
    LineOfNoBreak(v[2..], "");
    assert v + "" == v && v[2..] + "" == v[2..];
  }

  // ---- from the start

  lemma {:induction false} TrimStartPieces(r: seq<string>) returns (m: nat)
    requires Segment(r)
    ensures m <= |r| && r[m..] == StripStart(r)
    ensures Render(r[m..]) == TrimStart(Render(r)) && Segment(r[m..]) && Significant(r[m..]) == Significant(r)
    ensures EndsInComment(r[m..]) <==> EndsInComment(r)
  {
    hide PieceLength, Fits, AllFit, Significant, EndsInComment;
    RenderStarts(r);
    assert r[0..] == r;
    m := 0;
    if r != [] {
      NonEmpty(r, 0);
      if IsSpace(r[0][0]) {
        SegmentRest(r);
        SpaceHead(r);
        m := TrimStartPieces(r[1..]);
        assert r[1..][m..] == r[m + 1..];
        m := m + 1;
      }
    }
  }

  lemma SegmentRest(r: seq<string>)
    requires Segment(r) && r != []
    ensures Segment(r[1..])
  {
    hide Fits;
    SuffixFits(r, 1);
  }

  lemma SpaceHead(r: seq<string>)
    requires Segment(r) && r != [] && r[0] != "" && IsSpace(r[0][0])
    ensures TrimStart(Render(r)) == TrimStart(Render(r[1..])) && Significant(r) == Significant(r[1..])
    ensures EndsInComment(r) <==> EndsInComment(r[1..])
  {
    hide PieceLength;
    assert Fits(r[0], Render(r[0 + 1..]));
    SpaceIsOne(r[0], Render(r[1..]));
    assert Render(r)[1..] == Render(r[1..]);
    SpaceHeadComment(r);
  }

  lemma {:induction false} SpaceHeadComment(r: seq<string>)
    requires r != [] && |r[0]| == 1 && IsSpace(r[0][0])
    ensures EndsInComment(r) <==> EndsInComment(r[1..])
  {
    if |r| == 1 {
      assert r[..0] == [] && r[1..] == [];
    } else {
      assert r[1..][|r| - 2] == r[|r| - 1];
      if r[|r| - 1] != "" && IsSpace(r[|r| - 1][0]) {
        SpaceHeadComment(r[..|r| - 1]);
        assert r[..|r| - 1][1..] == r[1..][..|r| - 2];
      }
    }
  }

  /** Trimmed on both sides. */
  lemma TrimPieces(r: seq<string>) returns (q: seq<string>)
    requires Segment(r)
    ensures q == Strip(r) && Segment(q) && Render(q) == Trim(Render(r)) && Significant(q) == Significant(r)
    ensures q != [] && IsLineComment(q[|q| - 1]) <==> EndsInComment(r)
  {
    hide Segment, Render, Significant, EndsInComment;
    var m := TrimStartPieces(r);
    q := TrimEndPieces(r[m..]);
  }

  // ---- the template's own words

  /** A keyword, a token or a quoted name: closed in front of a blank. */
  predicate Loose(p: string) { p != "" && Fits(p, " ") && !IsParameter(p) && !IsLineComment(p) }

  /** Each piece is a blank or a comma, or is followed by a blank. */
  predicate Spaced(h: seq<string>) {
    forall k :: 0 <= k < |h| ==> h[k] == " " || h[k] == "," || (Loose(h[k]) && k + 1 < |h| && h[k + 1] == " ")
  }

  lemma PrependSpaced(h: seq<string>, rest: seq<string>)
    requires Spaced(h) && AllFit(rest)
    ensures AllFit(h + rest) && Render(h + rest) == Render(h) + Render(rest)
  {
    hide PieceLength, Fits, Render, Loose;
    RenderJoins(h, rest);
    forall k | 0 <= k < |h + rest| ensures Fits((h + rest)[k], Render((h + rest)[k + 1..])) {
      if k >= |h| {
        assert (h + rest)[k + 1..] == rest[k - |h| + 1..];
        assert Fits(rest[k - |h|], Render(rest[k - |h| + 1..]));
      } else if h[k] == " " || h[k] == "," {
        BlankFits(Render((h + rest)[k + 1..]));
      } else {
        assert Loose(h[k]) && k + 1 < |h| && h[k + 1] == " ";
        assert (h + rest)[k + 1..][0] == (h + rest)[k + 1] == h[k + 1];
        RenderStarts((h + rest)[k + 1..]);
        LooseFits(h[k], Render((h + rest)[k + 1..]));
      }
    }
  }

  lemma BlankFits(u: string)
    ensures Fits(" ", u) && Fits(",", u)
  {
    assert (" " + u)[0] == ' ' && ("," + u)[0] == ',';
  }

  lemma LooseFits(p: string, u: string)
    requires Loose(p) && u != "" && u[0] == ' '
    ensures Fits(p, u)
  {
    hide PieceLength, Fits;
    PieceLooks(p, " ", u);
  }

  predicate IsKeyword(p: string) { p != "" && IsLetter(p[0]) && forall i :: 0 <= i < |p| ==> IsWordChar(p[i]) }

  lemma KeywordLoose(p: string)
    requires IsKeyword(p)
    ensures Loose(p)
  {
    assert (p + " ")[0] == p[0] && (p + " ")[1..] == p[1..] + " ";
    WordRunOf(p[1..]);
  }

  lemma {:induction false} WordRunOf(p: string)
    requires forall i :: 0 <= i < |p| ==> IsWordChar(p[i])
    ensures WordRun(p + " ") == |p|
  {
    if p != "" {
      assert (p + " ")[1..] == p[1..] + " ";
      WordRunOf(p[1..]);
    } else {
      assert p + " " == " ";
    }
  }

  /** `quoteSqlIdentifier`. */
  function Doubled(name: string): string {
    if name == "" then "" else (if name[0] == '"' then "\"\"" else [name[0]]) + Doubled(name[1..])
  }

  function QuoteIdentifier(name: string): string { "\"" + Doubled(name) + "\"" }

  lemma {:induction false} DoubledRun(name: string)
    ensures QuoteRun(Doubled(name) + "\"" + " ", '"') == |Doubled(name)| + 1
  {
    var s := Doubled(name) + "\"" + " ";
    if name == "" {
      assert s == "\" ";
    } else {
      DoubledRun(name[1..]);
      var rest := Doubled(name[1..]) + "\"" + " ";
      if name[0] == '"' {
        assert s == "\"\"" + rest && s[2..] == rest;
      } else {
        assert s == [name[0]] + rest && s[1..] == rest;
      }
    }
  }

  /** Whatever the table's name, quoting makes it one piece. */
  lemma QuotedIsOnePiece(name: string)
    ensures Loose(QuoteIdentifier(name))
  {
    var p := QuoteIdentifier(name);
    assert (p + " ")[0] == '"' && (p + " ")[1..] == Doubled(name) + "\"" + " ";
    DoubledRun(name);
  }

  const PREDICATE := "__chronolog_ordered_target_predicate__"
  const COLUMNS := "__chronolog_ordered_identity_columns__"
  const ROW_ORDER := "__chronolog_ordered_identity_order__"

  const WHERE_PREDICATE: seq<string> := [" ", "WHERE", " ", PREDICATE]

  lemma FixedWords()
    ensures Loose("SELECT") && Loose("FROM") && Loose("WHERE") && Loose("ORDER") && Loose("BY") && Loose("LIMIT")
    ensures Loose(PREDICATE) && Loose(COLUMNS) && Loose(ROW_ORDER)
  {
    hide Loose, IsKeyword;
    ShortWords();
    PredicateWord();
    ColumnsWord();
    RowOrderWord();
  }

  lemma ShortWords()
    ensures Loose("SELECT") && Loose("FROM") && Loose("WHERE") && Loose("ORDER") && Loose("BY") && Loose("LIMIT")
  {
    hide Loose;
    KeywordLoose("SELECT");
    KeywordLoose("FROM");
    KeywordLoose("WHERE");
    KeywordLoose("ORDER");
    KeywordLoose("BY");
    KeywordLoose("LIMIT");
  }

  lemma PredicateWord()
    ensures Loose(PREDICATE)
  {
    hide Loose;
    KeywordLoose(PREDICATE);
  }

  lemma ColumnsWord()
    ensures Loose(COLUMNS)
  {
    hide Loose;
    KeywordLoose(COLUMNS);
  }

  lemma RowOrderWord()
    ensures Loose(ROW_ORDER)
  {
    hide Loose;
    KeywordLoose(ROW_ORDER);
  }

  // ---- the mutation template

  /** The statement up to its WHERE, the target predicate in its place, and RETURNING if any. */
  function MutationTemplate(prefix: string, returning: Option<string>): string {
    TrimEnd(prefix) + " WHERE " + PREDICATE + match returning case None => "" case Some(s) => " " + Trim(s)
  }

  lemma WhereText()
    ensures Render(WHERE_PREDICATE) == " WHERE " + PREDICATE
  {
    var w := WHERE_PREDICATE;
    assert w[1..][1..][1..][1..] == [];
    assert w[1..][1..][1..] == [PREDICATE] && w[1..][1..] == [" ", PREDICATE] && w[1..] == ["WHERE", " ", PREDICATE];
    assert Render(w[1..][1..][1..]) == PREDICATE;
    assert Render(w[1..][1..]) == " " + PREDICATE;
    assert Render(w[1..]) == "WHERE" + (" " + PREDICATE);
  }

  lemma PredicateFits(q: seq<string>)
    requires AllFit(q)
    ensures AllFit(WHERE_PREDICATE) && AllFit(WHERE_PREDICATE + ([" "] + q))
  {
    hide PieceLength, Fits, Render, Pieces, Loose, AllFit;
    FixedWords();
    var w := WHERE_PREDICATE;
    assert Spaced([" ", "WHERE", " "]) && Spaced([" ", "WHERE", " ", PREDICATE, " "]);
    PredicateAlone();
    PrependSpaced([" ", "WHERE", " "], [PREDICATE]);
    assert [" ", "WHERE", " "] + [PREDICATE] == w;
    PrependSpaced([" ", "WHERE", " ", PREDICATE, " "], q);
    assert [" ", "WHERE", " ", PREDICATE, " "] + q == w + ([" "] + q);
  }

  lemma PredicateAlone()
    ensures AllFit([PREDICATE])
  {
    hide PieceLength, Fits, Render;
    KeywordLoose(PREDICATE);
    assert [PREDICATE][1..] == [];
    RenderStarts([PREDICATE][1..]);
    PieceLooks(PREDICATE, " ", "");
  }

  function TextOf(segment: Option<seq<string>>): Option<string> {
    if segment.None? then None else Some(Render(segment.value))
  }

  lemma EmptySegment()
    ensures Segment([])
  {
  }

  // ---- the selection template

  function SemicolonAtEnd(s: string): bool {
    TrimEnd(s) != "" && TrimEnd(s)[|TrimEnd(s)| - 1] == ';'
  }

  function DropSemicolon(s: string): string {
    if SemicolonAtEnd(s) then TrimEnd(s)[..|TrimEnd(s)| - 1] else s
  }

  function LimitText(s: string): string { Trim(DropSemicolon(s)) }

  function HeadWords(target: string): string {
    "SELECT " + COLUMNS + " FROM " + QuoteIdentifier(target) + " WHERE "
  }

  function SelectionTemplate(target: string, where: string, order: string, limit: string): string {
    InLine(HeadWords(target), where, " ORDER BY ", if order == "" then "" else order + ", ", ROW_ORDER, " LIMIT ",
        limit)
  }

  function InLine(a: string, b: string, c: string, d: string, e: string, f: string, g: string): string {
    a + b + c + d + e + f + g
  }

  function Head(target: string): seq<string> {
    ["SELECT", " ", COLUMNS, " ", "FROM", " ", QuoteIdentifier(target), " ", "WHERE", " "]
  }

  const ORDER_BY: seq<string> := [" ", "ORDER", " ", "BY", " "]
  const COMMA: seq<string> := [",", " "]
  const LIMIT: seq<string> := [ROW_ORDER, " ", "LIMIT", " "]

  lemma RenderCons(a: string, rest: seq<string>)
    ensures Render([a] + rest) == a + Render(rest)
  {
    assert ([a] + rest)[1..] == rest;
  }

  lemma FixedTexts(target: string)
    ensures Render(Head(target)) == HeadWords(target)
    ensures Render(ORDER_BY) == " ORDER BY " && Render(COMMA) == ", " && Render(LIMIT) == ROW_ORDER + " LIMIT "
  {
    hide Render;
    var q := QuoteIdentifier(target);
    RenderStarts([]);
    RenderCons(" ", []);
    assert [" "] + [] == [" "] && " " + "" == " ";
    RenderCons(",", [" "]);
    assert [","] + [" "] == COMMA;
    RenderCons("LIMIT", [" "]);
    RenderCons(" ", ["LIMIT", " "]);
    RenderCons(ROW_ORDER, [" ", "LIMIT", " "]);
    assert ["LIMIT"] + [" "] == ["LIMIT", " "] && [" "] + ["LIMIT", " "] == [" ", "LIMIT", " "];
    assert [ROW_ORDER] + [" ", "LIMIT", " "] == LIMIT;
    RenderCons("BY", [" "]);
    RenderCons(" ", ["BY", " "]);
    RenderCons("ORDER", [" ", "BY", " "]);
    RenderCons(" ", ["ORDER", " ", "BY", " "]);
    assert ["BY"] + [" "] == ["BY", " "] && [" "] + ["BY", " "] == [" ", "BY", " "];
    assert ["ORDER"] + [" ", "BY", " "] == ["ORDER", " ", "BY", " "] && [" "] + ["ORDER", " ", "BY", " "] == ORDER_BY;
    HeadText(target);
  }

  lemma HeadText(target: string)
    ensures Render(Head(target)) == HeadWords(target)
  {
    hide Render, QuoteIdentifier;
    var q := QuoteIdentifier(target);
    RenderStarts([]);
    RenderCons(" ", []);
    assert [" "] + [] == [" "];
    TwoMore("WHERE", []);
    TwoMore(q, ["WHERE", " "]);
    TwoMore("FROM", [q, " ", "WHERE", " "]);
    TwoMore(COLUMNS, ["FROM", " ", q, " ", "WHERE", " "]);
    TwoMore("SELECT", [COLUMNS, " ", "FROM", " ", q, " ", "WHERE", " "]);
    assert [q, " "] + ["WHERE", " "] == [q, " ", "WHERE", " "];
    assert ["FROM", " "] + [q, " ", "WHERE", " "] == ["FROM", " ", q, " ", "WHERE", " "];
    assert [COLUMNS, " "] + ["FROM", " ", q, " ", "WHERE", " "] == [COLUMNS, " ", "FROM", " ", q, " ", "WHERE", " "];
    assert ["SELECT", " "] + [COLUMNS, " ", "FROM", " ", q, " ", "WHERE", " "] == Head(target);
    assert ["WHERE", " "] + [] == ["WHERE", " "];
    HeadRegroup(COLUMNS, q);
  }

  lemma HeadRegroup(c: string, q: string)
    ensures "SELECT" + " " + (c + " " + ("FROM" + " " + (q + " " + ("WHERE" + " " + ""))))
         == "SELECT " + c + " FROM " + q + " WHERE "
  {
    assert "WHERE" + " " + "" == "WHERE " && "FROM" + " " == "FROM " && "SELECT" + " " == "SELECT ";
    assert q + " " + "WHERE " == q + " WHERE ";
    assert c + " " + ("FROM " + (q + " WHERE ")) == c + " FROM " + q + " WHERE ";
    assert "SELECT " + (c + " FROM " + q + " WHERE ") == "SELECT " + c + " FROM " + q + " WHERE ";
  }

  lemma TwoMore(a: string, rest: seq<string>)
    ensures Render([a, " "] + rest) == a + " " + Render(rest)
  {
    hide Render;
    RenderCons(" ", rest);
    RenderCons(a, [" "] + rest);
    assert [a] + ([" "] + rest) == [a, " "] + rest;
    Assoc(a, " ", Render(rest));
  }

  lemma FixedSpaced(target: string)
    ensures Spaced(Head(target)) && Spaced(ORDER_BY) && Spaced(COMMA) && Spaced(LIMIT)
  {
    hide Loose;
    FixedWords();
    QuotedIsOnePiece(target);
  }

  lemma SegmentFits(q: seq<string>)
    requires Segment(q)
    ensures AllFit(q)
  {
  }

  lemma SelectionText(head: string, where: string, orderBy: string, order: string, rowOrder: string, limitWord: string,
                      limit: string, rest: string)
    requires rest == order + ((rowOrder + limitWord) + limit)
    ensures InLine(head, where, orderBy, order, rowOrder, limitWord, limit) == head + (where + (orderBy + rest))
  {
    hide InLine;
    NestSeven(head, where, orderBy, order, rowOrder, limitWord, limit);
  }

  lemma NestSeven(a: string, b: string, c: string, d: string, e: string, f: string, g: string)
    ensures InLine(a, b, c, d, e, f, g) == a + (b + (c + (d + ((e + f) + g))))
  {
    Assoc(a, b, c);
    Assoc(a, b + c, d);
    Assoc(a, b + c + d, e);
    Assoc(a, b + c + d + e, f);
    Assoc(a, b + c + d + e + f, g);
    NestSix(b, c, d, e, f, g);
  }

  lemma NestSix(b: string, c: string, d: string, e: string, f: string, g: string)
    ensures b + c + d + e + f + g == b + (c + (d + ((e + f) + g)))
  {
    Assoc(b, c, d);
    Assoc(b, c + d, e);
    Assoc(b, c + d + e, f);
    Assoc(b, c + d + e + f, g);
    Assoc(c, d, e);
    Assoc(c, d + e, f);
    Assoc(c, d + e + f, g);
    Assoc(d, e, f);
    Assoc(d, e + f, g);
  }

  // ---- the two ways in which a template differs from its source

  /** The placeholder $a(b), numbered 1 and followed by the digit 5, becomes placeholder 15. */
  lemma GluedExample()
    ensures Pieces("$a(b)5") == ["$a(b)", "5"]
    ensures Render(RewriteAll(["$a(b)", "5"], [1, 0])) == "?15" && Pieces("?15") == ["?15"]
  {
    hide PieceLength, Render;
    DollarExample();
    DigitsExample();
    var r := RewriteAll(["$a(b)", "5"], [1, 0]);
    assert NatText(1) == "1" && "?" + "1" == "?1";
    assert r[0] == Rewritten("$a(b)", 1) == "?1" && r[1] == Rewritten("5", 0) == "5";
    assert r == ["?1"] + ["5"];
    RenderCons("?1", ["5"]);
    RenderCons("5", []);
    RenderStarts([]);
    assert ["5"] + [] == ["5"] && "5" + "" == "5" && "?1" + "5" == "?15";
    assert "$a(b)5"[..5] == "$a(b)" && "$a(b)5"[5..] == "5" && "5"[..1] == "5" && "5"[1..] == "";
    assert Pieces("5") == ["5"] + Pieces("");
    assert "?15"[..3] == "?15" && "?15"[3..] == "";
    assert Pieces("?15") == ["?15"] + Pieces("");
  }

  lemma DollarExample()
    ensures PieceLength("$a(b)5") == 5
  {
    hide ParenRun, NameRun, ColonRun;
    var s := "$a(b)5";
    assert s[1..] == "a(b)5" && s[2..] == "(b)5";
    NameExample();
    ParenExample();
    assert DollarLength(s) == 5;
  }

  lemma NameExample()
    ensures NameRun("a(b)5") == 1 && ColonRun("(b)5") == 0
  {
    assert "a(b)5"[1..] == "(b)5" && NameRun("(b)5") == 0;
  }

  lemma ParenExample()
    ensures ParenRun("(b)5") == 3
  {
    assert "(b)5"[1..] == "b)5" && "b)5"[1..] == ")5" && ToClose(")5") == 1 && ToClose("b)5") == 2;
    assert "(b)5"[2] == ')';
  }

  lemma DigitsExample()
    ensures PieceLength("?15") == 3 && PieceLength("5") == 1
  {
    assert "?15"[1..] == "15" && "15"[1..] == "5" && "5"[1..] == "" && DigitRun("5") == 1 && DigitRun("15") == 2;
  }

  /** An ORDER BY segment that ends in a comment: trimming drops the line break, and the row order
      that follows is read as part of the comment. */
  lemma CommentExample()
    ensures EndsInComment(["a", " ", "--x", "\n"]) && Segment(["a", " ", "--x", "\n"])
    ensures Significant(Pieces(TrimEnd(Render(["a", " ", "--x", "\n"])) + ", b")) == ["a"]
  {
    hide Segment, Pieces, Render, Significant, TrimEnd;
    var r := ["a", " ", "--x", "\n"];
    assert r[..3] == ["a", " ", "--x"] && r[3][0] == '\n';
    ExampleSegment();
    var q := TrimEndPieces(r);
    assert ", b"[0] == ',';
    Swallowed(q, ", b");
    ExampleMeaning();
  }

  lemma ExampleMeaning()
    ensures Significant(["a", " ", "--x", "\n"]) == ["a"]
  {
    var r := ["a", " ", "--x", "\n"];
    assert r[1..] == [" ", "--x", "\n"] && r[1..][1..] == ["--x", "\n"] && r[1..][1..][1..] == ["\n"];
    assert Significant(["\n"]) == [] by { assert ["\n"][1..] == []; }
    assert Significant(["--x", "\n"]) == [];
  }

  lemma ExampleSegment()
    ensures Segment(["a", " ", "--x", "\n"])
  {
    hide PieceLength, Fits, Render;
    var r := ["a", " ", "--x", "\n"];
    ExampleTexts();
    ExampleFits();
    forall k | 0 <= k < |r| ensures Fits(r[k], Render(r[k + 1..])) {
      if k == 0 { assert r[k + 1..] == [" ", "--x", "\n"]; }
      if k == 1 { assert r[k + 1..] == ["--x", "\n"]; }
      if k == 2 { assert r[k + 1..] == ["\n"]; }
      if k == 3 { assert r[k + 1..] == []; }
    }
  }

  lemma ExampleTexts()
    ensures Render(["\n"]) == "\n" && Render(["--x", "\n"]) == "--x\n" && Render([" ", "--x", "\n"]) == " --x\n"
    ensures Render([]) == ""
  {
    hide Render;
    RenderStarts([]);
    RenderCons("\n", []);
    RenderCons("--x", ["\n"]);
    RenderCons(" ", ["--x", "\n"]);
    assert ["\n"] + [] == ["\n"] && ["--x"] + ["\n"] == ["--x", "\n"] && [" "] + ["--x", "\n"] == [" ", "--x", "\n"];
  }

  lemma ExampleFits()
    ensures Fits("a", " --x\n") && Fits(" ", "--x\n") && Fits("--x", "\n") && Fits("\n", "") && Fits("\n", "\n")
  {
    hide Fits, PieceLength;
    KeywordLoose("a");
    LooseFits("a", " --x\n");
    BlankFits("--x\n");
    SpaceFits('\n', "");
    SpaceFits('\n', "\n");
    ExampleComment();
  }

  lemma ExampleComment()
    ensures Fits("--x", "\n")
  {
    assert ("--x" + "\n")[2..] == "x\n" && "x\n"[1..] == "\n" && LineRun("\n") == 0 && LineRun("x\n") == 1;
  }

  // ---- the wording

  /** How the selection reads around the trimmed segments of a statement. */
  lemma SelectionReads(target: string, where: string, order: string, limit: string)
    ensures SelectionTemplate(target, where, order, limit) ==
              "SELECT " + "__chronolog_ordered_identity_columns__" + " FROM " + QuoteIdentifier(target) + " WHERE "
              + where + " ORDER BY " + (if order == "" then "" else order + ", ")
              + "__chronolog_ordered_identity_order__" + " LIMIT " + limit
  {
  }

  /** How the mutation reads. */
  lemma MutationReads(prefix: string, returning: string)
    ensures MutationTemplate(prefix, None) == TrimEnd(prefix) + " WHERE " + "__chronolog_ordered_target_predicate__"
    ensures MutationTemplate(prefix, Some(returning)) ==
              TrimEnd(prefix) + " WHERE " + "__chronolog_ordered_target_predicate__" + (" " + Trim(returning))
  {
  }

  /** What trimming leaves: no white space at either end, and only white space was cut off. */
  lemma {:induction false} TrimEndMeans(s: string)
    ensures |TrimEnd(s)| <= |s| && TrimEnd(s) == s[..|TrimEnd(s)|]
    ensures forall i :: |TrimEnd(s)| <= i < |s| ==> IsSpace(s[i])
    ensures TrimEnd(s) != "" ==> !IsSpace(TrimEnd(s)[|TrimEnd(s)| - 1])
  {
    if s != "" && IsSpace(s[|s| - 1]) { TrimEndMeans(s[..|s| - 1]); }
  }

  lemma {:induction false} TrimStartMeans(s: string)
    ensures |TrimStart(s)| <= |s| && TrimStart(s) == s[|s| - |TrimStart(s)|..]
    ensures forall i :: 0 <= i < |s| - |TrimStart(s)| ==> IsSpace(s[i])
    ensures TrimStart(s) != "" ==> !IsSpace(TrimStart(s)[0])
  {
    if s != "" && IsSpace(s[0]) { TrimStartMeans(s[1..]); }
  }
}
