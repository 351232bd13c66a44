/** The plan of an ordered mutation: both templates as lists of pieces, exactly when they are read
    as the rewritten source, and what their placeholders then bind. */
module OrderedPlan {
  import opened DecimalText
  import opened SqlLexer
  import opened SqlRewrite
  import opened SqlTemplates

  // ---- lists of closed pieces

  ghost predicate ClosedPiece(p: string) { Fits(p, "\n") && (IsParameter(p) ==> IsNumbered(p)) }

  /** No quote or comment is left open, and placeholders are numbered. */
  ghost predicate Closed(r: seq<string>) { forall k :: 0 <= k < |r| ==> ClosedPiece(r[k]) }

  /** A placeholder is directly followed by a digit. */
  ghost predicate Glued(r: seq<string>) { exists k :: GluedDigit(r, k) }

  lemma ClosedIsSegment(r: seq<string>)
    requires Closed(r) && AllFit(r)
    ensures Segment(r)
  {
    hide Fits;
    assert forall k :: 0 <= k < |r| ==> ClosedPiece(r[k]);
  }

  lemma ClosedLast(r: seq<string>)
    requires Closed(r) && r != []
    ensures Closed(r[..|r| - 1]) && ClosedPiece(r[|r| - 1]) && r[|r| - 1] != ""
  {
    hide Fits;
    assert ClosedPiece(r[|r| - 1]);
    NotEmpty(r[|r| - 1], "\n");
    var front := r[..|r| - 1];
    forall k | 0 <= k < |front| ensures ClosedPiece(front[k]) { assert ClosedPiece(r[k]); }
  }

  lemma ClosedFirst(r: seq<string>)
    requires Closed(r) && r != []
    ensures Closed(r[1..]) && ClosedPiece(r[0]) && r[0] != ""
  {
    hide Fits;
    assert ClosedPiece(r[0]);
    NotEmpty(r[0], "\n");
    var rest := r[1..];
    forall k | 0 <= k < |rest| ensures ClosedPiece(rest[k]) { assert ClosedPiece(r[k + 1]); }
  }

  lemma ClosedAppend(r: seq<string>, p: string)
    requires Closed(r) && ClosedPiece(p)
    ensures Closed(r + [p])
  {
  }

  /** A closed piece that is neither white space nor a line comment does not end in white space. */
  lemma NoSpaceAtEnd(p: string)
    requires ClosedPiece(p) && p != "" && !IsSpace(p[0]) && !IsLineComment(p)
    ensures !IsSpace(p[|p| - 1])
  {
    hide Fits;
    if IsSpace(p[|p| - 1]) { EndsInSpace(p); }
  }

  lemma PieceIsClosed(p: string)
    requires ClosedPiece(p)
    ensures Fits(p, "\n") && (IsParameter(p) ==> IsNumbered(p))
  {
  }

  /** A piece, closed or not: white space is one character, and placeholders are numbered. */
  predicate PlainPiece(p: string) { p != "" && (IsSpace(p[0]) ==> |p| == 1) && (IsParameter(p) ==> IsNumbered(p)) }

  ghost predicate PlainList(r: seq<string>) { forall k :: 0 <= k < |r| ==> PlainPiece(r[k]) }

  lemma ClosedIsPlain(r: seq<string>)
    requires Closed(r)
    ensures PlainList(r)
  {
    hide Fits;
    forall k | 0 <= k < |r| ensures PlainPiece(r[k]) {
      assert ClosedPiece(r[k]);
      NotEmpty(r[k], "\n");
      if IsSpace(r[k][0]) { SpaceIsOne(r[k], "\n"); }
    }
  }

  lemma PlainNumbered(r: seq<string>)
    requires PlainList(r)
    ensures Numbered(r)
  {
    forall k | 0 <= k < |r| && IsParameter(r[k]) ensures IsNumbered(r[k]) { assert PlainPiece(r[k]); }
  }

  lemma PlainLast(r: seq<string>)
    requires PlainList(r) && r != []
    ensures PlainList(r[..|r| - 1]) && PlainPiece(r[|r| - 1])
  {
    hide PlainPiece;
  }

  lemma PlainFirst(r: seq<string>)
    requires PlainList(r) && r != []
    ensures PlainList(r[1..]) && PlainPiece(r[0])
  {
    hide PlainPiece;
  }

  lemma PlainAppend(r: seq<string>, p: string)
    requires PlainList(r) && PlainPiece(p)
    ensures PlainList(r + [p])
  {
    hide PlainPiece;
  }

  /** What is left of a piece that starts with something else than white space. */
  lemma TrimmedPiece(w: string)
    requires PlainPiece(w) && !IsSpace(w[0])
    ensures TrimEnd(w) <= w && PlainPiece(TrimEnd(w)) && TrimEnd(w)[0] == w[0]
    ensures IsParameter(w) ==> TrimEnd(w) == w
  {
    TrimEndIs(w);
    if IsParameter(w) { NumberedEnds(w); }
  }

  /** Trimming the text is stripping the pieces. */
  lemma {:induction false} StripEndPlain(r: seq<string>)
    requires PlainList(r)
    ensures Render(StripEnd(r)) == TrimEnd(Render(r)) && PlainList(StripEnd(r))
    ensures StripEnd(r) != [] ==> Render(StripEnd(r)) != "" && !IsSpace(StripEnd(r)[|StripEnd(r)| - 1][0])
  {
    hide Render, PlainList, PlainPiece;
    if r == [] {
      RenderStarts(r);
    } else {
      PlainLast(r);
      var front, w := r[..|r| - 1], r[|r| - 1];
      assert w != "" && (IsSpace(w[0]) ==> |w| == 1) by { PlainIs(w); }
      RenderLast(r);
      if IsSpace(w[0]) {
        StripEndPlain(front);
        assert Render(r)[|Render(r)| - 1] == w[0] && Render(r)[..|Render(r)| - 1] == Render(front);
      } else {
        TrimmedPiece(w);
        var q := front + [TrimEnd(w)];
        RenderLast(q);
        assert q[..|q| - 1] == front;
        assert TrimEnd(w) != "" by { PlainIs(TrimEnd(w)); }
        TrimEndTail(Render(front), w);
        PlainAppend(front, TrimEnd(w));
      }
    }
  }

  lemma PlainIs(p: string)
    requires PlainPiece(p)
    ensures p != "" && (IsSpace(p[0]) ==> |p| == 1) && (IsParameter(p) ==> IsNumbered(p))
  {
  }

  lemma {:induction false} StripStartPlain(r: seq<string>)
    requires PlainList(r)
    ensures Render(StripStart(r)) == TrimStart(Render(r)) && PlainList(StripStart(r))
  {
    hide PlainList, PlainPiece, Render;
    RenderStarts(r);
    if r != [] {
      PlainFirst(r);
      assert r[0] != "" && (IsSpace(r[0][0]) ==> |r[0]| == 1) by { PlainIs(r[0]); }
      if IsSpace(r[0][0]) {
        StripStartPlain(r[1..]);
        assert r == [r[0]] + r[1..];
        RenderCons(r[0], r[1..]);
        assert Render(r)[1..] == Render(r[1..]);
      }
    }
  }

  lemma StripPlain(r: seq<string>)
    requires PlainList(r)
    ensures Render(Strip(r)) == Trim(Render(r)) && PlainList(Strip(r))
    ensures Strip(r) == [] <==> Trim(Render(r)) == ""
  {
    hide PlainList, Render, StripEnd, StripStart, TrimEnd, TrimStart;
    StripStartPlain(r);
    StripEndPlain(StripStart(r));
    RenderStarts(Strip(r));
  }

  lemma CommentStaysClosed(w: string)
    requires ClosedPiece(w) && IsLineComment(w)
    ensures ClosedPiece(TrimEnd(w)) && IsLineComment(TrimEnd(w))
  {
    hide Fits;
    ShorterComment(w);
  }

  /** A closed list stays closed, and ends in a line comment exactly when it did. */
  lemma {:induction false} StripEndText(r: seq<string>)
    requires Closed(r)
    ensures Render(StripEnd(r)) == TrimEnd(Render(r)) && Closed(StripEnd(r))
    ensures StripEnd(r) != [] && IsLineComment(StripEnd(r)[|StripEnd(r)| - 1]) <==> EndsInComment(r)
    ensures StripEnd(r) != [] ==> Render(StripEnd(r)) != ""
  {
    hide Fits, Closed, ClosedPiece, Render, PieceLength;
    ClosedIsPlain(r);
    StripEndPlain(r);
    if r != [] {
      ClosedLast(r);
      var front, w := r[..|r| - 1], r[|r| - 1];
      if IsSpace(w[0]) {
        StripEndText(front);
      } else if IsLineComment(w) {
        CommentStaysClosed(w);
        ClosedAppend(front, TrimEnd(w));
      } else {
        NoSpaceAtEnd(w);
        assert r == front + [w];
      }
    }
  }

  lemma {:induction false} StripStartText(r: seq<string>)
    requires Closed(r)
    ensures Render(StripStart(r)) == TrimStart(Render(r)) && Closed(StripStart(r))
    ensures EndsInComment(StripStart(r)) <==> EndsInComment(r)
  {
    hide Fits, Closed, ClosedPiece, PieceLength, EndsInComment, Render;
    RenderStarts(r);
    if r != [] {
      ClosedFirst(r);
      if IsSpace(r[0][0]) {
        StripStartText(r[1..]);
        assert |r[0]| == 1 by { assert Fits(r[0], "\n") by { PieceIsClosed(r[0]); } SpaceIsOne(r[0], "\n"); }
        assert r == [r[0]] + r[1..];
        RenderCons(r[0], r[1..]);
        assert Render(r)[1..] == Render(r[1..]);
        SpaceHeadComment(r);
      }
    }
  }

  lemma StripText(r: seq<string>)
    requires Closed(r)
    ensures Render(Strip(r)) == Trim(Render(r)) && Closed(Strip(r))
    ensures Strip(r) != [] && IsLineComment(Strip(r)[|Strip(r)| - 1]) <==> EndsInComment(r)
    ensures Strip(r) == [] <==> Trim(Render(r)) == ""
  {
    hide Closed, Render, StripEnd, StripStart, EndsInComment, TrimEnd, TrimStart;
    StripStartText(r);
    StripEndText(StripStart(r));
    RenderStarts(Strip(r));
  }

  // ---- digits behind placeholders

  lemma {:induction false} GluedStripEnd(r: seq<string>)
    requires PlainList(r)
    ensures Glued(StripEnd(r)) <==> Glued(r)
  {
    hide PlainList, PlainPiece, Glued;
    if r != [] {
      PlainLast(r);
      var front, w := r[..|r| - 1], r[|r| - 1];
      assert w != "" by { PlainIs(w); }
      assert front + [w] == r;
      if IsSpace(w[0]) {
        GluedStripEnd(front);
        GluedLast(front, w);
      } else {
        TrimmedPiece(w);
        assert TrimEnd(w) != "" by { PlainIs(TrimEnd(w)); }
        GluedAlike(front, w, TrimEnd(w));
      }
    }
  }

  /** Only the first character of a last piece matters. */
  lemma GluedAlike(front: seq<string>, w: string, v: string)
    requires w != "" && v != "" && w[0] == v[0]
    ensures Glued(front + [w]) <==> Glued(front + [v])
  {
    var a, b := front + [w], front + [v];
    if Glued(a) {
      var k :| GluedDigit(a, k);
      assert GluedDigit(b, k);
    }
    if Glued(b) {
      var k :| GluedDigit(b, k);
      assert GluedDigit(a, k);
    }
  }

  /** A last piece that does not start with a digit is glued to nothing. */
  lemma GluedLast(front: seq<string>, w: string)
    requires w != "" && !IsDigit(w[0])
    ensures Glued(front + [w]) <==> Glued(front)
  {
    var r := front + [w];
    if Glued(r) {
      var k :| GluedDigit(r, k);
      assert GluedDigit(front, k);
    }
    if Glued(front) {
      var k :| GluedDigit(front, k);
      assert GluedDigit(r, k);
    }
  }

  lemma GluedFirst(w: string, rest: seq<string>)
    requires !IsParameter(w)
    ensures Glued([w] + rest) <==> Glued(rest)
  {
    var r := [w] + rest;
    if Glued(r) {
      var k :| GluedDigit(r, k);
      assert k > 0 && r[k] == rest[k - 1] && r[k + 1] == rest[k];
      assert GluedDigit(rest, k - 1);
    }
    if Glued(rest) {
      var k :| GluedDigit(rest, k);
      assert r[k + 1] == rest[k] && r[k + 2] == rest[k + 1];
      assert GluedDigit(r, k + 1);
    }
  }

  lemma {:induction false} GluedStripStart(r: seq<string>)
    requires PlainList(r)
    ensures Glued(StripStart(r)) <==> Glued(r)
  {
    hide PlainList, PlainPiece, GluedDigit;
    if r != [] {
      PlainFirst(r);
      assert r[0] != "" && (IsSpace(r[0][0]) ==> |r[0]| == 1) by { PlainIs(r[0]); }
      if IsSpace(r[0][0]) {
        GluedStripStart(r[1..]);
        GluedFirst(r[0], r[1..]);
        assert r == [r[0]] + r[1..];
      }
    }
  }

  lemma GluedStrip(r: seq<string>)
    requires PlainList(r)
    ensures Glued(Strip(r)) <==> Glued(r)
  {
    hide PlainList, Glued;
    GluedStripStart(r);
    StripStartPlain(r);
    GluedStripEnd(StripStart(r));
  }

  lemma GluedJoin(a: seq<string>, b: seq<string>)
    ensures Glued(a) || Glued(b) ==> Glued(a + b)
  {
    if Glued(a) {
      var k :| GluedDigit(a, k);
      assert GluedDigit(a + b, k);
    }
    if Glued(b) {
      var k :| GluedDigit(b, k);
      assert (a + b)[|a| + k] == b[k] && (a + b)[|a| + k + 1] == b[k + 1];
      assert GluedDigit(a + b, |a| + k);
    }
  }

  /** A placeholder glued to a digit is read as another placeholder. */
  lemma GluedUnfit(r: seq<string>)
    requires Numbered(r) && AllFit(r)
    ensures !Glued(r)
  {
    hide Fits, Render;
    if Glued(r) {
      var k :| GluedDigit(r, k);
      assert Fits(r[k], Render(r[k + 1..]));
      RenderStarts(r[k + 1..]);
      assert r[k + 1..][0] == r[k + 1];
      assert r[k] == "?" + r[k][1..];
      NumberedFits(r[k][1..], Render(r[k + 1..]));
      assert false;
    }
  }

  lemma ClosedNumbered(r: seq<string>)
    requires Closed(r)
    ensures Numbered(r)
  {
    forall k | 0 <= k < |r| && IsParameter(r[k]) ensures IsNumbered(r[k]) { assert ClosedPiece(r[k]); }
  }

  // ---- a segment of the source

  /** From one piece of the source up to another. */
  datatype Span = Span(from: nat, to: nat)

  predicate Inside(pieces: seq<string>, span: Span) { span.from <= span.to <= |pieces| }

  /** It lies in the statement; when it reaches the end, the last piece is closed. */
  ghost predicate SpanOf(pieces: seq<string>, span: Span) {
    && span.from <= span.to <= |pieces|
    && (span.to == |pieces| && pieces != [] ==> Fits(pieces[|pieces| - 1], "\n"))
  }

  function Source(pieces: seq<string>, span: Span): seq<string>
    requires span.from <= span.to <= |pieces|
  {
    pieces[span.from..span.to]
  }

  function Segmented(pieces: seq<string>, indices: seq<int>, span: Span): seq<string>
    requires span.from <= span.to <= |pieces| == |indices|
  {
    RewriteAll(pieces[span.from..span.to], indices[span.from..span.to])
  }

  /** In the span, the form $name(...) is directly followed by a digit. */
  ghost predicate DollarBeforeDigit(pieces: seq<string>, span: Span)
    requires span.from <= span.to <= |pieces|
  {
    exists k :: span.from <= k < span.to - 1 && DollarDigit(pieces, k)
  }

  ghost predicate DollarDigit(pieces: seq<string>, k: nat) {
    && k + 1 < |pieces| && pieces[k] != "" && pieces[k][0] == '$' && pieces[k][|pieces[k]| - 1] == ')'
    && pieces[k + 1] != "" && IsDigit(pieces[k + 1][0])
  }

  /** What the rewritten segments have in common. */
  ghost predicate SourceLike(r: seq<string>) {
    Closed(r) && (AllFit(r) <==> !Glued(r))
  }

  lemma SegmentOfSource(pieces: seq<string>, indices: seq<int>, span: Span)
    requires AllFit(pieces) && InRange(pieces, indices) && SpanOf(pieces, span)
    ensures var r := Segmented(pieces, indices, span);
            && SourceLike(r) && (Glued(r) <==> DollarBeforeDigit(pieces, span))
            && (EndsInComment(r) <==> EndsInComment(Source(pieces, span)))
            && (r != [] ==> (IsLineComment(r[|r| - 1]) <==> IsLineComment(pieces[span.to - 1])))
  {
    hide Fits, Render, Pieces, AllFit, Closed, EndsInComment, PieceLength, DollarBeforeDigit, GluedDigit;
    var r := Segmented(pieces, indices, span);
    SegmentClosed(pieces, indices, span);
    SegmentExact(pieces, indices, span.from, span.to);
    PiecesExact(r);
    GluedRewritten(Source(pieces, span), indices[span.from..span.to]) by { SliceInRange(pieces, indices, span); }
    GluedIsDollar(pieces, span);
    CommentRewritten(Source(pieces, span), indices[span.from..span.to]);
    if r != [] { RewrittenComment(pieces[span.to - 1], indices[span.to - 1]); }
  }

  lemma SliceInRange(pieces: seq<string>, indices: seq<int>, span: Span)
    requires AllFit(pieces) && InRange(pieces, indices) && span.from <= span.to <= |pieces|
    ensures InRange(Source(pieces, span), indices[span.from..span.to])
    ensures forall k :: 0 <= k < |Source(pieces, span)| ==> Source(pieces, span)[k] != ""
  {
    hide Fits, AllFit, IsParameter;
    forall k | 0 <= k < |Source(pieces, span)|
      ensures Source(pieces, span)[k] != ""
    {
      NonEmpty(pieces, span.from + k);
    }
  }

  lemma SegmentClosed(pieces: seq<string>, indices: seq<int>, span: Span)
    requires AllFit(pieces) && InRange(pieces, indices) && SpanOf(pieces, span)
    ensures Closed(Segmented(pieces, indices, span))
  {
    hide Fits, AllFit, IsParameter;
    var r := Segmented(pieces, indices, span);
    forall k | 0 <= k < |r| ensures ClosedPiece(r[k]) { PieceClosed(pieces, indices, span, span.from + k); }
  }

  lemma PieceClosed(pieces: seq<string>, indices: seq<int>, span: Span, k: nat)
    requires AllFit(pieces) && InRange(pieces, indices) && SpanOf(pieces, span) && span.from <= k < span.to
    ensures ClosedPiece(Rewritten(pieces[k], indices[k]))
  {
    hide Fits, Render, PieceLength, NatText;
    var p, t := pieces[k], Render(pieces[k + 1..]);
    assert Fits(p, t);
    if IsParameter(p) {
      RewrittenShape(p, indices[k]);
      NatTextRoundTrip(indices[k]);
      NumberedFits(NatText(indices[k]), "\n");
    } else if k + 1 < |pieces| {
      NonEmpty(pieces, k + 1);
      RenderStarts(pieces[k + 1..]);
      PieceLooks(p, t, "\n");
    }
  }

  lemma RewrittenStarts(p: string, index: int)
    requires p != ""
    ensures Rewritten(p, index) != ""
    ensures IsDigit(Rewritten(p, index)[0]) <==> IsDigit(p[0])
    ensures IsSpace(Rewritten(p, index)[0]) <==> IsSpace(p[0])
    ensures index >= 0 ==> (IsParameter(Rewritten(p, index)) <==> IsParameter(p))
  {
    hide NatText;
    if IsParameter(p) && index >= 0 { RewrittenShape(p, index); }
  }

  lemma RewrittenComment(p: string, index: int)
    ensures IsLineComment(Rewritten(p, index)) <==> IsLineComment(p)
  {
  }

  lemma GluedRewritten(pieces: seq<string>, indices: seq<int>)
    requires InRange(pieces, indices) && forall k :: 0 <= k < |pieces| ==> pieces[k] != ""
    ensures Glued(RewriteAll(pieces, indices)) <==> Glued(pieces)
  {
    hide IsParameter, Rewritten;
    var r := RewriteAll(pieces, indices);
    forall k ensures GluedDigit(r, k) <==> GluedDigit(pieces, k) {
      if 0 <= k < |pieces| - 1 {
        RewrittenStarts(pieces[k], indices[k]);
        RewrittenStarts(pieces[k + 1], indices[k + 1]);
        NeverNegative(pieces[k], indices[k]);
      }
    }
  }

  lemma NeverNegative(p: string, index: int)
    ensures index < 0 ==> Rewritten(p, index) == p
  {
  }

  lemma GluedIsDollar(pieces: seq<string>, span: Span)
    requires AllFit(pieces) && span.from <= span.to <= |pieces|
    ensures Glued(Source(pieces, span)) <==> DollarBeforeDigit(pieces, span)
  {
    hide Fits, AllFit;
    var s := Source(pieces, span);
    if Glued(s) {
      var k :| GluedDigit(s, k);
      assert s[k] == pieces[span.from + k] && s[k + 1] == pieces[span.from + k + 1];
      assert GluedDigit(pieces, span.from + k);
      GluedOnlyAfterParenthesis(pieces, span.from + k);
      assert DollarDigit(pieces, span.from + k);
    }
    if DollarBeforeDigit(pieces, span) {
      var k :| span.from <= k < span.to - 1 && DollarDigit(pieces, k);
      assert s[k - span.from] == pieces[k] && s[k - span.from + 1] == pieces[k + 1];
      assert |pieces[k]| > 1;
      assert GluedDigit(s, k - span.from);
    }
  }

  lemma {:induction false} CommentRewritten(pieces: seq<string>, indices: seq<int>)
    requires |pieces| == |indices|
    ensures EndsInComment(RewriteAll(pieces, indices)) <==> EndsInComment(pieces)
  {
    hide Rewritten;
    if pieces != [] {
      var n := |pieces| - 1;
      var r := RewriteAll(pieces, indices);
      CommentRewritten(pieces[..n], indices[..n]);
      assert r[..n] == RewriteAll(pieces[..n], indices[..n]);
      RewrittenComment(pieces[n], indices[n]);
      if pieces[n] != "" { RewrittenStarts(pieces[n], indices[n]); } else { EmptyKept(indices[n]); }
    }
  }

  lemma EmptyKept(index: int)
    ensures Rewritten("", index) == ""
  {
  }

  // ---- the mutation

  function MutationPieces(prefix: seq<string>, returning: Option<seq<string>>): seq<string> {
    StripEnd(prefix) + ReturningPieces(returning)
  }

  function ReturningPieces(returning: Option<seq<string>>): seq<string> {
    WHERE_PREDICATE + if returning.None? then [] else [" "] + Strip(returning.value)
  }

  /** The template's text is that of its pieces, however they are then read. */
  lemma MutationText(prefix: seq<string>, returning: Option<seq<string>>)
    requires Closed(prefix) && (returning.Some? ==> Closed(returning.value))
    ensures MutationTemplate(Render(prefix), TextOf(returning)) == Render(MutationPieces(prefix, returning))
    ensures Render(ReturningPieces(returning)) != "" && Render(ReturningPieces(returning))[0] == ' '
  {
    hide Render, Closed, StripEnd, Strip, TrimEnd, Trim;
    StripEndText(prefix);
    WhereText();
    RenderJoins(StripEnd(prefix), ReturningPieces(returning));
    var words := " WHERE " + PREDICATE;
    if returning.None? {
      assert WHERE_PREDICATE + [] == WHERE_PREDICATE;
    } else {
      StripText(returning.value);
      RenderJoins(WHERE_PREDICATE, [" "] + Strip(returning.value));
      RenderCons(" ", Strip(returning.value));
      assert Render(ReturningPieces(returning)) == words + (" " + Trim(Render(returning.value)));
    }
    FourTexts(TrimEnd(Render(prefix)), " WHERE ", PREDICATE,
        if returning.None? then "" else " " + Trim(Render(returning.value)));
    assert words[0] == ' ';
  }

  lemma FourTexts(a: string, b: string, c: string, d: string)
    ensures a + b + c + d == a + ((b + c) + d)
  {
    Assoc(a, b, c);
    Assoc(a, b + c, d);
  }

  /** The pieces are read one by one exactly when the prefix does not end in a line comment and no
      placeholder is glued to a digit. */
  lemma MutationFits(prefix: seq<string>, returning: Option<seq<string>>)
    requires SourceLike(prefix) && (returning.Some? ==> SourceLike(returning.value))
    ensures AllFit(MutationPieces(prefix, returning)) <==>
              !Glued(prefix) && !EndsInComment(prefix) && (returning.Some? ==> !Glued(returning.value))
  {
    hide Render, Closed, StripEnd, Strip, EndsInComment, Glued, AllFit;
    var all := MutationPieces(prefix, returning);
    if AllFit(all) { MutationApart(prefix, returning); }
    if !Glued(prefix) && !EndsInComment(prefix) && (returning.Some? ==> !Glued(returning.value)) {
      MutationTogether(prefix, returning);
    }
  }

  lemma MutationTogether(prefix: seq<string>, returning: Option<seq<string>>)
    requires Closed(prefix) && AllFit(prefix) && !EndsInComment(prefix)
    requires returning.Some? ==> Closed(returning.value) && AllFit(returning.value)
    ensures AllFit(MutationPieces(prefix, returning))
  {
    hide Fits, Render, Closed, StripEnd, Strip, EndsInComment, AllFit, Segment, Pieces;
    ClosedIsSegment(prefix);
    var q := TrimEndPieces(prefix);
    assert q == StripEnd(prefix);
    var tail := ReturningPieces(returning);
    var r: seq<string> := [];
    if returning.Some? {
      ClosedIsSegment(returning.value);
      r := TrimPieces(returning.value);
    } else {
      EmptySegment();
    }
    SegmentFits(r);
    PredicateFits(r);
    assert WHERE_PREDICATE + [] == WHERE_PREDICATE;
    assert AllFit(tail);
    PiecesExact(tail);
    MutationText(prefix, returning);
    JoinFits(q, Render(tail));
  }

  lemma MutationApart(prefix: seq<string>, returning: Option<seq<string>>)
    requires Closed(prefix) && (returning.Some? ==> Closed(returning.value))
    requires AllFit(MutationPieces(prefix, returning))
    ensures !Glued(prefix) && !EndsInComment(prefix) && (returning.Some? ==> !Glued(returning.value))
  {
    hide Fits, Render, Closed, StripEnd, Strip, EndsInComment, AllFit, Glued, Numbered;
    var q, tail := StripEnd(prefix), ReturningPieces(returning);
    StripEndText(prefix);
    ClosedIsPlain(prefix);
    GluedStripEnd(prefix);
    MutationText(prefix, returning);
    MutationNumbered(prefix, returning);
    GluedUnfit(q + tail);
    GluedJoin(q, tail);
    if returning.Some? {
      ClosedIsPlain(returning.value);
      GluedStrip(returning.value);
      GluedJoin(WHERE_PREDICATE, [" "] + Strip(returning.value));
      GluedJoin([" "], Strip(returning.value));
    }
    NotBeforeBlank(q, tail);
  }

  /** A line comment does not end in front of anything but a line break. */
  lemma NotBeforeBlank(q: seq<string>, tail: seq<string>)
    requires AllFit(q + tail) && Render(tail) != "" && Render(tail)[0] != '\n'
    ensures q != [] ==> !IsLineComment(q[|q| - 1])
  {
    hide Fits, Render, IsLineComment;
    if q != [] {
      var n := |q| - 1;
      assert (q + tail)[n] == q[n] && (q + tail)[n + 1..] == tail;
      assert Fits((q + tail)[n], Render((q + tail)[n + 1..]));
      if IsLineComment(q[n]) {
        LineEnds(q[n], Render(tail));
        assert false;
      }
    }
  }

  lemma NumberedJoin(a: seq<string>, b: seq<string>)
    requires Numbered(a) && Numbered(b)
    ensures Numbered(a + b)
  {
  }

  lemma MutationNumbered(prefix: seq<string>, returning: Option<seq<string>>)
    requires Closed(prefix) && (returning.Some? ==> Closed(returning.value))
    ensures Numbered(MutationPieces(prefix, returning))
  {
    hide Closed, StripEnd, Strip, Render, Numbered, IsNumbered;
    StripEndText(prefix);
    ClosedNumbered(StripEnd(prefix));
    assert Numbered(WHERE_PREDICATE) && Numbered([" "]) by { WordsNumbered(); }
    if returning.Some? {
      StripText(returning.value);
      ClosedNumbered(Strip(returning.value));
      NumberedJoin([" "], Strip(returning.value));
      NumberedJoin(WHERE_PREDICATE, [" "] + Strip(returning.value));
    } else {
      assert WHERE_PREDICATE + [] == WHERE_PREDICATE;
    }
    NumberedJoin(StripEnd(prefix), ReturningPieces(returning));
  }

  lemma WordsNumbered()
    ensures Numbered(WHERE_PREDICATE) && Numbered([" "])
  {
  }

  // ---- the selection

  /** Without a semicolon at the end, also at the end of a line comment that is last. */
  function CutSemicolon(r: seq<string>): seq<string> {
    var q := StripEnd(r);
    if q == [] || q[|q| - 1] == "" || q[|q| - 1][|q[|q| - 1]| - 1] != ';' then r
    else q[..|q| - 1] + CutLast(q[|q| - 1])
  }

  function CutLast(w: string): seq<string>
    requires w != ""
  {
    if |w| == 1 then [] else [w[..|w| - 1]]
  }

  function LimitPieces(r: seq<string>): seq<string> { Strip(CutSemicolon(r)) }

  /** A list whose pieces are read one by one up to its end. */
  ghost predicate TailLike(r: seq<string>) {
    PlainList(r) && (AllFit(r) <==> !Glued(r))
  }

  lemma CutText(r: seq<string>)
    requires PlainList(r)
    ensures Render(CutSemicolon(r)) == DropSemicolon(Render(r)) && PlainList(CutSemicolon(r))
    ensures Glued(CutSemicolon(r)) <==> Glued(r)
  {
    hide PlainList, PlainPiece, Render, StripEnd, TrimEnd, Glued;
    var q := StripEnd(r);
    StripEndPlain(r);
    GluedStripEnd(r);
    RenderStarts(q);
    if q != [] {
      PlainLast(q);
      RenderLast(q);
      var front, w := q[..|q| - 1], q[|q| - 1];
      assert w != "" by { PlainIs(w); }
      assert Render(q)[|Render(q)| - 1] == w[|w| - 1];
      assert front + [w] == q;
      if w[|w| - 1] == ';' {
        if |w| == 1 {
          GluedLast(front, w);
          assert front + [] == front;
          assert Render(q)[..|Render(q)| - 1] == Render(front);
        } else {
          var v := w[..|w| - 1];
          ShortenedPlain(w);
          PlainAppend(front, v);
          GluedAlike(front, w, v);
          RenderLast(front + [v]);
          assert (front + [v])[..|front|] == front;
          assert Render(q)[..|Render(q)| - 1] == Render(front) + v;
        }
      }
    }
  }

  /** A longer piece that ends in a semicolon is no placeholder, and neither is what is before it. */
  lemma ShortenedPlain(w: string)
    requires PlainPiece(w) && !IsSpace(w[0]) && |w| > 1 && w[|w| - 1] == ';'
    ensures PlainPiece(w[..|w| - 1]) && !IsParameter(w) && !IsNumbered(w[..|w| - 1])
  {
    NumberedEnds(w);
    assert IsParameter(w[..|w| - 1]) ==> IsParameter(w);
  }

  // ---- what is left of a piece at the end

  lemma {:induction false} QuotePrefix(s: string, k: nat, close: char)
    requires QuoteRun(s, close) == |s| && k <= |s|
    ensures QuoteRun(s[..k], close) == k
    decreases |s|
  {
    if k > 0 {
      var t := s[..k];
      if s[0] != close {
        QuotePrefix(s[1..], k - 1, close);
        assert t[1..] == s[1..][..k - 1];
      } else if close != ']' && |s| > 1 && s[1] == close && k > 1 {
        QuotePrefix(s[2..], k - 2, close);
        assert t[2..] == s[2..][..k - 2];
      }
    }
  }

  lemma {:induction false} BlockPrefix(s: string, k: nat)
    requires BlockRun(s) == |s| && k <= |s|
    ensures BlockRun(s[..k]) == k
    decreases |s|
  {
    if k > 0 {
      var t := s[..k];
      if |s| > 1 && s[0] == '*' && s[1] == '/' {
        assert k == 1 ==> t[1..] == "";
      } else {
        BlockPrefix(s[1..], k - 1);
        assert t[1..] == s[1..][..k - 1];
      }
    }
  }

  lemma {:induction false} LinePrefix(s: string, k: nat)
    requires LineRun(s) == |s| && k <= |s|
    ensures LineRun(s[..k]) == k
  {
    if k > 0 {
      LinePrefix(s[1..], k - 1);
      assert s[..k][1..] == s[1..][..k - 1];
    }
  }

  /** A quoted piece or a comment at the end may lose its end, as long as it keeps its start. */
  lemma ShorterFits(w: string, k: nat)
    requires Fits(w, "") && 0 < k <= |w| && (IsQuote(w[0]) || (k > 1 && (IsLineComment(w) || IsBlockComment(w))))
    ensures Fits(w[..k], "")
  {
    hide QuoteRun, LineRun, BlockRun;
    var v := w[..k];
    assert w + "" == w && v + "" == v;
    if IsQuote(w[0]) {
      QuotePrefix(w[1..], k - 1, if w[0] == '[' then ']' else w[0]);
      assert v[1..] == w[1..][..k - 1];
    } else {
      assert v[2..] == w[2..][..k - 2];
      if IsLineComment(w) { LinePrefix(w[2..], k - 2); } else { BlockPrefix(w[2..], k - 2); }
    }
  }

  /** Which pieces can end in white space or in a semicolon. */
  lemma EndOfPiece(w: string)
    requires Fits(w, "") && PlainPiece(w) && !IsSpace(w[0]) && (IsSpace(w[|w| - 1]) || w[|w| - 1] == ';')
    ensures w == ";" || IsQuote(w[0]) || IsLineComment(w) || IsBlockComment(w)
  {
    hide Fits, QuoteRun, LineRun, BlockRun, WordRun;
    if |w| > 1 {
      LongPieces(w, "");
      if IsParameter(w) {
        NumberedEnds(w);
      } else if IsLetter(w[0]) {
        WordEndsOpen(w);
      }
    }
  }

  lemma WordEndsOpen(p: string)
    requires Fits(p, "") && IsLetter(p[0])
    ensures IsWordChar(p[|p| - 1])
  {
    hide WordRun;
    assert p + "" == p && p[1..] + "" == p[1..];
    WordRunAll(p[1..], "");
    assert |p| > 1 ==> p[1..][|p| - 2] == p[|p| - 1];
  }

  lemma TrimKeepsDashes(w: string)
    requires IsLineComment(w) || IsBlockComment(w)
    ensures |TrimEnd(w)| > 1
    decreases |w|
  {
    if IsSpace(w[|w| - 1]) { TrimKeepsDashes(w[..|w| - 1]); }
  }

  lemma TrimmedFits(w: string)
    requires Fits(w, "") && PlainPiece(w) && !IsSpace(w[0])
    ensures Fits(TrimEnd(w), "")
  {
    hide Fits;
    TrimmedPiece(w);
    if IsSpace(w[|w| - 1]) {
      EndOfPiece(w);
      if IsLineComment(w) || IsBlockComment(w) { TrimKeepsDashes(w); }
      ShorterFits(w, |TrimEnd(w)|);
      assert w[..|TrimEnd(w)|] == TrimEnd(w);
    }
  }

  lemma CutFits(w: string)
    requires Fits(w, "") && PlainPiece(w) && !IsSpace(w[0]) && |w| > 1 && w[|w| - 1] == ';'
    ensures Fits(w[..|w| - 1], "")
  {
    hide Fits;
    EndOfPiece(w);
    ShorterFits(w, |w| - 1);
  }

  /** The list with its last piece shortened or gone is still read piece by piece. */
  lemma EndFits(r: seq<string>, q: seq<string>)
    requires AllFit(r) && PlainList(r) && r != [] && |r| - 1 <= |q| <= |r| && q[..|r| - 1] == r[..|r| - 1]
    requires |q| == |r| ==> q[|q| - 1] != "" && q[|q| - 1][0] == r[|r| - 1][0] && Fits(q[|q| - 1], "")
    ensures AllFit(q)
  {
    hide Fits, PlainList, AllFit;
    PlainNumbered(r);
    FrontFits(r, q);
  }

  lemma LastFits(r: seq<string>)
    requires AllFit(r) && r != []
    ensures Fits(r[|r| - 1], "")
  {
    hide Fits;
    assert Fits(r[|r| - 1], Render(r[|r| - 1 + 1..]));
    assert r[|r| - 1 + 1..] == [];
    RenderStarts([]);
  }

  lemma {:induction false} StripEndFits(r: seq<string>)
    requires AllFit(r) && PlainList(r)
    ensures AllFit(StripEnd(r))
  {
    hide Fits, PlainList, PlainPiece, AllFit, TrimEnd;
    if r != [] {
      PlainLast(r);
      var front, w := r[..|r| - 1], r[|r| - 1];
      assert w != "" by { PlainIs(w); }
      if IsSpace(w[0]) {
        EndFits(r, front);
        StripEndFits(front);
      } else {
        LastFits(r);
        TrimmedPiece(w);
        TrimmedFits(w);
        assert TrimEnd(w) != "" by { PlainIs(TrimEnd(w)); }
        assert (front + [TrimEnd(w)])[..|r| - 1] == front;
        EndFits(r, front + [TrimEnd(w)]);
      }
    } else {
      assert StripEnd(r) == r;
    }
  }

  lemma {:induction false} StripStartFits(r: seq<string>)
    requires AllFit(r)
    ensures AllFit(StripStart(r))
  {
    hide Fits, AllFit;
    if r != [] && r[0] != "" && IsSpace(r[0][0]) {
      SuffixFits(r, 1);
      StripStartFits(r[1..]);
    }
  }

  lemma SemicolonCutFits(r: seq<string>)
    requires AllFit(r) && PlainList(r)
    ensures AllFit(CutSemicolon(r))
  {
    hide Fits, PlainList, PlainPiece, AllFit, StripEnd, Render;
    var q := StripEnd(r);
    StripEndFits(r);
    StripEndPlain(r);
    if q != [] {
      PlainLast(q);
      LastFits(q);
      var front, w := q[..|q| - 1], q[|q| - 1];
      assert w != "" by { PlainIs(w); }
      if w[|w| - 1] == ';' {
        if |w| == 1 {
          assert front + [] == front;
          EndFits(q, front);
        } else {
          CutFits(w);
          assert (front + [w[..|w| - 1]])[..|q| - 1] == front;
          EndFits(q, front + [w[..|w| - 1]]);
        }
      }
    }
  }

  lemma LimitListText(r: seq<string>)
    requires PlainList(r)
    ensures Render(LimitPieces(r)) == LimitText(Render(r)) && PlainList(LimitPieces(r))
    ensures Glued(LimitPieces(r)) <==> Glued(r)
  {
    hide PlainList, Render, Strip, CutSemicolon, Trim, DropSemicolon, Glued;
    CutText(r);
    StripPlain(CutSemicolon(r));
    GluedStrip(CutSemicolon(r));
  }

  lemma LimitListFits(r: seq<string>)
    requires PlainList(r) && AllFit(r)
    ensures AllFit(LimitPieces(r))
  {
    hide PlainList, Render, CutSemicolon, AllFit, StripEnd, StripStart, Glued, DropSemicolon;
    CutText(r);
    SemicolonCutFits(r);
    StripStartPlain(CutSemicolon(r));
    StripStartFits(CutSemicolon(r));
    StripEndFits(StripStart(CutSemicolon(r)));
  }

  function OrderPieces(order: seq<string>): seq<string> { if Strip(order) == [] then [] else Strip(order) + COMMA }

  function EndPieces(limit: seq<string>): seq<string> { LIMIT + LimitPieces(limit) }

  function OrderedPieces(order: seq<string>,
      limit: seq<string>): seq<string> { ORDER_BY + (OrderPieces(order) + EndPieces(limit)) }

  function SelectionPieces(target: string, where: seq<string>, order: seq<string>, limit: seq<string>): seq<string> {
    Head(target) + (where + OrderedPieces(order, limit))
  }

  function SelectionOf(target: string, where: seq<string>, order: seq<string>, limit: seq<string>): string {
    SelectionTemplate(target, Render(where), Trim(Render(order)), LimitText(Render(limit)))
  }

  lemma OrderedText(order: seq<string>, limit: seq<string>)
    requires Closed(order) && PlainList(limit)
    ensures Render(OrderedPieces(order, limit))
         == " ORDER BY " + ((if Trim(Render(order)) == "" then "" else Trim(Render(order)) + ", ") +
               ((ROW_ORDER + " LIMIT ") + LimitText(Render(limit))))
  {
    hide Closed, PlainList, Render, Strip, Trim, LimitText, LimitPieces;
    FixedTexts("");
    LimitListText(limit);
    StripText(order);
    var rest := EndPieces(limit);
    RenderJoins(LIMIT, LimitPieces(limit));
    RenderJoins(ORDER_BY, OrderPieces(order) + rest);
    RenderJoins(OrderPieces(order), rest);
    RenderJoins(Strip(order), COMMA);
    RenderStarts([]);
  }

  lemma SelectionListText(target: string, where: seq<string>, order: seq<string>, limit: seq<string>)
    requires Closed(order) && PlainList(limit)
    ensures SelectionOf(target, where, order, limit) == Render(SelectionPieces(target, where, order, limit))
  {
    hide Closed, PlainList, Render, Strip, Trim, LimitText, LimitPieces, Head, HeadWords, InLine, OrderedPieces;
    FixedTexts(target);
    OrderedText(order, limit);
    RenderJoins(Head(target), where + OrderedPieces(order, limit));
    RenderJoins(where, OrderedPieces(order, limit));
    var terms := if Trim(Render(order)) == "" then "" else Trim(Render(order)) + ", ";
    SelectionText(HeadWords(target), Render(where), " ORDER BY ", terms, ROW_ORDER, " LIMIT ", LimitText(Render(limit)),
                  terms + ((ROW_ORDER + " LIMIT ") + LimitText(Render(limit))));
  }

  /** It may be followed by the template's text as it is: its last piece is no line comment. */
  predicate OpenEnd(r: seq<string>) { r != [] && IsLineComment(r[|r| - 1]) }

  lemma SelectionFits(target: string, where: seq<string>, order: seq<string>, limit: seq<string>)
    requires SourceLike(where) && SourceLike(order) && TailLike(limit)
    ensures AllFit(SelectionPieces(target, where, order, limit)) <==>
              !Glued(where) && !Glued(order) && !Glued(limit) && !OpenEnd(where) && !EndsInComment(order)
  {
    hide Render, Closed, PlainList, EndsInComment, Glued, AllFit, SelectionPieces, OpenEnd;
    if AllFit(SelectionPieces(target, where, order, limit)) { SelectionApart(target, where, order, limit); }
    if !Glued(where) && !Glued(order) && !Glued(limit) && !OpenEnd(where) && !EndsInComment(order) {
      SelectionTogether(target, where, order, limit);
    }
  }

  lemma OrderedFits(order: seq<string>, limit: seq<string>)
    requires Closed(order) && PlainList(limit) && AllFit(order) && AllFit(limit) && !EndsInComment(order)
    ensures AllFit(OrderedPieces(order, limit))
  {
    hide Fits, Render, Closed, PlainList, Strip, LimitPieces, EndsInComment, AllFit, Segment, Pieces, Spaced, Trim,
      Significant;
    FixedSpaced("");
    FixedTexts("");
    LimitListFits(limit);
    PrependSpaced(LIMIT, LimitPieces(limit));
    var rest := EndPieces(limit);
    ClosedIsSegment(order);
    var q := TrimPieces(order);
    if q == [] {
      assert [] + rest == rest;
    } else {
      PrependSpaced(COMMA, rest);
      var tail := COMMA + rest;
      PiecesExact(tail);
      assert Render(tail)[0] == ',';
      JoinFits(q, Render(tail));
      assert q + COMMA + rest == q + tail;
    }
    PrependSpaced(ORDER_BY, OrderPieces(order) + rest);
  }

  lemma SelectionTogether(target: string, where: seq<string>, order: seq<string>, limit: seq<string>)
    requires Closed(where) && Closed(order) && PlainList(limit) && AllFit(where) && AllFit(order) && AllFit(limit)
    requires !OpenEnd(where) && !EndsInComment(order)
    ensures AllFit(SelectionPieces(target, where, order, limit))
  {
    hide Fits, Render, Closed, PlainList, EndsInComment, AllFit, Segment, Pieces, Spaced, Head, OrderedPieces, Trim,
      LimitText;
    FixedSpaced(target);
    OrderedFits(order, limit);
    var d := OrderedPieces(order, limit);
    PiecesExact(d);
    OrderedText(order, limit);
    assert Render(d)[0] == ' ';
    ClosedIsSegment(where);
    JoinFits(where, Render(d));
    PrependSpaced(Head(target), where + d);
  }

  lemma SelectionApart(target: string, where: seq<string>, order: seq<string>, limit: seq<string>)
    requires Closed(where) && Closed(order) && PlainList(limit) && AllFit(SelectionPieces(target, where, order, limit))
    ensures !Glued(where) && !Glued(order) && !Glued(limit) && !OpenEnd(where) && !EndsInComment(order)
  {
    hide Fits, Render, Closed, PlainList, EndsInComment, AllFit, Head, Glued, Numbered, Strip, LimitPieces, Trim,
      LimitText;
    SelectionNumbered(target, where, order, limit);
    GluedUnfit(SelectionPieces(target, where, order, limit));
    SelectionGlued(target, where, order, limit);
    OrderedText(order, limit);
    assert Render(OrderedPieces(order, limit))[0] == ' ';
    assert Head(target) + where + OrderedPieces(order, limit) == SelectionPieces(target, where, order, limit);
    NotBeforeBlank(Head(target) + where, OrderedPieces(order, limit));
    if where != [] { assert (Head(target) + where)[|Head(target) + where| - 1] == where[|where| - 1]; }
    StripText(order);
    if Strip(order) != [] {
      var q, tail := Head(target) + where + ORDER_BY + Strip(order), COMMA + EndPieces(limit);
      assert q + tail == SelectionPieces(target, where, order, limit);
      RenderJoins(COMMA, EndPieces(limit));
      FixedTexts("");
      assert Render(tail)[0] == ',';
      NotBeforeBlank(q, tail);
      assert q[|q| - 1] == Strip(order)[|Strip(order)| - 1];
    }
  }

  lemma SelectionGlued(target: string, where: seq<string>, order: seq<string>, limit: seq<string>)
    requires Closed(order) && PlainList(limit) && !Glued(SelectionPieces(target, where, order, limit))
    ensures !Glued(where) && !Glued(order) && !Glued(limit)
  {
    hide Closed, PlainList, Glued, Head, Strip, LimitPieces;
    GluedJoin(Head(target), where + OrderedPieces(order, limit));
    GluedJoin(where, OrderedPieces(order, limit));
    GluedJoin(ORDER_BY, OrderPieces(order) + EndPieces(limit));
    GluedJoin(OrderPieces(order), EndPieces(limit));
    GluedJoin(LIMIT, LimitPieces(limit));
    LimitListText(limit);
    ClosedIsPlain(order);
    GluedStrip(order);
    if Strip(order) != [] { GluedJoin(Strip(order), COMMA); } else { NothingGlued(); }
  }

  lemma NothingGlued()
    ensures !Glued([])
  {
  }

  lemma FixedNumbered(target: string)
    ensures Numbered(Head(target)) && Numbered(ORDER_BY) && Numbered(COMMA) && Numbered(LIMIT) && Numbered([])
  {
    hide Doubled;
    assert QuoteIdentifier(target)[0] == '"';
  }

  lemma SelectionNumbered(target: string, where: seq<string>, order: seq<string>, limit: seq<string>)
    requires Closed(where) && Closed(order) && PlainList(limit)
    ensures Numbered(SelectionPieces(target, where, order, limit))
  {
    hide Closed, PlainList, Numbered, Head, Strip, LimitPieces, Render, Trim, LimitText, EndsInComment, Glued;
    FixedNumbered(target);
    LimitListText(limit);
    StripText(order);
    ClosedNumbered(where);
    ClosedNumbered(Strip(order));
    PlainNumbered(LimitPieces(limit));
    NumberedJoin(LIMIT, LimitPieces(limit));
    NumberedJoin(Strip(order), COMMA);
    NumberedJoin(OrderPieces(order), EndPieces(limit));
    NumberedJoin(ORDER_BY, OrderPieces(order) + EndPieces(limit));
    NumberedJoin(where, OrderedPieces(order, limit));
    NumberedJoin(Head(target), where + OrderedPieces(order, limit));
  }

  // ---- what placeholders bind

  /** The numbers of the placeholders, in order. */
  function Taken(pieces: seq<string>, indices: seq<int>): seq<int>
    requires |pieces| == |indices|
  {
    if pieces == [] then []
    else
      Taken(pieces[..|pieces| - 1], indices[..|pieces| - 1])
      + if IsParameter(pieces[|pieces| - 1]) then [indices[|pieces| - 1]] else []
  }

  /** The numbers that numbered placeholders carry. */
  function Marks(r: seq<string>): seq<int> {
    if r == [] then [] else Marks(r[..|r| - 1]) + Mark(r[|r| - 1])
  }

  function Mark(p: string): seq<int> { if IsNumbered(p) then [NatValue(p[1..])] else [] }

  lemma {:induction false} MarksJoin(a: seq<string>, b: seq<string>)
    ensures Marks(a + b) == Marks(a) + Marks(b)
  {
    hide Mark;
    if b == [] {
      assert a + b == a;
    } else {
      var front, last := b[..|b| - 1], b[|b| - 1];
      MarksJoin(a, front);
      var all := a + b;
      assert all[..|all| - 1] == a + front && all[|all| - 1] == last;
      assert Marks(all) == (Marks(a) + Marks(front)) + Mark(last);
    }
  }

  lemma NoMark(p: string)
    requires !IsParameter(p)
    ensures Mark(p) == []
  {
  }

  lemma OneMark(p: string)
    ensures Marks([p]) == Mark(p)
  {
    assert [p][..0] == [];
  }

  lemma {:induction false} NoMarks(r: seq<string>)
    requires forall k :: 0 <= k < |r| ==> !IsParameter(r[k])
    ensures Marks(r) == []
  {
    hide Mark, IsParameter;
    if r != [] {
      NoMarks(r[..|r| - 1]);
      NoMark(r[|r| - 1]);
    }
  }

  lemma LastMark(front: seq<string>, p: string)
    ensures Marks(front + [p]) == Marks(front) + Mark(p)
  {
    assert (front + [p])[..|front|] == front;
  }

  lemma {:induction false} MarksStripEnd(r: seq<string>)
    requires PlainList(r)
    ensures Marks(StripEnd(r)) == Marks(r)
  {
    hide PlainList, PlainPiece, Mark;
    if r != [] {
      PlainLast(r);
      var front, w := r[..|r| - 1], r[|r| - 1];
      assert w != "" && (IsSpace(w[0]) ==> |w| == 1) by { PlainIs(w); }
      if IsSpace(w[0]) {
        MarksStripEnd(front);
        NoMark(w);
      } else {
        TrimmedPiece(w);
        TrimmedMark(w);
        LastMark(front, TrimEnd(w));
      }
    }
  }

  lemma TrimmedMark(w: string)
    requires PlainPiece(w) && !IsSpace(w[0])
    ensures Mark(TrimEnd(w)) == Mark(w)
  {
    TrimmedPiece(w);
    if !IsParameter(w) {
      NoMark(w);
      assert IsNumbered(TrimEnd(w)) ==> IsParameter(w);
    }
  }

  lemma {:induction false} MarksStripStart(r: seq<string>)
    requires PlainList(r)
    ensures Marks(StripStart(r)) == Marks(r)
  {
    hide PlainList, PlainPiece, Mark, Marks;
    if r != [] {
      PlainFirst(r);
      assert r[0] != "" && (IsSpace(r[0][0]) ==> |r[0]| == 1) by { PlainIs(r[0]); }
      if IsSpace(r[0][0]) {
        MarksStripStart(r[1..]);
        NoMark(r[0]);
        OneMark(r[0]);
        MarksJoin([r[0]], r[1..]);
        assert r == [r[0]] + r[1..];
      }
    }
  }

  lemma MarksStrip(r: seq<string>)
    requires PlainList(r)
    ensures Marks(Strip(r)) == Marks(r)
  {
    hide PlainList, Marks;
    MarksStripStart(r);
    StripStartPlain(r);
    MarksStripEnd(StripStart(r));
  }

  lemma MarksLimit(r: seq<string>)
    requires PlainList(r)
    ensures Marks(LimitPieces(r)) == Marks(r)
  {
    hide PlainList, PlainPiece, Marks, Mark, StripEnd, Strip, TrimEnd, Render, DropSemicolon, Glued;
    MarksStripEnd(r);
    StripEndPlain(r);
    CutText(r);
    var q := StripEnd(r);
    if q != [] {
      PlainLast(q);
      var front, w := q[..|q| - 1], q[|q| - 1];
      assert w != "" by { PlainIs(w); }
      assert front + [w] == q;
      LastMark(front, w);
      if w[|w| - 1] == ';' {
        if |w| == 1 {
          NoMark(w);
          assert front + [] == front;
        } else {
          ShortenedPlain(w);
          NoMark(w);
          Unnumbered(w[..|w| - 1]);
          LastMark(front, w[..|w| - 1]);
        }
      }
    }
    MarksStrip(CutSemicolon(r));
  }

  lemma Unnumbered(p: string)
    requires !IsNumbered(p)
    ensures Mark(p) == []
  {
  }

  ghost predicate InBounds(m: seq<int>) { forall k :: 0 <= k < |m| ==> 1 <= m[k] <= 32766 }

  /** Rewriting writes each placeholder's own number. */
  lemma {:induction false} MarksRewritten(pieces: seq<string>, indices: seq<int>)
    requires InRange(pieces, indices)
    ensures Marks(RewriteAll(pieces, indices)) == Taken(pieces, indices) && InBounds(Taken(pieces, indices))
  {
    hide IsParameter, Rewritten, NatValue;
    if pieces != [] {
      var n := |pieces| - 1;
      MarksRewritten(pieces[..n], indices[..n]);
      var r := RewriteAll(pieces, indices);
      assert r[..n] == RewriteAll(pieces[..n], indices[..n]);
      MarkRewritten(pieces[n], indices[n]);
    }
  }

  lemma MarkRewritten(p: string, index: int)
    requires IsParameter(p) ==> index >= 1
    ensures Mark(Rewritten(p, index)) == if IsParameter(p) then [index] else []
  {
    hide NatText, NatValue;
    if IsParameter(p) { RewrittenShape(p, index); } else { NoMark(p); }
  }

  /** A list of numbered placeholders numbers itself, and its highest number is the highest mark. */
  lemma {:induction false} NumberMarks(r: seq<string>)
    requires Numbered(r) && InBounds(Marks(r))
    ensures Number(r).Some? && Taken(r, Number(r).value.indices) == Marks(r)
    ensures Number(r).value.maximum == Highest(Marks(r))
  {
    hide NatValue;
    if r != [] {
      var front, p := r[..|r| - 1], r[|r| - 1];
      assert Marks(r)[..|Marks(front)|] == Marks(front);
      assert InBounds(Marks(front)) by {
        assert forall k :: 0 <= k < |Marks(front)| ==> Marks(front)[k] == Marks(r)[k];
      }
      NumberMarks(front);
      if IsParameter(p) {
        assert IsNumbered(p);
        assert Marks(r)[|Marks(front)|] == NatValue(p[1..]);
        assert Marks(r)[..|Marks(r)| - 1] == Marks(front);
        assert Highest(Marks(r)) == Max(Highest(Marks(front)), NatValue(p[1..]));
      } else {
        NoMark(p);
        assert Marks(r) == Marks(front);
      }
      var before, after := Number(front).value.indices, Number(r).value.indices;
      assert after[..|front|] == before;
    }
  }

  function Highest(m: seq<int>): int {
    if m == [] then 0 else Max(Highest(m[..|m| - 1]), m[|m| - 1])
  }

  // ---- the theorems

  function SegmentedIf(pieces: seq<string>, indices: seq<int>, span: Option<Span>): Option<seq<string>>
    requires |pieces| == |indices| && (span.Some? ==> span.value.from <= span.value.to <= |pieces|)
  {
    if span.None? then None else Some(Segmented(pieces, indices, span.value))
  }

  function TakenIn(pieces: seq<string>, indices: seq<int>, span: Span): seq<int>
    requires span.from <= span.to <= |pieces| == |indices|
  {
    Taken(pieces[span.from..span.to], indices[span.from..span.to])
  }

  function TakenIf(pieces: seq<string>, indices: seq<int>, span: Option<Span>): seq<int>
    requires |pieces| == |indices| && (span.Some? ==> span.value.from <= span.value.to <= |pieces|)
  {
    if span.None? then [] else TakenIn(pieces, indices, span.value)
  }

  lemma MarksOfSource(pieces: seq<string>, indices: seq<int>, span: Span)
    requires AllFit(pieces) && InRange(pieces, indices) && span.from <= span.to <= |pieces|
    ensures Marks(Segmented(pieces, indices, span)) == TakenIn(pieces, indices, span)
    ensures InBounds(TakenIn(pieces, indices, span))
  {
    hide AllFit, Marks, Taken, IsParameter;
    SliceInRange(pieces, indices, span);
    MarksRewritten(Source(pieces, span), indices[span.from..span.to]);
  }

  lemma BoundsJoin(a: seq<int>, b: seq<int>)
    requires InBounds(a) && InBounds(b)
    ensures InBounds(a + b)
  {
  }

  /** The scanner reads a mutation's template as the rewritten source up to WHERE, the target
      predicate and the rewritten RETURNING clause, white space trimmed, exactly when the source up
      to WHERE does not end in a line comment and no $name(...) is directly followed by a digit. */
  lemma MutationExact(sql: string, prefix: Span, returning: Option<Span>)
    requires Number(Pieces(sql)).Some? && SpanOf(Pieces(sql), prefix)
    requires (returning.Some? ==> SpanOf(Pieces(sql), returning.value))
    ensures var pieces, indices := Pieces(sql), Number(Pieces(sql)).value.indices;
            var p, r := Segmented(pieces, indices, prefix), SegmentedIf(pieces, indices, returning);
            Pieces(MutationTemplate(Render(p), TextOf(r))) == MutationPieces(p, r) <==>
              && !EndsInComment(Source(pieces, prefix)) && !DollarBeforeDigit(pieces, prefix)
              && (returning.Some? ==> !DollarBeforeDigit(pieces, returning.value))
  {
    hide Fits, Render, Pieces, AllFit, Closed, EndsInComment, PieceLength, DollarBeforeDigit, Glued, Number,
      MutationPieces, MutationTemplate, Segmented, TextOf;
    var pieces, indices := Pieces(sql), Number(Pieces(sql)).value.indices;
    PiecesFit(sql);
    NumberInRange(pieces);
    SegmentOfSource(pieces, indices, prefix);
    if returning.Some? { SegmentOfSource(pieces, indices, returning.value); }
    var p, r := Segmented(pieces, indices, prefix), SegmentedIf(pieces, indices, returning);
    MutationText(p, r);
    MutationFits(p, r);
    PiecesExact(MutationPieces(p, r));
  }

  /** Then its placeholders take, in order, the numbers of the source's placeholders there. */
  lemma MutationBinds(sql: string, prefix: Span, returning: Option<Span>)
    requires Number(Pieces(sql)).Some? && SpanOf(Pieces(sql), prefix)
    requires (returning.Some? ==> SpanOf(Pieces(sql), returning.value))
    ensures var pieces, indices := Pieces(sql), Number(Pieces(sql)).value.indices;
            var p, r := Segmented(pieces, indices, prefix), SegmentedIf(pieces, indices, returning);
            var read := Pieces(MutationTemplate(Render(p), TextOf(r)));
            read == MutationPieces(p, r) ==>
              && Number(read).Some?
              && Taken(read, Number(read).value.indices) ==
                   TakenIn(pieces, indices, prefix) + TakenIf(pieces, indices, returning)
  {
    hide Fits, Render, Pieces, AllFit, Closed, EndsInComment, PieceLength, DollarBeforeDigit, Glued, Number,
      MutationTemplate, Segmented,
      TextOf, Numbered, InBounds, Marks, Strip, StripEnd, TakenIn, Taken;
    var pieces, indices := Pieces(sql), Number(Pieces(sql)).value.indices;
    PiecesFit(sql);
    NumberInRange(pieces);
    SegmentOfSource(pieces, indices, prefix);
    MarksOfSource(pieces, indices, prefix);
    var p, r := Segmented(pieces, indices, prefix), SegmentedIf(pieces, indices, returning);
    ClosedIsPlain(p);
    MarksStripEnd(p);
    MarksJoin(StripEnd(p), ReturningPieces(r));
    assert Marks(WHERE_PREDICATE) == [] && Marks([" "]) == [] && Marks([]) == [] && InBounds([]) by { FixedMarks(""); }
    if returning.Some? {
      SegmentOfSource(pieces, indices, returning.value);
      MarksOfSource(pieces, indices, returning.value);
      ClosedIsPlain(r.value);
      MarksStrip(r.value);
      MarksJoin(WHERE_PREDICATE, [" "] + Strip(r.value));
      MarksJoin([" "], Strip(r.value));
    } else {
      assert WHERE_PREDICATE + [] == WHERE_PREDICATE;
    }
    assert Marks(ReturningPieces(r)) == TakenIf(pieces, indices, returning);
    BoundsJoin(TakenIn(pieces, indices, prefix), TakenIf(pieces, indices, returning));
    MutationNumbered(p, r);
    NumberMarks(MutationPieces(p, r));
  }

  lemma FixedMarks(target: string)
    ensures Marks(WHERE_PREDICATE) == [] && Marks([" "]) == [] && Marks([]) == [] && InBounds([]) && Marks(["1"]) == []
    ensures Marks(Head(target)) == [] && Marks(ORDER_BY) == [] && Marks(COMMA) == [] && Marks(LIMIT) == []
  {
    hide Marks, Doubled;
    assert QuoteIdentifier(target)[0] == '"';
    NoMarks(WHERE_PREDICATE);
    NoMarks([" "]);
    NoMarks([]);
    NoMarks(["1"]);
    NoMarks(Head(target));
    NoMarks(ORDER_BY);
    NoMarks(COMMA);
    NoMarks(LIMIT);
  }

  /** The WHERE expression; a statement without one selects every row. */
  function WherePieces(pieces: seq<string>, indices: seq<int>, span: Option<Span>): seq<string>
    requires |pieces| == |indices| && (span.Some? ==> span.value.from <= span.value.to <= |pieces|)
  {
    if span.None? then ["1"] else Segmented(pieces, indices, span.value)
  }

  function OrderTerms(pieces: seq<string>, indices: seq<int>, span: Option<Span>): seq<string>
    requires |pieces| == |indices| && (span.Some? ==> span.value.from <= span.value.to <= |pieces|)
  {
    if span.None? then [] else Segmented(pieces, indices, span.value)
  }

  lemma ConstantsAreSources()
    ensures SourceLike(["1"]) && !Glued(["1"]) && !OpenEnd(["1"]) && SourceLike([]) && !Glued([]) && !EndsInComment([])
  {
    assert Fits("1", "\n") && Fits("1", "");
    assert ["1"][1..] == [];
  }

  /** The scanner reads a selection's template as its own words around the rewritten WHERE, ORDER
      BY and LIMIT expressions exactly when the WHERE and ORDER BY expressions do not end in a line
      comment and no $name(...) is directly followed by a digit. */
  lemma SelectionExact(sql: string, target: string, where: Option<Span>, order: Option<Span>, limit: Span)
    requires Number(Pieces(sql)).Some? && Inside(Pieces(sql), limit)
    requires (where.Some? ==> SpanOf(Pieces(sql), where.value)) && (order.Some? ==> SpanOf(Pieces(sql), order.value))
    ensures var pieces, indices := Pieces(sql), Number(Pieces(sql)).value.indices;
            var w, o := WherePieces(pieces, indices, where), OrderTerms(pieces, indices, order);
            var l := Segmented(pieces, indices, limit);
            Pieces(SelectionOf(target, w, o, l)) == SelectionPieces(target, w, o, l) <==>
              && (where.Some? ==> !OpenEnd(Source(pieces, where.value)) && !DollarBeforeDigit(pieces, where.value))
              && (order.Some? ==>
                   !EndsInComment(Source(pieces, order.value)) && !DollarBeforeDigit(pieces, order.value))
              && !DollarBeforeDigit(pieces, limit)
  {
    hide Fits, Render, Pieces, AllFit, Closed, EndsInComment, PieceLength, DollarBeforeDigit, Glued, Number,
      SelectionPieces, SelectionOf, Segmented, SourceLike;
    var pieces, indices := Pieces(sql), Number(Pieces(sql)).value.indices;
    PiecesFit(sql);
    NumberInRange(pieces);
    ConstantsAreSources();
    TailOfSource(pieces, indices, limit);
    if where.Some? {
      SegmentOfSource(pieces, indices, where.value);
      OpenEndRewritten(pieces, indices, where.value);
    }
    if order.Some? { SegmentOfSource(pieces, indices, order.value); }
    var w, o := WherePieces(pieces, indices, where), OrderTerms(pieces, indices, order);
    var l := Segmented(pieces, indices, limit);
    SourceClosed(o);
    TailPlain(l);
    SelectionListText(target, w, o, l);
    SelectionFits(target, w, o, l);
    PiecesExact(SelectionPieces(target, w, o, l));
  }

  lemma TailPlain(r: seq<string>)
    requires TailLike(r)
    ensures PlainList(r)
  {
  }

  /** A rewritten segment that may reach the end of the statement with a piece left open. */
  lemma TailOfSource(pieces: seq<string>, indices: seq<int>, span: Span)
    requires AllFit(pieces) && InRange(pieces, indices) && Inside(pieces, span)
    ensures var r := Segmented(pieces, indices, span); TailLike(r) && (Glued(r) <==> DollarBeforeDigit(pieces, span))
  {
    hide Fits, Render, Pieces, AllFit, PlainPiece, PieceLength, DollarBeforeDigit, GluedDigit, IsParameter;
    var r := Segmented(pieces, indices, span);
    forall k | 0 <= k < |r| ensures PlainPiece(r[k]) { RewrittenPlain(pieces, indices, span.from + k); }
    SegmentExact(pieces, indices, span.from, span.to);
    PiecesExact(r);
    GluedRewritten(Source(pieces, span), indices[span.from..span.to]) by { SliceInRange(pieces, indices, span); }
    GluedIsDollar(pieces, span);
  }

  lemma RewrittenPlain(pieces: seq<string>, indices: seq<int>, k: nat)
    requires AllFit(pieces) && InRange(pieces, indices) && k < |pieces|
    ensures PlainPiece(Rewritten(pieces[k], indices[k]))
  {
    hide Fits, Render, NatText;
    var p := pieces[k];
    NonEmpty(pieces, k);
    if IsParameter(p) {
      RewrittenShape(p, indices[k]);
    } else {
      assert Fits(p, Render(pieces[k + 1..]));
      if IsSpace(p[0]) { SpaceIsOne(p, Render(pieces[k + 1..])); }
    }
  }

  lemma SourceClosed(r: seq<string>)
    requires SourceLike(r)
    ensures Closed(r)
  {
  }

  lemma OpenEndRewritten(pieces: seq<string>, indices: seq<int>, span: Span)
    requires |pieces| == |indices| && span.from <= span.to <= |pieces|
    ensures OpenEnd(Segmented(pieces, indices, span)) <==> OpenEnd(Source(pieces, span))
  {
    if span.from < span.to { RewrittenComment(pieces[span.to - 1], indices[span.to - 1]); }
  }

  /** Then its placeholders take the numbers of the source's placeholders there, and the recorded
      maximum is the highest of them. */
  lemma SelectionBinds(sql: string, target: string, where: Option<Span>, order: Option<Span>, limit: Span)
    requires Number(Pieces(sql)).Some? && Inside(Pieces(sql), limit)
    requires (where.Some? ==> SpanOf(Pieces(sql), where.value)) && (order.Some? ==> SpanOf(Pieces(sql), order.value))
    ensures var pieces, indices := Pieces(sql), Number(Pieces(sql)).value.indices;
            var w, o := WherePieces(pieces, indices, where), OrderTerms(pieces, indices, order);
            var l := Segmented(pieces, indices, limit);
            var read := Pieces(SelectionOf(target, w, o, l));
            var taken := TakenIf(pieces, indices, where) +
                (TakenIf(pieces, indices, order) + TakenIn(pieces, indices, limit));
            read == SelectionPieces(target, w, o, l) ==>
              && Number(read).Some? && Taken(read, Number(read).value.indices) == taken
              && Number(read).value.maximum == Highest(taken)
  {
    hide Fits, Render, Pieces, AllFit, Closed, EndsInComment, PieceLength, DollarBeforeDigit, Glued, Number,
      SelectionPieces, SelectionOf, Segmented,
      SourceLike, Numbered, InBounds, Marks, TakenIn, Taken;
    var pieces, indices := Pieces(sql), Number(Pieces(sql)).value.indices;
    PiecesFit(sql);
    NumberInRange(pieces);
    ConstantsAreSources();
    FixedMarks(target);
    TailOfSource(pieces, indices, limit);
    MarksOfSource(pieces, indices, limit);
    if where.Some? {
      SegmentOfSource(pieces, indices, where.value);
      MarksOfSource(pieces, indices, where.value);
    }
    if order.Some? {
      SegmentOfSource(pieces, indices, order.value);
      MarksOfSource(pieces, indices, order.value);
    }
    var w, o := WherePieces(pieces, indices, where), OrderTerms(pieces, indices, order);
    var l := Segmented(pieces, indices, limit);
    SourceClosed(w);
    SourceClosed(o);
    TailPlain(l);
    SelectionMarks(target, w, o, l);
    BoundsJoin(TakenIf(pieces, indices, order), TakenIn(pieces, indices, limit));
    BoundsJoin(TakenIf(pieces, indices, where), TakenIf(pieces, indices, order) + TakenIn(pieces, indices, limit));
    SelectionNumbered(target, w, o, l);
    NumberMarks(SelectionPieces(target, w, o, l));
  }

  lemma SelectionMarks(target: string, where: seq<string>, order: seq<string>, limit: seq<string>)
    requires Closed(order) && PlainList(limit)
    ensures Marks(SelectionPieces(target, where, order, limit)) == Marks(where) + (Marks(order) + Marks(limit))
  {
    hide Closed, Marks, Head, Strip, LimitPieces;
    FixedMarks(target);
    MarksLimit(limit);
    ClosedIsPlain(order);
    MarksStrip(order);
    MarksJoin(LIMIT, LimitPieces(limit));
    MarksJoin(Strip(order), COMMA);
    MarksJoin(OrderPieces(order), EndPieces(limit));
    MarksJoin(ORDER_BY, OrderPieces(order) + EndPieces(limit));
    MarksJoin(where, OrderedPieces(order, limit));
    MarksJoin(Head(target), where + OrderedPieces(order, limit));
  }

  // ---- building the plan

  datatype Plan = Plan(selection: string, selectionMaximum: int, mutation: string) | IndexInvalid | LimitRequired

  method SegmentText(sql: string, pieces: seq<string>, span: Span, parameters: seq<Occurrence>) returns (text: string)
    requires pieces == Pieces(sql) && Number(pieces).Some? && Inside(pieces, span)
    requires Occurs(pieces, Number(pieces).value.indices, parameters)
    ensures text == Render(Segmented(pieces, Number(pieces).value.indices, span))
  {
    hide Pieces, Number, Occurs, Render;
    NumberInRange(pieces);
    text := RewriteSourceSegment(sql, Offset(pieces, span.from), Offset(pieces, span.to), parameters,
                                 Number(pieces).value.indices, span.from, span.to);
  }

  /** The greatest of the occurrences' numbers. */
  method MaximumIndex(occurrences: seq<Occurrence>, ghost pieces: seq<string>) returns (maximum: int)
    requires Number(pieces).Some? && Occurs(pieces, Number(pieces).value.indices, occurrences)
    ensures maximum == Number(pieces).value.maximum
  {
    hide Number, Occurs, ParametersAt;
    ghost var n := Number(pieces).value;
    NumberInRange(pieces);
    OccursAre(pieces, n.indices, occurrences);
    maximum := 0;
    for m := 0 to |occurrences|
      invariant maximum >= 0 && forall i :: 0 <= i < m ==> occurrences[i].index <= maximum
      invariant maximum == 0 || exists i :: 0 <= i < m && occurrences[i].index == maximum
    {
      maximum := Max(maximum, occurrences[m].index);
    }
    NumberMaximum(pieces);
    SameMaximum(pieces, occurrences, maximum);
  }

  lemma {:induction false} NumberMaximum(pieces: seq<string>)
    requires Number(pieces).Some?
    ensures var n := Number(pieces).value;
            && n.maximum >= 0 && (forall k :: 0 <= k < |pieces| && IsParameter(pieces[k]) ==> n.indices[k] <= n.maximum)
            && (n.maximum == 0 || exists k :: 0 <= k < |pieces| && IsParameter(pieces[k]) && n.indices[k] == n.maximum)
  {
    hide IsParameter, NextIndex;
    if pieces != [] {
      var front := pieces[..|pieces| - 1];
      NumberMaximum(front);
      var before, n := Number(front).value, Number(pieces).value;
      assert n.indices[..|front|] == before.indices;
      if n.maximum != 0 {
        if n.maximum == before.maximum {
          var k :| 0 <= k < |front| && IsParameter(front[k]) && before.indices[k] == before.maximum;
          assert IsParameter(pieces[k]) && n.indices[k] == n.maximum;
        } else {
          assert IsParameter(pieces[|front|]) && n.indices[|front|] == n.maximum;
        }
      }
    }
  }

  lemma SameMaximum(pieces: seq<string>, found: seq<Occurrence>, maximum: int)
    requires Number(pieces).Some? && Occurs(pieces, Number(pieces).value.indices, found) && maximum >= 0
    requires forall i :: 0 <= i < |found| ==> found[i].index <= maximum
    requires maximum == 0 || exists i :: 0 <= i < |found| && found[i].index == maximum
    ensures maximum == Number(pieces).value.maximum
  {
    hide Number, Occurs, ParametersAt, IsParameter;
    var n := Number(pieces).value;
    var at := ParametersAt(pieces);
    NumberMaximum(pieces);
    ParametersExact(pieces);
    OccursAre(pieces, n.indices, found);
    if maximum != 0 {
      var i :| 0 <= i < |found| && found[i].index == maximum;
      assert at[i] in at;
      assert n.maximum >= maximum;
    }
    if n.maximum != 0 {
      var k :| 0 <= k < |pieces| && IsParameter(pieces[k]) && n.indices[k] == n.maximum;
      assert k in at;
      var i :| 0 <= i < |at| && at[i] == k;
      assert found[i].index == n.maximum;
    }
  }

  /** The spans are those the statement's words and its syntax tree give. */
  method BuildOrderedMutationPlan(sql: string, target: string, where: Option<Span>, order: Option<Span>, limit: Span,
      prefix: Span,
                                  returning: Option<Span>)
    returns (plan: Plan)
    requires Inside(Pieces(sql), limit) && Inside(Pieces(sql), prefix)
    requires (where.Some? ==> Inside(Pieces(sql), where.value))
    requires (order.Some? ==> Inside(Pieces(sql), order.value))
    requires (returning.Some? ==> Inside(Pieces(sql), returning.value))
    ensures Number(Pieces(sql)).None? ==> plan.IndexInvalid?
    ensures Number(Pieces(sql)).Some? ==>
              var pieces, indices := Pieces(sql), Number(Pieces(sql)).value.indices;
              var w, o := WherePieces(pieces, indices, where), OrderTerms(pieces, indices, order);
              var l := Segmented(pieces, indices, limit);
              var p, r := Segmented(pieces, indices, prefix), SegmentedIf(pieces, indices, returning);
              var read := Number(Pieces(SelectionOf(target, w, o, l)));
              && (plan.LimitRequired? <==> LimitText(Render(l)) == "")
              && (plan.IndexInvalid? <==> !plan.LimitRequired? && read.None?)
              && (plan.Plan? ==>
                   plan == Plan(SelectionOf(target, w, o, l), read.value.maximum,
                             MutationTemplate(Render(p), TextOf(r))))
  {
    hide Pieces, Number, Occurs, Render, AllFit, Segmented, LimitText, SelectionTemplate, MutationTemplate, Trim;
    var pieces := ScanSql(sql);
    var found := ParameterOccurrences(sql);
    if found.None? { return IndexInvalid; }
    var parameters := found.value;
    var whereText := "1";
    if where.Some? { whereText := SegmentText(sql, pieces, where.value, parameters); }
    assert Render(["1"]) == "1" by { OneText(); }
    var orderText := "";
    if order.Some? { orderText := SegmentText(sql, pieces, order.value, parameters); }
    assert Render([]) == "" by { RenderStarts([]); }
    var limitText := SegmentText(sql, pieces, limit, parameters);
    if LimitText(limitText) == "" { return LimitRequired; }
    var selection := SelectionTemplate(target, whereText, Trim(orderText), LimitText(limitText));
    var inSelection := ParameterOccurrences(selection);
    if inSelection.None? { return IndexInvalid; }
    var maximum := MaximumIndex(inSelection.value, Pieces(selection));
    var prefixText := SegmentText(sql, pieces, prefix, parameters);
    var returningText: Option<string> := None;
    if returning.Some? {
      var text := SegmentText(sql, pieces, returning.value, parameters);
      returningText := Some(text);
    }
    return Plan(selection, maximum, MutationTemplate(prefixText, returningText));
  }

  lemma OneText()
    ensures Render(["1"]) == "1"
  {
    assert ["1"][1..] == [];
  }
}
