/** Numbering placeholders and rewriting segments of a statement. */
module SqlRewrite {
  import opened DecimalText
  import opened SqlLexer

  datatype Option<+T> = None | Some(value: T)

  // ---- numbering

  /** Names seen, highest number, and the number of each piece (zero when it is no placeholder). */
  datatype Numbering = Numbering(names: map<string, int>, maximum: int, indices: seq<int>)

  predicate IsNumbered(p: string) { |p| > 1 && p[0] == '?' && AllDigits(p[1..]) }

  function NextIndex(n: Numbering, p: string): int
    requires IsParameter(p)
  {
    if p == "?" then n.maximum + 1
    else if IsNumbered(p) then NatValue(p[1..])
    else if p in n.names then n.names[p] else n.maximum + 1
  }

  function Max(a: int, b: int): int { if b > a then b else a }

  function NumberOne(n: Numbering, p: string): Option<Numbering> {
    if !IsParameter(p) then Some(n.(indices := n.indices + [0]))
    else
      var index := NextIndex(n, p);
      if index < 1 || index > 32766 then None
      else
        Some(Numbering(if p == "?" || IsNumbered(p) then n.names else n.names[p := index],
                       Max(n.maximum, index), n.indices + [index]))
  }

  /** None when some number is out of range. */
  function Number(pieces: seq<string>): (r: Option<Numbering>)
    ensures r.Some? ==> |r.value.indices| == |pieces|
  {
    if pieces == [] then Some(Numbering(map[], 0, []))
    else
      match Number(pieces[..|pieces| - 1])
      case None => None
      case Some(n) => NumberOne(n, pieces[|pieces| - 1])
  }

  predicate InRange(pieces: seq<string>, indices: seq<int>) {
    |indices| == |pieces| && forall k :: 0 <= k < |pieces| && IsParameter(pieces[k]) ==> 1 <= indices[k] <= 32766
  }

  lemma {:induction false} NumberInRange(pieces: seq<string>)
    requires Number(pieces).Some?
    ensures InRange(pieces, Number(pieces).value.indices)
  {
    if pieces != [] { NumberInRange(pieces[..|pieces| - 1]); }
  }

  /** A placeholder with a name: neither bare nor numbered. */
  predicate IsNamed(p: string) { IsParameter(p) && p != "?" && !IsNumbered(p) }

  /** The highest of the first `k` numbers, zero when there is none. */
  ghost predicate IsHighest(indices: seq<int>, k: nat, m: int)
    requires k <= |indices|
  {
    && (forall j :: 0 <= j < k ==> indices[j] <= m) && m >= 0
    && (m == 0 || exists j :: 0 <= j < k && indices[j] == m)
  }

  /** The placeholder at `k` has this name and none before it has. */
  predicate FirstUse(pieces: seq<string>, k: nat)
    requires k < |pieces|
  {
    IsNamed(pieces[k]) && forall j :: 0 <= j < k ==> pieces[j] != pieces[k]
  }

  /** What SQLite binds at piece `k`: `?N` takes value N; a bare placeholder and the first use of a
      name take the value after the highest so far; a later use of a name takes that name's value. */
  ghost predicate NumberFits(pieces: seq<string>, indices: seq<int>, k: nat)
    requires k < |pieces| == |indices|
  {
    && (!IsParameter(pieces[k]) ==> indices[k] == 0)
    && (IsNumbered(pieces[k]) ==> indices[k] == NatValue(pieces[k][1..]))
    && (pieces[k] == "?" || FirstUse(pieces, k) ==> IsHighest(indices, k, indices[k] - 1))
    && (forall j :: 0 <= j < k && IsNamed(pieces[k]) && pieces[j] == pieces[k] ==> indices[j] == indices[k])
  }

  ghost predicate Numbers(pieces: seq<string>, indices: seq<int>) {
    |indices| == |pieces| && forall k :: 0 <= k < |pieces| ==> NumberFits(pieces, indices, k)
  }

  /** The names seen so far stand for the numbers of their uses. */
  ghost predicate NamesFit(pieces: seq<string>, n: Numbering)
    requires |n.indices| == |pieces|
  {
    && (forall k :: 0 <= k < |pieces| && IsNamed(pieces[k]) ==>
          pieces[k] in n.names && n.names[pieces[k]] == n.indices[k])
    && (forall name :: name in n.names ==> IsNamed(name) && name in pieces)
  }

  /** The numbering is the one SQLite's rules give, with the highest number as its maximum. It exists
      exactly when that numbering stays between 1 and 32766, and there is no other. */
  lemma {:induction false} NumberMeans(pieces: seq<string>)
    ensures Number(pieces).Some? ==>
              var n := Number(pieces).value;
              Numbers(pieces, n.indices) && InRange(pieces, n.indices) && NamesFit(pieces, n)
              && IsHighest(n.indices, |pieces|, n.maximum)
    ensures forall indices :: Numbers(pieces, indices) && InRange(pieces, indices) ==>
              Number(pieces).Some? && Number(pieces).value.indices == indices
  {
    hide NumberFits, NamesFit, IsHighest, InRange, NumberOne;
    if pieces == [] {
      assert Numbers([], []) && InRange([], []) && NamesFit([], Numbering(map[], 0, [])) && IsHighest([], 0, 0) by {
        NothingNumbered();
      }
    } else {
      var k := |pieces| - 1;
      var front := pieces[..k];
      NumberMeans(front);
      forall indices | Numbers(pieces, indices) && InRange(pieces, indices)
        ensures Number(pieces).Some? && Number(pieces).value.indices == indices
      {
        FrontNumbers(pieces, indices);
        OneNumber(pieces, indices, Number(front).value);
      }
      if Number(pieces).Some? {
        OneMoreNumber(pieces, Number(front).value);
      }
    }
  }

  lemma NothingNumbered()
    ensures Numbers([], []) && InRange([], []) && NamesFit([], Numbering(map[], 0, [])) && IsHighest([], 0, 0)
  {
  }

  lemma NumberFitsFront(pieces: seq<string>, indices: seq<int>, k: nat)
    requires k < |pieces| - 1 && |indices| == |pieces|
    ensures NumberFits(pieces[..|pieces| - 1], indices[..|pieces| - 1], k) <==> NumberFits(pieces, indices, k)
  {
  }

  lemma FrontNumbers(pieces: seq<string>, indices: seq<int>)
    requires pieces != [] && Numbers(pieces, indices) && InRange(pieces, indices)
    ensures var k := |pieces| - 1;
            Numbers(pieces[..k], indices[..k]) && InRange(pieces[..k], indices[..k]) && NumberFits(pieces, indices, k)
  {
    hide NumberFits;
    var front, first := pieces[..|pieces| - 1], indices[..|pieces| - 1];
    forall k | 0 <= k < |front| ensures NumberFits(front, first, k) { NumberFitsFront(pieces, indices, k); }
  }

  lemma OneNumber(pieces: seq<string>, indices: seq<int>, n: Numbering)
    requires pieces != [] && |indices| == |pieces| && InRange(pieces, indices)
    requires var k := |pieces| - 1;
             && n.indices == indices[..k] && NamesFit(pieces[..k], n) && IsHighest(n.indices, k, n.maximum)
             && NumberFits(pieces, indices, k)
    ensures var k := |pieces| - 1;
            NumberOne(n, pieces[k]).Some? && NumberOne(n, pieces[k]).value.indices == indices
  {
    var k := |pieces| - 1;
    var p := pieces[k];
    assert indices == n.indices + [indices[k]];
    if IsParameter(p) { NextFits(pieces, indices, n); }
  }

  lemma NextFits(pieces: seq<string>, indices: seq<int>, n: Numbering)
    requires pieces != [] && |indices| == |pieces| && IsParameter(pieces[|pieces| - 1])
    requires var k := |pieces| - 1;
             n.indices == indices[..k] && NamesFit(pieces[..k], n) && IsHighest(n.indices, k, n.maximum)
    ensures NumberFits(pieces, indices, |pieces| - 1) <==> indices[|pieces| - 1] == NextIndex(n, pieces[|pieces| - 1])
  {
    hide NatValue;
    var k := |pieces| - 1;
    var p := pieces[k];
    assert forall j :: 0 <= j < k ==> pieces[..k][j] == pieces[j] && n.indices[j] == indices[j];
    if IsNamed(p) {
      assert p in n.names <==> !FirstUse(pieces, k) by {
        if p in n.names {
          var j :| 0 <= j < k && pieces[..k][j] == p;
          assert pieces[j] == pieces[k];
        }
      }
      if p in n.names {
        var j :| 0 <= j < k && pieces[..k][j] == p;
        assert n.names[p] == indices[j];
      }
    }
    HighestUnique(indices, k, n.maximum, indices[k] - 1);
  }

  lemma HighestUnique(indices: seq<int>, k: nat, m: int, other: int)
    requires k <= |indices| && IsHighest(indices[..k], k, m)
    ensures IsHighest(indices, k, m) && (IsHighest(indices, k, other) <==> other == m)
  {
    if m != 0 {
      var j :| 0 <= j < k && indices[..k][j] == m;
      assert indices[j] == m;
    }
    assert forall j :: 0 <= j < k ==> indices[..k][j] == indices[j];
  }

  lemma OneMoreNumber(pieces: seq<string>, n: Numbering)
    requires pieces != []
    requires var k := |pieces| - 1;
             && |n.indices| == k && Numbers(pieces[..k], n.indices) && InRange(pieces[..k], n.indices)
             && NamesFit(pieces[..k], n) && IsHighest(n.indices, k, n.maximum)
             && NumberOne(n, pieces[k]).Some?
    ensures var t := NumberOne(n, pieces[|pieces| - 1]).value;
            && Numbers(pieces, t.indices) && InRange(pieces, t.indices) && NamesFit(pieces, t)
            && IsHighest(t.indices, |pieces|, t.maximum)
  {
    hide NumberFits;
    var k := |pieces| - 1;
    var front := pieces[..k];
    var t := NumberOne(n, pieces[k]).value;
    assert t.indices[..k] == n.indices && pieces == front + [pieces[k]];
    forall i | 0 <= i < k ensures NumberFits(pieces, t.indices, i) {
      assert NumberFits(front, n.indices, i);
      NumberFitsFront(pieces, t.indices, i);
    }
    if IsParameter(pieces[k]) {
      NextFits(pieces, t.indices, n);
    } else {
      assert NumberFits(pieces, t.indices, k) by { PlainFits(pieces, t.indices, k); }
    }
    HighestUnique(t.indices, k, n.maximum, n.maximum);
    HighestGrows(t.indices, k, n.maximum);
    NamesGrow(pieces, n, t);
  }

  lemma PlainFits(pieces: seq<string>, indices: seq<int>, k: nat)
    requires k < |pieces| == |indices| && !IsParameter(pieces[k]) && indices[k] == 0
    ensures NumberFits(pieces, indices, k)
  {
  }

  lemma HighestGrows(indices: seq<int>, k: nat, m: int)
    requires k < |indices| && IsHighest(indices, k, m)
    ensures IsHighest(indices, k + 1, Max(m, indices[k]))
  {
    if m != 0 {
      var j :| 0 <= j < k && indices[j] == m;
      assert indices[j] == m;
    }
    assert indices[k] == indices[k];
  }

  lemma NamesGrow(pieces: seq<string>, n: Numbering, t: Numbering)
    requires pieces != [] && |n.indices| == |pieces| - 1 && NamesFit(pieces[..|pieces| - 1], n)
    requires NumberOne(n, pieces[|pieces| - 1]) == Some(t)
    ensures NamesFit(pieces, t)
  {
    hide NatValue;
    var k := |pieces| - 1;
    var front := pieces[..k];
    assert pieces == front + [pieces[k]];
    forall i | 0 <= i < |pieces| && IsNamed(pieces[i])
      ensures pieces[i] in t.names && t.names[pieces[i]] == t.indices[i]
    {
      if i < k { assert front[i] == pieces[i] && t.indices[i] == n.indices[i]; }
    }
  }

  // ---- rewriting

  function Rewritten(p: string, index: int): string {
    if IsParameter(p) && index >= 0 then "?" + NatText(index) else p
  }

  /** Every placeholder in its numbered form. */
  function RewriteAll(pieces: seq<string>, indices: seq<int>): (r: seq<string>)
    requires |indices| == |pieces|
    ensures |r| == |pieces|
  {
    seq(|pieces|, k requires 0 <= k < |pieces| => Rewritten(pieces[k], indices[k]))
  }

  lemma RewrittenShape(p: string, index: int)
    requires IsParameter(p) && index >= 0
    ensures IsNumbered(Rewritten(p, index)) && IsParameter(Rewritten(p, index))
    ensures NatValue(Rewritten(p, index)[1..]) == index
  {
    NatTextRoundTrip(index);
    assert ("?" + NatText(index))[1..] == NatText(index);
  }

  /** The rewritten text numbers its placeholders exactly as the source did, so the same values
      are bound in the same places. */
  lemma {:induction false} SameBinding(pieces: seq<string>, indices: seq<int>)
    requires InRange(pieces, indices) && forall k :: 0 <= k < |pieces| && !IsParameter(pieces[k]) ==> indices[k] == 0
    ensures Number(RewriteAll(pieces, indices)).Some?
    ensures Number(RewriteAll(pieces, indices)).value.indices == indices
  {
    hide NatValue, NatText;
    if pieces != [] {
      var front, last := pieces[..|pieces| - 1], indices[..|pieces| - 1];
      SameBinding(front, last);
      var r := RewriteAll(pieces, indices);
      assert r[..|r| - 1] == RewriteAll(front, last);
      if IsParameter(pieces[|pieces| - 1]) { RewrittenShape(pieces[|pieces| - 1], indices[|pieces| - 1]); }
      assert indices == last + [indices[|pieces| - 1]];
    }
  }

  /** A placeholder in the segment is directly followed by a digit in the segment. */
  predicate GluedDigit(pieces: seq<string>, k: int) {
    0 <= k < |pieces| - 1 && IsParameter(pieces[k]) && pieces[k + 1] != "" && IsDigit(pieces[k + 1][0])
  }

  lemma NonEmpty(pieces: seq<string>, k: nat)
    requires AllFit(pieces) && k < |pieces|
    ensures pieces[k] != ""
  {
    assert Fits(pieces[k], Render(pieces[k + 1..]));
  }

  lemma RenderStarts(pieces: seq<string>)
    ensures pieces == [] ==> Render(pieces) == ""
    ensures pieces != [] && pieces[0] != "" ==> Render(pieces) != "" && Render(pieces)[0] == pieces[0][0]
  {
  }

  /** From inside the segment, what follows a piece looks as in the source. */
  lemma SegmentLooks(pieces: seq<string>, indices: seq<int>, i: nat, j: nat, k: nat)
    requires AllFit(pieces) && |indices| == |pieces| && InRange(pieces, indices) && i <= k < j <= |pieces|
    ensures var r := RewriteAll(pieces[i..j], indices[i..j]);
            var u := Render(r[k - i + 1..]);
            var t := Render(pieces[k + 1..]);
            && LooksLike(u, t)
            && (u != "" ==> k + 1 < j && u[0] == if IsParameter(pieces[k + 1]) then '?' else pieces[k + 1][0])
            && (k + 1 < j ==> u != "" && t != "" && pieces[k + 1] != "" && t[0] == pieces[k + 1][0])
  {
    hide Fits, Render;
    var r := RewriteAll(pieces[i..j], indices[i..j]);
    RenderStarts(r[k - i + 1..]);
    RenderStarts(pieces[k + 1..]);
    if k + 1 < j {
      NonEmpty(pieces, k + 1);
      var p := pieces[k + 1];
      assert r[k - i + 1..][0] == r[k - i + 1] == Rewritten(p, indices[k + 1]);
      assert pieces[k + 1..][0] == p;
    } else {
      assert r[k - i + 1..] == [];
    }
  }

  lemma PieceStillFits(pieces: seq<string>, indices: seq<int>, i: nat, j: nat, k: nat)
    requires AllFit(pieces) && InRange(pieces, indices) && i <= k < j <= |pieces|
    ensures var r := RewriteAll(pieces[i..j], indices[i..j]);
            Fits(r[k - i], Render(r[k - i + 1..])) <==> !GluedDigit(pieces[i..j], k - i)
  {
    hide Render, PieceLength, Fits, NatText, LooksLike, IsLineComment;
    var r := RewriteAll(pieces[i..j], indices[i..j]);
    var p, t, u := pieces[k], Render(pieces[k + 1..]), Render(r[k - i + 1..]);
    assert Fits(p, t);
    SegmentLooks(pieces, indices, i, j, k);
    assert r[k - i] == Rewritten(p, indices[k]);
    if IsParameter(p) {
      NatTextRoundTrip(indices[k]);
      NumberedFits(NatText(indices[k]), u);
      assert k + 1 < j ==> pieces[i..j][k - i + 1] == pieces[k + 1];
    } else {
      if IsLineComment(p) { LineEnds(p, t); }
      PieceLooks(p, t, u);
    }
  }

  lemma LineEnds(p: string, t: string)
    requires Fits(p, t) && IsLineComment(p)
    ensures t == "" || t[0] == '\n'
  {
    hide LineRun;
    assert (p + t)[0] == p[0] && (p + t)[1] == p[1];
    assert (p + t)[2..] == p[2..] + t;
    LineLooks(p[2..], t, "");
  }

  /** A rewritten segment has the pieces of its source with every placeholder replaced by its
      numbered form, exactly when no placeholder is directly followed by a digit. */
  lemma SegmentExact(pieces: seq<string>, indices: seq<int>, i: nat, j: nat)
    requires AllFit(pieces) && InRange(pieces, indices) && i <= j <= |pieces|
    ensures var r := RewriteAll(pieces[i..j], indices[i..j]);
            Pieces(Render(r)) == r <==> forall k :: !GluedDigit(pieces[i..j], k)
  {
    hide Render, PieceLength, Pieces, Fits;
    var r := RewriteAll(pieces[i..j], indices[i..j]);
    forall m | 0 <= m < |r| ensures Fits(r[m], Render(r[m + 1..])) <==> !GluedDigit(pieces[i..j], m) {
      PieceStillFits(pieces, indices, i, j, i + m);
      assert i + m - i == m && i + m - i + 1 == m + 1;
    }
    PiecesExact(r);
    if AllFit(r) {
      forall k ensures !GluedDigit(pieces[i..j], k) {
        if 0 <= k < |r| { assert Fits(r[k], Render(r[k + 1..])); }
      }
    }
  }

  /** Only the form $name(...) can be followed by a digit at all. */
  lemma GluedOnlyAfterParenthesis(pieces: seq<string>, k: nat)
    requires AllFit(pieces) && GluedDigit(pieces, k)
    ensures pieces[k][0] == '$' && pieces[k][|pieces[k]| - 1] == ')'
  {
    hide Fits, Render;
    assert Fits(pieces[k], Render(pieces[k + 1..]));
    NonEmpty(pieces, k + 1);
    RenderStarts(pieces[k + 1..]);
    assert pieces[k + 1..][0] == pieces[k + 1];
    DigitOnlyAfterParenthesis(pieces[k], Render(pieces[k + 1..]));
  }

  // ---- the loops

  function Offset(pieces: seq<string>, k: nat): nat
    requires k <= |pieces|
  {
    if k == 0 then 0 else Offset(pieces, k - 1) + |pieces[k - 1]|
  }

  lemma {:induction false} RenderSlice(pieces: seq<string>, i: nat, j: nat)
    requires i <= j <= |pieces|
    ensures Offset(pieces, i) <= Offset(pieces, j) <= |Render(pieces)|
    ensures Render(pieces)[Offset(pieces, i)..Offset(pieces, j)] == Render(pieces[i..j])
    decreases j - i
  {
    assert pieces == pieces[..i] + (pieces[i..j] + pieces[j..]);
    RenderJoins(pieces[..i], pieces[i..j] + pieces[j..]);
    RenderJoins(pieces[i..j], pieces[j..]);
    RenderSize(pieces, i);
    RenderSize(pieces, j);
    assert pieces[..j] == pieces[..i] + pieces[i..j];
    RenderJoins(pieces[..i], pieces[i..j]);
  }

  lemma {:induction false} RenderSize(pieces: seq<string>, k: nat)
    requires k <= |pieces|
    ensures |Render(pieces[..k])| == Offset(pieces, k)
  {
    if k > 0 {
      RenderSize(pieces, k - 1);
      assert pieces[..k] == pieces[..k - 1] + [pieces[k - 1]];
      RenderJoins(pieces[..k - 1], [pieces[k - 1]]);
      assert [pieces[k - 1]][1..] == [] && Render([pieces[k - 1]]) == pieces[k - 1] + "";
    }
  }

  /** The scanner's loop over a moving index. */
  method ScanSql(sql: string) returns (pieces: seq<string>)
    ensures pieces == Pieces(sql) && Render(pieces) == sql && AllFit(pieces)
  {
    hide PieceLength;
    pieces := [];
    var index := 0;
    while index < |sql|
      invariant index <= |sql|
      invariant Pieces(sql) == pieces + Pieces(sql[index..])
    {
      var length := PieceLength(sql[index..]);
      assert sql[index..][..length] == sql[index..index + length];
      assert sql[index..][length..] == sql[index + length..];
      pieces := pieces + [sql[index..index + length]];
      index := index + length;
    }
    RenderPieces(sql);
    PiecesFit(sql);
  }

  datatype Occurrence = Occurrence(start: nat, end: nat, index: int)

  /** Where the placeholders are among the pieces. */
  function ParametersAt(pieces: seq<string>): seq<nat> {
    if pieces == [] then []
    else
      ParametersAt(pieces[..|pieces| - 1]) + if IsParameter(pieces[|pieces| - 1]) then [|pieces| - 1] else []
  }

  lemma {:induction false} ParametersExact(pieces: seq<string>)
    ensures forall k :: k in ParametersAt(pieces) <==> 0 <= k < |pieces| && IsParameter(pieces[k])
    ensures forall m, n :: 0 <= m < n < |ParametersAt(pieces)| ==> ParametersAt(pieces)[m] < ParametersAt(pieces)[n]
  {
    if pieces != [] {
      var front := pieces[..|pieces| - 1];
      ParametersExact(front);
      forall m | 0 <= m < |ParametersAt(front)| ensures ParametersAt(front)[m] < |front| {
        assert ParametersAt(front)[m] in ParametersAt(front);
      }
    }
  }

  /** The occurrences are the placeholders among the pieces, in order, at their offsets. */
  ghost predicate Occurs(pieces: seq<string>, indices: seq<int>, found: seq<Occurrence>) {
    var at := ParametersAt(pieces);
    && |indices| == |pieces| && |found| == |at|
    && forall m :: 0 <= m < |at| ==> at[m] < |pieces| && found[m] == OccurrenceAt(pieces, indices, at[m])
  }

  ghost function OccurrenceAt(pieces: seq<string>, indices: seq<int>, k: nat): Occurrence
    requires k < |pieces| == |indices|
  {
    Occurrence(Offset(pieces, k), Offset(pieces, k + 1), indices[k])
  }

  method ParameterOccurrences(sql: string) returns (found: Option<seq<Occurrence>>)
    ensures found.Some? <==> Number(Pieces(sql)).Some?
    ensures found.Some? ==> Occurs(Pieces(sql), Number(Pieces(sql)).value.indices, found.value)
  {
    hide NextIndex, PieceLength, Render, AllFit, Pieces, Occurs;
    var pieces := ScanSql(sql);
    var numbering := Numbering(map[], 0, []);
    var list: seq<Occurrence> := [];
    var start := 0;
    assert Occurs(pieces[..0], [], []) by { NoOccurrences(); assert pieces[..0] == []; }
    for k := 0 to |pieces|
      invariant Number(pieces[..k]) == Some(numbering)
      invariant start == Offset(pieces, k)
      invariant Occurs(pieces[..k], numbering.indices, list)
    {
      assert pieces[..k + 1][..k] == pieces[..k];
      var next := NumberOne(numbering, pieces[k]);
      if next.None? {
        NumberFails(pieces, k + 1);
        return None;
      }
      var end := start + |pieces[k]|;
      OneMoreOccurrence(pieces, k, numbering.indices, next.value.indices[k], list);
      if IsParameter(pieces[k]) { list := list + [Occurrence(start, end, next.value.indices[k])]; }
      assert next.value.indices == numbering.indices + [next.value.indices[k]];
      numbering, start := next.value, end;
    }
    assert pieces[..|pieces|] == pieces;
    return Some(list);
  }

  lemma NoOccurrences()
    ensures Occurs([], [], [])
  {
  }

  lemma OneMoreOccurrence(pieces: seq<string>, k: nat, indices: seq<int>, index: int, list: seq<Occurrence>)
    requires k < |pieces| && Occurs(pieces[..k], indices, list)
    ensures Occurs(pieces[..k + 1], indices + [index],
                   if IsParameter(pieces[k])
                   then list + [Occurrence(Offset(pieces, k), Offset(pieces, k) + |pieces[k]|, index)]
                   else list)
  {
    var front, longer := pieces[..k], pieces[..k + 1];
    assert longer[..k] == front;
    forall m | 0 <= m < |ParametersAt(front)|
      ensures OccurrenceAt(longer, indices + [index], ParametersAt(front)[m])
           == OccurrenceAt(front, indices, ParametersAt(front)[m])
    {
      var at := ParametersAt(front)[m];
      OffsetPrefix(pieces, k, at);
      OffsetPrefix(pieces, k, at + 1);
      OffsetPrefix(pieces, k + 1, at);
      OffsetPrefix(pieces, k + 1, at + 1);
    }
    OffsetPrefix(pieces, k + 1, k);
    OffsetPrefix(pieces, k + 1, k + 1);
  }

  /** Pieces without placeholders are kept as they are. */
  lemma KeptSlice(pieces: seq<string>, indices: seq<int>, a: nat, b: nat)
    requires a <= b <= |pieces| && |indices| == |pieces| && forall k :: a <= k < b ==> !IsParameter(pieces[k])
    ensures RewriteAll(pieces[a..b], indices[a..b]) == pieces[a..b]
  {
  }

  lemma RewriteSplits(pieces: seq<string>, indices: seq<int>, a: nat, b: nat, c: nat)
    requires a <= b <= c <= |pieces| && |indices| == |pieces|
    ensures Render(RewriteAll(pieces[a..c], indices[a..c]))
         == Render(RewriteAll(pieces[a..b], indices[a..b])) + Render(RewriteAll(pieces[b..c], indices[b..c]))
  {
    assert RewriteAll(pieces[a..c], indices[a..c]) ==
              RewriteAll(pieces[a..b], indices[a..b]) + RewriteAll(pieces[b..c], indices[b..c]);
    RenderJoins(RewriteAll(pieces[a..b], indices[a..b]), RewriteAll(pieces[b..c], indices[b..c]));
  }

  /** What has been written covers the pieces from `i` to `upTo`. */
  ghost predicate Covers(sql: string, pieces: seq<string>, indices: seq<int>, i: nat, upTo: nat, cursor: nat,
      rewritten: string)
  {
    && i <= upTo <= |pieces| && |indices| == |pieces| && cursor == Offset(pieces, upTo)
    && rewritten == Render(RewriteAll(pieces[i..upTo], indices[i..upTo]))
  }

  /** The loop over the statement's placeholders, for a segment between two pieces. */
  method RewriteSourceSegment(sql: string, start: nat, end: nat, parameters: seq<Occurrence>,
                              ghost indices: seq<int>, ghost i: nat, ghost j: nat)
    returns (rewritten: string)
    requires Occurs(Pieces(sql), indices, parameters) && i <= j <= |Pieces(sql)|
    requires start == Offset(Pieces(sql), i) && end == Offset(Pieces(sql), j)
    requires InRange(Pieces(sql), indices)
    ensures rewritten == Render(RewriteAll(Pieces(sql)[i..j], indices[i..j]))
  {
    hide PieceLength, Pieces, Render, RewriteAll, Covers, AllFit, Occurs, OccurrenceAt, Offset, ParametersAt, NatText,
      IsParameter;
    ghost var pieces := Pieces(sql);
    RenderPieces(sql);
    PiecesFit(sql);
    ParametersExact(pieces);
    OccursAre(pieces, indices, parameters);
    var cursor := start;
    rewritten := "";
    ghost var upTo := i;
    assert Covers(sql, pieces, indices, i, i, start, "") by { NothingCovered(sql, pieces, indices, i); }
    for m := 0 to |parameters|
      invariant i <= upTo <= j && Covers(sql, pieces, indices, i, upTo, cursor, rewritten)
      invariant forall n :: 0 <= n < m && i <= ParametersAt(pieces)[n] < j ==> ParametersAt(pieces)[n] < upTo
      invariant forall n :: m <= n < |parameters| && i <= ParametersAt(pieces)[n] ==> upTo <= ParametersAt(pieces)[n]
    {
      ghost var k := ParametersAt(pieces)[m];
      assert k in ParametersAt(pieces);
      PlacesCompare(pieces, i, j, k);
      if parameters[m].start < start || parameters[m].end > end { continue; }
      CoverStep(sql, pieces, indices, i, upTo, k, cursor, rewritten, m);
      rewritten := rewritten + sql[cursor..parameters[m].start];
      rewritten := rewritten + "?" + NatText(parameters[m].index);
      cursor := parameters[m].end;
      upTo := k + 1;
    }
    CoverEnd(sql, pieces, indices, i, upTo, j, cursor, rewritten);
    rewritten := rewritten + sql[cursor..end];
  }

  lemma OccursAre(pieces: seq<string>, indices: seq<int>, found: seq<Occurrence>)
    requires Occurs(pieces, indices, found)
    ensures |indices| == |pieces| && |found| == |ParametersAt(pieces)|
    ensures forall m :: 0 <= m < |found| ==> ParametersAt(pieces)[m] < |pieces|
    ensures forall m :: 0 <= m < |found| ==> found[m].start == Offset(pieces, ParametersAt(pieces)[m])
    ensures forall m :: 0 <= m < |found| ==> found[m].end == Offset(pieces, ParametersAt(pieces)[m] + 1)
    ensures forall m :: 0 <= m < |found| ==> found[m].index == indices[ParametersAt(pieces)[m]]
  {
    hide Offset, ParametersAt;
  }

  lemma NothingCovered(sql: string, pieces: seq<string>, indices: seq<int>, i: nat)
    requires i <= |pieces| == |indices|
    ensures Covers(sql, pieces, indices, i, i, Offset(pieces, i), "")
  {
  }

  /** A placeholder lies in the segment exactly when its offsets do. */
  lemma PlacesCompare(pieces: seq<string>, i: nat, j: nat, k: nat)
    requires AllFit(pieces) && i <= j <= |pieces| && k < |pieces|
    ensures Offset(pieces, k) < Offset(pieces, i) || Offset(pieces, k + 1) > Offset(pieces, j) <==> k < i || k >= j
    ensures Offset(pieces, j) <= |Render(pieces)|
  {
    hide Render, AllFit, Offset;
    RenderSlice(pieces, j, j);
    if k < i { OffsetGrows(pieces, k, i); } else { OffsetGrows(pieces, i, k); }
    if k >= j { OffsetGrows(pieces, j, k + 1); } else { OffsetGrows(pieces, k + 1, j); }
  }

  lemma {:induction false} OffsetGrows(pieces: seq<string>, a: nat, b: nat)
    requires AllFit(pieces) && a <= b <= |pieces|
    ensures Offset(pieces, a) + (b - a) <= Offset(pieces, b)
    decreases b - a
  {
    hide AllFit;
    if a < b {
      OffsetGrows(pieces, a, b - 1);
      NonEmpty(pieces, b - 1);
    }
  }

  lemma NoneBetween(pieces: seq<string>, i: nat, upTo: nat, k: nat, m: nat)
    requires i <= upTo <= k < |pieces| && m < |ParametersAt(pieces)| && ParametersAt(pieces)[m] == k
    requires forall n :: 0 <= n < m && i <= ParametersAt(pieces)[n] < k ==> ParametersAt(pieces)[n] < upTo
    ensures forall x :: upTo <= x < k ==> !IsParameter(pieces[x])
  {
    hide IsParameter;
    ParametersExact(pieces);
    forall x | upTo <= x < k ensures !IsParameter(pieces[x]) {
      assert IsParameter(pieces[x]) ==> x in ParametersAt(pieces);
    }
  }

  lemma CoverStep(sql: string, pieces: seq<string>, indices: seq<int>, i: nat, upTo: nat, k: nat, cursor: nat,
      rewritten: string, m: nat)
    requires Render(pieces) == sql && InRange(pieces, indices)
    requires Covers(sql, pieces, indices, i, upTo, cursor, rewritten) && upTo <= k < |pieces| && IsParameter(pieces[k])
    requires m < |ParametersAt(pieces)| && ParametersAt(pieces)[m] == k
    requires forall n :: 0 <= n < m && i <= ParametersAt(pieces)[n] < k ==> ParametersAt(pieces)[n] < upTo
    ensures cursor <= Offset(pieces, k) <= |sql|
    ensures Covers(sql, pieces, indices, i, k + 1, Offset(pieces, k + 1),
                   rewritten + sql[cursor..Offset(pieces, k)] + "?" + NatText(indices[k]))
  {
    hide NatText, RewriteAll, Render, Offset, ParametersAt, IsParameter;
    NoneBetween(pieces, i, upTo, k, m);
    KeptSlice(pieces, indices, upTo, k);
    RenderSlice(pieces, upTo, k);
    RewriteSplits(pieces, indices, i, upTo, k);
    RewriteSplits(pieces, indices, i, k, k + 1);
    OnePiece(pieces, indices, k);
    Assoc(rewritten + sql[cursor..Offset(pieces, k)], "?", NatText(indices[k]));
  }

  lemma OnePiece(pieces: seq<string>, indices: seq<int>, k: nat)
    requires k < |pieces| == |indices| && IsParameter(pieces[k]) && indices[k] >= 0
    ensures Render(RewriteAll(pieces[k..k + 1], indices[k..k + 1])) == "?" + NatText(indices[k])
  {
    hide NatText;
    var r := RewriteAll(pieces[k..k + 1], indices[k..k + 1]);
    assert r == [Rewritten(pieces[k], indices[k])] && r[1..] == [];
  }

  lemma CoverEnd(sql: string, pieces: seq<string>, indices: seq<int>, i: nat, upTo: nat, j: nat, cursor: nat,
      rewritten: string)
    requires Render(pieces) == sql && Covers(sql, pieces, indices, i, upTo, cursor, rewritten) && upTo <= j <= |pieces|
    requires forall x :: x in ParametersAt(pieces) <==> 0 <= x < |pieces| && IsParameter(pieces[x])
    requires forall n :: 0 <= n < |ParametersAt(pieces)| && i <= ParametersAt(pieces)[n] < j ==>
              ParametersAt(pieces)[n] < upTo
    ensures cursor <= Offset(pieces, j) <= |sql|
    ensures rewritten + sql[cursor..Offset(pieces, j)] == Render(RewriteAll(pieces[i..j], indices[i..j]))
  {
    hide RewriteAll;
    forall x | upTo <= x < j ensures !IsParameter(pieces[x]) {
      assert IsParameter(pieces[x]) ==> x in ParametersAt(pieces);
    }
    KeptSlice(pieces, indices, upTo, j);
    RenderSlice(pieces, upTo, j);
    RewriteSplits(pieces, indices, i, upTo, j);
  }

  lemma {:induction false} OffsetPrefix(pieces: seq<string>, m: nat, k: nat)
    requires k <= m <= |pieces|
    ensures Offset(pieces[..m], k) == Offset(pieces, k)
  {
    if k > 0 { OffsetPrefix(pieces, m, k - 1); }
  }

  lemma {:induction false} NumberFails(pieces: seq<string>, n: nat)
    requires n <= |pieces| && Number(pieces[..n]).None?
    ensures Number(pieces).None?
    decreases |pieces|
  {
    if n < |pieces| {
      assert pieces[..|pieces| - 1][..n] == pieces[..n];
      NumberFails(pieces[..|pieces| - 1], n);
    } else {
      assert pieces[..n] == pieces;
    }
  }
}
