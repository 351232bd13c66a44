/** Subsequences, first differences and insertions: what relates an earlier transaction
    order to a later one. */
module Sequences {

  predicate Distinct<T(==)>(s: seq<T>) {
    forall i, j :: 0 <= i < j < |s| ==> s[i] != s[j]
  }

  /** `at` places every element of `a` at a strictly later position of `b` than the one before. */
  ghost predicate Embeds<T>(a: seq<T>, b: seq<T>, at: seq<nat>) {
    && |at| == |a|
    && (forall i :: 0 <= i < |a| ==> at[i] < |b| && a[i] == b[at[i]])
    && (forall i, j :: 0 <= i < j < |a| ==> at[i] < at[j])
  }

  ghost predicate Subsequence<T(!new)>(a: seq<T>, b: seq<T>) {
    exists at :: Embeds(a, b, at)
  }

  lemma SubsequenceReflexive<T(!new)>(a: seq<T>)
    ensures Subsequence(a, a)
  {
    assert Embeds(a, a, seq(|a|, i => i));
  }

  lemma EmptySubsequence<T(!new)>(a: seq<T>)
    ensures Subsequence([], a)
  {
    assert Embeds([], a, []);
  }

  lemma SubsequenceTransitive<T(!new)>(a: seq<T>, b: seq<T>, c: seq<T>)
    requires Subsequence(a, b) && Subsequence(b, c)
    ensures Subsequence(a, c)
  {
    var f :| Embeds(a, b, f);
    var g :| Embeds(b, c, g);
    assert Embeds(a, c, seq(|a|, i requires 0 <= i < |a| => g[f[i]]));
  }

  function InsertAt<T>(s: seq<T>, k: nat, x: T): seq<T>
    requires k <= |s|
  {
    s[..k] + [x] + s[k..]
  }

  lemma InsertionIsSupersequence<T(!new)>(s: seq<T>, k: nat, x: T)
    requires k <= |s|
    ensures Subsequence(s, InsertAt(s, k, x))
  {
    assert Embeds(s, InsertAt(s, k, x), seq(|s|, i => if i < k then i else i + 1));
  }

  /** A subsequence keeps relative order: if y follows x in `a`, it follows x in `b`. */
  lemma SubsequenceKeepsOrder<T(!new)>(a: seq<T>, b: seq<T>, i: nat, j: nat) returns (p: nat, q: nat)
    requires Subsequence(a, b)
    requires i < j < |a|
    ensures i <= p < q < |b| && b[p] == a[i] && b[q] == a[j]
  {
    var at :| Embeds(a, b, at);
    EmbeddingMovesRight(a, b, at, i);
    p, q := at[i], at[j];
  }

  lemma {:induction false} EmbeddingMovesRight<T>(a: seq<T>, b: seq<T>, at: seq<nat>, i: nat)
    requires Embeds(a, b, at)
    requires i < |a|
    ensures i <= at[i]
  {
    if i > 0 { EmbeddingMovesRight(a, b, at, i - 1); }
  }

  lemma SubsequenceMember<T(!new)>(a: seq<T>, b: seq<T>, i: nat) returns (p: nat)
    requires Subsequence(a, b)
    requires i < |a|
    ensures i <= p < |b| && b[p] == a[i]
  {
    var at :| Embeds(a, b, at);
    EmbeddingMovesRight(a, b, at, i);
    p := at[i];
  }

  lemma SubsequenceLength<T(!new)>(a: seq<T>, b: seq<T>)
    requires Subsequence(a, b)
    ensures |a| <= |b|
    ensures |a| == |b| ==> a == b
  {
    if |a| > 0 {
      var at :| Embeds(a, b, at);
      EmbeddingMovesRight(a, b, at, |a| - 1);
      if |a| == |b| {
        forall i | 0 <= i < |a| ensures at[i] == i { EmbeddingFull(a, b, at, i); }
      }
    }
  }

  lemma {:induction false} EmbeddingFull<T>(a: seq<T>, b: seq<T>, at: seq<nat>, i: nat)
    requires Embeds(a, b, at)
    requires i < |a| == |b|
    ensures at[i] == i
    decreases |a| - i
  {
    EmbeddingMovesRight(a, b, at, i);
    if i + 1 < |a| { EmbeddingFull(a, b, at, i + 1); }
  }

  /** `d` is the length of the longest common prefix of two different sequences. */
  ghost predicate FirstDifference<T>(a: seq<T>, b: seq<T>, d: nat) {
    && d <= |a| && d <= |b|
    && a[..d] == b[..d]
    && (if d < |a| && d < |b| then a[d] != b[d] else |a| != |b|)
  }

  /** Where a later duplicate-free order first departs from an earlier one inside the earlier
      one, a new element stands in front of an old one. */
  lemma DifferenceIsInsertion<T(!new)>(a: seq<T>, b: seq<T>, d: nat)
    requires Subsequence(a, b) && Distinct(a) && Distinct(b)
    requires FirstDifference(a, b, d)
    ensures d < |b|
    ensures d < |a| ==> b[d] !in a && exists q :: d < q < |b| && b[q] == a[d]
  {
    SubsequenceLength(a, b);
    if d < |a| {
      var q := SubsequenceMember(a, b, d);
      assert d < |b| && d < q && b[q] == a[d];
      forall i | 0 <= i < |a| ensures a[i] != b[d] { InsertedIsNew(a, b, d, i); }
    }
  }

  lemma InsertedIsNew<T(!new)>(a: seq<T>, b: seq<T>, d: nat, i: nat)
    requires Subsequence(a, b) && Distinct(a) && Distinct(b)
    requires FirstDifference(a, b, d)
    requires d < |a| && d < |b| && i < |a|
    ensures a[i] != b[d]
  {
    if i < d {
      assert a[i] == a[..d][i] == b[..d][i] == b[i];
    } else if i > d {
      var p, q := SubsequenceKeepsOrder(a, b, d, i);
    }
  }
}
