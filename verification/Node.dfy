/** The control store feeding the materializer: every order a store run hands over is one the
    materializer accepts, and replicas with the same admissions show the same database. */
module Node {
  import opened Bytes
  import opened Order
  import opened Sequences
  import Replay
  import Materializer
  import opened ControlStoreModel
  import opened ControlStoreLaws

  /** How the node turns a stored candidate into the transaction it materializes: from the parts
      of the candidate that never change, and with the candidate's id and order key. */
  ghost predicate BuildsTransactions(build: Candidate -> Replay.Transaction) {
    && (forall c, d :: SameCandidateIdentity(c, d) ==> build(c) == build(d))
    && (forall c :: build(c).txId == c.txId)
  }

  /** Every ordered candidate yields a well-formed transaction with the candidate's own order key. */
  ghost predicate Materializable(e: Replay.Engine, build: Candidate -> Replay.Transaction, s: Store) {
    forall id :: id in s.order ==> MaterializableOne(e, build, s, id)
  }

  ghost predicate MaterializableOne(e: Replay.Engine, build: Candidate -> Replay.Transaction, s: Store, id: Bytes) {
    && id in s.candidates && Replay.WellFormed(e, build(s.candidates[id]))
    && Replay.KeyOf(e, build(s.candidates[id])) == s.candidates[id].orderKey
  }

  /** Such keys end in the transaction id, so no two are equal. */
  lemma MaterializableKeys(e: Replay.Engine, build: Candidate -> Replay.Transaction, s: Store)
    requires Inv(s) && BuildsTransactions(build) && Materializable(e, build, s)
    ensures KeysDistinct(s)
  {
    hide LogOk, WeaklySorted, Replay.WellFormed;
    forall id | IsAdmissible(s, id) ensures s.candidates[id].orderKey.txId == id {
      assert id in s.order && MaterializableOne(e, build, s, id);
      assert Replay.KeyOf(e, build(s.candidates[id])).txId == build(s.candidates[id]).txId == s.candidates[id].txId;
    }
  }

  function Handover(build: Candidate -> Replay.Transaction, s: Store): (txs: seq<Replay.Transaction>)
    requires OrderKnown(s)
    ensures |txs| == |s.order|
    ensures forall i :: 0 <= i < |txs| ==> txs[i] == build(s.candidates[s.order[i]])
  {
    seq(|s.order|, i requires 0 <= i < |s.order| => build(s.candidates[s.order[i]]))
  }

  /** The order of a good store passes the strictness and duplicate checks of the materializer. */
  lemma HandoverValid(e: Replay.Engine, build: Candidate -> Replay.Transaction, s: Store)
    requires Inv(s) && BuildsTransactions(build) && Materializable(e, build, s)
    ensures Replay.ValidSet(e, Handover(build, s))
  {
    var txs := Handover(build, s);
    MaterializableKeys(e, build, s);
    StrictExactlyWhenKeysDistinct(s);
    assert Replay.Ids(txs) == s.order by { HandoverIds(build, s); }
    forall i | 0 <= i < |txs|
      ensures Replay.WellFormed(e, txs[i]) && Replay.KeyOf(e, txs[i]) == Keys(s.candidates, s.order)[i]
    {
      assert s.order[i] in s.order && MaterializableOne(e, build, s, s.order[i]);
    }
    forall i | 0 < i < |txs| ensures Before(Replay.KeyOf(e, txs[i - 1]), Replay.KeyOf(e, txs[i])) {
      assert Before(Keys(s.candidates, s.order)[i - 1], Keys(s.candidates, s.order)[i]);
    }
  }

  lemma HandoverIds(build: Candidate -> Replay.Transaction, s: Store)
    requires Inv(s) && BuildsTransactions(build)
    ensures Replay.Ids(Handover(build, s)) == s.order
  {
    forall i | 0 <= i < |s.order| ensures Replay.Ids(Handover(build, s))[i] == s.order[i] {
      assert s.candidates[s.order[i]].txId == s.order[i];
    }
  }

  /** A later order contains every earlier one, transaction by transaction, so the materializer
      never sees a removal or a changed identity. */
  lemma HandoverMonotonic(build: Candidate -> Replay.Transaction, s: Store, t: Store)
    requires Inv(s) && Inv(t) && Extends(s, t) && BuildsTransactions(build)
    ensures Subsequence(Handover(build, s), Handover(build, t))
  {
    var at :| Embeds(s.order, t.order, at);
    var a, b := Handover(build, s), Handover(build, t);
    forall i | 0 <= i < |a| ensures at[i] < |b| && a[i] == b[at[i]] {
      assert s.order[i] in s.candidates && s.order[i] == t.order[at[i]];
      assert SameCandidateIdentity(s.candidates[s.order[i]], t.candidates[s.order[i]]);
    }
    assert Embeds(a, b, at);
  }

  ghost predicate NonDecreasing(cuts: seq<nat>) {
    forall i, j :: 0 <= i < j < |cuts| ==> cuts[i] <= cuts[j]
  }

  /** The store after the first `n` operations of a run. */
  ghost function Moment(maximum: nat, ops: seq<Op>, n: nat): (s: Store)
    requires maximum >= 1 && n <= |ops|
    ensures Inv(s)
  {
    EmptyInv(maximum);
    Run(Empty(maximum), ops[..n])
  }

  ghost predicate Runnable(e: Replay.Engine, build: Candidate -> Replay.Transaction, maximum: nat, ops: seq<Op>)
    requires maximum >= 1
  {
    forall n :: 0 <= n <= |ops| ==>
      Materializable(e, build, Moment(maximum, ops, n))
      && Replay.Fold(e, Handover(build, Moment(maximum, ops, n))).Some?
  }

  /** Whatever the store does between handovers, the orders handed over are an arrival history
      the materializer accepts call by call. */
  lemma HandoversAreArrivals(e: Replay.Engine, build: Candidate -> Replay.Transaction, maximum: nat, ops: seq<Op>,
                             cuts: seq<nat>, batches: seq<seq<Replay.Transaction>>)
    requires maximum >= 1 && BuildsTransactions(build) && Runnable(e, build, maximum, ops)
    requires NonDecreasing(cuts) && |batches| == |cuts|
    requires forall i :: 0 <= i < |cuts| ==>
              cuts[i] <= |ops| && batches[i] == Handover(build, Moment(maximum, ops, cuts[i]))
    ensures Materializer.Arrivals(e, batches)
  {
    hide BuildsTransactions, Materializable, Replay.Fold, Replay.ValidSet, Subsequence, Run, Inv;
    forall i | 0 <= i < |batches| ensures Replay.ValidSet(e, batches[i]) && Replay.Fold(e, batches[i]).Some? {
      HandoverValid(e, build, Moment(maximum, ops, cuts[i]));
    }
    forall i | 0 < i < |batches| ensures Subsequence(batches[i - 1], batches[i]) {
      MomentsExtend(maximum, ops, cuts[i - 1], cuts[i]);
      HandoverMonotonic(build, Moment(maximum, ops, cuts[i - 1]), Moment(maximum, ops, cuts[i]));
    }
  }

  lemma MomentsExtend(maximum: nat, ops: seq<Op>, m: nat, n: nat)
    requires maximum >= 1 && m <= n <= |ops|
    ensures Extends(Moment(maximum, ops, m), Moment(maximum, ops, n))
  {
    EarlierOrderSurvives(maximum, ops[..m], ops[m..n]);
    assert ops[..m] + ops[m..n] == ops[..n];
  }

  /** Stores that admit the same candidates with the same identities hand over the same list. */
  lemma SameHandovers(e: Replay.Engine, build: Candidate -> Replay.Transaction, s: Store, t: Store)
    requires Inv(s) && Inv(t) && BuildsTransactions(build) && Materializable(e, build, s)
    requires forall id :: IsAdmissible(s, id) <==> IsAdmissible(t, id)
    requires forall id :: IsAdmissible(s, id) ==> SameCandidateIdentity(s.candidates[id], t.candidates[id])
    ensures Handover(build, s) == Handover(build, t)
  {
    MaterializableKeys(e, build, s);
    SameAdmissionsSameOrder(s, t);
    forall i | 0 <= i < |s.order| ensures Handover(build, s)[i] == Handover(build, t)[i] {
      assert s.order[i] in s.order && IsAdmissible(s, s.order[i]);
    }
  }

  /** A node's history: a run of its store and the moments, the last one included, at which it
      handed its order over. */
  datatype History = History(maximum: nat, ops: seq<Op>, cuts: seq<nat>)

  ghost predicate Fed(e: Replay.Engine, build: Candidate -> Replay.Transaction, h: History,
      batches: seq<seq<Replay.Transaction>>)
  {
    && h.maximum >= 1 && Runnable(e, build, h.maximum, h.ops) && NonDecreasing(h.cuts)
    && |batches| == |h.cuts| > 0 && h.cuts[|h.cuts| - 1] == |h.ops|
    && (forall i :: 0 <= i < |h.cuts| ==>
          h.cuts[i] <= |h.ops| && batches[i] == Handover(build, Moment(h.maximum, h.ops, h.cuts[i])))
  }

  ghost function Final(h: History): (s: Store)
    requires h.maximum >= 1
    ensures Inv(s)
  {
    Moment(h.maximum, h.ops, |h.ops|)
  }

  /** Two nodes, any two runs of their stores with any handover points and any checkpoint settings:
      when the same candidates end up admissible with the same identities, both materializers show
      the same application state and log, that of the common order from genesis. */
  method ReplicasConverge(e: Replay.Engine, ghost build: Candidate -> Replay.Transaction, ghost a: History,
      ghost b: History,
                          everyA: nat, retainA: nat, batchesA: seq<seq<Replay.Transaction>>,
                          everyB: nat, retainB: nat, batchesB: seq<seq<Replay.Transaction>>, nonce: Bytes)
    returns (first: Replay.Content, second: Replay.Content)
    requires Replay.EncodingInjective(e) && Replay.DigestCollisionFree(e) && BuildsTransactions(build)
    requires everyA >= 1 && retainA >= 1 && everyB >= 1 && retainB >= 1
    requires Fed(e, build, a, batchesA) && Fed(e, build, b, batchesB)
    requires forall id :: IsAdmissible(Final(a), id) <==> IsAdmissible(Final(b), id)
    requires forall id :: IsAdmissible(Final(a), id) ==>
              SameCandidateIdentity(Final(a).candidates[id], Final(b).candidates[id])
    ensures first == second && Replay.Fold(e, Handover(build, Final(a))) == Replay.Some(first)
  {
    hide Replay.EncodingInjective, Replay.DigestCollisionFree, BuildsTransactions, Replay.Fold, Run, Inv,
      Materializable, IsAdmissible, SameCandidateIdentity;
    HandoversAreArrivals(e, build, a.maximum, a.ops, a.cuts, batchesA);
    HandoversAreArrivals(e, build, b.maximum, b.ops, b.cuts, batchesB);
    SameHandovers(e, build, Final(a), Final(b));
    first := Materializer.Replicate(e, everyA, retainA, batchesA, nonce);
    second := Materializer.Replicate(e, everyB, retainB, batchesB, nonce);
  }
}
