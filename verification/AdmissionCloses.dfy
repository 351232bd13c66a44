/** From a satisfied admission proof to closed history: admission counts validator capabilities,
    a watermark counts validators. */
module AdmissionCloses {
  import opened Bytes
  import M = ControlStoreModel
  import Caps = Capabilities
  import P = Policy
  import S = PolicySolver
  import A = Admission
  import W = Watermark
  import H = ClosedHistory

  /** The attestation is a record of its validator's feed. */
  ghost predicate Published(runs: H.Runs, ids: seq<Bytes>, a: A.Attestation) {
    && a.validatorId in ids && a.validatorId in runs
    && exists j :: 0 <= j < |H.FeedOf(runs, a.validatorId)| && Says(H.FeedOf(runs, a.validatorId)[j], a)
  }

  predicate Says(r: H.Record, a: A.Attestation) {
    && r.Attest? && r.txId == a.txId && r.authorTimestampMs == a.authorTimestampMs
    && r.acceptedAboveMs == a.acceptedAboveMs
  }

  function Validators(selected: seq<P.Evidence>): set<Bytes> {
    set i | 0 <= i < |selected| :: selected[i].validatorId
  }

  ghost predicate DistinctValidators(selected: seq<P.Evidence>) {
    forall i, j :: 0 <= i < j < |selected| ==> selected[i].validatorId != selected[j].validatorId
  }

  lemma {:induction false} ValidatorCount(selected: seq<P.Evidence>)
    ensures |Validators(selected)| <= |selected|
    ensures |Validators(selected)| == |selected| <==> DistinctValidators(selected)
  {
    if selected != [] {
      var front, last := selected[..|selected| - 1], selected[|selected| - 1];
      ValidatorCount(front);
      assert forall i :: 0 <= i < |front| ==> front[i] == selected[i];
      assert Validators(selected) == Validators(front) + {last.validatorId};
      if last.validatorId in Validators(front) {
        var i :| 0 <= i < |front| && front[i].validatorId == last.validatorId;
        assert selected[i].validatorId == selected[|front|].validatorId;
        assert Validators(selected) == Validators(front);
      } else {
        forall i | 0 <= i < |front| ensures selected[i].validatorId != last.validatorId {
          assert front[i].validatorId in Validators(front);
        }
      }
    }
  }

  /** What a counted attestation of the evidence looks like on its validator's feed. */
  lemma OnFeed(runs: H.Runs, ids: seq<Bytes>, s: Caps.Snapshot, core: A.Core, txId: Bytes, digest: Bytes,
               attestations: seq<A.Attestation>, version: int, e: P.Evidence)
    returns (j: nat)
    requires A.Attested(s, core, txId, digest, attestations, version, e)
    requires forall a :: a in attestations ==> Published(runs, ids, a)
    ensures e.validatorId in ids && e.validatorId in runs && j < |H.FeedOf(runs, e.validatorId)|
    ensures var r := H.FeedOf(runs, e.validatorId)[j]; H.Accepted(r) && r.authorTimestampMs == core.authorTimestampMs
  {
    hide H.FeedOf;
    var a :| a in attestations && a.policyVersion == version && A.EvidenceFor(s, a, core, txId, digest) == P.Some(e);
    assert Published(runs, ids, a);
    j :| 0 <= j < |H.FeedOf(runs, a.validatorId)| && Says(H.FeedOf(runs, a.validatorId)[j], a);
  }

  /** The validators behind a satisfied admission proof prove the transaction's timestamp on their
      feeds; they are as many as the selected capabilities exactly when no validator holds two of
      them. */
  lemma SelectionProves(
      runs: H.Runs, ids: seq<Bytes>, s: Caps.Snapshot, core: A.Core, txId: Bytes, digest: Bytes,
      attestations: seq<A.Attestation>, version: int, p: P.Policy, items: seq<P.Evidence>, evaluation: S.Evaluation)
    returns (proof: H.Proof)
    requires S.Ascending(items) && S.IsEvaluation(p, items, evaluation) && evaluation.satisfied
    requires forall e :: e in items ==> A.Attested(s, core, txId, digest, attestations, version, e)
    requires forall a :: a in attestations ==> Published(runs, ids, a)
    ensures H.Proves(runs, ids, proof, core.authorTimestampMs) && proof.Keys == Validators(evaluation.selected)
    ensures |proof| == |evaluation.selected| <==> DistinctValidators(evaluation.selected)
    ensures |evaluation.selected| >= p.minimumValidators
  {
    hide H.FeedOf, S.IsEvaluation, A.Attested, Published, A.Backed, S.Ascending, DistinctValidators, H.Accepted;
    A.SatisfiedProofMeans(s, core, txId, digest, attestations, version, p, items, evaluation);
    SelectedAttested(s, core, txId, digest, attestations, version, p, items, evaluation);
    proof := FeedPositions(runs, ids, s, core, txId, digest, attestations, version, evaluation.selected);
    ValidatorCount(evaluation.selected);
    assert |proof| == |proof.Keys|;
  }

  lemma SelectedAttested(
      s: Caps.Snapshot, core: A.Core, txId: Bytes, digest: Bytes,
      attestations: seq<A.Attestation>, version: int, p: P.Policy, items: seq<P.Evidence>, evaluation: S.Evaluation)
    requires S.IsEvaluation(p, items, evaluation) && evaluation.satisfied
    requires forall e :: e in items ==> A.Attested(s, core, txId, digest, attestations, version, e)
    ensures forall e :: e in evaluation.selected ==> A.Attested(s, core, txId, digest, attestations, version, e)
  {
    hide A.Attested, S.Picks, S.SelectionBefore;
    S.PickedAreItems(items, |items|, evaluation.selected);
    assert items[..|items|] == items;
  }

  lemma {:induction false} FeedPositions(
      runs: H.Runs, ids: seq<Bytes>, s: Caps.Snapshot, core: A.Core, txId: Bytes, digest: Bytes,
      attestations: seq<A.Attestation>, version: int, selected: seq<P.Evidence>)
    returns (proof: H.Proof)
    requires forall e :: e in selected ==> A.Attested(s, core, txId, digest, attestations, version, e)
    requires forall a :: a in attestations ==> Published(runs, ids, a)
    ensures H.Proves(runs, ids, proof, core.authorTimestampMs) && proof.Keys == Validators(selected)
  {
    hide H.FeedOf, A.Attested, Published, H.Accepted;
    proof := map[];
    if selected != [] {
      var front, last := selected[..|selected| - 1], selected[|selected| - 1];
      assert forall e :: e in front ==> e in selected;
      var before := FeedPositions(runs, ids, s, core, txId, digest, attestations, version, front);
      var j := OnFeed(runs, ids, s, core, txId, digest, attestations, version, last);
      proof := before[last.validatorId := j];
      assert forall i :: 0 <= i < |front| ==> front[i] == selected[i];
      assert Validators(selected) == Validators(front) + {last.validatorId};
    }
  }

  /** So a transaction at or below a k-of-n watermark that a policy of at least k validators admits,
      with no validator counted twice, was attested by one of them before the heartbeat that the
      watermark counts for it. */
  lemma AdmittedBelowWatermark(
      runs: H.Runs, ids: seq<Bytes>, s: Caps.Snapshot, core: A.Core, txId: Bytes, digest: Bytes,
      attestations: seq<A.Attestation>, version: int, p: P.Policy, items: seq<P.Evidence>, evaluation: S.Evaluation,
      beats: W.Heartbeats, k: int, cutoff: int)
    returns (proof: H.Proof, v: Bytes)
    requires S.Ascending(items) && S.IsEvaluation(p, items, evaluation) && evaluation.satisfied
    requires forall e :: e in items ==> A.Attested(s, core, txId, digest, attestations, version, e)
    requires forall a :: a in attestations ==> Published(runs, ids, a)
    requires DistinctValidators(evaluation.selected) && 1 <= k <= p.minimumValidators
    requires H.FromFeeds(runs, beats) && W.IsWatermark(beats, W.KSubsets(ids, k), M.Some(cutoff))
    requires core.authorTimestampMs <= cutoff
    ensures H.Proves(runs, ids, proof, core.authorTimestampMs) && v in Validators(evaluation.selected)
    ensures H.SignedBefore(runs, beats, proof, v)
    ensures H.WaitsIn(runs, v) ==> H.PublishedBefore(runs, beats, proof, v)
  {
    hide H.FeedOf, S.IsEvaluation, A.Attested, Published, S.Ascending, DistinctValidators, H.FromFeeds, W.IsWatermark,
      H.Proves,
      H.WaitsIn, H.PublishedBefore;
    proof := SelectionProves(runs, ids, s, core, txId, digest, attestations, version, p, items, evaluation);
    v := H.HistoryClosed(runs, beats, ids, k, cutoff, proof, core.authorTimestampMs);
  }
}
