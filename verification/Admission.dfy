/** Admission proofs: which attestations count, and what a satisfied proof establishes. */
module Admission {
  import opened Bytes
  import Caps = Capabilities
  import P = Policy
  import opened PolicySolver

  datatype Core = Core(groupId: Bytes, membershipRevision: Bytes, validationPolicy: Bytes, authorTimestampMs: int)

  datatype Attestation = Attestation(
    groupId: Bytes, membershipRevision: Bytes, validatorCapability: Bytes, txId: Bytes, validatorId: Bytes,
    authorTimestampMs: int, acceptedAboveMs: int, candidateDigest: Bytes, policyVersion: int)

  datatype Reason = UnknownPolicy | WrongPolicyVersion | InvalidContext

  datatype Assembled =
    | NoPolicy(rejected: seq<Reason>)
    | BadThreshold
    | Evaluated(evaluation: Evaluation, considered: nat, rejected: seq<Reason>)

  /** The attestation speaks about this candidate at this revision, above its own cutoff. */
  predicate InContext(s: Caps.Snapshot, a: Attestation, core: Core, txId: Bytes, digest: Bytes) {
    && a.groupId == s.groupId && core.groupId == s.groupId
    && a.membershipRevision == s.revisionDigest && core.membershipRevision == s.revisionDigest
    && a.txId == txId && a.candidateDigest == digest
    && a.authorTimestampMs == core.authorTimestampMs && a.authorTimestampMs > a.acceptedAboveMs
  }

  /** The capability it names is an active validator's, for its key, above its floor. */
  predicate ByValidator(s: Caps.Snapshot, a: Attestation, core: Core) {
    && a.validatorCapability in s.capabilities && Caps.Active(s.capabilities[a.validatorCapability], s.revision)
    && var grant := s.capabilities[a.validatorCapability].grant;
       grant.role.Validator? && grant.signingPublicKey == a.validatorId
       && core.authorTimestampMs > Caps.OrElse(grant.minimumAuthorTimestampMs, -1)
  }

  function Convert(o: Caps.Option<string>): P.Option<string> { if o.None? then P.None else P.Some(o.value) }

  /** `validatorEvidenceForAttestation`. */
  function EvidenceFor(s: Caps.Snapshot, a: Attestation, core: Core, txId: Bytes, digest: Bytes): P.Option<P.Evidence> {
    if !InContext(s, a, core, txId, digest) || !ByValidator(s, a, core) then P.None
    else
      var c := s.capabilities[a.validatorCapability];
      P.Some(P.Evidence(c.id, a.validatorId, Convert(c.grant.organization), Convert(c.grant.validatorClass)))
  }

  function PolicyOf(p: Caps.ValidationPolicy): P.Policy {
    P.Policy(p.minimumValidators, p.classMinimums, p.requiredOrganizations)
  }

  /** The evidence comes from a counted attestation of the right policy version. */
  ghost predicate Attested(
      s: Caps.Snapshot, core: Core, txId: Bytes, digest: Bytes, attestations: seq<Attestation>, version: int,
      e: P.Evidence)
  {
    exists a :: a in attestations && a.policyVersion == version && EvidenceFor(s, a, core, txId, digest) == P.Some(e)
  }

  // ---- what counts, and what meets a policy, in terms of the snapshot's grants

  /** The attestation counts towards this candidate under this version of its policy. */
  predicate Counts(s: Caps.Snapshot, core: Core, txId: Bytes, digest: Bytes, version: int, a: Attestation) {
    a.policyVersion == version && InContext(s, a, core, txId, digest) && ByValidator(s, a, core)
  }

  /** The capabilities with an attestation that counts. */
  function Counting(s: Caps.Snapshot, core: Core, txId: Bytes, digest: Bytes, version: int,
      attestations: seq<Attestation>): set<Bytes>
  {
    set a | a in attestations && Counts(s, core, txId, digest, version, a) :: a.validatorCapability
  }

  /** These capabilities are granted with what the policy asks for. */
  ghost predicate Meets(s: Caps.Snapshot, policy: Caps.ValidationPolicy, ids: set<Bytes>)
    requires ids <= s.capabilities.Keys
  {
    && |ids| >= policy.minimumValidators
    && (forall c :: c in policy.classMinimums ==> |OfClass(s, ids, c.0)| >= c.1)
    && (forall o :: o in policy.requiredOrganizations ==> OfOrganization(s, ids, o) != {})
  }

  ghost function OfClass(s: Caps.Snapshot, ids: set<Bytes>, name: string): set<Bytes>
    requires ids <= s.capabilities.Keys
  {
    set id | id in ids && s.capabilities[id].grant.validatorClass == Caps.Some(name)
  }

  ghost function OfOrganization(s: Caps.Snapshot, ids: set<Bytes>, name: string): set<Bytes>
    requires ids <= s.capabilities.Keys
  {
    set id | id in ids && s.capabilities[id].grant.organization == Caps.Some(name)
  }

  /** Why the attestations that do not count were turned down, in their order. */
  function Reasons(s: Caps.Snapshot, core: Core, txId: Bytes, digest: Bytes, version: int,
      attestations: seq<Attestation>): seq<Reason>
  {
    if attestations == [] then []
    else
      var a := attestations[|attestations| - 1];
      Reasons(s, core, txId, digest, version, attestations[..|attestations| - 1])
      + if a.policyVersion != version then [WrongPolicyVersion]
        else if Counts(s, core, txId, digest, version, a) then [] else [InvalidContext]
  }

  /** The proof is satisfied exactly when the counting capabilities meet the policy. Then what it
      selects meets it as well, and no fewer of them would. */
  ghost predicate Decides(s: Caps.Snapshot, policy: Caps.ValidationPolicy, counting: set<Bytes>, e: Evaluation)
    requires counting <= s.capabilities.Keys
  {
    && (e.satisfied <==> Meets(s, policy, counting))
    && (e.satisfied ==>
          && Selected(e) <= counting && |Selected(e)| == |e.selected| && Meets(s, policy, Selected(e))
          && forall ids :: ids <= counting && Meets(s, policy, ids) ==> |ids| >= |e.selected|)
    && (!e.satisfied ==> e.selected == [] && forall x :: x in e.missing <==> IsShort(s, policy, counting, x))
  }

  /** What the policy asks for and these capabilities are not granted with, and by how much. */
  ghost predicate IsShort(s: Caps.Snapshot, policy: Caps.ValidationPolicy, ids: set<Bytes>, x: P.Lack)
    requires ids <= s.capabilities.Keys
  {
    match x
    case LackValidators(short) => short > 0 && |ids| + short == policy.minimumValidators
    case LackClass(name, short) => short > 0 && (name, short + |OfClass(s, ids, name)|) in policy.classMinimums
    case LackOrganization(name) => name in policy.requiredOrganizations && OfOrganization(s, ids, name) == {}
  }

  ghost function Selected(e: Evaluation): set<Bytes> { IdSet(e.selected) }

  ghost function IdSet(t: seq<P.Evidence>): set<Bytes> { set x | x in t :: x.capabilityId }

  /** `assembleAdmissionProof`: every attestation is counted or rejected; the evidence is exactly
      that of the counted ones, reduced to one item for each capability; and the proof is the
      least selection of it that meets the policy, if any does. */
  method AssembleAdmissionProof(s: Caps.Snapshot, core: Core, txId: Bytes, digest: Bytes,
      attestations: seq<Attestation>)
    returns (r: Assembled, ghost items: seq<P.Evidence>)
    ensures r.NoPolicy? <==> core.validationPolicy !in s.policies
    ensures r.NoPolicy? ==> |r.rejected| == |attestations|
    ensures r.Evaluated? ==> r.considered + |r.rejected| == |attestations|
    ensures r.Evaluated? && Caps.Keyed(s.capabilities) ==>
              var policy := s.policies[core.validationPolicy].policy;
              && r.rejected == Reasons(s, core, txId, digest, policy.version, attestations)
              && Decides(s, policy, Counting(s, core, txId, digest, policy.version, attestations), r.evaluation)
    ensures core.validationPolicy in s.policies ==>
              var policy := s.policies[core.validationPolicy].policy;
              && (r.BadThreshold? <==> policy.minimumValidators <= 0)
              && (r.Evaluated? ==> IsEvaluation(PolicyOf(policy), items, r.evaluation))
              && (forall e :: e in items ==> Attested(s, core, txId, digest, attestations, policy.version, e))
              && (forall a ::
                    a in attestations && a.policyVersion == policy.version
                    && EvidenceFor(s, a, core, txId, digest).Some? ==>
                    exists e ::
                      e in items && e.capabilityId == EvidenceFor(s, a, core, txId, digest).value.capabilityId)
  {
    hide EvidenceFor, IsUnique, IsEvaluation, Counts, Decides;
    items := [];
    if core.validationPolicy !in s.policies {
      return NoPolicy(seq(|attestations|, _ => UnknownPolicy)), items;
    }
    var policy := s.policies[core.validationPolicy].policy;
    var evidence: seq<P.Evidence> := [];
    var rejected: seq<Reason> := [];
    for i := 0 to |attestations|
      invariant |evidence| + |rejected| == i
      invariant rejected == Reasons(s, core, txId, digest, policy.version, attestations[..i])
      invariant forall e :: e in evidence ==> Attested(s, core, txId, digest, attestations, policy.version, e)
      invariant forall j ::
                0 <= j < i && attestations[j].policyVersion == policy.version
                && EvidenceFor(s, attestations[j], core, txId, digest).Some? ==>
                  EvidenceFor(s, attestations[j], core, txId, digest).value in evidence
    {
      var a := attestations[i];
      assert attestations[..i + 1][..i] == attestations[..i];
      CountedHasEvidence(s, core, txId, digest, policy.version, a);
      if a.policyVersion != policy.version {
        rejected := rejected + [WrongPolicyVersion];
        continue;
      }
      var item := EvidenceFor(s, a, core, txId, digest);
      if item.None? {
        rejected := rejected + [InvalidContext];
      } else {
        assert a in attestations;
        assert Attested(s, core, txId, digest, attestations, policy.version, item.value);
        evidence := evidence + [item.value];
      }
    }
    var result;
    result, items := EvaluateValidationPolicy(PolicyOf(policy), evidence);
    UniqueMembers(evidence, items);
    if result.ThresholdNotPositive? { return BadThreshold, items; }
    assert attestations[..|attestations|] == attestations;
    UniqueAscends(evidence, items);
    if Caps.Keyed(s.capabilities) {
      ItemsAreCounted(s, core, txId, digest, policy.version, attestations, items);
      EvaluationDecides(s, policy, Counting(s, core, txId, digest, policy.version, attestations), items,
          result.evaluation);
    }
    return Evaluated(result.evaluation, |evidence|, rejected), items;
  }

  lemma CountedHasEvidence(s: Caps.Snapshot, core: Core, txId: Bytes, digest: Bytes, version: int, a: Attestation)
    ensures a.policyVersion == version ==>
              (EvidenceFor(s, a, core, txId, digest).Some? <==> Counts(s, core, txId, digest, version, a))
    ensures Counts(s, core, txId, digest, version, a) && Caps.Keyed(s.capabilities) ==>
              && a.validatorCapability in s.capabilities
              && EvidenceFor(s, a, core, txId, digest) == P.Some(EvidenceOf(s, a.validatorCapability))
  {
  }

  /** What an attestation under this capability is evidence of: the grant's own key, organization
      and class. */
  function EvidenceOf(s: Caps.Snapshot, id: Bytes): (e: P.Evidence)
    requires id in s.capabilities
    ensures e.capabilityId == id
    ensures forall name :: e.organization == P.Some(name) <==>
              s.capabilities[id].grant.organization == Caps.Some(name)
    ensures forall name :: e.validatorClass == P.Some(name) <==>
              s.capabilities[id].grant.validatorClass == Caps.Some(name)
  {
    var grant := s.capabilities[id].grant;
    P.Evidence(id, grant.signingPublicKey, Convert(grant.organization), Convert(grant.validatorClass))
  }

  /** One item for each of these capabilities, as granted. */
  ghost predicate ItemsOf(s: Caps.Snapshot, ids: set<Bytes>, items: seq<P.Evidence>)
    requires ids <= s.capabilities.Keys
  {
    && Ascending(items) && IdSet(items) == ids
    && forall x :: x in items ==> x.capabilityId in s.capabilities && x == EvidenceOf(s, x.capabilityId)
  }

  lemma UniqueAscends(evidence: seq<P.Evidence>, items: seq<P.Evidence>)
    requires IsUnique(evidence, items)
    ensures Ascending(items)
  {
    hide Ascending;
  }

  lemma ItemsAreCounted(s: Caps.Snapshot, core: Core, txId: Bytes, digest: Bytes, version: int,
      attestations: seq<Attestation>, items: seq<P.Evidence>)
    requires Caps.Keyed(s.capabilities) && Ascending(items)
    requires forall e :: e in items ==> Attested(s, core, txId, digest, attestations, version, e)
    requires forall a ::
               a in attestations && a.policyVersion == version && EvidenceFor(s, a, core, txId, digest).Some? ==>
               exists e :: e in items && e.capabilityId == EvidenceFor(s, a, core, txId, digest).value.capabilityId
    ensures Counting(s, core, txId, digest, version, attestations) <= s.capabilities.Keys
    ensures ItemsOf(s, Counting(s, core, txId, digest, version, attestations), items)
  {
    hide EvidenceFor, Counts, Ascending;
    var counting := Counting(s, core, txId, digest, version, attestations);
    forall id | id in counting ensures id in s.capabilities && id in IdSet(items) {
      var a :| a in attestations && Counts(s, core, txId, digest, version, a) && a.validatorCapability == id;
      CountedHasEvidence(s, core, txId, digest, version, a);
      CountsVersion(s, core, txId, digest, version, a);
    }
    forall x | x in items
      ensures x.capabilityId in s.capabilities && x == EvidenceOf(s, x.capabilityId) && x.capabilityId in counting
    {
      assert Attested(s, core, txId, digest, attestations, version, x);
      var a :| a in attestations && a.policyVersion == version && EvidenceFor(s, a, core, txId, digest) == P.Some(x);
      CountedHasEvidence(s, core, txId, digest, version, a);
    }
  }

  lemma CountsVersion(s: Caps.Snapshot, core: Core, txId: Bytes, digest: Bytes, version: int, a: Attestation)
    requires Counts(s, core, txId, digest, version, a)
    ensures a.policyVersion == version
  {
  }

  lemma {:induction false} SatisfiesMeets(s: Caps.Snapshot, policy: Caps.ValidationPolicy, ids: set<Bytes>,
      t: seq<P.Evidence>)
    requires ids <= s.capabilities.Keys && ItemsOf(s, ids, t)
    ensures P.Satisfies(PolicyOf(policy), t) <==> Meets(s, policy, ids)
    ensures forall x :: P.IsShort(PolicyOf(policy), t, x) <==> IsShort(s, policy, ids, x)
    ensures |ids| == |t|
  {
    hide Ascending;
    SizeOfIds(t);
    forall name ensures P.Count(t, name) == |OfClass(s, ids, name)| { CountsClass(s, ids, t, name); }
    forall name ensures P.HasOrganization(t, name) <==> OfOrganization(s, ids, name) != {} {
      if P.HasOrganization(t, name) {
        var i :| 0 <= i < |t| && t[i].organization == P.Some(name);
        assert t[i] in t && t[i].capabilityId in OfOrganization(s, ids, name);
      }
      if OfOrganization(s, ids, name) != {} {
        var id :| id in OfOrganization(s, ids, name);
        var x :| x in t && x.capabilityId == id;
      }
    }
  }

  lemma {:induction false} SizeOfIds(t: seq<P.Evidence>)
    requires Ascending(t)
    ensures |IdSet(t)| == |t|
  {
    hide ByteOrder;
    if t != [] {
      var front, last := t[..|t| - 1], t[|t| - 1];
      SizeOfIds(front);
      LastIdIsNew(t);
      assert |IdSet(t)| == |IdSet(front)| + 1;
    }
  }

  lemma LastIdIsNew(t: seq<P.Evidence>)
    requires t != [] && Ascending(t)
    ensures var front, last := t[..|t| - 1], t[|t| - 1];
            IdSet(t) == IdSet(front) + {last.capabilityId} && last.capabilityId !in IdSet(front)
  {
    hide ByteOrder;
    var front, last := t[..|t| - 1], t[|t| - 1];
    assert t == front + [last];
    forall i | 0 <= i < |front| ensures front[i].capabilityId != last.capabilityId {
      ByteOrderZero(t[i].capabilityId, last.capabilityId);
    }
  }

  lemma {:induction false} CountsClass(s: Caps.Snapshot, ids: set<Bytes>, t: seq<P.Evidence>, name: string)
    requires ids <= s.capabilities.Keys && ItemsOf(s, ids, t)
    ensures P.Count(t, name) == |OfClass(s, ids, name)|
  {
    hide ItemsOf;
    if t == [] {
      assert ids == {} by { NoItems(s, ids); }
      assert OfClass(s, ids, name) == {};
    } else {
      var last := t[|t| - 1];
      var before := LastItem(s, ids, t);
      CountsClass(s, before, t[..|t| - 1], name);
      if last.validatorClass == P.Some(name) {
        assert OfClass(s, ids, name) == OfClass(s, before, name) + {last.capabilityId};
      } else {
        assert OfClass(s, ids, name) == OfClass(s, before, name);
      }
    }
  }

  lemma NoItems(s: Caps.Snapshot, ids: set<Bytes>)
    requires ids <= s.capabilities.Keys && ItemsOf(s, ids, [])
    ensures ids == {}
  {
  }

  lemma LastItem(s: Caps.Snapshot, ids: set<Bytes>, t: seq<P.Evidence>) returns (before: set<Bytes>)
    requires ids <= s.capabilities.Keys && ItemsOf(s, ids, t) && t != []
    ensures var last := t[|t| - 1];
            && before <= s.capabilities.Keys && last.capabilityId !in before && ids == before + {last.capabilityId}
            && ItemsOf(s, before, t[..|t| - 1]) && last == EvidenceOf(s, last.capabilityId)
  {
    hide ByteOrder;
    var front, last := t[..|t| - 1], t[|t| - 1];
    assert t == front + [last];
    before := IdSet(front);
    LastIdIsNew(t);
  }

  lemma PickedItems(s: Caps.Snapshot, counting: set<Bytes>, items: seq<P.Evidence>, t: seq<P.Evidence>)
    requires counting <= s.capabilities.Keys && ItemsOf(s, counting, items) && Picks(items, |items|, t)
    ensures IdSet(t) <= counting && ItemsOf(s, IdSet(t), t)
  {
    hide Ascending, Picks;
    PickedAreItems(items, |items|, t);
    assert items[..|items|] == items;
    PicksAscend(items, |items|, t);
    forall id | id in IdSet(t) ensures id in counting {
      var x :| x in t && x.capabilityId == id;
      assert x in items;
    }
  }

  lemma EvaluationDecides(s: Caps.Snapshot, policy: Caps.ValidationPolicy, counting: set<Bytes>, items: seq<P.Evidence>,
      e: Evaluation)
    requires counting <= s.capabilities.Keys && ItemsOf(s, counting, items)
    requires IsEvaluation(PolicyOf(policy), items, e)
    ensures Decides(s, policy, counting, e)
  {
    hide Ascending, Picks, P.Satisfies, Meets, ItemsOf, IsShort, P.IsShort, P.Missing;
    var p := PolicyOf(policy);
    forall ids | ids <= counting && Meets(s, policy, ids)
      ensures e.satisfied && |ids| >= |e.selected|
    {
      var t := PickIds(s, counting, items, ids);
      SatisfiesMeets(s, policy, ids, t);
      assert Picks(items, |items|, t) && P.Satisfies(p, t);
    }
    if !e.satisfied {
      SatisfiesMeets(s, policy, counting, items);
      forall x ensures x in e.missing <==> IsShort(s, policy, counting, x) { P.MissingExact(p, items, x); }
    }
    if e.satisfied {
      PickedItems(s, counting, items, e.selected);
      SatisfiesMeets(s, policy, Selected(e), e.selected);
      MeetsMore(s, policy, Selected(e), counting);
    }
  }

  lemma SubsetSmaller<T>(few: set<T>, many: set<T>)
    requires few <= many
    ensures |few| <= |many|
  {
    assert many == few + (many - few);
  }

  lemma MeetsMore(s: Caps.Snapshot, policy: Caps.ValidationPolicy, few: set<Bytes>, many: set<Bytes>)
    requires few <= many <= s.capabilities.Keys && Meets(s, policy, few)
    ensures Meets(s, policy, many)
  {
    SubsetSmaller(few, many);
    forall c | c in policy.classMinimums ensures |OfClass(s, many, c.0)| >= c.1 {
      SubsetSmaller(OfClass(s, few, c.0), OfClass(s, many, c.0));
    }
    forall o | o in policy.requiredOrganizations ensures OfOrganization(s, many, o) != {} {
      var id :| id in OfOrganization(s, few, o);
      assert id in OfOrganization(s, many, o);
    }
  }

  /** Any of the counting capabilities can be selected together. */
  lemma PickIds(s: Caps.Snapshot, counting: set<Bytes>, items: seq<P.Evidence>, ids: set<Bytes>)
    returns (t: seq<P.Evidence>)
    requires ids <= counting <= s.capabilities.Keys && ItemsOf(s, counting, items)
    ensures Picks(items, |items|, t) && ItemsOf(s, ids, t)
  {
    hide Ascending, Picks;
    var chosen := set x | x in items && x.capabilityId in ids;
    assert items[..|items|] == items;
    t := EverySubsetIsPicked(items, |items|, chosen);
    PickedItems(s, counting, items, t);
    forall id | id in ids ensures id in IdSet(t) {
      assert id in IdSet(items);
      var x :| x in items && x.capabilityId == id;
      assert x in Members(t);
    }
    forall id | id in IdSet(t) ensures id in ids {
      var x :| x in t && x.capabilityId == id;
      assert x in Members(t);
    }
    assert IdSet(t) == ids;
  }

  lemma UniqueMembers(evidence: seq<P.Evidence>, items: seq<P.Evidence>)
    requires IsUnique(evidence, items)
    ensures forall e :: e in items ==> e in evidence
    ensures forall e :: e in evidence ==> exists x :: x in items && x.capabilityId == e.capabilityId
  {
    hide Ascending;
    assert forall e :: e in items ==> Represents(evidence, e);
  }

  /** An attestation vouches for one candidate: it counts for no other transaction, content, time,
      group or membership revision. */
  lemma VouchesForOne(s: Caps.Snapshot, core: Core, txId: Bytes, digest: Bytes, t: Caps.Snapshot, other: Core,
      otherId: Bytes, otherDigest: Bytes, version: int, a: Attestation)
    requires Counts(s, core, txId, digest, version, a) && Counts(t, other, otherId, otherDigest, version, a)
    ensures txId == otherId && digest == otherDigest && core.authorTimestampMs == other.authorTimestampMs
    ensures core.groupId == other.groupId == s.groupId == t.groupId
    ensures core.membershipRevision == other.membershipRevision == s.revisionDigest == t.revisionDigest
  {
  }

  /** A satisfied proof rests on at least the policy's number of different active validator
      capabilities, each with an attestation above its own acceptance cutoff. */
  lemma SatisfiedProofMeans(
      s: Caps.Snapshot, core: Core, txId: Bytes, digest: Bytes, attestations: seq<Attestation>, version: int,
      p: P.Policy, items: seq<P.Evidence>, evaluation: Evaluation)
    requires Ascending(items) && IsEvaluation(p, items, evaluation) && evaluation.satisfied
    requires forall e :: e in items ==> Attested(s, core, txId, digest, attestations, version, e)
    ensures |evaluation.selected| >= p.minimumValidators
    ensures forall i, j :: 0 <= i < j < |evaluation.selected| ==>
              evaluation.selected[i].capabilityId != evaluation.selected[j].capabilityId
    ensures forall e :: e in evaluation.selected ==> Backed(s, core, txId, digest, attestations, e)
  {
    hide InContext, ByValidator, Picks, SelectionBefore, Backed;
    PickedAreItems(items, |items|, evaluation.selected);
    assert items[..|items|] == items;
    PicksAscend(items, |items|, evaluation.selected);
    forall i, j | 0 <= i < j < |evaluation.selected|
      ensures evaluation.selected[i].capabilityId != evaluation.selected[j].capabilityId
    {
      ByteOrderZero(evaluation.selected[i].capabilityId, evaluation.selected[j].capabilityId);
    }
    forall e | e in evaluation.selected ensures Backed(s, core, txId, digest, attestations, e) {
      assert Attested(s, core, txId, digest, attestations, version, e);
      var a :| a in attestations && a.policyVersion == version && EvidenceFor(s, a, core, txId, digest) == P.Some(e);
      CountedMeans(s, core, txId, digest, attestations, a, e);
    }
  }

  /** Some attestation in context, by an active validator, names this capability. */
  ghost predicate Backed(s: Caps.Snapshot, core: Core, txId: Bytes, digest: Bytes, attestations: seq<Attestation>,
      e: P.Evidence)
  {
    exists a :: a in attestations && InContext(s, a, core, txId, digest) && ByValidator(s, a, core)
      && s.capabilities[a.validatorCapability].id == e.capabilityId
  }

  lemma CountedMeans(s: Caps.Snapshot, core: Core, txId: Bytes, digest: Bytes, attestations: seq<Attestation>,
      a: Attestation, e: P.Evidence)
    requires a in attestations && EvidenceFor(s, a, core, txId, digest) == P.Some(e)
    ensures Backed(s, core, txId, digest, attestations, e)
  {
  }

  lemma {:induction false} PicksAscend(items: seq<P.Evidence>, n: nat, t: seq<P.Evidence>)
    requires n <= |items| && Ascending(items) && Picks(items, n, t)
    ensures Ascending(t)
  {
    hide ByteOrder;
    if n > 0 && !Picks(items, n - 1, t) {
      var front := t[..|t| - 1];
      PicksAscend(items, n - 1, front);
      PickedAreItems(items, n - 1, front);
      forall i, j | 0 <= i < j < |t| ensures ByteOrder(t[i].capabilityId, t[j].capabilityId) < 0 {
        if j < |front| {
          assert t[i] == front[i] && t[j] == front[j];
        } else {
          assert t[i] == front[i] && front[i] in front && front[i] in items[..n - 1];
          var k :| 0 <= k < n - 1 && items[k] == t[i];
        }
      }
    } else if n > 0 {
      PicksAscend(items, n - 1, t);
    }
  }
}
