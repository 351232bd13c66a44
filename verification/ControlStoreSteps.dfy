/** What each operation of the control store brings about, and from that who is in the order, which
    attestations are held and which heartbeat counts after any run. */
module ControlStoreSteps {
  import opened Bytes
  import opened Order
  import opened Sequences
  import opened ControlStoreModel
  import opened ControlStoreLaws

  // ---- one operation

  /** `after` is `before` with one id put in somewhere. */
  ghost predicate Inserted(before: seq<Bytes>, after: seq<Bytes>, id: Bytes) {
    exists k :: 0 <= k <= |before| && after == before[..k] + [id] + before[k..]
  }

  /** What only admission operations touch. */
  ghost predicate SameEvidence(s: Store, t: Store) {
    t.attestations == s.attestations && t.heartbeats == s.heartbeats
  }

  /** A candidate waits for its payload, then for validation, and is then admitted or ends in one of
      the three invalid states; admitted and invalid are final. */
  lemma TransitionsExact(previous: CandidateState, next: CandidateState)
    ensures TransitionError(previous, next).None? <==>
              || next == previous
              || (previous.PendingValidation? && !next.WaitingForPayload?)
              || (previous.WaitingForPayload? && next !in {WaitingForPayload, Admissible})
    ensures TransitionError(previous, next) == Some(AdmissionNotMonotonic) <==>
              previous.Admissible? && !next.Admissible?
    ensures TransitionError(previous, next) == Some(PayloadNotVerified) <==>
              previous.WaitingForPayload? && next.Admissible?
    ensures TransitionError(previous, next) == Some(PayloadStateRegression) <==>
              previous.PendingValidation? && next.WaitingForPayload?
    ensures TransitionError(previous, next) == Some(TerminalState) <==>
              previous in {InvalidProtocol, Unauthorized, Quarantined} && next != previous
  {
  }

  lemma InsertOrderMeans(s: Store, c: Candidate)
    requires OrderKnown(s) && InsertOrder(s, c).Ok?
    ensures var t := InsertOrder(s, c).value;
            Inserted(s.order, t.order, c.txId) && t.candidates == s.candidates && SameEvidence(s, t)
  {
    hide Position;
    var k := Position(Keys(s.candidates, s.order), c.orderKey);
    assert InsertAt(s.order, k, c.txId) == s.order[..k] + [c.txId] + s.order[k..];
  }

  lemma WithCandidateMeans(s: Store, c: Candidate, change: Change)
    ensures var t := WithCandidate(s, c, change);
            t.candidates == s.candidates[c.txId := c] && t.order == s.order && SameEvidence(s, t)
  {
  }

  /** A known candidate may only be put again unchanged but for its progress, and then nothing
      happens; a new one is stored as it came, and ordered when it came admissible. */
  lemma PutMeans(s: Store, c: Candidate)
    requires Inv(s)
    ensures var r := PutCandidate(s, c);
            if c.txId in s.candidates then
              var known := s.candidates[c.txId].(state := c.state, stateReason := c.stateReason,
                                                 proofAttestationIds := c.proofAttestationIds);
              if known == c then r == Ok(s) else r == Err(CandidateConflict)
            else
              && r.Ok? && r.value.candidates == s.candidates[c.txId := c] && SameEvidence(s, r.value)
              && if c.state.Admissible? then Inserted(s.order, r.value.order, c.txId) else r.value.order == s.order
  {
    hide InsertOrder, WithCandidate, Inserted;
    PutCandidateGood(s, c);
    if c.txId !in s.candidates {
      var change := CandidateAdded(c.txId, c.state);
      WithCandidateMeans(s, c, change);
      if c.state.Admissible? { InsertOrderMeans(WithCandidate(s, c, change), c); }
    }
  }

  /** An attestation of this transaction is stored under the id. */
  ghost predicate AttestsTo(s: Store, id: Bytes, txId: Bytes) {
    exists i ::
      && 0 <= i < |s.attestations| && s.attestations[i].attestationId == id && s.attestations[i].txId == txId
      && forall j :: 0 <= j < i ==> s.attestations[j].attestationId != id
  }

  ghost predicate ProofAttested(s: Store, txId: Bytes, proof: seq<Bytes>) {
    forall i :: 0 <= i < |proof| ==> AttestsTo(s, proof[i], txId)
  }

  lemma {:induction false} FoundIsFirst(attestations: seq<Attestation>, id: Bytes) returns (i: nat)
    ensures i <= |attestations| && (i == |attestations| <==> FindAttestation(attestations, id).None?)
    ensures i < |attestations| ==>
              attestations[i].attestationId == id && FindAttestation(attestations, id) == Some(attestations[i])
    ensures forall j :: 0 <= j < i ==> attestations[j].attestationId != id
  {
    if attestations == [] || attestations[0].attestationId == id {
      return 0;
    }
    var k := FoundIsFirst(attestations[1..], id);
    assert forall j :: 0 < j <= k && j < |attestations| ==> attestations[j] == attestations[1..][j - 1];
    return k + 1;
  }

  lemma ProofMeans(s: Store, txId: Bytes, proof: seq<Bytes>)
    ensures ProofBelongs(s, txId, proof) <==> ProofAttested(s, txId, proof)
  {
    hide FindAttestation;
    forall i | 0 <= i < |proof|
      ensures AttestsTo(s, proof[i], txId) <==>
                FindAttestation(s.attestations, proof[i]).Some?
                && FindAttestation(s.attestations, proof[i]).value.txId == txId
    {
      var k := FoundIsFirst(s.attestations, proof[i]);
      if AttestsTo(s, proof[i], txId) {
        var j :| 0 <= j < |s.attestations| && s.attestations[j].attestationId == proof[i]
                 && s.attestations[j].txId == txId
                 && forall m :: 0 <= m < j ==> s.attestations[m].attestationId != proof[i];
        assert j == k;
      }
    }
  }

  /** The proof a state change leaves behind. */
  function ProofAfter(c: Candidate, proof: Option<seq<Bytes>>): seq<Bytes> {
    if proof.Some? then proof.value else c.proofAttestationIds
  }

  /** A state change succeeds exactly when the transition is allowed and the proof names stored
      attestations of this transaction. It sets state, proof and reason of this candidate, orders it
      when it becomes admissible, and touches nothing else. */
  lemma SetMeans(s: Store, txId: Bytes, state: CandidateState, proof: Option<seq<Bytes>>, reason: Option<string>)
    requires Inv(s)
    ensures var r := SetCandidateState(s, txId, state, proof, reason);
            if txId !in s.candidates then r == Err(UnknownCandidate)
            else
              var c := s.candidates[txId];
              if TransitionError(c.state, state).Some? then r == Err(TransitionError(c.state, state).value)
              else if !ProofAttested(s, txId, ProofAfter(c, proof)) then r == Err(InvalidAdmissionProof)
              else
                && r.Ok? && SameEvidence(s, r.value)
                && r.value.candidates == s.candidates[
                     txId := c.(state := state, proofAttestationIds := ProofAfter(c, proof),
                                stateReason := if reason.Some? then reason else c.stateReason)]
                && if !c.state.Admissible? && state.Admissible? then Inserted(s.order, r.value.order, txId)
                   else r.value.order == s.order
  {
    hide InsertOrder, WithCandidate, Inserted, ProofAttested, ProofBelongs, Inv, Good, OrderKnown, TransitionError;
    hide Tells;
    InvParts(s);
    if txId in s.candidates {
      var c := s.candidates[txId];
      ProofMeans(s, txId, ProofAfter(c, proof));
      var next := c.(state := state, proofAttestationIds := ProofAfter(c, proof),
                     stateReason := if reason.Some? then reason else c.stateReason);
      var change := CandidateStateChanged(txId, c.state, state, reason);
      WithCandidateMeans(s, next, change);
      if TransitionError(c.state, state).None? {
        StateChangeTells(s, next, reason);
        StateChangeGood(s, next, change);
        if !c.state.Admissible? && state.Admissible? { InsertOrderMeans(WithCandidate(s, next, change), next); }
      }
    }
  }

  /** The evaluator decides: a pending candidate whose evaluation goes through is admissible
      afterwards exactly when the evaluator admits it, asked with this candidate and exactly the
      attestations stored for it. Admitted, it is in the order with the proof it was given; not
      admitted, the order stays. */
  lemma EvaluateMeans(s: Store, txId: Bytes, evaluator: (Candidate, seq<Attestation>) -> Evaluation)
    requires Inv(s)
    ensures var r := EvaluateAdmission(s, txId, evaluator);
            if txId !in s.candidates then r == Err(UnknownCandidate)
            else if s.candidates[txId].state.Admissible? then r == Ok(s)
            else if !s.candidates[txId].state.PendingValidation? then r == Err(CandidateNotAdmissionEligible)
            else
              var c := s.candidates[txId];
              var answer := evaluator(c, AttestationsFor(s.attestations, txId));
              && (r.Ok? <==> ProofAttested(s, txId, ProofAfter(c, answer.proof)))
              && (r.Err? ==> r == Err(InvalidAdmissionProof))
              && (r.Ok? ==>
                    && (IsAdmissible(r.value, txId) <==> answer.admit)
                    && r.value.candidates[txId].proofAttestationIds == ProofAfter(c, answer.proof)
                    && (if answer.admit then Inserted(s.order, r.value.order, txId) else r.value.order == s.order)
                    && (forall id :: id != txId ==> (id in r.value.order <==> id in s.order)))
  {
    hide SetCandidateState, Inserted, ProofAttested, Inv;
    InvParts(s);
    if txId in s.candidates && s.candidates[txId].state.PendingValidation? {
      var c := s.candidates[txId];
      var answer := evaluator(c, AttestationsFor(s.attestations, txId));
      SetMeans(s, txId, if answer.admit then Admissible else PendingValidation, answer.proof, answer.reason);
      var r := EvaluateAdmission(s, txId, evaluator);
      if r.Ok? && answer.admit { InsertedIds(s.order, r.value.order, txId); }
    }
  }

  lemma InsertedIds(before: seq<Bytes>, after: seq<Bytes>, id: Bytes)
    requires Inserted(before, after, id)
    ensures forall x :: x in after <==> x in before || x == id
  {
    var k :| 0 <= k <= |before| && after == before[..k] + [id] + before[k..];
    assert before == before[..k] + before[k..];
  }

  /** A new attestation is stored behind the others; a stored one may only be put again unchanged. */
  lemma AttestMeans(s: Store, a: Attestation)
    ensures var r := PutAttestation(s, a);
            && (r.Err? <==> exists i :: 0 <= i < |s.attestations| && s.attestations[i] != a
                                        && AttestsFirst(s, i, a.attestationId))
            && (r.Err? ==> r == Err(AttestationConflict))
            && (r.Ok? && r.value != s ==>
                  && r.value.attestations == s.attestations + [a] && r.value.candidates == s.candidates
                  && r.value.order == s.order && r.value.heartbeats == s.heartbeats)
            && (r == Ok(s) ==> a in s.attestations)
            && (r.Ok? && a !in s.attestations ==> r.value.attestations == s.attestations + [a])
  {
    hide FindAttestation;
    var k := FoundIsFirst(s.attestations, a.attestationId);
    if k < |s.attestations| { assert AttestsFirst(s, k, a.attestationId); }
    forall i | 0 <= i < |s.attestations| && AttestsFirst(s, i, a.attestationId) ensures i == k {}
  }

  ghost predicate AttestsFirst(s: Store, i: int, id: Bytes) {
    && 0 <= i < |s.attestations| && s.attestations[i].attestationId == id
    && forall j :: 0 <= j < i ==> s.attestations[j].attestationId != id
  }

  /** A heartbeat takes the place of the one held for its validator and revision exactly when it is
      the first or lies further on the feed without lowering the cutoff; earlier ones are passed
      over, and a lower cutoff or another heartbeat at the same place is refused. */
  lemma HeartbeatMeans(s: Store, h: Heartbeat)
    ensures var r, key := RecordHeartbeat(s, h), (h.membershipRevision, h.validatorId);
            && (r.Ok? ==> r.value.candidates == s.candidates && r.value.order == s.order
                          && r.value.attestations == s.attestations)
            && if key !in s.heartbeats then r.Ok? && r.value.heartbeats == s.heartbeats[key := h]
               else
                 var held := s.heartbeats[key];
                 if h.validatorFeedSequence < held.validatorFeedSequence then r == Ok(s)
                 else if h.acceptanceCutoffMs < held.acceptanceCutoffMs then r == Err(HeartbeatCutoffRegression)
                 else if h.validatorFeedSequence > held.validatorFeedSequence then
                   r.Ok? && r.value.heartbeats == s.heartbeats[key := h]
                 else if h == held then r == Ok(s) else r == Err(HeartbeatConflict)
  {
  }

  // ---- whole runs

  /** Carried out on this store, the operation admits the candidate: it is put as admissible, set to
      admissible, or pending and admitted by an evaluator. */
  ghost predicate Admits(s: Store, op: Op, id: Bytes)
    requires OrderKnown(s)
  {
    && Attempt(s, op).Ok?
    && match op
       case PutCandidateOp(c) => c.txId == id && c.state.Admissible? && id !in s.candidates
       case SetStateOp(txId, state, _, _) => txId == id && state.Admissible?
       case EvaluateOp(txId, evaluator) =>
         && txId == id && id in s.candidates && s.candidates[id].state.PendingValidation?
         && evaluator(s.candidates[id], AttestationsFor(s.attestations, id)).admit
       case _ => false
  }

  lemma StepAdmits(s: Store, op: Op, id: Bytes)
    requires Inv(s) && Attempt(s, op).Ok?
    ensures id in Attempt(s, op).value.order <==> id in s.order || Admits(s, op, id)
  {
    hide SetCandidateState, PutCandidate, EvaluateAdmission, Inserted, ProofAttested, KeysDistinct, SameEvidence;
    hide LogOk, WeaklySorted, Distinct;
    match op
    case PutCandidateOp(c) =>
      PutMeans(s, c);
      if c.txId !in s.candidates && c.state.Admissible? { InsertedIds(s.order, Attempt(s, op).value.order, c.txId); }
    case SetStateOp(txId, state, proof, reason) =>
      SetMeans(s, txId, state, proof, reason);
      if !s.candidates[txId].state.Admissible? && state.Admissible? {
        InsertedIds(s.order, Attempt(s, op).value.order, txId);
      } else {
        assert IsAdmissible(s, txId) <==> txId in s.order;
        TransitionsExact(s.candidates[txId].state, state);
      }
    case EvaluateOp(txId, evaluator) =>
      EvaluateMeans(s, txId, evaluator);
      if s.candidates[txId].state.PendingValidation? && evaluator(s.candidates[txId],
          AttestationsFor(s.attestations, txId)).admit {
        InsertedIds(s.order, Attempt(s, op).value.order, txId);
      }
    case PutAttestationOp(a) => AttestMeans(s, a);
    case HeartbeatOp(h) => HeartbeatMeans(s, h);
    case RestartOp(maximum) =>
  }

  /** The store before operation `k` of a run from nothing. */
  ghost function Moment(maximum: nat, ops: seq<Op>, k: nat): (s: Store)
    requires maximum >= 1 && k <= |ops|
    ensures Inv(s)
  {
    EmptyInv(maximum);
    Run(Empty(maximum), ops[..k])
  }

  lemma MomentNext(maximum: nat, ops: seq<Op>, k: nat)
    requires maximum >= 1 && k < |ops|
    ensures var s := Moment(maximum, ops, k);
            Moment(maximum, ops, k + 1) == if Attempt(s, ops[k]).Ok? then Attempt(s, ops[k]).value else s
  {
    hide Attempt, Inv;
    assert ops[..k + 1][..k] == ops[..k];
  }

  ghost predicate AdmittedAt(maximum: nat, ops: seq<Op>, k: nat, id: Bytes)
    requires maximum >= 1 && k < |ops|
  {
    Admits(Moment(maximum, ops, k), ops[k], id)
  }

  /** After any run a transaction is in the order exactly when some operation of it admitted it. */
  lemma {:induction false} InOrderExactly(maximum: nat, ops: seq<Op>, n: nat, id: Bytes)
    requires maximum >= 1 && n <= |ops|
    ensures id in Moment(maximum, ops, n).order <==> exists k :: 0 <= k < n && AdmittedAt(maximum, ops, k, id)
  {
    hide Attempt, Inv, Admits, Run;
    if n == 0 {
      assert ops[..0] == [];
      assert Moment(maximum, ops, 0).order == [] by { NothingYet(maximum, ops); }
    } else {
      InOrderExactly(maximum, ops, n - 1, id);
      MomentNext(maximum, ops, n - 1);
      var s := Moment(maximum, ops, n - 1);
      InvParts(s);
      if Attempt(s, ops[n - 1]).Ok? { StepAdmits(s, ops[n - 1], id); } else { RefusedAdmitsNone(s, ops[n - 1], id); }
      assert id in Moment(maximum, ops, n).order <==> id in s.order || AdmittedAt(maximum, ops, n - 1, id);
    }
  }

  lemma NothingYet(maximum: nat, ops: seq<Op>)
    requires maximum >= 1
    ensures Moment(maximum, ops, 0) == Empty(maximum)
  {
    assert ops[..0] == [];
  }

  lemma RefusedAdmitsNone(s: Store, op: Op, id: Bytes)
    requires OrderKnown(s) && Attempt(s, op).Err?
    ensures !Admits(s, op, id)
  {
  }

  /** The order of every reachable store ascends by author timestamp, whatever arrived when. */
  lemma OrderByTimestamp(s: Store, i: nat, j: nat)
    requires Inv(s) && i < j < |s.order|
    ensures s.candidates[s.order[i]].orderKey.authorTimestampMs <= s.candidates[s.order[j]].orderKey.authorTimestampMs
  {
    hide CompareKeys, LogOk, ListsAdmissible;
    var keys := Keys(s.candidates, s.order);
    assert CompareKeys(keys[i], keys[j]) <= 0;
    KeysTotallyOrdered(keys[i], keys[j]);
    TimestampFirst(keys[i], keys[j]);
  }

  ghost predicate PutAt(maximum: nat, ops: seq<Op>, k: nat, a: Attestation)
    requires maximum >= 1 && k < |ops|
  {
    ops[k] == PutAttestationOp(a) && Attempt(Moment(maximum, ops, k), ops[k]).Ok?
  }

  lemma StepAttests(s: Store, op: Op, a: Attestation)
    requires Inv(s) && Attempt(s, op).Ok?
    ensures a in Attempt(s, op).value.attestations <==> a in s.attestations || op == PutAttestationOp(a)
  {
    hide SetCandidateState, PutCandidate, EvaluateAdmission, Inserted, ProofAttested, KeysDistinct;
    hide LogOk, WeaklySorted, Distinct, PutAttestation;
    match op
    case PutCandidateOp(c) => PutMeans(s, c);
    case SetStateOp(txId, state, proof, reason) => SetMeans(s, txId, state, proof, reason);
    case EvaluateOp(txId, evaluator) => EvaluateKeepsEvidence(s, txId, evaluator);
    case PutAttestationOp(b) => AttestMeans(s, b);
    case HeartbeatOp(h) => HeartbeatMeans(s, h);
    case RestartOp(maximum) =>
  }

  lemma EvaluateKeepsEvidence(s: Store, txId: Bytes, evaluator: (Candidate, seq<Attestation>) -> Evaluation)
    requires Inv(s) && EvaluateAdmission(s, txId, evaluator).Ok?
    ensures SameEvidence(s, EvaluateAdmission(s, txId, evaluator).value)
  {
    hide SetCandidateState, Inserted, ProofAttested, Inv;
    InvParts(s);
    var answer := evaluator(s.candidates[txId], AttestationsFor(s.attestations, txId));
    SetMeans(s, txId, if answer.admit then Admissible else PendingValidation, answer.proof, answer.reason);
  }

  /** After any run the store holds exactly the attestations that were put and accepted. */
  lemma {:induction false} HeldAttestations(maximum: nat, ops: seq<Op>, n: nat, a: Attestation)
    requires maximum >= 1 && n <= |ops|
    ensures a in Moment(maximum, ops, n).attestations <==> exists k :: 0 <= k < n && PutAt(maximum, ops, k, a)
  {
    hide Attempt, Inv, Run;
    if n == 0 {
      NothingYet(maximum, ops);
    } else {
      HeldAttestations(maximum, ops, n - 1, a);
      MomentNext(maximum, ops, n - 1);
      var s := Moment(maximum, ops, n - 1);
      InvParts(s);
      if Attempt(s, ops[n - 1]).Ok? { StepAttests(s, ops[n - 1], a); }
      assert a in Moment(maximum, ops, n).attestations <==>
               a in s.attestations || PutAt(maximum, ops, n - 1, a);
    }
  }

  type Place = (Bytes, Bytes)

  function PlaceOf(h: Heartbeat): Place { (h.membershipRevision, h.validatorId) }

  lemma StepBeats(s: Store, op: Op, place: Place)
    requires Inv(s) && Attempt(s, op).Ok?
    ensures var t := Attempt(s, op).value;
            if op.HeartbeatOp? && PlaceOf(op.heartbeat) == place
               && (place !in s.heartbeats
                   || op.heartbeat.validatorFeedSequence > s.heartbeats[place].validatorFeedSequence)
            then
              && place in t.heartbeats && t.heartbeats[place] == op.heartbeat
              && (place in s.heartbeats ==> op.heartbeat.acceptanceCutoffMs >= s.heartbeats[place].acceptanceCutoffMs)
            else
              && (place in t.heartbeats <==> place in s.heartbeats)
              && (place in t.heartbeats ==> t.heartbeats[place] == s.heartbeats[place])
  {
    hide SetCandidateState, PutCandidate, EvaluateAdmission, Inserted, ProofAttested, KeysDistinct;
    hide LogOk, WeaklySorted, Distinct, PutAttestation, RecordHeartbeat;
    match op
    case PutCandidateOp(c) => PutMeans(s, c);
    case SetStateOp(txId, state, proof, reason) => SetMeans(s, txId, state, proof, reason);
    case EvaluateOp(txId, evaluator) => EvaluateKeepsEvidence(s, txId, evaluator);
    case PutAttestationOp(b) => AttestMeans(s, b);
    case HeartbeatOp(h) => HeartbeatMeans(s, h);
    case RestartOp(maximum) =>
  }

  ghost predicate BeatAt(maximum: nat, ops: seq<Op>, k: nat, h: Heartbeat)
    requires maximum >= 1 && k < |ops|
  {
    ops[k] == HeartbeatOp(h) && Attempt(Moment(maximum, ops, k), ops[k]).Ok?
  }

  ghost predicate Ahead(held: Heartbeat, maximum: nat, ops: seq<Op>, n: nat)
    requires maximum >= 1 && n <= |ops|
  {
    forall k, h :: 0 <= k < n && BeatAt(maximum, ops, k, h) && PlaceOf(h) == PlaceOf(held) ==>
      h.validatorFeedSequence <= held.validatorFeedSequence
  }

  ghost predicate Came(held: Heartbeat, maximum: nat, ops: seq<Op>, n: nat)
    requires maximum >= 1 && n <= |ops|
  {
    exists k :: 0 <= k < n && BeatAt(maximum, ops, k, held)
  }

  /** After any run, for every validator and revision: a heartbeat is held exactly when one was
      accepted, and the one held was accepted and lies furthest on the feed of all accepted ones. */
  lemma {:induction false} HeldHeartbeat(maximum: nat, ops: seq<Op>, n: nat, place: Place)
    requires maximum >= 1 && n <= |ops|
    ensures var beats := Moment(maximum, ops, n).heartbeats;
            && (place in beats ==>
                  var held := beats[place];
                  PlaceOf(held) == place && Came(held, maximum, ops, n) && Ahead(held, maximum, ops, n))
            && (place !in beats ==>
                  forall k, h :: 0 <= k < n && BeatAt(maximum, ops, k, h) ==> PlaceOf(h) != place)
  {
    hide Attempt, Inv, Run;
    if n == 0 {
      NothingYet(maximum, ops);
    } else {
      HeldHeartbeat(maximum, ops, n - 1, place);
      MomentNext(maximum, ops, n - 1);
      var s := Moment(maximum, ops, n - 1);
      InvParts(s);
      if Attempt(s, ops[n - 1]).Ok? {
        StepBeats(s, ops[n - 1], place);
        assert ops[n - 1].HeartbeatOp? ==> BeatAt(maximum, ops, n - 1, ops[n - 1].heartbeat);
      }
    }
  }

  /** From one moment of a run to a later one, what is held for a validator and revision only moves
      forward, in feed sequence and in cutoff. */
  lemma {:induction false} HeartbeatsAdvance(maximum: nat, ops: seq<Op>, m: nat, n: nat, place: Place)
    requires maximum >= 1 && m <= n <= |ops| && place in Moment(maximum, ops, m).heartbeats
    ensures place in Moment(maximum, ops, n).heartbeats
    ensures var before, after := Moment(maximum, ops, m).heartbeats[place], Moment(maximum, ops, n).heartbeats[place];
            && before.validatorFeedSequence <= after.validatorFeedSequence
            && before.acceptanceCutoffMs <= after.acceptanceCutoffMs
  {
    hide Attempt, Inv, Run;
    if m < n {
      HeartbeatsAdvance(maximum, ops, m, n - 1, place);
      MomentNext(maximum, ops, n - 1);
      var s := Moment(maximum, ops, n - 1);
      InvParts(s);
      if Attempt(s, ops[n - 1]).Ok? { StepBeats(s, ops[n - 1], place); }
    }
  }
}
