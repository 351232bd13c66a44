/** The control store as a value: candidates with their admission states, the transaction order
    and the bounded delta log, with every operation as a function. */
module ControlStoreModel {
  import opened Bytes
  import opened Order
  import opened Sequences

  datatype Option<+T> = None | Some(value: T)

  /** The conflict codes, one constructor for each CONTROL_STORE_ code. */
  datatype Conflict =
    | AdmissionNotMonotonic
    | AttestationConflict
    | CandidateConflict
    | CorruptDeltaFloor
    | CorruptDeltaSequence
    | CorruptDuplicateOrder
    | CorruptOrder
    | CorruptOrderState
    | CandidateNotAdmissionEligible
    | DeltaHistoryReset
    | DuplicateOrderEntry
    | HeartbeatConflict
    | HeartbeatCutoffRegression
    | InvalidAdmissionProof
    | InvalidDeltaRetention
    | PayloadNotVerified
    | PayloadStateRegression
    | TerminalState
    | UnknownCandidate

  datatype Result<+T> = Ok(value: T) | Err(error: Conflict)

  datatype CandidateState = WaitingForPayload | PendingValidation | Admissible
      | InvalidProtocol | Unauthorized | Quarantined

  datatype Candidate = Candidate(
    txId: Bytes, groupId: Bytes, candidateDigest: Bytes, validationPolicy: Bytes, orderKey: OrderKey,
    canonicalPayload: Option<Bytes>, state: CandidateState, stateReason: Option<string>,
    proofAttestationIds: seq<Bytes>)

  datatype Attestation = Attestation(
    attestationId: Bytes, txId: Bytes, validatorId: Bytes, validatorCapability: Bytes, membershipRevision: Bytes,
    candidateDigest: Bytes, validatorFeedSequence: int, authorTimestampMs: int, acceptedAboveMs: int,
    policyVersion: int)

  datatype Heartbeat = Heartbeat(
    heartbeatId: Bytes, validatorId: Bytes, validatorCapability: Bytes, membershipRevision: Bytes,
    validatorFeedSequence: int, acceptanceCutoffMs: int, feedContiguous: bool)

  /** One entry of the delta log. */
  datatype Delta = Delta(sequence: nat, change: Change)

  datatype Change =
    | CandidateAdded(txId: Bytes, state: CandidateState)
    | CandidateStateChanged(txId: Bytes, previousState: CandidateState, state: CandidateState, reason: Option<string>)
    | AttestationAdded(attestationId: Bytes, txId: Bytes, unresolvedCandidate: bool)
    | OrderAppend(txId: Bytes, index: nat, previousLength: nat)
    | OrderInsert(txId: Bytes, index: nat, previousLength: nat)
    | HeartbeatAdvanced(heartbeatId: Bytes, validatorId: Bytes, cutoffMs: int, feedContiguous: bool)

  datatype Store = Store(
    sequence: nat, deltaFloor: nat, maximumRetainedDeltas: nat,
    candidates: map<Bytes, Candidate>, attestations: seq<Attestation>,
    heartbeats: map<(Bytes, Bytes), Heartbeat>, order: seq<Bytes>, deltas: seq<Delta>)

  function Empty(maximumRetainedDeltas: nat): Store {
    Store(0, 0, maximumRetainedDeltas, map[], [], map[], [], [])
  }

  predicate Terminal(state: CandidateState) {
    state.InvalidProtocol? || state.Unauthorized? || state.Quarantined?
  }

  /** The transitions the candidate state machine allows; None when allowed. */
  function TransitionError(previous: CandidateState, next: CandidateState): Option<Conflict> {
    if previous == next then None
    else if previous.Admissible? then Some(AdmissionNotMonotonic)
    else if Terminal(previous) then Some(TerminalState)
    else if previous.WaitingForPayload? && !next.PendingValidation? && !Terminal(next) then Some(PayloadNotVerified)
    else if next.WaitingForPayload? then Some(PayloadStateRegression)
    else None
  }

  // ---- the delta log

  function Trimmed(deltas: seq<Delta>, maximum: nat): (kept: seq<Delta>)
    ensures |kept| <= |deltas|
  {
    if |deltas| <= maximum then deltas else deltas[|deltas| - maximum..]
  }

  function AppendDelta(s: Store, change: Change): Store {
    var all := s.deltas + [Delta(s.sequence + 1, change)];
    var kept := Trimmed(all, s.maximumRetainedDeltas);
    s.(sequence := s.sequence + 1,
       deltas := kept,
       deltaFloor := if |kept| < |all| then all[|all| - |kept| - 1].sequence else s.deltaFloor)
  }

  // ---- the order

  function Keys(candidates: map<Bytes, Candidate>, order: seq<Bytes>): (keys: seq<OrderKey>)
    requires forall i :: 0 <= i < |order| ==> order[i] in candidates
    ensures |keys| == |order|
    ensures forall i :: 0 <= i < |order| ==> keys[i] == candidates[order[i]].orderKey
  {
    seq(|order|, i requires 0 <= i < |order| => candidates[order[i]].orderKey)
  }

  /** The first position whose key does not precede `key`. */
  function Position(keys: seq<OrderKey>, key: OrderKey): (k: nat)
    ensures k <= |keys|
    ensures forall i :: 0 <= i < k ==> Before(keys[i], key)
    ensures k < |keys| ==> !Before(keys[k], key)
  {
    if keys == [] || !Before(keys[0], key) then 0
    else
      var rest := Position(keys[1..], key);
      assert forall i :: 0 < i < 1 + rest ==> keys[i] == keys[1..][i - 1];
      1 + rest
  }

  predicate OrderKnown(s: Store) {
    forall i :: 0 <= i < |s.order| ==> s.order[i] in s.candidates
  }

  function InsertOrder(s: Store, candidate: Candidate): Result<Store>
    requires OrderKnown(s)
  {
    var k := Position(Keys(s.candidates, s.order), candidate.orderKey);
    if k < |s.order| && s.order[k] == candidate.txId then Err(DuplicateOrderEntry)
    else
      var length := |s.order|;
      Ok(AppendDelta(s.(order := InsertAt(s.order, k, candidate.txId)),
                     if k == length then OrderAppend(candidate.txId, k, length)
                     else OrderInsert(candidate.txId, k, length)))
  }

  // ---- operations

  predicate SameCandidateIdentity(a: Candidate, b: Candidate) {
    && a.txId == b.txId && a.groupId == b.groupId && a.candidateDigest == b.candidateDigest
    && a.validationPolicy == b.validationPolicy && a.orderKey == b.orderKey && a.canonicalPayload == b.canonicalPayload
  }

  /** The store with one candidate set, and the fact logged; not yet in the order. */
  function WithCandidate(s: Store, c: Candidate, change: Change): Store {
    AppendDelta(s.(candidates := s.candidates[c.txId := c]), change)
  }

  function PutCandidate(s: Store, c: Candidate): Result<Store>
    requires OrderKnown(s)
  {
    if c.txId in s.candidates then
      if SameCandidateIdentity(s.candidates[c.txId], c) then Ok(s) else Err(CandidateConflict)
    else
      var added := WithCandidate(s, c, CandidateAdded(c.txId, c.state));
      if c.state.Admissible? then InsertOrder(added, c) else Ok(added)
  }

  function FindAttestation(attestations: seq<Attestation>, id: Bytes): (found: Option<Attestation>)
    ensures found.Some? ==> found.value in attestations && found.value.attestationId == id
    ensures found.None? ==> forall a :: a in attestations ==> a.attestationId != id
  {
    if attestations == [] then None
    else if attestations[0].attestationId == id then Some(attestations[0])
    else FindAttestation(attestations[1..], id)
  }

  function AttestationsFor(attestations: seq<Attestation>, txId: Bytes): (found: seq<Attestation>)
    ensures forall a :: a in found <==> a in attestations && a.txId == txId
  {
    if attestations == [] then []
    else
      var rest := AttestationsFor(attestations[1..], txId);
      if attestations[0].txId == txId then [attestations[0]] + rest else rest
  }

  function PutAttestation(s: Store, a: Attestation): Result<Store> {
    match FindAttestation(s.attestations, a.attestationId)
    case Some(existing) => if existing == a then Ok(s) else Err(AttestationConflict)
    case None =>
      Ok(AppendDelta(s.(attestations := s.attestations + [a]),
                     AttestationAdded(a.attestationId, a.txId, a.txId !in s.candidates)))
  }

  predicate ProofBelongs(s: Store, txId: Bytes, proof: seq<Bytes>) {
    forall i :: 0 <= i < |proof| ==>
      FindAttestation(s.attestations, proof[i]).Some? && FindAttestation(s.attestations, proof[i]).value.txId == txId
  }

  function SetCandidateState(s: Store, txId: Bytes, state: CandidateState, proof: Option<seq<Bytes>>,
      reason: Option<string>)
    : Result<Store>
    requires OrderKnown(s)
  {
    if txId !in s.candidates then Err(UnknownCandidate)
    else
      var c := s.candidates[txId];
      if TransitionError(c.state, state).Some? then Err(TransitionError(c.state, state).value)
      else
        var ids := if proof.Some? then proof.value else c.proofAttestationIds;
        if !ProofBelongs(s, txId, ids) then Err(InvalidAdmissionProof)
        else if c.state == state && c.proofAttestationIds == ids && c.stateReason == reason then Ok(s)
        else
          var next := c.(state := state, proofAttestationIds := ids,
                         stateReason := if reason.Some? then reason else c.stateReason);
          var changed := WithCandidate(s, next, CandidateStateChanged(txId, c.state, state, reason));
          if !c.state.Admissible? && state.Admissible? then InsertOrder(changed, next) else Ok(changed)
  }

  /** What an admission evaluator may answer. */
  datatype Evaluation = Evaluation(admit: bool, proof: Option<seq<Bytes>>, reason: Option<string>)

  function EvaluateAdmission(s: Store, txId: Bytes,
      evaluator: (Candidate, seq<Attestation>) -> Evaluation): Result<Store>
    requires OrderKnown(s)
  {
    if txId !in s.candidates then Err(UnknownCandidate)
    else
      var c := s.candidates[txId];
      if c.state.Admissible? then Ok(s)
      else if Terminal(c.state) || c.state.WaitingForPayload? then Err(CandidateNotAdmissionEligible)
      else
        var answer := evaluator(c, AttestationsFor(s.attestations, txId));
        SetCandidateState(s, txId, if answer.admit then Admissible else PendingValidation, answer.proof, answer.reason)
  }

  function RecordHeartbeat(s: Store, h: Heartbeat): Result<Store> {
    var key := (h.membershipRevision, h.validatorId);
    var recorded := AppendDelta(s.(heartbeats := s.heartbeats[key := h]),
                                HeartbeatAdvanced(h.heartbeatId, h.validatorId, h.acceptanceCutoffMs,
                                    h.feedContiguous));
    if key !in s.heartbeats then Ok(recorded)
    else
      var previous := s.heartbeats[key];
      if h.validatorFeedSequence < previous.validatorFeedSequence then Ok(s)
      else if h.acceptanceCutoffMs < previous.acceptanceCutoffMs then Err(HeartbeatCutoffRegression)
      else if h.validatorFeedSequence == previous.validatorFeedSequence then
        if h == previous then Ok(s) else Err(HeartbeatConflict)
      else Ok(recorded)
  }

  function ChangesSince(s: Store, sequence: nat): (r: Result<seq<Delta>>)
  {
    if sequence < s.deltaFloor then Err(DeltaHistoryReset)
    else Ok(After(s.deltas, sequence))
  }

  function After(deltas: seq<Delta>, sequence: nat): seq<Delta> {
    if deltas == [] then []
    else if deltas[0].sequence > sequence then [deltas[0]] + After(deltas[1..], sequence)
    else After(deltas[1..], sequence)
  }
}
