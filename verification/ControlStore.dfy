/** The control store as the mutable class of the source: binary-search insertion, delta log
    trimmed in place, snapshot and restore. Each method is proved against the value model. */
module ControlStore {
  import opened Bytes
  import opened Order
  import opened Sequences
  import opened ControlStoreModel
  import opened ControlStoreLaws

  datatype Snapshot = Snapshot(
    sequence: nat, candidates: seq<Candidate>, attestations: seq<Attestation>, heartbeats: seq<Heartbeat>,
    orderedTxIds: seq<Bytes>, deltas: seq<Delta>, deltaFloor: Option<nat>)

  predicate AttestationIdsDistinct(attestations: seq<Attestation>) {
    forall i, j :: 0 <= i < j < |attestations| ==> attestations[i].attestationId != attestations[j].attestationId
  }

  predicate HeartbeatsKeyed(heartbeats: map<(Bytes, Bytes), Heartbeat>) {
    forall key :: key in heartbeats ==> key == (heartbeats[key].membershipRevision, heartbeats[key].validatorId)
  }

  class ControlStore {
    const maximumRetainedDeltas: nat
    var sequence: nat
    var deltaFloor: nat
    var candidates: map<Bytes, Candidate>
    var attestations: seq<Attestation>
    var heartbeats: map<(Bytes, Bytes), Heartbeat>
    var orderedTxIds: seq<Bytes>
    var deltas: seq<Delta>

    function View(): Store
      reads this
    {
      Store(sequence, deltaFloor, maximumRetainedDeltas, candidates, attestations, heartbeats, orderedTxIds, deltas)
    }

    ghost predicate Valid()
      reads this
    {
      Inv(View()) && AttestationIdsDistinct(attestations) && HeartbeatsKeyed(heartbeats)
    }

    constructor (maximum: nat)
      requires maximum >= 1
      ensures View() == Empty(maximum) && Valid()
    {
      maximumRetainedDeltas := maximum;
      sequence, deltaFloor, candidates, attestations, heartbeats, orderedTxIds, deltas :=
        0, 0, map[], [], map[], [], [];
      new;
      EmptyInv(maximum);
    }

    method TrimDeltas()
      modifies this`deltas, this`deltaFloor
      ensures deltas == Trimmed(old(deltas), maximumRetainedDeltas)
      ensures deltaFloor == if |deltas| < |old(deltas)|
           then old(deltas)[|old(deltas)| - |deltas| - 1].sequence else old(deltaFloor)
    {
      var excess := |deltas| - maximumRetainedDeltas;
      if excess <= 0 { return; }
      var removed := deltas[..excess];
      deltas := deltas[excess..];
      deltaFloor := removed[excess - 1].sequence;
    }

    method Log(change: Change)
      modifies this`sequence, this`deltas, this`deltaFloor
      ensures View() == AppendDelta(old(View()), change)
    {
      hide Trimmed;
      sequence := sequence + 1;
      deltas := deltas + [Delta(sequence, change)];
      TrimDeltas();
    }

    /** The binary search finds the one place that keeps the order sorted. */
    method Insert(candidate: Candidate) returns (inserted: bool)
      requires OrderKnown(View()) && WeaklySorted(Keys(candidates, orderedTxIds))
      modifies this`orderedTxIds, this`sequence, this`deltas, this`deltaFloor
      ensures inserted <==> InsertOrder(old(View()), candidate).Ok?
      ensures View() == if inserted then InsertOrder(old(View()), candidate).value else old(View())
    {
      hide CompareKeys, AppendDelta, WeaklySorted, Position;
      ghost var keys := Keys(candidates, orderedTxIds);
      PositionSeparates(keys, candidate.orderKey);
      var low, high := 0, |orderedTxIds|;
      while low < high
        invariant 0 <= low <= Position(keys, candidate.orderKey) <= high <= |orderedTxIds|
      {
        var middle := (low + high) / 2;
        var middleCandidate := candidates[orderedTxIds[middle]];
        assert keys[middle] == middleCandidate.orderKey;
        if CompareKeys(middleCandidate.orderKey, candidate.orderKey) < 0 {
          low := middle + 1;
        } else {
          high := middle;
        }
      }
      if low < |orderedTxIds| && orderedTxIds[low] == candidate.txId { return false; }
      var previousLength := |orderedTxIds|;
      orderedTxIds := orderedTxIds[..low] + [candidate.txId] + orderedTxIds[low..];
      Log(if low == previousLength then OrderAppend(candidate.txId, low, previousLength)
          else OrderInsert(candidate.txId, low, previousLength));
      return true;
    }

    method PutCandidate(c: Candidate) returns (r: Result<bool>)
      requires Valid()
      modifies this
      ensures Valid() && Good(old(View()), View())
      ensures r.Ok? <==> ControlStoreModel.PutCandidate(old(View()), c).Ok?
      ensures View() == if r.Ok? then ControlStoreModel.PutCandidate(old(View()), c).value else old(View())
      ensures r.Ok? ==> (r.value <==> c.txId !in old(candidates))
      ensures r.Err? ==> r.error == CandidateConflict
    {
      hide Inv, InsertOrder, AppendDelta, WeaklySorted, Good, Keys, Position;
      ghost var before := View();
      PutCandidateGood(before, c);
      GoodReflexive(before);
      if c.txId in candidates {
        return if SameCandidateIdentity(candidates[c.txId], c) then Ok(false) else Err(CandidateConflict);
      }
      WithCandidateSearchable(before, c, CandidateAdded(c.txId, c.state));
      candidates := candidates[c.txId := c];
      Log(CandidateAdded(c.txId, c.state));
      assert View() == WithCandidate(before, c, CandidateAdded(c.txId, c.state));
      if c.state.Admissible? { var inserted := Insert(c); }
      GoodParts(before, View());
      return Ok(true);
    }

    method PutAttestation(a: Attestation) returns (r: Result<bool>)
      requires Valid()
      modifies this
      ensures Valid() && Good(old(View()), View())
      ensures r.Ok? <==> ControlStoreModel.PutAttestation(old(View()), a).Ok?
      ensures View() == if r.Ok? then ControlStoreModel.PutAttestation(old(View()), a).value else old(View())
    {
      hide Inv, AppendDelta, Good;
      ghost var before := View();
      AttemptGood(before, PutAttestationOp(a));
      GoodReflexive(before);
      var existing := FindAttestation(attestations, a.attestationId);
      if existing.Some? { return if existing.value == a then Ok(false) else Err(AttestationConflict); }
      assert forall i :: 0 <= i < |attestations| ==> attestations[i] in attestations;
      attestations := attestations + [a];
      Log(AttestationAdded(a.attestationId, a.txId, a.txId !in candidates));
      GoodParts(before, View());
      return Ok(true);
    }

    method CheckProof(txId: Bytes, ids: seq<Bytes>) returns (belongs: bool)
      ensures belongs <==> ProofBelongs(View(), txId, ids)
    {
      for index := 0 to |ids|
        invariant forall i :: 0 <= i < index ==>
          FindAttestation(attestations, ids[i]).Some? && FindAttestation(attestations, ids[i]).value.txId == txId
      {
        var attestation := FindAttestation(attestations, ids[index]);
        if attestation.None? || attestation.value.txId != txId { return false; }
      }
      return true;
    }

    /** Records a permitted state change and inserts a newly admitted candidate into the order. */
    method ReplaceCandidate(next: Candidate, change: Change)
      requires Valid() && next.txId in candidates && SameCandidateIdentity(candidates[next.txId], next)
      requires TransitionError(candidates[next.txId].state, next.state).None?
      requires Tells(View(), next, change)
      modifies this
      ensures Valid() && Good(old(View()), View())
      ensures OrderKnown(WithCandidate(old(View()), next, change))
      ensures var changed := WithCandidate(old(View()), next, change);
              if !old(candidates)[next.txId].state.Admissible? && next.state.Admissible?
              then InsertOrder(changed, next) == Ok(View()) else View() == changed
    {
      hide Inv, InsertOrder, AppendDelta, WeaklySorted, Good, Keys, Position, SameCandidateIdentity, OrderKnown;
      ghost var before := View();
      var previous := candidates[next.txId].state;
      WithChangedSearchable(before, next, change);
      StateChangeGood(before, next, change);
      candidates := candidates[next.txId := next];
      Log(change);
      assert View() == WithCandidate(before, next, change);
      if !previous.Admissible? && next.state.Admissible? { var inserted := Insert(next); }
      GoodParts(before, View());
    }

    method SetCandidateState(txId: Bytes, state: CandidateState, proof: Option<seq<Bytes>>, reason: Option<string>)
      returns (error: Option<Conflict>)
      requires Valid()
      modifies this
      ensures Valid() && Good(old(View()), View())
      ensures match ControlStoreModel.SetCandidateState(old(View()), txId, state, proof, reason)
              case Ok(after) => error.None? && View() == after
              case Err(code) => error == Some(code) && View() == old(View())
    {
      hide Inv, InsertOrder, WithCandidate, Good, ProofBelongs, Terminal, TransitionError, AppendDelta, Trimmed,
        OrderKnown, IdsMatch, Tells;
      GoodReflexive(View());
      InvParts(View());
      if txId !in candidates { return Some(UnknownCandidate); }
      var c := candidates[txId];
      var refused := TransitionError(c.state, state);
      if refused.Some? { return refused; }
      var ids := if proof.Some? then proof.value else c.proofAttestationIds;
      var belongs := CheckProof(txId, ids);
      if !belongs { return Some(InvalidAdmissionProof); }
      if c.state == state && c.proofAttestationIds == ids && c.stateReason == reason { return None; }
      var next := c.(state := state, proofAttestationIds := ids,
                     stateReason := if reason.Some? then reason else c.stateReason);
      StateChangeTells(View(), next, reason);
      ReplaceCandidate(next, CandidateStateChanged(txId, c.state, state, reason));
      return None;
    }

    method EvaluateAdmission(txId: Bytes, evaluator: (Candidate, seq<Attestation>) -> Evaluation)
      returns (error: Option<Conflict>)
      requires Valid()
      modifies this
      ensures Valid() && Good(old(View()), View())
      ensures match ControlStoreModel.EvaluateAdmission(old(View()), txId, evaluator)
              case Ok(after) => error.None? && View() == after
              case Err(code) => error == Some(code) && View() == old(View())
    {
      hide Inv, Good, ControlStoreModel.SetCandidateState;
      GoodReflexive(View());
      if txId !in candidates { return Some(UnknownCandidate); }
      var c := candidates[txId];
      if c.state.Admissible? { return None; }
      if Terminal(c.state) || c.state.WaitingForPayload? { return Some(CandidateNotAdmissionEligible); }
      var answer := evaluator(c, AttestationsFor(attestations, txId));
      error := SetCandidateState(txId, if answer.admit then Admissible else PendingValidation, answer.proof,
          answer.reason);
    }

    method RecordHeartbeat(h: Heartbeat) returns (r: Result<bool>)
      requires Valid()
      modifies this
      ensures Valid() && Good(old(View()), View())
      ensures r.Ok? <==> ControlStoreModel.RecordHeartbeat(old(View()), h).Ok?
      ensures View() == if r.Ok? then ControlStoreModel.RecordHeartbeat(old(View()), h).value else old(View())
    {
      hide Inv, AppendDelta, Good;
      ghost var before := View();
      AttemptGood(before, HeartbeatOp(h));
      GoodReflexive(before);
      var key := (h.membershipRevision, h.validatorId);
      if key in heartbeats {
        var previous := heartbeats[key];
        if h.validatorFeedSequence < previous.validatorFeedSequence { return Ok(false); }
        if h.acceptanceCutoffMs < previous.acceptanceCutoffMs { return Err(HeartbeatCutoffRegression); }
        if h.validatorFeedSequence == previous.validatorFeedSequence {
          return if h == previous then Ok(false) else Err(HeartbeatConflict);
        }
      }
      heartbeats := heartbeats[key := h];
      Log(HeartbeatAdvanced(h.heartbeatId, h.validatorId, h.acceptanceCutoffMs, h.feedContiguous));
      GoodParts(before, View());
      return Ok(true);
    }

    method TakeSnapshot() returns (snapshot: Snapshot)
      requires Valid()
      ensures Describes(snapshot, View())
    {
      hide ListsAdmissible, LogOk, WeaklySorted;
      var listed: seq<Candidate>, left := [], candidates.Keys;
      while left != {}
        invariant left <= candidates.Keys
        invariant forall i :: 0 <= i < |listed| ==> HoldsCandidate(candidates, listed[i])
        invariant forall id :: id in candidates && id !in left ==> candidates[id] in listed
      {
        var id :| id in left;
        left, listed := left - {id}, listed + [candidates[id]];
      }
      var beats: seq<Heartbeat>, open := [], heartbeats.Keys;
      while open != {}
        invariant open <= heartbeats.Keys
        invariant forall i :: 0 <= i < |beats| ==> HoldsHeartbeat(heartbeats, beats[i])
        invariant forall key :: key in heartbeats && key !in open ==> heartbeats[key] in beats
      {
        var key :| key in open;
        open, beats := open - {key}, beats + [heartbeats[key]];
      }
      return Snapshot(sequence, listed, attestations, beats, orderedTxIds, deltas, Some(deltaFloor));
    }

    /** Loads a snapshot into an empty store and checks it. */
    method Restore(snapshot: Snapshot) returns (error: Option<Conflict>)
      requires View() == Empty(maximumRetainedDeltas)
      modifies this
      ensures View() == Loaded(snapshot, maximumRetainedDeltas)
      ensures error.None? <==> OrderVerified(View())
    {
      hide OrderVerified, CandidateMap, AttestationList, HeartbeatMap, Trimmed;
      sequence := snapshot.sequence;
      deltaFloor := if snapshot.deltaFloor.Some? then snapshot.deltaFloor.value else 0;
      LoadCandidates(snapshot.candidates);
      LoadAttestations(snapshot.attestations);
      LoadHeartbeats(snapshot.heartbeats);
      orderedTxIds := orderedTxIds + snapshot.orderedTxIds;
      deltas := deltas + snapshot.deltas;
      assert orderedTxIds == snapshot.orderedTxIds && deltas == snapshot.deltas;
      TrimDeltas();
      error := VerifyRestoredOrder();
    }

    method LoadCandidates(listed: seq<Candidate>)
      modifies this`candidates
      ensures candidates == CandidateMap(old(candidates), listed)
    {
      for index := 0 to |listed|
        invariant candidates == CandidateMap(old(candidates), listed[..index])
      {
        assert listed[..index + 1][..index] == listed[..index];
        candidates := candidates[listed[index].txId := listed[index]];
      }
      assert listed[..|listed|] == listed;
    }

    method LoadAttestations(listed: seq<Attestation>)
      modifies this`attestations
      ensures attestations == AttestationList(old(attestations), listed)
    {
      for index := 0 to |listed|
        invariant attestations == AttestationList(old(attestations), listed[..index])
      {
        assert listed[..index + 1][..index] == listed[..index];
        attestations := SetAttestation(attestations, listed[index]);
      }
      assert listed[..|listed|] == listed;
    }

    method LoadHeartbeats(listed: seq<Heartbeat>)
      modifies this`heartbeats
      ensures heartbeats == HeartbeatMap(old(heartbeats), listed)
    {
      for index := 0 to |listed|
        invariant heartbeats == HeartbeatMap(old(heartbeats), listed[..index])
      {
        assert listed[..index + 1][..index] == listed[..index];
        heartbeats := heartbeats[(listed[index].membershipRevision, listed[index].validatorId) := listed[index]];
      }
      assert listed[..|listed|] == listed;
    }

    method VerifyRestoredOrder() returns (error: Option<Conflict>)
      ensures error.None? <==> OrderVerified(View())
    {
      hide CompareKeys;
      if |deltas| > 0 && deltas[|deltas| - 1].sequence != sequence { return Some(CorruptDeltaSequence); }
      if |deltas| > 0 && deltas[0].sequence != deltaFloor + 1 { return Some(CorruptDeltaFloor); }
      if |deltas| == 0 && deltaFloor != sequence { return Some(CorruptDeltaFloor); }
      var next := 1;
      while next < |deltas|
        invariant 1 <= next
        invariant forall i :: 0 < i < next && i < |deltas| ==> deltas[i].sequence > deltas[i - 1].sequence
      {
        if deltas[next].sequence <= deltas[next - 1].sequence { return Some(CorruptDeltaSequence); }
        next := next + 1;
      }
      var seen: set<Bytes> := {};
      for index := 0 to |orderedTxIds|
        invariant forall i :: 0 <= i < index ==> IsAdmissible(View(), orderedTxIds[i])
        invariant seen == set i | 0 <= i < index :: orderedTxIds[i]
        invariant forall i, j :: 0 <= i < j < index ==> orderedTxIds[i] != orderedTxIds[j]
        invariant forall i :: 0 < i < index ==>
          Before(candidates[orderedTxIds[i - 1]].orderKey, candidates[orderedTxIds[i]].orderKey)
      {
        var txId := orderedTxIds[index];
        if txId !in candidates { return Some(UnknownCandidate); }
        if !candidates[txId].state.Admissible? { return Some(CorruptOrderState); }
        if txId in seen { return Some(CorruptDuplicateOrder); }
        seen := seen + {txId};
        if index > 0 && CompareKeys(candidates[orderedTxIds[index - 1]].orderKey, candidates[txId].orderKey) >= 0 {
          return Some(CorruptOrder);
        }
      }
      return None;
    }
  }

  predicate HoldsCandidate(candidates: map<Bytes, Candidate>, c: Candidate) {
    c.txId in candidates && candidates[c.txId] == c
  }

  predicate HoldsHeartbeat(heartbeats: map<(Bytes, Bytes), Heartbeat>, h: Heartbeat) {
    (h.membershipRevision, h.validatorId) in heartbeats && heartbeats[(h.membershipRevision, h.validatorId)] == h
  }

  ghost predicate Describes(snapshot: Snapshot, s: Store) {
    && snapshot.sequence == s.sequence && snapshot.deltaFloor == Some(s.deltaFloor)
    && snapshot.orderedTxIds == s.order && snapshot.deltas == s.deltas && snapshot.attestations == s.attestations
    && (forall i :: 0 <= i < |snapshot.candidates| ==> HoldsCandidate(s.candidates, snapshot.candidates[i]))
    && (forall id :: id in s.candidates ==> s.candidates[id] in snapshot.candidates)
    && (forall i :: 0 <= i < |snapshot.heartbeats| ==> HoldsHeartbeat(s.heartbeats, snapshot.heartbeats[i]))
    && (forall key :: key in s.heartbeats ==> s.heartbeats[key] in snapshot.heartbeats)
  }

  function Loaded(snapshot: Snapshot, maximum: nat): Store {
    var kept := Trimmed(snapshot.deltas, maximum);
    var floor := if snapshot.deltaFloor.Some? then snapshot.deltaFloor.value else 0;
    Store(snapshot.sequence,
          if |kept| < |snapshot.deltas| then snapshot.deltas[|snapshot.deltas| - |kept| - 1].sequence else floor,
          maximum, CandidateMap(map[], snapshot.candidates), AttestationList([], snapshot.attestations),
          HeartbeatMap(map[], snapshot.heartbeats), snapshot.orderedTxIds, kept)
  }

  /** A store's own snapshot loads as that store, trimmed to the new bound, and passes the check
      exactly when its admissible candidates have distinct order keys: the check is strict. */
  lemma OwnSnapshotRestores(s: Store, snapshot: Snapshot, maximum: nat)
    requires Stored(s) && Describes(snapshot, s) && maximum >= 1
    ensures Loaded(snapshot, maximum) == Rebounded(s, maximum)
    ensures OrderVerified(Loaded(snapshot, maximum)) <==> KeysDistinct(s)
  {
    hide OrderVerified, KeysDistinct;
    CandidatesReload(snapshot.candidates, s.candidates);
    HeartbeatsReload(snapshot.heartbeats, s.heartbeats);
    AttestationsReload(snapshot.attestations);
    OwnOrderVerified(s, maximum);
  }

  /** What the class keeps of its contents. */
  ghost predicate Stored(s: Store) {
    Inv(s) && AttestationIdsDistinct(s.attestations) && HeartbeatsKeyed(s.heartbeats)
  }

  /** What the restore check decides. */
  ghost predicate OrderVerified(s: Store) {
    && (|s.deltas| > 0 ==> s.deltas[|s.deltas| - 1].sequence == s.sequence && s.deltas[0].sequence == s.deltaFloor + 1)
    && (|s.deltas| == 0 ==> s.deltaFloor == s.sequence)
    && (forall i :: 0 < i < |s.deltas| ==> s.deltas[i].sequence > s.deltas[i - 1].sequence)
    && (forall i :: 0 <= i < |s.order| ==> IsAdmissible(s, s.order[i]))
    && Distinct(s.order)
    && (forall i :: 0 < i < |s.order| ==>
          Before(s.candidates[s.order[i - 1]].orderKey, s.candidates[s.order[i]].orderKey))
  }

  /** A restored store is as sound as one that was never restarted exactly when, besides, its order
      leaves out no admissible candidate and no number of the delta run is missing. */
  lemma RestoredSound(snapshot: Snapshot, maximum: nat)
    requires maximum >= 1 && OrderVerified(Loaded(snapshot, maximum))
    ensures var s := Loaded(snapshot, maximum);
            Inv(s) <==> (forall id :: IsAdmissible(s, id) ==> id in s.order) && s.deltaFloor + |s.deltas| == s.sequence
  {
    hide CompareKeys, CandidateMap, AttestationList, HeartbeatMap;
    var s := Loaded(snapshot, maximum);
    CandidateMapHolds(snapshot.candidates);
    if s.deltaFloor + |s.deltas| == s.sequence { RunIsWhole(s.deltas, s.deltaFloor); }
    assert forall i :: 0 <= i < |s.order| ==> IsAdmissible(s, s.order[i]);
    StrictFromNeighbours(Keys(s.candidates, s.order));
    SortedIsWeak(Keys(s.candidates, s.order));
  }

  lemma SortedIsWeak(keys: seq<OrderKey>)
    requires StrictlySorted(keys)
    ensures WeaklySorted(keys)
  {
  }

  /** Numbers that increase from one above the floor to floor plus their count leave no gap. */
  lemma RunIsWhole(deltas: seq<Delta>, floor: nat)
    requires forall i :: 0 < i < |deltas| ==> deltas[i].sequence > deltas[i - 1].sequence
    requires deltas != [] ==> deltas[0].sequence == floor + 1 && deltas[|deltas| - 1].sequence == floor + |deltas|
    ensures forall i :: 0 <= i < |deltas| ==> deltas[i].sequence == floor + 1 + i
  {
    forall i | 0 <= i < |deltas| ensures deltas[i].sequence == floor + 1 + i {
      AtLeastApart(deltas, 0, i);
      AtLeastApart(deltas, i, |deltas| - 1);
    }
  }

  lemma {:induction false} AtLeastApart(deltas: seq<Delta>, i: nat, j: nat)
    requires forall k :: 0 < k < |deltas| ==> deltas[k].sequence > deltas[k - 1].sequence
    requires i <= j < |deltas|
    ensures deltas[j].sequence >= deltas[i].sequence + (j - i)
    decreases j
  {
    if i < j { AtLeastApart(deltas, i, j - 1); }
  }

  /** The check does not ask whether every admissible candidate is in the order. */
  lemma MissingFromOrderPasses(c: Candidate)
    requires c.state.Admissible?
    ensures var s := Loaded(Snapshot(0, [c], [], [], [], [], Some(0)), 8); OrderVerified(s) && !Inv(s)
  {
    var s := Loaded(Snapshot(0, [c], [], [], [], [], Some(0)), 8);
    CandidateMapHolds([c]);
    assert c in [c];
    assert s.candidates[c.txId] in [c];
    assert IsAdmissible(s, c.txId);
  }

  /** Nor does it ask whether a number is missing inside the delta run. */
  lemma GapInDeltasPasses(a: Change, b: Change)
    ensures var s := Loaded(Snapshot(3, [], [], [], [], [Delta(1, a), Delta(3, b)], Some(0)), 8);
              OrderVerified(s) && !Inv(s)
  {
  }

  function CandidateMap(start: map<Bytes, Candidate>, listed: seq<Candidate>): map<Bytes, Candidate> {
    if listed == [] then start
    else CandidateMap(start, listed[..|listed| - 1])[listed[|listed| - 1].txId := listed[|listed| - 1]]
  }

  function HeartbeatMap(start: map<(Bytes, Bytes), Heartbeat>, listed: seq<Heartbeat>): map<(Bytes, Bytes), Heartbeat> {
    if listed == [] then start
    else
      var last := listed[|listed| - 1];
      HeartbeatMap(start, listed[..|listed| - 1])[(last.membershipRevision, last.validatorId) := last]
  }

  /** A keyed set in insertion order: a known id is replaced where it stands. */
  function SetAttestation(attestations: seq<Attestation>, a: Attestation): seq<Attestation> {
    if attestations == [] then [a]
    else if attestations[0].attestationId == a.attestationId then [a] + attestations[1..]
    else [attestations[0]] + SetAttestation(attestations[1..], a)
  }

  function AttestationList(start: seq<Attestation>, listed: seq<Attestation>): seq<Attestation> {
    if listed == [] then start
    else SetAttestation(AttestationList(start, listed[..|listed| - 1]), listed[|listed| - 1])
  }

  // ---- what a snapshot loads as

  function CandidateName(c: Candidate): Bytes { c.txId }

  function HeartbeatName(h: Heartbeat): (Bytes, Bytes) { (h.membershipRevision, h.validatorId) }

  function AttestationName(a: Attestation): Bytes { a.attestationId }

  /** It is listed, and nothing behind it has its name. */
  ghost predicate ListedLast<T, K>(listed: seq<T>, name: T -> K, x: T) {
    exists i :: 0 <= i < |listed| && listed[i] == x && NotAgain(listed, name, i)
  }

  ghost predicate NotAgain<T, K>(listed: seq<T>, name: T -> K, i: nat)
    requires i < |listed|
  {
    forall j :: i < j < |listed| ==> name(listed[j]) != name(listed[i])
  }

  lemma ListedLastSplit<T, K>(listed: seq<T>, name: T -> K, x: T)
    requires listed != []
    ensures var last := listed[|listed| - 1];
            ListedLast(listed, name, x) <==>
              x == last || (ListedLast(listed[..|listed| - 1], name, x) && name(x) != name(last))
  {
    var n := |listed| - 1;
    var front := listed[..n];
    assert NotAgain(listed, name, n);
    if i :| 0 <= i < |listed| && listed[i] == x && NotAgain(listed, name, i) {
      if i < n { assert front[i] == x && NotAgain(front, name, i); }
    }
    if i :| 0 <= i < n && front[i] == x && NotAgain(front, name, i) && name(x) != name(listed[n]) {
      forall j | i < j < |listed| ensures name(listed[j]) != name(listed[i]) {
        if j < n { assert front[j] == listed[j]; }
      }
      assert NotAgain(listed, name, i);
    }
  }

  /** Any snapshot, also one that repeats itself: what is listed last under a name is what is held, and
      nothing else is. */
  lemma LoadedMeans(snapshot: Snapshot, maximum: nat)
    ensures var s := Loaded(snapshot, maximum);
            && s.order == snapshot.orderedTxIds && s.sequence == snapshot.sequence
            && (forall c :: HoldsCandidate(s.candidates, c) <==> ListedLast(snapshot.candidates, CandidateName, c))
            && (forall h :: HoldsHeartbeat(s.heartbeats, h) <==> ListedLast(snapshot.heartbeats, HeartbeatName, h))
            && (forall a :: a in s.attestations <==> ListedLast(snapshot.attestations, AttestationName, a))
            && DistinctAttestations(s.attestations)
  {
    hide CandidateMap, HeartbeatMap, AttestationList, ListedLast, HoldsCandidate, HoldsHeartbeat, DistinctAttestations;
    forall c ensures HoldsCandidate(CandidateMap(map[], snapshot.candidates), c) <==>
                     ListedLast(snapshot.candidates, CandidateName, c)
    {
      CandidatesHeld(snapshot.candidates, c);
    }
    forall h ensures HoldsHeartbeat(HeartbeatMap(map[], snapshot.heartbeats), h) <==>
                     ListedLast(snapshot.heartbeats, HeartbeatName, h)
    {
      HeartbeatsHeld(snapshot.heartbeats, h);
    }
    forall a ensures a in AttestationList([], snapshot.attestations) <==>
                     ListedLast(snapshot.attestations, AttestationName, a)
    {
      AttestationsHeld(snapshot.attestations, a);
    }
    AttestationsDiffer(snapshot.attestations);
  }

  lemma {:induction false} CandidatesHeld(listed: seq<Candidate>, c: Candidate)
    ensures HoldsCandidate(CandidateMap(map[], listed), c) <==> ListedLast(listed, CandidateName, c)
  {
    if listed != [] {
      CandidatesHeld(listed[..|listed| - 1], c);
      ListedLastSplit(listed, CandidateName, c);
    }
  }

  lemma {:induction false} HeartbeatsHeld(listed: seq<Heartbeat>, h: Heartbeat)
    ensures HoldsHeartbeat(HeartbeatMap(map[], listed), h) <==> ListedLast(listed, HeartbeatName, h)
  {
    if listed != [] {
      HeartbeatsHeld(listed[..|listed| - 1], h);
      ListedLastSplit(listed, HeartbeatName, h);
    }
  }

  lemma {:induction false} AttestationsHeld(listed: seq<Attestation>, a: Attestation)
    ensures a in AttestationList([], listed) <==> ListedLast(listed, AttestationName, a)
  {
    hide SetAttestation, DistinctAttestations;
    if listed != [] {
      var front, last := listed[..|listed| - 1], listed[|listed| - 1];
      AttestationsHeld(front, a);
      ListedLastSplit(listed, AttestationName, a);
      AttestationsDiffer(front);
      SetAmong(AttestationList([], front), last);
    }
  }

  lemma {:induction false} AttestationsDiffer(listed: seq<Attestation>)
    ensures DistinctAttestations(AttestationList([], listed))
  {
    hide SetAttestation;
    if listed != [] {
      var front := listed[..|listed| - 1];
      AttestationsDiffer(front);
      SetAmong(AttestationList([], front), listed[|listed| - 1]);
    }
  }

  predicate DistinctAttestations(attestations: seq<Attestation>) {
    forall i, j :: 0 <= i < j < |attestations| ==> attestations[i].attestationId != attestations[j].attestationId
  }

  lemma {:induction false} SetAmong(attestations: seq<Attestation>, a: Attestation)
    requires DistinctAttestations(attestations)
    ensures var r := SetAttestation(attestations, a);
            && DistinctAttestations(r)
            && forall x :: x in r <==> x == a || (x in attestations && x.attestationId != a.attestationId)
  {
    if attestations != [] {
      var first, rest := attestations[0], attestations[1..];
      assert attestations == [first] + rest;
      SetAmong(rest, a);
    }
  }

  lemma {:induction false} SetNewAttestation(attestations: seq<Attestation>, a: Attestation)
    requires forall i :: 0 <= i < |attestations| ==> attestations[i].attestationId != a.attestationId
    ensures SetAttestation(attestations, a) == attestations + [a]
  {
    if attestations != [] {
      SetNewAttestation(attestations[1..], a);
      assert attestations + [a] == [attestations[0]] + (attestations[1..] + [a]);
    }
  }

  lemma {:induction false} AttestationsReload(listed: seq<Attestation>)
    requires AttestationIdsDistinct(listed)
    ensures AttestationList([], listed) == listed
  {
    if listed != [] {
      var front := listed[..|listed| - 1];
      AttestationsReload(front);
      SetNewAttestation(front, listed[|listed| - 1]);
      assert listed == front + [listed[|listed| - 1]];
    }
  }

  lemma {:induction false} CandidateMapHolds(listed: seq<Candidate>)
    ensures forall id :: id in CandidateMap(map[], listed) ==>
              CandidateMap(map[], listed)[id] in listed && CandidateMap(map[], listed)[id].txId == id
    ensures forall c :: c in listed ==> c.txId in CandidateMap(map[], listed)
  {
    if listed != [] {
      CandidateMapHolds(listed[..|listed| - 1]);
      assert listed == listed[..|listed| - 1] + [listed[|listed| - 1]];
    }
  }

  lemma CandidatesReload(listed: seq<Candidate>, candidates: map<Bytes, Candidate>)
    requires forall id :: id in candidates ==> candidates[id].txId == id
    requires forall i :: 0 <= i < |listed| ==> HoldsCandidate(candidates, listed[i])
    requires forall id :: id in candidates ==> candidates[id] in listed
    ensures CandidateMap(map[], listed) == candidates
  {
    CandidateMapHolds(listed);
  }

  lemma {:induction false} HeartbeatMapHolds(listed: seq<Heartbeat>)
    ensures forall key :: key in HeartbeatMap(map[], listed) ==>
              HeartbeatMap(map[], listed)[key] in listed
              && (HeartbeatMap(map[], listed)[key].membershipRevision,
                  HeartbeatMap(map[], listed)[key].validatorId) == key
    ensures forall h :: h in listed ==> (h.membershipRevision, h.validatorId) in HeartbeatMap(map[], listed)
  {
    if listed != [] {
      HeartbeatMapHolds(listed[..|listed| - 1]);
      assert listed == listed[..|listed| - 1] + [listed[|listed| - 1]];
    }
  }

  lemma HeartbeatsReload(listed: seq<Heartbeat>, heartbeats: map<(Bytes, Bytes), Heartbeat>)
    requires HeartbeatsKeyed(heartbeats)
    requires forall i :: 0 <= i < |listed| ==> HoldsHeartbeat(heartbeats, listed[i])
    requires forall key :: key in heartbeats ==> heartbeats[key] in listed
    ensures HeartbeatMap(map[], listed) == heartbeats
  {
    HeartbeatMapHolds(listed);
  }

  lemma OwnOrderVerified(s: Store, maximum: nat)
    requires Inv(s) && maximum >= 1
    ensures forall id :: id in s.candidates ==> s.candidates[id].txId == id
    ensures OrderVerified(Rebounded(s, maximum)) <==> KeysDistinct(s)
  {
    hide CompareKeys, HistoryGrows, Extends;
    ReboundedGood(s, maximum);
    var t := Rebounded(s, maximum);
    StrictExactlyWhenKeysDistinct(s);
    assert forall i :: 0 <= i < |t.order| ==> t.order[i] in t.order;
    StrictFromNeighbours(Keys(s.candidates, s.order));
  }

  lemma StrictFromNeighbours(keys: seq<OrderKey>)
    ensures StrictlySorted(keys) <==> forall i :: 0 < i < |keys| ==> Before(keys[i - 1], keys[i])
  {
    if forall i :: 0 < i < |keys| ==> Before(keys[i - 1], keys[i]) {
      forall i, j | 0 <= i < j < |keys| ensures Before(keys[i], keys[j]) { NeighboursChain(keys, i, j); }
    }
    if StrictlySorted(keys) {
      forall i | 0 < i < |keys| ensures Before(keys[i - 1], keys[i]) { }
    }
  }

  lemma {:induction false} NeighboursChain(keys: seq<OrderKey>, i: nat, j: nat)
    requires forall k :: 0 < k < |keys| ==> Before(keys[k - 1], keys[k])
    requires i < j < |keys|
    ensures Before(keys[i], keys[j])
    decreases j
  {
    if i < j - 1 {
      NeighboursChain(keys, i, j - 1);
      KeysTransitive(keys[i], keys[j - 1], keys[j]);
    }
  }

  lemma GoodParts(s: Store, t: Store)
    requires Good(s, t)
    ensures Inv(t)
  {
  }

  /** While a candidate is set but not yet inserted, the order can still be searched. */
  lemma WithCandidateSearchable(s: Store, c: Candidate, change: Change)
    requires Inv(s) && MayReplace(s, c) && Tells(s, c, change)
    ensures var t := WithCandidate(s, c, change); OrderKnown(t) && WeaklySorted(Keys(t.candidates, t.order))
  {
    WithCandidateKeeps(s, c, change);
  }

  lemma WithChangedSearchable(s: Store, next: Candidate, change: Change)
    requires Inv(s) && next.txId in s.candidates && SameCandidateIdentity(s.candidates[next.txId], next)
    requires Tells(s, next, change)
    requires TransitionError(s.candidates[next.txId].state, next.state).None?
    ensures var t := WithCandidate(s, next, change);
            OrderKnown(t) && (!s.candidates[next.txId].state.Admissible? ==> WeaklySorted(Keys(t.candidates, t.order)))
  {
    StateChangeGood(s, next, change);
    if !s.candidates[next.txId].state.Admissible? { WithCandidateKeeps(s, next, change); }
  }
}
