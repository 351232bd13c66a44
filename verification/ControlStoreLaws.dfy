/** What every run of the control store keeps: the order is sorted and lists exactly the
    admissible candidates, only grows, does not depend on arrival order, and can be followed
    through the bounded delta log. */
module ControlStoreLaws {
  import opened Bytes
  import opened Order
  import opened Sequences
  import opened ControlStoreModel

  ghost predicate WeaklySorted(keys: seq<OrderKey>) {
    forall i, j :: 0 <= i < j < |keys| ==> CompareKeys(keys[i], keys[j]) <= 0
  }

  ghost predicate StrictlySorted(keys: seq<OrderKey>) {
    forall i, j :: 0 <= i < j < |keys| ==> Before(keys[i], keys[j])
  }

  predicate IsAdmissible(s: Store, id: Bytes) {
    id in s.candidates && s.candidates[id].state.Admissible?
  }

  ghost predicate IdsMatch(s: Store) {
    forall id :: id in s.candidates ==> s.candidates[id].txId == id
  }

  ghost predicate ListsAdmissible(s: Store) {
    Distinct(s.order) && forall id :: id in s.order <==> IsAdmissible(s, id)
  }

  /** The retained deltas are the contiguous run deltaFloor+1 .. sequence, within the bound. */
  ghost predicate LogOk(s: Store) {
    && s.maximumRetainedDeltas >= 1
    && |s.deltas| <= s.maximumRetainedDeltas
    && s.deltaFloor + |s.deltas| == s.sequence
    && forall i :: 0 <= i < |s.deltas| ==> s.deltas[i].sequence == s.deltaFloor + 1 + i
  }

  ghost predicate Inv(s: Store) {
    && IdsMatch(s) && ListsAdmissible(s) && LogOk(s)
    && (forall i :: 0 <= i < |s.order| ==> s.order[i] in s.candidates)
    && WeaklySorted(Keys(s.candidates, s.order))
  }

  lemma EmptyInv(maximum: nat)
    requires maximum >= 1
    ensures Inv(Empty(maximum))
  {
  }

  // ---- the delta log

  lemma AppendKeepsLog(s: Store, change: Change)
    requires LogOk(s)
    ensures LogOk(AppendDelta(s, change))
    ensures AppendDelta(s, change).sequence == s.sequence + 1
  {
  }

  /** What can be followed through the log: the order, and the state of every candidate. */
  datatype View = View(order: seq<Bytes>, states: map<Bytes, CandidateState>)

  const NOTHING := View([], map[])

  function ViewOf(s: Store): View {
    View(s.order, map id | id in s.candidates :: s.candidates[id].state)
  }

  /** What a follower does with one delta. */
  function Follow(v: View, change: Change): View {
    match change
    case OrderAppend(txId, index, length) =>
      if index == length == |v.order| then v.(order := v.order + [txId]) else v
    case OrderInsert(txId, index, length) =>
      if index < length == |v.order| then v.(order := InsertAt(v.order, index, txId)) else v
    case CandidateAdded(txId, state) => if txId in v.states then v else v.(states := v.states[txId := state])
    case CandidateStateChanged(txId, previous, state, _) =>
      if txId in v.states && v.states[txId] == previous then v.(states := v.states[txId := state]) else v
    case _ => v
  }

  function FollowAll(v: View, deltas: seq<Delta>): View {
    if deltas == [] then v
    else Follow(FollowAll(v, deltas[..|deltas| - 1]), deltas[|deltas| - 1].change)
  }

  lemma {:induction false} FollowInTwoParts(v: View, a: seq<Delta>, b: seq<Delta>)
    ensures FollowAll(v, a + b) == FollowAll(FollowAll(v, a), b)
    decreases |b|
  {
    if b == [] {
      assert a + b == a;
    } else {
      assert (a + b)[..|a + b| - 1] == a + b[..|b| - 1];
      FollowInTwoParts(v, a, b[..|b| - 1]);
    }
  }

  /** `history` holds every delta ever appended: the retained ones are its tail, and following
      all of it from nothing gives the order and every candidate's state. */
  ghost predicate HistoryOk(s: Store, history: seq<Delta>) {
    && |history| == s.sequence
    && s.deltaFloor <= |history| && s.deltas == history[s.deltaFloor..]
    && FollowAll(NOTHING, history) == ViewOf(s)
  }

  lemma {:induction false} AfterIsSuffix(deltas: seq<Delta>, floor: nat, sequence: nat)
    requires forall i :: 0 <= i < |deltas| ==> deltas[i].sequence == floor + 1 + i
    requires floor <= sequence
    ensures After(deltas, sequence) == if sequence - floor <= |deltas| then deltas[sequence - floor..] else []
    decreases |deltas|
  {
    if deltas != [] {
      if sequence == floor {
        AllAfter(deltas, sequence);
      } else {
        assert forall i :: 0 <= i < |deltas[1..]| ==> deltas[1..][i] == deltas[i + 1];
        AfterIsSuffix(deltas[1..], floor + 1, sequence);
      }
    }
  }

  lemma {:induction false} AllAfter(deltas: seq<Delta>, sequence: nat)
    requires forall i :: 0 <= i < |deltas| ==> deltas[i].sequence > sequence
    ensures After(deltas, sequence) == deltas
  {
    if deltas != [] {
      AllAfter(deltas[1..], sequence);
      assert deltas == [deltas[0]] + deltas[1..];
    }
  }

  /** A follower that holds the view as of any retained sequence number and applies the changes
      since then holds the current view. Below the floor the store refuses. */
  lemma FollowerCatchesUp(s: Store, history: seq<Delta>, sequence: nat)
    requires LogOk(s) && HistoryOk(s, history) && sequence <= s.sequence
    ensures ChangesSince(s, sequence).Ok? <==> s.deltaFloor <= sequence
    ensures s.deltaFloor <= sequence ==>
              FollowAll(FollowAll(NOTHING, history[..sequence]), ChangesSince(s, sequence).value) == ViewOf(s)
  {
    hide FollowAll, After;
    if s.deltaFloor <= sequence {
      AfterIsSuffix(s.deltas, s.deltaFloor, sequence);
      assert history[s.deltaFloor..][sequence - s.deltaFloor..] == history[sequence..];
      FollowInTwoParts(NOTHING, history[..sequence], history[sequence..]);
      assert history[..sequence] + history[sequence..] == history;
    }
  }

  /** Appending a delta keeps the history when the order changed exactly as the delta says. */
  lemma AppendKeepsHistory(s: Store, history: seq<Delta>, changed: Store, change: Change)
    requires LogOk(s) && HistoryOk(s, history)
    requires changed.sequence == s.sequence && changed.deltas == s.deltas && changed.deltaFloor == s.deltaFloor
    requires changed.maximumRetainedDeltas == s.maximumRetainedDeltas
    requires ViewOf(changed) == Follow(ViewOf(s), change)
    ensures HistoryOk(AppendDelta(changed, change), history + [Delta(s.sequence + 1, change)])
  {
    hide Follow, ViewOf;
    var d := Delta(s.sequence + 1, change);
    assert (history + [d])[..|history|] == history;
    assert s.deltas + [d] == (history + [d])[s.deltaFloor..];
    assert ViewOf(AppendDelta(changed, change)) == ViewOf(changed) by { SameView(changed, change); }
  }

  lemma SameView(s: Store, change: Change)
    ensures ViewOf(AppendDelta(s, change)) == ViewOf(s)
  {
  }

  // ---- the order

  /** In a sorted order the insertion point separates smaller keys from the rest. */
  lemma PositionSeparates(keys: seq<OrderKey>, key: OrderKey)
    requires WeaklySorted(keys)
    ensures forall i :: Position(keys, key) <= i < |keys| ==> !Before(keys[i], key)
  {
    var k := Position(keys, key);
    forall i | k <= i < |keys| ensures !Before(keys[i], key) {
      if Before(keys[i], key) && k < i { KeysTransitive(keys[k], keys[i], key); }
    }
  }

  lemma InsertSortedKey(keys: seq<OrderKey>, key: OrderKey)
    requires WeaklySorted(keys)
    ensures WeaklySorted(InsertAt(keys, Position(keys, key), key))
  {
    hide CompareKeys, Position;
    var k := Position(keys, key);
    PositionSeparates(keys, key);
    var r := InsertAt(keys, k, key);
    forall i, j | 0 <= i < j < |r| ensures CompareKeys(r[i], r[j]) <= 0 {
      if i == k {
        KeysTotallyOrdered(key, keys[j - 1]);
      }
    }
  }

  lemma InsertOrderKeeps(s: Store, c: Candidate)
    requires IdsMatch(s) && LogOk(s) && OrderKnown(s) && WeaklySorted(Keys(s.candidates, s.order))
    requires Distinct(s.order) && c.txId !in s.order
    requires c.txId in s.candidates && s.candidates[c.txId] == c && c.state.Admissible?
    requires forall id :: id in s.order || id == c.txId <==> IsAdmissible(s, id)
    ensures InsertOrder(s, c).Ok? && Inv(InsertOrder(s, c).value)
    ensures InsertOrder(s, c).value.candidates == s.candidates
    ensures Subsequence(s.order, InsertOrder(s, c).value.order)
  {
    hide WeaklySorted, Position, Distinct, Subsequence, Before;
    var keys := Keys(s.candidates, s.order);
    var k := Position(keys, c.orderKey);
    InsertSortedKey(keys, c.orderKey);
    InsertionIsSupersequence(s.order, k, c.txId);
    InsertListing(s.order, k, c.txId);
    KeysOfInsertion(s.candidates, s.order, k, c.txId);
    var inserted := s.(order := InsertAt(s.order, k, c.txId));
    AppendKeepsLog(inserted, OrderAppend(c.txId, k, |s.order|));
    AppendKeepsLog(inserted, OrderInsert(c.txId, k, |s.order|));
  }

  lemma InsertListing(order: seq<Bytes>, k: nat, x: Bytes)
    requires k <= |order| && Distinct(order) && x !in order
    ensures Distinct(InsertAt(order, k, x))
    ensures forall id :: id in InsertAt(order, k, x) <==> id in order || id == x
  {
    var r := InsertAt(order, k, x);
    assert r[k] == x && forall i :: 0 <= i < |order| ==> order[i] == r[if i < k then i else i + 1];
  }

  lemma KeysOfInsertion(candidates: map<Bytes, Candidate>, order: seq<Bytes>, k: nat, x: Bytes)
    requires k <= |order| && x in candidates && forall i :: 0 <= i < |order| ==> order[i] in candidates
    ensures forall i :: 0 <= i < |order| + 1 ==> InsertAt(order, k, x)[i] in candidates
    ensures Keys(candidates, InsertAt(order, k, x)) == InsertAt(Keys(candidates, order), k, candidates[x].orderKey)
  {
  }

  // ---- every operation

  /** What no operation undoes: identities and keys, admission, terminal states, the relative
      order of admitted transactions. */
  ghost predicate Extends(s: Store, t: Store) {
    && Subsequence(s.order, t.order)
    && (forall id :: id in s.candidates ==>
          && id in t.candidates
          && SameCandidateIdentity(s.candidates[id], t.candidates[id])
          && (s.candidates[id].state.Admissible? ==> t.candidates[id].state.Admissible?)
          && (Terminal(s.candidates[id].state) ==> t.candidates[id].state == s.candidates[id].state))
  }

  lemma ExtendsReflexive(s: Store)
    ensures Extends(s, s)
  {
    SubsequenceReflexive(s.order);
  }

  lemma ExtendsTransitive(s: Store, t: Store, u: Store)
    requires Extends(s, t) && Extends(t, u)
    ensures Extends(s, u)
  {
    SubsequenceTransitive(s.order, t.order, u.order);
  }

  ghost predicate Continues(t: Store, h: seq<Delta>) {
    exists longer :: h <= longer && HistoryOk(t, longer)
  }

  /** Every history of the old store goes on to a history of the new one. */
  ghost predicate HistoryGrows(s: Store, t: Store) {
    forall h :: HistoryOk(s, h) ==> Continues(t, h)
  }

  lemma HistoryGrowsOn(s: Store, t: Store, u: Store)
    requires HistoryGrows(s, t) && HistoryGrows(t, u)
    ensures HistoryGrows(s, u)
  {
    hide HistoryOk;
    forall h | HistoryOk(s, h) ensures Continues(u, h) {
      assert Continues(t, h);
      var a :| h <= a && HistoryOk(t, a);
      assert Continues(u, a);
      var b :| a <= b && HistoryOk(u, b);
    }
  }

  lemma LoggedHistory(s: Store, changed: Store, change: Change)
    requires LogOk(s)
    requires changed.sequence == s.sequence && changed.deltas == s.deltas && changed.deltaFloor == s.deltaFloor
    requires changed.maximumRetainedDeltas == s.maximumRetainedDeltas
    requires ViewOf(changed) == Follow(ViewOf(s), change)
    ensures HistoryGrows(s, AppendDelta(changed, change))
  {
    hide HistoryOk, AppendDelta, Follow;
    forall h | HistoryOk(s, h) ensures Continues(AppendDelta(changed, change), h) {
      AppendKeepsHistory(s, h, changed, change);
      assert h <= h + [Delta(s.sequence + 1, change)];
    }
  }

  lemma InsertedHistory(s: Store, c: Candidate)
    requires LogOk(s) && OrderKnown(s) && InsertOrder(s, c).Ok?
    ensures HistoryGrows(s, InsertOrder(s, c).value)
  {
    var k := Position(Keys(s.candidates, s.order), c.orderKey);
    var change := if k == |s.order| then OrderAppend(c.txId, k, |s.order|) else OrderInsert(c.txId, k, |s.order|);
    LoggedHistory(s, s.(order := InsertAt(s.order, k, c.txId)), change);
  }

  /** An operation's effect: the invariant holds again, nothing admitted is lost, and the delta
      log records what happened to the order. */
  ghost predicate Good(s: Store, t: Store) {
    Inv(t) && Extends(s, t) && HistoryGrows(s, t)
  }

  lemma GoodReflexive(s: Store)
    requires Inv(s)
    ensures Good(s, s)
  {
    hide HistoryOk;
    ExtendsReflexive(s);
    forall h | HistoryOk(s, h) ensures Continues(s, h) { assert h <= h; }
  }

  lemma GoodTransitive(s: Store, t: Store, u: Store)
    requires Good(s, t) && Good(t, u)
    ensures Good(s, u)
  {
    ExtendsTransitive(s, t, u);
    HistoryGrowsOn(s, t, u);
  }

  /** A candidate may be set when it is new or has the identity of the one it replaces. */
  ghost predicate MayReplace(s: Store, c: Candidate) {
    c.txId in s.candidates ==>
      && SameCandidateIdentity(s.candidates[c.txId], c)
      && !s.candidates[c.txId].state.Admissible?
      && (Terminal(s.candidates[c.txId].state) ==> s.candidates[c.txId].state == c.state)
  }

  /** The change tells a follower that this candidate was set. */
  ghost predicate Tells(s: Store, c: Candidate, change: Change) {
    Follow(ViewOf(s), change) == ViewOf(s.(candidates := s.candidates[c.txId := c]))
  }

  lemma StateChangeTells(s: Store, next: Candidate, reason: Option<string>)
    requires next.txId in s.candidates
    ensures Tells(s, next, CandidateStateChanged(next.txId, s.candidates[next.txId].state, next.state, reason))
  {
  }

  lemma WithCandidateKeeps(s: Store, c: Candidate, change: Change)
    requires Inv(s) && MayReplace(s, c)
    requires Tells(s, c, change)
    ensures var t := WithCandidate(s, c, change);
            && IdsMatch(t) && LogOk(t) && OrderKnown(t) && t.order == s.order && c.txId !in t.order
            && t.candidates == s.candidates[c.txId := c]
            && WeaklySorted(Keys(t.candidates, t.order)) && HistoryGrows(s, t)
  {
    hide AppendDelta, WeaklySorted, HistoryGrows, LogOk, SameCandidateIdentity;
    var changed := s.(candidates := s.candidates[c.txId := c]);
    AppendChangesLogOnly(changed, change);
    assert LogOk(changed) by { SameLog(s, changed); }
    AppendKeepsLog(changed, change);
    LoggedHistory(s, changed, change);
    assert !IsAdmissible(s, c.txId);
    assert Keys(changed.candidates, changed.order) == Keys(s.candidates, s.order);
  }

  lemma SameLog(s: Store, t: Store)
    requires LogOk(s) && t.sequence == s.sequence && t.deltaFloor == s.deltaFloor && t.deltas == s.deltas
    requires t.maximumRetainedDeltas == s.maximumRetainedDeltas
    ensures LogOk(t)
  {
  }

  lemma AppendChangesLogOnly(s: Store, change: Change)
    ensures var t := AppendDelta(s, change);
            t.candidates == s.candidates && t.order == s.order
            && t.attestations == s.attestations && t.heartbeats == s.heartbeats
  {
  }

  lemma SetCandidateGood(s: Store, c: Candidate, change: Change)
    requires Inv(s) && MayReplace(s, c) && !c.state.Admissible?
    requires Tells(s, c, change)
    ensures Good(s, WithCandidate(s, c, change))
  {
    hide WeaklySorted, HistoryGrows, LogOk, WithCandidate, Subsequence, Distinct;
    WithCandidateKeeps(s, c, change);
    SubsequenceReflexive(s.order);
    var t := WithCandidate(s, c, change);
    forall id ensures id in t.order <==> IsAdmissible(t, id) {
      assert id in s.order <==> IsAdmissible(s, id);
    }
  }

  lemma AdmitCandidateGood(s: Store, c: Candidate, change: Change)
    requires Inv(s) && MayReplace(s, c) && c.state.Admissible?
    requires Tells(s, c, change)
    requires OrderKnown(WithCandidate(s, c, change))
    ensures InsertOrder(WithCandidate(s, c, change), c).Ok?
    ensures Good(s, InsertOrder(WithCandidate(s, c, change), c).value)
    ensures IsAdmissible(InsertOrder(WithCandidate(s, c, change), c).value, c.txId)
  {
    hide WeaklySorted, HistoryGrows, LogOk, WithCandidate, Subsequence, Distinct, InsertOrder;
    WithCandidateKeeps(s, c, change);
    var t := WithCandidate(s, c, change);
    forall id ensures id in t.order || id == c.txId <==> IsAdmissible(t, id) {
      assert id in s.order <==> IsAdmissible(s, id);
    }
    InsertOrderKeeps(t, c);
    InsertedHistory(t, c);
    HistoryGrowsOn(s, t, InsertOrder(t, c).value);
  }

  lemma PutCandidateGood(s: Store, c: Candidate)
    requires Inv(s)
    ensures PutCandidate(s, c).Ok? <==> (c.txId in s.candidates ==> SameCandidateIdentity(s.candidates[c.txId], c))
    ensures PutCandidate(s, c).Ok? ==> Good(s, PutCandidate(s, c).value)
  {
    hide Good, InsertOrder, AppendDelta, SameCandidateIdentity, WeaklySorted, Distinct, LogOk;
    GoodReflexive(s);
    if c.txId !in s.candidates {
      var change := CandidateAdded(c.txId, c.state);
      WithCandidateKeeps(s, c, change);
      if c.state.Admissible? { AdmitCandidateGood(s, c, change); } else { SetCandidateGood(s, c, change); }
    }
  }

  lemma InvParts(s: Store)
    requires Inv(s)
    ensures IdsMatch(s) && OrderKnown(s)
  {
  }

  /** Setting a state never hits the duplicate-order error: once the transition and the proof are
      accepted, the call succeeds. */
  lemma SetStateGood(s: Store, txId: Bytes, state: CandidateState, proof: Option<seq<Bytes>>, reason: Option<string>)
    requires Inv(s)
    ensures var r := SetCandidateState(s, txId, state, proof, reason);
            (r.Ok? ==> Good(s, r.value)) && r != Err(DuplicateOrderEntry)
  {
    hide Good, InsertOrder, WithCandidate, Inv, ProofBelongs, OrderKnown, Tells;
    GoodReflexive(s);
    assert IdsMatch(s) && OrderKnown(s) by { InvParts(s); }
    if txId in s.candidates && TransitionError(s.candidates[txId].state, state).None? {
      var c := s.candidates[txId];
      var ids := if proof.Some? then proof.value else c.proofAttestationIds;
      var next := c.(state := state, proofAttestationIds := ids,
          stateReason := if reason.Some? then reason else c.stateReason);
      StateChangeTells(s, next, reason);
      StateChangeGood(s, next, CandidateStateChanged(txId, c.state, state, reason));
    }
  }

  lemma StateChangeGood(s: Store, next: Candidate, change: Change)
    requires Inv(s) && next.txId in s.candidates && SameCandidateIdentity(s.candidates[next.txId], next)
    requires TransitionError(s.candidates[next.txId].state, next.state).None?
    requires Tells(s, next, change)
    ensures OrderKnown(WithCandidate(s, next, change))
    ensures var t := WithCandidate(s, next, change);
            if !s.candidates[next.txId].state.Admissible? && next.state.Admissible?
            then InsertOrder(t, next).Ok? && Good(s, InsertOrder(t, next).value) else Good(s, t)
  {
    hide Good, InsertOrder, AppendDelta, WeaklySorted, Distinct, LogOk, HistoryGrows;
    AppendChangesLogOnly(s.(candidates := s.candidates[next.txId := next]), change);
    if s.candidates[next.txId].state.Admissible? {
      StillAdmissibleGood(s, next, change);
    } else {
      WithCandidateKeeps(s, next, change);
      if next.state.Admissible? { AdmitCandidateGood(s, next, change); } else { SetCandidateGood(s, next, change); }
    }
  }

  /** An admitted candidate may still get a new proof or reason. */
  lemma StillAdmissibleGood(s: Store, c: Candidate, change: Change)
    requires Inv(s) && IsAdmissible(s, c.txId) && c.state.Admissible?
    requires SameCandidateIdentity(s.candidates[c.txId], c) && Tells(s, c, change)
    ensures Good(s, WithCandidate(s, c, change))
  {
    hide WeaklySorted, HistoryGrows, LogOk, AppendDelta, Subsequence, Distinct;
    var changed := s.(candidates := s.candidates[c.txId := c]);
    SameLog(s, changed);
    AppendChangesLogOnly(changed, change);
    AppendKeepsLog(changed, change);
    LoggedHistory(s, changed, change);
    SubsequenceReflexive(s.order);
    var t := WithCandidate(s, c, change);
    forall id ensures id in t.order <==> IsAdmissible(t, id) {
      assert id in s.order <==> IsAdmissible(s, id);
    }
    assert Keys(t.candidates, t.order) == Keys(s.candidates, s.order);
  }

  /** Operations that leave candidates and order alone. */
  lemma LoggedGood(s: Store, changed: Store, change: Change)
    requires Inv(s) && changed.candidates == s.candidates && changed.order == s.order
    requires changed.sequence == s.sequence && changed.deltas == s.deltas && changed.deltaFloor == s.deltaFloor
    requires changed.maximumRetainedDeltas == s.maximumRetainedDeltas
    requires Follow(ViewOf(s), change) == ViewOf(s)
    ensures Good(s, AppendDelta(changed, change))
  {
    hide WeaklySorted, HistoryGrows, LogOk, AppendDelta, Subsequence, Distinct;
    SameLog(s, changed);
    AppendChangesLogOnly(changed, change);
    AppendKeepsLog(changed, change);
    LoggedHistory(s, changed, change);
    SubsequenceReflexive(s.order);
    forall id ensures id in changed.order <==> IsAdmissible(AppendDelta(changed, change), id) {
      assert id in s.order <==> IsAdmissible(s, id);
    }
  }

  // ---- restarts

  /** The store rebuilt from its own snapshot, possibly with another retention bound. */
  function Rebounded(s: Store, maximum: nat): Store {
    var kept := Trimmed(s.deltas, maximum);
    s.(maximumRetainedDeltas := maximum, deltas := kept,
       deltaFloor := if |kept| < |s.deltas| then s.deltas[|s.deltas| - |kept| - 1].sequence else s.deltaFloor)
  }

  lemma ReboundedGood(s: Store, maximum: nat)
    requires Inv(s) && maximum >= 1
    ensures Good(s, Rebounded(s, maximum))
  {
    var t := Rebounded(s, maximum);
    ExtendsReflexive(s);
    assert LogOk(t);
    forall h | HistoryOk(s, h) ensures Continues(t, h) { assert h <= h && HistoryOk(t, h); }
  }

  // ---- runs

  datatype Op =
    | PutCandidateOp(candidate: Candidate)
    | PutAttestationOp(attestation: Attestation)
    | SetStateOp(txId: Bytes, state: CandidateState, proof: Option<seq<Bytes>>, reason: Option<string>)
    | EvaluateOp(txId: Bytes, evaluator: (Candidate, seq<Attestation>) -> Evaluation)
    | HeartbeatOp(heartbeat: Heartbeat)
    | RestartOp(maximum: nat)

  /** A restart reads the store's own snapshot back; the restore check refuses equal order keys. */
  ghost function Attempt(s: Store, op: Op): Result<Store>
    requires OrderKnown(s)
  {
    match op
    case PutCandidateOp(c) => PutCandidate(s, c)
    case PutAttestationOp(a) => PutAttestation(s, a)
    case SetStateOp(txId, state, proof, reason) => SetCandidateState(s, txId, state, proof, reason)
    case EvaluateOp(txId, evaluator) => EvaluateAdmission(s, txId, evaluator)
    case HeartbeatOp(h) => RecordHeartbeat(s, h)
    case RestartOp(maximum) =>
      if maximum < 1 then Err(InvalidDeltaRetention) else if !KeysDistinct(s) then Err(CorruptOrder)
      else Ok(Rebounded(s, maximum))
  }

  lemma AttemptGood(s: Store, op: Op)
    requires Inv(s)
    ensures Attempt(s, op).Ok? ==> Good(s, Attempt(s, op).value)
  {
    hide Good, AppendDelta, InsertOrder, Rebounded, KeysDistinct;
    GoodReflexive(s);
    match op
    case PutCandidateOp(c) => PutCandidateGood(s, c);
    case PutAttestationOp(a) =>
      LoggedGood(s, s.(attestations := s.attestations + [a]),
                 AttestationAdded(a.attestationId, a.txId, a.txId !in s.candidates));
    case SetStateOp(txId, state, proof, reason) => SetStateGood(s, txId, state, proof, reason);
    case EvaluateOp(txId, evaluator) =>
      if txId in s.candidates {
        var answer := evaluator(s.candidates[txId], AttestationsFor(s.attestations, txId));
        SetStateGood(s, txId, if answer.admit then Admissible else PendingValidation, answer.proof, answer.reason);
      }
    case HeartbeatOp(h) =>
      LoggedGood(s, s.(heartbeats := s.heartbeats[(h.membershipRevision, h.validatorId) := h]),
                 HeartbeatAdvanced(h.heartbeatId, h.validatorId, h.acceptanceCutoffMs, h.feedContiguous));
    case RestartOp(maximum) => if maximum >= 1 { ReboundedGood(s, maximum); }
  }

  /** A failed operation leaves the store as it was. */
  ghost function Run(s: Store, ops: seq<Op>): (t: Store)
    requires Inv(s)
    ensures Inv(t)
    decreases |ops|
  {
    if ops == [] then s
    else
      var before := Run(s, ops[..|ops| - 1]);
      AttemptGood(before, ops[|ops| - 1]);
      match Attempt(before, ops[|ops| - 1]) case Ok(after) => after case Err(_) => before
  }

  /** Everything a run keeps, between any two of its moments. */
  lemma {:induction false} RunGood(s: Store, ops: seq<Op>)
    requires Inv(s)
    ensures Good(s, Run(s, ops))
    decreases |ops|
  {
    hide Inv, Good, Attempt;
    if ops == [] {
      GoodReflexive(s);
    } else {
      var before := Run(s, ops[..|ops| - 1]);
      RunGood(s, ops[..|ops| - 1]);
      AttemptGood(before, ops[|ops| - 1]);
      GoodReflexive(before);
      GoodTransitive(s, before, Run(s, ops));
    }
  }

  lemma {:induction false} RunInTwoParts(s: Store, a: seq<Op>, b: seq<Op>)
    requires Inv(s)
    ensures Run(s, a + b) == Run(Run(s, a), b)
    decreases |b|
  {
    hide Attempt, Inv;
    if b == [] {
      assert a + b == a;
    } else {
      assert (a + b)[..|a + b| - 1] == a + b[..|b| - 1];
      RunInTwoParts(s, a, b[..|b| - 1]);
    }
  }

  /** Every earlier order of a run is a subsequence of every later one, and admission is final. */
  lemma EarlierOrderSurvives(maximum: nat, a: seq<Op>, b: seq<Op>)
    requires maximum >= 1
    ensures Inv(Empty(maximum))
    ensures Extends(Run(Empty(maximum), a), Run(Empty(maximum), a + b))
  {
    EmptyInv(maximum);
    RunInTwoParts(Empty(maximum), a, b);
    RunGood(Run(Empty(maximum), a), b);
  }

  /** No two admissible candidates share an order key. */
  ghost predicate KeysDistinct(s: Store) {
    forall a, b ::
      IsAdmissible(s, a) && IsAdmissible(s, b) && a != b ==> s.candidates[a].orderKey != s.candidates[b].orderKey
  }

  /** The order of a good store is strictly sorted exactly when no two admissible candidates
      share an order key. */
  lemma StrictExactlyWhenKeysDistinct(s: Store)
    requires Inv(s)
    ensures StrictlySorted(Keys(s.candidates, s.order)) <==> KeysDistinct(s)
  {
    hide CompareKeys, LogOk, WeaklySorted;
    var keys := Keys(s.candidates, s.order);
    if KeysDistinct(s) {
      forall i, j | 0 <= i < j < |keys| ensures Before(keys[i], keys[j]) {
        assert s.order[i] in s.order && s.order[j] in s.order;
        KeysTotallyOrdered(keys[i], keys[j]);
        WeaklyBefore(keys, i, j);
      }
    }
    if StrictlySorted(keys) {
      forall a, b | IsAdmissible(s, a) && IsAdmissible(s, b) && a != b
        ensures s.candidates[a].orderKey != s.candidates[b].orderKey
      {
        var i :| 0 <= i < |s.order| && s.order[i] == a;
        var j :| 0 <= j < |s.order| && s.order[j] == b;
        KeysTotallyOrdered(keys[i], keys[j]);
        assert if i < j then Before(keys[i], keys[j]) else Before(keys[j], keys[i]);
      }
    }
  }

  lemma WeaklyBefore(keys: seq<OrderKey>, i: nat, j: nat)
    requires WeaklySorted(keys) && i < j < |keys|
    ensures CompareKeys(keys[i], keys[j]) <= 0
  {
  }

  /** Two stores with the same admissible candidates under the same distinct keys have the same
      order, whatever runs led to them. */
  lemma SameAdmissionsSameOrder(s: Store, t: Store)
    requires Inv(s) && Inv(t) && KeysDistinct(s)
    requires forall id :: IsAdmissible(s, id) <==> IsAdmissible(t, id)
    requires forall id :: IsAdmissible(s, id) ==> s.candidates[id].orderKey == t.candidates[id].orderKey
    ensures s.order == t.order
  {
    hide ListsAdmissible, WeaklySorted, StrictlySorted, CompareKeys, LogOk;
    var key := map id | id in s.candidates && s.candidates[id].state.Admissible? :: s.candidates[id].orderKey;
    assert KeysDistinct(t);
    StrictExactlyWhenKeysDistinct(s);
    StrictExactlyWhenKeysDistinct(t);
    OrderAsListing(s, key);
    OrderAsListing(t, key);
    SameListing(key, s.order, t.order);
  }

  /** `order` lists the keys of `key` in strictly increasing order. */
  ghost predicate Listing(key: map<Bytes, OrderKey>, order: seq<Bytes>) {
    && (forall id :: id in order <==> id in key)
    && (forall i, j :: 0 <= i < j < |order| ==>
          order[i] in key && order[j] in key && Before(key[order[i]], key[order[j]]))
  }

  lemma OrderAsListing(s: Store, key: map<Bytes, OrderKey>)
    requires Inv(s) && StrictlySorted(Keys(s.candidates, s.order))
    requires forall id :: id in key <==> IsAdmissible(s, id)
    requires forall id :: id in key ==> key[id] == s.candidates[id].orderKey
    ensures Listing(key, s.order)
  {
    forall i, j | 0 <= i < j < |s.order|
      ensures s.order[i] in key && s.order[j] in key && Before(key[s.order[i]], key[s.order[j]])
    {
      assert s.order[i] in s.order && s.order[j] in s.order;
      assert Before(Keys(s.candidates, s.order)[i], Keys(s.candidates, s.order)[j]);
    }
  }

  /** A set of ids under distinct keys has only one strictly increasing listing. */
  lemma {:induction false} SameListing(key: map<Bytes, OrderKey>, a: seq<Bytes>, b: seq<Bytes>)
    requires Listing(key, a) && Listing(key, b)
    ensures a == b
    decreases |a|
  {
    hide Listing;
    SameFirst(key, a, b);
    if a != [] {
      RestOfListing(key, a);
      RestOfListing(key, b);
      SameListing(key - {a[0]}, a[1..], b[1..]);
      assert a == [a[0]] + a[1..] && b == [b[0]] + b[1..];
    }
  }

  lemma SameFirst(key: map<Bytes, OrderKey>, a: seq<Bytes>, b: seq<Bytes>)
    requires Listing(key, a) && Listing(key, b)
    ensures a == [] <==> b == []
    ensures a != [] ==> a[0] == b[0]
  {
    assert forall id :: id in a <==> id in b;
    assert a != [] ==> a[0] in a;
    assert b != [] ==> b[0] in b;
    if a != [] && b != [] {
      FirstOfListing(key, a, b[0]);
      FirstOfListing(key, b, a[0]);
      KeysTotallyOrdered(key[a[0]], key[b[0]]);
    }
  }

  lemma FirstOfListing(key: map<Bytes, OrderKey>, a: seq<Bytes>, id: Bytes)
    requires Listing(key, a) && id in a
    ensures a[0] in key && id in key && (id == a[0] || Before(key[a[0]], key[id]))
  {
    assert a[0] in a;
    var i :| 0 <= i < |a| && a[i] == id;
  }

  lemma RestOfListing(key: map<Bytes, OrderKey>, a: seq<Bytes>)
    requires Listing(key, a) && a != []
    ensures Listing(key - {a[0]}, a[1..])
  {
    forall i | 1 <= i < |a| ensures a[i] != a[0] && a[i] in key {
      assert Before(key[a[0]], key[a[i]]);
      KeysTotallyOrdered(key[a[0]], key[a[0]]);
    }
    forall id ensures id in a[1..] <==> id in key - {a[0]} {
      assert a == [a[0]] + a[1..];
      assert id in a <==> id in key;
    }
    assert forall i :: 0 <= i < |a| - 1 ==> a[1..][i] == a[i + 1];
  }

  // ---- equal keys

  /** Both stores admit the same transactions, under the same keys. */
  ghost predicate SameAdmissions(s: Store, t: Store) {
    && (forall id :: IsAdmissible(s, id) <==> IsAdmissible(t, id))
    && (forall id :: IsAdmissible(s, id) ==> s.candidates[id].orderKey == t.candidates[id].orderKey)
  }

  /** The candidates put in from the last to the first. */
  function PutFromLast(order: seq<Bytes>, candidates: map<Bytes, Candidate>): seq<Op>
    requires forall i :: 0 <= i < |order| ==> order[i] in candidates
  {
    if order == [] then []
    else
      assert forall i :: 0 <= i < |order[1..]| ==> order[1..][i] == order[i + 1];
      PutFromLast(order[1..], candidates) + [PutCandidateOp(candidates[order[0]])]
  }

  ghost predicate Arranged(candidates: map<Bytes, Candidate>, order: seq<Bytes>) {
    && Distinct(order) && (forall i :: 0 <= i < |order| ==> Arrangeable(candidates, order[i]))
    && WeaklySorted(Keys(candidates, order))
  }

  predicate Arrangeable(candidates: map<Bytes, Candidate>, id: Bytes) {
    id in candidates && candidates[id].txId == id && candidates[id].state.Admissible?
  }

  lemma ArrangedRest(candidates: map<Bytes, Candidate>, order: seq<Bytes>)
    requires Arranged(candidates, order) && order != []
    ensures Arranged(candidates, order[1..]) && order[0] !in order[1..]
    ensures Position(Keys(candidates, order[1..]), candidates[order[0]].orderKey) == 0
  {
    hide CompareKeys;
    var rest := order[1..];
    assert forall i :: 0 <= i < |rest| ==> rest[i] == order[i + 1];
    if rest != [] { KeysTotallyOrdered(Keys(candidates, order)[0], Keys(candidates, order)[1]); }
  }

  /** Every sorted arrangement of admissible candidates is the order of some run. */
  lemma AnyArrangementArises(maximum: nat, candidates: map<Bytes, Candidate>, order: seq<Bytes>)
    requires maximum >= 1 && Arranged(candidates, order)
    ensures Inv(Empty(maximum))
    ensures var t := Run(Empty(maximum), PutFromLast(order, candidates));
            && t.order == order && t.candidates.Keys == (set id | id in order)
            && forall id :: id in order ==> t.candidates[id] == candidates[id]
  {
    hide Run, Inv;
    EmptyInv(maximum);
    ArisesFromLast(maximum, candidates, order);
  }

  ghost predicate HoldsJust(t: Store, candidates: map<Bytes, Candidate>, order: seq<Bytes>)
    requires forall i :: 0 <= i < |order| ==> order[i] in candidates
  {
    && t.order == order && t.candidates.Keys == (set id | id in order)
    && forall id :: id in order ==> t.candidates[id] == candidates[id]
  }

  lemma {:induction false} ArisesFromLast(maximum: nat, candidates: map<Bytes, Candidate>, order: seq<Bytes>)
    requires maximum >= 1 && Arranged(candidates, order) && Inv(Empty(maximum))
    ensures HoldsJust(Run(Empty(maximum), PutFromLast(order, candidates)), candidates, order)
  {
    hide WeaklySorted, CompareKeys, Inv, PutCandidate, Position, Run, HoldsJust, OrderKnown;
    if order == [] {
      RunNothing(Empty(maximum));
      assert HoldsJust(Empty(maximum), candidates, []) by { NothingHeld(maximum, candidates); }
    } else {
      var rest := order[1..];
      ArrangedRest(candidates, order);
      ArisesFromLast(maximum, candidates, rest);
      RunPut(Empty(maximum), PutFromLast(rest, candidates), candidates[order[0]]);
      HoldsOneMore(Run(Empty(maximum), PutFromLast(rest, candidates)), candidates, order);
    }
  }

  lemma NothingHeld(maximum: nat, candidates: map<Bytes, Candidate>)
    ensures HoldsJust(Empty(maximum), candidates, [])
  {
  }

  lemma HoldsOneMore(s: Store, candidates: map<Bytes, Candidate>, order: seq<Bytes>)
    requires Arranged(candidates, order) && order != [] && Arranged(candidates, order[1..]) && OrderKnown(s)
    requires HoldsJust(s, candidates, order[1..])
    ensures PutCandidate(s, candidates[order[0]]).Ok?
    ensures HoldsJust(PutCandidate(s, candidates[order[0]]).value, candidates, order)
  {
    hide PutCandidate, Arranged, Arrangeable, Position, OrderKnown;
    ArrangedRest(candidates, order);
    ArrangedFirst(candidates, order);
    ArrivesFirst(s, candidates, order[1..], order[0]);
    assert order == [order[0]] + order[1..];
  }

  lemma RunNothing(s: Store)
    requires Inv(s)
    ensures Run(s, []) == s
  {
  }

  lemma RunPut(s: Store, ops: seq<Op>, c: Candidate)
    requires Inv(s)
    ensures var before := Run(s, ops);
            && OrderKnown(before)
            && Run(s, ops + [PutCandidateOp(c)]) ==
                 match PutCandidate(before, c) case Ok(after) => after case Err(_) => before
  {
    hide PutCandidate, Inv;
    InvParts(Run(s, ops));
    assert (ops + [PutCandidateOp(c)])[..|ops|] == ops;
  }

  lemma ArrangedFirst(candidates: map<Bytes, Candidate>, order: seq<Bytes>)
    requires Arranged(candidates, order) && order != []
    ensures Arrangeable(candidates, order[0]) && forall i :: 0 <= i < |order| ==> order[i] in candidates
  {
  }

  lemma ArrivesFirst(s: Store, candidates: map<Bytes, Candidate>, rest: seq<Bytes>, id: Bytes)
    requires OrderKnown(s) && s.order == rest && s.candidates.Keys == (set x | x in rest)
    requires forall i :: 0 <= i < |rest| ==> rest[i] in candidates
    requires forall i :: 0 <= i < |rest| ==> rest[i] in s.candidates && s.candidates[rest[i]] == candidates[rest[i]]
    requires Arrangeable(candidates, id) && id !in rest
    requires Position(Keys(candidates, rest), candidates[id].orderKey) == 0
    ensures var t := PutCandidate(s, candidates[id]);
            && t.Ok? && t.value.order == [id] + rest && t.value.candidates == s.candidates[id := candidates[id]]
  {
    hide Position, Before, AppendDelta;
    var c := candidates[id];
    AppendChangesLogOnly(s.(candidates := s.candidates[id := c]), CandidateAdded(id, c.state));
    var added := WithCandidate(s, c, CandidateAdded(id, c.state));
    assert OrderKnown(added);
    assert Keys(added.candidates, added.order) == Keys(candidates, rest);
    var inserted := added.(order := InsertAt(added.order, 0, id));
    AppendChangesLogOnly(inserted, OrderAppend(id, 0, |rest|));
    AppendChangesLogOnly(inserted, OrderInsert(id, 0, |rest|));
    assert InsertAt(rest, 0, id) == [id] + rest;
  }

  lemma EqualKeysAdjoin(s: Store) returns (k: nat)
    requires Inv(s) && !KeysDistinct(s)
    ensures k + 1 < |s.order| && s.candidates[s.order[k]].orderKey == s.candidates[s.order[k + 1]].orderKey
  {
    hide CompareKeys, LogOk, ListsAdmissible, KeysDistinct;
    var keys := Keys(s.candidates, s.order);
    StrictExactlyWhenKeysDistinct(s);
    var i, j :| 0 <= i < j < |keys| && !Before(keys[i], keys[j]);
    KeysTotallyOrdered(keys[i], keys[j]);
    k := i;
    KeysTotallyOrdered(keys[i], keys[i + 1]);
    if i + 1 < j {
      KeysTotallyOrdered(keys[i + 1], keys[j]);
      assert CompareKeys(keys[i + 1], keys[i]) <= 0 && CompareKeys(keys[i], keys[i + 1]) <= 0;
    }
  }

  /** Whatever store has two admissible candidates under one key, another arrival order of the same
      candidates leads to another transaction order. */
  lemma EqualKeysFollowArrival(s: Store, maximum: nat) returns (ops: seq<Op>)
    requires Inv(s) && !KeysDistinct(s) && maximum >= 1
    ensures Inv(Empty(maximum))
    ensures SameAdmissions(s, Run(Empty(maximum), ops)) && Run(Empty(maximum), ops).order != s.order
  {
    hide CompareKeys, WeaklySorted, Distinct, KeysDistinct, LogOk, Arranged, Run;
    var k := EqualKeysAdjoin(s);
    var swapped := s.order[k := s.order[k + 1]][k + 1 := s.order[k]];
    SwappedArranged(s, k, swapped);
    ops := PutFromLast(swapped, s.candidates);
    AnyArrangementArises(maximum, s.candidates, swapped);
  }

  lemma SwappedArranged(s: Store, k: nat, swapped: seq<Bytes>)
    requires Inv(s) && k + 1 < |s.order| && s.candidates[s.order[k]].orderKey == s.candidates[s.order[k + 1]].orderKey
    requires swapped == s.order[k := s.order[k + 1]][k + 1 := s.order[k]]
    ensures Arranged(s.candidates, swapped) && swapped != s.order
    ensures forall id :: id in swapped <==> id in s.order
  {
    hide CompareKeys, LogOk;
    assert forall i :: 0 <= i < |swapped| ==>
             swapped[i] == s.order[if i == k then k + 1 else if i == k + 1 then k else i];
    assert forall i :: 0 <= i < |s.order| ==>
             s.order[i] == swapped[if i == k then k + 1 else if i == k + 1 then k else i];
    forall i | 0 <= i < |swapped| ensures Arrangeable(s.candidates, swapped[i]) {
      assert swapped[i] in s.order;
    }
    assert Keys(s.candidates, swapped) == Keys(s.candidates, s.order);
  }

  /** The admitted transactions and their keys determine the order exactly when the keys are
      distinct. */
  lemma AdmissionsDetermineOrder(s: Store, maximum: nat)
    requires Inv(s) && maximum >= 1
    ensures Inv(Empty(maximum))
    ensures KeysDistinct(s) <==>
              forall ops :: SameAdmissions(s, Run(Empty(maximum), ops)) ==> Run(Empty(maximum), ops).order == s.order
  {
    hide KeysDistinct;
    EmptyInv(maximum);
    if KeysDistinct(s) {
      forall ops | SameAdmissions(s, Run(Empty(maximum), ops)) ensures Run(Empty(maximum), ops).order == s.order {
        SameAdmissionsSameOrder(s, Run(Empty(maximum), ops));
      }
    } else {
      var ops := EqualKeysFollowArrival(s, maximum);
    }
  }

  /** From the empty store on, every run has a history that the order, the retained deltas and
      every follower agree with. */
  lemma RunHasHistory(maximum: nat, ops: seq<Op>) returns (history: seq<Delta>)
    requires maximum >= 1
    ensures Inv(Empty(maximum))
    ensures HistoryOk(Run(Empty(maximum), ops), history)
    ensures var s := Run(Empty(maximum), ops);
            forall n :: s.deltaFloor <= n <= s.sequence ==>
              ChangesSince(s, n).Ok?
              && FollowAll(FollowAll(NOTHING, history[..n]), ChangesSince(s, n).value) == ViewOf(s)
  {
    EmptyInv(maximum);
    RunGood(Empty(maximum), ops);
    var s := Run(Empty(maximum), ops);
    assert HistoryOk(Empty(maximum), []);
    assert Continues(s, []);
    history :| [] <= history && HistoryOk(s, history);
    forall n | s.deltaFloor <= n <= s.sequence
      ensures ChangesSince(s, n).Ok?
      ensures FollowAll(FollowAll(NOTHING, history[..n]), ChangesSince(s, n).value) == ViewOf(s)
    {
      FollowerCatchesUp(s, history, n);
    }
  }

  /** Whoever took the order and the candidates' states at any moment of a run and later asks for the
      changes since then is refused exactly when the store has dropped some of them, and otherwise
      obtains the order and the states of the later moment. */
  lemma FollowerStaysCurrent(maximum: nat, a: seq<Op>, b: seq<Op>)
    requires maximum >= 1
    ensures Inv(Empty(maximum))
    ensures var s, t := Run(Empty(maximum), a), Run(Empty(maximum), a + b);
            && s.sequence <= t.sequence
            && (ChangesSince(t, s.sequence).Ok? <==> t.deltaFloor <= s.sequence)
            && (t.deltaFloor <= s.sequence ==> FollowAll(ViewOf(s), ChangesSince(t, s.sequence).value) == ViewOf(t))
  {
    hide FollowAll, ChangesSince, HistoryOk, HistoryGrows, Inv, Good, Run;
    EmptyInv(maximum);
    var h := RunHasHistory(maximum, a);
    var s, t := Run(Empty(maximum), a), Run(Empty(maximum), a + b);
    RunInTwoParts(Empty(maximum), a, b);
    RunGood(s, b);
    GoodLogs(s, t);
    FollowerFrom(s, t, h);
  }

  lemma GoodLogs(s: Store, t: Store)
    requires Good(s, t)
    ensures LogOk(t) && HistoryGrows(s, t)
  {
  }

  lemma FollowerFrom(s: Store, t: Store, h: seq<Delta>)
    requires HistoryOk(s, h) && HistoryGrows(s, t) && LogOk(t)
    ensures s.sequence <= t.sequence
    ensures ChangesSince(t, s.sequence).Ok? <==> t.deltaFloor <= s.sequence
    ensures t.deltaFloor <= s.sequence ==> FollowAll(ViewOf(s), ChangesSince(t, s.sequence).value) == ViewOf(t)
  {
    hide FollowAll, ChangesSince, LogOk;
    assert Continues(t, h);
    var longer :| h <= longer && HistoryOk(t, longer);
    assert longer[..s.sequence] == h;
    FollowerCatchesUp(t, longer, s.sequence);
  }
}
