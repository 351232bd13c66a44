/** What every run of the capability log keeps: authorization history is immutable. */
module CapabilityLaws {
  import opened Bytes
  import opened Sorting
  import opened Capabilities

  datatype Step = Revise(signed: SignedRevision) | Recover(record: RecoveryRecord)

  /** A refused step throws and leaves the snapshot as it was. */
  function After(c: Crypto, s: Snapshot, step: Step): Snapshot {
    var t := if step.Revise? then Revised(c, s, step.signed) else Recovered(c, s, step.record);
    if t.Ok? then t.value else s
  }

  function Run(c: Crypto, s: Snapshot, steps: seq<Step>): Snapshot {
    if steps == [] then s else After(c, Run(c, s, steps[..|steps| - 1]), steps[|steps| - 1])
  }

  // ---- one capability from one snapshot to a later one

  /** The same grant; a revocation is kept, and a new one takes effect after `revision`. */
  ghost predicate Continues(a: Effective, b: Effective, revision: int) {
    && b.id == a.id && b.grant == a.grant && b.grantedAtRevision == a.grantedAtRevision
    && (a.revokedAtRevision.Some? ==> b.revokedAtRevision == a.revokedAtRevision)
    && (a.revokedAtRevision.None? && b.revokedAtRevision.Some? ==> b.revokedAtRevision.value > revision)
  }

  ghost predicate CapsExtend(before: Caps, after: Caps, revision: int) {
    && (forall id :: id in before ==> id in after && Continues(before[id], after[id], revision))
    && (forall id :: id in after && id !in before ==> after[id].grant.validFromRevision > revision)
  }

  ghost predicate Extends(s: Snapshot, t: Snapshot) {
    && t.revision >= s.revision && t.groupId == s.groupId
    && CapsExtend(s.capabilities, t.capabilities, s.revision)
    && (forall id :: id in s.policies ==> id in t.policies && t.policies[id] == s.policies[id])
  }

  lemma ExtendsTransitive(s: Snapshot, t: Snapshot, u: Snapshot)
    requires Extends(s, t) && Extends(t, u)
    ensures Extends(s, u)
  {
    forall id | id in s.capabilities
      ensures id in u.capabilities && Continues(s.capabilities[id], u.capabilities[id], s.revision)
    {
      assert Continues(s.capabilities[id], t.capabilities[id], s.revision);
      assert Continues(t.capabilities[id], u.capabilities[id], t.revision);
    }
    forall id | id in u.capabilities && id !in s.capabilities
      ensures u.capabilities[id].grant.validFromRevision > s.revision
    {
      if id in t.capabilities { assert Continues(t.capabilities[id], u.capabilities[id], t.revision); }
    }
  }

  lemma {:induction false} RevokedExtends(caps: Caps, ids: seq<Bytes>, at: int, revision: int)
    requires at > revision && Revoked(caps, ids, at).Ok?
    ensures CapsExtend(caps, Revoked(caps, ids, at).value, revision)
    ensures Revoked(caps, ids, at).value.Keys == caps.Keys
  {
    if ids != [] { RevokedExtends(caps, ids[..|ids| - 1], at, revision); }
  }

  lemma {:induction false} GrantedExtends(c: Crypto, before: Caps, caps: Caps, grants: seq<Grant>, at: int,
      checkFloor: bool, revision: int)
    requires at > revision && CapsExtend(before, caps, revision) && GrantedAll(c, caps, grants, at, checkFloor).Ok?
    ensures CapsExtend(before, GrantedAll(c, caps, grants, at, checkFloor).value, revision)
  {
    hide AboveFloor;
    if grants != [] { GrantedExtends(c, before, caps, grants[..|grants| - 1], at, checkFloor, revision); }
  }

  lemma {:induction false} InstalledExtends(c: Crypto, policies: Policies, added: seq<ValidationPolicy>, at: int)
    requires Installed(c, policies, added, at).Ok?
    ensures forall id :: id in policies ==>
              id in Installed(c, policies, added, at).value
              && Installed(c, policies, added, at).value[id] == policies[id]
  {
    if added != [] { InstalledExtends(c, policies, added[..|added| - 1], at); }
  }

  lemma RevisedExtends(c: Crypto, s: Snapshot, signed: SignedRevision)
    requires Revised(c, s, signed).Ok?
    ensures Extends(s, Revised(c, s, signed).value) && Revised(c, s, signed).value.revision == s.revision + 1
  {
    hide Revoked, GrantedAll, Installed, CapsExtend;
    var r := signed.revision;
    var revoked := Revoked(s.capabilities, r.revocations, r.revision).value;
    RevokedExtends(s.capabilities, r.revocations, r.revision, s.revision);
    GrantedExtends(c, s.capabilities, revoked, r.grants, r.revision, true, s.revision);
    InstalledExtends(c, s.policies, r.validationPolicies, r.revision);
  }

  lemma RecoveryRevokedExtends(s: Snapshot, at: int)
    requires at > s.revision
    ensures CapsExtend(s.capabilities, RecoveryRevoked(s, at), s.revision)
  {
  }

  lemma RecoveredExtends(c: Crypto, s: Snapshot, record: RecoveryRecord)
    requires Recovered(c, s, record).Ok?
    ensures Extends(s, Recovered(c, s, record).value) && Recovered(c, s, record).value.revision > s.revision
  {
    hide GrantedAll, RecoveryRevoked, CapsExtend, CountedKeys, AboveFloor;
    var p := record.payload;
    RecoveryRevokedExtends(s, p.newRevision);
    GrantedExtends(c, s.capabilities, RecoveryRevoked(s, p.newRevision), p.validatorGrants, p.newRevision, false,
        s.revision);
  }

  lemma {:induction false} RunExtends(c: Crypto, s: Snapshot, steps: seq<Step>)
    ensures Extends(s, Run(c, s, steps))
  {
    hide Revised, Recovered, Extends;
    if steps == [] {
      ExtendsReflexive(s);
    } else {
      var before, step := Run(c, s, steps[..|steps| - 1]), steps[|steps| - 1];
      RunExtends(c, s, steps[..|steps| - 1]);
      ExtendsReflexive(before);
      if step.Revise? && Revised(c, before, step.signed).Ok? { RevisedExtends(c, before, step.signed); }
      if step.Recover? && Recovered(c, before, step.record).Ok? { RecoveredExtends(c, before, step.record); }
      ExtendsTransitive(s, before, After(c, before, step));
    }
  }

  lemma ExtendsReflexive(s: Snapshot)
    ensures Extends(s, s)
  {
  }

  // ---- authorization history

  /** The capabilities in force at a revision, with their grants. */
  ghost function ActiveAt(s: Snapshot, revision: int): map<Bytes, Grant> {
    map id | id in s.capabilities && Active(s.capabilities[id], revision) :: s.capabilities[id].grant
  }

  /** From any snapshot on, whatever revisions and recoveries follow, who was authorized at a
      revision already reached never changes. */
  lemma HistoryIsImmutable(c: Crypto, s: Snapshot, steps: seq<Step>, revision: int)
    requires revision <= s.revision
    ensures ActiveAt(Run(c, s, steps), revision) == ActiveAt(s, revision)
  {
    hide Run;
    RunExtends(c, s, steps);
    var t := Run(c, s, steps);
    forall id | id in s.capabilities
      ensures Active(t.capabilities[id], revision) <==> Active(s.capabilities[id], revision)
    {
      assert Continues(s.capabilities[id], t.capabilities[id], s.revision);
    }
    assert forall id :: id in t.capabilities && id !in s.capabilities ==> !Active(t.capabilities[id], revision);
    assert ActiveAt(t, revision).Keys == ActiveAt(s, revision).Keys;
  }

  /** A revocation stands for good: the capability is never active again from then on. */
  lemma RevocationsAreFinal(c: Crypto, s: Snapshot, steps: seq<Step>, id: Bytes, revision: int)
    requires id in s.capabilities && s.capabilities[id].revokedAtRevision.Some?
    requires revision >= s.capabilities[id].revokedAtRevision.value
    ensures id in Run(c, s, steps).capabilities && Run(c, s, steps).capabilities[id] == s.capabilities[id]
    ensures id !in ActiveAt(Run(c, s, steps), revision)
  {
    hide Run;
    RunExtends(c, s, steps);
    assert Continues(s.capabilities[id], Run(c, s, steps).capabilities[id], s.revision);
  }

  // ---- recovery

  /** Every capability was granted and revoked at revisions the snapshot has passed. */
  ghost predicate Dated(caps: Caps, revision: int) {
    forall id :: id in caps ==> DatedOne(caps[id], revision)
  }

  ghost predicate DatedOne(e: Effective, revision: int) {
    && e.grant.validFromRevision == e.grantedAtRevision && 0 <= e.grantedAtRevision <= revision
    && (e.revokedAtRevision.Some? ==> e.grantedAtRevision < e.revokedAtRevision.value <= revision)
  }

  ghost predicate Inv(s: Snapshot) {
    s.revision >= 0 && Dated(s.capabilities, s.revision)
  }

  lemma {:induction false} RevokedDated(caps: Caps, ids: seq<Bytes>, at: int)
    requires Dated(caps, at - 1) && Revoked(caps, ids, at).Ok?
    ensures Dated(Revoked(caps, ids, at).value, at)
    ensures forall id :: id in Revoked(caps, ids, at).value ==> Revoked(caps, ids, at).value[id].grantedAtRevision < at
  {
    if ids != [] { RevokedDated(caps, ids[..|ids| - 1], at); }
  }

  lemma {:induction false} GrantedDated(c: Crypto, caps: Caps, grants: seq<Grant>, at: int, checkFloor: bool)
    requires at >= 0 && Dated(caps, at) && GrantedAll(c, caps, grants, at, checkFloor).Ok?
    ensures Dated(GrantedAll(c, caps, grants, at, checkFloor).value, at)
  {
    hide AboveFloor;
    if grants != [] { GrantedDated(c, caps, grants[..|grants| - 1], at, checkFloor); }
  }

  lemma RecoveryRevokedDated(s: Snapshot, at: int)
    requires Inv(s) && at > s.revision
    ensures Dated(RecoveryRevoked(s, at), at)
  {
    forall id | id in RecoveryRevoked(s, at) ensures DatedOne(RecoveryRevoked(s, at)[id], at) {
      assert DatedOne(s.capabilities[id], s.revision);
    }
  }

  lemma StepInv(c: Crypto, s: Snapshot, step: Step)
    requires Inv(s)
    ensures Inv(After(c, s, step))
  {
    hide Revoked, GrantedAll, Installed, RecoveryRevoked, CountedKeys, AboveFloor, Dated;
    match step
    case Revise(signed) =>
      var r := signed.revision;
      if Revised(c, s, signed).Ok? {
        RevokedDated(s.capabilities, r.revocations, r.revision);
        GrantedDated(c, Revoked(s.capabilities, r.revocations, r.revision).value, r.grants, r.revision, true);
      }
    case Recover(record) =>
      var p := record.payload;
      if Recovered(c, s, record).Ok? {
        RecoveryRevokedDated(s, p.newRevision);
        GrantedDated(c, RecoveryRevoked(s, p.newRevision), p.validatorGrants, p.newRevision, false);
      }
  }

  lemma FoundedInv(c: Crypto, g: Genesis, signature: Bytes)
    requires Founded(c, g, signature).Ok?
    ensures Inv(Founded(c, g, signature).value)
  {
    GrantedDated(c, map[], g.initialCapabilities, 0, false);
  }

  lemma {:induction false} RunInv(c: Crypto, s: Snapshot, steps: seq<Step>)
    requires Inv(s)
    ensures Inv(Run(c, s, steps))
  {
    if steps != [] {
      RunInv(c, s, steps[..|steps| - 1]);
      StepInv(c, Run(c, s, steps[..|steps| - 1]), steps[|steps| - 1]);
    }
  }

  /** After a recovery in any run from a genesis, nobody who was a validator before it, and no
      capability of the old root key, is active from the recovery revision on, whatever follows. */
  lemma RecoveryEndsValidators(
      c: Crypto, g: Genesis, signature: Bytes, past: seq<Step>, record: RecoveryRecord, future: seq<Step>, id: Bytes,
      revision: int)
    requires Founded(c, g, signature).Ok?
    requires var s := Run(c, Founded(c, g, signature).value, past);
             && Recovered(c, s, record).Ok? && id in s.capabilities
             && (s.capabilities[id].grant.role.Validator?
                 || s.capabilities[id].grant.signingPublicKey == s.rootAdminPublicKey)
    requires revision >= record.payload.newRevision
    ensures var s := Run(c, Founded(c, g, signature).value, past);
            id !in ActiveAt(Run(c, Recovered(c, s, record).value, future), revision)
  {
    hide Run, Founded, Recovered;
    FoundedInv(c, g, signature);
    RunInv(c, Founded(c, g, signature).value, past);
    var s := Run(c, Founded(c, g, signature).value, past);
    EndedByRecovery(c, s, record, id);
    RevocationsAreFinal(c, Recovered(c, s, record).value, future, id, revision);
  }

  lemma EndedByRecovery(c: Crypto, s: Snapshot, record: RecoveryRecord, id: Bytes)
    requires Inv(s) && Recovered(c, s, record).Ok? && id in s.capabilities
    requires s.capabilities[id].grant.role.Validator?
            || s.capabilities[id].grant.signingPublicKey == s.rootAdminPublicKey
    ensures var t := Recovered(c, s, record).value;
            && id in t.capabilities && t.capabilities[id].revokedAtRevision.Some?
            && t.capabilities[id].revokedAtRevision.value <= record.payload.newRevision
  {
    hide GrantedAll, CountedKeys, AboveFloor;
    var p := record.payload;
    assert DatedOne(s.capabilities[id], s.revision);
    GrantedKeeps(c, RecoveryRevoked(s, p.newRevision), p.validatorGrants, p.newRevision, false, id);
  }

  lemma {:induction false} GrantedKeeps(c: Crypto, caps: Caps, grants: seq<Grant>, at: int, checkFloor: bool, id: Bytes)
    requires id in caps && GrantedAll(c, caps, grants, at, checkFloor).Ok?
    ensures id in GrantedAll(c, caps, grants, at, checkFloor).value
    ensures GrantedAll(c, caps, grants, at, checkFloor).value[id] == caps[id]
  {
    hide AboveFloor;
    if grants != [] { GrantedKeeps(c, caps, grants[..|grants| - 1], at, checkFloor, id); }
  }

  // ---- which recoveries are accepted

  /** Keys with some valid signature in the record. */
  ghost function SigningKeys(c: Crypto, s: Snapshot, payload: Payload, items: seq<RecoverySignature>): set<int> {
    set i | 0 <= i < |items| && SignatureCounts(c, s, payload, items[i]) :: items[i].recoveryKeyIndex
  }

  /** Only keys that signed count, each once. */
  lemma {:induction false} CountedDidSign(c: Crypto, s: Snapshot, payload: Payload, items: seq<RecoverySignature>)
    ensures CountedKeys(c, s, payload, items) <= SigningKeys(c, s, payload, items)
  {
    if items != [] {
      CountedDidSign(c, s, payload, items[..|items| - 1]);
      assert forall i :: 0 <= i < |items| - 1 ==> items[..|items| - 1][i] == items[i];
    }
  }

  /** No earlier signature in the record names the same key. */
  ghost predicate FirstOfKey(items: seq<RecoverySignature>, i: int)
    requires 0 <= i < |items|
  {
    forall j :: 0 <= j < i ==> items[j].recoveryKeyIndex != items[i].recoveryKeyIndex
  }

  ghost predicate FirstCounts(c: Crypto, s: Snapshot, payload: Payload, items: seq<RecoverySignature>, key: int) {
    exists i ::
      && 0 <= i < |items| && FirstOfKey(items, i) && items[i].recoveryKeyIndex == key
      && SignatureCounts(c, s, payload, items[i])
  }

  /** A key counts exactly when its first signature in the record verifies. */
  lemma {:induction false} CountedExactly(c: Crypto, s: Snapshot, payload: Payload, items: seq<RecoverySignature>,
      key: int)
    ensures key in CountedKeys(c, s, payload, items) <==> FirstCounts(c, s, payload, items, key)
  {
    hide SignatureCounts, SeenIndex, FirstOfKey, FirstCounts;
    if items == [] {
      assert !FirstCounts(c, s, payload, [], key) by { NoneCounts(c, s, payload, key); }
    } else {
      CountedExactly(c, s, payload, items[..|items| - 1], key);
      LastIsFirst(items);
      FirstCountsGrows(c, s, payload, items, key);
    }
  }

  lemma NoneCounts(c: Crypto, s: Snapshot, payload: Payload, key: int)
    ensures !FirstCounts(c, s, payload, [], key)
  {
  }

  lemma FirstCountsGrows(c: Crypto, s: Snapshot, payload: Payload, items: seq<RecoverySignature>, key: int)
    requires items != []
    ensures FirstCounts(c, s, payload, items, key) <==>
              || FirstCounts(c, s, payload, items[..|items| - 1], key)
              || (FirstOfKey(items, |items| - 1) && items[|items| - 1].recoveryKeyIndex == key
                  && SignatureCounts(c, s, payload, items[|items| - 1]))
  {
    hide SignatureCounts, FirstOfKey;
    var front := items[..|items| - 1];
    forall i | 0 <= i < |front| ensures front[i] == items[i] && (FirstOfKey(front, i) <==> FirstOfKey(items, i)) {
      FirstInFront(items, i);
    }
    if FirstCounts(c, s, payload, front, key) {
      var i :| 0 <= i < |front| && FirstOfKey(front, i) && front[i].recoveryKeyIndex == key
               && SignatureCounts(c, s, payload, front[i]);
      assert FirstOfKey(items, i) && items[i].recoveryKeyIndex == key;
    }
  }

  lemma FirstInFront(items: seq<RecoverySignature>, i: nat)
    requires i < |items| - 1
    ensures FirstOfKey(items[..|items| - 1], i) <==> FirstOfKey(items, i)
  {
    assert forall j :: 0 <= j <= i ==> items[..|items| - 1][j] == items[j];
  }

  lemma LastIsFirst(items: seq<RecoverySignature>)
    requires items != []
    ensures FirstOfKey(items, |items| - 1) <==> !SeenIndex(items[..|items| - 1], items[|items| - 1].recoveryKeyIndex)
  {
    var front := items[..|items| - 1];
    assert forall i :: 0 <= i < |front| ==> front[i] == items[i];
  }

  /** Whenever a signature verifies, so does the first one of its key. */
  ghost predicate FirstsVerify(c: Crypto, s: Snapshot, payload: Payload, items: seq<RecoverySignature>) {
    forall i, j ::
      0 <= i < |items| && 0 <= j < |items|
        && items[i].recoveryKeyIndex == items[j].recoveryKeyIndex && FirstOfKey(items, i) ==>
      (SignatureCounts(c, s, payload, items[j]) ==> SignatureCounts(c, s, payload, items[i]))
  }

  /** Every key that signed counts exactly when no key's valid signature stands behind an invalid
      first one. */
  lemma AllSignersCount(c: Crypto, s: Snapshot, payload: Payload, items: seq<RecoverySignature>)
    ensures CountedKeys(c, s, payload, items) == SigningKeys(c, s, payload, items) <==>
              FirstsVerify(c, s, payload, items)
  {
    hide SignatureCounts, CountedKeys;
    CountedDidSign(c, s, payload, items);
    if CountedKeys(c, s, payload, items) == SigningKeys(c, s, payload, items) {
      forall i, j | 0 <= i < |items| && 0 <= j < |items|
        && items[i].recoveryKeyIndex == items[j].recoveryKeyIndex && FirstOfKey(items, i)
          && SignatureCounts(c, s, payload, items[j])
        ensures SignatureCounts(c, s, payload, items[i])
      {
        var key := items[j].recoveryKeyIndex;
        assert key in SigningKeys(c, s, payload, items);
        CountedExactly(c, s, payload, items, key);
        var k :| 0 <= k < |items| && FirstOfKey(items, k) && items[k].recoveryKeyIndex == key
                 && SignatureCounts(c, s, payload, items[k]);
        assert k == i;
      }
    }
    if FirstsVerify(c, s, payload, items) {
      forall key | key in SigningKeys(c, s, payload, items) ensures key in CountedKeys(c, s, payload, items) {
        var j :| 0 <= j < |items| && SignatureCounts(c, s, payload, items[j]) && items[j].recoveryKeyIndex == key;
        var i := FirstSignature(items, j);
        assert SignatureCounts(c, s, payload, items[i]);
        CountedExactly(c, s, payload, items, key);
      }
    }
  }

  lemma {:induction false} FirstSignature(items: seq<RecoverySignature>, j: nat) returns (i: nat)
    requires j < |items|
    ensures i <= j && FirstOfKey(items, i) && items[i].recoveryKeyIndex == items[j].recoveryKeyIndex
  {
    i := j;
    if !FirstOfKey(items, j) {
      var k :| 0 <= k < j && items[k].recoveryKeyIndex == items[j].recoveryKeyIndex;
      i := FirstSignature(items, k);
    }
  }

  /** A bad signature hides a later good one of the same key, though not an earlier one. */
  lemma BadSignatureHidesGood(c: Crypto, s: Snapshot, payload: Payload, bad: RecoverySignature, good: RecoverySignature)
    requires bad.recoveryKeyIndex == good.recoveryKeyIndex
    requires !SignatureCounts(c, s, payload, bad) && SignatureCounts(c, s, payload, good)
    ensures CountedKeys(c, s, payload, [bad, good]) == {}
    ensures CountedKeys(c, s, payload, [good, bad]) == {good.recoveryKeyIndex}
  {
    assert [bad, good][..1] == [bad] && [good, bad][..1] == [good] && [bad][..0] == [] && [good][..0] == [];
    assert [bad][0].recoveryKeyIndex == good.recoveryKeyIndex;
    assert CountedKeys(c, s, payload, [bad]) == {};
    assert CountedKeys(c, s, payload, [good]) == {good.recoveryKeyIndex};
    assert SeenIndex([bad], good.recoveryKeyIndex);
  }

  // ---- the log as a set

  /** A log that reduces at all holds one revision for each number above the start. */
  lemma {:induction false} ReplayedNumbers(c: Crypto, s: Snapshot, log: seq<SignedRevision>)
    requires Replayed(c, s, log).Ok?
    ensures Replayed(c, s, log).value.revision == s.revision + |log|
    ensures forall i :: 0 <= i < |log| ==> log[i].revision.revision == s.revision + 1 + i
  {
    hide Revised;
    if log != [] {
      var front := log[..|log| - 1];
      ReplayedNumbers(c, s, front);
      RevisedExtends(c, Replayed(c, s, front).value, log[|log| - 1]);
      NumberNext(c, Replayed(c, s, front).value, log[|log| - 1]);
      assert forall i :: 0 <= i < |front| ==> log[i] == front[i];
    }
  }

  lemma NumberNext(c: Crypto, s: Snapshot, signed: SignedRevision)
    requires Revised(c, s, signed).Ok?
    ensures signed.revision.revision == s.revision + 1
  {
  }

  /** The order in which revisions arrive does not matter: every permutation of a log reduces to
      the same snapshot, or none reduces. */
  lemma LogOrderIrrelevant(c: Crypto, s: Snapshot, a: seq<SignedRevision>, b: seq<SignedRevision>)
    requires multiset(a) == multiset(b)
    ensures Replayed(c, s, Sort(a, RevisionBefore)).Ok? <==> Replayed(c, s, Sort(b, RevisionBefore)).Ok?
    ensures Replayed(c, s, Sort(a, RevisionBefore)).Ok? ==> Sort(a, RevisionBefore) == Sort(b, RevisionBefore)
  {
    hide Replayed;
    if Replayed(c, s, Sort(a, RevisionBefore)).Ok? { SameSortedLog(c, s, a, b); }
    if Replayed(c, s, Sort(b, RevisionBefore)).Ok? { SameSortedLog(c, s, b, a); }
  }

  /** A log reduces exactly when its revisions can be arranged so that each is accepted after the ones before
      it, and then to what that arrangement gives. */
  lemma ReducesExactly(c: Crypto, s: Snapshot, log: seq<SignedRevision>)
    ensures Replayed(c, s, Sort(log, RevisionBefore)).Ok? <==>
              exists r :: multiset(r) == multiset(log) && Replayed(c, s, r).Ok?
    ensures forall r :: multiset(r) == multiset(log) && Replayed(c, s, r).Ok? ==>
              Replayed(c, s, Sort(log, RevisionBefore)) == Replayed(c, s, r)
  {
    hide Replayed;
    forall r | multiset(r) == multiset(log) && Replayed(c, s, r).Ok? ensures Sort(log, RevisionBefore) == r {
      ReplayedNumbers(c, s, r);
      SortStays(r, RevisionBefore);
      SameSortedLog(c, s, r, log);
    }
  }

  lemma SameSortedLog(c: Crypto, s: Snapshot, a: seq<SignedRevision>, b: seq<SignedRevision>)
    requires multiset(a) == multiset(b) && Replayed(c, s, Sort(a, RevisionBefore)).Ok?
    ensures Sort(a, RevisionBefore) == Sort(b, RevisionBefore)
  {
    hide Replayed, Sort;
    SortSorts(a, RevisionBefore);
    SortSorts(b, RevisionBefore);
    ReplayedNumbers(c, s, Sort(a, RevisionBefore));
    SortedUnique(Sort(a, RevisionBefore), Sort(b, RevisionBefore), RevisionBefore);
  }

  // ---- the author-timestamp floor of new validators

  /** The capabilities a list of revocations names, and the others. */
  ghost function Among(caps: Caps, ids: seq<Bytes>): Caps {
    map id | id in caps && id in ids :: caps[id]
  }

  ghost function Besides(caps: Caps, ids: seq<Bytes>): Caps {
    map id | id in caps && id !in ids :: caps[id]
  }

  /** An accepted revision brings in a validator below the floor exactly when it revokes a
      standing validator whose own floor lies above. */
  lemma FloorKept(c: Crypto, s: Snapshot, signed: SignedRevision, grant: Grant)
    requires Revised(c, s, signed).Ok? && grant in signed.revision.grants && grant.role.Validator?
    ensures var minimum := OrElse(grant.minimumAuthorTimestampMs, -1);
            AboveFloor(s.capabilities, minimum) <==>
              AboveFloor(Among(s.capabilities, signed.revision.revocations), minimum)
  {
    hide GrantedAll, Installed, Revoked, AboveFloor;
    var r := signed.revision;
    var minimum := OrElse(grant.minimumAuthorTimestampMs, -1);
    var revoked := Revoked(s.capabilities, r.revocations, r.revision).value;
    var i :| 0 <= i < |r.grants| && r.grants[i] == grant;
    GrantAboveFloor(c, revoked, r.grants, r.revision, i);
    RevokedFloor(s.capabilities, r.revocations, r.revision, minimum);
    FloorSplits(s.capabilities, r.revocations, minimum);
  }

  lemma FloorSplits(caps: Caps, ids: seq<Bytes>, minimum: int)
    ensures AboveFloor(caps, minimum) <==>
              AboveFloor(Among(caps, ids), minimum) && AboveFloor(Besides(caps, ids), minimum)
  {
    if AboveFloor(Among(caps, ids), minimum) && AboveFloor(Besides(caps, ids), minimum) {
      forall id | id in caps && Standing(caps[id])
        ensures minimum >= OrElse(caps[id].grant.minimumAuthorTimestampMs, 0)
      {
        if id in ids { assert Among(caps, ids)[id] == caps[id]; } else { assert Besides(caps, ids)[id] == caps[id]; }
      }
    }
  }

  /** What is revoked no longer counts towards the floor; the rest does. */
  lemma RevokedFloor(caps: Caps, ids: seq<Bytes>, at: int, minimum: int)
    requires Revoked(caps, ids, at).Ok?
    ensures AboveFloor(Revoked(caps, ids, at).value, minimum) <==> AboveFloor(Besides(caps, ids), minimum)
  {
    hide Revoked;
    var revoked, rest := Revoked(caps, ids, at).value, Besides(caps, ids);
    RevokedExtends(caps, ids, at, at - 1);
    forall id | id in caps
      ensures id in ids ==> !Standing(revoked[id])
      ensures id !in ids ==> revoked[id] == caps[id] && rest[id] == caps[id]
    {
      if id in ids { NowRevoked(caps, ids, at, id); } else { NotRevoked(caps, ids, at, id); }
    }
  }

  lemma {:induction false} NowRevoked(caps: Caps, ids: seq<Bytes>, at: int, id: Bytes)
    requires Revoked(caps, ids, at).Ok? && id in ids
    ensures id in Revoked(caps, ids, at).value && Revoked(caps, ids, at).value[id].revokedAtRevision.Some?
  {
    if id != ids[|ids| - 1] { NowRevoked(caps, ids[..|ids| - 1], at, id); }
  }

  lemma {:induction false} NotRevoked(caps: Caps, ids: seq<Bytes>, at: int, id: Bytes)
    requires Revoked(caps, ids, at).Ok? && id in caps && id !in ids
    ensures id in Revoked(caps, ids, at).value && Revoked(caps, ids, at).value[id] == caps[id]
  {
    if ids != [] { NotRevoked(caps, ids[..|ids| - 1], at, id); }
  }

  lemma {:induction false} GrantAboveFloor(c: Crypto, caps: Caps, grants: seq<Grant>, at: int, i: nat)
    requires GrantedAll(c, caps, grants, at, true).Ok? && i < |grants| && grants[i].role.Validator?
    ensures AboveFloor(caps, OrElse(grants[i].minimumAuthorTimestampMs, -1))
  {
    var front := grants[..|grants| - 1];
    if i < |front| {
      GrantAboveFloor(c, caps, front, at, i);
    } else {
      forall id | id in caps { GrantedKeeps(c, caps, front, at, true, id); }
    }
  }

  /** Revocations come first: a revision that retires some validators may bring in another
      exactly at or above the floor of the remaining ones, also below the retired ones'. */
  lemma FloorFollowsTheStanding(c: Crypto, s: Snapshot, signed: SignedRevision, ids: seq<Bytes>, grant: Grant)
    requires signed.revision
         == Revision(s.groupId, s.revision + 1, s.revisionDigest, s.rootAdminPublicKey, [grant], ids, [], None, None)
    requires c.revisionWellFormed(signed.revision)
    requires c.verifyRevision(signed.revision, signed.signature, s.rootAdminPublicKey)
    requires Revoked(s.capabilities, ids, s.revision + 1).Ok? && c.capabilityId(grant) !in s.capabilities
    requires grant.role.Validator? && grant.validFromRevision == s.revision + 1
    ensures Revised(c, s, signed).Ok? <==>
              AboveFloor(Besides(s.capabilities, ids), OrElse(grant.minimumAuthorTimestampMs, -1))
  {
    hide Revoked, AboveFloor;
    var at := s.revision + 1;
    var revoked := Revoked(s.capabilities, ids, at).value;
    RevokedExtends(s.capabilities, ids, at, s.revision);
    RevokedFloor(s.capabilities, ids, at, OrElse(grant.minimumAuthorTimestampMs, -1));
    assert [grant][..0] == [];
    assert GrantedAll(c, revoked, [], at, true) == Ok(revoked);
    assert GrantedAll(c, revoked, [grant], at, true) == Granted(c, revoked, grant, at, true);
    assert Installed(c, s.policies, [], at).Ok?;
  }
}
