/** The capability log: signed revisions and threshold recoveries as steps over a snapshot, and
    the history of who was authorized when. */
module Capabilities {
  import opened Bytes
  import opened Sorting

  datatype Option<+T> = None | Some(value: T)

  datatype Error = SchemaInvalid | DigestMismatch | InvalidKey | InvalidSignature

  datatype Result<+T> = Ok(value: T) | Err(error: Error)

  datatype Role = Reader | Writer | Validator | Administrator | SchemaAdministrator

  datatype Grant = Grant(
    subjectId: Bytes, signingPublicKey: Bytes, role: Role, validFromRevision: int, validUntilRevision: Option<int>,
    organization: Option<string>, validatorClass: Option<string>, minimumAuthorTimestampMs: Option<int>)

  datatype Effective = Effective(id: Bytes, grant: Grant, grantedAtRevision: int, revokedAtRevision: Option<int>)

  datatype ValidationPolicy = ValidationPolicy(
    version: int, minimumValidators: int, classMinimums: seq<(string, int)>, requiredOrganizations: seq<string>)

  datatype InstalledPolicy = InstalledPolicy(policy: ValidationPolicy, installedAtRevision: int)

  type Caps = map<Bytes, Effective>

  type Policies = map<Bytes, InstalledPolicy>

  datatype Snapshot = Snapshot(
    groupId: Bytes, revision: int, revisionDigest: Bytes, rootAdminPublicKey: Bytes, capabilityLogFeed: Bytes,
    capabilities: Caps, policies: Policies, recoveryPublicKeys: seq<Bytes>, recoveryThreshold: int,
    historyReopened: bool, recoveryEventDigest: Option<Bytes>)

  datatype Genesis = Genesis(
    groupId: Bytes, rootAdminPublicKey: Bytes, capabilityLogFeed: Bytes, recoveryPublicKeys: seq<Bytes>,
    recoveryThreshold: int, initialCapabilities: seq<Grant>, validationPolicies: seq<ValidationPolicy>)

  datatype Revision = Revision(
    groupId: Bytes, revision: int, previousRevisionDigest: Bytes, issuerRootPublicKey: Bytes, grants: seq<Grant>,
    revocations: seq<Bytes>, validationPolicies: seq<ValidationPolicy>,
    successorRootPublicKey: Option<Bytes>, successorCapabilityLogFeed: Option<Bytes>)

  datatype SignedRevision = SignedRevision(revision: Revision, signature: Bytes)

  datatype Payload = Payload(
    groupId: Bytes, lastRevision: int, lastRevisionDigest: Bytes, newRevision: int, newRootPublicKey: Bytes,
    newCapabilityLogFeed: Bytes, validatorGrants: seq<Grant>, reopenHistory: bool)

  datatype RecoverySignature = RecoverySignature(recoveryKeyIndex: int, signature: Bytes)

  datatype RecoveryRecord = RecoveryRecord(payload: Payload, signatures: seq<RecoverySignature>)

  /** Hashing, schema checks and signatures, taken as given functions. */
  datatype Crypto = Crypto(
    capabilityId: Grant -> Bytes,
    policyId: ValidationPolicy -> Bytes,
    genesisDigest: Genesis -> Bytes,
    revisionDigest: Revision -> Bytes,
    recoveryDigest: Payload -> Bytes,
    genesisWellFormed: Genesis -> bool,
    revisionWellFormed: Revision -> bool,
    payloadWellFormed: Payload -> bool,
    verifyGenesis: (Genesis, Bytes) -> bool,
    verifyRevision: (Revision, Bytes, Bytes) -> bool,
    verifyRecovery: (Payload, Bytes, Bytes) -> bool)

  function OrElse<T>(o: Option<T>, d: T): T { if o.Some? then o.value else d }

  /** `isCapabilityActive`. */
  predicate Active(c: Effective, revision: int) {
    && c.grant.validFromRevision <= revision
    && (c.grant.validUntilRevision.Some? ==> revision <= c.grant.validUntilRevision.value)
    && (c.revokedAtRevision.Some? ==> revision < c.revokedAtRevision.value)
  }

  /** Every capability stands under its own id. */
  predicate Keyed(caps: Caps) {
    forall id :: id in caps ==> caps[id].id == id
  }

  // ---- the three loops of a revision, as functions

  predicate Standing(c: Effective) {
    c.grant.role.Validator? && c.revokedAtRevision.None?
  }

  /** Not below the author-timestamp floor of any standing validator, nor below zero. */
  predicate AboveFloor(caps: Caps, minimum: int) {
    && minimum >= 0
    && forall id :: id in caps && Standing(caps[id]) ==> minimum >= OrElse(caps[id].grant.minimumAuthorTimestampMs, 0)
  }

  function Revoked(caps: Caps, ids: seq<Bytes>, at: int): Result<Caps> {
    if ids == [] then Ok(caps)
    else
      match Revoked(caps, ids[..|ids| - 1], at)
      case Err(e) => Err(e)
      case Ok(before) =>
        var id := ids[|ids| - 1];
        if id !in before || before[id].revokedAtRevision.Some? then Err(SchemaInvalid)
        else Ok(before[id := before[id].(revokedAtRevision := Some(at))])
  }

  /** One new grant; a revision also checks the floor, a recovery has checked it already. */
  function Granted(c: Crypto, caps: Caps, grant: Grant, at: int, checkFloor: bool): Result<Caps> {
    if grant.validFromRevision != at then Err(SchemaInvalid)
    else if checkFloor && grant.role.Validator? && !AboveFloor(caps, OrElse(grant.minimumAuthorTimestampMs, -1))
      then Err(SchemaInvalid)
    else if c.capabilityId(grant) in caps then Err(SchemaInvalid)
    else Ok(caps[c.capabilityId(grant) := Effective(c.capabilityId(grant), grant, at, None)])
  }

  function GrantedAll(c: Crypto, caps: Caps, grants: seq<Grant>, at: int, checkFloor: bool): Result<Caps> {
    if grants == [] then Ok(caps)
    else
      match GrantedAll(c, caps, grants[..|grants| - 1], at, checkFloor)
      case Err(e) => Err(e)
      case Ok(before) => Granted(c, before, grants[|grants| - 1], at, checkFloor)
  }

  function Installed(c: Crypto, policies: Policies, added: seq<ValidationPolicy>, at: int): Result<Policies> {
    if added == [] then Ok(policies)
    else
      match Installed(c, policies, added[..|added| - 1], at)
      case Err(e) => Err(e)
      case Ok(before) =>
        var policy := added[|added| - 1];
        if c.policyId(policy) in before then Err(SchemaInvalid)
        else Ok(before[c.policyId(policy) := InstalledPolicy(policy, at)])
  }

  function Revised(c: Crypto, s: Snapshot, signed: SignedRevision): Result<Snapshot> {
    var r := signed.revision;
    if !c.revisionWellFormed(r) || r.groupId != s.groupId || r.revision != s.revision + 1 then Err(SchemaInvalid)
    else if r.previousRevisionDigest != s.revisionDigest then Err(DigestMismatch)
    else if r.issuerRootPublicKey != s.rootAdminPublicKey then Err(InvalidKey)
    else if !c.verifyRevision(r, signed.signature, s.rootAdminPublicKey) then Err(InvalidSignature)
    else
      match Revoked(s.capabilities, r.revocations, r.revision)
      case Err(e) => Err(e)
      case Ok(revoked) =>
        match GrantedAll(c, revoked, r.grants, r.revision, true)
        case Err(e) => Err(e)
        case Ok(granted) =>
          match Installed(c, s.policies, r.validationPolicies, r.revision)
          case Err(e) => Err(e)
          case Ok(policies) =>
            Ok(s.(revision := r.revision, revisionDigest := c.revisionDigest(r),
                  rootAdminPublicKey := OrElse(r.successorRootPublicKey, s.rootAdminPublicKey),
                  capabilityLogFeed := OrElse(r.successorCapabilityLogFeed, s.capabilityLogFeed),
                  capabilities := granted, policies := policies))
  }

  // ---- recovery, as functions

  predicate SignatureCounts(c: Crypto, s: Snapshot, payload: Payload, item: RecoverySignature) {
    && 0 <= item.recoveryKeyIndex < |s.recoveryPublicKeys|
    && c.verifyRecovery(payload, item.signature, s.recoveryPublicKeys[item.recoveryKeyIndex])
  }

  /** The key indices whose first signature in the record verifies. */
  function CountedKeys(c: Crypto, s: Snapshot, payload: Payload, items: seq<RecoverySignature>): set<int> {
    if items == [] then {}
    else
      var last := items[|items| - 1];
      CountedKeys(c, s, payload, items[..|items| - 1])
      + if !SeenIndex(items[..|items| - 1], last.recoveryKeyIndex) && SignatureCounts(c, s, payload, last)
        then {last.recoveryKeyIndex} else {}
  }

  predicate SeenIndex(items: seq<RecoverySignature>, index: int) {
    exists i :: 0 <= i < |items| && items[i].recoveryKeyIndex == index
  }

  predicate RecoveryFits(s: Snapshot, payload: Payload) {
    && payload.groupId == s.groupId && payload.lastRevision == s.revision
    && payload.lastRevisionDigest == s.revisionDigest && payload.newRevision > s.revision
  }

  predicate RecoveryVerified(c: Crypto, s: Snapshot, record: RecoveryRecord) {
    RecoveryFits(s, record.payload) && |CountedKeys(c, s, record.payload, record.signatures)| >= s.recoveryThreshold
  }

  /** Standing validators and the standing capabilities of the old root key end at a recovery. */
  predicate EndsAtRecovery(s: Snapshot, e: Effective) {
    e.revokedAtRevision.None? && (e.grant.role.Validator? || e.grant.signingPublicKey == s.rootAdminPublicKey)
  }

  function RecoveryRevoked(s: Snapshot, at: int): Caps {
    map id | id in s.capabilities ::
      if EndsAtRecovery(s, s.capabilities[id]) then s.capabilities[id].(revokedAtRevision := Some(at))
      else s.capabilities[id]
  }

  function Recovered(c: Crypto, s: Snapshot, record: RecoveryRecord): Result<Snapshot> {
    var p := record.payload;
    if !RecoveryFits(s, p) then Err(InvalidSignature)
    else if !c.payloadWellFormed(p) then Err(SchemaInvalid)
    else if !RecoveryVerified(c, s, record) then Err(InvalidSignature)
    else if !p.reopenHistory
         && exists i :: 0 <= i < |p.validatorGrants|
                   && !AboveFloor(s.capabilities, OrElse(p.validatorGrants[i].minimumAuthorTimestampMs, -1))
    then Err(SchemaInvalid)
    else
      match GrantedAll(c, RecoveryRevoked(s, p.newRevision), p.validatorGrants, p.newRevision, false)
      case Err(e) => Err(e)
      case Ok(granted) =>
        Ok(s.(revision := p.newRevision, revisionDigest := c.recoveryDigest(p),
              rootAdminPublicKey := p.newRootPublicKey,
              capabilityLogFeed := p.newCapabilityLogFeed, capabilities := granted, historyReopened := p.reopenHistory,
              recoveryEventDigest := Some(c.recoveryDigest(p))))
  }

  // ---- the methods

  method CurrentFloor(caps: Caps) returns (floor: int)
    ensures forall minimum :: minimum >= floor <==> AboveFloor(caps, minimum)
  {
    floor := 0;
    var left := caps.Keys;
    while left != {}
      invariant left <= caps.Keys && floor >= 0
      invariant forall id :: id in caps && id !in left && Standing(caps[id]) ==>
                floor >= OrElse(caps[id].grant.minimumAuthorTimestampMs, 0)
      invariant floor == 0
              || exists id :: id in caps && Standing(caps[id])
                              && OrElse(caps[id].grant.minimumAuthorTimestampMs, 0) == floor
    {
      var id :| id in left;
      left := left - {id};
      if Standing(caps[id]) {
        var minimum := OrElse(caps[id].grant.minimumAuthorTimestampMs, 0);
        if minimum > floor { floor := minimum; }
      }
    }
  }

  method RevokeAll(start: Caps, ids: seq<Bytes>, at: int) returns (r: Result<Caps>)
    ensures r == Revoked(start, ids, at)
  {
    var caps := start;
    for i := 0 to |ids|
      invariant Revoked(start, ids[..i], at) == Ok(caps)
    {
      assert ids[..i + 1][..i] == ids[..i];
      if ids[i] !in caps || caps[ids[i]].revokedAtRevision.Some? {
        RevokedFails(start, ids, i + 1, at);
        return Err(SchemaInvalid);
      }
      caps := caps[ids[i] := caps[ids[i]].(revokedAtRevision := Some(at))];
    }
    assert ids[..|ids|] == ids;
    return Ok(caps);
  }

  lemma {:induction false} RevokedFails(start: Caps, ids: seq<Bytes>, n: nat, at: int)
    requires n <= |ids| && Revoked(start, ids[..n], at).Err?
    ensures Revoked(start, ids, at) == Revoked(start, ids[..n], at)
    decreases |ids|
  {
    if n < |ids| {
      assert ids[..|ids| - 1][..n] == ids[..n];
      RevokedFails(start, ids[..|ids| - 1], n, at);
    } else {
      assert ids[..n] == ids;
    }
  }

  method GrantEach(c: Crypto, start: Caps, grants: seq<Grant>, at: int, checkFloor: bool) returns (r: Result<Caps>)
    ensures r == GrantedAll(c, start, grants, at, checkFloor)
  {
    hide AboveFloor;
    var caps := start;
    for i := 0 to |grants|
      invariant GrantedAll(c, start, grants[..i], at, checkFloor) == Ok(caps)
    {
      assert grants[..i + 1][..i] == grants[..i];
      var grant := grants[i];
      var floor := CurrentFloor(caps);
      if || grant.validFromRevision != at
         || (checkFloor && grant.role.Validator? && OrElse(grant.minimumAuthorTimestampMs, -1) < floor)
         || c.capabilityId(grant) in caps
      {
        GrantedFails(c, start, grants, i + 1, at, checkFloor);
        return Err(SchemaInvalid);
      }
      caps := caps[c.capabilityId(grant) := Effective(c.capabilityId(grant), grant, at, None)];
    }
    assert grants[..|grants|] == grants;
    return Ok(caps);
  }

  lemma {:induction false} GrantedFails(c: Crypto, start: Caps, grants: seq<Grant>, n: nat, at: int, checkFloor: bool)
    requires n <= |grants| && GrantedAll(c, start, grants[..n], at, checkFloor).Err?
    ensures GrantedAll(c, start, grants, at, checkFloor) == GrantedAll(c, start, grants[..n], at, checkFloor)
    decreases |grants|
  {
    hide Granted;
    if n < |grants| {
      assert grants[..|grants| - 1][..n] == grants[..n];
      GrantedFails(c, start, grants[..|grants| - 1], n, at, checkFloor);
    } else {
      assert grants[..n] == grants;
    }
  }

  method InstallEach(c: Crypto, start: Policies, added: seq<ValidationPolicy>, at: int) returns (r: Result<Policies>)
    ensures r == Installed(c, start, added, at)
  {
    var policies := start;
    for i := 0 to |added|
      invariant Installed(c, start, added[..i], at) == Ok(policies)
    {
      assert added[..i + 1][..i] == added[..i];
      if c.policyId(added[i]) in policies {
        InstalledFails(c, start, added, i + 1, at);
        return Err(SchemaInvalid);
      }
      policies := policies[c.policyId(added[i]) := InstalledPolicy(added[i], at)];
    }
    assert added[..|added|] == added;
    return Ok(policies);
  }

  lemma {:induction false} InstalledFails(c: Crypto, start: Policies, added: seq<ValidationPolicy>, n: nat, at: int)
    requires n <= |added| && Installed(c, start, added[..n], at).Err?
    ensures Installed(c, start, added, at) == Installed(c, start, added[..n], at)
    decreases |added|
  {
    if n < |added| {
      assert added[..|added| - 1][..n] == added[..n];
      InstalledFails(c, start, added[..|added| - 1], n, at);
    } else {
      assert added[..n] == added;
    }
  }

  method ApplyCapabilityRevision(c: Crypto, s: Snapshot, signed: SignedRevision) returns (t: Result<Snapshot>)
    ensures t == Revised(c, s, signed)
  {
    hide Revoked, GrantedAll, Installed;
    var r := signed.revision;
    if !c.revisionWellFormed(r) || r.groupId != s.groupId || r.revision != s.revision + 1 { return Err(SchemaInvalid); }
    if r.previousRevisionDigest != s.revisionDigest { return Err(DigestMismatch); }
    if r.issuerRootPublicKey != s.rootAdminPublicKey { return Err(InvalidKey); }
    if !c.verifyRevision(r, signed.signature, s.rootAdminPublicKey) { return Err(InvalidSignature); }
    var revoked := RevokeAll(s.capabilities, r.revocations, r.revision);
    if revoked.Err? { return Err(revoked.error); }
    var granted := GrantEach(c, revoked.value, r.grants, r.revision, true);
    if granted.Err? { return Err(granted.error); }
    var policies := InstallEach(c, s.policies, r.validationPolicies, r.revision);
    if policies.Err? { return Err(policies.error); }
    return Ok(s.(revision := r.revision, revisionDigest := c.revisionDigest(r),
                 rootAdminPublicKey := OrElse(r.successorRootPublicKey, s.rootAdminPublicKey),
                 capabilityLogFeed := OrElse(r.successorCapabilityLogFeed, s.capabilityLogFeed),
                 capabilities := granted.value, policies := policies.value));
  }

  method VerifyRecoveryRecord(c: Crypto, s: Snapshot, record: RecoveryRecord) returns (verified: bool)
    ensures verified <==> RecoveryVerified(c, s, record)
  {
    hide CountedKeys, SeenIndex;
    if !RecoveryFits(s, record.payload) { return false; }
    var items := record.signatures;
    NothingCounted(c, s, record.payload, items);
    var seen: set<int> := {};
    var valid := 0;
    for n := 0 to |items|
      invariant forall i :: 0 <= i < |s.recoveryPublicKeys| ==> (i in seen <==> SeenIndex(items[..n], i))
      invariant CountedKeys(c, s, record.payload, items[..n]) <= seen
      invariant valid == |CountedKeys(c, s, record.payload, items[..n])|
    {
      var index := items[n].recoveryKeyIndex;
      CountedGrows(c, s, record.payload, items, n);
      SeenGrows(items, n);
      if index < 0 || index >= |s.recoveryPublicKeys| || index in seen { continue; }
      seen := seen + {index};
      if c.verifyRecovery(record.payload, items[n].signature, s.recoveryPublicKeys[index]) { valid := valid + 1; }
    }
    assert items[..|items|] == items;
    return valid >= s.recoveryThreshold;
  }

  lemma NothingCounted(c: Crypto, s: Snapshot, payload: Payload, items: seq<RecoverySignature>)
    ensures CountedKeys(c, s, payload, items[..0]) == {} && forall i :: !SeenIndex(items[..0], i)
  {
  }

  lemma CountedGrows(c: Crypto, s: Snapshot, payload: Payload, items: seq<RecoverySignature>, n: nat)
    requires n < |items|
    ensures CountedKeys(c, s, payload, items[..n + 1]) == CountedKeys(c, s, payload, items[..n])
              + if !SeenIndex(items[..n], items[n].recoveryKeyIndex) && SignatureCounts(c, s, payload, items[n])
                then {items[n].recoveryKeyIndex} else {}
  {
    assert items[..n + 1][..n] == items[..n];
  }

  lemma SeenGrows(items: seq<RecoverySignature>, n: nat)
    requires n < |items|
    ensures forall i :: SeenIndex(items[..n + 1], i) <==> SeenIndex(items[..n], i) || items[n].recoveryKeyIndex == i
  {
    forall i | SeenIndex(items[..n], i) ensures SeenIndex(items[..n + 1], i) {
      var k :| 0 <= k < n && items[..n][k].recoveryKeyIndex == i;
      assert items[..n + 1][k].recoveryKeyIndex == i;
    }
    assert items[..n + 1][n] == items[n];
    forall i | SeenIndex(items[..n + 1], i) && items[n].recoveryKeyIndex != i ensures SeenIndex(items[..n], i) {
      var k :| 0 <= k < n + 1 && items[..n + 1][k].recoveryKeyIndex == i;
      assert items[..n][k].recoveryKeyIndex == i;
    }
  }

  /** The in-place revocation loop over the copied map. */
  method RevokeForRecovery(s: Snapshot, at: int) returns (caps: Caps)
    ensures caps == RecoveryRevoked(s, at)
  {
    caps := s.capabilities;
    var left := caps.Keys;
    while left != {}
      invariant caps.Keys == s.capabilities.Keys && left <= caps.Keys
      invariant forall id :: id in caps ==>
        caps[id] == if id in left then s.capabilities[id] else RecoveryRevoked(s, at)[id]
    {
      var id :| id in left;
      left := left - {id};
      if EndsAtRecovery(s, caps[id]) { caps := caps[id := caps[id].(revokedAtRevision := Some(at))]; }
    }
  }

  method ApplyRecoveryRecord(c: Crypto, s: Snapshot, record: RecoveryRecord) returns (t: Result<Snapshot>)
    ensures t == Recovered(c, s, record)
  {
    hide GrantedAll, RecoveryRevoked, AboveFloor, CountedKeys;
    var p := record.payload;
    if !RecoveryFits(s, p) { return Err(InvalidSignature); }
    if !c.payloadWellFormed(p) { return Err(SchemaInvalid); }
    var verified := VerifyRecoveryRecord(c, s, record);
    if !verified { return Err(InvalidSignature); }
    var floor := CurrentFloor(s.capabilities);
    if !p.reopenHistory {
      for i := 0 to |p.validatorGrants|
        invariant forall j :: 0 <= j < i ==>
                  AboveFloor(s.capabilities, OrElse(p.validatorGrants[j].minimumAuthorTimestampMs, -1))
      {
        if OrElse(p.validatorGrants[i].minimumAuthorTimestampMs, -1) < floor { return Err(SchemaInvalid); }
      }
    }
    var revoked := RevokeForRecovery(s, p.newRevision);
    var granted := GrantEach(c, revoked, p.validatorGrants, p.newRevision, false);
    if granted.Err? { return Err(granted.error); }
    return Ok(s.(revision := p.newRevision, revisionDigest := c.recoveryDigest(p),
          rootAdminPublicKey := p.newRootPublicKey,
                 capabilityLogFeed := p.newCapabilityLogFeed, capabilities := granted.value,
                 historyReopened := p.reopenHistory, recoveryEventDigest := Some(c.recoveryDigest(p))));
  }

  function Founded(c: Crypto, g: Genesis, signature: Bytes): Result<Snapshot> {
    if !c.verifyGenesis(g, signature) then Err(InvalidSignature)
    else if !c.genesisWellFormed(g) then Err(SchemaInvalid)
    else
      match GrantedAll(c, map[], g.initialCapabilities, 0, false)
      case Err(e) => Err(e)
      case Ok(caps) =>
        match Installed(c, map[], g.validationPolicies, 0)
        case Err(e) => Err(e)
        case Ok(policies) =>
          Ok(Snapshot(g.groupId, 0, c.genesisDigest(g), g.rootAdminPublicKey, g.capabilityLogFeed, caps, policies,
                      g.recoveryPublicKeys, g.recoveryThreshold, false, None))
  }

  method GenesisSnapshot(c: Crypto, g: Genesis, signature: Bytes) returns (t: Result<Snapshot>)
    ensures t == Founded(c, g, signature)
  {
    hide GrantedAll, Installed;
    if !c.verifyGenesis(g, signature) { return Err(InvalidSignature); }
    if !c.genesisWellFormed(g) { return Err(SchemaInvalid); }
    var caps := GrantEach(c, map[], g.initialCapabilities, 0, false);
    if caps.Err? { return Err(caps.error); }
    var policies := InstallEach(c, map[], g.validationPolicies, 0);
    if policies.Err? { return Err(policies.error); }
    return Ok(Snapshot(g.groupId, 0, c.genesisDigest(g), g.rootAdminPublicKey, g.capabilityLogFeed, caps.value,
                       policies.value, g.recoveryPublicKeys, g.recoveryThreshold, false, None));
  }

  // ---- whole logs

  predicate RevisionBefore(a: SignedRevision, b: SignedRevision) {
    a.revision.revision <= b.revision.revision
  }

  /** Successive revisions; the first that is refused ends the reduction. */
  function Replayed(c: Crypto, s: Snapshot, log: seq<SignedRevision>): Result<Snapshot> {
    if log == [] then Ok(s)
    else
      match Replayed(c, s, log[..|log| - 1])
      case Err(e) => Err(e)
      case Ok(before) => Revised(c, before, log[|log| - 1])
  }

  method ReduceCapabilityLog(c: Crypto, g: Genesis, signature: Bytes, input: seq<SignedRevision>)
    returns (t: Result<Snapshot>)
    ensures Founded(c, g, signature).Err? ==> t == Founded(c, g, signature)
    ensures Founded(c, g, signature).Ok? ==>
              t == Replayed(c, Founded(c, g, signature).value, Sort(input, RevisionBefore))
  {
    hide Founded, Revised, Sort;
    t := GenesisSnapshot(c, g, signature);
    if t.Err? { return; }
    ghost var start := t.value;
    var revisions := Sort(input, RevisionBefore);
    for i := 0 to |revisions|
      invariant t.Ok? && t == Replayed(c, start, revisions[..i])
    {
      assert revisions[..i + 1][..i] == revisions[..i];
      t := ApplyCapabilityRevision(c, t.value, revisions[i]);
      if t.Err? {
        ReplayedFails(c, start, revisions, i + 1);
        return;
      }
    }
    assert revisions[..|revisions|] == revisions;
  }

  lemma {:induction false} ReplayedFails(c: Crypto, s: Snapshot, log: seq<SignedRevision>, n: nat)
    requires n <= |log| && Replayed(c, s, log[..n]).Err?
    ensures Replayed(c, s, log) == Replayed(c, s, log[..n])
    decreases |log|
  {
    hide Revised;
    if n < |log| {
      assert log[..|log| - 1][..n] == log[..n];
      ReplayedFails(c, s, log[..|log| - 1], n);
    } else {
      assert log[..n] == log;
    }
  }
}
