/** What a genesis, a revision and a recovery bring about, each exactly when it is accepted, and from
    that who is authorized at any revision after any run of the log. */
module CapabilitySteps {
  import opened Bytes
  import opened Capabilities
  import Laws = CapabilityLaws

  // ---- the three loops

  /** Every id is known, not yet revoked, and named once. */
  ghost predicate RevocationsFit(caps: Caps, ids: seq<Bytes>) {
    && (forall i :: 0 <= i < |ids| ==> ids[i] in caps && caps[ids[i]].revokedAtRevision.None?)
    && (forall i, j :: 0 <= i < j < |ids| ==> ids[i] != ids[j])
  }

  /** The capabilities in `gone` are revoked at this revision, the others stay. */
  ghost predicate Ends(before: Caps, after: Caps, gone: set<Bytes>, at: int) {
    && after.Keys == before.Keys
    && forall id :: id in before ==>
         after[id] == if id in gone then before[id].(revokedAtRevision := Some(at)) else before[id]
  }

  ghost function Listed(ids: seq<Bytes>): set<Bytes> { set id | id in ids }

  lemma {:induction false} RevokedMeans(caps: Caps, ids: seq<Bytes>, at: int)
    ensures Revoked(caps, ids, at).Ok? <==> RevocationsFit(caps, ids)
    ensures Revoked(caps, ids, at).Ok? ==> Ends(caps, Revoked(caps, ids, at).value, Listed(ids), at)
    ensures Revoked(caps, ids, at).Err? ==> Revoked(caps, ids, at) == Err(SchemaInvalid)
  {
    if ids != [] {
      var front, last := ids[..|ids| - 1], ids[|ids| - 1];
      assert ids == front + [last];
      RevokedMeans(caps, front, at);
      assert Listed(ids) == Listed(front) + {last};
      if last in front && RevocationsFit(caps, front) {
        var i :| 0 <= i < |front| && front[i] == last;
        assert ids[i] == ids[|front|];
      }
    }
  }

  /** The lowest author timestamp of grant `i`, if it is a validator's, is given, is not negative and
      lies below no standing validator's and no earlier new validator's. */
  ghost predicate FloorMet(caps: Caps, grants: seq<Grant>, i: nat)
    requires i < |grants|
  {
    grants[i].role.Validator? ==>
      && grants[i].minimumAuthorTimestampMs.Some? && grants[i].minimumAuthorTimestampMs.value >= 0
      && (forall id :: id in caps && caps[id].grant.role.Validator? && caps[id].revokedAtRevision.None? ==>
            Reaches(grants[i], caps[id].grant))
      && (forall j :: 0 <= j < i && grants[j].role.Validator? ==> Reaches(grants[i], grants[j]))
  }

  ghost predicate Reaches(grant: Grant, other: Grant)
    requires grant.minimumAuthorTimestampMs.Some?
  {
    match other.minimumAuthorTimestampMs
    case None => true
    case Some(minimum) => grant.minimumAuthorTimestampMs.value >= minimum
  }

  /** Grant `i` starts at this revision under an id that is free. */
  ghost predicate GrantFits(c: Crypto, caps: Caps, grants: seq<Grant>, i: nat, at: int, checkFloor: bool)
    requires i < |grants|
  {
    && grants[i].validFromRevision == at && c.capabilityId(grants[i]) !in caps
    && (forall j :: 0 <= j < i ==> c.capabilityId(grants[j]) != c.capabilityId(grants[i]))
    && (checkFloor ==> FloorMet(caps, grants, i))
  }

  ghost predicate GrantsFit(c: Crypto, caps: Caps, grants: seq<Grant>, at: int, checkFloor: bool) {
    forall i :: 0 <= i < |grants| ==> GrantFits(c, caps, grants, i, at, checkFloor)
  }

  ghost function GrantIds(c: Crypto, grants: seq<Grant>): set<Bytes> {
    set grant | grant in grants :: c.capabilityId(grant)
  }

  /** Each grant stands under its id, as it was given, from this revision on and unrevoked; the
      capabilities that were there stay, and there are no others. */
  ghost predicate Adds(c: Crypto, before: Caps, after: Caps, grants: seq<Grant>, at: int) {
    && after.Keys == before.Keys + GrantIds(c, grants) && GrantIds(c, grants) !! before.Keys
    && (forall id :: id in before ==> after[id] == before[id])
    && (forall grant :: grant in grants ==>
          after[c.capabilityId(grant)] == Effective(c.capabilityId(grant), grant, at, None))
  }

  lemma {:induction false} GrantedMeans(c: Crypto, caps: Caps, grants: seq<Grant>, at: int, checkFloor: bool)
    ensures GrantedAll(c, caps, grants, at, checkFloor).Ok? <==> GrantsFit(c, caps, grants, at, checkFloor)
    ensures GrantedAll(c, caps, grants, at, checkFloor).Ok? ==>
              Adds(c, caps, GrantedAll(c, caps, grants, at, checkFloor).value, grants, at)
    ensures GrantedAll(c, caps, grants, at, checkFloor).Err? ==>
              GrantedAll(c, caps, grants, at, checkFloor) == Err(SchemaInvalid)
  {
    hide Granted, GrantFits;
    if grants == [] {
      assert GrantIds(c, grants) == {};
    } else {
      var n := |grants| - 1;
      var front := grants[..n];
      assert grants == front + [grants[n]];
      GrantedMeans(c, caps, front, at, checkFloor);
      assert GrantsFit(c, caps, grants, at, checkFloor) <==>
               GrantsFit(c, caps, front, at, checkFloor) && GrantFits(c, caps, grants, n, at, checkFloor)
      by {
        forall i | 0 <= i < n
          ensures GrantFits(c, caps, front, i, at, checkFloor) <==> GrantFits(c, caps, grants, i, at, checkFloor)
        {
          FitsInFront(c, caps, grants, i, at, checkFloor);
        }
      }
      if GrantedAll(c, caps, front, at, checkFloor).Ok? {
        OneMoreGrant(c, caps, GrantedAll(c, caps, front, at, checkFloor).value, grants, at, checkFloor);
      }
    }
  }

  lemma FitsInFront(c: Crypto, caps: Caps, grants: seq<Grant>, i: nat, at: int, checkFloor: bool)
    requires i < |grants| - 1
    ensures GrantFits(c, caps, grants[..|grants| - 1], i, at, checkFloor) <==>
              GrantFits(c, caps, grants, i, at, checkFloor)
  {
  }

  lemma OneMoreGrant(c: Crypto, caps: Caps, before: Caps, grants: seq<Grant>, at: int, checkFloor: bool)
    requires grants != [] && Adds(c, caps, before, grants[..|grants| - 1], at)
    ensures var n := |grants| - 1;
            var r := Granted(c, before, grants[n], at, checkFloor);
            && (r.Ok? <==> GrantFits(c, caps, grants, n, at, checkFloor))
            && (r.Ok? ==> Adds(c, caps, r.value, grants, at))
            && (r.Err? ==> r == Err(SchemaInvalid))
  {
    hide AboveFloor, Adds, FloorMet;
    IdIsFree(c, caps, before, grants, at);
    FloorOfBoth(c, caps, before, grants, at);
    var n := |grants| - 1;
    if Granted(c, before, grants[n], at, checkFloor).Ok? { AddsOneMore(c, caps, before, grants, at); }
  }

  lemma AddsOneMore(c: Crypto, caps: Caps, before: Caps, grants: seq<Grant>, at: int)
    requires grants != [] && Adds(c, caps, before, grants[..|grants| - 1], at)
    requires c.capabilityId(grants[|grants| - 1]) !in before
    ensures var last := grants[|grants| - 1];
            Adds(c, caps, before[c.capabilityId(last) := Effective(c.capabilityId(last), last, at, None)], grants, at)
  {
    var n := |grants| - 1;
    var front, last := grants[..n], grants[n];
    assert grants == front + [last];
    assert GrantIds(c, grants) == GrantIds(c, front) + {c.capabilityId(last)};
  }

  lemma IdIsFree(c: Crypto, caps: Caps, before: Caps, grants: seq<Grant>, at: int)
    requires grants != [] && Adds(c, caps, before, grants[..|grants| - 1], at)
    ensures var n := |grants| - 1;
            c.capabilityId(grants[n]) in before <==>
              || c.capabilityId(grants[n]) in caps
              || exists j :: 0 <= j < n && c.capabilityId(grants[j]) == c.capabilityId(grants[n])
  {
    var n := |grants| - 1;
    var front := grants[..n];
    if c.capabilityId(grants[n]) in GrantIds(c, front) {
      var grant :| grant in front && c.capabilityId(grant) == c.capabilityId(grants[n]);
      var j :| 0 <= j < n && front[j] == grant;
      assert c.capabilityId(grants[j]) == c.capabilityId(grants[n]);
    }
    forall j | 0 <= j < n ensures c.capabilityId(grants[j]) in GrantIds(c, front) { assert front[j] in front; }
  }

  lemma FloorOfBoth(c: Crypto, caps: Caps, before: Caps, grants: seq<Grant>, at: int)
    requires grants != [] && Adds(c, caps, before, grants[..|grants| - 1], at)
    ensures var n := |grants| - 1;
            FloorMet(caps, grants, n) <==>
              (grants[n].role.Validator? ==> AboveFloor(before, OrElse(grants[n].minimumAuthorTimestampMs, -1)))
  {
    var n := |grants| - 1;
    var front := grants[..n];
    var minimum := OrElse(grants[n].minimumAuthorTimestampMs, -1);
    if grants[n].role.Validator? && minimum >= 0 {
      if FloorMet(caps, grants, n) {
        forall id | id in before && Standing(before[id])
          ensures minimum >= OrElse(before[id].grant.minimumAuthorTimestampMs, 0)
        {
          if id in caps {
            assert Reaches(grants[n], caps[id].grant);
          } else {
            var grant :| grant in front && c.capabilityId(grant) == id;
            var j :| 0 <= j < n && front[j] == grant;
            assert grants[j].role.Validator? && Reaches(grants[n], grants[j]);
          }
        }
      }
      if AboveFloor(before, minimum) {
        forall id | id in caps && caps[id].grant.role.Validator? && caps[id].revokedAtRevision.None?
          ensures Reaches(grants[n], caps[id].grant)
        {
          assert Standing(before[id]);
        }
        forall j | 0 <= j < n && grants[j].role.Validator? ensures Reaches(grants[n], grants[j]) {
          assert front[j] in front && Standing(before[c.capabilityId(grants[j])]);
        }
      }
    }
  }

  /** Policy `i` has an id that is free. */
  ghost predicate PolicyFits(c: Crypto, policies: Policies, added: seq<ValidationPolicy>, i: nat)
    requires i < |added|
  {
    && c.policyId(added[i]) !in policies
    && forall j :: 0 <= j < i ==> c.policyId(added[j]) != c.policyId(added[i])
  }

  ghost predicate PoliciesFit(c: Crypto, policies: Policies, added: seq<ValidationPolicy>) {
    forall i :: 0 <= i < |added| ==> PolicyFits(c, policies, added, i)
  }

  ghost function PolicyIds(c: Crypto, added: seq<ValidationPolicy>): set<Bytes> {
    set policy | policy in added :: c.policyId(policy)
  }

  /** Each policy is installed under its id at this revision, and nothing else changes. */
  ghost predicate Installs(c: Crypto, before: Policies, after: Policies, added: seq<ValidationPolicy>, at: int) {
    && after.Keys == before.Keys + PolicyIds(c, added)
    && (forall id :: id in before ==> after[id] == before[id])
    && (forall policy :: policy in added ==> after[c.policyId(policy)] == InstalledPolicy(policy, at))
  }

  lemma {:induction false} InstalledMeans(c: Crypto, policies: Policies, added: seq<ValidationPolicy>, at: int)
    ensures Installed(c, policies, added, at).Ok? <==> PoliciesFit(c, policies, added)
    ensures Installed(c, policies, added, at).Ok? ==>
              Installs(c, policies, Installed(c, policies, added, at).value, added, at)
    ensures Installed(c, policies, added, at).Err? ==> Installed(c, policies, added, at) == Err(SchemaInvalid)
  {
    hide PolicyFits, Installs;
    if added == [] {
      assert Installs(c, policies, policies, added, at) by { InstallsNothing(c, policies, at); }
    } else {
      var n := |added| - 1;
      var front := added[..n];
      InstalledMeans(c, policies, front, at);
      forall i | 0 <= i < n ensures PolicyFits(c, policies, front, i) <==> PolicyFits(c, policies, added, i) {
        PolicyFitsInFront(c, policies, added, i);
      }
      if Installed(c, policies, front, at).Ok? {
        OneMorePolicy(c, policies, Installed(c, policies, front, at).value, added, at);
      }
    }
  }

  lemma InstallsNothing(c: Crypto, policies: Policies, at: int)
    ensures Installs(c, policies, policies, [], at)
  {
    assert PolicyIds(c, []) == {};
  }

  lemma PolicyFitsInFront(c: Crypto, policies: Policies, added: seq<ValidationPolicy>, i: nat)
    requires i < |added| - 1
    ensures PolicyFits(c, policies, added[..|added| - 1], i) <==> PolicyFits(c, policies, added, i)
  {
  }

  lemma OneMorePolicy(c: Crypto, policies: Policies, before: Policies, added: seq<ValidationPolicy>, at: int)
    requires added != [] && Installs(c, policies, before, added[..|added| - 1], at)
    requires PoliciesFit(c, policies, added[..|added| - 1])
    ensures var n := |added| - 1;
            && (c.policyId(added[n]) !in before <==> PolicyFits(c, policies, added, n))
            && (c.policyId(added[n]) !in before ==>
                  Installs(c, policies, before[c.policyId(added[n]) := InstalledPolicy(added[n], at)], added, at))
  {
    var n := |added| - 1;
    var front, last := added[..n], added[n];
    assert added == front + [last];
    assert PolicyIds(c, added) == PolicyIds(c, front) + {c.policyId(last)};
    if c.policyId(last) in PolicyIds(c, front) {
      var policy :| policy in front && c.policyId(policy) == c.policyId(last);
      var j :| 0 <= j < n && front[j] == policy;
      assert c.policyId(added[j]) == c.policyId(added[n]);
    }
    forall j | 0 <= j < n ensures c.policyId(added[j]) in PolicyIds(c, front) { assert front[j] in front; }
  }

  // ---- one step

  /** What a step changes: `gone` ends at this revision, the grants begin at it, every other
      capability stays as it was. */
  ghost predicate Brings(c: Crypto, before: Caps, after: Caps, gone: set<Bytes>, grants: seq<Grant>, at: int) {
    && after.Keys == before.Keys + GrantIds(c, grants) && GrantIds(c, grants) !! before.Keys
    && (forall id :: id in before ==>
          after[id] == if id in gone then before[id].(revokedAtRevision := Some(at)) else before[id])
    && (forall grant :: grant in grants ==>
          after[c.capabilityId(grant)] == Effective(c.capabilityId(grant), grant, at, None))
  }

  lemma EndsThenAdds(c: Crypto, before: Caps, middle: Caps, after: Caps, gone: set<Bytes>, grants: seq<Grant>, at: int)
    requires Ends(before, middle, gone, at) && Adds(c, middle, after, grants, at)
    ensures Brings(c, before, after, gone, grants, at)
  {
  }

  /** A grant is in force at its revision unless its own end lies before; what ended is not in force
      at this revision or any later one. */
  lemma InForce(c: Crypto, before: Caps, after: Caps, gone: set<Bytes>, grants: seq<Grant>, at: int, revision: int)
    requires Brings(c, before, after, gone, grants, at) && gone <= before.Keys && revision >= at
    ensures forall grant :: grant in grants && grant.validFromRevision == at ==>
              (Active(after[c.capabilityId(grant)], revision) <==>
                 grant.validUntilRevision.None? || revision <= grant.validUntilRevision.value)
    ensures forall id :: id in gone ==> !Active(after[id], revision)
    ensures forall id :: id in before && id !in gone ==>
              (Active(after[id], revision) <==> Active(before[id], revision))
  {
  }

  /** The capabilities that stay. */
  ghost function Staying(caps: Caps, ids: seq<Bytes>): Caps { map id | id in caps && id !in ids :: caps[id] }

  /** The revision names this group's next revision and carries the root key's signature. */
  ghost predicate Extends(c: Crypto, s: Snapshot, signed: SignedRevision) {
    var r := signed.revision;
    && c.revisionWellFormed(r) && r.groupId == s.groupId && r.revision == s.revision + 1
    && r.previousRevisionDigest == s.revisionDigest
    && r.issuerRootPublicKey == s.rootAdminPublicKey
    && c.verifyRevision(r, signed.signature, s.rootAdminPublicKey)
  }

  ghost predicate Consistent(c: Crypto, s: Snapshot, r: Revision) {
    && RevocationsFit(s.capabilities, r.revocations)
    && (forall i :: 0 <= i < |r.grants| ==> GrantFits(c, s.capabilities, r.grants, i, r.revision, false))
    && (forall i :: 0 <= i < |r.grants| ==> FloorMet(Staying(s.capabilities, r.revocations), r.grants, i))
    && PoliciesFit(c, s.policies, r.validationPolicies)
  }

  /** A revision is accepted exactly when it extends this snapshot and revokes, grants and installs
      consistently. Then it does what it says and nothing else; otherwise the error names the first
      requirement it fails. */
  lemma RevisedMeans(c: Crypto, s: Snapshot, signed: SignedRevision)
    ensures var r, t := signed.revision, Revised(c, s, signed);
            && (t.Ok? <==> Extends(c, s, signed) && Consistent(c, s, r))
            && (t.Ok? ==>
                  && Brings(c, s.capabilities, t.value.capabilities, Listed(r.revocations), r.grants, r.revision)
                  && Installs(c, s.policies, t.value.policies, r.validationPolicies, r.revision)
                  && (r.successorRootPublicKey == Some(t.value.rootAdminPublicKey)
                      || (r.successorRootPublicKey.None? && t.value.rootAdminPublicKey == s.rootAdminPublicKey))
                  && (r.successorCapabilityLogFeed == Some(t.value.capabilityLogFeed)
                      || (r.successorCapabilityLogFeed.None? && t.value.capabilityLogFeed == s.capabilityLogFeed))
                  && t.value.revision == s.revision + 1 && t.value.revisionDigest == c.revisionDigest(r)
                  && SameFrame(s, t.value))
  {
    hide Revoked, GrantedAll, Installed, FloorMet, Brings, Ends, Adds, PoliciesFit, RevocationsFit, Installs;
    var r := signed.revision;
    RevokedMeans(s.capabilities, r.revocations, r.revision);
    InstalledMeans(c, s.policies, r.validationPolicies, r.revision);
    if Revoked(s.capabilities, r.revocations, r.revision).Ok? {
      var middle := Revoked(s.capabilities, r.revocations, r.revision).value;
      GrantedMeans(c, middle, r.grants, r.revision, true);
      StayingFits(c, s, r, middle);
      var granted := GrantedAll(c, middle, r.grants, r.revision, true);
      if granted.Ok? {
        EndsThenAdds(c, s.capabilities, middle, granted.value, Listed(r.revocations), r.grants, r.revision);
      }
    }
  }

  /** What no revision touches. */
  ghost predicate SameFrame(s: Snapshot, t: Snapshot) {
    && t.groupId == s.groupId && t.recoveryPublicKeys == s.recoveryPublicKeys
    && t.recoveryThreshold == s.recoveryThreshold && t.historyReopened == s.historyReopened
    && t.recoveryEventDigest == s.recoveryEventDigest
  }

  lemma StayingFits(c: Crypto, s: Snapshot, r: Revision, middle: Caps)
    requires Ends(s.capabilities, middle, Listed(r.revocations), r.revision)
    ensures GrantsFit(c, middle, r.grants, r.revision, true) <==>
              && (forall i :: 0 <= i < |r.grants| ==> GrantFits(c, s.capabilities, r.grants, i, r.revision, false))
              && (forall i :: 0 <= i < |r.grants| ==> FloorMet(Staying(s.capabilities, r.revocations), r.grants, i))
  {
    hide GrantFits, FloorMet;
    forall i | 0 <= i < |r.grants|
      ensures GrantFits(c, middle, r.grants, i, r.revision, true) <==>
                GrantFits(c, s.capabilities, r.grants, i, r.revision, false)
                && FloorMet(Staying(s.capabilities, r.revocations), r.grants, i)
    {
      StayingFitsOne(c, s.capabilities, r.revocations, middle, r.grants, i, r.revision);
    }
  }

  lemma StayingFitsOne(c: Crypto, caps: Caps, ids: seq<Bytes>, middle: Caps, grants: seq<Grant>, i: nat, at: int)
    requires i < |grants| && Ends(caps, middle, Listed(ids), at)
    ensures GrantFits(c, middle, grants, i, at, true) <==>
              GrantFits(c, caps, grants, i, at, false) && FloorMet(Staying(caps, ids), grants, i)
  {
    hide Reaches;
    var staying := Staying(caps, ids);
    forall id ensures (id in staying && staying[id].grant.role.Validator? && staying[id].revokedAtRevision.None?) <==>
                        (id in middle && middle[id].grant.role.Validator? && middle[id].revokedAtRevision.None?)
              ensures id in staying ==> middle[id] == staying[id]
    {
    }
    assert FloorMet(middle, grants, i) <==> FloorMet(staying, grants, i);
  }

  /** A refused revision gets the error of the first requirement it fails: the group's next
      revision, the digest it extends, the issuer, the signature, and then its content. */
  lemma RevisedErrors(c: Crypto, s: Snapshot, signed: SignedRevision)
    requires Revised(c, s, signed).Err?
    ensures var r := signed.revision;
            var next := c.revisionWellFormed(r) && r.groupId == s.groupId && r.revision == s.revision + 1;
            var error := Revised(c, s, signed).error;
            && (error.DigestMismatch? <==> next && r.previousRevisionDigest != s.revisionDigest)
            && (error.InvalidKey? <==> next && r.previousRevisionDigest == s.revisionDigest
                                       && r.issuerRootPublicKey != s.rootAdminPublicKey)
            && (error.InvalidSignature? <==> next && r.previousRevisionDigest == s.revisionDigest
                                             && r.issuerRootPublicKey == s.rootAdminPublicKey
                                             && !c.verifyRevision(r, signed.signature, s.rootAdminPublicKey))
            && (error.SchemaInvalid? <==> !next || Extends(c, s, signed))
  {
    hide Revoked, GrantedAll, Installed, RevocationsFit, GrantsFit, PoliciesFit, Ends, Adds, Installs;
    var r := signed.revision;
    RevokedMeans(s.capabilities, r.revocations, r.revision);
    InstalledMeans(c, s.policies, r.validationPolicies, r.revision);
    if Revoked(s.capabilities, r.revocations, r.revision).Ok? {
      GrantedMeans(c, Revoked(s.capabilities, r.revocations, r.revision).value, r.grants, r.revision, true);
    }
  }

  /** Validators and holders of the root key that no earlier step has ended. */
  ghost function EndingAtRecovery(s: Snapshot): set<Bytes> {
    set id | id in s.capabilities && s.capabilities[id].revokedAtRevision.None?
             && (s.capabilities[id].grant.role.Validator?
                 || s.capabilities[id].grant.signingPublicKey == s.rootAdminPublicKey)
  }

  predicate StandingValidator(e: Effective) { e.grant.role.Validator? && e.revokedAtRevision.None? }

  /** No validator that stands may be undercut, unless the record says that history reopens. */
  ghost predicate FloorHeld(s: Snapshot, p: Payload) {
    p.reopenHistory || forall grant :: grant in p.validatorGrants ==>
      && grant.minimumAuthorTimestampMs.Some? && grant.minimumAuthorTimestampMs.value >= 0
      && forall id :: id in s.capabilities && StandingValidator(s.capabilities[id]) ==>
           Reaches(grant, s.capabilities[id].grant)
  }

  ghost predicate RecoverySigned(c: Crypto, s: Snapshot, record: RecoveryRecord) {
    var p := record.payload;
    && p.groupId == s.groupId && p.lastRevision == s.revision && p.lastRevisionDigest == s.revisionDigest
    && p.newRevision > s.revision
    && |FirstSigners(c, s, record)| >= s.recoveryThreshold
  }

  /** The recovery keys whose first signature in the record is valid. */
  ghost function FirstSigners(c: Crypto, s: Snapshot, record: RecoveryRecord): set<int> {
    set key | 0 <= key < |s.recoveryPublicKeys| && Laws.FirstCounts(c, s, record.payload, record.signatures, key)
  }

  /** A recovery is accepted exactly when it continues this snapshot with enough signatures, keeps
      the floor and grants consistently. Then every standing validator and holder of the old root key
      ends, the granted validators begin, and root key and feed are the new ones. */
  lemma RecoveredMeans(c: Crypto, s: Snapshot, record: RecoveryRecord)
    ensures var p, t := record.payload, Recovered(c, s, record);
            && (t.Ok? <==>
                  && RecoverySigned(c, s, record) && c.payloadWellFormed(p) && FloorHeld(s, p)
                  && GrantsFit(c, s.capabilities, p.validatorGrants, p.newRevision, false))
            && (t.Err? ==> t.error.InvalidSignature? || t.error.SchemaInvalid?)
            && (t.Err? && RecoverySigned(c, s, record) ==> t.error.SchemaInvalid?)
            && (!RecoverySigned(c, s, record) && c.payloadWellFormed(p) ==> t == Err(InvalidSignature))
            && (t.Ok? ==>
                  && Brings(c, s.capabilities, t.value.capabilities, EndingAtRecovery(s), p.validatorGrants,
                            p.newRevision)
                  && t.value == s.(revision := p.newRevision, revisionDigest := c.recoveryDigest(p),
                                   rootAdminPublicKey := p.newRootPublicKey,
                                   capabilityLogFeed := p.newCapabilityLogFeed,
                                   historyReopened := p.reopenHistory,
                                   recoveryEventDigest := Some(c.recoveryDigest(p)),
                                   capabilities := t.value.capabilities))
  {
    hide GrantedAll, CountedKeys, FloorHeld, AboveFloor, GrantsFit, Brings, Ends, Adds, RecoveryRevoked;
    hide EndingAtRecovery, FirstSigners;
    var p := record.payload;
    SignersCounted(c, s, record);
    FloorHeldExactly(s, p);
    RecoveryEnds(s, p.newRevision);
    var middle := RecoveryRevoked(s, p.newRevision);
    GrantedMeans(c, middle, p.validatorGrants, p.newRevision, false);
    SameFreeIds(c, s.capabilities, middle, EndingAtRecovery(s), p.validatorGrants, p.newRevision);
    var granted := GrantedAll(c, middle, p.validatorGrants, p.newRevision, false);
    if granted.Ok? {
      EndsThenAdds(c, s.capabilities, middle, granted.value, EndingAtRecovery(s), p.validatorGrants, p.newRevision);
    }
  }

  lemma SignersCounted(c: Crypto, s: Snapshot, record: RecoveryRecord)
    ensures CountedKeys(c, s, record.payload, record.signatures) == FirstSigners(c, s, record)
  {
    hide CountedKeys, Laws.FirstCounts;
    forall key
      ensures key in CountedKeys(c, s, record.payload, record.signatures) <==> key in FirstSigners(c, s, record)
    {
      Laws.CountedExactly(c, s, record.payload, record.signatures, key);
      if Laws.FirstCounts(c, s, record.payload, record.signatures, key) { SignerIsKey(c, s, record, key); }
    }
  }

  lemma SignerIsKey(c: Crypto, s: Snapshot, record: RecoveryRecord, key: int)
    requires Laws.FirstCounts(c, s, record.payload, record.signatures, key)
    ensures 0 <= key < |s.recoveryPublicKeys|
  {
  }

  lemma FloorHeldExactly(s: Snapshot, p: Payload)
    ensures FloorHeld(s, p) <==>
              (p.reopenHistory || forall i :: 0 <= i < |p.validatorGrants| ==>
                 AboveFloor(s.capabilities, OrElse(p.validatorGrants[i].minimumAuthorTimestampMs, -1)))
  {
    if FloorHeld(s, p) && !p.reopenHistory {
      forall i | 0 <= i < |p.validatorGrants|
        ensures AboveFloor(s.capabilities, OrElse(p.validatorGrants[i].minimumAuthorTimestampMs, -1))
      {
        assert p.validatorGrants[i] in p.validatorGrants;
        forall id | id in s.capabilities && Standing(s.capabilities[id])
          ensures p.validatorGrants[i].minimumAuthorTimestampMs.value
                  >= OrElse(s.capabilities[id].grant.minimumAuthorTimestampMs, 0)
        {
          assert Reaches(p.validatorGrants[i], s.capabilities[id].grant);
        }
      }
    }
  }

  lemma RecoveryEnds(s: Snapshot, at: int)
    ensures Ends(s.capabilities, RecoveryRevoked(s, at), EndingAtRecovery(s), at)
  {
  }

  lemma SameFreeIds(c: Crypto, caps: Caps, middle: Caps, gone: set<Bytes>, grants: seq<Grant>, at: int)
    requires Ends(caps, middle, gone, at)
    ensures GrantsFit(c, middle, grants, at, false) <==> GrantsFit(c, caps, grants, at, false)
  {
    hide FloorMet;
    forall i | 0 <= i < |grants|
      ensures GrantFits(c, middle, grants, i, at, false) <==> GrantFits(c, caps, grants, i, at, false)
    {
    }
  }

  /** A genesis is accepted exactly when it is signed and grants and installs consistently, and then
      it grants and installs what it lists. */
  lemma FoundedMeans(c: Crypto, g: Genesis, signature: Bytes)
    ensures var t := Founded(c, g, signature);
            && (t.Ok? <==>
                  && c.verifyGenesis(g, signature) && c.genesisWellFormed(g)
                  && GrantsFit(c, map[], g.initialCapabilities, 0, false)
                  && PoliciesFit(c, map[], g.validationPolicies))
            && (t.Err? ==> (t.error.InvalidSignature? <==> !c.verifyGenesis(g, signature)))
            && (t.Ok? ==>
                  && Brings(c, map[], t.value.capabilities, {}, g.initialCapabilities, 0)
                  && Installs(c, map[], t.value.policies, g.validationPolicies, 0)
                  && t.value == Snapshot(g.groupId, 0, c.genesisDigest(g), g.rootAdminPublicKey, g.capabilityLogFeed,
                                         t.value.capabilities, t.value.policies, g.recoveryPublicKeys,
                                         g.recoveryThreshold, false, None))
  {
    hide GrantedAll, Installed, GrantsFit, PoliciesFit, Brings, Adds, Installs;
    GrantedMeans(c, map[], g.initialCapabilities, 0, false);
    InstalledMeans(c, map[], g.validationPolicies, 0);
    if GrantedAll(c, map[], g.initialCapabilities, 0, false).Ok? {
      AddsToNothing(c, GrantedAll(c, map[], g.initialCapabilities, 0, false).value, g.initialCapabilities, 0);
    }
  }

  lemma AddsToNothing(c: Crypto, after: Caps, grants: seq<Grant>, at: int)
    requires Adds(c, map[], after, grants, at)
    ensures Brings(c, map[], after, {}, grants, at)
  {
  }

  // ---- whole runs

  /** The steps a log can take, and what each one ends and grants on a snapshot. */
  ghost predicate Accepted(c: Crypto, s: Snapshot, step: Laws.Step) {
    if step.Revise? then Revised(c, s, step.signed).Ok? else Recovered(c, s, step.record).Ok?
  }

  function RevisionOf(step: Laws.Step): int {
    if step.Revise? then step.signed.revision.revision else step.record.payload.newRevision
  }

  function GrantsOf(step: Laws.Step): seq<Grant> {
    if step.Revise? then step.signed.revision.grants else step.record.payload.validatorGrants
  }

  ghost function GoneBy(s: Snapshot, step: Laws.Step): set<Bytes> {
    if step.Revise? then Listed(step.signed.revision.revocations) else EndingAtRecovery(s)
  }

  lemma StepMeans(c: Crypto, s: Snapshot, step: Laws.Step)
    ensures var t := Laws.After(c, s, step);
            if Accepted(c, s, step) then
              && Brings(c, s.capabilities, t.capabilities, GoneBy(s, step), GrantsOf(step), RevisionOf(step))
              && GoneBy(s, step) <= s.capabilities.Keys
              && (forall id :: id in GoneBy(s, step) ==> s.capabilities[id].revokedAtRevision.None?)
              && (forall grant :: grant in GrantsOf(step) ==> grant.validFromRevision == RevisionOf(step))
              && t.revision == RevisionOf(step) > s.revision
            else t == s
  {
    hide Revised, Recovered, Brings, FloorHeld, RecoverySigned, FloorMet, Installs, PoliciesFit;
    if Accepted(c, s, step) {
      match step
      case Revise(signed) =>
        RevisedMeans(c, s, signed);
        ListedFit(s.capabilities, signed.revision.revocations);
        forall grant | grant in GrantsOf(step) ensures grant.validFromRevision == RevisionOf(step) {
          var i :| 0 <= i < |GrantsOf(step)| && GrantsOf(step)[i] == grant;
          assert GrantFits(c, s.capabilities, GrantsOf(step), i, RevisionOf(step), false);
        }
      case Recover(record) =>
        RecoveredMeans(c, s, record);
        assert record.payload.newRevision > s.revision by { RecoveryIsLater(c, s, record); }
        forall grant | grant in GrantsOf(step) ensures grant.validFromRevision == RevisionOf(step) {
          var i :| 0 <= i < |GrantsOf(step)| && GrantsOf(step)[i] == grant;
          assert GrantFits(c, s.capabilities, GrantsOf(step), i, RevisionOf(step), false);
        }
    }
  }

  lemma RecoveryIsLater(c: Crypto, s: Snapshot, record: RecoveryRecord)
    requires RecoverySigned(c, s, record)
    ensures record.payload.newRevision > s.revision
  {
  }

  lemma ListedFit(caps: Caps, ids: seq<Bytes>)
    requires RevocationsFit(caps, ids)
    ensures forall id :: id in Listed(ids) ==> id in caps && caps[id].revokedAtRevision.None?
  {
  }

  /** A log: a genesis and the steps offered after it. */
  datatype Log = Log(genesis: Genesis, signature: Bytes, steps: seq<Laws.Step>)

  /** The snapshot after the first `n` steps; a refused step leaves it as it was. */
  ghost function At(c: Crypto, log: Log, n: nat): Snapshot
    requires Founded(c, log.genesis, log.signature).Ok? && n <= |log.steps|
  {
    Laws.Run(c, Founded(c, log.genesis, log.signature).value, log.steps[..n])
  }

  lemma AtNext(c: Crypto, log: Log, n: nat)
    requires Founded(c, log.genesis, log.signature).Ok? && n < |log.steps|
    ensures At(c, log, n + 1) == Laws.After(c, At(c, log, n), log.steps[n])
  {
    hide Laws.After, Founded;
    assert log.steps[..n + 1][..n] == log.steps[..n];
  }

  /** The grant came with the genesis or with one of the first `n` steps that was accepted. */
  ghost predicate Given(c: Crypto, log: Log, n: nat, grant: Grant)
    requires Founded(c, log.genesis, log.signature).Ok? && n <= |log.steps|
  {
    grant in log.genesis.initialCapabilities || exists k :: 0 <= k < n && GivenAt(c, log, k, grant)
  }

  ghost predicate GivenAt(c: Crypto, log: Log, k: nat, grant: Grant)
    requires Founded(c, log.genesis, log.signature).Ok? && k < |log.steps|
  {
    Accepted(c, At(c, log, k), log.steps[k]) && grant in GrantsOf(log.steps[k])
  }

  /** An accepted step at this revision ended the capability. */
  ghost predicate EndedAt(c: Crypto, log: Log, k: nat, id: Bytes, revision: int)
    requires Founded(c, log.genesis, log.signature).Ok? && k < |log.steps|
  {
    && Accepted(c, At(c, log, k), log.steps[k]) && RevisionOf(log.steps[k]) == revision
    && id in GoneBy(At(c, log, k), log.steps[k])
  }

  ghost predicate Ended(c: Crypto, log: Log, n: nat, id: Bytes, revision: int)
    requires Founded(c, log.genesis, log.signature).Ok? && n <= |log.steps|
  {
    exists k :: 0 <= k < n && EndedAt(c, log, k, id, revision)
  }

  /** What a snapshot says of an id is what the log says. */
  ghost predicate Tells(c: Crypto, log: Log, n: nat, id: Bytes)
    requires Founded(c, log.genesis, log.signature).Ok? && n <= |log.steps|
  {
    var caps := At(c, log, n).capabilities;
    && (id in caps ==>
          && caps[id].id == id && c.capabilityId(caps[id].grant) == id && Given(c, log, n, caps[id].grant)
          && caps[id].grant.validFromRevision == caps[id].grantedAtRevision
          && forall revision :: caps[id].revokedAtRevision == Some(revision) <==> Ended(c, log, n, id, revision))
    && (forall grant :: Given(c, log, n, grant) && c.capabilityId(grant) == id ==>
          id in caps && caps[id].grant == grant)
  }

  lemma {:induction false} LogTells(c: Crypto, log: Log, n: nat, id: Bytes)
    requires Founded(c, log.genesis, log.signature).Ok? && n <= |log.steps|
    ensures Tells(c, log, n, id)
  {
    hide Tells, Founded;
    if n == 0 {
      FoundedTells(c, log, id);
    } else {
      LogTells(c, log, n - 1, id);
      AtNext(c, log, n - 1);
      StepMeans(c, At(c, log, n - 1), log.steps[n - 1]);
      if Accepted(c, At(c, log, n - 1), log.steps[n - 1]) {
        AcceptedTells(c, log, n, id);
      } else {
        RefusedTells(c, log, n, id);
      }
    }
  }

  lemma FoundedTells(c: Crypto, log: Log, id: Bytes)
    requires Founded(c, log.genesis, log.signature).Ok?
    ensures Tells(c, log, 0, id)
  {
    hide Founded, GrantFits, PoliciesFit, Installs;
    FoundedMeans(c, log.genesis, log.signature);
    assert log.steps[..0] == [];
    var caps := At(c, log, 0).capabilities;
    assert caps == Founded(c, log.genesis, log.signature).value.capabilities;
    var grants := log.genesis.initialCapabilities;
    forall grant | grant in grants
      ensures grant.validFromRevision == 0 && c.capabilityId(grant) in GrantIds(c, grants)
    {
      var i :| 0 <= i < |grants| && grants[i] == grant;
      FitsStart(c, grants, i);
    }
    if id in caps {
      var grant :| grant in grants && c.capabilityId(grant) == id;
      assert caps[id] == Effective(id, grant, 0, None);
    }
  }

  lemma FitsStart(c: Crypto, grants: seq<Grant>, i: nat)
    requires i < |grants|
    ensures GrantFits(c, map[], grants, i, 0, false) ==> grants[i].validFromRevision == 0
  {
  }

  lemma GivenSplit(c: Crypto, log: Log, n: nat, grant: Grant)
    requires Founded(c, log.genesis, log.signature).Ok? && 0 < n <= |log.steps|
    ensures Given(c, log, n, grant) <==> Given(c, log, n - 1, grant) || GivenAt(c, log, n - 1, grant)
  {
    hide GivenAt, Founded;
  }

  lemma EndedSplit(c: Crypto, log: Log, n: nat, id: Bytes, revision: int)
    requires Founded(c, log.genesis, log.signature).Ok? && 0 < n <= |log.steps|
    ensures Ended(c, log, n, id, revision) <==>
              Ended(c, log, n - 1, id, revision) || EndedAt(c, log, n - 1, id, revision)
  {
    hide EndedAt, Founded;
  }

  lemma RefusedTells(c: Crypto, log: Log, n: nat, id: Bytes)
    requires Founded(c, log.genesis, log.signature).Ok? && 0 < n <= |log.steps| && Tells(c, log, n - 1, id)
    requires !Accepted(c, At(c, log, n - 1), log.steps[n - 1]) && At(c, log, n) == At(c, log, n - 1)
    ensures Tells(c, log, n, id)
  {
    hide Founded, At, Accepted, Given, Ended;
    forall grant ensures Given(c, log, n, grant) <==> Given(c, log, n - 1, grant) { GivenSplit(c, log, n, grant); }
    forall revision ensures Ended(c, log, n, id, revision) <==> Ended(c, log, n - 1, id, revision) {
      EndedSplit(c, log, n, id, revision);
    }
  }

  lemma AcceptedTells(c: Crypto, log: Log, n: nat, id: Bytes)
    requires Founded(c, log.genesis, log.signature).Ok? && 0 < n <= |log.steps| && Tells(c, log, n - 1, id)
    requires var s, t, step := At(c, log, n - 1), At(c, log, n), log.steps[n - 1];
             && Accepted(c, s, step) && GoneBy(s, step) <= s.capabilities.Keys
             && Brings(c, s.capabilities, t.capabilities, GoneBy(s, step), GrantsOf(step), RevisionOf(step))
             && (forall gone :: gone in GoneBy(s, step) ==> s.capabilities[gone].revokedAtRevision.None?)
             && (forall grant :: grant in GrantsOf(step) ==> grant.validFromRevision == RevisionOf(step))
    ensures Tells(c, log, n, id)
  {
    hide Founded, At, Accepted, Given, Ended, GoneBy;
    var s, t, step := At(c, log, n - 1), At(c, log, n), log.steps[n - 1];
    var grants := GrantsOf(step);
    forall grant ensures Given(c, log, n, grant) <==> Given(c, log, n - 1, grant) || grant in grants {
      GivenSplit(c, log, n, grant);
    }
    forall revision
      ensures Ended(c, log, n, id, revision) <==>
                Ended(c, log, n - 1, id, revision) || (revision == RevisionOf(step) && id in GoneBy(s, step))
    {
      EndedSplit(c, log, n, id, revision);
    }
    assert forall grant :: grant in grants ==> c.capabilityId(grant) in GrantIds(c, grants);
    if id in t.capabilities && id !in s.capabilities {
      var grant :| grant in grants && c.capabilityId(grant) == id;
      assert t.capabilities[id] == Effective(id, grant, RevisionOf(step), None);
      var m := n - 1;
      forall revision ensures !Ended(c, log, m, id, revision) { NeverKnown(c, log, m, id, revision); }
    }
  }

  lemma {:induction false} NeverKnown(c: Crypto, log: Log, n: nat, id: Bytes, revision: int)
    requires Founded(c, log.genesis, log.signature).Ok? && n <= |log.steps| && id !in At(c, log, n).capabilities
    ensures !Ended(c, log, n, id, revision)
  {
    hide Founded, At, Accepted, GoneBy;
    if n > 0 {
      AtNext(c, log, n - 1);
      StepMeans(c, At(c, log, n - 1), log.steps[n - 1]);
      NeverKnown(c, log, n - 1, id, revision);
      EndedSplit(c, log, n, id, revision);
    }
  }

  /** Who is authorized: after any log a grant is in force at a revision exactly when the genesis or
      an accepted step gave it, it has begun and not run out, and no accepted step at or before that
      revision ended it. */
  lemma AuthorizedExactly(c: Crypto, log: Log, grant: Grant, revision: int)
    requires Founded(c, log.genesis, log.signature).Ok?
    ensures var n, id := |log.steps|, c.capabilityId(grant);
            (id in Laws.ActiveAt(At(c, log, n), revision) && Laws.ActiveAt(At(c, log, n), revision)[id] == grant) <==>
              && Given(c, log, n, grant) && grant.validFromRevision <= revision
              && (grant.validUntilRevision.None? || revision <= grant.validUntilRevision.value)
              && forall at :: Ended(c, log, n, id, at) ==> revision < at
  {
    hide Founded, At, Given, Ended;
    LogTells(c, log, |log.steps|, c.capabilityId(grant));
  }

  /** Every capability of a reachable snapshot stands under its own id. */
  lemma RunKeyed(c: Crypto, log: Log, n: nat)
    requires Founded(c, log.genesis, log.signature).Ok? && n <= |log.steps|
    ensures Keyed(At(c, log, n).capabilities)
  {
    hide Founded, At, Given, Ended;
    forall id | id in At(c, log, n).capabilities ensures At(c, log, n).capabilities[id].id == id {
      LogTells(c, log, n, id);
    }
  }
}
