/** The deterministic materializer: checkpointed suffix replay, publication by one head move,
    interruption at any publication point, and recovery by `Open`. */
module Materializer {
  import opened Bytes
  import opened Sequences
  import opened Sorting
  import opened Replay
  import opened Repository
  import opened MaterializerChecks

  /** The five places where a publication can be interrupted. */
  datatype Point = AfterCandidateCommit | AfterRevisionRefCreated | BeforeHeadPublish
      | AfterHeadPublish | AfterReaderSwap

  datatype Fault = NoFault | DuringReplay(index: nat) | AtPoint(point: Point)

  /** What the environment does to one call: the replay branch nonce it draws, where an error
      strikes, whether that error kills the process, and how many branch deletions succeed
      before one fails (None: all of them). */
  datatype Plan = Plan(nonce: Bytes, fault: Fault, kill: bool, deletions: Option<nat>)

  datatype Event = Event(
    revision: nat, previousRevision: nat, orderLength: nat, replayFromIndex: nat, replayedTransactions: nat,
    earliestChangedOrderIndex: nat, outcomeChanges: seq<OutcomeChange>)

  datatype Result = Unchanged | Published(event: Event) | Threw(code: string) | Killed

  datatype Replayed = Complete | Broken(code: string) | Interrupted

  datatype Built = Candidate(commit: nat) | BuildFailed(code: string) | BuildKilled

  datatype Attempt = Done(event: Event) | Failed(code: string, created: set<Branch>, moved: bool) | Died

  function CodeOf(error: Option<string>): string {
    match error case Some(code) => code case None => ""
  }

  function OldestFirst(a: Checkpoint, b: Checkpoint): bool {
    a.prefixLength <= b.prefixLength
  }

  ghost predicate CheckpointOk(e: Engine, commits: seq<Content>, order: seq<Bytes>, cp: Checkpoint) {
    && cp.commit < |commits|
    && |commits[cp.commit].log| == cp.prefixLength
    && cp.branch.CheckpointRef? && cp.branch.prefixLength == cp.prefixLength
    && (cp.prefixLength == 0 ==> cp.branch == GenesisRef(e))
    && (IsPrefix(LogIds(commits[cp.commit].log), order) || Dead(LogIds(commits[cp.commit].log), order))
  }

  ghost predicate CheckpointsOk(e: Engine, commits: seq<Content>, order: seq<Bytes>, checkpoints: seq<Checkpoint>) {
    forall i :: 0 <= i < |checkpoints| ==> CheckpointOk(e, commits, order, checkpoints[i])
  }

  ghost predicate HasGenesis(checkpoints: seq<Checkpoint>) {
    exists cp :: cp in checkpoints && cp.prefixLength == 0
  }

  /** The head is the published commit, or one revision ahead of memory after a call that failed
      between the head move and the swap. */
  ghost predicate HeadAgrees(branches: Branches, published: PublishedRef, length: nat)
    requires HeadMarked(branches)
  {
    && (forall b :: b in branches && b.CheckpointRef? ==> b.revision <= published.revision + 1)
    && (if HeadMarker(branches).revision == published.revision then
          branches[Head] == published.commit &&
          forall b :: b in branches && b.CheckpointRef? && b.revision > published.revision ==> b.prefixLength > length
        else HeadMarker(branches).revision == published.revision + 1)
  }

  ghost predicate NoLaterRefs(branches: Branches, revision: nat) {
    forall b :: b in branches && (b.CheckpointRef? || b.RevisionRef?) ==> b.revision <= revision
  }

  ghost predicate NoScratch(branches: Branches) {
    forall b :: b in branches ==> !b.ReplayRef?
  }

  ghost predicate CheckpointCurrent(commits: seq<Content>, log: seq<Row>, cp: Checkpoint) {
    cp.commit < |commits| && cp.prefixLength <= |log| && commits[cp.commit].log == log[..cp.prefixLength]
  }

  ghost predicate CheckpointsCurrent(commits: seq<Content>, log: seq<Row>, checkpoints: seq<Checkpoint>) {
    forall i :: 0 <= i < |checkpoints| ==> CheckpointCurrent(commits, log, checkpoints[i])
  }

  ghost predicate Longest(checkpoints: seq<Checkpoint>, cp: Checkpoint) {
    forall other :: other in checkpoints ==> other.prefixLength <= cp.prefixLength
  }

  ghost predicate DistinctBranches(checkpoints: seq<Checkpoint>) {
    forall i, j :: 0 <= i < j < |checkpoints| ==> checkpoints[i].branch != checkpoints[j].branch
  }

  /** The retention rule: max(2, retain) checkpoints stay, or all when there are no more; the longest
      ones stay, with genesis in the place of one of them. */
  ghost predicate Retains(all: seq<Checkpoint>, keep: seq<Checkpoint>, retain: nat) {
    RetainsNewest(all, keep) && RetainsCount(all, keep, retain)
  }

  ghost predicate RetainsNewest(all: seq<Checkpoint>, keep: seq<Checkpoint>) {
    && (forall cp :: cp in keep ==> cp in all)
    && (HasGenesis(all) ==> HasGenesis(keep))
    && (forall kept, dropped :: kept in keep && dropped in all && dropped !in keep && kept.prefixLength > 0
          ==> dropped.prefixLength <= kept.prefixLength)
    && (all != [] ==> exists cp :: cp in keep && Longest(all, cp))
  }

  ghost predicate RetainsCount(all: seq<Checkpoint>, keep: seq<Checkpoint>, retain: nat) {
    && |keep| <= (if retain < 2 then 2 else retain)
    && (DistinctBranches(all) && HasGenesis(all) ==>
          |keep| == if |all| <= 2 then |all| else if retain < 2 then 2 else if |all| <= retain then |all| else retain)
  }

  method SelectRetained(checkpoints: seq<Checkpoint>, retain: nat) returns (keep: seq<Checkpoint>)
    requires retain >= 1
    requires forall cp :: cp in checkpoints ==> cp.branch.CheckpointRef? && cp.branch.prefixLength == cp.prefixLength
    ensures Retains(checkpoints, keep, retain)
  {
    hide RetainsNewest, RetainsCount;
    var sorted := Sort(checkpoints, OldestFirst);
    SortSorts(checkpoints, OldestFirst);
    var hasGenesis := |sorted| > 0 && sorted[0].prefixLength == 0;
    var wanted := if retain - (if hasGenesis then 1 else 0) > 1 then retain - (if hasGenesis then 1 else 0) else 1;
    var start := if |sorted| > wanted then |sorted| - wanted else 0;
    keep := sorted[start..];
    var missing := hasGenesis && !(exists i :: 0 <= i < |keep| && keep[i].branch == sorted[0].branch);
    if missing { keep := [sorted[0]] + keep; }
    forall cp: Checkpoint ensures cp in sorted <==> cp in checkpoints { SameElements(sorted, checkpoints, cp); }
    KeepRetains(checkpoints, sorted, start, missing, retain);
    RetainedCount(checkpoints, sorted, start, missing, retain);
  }

  /** The newest from `start` on, with the oldest in front when it is missing. */
  function FromStart(sorted: seq<Checkpoint>, start: nat, missing: bool): seq<Checkpoint>
    requires start <= |sorted| && (missing ==> sorted != [])
  {
    if missing then [sorted[0]] + sorted[start..] else sorted[start..]
  }

  lemma KeepRetains(checkpoints: seq<Checkpoint>, sorted: seq<Checkpoint>, start: nat, missing: bool, retain: nat)
    requires retain >= 1 && Sorted(sorted, OldestFirst) && forall cp :: cp in sorted <==> cp in checkpoints
    requires start <= |sorted| && (sorted != [] ==> start < |sorted|)
    requires missing ==> sorted != [] && sorted[0].prefixLength == 0
    requires sorted != [] && sorted[0].prefixLength == 0 && !missing ==>
               exists i :: start <= i < |sorted| && sorted[i].branch == sorted[0].branch
    requires forall cp :: cp in checkpoints ==> cp.branch.CheckpointRef? && cp.branch.prefixLength == cp.prefixLength
    ensures RetainsNewest(checkpoints, FromStart(sorted, start, missing))
  {
    var keep := FromStart(sorted, start, missing);
    assert forall i :: start <= i < |sorted| ==> sorted[i] in sorted[start..];
    forall cp | cp in keep ensures cp in checkpoints { assert cp in sorted; }
    if checkpoints != [] {
      assert checkpoints[0] in sorted;
      LastIsLongest(checkpoints, sorted);
      assert sorted[|sorted| - 1] in keep;
    }
    forall kept, dropped | kept in keep && dropped in checkpoints && dropped !in keep && kept.prefixLength > 0
      ensures dropped.prefixLength <= kept.prefixLength
    {
      DroppedIsShorter(sorted, start, kept, dropped);
    }
    assert HasGenesis(checkpoints) ==> HasGenesis(keep) by { GenesisStays(checkpoints, sorted, start, missing); }
  }

  lemma DroppedIsShorter(sorted: seq<Checkpoint>, start: nat, kept: Checkpoint, dropped: Checkpoint)
    requires Sorted(sorted, OldestFirst) && start <= |sorted| && kept in sorted[start..]
    requires dropped in sorted && dropped !in sorted[start..]
    ensures dropped.prefixLength <= kept.prefixLength
  {
    var i :| start <= i < |sorted| && sorted[i] == kept;
    var j :| 0 <= j < |sorted| && sorted[j] == dropped;
    if j >= start { assert sorted[start..][j - start] == dropped; }
    assert OldestFirst(sorted[j], sorted[i]);
  }

  lemma GenesisStays(checkpoints: seq<Checkpoint>, sorted: seq<Checkpoint>, start: nat, missing: bool)
    requires Sorted(sorted, OldestFirst) && forall cp :: cp in sorted <==> cp in checkpoints
    requires start <= |sorted| && (missing ==> sorted != [] && sorted[0].prefixLength == 0)
    requires sorted != [] && sorted[0].prefixLength == 0 && !missing ==>
               exists i :: start <= i < |sorted| && sorted[i].branch == sorted[0].branch
    requires forall cp :: cp in checkpoints ==> cp.branch.CheckpointRef? && cp.branch.prefixLength == cp.prefixLength
    ensures HasGenesis(checkpoints) ==> HasGenesis(FromStart(sorted, start, missing))
  {
    var keep := FromStart(sorted, start, missing);
    assert forall i :: start <= i < |sorted| ==> sorted[i] in sorted[start..];
    if HasGenesis(checkpoints) {
      var cp :| cp in checkpoints && cp.prefixLength == 0;
      var j :| 0 <= j < |sorted| && sorted[j] == cp;
      if j > 0 { assert OldestFirst(sorted[0], sorted[j]); }
      if !missing {
        var i :| start <= i < |sorted| && sorted[i].branch == sorted[0].branch;
        assert sorted[i] in keep && sorted[0] in sorted && sorted[i] in sorted;
      }
    }
  }

  lemma RetainedCount(checkpoints: seq<Checkpoint>, sorted: seq<Checkpoint>, start: nat, missing: bool, retain: nat)
    requires retain >= 1 && multiset(sorted) == multiset(checkpoints) && |sorted| == |checkpoints|
    requires Sorted(sorted, OldestFirst)
    requires var hasGenesis := |sorted| > 0 && sorted[0].prefixLength == 0;
             var fewer := retain - if hasGenesis then 1 else 0;
             var wanted := if fewer > 1 then fewer else 1;
             && start == (if |sorted| > wanted then |sorted| - wanted else 0)
             && (missing <==> hasGenesis && !(exists i ::
                   0 <= i < |sorted[start..]| && sorted[start..][i].branch == sorted[0].branch))
    ensures RetainsCount(checkpoints, FromStart(sorted, start, missing), retain)
  {
    if DistinctBranches(checkpoints) && HasGenesis(checkpoints) {
      DistinctSorted(checkpoints, sorted);
      var cp :| cp in checkpoints && cp.prefixLength == 0;
      SameElements(sorted, checkpoints, cp);
      var j :| 0 <= j < |sorted| && sorted[j] == cp;
      if j > 0 { assert OldestFirst(sorted[0], sorted[j]); }
      assert start == 0 ==> sorted[start..][0] == sorted[0];
    }
  }

  lemma LastIsLongest(checkpoints: seq<Checkpoint>, sorted: seq<Checkpoint>)
    requires sorted != [] && Sorted(sorted, OldestFirst) && forall cp :: cp in sorted <==> cp in checkpoints
    ensures Longest(checkpoints, sorted[|sorted| - 1])
  {
    forall other | other in checkpoints ensures other.prefixLength <= sorted[|sorted| - 1].prefixLength {
      assert other in sorted;
      var i :| 0 <= i < |sorted| && sorted[i] == other;
      if i < |sorted| - 1 { assert OldestFirst(sorted[i], sorted[|sorted| - 1]); }
    }
  }

  lemma DistinctSorted(checkpoints: seq<Checkpoint>, sorted: seq<Checkpoint>)
    requires DistinctBranches(checkpoints) && multiset(sorted) == multiset(checkpoints) && |sorted| == |checkpoints|
    ensures DistinctBranches(sorted)
  {
    forall i, j | 0 <= i < j < |sorted| ensures sorted[i].branch != sorted[j].branch {
      if sorted[i].branch == sorted[j].branch {
        SameElements(sorted, checkpoints, sorted[i]);
        SameElements(sorted, checkpoints, sorted[j]);
        assert sorted[i] in sorted && sorted[j] in sorted;
        var k :| 0 <= k < |checkpoints| && checkpoints[k] == sorted[i];
        var l :| 0 <= l < |checkpoints| && checkpoints[l] == sorted[j];
        assert k == l;
        TwiceIn(sorted, i, j);
        OnceIn(checkpoints, k);
      }
    }
  }

  lemma TwiceIn(s: seq<Checkpoint>, i: nat, j: nat)
    requires i < j < |s| && s[i] == s[j]
    ensures multiset(s)[s[i]] >= 2
  {
    assert s == s[..i] + [s[i]] + s[i + 1..j] + [s[j]] + s[j + 1..];
  }

  lemma OnceIn(s: seq<Checkpoint>, k: nat)
    requires k < |s| && DistinctBranches(s)
    ensures multiset(s)[s[k]] == 1
  {
    assert s == s[..k] + [s[k]] + s[k + 1..];
    assert forall i :: 0 <= i < |s[..k]| ==> s[..k][i] == s[i];
    var rest := s[k + 1..];
    assert forall i :: 0 <= i < |rest| ==> rest[i] == s[i + k + 1];
    assert s[k] !in s[..k] && s[k] !in rest;
  }

  /** The checkpoints a publication leaves when nothing interrupts it: those at or below the first
      change, a new one of the whole order when one is due, cut down by the retention rule. */
  ghost predicate CheckpointsAfter(before: seq<Checkpoint>, length: nat, difference: nat, n: nat, every: nat,
      retain: nat, commit: nat, after: seq<Checkpoint>)
  {
    exists taken: Option<Checkpoint> ::
      && (taken.Some? <==> Due(KeepBelow(before, difference == length, difference), n, every))
      && (taken.Some? ==> taken.value.prefixLength == n && taken.value.commit == commit)
      && Retains(WithTaken(KeepBelow(before, difference == length, difference), taken), after, retain)
  }

  function WithTaken(retained: seq<Checkpoint>, taken: Option<Checkpoint>): seq<Checkpoint> {
    if taken.None? then retained else retained + [taken.value]
  }

  lemma AfterAreKnown(before: seq<Checkpoint>, length: nat, difference: nat, n: nat, every: nat, retain: nat,
      commit: nat, after: seq<Checkpoint>)
    requires CheckpointsAfter(before, length, difference, n, every, retain, commit, after)
    ensures forall cp :: cp in after ==>
              (cp.commit == commit && cp.prefixLength == n) ||
              (cp in before && (difference == length || cp.prefixLength <= difference))
  {
  }

  /** The checkpoint that is due is there, unless a longer one that no longer fits takes its place. */
  lemma DueIsTaken(before: seq<Checkpoint>, length: nat, difference: nat, n: nat, every: nat, retain: nat, commit: nat,
      after: seq<Checkpoint>)
    requires CheckpointsAfter(before, length, difference, n, every, retain, commit, after)
    requires Due(KeepBelow(before, difference == length, difference), n, every)
    requires forall cp :: cp in before && (difference == length || cp.prefixLength <= difference) ==>
               cp.prefixLength < n
    ensures exists cp :: cp in after && cp.prefixLength == n && cp.commit == commit
  {
    hide Due;
    var retained := KeepBelow(before, difference == length, difference);
    var taken: Option<Checkpoint> :|
      && (taken.Some? <==> Due(retained, n, every))
      && (taken.Some? ==> taken.value.prefixLength == n && taken.value.commit == commit)
      && Retains(WithTaken(retained, taken), after, retain);
    assert taken.value in WithTaken(retained, taken);
    var cp :| cp in after && Longest(WithTaken(retained, taken), cp);
    assert taken.value.prefixLength <= cp.prefixLength;
  }

  /** After an undisturbed publication a kept checkpoint lies less than an interval behind the end. */
  lemma NeverFarBehind(before: seq<Checkpoint>, length: nat, difference: nat, n: nat, every: nat, retain: nat,
      commit: nat, after: seq<Checkpoint>)
    requires CheckpointsAfter(before, length, difference, n, every, retain, commit, after)
    requires every >= 1 && HasGenesis(before)
    ensures exists cp :: cp in after && n < cp.prefixLength + every
  {
    hide RetainsCount;
    var retained := KeepBelow(before, difference == length, difference);
    var taken: Option<Checkpoint> :|
      && (taken.Some? <==> Due(retained, n, every))
      && (taken.Some? ==> taken.value.prefixLength == n && taken.value.commit == commit)
      && Retains(WithTaken(retained, taken), after, retain);
    var genesis :| genesis in before && genesis.prefixLength == 0;
    var near := if taken.Some? then taken.value else if n < every then genesis
                else var cp :| cp in retained && n - cp.prefixLength < every; cp;
    assert near in WithTaken(retained, taken);
    var longest :| longest in after && Longest(WithTaken(retained, taken), longest);
    assert near.prefixLength <= longest.prefixLength;
  }

  /** Where the replay started: at the end for an append, else at the longest remembered checkpoint
      not beyond the first change. */
  ghost predicate StartedAt(event: Event, checkpoints: seq<Checkpoint>, length: nat) {
    var d := event.earliestChangedOrderIndex;
    if d == length then event.replayFromIndex == length
    else
      && (exists cp :: cp in checkpoints && cp.prefixLength == event.replayFromIndex)
      && event.replayFromIndex <= d
      && forall cp :: cp in checkpoints && cp.prefixLength <= d ==> cp.prefixLength <= event.replayFromIndex
  }

  class DeterministicMaterializer {
    const e: Engine
    const checkpointEvery: nat
    const retainCheckpoints: nat
    // The repository, as the writing connection sees it.
    var branches: Branches
    var commits: seq<Content>
    var active: Branch
    var working: Content
    // The reading connection, pinned to one commit, and the published revision in memory.
    var reader: nat
    var published: PublishedRef
    var checkpoints: seq<Checkpoint>
    var order: seq<Bytes>
    var log: seq<Row>
    var checkpointError: bool

    /** What is in memory describes one genuine commit, and every remembered checkpoint either
        is a prefix of the current order or can never be one again. */
    ghost predicate MemoryOk()
      reads this
    {
      && reader == published.commit < |commits|
      && log == commits[published.commit].log
      && order == LogIds(log)
      && published.prefixLength == |order|
      && CheckpointsOk(e, commits, order, checkpoints)
      && HasGenesis(checkpoints)
    }

    ghost predicate Valid()
      reads this
    {
      && EncodingInjective(e)
      && checkpointEvery >= 1 && retainCheckpoints >= 1
      && RepositoryOk(e, branches, commits)
      && MemoryOk()
      && HeadAgrees(branches, published, |order|)
    }

    /** What readers of this process see. */
    function Visible(): Content
      requires reader < |commits|
      reads this
    {
      commits[reader]
    }

    /** No earlier call was interrupted: the head is what memory says, no ref is from a later
        revision, and every remembered checkpoint is the state of a prefix of the order. */
    ghost predicate Clean()
      requires Valid()
      reads this
    {
      && HeadMarker(branches).revision == published.revision
      && NoLaterRefs(branches, published.revision) && NoScratch(branches)
      && CheckpointsCurrent(commits, log, checkpoints)
    }

    constructor (e: Engine, checkpointEvery: nat, retainCheckpoints: nat, disk: Disk,
                 published: PublishedRef, checkpoints: seq<Checkpoint>)
      requires Head in disk.branches && published.commit < |disk.commits|
      ensures this.e == e && this.checkpointEvery == checkpointEvery && this.retainCheckpoints == retainCheckpoints
      ensures branches == disk.branches && commits == disk.commits
      ensures reader == published.commit && this.published == published && this.checkpoints == checkpoints
      ensures log == disk.commits[published.commit].log && order == LogIds(log)
    {
      this.e, this.checkpointEvery, this.retainCheckpoints := e, checkpointEvery, retainCheckpoints;
      branches, commits, active := disk.branches, disk.commits, Head;
      working, reader := disk.commits[published.commit], published.commit;
      this.published, this.checkpoints := published, checkpoints;
      log := disk.commits[published.commit].log;
      order := LogIds(disk.commits[published.commit].log);
      checkpointError := false;
    }

    method DeleteBranches(doomed: set<Branch>, budget: Option<nat>) returns (done: bool, rest: Option<nat>)
      modifies this`branches
      ensures RemovedOnly(old(branches), branches, iset b | b in doomed)
      ensures done ==> forall b :: b in branches ==> b !in doomed
      ensures budget.None? ==> done && rest.None?
    {
      var left := doomed;
      rest := budget;
      while left != {}
        invariant left <= doomed
        invariant RemovedOnly(old(branches), branches, iset b | b in doomed)
        invariant forall b :: b in branches && b in doomed ==> b in left
        invariant budget.None? ==> rest.None?
      {
        var b :| b in left;
        if b in branches {
          if rest.Some? {
            if rest.value == 0 { return false, rest; }
            rest := Some(rest.value - 1);
          }
          branches := branches - {b};
        }
        left := left - {b};
      }
      done := true;
    }

    /** One transaction inside its savepoint: a rejection undoes every application change and
        still records its row. */
    method ApplyTransaction(tx: Transaction, orderIndex: nat) returns (applied: bool)
      requires orderIndex == |working.log|
      modifies this`working
      ensures applied <==> Apply(e, old(working), tx).Some?
      ensures applied ==> Apply(e, old(working), tx) == Some(working)
      ensures !applied ==> working == old(working)
    {
      var savepoint := working;
      match Execute(e, working.app, tx.core)
      case Completed(app, envelope) =>
        working := working.(app := app);
        working := working.(log := working.log + [RowFor(e, tx, orderIndex, Accepted(envelope))]);
        return true;
      case Refused(rejection) =>
        working := savepoint;
        if rejection.code !in e.errorCodes { return false; }
        var outcome := if rejection.phase == PreconditionPhase
                       then RejectedPrecondition(rejection) else RejectedExecution(rejection);
        working := working.(log := working.log + [RowFor(e, tx, orderIndex, outcome)]);
        return true;
    }

    /** Applies the transactions from `replayFrom` on to a working set that holds the fold of
        the ones before. */
    method ReplayLoop(txs: seq<Transaction>, replayFrom: nat, plan: Plan) returns (r: Replayed)
      requires replayFrom <= |txs|
      requires Fold(e, txs[..replayFrom]) == Some(working)
      modifies this`working
      ensures r.Complete? ==> Fold(e, txs) == Some(working)
      ensures Fold(e, txs).Some? && plan.fault == NoFault ==> r.Complete?
      ensures r.Interrupted? ==> plan.fault != NoFault
    {
      for index := replayFrom to |txs|
        invariant Fold(e, txs[..index]) == Some(working)
      {
        FoldRecords(e, txs[..index]);
        if |working.log| != index { return Broken("MATERIALIZER_REPLAY_LOG_DRIFT"); }
        if plan.fault == DuringReplay(index) {
          return if plan.kill then Interrupted else Broken("SQL_OPERATIONAL_ERROR");
        }
        FoldOneMore(e, txs, index);
        var applied := ApplyTransaction(txs[index], index);
        if !applied { return Broken("MATERIALIZER_UNREGISTERED_REJECTION_CODE"); }
      }
      assert txs[..|txs|] == txs;
      return Complete;
    }

    /** Checks the checked-out base against the order, replays the rest and checks the result. */
    method ReplaySuffix(txs: seq<Transaction>, replayFrom: nat, plan: Plan) returns (r: Replayed)
      requires EncodingInjective(e) && ValidSet(e, txs) && replayFrom <= |txs|
      requires Genuine(e, working)
      modifies this`working
      ensures r.Complete? ==> Fold(e, txs) == Some(working)
      ensures Records(e, old(working).log, txs[..replayFrom]) && Fold(e, txs).Some? && plan.fault == NoFault
              ==> r.Complete?
      ensures r.Complete? ==> Records(e, old(working).log, txs[..replayFrom])
      ensures r.Interrupted? ==> plan.fault != NoFault
    {
      hide EncodingInjective, ValidSet, Genuine, Fold, Records;
      GenuineOrderDistinct(e, working);
      if working.manifest != e.manifest { return Broken("DATABASE_MANIFEST_MISMATCH"); }
      var sound := VerifyLogIntegrity(e, working.log);
      if !sound { return Broken("MATERIALIZER_UNREGISTERED_REJECTION_CODE"); }
      var mismatch := VerifyReplayBase(e, working.log, txs, replayFrom);
      if mismatch.Some? { return Broken(mismatch.value); }
      AnyVerifiedBaseGivesTheFold(e, working, txs, replayFrom);
      r := ReplayLoop(txs, replayFrom, plan);
      if !r.Complete? { return; }
      FoldRecords(e, txs);
      sound := VerifyLogIntegrity(e, working.log);
      if !sound { return Broken("MATERIALIZER_UNREGISTERED_REJECTION_CODE"); }
      mismatch := VerifyDesiredLog(e, working.log, txs);
      if mismatch.Some? { return Broken(CodeOf(mismatch)); }
      if working.manifest != e.manifest { return Broken("DATABASE_MANIFEST_MISMATCH"); }
    }

    /** Replays the order from a base commit on a scratch branch and commits the candidate. */
    method BuildCandidate(txs: seq<Transaction>, base: nat, replayFrom: nat, scratch: Branch, plan: Plan)
      returns (r: Built)
      requires EncodingInjective(e) && RepositoryOk(e, branches, commits) && ValidSet(e, txs)
      requires base < |commits| && replayFrom <= |txs|
      requires scratch.ReplayRef? && scratch !in branches
      modifies this`branches, this`commits, this`active, this`working
      ensures RepositoryOk(e, branches, commits)
      ensures branches - {scratch} == old(branches)
      ensures r.Candidate? ==> r.commit == |old(commits)| < |commits| && commits == old(commits) + [commits[r.commit]]
                               && Fold(e, txs) == Some(commits[r.commit])
      ensures r.Candidate? ==> Records(e, old(commits)[base].log, txs[..replayFrom])
      ensures !r.Candidate? ==> commits == old(commits)
      ensures Records(e, old(commits)[base].log, txs[..replayFrom]) && Fold(e, txs).Some? && plan.fault == NoFault
              ==> r.Candidate?
      ensures r.BuildKilled? ==> plan.fault != NoFault
    {
      hide EncodingInjective, ValidSet, Fold, Records, Genuine, RepositoryOk;
      AddingBranchKeeps(e, branches, commits, scratch, base);
      CommitIsGenuine(e, branches, commits, base);
      branches := branches[scratch := base];
      active, working := scratch, commits[base];
      var replayed := ReplaySuffix(txs, replayFrom, plan);
      if replayed.Interrupted? { return BuildKilled; }
      if replayed.Broken? { return BuildFailed(replayed.code); }
      FoldIsGenuine(e, txs, working);
      AddingCommitKeeps(e, branches, commits, working);
      commits := commits + [working];
      AddingBranchKeeps(e, branches, commits, scratch, |commits| - 1);
      branches := branches[scratch := |commits| - 1];
      return Candidate(|commits| - 1);
    }

    /** The checkpoint ref, when one is due, and the revision marker of a candidate commit. */
    method CreateRefs(txs: seq<Transaction>, commit: nat, retained: seq<Checkpoint>)
      returns (error: Option<string>, created: set<Branch>, marker: Branch, newCheckpoint: Option<Checkpoint>)
      requires Valid() && commit < |commits| && Fold(e, txs) == Some(commits[commit]) && |txs| > |order|
      requires forall b :: b in branches && b.RevisionRef? ==> branches[b] != commit
      modifies this`branches
      ensures Valid() && HeadMarker(branches) == old(HeadMarker(branches))
      ensures created !! old(branches).Keys && branches - created == old(branches)
      ensures forall b :: b in created ==> (b.CheckpointRef? || b.RevisionRef?) && b.revision == published.revision + 1
      ensures error.None? ==> marker == RevisionRef(published.revision + 1, |txs|, e.orderDigest(Ids(txs)))
                              && marker in branches && branches[marker] == commit
      ensures newCheckpoint.Some? ==> newCheckpoint.value.commit == commit && newCheckpoint.value.prefixLength == |txs|
                                      && CheckpointOk(e, commits, Ids(txs), newCheckpoint.value)
      ensures error.None? ==> (newCheckpoint.Some? <==> Due(retained, |txs|, checkpointEvery))
      ensures error.None? <==>
                RefsFree(e, old(branches), published.revision + 1, txs, Due(retained, |txs|, checkpointEvery))
    {
      hide Fold, EncodingInjective, HeadAgrees, CheckpointsOk, RefsResolve, CommitsGenuine, MarkersUnique, HeadMarked,
        GenesisAlone;
      FoldRecords(e, txs);
      assert LogIds(commits[commit].log) == Ids(txs);
      var next, digest := published.revision + 1, e.orderDigest(Ids(txs));
      created, newCheckpoint, marker := {}, None, RevisionRef(next, |txs|, digest);
      var due := ShouldCheckpoint(retained, |txs|, checkpointEvery);
      if due {
        var ref := CheckpointRef(|txs|, next, digest);
        if ref in branches { return Some("BRANCH_EXISTS"), created, marker, newCheckpoint; }
        AddRef(ref, commit);
        created, newCheckpoint := {ref}, Some(Checkpoint(|txs|, ref, commit, next));
      }
      if marker in branches { return Some("BRANCH_EXISTS"), created, marker, newCheckpoint; }
      AddRef(marker, commit);
      created := created + {marker};
      error := None;
    }

    method AddRef(ref: Branch, commit: nat)
      requires Valid() && commit < |commits| && Describes(e, ref, commits[commit])
      requires ref.CheckpointRef? || ref.RevisionRef?
      requires ref !in branches && ref.revision == published.revision + 1 && ref.prefixLength > |order|
      requires ref.RevisionRef? ==> forall b :: b in branches && b.RevisionRef? ==> branches[b] != commit
      modifies this`branches
      ensures Valid() && branches == old(branches)[ref := commit]
      ensures HeadMarker(branches) == old(HeadMarker(branches))
    {
      AddingBranchKeeps(e, branches, commits, ref, commit);
      AddedRefAgrees(e, branches, commits, published, |order|, ref, commit);
      branches := branches[ref := commit];
    }

    /** The one step that publishes: the head moves to the candidate commit. */
    method MoveHead(marker: Branch)
      requires Valid() && marker in branches && marker.RevisionRef? && marker.revision == published.revision + 1
      modifies this`branches
      ensures Valid() && branches == old(branches)[Head := old(branches)[marker]]
      ensures HeadMarker(branches) == marker
    {
      MovingHeadKeeps(e, branches, commits, marker);
      branches := branches[Head := branches[marker]];
      assert IsMarkerOfHead(branches, marker);
      MarkerIs(branches, marker);
    }

    method SwapReader(txs: seq<Transaction>, difference: nat)
      requires Valid() && ValidSet(e, txs) && Fold(e, txs) == Some(commits[branches[Head]])
      requires Subsequence(order, Ids(txs)) && FirstDifference(order, Ids(txs), difference)
      requires HeadMarker(branches).revision == published.revision + 1
      modifies this`reader, this`published, this`log, this`order
      ensures Valid() && reader == branches[Head] && order == Ids(txs)
      ensures published.revision == old(published.revision) + 1 && published.branch == HeadMarker(branches)
    {
      hide Fold, EncodingInjective, ValidSet;
      FoldRecords(e, txs);
      CommitIsGenuine(e, branches, commits, published.commit);
      GenuineOrderDistinct(e, commits[published.commit]);
      CommitIsGenuine(e, branches, commits, branches[Head]);
      GenuineOrderDistinct(e, commits[branches[Head]]);
      assert LogIds(commits[branches[Head]].log) == Ids(txs);
      CheckpointsAfterPublication(e, commits, order, Ids(txs), difference, checkpoints);
      var commit := branches[Head];
      ghost var marker := HeadMarker(branches);
      var name := RevisionRef(published.revision + 1, |txs|, e.orderDigest(Ids(txs)));
      assert name == marker;
      reader, published := commit, PublishedRef(published.revision + 1, |txs|, name, commit, e.orderDigest(Ids(txs)));
      log, order := commits[commit].log, Ids(txs);
    }

    /** Keeps the newest checkpoints and genesis, and deletes the refs of the others. The
        remembered list changes only when every deletion succeeded. */
    method PruneCheckpoints(retained: seq<Checkpoint>, budget: Option<nat>) returns (done: bool, rest: Option<nat>)
      requires Valid() && CheckpointsOk(e, commits, order, retained) && HasGenesis(retained)
      modifies this`branches, this`checkpoints
      ensures Valid() && SameHead(old(branches), branches)
      ensures forall b :: b in branches ==> b in old(branches) && branches[b] == old(branches)[b]
      ensures budget.None? ==> done && rest.None?
      ensures done ==> Retains(retained, checkpoints, retainCheckpoints)
    {
      hide EncodingInjective, HeadAgrees, RefsResolve, CommitsGenuine, MarkersUnique, HeadMarked, GenesisAlone,
        CheckpointsOk,
        CheckpointOk;
      RefsAreCheckpoints(e, commits, order, retained);
      var keep := SelectRetained(retained, retainCheckpoints);
      SomeCheckpointsOk(e, commits, order, retained, keep);
      RefsAreCheckpoints(e, commits, order, keep);
      var kept := set cp | cp in keep :: cp.branch;
      assert GenesisRef(e) in kept;
      var doomed := set cp | cp in retained && cp.branch !in kept :: cp.branch;
      done, rest := RemoveRefs(doomed, budget);
      if done { checkpoints := keep; }
    }

    /** Prunes checkpoints and removes scratch and superseded revision branches; may stop early. */
    method CleanUp(retained: seq<Checkpoint>, budget: Option<nat>) returns (done: bool)
      requires Valid() && published.branch == HeadMarker(branches)
      requires CheckpointsOk(e, commits, order, retained) && HasGenesis(retained)
      modifies this`branches, this`checkpoints, this`active
      ensures Valid() && published.branch == HeadMarker(branches) && branches[Head] == old(branches[Head])
      ensures forall b :: b in branches ==> b in old(branches) && branches[b] == old(branches)[b]
      ensures budget.None? ==> done
      ensures done ==> Retains(retained, checkpoints, retainCheckpoints)
      ensures done ==> NoScratch(branches)
    {
      hide EncodingInjective, HeadAgrees, RefsResolve, CommitsGenuine, MarkersUnique, HeadMarked, GenesisAlone,
        CheckpointsOk;
      active := Head;
      var rest;
      done, rest := PruneCheckpoints(retained, budget);
      if !done { return; }
      var orphans := set b | b in branches && b != active && b != Head && b != published.branch
                             && (b.ReplayRef? || b.RevisionRef?);
      done, rest := RemoveRefs(orphans, rest);
    }

    method RemoveRefs(doomed: set<Branch>, budget: Option<nat>) returns (done: bool, rest: Option<nat>)
      requires Valid() && Head !in doomed && GenesisRef(e) !in doomed && HeadMarker(branches) !in doomed
      modifies this`branches
      ensures Valid() && HeadMarker(branches) == old(HeadMarker(branches)) && branches[Head] == old(branches[Head])
      ensures RemovedOnly(old(branches), branches, iset b | b in doomed)
      ensures done ==> forall b :: b in branches ==> b !in doomed
      ensures budget.None? ==> done && rest.None?
    {
      ghost var before := branches;
      ghost var gone := iset b | b in doomed;
      done, rest := DeleteBranches(doomed, budget);
      forall b | b in gone ensures Removable(e, before, b) {
        if IsMarkerOfHead(before, b) { MarkerIs(before, b); }
      }
      RemovingKeeps(e, before, branches, commits, gone);
      RemovedRefsAgree(e, before, branches, commits, gone, published, |order|);
    }

    /** After the head moved: swap the reader, prune, and report the change. */
    method FinishPublication(txs: seq<Transaction>, difference: nat, replayFrom: nat, retained: seq<Checkpoint>,
                             newCheckpoint: Option<Checkpoint>, plan: Plan) returns (r: Attempt)
      requires Valid() && ValidSet(e, txs) && replayFrom <= |txs|
      requires Subsequence(order, Ids(txs)) && FirstDifference(order, Ids(txs), difference)
      requires HeadHolds(e, branches, commits, txs, published.revision + 1)
      requires forall cp :: cp in checkpoints && cp.prefixLength == 0 ==> cp in retained
      requires forall cp :: cp in retained ==> cp in checkpoints
      requires newCheckpoint.Some? ==> CheckpointOk(e, commits, Ids(txs), newCheckpoint.value)
      modifies this
      ensures Valid() && commits == old(commits)
      ensures HeadHolds(e, branches, commits, txs, old(published.revision) + 1)
      ensures forall b :: b in branches ==> b in old(branches)
      ensures branches[Head] == old(branches[Head])
      ensures published.revision == old(published.revision) + 1 && reader == branches[Head] && order == Ids(txs)
      ensures r.Done? || (r.Failed? && r.moved) || r.Died?
      ensures plan.fault == NoFault && !plan.kill ==> r.Done?
      ensures r.Done? ==> EventFits(r.event, old(published.revision), old(log), log, difference, replayFrom)
      ensures plan.fault == NoFault && plan.deletions.None? ==>
                r.Done? && NoScratch(branches)
                && Retains(WithTaken(retained, newCheckpoint), checkpoints, retainCheckpoints)
    {
      hide Fold, EncodingInjective, ValidSet, HeadAgrees, RefsResolve, CommitsGenuine, MarkersUnique, HeadMarked,
        GenesisAlone, CheckpointsOk, CheckpointOk, Subsequence, FirstDifference, ChangeFits, Distinct, RemovedOnly;
      var previousRevision, previousLog := published.revision, log;
      CommitIsGenuine(e, branches, commits, published.commit);
      GenuineOrderDistinct(e, commits[published.commit]);
      SwapReader(txs, difference);
      if plan.fault == AtPoint(AfterReaderSwap) {
        return if plan.kill then Died else Failed("PUBLICATION_FAULT", {}, true);
      }
      RetainedStayOk(e, commits, order, checkpoints, retained, newCheckpoint);
      var done := CleanUp(WithTaken(retained, newCheckpoint), plan.deletions);
      checkpointError := !done;
      if !done && plan.kill { return Died; }
      CommitIsGenuine(e, branches, commits, published.commit);
      GenuineOrderDistinct(e, commits[published.commit]);
      var changes := CalculateOutcomeChanges(previousLog, log);
      return Done(Event(published.revision, previousRevision, |txs|, replayFrom, |txs| - replayFrom,
          difference, changes));
    }

    /** Refs, head move, reader swap and cleanup for a candidate commit, with the four
        interruption points after its commit. */
    method PublishCandidate(txs: seq<Transaction>, difference: nat, replayFrom: nat, commit: nat, plan: Plan)
      returns (r: Attempt)
      requires Valid() && ValidSet(e, txs) && replayFrom <= |txs|
      requires Subsequence(order, Ids(txs)) && FirstDifference(order, Ids(txs), difference)
      requires commit < |commits| && Fold(e, txs) == Some(commits[commit])
      requires forall b :: b in branches && b.RevisionRef? ==> branches[b] != commit
      modifies this
      ensures Valid() && commits == old(commits)
      ensures r.Done? ==> HeadHolds(e, branches, commits, txs, published.revision) && reader == branches[Head]
      ensures r.Done? ==> order == Ids(txs) && published.revision == old(published.revision) + 1
      ensures r.Done? ==> EventFits(r.event, old(published.revision), old(log), log, difference, replayFrom)
      ensures r.Failed? && !r.moved ==> unchanged(`reader, `published, `checkpoints, `order, `log)
      ensures r.Failed? && !r.moved ==> r.created !! old(branches).Keys && branches - r.created == old(branches)
      ensures r.Failed? && r.moved ==> HeadHolds(e, branches, commits, txs, old(published.revision) + 1)
      ensures reader == old(reader)
              || (reader == branches[Head] && HeadHolds(e, branches, commits, txs, old(published.revision) + 1))
      ensures r.Died? ==> SameHead(old(branches), branches) ||
                          HeadHolds(e, branches, commits, txs, old(published.revision) + 1)
      ensures plan.fault == NoFault && !plan.kill ==>
                (r.Done? <==>
                  MayPublish(e, old(branches), old(published.revision), old(checkpoints), old(order), txs, difference,
                      checkpointEvery))
      ensures plan.fault == NoFault && plan.deletions.None? && old(NoLaterRefs(branches, published.revision)) ==>
                r.Done? && NoLaterRefs(branches, published.revision) && NoScratch(branches)
      ensures plan.fault == NoFault && plan.deletions.None? && r.Done? ==>
                CheckpointsAfter(old(checkpoints), |old(order)|, difference, |txs|, checkpointEvery,
                    retainCheckpoints, reader, checkpoints)
    {
      hide Fold, EncodingInjective, ValidSet, HeadAgrees, RefsResolve, CommitsGenuine, MarkersUnique, HeadMarked,
        GenesisAlone, CheckpointsOk, CheckpointOk;
      LaterOrderIsLonger(order, Ids(txs), difference);
      var retained := KeepBelow(checkpoints, difference == |order|, difference);
      var error, created, marker, newCheckpoint := CreateRefs(txs, commit, retained);
      if error.Some? { return Failed(CodeOf(error), created, false); }
      if plan.fault == AtPoint(AfterRevisionRefCreated) || plan.fault == AtPoint(BeforeHeadPublish) {
        return if plan.kill then Died else Failed("PUBLICATION_FAULT", created, false);
      }
      MoveHead(marker);
      if plan.fault == AtPoint(AfterHeadPublish) {
        return if plan.kill then Died else Failed("PUBLICATION_FAULT", created, true);
      }
      r := FinishPublication(txs, difference, replayFrom, retained, newCheckpoint, plan);
    }

    /** Where a replay of this order starts: the published commit for an append, else the newest
        remembered checkpoint at or below the first change. */
    method ReplayBase(difference: nat) returns (base: nat, replayFrom: nat)
      requires Valid() && difference <= |order|
      ensures base < |commits| && replayFrom <= difference
      ensures difference == |order| ==> base == published.commit && replayFrom == difference
      ensures difference < |order| ==>
                && AtOrBefore(checkpoints, difference).Some? && base == AtOrBefore(checkpoints, difference).value.commit
                && replayFrom == AtOrBefore(checkpoints, difference).value.prefixLength
      ensures Clean() ==> commits[base].log == log[..replayFrom]
      ensures difference < |order| ==>
                && (exists cp :: cp in checkpoints && cp.prefixLength == replayFrom)
                && forall cp :: cp in checkpoints && cp.prefixLength <= difference ==> cp.prefixLength <= replayFrom
    {
      if difference == |order| { return published.commit, |order|; }
      var selected := CheckpointAtOrBefore(checkpoints, difference);
      var i :| 0 <= i < |checkpoints| && checkpoints[i] == selected.value;
      assert CheckpointOk(e, commits, order, checkpoints[i]);
      return selected.value.commit, selected.value.prefixLength;
    }

    method TryMaterialize(txs: seq<Transaction>, difference: nat, plan: Plan) returns (r: Attempt)
      requires Valid() && ValidSet(e, txs) && IdentitiesKept(e, log, txs)
      requires Subsequence(order, Ids(txs)) && FirstDifference(order, Ids(txs), difference)
      requires ReplayRef(published.revision + 1, plan.nonce) !in branches
      modifies this
      ensures Valid() && Grown(e, old(commits), commits, txs)
      ensures r.Done? ==> HeadHolds(e, branches, commits, txs, published.revision) && reader == branches[Head]
      ensures r.Done? ==> order == Ids(txs) && published.revision == old(published.revision) + 1
      ensures r.Done? ==> StartedAt(r.event, old(checkpoints), |old(order)|)
      ensures plan.fault == NoFault && plan.deletions.None? && r.Done? ==>
                CheckpointsAfter(old(checkpoints), |old(order)|, difference, |txs|, checkpointEvery,
                    retainCheckpoints, reader, checkpoints)
      ensures r.Done? ==>
                EventFits(r.event, old(published.revision), old(log), log, difference, r.event.replayFromIndex)
      ensures r.Failed? && !r.moved ==> unchanged(`reader, `published, `checkpoints, `order, `log)
      ensures r.Failed? && !r.moved ==> r.created !! old(branches).Keys && branches - r.created == old(branches)
      ensures r.Failed? && r.moved ==> HeadHolds(e, branches, commits, txs, old(published.revision) + 1)
      ensures reader == old(reader)
              || (reader == branches[Head] && HeadHolds(e, branches, commits, txs, old(published.revision) + 1))
      ensures r.Died? ==> SameHead(old(branches), branches) ||
                          HeadHolds(e, branches, commits, txs, old(published.revision) + 1)
      ensures old(Clean()) && plan.fault == NoFault && plan.deletions.None? && Fold(e, txs).Some? ==> r.Done? && Clean()
      ensures old(Clean()) && plan.fault == NoFault && plan.deletions.None? && Fold(e, txs).None? ==>
                r.Failed? && !r.moved
      ensures plan.fault == NoFault && !plan.kill ==>
                (r.Done? <==>
                  BaseFits(e, old(commits), old(checkpoints), old(order), txs, difference) && Fold(e, txs).Some?
                              && MayPublish(e, old(branches), old(published.revision), old(checkpoints), old(order),
                                    txs, difference, checkpointEvery))
    {
      hide Fold, EncodingInjective, ValidSet, HeadAgrees, RefsResolve, CommitsGenuine, MarkersUnique, HeadMarked,
        GenesisAlone, CheckpointsOk, CheckpointOk, CheckpointsCurrent, CheckpointCurrent, Subsequence, Distinct,
        IdentitiesKept, Records, IsMarkerOfHead, MayPublish, CheckpointsAfter;
      var base, replayFrom := ReplayBase(difference);
      ghost var wasClean := Clean();
      if wasClean { BaseRecorded(e, log, txs, difference, replayFrom); }
      if difference == |order| {
        BaseRecorded(e, log, txs, difference, difference);
        assert log[..difference] == log;
      }
      ghost var before, beforeLog, beforeCheckpoints := commits, log, checkpoints;
      r := ReplayAndPublish(txs, difference, base, replayFrom, plan);
      if wasClean && r.Done? && plan.fault == NoFault && plan.deletions.None? {
        AfterAreKnown(beforeCheckpoints, |beforeLog|, difference, |txs|, checkpointEvery, retainCheckpoints, reader,
            checkpoints);
        StillCurrent(e, before, commits, beforeLog, txs, difference, beforeCheckpoints, checkpoints, branches, reader);
      }
    }

    method ReplayAndPublish(txs: seq<Transaction>, difference: nat, base: nat, replayFrom: nat, plan: Plan)
      returns (r: Attempt)
      requires Valid() && ValidSet(e, txs) && base < |commits| && replayFrom <= |txs|
      requires Subsequence(order, Ids(txs)) && FirstDifference(order, Ids(txs), difference)
      requires ReplayRef(published.revision + 1, plan.nonce) !in branches
      modifies this
      ensures Valid() && Grown(e, old(commits), commits, txs)
      ensures r.Done? ==> HeadHolds(e, branches, commits, txs, published.revision) && reader == branches[Head]
      ensures r.Done? ==> order == Ids(txs) && published.revision == old(published.revision) + 1
      ensures r.Done? ==> EventFits(r.event, old(published.revision), old(log), log, difference, replayFrom)
      ensures r.Failed? && !r.moved ==> unchanged(`reader, `published, `checkpoints, `order, `log)
      ensures r.Failed? && !r.moved ==> r.created !! old(branches).Keys && branches - r.created == old(branches)
      ensures r.Failed? && r.moved ==> HeadHolds(e, branches, commits, txs, old(published.revision) + 1)
      ensures reader == old(reader)
              || (reader == branches[Head] && HeadHolds(e, branches, commits, txs, old(published.revision) + 1))
      ensures r.Died? ==> SameHead(old(branches), branches) ||
                          HeadHolds(e, branches, commits, txs, old(published.revision) + 1)
      ensures plan.fault == NoFault && plan.deletions.None? && old(NoLaterRefs(branches, published.revision))
              && Records(e, old(commits)[base].log, txs[..replayFrom]) && Fold(e, txs).Some?
              ==> r.Done? && NoLaterRefs(branches, published.revision) && NoScratch(branches)
      ensures plan.fault == NoFault && plan.deletions.None? && old(NoLaterRefs(branches, published.revision))
              ==> (r.Done? && Fold(e, txs).Some?) || (r.Failed? && !r.moved)
      ensures plan.fault == NoFault && !plan.kill ==>
                (r.Done? <==> Records(e, old(commits)[base].log, txs[..replayFrom]) && Fold(e, txs).Some?
                              && MayPublish(e, old(branches), old(published.revision), old(checkpoints), old(order),
                                    txs, difference, checkpointEvery))
      ensures plan.fault == NoFault && plan.deletions.None? && r.Done? ==>
                CheckpointsAfter(old(checkpoints), |old(order)|, difference, |txs|, checkpointEvery,
                    retainCheckpoints, reader, checkpoints)
    {
      hide Fold, EncodingInjective, ValidSet, HeadAgrees, RefsResolve, CommitsGenuine, MarkersUnique, HeadMarked,
        GenesisAlone, CheckpointsOk, CheckpointOk, Subsequence, Distinct, FirstDifference, Records, IsMarkerOfHead,
        HeadHolds, EventFits;
      var scratch := ReplayRef(published.revision + 1, plan.nonce);
      var built := BuildWithin(txs, base, replayFrom, scratch, plan);
      if built.BuildKilled? { return Died; }
      if built.BuildFailed? { return Failed(built.code, {scratch}, false); }
      if plan.fault == AtPoint(AfterCandidateCommit) {
        return if plan.kill then Died else Failed("PUBLICATION_FAULT", {scratch}, false);
      }
      r := PublishCandidate(txs, difference, replayFrom, built.commit, plan);
      if r.Failed? && !r.moved { r := r.(created := r.created + {scratch}); }
    }

    method BuildWithin(txs: seq<Transaction>, base: nat, replayFrom: nat, scratch: Branch, plan: Plan)
      returns (r: Built)
      requires Valid() && ValidSet(e, txs)
      requires base < |commits| && replayFrom <= |txs|
      requires scratch.ReplayRef? && scratch !in branches
      modifies this`branches, this`commits, this`active, this`working
      ensures Valid() && SameHead(old(branches), branches)
      ensures branches - {scratch} == old(branches)
      ensures Grown(e, old(commits), commits, txs)
      ensures r.BuildKilled? ==> plan.fault != NoFault
      ensures r.Candidate? ==> Records(e, old(commits)[base].log, txs[..replayFrom])
      ensures r.Candidate? ==> r.commit < |commits| && Fold(e, txs) == Some(commits[r.commit])
                               && forall b :: b in branches && b.RevisionRef? ==> branches[b] != r.commit
      ensures old(NoLaterRefs(branches, published.revision)) ==> NoLaterRefs(branches, published.revision)
      ensures Records(e, old(commits)[base].log, txs[..replayFrom]) && Fold(e, txs).Some? && plan.fault == NoFault
              ==> r.Candidate?
    {
      hide Fold, ValidSet, EncodingInjective, CommitsGenuine, MarkersUnique, GenesisAlone;
      ghost var m := HeadMarker(branches);
      ghost var before := branches;
      r := BuildCandidate(txs, base, replayFrom, scratch, plan);
      assert forall b :: b != scratch ==>
               (b in branches <==> b in before) && (b in branches ==> branches[b] == before[b]);
      assert IsMarkerOfHead(branches, m);
      MarkerIs(branches, m);
    }

    /** `materialize`. Whatever interrupts it, the object stays valid; a published revision is the
        fold of the whole order; and a call that fails before the head moves leaves the head and
        everything readers see as it was. */
    method Materialize(txs: seq<Transaction>, plan: Plan) returns (r: Result)
      requires Valid()
      modifies this
      ensures Valid() && Grown(e, old(commits), commits, txs)
      ensures r.Unchanged? ==> unchanged(this) && order == Ids(txs) && Fold(e, txs) == Some(Visible())
      ensures r.Published? ==> Fold(e, txs) == Some(Visible()) && reader == branches[Head] && order == Ids(txs)
      ensures r.Published? ==> Subsequence(old(order), order) && old(order) != order
      ensures r.Published? ==>
                published.revision == old(published.revision) + 1 && HeadMarker(branches).revision == published.revision
      ensures r.Published? ==> FirstDifference(old(order), order, r.event.earliestChangedOrderIndex)
      ensures r.Published? ==> StartedAt(r.event, old(checkpoints), |old(order)|)
      ensures plan.fault == NoFault && plan.deletions.None? && r.Published? ==>
                CheckpointsAfter(old(checkpoints), |old(order)|, r.event.earliestChangedOrderIndex, |txs|,
                    checkpointEvery, retainCheckpoints, reader, checkpoints)
      ensures r.Published? ==> EventFits(r.event, old(published.revision), old(log), log,
                                         r.event.earliestChangedOrderIndex, r.event.replayFromIndex)
      ensures reader == old(reader)
              || (reader == branches[Head] && HeadHolds(e, branches, commits, txs, old(published.revision) + 1)
                                        && Subsequence(old(order), Ids(txs)))
      ensures r.Threw? ==>
                || (unchanged(`reader, `published, `checkpoints, `order, `log) && SameHead(old(branches), branches))
                || HeadHolds(e, branches, commits, txs, old(published.revision) + 1)
      ensures SameHead(old(branches), branches) ||
                (HeadHolds(e, branches, commits, txs, old(published.revision) + 1) && Subsequence(old(order), Ids(txs)))
      ensures old(Clean()) && plan.fault == NoFault && plan.deletions.None? ==>
                Clean()
                && (r.Published? || r.Unchanged? <==> Acceptable(e, old(log), old(order), txs) && Fold(e, txs).Some?)
      ensures forall d ::
                plan.fault == NoFault && !plan.kill && Acceptable(e, old(log), old(order), txs)
                && FirstDifference(old(order), Ids(txs), d) ==>
                (r.Published? <==>
                   && ReplayRef(old(published.revision) + 1, plan.nonce) !in old(branches) && Fold(e, txs).Some?
                   && BaseFits(e, old(commits), old(checkpoints), old(order), txs, d)
                   && MayPublish(e, old(branches), old(published.revision), old(checkpoints), old(order),
                         txs, d, checkpointEvery))
    {
      hide Fold, EncodingInjective, HeadAgrees, RefsResolve, CommitsGenuine, MarkersUnique, HeadMarked,
        GenesisAlone, CheckpointsOk, CheckpointOk, CheckpointsCurrent, CheckpointCurrent, Subsequence,
        IdentitiesKept, Records, RemovedOnly, WellFormed, BaseFits, MayPublish, StartedAt, CheckpointsAfter;
      var invalid := ValidateTransactionSet(e, txs);
      if invalid.Some? { return Threw(CodeOf(invalid)); }
      var monotonic := EnsureMonotonicSet(order, Ids(txs));
      if !monotonic { return Threw("MATERIALIZER_ADMISSION_SET_REMOVAL"); }
      var kept := ValidateExistingIdentities(e, log, txs);
      if !kept { return Threw("MATERIALIZER_TRANSACTION_IDENTITY_CONFLICT"); }
      var difference := EarliestDifference(order, Ids(txs));
      if difference.None? {
        UnchangedFold(e, branches, commits, published.commit, txs);
        return Unchanged;
      }
      if ReplayRef(published.revision + 1, plan.nonce) in branches { return Threw("BRANCH_EXISTS"); }
      ghost var before, beforeCommits := branches, commits;
      var attempt := TryMaterialize(txs, difference.value, plan);
      match attempt
      case Done(event) => return Published(event);
      case Died => return Killed;
      case Failed(code, created, moved) =>
        if !moved {
          SurvivingRefs(e, before, branches, commits, created);
          active := Head;
          ghost var tried := branches;
          var done, rest := RemoveRefs(created, plan.deletions);
          if done { RemovedAll(before, tried, branches, created); }
          CurrentGrows(e, beforeCommits, commits, txs, log, checkpoints);
        }
        return Threw(code);
    }
  }

  /** The names a publication needs are not taken. */
  ghost predicate RefsFree(e: Engine, branches: Branches, revision: nat, txs: seq<Transaction>, due: bool) {
    && RevisionRef(revision, |txs|, e.orderDigest(Ids(txs))) !in branches
    && (due ==> CheckpointRef(|txs|, revision, e.orderDigest(Ids(txs))) !in branches)
  }

  /** No marker or due checkpoint of this very order is left from an attempt that failed behind
      the head move or whose refs could not be removed. */
  ghost predicate MayPublish(e: Engine, branches: Branches, revision: nat, checkpoints: seq<Checkpoint>,
      order: seq<Bytes>,
                             txs: seq<Transaction>, difference: nat, checkpointEvery: nat)
  {
    RefsFree(e, branches, revision + 1, txs,
        Due(KeepBelow(checkpoints, difference == |order|, difference), |txs|, checkpointEvery))
  }

  /** The replay starts from the published commit, or the selected checkpoint records the start of
      the new order: it is not one that a failed cleanup left behind. */
  ghost predicate BaseFits(e: Engine, commits: seq<Content>, checkpoints: seq<Checkpoint>, order: seq<Bytes>,
      txs: seq<Transaction>, difference: nat)
  {
    difference < |order| ==>
      var cp := AtOrBefore(checkpoints, difference);
      && cp.Some? && cp.value.commit < |commits| && cp.value.prefixLength <= |txs|
      && Records(e, commits[cp.value.commit].log, txs[..cp.value.prefixLength])
  }

  /** At most one commit was added, with the fold of the order. */
  ghost predicate Grown(e: Engine, before: seq<Content>, after: seq<Content>, txs: seq<Transaction>) {
    && |before| <= |after| <= |before| + 1 && after[..|before|] == before
    && (|after| > |before| ==> Fold(e, txs) == Some(after[|before|]))
  }

  lemma RemovedAll(before: Branches, tried: Branches, after: Branches, created: set<Branch>)
    requires created !! before.Keys && tried - created == before
    requires RemovedOnly(tried, after, iset b | b in created) && forall b :: b in after ==> b !in created
    ensures after == before
  {
    forall b | b in before ensures b in after { assert b in tried - created; }
    forall b | b in after ensures b in before && after[b] == before[b] { assert b in tried - created; }
  }

  lemma CurrentGrows(e: Engine, before: seq<Content>, after: seq<Content>, txs: seq<Transaction>, log: seq<Row>,
      checkpoints: seq<Checkpoint>)
    requires Grown(e, before, after, txs)
    ensures CheckpointsCurrent(before, log, checkpoints) ==> CheckpointsCurrent(after, log, checkpoints)
  {
    if CheckpointsCurrent(before, log, checkpoints) {
      forall i | 0 <= i < |checkpoints| ensures CheckpointCurrent(after, log, checkpoints[i]) {
        assert CheckpointCurrent(before, log, checkpoints[i]);
        assert after[checkpoints[i].commit] == after[..|before|][checkpoints[i].commit];
      }
    }
  }

  /** An order with the published ids and identities is the published order. */
  lemma UnchangedFold(e: Engine, branches: Branches, commits: seq<Content>, commit: nat, txs: seq<Transaction>)
    requires EncodingInjective(e) && RepositoryOk(e, branches, commits) && commit < |commits|
    requires ValidSet(e, txs) && IdentitiesKept(e, commits[commit].log, txs) && LogIds(commits[commit].log) == Ids(txs)
    ensures Fold(e, txs) == Some(commits[commit])
  {
    hide RepositoryOk, EncodingInjective, Fold, IdentitiesKept;
    CommitIsGenuine(e, branches, commits, commit);
    var log := commits[commit].log;
    var first :| FoldsTo(e, first, commits[commit]);
    FoldRecords(e, first);
    assert |log| == |LogIds(log)| == |Ids(txs)| == |txs|;
    UnchangedPartRecorded(e, log, txs, |log|);
    assert log[..|log|] == log && txs[..|txs|] == txs;
    RecordsDetermine(e, log, first, txs);
  }

  /** A remembered checkpoint that went dead is refused as a replay base by every later call. */
  lemma DeadBaseRefused(e: Engine, base: Content, order: seq<Bytes>, txs: seq<Transaction>, n: nat)
    requires Dead(LogIds(base.log), order) && Subsequence(order, Ids(txs)) && ValidSet(e, txs) && n <= |txs|
    ensures !Records(e, base.log, txs[..n])
  {
    DeadForever(LogIds(base.log), order, Ids(txs));
    DeadIsNoPrefix(LogIds(base.log), Ids(txs));
    if Records(e, base.log, txs[..n]) { RecordedIsPrefix(e, base.log, txs, n); }
  }

  lemma RecordedIsPrefix(e: Engine, log: seq<Row>, txs: seq<Transaction>, n: nat)
    requires n <= |txs| && Records(e, log, txs[..n])
    ensures IsPrefix(LogIds(log), Ids(txs))
  {
    LogIdsOfRecorded(e, log, txs[..n]);
    assert Ids(txs[..n]) == Ids(txs)[..n];
  }

  /** A checkpoint ref that `Open` keeps: its commit is genuine content whose order is a prefix
      of the published one. */
  ghost predicate KeptRef(e: Engine, disk: Disk, log: seq<Row>, cp: Checkpoint) {
    && cp.branch in disk.branches && cp.branch.CheckpointRef? && cp.branch.prefixLength == cp.prefixLength
    && cp.commit == disk.branches[cp.branch] < |disk.commits|
    && |disk.commits[cp.commit].log| == cp.prefixLength <= |log|
    && e.orderDigest(LogIds(disk.commits[cp.commit].log)) == e.orderDigest(LogIds(log[..cp.prefixLength]))
  }

  /** Drops every checkpoint ref that does not describe a prefix of the published log. */
  method ValidateCheckpointRefs(e: Engine, disk: Disk, log: seq<Row>)
    returns (branches: Branches, valid: seq<Checkpoint>)
    requires forall b :: b in disk.branches ==> disk.branches[b] < |disk.commits|
    ensures RemovedOnly(disk.branches, branches,
              iset b: Branch | b.CheckpointRef? && !(exists cp :: cp in valid && cp.branch == b))
    ensures forall b :: b in branches && b.CheckpointRef? ==> b.prefixLength <= |log|
    ensures forall cp :: cp in valid ==> KeptRef(e, disk, log, cp)
    ensures forall b :: MustKeep(e, disk, log, b) ==> exists cp :: cp in valid && cp.branch == b
  {
    branches, valid := disk.branches, [];
    var left := set b | b in disk.branches && b.CheckpointRef?;
    ghost var all := left;
    while left != {}
      invariant left <= all
      invariant forall b :: b in branches ==> b in disk.branches && branches[b] == disk.branches[b]
      invariant forall b :: b in disk.branches && b !in branches ==> b.CheckpointRef? && b !in left
      invariant forall cp :: cp in valid ==> KeptRef(e, disk, log, cp) && cp.branch !in left && cp.branch in branches
      invariant forall b :: b in branches && b.CheckpointRef? && b !in left ==>
                b.prefixLength <= |log| && exists cp :: cp in valid && cp.branch == b
      invariant forall b :: b !in left && MustKeep(e, disk, log, b) ==> b in branches
    {
      var b :| b in left;
      left := left - {b};
      var commit := disk.branches[b];
      var expected := e.orderDigest(LogIds(if b.prefixLength <= |log| then log[..b.prefixLength] else log));
      if b.prefixLength > |log| || b.digest != expected {
        branches := branches - {b};
        continue;
      }
      var content := disk.commits[commit];
      var sound := VerifyLogIntegrity(e, content.log);
      if content.manifest != e.manifest || !sound || |content.log| != b.prefixLength
         || e.orderDigest(LogIds(content.log)) != expected {
        branches := branches - {b};
        continue;
      }
      ghost var before := valid;
      var cp := Checkpoint(b.prefixLength, b, commit, b.revision);
      valid := valid + [cp];
      assert cp in valid && forall c :: c in before ==> c in valid;
    }
  }

  /** The refs of a repository with nothing materialized: genesis, its marker and the head. */
  function InitialDisk(e: Engine): Disk {
    Disk(map[GenesisRef(e) := 0, RevisionRef(0, 0, e.orderDigest([])) := 0, Head := 0], [Genesis(e)])
  }

  lemma InitialDiskOk(e: Engine)
    ensures DiskOk(e, InitialDisk(e))
    ensures IdsIdentify(InitialDisk(e).commits)
    ensures HeadMarker(InitialDisk(e).branches).revision == 0
  {
    var d := InitialDisk(e);
    assert FoldsTo(e, [], Genesis(e));
    assert LogIds(Genesis(e).log) == [];
    assert IsMarkerOfHead(d.branches, RevisionRef(0, 0, e.orderDigest([])));
    MarkerIs(d.branches, RevisionRef(0, 0, e.orderDigest([])));
  }

  /** The hypotheses on the parameters, and a repository some run, interrupted or not, left. */
  ghost predicate Recoverable(e: Engine, checkpointEvery: nat, retainCheckpoints: nat, stored: Disk) {
    && EncodingInjective(e) && DigestCollisionFree(e)
    && checkpointEvery >= 1 && retainCheckpoints >= 1
    && (stored == Disk(map[], []) || DiskOk(e, stored))
  }

  function DiskToOpen(e: Engine, stored: Disk): Disk {
    if stored == Disk(map[], []) then InitialDisk(e) else stored
  }

  /** `open`. From any repository an interrupted run can leave behind it recovers the revision
      the head names, keeps only checkpoints that are prefixes of that order, genesis among them,
      and removes every ref of an unfinished attempt. */
  method Open(e: Engine, checkpointEvery: nat, retainCheckpoints: nat, stored: Disk)
    returns (m: DeterministicMaterializer?)
    requires forall b :: b in stored.branches ==> stored.branches[b] < |stored.commits|
    ensures Recoverable(e, checkpointEvery, retainCheckpoints, stored) ==>
              m != null && Recovers(m, e, DiskToOpen(e, stored))
    ensures m != null ==>
              fresh(m) && m.checkpointEvery == checkpointEvery && m.retainCheckpoints == retainCheckpoints
  {
    hide EncodingInjective, DigestCollisionFree, Recovers;
    var disk := stored;
    if Head !in stored.branches {
      if stored.commits != [] { return null; }
      disk := InitialDisk(e);
    }
    InitialDiskOk(e);
    m := OpenPublished(e, checkpointEvery, retainCheckpoints, disk);
  }

  ghost predicate Recovers(m: DeterministicMaterializer, e: Engine, disk: Disk)
    reads m
  {
    && DiskOk(e, disk) && m.e == e && m.Valid()
    && m.commits == disk.commits && SameHead(disk.branches, m.branches)
    && m.Visible() == disk.commits[disk.branches[Head]] && m.published.revision == HeadMarker(disk.branches).revision
    && (forall i :: 0 <= i < |m.checkpoints| ==> IsPrefix(LogIds(m.commits[m.checkpoints[i].commit].log), m.order))
    && (IdsIdentify(disk.commits) ==> m.Clean())
    && NoScratch(m.branches)
    && (forall b :: MustKeep(e, disk, m.log, b) ==> Remembers(m.checkpoints, b))
  }

  ghost predicate Remembers(checkpoints: seq<Checkpoint>, b: Branch) {
    exists cp :: cp in checkpoints && cp.branch == b
  }

  method OpenPublished(e: Engine, checkpointEvery: nat, retainCheckpoints: nat, disk: Disk)
    returns (m: DeterministicMaterializer?)
    requires forall b :: b in disk.branches ==> disk.branches[b] < |disk.commits|
    requires Head in disk.branches
    ensures EncodingInjective(e) && DigestCollisionFree(e) && checkpointEvery >= 1 && retainCheckpoints >= 1
            && DiskOk(e, disk) ==>
              m != null && Recovers(m, e, disk)
    ensures m != null ==>
              fresh(m) && m.checkpointEvery == checkpointEvery && m.retainCheckpoints == retainCheckpoints
  {
    hide EncodingInjective, DigestCollisionFree, CommitsGenuine, GenesisAlone, HeadAgrees, CheckpointsOk,
      CheckpointsCurrent,
      IdsIdentify, Recovers, KeptRef, MustKeep, AgesOk;
    var head := disk.branches[Head];
    var matching := set b | b in disk.branches && b.RevisionRef? && disk.branches[b] == head;
    ghost var ok := DiskOk(e, disk);
    assert ok ==> matching == {HeadMarker(disk.branches)};
    if |matching| != 1 { return null; }
    var marker :| marker in matching;
    var content := disk.commits[head];
    if ok {
      CommitIsGenuine(e, disk.branches, disk.commits, head);
      GenuineOrderDistinct(e, content);
    }
    var sound := VerifyLogIntegrity(e, content.log);
    if content.manifest != e.manifest || !sound { return null; }
    if |content.log| != marker.prefixLength || e.orderDigest(LogIds(content.log)) != marker.digest { return null; }
    var branches, valid := ValidateCheckpointRefs(e, disk, content.log);
    if ok { GenesisKept(e, disk, content.log, valid); }
    if forall i :: 0 <= i < |valid| ==> valid[i].prefixLength != 0 { return null; }
    var kept := set b | b in branches && (b == marker || !(b.ReplayRef? || b.RevisionRef?));
    var cleaned := map b | b in kept :: branches[b];
    if checkpointEvery < 1 || retainCheckpoints < 1 { return null; }
    var published := PublishedRef(marker.revision, marker.prefixLength, marker, head, marker.digest);
    m := new DeterministicMaterializer(e, checkpointEvery, retainCheckpoints, Disk(cleaned, disk.commits), published,
                                       Sort(valid, OldestFirst));
    if ok && EncodingInjective(e) && DigestCollisionFree(e) {
      AssembledRecovers(m, disk, branches, valid, marker);
    }
  }

  lemma AssembledRecovers(m: DeterministicMaterializer, disk: Disk, branches: Branches, valid: seq<Checkpoint>,
      marker: Branch)
    requires EncodingInjective(m.e) && DigestCollisionFree(m.e) && DiskOk(m.e, disk)
    requires IsMarkerOfHead(disk.branches, marker)
    requires m.checkpointEvery >= 1 && m.retainCheckpoints >= 1
    requires var head := disk.branches[Head];
             && m.commits == disk.commits && m.reader == head && m.log == disk.commits[head].log
             && m.order == LogIds(m.log)
             && m.published == PublishedRef(marker.revision, marker.prefixLength, marker, head, marker.digest)
             && m.checkpoints == Sort(valid, OldestFirst)
    requires RemovedOnly(disk.branches, branches,
              iset b: Branch | b.CheckpointRef? && !(exists cp :: cp in valid && cp.branch == b))
    requires exists cp :: cp in valid && cp.branch == GenesisRef(m.e) && cp.prefixLength == 0
    requires forall cp :: cp in valid ==> KeptRef(m.e, disk, m.log, cp)
    requires forall b :: MustKeep(m.e, disk, m.log, b) ==> exists cp :: cp in valid && cp.branch == b
    requires forall b :: b in m.branches <==> b in branches && (b == marker || !(b.ReplayRef? || b.RevisionRef?))
    requires forall b :: b in m.branches ==> m.branches[b] == branches[b]
    requires forall b :: b in branches && b.CheckpointRef? ==> b.prefixLength <= |m.log|
    ensures Recovers(m, m.e, disk)
  {
    MarkerIs(disk.branches, marker);
    RecoveredRepository(m.e, disk, branches, valid, m.branches, marker);
    forall cp: Checkpoint ensures cp in m.checkpoints <==> cp in valid { SameElements(m.checkpoints, valid, cp); }
    RecoveredCheckpoints(m.e, disk, m.log, m.checkpoints);
    forall b | MustKeep(m.e, disk, m.log, b) ensures Remembers(m.checkpoints, b) {
      var cp :| cp in valid && cp.branch == b;
      assert cp in m.checkpoints;
    }
    RecoveredMemory(m, disk, marker);
  }

  lemma RecoveredMemory(m: DeterministicMaterializer, disk: Disk, marker: Branch)
    requires EncodingInjective(m.e) && DiskOk(m.e, disk) && IsMarkerOfHead(disk.branches, marker)
    requires m.checkpointEvery >= 1 && m.retainCheckpoints >= 1
    requires var head := disk.branches[Head];
             && m.commits == disk.commits && m.reader == head && m.log == disk.commits[head].log
             && m.order == LogIds(m.log)
             && m.published == PublishedRef(marker.revision, marker.prefixLength, marker, head, marker.digest)
    requires RepositoryOk(m.e, m.branches, m.commits) && SameHead(disk.branches, m.branches)
    requires NoLaterRefs(m.branches, marker.revision)
    requires CheckpointsOk(m.e, m.commits, m.order, m.checkpoints) && HasGenesis(m.checkpoints)
    requires forall i :: 0 <= i < |m.checkpoints| ==> IsPrefix(LogIds(m.commits[m.checkpoints[i].commit].log), m.order)
    requires IdsIdentify(disk.commits) ==> CheckpointsCurrent(m.commits, m.log, m.checkpoints)
    requires NoScratch(m.branches)
    requires forall b :: MustKeep(m.e, disk, m.log, b) ==> Remembers(m.checkpoints, b)
    ensures Recovers(m, m.e, disk)
  {
    hide MustKeep, Remembers;
    hide EncodingInjective, CommitsGenuine, GenesisAlone, CheckpointsOk, CheckpointsCurrent, IdsIdentify, IsPrefix,
      MarkersUnique;
    assert Describes(m.e, marker, disk.commits[disk.branches[marker]]);
    MarkerIs(disk.branches, marker);
  }

  lemma GenesisKept(e: Engine, disk: Disk, log: seq<Row>, valid: seq<Checkpoint>)
    requires DiskOk(e, disk)
    requires forall b :: MustKeep(e, disk, log, b) ==> exists cp :: cp in valid && cp.branch == b
    requires forall cp :: cp in valid ==> KeptRef(e, disk, log, cp)
    ensures exists cp :: cp in valid && cp.branch == GenesisRef(e) && cp.prefixLength == 0
  {
    var b := GenesisRef(e);
    CommitIsGenuine(e, disk.branches, disk.commits, disk.branches[b]);
    GenuineOrderDistinct(e, disk.commits[disk.branches[b]]);
    assert LogIds(log[..0]) == [];
    assert MustKeep(e, disk, log, b);
  }

  /** A checkpoint ref that names a prefix of the published log and whose content is sound. */
  ghost predicate MustKeep(e: Engine, disk: Disk, log: seq<Row>, b: Branch) {
    && b in disk.branches && b.CheckpointRef? && disk.branches[b] < |disk.commits|
    && b.prefixLength <= |log| && b.digest == e.orderDigest(LogIds(log[..b.prefixLength]))
    && Describes(e, b, disk.commits[disk.branches[b]])
    && disk.commits[disk.branches[b]].manifest == e.manifest
    && CodesRegistered(e, disk.commits[disk.branches[b]].log)
  }

  /** The orders a node hands over as transactions arrive: each valid, each keeping the ones
      before it in place, none with an unregistered rejection code. */
  ghost predicate Arrivals(e: Engine, batches: seq<seq<Transaction>>) {
    && (forall i :: 0 <= i < |batches| ==> ValidSet(e, batches[i]) && Fold(e, batches[i]).Some?)
    && (forall i :: 0 < i < |batches| ==> Subsequence(batches[i - 1], batches[i]))
  }

  /** Without faults every such arrival history is materialized call by call, for every
      checkpoint interval and retention, and ends in the fold of its last order. Two histories
      with the same last order therefore show the same application state and log. */
  method Replicate(e: Engine, checkpointEvery: nat, retainCheckpoints: nat, batches: seq<seq<Transaction>>,
      nonce: Bytes)
    returns (visible: Content)
    requires EncodingInjective(e) && DigestCollisionFree(e)
    requires checkpointEvery >= 1 && retainCheckpoints >= 1
    requires Arrivals(e, batches)
    ensures Some(visible) == Fold(e, if batches == [] then [] else batches[|batches| - 1])
  {
    hide EncodingInjective, DigestCollisionFree, Fold, ValidSet, RepositoryOk, HeadAgrees, CheckpointsOk, Subsequence,
      CheckpointsCurrent, NoLaterRefs, NoScratch;
    InitialDiskOk(e);
    var first := Open(e, checkpointEvery, retainCheckpoints, Disk(map[], []));
    var m: DeterministicMaterializer := first;
    InitialFold(e);
    ghost var current: seq<Transaction> := [];
    for index := 0 to |batches|
      invariant fresh(m) && m.Valid() && m.e == e && m.Clean()
      invariant Fold(e, current) == Some(m.Visible()) && m.order == Ids(current)
      invariant current == if index == 0 then [] else batches[index - 1]
    {
      if index == 0 { EmptySubsequence(batches[index]); }
      NextBatchAcceptable(e, m.log, current, batches[index]);
      var r := m.Materialize(batches[index], Plan(nonce, NoFault, false, None));
      current := batches[index];
    }
    visible := m.Visible();
  }

  lemma LogIdsOfRecorded(e: Engine, log: seq<Row>, txs: seq<Transaction>)
    requires Records(e, log, txs)
    ensures LogIds(log) == Ids(txs)
  {
    forall i | 0 <= i < |log| ensures LogIds(log)[i] == Ids(txs)[i] { assert SameIdentity(e, log[i], txs[i]); }
  }

  lemma IdsSubsequence(a: seq<Transaction>, b: seq<Transaction>)
    requires Subsequence(a, b)
    ensures Subsequence(Ids(a), Ids(b))
    ensures Ids(a) == Ids(b) ==> a == b
  {
    var at :| Embeds(a, b, at);
    assert Embeds(Ids(a), Ids(b), at);
    SubsequenceLength(a, b);
    assert |Ids(a)| == |a| && |Ids(b)| == |b|;
  }

  lemma IdentitiesKeptByArrival(e: Engine, log: seq<Row>, current: seq<Transaction>, next: seq<Transaction>)
    requires Records(e, log, current) && Subsequence(current, next)
    ensures IdentitiesKept(e, log, next)
  {
    var at :| Embeds(current, next, at);
    forall r | 0 <= r < |log| ensures IdentityKept(e, log[r], next) {
      assert SameIdentity(e, log[r], current[r]) && current[r] == next[at[r]];
    }
  }

  lemma NextBatchAcceptable(e: Engine, log: seq<Row>, current: seq<Transaction>, next: seq<Transaction>)
    requires Fold(e, current).Some? && log == Fold(e, current).value.log
    requires ValidSet(e, next) && Subsequence(current, next)
    ensures Acceptable(e, log, LogIds(log), next) && LogIds(log) == Ids(current)
    ensures Ids(current) == Ids(next) ==> current == next
  {
    FoldRecords(e, current);
    LogIdsOfRecorded(e, log, current);
    IdsSubsequence(current, next);
    IdentitiesKeptByArrival(e, log, current, next);
  }

  lemma InitialFold(e: Engine)
    ensures Fold(e, []) == Some(Genesis(e))
  {
  }

  lemma HeadResolves(m: DeterministicMaterializer)
    requires m.Valid()
    ensures Head in m.branches && m.branches[Head] < |m.commits|
    ensures HeadMarked(m.branches)
  {
  }

  /** Whatever state a process dies in, its repository can be opened again. */
  lemma ValidDisk(m: DeterministicMaterializer)
    requires m.Valid()
    ensures DiskOk(m.e, Disk(m.branches, m.commits))
    ensures forall b :: b in m.branches ==> m.branches[b] < |m.commits|
  {
  }

  lemma RecoveredRepository(e: Engine, disk: Disk, branches: Branches, valid: seq<Checkpoint>, cleaned: Branches,
      marker: Branch)
    requires DiskOk(e, disk) && IsMarkerOfHead(disk.branches, marker)
    requires RemovedOnly(disk.branches, branches,
              iset b: Branch | b.CheckpointRef? && !(exists cp :: cp in valid && cp.branch == b))
    requires exists cp :: cp in valid && cp.branch == GenesisRef(e)
    requires forall b :: b in cleaned <==> b in branches && (b == marker || !(b.ReplayRef? || b.RevisionRef?))
    requires forall b :: b in cleaned ==> cleaned[b] == branches[b]
    requires forall b :: b in branches && b.CheckpointRef? ==> b.prefixLength <= |disk.commits[disk.branches[Head]].log|
    ensures RepositoryOk(e, cleaned, disk.commits) && SameHead(disk.branches, cleaned)
    ensures NoLaterRefs(cleaned, marker.revision)
  {
    MarkerIs(disk.branches, marker);
    var gone := iset b | b in disk.branches && b !in cleaned;
    forall b | b in gone ensures Removable(e, disk.branches, b) {
      if IsMarkerOfHead(disk.branches, b) { MarkerIs(disk.branches, b); }
    }
    RemovingKeeps(e, disk.branches, cleaned, disk.commits, gone);
    assert IsMarkerOfHead(cleaned, marker);
    MarkerIs(cleaned, marker);
  }

  lemma RecoveredCheckpoints(e: Engine, disk: Disk, log: seq<Row>, checkpoints: seq<Checkpoint>)
    requires EncodingInjective(e) && DigestCollisionFree(e) && DiskOk(e, disk)
    requires log == disk.commits[disk.branches[Head]].log
    requires forall cp :: cp in checkpoints ==> KeptRef(e, disk, log, cp)
    ensures CheckpointsOk(e, disk.commits, LogIds(log), checkpoints)
    ensures forall i :: 0 <= i < |checkpoints| ==>
              IsPrefix(LogIds(disk.commits[checkpoints[i].commit].log), LogIds(log))
    ensures IdsIdentify(disk.commits) ==> CheckpointsCurrent(disk.commits, log, checkpoints)
  {
    forall i | 0 <= i < |checkpoints|
      ensures CheckpointOk(e, disk.commits, LogIds(log), checkpoints[i])
      ensures IsPrefix(LogIds(disk.commits[checkpoints[i].commit].log), LogIds(log))
      ensures IdsIdentify(disk.commits) ==> CheckpointCurrent(disk.commits, log, checkpoints[i])
    {
      var cp := checkpoints[i];
      assert cp in checkpoints && KeptRef(e, disk, log, cp);
      var content := disk.commits[cp.commit];
      assert LogIds(content.log) == LogIds(log[..cp.prefixLength]);
      assert LogIds(log[..cp.prefixLength]) == LogIds(log)[..cp.prefixLength];
      if IdsIdentify(disk.commits) {
        assert RowsAgree(content.log, disk.commits[disk.branches[Head]].log);
        CommitIsGenuine(e, disk.branches, disk.commits, cp.commit);
        CommitIsGenuine(e, disk.branches, disk.commits, disk.branches[Head]);
        SameIdsSameRows(e, content, disk.commits[disk.branches[Head]]);
      }
    }
  }

  ghost predicate SameHead(before: Branches, after: Branches) {
    && HeadMarked(before) && HeadMarked(after)
    && HeadMarker(before) == HeadMarker(after) && before[Head] == after[Head]
  }

  lemma SurvivingRefs(e: Engine, before: Branches, after: Branches, commits: seq<Content>, created: set<Branch>)
    requires Head in before && GenesisRef(e) in before && HeadMarked(before)
    requires RepositoryOk(e, after, commits)
    requires created !! before.Keys && after - created == before
    ensures SameHead(before, after)
    ensures Head !in created && GenesisRef(e) !in created && HeadMarker(after) !in created
  {
    var m := HeadMarker(before);
    assert m in after - created && Head in after - created && GenesisRef(e) in after - created;
    assert IsMarkerOfHead(after, m);
    MarkerIs(after, m);
  }

  /** What the input checks of `materialize` accept. */
  ghost predicate Acceptable(e: Engine, log: seq<Row>, order: seq<Bytes>, txs: seq<Transaction>) {
    ValidSet(e, txs) && Subsequence(order, Ids(txs)) && IdentitiesKept(e, log, txs)
  }

  /** In a clean state the chosen base records the start of the new order. */
  lemma BaseRecorded(e: Engine, log: seq<Row>, txs: seq<Transaction>, difference: nat, replayFrom: nat)
    requires ValidSet(e, txs) && IdentitiesKept(e, log, txs)
    requires FirstDifference(LogIds(log), Ids(txs), difference) && replayFrom <= difference
    ensures replayFrom <= |log| && replayFrom <= |txs| && Records(e, log[..replayFrom], txs[..replayFrom])
  {
    assert LogIds(log)[..replayFrom] == LogIds(log)[..difference][..replayFrom]
        == Ids(txs)[..difference][..replayFrom] == Ids(txs)[..replayFrom];
    UnchangedPartRecorded(e, log, txs, replayFrom);
  }

  lemma StillCurrent(e: Engine, before: seq<Content>, commits: seq<Content>, log: seq<Row>, txs: seq<Transaction>,
                     difference: nat, old_: seq<Checkpoint>, checkpoints: seq<Checkpoint>, branches: Branches,
                     commit: nat)
    requires EncodingInjective(e) && ValidSet(e, txs) && RepositoryOk(e, branches, commits)
    requires |before| <= |commits| && commits[..|before|] == before
    requires CheckpointsCurrent(before, log, old_)
    requires IdentitiesKept(e, log, txs) && FirstDifference(LogIds(log), Ids(txs), difference)
    requires commit < |commits| && Fold(e, txs) == Some(commits[commit])
    requires forall cp :: cp in checkpoints ==> (cp.commit == commit && cp.prefixLength == |txs|) ||
                                                (cp in old_ && (difference == |log| || cp.prefixLength <= difference))
    ensures CheckpointsCurrent(commits, commits[commit].log, checkpoints)
  {
    hide EncodingInjective, ValidSet, RepositoryOk, IdentitiesKept, Fold, SameIdentity, Genuine;
    FoldRecords(e, txs);
    forall i | 0 <= i < |checkpoints| ensures CheckpointCurrent(commits, commits[commit].log, checkpoints[i]) {
      var cp := checkpoints[i];
      assert cp in checkpoints;
      if cp.commit == commit && cp.prefixLength == |txs| {
        assert commits[commit].log[..|txs|] == commits[commit].log;
      } else {
        var k :| 0 <= k < |old_| && old_[k] == cp;
        assert CheckpointCurrent(before, log, old_[k]);
        CommitIsGenuine(e, branches, commits, cp.commit);
        CheckpointStaysCurrent(e, commits, log, txs, commits[commit], difference, cp);
      }
    }
  }

  /** The checkpoints that remain: all of them after an append, else those not above the change. */
  function KeepBelow(checkpoints: seq<Checkpoint>, isAppend: bool, difference: nat): (kept: seq<Checkpoint>)
    ensures forall cp :: cp in kept <==> cp in checkpoints && (isAppend || cp.prefixLength <= difference)
  {
    if checkpoints == [] then []
    else
      var rest := KeepBelow(checkpoints[1..], isAppend, difference);
      if isAppend || checkpoints[0].prefixLength <= difference then [checkpoints[0]] + rest else rest
  }

  ghost predicate HeadHolds(e: Engine, branches: Branches, commits: seq<Content>, txs: seq<Transaction>,
      revision: nat)
  {
    && HeadMarked(branches) && branches[Head] < |commits|
    && Fold(e, txs) == Some(commits[branches[Head]])
    && HeadMarker(branches).revision == revision
  }

  ghost predicate EventFits(event: Event, previousRevision: nat, before: seq<Row>, after: seq<Row>, difference: nat,
      replayFrom: nat)
  {
    && event.previousRevision == previousRevision && event.revision == previousRevision + 1
    && event.orderLength == |after|
    && event.replayFromIndex == replayFrom && replayFrom + event.replayedTransactions == |after|
    && event.earliestChangedOrderIndex == difference
    && ReportFits(event.outcomeChanges, before, after)
  }

  /** Each transaction whose visible outcome changed is reported once, with its old and its new
      outcome, and no other is. */
  ghost predicate ReportFits(changes: seq<OutcomeChange>, before: seq<Row>, after: seq<Row>) {
    && (forall k :: 0 <= k < |changes| ==> ChangeFits(changes[k], before, after))
    && (forall k, l :: 0 <= k < l < |changes| ==> changes[k].txId != changes[l].txId)
    && (forall i :: 0 <= i < |after| ==>
          (Reported(changes, after[i].txId) <==>
            MaterializerChecks.Visible(before, after[i].txId) != MaterializerChecks.Visible(after, after[i].txId)))
  }

  lemma LaterOrderIsLonger(order: seq<Bytes>, next: seq<Bytes>, d: nat)
    requires Subsequence(order, next) && FirstDifference(order, next, d)
    ensures |next| > |order|
  {
    SubsequenceLength(order, next);
  }

  lemma RetainedStayOk(e: Engine, commits: seq<Content>, order: seq<Bytes>, checkpoints: seq<Checkpoint>,
                       retained: seq<Checkpoint>, added: Option<Checkpoint>)
    requires CheckpointsOk(e, commits, order, checkpoints) && HasGenesis(checkpoints)
    requires forall cp :: cp in checkpoints && cp.prefixLength == 0 ==> cp in retained
    requires forall cp :: cp in retained ==> cp in checkpoints
    requires added.Some? ==> CheckpointOk(e, commits, order, added.value)
    ensures var all := if added.None? then retained else retained + [added.value];
            CheckpointsOk(e, commits, order, all) && HasGenesis(all)
  {
    SomeCheckpointsOk(e, commits, order, checkpoints, retained);
  }

  lemma RefsAreCheckpoints(e: Engine, commits: seq<Content>, order: seq<Bytes>, checkpoints: seq<Checkpoint>)
    requires CheckpointsOk(e, commits, order, checkpoints)
    ensures forall cp :: cp in checkpoints ==> cp.branch.CheckpointRef? && cp.branch.prefixLength == cp.prefixLength
    ensures forall cp :: cp in checkpoints && cp.prefixLength == 0 ==> cp.branch == GenesisRef(e)
  {
    forall cp | cp in checkpoints ensures CheckpointOk(e, commits, order, cp) {
      var i :| 0 <= i < |checkpoints| && checkpoints[i] == cp;
    }
  }

  lemma SomeCheckpointsOk(e: Engine, commits: seq<Content>, order: seq<Bytes>, all: seq<Checkpoint>,
      some: seq<Checkpoint>)
    requires CheckpointsOk(e, commits, order, all)
    requires forall cp :: cp in some ==> cp in all
    ensures CheckpointsOk(e, commits, order, some)
  {
    forall i | 0 <= i < |some| ensures CheckpointOk(e, commits, order, some[i]) { assert some[i] in all; }
  }

  lemma AddedRefAgrees(e: Engine, branches: Branches, commits: seq<Content>, published: PublishedRef, length: nat,
                       b: Branch, commit: nat)
    requires RepositoryOk(e, branches, commits) && RepositoryOk(e, branches[b := commit], commits)
    requires HeadAgrees(branches, published, length)
    requires b.CheckpointRef? ==> b.revision == published.revision + 1 && b.prefixLength > length
    requires b.ReplayRef? || (b !in branches && (b.CheckpointRef? || b.RevisionRef?))
    ensures HeadAgrees(branches[b := commit], published, length)
    ensures HeadMarker(branches[b := commit]) == HeadMarker(branches)
  {
    MarkerIs(branches[b := commit], HeadMarker(branches));
  }

  lemma RemovedRefsAgree(e: Engine, before: Branches, after: Branches, commits: seq<Content>, gone: iset<Branch>,
                         published: PublishedRef, length: nat)
    requires RepositoryOk(e, before, commits) && RepositoryOk(e, after, commits)
    requires RemovedOnly(before, after, gone) && HeadMarker(before) !in gone && Head !in gone
    requires HeadAgrees(before, published, length)
    ensures HeadAgrees(after, published, length)
    ensures HeadMarker(after) == HeadMarker(before)
  {
    MarkerIs(after, HeadMarker(before));
  }

  /** After a publication every remembered checkpoint is again a prefix or dead, even when the
      list was not pruned. */
  lemma CheckpointsAfterPublication(e: Engine, commits: seq<Content>, order: seq<Bytes>, next: seq<Bytes>,
                                    d: nat, checkpoints: seq<Checkpoint>)
    requires CheckpointsOk(e, commits, order, checkpoints)
    requires Subsequence(order, next) && Distinct(order) && Distinct(next) && FirstDifference(order, next, d)
    ensures CheckpointsOk(e, commits, next, checkpoints)
  {
    forall i | 0 <= i < |checkpoints| ensures CheckpointOk(e, commits, next, checkpoints[i]) {
      var cp := checkpoints[i];
      assert CheckpointOk(e, commits, order, cp);
      var ids := LogIds(commits[cp.commit].log);
      if Dead(ids, order) {
        DeadForever(ids, order, next);
      } else if |ids| <= d {
        assert ids == order[..d][..|ids|] == next[..d][..|ids|] == next[..|ids|];
      } else {
        CheckpointAboveChangeIsDead(order, next, d, |ids|);
      }
    }
  }

  /** The part of a published log below the first change records the start of the new order. */
  lemma UnchangedPartRecorded(e: Engine, log: seq<Row>, txs: seq<Transaction>, n: nat)
    requires IdentitiesKept(e, log, txs) && Distinct(Ids(txs))
    requires n <= |log| && n <= |txs| && LogIds(log)[..n] == Ids(txs)[..n]
    ensures Records(e, log[..n], txs[..n])
  {
    hide SameIdentity;
    forall i | 0 <= i < n ensures SameIdentity(e, log[..n][i], txs[..n][i]) {
      assert IdentityKept(e, log[i], txs);
      var k :| 0 <= k < |txs| && txs[k].txId == log[i].txId && SameIdentity(e, log[i], txs[k]);
      assert Ids(txs)[i] == Ids(txs)[..n][i] == LogIds(log)[..n][i] == Ids(txs)[k];
    }
  }

  /** A checkpoint below the first change is the state of a prefix of the new order too. */
  lemma CheckpointStaysCurrent(e: Engine, commits: seq<Content>, log: seq<Row>, txs: seq<Transaction>, c: Content,
                               d: nat, cp: Checkpoint)
    requires EncodingInjective(e) && ValidSet(e, txs) && Fold(e, txs) == Some(c)
    requires IdentitiesKept(e, log, txs) && FirstDifference(LogIds(log), Ids(txs), d)
    requires CheckpointCurrent(commits, log, cp) && cp.prefixLength <= d && Genuine(e, commits[cp.commit])
    ensures CheckpointCurrent(commits, c.log, cp)
    ensures Records(e, commits[cp.commit].log, txs[..cp.prefixLength])
  {
    var n := cp.prefixLength;
    assert LogIds(log)[..n] == LogIds(log)[..d][..n] == Ids(txs)[..d][..n] == Ids(txs)[..n];
    UnchangedPartRecorded(e, log, txs, n);
    AnyVerifiedBaseGivesTheFold(e, commits[cp.commit], txs, n);
    FoldPrefix(e, txs, n);
  }

  lemma FoldOneMore(e: Engine, txs: seq<Transaction>, n: nat)
    requires n < |txs| && Fold(e, txs[..n]).Some?
    ensures Fold(e, txs[..n + 1]) == Apply(e, Fold(e, txs[..n]).value, txs[n])
    ensures Fold(e, txs).Some? ==> Fold(e, txs[..n + 1]).Some?
  {
    assert txs[..n + 1][..n] == txs[..n];
    if Fold(e, txs).Some? { FoldPrefix(e, txs, n + 1); }
  }
}
