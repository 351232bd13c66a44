/** The branches and commits of the versioned database, as the materializer names and moves
    them, and the invariant every publication step and every interruption keeps. */
module Repository {
  import opened Bytes
  import opened Sequences
  import opened Replay

  /** The branch names the materializer writes, with the fields its name patterns read back. */
  datatype Branch =
    | Head
    | CheckpointRef(prefixLength: nat, revision: nat, digest: Bytes)
    | RevisionRef(revision: nat, prefixLength: nat, digest: Bytes)
    | ReplayRef(revision: nat, nonce: Bytes)
    | ForeignRef(name: string)

  type Branches = map<Branch, nat>

  /** Commits are numbered in the order they were made; a number is never used twice. */
  datatype Disk = Disk(branches: Branches, commits: seq<Content>)

  datatype PublishedRef = PublishedRef(revision: nat, prefixLength: nat, branch: Branch, commit: nat,
      orderDigest: Bytes)

  datatype Checkpoint = Checkpoint(prefixLength: nat, branch: Branch, commit: nat, createdAtRevision: nat)

  function GenesisRef(e: Engine): Branch {
    CheckpointRef(0, 0, e.orderDigest([]))
  }

  /** The length and order digest in a branch name describe the log of the commit it names. */
  ghost predicate Describes(e: Engine, b: Branch, c: Content) {
    b.CheckpointRef? || b.RevisionRef? ==>
      b.prefixLength == |c.log| && b.digest == e.orderDigest(LogIds(c.log))
  }

  ghost predicate RefsResolve(e: Engine, branches: Branches, commits: seq<Content>) {
    forall b :: b in branches ==> branches[b] < |commits| && Describes(e, b, commits[branches[b]])
  }

  ghost predicate CommitsGenuine(e: Engine, commits: seq<Content>) {
    forall i :: 0 <= i < |commits| ==> Genuine(e, commits[i])
  }

  /** At most one revision marker per commit. */
  ghost predicate MarkersUnique(branches: Branches) {
    forall b, b' | b in branches && b' in branches && b.RevisionRef? && b'.RevisionRef? ::
      branches[b] == branches[b'] ==> b == b'
  }

  ghost predicate IsMarkerOfHead(branches: Branches, b: Branch) {
    Head in branches && b in branches && b.RevisionRef? && branches[b] == branches[Head]
  }

  ghost predicate HeadMarked(branches: Branches) {
    exists b :: IsMarkerOfHead(branches, b)
  }

  ghost predicate GenesisAlone(e: Engine, branches: Branches) {
    forall b :: b in branches && b.CheckpointRef? && b.prefixLength == 0 ==> b == GenesisRef(e)
  }

  /** What holds of the stored repository at every moment, crash or no crash. */
  ghost predicate RepositoryOk(e: Engine, branches: Branches, commits: seq<Content>) {
    && Head in branches
    && GenesisRef(e) in branches
    && GenesisAlone(e, branches)
    && RefsResolve(e, branches, commits)
    && CommitsGenuine(e, commits)
    && MarkersUnique(branches)
    && HeadMarked(branches)
  }

  lemma CommitIsGenuine(e: Engine, branches: Branches, commits: seq<Content>, commit: nat)
    requires RepositoryOk(e, branches, commits) && commit < |commits|
    ensures Genuine(e, commits[commit])
  {
  }

  lemma FoldIsGenuine(e: Engine, txs: seq<Transaction>, c: Content)
    requires ValidSet(e, txs) && Fold(e, txs) == Some(c)
    ensures Genuine(e, c)
  {
    assert FoldsTo(e, txs, c);
  }

  lemma AddingCommitKeeps(e: Engine, branches: Branches, commits: seq<Content>, c: Content)
    requires RepositoryOk(e, branches, commits) && Genuine(e, c)
    ensures RepositoryOk(e, branches, commits + [c])
  {
  }

  lemma AddingBranchKeeps(e: Engine, branches: Branches, commits: seq<Content>, b: Branch, commit: nat)
    requires RepositoryOk(e, branches, commits)
    requires commit < |commits| && Describes(e, b, commits[commit])
    requires b.ReplayRef? || (b !in branches && (b.CheckpointRef? ==> b.prefixLength > 0))
    requires b.RevisionRef? ==> forall other :: other in branches && other.RevisionRef? ==> branches[other] != commit
    ensures RepositoryOk(e, branches[b := commit], commits)
  {
    var m :| IsMarkerOfHead(branches, m);
    assert IsMarkerOfHead(branches[b := commit], m);
  }

  lemma MovingHeadKeeps(e: Engine, branches: Branches, commits: seq<Content>, m: Branch)
    requires RepositoryOk(e, branches, commits)
    requires m in branches && m.RevisionRef?
    ensures RepositoryOk(e, branches[Head := branches[m]], commits)
  {
    assert IsMarkerOfHead(branches[Head := branches[m]], m);
  }

  /** Branches that may go: anything but the head, genesis and the marker of the head. */
  ghost predicate Removable(e: Engine, branches: Branches, b: Branch) {
    b != Head && b != GenesisRef(e) && !IsMarkerOfHead(branches, b)
  }

  ghost predicate RemovedOnly(before: Branches, after: Branches, gone: iset<Branch>) {
    && (forall b :: b in after ==> b in before && after[b] == before[b])
    && (forall b :: b in before && b !in gone ==> b in after)
  }

  lemma RemovingKeeps(e: Engine, before: Branches, after: Branches, commits: seq<Content>, gone: iset<Branch>)
    requires RepositoryOk(e, before, commits)
    requires RemovedOnly(before, after, gone)
    requires forall b :: b in gone ==> Removable(e, before, b)
    ensures RepositoryOk(e, after, commits)
  {
    var m :| IsMarkerOfHead(before, m);
    assert m !in gone && IsMarkerOfHead(after, m);
  }

  lemma GenuineOrderDistinct(e: Engine, c: Content)
    requires Genuine(e, c)
    ensures Distinct(LogIds(c.log))
    ensures c.manifest == e.manifest
    ensures forall i :: 0 <= i < |c.log| && !c.log[i].outcome.Accepted? ==>
              c.log[i].outcome.rejection.code in e.errorCodes
  {
    var txs :| FoldsTo(e, txs, c);
    FoldRecords(e, txs);
    assert LogIds(c.log) == Ids(txs);
  }

  ghost function HeadMarker(branches: Branches): (b: Branch)
    requires HeadMarked(branches)
    ensures IsMarkerOfHead(branches, b)
  {
    var b :| IsMarkerOfHead(branches, b); b
  }

  lemma MarkerIs(branches: Branches, b: Branch)
    requires MarkersUnique(branches) && IsMarkerOfHead(branches, b)
    ensures HeadMarked(branches) && HeadMarker(branches) == b
  {
  }

  /** A checkpoint ref is no newer than the head, unless it was left by an unfinished attempt at
      the next revision, whose order is longer than the head's. */
  ghost predicate AgesOk(branches: Branches, commits: seq<Content>)
    requires HeadMarked(branches) && branches[Head] < |commits|
  {
    var revision := HeadMarker(branches).revision;
    forall b :: b in branches && b.CheckpointRef? ==>
      b.revision <= revision || (b.revision == revision + 1 && b.prefixLength > |commits[branches[Head]].log|)
  }

  /** A stored repository that `Open` accepts. */
  ghost predicate DiskOk(e: Engine, disk: Disk) {
    && RepositoryOk(e, disk.branches, disk.commits)
    && AgesOk(disk.branches, disk.commits)
  }

  function Identity(row: Row): (Bytes, Bytes, int, int, Bytes, Bytes) {
    (row.txId, row.authorId, row.authorTimestampMs, row.authorFeedSequence, row.candidateDigest, row.canonicalCandidate)
  }

  ghost predicate RowsAgree(a: seq<Row>, b: seq<Row>) {
    forall p, q :: 0 <= p < |a| && 0 <= q < |b| && a[p].txId == b[q].txId ==> Identity(a[p]) == Identity(b[q])
  }

  /** A transaction id names one transaction throughout the repository. */
  ghost predicate IdsIdentify(commits: seq<Content>) {
    forall i, j :: 0 <= i < |commits| && 0 <= j < |commits| ==> RowsAgree(commits[i].log, commits[j].log)
  }

  /** Two genuine contents whose logs start with the same transactions have the same rows there,
      outcomes included. */
  lemma SameIdsSameRows(e: Engine, a: Content, b: Content)
    requires EncodingInjective(e) && Genuine(e, a) && Genuine(e, b)
    requires RowsAgree(a.log, b.log)
    requires IsPrefix(LogIds(a.log), LogIds(b.log))
    ensures a.log == b.log[..|a.log|]
  {
    var ta :| FoldsTo(e, ta, a);
    var tb :| FoldsTo(e, tb, b);
    FoldRecords(e, ta);
    FoldRecords(e, tb);
    var n := |a.log|;
    forall i | 0 <= i < n ensures SameIdentity(e, a.log[i], tb[..n][i]) {
      assert LogIds(a.log)[i] == LogIds(b.log)[..n][i];
      assert Identity(a.log[i]) == Identity(b.log[i]);
      assert SameIdentity(e, b.log[i], tb[i]);
    }
    RecordsDetermine(e, a.log, ta, tb[..n]);
    FoldPrefix(e, tb, n);
  }
}
