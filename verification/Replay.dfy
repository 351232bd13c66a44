/** What one transaction does to a materialized database, and the fold from genesis that
    every checkpointed replay must agree with. The SQL engine is a parameter. */
module Replay {
  import opened Bytes
  import opened Order
  import opened Sequences

  datatype Option<+T> = None | Some(value: T)

  type App(==, !new)
  type Core(==, !new)
  type Envelope(==, !new)
  type Attribution(==, !new)

  datatype Phase = PreconditionPhase | StatementPhase | FinalizePhase

  datatype Rejection = Rejection(code: string, phase: Phase, attribution: Option<Attribution>)

  /** What the engine makes of one program: a new application state with a result envelope,
      or a deterministic rejection. */
  datatype Execution = Completed(app: App, envelope: Envelope) | Refused(rejection: Rejection)

  /** The parts of the system that are parameters here: the engine, the canonical encoding,
      the digests and the execution manifest. */
  datatype Engine = Engine(
    genesis: App,
    run: (App, Core) -> Execution,
    compileError: Core -> Option<string>,
    manifestOf: Core -> Bytes,
    author: Core -> Bytes,
    timestamp: Core -> int,
    encode: Core -> Bytes,
    digest: Bytes -> Bytes,
    orderDigest: seq<Bytes> -> Bytes,
    manifest: Bytes,
    errorCodes: set<string>)

  datatype Transaction = Transaction(
    txId: Bytes, authorFeedSequence: int, core: Core, candidateDigest: Bytes, canonicalCandidate: Bytes)

  datatype Outcome =
    | Accepted(envelope: Envelope)
    | RejectedPrecondition(rejection: Rejection)
    | RejectedExecution(rejection: Rejection)

  datatype Row = Row(
    txId: Bytes, orderIndex: nat, authorId: Bytes, authorTimestampMs: int, authorFeedSequence: int,
    candidateDigest: Bytes, canonicalCandidate: Bytes, outcome: Outcome)
  {
    function Key(): OrderKey {
      OrderKey(authorTimestampMs, authorId, authorFeedSequence, txId)
    }

    function RejectionCode(): Option<string> {
      if outcome.Accepted? then None else Some(outcome.rejection.code)
    }
  }

  /** The committed content of the database: stored manifest, application tables, protected log. */
  datatype Content = Content(manifest: Bytes, app: App, log: seq<Row>)

  const MAX_FEED_SEQUENCE: int := 0x7fff_ffff_ffff_ffff

  function KeyOf(e: Engine, tx: Transaction): OrderKey {
    OrderKey(e.timestamp(tx.core), e.author(tx.core), tx.authorFeedSequence, tx.txId)
  }

  function Ids(txs: seq<Transaction>): (ids: seq<Bytes>)
    ensures |ids| == |txs|
    ensures forall i :: 0 <= i < |txs| ==> ids[i] == txs[i].txId
  {
    seq(|txs|, i requires 0 <= i < |txs| => txs[i].txId)
  }

  function LogIds(log: seq<Row>): (ids: seq<Bytes>)
    ensures |ids| == |log|
    ensures forall i :: 0 <= i < |log| ==> ids[i] == log[i].txId
  {
    seq(|log|, i requires 0 <= i < |log| => log[i].txId)
  }

  predicate SameIdentity(e: Engine, row: Row, tx: Transaction) {
    && row.txId == tx.txId
    && row.candidateDigest == tx.candidateDigest
    && row.canonicalCandidate == tx.canonicalCandidate
    && row.authorId == e.author(tx.core)
    && row.authorTimestampMs == e.timestamp(tx.core)
    && row.authorFeedSequence == tx.authorFeedSequence
    && CompareKeys(row.Key(), KeyOf(e, tx)) == 0
  }

  /** Every row of `log` records the transaction at the same position. */
  predicate Records(e: Engine, log: seq<Row>, txs: seq<Transaction>) {
    |log| == |txs| && forall i :: 0 <= i < |log| ==> SameIdentity(e, log[i], txs[i])
  }

  predicate WellFormed(e: Engine, tx: Transaction) {
    && tx.txId != []
    && 0 <= tx.authorFeedSequence <= MAX_FEED_SEQUENCE
    && e.encode(tx.core) == tx.canonicalCandidate
    && e.digest(tx.canonicalCandidate) == tx.candidateDigest
    && e.compileError(tx.core).None?
  }

  /** A transaction list `materialize` accepts: well-formed, strictly ordered, no id twice. */
  predicate ValidSet(e: Engine, txs: seq<Transaction>) {
    && (forall i :: 0 <= i < |txs| ==> WellFormed(e, txs[i]))
    && (forall i :: 0 < i < |txs| ==> Before(KeyOf(e, txs[i - 1]), KeyOf(e, txs[i])))
    && Distinct(Ids(txs))
  }

  ghost predicate EncodingInjective(e: Engine) {
    forall a: Core, b: Core :: e.encode(a) == e.encode(b) ==> a == b
  }

  ghost predicate DigestCollisionFree(e: Engine) {
    forall a: seq<Bytes>, b: seq<Bytes> :: e.orderDigest(a) == e.orderDigest(b) ==> a == b
  }

  function RowFor(e: Engine, tx: Transaction, index: nat, outcome: Outcome): Row {
    Row(tx.txId, index, e.author(tx.core), e.timestamp(tx.core), tx.authorFeedSequence,
        tx.candidateDigest, tx.canonicalCandidate, outcome)
  }

  function Execute(e: Engine, app: App, core: Core): Execution {
    if e.manifestOf(core) != e.manifest then
      Refused(Rejection("EXECUTION_MANIFEST_DIGEST_MISMATCH", FinalizePhase, None))
    else match e.compileError(core)
      case Some(code) => Refused(Rejection(code, FinalizePhase, None))
      case None => e.run(app, core)
  }

  /** One transaction at the end of the log. None when the rejection code is not registered. */
  function Apply(e: Engine, c: Content, tx: Transaction): Option<Content> {
    match Execute(e, c.app, tx.core)
    case Completed(app, envelope) =>
      Some(Content(c.manifest, app, c.log + [RowFor(e, tx, |c.log|, Accepted(envelope))]))
    case Refused(rejection) =>
      if rejection.code !in e.errorCodes then None
      else
        var outcome := if rejection.phase == PreconditionPhase
                       then RejectedPrecondition(rejection) else RejectedExecution(rejection);
        Some(c.(log := c.log + [RowFor(e, tx, |c.log|, outcome)]))
  }

  function ReplayFrom(e: Engine, c: Content, txs: seq<Transaction>): Option<Content>
    decreases |txs|
  {
    if txs == [] then Some(c)
    else match ReplayFrom(e, c, txs[..|txs| - 1])
      case None => None
      case Some(before) => Apply(e, before, txs[|txs| - 1])
  }

  function Genesis(e: Engine): Content {
    Content(e.manifest, e.genesis, [])
  }

  /** The reference: apply the whole order to the empty database. */
  function Fold(e: Engine, txs: seq<Transaction>): Option<Content> {
    ReplayFrom(e, Genesis(e), txs)
  }

  // ---- what a fold is, apart from the log

  /** The program runs to its end on this application state. */
  predicate Completes(e: Engine, app: App, core: Core) {
    e.manifestOf(core) == e.manifest && e.compileError(core).None? && e.run(app, core).Completed?
  }

  /** The application state behind a list: a program that completes replaces it, any other leaves
      it as it was. */
  function StateBehind(e: Engine, txs: seq<Transaction>): App {
    if txs == [] then e.genesis
    else
      var before, core := StateBehind(e, txs[..|txs| - 1]), txs[|txs| - 1].core;
      if Completes(e, before, core) then e.run(before, core).app else before
  }

  /** Why a program that does not complete is refused: a foreign manifest before a compile error
      before what the engine says. */
  ghost predicate RefusedFor(e: Engine, app: App, core: Core, rejection: Rejection) {
    if e.manifestOf(core) != e.manifest then
      rejection == Rejection("EXECUTION_MANIFEST_DIGEST_MISMATCH", FinalizePhase, None)
    else if e.compileError(core).Some? then
      rejection == Rejection(e.compileError(core).value, FinalizePhase, None)
    else
      e.run(app, core) == Refused(rejection)
  }

  ghost predicate Registered(e: Engine, app: App, core: Core) {
    Completes(e, app, core) || exists rejection :: RefusedFor(e, app, core, rejection) && rejection.code in e.errorCodes
  }

  /** The outcome a row must record for a program on an application state. */
  ghost predicate OutcomeFits(e: Engine, app: App, core: Core, outcome: Outcome) {
    match outcome
    case Accepted(envelope) => Completes(e, app, core) && e.run(app, core).envelope == envelope
    case RejectedPrecondition(rejection) =>
      !Completes(e, app, core) && RefusedFor(e, app, core, rejection) && rejection.phase.PreconditionPhase?
    case RejectedExecution(rejection) =>
      !Completes(e, app, core) && RefusedFor(e, app, core, rejection) && !rejection.phase.PreconditionPhase?
  }

  /** Row `i` says who wrote transaction `i`, when, with what content, and how it ended on the
      application state the transactions before it left. */
  ghost predicate RowFits(e: Engine, txs: seq<Transaction>, i: nat, row: Row)
    requires i < |txs|
  {
    var tx := txs[i];
    && row.txId == tx.txId && row.orderIndex == i
    && row.authorId == e.author(tx.core) && row.authorTimestampMs == e.timestamp(tx.core)
    && row.authorFeedSequence == tx.authorFeedSequence
    && row.candidateDigest == tx.candidateDigest && row.canonicalCandidate == tx.canonicalCandidate
    && OutcomeFits(e, StateBehind(e, txs[..i]), tx.core, row.outcome)
  }

  /** The program at position `i` completes, or is refused with a registered code. */
  ghost predicate RegisteredAt(e: Engine, txs: seq<Transaction>, i: nat)
    requires i < |txs|
  {
    Registered(e, StateBehind(e, txs[..i]), txs[i].core)
  }

  ghost predicate AllRegistered(e: Engine, txs: seq<Transaction>) {
    forall i :: 0 <= i < |txs| ==> RegisteredAt(e, txs, i)
  }

  ghost predicate RowsFit(e: Engine, txs: seq<Transaction>, log: seq<Row>) {
    |log| == |txs| && forall i :: 0 <= i < |txs| ==> RowFits(e, txs, i, log[i])
  }

  /** A list folds exactly when every rejection on the way has a registered code, and then the
      fold's application state is the state behind the list and its rows tell what happened. */
  lemma {:induction false} FoldMeans(e: Engine, txs: seq<Transaction>)
    ensures Fold(e, txs).Some? <==> AllRegistered(e, txs)
    ensures Fold(e, txs).Some? ==>
              Fold(e, txs).value.app == StateBehind(e, txs) && RowsFit(e, txs, Fold(e, txs).value.log)
  {
    hide Registered, AllRegistered, RowsFit, RowFits, Apply, Completes;
    if txs == [] {
      assert AllRegistered(e, txs) && RowsFit(e, txs, []) by { NothingToFit(e); }
    } else {
      var front := txs[..|txs| - 1];
      FoldMeans(e, front);
      RegisteredSplit(e, txs);
      if Fold(e, front).Some? {
        var c := Fold(e, front).value;
        assert |c.log| == |front| by { FoldRecords(e, front); }
        ApplyMeans(e, txs, c);
        if Fold(e, txs).Some? { RowsFitGrow(e, txs, c.log, Fold(e, txs).value.log); }
      }
    }
  }

  lemma NothingToFit(e: Engine)
    ensures AllRegistered(e, []) && RowsFit(e, [], [])
  {
  }

  lemma RegisteredSplit(e: Engine, txs: seq<Transaction>)
    requires txs != []
    ensures AllRegistered(e, txs) <==>
              AllRegistered(e, txs[..|txs| - 1])
              && Registered(e, StateBehind(e, txs[..|txs| - 1]), txs[|txs| - 1].core)
  {
    hide Registered, StateBehind;
    var front := txs[..|txs| - 1];
    forall i | 0 <= i < |front| ensures RegisteredAt(e, front, i) <==> RegisteredAt(e, txs, i) {
      assert front[..i] == txs[..i];
    }
    assert RegisteredAt(e, txs, |front|) <==> Registered(e, StateBehind(e, front), txs[|front|].core);
  }

  lemma RowsFitGrow(e: Engine, txs: seq<Transaction>, before: seq<Row>, log: seq<Row>)
    requires txs != [] && RowsFit(e, txs[..|txs| - 1], before)
    requires |log| == |txs| && log[..|txs| - 1] == before && RowFits(e, txs, |txs| - 1, log[|txs| - 1])
    ensures RowsFit(e, txs, log)
  {
    hide RowFits;
    forall i | 0 <= i < |txs| - 1 ensures RowFits(e, txs, i, log[i]) {
      assert log[i] == before[i];
      RowFitsFront(e, txs, i, log[i]);
    }
  }

  lemma RowFitsFront(e: Engine, txs: seq<Transaction>, i: nat, row: Row)
    requires i < |txs| - 1
    ensures RowFits(e, txs[..|txs| - 1], i, row) <==> RowFits(e, txs, i, row)
  {
    hide OutcomeFits;
    assert txs[..|txs| - 1][..i] == txs[..i];
  }

  lemma ApplyMeans(e: Engine, txs: seq<Transaction>, c: Content)
    requires txs != [] && c.app == StateBehind(e, txs[..|txs| - 1]) && |c.log| == |txs| - 1
    ensures Apply(e, c, txs[|c.log|]).Some? <==> Registered(e, c.app, txs[|c.log|].core)
    ensures Apply(e, c, txs[|c.log|]).Some? ==>
              var after := Apply(e, c, txs[|c.log|]).value;
              && after.app == StateBehind(e, txs) && |after.log| == |txs| && after.log[..|c.log|] == c.log
              && RowFits(e, txs, |c.log|, after.log[|c.log|])
  {
    var core := txs[|c.log|].core;
    if Execute(e, c.app, core).Refused? {
      assert RefusedFor(e, c.app, core, Execute(e, c.app, core).rejection);
    }
  }

  /** What a reader may rely on in a row: the digest is that of the canonical bytes, and these are
      the encoding of a program that compiles, by the author and at the time the row names. */
  ghost predicate RowGenuine(e: Engine, row: Row, core: Core) {
    && row.txId != [] && 0 <= row.authorFeedSequence <= MAX_FEED_SEQUENCE
    && row.candidateDigest == e.digest(row.canonicalCandidate) && row.canonicalCandidate == e.encode(core)
    && e.compileError(core).None? && row.authorId == e.author(core) && row.authorTimestampMs == e.timestamp(core)
  }

  ghost predicate HasGenuineCore(e: Engine, row: Row) { exists core :: RowGenuine(e, row, core) }

  /** Every row of the fold of a valid list is genuine, no id occurs twice, and timestamps ascend. */
  lemma LogGenuine(e: Engine, txs: seq<Transaction>)
    requires ValidSet(e, txs) && Fold(e, txs).Some?
    ensures var log := Fold(e, txs).value.log;
            && (forall i :: 0 <= i < |log| ==> HasGenuineCore(e, log[i]))
            && (forall i, j :: 0 <= i < j < |log| ==> log[i].txId != log[j].txId)
            && (forall i :: 0 < i < |log| ==> log[i - 1].authorTimestampMs <= log[i].authorTimestampMs)
  {
    hide Fold, RowFits, WellFormed, HasGenuineCore, CompareKeys;
    FoldMeans(e, txs);
    var log := Fold(e, txs).value.log;
    forall i | 0 <= i < |log|
      ensures HasGenuineCore(e, log[i]) && log[i].txId == Ids(txs)[i]
      ensures log[i].authorTimestampMs == KeyOf(e, txs[i]).authorTimestampMs
    {
      GenuineRow(e, txs, i, log[i]);
    }
    forall i | 0 < i < |log| ensures log[i - 1].authorTimestampMs <= log[i].authorTimestampMs {
      TimestampFirst(KeyOf(e, txs[i - 1]), KeyOf(e, txs[i]));
    }
  }

  lemma GenuineRow(e: Engine, txs: seq<Transaction>, i: nat, row: Row)
    requires i < |txs| && RowFits(e, txs, i, row) && WellFormed(e, txs[i])
    ensures HasGenuineCore(e, row) && row.txId == txs[i].txId && row.authorTimestampMs == e.timestamp(txs[i].core)
  {
    hide OutcomeFits;
    assert RowGenuine(e, row, txs[i].core);
  }

  /** A row identifies exactly the transaction it would be written for. */
  lemma IdentityMeans(e: Engine, row: Row, tx: Transaction)
    ensures SameIdentity(e, row, tx) <==> row == RowFor(e, tx, row.orderIndex, row.outcome)
  {
    hide CompareKeys;
    KeysTotallyOrdered(row.Key(), KeyOf(e, tx));
  }

  lemma {:induction false} ReplayInTwoParts(e: Engine, c: Content, a: seq<Transaction>, b: seq<Transaction>)
    ensures ReplayFrom(e, c, a + b) ==
            (match ReplayFrom(e, c, a) case None => None case Some(mid) => ReplayFrom(e, mid, b))
    decreases |b|
  {
    if b == [] {
      assert a + b == a;
    } else {
      var front := b[..|b| - 1];
      assert (a + b)[..|a + b| - 1] == a + front;
      ReplayInTwoParts(e, c, a, front);
    }
  }

  /** The log of a fold records exactly the folded transactions, at consecutive indices. */
  lemma {:induction false} FoldRecords(e: Engine, txs: seq<Transaction>)
    requires Fold(e, txs).Some?
    ensures |Fold(e, txs).value.log| == |txs| && Records(e, Fold(e, txs).value.log, txs)
    ensures Fold(e, txs).value.manifest == e.manifest
    ensures forall i :: 0 <= i < |txs| ==> Fold(e, txs).value.log[i].orderIndex == i
    ensures forall i :: 0 <= i < |txs| && !Fold(e, txs).value.log[i].outcome.Accepted?
              ==> Fold(e, txs).value.log[i].outcome.rejection.code in e.errorCodes
  {
    hide SameIdentity, RowFor, Execute;
    if txs != [] {
      var front, last := txs[..|txs| - 1], txs[|txs| - 1];
      FoldRecords(e, front);
      ApplyAppends(e, Fold(e, front).value, last);
    }
  }

  lemma ApplyAppends(e: Engine, c: Content, tx: Transaction)
    requires Apply(e, c, tx).Some?
    ensures var after := Apply(e, c, tx).value;
            && after.manifest == c.manifest && |after.log| == |c.log| + 1 && after.log[..|c.log|] == c.log
            && SameIdentity(e, after.log[|c.log|], tx) && after.log[|c.log|].orderIndex == |c.log|
            && (!after.log[|c.log|].outcome.Accepted? ==> after.log[|c.log|].outcome.rejection.code in e.errorCodes)
  {
    hide CompareKeys;
    KeysTotallyOrdered(KeyOf(e, tx), KeyOf(e, tx));
  }

  /** Folding a prefix gives a prefix of the log. */
  lemma {:induction false} FoldPrefix(e: Engine, txs: seq<Transaction>, n: nat)
    requires Fold(e, txs).Some? && n <= |txs|
    ensures Fold(e, txs[..n]).Some?
    ensures |Fold(e, txs[..n]).value.log| == n <= |Fold(e, txs).value.log|
    ensures Fold(e, txs[..n]).value.log == Fold(e, txs).value.log[..n]
  {
    FoldRecords(e, txs);
    if n == |txs| {
      assert txs[..n] == txs;
    } else {
      var front := txs[..|txs| - 1];
      FoldPrefix(e, front, n);
      assert front[..n] == txs[..n];
      FoldRecords(e, front);
    }
  }

  /** A log pins down the transactions it records: the canonical bytes determine the core. */
  lemma RecordsDetermine(e: Engine, log: seq<Row>, a: seq<Transaction>, b: seq<Transaction>)
    requires EncodingInjective(e)
    requires Records(e, log, a) && Records(e, log, b)
    requires forall i :: 0 <= i < |a| ==> WellFormed(e, a[i])
    requires forall i :: 0 <= i < |b| ==> WellFormed(e, b[i])
    ensures a == b
  {
    forall i | 0 <= i < |a| ensures a[i] == b[i] {
      assert SameIdentity(e, log[i], a[i]) && SameIdentity(e, log[i], b[i]);
      IdentityDetermines(e, log[i], a[i], b[i]);
    }
  }

  lemma IdentityDetermines(e: Engine, row: Row, a: Transaction, b: Transaction)
    requires EncodingInjective(e) && SameIdentity(e, row, a) && SameIdentity(e, row, b)
    requires WellFormed(e, a) && WellFormed(e, b)
    ensures a == b
  {
    hide CompareKeys;
    assert e.encode(a.core) == e.encode(b.core);
  }

  lemma OriginIsPrefix(e: Engine, log: seq<Row>, origin: seq<Transaction>, txs: seq<Transaction>, n: nat)
    requires EncodingInjective(e) && ValidSet(e, origin) && ValidSet(e, txs) && n <= |txs|
    requires Records(e, log, origin) && Records(e, log, txs[..n])
    ensures origin == txs[..n]
  {
    hide EncodingInjective, Records, WellFormed;
    RecordsDetermine(e, log, origin, txs[..n]);
  }

  /** A content some valid transaction list folds to. */
  ghost predicate FoldsTo(e: Engine, txs: seq<Transaction>, c: Content) {
    ValidSet(e, txs) && Fold(e, txs) == Some(c)
  }

  ghost predicate Genuine(e: Engine, c: Content) {
    exists txs :: FoldsTo(e, txs, c)
  }

  /** Replaying the rest of an order from any genuine content whose log records the start of
      that order gives the fold of the whole order: it does not matter which base was used. */
  lemma AnyVerifiedBaseGivesTheFold(e: Engine, base: Content, txs: seq<Transaction>, n: nat)
    requires EncodingInjective(e)
    requires Genuine(e, base) && ValidSet(e, txs) && n <= |txs|
    requires Records(e, base.log, txs[..n])
    ensures Fold(e, txs[..n]) == Some(base)
    ensures ReplayFrom(e, base, txs[n..]) == Fold(e, txs)
  {
    hide EncodingInjective, Records, ReplayFrom;
    var origin :| FoldsTo(e, origin, base);
    FoldRecords(e, origin);
    OriginIsPrefix(e, base.log, origin, txs, n);
    ReplayInTwoParts(e, Genesis(e), txs[..n], txs[n..]);
    assert txs[..n] + txs[n..] == txs;
  }

  /** A checkpoint of `prefix` that no later order can start with: the current order has an
      element outside the checkpoint in front of one inside it. */
  ghost predicate Dead(prefix: seq<Bytes>, order: seq<Bytes>) {
    exists i, j :: 0 <= i < j < |order| && order[i] !in prefix && order[j] in prefix
  }

  ghost predicate IsPrefix(a: seq<Bytes>, b: seq<Bytes>) {
    |a| <= |b| && a == b[..|a|]
  }

  lemma DeadForever(prefix: seq<Bytes>, order: seq<Bytes>, later: seq<Bytes>)
    requires Dead(prefix, order) && Subsequence(order, later)
    ensures Dead(prefix, later)
  {
    var i, j :| 0 <= i < j < |order| && order[i] !in prefix && order[j] in prefix;
    var p, q := SubsequenceKeepsOrder(order, later, i, j);
  }

  lemma DeadIsNoPrefix(prefix: seq<Bytes>, order: seq<Bytes>)
    requires Dead(prefix, order) && Distinct(order)
    ensures !IsPrefix(prefix, order)
  {
    var i, j :| 0 <= i < j < |order| && order[i] !in prefix && order[j] in prefix;
    var k :| 0 <= k < |prefix| && prefix[k] == order[j];
    if |prefix| <= |order| {
      if k == j {
        assert prefix[i] in prefix;
      } else {
        assert order[..|prefix|][k] == order[k] != order[j];
      }
    }
  }

  /** A checkpoint above the first changed index is dead under the new order. */
  lemma CheckpointAboveChangeIsDead(order: seq<Bytes>, next: seq<Bytes>, d: nat, n: nat)
    requires Subsequence(order, next) && Distinct(order) && Distinct(next)
    requires FirstDifference(order, next, d)
    requires d < n <= |order|
    ensures Dead(order[..n], next)
  {
    DifferenceIsInsertion(order, next, d);
    var q :| d < q < |next| && next[q] == order[d];
    assert order[..n][d] == order[d];
    assert next[d] !in order[..n];
  }

  /** A checkpoint that survived above an insertion matches no later order, so the replay base
      check refuses it in every later call. */
  lemma SurvivingCheckpointNeverMatches(order: seq<Bytes>, next: seq<Bytes>, later: seq<Bytes>, d: nat, n: nat)
    requires Subsequence(order, next) && Distinct(order) && Distinct(next)
    requires FirstDifference(order, next, d)
    requires d < n <= |order|
    requires Subsequence(next, later) && Distinct(later)
    ensures !IsPrefix(order[..n], later)
  {
    CheckpointAboveChangeIsDead(order, next, d, n);
    DeadForever(order[..n], next, later);
    DeadIsNoPrefix(order[..n], later);
  }
}
