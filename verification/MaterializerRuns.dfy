/** Whole runs of the materializer: submissions with any fault anywhere, processes killed and
    restarted at will. */
module MaterializerRuns {
  import opened Bytes
  import opened Sequences
  import opened Replay
  import opened Repository
  import opened MaterializerChecks
  import opened Materializer

  datatype Command = Submit(txs: seq<Transaction>, plan: Plan) | Restart

  /** What the environment gets back. A process that was killed is restarted. */
  datatype Reply = Restarted | Replied(result: Result)

  predicate Acknowledged(r: Reply) { r.Replied? && (r.result.Published? || r.result.Unchanged?) }

  predicate WasPublished(r: Reply) { r.Replied? && r.result.Published? }

  predicate FaultFree(c: Command) { c.Submit? && c.plan.fault == NoFault && c.plan.deletions.None? }

  /** Since the start or the last restart no call was disturbed. */
  predicate Settled(script: seq<Command>, replies: seq<Reply>, n: nat)
    requires n <= |script| && n <= |replies|
    decreases n
  {
    n == 0 || script[n - 1].Restart? || replies[n - 1] == Replied(Killed)
    || (FaultFree(script[n - 1]) && Settled(script, replies, n - 1))
  }

  ghost predicate InScript(script: seq<Command>, tx: Transaction) {
    exists i :: 0 <= i < |script| && script[i].Submit? && tx in script[i].txs
  }

  /** A transaction id names one transaction throughout the run. */
  ghost predicate IdsNameTransactions(script: seq<Command>) {
    forall a, b :: InScript(script, a) && InScript(script, b) && a.txId == b.txId ==> a == b
  }

  /** What is visible is the fold of the order that command `k` submitted (genesis before any),
      and nothing was published since. */
  ghost predicate ShownFrom(e: Engine, script: seq<Command>, replies: seq<Reply>, n: nat, view: Content, k: int)
    requires n <= |script| && n <= |replies|
  {
    && -1 <= k < n
    && (if k == -1 then view == Genesis(e) else script[k].Submit? && Fold(e, script[k].txs) == Some(view))
    && (forall j :: k < j < n ==> !WasPublished(replies[j]))
  }

  /** Every acknowledged order is still there, in place. */
  ghost predicate KeepsAcknowledged(script: seq<Command>, replies: seq<Reply>, n: nat, order: seq<Bytes>)
    requires n <= |script| && n <= |replies|
  {
    forall k :: 0 <= k < n && Acknowledged(replies[k]) ==> script[k].Submit? && Subsequence(Ids(script[k].txs), order)
  }

  /** What readers see after the first `n` commands. */
  ghost predicate Durable(e: Engine, script: seq<Command>, replies: seq<Reply>, n: nat, view: Content)
    requires n <= |script| && n <= |replies|
  {
    KeepsAcknowledged(script, replies, n, LogIds(view.log)) && exists k :: ShownFrom(e, script, replies, n, view, k)
  }

  /** What one command may do to what readers see. */
  ghost predicate Moves(e: Engine, c: Command, reply: Reply, before: Content, after: Content) {
    && Subsequence(LogIds(before.log), LogIds(after.log))
    && (c.Restart? <==> reply.Restarted?)
    && (Acknowledged(reply) ==> c.Submit? && Fold(e, c.txs) == Some(after))
    && (reply.Replied? && reply.result.Unchanged? ==> after == before)
    && (c.Submit? && reply != Replied(Killed) ==> after == before || Fold(e, c.txs) == Some(after))
  }

  /** Undisturbed, a submission succeeds exactly when its order may follow the visible one. */
  ghost predicate Answers(e: Engine, c: Command, reply: Reply, before: Content) {
    FaultFree(c) ==>
      (Acknowledged(reply) <==> Acceptable(e, before.log, LogIds(before.log), c.txs) && Fold(e, c.txs).Some?)
  }

  // ---- ids and commits

  /** Each commit is the fold of an order of the run. */
  ghost predicate CommitFrom(e: Engine, script: seq<Command>, c: Content) {
    c == Genesis(e) || exists i :: 0 <= i < |script| && script[i].Submit? && Fold(e, script[i].txs) == Some(c)
  }

  ghost predicate CommitsFrom(e: Engine, script: seq<Command>, commits: seq<Content>) {
    forall i :: 0 <= i < |commits| ==> CommitFrom(e, script, commits[i])
  }

  lemma RowIdentity(e: Engine, a: Row, b: Row, tx: Transaction)
    requires SameIdentity(e, a, tx) && SameIdentity(e, b, tx)
    ensures Identity(a) == Identity(b)
  {
  }

  /** Rows of such a commit record transactions of the run. */
  lemma RowFromScript(e: Engine, script: seq<Command>, c: Content, p: nat) returns (tx: Transaction)
    requires CommitFrom(e, script, c) && p < |c.log|
    ensures InScript(script, tx) && SameIdentity(e, c.log[p], tx)
  {
    hide Fold, SameIdentity;
    var i :| 0 <= i < |script| && script[i].Submit? && Fold(e, script[i].txs) == Some(c);
    FoldRecords(e, script[i].txs);
    tx := script[i].txs[p];
    assert tx in script[i].txs;
  }

  lemma CommitsIdentify(e: Engine, script: seq<Command>, commits: seq<Content>)
    requires IdsNameTransactions(script) && CommitsFrom(e, script, commits)
    ensures IdsIdentify(commits)
  {
    hide CommitFrom, InScript, SameIdentity, Identity;
    forall i, j | 0 <= i < |commits| && 0 <= j < |commits| ensures RowsAgree(commits[i].log, commits[j].log) {
      var a, b := commits[i].log, commits[j].log;
      forall p, q | 0 <= p < |a| && 0 <= q < |b| && a[p].txId == b[q].txId ensures Identity(a[p]) == Identity(b[q]) {
        var x := RowFromScript(e, script, commits[i], p);
        var y := RowFromScript(e, script, commits[j], q);
        assert x.txId == y.txId by { SameId(e, a[p], x); SameId(e, b[q], y); }
        RowIdentity(e, a[p], b[q], x);
      }
    }
  }

  lemma SameId(e: Engine, row: Row, tx: Transaction)
    requires SameIdentity(e, row, tx)
    ensures row.txId == tx.txId
  {
  }

  lemma CommitsStayFrom(e: Engine, script: seq<Command>, before: seq<Content>, after: seq<Content>, k: nat)
    requires CommitsFrom(e, script, before) && k < |script| && script[k].Submit?
    requires Grown(e, before, after, script[k].txs)
    ensures CommitsFrom(e, script, after)
  {
    forall i | 0 <= i < |after| ensures CommitFrom(e, script, after[i]) {
      if i < |before| { assert after[i] == after[..|before|][i] == before[i]; }
    }
  }

  // ---- one submission

  /** The orders whose folds the readers and the head show. */
  ghost predicate Shows(m: DeterministicMaterializer, shown: seq<Transaction>, headed: seq<Transaction>)
    reads m
  {
    && m.Valid() && Head in m.branches && m.branches[Head] < |m.commits|
    && Fold(m.e, shown) == Some(m.Visible()) && Fold(m.e, headed) == Some(m.commits[m.branches[Head]])
    && Subsequence(Ids(shown), Ids(headed)) && m.order == Ids(shown)
  }

  method Submission(m: DeterministicMaterializer, txs: seq<Transaction>, plan: Plan,
                    ghost shown: seq<Transaction>, ghost headed: seq<Transaction>)
    returns (r: Result, ghost nowShown: seq<Transaction>, ghost nowHeaded: seq<Transaction>)
    requires Shows(m, shown, headed)
    modifies m
    ensures Shows(m, nowShown, nowHeaded)
    ensures (nowShown == shown || nowShown == txs) && (nowHeaded == headed || nowHeaded == txs)
    ensures Subsequence(Ids(shown), Ids(nowShown))
    ensures r.Published? ==> nowShown == txs && nowHeaded == txs
    ensures r.Unchanged? ==>
              Ids(txs) == Ids(shown) && Fold(m.e, txs) == Some(m.Visible()) && m.Visible() == old(m.Visible())
    ensures nowShown == shown ==> m.Visible() == old(m.Visible())
    ensures Grown(m.e, old(m.commits), m.commits, txs)
    ensures old(m.Clean()) && plan.fault == NoFault && plan.deletions.None? ==>
              m.Clean()
              && (r.Published? || r.Unchanged? <==>
                   Acceptable(m.e, old(m.log), old(m.order), txs) && Fold(m.e, txs).Some?)
  {
    hide EncodingInjective, Fold, RepositoryOk, HeadAgrees, CheckpointsOk, Subsequence, Acceptable, EventFits;
    ghost var before, revision, wasOrder := m.commits, m.published.revision, m.order;
    r := m.Materialize(txs, plan);
    HeadResolves(m);
    assert forall i :: 0 <= i < |before| ==> m.commits[i] == m.commits[..|before|][i] == before[i];
    nowShown, nowHeaded := shown, headed;
    SubsequenceReflexive(Ids(shown));
    SubsequenceReflexive(Ids(txs));
    if HeadHolds(m.e, m.branches, m.commits, txs, revision + 1) && Subsequence(wasOrder, Ids(txs)) {
      nowHeaded := txs;
      if m.reader == m.branches[Head] { nowShown := txs; }
    }
    VisibleOrder(m, nowShown);
  }

  lemma VisibleOrder(m: DeterministicMaterializer, shown: seq<Transaction>)
    requires m.Valid() && Fold(m.e, shown) == Some(m.Visible())
    ensures m.order == Ids(shown)
  {
    hide EncodingInjective, Fold, RepositoryOk, HeadAgrees, CheckpointsOk;
    FoldRecords(m.e, shown);
    LogIdsOfRecorded(m.e, m.log, shown);
  }

  // ---- runs

  /** The orders shown and headed come from commands since which nothing was published. */
  ghost predicate Origin(script: seq<Command>, replies: seq<Reply>, n: nat, txs: seq<Transaction>, k: int)
    requires n <= |script| && n <= |replies|
  {
    && -1 <= k < n
    && (if k == -1 then txs == [] else script[k].Submit? && script[k].txs == txs)
    && (forall j :: k < j < n ==> !WasPublished(replies[j]))
  }

  lemma OriginShows(e: Engine, script: seq<Command>, replies: seq<Reply>, n: nat, txs: seq<Transaction>, k: int,
      view: Content)
    requires n <= |script| && n <= |replies| && Origin(script, replies, n, txs, k) && Fold(e, txs) == Some(view)
    requires KeepsAcknowledged(script, replies, n, Ids(txs))
    ensures Durable(e, script, replies, n, view)
  {
    hide Fold, KeepsAcknowledged;
    InitialFold(e);
    FoldRecords(e, txs);
    LogIdsOfRecorded(e, view.log, txs);
    assert ShownFrom(e, script, replies, n, view, k);
  }

  /** A reply more: the origin stays unless the command's own order took over. */
  lemma NextOrigin(script: seq<Command>, replies: seq<Reply>, n: nat, was: seq<Transaction>, wasAt: int,
      now: seq<Transaction>, nowAt: int,
                   reply: Reply)
    requires n < |script| && |replies| == n && Origin(script, replies, n, was, wasAt)
    requires now == was || (script[n].Submit? && now == script[n].txs)
    requires nowAt == if script[n].Submit? && now == script[n].txs then n else wasAt
    requires WasPublished(reply) ==> script[n].Submit? && now == script[n].txs
    ensures Origin(script, replies + [reply], n + 1, now, nowAt)
  {
  }

  lemma AcknowledgedStay(script: seq<Command>, replies: seq<Reply>, n: nat, before: seq<Bytes>, after: seq<Bytes>,
      reply: Reply)
    requires n < |script| && |replies| == n && KeepsAcknowledged(script, replies, n, before)
    requires Subsequence(before, after)
    requires Acknowledged(reply) ==> script[n].Submit? && Subsequence(Ids(script[n].txs), after)
    ensures KeepsAcknowledged(script, replies + [reply], n + 1, after)
  {
    hide Subsequence;
    var longer := replies + [reply];
    forall k | 0 <= k < n + 1 && Acknowledged(longer[k])
      ensures script[k].Submit? && Subsequence(Ids(script[k].txs), after)
    {
      if k < n { SubsequenceTransitive(Ids(script[k].txs), before, after); }
    }
  }

  lemma AcknowledgedGrow(script: seq<Command>, replies: seq<Reply>, n: nat, before: seq<Bytes>, after: seq<Bytes>)
    requires n <= |script| && n <= |replies| && KeepsAcknowledged(script, replies, n, before)
    requires Subsequence(before, after)
    ensures KeepsAcknowledged(script, replies, n, after)
  {
    hide Subsequence;
    forall k | 0 <= k < n && Acknowledged(replies[k])
      ensures script[k].Submit? && Subsequence(Ids(script[k].txs), after)
    {
      SubsequenceTransitive(Ids(script[k].txs), before, after);
    }
  }

  lemma ShownOrder(m: DeterministicMaterializer, shown: seq<Transaction>, headed: seq<Transaction>)
    requires Shows(m, shown, headed)
    ensures m.Valid() && LogIds(m.Visible().log) == m.order == Ids(shown) && m.Visible().log == m.log
    ensures Fold(m.e, shown) == Some(m.Visible()) && Subsequence(Ids(shown), Ids(headed))
    ensures Head in m.branches && m.branches[Head] < |m.commits|
    ensures Fold(m.e, headed) == Some(m.commits[m.branches[Head]])
  {
    hide EncodingInjective, Fold, RepositoryOk, HeadAgrees, CheckpointsOk, Subsequence;
  }

  lemma SettledPrefix(script: seq<Command>, replies: seq<Reply>, reply: Reply, n: nat)
    requires n <= |script| && n <= |replies|
    ensures Settled(script, replies + [reply], n) <==> Settled(script, replies, n)
    decreases n
  {
    if n > 0 { SettledPrefix(script, replies, reply, n - 1); }
  }

  /** A process and the run that led to it. */
  ghost predicate Running(m: DeterministicMaterializer, e: Engine, script: seq<Command>, replies: seq<Reply>, n: nat,
                          shown: seq<Transaction>, headed: seq<Transaction>, shownAt: int, headedAt: int)
    requires n <= |script| && n <= |replies|
    reads m
  {
    && m.e == e && Shows(m, shown, headed) && CommitsFrom(e, script, m.commits)
    && Origin(script, replies, n, shown, shownAt) && Origin(script, replies, n, headed, headedAt)
    && KeepsAcknowledged(script, replies, n, Ids(shown))
    && (IdsNameTransactions(script) && Settled(script, replies, n) ==> m.Clean())
  }

  /** A new process over what the old one left. */
  method Reopen(e: Engine, checkpointEvery: nat, retainCheckpoints: nat, m: DeterministicMaterializer,
      ghost script: seq<Command>,
                ghost shown: seq<Transaction>, ghost headed: seq<Transaction>)
    returns (next: DeterministicMaterializer)
    requires EncodingInjective(e) && DigestCollisionFree(e) && checkpointEvery >= 1 && retainCheckpoints >= 1
    requires m.e == e && Shows(m, shown, headed) && CommitsFrom(e, script, m.commits)
    ensures fresh(next) && next.e == e && Shows(next, headed, headed) && next.commits == m.commits
    ensures IdsNameTransactions(script) ==> next.Clean()
    ensures next.Visible() == m.commits[m.branches[Head]]
  {
    hide EncodingInjective, DigestCollisionFree, DiskOk, Fold, RepositoryOk, HeadAgrees, CheckpointsOk, CommitsFrom,
      IdsNameTransactions, Subsequence, IdsIdentify;
    ValidDisk(m);
    if IdsNameTransactions(script) { CommitsIdentify(e, script, m.commits); }
    var reopened := Open(e, checkpointEvery, retainCheckpoints, Disk(m.branches, m.commits));
    next := reopened;
    HeadResolves(next);
    SubsequenceReflexive(Ids(headed));
    VisibleOrder(next, headed);
  }

  /** Any run. Whatever happens, what readers see is the fold from genesis of one submitted order,
      the last published one or a later one; it holds every order that was ever acknowledged, and
      never loses a transaction; and an undisturbed process, also one just restarted, accepts
      exactly the orders that may follow. */
  method Drive(e: Engine, checkpointEvery: nat, retainCheckpoints: nat, script: seq<Command>)
    returns (replies: seq<Reply>, views: seq<Content>)
    requires EncodingInjective(e) && DigestCollisionFree(e)
    requires checkpointEvery >= 1 && retainCheckpoints >= 1
    ensures |replies| == |script| && |views| == |script| + 1 && views[0] == Genesis(e)
    ensures forall n :: 0 <= n <= |script| ==> Durable(e, script, replies, n, views[n])
    ensures forall n :: 0 <= n < |script| ==> Moves(e, script[n], replies[n], views[n], views[n + 1])
    ensures IdsNameTransactions(script) ==>
              forall n ::
                0 <= n < |script| && Settled(script, replies, n) ==> Answers(e, script[n], replies[n], views[n])
  {
    hide EncodingInjective, DigestCollisionFree, Fold, RepositoryOk, HeadAgrees, CheckpointsOk, Shows, CommitsFrom,
      Origin, KeepsAcknowledged,
      IdsNameTransactions, Settled, Durable, Moves, Answers;
    var m, shown, headed, shownAt, headedAt := First(e, checkpointEvery, retainCheckpoints, script);
    replies, views := [], [Genesis(e)];
    OriginShows(e, script, [], 0, shown, shownAt, Genesis(e));
    for n := 0 to |script|
      invariant |replies| == n && |views| == n + 1 && views[0] == Genesis(e)
      invariant fresh(m) && Running(m, e, script, replies, n, shown, headed, shownAt, headedAt) && m.Valid()
      invariant views[n] == m.Visible()
      invariant forall i :: 0 <= i <= n ==> Durable(e, script, replies, i, views[i])
      invariant forall i :: 0 <= i < n ==> Moves(e, script[i], replies[i], views[i], views[i + 1])
      invariant IdsNameTransactions(script) ==>
                  forall i :: 0 <= i < n && Settled(script, replies, i) ==> Answers(e, script[i], replies[i], views[i])
    {
      var reply;
      ghost var before := views[n];
      m, reply, shown, headed, shownAt, headedAt := Next(m, e, checkpointEvery, retainCheckpoints, script, replies, n,
          shown, headed, shownAt, headedAt);
      forall i | 0 <= i <= n
        ensures Durable(e, script, replies + [reply], i, views[i])
        ensures (Settled(script, replies + [reply], i) <==> Settled(script, replies, i))
      {
        DurableStays(e, script, replies, reply, i, views[i]);
        SettledPrefix(script, replies, reply, i);
      }
      replies, views := replies + [reply], views + [m.Visible()];
      OriginShows(e, script, replies, n + 1, shown, shownAt, m.Visible());
    }
  }

  lemma DurableStays(e: Engine, script: seq<Command>, replies: seq<Reply>, reply: Reply, n: nat, view: Content)
    requires n <= |script| && n <= |replies| && Durable(e, script, replies, n, view)
    ensures Durable(e, script, replies + [reply], n, view)
  {
    hide Fold;
    var k :| ShownFrom(e, script, replies, n, view, k);
    assert ShownFrom(e, script, replies + [reply], n, view, k);
  }

  method First(e: Engine, checkpointEvery: nat, retainCheckpoints: nat, ghost script: seq<Command>)
    returns (m: DeterministicMaterializer, ghost shown: seq<Transaction>, ghost headed: seq<Transaction>,
        ghost shownAt: int, ghost headedAt: int)
    requires EncodingInjective(e) && DigestCollisionFree(e) && checkpointEvery >= 1 && retainCheckpoints >= 1
    ensures fresh(m) && m.Valid() && Running(m, e, script, [], 0, shown, headed, shownAt, headedAt)
    ensures m.Visible() == Genesis(e)
    ensures Fold(e, shown) == Some(Genesis(e)) && KeepsAcknowledged(script, [], 0, Ids(shown))
    ensures Origin(script, [], 0, shown, shownAt)
  {
    hide EncodingInjective, DigestCollisionFree, DiskOk, Fold, RepositoryOk, HeadAgrees, CheckpointsOk,
      IdsNameTransactions;
    InitialDiskOk(e);
    var reopened := Open(e, checkpointEvery, retainCheckpoints, Disk(map[], []));
    m := reopened;
    HeadResolves(m);
    InitialFold(e);
    shown, headed, shownAt, headedAt := [], [], -1, -1;
    SubsequenceReflexive(Ids(shown));
    VisibleOrder(m, shown);
  }

  /** One command of a run. */
  method Next(was: DeterministicMaterializer, e: Engine, checkpointEvery: nat, retainCheckpoints: nat,
      script: seq<Command>,
              ghost replies: seq<Reply>, n: nat, ghost shown: seq<Transaction>, ghost headed: seq<Transaction>,
              ghost shownAt: int, ghost headedAt: int)
    returns (m: DeterministicMaterializer, reply: Reply, ghost nowShown: seq<Transaction>,
        ghost nowHeaded: seq<Transaction>,
             ghost nowShownAt: int, ghost nowHeadedAt: int)
    requires EncodingInjective(e) && DigestCollisionFree(e) && checkpointEvery >= 1 && retainCheckpoints >= 1
    requires n < |script| && |replies| == n && Running(was, e, script, replies, n, shown, headed, shownAt, headedAt)
    requires was.Valid()
    modifies was
    ensures m == was || fresh(m)
    ensures Running(m, e, script, replies + [reply], n + 1, nowShown, nowHeaded, nowShownAt, nowHeadedAt) && m.Valid()
    ensures Fold(e, nowShown) == Some(m.Visible())
    ensures Moves(e, script[n], reply, old(was.Visible()), m.Visible())
    ensures IdsNameTransactions(script) && Settled(script, replies, n) ==>
              Answers(e, script[n], reply, old(was.Visible()))
  {
    hide EncodingInjective, DigestCollisionFree, Fold, RepositoryOk, HeadAgrees, CheckpointsOk, CommitsFrom, Origin,
      KeepsAcknowledged,
      IdsNameTransactions, Subsequence, Acceptable, Grown;
    ShownOrder(was, shown, headed);
    SubsequenceReflexive(Ids(shown));
    m, nowShown, nowHeaded, nowShownAt, nowHeadedAt := was, shown, headed, shownAt, headedAt;
    reply := Restarted;
    var restart := true;
    if script[n].Submit? {
      var r;
      r, nowShown, nowHeaded := Submission(m, script[n].txs, script[n].plan, shown, headed);
      CommitsStayFrom(e, script, old(was.commits), m.commits, n);
      reply, restart := Replied(r), r.Killed?;
      nowShownAt := if nowShown == script[n].txs then n else shownAt;
      nowHeadedAt := if nowHeaded == script[n].txs then n else headedAt;
    }
    NextOrigin(script, replies, n, shown, shownAt, nowShown, nowShownAt, reply);
    NextOrigin(script, replies, n, headed, headedAt, nowHeaded, nowHeadedAt, reply);
    ShownOrder(was, nowShown, nowHeaded);
    SubsequenceReflexive(Ids(nowShown));
    AcknowledgedStay(script, replies, n, Ids(shown), Ids(nowShown), reply);
    SettledPrefix(script, replies, reply, n);
    if restart {
      AcknowledgedGrow(script, replies + [reply], n + 1, Ids(nowShown), Ids(nowHeaded));
      SubsequenceTransitive(Ids(shown), Ids(nowShown), Ids(nowHeaded));
      m := Reopen(e, checkpointEvery, retainCheckpoints, was, script, nowShown, nowHeaded);
      nowShown, nowShownAt := nowHeaded, nowHeadedAt;
      ShownOrder(m, nowShown, nowHeaded);
    }
  }
}
