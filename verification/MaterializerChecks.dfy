/** The checks `materialize` runs around a replay. Each loop is proved to decide exactly the
    property it stands for. */
module MaterializerChecks {
  import opened Bytes
  import opened Order
  import opened Sequences
  import opened Replay
  import opened Repository

  method ValidateTransaction(e: Engine, tx: Transaction) returns (error: Option<string>)
    ensures error.None? <==> WellFormed(e, tx)
  {
    if tx.txId == [] { return Some("MATERIALIZER_TRANSACTION_ID_INVALID"); }
    if tx.authorFeedSequence < 0 || tx.authorFeedSequence > MAX_FEED_SEQUENCE {
      return Some("MATERIALIZER_AUTHOR_FEED_SEQUENCE_INVALID");
    }
    if e.encode(tx.core) != tx.canonicalCandidate { return Some("MATERIALIZER_CANONICAL_CANDIDATE_MISMATCH"); }
    if e.digest(tx.canonicalCandidate) != tx.candidateDigest { return Some("MATERIALIZER_CANDIDATE_DIGEST_MISMATCH"); }
    return e.compileError(tx.core);
  }

  lemma PrefixValid(e: Engine, txs: seq<Transaction>, n: nat)
    requires n <= |txs| && ValidSet(e, txs)
    ensures ValidSet(e, txs[..n])
  {
    hide WellFormed, CompareKeys, KeyOf;
  }

  /** What one more transaction must meet. */
  lemma ValidExtends(e: Engine, txs: seq<Transaction>, n: nat)
    requires n < |txs| && ValidSet(e, txs[..n])
    ensures ValidSet(e, txs[..n + 1]) <==>
              && WellFormed(e, txs[n])
              && (n > 0 ==> Before(KeyOf(e, txs[n - 1]), KeyOf(e, txs[n])))
              && txs[n].txId !in Ids(txs[..n])
  {
    hide WellFormed, CompareKeys, KeyOf;
    var front, longer := txs[..n], txs[..n + 1];
    assert forall i :: 0 <= i < n ==> longer[i] == front[i] == txs[i];
    assert longer[n] == txs[n];
    assert forall i :: 0 <= i < n ==> Ids(longer)[i] == Ids(front)[i];
    assert Ids(longer)[n] == txs[n].txId;
  }

  method ValidateTransactionSet(e: Engine, txs: seq<Transaction>) returns (error: Option<string>)
    ensures error.None? <==> ValidSet(e, txs)
  {
    hide WellFormed, CompareKeys, KeyOf, ValidSet;
    var seen: set<Bytes> := {};
    assert ValidSet(e, txs[..0]) by { NoTransactions(e, txs[..0]); }
    for index := 0 to |txs|
      invariant ValidSet(e, txs[..index])
      invariant forall x :: x in seen <==> x in Ids(txs[..index])
    {
      ValidExtends(e, txs, index);
      if ValidSet(e, txs) { PrefixValid(e, txs, index + 1); }
      error := ValidateTransaction(e, txs[index]);
      if error.Some? { return; }
      if index > 0 && CompareKeys(KeyOf(e, txs[index - 1]), KeyOf(e, txs[index])) >= 0 {
        return Some("MATERIALIZER_ORDER_NOT_STRICT");
      }
      if txs[index].txId in seen { return Some("MATERIALIZER_DUPLICATE_TRANSACTION"); }
      seen := seen + {txs[index].txId};
      assert Ids(txs[..index + 1]) == Ids(txs[..index]) + [txs[index].txId];
    }
    assert txs[..|txs|] == txs;
    return None;
  }

  lemma NoTransactions(e: Engine, txs: seq<Transaction>)
    requires txs == []
    ensures ValidSet(e, txs)
  {
  }

  /** The greedy scan accepts exactly the subsequences: no transaction left the order and none
      changed places. */
  method EnsureMonotonicSet(previous: seq<Bytes>, next: seq<Bytes>) returns (accepted: bool)
    ensures accepted <==> Subsequence(previous, next)
  {
    var nextIndex := 0;
    ghost var at: seq<nat> := [];
    for index := 0 to |previous|
      invariant nextIndex <= |next|
      invariant Embeds(previous[..index], next, at)
      invariant forall i :: 0 <= i < index ==> at[i] < nextIndex
      invariant index < |previous| ==> forall f :: Embeds(previous, next, f) ==> nextIndex <= f[index]
    {
      while nextIndex < |next| && previous[index] != next[nextIndex]
        invariant nextIndex <= |next|
        invariant forall i :: 0 <= i < index ==> at[i] < nextIndex
        invariant forall f :: Embeds(previous, next, f) ==> nextIndex <= f[index]
      {
        nextIndex := nextIndex + 1;
      }
      if nextIndex == |next| { return false; }
      at := at + [nextIndex];
      nextIndex := nextIndex + 1;
    }
    assert previous[..|previous|] == previous;
    return true;
  }

  ghost predicate IdentityKept(e: Engine, row: Row, txs: seq<Transaction>) {
    exists i :: 0 <= i < |txs| && txs[i].txId == row.txId && SameIdentity(e, row, txs[i])
  }

  ghost predicate IdentitiesKept(e: Engine, existing: seq<Row>, txs: seq<Transaction>) {
    forall r :: 0 <= r < |existing| ==> IdentityKept(e, existing[r], txs)
  }

  method ValidateExistingIdentities(e: Engine, existing: seq<Row>, txs: seq<Transaction>) returns (kept: bool)
    requires Distinct(Ids(txs))
    ensures kept <==> IdentitiesKept(e, existing, txs)
  {
    var byId: map<Bytes, Transaction> := map[];
    for index := 0 to |txs|
      invariant forall i :: 0 <= i < index ==> txs[i].txId in byId && byId[txs[i].txId] == txs[i]
      invariant forall id :: id in byId ==> exists i :: 0 <= i < index && txs[i].txId == id
    {
      assert forall i :: 0 <= i < index ==> Ids(txs)[i] != Ids(txs)[index];
      byId := byId[txs[index].txId := txs[index]];
    }
    for r := 0 to |existing|
      invariant IdentitiesKept(e, existing[..r], txs)
    {
      if existing[r].txId !in byId || !SameIdentity(e, existing[r], byId[existing[r].txId]) { return false; }
      var i :| 0 <= i < |txs| && txs[i].txId == existing[r].txId;
      assert SameIdentity(e, existing[..r + 1][r], txs[i]);
    }
    assert existing[..|existing|] == existing;
    return true;
  }

  method EarliestDifference(previous: seq<Bytes>, next: seq<Bytes>) returns (difference: Option<nat>)
    ensures difference.None? <==> previous == next
    ensures difference.Some? ==> FirstDifference(previous, next, difference.value)
  {
    var length := if |previous| < |next| then |previous| else |next|;
    for index := 0 to length
      invariant previous[..index] == next[..index]
    {
      if previous[index] != next[index] { return Some(index); }
    }
    return if |previous| == |next| then None else Some(length);
  }

  /** The first of the longest checkpoints not beyond a length. */
  function AtOrBefore(checkpoints: seq<Checkpoint>, prefixLength: nat): Option<Checkpoint> {
    if checkpoints == [] then None
    else
      var best, cp := AtOrBefore(checkpoints[..|checkpoints| - 1], prefixLength), checkpoints[|checkpoints| - 1];
      if cp.prefixLength <= prefixLength && (best.None? || cp.prefixLength > best.value.prefixLength) then Some(cp)
      else best
  }

  method CheckpointAtOrBefore(checkpoints: seq<Checkpoint>, prefixLength: nat) returns (selected: Option<Checkpoint>)
    ensures selected == AtOrBefore(checkpoints, prefixLength)
    ensures selected.None? ==> forall cp :: cp in checkpoints ==> cp.prefixLength > prefixLength
    ensures selected.Some? ==> selected.value in checkpoints && selected.value.prefixLength <= prefixLength
    ensures selected.Some? ==> forall cp :: cp in checkpoints && cp.prefixLength <= prefixLength
                                 ==> cp.prefixLength <= selected.value.prefixLength
  {
    selected := None;
    for index := 0 to |checkpoints|
      invariant selected == AtOrBefore(checkpoints[..index], prefixLength)
      invariant selected.None? ==> forall i :: 0 <= i < index ==> checkpoints[i].prefixLength > prefixLength
      invariant selected.Some? ==> selected.value in checkpoints && selected.value.prefixLength <= prefixLength
      invariant selected.Some? ==> forall i :: 0 <= i < index && checkpoints[i].prefixLength <= prefixLength
                                     ==> checkpoints[i].prefixLength <= selected.value.prefixLength
    {
      var cp := checkpoints[index];
      assert checkpoints[..index + 1][..index] == checkpoints[..index];
      if cp.prefixLength <= prefixLength && (selected.None? || cp.prefixLength > selected.value.prefixLength) {
        selected := Some(cp);
      }
    }
    assert checkpoints[..|checkpoints|] == checkpoints;
  }

  /** A checkpoint is due when the order is a full interval beyond every retained one. */
  ghost predicate Due(checkpoints: seq<Checkpoint>, length: nat, interval: nat) {
    length >= interval && forall cp :: cp in checkpoints ==> length - cp.prefixLength >= interval
  }

  method ShouldCheckpoint(checkpoints: seq<Checkpoint>, prefixLength: nat, interval: nat) returns (due: bool)
    ensures due <==> Due(checkpoints, prefixLength, interval)
  {
    var nearest := 0;
    for index := 0 to |checkpoints|
      invariant forall i :: 0 <= i < index ==> checkpoints[i].prefixLength <= nearest
      invariant nearest == 0 || exists i :: 0 <= i < index && checkpoints[i].prefixLength == nearest
    {
      if checkpoints[index].prefixLength > nearest { nearest := checkpoints[index].prefixLength; }
    }
    return prefixLength - nearest >= interval;
  }

  ghost predicate CodesRegistered(e: Engine, log: seq<Row>) {
    forall i :: 0 <= i < |log| && !log[i].outcome.Accepted? ==> log[i].outcome.rejection.code in e.errorCodes
  }

  method VerifyLogIntegrity(e: Engine, log: seq<Row>) returns (sound: bool)
    ensures sound <==> CodesRegistered(e, log)
  {
    for index := 0 to |log|
      invariant CodesRegistered(e, log[..index])
    {
      if !log[index].outcome.Accepted? && log[index].outcome.rejection.code !in e.errorCodes { return false; }
    }
    assert log[..|log|] == log;
    return true;
  }

  /** The base log is accepted exactly when it records the first transactions of the order. */
  method VerifyReplayBase(e: Engine, baseLog: seq<Row>, txs: seq<Transaction>, prefixLength: nat)
    returns (error: Option<string>)
    requires prefixLength <= |txs|
    ensures error.None? <==> Records(e, baseLog, txs[..prefixLength])
  {
    if |baseLog| != prefixLength { return Some("MATERIALIZER_CHECKPOINT_PREFIX_LENGTH_MISMATCH"); }
    for index := 0 to prefixLength
      invariant forall i :: 0 <= i < index ==> SameIdentity(e, baseLog[i], txs[i])
    {
      if !SameIdentity(e, baseLog[index], txs[index]) {
        assert !SameIdentity(e, baseLog[index], txs[..prefixLength][index]);
        return Some("MATERIALIZER_CHECKPOINT_PREFIX_MISMATCH");
      }
    }
    return None;
  }

  method VerifyDesiredLog(e: Engine, log: seq<Row>, txs: seq<Transaction>) returns (error: Option<string>)
    ensures error.None? <==> Records(e, log, txs) && forall i :: 0 <= i < |log| ==> log[i].orderIndex == i
  {
    if |log| != |txs| { return Some("MATERIALIZER_LOG_LENGTH_MISMATCH"); }
    for index := 0 to |log|
      invariant forall i :: 0 <= i < index ==> log[i].orderIndex == i && SameIdentity(e, log[i], txs[i])
    {
      if log[index].orderIndex != index || !SameIdentity(e, log[index], txs[index]) {
        return Some("MATERIALIZER_LOG_ORDER_MISMATCH");
      }
    }
    return None;
  }

  datatype Kind = AcceptedKind | RejectedPreconditionKind | RejectedExecutionKind

  function KindOf(outcome: Outcome): Kind {
    match outcome
    case Accepted(_) => AcceptedKind
    case RejectedPrecondition(_) => RejectedPreconditionKind
    case RejectedExecution(_) => RejectedExecutionKind
  }

  datatype OutcomeChange = OutcomeChange(
    txId: Bytes, previous: Option<Kind>, current: Kind,
    previousRejectionCode: Option<string>, currentRejectionCode: Option<string>)

  /** What a reader of the log sees of one transaction: nothing, or its outcome and code. */
  function Visible(log: seq<Row>, id: Bytes): Option<(Kind, Option<string>)> {
    if log == [] then None
    else if log[|log| - 1].txId == id then Some((KindOf(log[|log| - 1].outcome), log[|log| - 1].RejectionCode()))
    else Visible(log[..|log| - 1], id)
  }

  predicate ChangeFits(change: OutcomeChange, previous: seq<Row>, current: seq<Row>) {
    && Visible(current, change.txId) == Some((change.current, change.currentRejectionCode))
    && (match Visible(previous, change.txId)
        case None => change.previous.None? && change.previousRejectionCode.None?
        case Some(seen) => change.previous == Some(seen.0) && change.previousRejectionCode == seen.1)
  }

  lemma {:induction false} VisibleAt(log: seq<Row>, i: nat)
    requires i < |log| && Distinct(LogIds(log))
    ensures Visible(log, log[i].txId) == Some((KindOf(log[i].outcome), log[i].RejectionCode()))
  {
    if i < |log| - 1 {
      assert LogIds(log)[i] != LogIds(log)[|log| - 1];
      assert forall k :: 0 <= k < |log| - 1 ==> LogIds(log[..|log| - 1])[k] == LogIds(log)[k];
      VisibleAt(log[..|log| - 1], i);
    }
  }

  /** Alike to a reader: both accepted, or both rejected in the same way with the same code. */
  predicate SameToReaders(a: Outcome, b: Outcome) {
    || (a.Accepted? && b.Accepted?)
    || (a.RejectedPrecondition? && b.RejectedPrecondition? && a.rejection.code == b.rejection.code)
    || (a.RejectedExecution? && b.RejectedExecution? && a.rejection.code == b.rejection.code)
  }

  /** A transaction that both logs have looks the same in them exactly when its outcomes are alike to
      a reader. */
  lemma LooksTheSame(previous: seq<Row>, current: seq<Row>, i: nat, j: nat)
    requires Distinct(LogIds(previous)) && Distinct(LogIds(current)) && i < |current| && j < |previous|
    requires previous[j].txId == current[i].txId
    ensures Visible(previous, current[i].txId) == Visible(current, current[i].txId) <==>
              SameToReaders(previous[j].outcome, current[i].outcome)
  {
    hide Visible, Distinct, LogIds;
    VisibleAt(current, i);
    VisibleAt(previous, j);
  }

  /** One that only the later log has always looks different. */
  lemma LooksNew(previous: seq<Row>, current: seq<Row>, i: nat)
    requires Distinct(LogIds(current)) && i < |current|
    requires forall j :: 0 <= j < |previous| ==> previous[j].txId != current[i].txId
    ensures Visible(previous, current[i].txId) != Visible(current, current[i].txId)
  {
    hide Visible, Distinct, LogIds;
    VisibleAt(current, i);
    NotVisible(previous, current[i].txId);
  }

  lemma {:induction false} NotVisible(log: seq<Row>, id: Bytes)
    requires forall j :: 0 <= j < |log| ==> log[j].txId != id
    ensures Visible(log, id).None?
  {
    if log != [] { NotVisible(log[..|log| - 1], id); }
  }

  /** A change that fits names the outcome each log records, and the codes of rejections. */
  lemma ChangeTells(change: OutcomeChange, previous: seq<Row>, current: seq<Row>, i: nat)
    requires Distinct(LogIds(previous)) && Distinct(LogIds(current)) && ChangeFits(change, previous, current)
    requires i < |current| && current[i].txId == change.txId
    ensures Tells(change.current, change.currentRejectionCode, current[i].outcome)
    ensures change.previous.None? <==> forall j :: 0 <= j < |previous| ==> previous[j].txId != change.txId
    ensures change.previous.None? ==> change.previousRejectionCode.None?
    ensures forall j :: 0 <= j < |previous| && previous[j].txId == change.txId ==>
              change.previous.Some?
              && Tells(change.previous.value, change.previousRejectionCode, previous[j].outcome)
  {
    VisibleAt(current, i);
    forall j | 0 <= j < |previous| && previous[j].txId == change.txId
      ensures change.previous.Some?
              && Tells(change.previous.value, change.previousRejectionCode, previous[j].outcome)
    {
      VisibleAt(previous, j);
    }
    if forall j :: 0 <= j < |previous| ==> previous[j].txId != change.txId { NotVisible(previous, change.txId); }
  }

  predicate Tells(kind: Kind, code: Option<string>, outcome: Outcome) {
    match outcome
    case Accepted(_) => kind.AcceptedKind? && code.None?
    case RejectedPrecondition(rejection) => kind.RejectedPreconditionKind? && code == Some(rejection.code)
    case RejectedExecution(rejection) => kind.RejectedExecutionKind? && code == Some(rejection.code)
  }

  predicate Reported(changes: seq<OutcomeChange>, id: Bytes) {
    exists k :: 0 <= k < |changes| && changes[k].txId == id
  }

  lemma ReportedAppend(changes: seq<OutcomeChange>, change: OutcomeChange, id: Bytes)
    ensures Reported(changes + [change], id) <==> Reported(changes, id) || change.txId == id
  {
    var all := changes + [change];
    assert all[|changes|] == change;
    assert forall k :: 0 <= k < |changes| ==> all[k] == changes[k];
  }

  function ChangeOf(prior: Option<(Kind, Option<string>)>, row: Row): OutcomeChange {
    OutcomeChange(row.txId, if prior.None? then None else Some(prior.value.0), KindOf(row.outcome),
                  if prior.None? then None else prior.value.1, row.RejectionCode())
  }

  /** The reported changes are exactly the transactions whose visible outcome or rejection code
      differs between the two logs, each with its old and new value, and none twice. */
  method CalculateOutcomeChanges(previous: seq<Row>, current: seq<Row>) returns (changes: seq<OutcomeChange>)
    requires Distinct(LogIds(previous)) && Distinct(LogIds(current))
    ensures forall k :: 0 <= k < |changes| ==> ChangeFits(changes[k], previous, current)
    ensures forall k, l :: 0 <= k < l < |changes| ==> changes[k].txId != changes[l].txId
    ensures forall i :: 0 <= i < |current| ==>
              (Reported(changes, current[i].txId) <==>
                Visible(previous, current[i].txId) != Visible(current, current[i].txId))
  {
    hide Visible;
    var ids := LogIds(current);
    changes := [];
    for index := 0 to |current|
      invariant forall k :: 0 <= k < |changes| ==>
                ChangeFits(changes[k], previous, current) && changes[k].txId in ids[..index]
      invariant forall k, l :: 0 <= k < l < |changes| ==> changes[k].txId != changes[l].txId
      invariant forall i :: 0 <= i < index ==>
                  (Reported(changes, ids[i]) <==> Visible(previous, ids[i]) != Visible(current, ids[i]))
    {
      var row := current[index];
      VisibleAt(current, index);
      assert ids[..index + 1] == ids[..index] + [ids[index]];
      assert ids[index] !in ids[..index];
      var prior := Visible(previous, row.txId);
      if prior.None? || prior.value.0 != KindOf(row.outcome) || prior.value.1 != row.RejectionCode() {
        var change := ChangeOf(prior, row);
        forall i | 0 <= i <= index
          ensures Reported(changes + [change], ids[i]) <==> Reported(changes, ids[i]) || i == index
        {
          ReportedAppend(changes, change, ids[i]);
        }
        changes := changes + [change];
      }
    }
  }
}
