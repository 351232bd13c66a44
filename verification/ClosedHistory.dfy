/** Closing history below a watermark: validators that persist a cutoff before they sign, the
    records they publish, and what a k-of-n watermark over those records then rules out. */
module ClosedHistory {
  import opened Bytes
  import opened ControlStoreModel
  import opened Watermark
  import Cutoffs

  /** A signed feed record; `signed` is its place in the order in which the validator fixed the
      contents of its records. */
  datatype Record =
    | Attest(signed: nat, txId: Bytes, authorTimestampMs: int, acceptedAboveMs: int)
    | Beat(signed: nat, acceptanceCutoffMs: int)

  /** Receivers count an attestation only above its own acceptance cutoff. */
  predicate Accepted(r: Record) {
    r.Attest? && r.authorTimestampMs > r.acceptedAboveMs
  }

  /** One validator. `acknowledged` is the cutoff its store last confirmed as durable; `checked`
      are candidates that passed the timestamp check and wait on other checks; `inFlight` are
      records signed and not yet on the feed. */
  datatype Validator = Validator(
    running: bool, acknowledged: Option<int>, acceptedAboveMs: int,
    checked: seq<(Bytes, int)>, inFlight: seq<Record>, feed: seq<Record>, signed: nat)

  const INITIAL := Validator(false, None, 0, [], [], [], 0)

  /** What a validator does between two suspension points. */
  datatype Step =
    | Start(recovered: int, persisted: bool)
    | Crash
    | Announce(proposed: int, persisted: bool)
    | Check(txId: Bytes, authorTimestampMs: int, proposed: int, futureLimit: int, persisted: bool)
    | Sign(check: nat)
    | Observe(record: nat, persisted: bool)
    | Publish(record: nat)
    | Idle

  function Max(a: int, b: int): int { if b > a then b else a }

  function Level(r: Record): int {
    if r.Beat? then r.acceptanceCutoffMs else r.acceptedAboveMs
  }

  function Without<T>(s: seq<T>, i: nat): seq<T>
    requires i < |s|
  {
    s[..i] + s[i + 1..]
  }

  /** Raise the cutoff in memory, then try to make it durable. */
  function Raise(n: Validator, proposed: int, persisted: bool): Validator {
    var level := Max(n.acceptedAboveMs, proposed);
    if persisted then n.(acceptedAboveMs := level, acknowledged := Some(level)) else n.(acceptedAboveMs := level)
  }

  function Apply(n: Validator, step: Step): Validator {
    match step
    case Start(recovered, persisted) =>
      // A restarted store holds at least what was acknowledged, or the start is refused.
      if n.running || !persisted || (n.acknowledged.Some? && recovered < n.acknowledged.value) then n
      else n.(running := true, acceptedAboveMs := recovered, acknowledged := Some(recovered))
    case Crash => n.(running := false, checked := [], inFlight := [])
    case Announce(proposed, persisted) =>
      if !n.running then n
      else
        var m := Raise(n, proposed, persisted);
        if !persisted then m
        else m.(inFlight := m.inFlight + [Beat(m.signed, m.acceptedAboveMs)], signed := m.signed + 1)
    case Check(txId, ts, proposed, futureLimit, persisted) =>
      if !n.running then n
      else
        var m := Raise(n, proposed, persisted);
        if !persisted || ts > futureLimit || ts <= m.acceptedAboveMs then m
        else m.(checked := m.checked + [(txId, ts)])
    case Sign(i) =>
      if !n.running || i >= |n.checked| then n
      else
        var record := Attest(n.signed, n.checked[i].0, n.checked[i].1, n.acceptedAboveMs);
        n.(checked := Without(n.checked, i), inFlight := n.inFlight + [record], signed := n.signed + 1)
    case Observe(i, persisted) =>
      if !n.running || i >= |n.feed| || Level(n.feed[i]) <= n.acceptedAboveMs then n
      else Raise(n, Level(n.feed[i]), persisted)
    case Publish(i) =>
      if i >= |n.inFlight| then n
      else n.(inFlight := Without(n.inFlight, i), feed := n.feed + [n.inFlight[i]])
    case Idle => n
  }

  function Run(steps: seq<Step>): Validator {
    if steps == [] then INITIAL else Apply(Run(steps[..|steps| - 1]), steps[|steps| - 1])
  }

  // ---- what every run of one validator keeps

  predicate Has(n: Validator, r: Record) {
    r in n.feed || r in n.inFlight
  }

  /** A counted attestation signed after a heartbeat lies above that heartbeat's cutoff. */
  ghost predicate Ordered(a: Record, b: Record) {
    && (a.signed == b.signed ==> a == b)
    && (a.Beat? && Accepted(b) && a.signed < b.signed ==> b.authorTimestampMs > a.acceptanceCutoffMs)
  }

  ghost predicate RecordOk(n: Validator, r: Record) {
    && r.signed < n.signed
    && (r.Beat? ==> n.acknowledged.Some? && r.acceptanceCutoffMs <= n.acknowledged.value)
  }

  ghost predicate Inv(n: Validator) {
    && (n.running ==> n.acknowledged.Some? && n.acceptedAboveMs >= n.acknowledged.value)
    && (forall r :: Has(n, r) ==> RecordOk(n, r))
    && (forall a, b :: Has(n, a) && Has(n, b) ==> Ordered(a, b))
  }

  /** Steps that add no record and never lower what was acknowledged keep the invariant. */
  lemma SameRecords(n: Validator, m: Validator)
    requires Inv(n) && m.signed == n.signed && (forall r :: Has(m, r) ==> Has(n, r))
    requires n.acknowledged.Some? ==> m.acknowledged.Some? && m.acknowledged.value >= n.acknowledged.value
    requires m.running ==> m.acknowledged.Some? && m.acceptedAboveMs >= m.acknowledged.value
    ensures Inv(m)
  {
    hide Ordered;
    forall r | Has(m, r) ensures RecordOk(m, r) { assert RecordOk(n, r); }
    forall a, b | Has(m, a) && Has(m, b) ensures Ordered(a, b) { assert Has(n, a) && Has(n, b); }
  }

  /** Signing one more record with the current cutoff keeps it, if a heartbeat was acknowledged. */
  lemma NewRecord(n: Validator, r: Record)
    requires Inv(n) && n.running && r.signed == n.signed && Level(r) == n.acceptedAboveMs
    requires r.Beat? ==> n.acknowledged == Some(n.acceptedAboveMs)
    ensures Inv(n.(inFlight := n.inFlight + [r], signed := n.signed + 1))
  {
    var m := n.(inFlight := n.inFlight + [r], signed := n.signed + 1);
    forall q | Has(m, q) ensures RecordOk(m, q) { if q != r { assert RecordOk(n, q); } }
    forall a, b | Has(m, a) && Has(m, b) ensures Ordered(a, b) {
      if a != r { assert RecordOk(n, a); }
      if b != r { assert RecordOk(n, b); }
      if a != r && b != r { assert Has(n, a) && Has(n, b); }
    }
  }

  lemma RaiseInv(n: Validator, proposed: int, persisted: bool)
    requires Inv(n) && n.running
    ensures Inv(Raise(n, proposed, persisted))
  {
    SameRecords(n, Raise(n, proposed, persisted));
  }

  lemma StepInv(n: Validator, step: Step)
    requires Inv(n)
    ensures Inv(Apply(n, step))
  {
    hide Inv;
    match step
    case Start(recovered, persisted) => StartInv(n, recovered, persisted);
    case Crash => assert Inv(Apply(n, step)) by { SameRecords(n, Apply(n, step)); }
    case Announce(proposed, persisted) =>
      if n.running {
        RaiseInv(n, proposed, persisted);
        var m := Raise(n, proposed, persisted);
        if persisted { NewRecord(m, Beat(m.signed, m.acceptedAboveMs)); }
      }
    case Check(txId, ts, proposed, futureLimit, persisted) =>
      if n.running {
        RaiseInv(n, proposed, persisted);
        CheckedInv(Raise(n, proposed, persisted), n.checked + [(txId, ts)]);
      }
    case Sign(i) =>
      if n.running && i < |n.checked| {
        var m := n.(checked := Without(n.checked, i));
        CheckedInv(n, m.checked);
        NewRecord(m, Attest(n.signed, n.checked[i].0, n.checked[i].1, n.acceptedAboveMs));
      }
    case Observe(i, persisted) =>
      if n.running && i < |n.feed| { RaiseInv(n, Level(n.feed[i]), persisted); }
    case Publish(i) => PublishInv(n, i);
    case Idle =>
  }

  lemma CheckedInv(n: Validator, checked: seq<(Bytes, int)>)
    requires Inv(n)
    ensures Inv(n.(checked := checked))
  {
    SameRecords(n, n.(checked := checked));
  }

  lemma StartInv(n: Validator, recovered: int, persisted: bool)
    requires Inv(n)
    ensures Inv(Apply(n, Start(recovered, persisted)))
  {
    SameRecords(n, Apply(n, Start(recovered, persisted)));
  }

  lemma PublishInv(n: Validator, i: nat)
    requires Inv(n)
    ensures Inv(Apply(n, Publish(i)))
  {
    SameRecords(n, Apply(n, Publish(i)));
  }

  lemma {:induction false} RunInv(steps: seq<Step>)
    ensures Inv(Run(steps))
  {
    if steps != [] {
      RunInv(steps[..|steps| - 1]);
      StepInv(Run(steps[..|steps| - 1]), steps[|steps| - 1]);
    }
  }

  /** A counted attestation at or below a heartbeat's cutoff. */
  predicate Covers(beat: Record, r: Record) {
    beat.Beat? && Accepted(r) && r.authorTimestampMs <= beat.acceptanceCutoffMs
  }

  /** Position `j` holds a counted attestation at or below the heartbeat at the earlier `i`. */
  ghost predicate LateAttestation(feed: seq<Record>, i: int, j: int) {
    0 <= i < j < |feed| && Covers(feed[i], feed[j])
  }

  /** Whatever a validator does, crashes included: the only way for a counted attestation to
      follow a heartbeat that covers it is that the heartbeat, signed after it, overtook it between
      signing and publishing. */
  lemma LateOnlyWhenOvertaken(steps: seq<Step>, i: int, j: int)
    requires LateAttestation(Run(steps).feed, i, j)
    ensures Run(steps).feed[j].signed < Run(steps).feed[i].signed
  {
    RunInv(steps);
    var n := Run(steps);
    assert Has(n, n.feed[i]) && Has(n, n.feed[j]);
    assert Ordered(n.feed[i], n.feed[j]);
  }

  // ---- exactly when feeds are closed

  /** No counted attestation follows, or is still to follow, a heartbeat that covers it. */
  ghost predicate FeedClosed(n: Validator) {
    && (forall i, j :: !LateAttestation(n.feed, i, j))
    && (forall i, j :: 0 <= i < |n.feed| && 0 <= j < |n.inFlight| ==> !Covers(n.feed[i], n.inFlight[j]))
  }

  /** A heartbeat that is published covers no other record in flight. */
  ghost predicate PublishWaits(n: Validator, i: nat) {
    i < |n.inFlight| ==> forall j :: 0 <= j < |n.inFlight| && j != i ==> !Covers(n.inFlight[i], n.inFlight[j])
  }

  /** Heartbeats wait for the attestations they cover. */
  ghost predicate Waits(steps: seq<Step>) {
    forall k :: 0 <= k < |steps| && steps[k].Publish? ==> PublishWaits(Run(steps[..k]), steps[k].record)
  }

  lemma PublishCloses(n: Validator, i: nat)
    requires FeedClosed(n) && i < |n.inFlight|
    ensures FeedClosed(Apply(n, Publish(i))) <==> PublishWaits(n, i)
  {
    var m := Apply(n, Publish(i));
    var r := n.inFlight[i];
    assert forall j :: 0 <= j < |m.inFlight| ==> m.inFlight[j] == n.inFlight[if j < i then j else j + 1];
    if FeedClosed(m) {
      forall j | 0 <= j < |n.inFlight| && j != i ensures !Covers(r, n.inFlight[j]) {
        assert n.inFlight[j] == m.inFlight[if j < i then j else j - 1] && m.feed[|n.feed|] == r;
      }
    }
    if PublishWaits(n, i) {
      forall a, b ensures !LateAttestation(m.feed, a, b) {
        if 0 <= a < b < |n.feed| { assert !LateAttestation(n.feed, a, b); }
      }
    }
  }

  lemma StepCloses(n: Validator, step: Step)
    requires Inv(n) && FeedClosed(n)
    ensures FeedClosed(Apply(n, step)) <==> (step.Publish? ==> PublishWaits(n, step.record))
  {
    hide Covers, LateAttestation, Inv;
    var m := Apply(n, step);
    if step.Publish? {
      if step.record < |n.inFlight| { PublishCloses(n, step.record); }
    } else {
      assert m.feed == n.feed;
      StepInv(n, step);
      forall i, j | 0 <= i < |m.feed| && 0 <= j < |m.inFlight| ensures !Covers(m.feed[i], m.inFlight[j]) {
        if j < |n.inFlight| {
          assert m.inFlight[j] == n.inFlight[j];
        } else {
          assert m.inFlight[j].signed == n.signed;
          NewNotCovered(n, m, m.feed[i], m.inFlight[j]);
        }
      }
    }
  }

  lemma NewNotCovered(n: Validator, m: Validator, beat: Record, r: Record)
    requires Inv(n) && Inv(m) && beat in n.feed && m.feed == n.feed && r in m.inFlight && r.signed == n.signed
    ensures !Covers(beat, r)
  {
    assert Has(n, beat) && RecordOk(n, beat);
    assert Has(m, beat) && Has(m, r) && Ordered(beat, r);
  }

  ghost predicate AlwaysClosed(steps: seq<Step>) {
    forall k :: 0 <= k <= |steps| ==> ClosedAfter(steps, k)
  }

  ghost predicate ClosedAfter(steps: seq<Step>, k: nat)
    requires k <= |steps|
  {
    FeedClosed(Run(steps[..k]))
  }

  lemma WaitsSplit(steps: seq<Step>)
    requires steps != []
    ensures var front, last := steps[..|steps| - 1], steps[|steps| - 1];
            Waits(steps) <==> Waits(front) && (last.Publish? ==> PublishWaits(Run(front), last.record))
  {
    hide PublishWaits, Run;
    var front := steps[..|steps| - 1];
    assert forall k :: 0 <= k < |front| ==> front[k] == steps[k] && front[..k] == steps[..k];
  }

  lemma ClosedSplit(steps: seq<Step>)
    requires steps != []
    ensures AlwaysClosed(steps) <==> AlwaysClosed(steps[..|steps| - 1]) && FeedClosed(Run(steps))
  {
    hide FeedClosed, Run, ClosedAfter;
    var front := steps[..|steps| - 1];
    forall k | 0 <= k <= |front| ensures ClosedAfter(front, k) <==> ClosedAfter(steps, k) { SameMoment(steps, k); }
    assert ClosedAfter(steps, |steps|) <==> FeedClosed(Run(steps)) by { WholeMoment(steps); }
  }

  lemma SameMoment(steps: seq<Step>, k: nat)
    requires k < |steps|
    ensures ClosedAfter(steps[..|steps| - 1], k) <==> ClosedAfter(steps, k)
  {
    hide FeedClosed, Run;
    assert steps[..|steps| - 1][..k] == steps[..k];
  }

  lemma WholeMoment(steps: seq<Step>)
    ensures ClosedAfter(steps, |steps|) <==> FeedClosed(Run(steps))
  {
    hide FeedClosed, Run;
    assert steps[..|steps|] == steps;
  }

  lemma ClosedNow(steps: seq<Step>)
    requires AlwaysClosed(steps)
    ensures FeedClosed(Run(steps))
  {
    hide FeedClosed, Run, ClosedAfter;
    WholeMoment(steps);
  }

  /** Heartbeats wait throughout a run exactly when at no moment of it a counted attestation
      follows, or is still to follow, a heartbeat that covers it. */
  lemma {:induction false} WaitsExactly(steps: seq<Step>)
    ensures Waits(steps) <==> AlwaysClosed(steps)
  {
    hide Apply, FeedClosed, PublishWaits, Waits, AlwaysClosed, Inv;
    if steps == [] {
      assert Waits(steps) && AlwaysClosed(steps) by { StartsClosed(); }
    } else {
      var front := steps[..|steps| - 1];
      WaitsExactly(front);
      WaitsSplit(steps);
      ClosedSplit(steps);
      RunInv(front);
      if Waits(front) {
        ClosedNow(front);
        StepCloses(Run(front), steps[|steps| - 1]);
      }
    }
  }

  lemma StartsClosed()
    ensures Waits([]) && AlwaysClosed([])
  {
  }

  lemma WaitingIsClosed(steps: seq<Step>)
    requires Waits(steps)
    ensures FeedClosed(Run(steps))
  {
    hide FeedClosed, Waits, AlwaysClosed;
    WaitsExactly(steps);
    ClosedNow(steps);
  }

  /** Records are published in the order they were signed. */
  predicate InOrder(steps: seq<Step>) {
    forall k :: 0 <= k < |steps| && steps[k].Publish? ==> steps[k].record == 0
  }

  ghost predicate Queued(n: Validator) {
    forall i, j :: 0 <= i < j < |n.inFlight| ==> n.inFlight[i].signed < n.inFlight[j].signed < n.signed
  }

  lemma QueueStep(n: Validator, step: Step)
    requires Inv(n) && Queued(n) && (step.Publish? ==> step.record == 0)
    ensures Queued(Apply(n, step))
  {
    var m := Apply(n, step);
    if step.Publish? && |n.inFlight| > 0 {
      assert forall i :: 0 <= i < |m.inFlight| ==> m.inFlight[i] == n.inFlight[i + 1];
    } else if !step.Publish? {
      QueuedBefore(n);
    }
  }

  lemma QueuedBefore(n: Validator)
    requires Inv(n)
    ensures forall i :: 0 <= i < |n.inFlight| ==> n.inFlight[i].signed < n.signed
  {
    assert forall i :: 0 <= i < |n.inFlight| ==> Has(n, n.inFlight[i]) && RecordOk(n, n.inFlight[i]);
  }

  lemma FirstWaits(n: Validator)
    requires Inv(n) && Queued(n)
    ensures PublishWaits(n, 0)
  {
    forall j | 0 < j < |n.inFlight| ensures !Covers(n.inFlight[0], n.inFlight[j]) {
      assert Has(n, n.inFlight[0]) && Has(n, n.inFlight[j]);
      assert Ordered(n.inFlight[0], n.inFlight[j]);
    }
  }

  /** Publishing in signing order, heartbeats wait. */
  lemma {:induction false} InOrderWaits(steps: seq<Step>)
    requires InOrder(steps)
    ensures Waits(steps) && Queued(Run(steps))
  {
    hide Apply, PublishWaits, Inv, Queued;
    if steps == [] {
      assert Queued(INITIAL) by { NothingQueued(); }
    } else {
      var n := |steps| - 1;
      var front := steps[..n];
      assert forall k :: 0 <= k < n ==> front[k] == steps[k] && front[..k] == steps[..k];
      InOrderWaits(front);
      RunInv(front);
      QueueStep(Run(front), steps[n]);
      FirstWaits(Run(front));
      assert steps[n].Publish? ==> steps[n].record == 0;
    }
  }

  lemma NothingQueued()
    ensures Queued(INITIAL)
  {
  }

  // ---- the journal under one validator

  /** What can happen to a validator process, with the outcome of each disk write. */
  datatype Event =
    | Boot(initial: int, history: nat, storeWrite: Cutoffs.Write, write: Cutoffs.Write)
    | Kill
    | SaveSnapshot
    | DamageSnapshot(file: Cutoffs.SnapshotFile)
    | Tick(nowMinusLag: int, write: Cutoffs.Write)
    | Candidate(txId: Bytes, authorTimestampMs: int, nowMinusLag: int, futureLimit: int, write: Cutoffs.Write)
    | Decide(check: nat)
    | Ingest(record: nat, write: Cutoffs.Write)
    | Send(record: nat)

  /** A validator over its cutoff files. */
  datatype Process = Process(validator: Validator, store: Cutoffs.State)

  const FRESH := Process(INITIAL, Cutoffs.State(None, Cutoffs.NoSnapshot, None))

  /** The highest cutoff among a start value and the validator's own records read back. */
  function Highest(start: int, history: seq<Record>): int {
    if history == [] then start else Max(Highest(start, history[..|history| - 1]), Level(history[|history| - 1]))
  }

  function ReadBack(feed: seq<Record>, history: nat): seq<Record> {
    if history <= |feed| then feed[..history] else feed
  }

  /** The cutoff a starting validator persists again, over a store that has started. */
  function BootCutoff(id: Bytes, feed: seq<Record>, s: Cutoffs.State, initial: int, history: nat): int {
    var held := if s.running.Some? && id in s.running.value then Max(initial, s.running.value[id]) else initial;
    Highest(held, ReadBack(feed, history))
  }

  predicate Persists(id: Bytes, p: Process, level: int, write: Cutoffs.Write) {
    Cutoffs.Acknowledges(p.store, Cutoffs.Persist(id, level, write))
  }

  function Raised(p: Process, proposed: int): int { Max(p.validator.acceptedAboveMs, proposed) }

  predicate Boots(id: Bytes, p: Process, e: Event)
    requires e.Boot?
  {
    var s := Cutoffs.Restarted(p.store, e.storeWrite);
    !p.validator.running
      && Cutoffs.Acknowledges(s,
           Cutoffs.Persist(id, BootCutoff(id, p.validator.feed, s, e.initial, e.history), e.write))
  }

  /** The step of the protocol that an event amounts to. */
  function StepOf(id: Bytes, p: Process, e: Event): Step {
    match e
    case Boot(initial, history, storeWrite, write) =>
      Start(BootCutoff(id, p.validator.feed, Cutoffs.Restarted(p.store, storeWrite), initial, history), Boots(id, p, e))
    case Kill => Crash
    case SaveSnapshot => Idle
    case DamageSnapshot(file) => Idle
    case Tick(now, write) => Announce(Max(0, now), Persists(id, p, Raised(p, Max(0, now)), write))
    case Candidate(txId, ts, now, futureLimit, write) =>
      Check(txId, ts, Max(0, now), futureLimit, Persists(id, p, Raised(p, Max(0, now)), write))
    case Decide(i) => Sign(i)
    case Ingest(i, write) => Observe(i,
        i < |p.validator.feed| && Persists(id, p, Raised(p, Level(p.validator.feed[i])), write))
    case Send(i) => Publish(i)
  }

  /** A start takes the cutoff it recovered, whatever that is. */
  function ValidatorAfter(id: Bytes, p: Process, e: Event): Validator {
    if !e.Boot? then Apply(p.validator, StepOf(id, p, e))
    else if !Boots(id, p, e) then p.validator
    else
      var level := StepOf(id, p, e).recovered;
      p.validator.(running := true, acceptedAboveMs := level, acknowledged := Some(level))
  }

  function StoreAfter(id: Bytes, p: Process, e: Event): Cutoffs.State {
    match e
    case Boot(initial, history, storeWrite, write) =>
      if p.validator.running then p.store
      else
        var s := Cutoffs.Restarted(p.store, storeWrite);
        var level := BootCutoff(id, p.validator.feed, s, initial, history);
        var t := Cutoffs.Next(s, Cutoffs.Persist(id, level, write));
        if Boots(id, p, e) then t else t.(running := None)
    case Kill => p.store.(running := None)
    case SaveSnapshot => Cutoffs.Next(p.store, Cutoffs.SnapshotSaved)
    case DamageSnapshot(file) => Cutoffs.Next(p.store, Cutoffs.SnapshotDamaged(file))
    case Tick(now, write) => Cutoffs.Next(p.store, Cutoffs.Persist(id, Raised(p, Max(0, now)), write))
    case Candidate(_, _, now, _, write) => Cutoffs.Next(p.store, Cutoffs.Persist(id, Raised(p, Max(0, now)), write))
    case Decide(_) => p.store
    case Ingest(i, write) =>
      if i < |p.validator.feed| && Level(p.validator.feed[i]) > p.validator.acceptedAboveMs
      then Cutoffs.Next(p.store, Cutoffs.Persist(id, Level(p.validator.feed[i]), write)) else p.store
    case Send(_) => p.store
  }

  function ProcessNext(id: Bytes, p: Process, e: Event): Process {
    Process(ValidatorAfter(id, p, e), StoreAfter(id, p, e))
  }

  function ProcessAfter(id: Bytes, script: seq<Event>): Process {
    if script == [] then FRESH else ProcessNext(id, ProcessAfter(id, script[..|script| - 1]), script[|script| - 1])
  }

  function StepsOf(id: Bytes, script: seq<Event>): (steps: seq<Step>)
    ensures |steps| == |script|
  {
    if script == [] then []
    else
      var front := script[..|script| - 1];
      StepsOf(id, front) + [StepOf(id, ProcessAfter(id, front), script[|script| - 1])]
  }

  /** The files hold what was acknowledged, and a running store holds just that. */
  ghost predicate Backed(id: Bytes, p: Process) {
    var n, s := p.validator, p.store;
    && Cutoffs.Sound(s) && (n.running <==> s.running.Some?)
    && (n.acknowledged.Some? ==> Cutoffs.Holds(s, id, n.acknowledged.value))
    && (n.running ==> n.acknowledged.Some? && id in s.running.value && s.running.value[id] == n.acknowledged.value)
  }

  lemma {:induction false} HighestReaches(start: int, history: seq<Record>)
    ensures Highest(start, history) >= start
    ensures forall r :: r in history ==> Highest(start, history) >= Level(r)
    ensures Highest(start, history) == start || exists r :: r in history && Level(r) == Highest(start, history)
  {
    if history != [] {
      var front, last := history[..|history| - 1], history[|history| - 1];
      HighestReaches(start, front);
      assert history == front + [last];
    }
  }

  /** A start that succeeds never comes back below what was acknowledged. */
  lemma BootBacked(id: Bytes, p: Process, e: Event)
    requires Backed(id, p) && e.Boot?
    ensures Backed(id, ProcessNext(id, p, e))
    ensures Boots(id, p, e) && p.validator.acknowledged.Some? ==>
              StepOf(id, p, e).recovered >= p.validator.acknowledged.value
  {
    hide Cutoffs.Sound, Highest;
    if !p.validator.running {
      var s := Cutoffs.Restarted(p.store, e.storeWrite);
      Cutoffs.RestartRuns(p.store, e.storeWrite);
      var ack := if p.validator.acknowledged.Some? then p.validator.acknowledged.value else 0;
      Cutoffs.StepKeeps(p.store, Cutoffs.Crash(e.storeWrite), id, ack);
      var level := BootCutoff(id, p.validator.feed, s, e.initial, e.history);
      Cutoffs.StepKeeps(s, Cutoffs.Persist(id, level, e.write), id, ack);
      var held := if s.running.Some? && id in s.running.value then Max(e.initial, s.running.value[id]) else e.initial;
      HighestReaches(held, ReadBack(p.validator.feed, e.history));
      StoppedSound(Cutoffs.Next(s, Cutoffs.Persist(id, level, e.write)));
    }
  }

  lemma StoppedSound(s: Cutoffs.State)
    ensures Cutoffs.Sound(s.(running := None))
  {
  }

  lemma PersistBacked(id: Bytes, p: Process, level: int, write: Cutoffs.Write, m: Validator)
    requires Backed(id, p) && level >= p.validator.acceptedAboveMs && Inv(p.validator)
    requires m.running == p.validator.running
    requires m.acknowledged == if Persists(id, p, level, write) then Some(level) else p.validator.acknowledged
    ensures Backed(id, Process(m, Cutoffs.Next(p.store, Cutoffs.Persist(id, level, write))))
    ensures Persists(id, p, level, write) <==>
              p.validator.running && (p.validator.acknowledged == Some(level) || write.Written?)
  {
    hide Cutoffs.Sound;
    var ack := if p.validator.acknowledged.Some? then p.validator.acknowledged.value else 0;
    Cutoffs.StepKeeps(p.store, Cutoffs.Persist(id, level, write), id, ack);
  }

  lemma StepBacked(id: Bytes, p: Process, e: Event)
    requires Backed(id, p) && Inv(p.validator)
    ensures Backed(id, ProcessNext(id, p, e))
    ensures ProcessNext(id, p, e).validator == Apply(p.validator, StepOf(id, p, e))
  {
    hide Backed, Inv, Persists, Cutoffs.Next;
    match e
    case Boot(_, _, _, _) =>
      BootBacked(id, p, e);
    case Tick(now, write) =>
      OnlyRunningPersists(id, p, Raised(p, Max(0, now)), write);
      PersistBacked(id, p, Raised(p, Max(0, now)), write, ValidatorAfter(id, p, e));
    case Candidate(_, _, now, _, write) =>
      OnlyRunningPersists(id, p, Raised(p, Max(0, now)), write);
      PersistBacked(id, p, Raised(p, Max(0, now)), write, ValidatorAfter(id, p, e));
    case Ingest(i, write) =>
      if i < |p.validator.feed| && Level(p.validator.feed[i]) > p.validator.acceptedAboveMs {
        OnlyRunningPersists(id, p, Level(p.validator.feed[i]), write);
        PersistBacked(id, p, Level(p.validator.feed[i]), write, ValidatorAfter(id, p, e));
      } else {
        QuietBacked(id, p, e);
      }
    case _ => QuietBacked(id, p, e);
  }

  lemma OnlyRunningPersists(id: Bytes, p: Process, level: int, write: Cutoffs.Write)
    requires Backed(id, p)
    ensures Persists(id, p, level, write) ==> p.validator.running
  {
  }

  lemma QuietBacked(id: Bytes, p: Process, e: Event)
    requires Backed(id, p)
    requires e.Kill? || e.SaveSnapshot? || e.DamageSnapshot? || e.Decide? || e.Send?
             || (e.Ingest?
                 && (e.record >= |p.validator.feed|
                     || Level(p.validator.feed[e.record]) <= p.validator.acceptedAboveMs))
    ensures Backed(id, ProcessNext(id, p, e))
  {
  }

  /** Over the cutoff files, with crashes, failed writes and damaged snapshots, a validator only
      ever makes the steps of the protocol, one for each event: no restart comes back below an
      acknowledged cutoff. */
  lemma {:induction false} ProcessRefines(id: Bytes, script: seq<Event>)
    ensures ProcessAfter(id, script).validator == Run(StepsOf(id, script))
    ensures Backed(id, ProcessAfter(id, script))
  {
    hide Apply, StepOf, ProcessNext, Backed;
    if script == [] {
      assert Backed(id, FRESH) by { FreshBacked(id); }
    } else {
      var front := script[..|script| - 1];
      ProcessRefines(id, front);
      RunInv(StepsOf(id, front));
      StepBacked(id, ProcessAfter(id, front), script[|script| - 1]);
      var steps := StepsOf(id, script);
      assert steps[..|steps| - 1] == StepsOf(id, front);
    }
  }

  lemma FreshBacked(id: Bytes)
    ensures Backed(id, FRESH)
  {
  }

  /** A running validator's cutoff is persisted exactly when it is the one acknowledged already or
      its write succeeds. */
  lemma PersistsExactly(id: Bytes, script: seq<Event>, proposed: int, write: Cutoffs.Write)
    ensures var p := ProcessAfter(id, script);
            Persists(id, p, Raised(p, proposed), write) <==>
              p.validator.running && (p.validator.acknowledged == Some(Raised(p, proposed)) || write.Written?)
  {
    hide ProcessAfter, Inv, Backed, Run, Cutoffs.Next, Persists;
    var p := ProcessAfter(id, script);
    ProcessRefines(id, script);
    RunInv(StepsOf(id, script));
    var level := Raised(p, proposed);
    PersistBacked(id, p, level, write,
        if Persists(id, p, level, write) then p.validator.(acknowledged := Some(level)) else p.validator);
  }

  /** The highest cutoff among the validator's own records in the history it reads back. */
  method RecoverCutoff(start: int, history: seq<Record>) returns (recovered: int)
    ensures recovered == Highest(start, history)
    ensures recovered >= start && forall r :: r in history ==> recovered >= Level(r)
    ensures recovered == start || exists r :: r in history && recovered == Level(r)
  {
    recovered := start;
    for i := 0 to |history|
      invariant recovered == Highest(start, history[..i])
    {
      assert history[..i + 1][..i] == history[..i];
      if Level(history[i]) > recovered { recovered := Level(history[i]); }
    }
    assert history[..|history|] == history;
    HighestReaches(start, history);
  }

  /** The process as it runs: the validator's fields and the cutoff store under it. */
  method DriveValidator(id: Bytes, script: seq<Event>) returns (n: Validator)
    ensures n == ProcessAfter(id, script).validator
  {
    hide ProcessNext, Cutoffs.Next, Cutoffs.OnDisk, Cutoffs.Restarted;
    n := INITIAL;
    ghost var p := FRESH;
    var store: Cutoffs.ValidatorCutoffs? := null;
    var disk := Cutoffs.Disk(Cutoffs.NoSnapshot, Cutoffs.Missing);
    Cutoffs.EmptyDirectory();
    assert script[..0] == [];
    for k := 0 to |script|
      invariant p == ProcessAfter(id, script[..k]) && n == p.validator
      invariant n.running <==> store != null
      invariant store != null ==> fresh(store) && store.Runs(p.store)
      invariant store == null ==> p.store.running.None? && Cutoffs.OnDisk(disk, p.store)
    {
      assert script[..k + 1][..k] == script[..k];
      n, store, disk := Handle(id, n, store, disk, script[k], p);
      p := ProcessNext(id, p, script[k]);
    }
    assert script[..|script|] == script;
  }

  method Handle(id: Bytes, n: Validator, was: Cutoffs.ValidatorCutoffs?, wasDisk: Cutoffs.Disk, e: Event,
      ghost p: Process)
    returns (m: Validator, store: Cutoffs.ValidatorCutoffs?, disk: Cutoffs.Disk)
    requires n == p.validator && (n.running <==> was != null)
    requires was != null ==> was.Runs(p.store)
    requires was == null ==> p.store.running.None? && Cutoffs.OnDisk(wasDisk, p.store)
    modifies was
    ensures m == ProcessNext(id, p, e).validator && (m.running <==> store != null)
    ensures store == null || store == was || fresh(store)
    ensures store != null ==> store.Runs(ProcessNext(id, p, e).store)
    ensures store == null ==>
              ProcessNext(id, p, e).store.running.None? && Cutoffs.OnDisk(disk, ProcessNext(id, p, e).store)
  {
    hide Cutoffs.Next, Cutoffs.OnDisk, Cutoffs.Restarted, Cutoffs.Acknowledges;
    m, store, disk := n, was, wasDisk;
    match e {
      case Boot(initial, history, storeWrite, write) =>
        if store == null { m, store, disk := Booting(id, n, disk, e, p); }
      case Kill =>
        if store != null { Cutoffs.StoppedOnDisk(store, p.store); disk, store := store.disk, null; }
        else { Cutoffs.StillStopped(disk, p.store); }
        m := n.(running := false, checked := [], inFlight := []);
      case SaveSnapshot =>
        if store != null {
          Cutoffs.SnapshotReplaced(store.disk, p.store, Cutoffs.SnapshotSaved);
          store.disk := store.disk.(snapshot := Cutoffs.Readable(store.cutoffs));
        } else {
          Cutoffs.StoppedStays(p.store, Cutoffs.SnapshotSaved);
        }
      case DamageSnapshot(file) =>
        Cutoffs.SnapshotReplaced(if store != null then store.disk else disk, p.store, Cutoffs.SnapshotDamaged(file));
        if store != null { store.disk := store.disk.(snapshot := file); } else { disk := disk.(snapshot := file); }
      case Tick(now, write) =>
        var ok;
        m, ok := Persisting(store, id, n, Max(0, now), write, p);
        if ok { m := m.(inFlight := m.inFlight + [Beat(m.signed, m.acceptedAboveMs)], signed := m.signed + 1); }
      case Candidate(txId, ts, now, futureLimit, write) =>
        var ok;
        m, ok := Persisting(store, id, n, Max(0, now), write, p);
        if ok && ts <= futureLimit && ts > m.acceptedAboveMs { m := m.(checked := m.checked + [(txId, ts)]); }
      case Decide(i) =>
        if store != null && i < |n.checked| {
          var record := Attest(n.signed, n.checked[i].0, n.checked[i].1, n.acceptedAboveMs);
          m := n.(checked := Without(n.checked, i), inFlight := n.inFlight + [record], signed := n.signed + 1);
        }
      case Ingest(i, write) =>
        if i < |n.feed| && Level(n.feed[i]) > n.acceptedAboveMs {
          var ok;
          m, ok := Persisting(store, id, n, Level(n.feed[i]), write, p);
        }
      case Send(i) =>
        if i < |n.inFlight| { m := n.(inFlight := Without(n.inFlight, i), feed := n.feed + [n.inFlight[i]]); }
    }
  }

  /** Construct the store, recover the highest cutoff on record, and persist it again. */
  method Booting(id: Bytes, n: Validator, wasDisk: Cutoffs.Disk, e: Event, ghost p: Process)
    returns (m: Validator, store: Cutoffs.ValidatorCutoffs?, disk: Cutoffs.Disk)
    requires e.Boot? && n == p.validator && !n.running && p.store.running.None? && Cutoffs.OnDisk(wasDisk, p.store)
    ensures m == ProcessNext(id, p, e).validator && (m.running <==> store != null) && (store != null ==> fresh(store))
    ensures store != null ==> store.Runs(ProcessNext(id, p, e).store)
    ensures store == null ==>
              ProcessNext(id, p, e).store.running.None? && Cutoffs.OnDisk(disk, ProcessNext(id, p, e).store)
  {
    hide Cutoffs.Next, Cutoffs.OnDisk, Cutoffs.Restarted, Cutoffs.Refusal;
    ghost var s := Cutoffs.Restarted(p.store, e.storeWrite);
    Cutoffs.RestartRuns(p.store, e.storeWrite);
    m := n;
    var error;
    store, error, disk := Cutoffs.Start(wasDisk, e.storeWrite, p.store);
    if store == null {
      Cutoffs.StoppedStays(s, Cutoffs.Persist(id, BootCutoff(id, n.feed, s, e.initial, e.history), e.write));
      Cutoffs.StillStopped(disk, s);
      return;
    }
    var held := if id in store.cutoffs then Max(e.initial, store.cutoffs[id]) else e.initial;
    var recovered := RecoverCutoff(held, ReadBack(n.feed, e.history));
    var ok := store.PersistValidatorCutoff(id, recovered, e.write, s);
    if ok {
      m := n.(running := true, acceptedAboveMs := recovered, acknowledged := Some(recovered));
    } else {
      Cutoffs.StoppedOnDisk(store, Cutoffs.Next(s, Cutoffs.Persist(id, recovered, e.write)));
      disk, store := store.disk, null;
    }
  }

  /** Raise the cutoff in memory and persist it; memory stays raised when the write fails. */
  method Persisting(store: Cutoffs.ValidatorCutoffs?, id: Bytes, n: Validator, proposed: int, write: Cutoffs.Write,
      ghost p: Process)
    returns (m: Validator, ok: bool)
    requires n == p.validator && (n.running <==> store != null)
    requires store != null ==> store.Runs(p.store)
    requires store == null ==> p.store.running.None?
    modifies store
    ensures ok <==> Persists(id, p, Raised(p, proposed), write)
    ensures m == if n.running then Raise(n, proposed, ok) else n
    ensures store != null ==> store.Runs(Cutoffs.Next(p.store, Cutoffs.Persist(id, Raised(p, proposed), write)))
    ensures store == null ==> !ok && Cutoffs.Next(p.store, Cutoffs.Persist(id, Raised(p, proposed), write)) == p.store
  {
    m, ok := n, false;
    if store != null {
      var level := Max(n.acceptedAboveMs, proposed);
      ok := store.PersistValidatorCutoff(id, level, write, p.store);
      m := Raise(n, proposed, ok);
    }
  }

  /** The process after the first `k` events, one event on from the process before it. */
  lemma ProcessTo(id: Bytes, script: seq<Event>, k: nat, p: Process)
    requires k <= |script|
    requires if k == 0 then p == FRESH else p == ProcessNext(id, ProcessAfter(id, script[..k - 1]), script[k - 1])
    ensures ProcessAfter(id, script[..k]) == p
  {
    if k > 0 { assert script[..k][..k - 1] == script[..k - 1]; }
  }

  function Store(id: Bytes, cutoff: int): Cutoffs.State {
    Cutoffs.State(Some(map[id := cutoff]), Cutoffs.NoSnapshot, Some(map[id := cutoff]))
  }

  lemma StoreRises(id: Bytes, cutoff: int, level: int)
    requires level >= cutoff
    ensures Cutoffs.Acknowledges(Store(id, cutoff), Cutoffs.Persist(id, level, Cutoffs.Written))
    ensures Cutoffs.Next(Store(id, cutoff), Cutoffs.Persist(id, level, Cutoffs.Written)) == Store(id, level)
  {
    assert map[id := cutoff][id := level] == map[id := level];
  }

  /** A first start with no cutoff on record. */
  const FIRST_BOOT := Boot(0, 0, Cutoffs.Written, Cutoffs.Written)

  lemma FirstBoot(id: Bytes)
    ensures ProcessNext(id, FRESH, FIRST_BOOT) == Process(Validator(true, Some(0), 0, [], [], [], 0), Store(id, 0))
  {
    Cutoffs.StartSound(Cutoffs.Written);
    var s := Cutoffs.Restarted(FRESH.store, Cutoffs.Written);
    assert s == Cutoffs.State(Some(map[]), Cutoffs.NoSnapshot, Some(map[]));
    assert BootCutoff(id, [], s, 0, 0) == 0;
  }

  /** Heartbeats are published by a timer and attestations by ingestion, with awaits between
      signing and publishing on both paths, so overtaking does happen. */
  lemma HeartbeatCanOvertake(id: Bytes, txId: Bytes)
    ensures ProcessAfter(id, OvertakingRun(txId)).validator.feed == [Beat(1, 10), Attest(0, txId, 5, 0)]
    ensures LateAttestation(ProcessAfter(id, OvertakingRun(txId)).validator.feed, 0, 1)
  {
    hide ProcessAfter, Cutoffs.Next, Cutoffs.Acknowledges, Store, BootCutoff, Boots;
    var script, a, b := OvertakingRun(txId), Attest(0, txId, 5, 0), Beat(1, 10);
    StoreRises(id, 0, 10);
    assert Without([a, b], 1) == [a] && Without([a], 0) == [];
    AttestsFirst(id, txId);
    ProcessTo(id, script, 4, Process(Validator(true, Some(10), 10, [], [a, b], [], 2), Store(id, 10)));
    ProcessTo(id, script, 5, Process(Validator(true, Some(10), 10, [], [a], [b], 2), Store(id, 10)));
    ProcessTo(id, script, 6, Process(Validator(true, Some(10), 10, [], [], [b, a], 2), Store(id, 10)));
    assert script[..6] == script;
  }

  function OvertakingRun(txId: Bytes): seq<Event> {
    [FIRST_BOOT, Event.Candidate(txId, 5, 0, 100, Cutoffs.Written), Decide(0),
     Tick(10, Cutoffs.Written), Send(1), Send(0)]
  }

  lemma AttestsFirst(id: Bytes, txId: Bytes)
    ensures ProcessAfter(id, OvertakingRun(txId)[..3])
         == Process(Validator(true, Some(0), 0, [], [Attest(0, txId, 5, 0)], [], 1), Store(id, 0))
  {
    hide ProcessAfter, Cutoffs.Next, Cutoffs.Acknowledges, Store, BootCutoff, Boots;
    var script := OvertakingRun(txId);
    StoreRises(id, 0, 0);
    FirstBoot(id);
    ProcessTo(id, script, 0, FRESH);
    ProcessTo(id, script, 1, Process(Validator(true, Some(0), 0, [], [], [], 0), Store(id, 0)));
    ProcessTo(id, script, 2, Process(Validator(true, Some(0), 0, [(txId, 5)], [], [], 0), Store(id, 0)));
    assert Without([(txId, 5)], 0) == [];
    ProcessTo(id, script, 3, Process(Validator(true, Some(0), 0, [], [Attest(0, txId, 5, 0)], [], 1), Store(id, 0)));
  }

  // ---- the group

  /** What happened to each validator of the group. The validators share no state, so any
      interleaving of the group is one run for each. */
  type Runs = map<Bytes, seq<Event>>

  function FeedOf(runs: Runs, v: Bytes): seq<Record>
    requires v in runs
  {
    ProcessAfter(v, runs[v]).validator.feed
  }

  /** Throughout the run the validator's heartbeats wait for the attestations they cover. */
  ghost predicate WaitsIn(runs: Runs, v: Bytes) {
    v in runs ==> Waits(StepsOf(v, runs[v]))
  }

  /** Feed sequence numbers start at one. */
  ghost predicate IsCounted(runs: Runs, beats: Heartbeats, v: Bytes) {
    && v in runs && v in beats && beats[v].validatorId == v
    && 1 <= beats[v].validatorFeedSequence <= |FeedOf(runs, v)|
    && FeedOf(runs, v)[beats[v].validatorFeedSequence - 1].Beat?
    && FeedOf(runs, v)[beats[v].validatorFeedSequence - 1].acceptanceCutoffMs == beats[v].acceptanceCutoffMs
  }

  /** The heartbeats a store counts are records of the validators' feeds. */
  ghost predicate FromFeeds(runs: Runs, beats: Heartbeats) {
    forall v :: v in beats ==> IsCounted(runs, beats, v)
  }

  /** An admission proof for a timestamp: the position, on each member's feed, of its counted
      attestation. */
  type Proof = map<Bytes, nat>

  ghost predicate Proves(runs: Runs, ids: seq<Bytes>, proof: Proof, timestampMs: int) {
    forall v :: v in proof ==>
      && v in ids && v in runs && proof[v] < |FeedOf(runs, v)|
      && Accepted(FeedOf(runs, v)[proof[v]]) && FeedOf(runs, v)[proof[v]].authorTimestampMs == timestampMs
  }

  /** The member's attestation was signed before the heartbeat counted for it. */
  ghost predicate SignedBefore(runs: Runs, beats: Heartbeats, proof: Proof, v: Bytes) {
    && v in proof && v in runs && proof[v] < |FeedOf(runs, v)| && IsCounted(runs, beats, v)
    && FeedOf(runs, v)[proof[v]].signed < FeedOf(runs, v)[beats[v].validatorFeedSequence - 1].signed
  }

  /** It was also on the feed before that heartbeat. */
  ghost predicate PublishedBefore(runs: Runs, beats: Heartbeats, proof: Proof, v: Bytes) {
    v in proof && IsCounted(runs, beats, v) && proof[v] < beats[v].validatorFeedSequence - 1
  }

  /** A proof of at least k validators at or below the k-of-n watermark has a member that
      attested before the heartbeat the watermark counts for it. */
  lemma HistoryClosed(runs: Runs, beats: Heartbeats, ids: seq<Bytes>, k: int, cutoff: int, proof: Proof,
      timestampMs: int)
    returns (v: Bytes)
    requires FromFeeds(runs, beats) && Proves(runs, ids, proof, timestampMs)
    requires 1 <= k <= |proof|
    requires IsWatermark(beats, KSubsets(ids, k), Some(cutoff)) && timestampMs <= cutoff
    ensures SignedBefore(runs, beats, proof, v)
    ensures WaitsIn(runs, v) ==> PublishedBefore(runs, beats, proof, v)
  {
    hide IsCounted, LateAttestation, Accepted, Inv;
    var some := SubsetOfSize(proof.Keys, k);
    assert some in KSubsets(ids, k);
    assert Meets(beats, some, cutoff);
    v :| v in some && Passed(beats, v, cutoff);
    MemberWasEarly(runs, beats, ids, cutoff, proof, timestampMs, v);
  }

  lemma MemberWasEarly(runs: Runs, beats: Heartbeats, ids: seq<Bytes>, cutoff: int, proof: Proof, timestampMs: int,
      v: Bytes)
    requires FromFeeds(runs, beats) && Proves(runs, ids, proof, timestampMs)
    requires v in proof && Passed(beats, v, cutoff) && timestampMs <= cutoff
    ensures SignedBefore(runs, beats, proof, v)
    ensures WaitsIn(runs, v) ==> PublishedBefore(runs, beats, proof, v)
  {
    hide Run, Inv, Waits, ProcessAfter, StepsOf, Backed;
    assert IsCounted(runs, beats, v);
    ProcessRefines(v, runs[v]);
    var n := Run(StepsOf(v, runs[v]));
    var i, j := beats[v].validatorFeedSequence - 1, proof[v];
    RunInv(StepsOf(v, runs[v]));
    AttestedFirst(n, i, j);
    if WaitsIn(runs, v) {
      WaitingIsClosed(StepsOf(v, runs[v]));
      assert !LateAttestation(n.feed, i, j);
    }
  }

  lemma AttestedFirst(n: Validator, i: nat, j: nat)
    requires Inv(n) && i < |n.feed| && j < |n.feed| && n.feed[i].Beat? && Accepted(n.feed[j])
    requires n.feed[j].authorTimestampMs <= n.feed[i].acceptanceCutoffMs
    ensures n.feed[j].signed < n.feed[i].signed
  {
    assert Has(n, n.feed[i]) && Has(n, n.feed[j]);
    assert Ordered(n.feed[i], n.feed[j]);
  }

  // ---- which thresholds close history

  /** Whenever heartbeats wait for the attestations they cover, everything a proof of `admission`
      members admits at or below a `watermark`-of-n cutoff had a member on its feed before the
      counted heartbeat. */
  ghost predicate Closes(ids: seq<Bytes>, admission: int, watermark: int) {
    forall runs: Runs, beats: Heartbeats, cutoff: int, proof: Proof, timestampMs: int ::
      (forall v :: WaitsIn(runs, v)) && FromFeeds(runs, beats) && Proves(runs, ids, proof, timestampMs)
      && |proof| >= admission && IsWatermark(beats, KSubsets(ids, watermark), Some(cutoff)) && timestampMs <= cutoff
      ==> SomeMemberEarly(runs, beats, proof)
  }

  ghost predicate SomeMemberEarly(runs: Runs, beats: Heartbeats, proof: Proof) {
    exists v :: PublishedBefore(runs, beats, proof, v)
  }

  /** Two valid thresholds close history exactly when admission asks for at least as many
      validators as the watermark does. A membership document is free to ask for fewer. */
  lemma ClosesExactly(ids: seq<Bytes>, admission: int, watermark: int)
    requires ThresholdValid(ids, admission) && ThresholdValid(ids, watermark)
    ensures Closes(ids, admission, watermark) <==> admission >= watermark
  {
    hide Proves, FromFeeds, IsWatermark, WaitsIn, PublishedBefore;
    if admission >= watermark {
      forall runs: Runs, beats: Heartbeats, cutoff: int, proof: Proof, timestampMs: int |
        (forall v :: WaitsIn(runs, v)) && FromFeeds(runs, beats) && Proves(runs, ids, proof, timestampMs)
        && |proof| >= admission && IsWatermark(beats, KSubsets(ids, watermark), Some(cutoff)) && timestampMs <= cutoff
        ensures SomeMemberEarly(runs, beats, proof)
      {
        var v := HistoryClosed(runs, beats, ids, watermark, cutoff, proof, timestampMs);
        assert v in runs by { EarlyIsMember(runs, beats, proof, v); }
      }
    } else {
      var runs, beats, proof := LowThresholdReopens(ids, admission, watermark);
    }
  }

  lemma EarlyIsMember(runs: Runs, beats: Heartbeats, proof: Proof, v: Bytes)
    requires SignedBefore(runs, beats, proof, v)
    ensures v in runs
  {
  }

  /** A validator that announces cutoff 0 and then attests at 5. */
  function AttestingRun(txId: Bytes): seq<Event> {
    [FIRST_BOOT, Tick(0, Cutoffs.Written), Send(0), Event.Candidate(txId, 5, 0, 100, Cutoffs.Written),
     Decide(0), Send(0)]
  }

  /** A validator that announces cutoff 10. */
  function QuietRun(): seq<Event> {
    [FIRST_BOOT, Tick(10, Cutoffs.Written), Send(0)]
  }

  /** Events that send the oldest record make steps in signing order. */
  lemma {:induction false} SendsInOrder(id: Bytes, script: seq<Event>)
    requires forall k :: 0 <= k < |script| && script[k].Send? ==> script[k].record == 0
    ensures InOrder(StepsOf(id, script)) && Waits(StepsOf(id, script))
  {
    hide ProcessAfter, Waits;
    if script != [] {
      var front := script[..|script| - 1];
      assert forall k :: 0 <= k < |front| ==> front[k] == script[k];
      SendsInOrder(id, front);
      assert script[|script| - 1].Send? ==> script[|script| - 1].record == 0;
    }
    InOrderWaits(StepsOf(id, script));
  }

  lemma AttestingFeed(id: Bytes, txId: Bytes)
    ensures ProcessAfter(id, AttestingRun(txId)).validator.feed == [Beat(0, 0), Attest(1, txId, 5, 0)]
    ensures Waits(StepsOf(id, AttestingRun(txId)))
  {
    hide ProcessAfter, StepsOf, Waits, Cutoffs.Next, Cutoffs.Acknowledges, Store, BootCutoff, Boots;
    StoreRises(id, 0, 0);
    var s := AttestingRun(txId);
    SendsInOrder(id, s);
    FirstBoot(id);
    ProcessTo(id, s, 0, FRESH);
    ProcessTo(id, s, 1, Process(Validator(true, Some(0), 0, [], [], [], 0), Store(id, 0)));
    ProcessTo(id, s, 2, Process(Validator(true, Some(0), 0, [], [Beat(0, 0)], [], 1), Store(id, 0)));
    ProcessTo(id, s, 3, Process(Validator(true, Some(0), 0, [], [], [Beat(0, 0)], 1), Store(id, 0)));
    ProcessTo(id, s, 4, Process(Validator(true, Some(0), 0, [(txId, 5)], [], [Beat(0, 0)], 1), Store(id, 0)));
    ProcessTo(id, s, 5,
        Process(Validator(true, Some(0), 0, [], [Attest(1, txId, 5, 0)], [Beat(0, 0)], 2), Store(id, 0)));
    ProcessTo(id, s, 6,
        Process(Validator(true, Some(0), 0, [], [], [Beat(0, 0), Attest(1, txId, 5, 0)], 2), Store(id, 0)));
    assert s[..6] == s;
  }

  lemma QuietFeed(id: Bytes)
    ensures ProcessAfter(id, QuietRun()).validator.feed == [Beat(0, 10)]
    ensures Waits(StepsOf(id, QuietRun()))
  {
    hide ProcessAfter, StepsOf, Waits, Cutoffs.Next, Cutoffs.Acknowledges, Store, BootCutoff, Boots;
    StoreRises(id, 0, 10);
    var s := QuietRun();
    SendsInOrder(id, s);
    FirstBoot(id);
    ProcessTo(id, s, 0, FRESH);
    ProcessTo(id, s, 1, Process(Validator(true, Some(0), 0, [], [], [], 0), Store(id, 0)));
    ProcessTo(id, s, 2, Process(Validator(true, Some(10), 10, [], [Beat(0, 10)], [], 1), Store(id, 10)));
    ProcessTo(id, s, 3, Process(Validator(true, Some(10), 10, [], [], [Beat(0, 10)], 1), Store(id, 10)));
    assert s[..3] == s;
  }

  /** With fewer admitting validators than the watermark needs: the first `admission` validators
      announce 0, the others 10, so the watermark is 10; then those few admit timestamp 5. */
  lemma LowThresholdReopens(ids: seq<Bytes>, admission: int, watermark: int)
    returns (runs: Runs, beats: Heartbeats, proof: Proof)
    requires ThresholdValid(ids, admission) && ThresholdValid(ids, watermark) && admission < watermark
    ensures forall v :: WaitsIn(runs, v)
    ensures FromFeeds(runs, beats) && Proves(runs, ids, proof, 5) && |proof| >= admission
    ensures IsWatermark(beats, KSubsets(ids, watermark), Some(10))
    ensures !SomeMemberEarly(runs, beats, proof)
  {
    hide IsWatermark, FromFeeds, Proves, PublishedBefore, LowRuns, FeedOf, WaitsIn;
    var few := Elements(ids[..admission]);
    ElementsSize(ids[..admission]);
    runs := LowRuns(ids, few);
    LowFeeds(ids, few);
    beats := map v | v in Elements(ids) :: LowBeat(v, v in few);
    proof := map v | v in few :: 1;
    assert proof.Keys == few && |proof| == |proof.Keys|;
    TenIsWatermark(beats, ids, admission, watermark);
    LowRunsProve(runs, beats, proof, ids, few);
  }

  function LowRuns(ids: seq<Bytes>, few: set<Bytes>): Runs {
    map v | v in Elements(ids) :: if v in few then AttestingRun([]) else QuietRun()
  }

  lemma LowFeeds(ids: seq<Bytes>, few: set<Bytes>)
    ensures LowRuns(ids, few).Keys == Elements(ids) && forall v :: WaitsIn(LowRuns(ids, few), v)
    ensures forall v :: v in LowRuns(ids, few) ==>
              FeedOf(LowRuns(ids, few), v) == if v in few then [Beat(0, 0), Attest(1, [], 5, 0)] else [Beat(0, 10)]
  {
    hide ProcessAfter, StepsOf, Waits, AttestingRun, QuietRun;
    var runs := LowRuns(ids, few);
    forall v | v in runs
      ensures WaitsIn(runs, v)
      ensures FeedOf(runs, v) == if v in few then [Beat(0, 0), Attest(1, [], 5, 0)] else [Beat(0, 10)]
    {
      AttestingFeed(v, []);
      QuietFeed(v);
    }
  }

  function LowBeat(v: Bytes, low: bool): Heartbeat {
    Heartbeat(v, v, v, [], 1, if low then 0 else 10, true)
  }

  lemma LowRunsProve(runs: Runs, beats: Heartbeats, proof: Proof, ids: seq<Bytes>, few: set<Bytes>)
    requires few <= Elements(ids) && runs.Keys == beats.Keys == Elements(ids) && proof.Keys == few
    requires forall v :: v in runs ==>
              FeedOf(runs, v) == if v in few then [Beat(0, 0), Attest(1, [], 5, 0)] else [Beat(0, 10)]
    requires forall v :: v in beats ==> beats[v] == LowBeat(v, v in few)
    requires forall v :: v in proof ==> proof[v] == 1
    ensures FromFeeds(runs, beats) && Proves(runs, ids, proof, 5) && !SomeMemberEarly(runs, beats, proof)
  {
    hide FeedOf;
    forall v | v in beats ensures IsCounted(runs, beats, v) { assert v in runs; }
    forall v ensures !PublishedBefore(runs, beats, proof, v) {}
  }

  lemma TenIsWatermark(beats: Heartbeats, ids: seq<Bytes>, admission: int, watermark: int)
    requires ThresholdValid(ids, admission) && ThresholdValid(ids, watermark) && admission < watermark
    requires beats.Keys == Elements(ids)
    requires forall v :: v in beats ==> beats[v].feedContiguous
    requires forall v :: v in beats ==> beats[v].acceptanceCutoffMs == if v in ids[..admission] then 0 else 10
    ensures IsWatermark(beats, KSubsets(ids, watermark), Some(10))
  {
    var few := Elements(ids[..admission]);
    ElementsSize(ids[..admission]);
    ElementsSize(ids);
    forall proof | proof in KSubsets(ids, watermark) ensures Meets(beats, proof, 10) {
      if proof <= few { SubsetSize(proof, few); }
      var v :| v in proof && v !in few;
      assert Passed(beats, v, 10);
    }
    var any := SubsetOfSize(Elements(ids), watermark);
    assert any in KSubsets(ids, watermark);
    forall higher | higher > 10 ensures !Meets(beats, any, higher) {}
  }
}
