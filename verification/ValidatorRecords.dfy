/** What stands behind every record a validator signs, and what every step adds: candidates are
    attested above the cutoff and within the future limit, heartbeats announce the cutoff in force. */
module ValidatorRecords {
  import opened Bytes
  import opened ControlStoreModel
  import opened ClosedHistory

  // ---- one step

  /** A running validator's cutoff only rises, to what the step proposes or the observed record
      carries; a start sets it. */
  lemma CutoffMoves(n: Validator, step: Step)
    ensures var before, after := n.acceptedAboveMs, Apply(n, step).acceptedAboveMs;
            match step
            case Start(recovered, persisted) => after == before || (persisted && !n.running && after == recovered)
            case Announce(proposed, _) => n.running ==> IsHigher(before, proposed, after)
            case Check(_, _, proposed, _, _) => n.running ==> IsHigher(before, proposed, after)
            case Observe(i, _) => n.running && i < |n.feed| ==> IsHigher(before, Level(n.feed[i]), after)
            case _ => after == before
    ensures !n.running && !step.Start? ==> Apply(n, step).acceptedAboveMs == n.acceptedAboveMs
  {
  }

  predicate IsHigher(a: int, b: int, m: int) { a <= m && b <= m && (m == a || m == b) }

  /** A heartbeat is signed for every announcement that became durable, with the cutoff in force. */
  lemma AnnounceSigns(n: Validator, proposed: int)
    requires n.running
    ensures var m := Apply(n, Announce(proposed, true));
            && m.inFlight == n.inFlight + [Beat(n.signed, m.acceptedAboveMs)] && m.signed == n.signed + 1
            && m.acknowledged == Some(m.acceptedAboveMs) && m.feed == n.feed && m.checked == n.checked
    ensures Apply(n, Announce(proposed, false)).inFlight == n.inFlight
  {
  }

  /** A candidate waits for its other checks exactly when its cutoff became durable and its timestamp
      lies above the cutoff and not beyond the future limit. */
  lemma CheckAccepts(n: Validator, txId: Bytes, ts: int, proposed: int, futureLimit: int, persisted: bool)
    requires n.running
    ensures var m := Apply(n, Check(txId, ts, proposed, futureLimit, persisted));
            && (m.checked == n.checked + [(txId, ts)] <==> persisted && m.acceptedAboveMs < ts <= futureLimit)
            && (m.checked == n.checked || m.checked == n.checked + [(txId, ts)])
            && m.inFlight == n.inFlight && m.feed == n.feed
  {
  }

  /** Signing takes the candidate off the list and signs it with the cutoff now in force. */
  lemma SignSigns(n: Validator, i: nat)
    requires n.running && i < |n.checked|
    ensures var m := Apply(n, Sign(i));
            && m.checked == n.checked[..i] + n.checked[i + 1..]
            && m.inFlight == n.inFlight + [Attest(n.signed, n.checked[i].0, n.checked[i].1, n.acceptedAboveMs)]
            && m.signed == n.signed + 1 && m.feed == n.feed && m.acceptedAboveMs == n.acceptedAboveMs
  {
  }

  /** Publishing moves one record behind the feed; a crash loses what is not on it. */
  lemma PublishMoves(n: Validator, i: nat)
    requires i < |n.inFlight|
    ensures var m := Apply(n, Publish(i));
            && m.feed == n.feed + [n.inFlight[i]] && m.inFlight == n.inFlight[..i] + n.inFlight[i + 1..]
            && m.checked == n.checked
    ensures var m := Apply(n, Crash);
            m.feed == n.feed && m.inFlight == [] && m.checked == [] && !m.running && m.acknowledged == n.acknowledged
  {
  }

  // ---- whole runs

  /** Step `i` found the candidate above the cutoff and within the future limit. */
  ghost predicate CheckedAt(steps: seq<Step>, i: nat, txId: Bytes, ts: int)
    requires i < |steps|
  {
    && steps[i].Check? && steps[i].txId == txId && steps[i].authorTimestampMs == ts && steps[i].persisted
    && Run(steps[..i]).running && ts <= steps[i].futureLimit && ts > Run(steps[..i + 1]).acceptedAboveMs
  }

  ghost predicate Checked(steps: seq<Step>, txId: Bytes, ts: int) {
    exists i :: 0 <= i < |steps| && CheckedAt(steps, i, txId, ts)
  }

  /** Step `j` signed the attestation, for a candidate checked before, with the cutoff in force. */
  ghost predicate AttestedAt(steps: seq<Step>, j: nat, r: Record)
    requires j < |steps|
  {
    && r.Attest? && steps[j].Sign? && Run(steps[..j]).running && Checked(steps[..j], r.txId, r.authorTimestampMs)
    && r.acceptedAboveMs == Run(steps[..j]).acceptedAboveMs && r.signed == Run(steps[..j]).signed
  }

  /** Step `j` announced this cutoff: the one in force, at or above what was proposed, and durable. */
  ghost predicate AnnouncedAt(steps: seq<Step>, j: nat, r: Record)
    requires j < |steps|
  {
    && r.Beat? && steps[j].Announce? && steps[j].persisted && Run(steps[..j]).running
    && r.acceptanceCutoffMs == Run(steps[..j + 1]).acceptedAboveMs >= steps[j].proposed
    && Run(steps[..j + 1]).acknowledged == Some(r.acceptanceCutoffMs) && r.signed == Run(steps[..j]).signed
  }

  ghost predicate Justified(steps: seq<Step>, r: Record) {
    exists j :: 0 <= j < |steps| && (AttestedAt(steps, j, r) || AnnouncedAt(steps, j, r))
  }

  lemma CheckedGrows(steps: seq<Step>, txId: Bytes, ts: int)
    requires steps != [] && Checked(steps[..|steps| - 1], txId, ts)
    ensures Checked(steps, txId, ts)
  {
    var front := steps[..|steps| - 1];
    var i :| 0 <= i < |front| && CheckedAt(front, i, txId, ts);
    assert front[..i + 1] == steps[..i + 1] && front[..i] == steps[..i];
    assert CheckedAt(steps, i, txId, ts);
  }

  lemma JustifiedGrows(steps: seq<Step>, r: Record)
    requires steps != [] && Justified(steps[..|steps| - 1], r)
    ensures Justified(steps, r)
  {
    hide Run, Checked;
    var front := steps[..|steps| - 1];
    var j :| 0 <= j < |front| && (AttestedAt(front, j, r) || AnnouncedAt(front, j, r));
    assert front[..j + 1] == steps[..j + 1] && front[..j] == steps[..j];
    assert AttestedAt(steps, j, r) || AnnouncedAt(steps, j, r);
  }

  ghost predicate AllChecked(steps: seq<Step>, checked: seq<(Bytes, int)>) {
    forall c :: c in checked ==> Checked(steps, c.0, c.1)
  }

  /** Every record, published or not, was signed for a reason; every waiting candidate was checked. */
  lemma {:induction false} RecordsJustified(steps: seq<Step>)
    ensures AllChecked(steps, Run(steps).checked)
    ensures forall r :: Has(Run(steps), r) ==> Justified(steps, r)
  {
    hide Justified, Checked;
    if steps != [] {
      var k := |steps| - 1;
      var front := steps[..k];
      RecordsJustified(front);
      var n, m := Run(front), Run(steps);
      assert steps[..k + 1] == steps;
      forall c | c in m.checked ensures Checked(steps, c.0, c.1) {
        if c in n.checked { CheckedGrows(steps, c.0, c.1); } else { NewlyChecked(steps, c); }
      }
      forall r | Has(m, r) ensures Justified(steps, r) {
        if Has(n, r) { JustifiedGrows(steps, r); } else { NewlySigned(steps, r); }
      }
    }
  }

  lemma StepChecks(n: Validator, step: Step, c: (Bytes, int))
    requires c in Apply(n, step).checked && c !in n.checked
    ensures step.Check? && step.txId == c.0 && step.authorTimestampMs == c.1 && step.persisted
    ensures n.running && c.1 <= step.futureLimit && c.1 > Apply(n, step).acceptedAboveMs
  {
  }

  lemma NewlyChecked(steps: seq<Step>, c: (Bytes, int))
    requires steps != [] && c in Run(steps).checked && c !in Run(steps[..|steps| - 1]).checked
    ensures Checked(steps, c.0, c.1)
  {
    hide Apply;
    var k := |steps| - 1;
    assert steps[..k + 1] == steps;
    StepChecks(Run(steps[..k]), steps[k], c);
    assert CheckedAt(steps, k, c.0, c.1);
  }

  lemma StepSigns(n: Validator, step: Step, r: Record)
    requires Has(Apply(n, step), r) && !Has(n, r)
    ensures n.running && r.signed == n.signed
    ensures step.Sign? || (step.Announce? && step.persisted)
    ensures step.Sign? ==>
              && r.Attest? && (r.txId, r.authorTimestampMs) in n.checked && r.acceptedAboveMs == n.acceptedAboveMs
    ensures step.Announce? ==>
              && r.Beat? && r.acceptanceCutoffMs == Apply(n, step).acceptedAboveMs >= step.proposed
              && Apply(n, step).acknowledged == Some(r.acceptanceCutoffMs)
  {
    if step.Publish? && step.record < |n.inFlight| {
      assert n.inFlight[step.record] in n.inFlight;
    }
  }

  lemma NewlySigned(steps: seq<Step>, r: Record)
    requires steps != [] && Has(Run(steps), r) && !Has(Run(steps[..|steps| - 1]), r)
    requires AllChecked(steps[..|steps| - 1], Run(steps[..|steps| - 1]).checked)
    ensures Justified(steps, r)
  {
    hide Checked, Apply;
    var k := |steps| - 1;
    assert steps[..k + 1] == steps;
    var n := Run(steps[..k]);
    StepSigns(n, steps[k], r);
    if steps[k].Sign? { assert AttestedAt(steps, k, r); } else { assert AnnouncedAt(steps, k, r); }
  }

  /** What is on the feed stays on it. */
  lemma {:induction false} FeedGrows(steps: seq<Step>, k: nat)
    requires k <= |steps|
    ensures Run(steps[..k]).feed <= Run(steps).feed
  {
    hide Apply;
    if k < |steps| {
      var front := steps[..|steps| - 1];
      FeedGrows(front, k);
      assert front[..k] == steps[..k];
      StepFeedGrows(Run(front), steps[|steps| - 1]);
    } else {
      assert steps[..k] == steps;
    }
  }

  lemma StepFeedGrows(n: Validator, step: Step)
    ensures n.feed <= Apply(n, step).feed
  {
  }

  // ---- the process over its journal

  lemma {:induction false} StepsAre(id: Bytes, script: seq<Event>, k: nat)
    requires k < |script|
    ensures StepsOf(id, script)[k] == StepOf(id, ProcessAfter(id, script[..k]), script[k])
    ensures StepsOf(id, script)[..k] == StepsOf(id, script[..k])
  {
    hide StepOf, ProcessAfter;
    var front := script[..|script| - 1];
    if k < |front| {
      StepsAre(id, front, k);
      assert front[..k] == script[..k];
      assert StepsOf(id, script)[..k] == StepsOf(id, front)[..k];
    } else {
      assert script[..k] == front;
    }
  }

  /** This event brought the candidate: above the lagging clock, not beyond the future limit. */
  predicate Candidacy(e: Event, r: Record) {
    && e.Candidate? && r.Attest? && e.txId == r.txId && e.authorTimestampMs == r.authorTimestampMs
    && r.authorTimestampMs <= e.futureLimit && r.authorTimestampMs > e.nowMinusLag && r.authorTimestampMs > 0
  }

  /** This tick of the timer is behind the heartbeat. */
  predicate Ticked(e: Event, r: Record) {
    e.Tick? && r.Beat? && r.acceptanceCutoffMs >= e.nowMinusLag && r.acceptanceCutoffMs >= 0
  }

  /** Whatever a validator process signs, over any journal, crashes and failed writes: attestations
      only for candidates it was given, within the limits; heartbeats only from ticks, never below
      the lagging clock. */
  lemma SignedOnlyWhatCame(id: Bytes, script: seq<Event>, r: Record)
    requires Has(ProcessAfter(id, script).validator, r)
    ensures exists i :: 0 <= i < |script| && (Candidacy(script[i], r) || Ticked(script[i], r))
  {
    hide Run, StepOf, ProcessAfter, Checked;
    var steps := StepsOf(id, script);
    ProcessRefines(id, script);
    RecordsJustified(steps);
    var j :| 0 <= j < |steps| && (AttestedAt(steps, j, r) || AnnouncedAt(steps, j, r));
    if AttestedAt(steps, j, r) {
      var i := CheckOf(steps[..j], r.txId, r.authorTimestampMs);
      assert steps[..j][..i] == steps[..i] && steps[..j][..i + 1] == steps[..i + 1];
      StepsAre(id, script, i);
      CandidateCame(id, ProcessAfter(id, script[..i]), script[i], steps[i]);
      ProposalReached(steps, i);
      assert Candidacy(script[i], r);
    } else {
      StepsAre(id, script, j);
      TickCame(id, ProcessAfter(id, script[..j]), script[j], steps[j]);
      assert Ticked(script[j], r);
    }
  }

  lemma CheckOf(steps: seq<Step>, txId: Bytes, ts: int) returns (i: nat)
    requires Checked(steps, txId, ts)
    ensures i < |steps| && CheckedAt(steps, i, txId, ts)
  {
    i :| 0 <= i < |steps| && CheckedAt(steps, i, txId, ts);
  }

  lemma CandidateCame(id: Bytes, p: Process, e: Event, step: Step)
    requires step == StepOf(id, p, e) && step.Check?
    ensures e.Candidate? && e.txId == step.txId && e.authorTimestampMs == step.authorTimestampMs
    ensures e.futureLimit == step.futureLimit && step.proposed >= e.nowMinusLag && step.proposed >= 0
  {
  }

  lemma TickCame(id: Bytes, p: Process, e: Event, step: Step)
    requires step == StepOf(id, p, e) && step.Announce?
    ensures e.Tick? && step.proposed >= e.nowMinusLag && step.proposed >= 0
  {
  }

  /** A durable check has raised the cutoff to what it proposed. */
  lemma ProposalReached(steps: seq<Step>, i: nat)
    requires i < |steps| && steps[i].Check? && steps[i].persisted
    ensures Run(steps[..i]).running ==> Run(steps[..i + 1]).acceptedAboveMs >= steps[i].proposed
  {
    hide Apply;
    assert steps[..i + 1][..i] == steps[..i];
    CutoffMoves(Run(steps[..i]), steps[i]);
  }
}
