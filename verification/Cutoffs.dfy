/** The validator cutoff journal: signing state that must survive crashes, failed writes and
    corrupt snapshots. */
module Cutoffs {
  import opened Bytes
  import opened DecimalText
  import opened ControlStoreModel

  type CutoffMap = map<Bytes, int>

  // ---- the journal codec

  /** One journal line: a validator id and a decimal text. */
  datatype Line = Line(validatorId: Bytes, acceptedAboveMs: string)

  /** What the journal path holds. */
  datatype Journal = Missing | Text(lines: seq<Line>)

  predicate LineFor(line: Line, cutoffs: CutoffMap) {
    line.validatorId in cutoffs && line.acceptedAboveMs == IntText(cutoffs[line.validatorId])
  }

  ghost predicate Encodes(lines: seq<Line>, cutoffs: CutoffMap) {
    && (forall i :: 0 <= i < |lines| ==> LineFor(lines[i], cutoffs))
    && (forall i, j :: 0 <= i < j < |lines| ==> lines[i].validatorId != lines[j].validatorId)
    && (forall v :: v in cutoffs ==> Named(lines, v))
  }

  method EncodeCutoffs(cutoffs: CutoffMap) returns (lines: seq<Line>)
    ensures Encodes(lines, cutoffs)
  {
    lines := [];
    var left := cutoffs.Keys;
    while left != {}
      invariant left <= cutoffs.Keys
      invariant forall i :: 0 <= i < |lines| ==> LineFor(lines[i], cutoffs) && lines[i].validatorId !in left
      invariant forall i, j :: 0 <= i < j < |lines| ==> lines[i].validatorId != lines[j].validatorId
      invariant forall v :: v in cutoffs && v !in left ==> exists i :: 0 <= i < |lines| && lines[i].validatorId == v
    {
      var v :| v in left;
      ghost var before := lines;
      lines, left := lines + [Line(v, IntText(cutoffs[v]))], left - {v};
      assert lines[|before|].validatorId == v;
      assert forall i :: 0 <= i < |before| ==> lines[i] == before[i];
    }
  }

  predicate LineReadable(line: Line) {
    line.validatorId != [] && IsNatText(line.acceptedAboveMs)
  }

  /** None when the text is refused: a bad line or a repeated validator. */
  function DecodeCutoffs(lines: seq<Line>): Option<CutoffMap> {
    if lines == [] then Some(map[])
    else
      var last := lines[|lines| - 1];
      match DecodeCutoffs(lines[..|lines| - 1])
      case None => None
      case Some(before) =>
        if !LineReadable(last) || last.validatorId in before then None
        else Some(before[last.validatorId := NatValue(last.acceptedAboveMs)])
  }

  /** Some line is for this validator. */
  ghost predicate Named(lines: seq<Line>, v: Bytes) {
    exists i :: 0 <= i < |lines| && lines[i].validatorId == v
  }

  ghost predicate Says(line: Line, cutoffs: CutoffMap) {
    && LineReadable(line) && line.validatorId in cutoffs
    && cutoffs[line.validatorId] == NatValue(line.acceptedAboveMs)
  }

  /** The decoded map holds what each line says and nothing else. */
  ghost predicate Decoded(lines: seq<Line>, cutoffs: CutoffMap) {
    && (forall v :: v in cutoffs ==> Named(lines, v))
    && (forall i :: 0 <= i < |lines| ==> Says(lines[i], cutoffs))
  }

  lemma {:induction false} DecodeExact(lines: seq<Line>)
    requires forall i, j :: 0 <= i < j < |lines| ==> lines[i].validatorId != lines[j].validatorId
    ensures DecodeCutoffs(lines).Some? <==> forall i :: 0 <= i < |lines| ==> LineReadable(lines[i])
    ensures DecodeCutoffs(lines).Some? ==> Decoded(lines, DecodeCutoffs(lines).value)
  {
    hide LineReadable, NatValue, Says;
    if lines != [] {
      var front, last := lines[..|lines| - 1], lines[|lines| - 1];
      DecodeExact(front);
      assert forall i :: 0 <= i < |front| ==> lines[i] == front[i];
      if DecodeCutoffs(front).Some? {
        var before := DecodeCutoffs(front).value;
        assert last.validatorId !in before;
        if LineReadable(last) { DecodedGrows(front, last, before); assert front + [last] == lines; }
      }
    }
  }

  lemma DecodedGrows(front: seq<Line>, last: Line, before: CutoffMap)
    requires Decoded(front, before) && last.validatorId !in before && LineReadable(last)
    ensures Decoded(front + [last], before[last.validatorId := NatValue(last.acceptedAboveMs)])
  {
    hide NatValue;
    var lines := front + [last];
    assert lines[|front|] == last;
    forall i | 0 <= i < |front| ensures Says(lines[i], before[last.validatorId := NatValue(last.acceptedAboveMs)]) {
      assert lines[i] == front[i];
      assert Says(front[i], before);
    }
    forall v | v in before ensures Named(lines, v) {
      var i :| 0 <= i < |front| && front[i].validatorId == v;
      assert lines[i].validatorId == v;
    }
  }

  lemma LineRoundTrip(line: Line, cutoffs: CutoffMap)
    requires LineFor(line, cutoffs)
    ensures LineReadable(line) <==> line.validatorId != [] && cutoffs[line.validatorId] >= 0
    ensures LineReadable(line) ==> NatValue(line.acceptedAboveMs) == cutoffs[line.validatorId]
  {
    IntTextIsNat(cutoffs[line.validatorId]);
    if cutoffs[line.validatorId] >= 0 { NatTextRoundTrip(cutoffs[line.validatorId]); }
  }

  /** A written journal reads back as the same cutoffs exactly when none is negative and no
      validator id is empty; otherwise reading it fails. */
  lemma JournalRoundTrip(lines: seq<Line>, cutoffs: CutoffMap)
    requires Encodes(lines, cutoffs)
    ensures DecodeCutoffs(lines).Some? <==> forall v :: v in cutoffs ==> v != [] && cutoffs[v] >= 0
    ensures DecodeCutoffs(lines).Some? ==> DecodeCutoffs(lines).value == cutoffs
  {
    hide DecodeCutoffs, NatValue, IntText;
    DecodeExact(lines);
    forall i | 0 <= i < |lines|
      ensures LineReadable(lines[i]) <==> lines[i].validatorId != [] && cutoffs[lines[i].validatorId] >= 0
      ensures LineReadable(lines[i]) ==> NatValue(lines[i].acceptedAboveMs) == cutoffs[lines[i].validatorId]
    {
      assert LineFor(lines[i], cutoffs);
      LineRoundTrip(lines[i], cutoffs);
    }
    forall v | v in cutoffs ensures Named(lines, v) {}
  }

  // ---- the files

  /** What the snapshot path holds. An unreadable file fails to parse; an inconsistent one parses
      but its restore is refused. */
  datatype SnapshotFile = NoSnapshot | Unreadable | Inconsistent | Readable(cutoffs: CutoffMap)

  datatype Disk = Disk(snapshot: SnapshotFile, journal: Journal)

  /** How a crash-safe write ends: replaced; failed with the old file in place; or failed after
      the rename, with the new file in place. */
  datatype Write = Written | FailedBefore | FailedAfter

  function Merge(a: CutoffMap, b: CutoffMap): CutoffMap {
    map v | v in a.Keys + b.Keys ::
      if v in a && v in b then (if b[v] > a[v] then b[v] else a[v]) else if v in a then a[v] else b[v]
  }

  /** Every cutoff of `low` is reached in `high`. */
  ghost predicate AtLeast(high: CutoffMap, low: CutoffMap) {
    forall v :: v in low ==> v in high && high[v] >= low[v]
  }

  // ---- the store over its two files, as a value

  /** The cutoffs the journal file encodes, if there is one; the snapshot file; and the cutoffs of
      the running store, if it runs. */
  datatype State = State(filed: Option<CutoffMap>, snapshot: SnapshotFile, running: Option<CutoffMap>)

  /** What a journal can be read back with. */
  predicate Legible(cutoffs: CutoffMap) {
    forall v :: v in cutoffs ==> v != [] && cutoffs[v] >= 0
  }

  predicate Damaged(file: SnapshotFile) { file.Unreadable? || file.Inconsistent? }

  function SnapshotCutoffs(file: SnapshotFile): CutoffMap {
    if file.Readable? then file.cutoffs else map[]
  }

  function FiledCutoffs(filed: Option<CutoffMap>): CutoffMap {
    if filed.Some? then filed.value else map[]
  }

  /** Why a start is refused. */
  datatype StartError = JournalCorrupt | JournalMissing | SnapshotRefused | JournalWriteFailed

  /** The higher cutoff of snapshot and journal for every validator. */
  function Recovered(s: State): CutoffMap {
    Merge(SnapshotCutoffs(s.snapshot), FiledCutoffs(s.filed))
  }

  function Refusal(s: State, write: Write): Option<StartError> {
    if s.filed.Some? && !Legible(s.filed.value) then Some(JournalCorrupt)
    else if s.filed.None? && s.snapshot.Unreadable? then Some(JournalMissing)
    else if s.filed.None? && s.snapshot.Inconsistent? then Some(SnapshotRefused)
    else if s.filed != Some(Recovered(s)) && !write.Written? then Some(JournalWriteFailed)
    else None
  }

  /** A damaged snapshot is set aside when a journal stands beside it; the journal is written when
      there was none or the snapshot holds a higher cutoff. */
  function Restarted(s: State, write: Write): State {
    match Refusal(s, write)
    case Some(JournalWriteFailed) =>
      State(if write.FailedBefore? then s.filed else Some(Recovered(s)),
          if Damaged(s.snapshot) then NoSnapshot else s.snapshot, None)
    case Some(_) => s.(running := None)
    case None => State(Some(Recovered(s)), if Damaged(s.snapshot) then NoSnapshot else s.snapshot, Some(Recovered(s)))
  }

  datatype Happening =
    | Persist(validatorId: Bytes, cutoff: int, write: Write)
    | Crash(write: Write)
    | SnapshotSaved
    | SnapshotDamaged(file: SnapshotFile)

  predicate Regresses(cutoffs: CutoffMap, v: Bytes, cutoff: int) { v in cutoffs && cutoff < cutoffs[v] }

  predicate Already(cutoffs: CutoffMap, v: Bytes, cutoff: int) { v in cutoffs && cutoffs[v] == cutoff }

  /** The call returns: the cutoff is no regression, and it was held already or its write succeeded. */
  predicate Acknowledges(s: State, h: Happening) {
    && h.Persist? && s.running.Some? && !Regresses(s.running.value, h.validatorId, h.cutoff)
    && (Already(s.running.value, h.validatorId, h.cutoff) || h.write.Written?)
  }

  /** A failed write leaves memory as it was and the file as it was or replaced. */
  function Next(s: State, h: Happening): State {
    match h
    case Persist(v, cutoff, write) =>
      if s.running.None? || Regresses(s.running.value, v, cutoff) || Already(s.running.value, v, cutoff) then s
      else
        var raised := s.running.value[v := cutoff];
        State(if write.FailedBefore? then s.filed else Some(raised), s.snapshot,
            if write.Written? then Some(raised) else s.running)
    case Crash(write) => Restarted(s, write)
    case SnapshotSaved => if s.running.Some? then s.(snapshot := Readable(s.running.value)) else s
    case SnapshotDamaged(file) => s.(snapshot := file)
  }

  /** From an empty directory: the first start, and what happened since. */
  function StateAfter(firstWrite: Write, script: seq<Happening>): State {
    if script == [] then Restarted(State(None, NoSnapshot, None), firstWrite)
    else Next(StateAfter(firstWrite, script[..|script| - 1]), script[|script| - 1])
  }

  // ---- what each step brings about

  /** A start merges: for every validator the higher of the two files. */
  lemma MergeMeans(a: CutoffMap, b: CutoffMap)
    ensures Merge(a, b).Keys == a.Keys + b.Keys
    ensures forall v :: v in Merge(a, b) ==>
              && (v in a ==> a[v] <= Merge(a, b)[v]) && (v in b ==> b[v] <= Merge(a, b)[v])
              && ((v in a && a[v] == Merge(a, b)[v]) || (v in b && b[v] == Merge(a, b)[v]))
  {
  }

  /** A store that starts holds the merged cutoffs, on disk too; why one does not start. */
  lemma StartMeans(s: State, write: Write)
    ensures Restarted(s, write).running.Some? <==> Refusal(s, write).None?
    ensures Refusal(s, write).None? ==>
              Restarted(s, write).running == Restarted(s, write).filed == Some(Recovered(s))
    ensures Refusal(s, write) == Some(JournalCorrupt) <==> s.filed.Some? && !Legible(s.filed.value)
    ensures Refusal(s, write) == Some(JournalMissing) <==> s.filed.None? && s.snapshot.Unreadable?
    ensures Refusal(s, write) == Some(SnapshotRefused) <==> s.filed.None? && s.snapshot.Inconsistent?
    ensures Refusal(s, write) == Some(JournalWriteFailed) ==> !write.Written? && s.filed != Some(Recovered(s))
  {
  }

  /** An acknowledged cutoff is just the one asked for, and no other cutoff in memory changes; a call
      that fails leaves memory as it was. */
  lemma PersistMeans(s: State, v: Bytes, cutoff: int, write: Write)
    ensures var h := Persist(v, cutoff, write);
            && Next(s, h).snapshot == s.snapshot
            && (if Acknowledges(s, h) then Next(s, h).running == Some(s.running.value[v := cutoff])
                else Next(s, h).running == s.running)
  {
    if Acknowledges(s, Persist(v, cutoff, write)) && Already(s.running.value, v, cutoff) {
      assert s.running.value[v := cutoff] == s.running.value;
    }
  }

  /** A snapshot that is saved holds just the cutoffs in memory, and the journal stays as it is. */
  lemma SavedMeans(s: State)
    ensures var t := Next(s, SnapshotSaved);
            && t.running == s.running && t.filed == s.filed
            && (if s.running.Some? then SnapshotCutoffs(t.snapshot) == s.running.value && !Damaged(t.snapshot)
                else t.snapshot == s.snapshot)
  {
  }

  /** The happening asks for this cutoff, or puts in place a snapshot with it. */
  predicate Brings(h: Happening, v: Bytes, cutoff: int) {
    || (h.Persist? && h.validatorId == v && h.cutoff == cutoff)
    || (h.SnapshotDamaged? && h.file.Readable? && v in h.file.cutoffs && h.file.cutoffs[v] == cutoff)
  }

  ghost predicate Brought(script: seq<Happening>, v: Bytes, cutoff: int) {
    exists k :: 0 <= k < |script| && Brings(script[k], v, cutoff)
  }

  ghost predicate AllBrought(script: seq<Happening>, cutoffs: CutoffMap) {
    forall v :: v in cutoffs ==> Brought(script, v, cutoffs[v])
  }

  /** No cutoff is made up: whatever the files or the running store hold was asked for. */
  lemma {:induction false} NothingInvented(firstWrite: Write, script: seq<Happening>)
    ensures var s := StateAfter(firstWrite, script);
            && AllBrought(script, FiledCutoffs(s.filed)) && AllBrought(script, SnapshotCutoffs(s.snapshot))
            && (s.running.Some? ==> AllBrought(script, s.running.value))
  {
    hide Brought, Next, AllBrought;
    if script == [] {
      assert AllBrought(script, map[]) by { NothingToBring(script); }
    } else {
      var s := StateAfter(firstWrite, script[..|script| - 1]);
      NothingInvented(firstWrite, script[..|script| - 1]);
      StillBrought(script, FiledCutoffs(s.filed));
      StillBrought(script, SnapshotCutoffs(s.snapshot));
      if s.running.Some? { StillBrought(script, s.running.value); }
      StepInventsNothing(s, script);
    }
  }

  lemma NothingToBring(script: seq<Happening>)
    ensures AllBrought(script, map[])
  {
  }

  lemma StillBrought(script: seq<Happening>, cutoffs: CutoffMap)
    requires script != [] && AllBrought(script[..|script| - 1], cutoffs)
    ensures AllBrought(script, cutoffs)
  {
    hide Brought;
    forall v | v in cutoffs ensures Brought(script, v, cutoffs[v]) { BroughtSplit(script, v, cutoffs[v]); }
  }

  lemma StepInventsNothing(s: State, script: seq<Happening>)
    requires script != [] && AllBrought(script, FiledCutoffs(s.filed))
    requires AllBrought(script, SnapshotCutoffs(s.snapshot))
    requires s.running.Some? ==> AllBrought(script, s.running.value)
    ensures var t := Next(s, script[|script| - 1]);
            && AllBrought(script, FiledCutoffs(t.filed)) && AllBrought(script, SnapshotCutoffs(t.snapshot))
            && (t.running.Some? ==> AllBrought(script, t.running.value))
  {
    hide Brought, Brings, Refusal;
    var h := script[|script| - 1];
    match h
    case Persist(v, cutoff, write) =>
      PersistBrings(h);
      BroughtSplit(script, v, cutoff);
    case Crash(write) => MergeMeans(SnapshotCutoffs(s.snapshot), FiledCutoffs(s.filed));
    case SnapshotSaved =>
    case SnapshotDamaged(file) =>
      SnapshotBrings(h);
      forall v, cutoff | Brings(h, v, cutoff) ensures Brought(script, v, cutoff) { BroughtSplit(script, v, cutoff); }
  }

  lemma PersistBrings(h: Happening)
    requires h.Persist?
    ensures Brings(h, h.validatorId, h.cutoff)
  {
  }

  lemma SnapshotBrings(h: Happening)
    requires h.SnapshotDamaged?
    ensures h.file.Readable? ==> forall v :: v in h.file.cutoffs ==> Brings(h, v, h.file.cutoffs[v])
  {
  }

  lemma BroughtSplit(script: seq<Happening>, v: Bytes, cutoff: int)
    requires script != []
    ensures Brought(script, v, cutoff) <==>
              Brought(script[..|script| - 1], v, cutoff) || Brings(script[|script| - 1], v, cutoff)
  {
    hide Brings;
    var front := script[..|script| - 1];
    assert forall k :: 0 <= k < |front| ==> front[k] == script[k];
  }

  // ---- what every run keeps

  /** The file reaches what the running store holds. */
  ghost predicate Sound(s: State) {
    s.running.Some? ==> s.filed.Some? && AtLeast(s.filed.value, s.running.value)
  }

  /** Wherever the store goes from here, it holds at least this cutoff. */
  ghost predicate Holds(s: State, v: Bytes, cutoff: int) {
    && s.filed.Some? && v in s.filed.value && s.filed.value[v] >= cutoff
    && (s.running.Some? ==> v in s.running.value && s.running.value[v] >= cutoff)
  }

  lemma MergeReaches(a: CutoffMap, b: CutoffMap)
    ensures AtLeast(Merge(a, b), a) && AtLeast(Merge(a, b), b)
  {
  }

  lemma MergeSettles(a: CutoffMap, b: CutoffMap)
    ensures Merge(b, Merge(a, b)) == Merge(a, b)
  {
  }

  lemma StepKeeps(s: State, h: Happening, v: Bytes, cutoff: int)
    requires Sound(s)
    ensures Sound(Next(s, h))
    ensures Holds(s, v, cutoff) ==> Holds(Next(s, h), v, cutoff)
    ensures Acknowledges(s, h) ==> Holds(Next(s, h), h.validatorId, h.cutoff)
  {
    hide Merge, Legible;
    MergeReaches(SnapshotCutoffs(s.snapshot), FiledCutoffs(s.filed));
  }

  lemma {:induction false} RunSound(firstWrite: Write, script: seq<Happening>)
    ensures Sound(StateAfter(firstWrite, script))
  {
    hide Next, Restarted;
    if script == [] {
      StartSound(firstWrite);
    } else {
      RunSound(firstWrite, script[..|script| - 1]);
      StepKeeps(StateAfter(firstWrite, script[..|script| - 1]), script[|script| - 1], [], 0);
    }
  }

  lemma StartSound(firstWrite: Write)
    ensures Sound(Restarted(State(None, NoSnapshot, None), firstWrite))
    ensures Restarted(State(None, NoSnapshot, None), firstWrite).running ==
              if firstWrite.Written? then Some(map[]) else None
  {
    assert Recovered(State(None, NoSnapshot, None)) == map[];
  }

  /** Whatever happens after a cutoff was acknowledged, a running store holds at least that cutoff. */
  lemma {:induction false} AcknowledgedIsKept(firstWrite: Write, script: seq<Happening>, k: nat)
    requires k < |script| && Acknowledges(StateAfter(firstWrite, script[..k]), script[k])
    ensures Holds(StateAfter(firstWrite, script), script[k].validatorId, script[k].cutoff)
    decreases |script|
  {
    hide Next, Holds;
    var n := |script| - 1;
    var before := StateAfter(firstWrite, script[..n]);
    RunSound(firstWrite, script[..n]);
    StepKeeps(before, script[n], script[k].validatorId, script[k].cutoff);
    if k < n {
      assert script[..n][..k] == script[..k];
      AcknowledgedIsKept(firstWrite, script[..n], k);
    }
  }

  // ---- when starts succeed

  /** A store that was running, or whose journal is there, starts again exactly when its journal is
      legible, and the journal needs no write or the write succeeds. */
  lemma StartsAgain(s: State, write: Write)
    requires s.filed.Some?
    ensures Next(s, Crash(write)).running.Some? <==>
              Legible(s.filed.value) && (write.Written? || AtLeast(s.filed.value, SnapshotCutoffs(s.snapshot)))
  {
    var a, b := SnapshotCutoffs(s.snapshot), s.filed.value;
    MergeReaches(a, b);
    assert Merge(a, b) == b <==> AtLeast(b, a);
  }

  /** Once a start has met an illegible journal no later start succeeds. */
  lemma {:induction false} IllegibleForever(s: State, script: seq<Happening>)
    requires s.running.None? && s.filed.Some? && !Legible(s.filed.value)
    ensures Onwards(s, script).running.None? && Onwards(s, script).filed == s.filed
  {
    hide Legible, Merge;
    if script != [] { IllegibleForever(s, script[..|script| - 1]); }
  }

  function Onwards(s: State, script: seq<Happening>): State {
    if script == [] then s else Next(Onwards(s, script[..|script| - 1]), script[|script| - 1])
  }

  lemma {:induction false} RunsOn(firstWrite: Write, a: seq<Happening>, b: seq<Happening>)
    ensures StateAfter(firstWrite, a + b) == Onwards(StateAfter(firstWrite, a), b)
  {
    hide Next;
    if b == [] {
      assert a + b == a;
    } else {
      assert (a + b)[..|a + b| - 1] == a + b[..|b| - 1];
      RunsOn(firstWrite, a, b[..|b| - 1]);
    }
  }

  /** Raising a cutoff to a negative value, or for an empty validator id, is acknowledged when its
      write succeeds; a crash right after it leaves a store that never starts again. */
  lemma NegativeCutoffIsFatal(firstWrite: Write, past: seq<Happening>, v: Bytes, cutoff: int, write: Write,
      future: seq<Happening>)
    requires v == [] || cutoff < 0
    requires Acknowledges(StateAfter(firstWrite, past), Persist(v, cutoff, Written))
    requires !Already(StateAfter(firstWrite, past).running.value, v, cutoff)
    ensures StateAfter(firstWrite, past + [Persist(v, cutoff, Written), Crash(write)] + future).running.None?
  {
    hide StateAfter, Merge;
    var s := StateAfter(firstWrite, past);
    var two := [Persist(v, cutoff, Written), Crash(write)];
    var persisted := Next(s, two[0]);
    assert v in persisted.filed.value && !Legible(persisted.filed.value);
    RunsOn(firstWrite, past, two + future);
    assert past + two + future == past + (two + future);
    OnwardsTwo(s, two[0], two[1], future);
    IllegibleForever(Next(persisted, two[1]), future);
  }

  lemma {:induction false} OnwardsTwo(s: State, a: Happening, b: Happening, rest: seq<Happening>)
    ensures Onwards(s, [a, b] + rest) == Onwards(Next(Next(s, a), b), rest)
  {
    hide Next;
    var all := [a, b] + rest;
    if rest == [] {
      assert all[..1] == [a] && all[..1][..0] == [] && all == [a, b];
      assert Onwards(s, [a]) == Next(s, a);
    } else {
      assert all[..|all| - 1] == [a, b] + rest[..|rest| - 1];
      OnwardsTwo(s, a, b, rest[..|rest| - 1]);
    }
  }

  /** No negative cutoff and no empty id is persisted or planted in a snapshot. */
  ghost predicate LegibleScript(script: seq<Happening>) {
    forall k :: 0 <= k < |script| ==> LegibleHappening(script[k])
  }

  predicate LegibleHappening(h: Happening) {
    && (h.Persist? ==> h.validatorId != [] && h.cutoff >= 0)
    && (h.SnapshotDamaged? ==> Legible(SnapshotCutoffs(h.file)))
  }

  ghost predicate AllLegible(s: State) {
    && Legible(FiledCutoffs(s.filed)) && Legible(SnapshotCutoffs(s.snapshot))
    && (s.running.Some? ==> Legible(s.running.value))
  }

  lemma LegibleStep(s: State, h: Happening)
    requires AllLegible(s) && LegibleHappening(h)
    ensures AllLegible(Next(s, h))
  {
  }

  /** In a run with such cutoffs only, every start whose write succeeds succeeds, once there is a
      journal; before that exactly a damaged snapshot prevents it. */
  lemma {:induction false} LegibleRunsRestart(firstWrite: Write, script: seq<Happening>)
    requires LegibleScript(script)
    ensures AllLegible(StateAfter(firstWrite, script))
    ensures var s := StateAfter(firstWrite, script);
            Next(s, Crash(Written)).running.Some? <==> s.filed.Some? || !Damaged(s.snapshot)
  {
    hide Legible, Merge;
    if script == [] {
      assert AllLegible(StateAfter(firstWrite, script)) by { FirstLegible(firstWrite); }
    } else {
      LegibleRunsRestart(firstWrite, script[..|script| - 1]);
      LegibleStep(StateAfter(firstWrite, script[..|script| - 1]), script[|script| - 1]);
    }
  }

  lemma FirstLegible(firstWrite: Write)
    ensures AllLegible(Restarted(State(None, NoSnapshot, None), firstWrite))
  {
  }

  // ---- the persistence object and the store's cutoffs

  /** The files as the state says. */
  ghost predicate OnDisk(disk: Disk, s: State) {
    && disk.snapshot == s.snapshot && (disk.journal.Missing? <==> s.filed.None?)
    && (s.filed.Some? ==> Encodes(disk.journal.lines, s.filed.value))
  }

  class ValidatorCutoffs {
    var disk: Disk
    var journaled: CutoffMap
    var cutoffs: CutoffMap

    constructor (disk: Disk, journaled: CutoffMap, cutoffs: CutoffMap)
      ensures this.disk == disk && this.journaled == journaled && this.cutoffs == cutoffs
    {
      this.disk, this.journaled, this.cutoffs := disk, journaled, cutoffs;
    }

    /** A running store: its files are as the state says, and it holds the state's cutoffs twice, as
        the journal's memory and its own. */
    ghost predicate Runs(s: State)
      reads this
    {
      OnDisk(disk, s) && s.filed.Some? && s.running == Some(cutoffs) && journaled == cutoffs
    }

    method WriteJournal(write: Write) returns (written: bool)
      modifies this`disk
      ensures written <==> write.Written?
      ensures disk.snapshot == old(disk.snapshot)
      ensures write.FailedBefore? ==> disk == old(disk)
      ensures !write.FailedBefore? ==> disk.journal.Text? && Encodes(disk.journal.lines, journaled)
    {
      if write.FailedBefore? { return false; }
      var lines := EncodeCutoffs(journaled);
      disk := disk.(journal := Text(lines));
      return write.Written?;
    }

    /** `saveValidatorCutoff`: memory is rolled back when the write fails. */
    method SaveValidatorCutoff(v: Bytes, cutoff: int, write: Write) returns (saved: bool)
      modifies this`disk, this`journaled
      ensures saved <==> !Regresses(old(journaled), v, cutoff) && (Already(old(journaled), v, cutoff) || write.Written?)
      ensures journaled == if saved then old(journaled)[v := cutoff] else old(journaled)
      ensures disk.snapshot == old(disk.snapshot)
      ensures Regresses(old(journaled), v, cutoff) || Already(old(journaled), v, cutoff) || write.FailedBefore? ==>
                disk == old(disk)
      ensures !Regresses(old(journaled), v, cutoff) && !Already(old(journaled), v, cutoff) && !write.FailedBefore? ==>
                disk.journal.Text? && Encodes(disk.journal.lines, old(journaled)[v := cutoff])
    {
      if v in journaled && cutoff < journaled[v] { return false; }
      if v in journaled && journaled[v] == cutoff { return true; }
      var previous := journaled;
      journaled := journaled[v := cutoff];
      saved := WriteJournal(write);
      if !saved { journaled := previous; }
    }

    /** `persistValidatorCutoff`: acknowledged only after the journal was replaced. */
    method PersistValidatorCutoff(v: Bytes, cutoff: int, write: Write, ghost s: State) returns (ok: bool)
      requires Runs(s)
      modifies this
      ensures Runs(Next(s, Persist(v, cutoff, write)))
      ensures ok <==> Acknowledges(s, Persist(v, cutoff, write))
      ensures cutoffs == if ok then old(cutoffs)[v := cutoff] else old(cutoffs)
    {
      hide Encodes;
      if v in cutoffs && cutoff < cutoffs[v] { return false; }
      if v in cutoffs && cutoffs[v] == cutoff { return true; }
      ok := SaveValidatorCutoff(v, cutoff, write);
      if ok { cutoffs := cutoffs[v := cutoff]; }
    }
  }

  /** The cutoffs a snapshot contributes; a damaged snapshot is set aside when a journal exists. */
  method ReadSnapshot(disk: Disk) returns (error: Option<StartError>, cutoffs: CutoffMap, after: Disk)
    ensures error == Some(JournalMissing) <==> disk.journal.Missing? && disk.snapshot.Unreadable?
    ensures error == Some(SnapshotRefused) <==> disk.journal.Missing? && disk.snapshot.Inconsistent?
    ensures error.Some? ==> after == disk && (error.value == JournalMissing || error.value == SnapshotRefused)
    ensures error.None? ==> cutoffs == SnapshotCutoffs(disk.snapshot)
    ensures error.None? ==> after == disk.(snapshot := if Damaged(disk.snapshot) then NoSnapshot else disk.snapshot)
  {
    error, cutoffs, after := None, map[], disk;
    match disk.snapshot {
      case NoSnapshot =>
      case Unreadable =>
        if disk.journal.Missing? { error := Some(JournalMissing); } else { after := after.(snapshot := NoSnapshot); }
      case Inconsistent =>
        if disk.journal.Missing? { error := Some(SnapshotRefused); } else { after := after.(snapshot := NoSnapshot); }
      case Readable(stored) => cutoffs := stored;
    }
  }

  /** Constructing the store over its files: read the journal, read or quarantine the snapshot, take
      the higher cutoff of the two for every validator, and write the journal if it changed. */
  method Start(disk: Disk, write: Write, ghost s: State)
    returns (node: ValidatorCutoffs?, error: Option<StartError>, after: Disk)
    requires OnDisk(disk, s)
    ensures error == Refusal(s, write) && (node == null <==> error.Some?)
    ensures node != null ==> fresh(node) && node.Runs(Restarted(s, write)) && node.disk == after
    ensures OnDisk(after, Restarted(s, write))
  {
    hide DecodeCutoffs, Encodes, Merge, Legible;
    after := disk;
    var journal: CutoffMap := map[];
    if disk.journal.Text? {
      JournalReads(disk.journal.lines, s.filed.value);
      var decoded := DecodeCutoffs(disk.journal.lines);
      if decoded.None? { return null, Some(JournalCorrupt), after; }
      journal := decoded.value;
    }
    var fromSnapshot;
    error, fromSnapshot, after := ReadSnapshot(disk);
    if error.Some? { return null, error, after; }
    var merged := Merge(fromSnapshot, journal);
    MergeSettles(fromSnapshot, journal);
    node := new ValidatorCutoffs(after, Merge(journal, merged), merged);
    if disk.journal.Missing? || node.journaled != journal {
      var written := node.WriteJournal(write);
      after := node.disk;
      if !written { return null, Some(JournalWriteFailed), after; }
    }
  }

  lemma JournalReads(lines: seq<Line>, cutoffs: CutoffMap)
    requires Encodes(lines, cutoffs)
    ensures DecodeCutoffs(lines) == if Legible(cutoffs) then Some(cutoffs) else None
  {
    hide DecodeCutoffs, Encodes;
    JournalRoundTrip(lines, cutoffs);
  }

  /** Any run, with writes that succeed or fail in either way, crashes, and snapshots written or
      damaged: what the store holds after each event, nothing where its start was refused, is what
      the states above say. */
  method DriveCutoffs(script: seq<Happening>, firstWrite: Write) returns (views: seq<Option<CutoffMap>>)
    ensures |views| == |script| + 1
    ensures forall n :: 0 <= n <= |script| ==> views[n] == StateAfter(firstWrite, script[..n]).running
  {
    hide Next, Restarted, Refusal, OnDisk;
    ghost var s := State(None, NoSnapshot, None);
    assert OnDisk(Disk(NoSnapshot, Missing), s) by { EmptyDirectory(); }
    var node, error, disk := Start(Disk(NoSnapshot, Missing), firstWrite, s);
    s := Restarted(s, firstWrite);
    RestartRuns(State(None, NoSnapshot, None), firstWrite);
    views := [if node == null then None else Some(node.cutoffs)];
    assert script[..0] == [];
    for n := 0 to |script|
      invariant |views| == n + 1 && s == StateAfter(firstWrite, script[..n])
      invariant node != null ==> fresh(node) && node.Runs(s)
      invariant node == null ==> s.running.None? && OnDisk(disk, s)
      invariant forall i :: 0 <= i <= n ==> views[i] == StateAfter(firstWrite, script[..i]).running
    {
      assert script[..n + 1][..n] == script[..n];
      ghost var next := Next(s, script[n]);
      match script[n] {
        case Persist(v, cutoff, write) =>
          if node == null {
            StoppedStays(s, script[n]);
          } else {
            var ok := node.PersistValidatorCutoff(v, cutoff, write, s);
          }
        case Crash(write) =>
          if node != null { disk := node.disk; }
          RestartRuns(s, write);
          node, error, disk := Start(disk, write, s);
        case SnapshotSaved =>
          if node == null {
            StoppedStays(s, script[n]);
          } else {
            SnapshotReplaced(node.disk, s, script[n]);
            node.disk := node.disk.(snapshot := Readable(node.cutoffs));
          }
        case SnapshotDamaged(file) =>
          if node == null {
            SnapshotReplaced(disk, s, script[n]);
            disk := disk.(snapshot := file);
          } else {
            SnapshotReplaced(node.disk, s, script[n]);
            node.disk := node.disk.(snapshot := file);
          }
      }
      s := next;
      views := views + [if node == null then None else Some(node.cutoffs)];
    }
  }

  lemma EmptyDirectory()
    ensures OnDisk(Disk(NoSnapshot, Missing), State(None, NoSnapshot, None))
  {
  }

  lemma RestartRuns(s: State, write: Write)
    ensures Restarted(s, write).running.Some? <==> Refusal(s, write).None?
    ensures Next(s, Crash(write)) == Restarted(s, write)
  {
  }

  lemma StoppedOnDisk(node: ValidatorCutoffs, s: State)
    requires node.Runs(s)
    ensures OnDisk(node.disk, s.(running := None))
  {
  }

  lemma StillStopped(disk: Disk, s: State)
    requires OnDisk(disk, s)
    ensures OnDisk(disk, s.(running := None))
  {
  }

  lemma StoppedStays(s: State, h: Happening)
    requires s.running.None? && (h.Persist? || h.SnapshotSaved?)
    ensures Next(s, h) == s
  {
  }

  lemma SnapshotReplaced(disk: Disk, s: State, h: Happening)
    requires OnDisk(disk, s) && (h.SnapshotDamaged? || (h.SnapshotSaved? && s.running.Some?))
    ensures var file := if h.SnapshotSaved? then Readable(s.running.value) else h.file;
            Next(s, h) == s.(snapshot := file) && OnDisk(disk.(snapshot := file), Next(s, h))
  {
  }
}
