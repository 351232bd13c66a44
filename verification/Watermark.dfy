/** The two forms of the acceptance watermark: k-of-n threshold, and explicit alternatives. */
module Watermark {
  import opened Bytes
  import opened Sorting
  import opened Sequences
  import opened ControlStoreModel

  datatype Explanation = Established | InsufficientContiguousHeartbeats | InvalidPolicy

  datatype Evidence = Evidence(
    cutoffMs: Option<int>, blockingValidatorIds: seq<Bytes>, heartbeatIds: seq<Bytes>, explanation: Explanation)

  /** The heartbeat the store holds for each validator. */
  type Heartbeats = map<Bytes, Heartbeat>

  ghost predicate Keyed(beats: Heartbeats) {
    forall v :: v in beats ==> beats[v].validatorId == v
  }

  /** The validator's feed is contiguous through a heartbeat with at least this cutoff: it will
      not attest to anything at or below it any more. */
  predicate Passed(beats: Heartbeats, v: Bytes, cutoff: int) {
    v in beats && beats[v].feedContiguous && beats[v].acceptanceCutoffMs >= cutoff
  }

  predicate Contiguous(beats: Heartbeats, v: Bytes) {
    v in beats && beats[v].feedContiguous
  }

  /** Some member of a possible proof has passed the cutoff. */
  ghost predicate Meets(beats: Heartbeats, proof: set<Bytes>, cutoff: int) {
    exists v :: v in proof && Passed(beats, v, cutoff)
  }

  /** What a watermark over a family of possible proofs must be: the greatest cutoff that every
      proof meets, or nothing when some proof meets no cutoff at all. */
  ghost predicate IsWatermark(beats: Heartbeats, proofs: iset<set<Bytes>>, cutoff: Option<int>) {
    match cutoff
    case Some(c) =>
      && (forall proof :: proof in proofs ==> Meets(beats, proof, c))
      && (exists proof :: proof in proofs && forall higher :: higher > c ==> !Meets(beats, proof, higher))
    case None => exists proof :: proof in proofs && forall c :: !Meets(beats, proof, c)
  }

  /** There is at most one such cutoff, so it is a specification. */
  lemma WatermarkUnique(beats: Heartbeats, proofs: iset<set<Bytes>>, a: Option<int>, b: Option<int>)
    requires IsWatermark(beats, proofs, a) && IsWatermark(beats, proofs, b)
    ensures a == b
  {
    if a.Some? && b.Some? {
      NotAbove(beats, proofs, a.value, b.value);
      NotAbove(beats, proofs, b.value, a.value);
    }
  }

  lemma NotAbove(beats: Heartbeats, proofs: iset<set<Bytes>>, a: int, b: int)
    requires forall proof :: proof in proofs ==> Meets(beats, proof, a)
    requires exists proof :: proof in proofs && forall higher :: higher > b ==> !Meets(beats, proof, higher)
    ensures a <= b
  {
    var proof :| proof in proofs && forall higher :: higher > b ==> !Meets(beats, proof, higher);
    assert Meets(beats, proof, a);
  }

  function Elements<T>(s: seq<T>): set<T> {
    set x | x in s
  }

  /** All sets of `k` of the policy's validators. */
  ghost function KSubsets(ids: seq<Bytes>, k: int): iset<set<Bytes>> {
    iset s: set<Bytes> | s <= Elements(ids) && |s| == k
  }

  // ---- threshold form

  function EarlierCutoff(a: Heartbeat, b: Heartbeat): bool {
    a.acceptanceCutoffMs <= b.acceptanceCutoffMs
  }

  function AvailableBeats(beats: Heartbeats, ids: seq<Bytes>): (available: seq<Heartbeat>)
    ensures |available| <= |ids|
  {
    if ids == [] then []
    else
      var rest := AvailableBeats(beats, ids[1..]);
      if Contiguous(beats, ids[0]) then [beats[ids[0]]] + rest else rest
  }

  predicate ThresholdValid(ids: seq<Bytes>, threshold: int) {
    1 <= threshold <= |ids| && Distinct(ids)
  }

  function IdsOf(beats: seq<Heartbeat>): set<Bytes> {
    set h | h in beats :: h.validatorId
  }

  lemma {:induction false} ElementsSize(s: seq<Bytes>)
    requires Distinct(s)
    ensures |Elements(s)| == |s|
  {
    if s != [] {
      ElementsSize(s[1..]);
      assert Elements(s) == {s[0]} + Elements(s[1..]);
      assert s[0] !in s[1..];
    }
  }

  lemma {:induction false} IdsOfSize(beats: seq<Heartbeat>)
    requires forall i, j :: 0 <= i < j < |beats| ==> beats[i].validatorId != beats[j].validatorId
    ensures |IdsOf(beats)| == |beats|
  {
    if beats != [] {
      IdsOfSize(beats[1..]);
      assert beats == [beats[0]] + beats[1..];
      assert IdsOf(beats) == {beats[0].validatorId} + IdsOf(beats[1..]);
      assert beats[0].validatorId !in IdsOf(beats[1..]);
    }
  }

  lemma {:induction false} AvailableAre(beats: Heartbeats, ids: seq<Bytes>)
    requires Keyed(beats) && Distinct(ids)
    ensures forall h :: h in AvailableBeats(beats, ids) <==>
              h.validatorId in ids && Contiguous(beats, h.validatorId) && h == beats[h.validatorId]
    ensures forall i, j :: 0 <= i < j < |AvailableBeats(beats, ids)| ==>
              AvailableBeats(beats, ids)[i].validatorId != AvailableBeats(beats, ids)[j].validatorId
  {
    if ids != [] {
      AvailableAre(beats, ids[1..]);
      assert ids == [ids[0]] + ids[1..];
      assert ids[0] !in ids[1..];
      var rest := AvailableBeats(beats, ids[1..]);
      assert forall i :: 0 <= i < |rest| ==> rest[i] in rest;
    }
  }

  /** `sorted` holds the contiguous heartbeats of the validators, one each. */
  ghost predicate FeedsOf(beats: Heartbeats, ids: seq<Bytes>, sorted: seq<Heartbeat>) {
    && (forall h :: h in sorted <==>
         h.validatorId in ids && Contiguous(beats, h.validatorId) && h == beats[h.validatorId])
    && (forall i, j :: 0 <= i < j < |sorted| ==> sorted[i].validatorId != sorted[j].validatorId)
  }

  /** The sorted available heartbeats: same members, pairwise different validators. */
  lemma SortedBeats(beats: Heartbeats, ids: seq<Bytes>) returns (sorted: seq<Heartbeat>)
    requires Keyed(beats) && Distinct(ids)
    ensures sorted == Sort(AvailableBeats(beats, ids), EarlierCutoff) && Sorted(sorted, EarlierCutoff)
    ensures FeedsOf(beats, ids, sorted)
  {
    var available := AvailableBeats(beats, ids);
    AvailableAre(beats, ids);
    sorted := Sort(available, EarlierCutoff);
    SortSorts(available, EarlierCutoff);
    forall h: Heartbeat ensures h in sorted <==> h in available { SameElements(sorted, available, h); }
    DistinctValidatorsPermute(available, sorted);
  }

  lemma DistinctValidatorsPermute(a: seq<Heartbeat>, b: seq<Heartbeat>)
    requires multiset(a) == multiset(b) && |a| == |b|
    requires forall i, j :: 0 <= i < j < |a| ==> a[i].validatorId != a[j].validatorId
    ensures forall i, j :: 0 <= i < j < |b| ==> b[i].validatorId != b[j].validatorId
  {
    IdsOfSize(a);
    assert IdsOf(a) == IdsOf(b) by {
      forall h: Heartbeat ensures h in a <==> h in b { SameElements(a, b, h); }
    }
    DistinctFromSize(b);
  }

  lemma {:induction false} DistinctFromSize(b: seq<Heartbeat>)
    ensures |IdsOf(b)| <= |b|
    ensures |IdsOf(b)| == |b| ==> forall i, j :: 0 <= i < j < |b| ==> b[i].validatorId != b[j].validatorId
  {
    if b != [] {
      DistinctFromSize(b[1..]);
      FirstId(b);
      if |IdsOf(b)| == |b| {
        assert b[0].validatorId !in IdsOf(b[1..]);
        forall i, j | 0 <= i < j < |b| ensures b[i].validatorId != b[j].validatorId {
          if i == 0 { assert b[j] in b[1..]; } else { assert b[i] == b[1..][i - 1] && b[j] == b[1..][j - 1]; }
        }
      }
    }
  }

  lemma FirstId(b: seq<Heartbeat>)
    requires b != []
    ensures IdsOf(b) == {b[0].validatorId} + IdsOf(b[1..])
  {
    assert b == [b[0]] + b[1..];
  }

  /** The validators with no contiguous feed, together with the first `n` of the sorted ones. */
  ghost function Lowest(beats: Heartbeats, ids: seq<Bytes>, sorted: seq<Heartbeat>, n: nat): set<Bytes>
    requires n <= |sorted|
  {
    (set v | v in ids && !Contiguous(beats, v)) + IdsOf(sorted[..n])
  }

  lemma LowestSize(beats: Heartbeats, ids: seq<Bytes>, sorted: seq<Heartbeat>, n: nat)
    requires Distinct(ids) && n <= |sorted| && Keyed(beats) && FeedsOf(beats, ids, sorted)
    ensures |Lowest(beats, ids, sorted, n)| == |ids| - |sorted| + n
    ensures Lowest(beats, ids, sorted, n) <= Elements(ids)
  {
    var missing := set v | v in ids && !Contiguous(beats, v);
    ElementsSize(ids);
    IdsOfSize(sorted);
    IdsOfSize(sorted[..n]);
    forall v | v in ids && Contiguous(beats, v) ensures v in IdsOf(sorted) { assert beats[v] in sorted; }
    assert Elements(ids) == missing + IdsOf(sorted) && missing !! IdsOf(sorted);
    assert IdsOf(sorted[..n]) <= IdsOf(sorted);
  }

  /** The k-th lowest cutoff, missing feeds counting as lowest, is the watermark of all k-subsets. */
  lemma KthLowestIsWatermark(beats: Heartbeats, ids: seq<Bytes>, k: int, sorted: seq<Heartbeat>)
    requires Keyed(beats) && ThresholdValid(ids, k) && Sorted(sorted, EarlierCutoff) && FeedsOf(beats, ids, sorted)
    ensures var index := k - 1 - (|ids| - |sorted|);
            && index < |sorted|
            && IsWatermark(beats, KSubsets(ids, k), if index < 0 then None else Some(sorted[index].acceptanceCutoffMs))
  {
    hide Sorted, FeedsOf, IsWatermark, Distinct, Lowest;
    LowestSize(beats, ids, sorted, 0);
    var index := k - 1 - (|ids| - |sorted|);
    if index < 0 { TooFewFeeds(beats, ids, k, sorted); } else { EnoughFeeds(beats, ids, k, sorted, index); }
  }

  lemma TooFewFeeds(beats: Heartbeats, ids: seq<Bytes>, k: int, sorted: seq<Heartbeat>)
    requires Keyed(beats) && ThresholdValid(ids, k) && FeedsOf(beats, ids, sorted) && k <= |ids| - |sorted|
    ensures IsWatermark(beats, KSubsets(ids, k), None)
  {
    LowestSize(beats, ids, sorted, 0);
    var proof := SubsetOfSize(Lowest(beats, ids, sorted, 0), k);
    assert sorted[..0] == [];
    assert proof in KSubsets(ids, k);
    forall c ensures !Meets(beats, proof, c) { }
  }

  lemma EnoughFeeds(beats: Heartbeats, ids: seq<Bytes>, k: int, sorted: seq<Heartbeat>, index: nat)
    requires Keyed(beats) && ThresholdValid(ids, k) && Sorted(sorted, EarlierCutoff) && FeedsOf(beats, ids, sorted)
    requires index == k - 1 - (|ids| - |sorted|) && index < |sorted|
    ensures IsWatermark(beats, KSubsets(ids, k), Some(sorted[index].acceptanceCutoffMs))
  {
    hide Sorted, FeedsOf, Distinct, Lowest, Meets;
    var c := sorted[index].acceptanceCutoffMs;
    LowestSize(beats, ids, sorted, index);
    LowestSize(beats, ids, sorted, index + 1);
    forall proof | proof in KSubsets(ids, k) ensures Meets(beats, proof, c) {
      EveryProofMeets(beats, ids, k, sorted, index, proof);
    }
    var worst := Lowest(beats, ids, sorted, index + 1);
    assert worst in KSubsets(ids, k);
    forall higher | higher > c
      ensures !Meets(beats, worst, higher)
    {
      LowestMeetsNoHigher(beats, ids, sorted, index, higher);
    }
  }

  lemma LowestMeetsNoHigher(beats: Heartbeats, ids: seq<Bytes>, sorted: seq<Heartbeat>, index: nat, higher: int)
    requires FeedsOf(beats, ids, sorted) && Sorted(sorted, EarlierCutoff) && index < |sorted|
    requires higher > sorted[index].acceptanceCutoffMs
    ensures !Meets(beats, Lowest(beats, ids, sorted, index + 1), higher)
  {
    forall v | v in Lowest(beats, ids, sorted, index + 1) ensures !Passed(beats, v, higher) {
      if Contiguous(beats, v) {
        var h :| h in sorted[..index + 1] && h.validatorId == v;
        var i :| 0 <= i <= index && sorted[i] == h;
        assert h in sorted;
        assert i == index || EarlierCutoff(sorted[i], sorted[index]);
      }
    }
  }

  lemma EveryProofMeets(beats: Heartbeats, ids: seq<Bytes>, k: int, sorted: seq<Heartbeat>, index: nat,
      proof: set<Bytes>)
    requires index < |sorted| && Sorted(sorted, EarlierCutoff) && proof <= Elements(ids) && |proof| == k
    requires FeedsOf(beats, ids, sorted) && Keyed(beats) && |Lowest(beats, ids, sorted, index)| < k
    ensures Meets(beats, proof, sorted[index].acceptanceCutoffMs)
  {
    var low := Lowest(beats, ids, sorted, index);
    if proof <= low { SubsetSize(proof, low); }
    var v :| v in proof && v !in low;
    assert v in ids && Contiguous(beats, v) && beats[v] in sorted;
    var i :| 0 <= i < |sorted| && sorted[i] == beats[v];
    assert forall q :: 0 <= q < index ==> sorted[q] == sorted[..index][q] && sorted[q].validatorId in low;
    assert i == index || EarlierCutoff(sorted[index], sorted[i]);
    assert Passed(beats, v, sorted[index].acceptanceCutoffMs);
  }

  lemma {:induction false} SubsetSize(a: set<Bytes>, b: set<Bytes>)
    requires a <= b
    ensures |a| <= |b|
    decreases |a|
  {
    if a != {} {
      var x :| x in a;
      SubsetSize(a - {x}, b - {x});
    }
  }

  lemma {:induction false} SubsetOfSize(s: set<Bytes>, k: nat) returns (t: set<Bytes>)
    requires k <= |s|
    ensures t <= s && |t| == k
    decreases |s|
  {
    if k == |s| {
      t := s;
    } else {
      var x :| x in s;
      t := SubsetOfSize(s - {x}, k);
    }
  }

  function KeepFrom(sorted: seq<Heartbeat>, cutoff: int): seq<Heartbeat> {
    if sorted == [] then []
    else if sorted[0].acceptanceCutoffMs >= cutoff then [sorted[0]] + KeepFrom(sorted[1..], cutoff)
    else KeepFrom(sorted[1..], cutoff)
  }

  lemma {:induction false} KeepFromExact(sorted: seq<Heartbeat>, cutoff: int)
    ensures forall h :: h in KeepFrom(sorted, cutoff) <==> h in sorted && h.acceptanceCutoffMs >= cutoff
  {
    if sorted != [] {
      KeepFromExact(sorted[1..], cutoff);
      assert sorted == [sorted[0]] + sorted[1..];
    }
  }

  function ValidatorIds(beats: seq<Heartbeat>): seq<Bytes> {
    seq(|beats|, i requires 0 <= i < |beats| => beats[i].validatorId)
  }

  function HeartbeatIds(beats: seq<Heartbeat>): seq<Bytes> {
    seq(|beats|, i requires 0 <= i < |beats| => beats[i].heartbeatId)
  }

  /** The threshold form computes the watermark of all k-subsets of its validators, and names as
      blocking exactly the validators that passed it. */
  method ThresholdWatermark(beats: Heartbeats, ids: seq<Bytes>, threshold: int) returns (r: Evidence)
    requires Keyed(beats)
    ensures r.explanation.InvalidPolicy? <==> !ThresholdValid(ids, threshold)
    ensures r.explanation.Established? <==> r.cutoffMs.Some?
    ensures ThresholdValid(ids, threshold) ==> IsWatermark(beats, KSubsets(ids, threshold), r.cutoffMs)
    ensures r.cutoffMs.Some? ==>
              forall v :: v in r.blockingValidatorIds <==> v in ids && Passed(beats, v, r.cutoffMs.value)
    ensures r.cutoffMs.None? ==> r.blockingValidatorIds == [] && r.heartbeatIds == []
    ensures NamesBeats(beats, r)
  {
    if threshold < 1 || threshold > |ids| || |Elements(ids)| != |ids| {
      DistinctIdsBySize(ids);
      return Evidence(None, [], [], InvalidPolicy);
    }
    DistinctIdsBySize(ids);
    var available := Sort(AvailableBeats(beats, ids), EarlierCutoff);
    ghost var sorted := SortedBeats(beats, ids);
    KthLowestIsWatermark(beats, ids, threshold, sorted);
    var missing := |ids| - |available|;
    var selectedIndex := threshold - 1 - missing;
    if selectedIndex < 0 || selectedIndex >= |available| {
      return Evidence(None, [], [], InsufficientContiguousHeartbeats);
    }
    var cutoff := available[selectedIndex].acceptanceCutoffMs;
    var blocking := KeepFrom(available, cutoff);
    KeepFromExact(available, cutoff);
    BlockingAre(beats, ids, available, blocking, cutoff);
    BlockingNamed(beats, ids, available, blocking);
    return Evidence(Some(cutoff), ValidatorIds(blocking), HeartbeatIds(blocking), Established);
  }

  /** Each blocking validator is listed with the heartbeat held for it. */
  ghost predicate NamesBeats(beats: Heartbeats, r: Evidence) {
    && |r.heartbeatIds| == |r.blockingValidatorIds|
    && forall i :: 0 <= i < |r.heartbeatIds| ==>
         r.blockingValidatorIds[i] in beats && r.heartbeatIds[i] == beats[r.blockingValidatorIds[i]].heartbeatId
  }

  lemma BlockingNamed(beats: Heartbeats, ids: seq<Bytes>, sorted: seq<Heartbeat>, blocking: seq<Heartbeat>)
    requires Keyed(beats) && FeedsOf(beats, ids, sorted) && forall h :: h in blocking ==> h in sorted
    ensures forall i :: 0 <= i < |blocking| ==>
              blocking[i].validatorId in beats && blocking[i] == beats[blocking[i].validatorId]
  {
    forall i | 0 <= i < |blocking|
      ensures blocking[i].validatorId in beats && blocking[i] == beats[blocking[i].validatorId]
    {
      assert blocking[i] in blocking && blocking[i] in sorted;
    }
  }

  /** A feed with a gap counts for nothing: the watermark is that of the contiguous heartbeats. */
  lemma GapsCountForNothing(beats: Heartbeats, proofs: iset<set<Bytes>>, cutoff: Option<int>)
    ensures IsWatermark(beats, proofs, cutoff) <==>
              IsWatermark(map v | v in beats && beats[v].feedContiguous :: beats[v], proofs, cutoff)
  {
    var whole := map v | v in beats && beats[v].feedContiguous :: beats[v];
    forall proof, c ensures Meets(beats, proof, c) <==> Meets(whole, proof, c) {
      forall v ensures Passed(beats, v, c) <==> Passed(whole, v, c) {}
    }
  }

  lemma {:induction false} DistinctIdsBySize(s: seq<Bytes>)
    ensures |Elements(s)| <= |s|
    ensures |Elements(s)| == |s| <==> Distinct(s)
  {
    if s != [] {
      DistinctIdsBySize(s[1..]);
      assert s == [s[0]] + s[1..];
      assert Elements(s) == {s[0]} + Elements(s[1..]);
      if s[0] in s[1..] {
        assert Elements(s) == Elements(s[1..]);
        var i :| 0 <= i < |s[1..]| && s[1..][i] == s[0];
        assert s[i + 1] == s[0];
      }
    }
  }

  lemma BlockingAre(beats: Heartbeats, ids: seq<Bytes>, sorted: seq<Heartbeat>, blocking: seq<Heartbeat>, cutoff: int)
    requires Keyed(beats) && FeedsOf(beats, ids, sorted)
    requires forall h :: h in blocking <==> h in sorted && h.acceptanceCutoffMs >= cutoff
    ensures forall v :: v in ValidatorIds(blocking) <==> v in ids && Passed(beats, v, cutoff)
  {
    forall v ensures v in ValidatorIds(blocking) <==> v in ids && Passed(beats, v, cutoff) {
      if v in ValidatorIds(blocking) {
        var i :| 0 <= i < |blocking| && blocking[i].validatorId == v;
        assert blocking[i] in blocking;
      }
      if v in ids && Passed(beats, v, cutoff) {
        assert beats[v] in blocking;
        var i :| 0 <= i < |blocking| && blocking[i] == beats[v];
        assert ValidatorIds(blocking)[i] == v;
      }
    }
  }

  // ---- proof alternatives

  ghost function Family(proofs: seq<seq<Bytes>>): iset<set<Bytes>> {
    iset i | 0 <= i < |proofs| :: Elements(proofs[i])
  }

  /** The best contiguous heartbeat of one proof: the highest cutoff any member passed. */
  method BestOf(beats: Heartbeats, proof: seq<Bytes>) returns (best: Option<Heartbeat>)
    requires Keyed(beats)
    ensures best.None? ==> forall c :: !Meets(beats, Elements(proof), c)
    ensures best.Some? ==> best.value.validatorId in proof && Contiguous(beats, best.value.validatorId)
                           && best.value == beats[best.value.validatorId]
    ensures best.Some? ==> Meets(beats, Elements(proof), best.value.acceptanceCutoffMs)
    ensures best.Some? ==> forall c :: c > best.value.acceptanceCutoffMs ==> !Meets(beats, Elements(proof), c)
  {
    best := None;
    for index := 0 to |proof|
      invariant best.None? ==> forall i :: 0 <= i < index ==> !Contiguous(beats, proof[i])
      invariant best.Some? ==> best.value.validatorId in proof && Contiguous(beats, best.value.validatorId)
                               && best.value == beats[best.value.validatorId]
      invariant best.Some? ==> forall i :: 0 <= i < index && Contiguous(beats, proof[i])
                                 ==> beats[proof[i]].acceptanceCutoffMs <= best.value.acceptanceCutoffMs
    {
      var v := proof[index];
      if Contiguous(beats, v) && (best.None? || beats[v].acceptanceCutoffMs > best.value.acceptanceCutoffMs) {
        best := Some(beats[v]);
      }
    }
    assert best.Some? ==> Passed(beats, best.value.validatorId, best.value.acceptanceCutoffMs);
  }

  /** Some proof of the list meets nothing above the cutoff. */
  ghost predicate Capped(beats: Heartbeats, proofs: seq<seq<Bytes>>, cutoff: int) {
    exists i :: 0 <= i < |proofs| && MeetsNothingAbove(beats, Elements(proofs[i]), cutoff)
  }

  ghost predicate MeetsNothingAbove(beats: Heartbeats, proof: set<Bytes>, cutoff: int) {
    forall higher :: higher > cutoff ==> !Meets(beats, proof, higher)
  }

  predicate Touches(blocking: seq<Bytes>, proof: seq<Bytes>) {
    exists k :: 0 <= k < |blocking| && blocking[k] in proof
  }

  /** The alternatives form computes the watermark of the listed proofs, and names a validator of
      every proof that passed it. */
  method AlternativesWatermark(beats: Heartbeats, proofs: seq<seq<Bytes>>) returns (r: Evidence)
    requires Keyed(beats)
    ensures r.explanation.InvalidPolicy? <==> proofs == [] || [] in proofs
    ensures r.explanation.Established? <==> r.cutoffMs.Some?
    ensures !r.explanation.InvalidPolicy? ==> IsWatermark(beats, Family(proofs), r.cutoffMs)
    ensures r.cutoffMs.Some? ==> forall v :: v in r.blockingValidatorIds ==> Passed(beats, v, r.cutoffMs.value)
    ensures r.cutoffMs.Some? ==> forall i :: 0 <= i < |proofs| ==> Touches(r.blockingValidatorIds, proofs[i])
    ensures r.cutoffMs.None? ==> r.blockingValidatorIds == [] && r.heartbeatIds == []
    ensures NamesBeats(beats, r)
    ensures forall v :: v in r.blockingValidatorIds ==> InProofs(proofs, v)
  {
    hide Chosen, InProofs, NamesBeats;
    assert NamesBeats(beats, Evidence(None, [], [], InvalidPolicy)) by { NamesNone(beats, InvalidPolicy); }
    if proofs == [] || [] in proofs { return Evidence(None, [], [], InvalidPolicy); }
    var cutoff: Option<int> := None;
    var selected: seq<Heartbeat> := [];
    assert Chosen(beats, proofs, selected) by { ChosenNone(beats, proofs); }
    for index := 0 to |proofs|
      invariant if index > 0 then cutoff.Some? else selected == []
      invariant cutoff.Some? ==> forall i :: 0 <= i < index ==> Meets(beats, Elements(proofs[i]), cutoff.value)
      invariant cutoff.Some? ==> Capped(beats, proofs, cutoff.value)
      invariant cutoff.Some? ==>
                forall k :: 0 <= k < |selected| ==> Passed(beats, selected[k].validatorId, cutoff.value)
      invariant forall i :: 0 <= i < index ==> Touches(ValidatorIds(selected), proofs[i])
      invariant Chosen(beats, proofs, selected)
    {
      var best := BestOf(beats, proofs[index]);
      if best.None? {
        assert Elements(proofs[index]) in Family(proofs);
        NamesNone(beats, InsufficientContiguousHeartbeats);
        return Evidence(None, [], [], InsufficientContiguousHeartbeats);
      }
      ghost var before := cutoff;
      if cutoff.None? || best.value.acceptanceCutoffMs < cutoff.value {
        cutoff := Some(best.value.acceptanceCutoffMs);
        assert Capped(beats, proofs, cutoff.value);
      }
      forall i | 0 <= i < index ensures Meets(beats, Elements(proofs[i]), cutoff.value) {
        assert Meets(beats, Elements(proofs[i]), before.value);
        MeetsLower(beats, Elements(proofs[i]), before.value, cutoff.value);
      }
      MeetsLower(beats, Elements(proofs[index]), best.value.acceptanceCutoffMs, cutoff.value);
      if best.value in selected {
        ghost var k :| 0 <= k < |selected| && selected[k] == best.value;
        assert ValidatorIds(selected)[k] in proofs[index];
      } else {
        TouchMore(selected, best.value, proofs, index);
        ChosenMore(beats, proofs, selected, best.value, index);
        selected := selected + [best.value];
      }
    }
    FamilyWatermark(beats, proofs, cutoff.value);
    ChosenNamed(beats, proofs, selected, cutoff);
    return Evidence(cutoff, ValidatorIds(selected), HeartbeatIds(selected), Established);
  }

  predicate InProofs(proofs: seq<seq<Bytes>>, v: Bytes) { exists i :: 0 <= i < |proofs| && v in proofs[i] }

  /** The heartbeats held for validators of the proofs. */
  ghost predicate Chosen(beats: Heartbeats, proofs: seq<seq<Bytes>>, selected: seq<Heartbeat>) {
    forall k :: 0 <= k < |selected| ==>
      && selected[k].validatorId in beats && selected[k] == beats[selected[k].validatorId]
      && InProofs(proofs, selected[k].validatorId)
  }

  lemma NamesNone(beats: Heartbeats, explanation: Explanation)
    ensures NamesBeats(beats, Evidence(None, [], [], explanation))
  {
  }

  lemma ChosenNone(beats: Heartbeats, proofs: seq<seq<Bytes>>)
    ensures Chosen(beats, proofs, [])
  {
  }

  lemma ChosenMore(beats: Heartbeats, proofs: seq<seq<Bytes>>, selected: seq<Heartbeat>, h: Heartbeat, index: nat)
    requires Chosen(beats, proofs, selected) && index < |proofs| && h.validatorId in proofs[index]
    requires h.validatorId in beats && h == beats[h.validatorId]
    ensures Chosen(beats, proofs, selected + [h])
  {
  }

  lemma ChosenNamed(beats: Heartbeats, proofs: seq<seq<Bytes>>, selected: seq<Heartbeat>, cutoff: Option<int>)
    requires Chosen(beats, proofs, selected)
    ensures NamesBeats(beats, Evidence(cutoff, ValidatorIds(selected), HeartbeatIds(selected), Established))
    ensures forall v :: v in ValidatorIds(selected) ==> InProofs(proofs, v)
  {
    hide InProofs;
    forall v | v in ValidatorIds(selected) ensures InProofs(proofs, v) {
      var k :| 0 <= k < |selected| && ValidatorIds(selected)[k] == v;
    }
  }

  lemma MeetsLower(beats: Heartbeats, proof: set<Bytes>, c: int, lower: int)
    requires Meets(beats, proof, c) && lower <= c
    ensures Meets(beats, proof, lower)
  {
    var v :| v in proof && Passed(beats, v, c);
    assert Passed(beats, v, lower);
  }

  lemma TouchMore(selected: seq<Heartbeat>, h: Heartbeat, proofs: seq<seq<Bytes>>, index: nat)
    requires index < |proofs| && h.validatorId in proofs[index]
    requires forall i :: 0 <= i < index ==> Touches(ValidatorIds(selected), proofs[i])
    ensures forall i :: 0 <= i <= index ==> Touches(ValidatorIds(selected + [h]), proofs[i])
  {
    var ids := ValidatorIds(selected + [h]);
    assert ids[|selected|] == h.validatorId;
    forall i | 0 <= i < index ensures Touches(ids, proofs[i]) {
      var k :| 0 <= k < |selected| && ValidatorIds(selected)[k] in proofs[i];
      assert ids[k] == ValidatorIds(selected)[k];
    }
  }

  lemma FamilyWatermark(beats: Heartbeats, proofs: seq<seq<Bytes>>, c: int)
    requires forall i :: 0 <= i < |proofs| ==> Meets(beats, Elements(proofs[i]), c)
    requires Capped(beats, proofs, c)
    ensures IsWatermark(beats, Family(proofs), Some(c))
  {
    var i :| 0 <= i < |proofs| && MeetsNothingAbove(beats, Elements(proofs[i]), c);
    assert Elements(proofs[i]) in Family(proofs);
  }

  /** On a list of all k-subsets of a valid threshold policy the two forms give the same cutoff
      and the same explanation. */
  method BothForms(beats: Heartbeats, ids: seq<Bytes>, threshold: int, proofs: seq<seq<Bytes>>)
    returns (byThreshold: Evidence, byAlternatives: Evidence)
    requires Keyed(beats) && ThresholdValid(ids, threshold)
    requires Family(proofs) == KSubsets(ids, threshold)
    ensures byThreshold.cutoffMs == byAlternatives.cutoffMs
    ensures byThreshold.explanation == byAlternatives.explanation
  {
    byThreshold := ThresholdWatermark(beats, ids, threshold);
    byAlternatives := AlternativesWatermark(beats, proofs);
    AllSubsetsListed(ids, threshold, proofs);
    WatermarkUnique(beats, Family(proofs), byThreshold.cutoffMs, byAlternatives.cutoffMs);
  }

  lemma AllSubsetsListed(ids: seq<Bytes>, k: int, proofs: seq<seq<Bytes>>)
    requires ThresholdValid(ids, k) && Family(proofs) == KSubsets(ids, k)
    ensures proofs != [] && [] !in proofs
  {
    ElementsSize(ids);
    var some := SubsetOfSize(Elements(ids), k);
    assert some in Family(proofs);
    forall i | 0 <= i < |proofs| ensures proofs[i] != [] {
      assert Elements(proofs[i]) in Family(proofs);
      assert |Elements(proofs[i])| == k;
    }
  }

  // ---- which heartbeat counts

  /** With a membership revision, the one stored for it; without, the one latest in the
      validator's feed, the first stored among equals. */
  method HeartbeatFor(stored: seq<Heartbeat>, validatorId: Bytes, membershipRevision: Option<Bytes>)
    returns (found: Option<Heartbeat>)
    requires forall i, j :: 0 <= i < j < |stored| ==>
      (stored[i].membershipRevision, stored[i].validatorId) != (stored[j].membershipRevision, stored[j].validatorId)
    ensures found.Some? ==> found.value in stored && found.value.validatorId == validatorId
    ensures membershipRevision.Some? && found.Some? ==> found.value.membershipRevision == membershipRevision.value
    ensures found.None? ==> forall h :: h in stored && h.validatorId == validatorId ==>
              membershipRevision.Some? && h.membershipRevision != membershipRevision.value
    ensures membershipRevision.None? && found.Some? ==> forall h :: h in stored && h.validatorId == validatorId ==>
              h.validatorFeedSequence <= found.value.validatorFeedSequence
  {
    found := None;
    for index := 0 to |stored|
      invariant found.Some? ==> found.value in stored && found.value.validatorId == validatorId
      invariant membershipRevision.Some? && found.Some? ==> found.value.membershipRevision == membershipRevision.value
      invariant found.None? ==> forall i :: 0 <= i < index && stored[i].validatorId == validatorId ==>
                  membershipRevision.Some? && stored[i].membershipRevision != membershipRevision.value
      invariant membershipRevision.None? && found.Some? ==>
                forall i :: 0 <= i < index && stored[i].validatorId == validatorId ==>
                  stored[i].validatorFeedSequence <= found.value.validatorFeedSequence
    {
      var h := stored[index];
      if h.validatorId == validatorId {
        if membershipRevision.Some? {
          if h.membershipRevision == membershipRevision.value { found := Some(h); }
        } else if found.None? || h.validatorFeedSequence > found.value.validatorFeedSequence {
          found := Some(h);
        }
      }
    }
  }
}
