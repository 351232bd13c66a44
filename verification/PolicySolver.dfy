/** The policy solver: dynamic programming over capped states against the optimum over all
    subsets of the evidence. */
module PolicySolver {
  import opened Bytes
  import opened Sorting
  import opened Policy

  // ---- one item of evidence for each capability

  predicate EvidenceBefore(a: Evidence, b: Evidence) {
    var order := ByteOrder(a.capabilityId, b.capabilityId);
    order < 0 || (order == 0 && ByteOrder(a.validatorId, b.validatorId) <= 0)
  }

  predicate CapabilityBefore(a: Evidence, b: Evidence) {
    ByteOrder(a.capabilityId, b.capabilityId) <= 0
  }

  /** Strictly increasing capability ids. */
  ghost predicate Ascending(s: seq<Evidence>) {
    forall i, j :: 0 <= i < j < |s| ==> ByteOrder(s[i].capabilityId, s[j].capabilityId) < 0
  }

  function SameIds(x: Evidence): Evidence -> bool {
    (y: Evidence) => y.capabilityId == x.capabilityId && y.validatorId == x.validatorId
  }

  /** Of all evidence for its capability, it has the least validator id. */
  ghost predicate Least(evidence: seq<Evidence>, x: Evidence) {
    && x in evidence
    && forall y :: y in evidence && y.capabilityId == x.capabilityId ==> ByteOrder(x.validatorId, y.validatorId) <= 0
  }

  /** It comes first of the evidence with its capability and validator. */
  ghost predicate First(evidence: seq<Evidence>, x: Evidence) {
    Keep(evidence, SameIds(x)) != [] && Keep(evidence, SameIds(x))[0] == x
  }

  ghost predicate Represents(evidence: seq<Evidence>, x: Evidence) {
    Least(evidence, x) && First(evidence, x)
  }

  ghost predicate IsUnique(evidence: seq<Evidence>, unique: seq<Evidence>) {
    && Ascending(unique)
    && (forall x :: x in unique ==> Represents(evidence, x))
    && (forall y :: y in evidence ==> exists x :: x in unique && x.capabilityId == y.capabilityId)
  }

  lemma EvidenceOrderTotal()
    ensures TotalPreorder(EvidenceBefore) && TotalPreorder(CapabilityBefore)
  {
    forall a: Evidence, b: Evidence
      ensures (EvidenceBefore(a, b) || EvidenceBefore(b, a)) && (CapabilityBefore(a, b) || CapabilityBefore(b, a))
    {
      ByteOrderAntisymmetric(a.capabilityId, b.capabilityId);
      ByteOrderAntisymmetric(a.validatorId, b.validatorId);
    }
    forall a: Evidence, b: Evidence, c: Evidence
      ensures EvidenceBefore(a, b) && EvidenceBefore(b, c) ==> EvidenceBefore(a, c)
      ensures CapabilityBefore(a, b) && CapabilityBefore(b, c) ==> CapabilityBefore(a, c)
    {
      OrderChain(a.capabilityId, b.capabilityId, c.capabilityId);
      OrderChain(a.validatorId, b.validatorId, c.validatorId);
    }
  }

  lemma OrderChain(a: Bytes, b: Bytes, c: Bytes)
    ensures ByteOrder(a, b) <= 0 && ByteOrder(b, c) <= 0 ==> ByteOrder(a, c) <= 0
    ensures ByteOrder(a, b) <= 0 && ByteOrder(b, c) < 0 ==> ByteOrder(a, c) < 0
    ensures ByteOrder(a, b) < 0 && ByteOrder(b, c) <= 0 ==> ByteOrder(a, c) < 0
  {
    ByteOrderZero(a, b);
    ByteOrderZero(b, c);
    ByteOrderZero(a, c);
    if ByteOrder(a, b) < 0 && ByteOrder(b, c) < 0 { ByteOrderTransitive(a, b, c); }
  }

  /** The evidence kept so far: for each capability, what the map holds, in the order it came. */
  ghost predicate Keeping(done: seq<Evidence>, seen: map<Bytes, Evidence>, kept: seq<Evidence>) {
    && (forall x :: x in kept ==> x.capabilityId in seen && seen[x.capabilityId] == x)
    && (forall id :: id in seen ==> seen[id] in kept && seen[id] in done && seen[id].capabilityId == id)
    && (forall id :: id in seen ==> First(done, seen[id]))
    && (forall y :: y in done ==> y.capabilityId in seen && EvidenceBefore(seen[y.capabilityId], y))
    && Ascending(kept)
  }

  /** Sort, keep the first evidence of each capability, and sort what was kept. */
  method Deduplicate(evidence: seq<Evidence>) returns (unique: seq<Evidence>)
    ensures IsUnique(evidence, unique)
  {
    hide ByteOrder, Ascending, EvidenceBefore, Keeping;
    EvidenceOrderTotal();
    var canonical := Sort(evidence, EvidenceBefore);
    SortSorts(evidence, EvidenceBefore);
    var seen: map<Bytes, Evidence> := map[];
    var kept: seq<Evidence> := [];
    assert Keeping([], seen, kept) by { KeepingNothing(); }
    for i := 0 to |canonical|
      invariant Keeping(canonical[..i], seen, kept)
    {
      assert canonical[..i + 1] == canonical[..i] + [canonical[i]];
      KeepingOne(canonical[..i], seen, kept, canonical[i]);
      if canonical[i].capabilityId !in seen {
        seen := seen[canonical[i].capabilityId := canonical[i]];
        kept := kept + [canonical[i]];
      }
    }
    assert canonical[..|canonical|] == canonical;
    unique := Sort(kept, CapabilityBefore);
    KeptIsUnique(evidence, canonical, seen, kept);
  }

  lemma KeepingNothing()
    ensures Keeping([], map[], [])
  {
  }

  lemma KeepingOne(done: seq<Evidence>, seen: map<Bytes, Evidence>, kept: seq<Evidence>, x: Evidence)
    requires Keeping(done, seen, kept) && forall y :: y in done ==> EvidenceBefore(y, x)
    ensures x.capabilityId in seen ==> Keeping(done + [x], seen, kept)
    ensures x.capabilityId !in seen ==> Keeping(done + [x], seen[x.capabilityId := x], kept + [x])
  {
    hide ByteOrder, First;
    ByteOrderZero(x.capabilityId, x.capabilityId);
    ByteOrderZero(x.validatorId, x.validatorId);
    forall id | id in seen ensures First(done + [x], seen[id]) { FirstStays(done, x, seen[id]); }
    if x.capabilityId !in seen {
      FirstOfNew(done, x);
      forall y | y in kept ensures ByteOrder(y.capabilityId, x.capabilityId) < 0 {
        assert y in done;
        ByteOrderZero(y.capabilityId, x.capabilityId);
      }
      assert forall i :: 0 <= i < |kept| ==> kept[i] in kept;
    }
  }

  lemma FirstStays(done: seq<Evidence>, x: Evidence, y: Evidence)
    requires First(done, y)
    ensures First(done + [x], y)
  {
    assert (done + [x])[..|done|] == done;
  }

  lemma FirstOfNew(done: seq<Evidence>, x: Evidence)
    requires forall y :: y in done ==> y.capabilityId != x.capabilityId
    ensures First(done + [x], x)
  {
    KeepsNone(done, SameIds(x));
    assert (done + [x])[..|done|] == done;
  }

  lemma {:induction false} KeepsNone(s: seq<Evidence>, p: Evidence -> bool)
    requires forall y :: y in s ==> !p(y)
    ensures Keep(s, p) == []
  {
    if s != [] { KeepsNone(s[..|s| - 1], p); }
  }

  lemma TiesKeepOrder(evidence: seq<Evidence>, x: Evidence)
    ensures First(Sort(evidence, EvidenceBefore), x) <==> First(evidence, x)
  {
    forall a, b | SameIds(x)(a) && SameIds(x)(b) ensures EvidenceBefore(a, b) {
      ByteOrderZero(a.capabilityId, b.capabilityId);
      ByteOrderZero(a.validatorId, b.validatorId);
    }
    SortStable(evidence, EvidenceBefore, SameIds(x));
  }

  lemma KeptIsUnique(evidence: seq<Evidence>, canonical: seq<Evidence>, seen: map<Bytes, Evidence>, kept: seq<Evidence>)
    requires canonical == Sort(evidence, EvidenceBefore) && Keeping(canonical, seen, kept)
    ensures Sort(kept, CapabilityBefore) == kept && IsUnique(evidence, kept)
  {
    hide ByteOrder, First, Sort, Least, EvidenceBefore;
    SortStays(kept, CapabilityBefore);
    forall x: Evidence ensures x in canonical <==> x in evidence { SameElements(canonical, evidence, x); }
    forall x | x in kept ensures Represents(evidence, x) {
      TiesKeepOrder(evidence, x);
      assert seen[x.capabilityId] == x;
      SeenIsLeast(evidence, canonical, seen, kept, x);
    }
    forall y | y in evidence ensures exists x :: x in kept && x.capabilityId == y.capabilityId {
      assert y in canonical && seen[y.capabilityId] in kept;
    }
  }

  lemma SeenIsLeast(evidence: seq<Evidence>, canonical: seq<Evidence>, seen: map<Bytes, Evidence>, kept: seq<Evidence>,
      x: Evidence)
    requires Keeping(canonical, seen, kept) && x in kept && forall y :: y in canonical <==> y in evidence
    ensures Least(evidence, x)
  {
    hide ByteOrder, First, Ascending;
    assert seen[x.capabilityId] in canonical;
    forall y | y in evidence && y.capabilityId == x.capabilityId ensures ByteOrder(x.validatorId, y.validatorId) <= 0 {
      assert y in canonical && EvidenceBefore(seen[y.capabilityId], y);
      ByteOrderZero(x.capabilityId, y.capabilityId);
    }
  }

  // ---- selections

  /** `t` selects some of the first `n` items, in their order. */
  ghost predicate Picks(items: seq<Evidence>, n: nat, t: seq<Evidence>)
    requires n <= |items|
  {
    if n == 0 then t == []
    else Picks(items, n - 1, t) || (t != [] && t[|t| - 1] == items[n - 1] && Picks(items, n - 1, t[..|t| - 1]))
  }

  /** Compare two lists of the same length by capability ids, first difference first. */
  function IdOrder(a: seq<Evidence>, b: seq<Evidence>): int
    requires |a| == |b|
  {
    if a == [] then 0
    else
      var order := ByteOrder(a[0].capabilityId, b[0].capabilityId);
      if order != 0 then order else IdOrder(a[1..], b[1..])
  }

  /** Fewer members first, then the lexicographically least list of capabilities. */
  function SelectionOrder(a: seq<Evidence>, b: seq<Evidence>): int {
    if |a| != |b| then |a| - |b| else IdOrder(a, b)
  }

  predicate SelectionBefore(a: seq<Evidence>, b: seq<Evidence>) {
    SelectionOrder(a, b) <= 0
  }

  /** Position by position the same capabilities up to one where the first list has the smaller. */
  predicate LeadsAt(a: seq<Evidence>, b: seq<Evidence>, k: int) {
    && 0 <= k < |a| && k < |b| && ByteOrder(a[k].capabilityId, b[k].capabilityId) < 0
    && forall i :: 0 <= i < k ==> a[i].capabilityId == b[i].capabilityId
  }

  /** What makes one selection better: fewer members, or as many and the smaller capability at the first
      difference. */
  lemma SelectionMeans(a: seq<Evidence>, b: seq<Evidence>)
    ensures SelectionOrder(a, b) < 0 <==> |a| < |b| || (|a| == |b| && exists k :: LeadsAt(a, b, k))
    ensures SelectionBefore(a, b) <==> !(SelectionOrder(b, a) < 0)
  {
    hide IdOrder;
    if |a| == |b| {
      IdOrderSwap(a, b);
      IdOrderMeans(a, b);
    }
  }

  lemma {:induction false} IdOrderMeans(a: seq<Evidence>, b: seq<Evidence>)
    requires |a| == |b|
    ensures IdOrder(a, b) < 0 <==> exists k :: LeadsAt(a, b, k)
  {
    hide ByteOrder;
    if a != [] {
      var x, y := a[1..], b[1..];
      ByteOrderZero(a[0].capabilityId, b[0].capabilityId);
      IdOrderMeans(x, y);
      if a[0].capabilityId == b[0].capabilityId {
        if k :| LeadsAt(x, y, k) {
          forall i | 0 <= i < k + 1 ensures a[i].capabilityId == b[i].capabilityId {
            if i > 0 { assert x[i - 1] == a[i] && y[i - 1] == b[i]; }
          }
          assert LeadsAt(a, b, k + 1);
        }
        if k :| LeadsAt(a, b, k) {
          assert forall i :: 0 <= i < |x| ==> x[i] == a[i + 1] && y[i] == b[i + 1];
          assert LeadsAt(x, y, k - 1);
        }
      } else if ByteOrder(a[0].capabilityId, b[0].capabilityId) < 0 {
        assert LeadsAt(a, b, 0);
      }
    }
  }

  lemma {:induction false} IdOrderSwap(a: seq<Evidence>, b: seq<Evidence>)
    requires |a| == |b|
    ensures IdOrder(a, b) == -IdOrder(b, a)
  {
    if a != [] {
      ByteOrderAntisymmetric(a[0].capabilityId, b[0].capabilityId);
      IdOrderSwap(a[1..], b[1..]);
    }
  }

  lemma {:induction false} IdOrderChain(a: seq<Evidence>, b: seq<Evidence>, c: seq<Evidence>)
    requires |a| == |b| == |c| && IdOrder(a, b) <= 0 && IdOrder(b, c) <= 0
    ensures IdOrder(a, c) <= 0
  {
    if a != [] {
      OrderChain(a[0].capabilityId, b[0].capabilityId, c[0].capabilityId);
      ByteOrderZero(a[0].capabilityId, b[0].capabilityId);
      ByteOrderZero(b[0].capabilityId, c[0].capabilityId);
      ByteOrderZero(a[0].capabilityId, c[0].capabilityId);
      if a[0].capabilityId == b[0].capabilityId == c[0].capabilityId { IdOrderChain(a[1..], b[1..], c[1..]); }
    }
  }

  lemma {:induction false} IdOrderAppend(a: seq<Evidence>, b: seq<Evidence>, x: Evidence)
    requires |a| == |b|
    ensures IdOrder(a + [x], b + [x]) == IdOrder(a, b)
  {
    if a == [] {
      ByteOrderZero(x.capabilityId, x.capabilityId);
      assert ([x])[1..] == [];
    } else {
      IdOrderAppend(a[1..], b[1..], x);
      assert (a + [x])[1..] == a[1..] + [x] && (b + [x])[1..] == b[1..] + [x];
    }
  }

  /** Lists that tie have the same capabilities. */
  lemma {:induction false} IdOrderZero(a: seq<Evidence>, b: seq<Evidence>)
    requires |a| == |b| && IdOrder(a, b) == 0
    ensures forall i :: 0 <= i < |a| ==> a[i].capabilityId == b[i].capabilityId
  {
    if a != [] {
      ByteOrderZero(a[0].capabilityId, b[0].capabilityId);
      IdOrderZero(a[1..], b[1..]);
      forall i | 0 <= i < |a| ensures a[i].capabilityId == b[i].capabilityId {
        if i > 0 { assert a[i] == a[1..][i - 1] && b[i] == b[1..][i - 1]; }
      }
    }
  }

  lemma SelectionOrderTotal()
    ensures TotalPreorder(SelectionBefore)
  {
    forall a, b ensures SelectionBefore(a, b) || SelectionBefore(b, a) {
      if |a| == |b| { IdOrderSwap(a, b); }
    }
    forall a, b, c | SelectionBefore(a, b) && SelectionBefore(b, c) ensures SelectionBefore(a, c) {
      SelectionChain(a, b, c);
    }
  }

  lemma SelectionChain(a: seq<Evidence>, b: seq<Evidence>, c: seq<Evidence>)
    requires SelectionBefore(a, b) && SelectionBefore(b, c)
    ensures SelectionBefore(a, c)
  {
    if |a| == |c| { IdOrderChain(a, b, c); }
  }

  lemma SelectionExtends(a: seq<Evidence>, b: seq<Evidence>, x: Evidence)
    requires SelectionBefore(a, b)
    ensures SelectionBefore(a + [x], b + [x])
  {
    if |a| == |b| { IdOrderAppend(a, b, x); }
  }

  // ---- the dynamic programming

  type States = map<string, seq<Evidence>>

  /** Every state holds a selection of the first `n` items with that state's key. */
  ghost predicate Sound(p: Policy, items: seq<Evidence>, n: nat, states: States)
    requires n <= |items|
  {
    forall key :: key in states ==> Picks(items, n, states[key]) && StateKey(p, states[key]) == key
  }

  predicate Reached(p: Policy, states: States, t: seq<Evidence>) {
    StateKey(p, t) in states && SelectionBefore(states[StateKey(p, t)], t)
  }

  /** No selection of the first `n` items is better than the state with its key. */
  ghost predicate Best(p: Policy, items: seq<Evidence>, n: nat, states: States)
    requires n <= |items|
  {
    forall t :: Picks(items, n, t) ==> Reached(p, states, t)
  }

  /** One item: extend the selection of every state by it, in any order. */
  method Extend(p: Policy, items: seq<Evidence>, n: nat, states: States) returns (next: States)
    requires n < |items| && Sound(p, items, n, states) && Best(p, items, n, states)
    ensures Sound(p, items, n + 1, next) && Best(p, items, n + 1, next)
  {
    hide StateKey, SelectionBefore, Picks;
    var item := items[n];
    next := states;
    var left := states.Keys;
    assert Sound(p, items, n + 1, next) by { StillSound(p, items, n, states); }
    forall key | key in states ensures Reached(p, next, states[key]) { SelectionReflexive(states[key]); }
    while left != {}
      invariant left <= states.Keys
      invariant Sound(p, items, n + 1, next)
      invariant forall key :: key in states ==> Reached(p, next, states[key])
      invariant forall key :: key in states && key !in left ==> Reached(p, next, states[key] + [item])
    {
      var current :| current in left;
      left := left - {current};
      var candidate := states[current] + [item];
      PickOne(items, n, states[current]);
      next := Improve(p, items, n + 1, next, candidate);
    }
    StepIsBest(p, items, n, states, next);
  }

  /** Record a candidate unless its state already holds one at least as good. */
  method Improve(p: Policy, items: seq<Evidence>, n: nat, states: States, candidate: seq<Evidence>)
    returns (next: States)
    requires n <= |items| && Sound(p, items, n, states) && Picks(items, n, candidate)
    ensures Sound(p, items, n, next) && Reached(p, next, candidate)
    ensures forall t :: Reached(p, states, t) ==> Reached(p, next, t)
  {
    hide StateKey, Picks;
    var key := StateKey(p, candidate);
    next := states;
    if key !in states || SelectionOrder(candidate, states[key]) < 0 {
      next := states[key := candidate];
      SelectionReflexive(candidate);
      forall t | Reached(p, states, t) ensures Reached(p, next, t) {
        if StateKey(p, t) == key { SelectionChain(candidate, states[key], t); }
      }
    } else {
      SelectionSwap(candidate, states[key]);
    }
  }

  lemma SelectionReflexive(t: seq<Evidence>)
    ensures SelectionBefore(t, t)
  {
    IdOrderSwap(t, t);
  }

  lemma SelectionSwap(a: seq<Evidence>, b: seq<Evidence>)
    ensures SelectionOrder(a, b) >= 0 ==> SelectionBefore(b, a)
  {
    if |a| == |b| { IdOrderSwap(a, b); }
  }

  lemma StillSound(p: Policy, items: seq<Evidence>, n: nat, states: States)
    requires n < |items| && Sound(p, items, n, states)
    ensures Sound(p, items, n + 1, states)
  {
    hide StateKey;
  }

  lemma PickOne(items: seq<Evidence>, n: nat, t: seq<Evidence>)
    requires n < |items| && Picks(items, n, t)
    ensures Picks(items, n + 1, t + [items[n]])
  {
    assert (t + [items[n]])[..|t|] == t;
  }

  lemma StepIsBest(p: Policy, items: seq<Evidence>, n: nat, states: States, next: States)
    requires n < |items| && Sound(p, items, n, states) && Best(p, items, n, states)
    requires forall key :: key in states ==> Reached(p, next, states[key])
    requires forall key :: key in states ==> Reached(p, next, states[key] + [items[n]])
    ensures Best(p, items, n + 1, next)
  {
    hide StateKey, SelectionBefore;
    forall t | Picks(items, n + 1, t) ensures Reached(p, next, t) {
      if Picks(items, n, t) {
        var key := StateKey(p, t);
        assert Reached(p, states, t) && Reached(p, next, states[key]);
        SelectionChain(next[key], states[key], t);
      } else {
        var front := t[..|t| - 1];
        assert t == front + [items[n]];
        BestExtends(p, items, n, states, next, front);
      }
    }
  }

  /** The heart of it: the kept selection may replace any other with its key, whatever follows. */
  lemma BestExtends(p: Policy, items: seq<Evidence>, n: nat, states: States, next: States, t: seq<Evidence>)
    requires n < |items| && Sound(p, items, n, states) && Best(p, items, n, states) && Picks(items, n, t)
    requires forall key :: key in states ==> Reached(p, next, states[key] + [items[n]])
    ensures Reached(p, next, t + [items[n]])
  {
    hide StateKey, SelectionBefore, SameState, Picks;
    assert Reached(p, states, t);
    var key := StateKey(p, t);
    var s := states[key];
    var item := items[n];
    assert Reached(p, next, s + [item]);
    StateKeyExact(p, s, t);
    SameStateExtends(p, s, t, item);
    StateKeyExact(p, s + [item], t + [item]);
    SelectionExtends(s, t, item);
    SelectionChain(next[StateKey(p, t + [item])], s + [item], t + [item]);
  }

  // ---- the evaluation

  datatype Evaluation = Evaluation(satisfied: bool, selected: seq<Evidence>, missing: seq<Lack>)

  datatype Result = Ok(evaluation: Evaluation) | ThresholdNotPositive | NoSatisfyingState

  /** The selection is one of the subsets that meet the policy, and none of them comes before it. */
  ghost predicate IsOptimum(p: Policy, items: seq<Evidence>, selected: seq<Evidence>) {
    && Picks(items, |items|, selected) && Satisfies(p, selected)
    && (forall t :: Picks(items, |items|, t) && Satisfies(p, t) ==> SelectionBefore(selected, t))
  }

  /** What an evaluation over deduplicated evidence says. */
  ghost predicate IsEvaluation(p: Policy, items: seq<Evidence>, e: Evaluation) {
    && (e.satisfied <==> exists t :: Picks(items, |items|, t) && Satisfies(p, t))
    && (e.satisfied ==> IsOptimum(p, items, e.selected) && e.missing == [])
    && (!e.satisfied ==> e.selected == [] && e.missing == Missing(p, items))
  }

  method EvaluateValidationPolicy(p: Policy, evidence: seq<Evidence>) returns (r: Result, ghost items: seq<Evidence>)
    ensures IsUnique(evidence, items)
    ensures r.ThresholdNotPositive? <==> p.minimumValidators <= 0
    ensures !r.NoSatisfyingState?
    ensures r.Ok? ==> IsEvaluation(p, items, r.evaluation)
  {
    hide StateKey, Satisfies, Picks, IsUnique, Missing, SelectionBefore;
    var sorted := Deduplicate(evidence);
    items := sorted;
    if p.minimumValidators <= 0 { return ThresholdNotPositive, items; }
    var allMissing := MissingConstraints(p, sorted);
    NothingMissing(p, sorted);
    WholeDecides(p, sorted);
    if |allMissing| > 0 { return Ok(Evaluation(false, [], allMissing)), items; }
    var states: States := map[StateKey(p, []) := []];
    assert Sound(p, items, 0, states) && Best(p, items, 0, states) by { StartStates(p, items); }
    for n := 0 to |sorted|
      invariant Sound(p, sorted, n, states) && Best(p, sorted, n, states)
    {
      states := Extend(p, sorted, n, states);
    }
    var satisfying := Satisfying(p, states);
    var ordered := Sort(satisfying, SelectionBefore);
    PicksWhole(sorted, |sorted|);
    assert sorted[..|sorted|] == sorted;
    LeastIsOptimum(p, sorted, states, satisfying, sorted);
    if ordered == [] { return NoSatisfyingState, items; }
    return Ok(Evaluation(true, ordered[0], [])), items;
  }

  method Satisfying(p: Policy, states: States) returns (satisfying: seq<seq<Evidence>>)
    ensures forall t :: t in satisfying <==> Satisfies(p, t) && exists key :: key in states && states[key] == t
  {
    hide Satisfies;
    satisfying := [];
    var left := states.Keys;
    while left != {}
      invariant left <= states.Keys
      invariant forall t :: t in satisfying <==>
                Satisfies(p, t) && exists key :: key in states && key !in left && states[key] == t
    {
      var key :| key in left;
      left := left - {key};
      var missing := MissingConstraints(p, states[key]);
      NothingMissing(p, states[key]);
      if missing == [] { satisfying := satisfying + [states[key]]; }
    }
  }

  lemma StartStates(p: Policy, items: seq<Evidence>)
    ensures Sound(p, items, 0, map[StateKey(p, []) := []])
    ensures Best(p, items, 0, map[StateKey(p, []) := []])
  {
    hide StateKey;
    SelectionReflexive([]);
  }

  /** Some subset that works lands in a state, so a least satisfying state exists and is least
      among all subsets. */
  lemma LeastIsOptimum(p: Policy, items: seq<Evidence>, states: States, satisfying: seq<seq<Evidence>>,
      some: seq<Evidence>)
    requires Sound(p, items, |items|, states) && Best(p, items, |items|, states)
    requires forall t :: t in satisfying <==> Satisfies(p, t) && exists key :: key in states && states[key] == t
    requires Picks(items, |items|, some) && Satisfies(p, some)
    ensures Sort(satisfying, SelectionBefore) != []
    ensures IsOptimum(p, items, Sort(satisfying, SelectionBefore)[0])
  {
    hide StateKey, Satisfies, Picks, SelectionBefore;
    SelectionOrderTotal();
    SortSorts(satisfying, SelectionBefore);
    var ordered := Sort(satisfying, SelectionBefore);
    forall t ensures t in ordered <==> t in satisfying { SameElements(ordered, satisfying, t); }
    forall t | Picks(items, |items|, t) && Satisfies(p, t) ensures ordered != [] && SelectionBefore(ordered[0], t) {
      assert Reached(p, states, t);
      var s := states[StateKey(p, t)];
      StateKeyExact(p, s, t);
      SameStateSatisfies(p, s, t);
      assert s in ordered;
      var i :| 0 <= i < |ordered| && ordered[i] == s;
      if i == 0 { SelectionReflexive(s); }
      SelectionChain(ordered[0], s, t);
    }
    assert ordered[0] in satisfying;
  }

  lemma {:induction false} PicksWhole(items: seq<Evidence>, n: nat)
    requires n <= |items|
    ensures Picks(items, n, items[..n])
  {
    if n > 0 {
      PicksWhole(items, n - 1);
      assert items[..n][..n - 1] == items[..n - 1];
    }
  }

  /** Evidence never hurts, so some subset works exactly when all of it does. */
  lemma WholeDecides(p: Policy, items: seq<Evidence>)
    ensures Satisfies(p, items) <==> exists t :: Picks(items, |items|, t) && Satisfies(p, t)
  {
    hide Picks, Count, HasOrganization;
    PicksWhole(items, |items|);
    assert items[..|items|] == items;
    forall t | Picks(items, |items|, t) && Satisfies(p, t) ensures Satisfies(p, items) {
      PicksFewer(items, |items|, t);
    }
  }

  lemma {:induction false} PicksFewer(items: seq<Evidence>, n: nat, t: seq<Evidence>)
    requires n <= |items| && Picks(items, n, t)
    ensures |t| <= n
    ensures forall name :: Count(t, name) <= Count(items[..n], name)
    ensures forall name :: HasOrganization(t, name) ==> HasOrganization(items[..n], name)
  {
    hide HasOrganization;
    if n > 0 {
      assert items[..n][..n - 1] == items[..n - 1] && items[..n] == items[..n - 1] + [items[n - 1]];
      forall name { OrganizationExtends(items[..n - 1], items[n - 1], name); }
      if Picks(items, n - 1, t) {
        PicksFewer(items, n - 1, t);
      } else {
        var front := t[..|t| - 1];
        assert t == front + [items[n - 1]];
        PicksFewer(items, n - 1, front);
        forall name { OrganizationExtends(front, items[n - 1], name); }
      }
    }
  }

  // ---- all subsets

  ghost function Members(s: seq<Evidence>): set<Evidence> {
    set x | x in s
  }

  lemma {:induction false} PickedAreItems(items: seq<Evidence>, n: nat, t: seq<Evidence>)
    requires n <= |items| && Picks(items, n, t)
    ensures forall x :: x in t ==> x in items[..n]
  {
    if n > 0 {
      assert items[..n] == items[..n - 1] + [items[n - 1]];
      if Picks(items, n - 1, t) {
        PickedAreItems(items, n - 1, t);
      } else {
        PickedAreItems(items, n - 1, t[..|t| - 1]);
        assert t == t[..|t| - 1] + [items[n - 1]];
      }
    }
  }

  /** Selections are exactly the subsets: each set of items is listed by one of its own size. */
  lemma {:induction false} EverySubsetIsPicked(items: seq<Evidence>, n: nat, chosen: set<Evidence>)
    returns (t: seq<Evidence>)
    requires n <= |items| && Ascending(items) && chosen <= Members(items[..n])
    ensures Picks(items, n, t) && Members(t) == chosen && |t| == |chosen|
  {
    hide Ascending;
    if n == 0 {
      t := [];
    } else {
      var last := items[n - 1];
      assert items[..n] == items[..n - 1] + [last];
      t := EverySubsetIsPicked(items, n - 1, chosen - {last});
      if last in chosen {
        PickOne(items, n - 1, t);
        PickedAreItems(items, n - 1, t);
        LastIsNew(items, n);
        t := t + [last];
        assert Members(t) == (chosen - {last}) + {last};
      } else {
        assert chosen - {last} == chosen;
      }
    }
  }

  lemma LastIsNew(items: seq<Evidence>, n: nat)
    requires 0 < n <= |items| && Ascending(items)
    ensures items[n - 1] !in items[..n - 1]
  {
    if items[n - 1] in items[..n - 1] {
      var i :| 0 <= i < n - 1 && items[i] == items[n - 1];
      ByteOrderZero(items[i].capabilityId, items[n - 1].capabilityId);
      assert false;
    }
  }

  // ---- the order of the evidence

  /** Evidence that could stand for one capability does not differ. */
  ghost predicate NoConflict(evidence: seq<Evidence>) {
    forall x, y :: Least(evidence, x) && Least(evidence, y) && x.capabilityId == y.capabilityId ==> x == y
  }

  /** Whatever the order and the repetitions, the same evidence without conflicts gives the same
      evaluation. */
  lemma SameEvidenceSameEvaluation(
      p: Policy, e1: seq<Evidence>, e2: seq<Evidence>, i1: seq<Evidence>, i2: seq<Evidence>, r1: Evaluation,
      r2: Evaluation)
    requires NoConflict(e1) && forall x :: x in e1 <==> x in e2
    requires IsUnique(e1, i1) && IsUnique(e2, i2) && IsEvaluation(p, i1, r1) && IsEvaluation(p, i2, r2)
    ensures r1 == r2
  {
    hide Satisfies, Picks, IsUnique, Missing, SelectionBefore, Ascending, NoConflict;
    UniqueSame(e1, e2, i1, i2);
    if r1.satisfied {
      OptimumUnique(p, i1, r1.selected, r2.selected) by { assert Ascending(i1) by { UniqueAscends(e1, i1); } }
    }
  }

  lemma UniqueAscends(evidence: seq<Evidence>, items: seq<Evidence>)
    requires IsUnique(evidence, items)
    ensures Ascending(items)
  {
  }

  lemma UniqueSame(e1: seq<Evidence>, e2: seq<Evidence>, i1: seq<Evidence>, i2: seq<Evidence>)
    requires NoConflict(e1) && (forall x :: x in e1 <==> x in e2) && IsUnique(e1, i1) && IsUnique(e2, i2)
    ensures i1 == i2
  {
    hide ByteOrder, First, Ascending;
    assert forall x :: Least(e1, x) <==> Least(e2, x);
    forall x | x in i1 ensures x in i2 {
      assert x in e1 && x in e2;
      var y :| y in i2 && y.capabilityId == x.capabilityId;
      assert Least(e1, x) && Least(e1, y);
    }
    forall x | x in i2 ensures x in i1 {
      assert x in e1;
      var y :| y in i1 && y.capabilityId == x.capabilityId;
      assert Least(e1, x) && Least(e1, y);
    }
    assert Members(i1) == Members(i2);
    SameAscending(i1, i2);
  }

  lemma {:induction false} SameAscending(a: seq<Evidence>, b: seq<Evidence>)
    requires Ascending(a) && Ascending(b) && Members(a) == Members(b)
    ensures a == b
  {
    hide ByteOrder, Ascending, Members;
    EmptyMembers(a);
    EmptyMembers(b);
    if a != [] {
      SameTop(a, b);
      MembersFront(a);
      MembersFront(b);
      SameAscending(a[..|a| - 1], b[..|b| - 1]);
      assert a == a[..|a| - 1] + [a[|a| - 1]] && b == b[..|b| - 1] + [b[|b| - 1]];
    }
  }

  lemma EmptyMembers(a: seq<Evidence>)
    ensures Members(a) == {} <==> a == []
  {
    if a != [] { assert a[0] in Members(a); }
  }

  lemma MembersFront(a: seq<Evidence>)
    requires a != [] && Ascending(a)
    ensures Members(a[..|a| - 1]) == Members(a) - {a[|a| - 1]} && Ascending(a[..|a| - 1])
  {
    LastIsNew(a, |a|);
    assert a == a[..|a| - 1] + [a[|a| - 1]];
  }

  lemma SameTop(a: seq<Evidence>, b: seq<Evidence>)
    requires Ascending(a) && Ascending(b) && a != [] && b != [] && Members(a) == Members(b)
    ensures a[|a| - 1] == b[|b| - 1]
  {
    hide ByteOrder;
    var x, y := a[|a| - 1], b[|b| - 1];
    assert y in Members(b) && x in Members(a);
    var i :| 0 <= i < |a| && a[i] == y;
    var j :| 0 <= j < |b| && b[j] == x;
    ByteOrderAntisymmetric(x.capabilityId, y.capabilityId);
    assert i < |a| - 1 ==> ByteOrder(y.capabilityId, x.capabilityId) < 0;
    assert j < |b| - 1 ==> ByteOrder(x.capabilityId, y.capabilityId) < 0;
  }

  lemma OptimumUnique(p: Policy, items: seq<Evidence>, a: seq<Evidence>, b: seq<Evidence>)
    requires Ascending(items) && IsOptimum(p, items, a) && IsOptimum(p, items, b)
    ensures a == b
  {
    hide Satisfies, Picks, ByteOrder;
    assert SelectionBefore(a, b) && SelectionBefore(b, a);
    IdOrderSwap(a, b);
    IdOrderZero(a, b);
    PickedAreItems(items, |items|, a);
    PickedAreItems(items, |items|, b);
    assert items[..|items|] == items;
    forall i | 0 <= i < |a| ensures a[i] == b[i] {
      assert a[i] in a && b[i] in b;
      OneForEach(items, a[i], b[i]);
    }
  }

  lemma OneForEach(items: seq<Evidence>, x: Evidence, y: Evidence)
    requires Ascending(items) && x in items && y in items && x.capabilityId == y.capabilityId
    ensures x == y
  {
    var i :| 0 <= i < |items| && items[i] == x;
    var j :| 0 <= j < |items| && items[j] == y;
    ByteOrderZero(x.capabilityId, y.capabilityId);
  }

  lemma {:induction false} PicksAll(items: seq<Evidence>, n: nat, t: seq<Evidence>)
    requires n <= |items| && Picks(items, n, t)
    ensures |t| <= n && (|t| == n ==> t == items[..n])
  {
    if n > 0 {
      assert items[..n] == items[..n - 1] + [items[n - 1]];
      if Picks(items, n - 1, t) {
        PicksAll(items, n - 1, t);
      } else {
        PicksAll(items, n - 1, t[..|t| - 1]);
        assert t == t[..|t| - 1] + [items[n - 1]];
      }
    }
  }

  lemma FirstAtHead(x: Evidence, rest: seq<Evidence>)
    ensures First([x] + rest, x)
    decreases |rest|
  {
    if rest == [] {
      FirstOfNew([], x);
      assert [] + [x] == [x] + rest;
    } else {
      FirstAtHead(x, rest[..|rest| - 1]);
      FirstStays([x] + rest[..|rest| - 1], rest[|rest| - 1], x);
      assert [x] + rest[..|rest| - 1] + [rest[|rest| - 1]] == [x] + rest;
    }
  }

  /** The condition is needed: when two items could both stand for a capability, putting one or
      the other first changes the evaluation under the policy that asks for every capability. */
  lemma ConflictMakesOrderMatter(
      x: Evidence, y: Evidence, rest: seq<Evidence>, i1: seq<Evidence>, i2: seq<Evidence>, r1: Evaluation,
      r2: Evaluation)
    requires x != y && x.capabilityId == y.capabilityId && Least([x, y] + rest, x) && Least([x, y] + rest, y)
    requires IsUnique([x, y] + rest, i1) && IsUnique([y, x] + rest, i2)
    requires IsEvaluation(Policy(|i1|, [], []), i1, r1) && IsEvaluation(Policy(|i1|, [], []), i2, r2)
    ensures multiset([x, y] + rest) == multiset([y, x] + rest)
    ensures r1 != r2
  {
    hide SelectionBefore, Missing, First, Ascending, IsUnique;
    var p := Policy(|i1|, [], []);
    HeadRepresents(x, y, rest, i1);
    assert Least([y, x] + rest, y) && Least([y, x] + rest, x);
    HeadRepresents(y, x, rest, i2);
    PicksWhole(i1, |i1|);
    assert i1[..|i1|] == i1 && i2[..|i2|] == i2;
    assert Satisfies(p, i1);
    PicksAll(i1, |i1|, r1.selected);
    assert r1.selected == i1;
    if r2.satisfied { PickedAreItems(i2, |i2|, r2.selected); }
    if x in i2 { OneForEach(i2, x, y) by { UniqueAscends([y, x] + rest, i2); } }
  }

  lemma HeadRepresents(x: Evidence, y: Evidence, rest: seq<Evidence>, items: seq<Evidence>)
    requires x.capabilityId == y.capabilityId && Least([x, y] + rest, x) && IsUnique([x, y] + rest, items)
    ensures x in items
  {
    hide ByteOrder, Ascending, Keep, SameIds, Least, First;
    var e := [x, y] + rest;
    assert x in e;
    var z :| z in items && z.capabilityId == x.capabilityId;
    assert Represents(e, z);
    FirstAtHead(x, [y] + rest);
    assert e == [x] + ([y] + rest);
    OneFirst(e, x, z);
  }

  lemma OneFirst(e: seq<Evidence>, x: Evidence, z: Evidence)
    requires Represents(e, x) && Represents(e, z) && x.capabilityId == z.capabilityId
    ensures x == z
  {
    hide ByteOrder, SameIds, Keep;
    ByteOrderAntisymmetric(x.validatorId, z.validatorId);
    ByteOrderZero(x.validatorId, z.validatorId);
    SameTest(e, x, z);
  }

  lemma {:induction false} SameTest(s: seq<Evidence>, x: Evidence, z: Evidence)
    requires x.capabilityId == z.capabilityId && x.validatorId == z.validatorId
    ensures Keep(s, SameIds(x)) == Keep(s, SameIds(z))
  {
    if s != [] { SameTest(s[..|s| - 1], x, z); }
  }
}
