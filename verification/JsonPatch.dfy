/** Merge patch and patch on canonical JSON. */
module JsonPatch {
  import opened Sorting
  import opened DecimalText
  import opened JsonText
  import opened JsonLaws
  import opened JsonTidy
  import opened JsonEquality

  datatype Option<+T> = None | Some(value: T)

  // ---- a host map of members, in insertion order

  function Lookup(entries: seq<Entry>, key: string): Option<Json> {
    if entries == [] then None
    else if entries[|entries| - 1].key == key then Some(entries[|entries| - 1].value)
    else Lookup(entries[..|entries| - 1], key)
  }

  function Put(entries: seq<Entry>, key: string, value: Json): seq<Entry> {
    if entries == [] then [Entry(key, value)]
    else if entries[0].key == key then [Entry(key, value)] + entries[1..]
    else [entries[0]] + Put(entries[1..], key, value)
  }

  function Delete(entries: seq<Entry>, key: string): seq<Entry> {
    if entries == [] then []
    else if entries[0].key == key then entries[1..]
    else [entries[0]] + Delete(entries[1..], key)
  }

  ghost predicate GoodEntries(entries: seq<Entry>) {
    DistinctKeys(entries) && forall i :: 0 <= i < |entries| ==> TidyEntry(entries[i]) && BomFreeEntry(entries[i])
  }

  lemma {:induction false} LookupExact(entries: seq<Entry>, key: string)
    requires DistinctKeys(entries)
    ensures Lookup(entries, key).Some? <==> HasKey(entries, key)
    ensures forall e :: e in entries ==> Lookup(entries, e.key) == Some(e.value)
  {
    if entries != [] {
      var front, last := entries[..|entries| - 1], entries[|entries| - 1];
      HasKeySplit(entries);
      LookupExact(front, key);
      assert entries == front + [last];
      forall e | e in entries ensures Lookup(entries, e.key) == Some(e.value) {
        if e != last {
          assert e in front;
          var i :| 0 <= i < |front| && front[i] == e;
          assert HasKey(front, e.key);
        }
      }
    }
  }

  lemma LookupIn(entries: seq<Entry>, key: string)
    requires DistinctKeys(entries)
    ensures Lookup(entries, key).Some? <==> HasKey(entries, key)
    ensures Lookup(entries, key).Some? ==> Entry(key, Lookup(entries, key).value) in entries
  {
    LookupExact(entries, key);
    if HasKey(entries, key) {
      var i :| 0 <= i < |entries| && entries[i].key == key;
      assert entries[i] in entries;
    }
  }

  /** Two lists of distinct keys with the same entries look the same. */
  lemma LookupSame(a: seq<Entry>, b: seq<Entry>, key: string)
    requires DistinctKeys(a) && DistinctKeys(b) && forall e :: e in a <==> e in b
    ensures Lookup(a, key) == Lookup(b, key)
  {
    LookupIn(a, key);
    LookupIn(b, key);
    LookupExact(a, key);
    LookupExact(b, key);
    if Lookup(a, key).Some? { assert Entry(key, Lookup(a, key).value) in b; }
    if Lookup(b, key).Some? { assert Entry(key, Lookup(b, key).value) in a; }
  }

  lemma {:induction false} PutIs(entries: seq<Entry>, key: string, value: Json)
    requires DistinctKeys(entries)
    ensures DistinctKeys(Put(entries, key, value))
    ensures forall e :: e in Put(entries, key, value) <==> e == Entry(key, value) || (e in entries && e.key != key)
  {
    if entries != [] {
      var first, rest := entries[0], entries[1..];
      assert entries == [first] + rest;
      assert DistinctKeys(rest);
      assert forall e :: e in rest ==> e.key != first.key;
      if first.key != key {
        PutIs(rest, key, value);
        DistinctCons(first, Put(rest, key, value));
      } else {
        DistinctCons(Entry(key, value), rest);
      }
    }
  }

  lemma DistinctCons(e: Entry, rest: seq<Entry>)
    requires DistinctKeys(rest) && forall x :: x in rest ==> x.key != e.key
    ensures DistinctKeys([e] + rest)
  {
    forall i, j | 0 <= i < j < |[e] + rest| ensures ([e] + rest)[i].key != ([e] + rest)[j].key {
      assert ([e] + rest)[j] == rest[j - 1] && rest[j - 1] in rest;
      if i > 0 { assert ([e] + rest)[i] == rest[i - 1]; }
    }
  }

  lemma {:induction false} DeleteIs(entries: seq<Entry>, key: string)
    requires DistinctKeys(entries)
    ensures DistinctKeys(Delete(entries, key))
    ensures forall e :: e in Delete(entries, key) <==> e in entries && e.key != key
  {
    if entries != [] {
      var first, rest := entries[0], entries[1..];
      assert entries == [first] + rest;
      assert DistinctKeys(rest);
      assert forall e :: e in rest ==> e.key != first.key;
      if first.key != key {
        DeleteIs(rest, key);
        DistinctCons(first, Delete(rest, key));
      }
    }
  }

  lemma GoodFrom(a: seq<Entry>, b: seq<Entry>)
    requires GoodEntries(a) && DistinctKeys(b) && forall e :: e in b ==> e in a || (TidyEntry(e) && BomFreeEntry(e))
    ensures GoodEntries(b)
  {
    forall i | 0 <= i < |b| ensures TidyEntry(b[i]) && BomFreeEntry(b[i]) {
      assert b[i] in b;
    }
  }

  lemma GoodObject(entries: seq<Entry>)
    requires GoodEntries(entries)
    ensures Canonical(Object(Sort(entries, KeyBefore)))
    ensures DistinctKeys(Sort(entries, KeyBefore))
    ensures forall key :: Lookup(Sort(entries, KeyBefore), key) == Lookup(entries, key)
  {
    hide Sort, KeyBefore;
    SortedTidy(entries);
    SortAscends(entries);
    var sorted := Sort(entries, KeyBefore);
    AscendingDistinct(sorted);
    forall i | 0 <= i < |sorted| ensures BomFreeEntry(sorted[i]) { assert sorted[i] in sorted && sorted[i] in entries; }
    forall key ensures Lookup(sorted, key) == Lookup(entries, key) { LookupSame(sorted, entries, key); }
  }

  lemma CanonicalGood(v: Json)
    requires v.Object? && Canonical(v)
    ensures GoodEntries(v.entries)
    ensures forall i :: 0 <= i < |v.entries| ==> HostText(v.entries[i].key) == v.entries[i].key
  {
    AscendingDistinct(v.entries);
    forall i | 0 <= i < |v.entries|
      ensures HostText(v.entries[i].key) == v.entries[i].key
    {
      assert BomFreeEntry(v.entries[i]);
    }
  }

  // ---- merge patch

  /** The host map made from an object's members. */
  function Collect(entries: seq<Entry>): seq<Entry> {
    if entries == [] then []
    else Put(Collect(entries[..|entries| - 1]), HostText(entries[|entries| - 1].key), entries[|entries| - 1].value)
  }

  lemma {:induction false} CollectSame(entries: seq<Entry>)
    requires GoodEntries(entries)
    ensures DistinctKeys(Collect(entries)) && forall e :: e in Collect(entries) <==> e in entries
  {
    if entries != [] {
      var front, last := entries[..|entries| - 1], entries[|entries| - 1];
      CollectSame(front);
      assert BomFreeEntry(last);
      PutIs(Collect(front), last.key, last.value);
      assert entries == front + [last];
      HasKeySplit(entries);
      assert forall e :: e in front ==> e.key != last.key;
    }
  }

  function MergePatch(target: Json, patch: Json): Json
    decreases patch
  {
    if !patch.Object? then patch
    else Object(Sort(Merged(if target.Object? then Collect(target.entries) else [], patch.entries), KeyBefore))
  }

  /** One member of the patch: null removes, anything else is merged into what is there. */
  function MergeOne(values: seq<Entry>, e: Entry): seq<Entry>
    decreases e
  {
    var key := HostText(e.key);
    if e.value.Null? then Delete(values, key)
    else Put(values, key,
        MergePatch(if Lookup(values, key).Some? then Lookup(values, key).value else Object([]), e.value))
  }

  function Merged(values: seq<Entry>, patch: seq<Entry>): seq<Entry>
    decreases patch
  {
    if patch == [] then values else MergeOne(Merged(values, patch[..|patch| - 1]), patch[|patch| - 1])
  }

  method JsonMergePatch(target: Json, patch: Json) returns (r: Json)
    ensures r == MergePatch(target, patch)
    decreases patch
  {
    if !patch.Object? { return patch; }
    var values: seq<Entry> := [];
    if target.Object? { values := CollectMembers(target.entries); }
    values := MergeMembers(values, patch.entries);
    return Object(Sort(values, KeyBefore));
  }

  method CollectMembers(entries: seq<Entry>) returns (values: seq<Entry>)
    ensures values == Collect(entries)
  {
    values := [];
    for i := 0 to |entries|
      invariant values == Collect(entries[..i])
    {
      assert entries[..i + 1][..i] == entries[..i];
      values := Put(values, HostText(entries[i].key), entries[i].value);
    }
    assert entries[..|entries|] == entries;
  }

  method MergeMember(values: seq<Entry>, e: Entry) returns (r: seq<Entry>)
    ensures r == MergeOne(values, e)
    decreases e
  {
    var key := HostText(e.key);
    if e.value.Null? { return Delete(values, key); }
    var there := Lookup(values, key);
    var merged := JsonMergePatch(if there.Some? then there.value else Object([]), e.value);
    return Put(values, key, merged);
  }

  method MergeMembers(start: seq<Entry>, patch: seq<Entry>) returns (values: seq<Entry>)
    ensures values == Merged(start, patch)
    decreases patch
  {
    hide MergeOne;
    values := start;
    for i := 0 to |patch|
      invariant values == Merged(start, patch[..i])
    {
      assert patch[..i + 1][..i] == patch[..i];
      values := MergeMember(values, patch[i]);
    }
    assert patch[..|patch|] == patch;
  }

  /** Merging canonical values gives a canonical value. */
  lemma {:induction false} MergeCanonical(target: Json, patch: Json)
    requires Canonical(target) && Canonical(patch)
    ensures Canonical(MergePatch(target, patch))
    decreases patch
  {
    hide Canonical, Sort, KeyBefore;
    if patch.Object? {
      var start := StartOf(target);
      MergedGood(start, patch, |patch.entries|);
      assert patch.entries[..|patch.entries|] == patch.entries;
      GoodObject(Merged(start, patch.entries));
    }
  }

  ghost function StartOf(target: Json): seq<Entry>
    requires Canonical(target)
    ensures StartOf(target) == if target.Object? then Collect(target.entries) else []
    ensures GoodEntries(StartOf(target))
  {
    if target.Object? then
      CanonicalGood(target);
      CollectSame(target.entries);
      GoodFrom(target.entries, Collect(target.entries));
      Collect(target.entries)
    else []
  }

  lemma {:induction false} MergedGood(values: seq<Entry>, patch: Json, n: nat)
    requires GoodEntries(values) && patch.Object? && Canonical(patch) && n <= |patch.entries|
    ensures GoodEntries(Merged(values, patch.entries[..n]))
    decreases patch, n
  {
    hide GoodEntries, MergePatch;
    if n > 0 {
      var e := patch.entries[n - 1];
      assert patch.entries[..n][..n - 1] == patch.entries[..n - 1];
      MergedGood(values, patch, n - 1);
      var before := Merged(values, patch.entries[..n - 1]);
      assert TidyEntry(e) && BomFreeEntry(e);
      if !e.value.Null? {
        var there := ThereOf(before, e.key);
        MergeCanonical(there, e.value);
        MergeOneGood(before, e, MergePatch(there, e.value));
      } else {
        DeleteGood(before, e.key);
      }
    }
  }

  ghost function ThereOf(values: seq<Entry>, key: string): Json
    requires GoodEntries(values)
    ensures Canonical(ThereOf(values, key))
    ensures ThereOf(values, key) == if Lookup(values, key).Some? then Lookup(values, key).value else Object([])
  {
    LookupIn(values, key);
    var there := if Lookup(values, key).Some? then Lookup(values, key).value else Object([]);
    assert Lookup(values, key).Some? ==> TidyEntry(Entry(key, there)) && BomFreeEntry(Entry(key, there));
    there
  }

  lemma MergeOneGood(values: seq<Entry>, e: Entry, merged: Json)
    requires GoodEntries(values) && !BomLed(e.key) && Canonical(merged)
    ensures GoodEntries(Put(values, e.key, merged))
  {
    PutIs(values, e.key, merged);
    assert TidyEntry(Entry(e.key, merged)) && BomFreeEntry(Entry(e.key, merged));
    GoodFrom(values, Put(values, e.key, merged));
  }

  lemma DeleteGood(values: seq<Entry>, key: string)
    requires GoodEntries(values)
    ensures GoodEntries(Delete(values, key))
  {
    DeleteIs(values, key);
    GoodFrom(values, Delete(values, key));
  }

  lemma LookupPut(values: seq<Entry>, key: string, value: Json, k: string)
    requires DistinctKeys(values)
    ensures Lookup(Put(values, key, value), k) == if k == key then Some(value) else Lookup(values, k)
  {
    var after := Put(values, key, value);
    PutIs(values, key, value);
    LookupExact(after, k);
    LookupIn(after, k);
    LookupExact(values, k);
    LookupIn(values, k);
    assert Entry(key, value) in after;
  }

  lemma LookupDelete(values: seq<Entry>, key: string, k: string)
    requires DistinctKeys(values)
    ensures Lookup(Delete(values, key), k) == if k == key then None else Lookup(values, k)
  {
    var after := Delete(values, key);
    DeleteIs(values, key);
    LookupExact(after, k);
    LookupIn(after, k);
    LookupExact(values, k);
    LookupIn(values, k);
  }

  /** What merging makes of one member, from what the patch and the target say about it. */
  function MemberAfter(there: Option<Json>, change: Option<Json>): Option<Json> {
    if change.None? then there
    else if change.value.Null? then None
    else Some(MergePatch(if there.Some? then there.value else Object([]), change.value))
  }

  lemma {:induction false} MergedLookup(values: seq<Entry>, patch: Json, n: nat, k: string)
    requires GoodEntries(values) && patch.Object? && Canonical(patch) && n <= |patch.entries|
    ensures Lookup(Merged(values, patch.entries[..n]), k)
         == MemberAfter(Lookup(values, k), Lookup(patch.entries[..n], k))
    decreases n
  {
    hide GoodEntries, MergePatch, Canonical, Put, Delete;
    if n > 0 {
      var e, before := patch.entries[n - 1], patch.entries[..n - 1];
      assert patch.entries[..n][..n - 1] == before && patch.entries[..n][n - 1] == e;
      MergedLookup(values, patch, n - 1, k);
      MergedGood(values, patch, n - 1);
      GoodDistinct(Merged(values, before));
      PatchKey(patch, n - 1);
      if e.value.Null? {
        LookupDelete(Merged(values, before), e.key, k);
      } else {
        MergedLookup(values, patch, n - 1, e.key);
        var there := Lookup(Merged(values, before), e.key);
        LookupPut(Merged(values, before), e.key, MergePatch(if there.Some? then there.value else Object([]), e.value),
            k);
      }
    }
  }

  // ---- merge patch on any values

  /** The last member whose key has this text. */
  function LastNamed(entries: seq<Entry>, key: string): Option<Json> {
    if entries == [] then None
    else if HostText(entries[|entries| - 1].key) == key then Some(entries[|entries| - 1].value)
    else LastNamed(entries[..|entries| - 1], key)
  }

  /** What the patch's members whose key has this text make of one member, one after the other. */
  function MemberMerged(there: Option<Json>, patch: seq<Entry>, key: string): Option<Json> {
    if patch == [] then there
    else
      var before := MemberMerged(there, patch[..|patch| - 1], key);
      if HostText(patch[|patch| - 1].key) == key then MemberAfter(before, Some(patch[|patch| - 1].value)) else before
  }

  lemma {:induction false} CollectLooks(entries: seq<Entry>, key: string)
    ensures DistinctKeys(Collect(entries)) && Lookup(Collect(entries), key) == LastNamed(entries, key)
  {
    hide Put, Lookup;
    if entries == [] {
      assert Lookup([], key) == None by { NothingThere(key); }
    } else {
      var front, last := entries[..|entries| - 1], entries[|entries| - 1];
      CollectLooks(front, key);
      PutIs(Collect(front), HostText(last.key), last.value);
      LookupPut(Collect(front), HostText(last.key), last.value, key);
    }
  }

  lemma NothingThere(key: string)
    ensures Lookup([], key) == None
  {
  }

  lemma {:induction false} MergedLooks(values: seq<Entry>, patch: seq<Entry>, key: string)
    requires DistinctKeys(values)
    ensures DistinctKeys(Merged(values, patch))
    ensures Lookup(Merged(values, patch), key) == MemberMerged(Lookup(values, key), patch, key)
  {
    hide Put, Delete, Lookup, MergePatch;
    if patch != [] {
      var front, e := patch[..|patch| - 1], patch[|patch| - 1];
      MergedLooks(values, front, key);
      var before, name := Merged(values, front), HostText(e.key);
      if e.value.Null? {
        DeleteIs(before, name);
        LookupDelete(before, name, key);
      } else {
        var there := Lookup(before, name);
        var merged := MergePatch(if there.Some? then there.value else Object([]), e.value);
        PutIs(before, name, merged);
        LookupPut(before, name, merged, key);
      }
    }
  }

  /** The meaning of a merge patch for any target and patch, member by member as section 2 of
      RFC 7396 gives it, with keys taken without a leading byte order mark: of two members of the
      target with one such key the later stands, those of the patch take effect in turn. */
  lemma MergeMeans(target: Json, patch: Json, key: string)
    requires patch.Object?
    ensures MergePatch(target, patch).Object?
    ensures Lookup(MergePatch(target, patch).entries, key)
         == MemberMerged(LastNamed(Members(target), key), patch.entries, key)
    ensures DistinctKeys(MergePatch(target, patch).entries)
  {
    hide Sort, KeyBefore, Lookup, Collect, Merged, MemberMerged;
    var start := Collect(Members(target));
    assert start == if target.Object? then Collect(target.entries) else [] by { NothingCollected(); }
    CollectLooks(Members(target), key);
    MergedLooks(start, patch.entries, key);
    var all := Merged(start, patch.entries);
    SortAscends(all);
    AscendingDistinct(Sort(all, KeyBefore));
    LookupSame(Sort(all, KeyBefore), all, key);
  }

  lemma NothingCollected()
    ensures Collect([]) == []
  {
  }

  /** Merging tidy values gives a tidy value. */
  lemma {:induction false} MergeTidy(target: Json, patch: Json)
    requires Tidy(target) && Tidy(patch)
    ensures Tidy(MergePatch(target, patch))
    decreases patch
  {
    hide Sort, KeyBefore, KeysAscend;
    if patch.Object? {
      var start := if target.Object? then Collect(target.entries) else [];
      assert TidyEntries(start) by { if target.Object? { CollectTidy(target.entries); } }
      MergedTidy(start, patch, |patch.entries|);
      assert patch.entries[..|patch.entries|] == patch.entries;
      SortedTidy(Merged(start, patch.entries));
    }
  }

  ghost predicate TidyEntries(entries: seq<Entry>) {
    DistinctKeys(entries) && forall i :: 0 <= i < |entries| ==> TidyEntry(entries[i])
  }

  lemma TidyFrom(a: seq<Entry>, b: seq<Entry>)
    requires TidyEntries(a) && DistinctKeys(b) && forall e :: e in b ==> e in a || TidyEntry(e)
    ensures TidyEntries(b)
  {
    forall i | 0 <= i < |b| ensures TidyEntry(b[i]) { assert b[i] in b; }
  }

  lemma {:induction false} CollectTidy(entries: seq<Entry>)
    requires forall i :: 0 <= i < |entries| ==> TidyEntry(entries[i])
    ensures TidyEntries(Collect(entries))
  {
    hide Put, Tidy;
    if entries != [] {
      var front, last := entries[..|entries| - 1], entries[|entries| - 1];
      CollectTidy(front);
      PutIs(Collect(front), HostText(last.key), last.value);
      assert TidyEntry(last) && TidyEntry(Entry(HostText(last.key), last.value));
      TidyFrom(Collect(front), Put(Collect(front), HostText(last.key), last.value));
    }
  }

  lemma {:induction false} MergedTidy(values: seq<Entry>, patch: Json, n: nat)
    requires TidyEntries(values) && patch.Object? && Tidy(patch) && n <= |patch.entries|
    ensures TidyEntries(Merged(values, patch.entries[..n]))
    decreases patch, n
  {
    hide MergePatch, Put, Delete, KeysAscend;
    if n > 0 {
      var e := patch.entries[n - 1];
      assert patch.entries[..n][..n - 1] == patch.entries[..n - 1];
      MergedTidy(values, patch, n - 1);
      var before, name := Merged(values, patch.entries[..n - 1]), HostText(e.key);
      assert TidyEntry(e);
      if e.value.Null? {
        DeleteIs(before, name);
        TidyFrom(before, Delete(before, name));
      } else {
        var there := if Lookup(before, name).Some? then Lookup(before, name).value else Object([]);
        assert Tidy(there) by { LookupIn(before, name); ThereTidy(before, name); }
        MergeTidy(there, e.value);
        var merged := MergePatch(there, e.value);
        PutIs(before, name, merged);
        assert TidyEntry(Entry(name, merged));
        TidyFrom(before, Put(before, name, merged));
      }
    }
  }

  lemma ThereTidy(values: seq<Entry>, key: string)
    requires TidyEntries(values)
    ensures Lookup(values, key).Some? ==> Tidy(Lookup(values, key).value)
    ensures Tidy(Object([]))
  {
    LookupIn(values, key);
    if Lookup(values, key).Some? {
      var e := Entry(key, Lookup(values, key).value);
      assert e in values && TidyEntry(e);
    }
  }

  lemma GoodDistinct(values: seq<Entry>)
    requires GoodEntries(values)
    ensures DistinctKeys(values)
  {
  }

  lemma PatchKey(patch: Json, n: nat)
    requires patch.Object? && Canonical(patch) && n < |patch.entries|
    ensures HostText(patch.entries[n].key) == patch.entries[n].key
    ensures Lookup(patch.entries[..n], patch.entries[n].key).None?
  {
    CanonicalGood(patch);
    LookupExact(patch.entries[..n], patch.entries[n].key);
  }

  function Members(v: Json): seq<Entry> { if v.Object? then v.entries else [] }

  /** Where no key starts with a mark, that is member by member what the patch says. */
  lemma MergeMeansCanonical(target: Json, patch: Json, key: string)
    requires Canonical(target) && Canonical(patch) && patch.Object?
    ensures MergePatch(target, patch).Object?
    ensures Lookup(MergePatch(target, patch).entries, key)
         == MemberAfter(Lookup(Members(target), key), Lookup(patch.entries, key))
  {
    hide Canonical, Sort, KeyBefore, Lookup, Collect, Merged;
    var start := StartOf(target);
    assert Lookup(start, key) == Lookup(Members(target), key) by { StartLooks(target, key); }
    MergedGood(start, patch, |patch.entries|);
    MergedLookup(start, patch, |patch.entries|, key);
    assert patch.entries[..|patch.entries|] == patch.entries;
    GoodObject(Merged(start, patch.entries));
  }

  lemma StartLooks(target: Json, key: string)
    requires Canonical(target)
    ensures Lookup(StartOf(target), key) == Lookup(Members(target), key)
  {
    if target.Object? {
      CanonicalGood(target);
      CollectSame(target.entries);
      LookupSame(Collect(target.entries), target.entries, key);
    }
  }

  // ---- patch

  datatype Action = Add | Replace | Remove

  datatype Outcome<+T> = Done(value: T) | PathError

  /** The first member with a key. */
  function Find(entries: seq<Entry>, key: string): Option<Json> {
    if entries == [] then None else if entries[0].key == key then Some(entries[0].value) else Find(entries[1..], key)
  }

  lemma {:induction false} FindLooks(entries: seq<Entry>, key: string)
    requires DistinctKeys(entries)
    ensures Find(entries, key) == Lookup(entries, key)
  {
    LookupIn(entries, key);
    LookupExact(entries, key);
    if entries != [] {
      var first, rest := entries[0], entries[1..];
      assert entries == [first] + rest && first in entries;
      if first.key != key {
        FindLooks(rest, key);
        LookupIn(rest, key);
        LookupExact(rest, key);
      }
    }
  }

  lemma CanonicalFinds(v: Json, key: string)
    requires v.Object? && Canonical(v)
    ensures Find(v.entries, key) == Lookup(v.entries, key)
  {
    CanonicalGood(v);
    FindLooks(v.entries, key);
  }

  /** The array position a token names; the end of the array only for adding. */
  function Position(size: nat, token: string, add: bool): Outcome<nat> {
    if token == "-" then (if add then Done(size) else PathError)
    else if !IsNatText(token) then PathError
    else
      var index := NatValue(token);
      if index < size || (add && index == size) then Done(index) else PathError
  }

  function ChangeMember(entries: seq<Entry>, token: string, action: Action, replacement: Option<Json>): Outcome<Json> {
    if action != Add && Find(entries, token).None? then PathError
    else
      var values := Collect(entries);
      if action == Remove then Done(Object(Sort(Delete(values, token), KeyBefore)))
      else if replacement.None? then PathError
      else Done(Object(Sort(Put(values, token, replacement.value), KeyBefore)))
  }

  function ChangeItem(values: seq<Json>, token: string, action: Action, replacement: Option<Json>): Outcome<Json> {
    match Position(|values|, token, action == Add)
    case PathError => PathError
    case Done(i) =>
      if action == Remove then Done(Array(values[..i] + values[i + 1..]))
      else if replacement.None? then PathError
      else if action == Add then Done(Array(values[..i] + [replacement.value] + values[i..]))
      else Done(Array(values[i := replacement.value]))
  }

  /** `changedAt`, with the path already split into tokens. */
  function ChangedAt(current: Json, tokens: seq<string>, action: Action, replacement: Option<Json>): Outcome<Json>
    decreases |tokens|
  {
    if tokens == [] then
      if action != Remove && replacement.Some? then Done(replacement.value) else PathError
    else if current.Object? then
      if |tokens| == 1 then ChangeMember(current.entries, tokens[0], action, replacement)
      else
        var existing := Find(current.entries, tokens[0]);
        if existing.None? then PathError
        else
          match ChangedAt(existing.value, tokens[1..], action, replacement)
          case PathError => PathError
          case Done(inner) => ChangeMember(current.entries, tokens[0], Replace, Some(inner))
    else if current.Array? then
      if |tokens| == 1 then ChangeItem(current.values, tokens[0], action, replacement)
      else
        match Position(|current.values|, tokens[0], false)
        case PathError => PathError
        case Done(i) =>
          match ChangedAt(current.values[i], tokens[1..], action, replacement)
          case PathError => PathError
          case Done(inner) => Done(Array(current.values[i := inner]))
    else PathError
  }

  /** The value at a path. */
  function ValueAt(current: Json, tokens: seq<string>): Outcome<Json>
    decreases |tokens|
  {
    if tokens == [] then Done(current)
    else if current.Object? then
      match Find(current.entries, tokens[0])
      case None => PathError
      case Some(v) => ValueAt(v, tokens[1..])
    else if current.Array? then
      match Position(|current.values|, tokens[0], false)
      case PathError => PathError
      case Done(i) => ValueAt(current.values[i], tokens[1..])
    else PathError
  }

  /** Adding under a last token that starts with a byte order mark. */
  predicate MarksKey(tokens: seq<string>, action: Action) {
    action == Add && tokens != [] && BomLed(tokens[|tokens| - 1])
  }

  ghost predicate GoodChange(tokens: seq<string>, action: Action, replacement: Option<Json>) {
    !MarksKey(tokens, action) && (action != Remove && replacement.Some? ==> Canonical(replacement.value))
  }

  /** What the changed member list holds. */
  lemma MemberLooks(entries: seq<Entry>, token: string, action: Action, replacement: Option<Json>)
    requires Canonical(Object(entries)) && ChangeMember(entries, token, action, replacement).Done?
    ensures var r := ChangeMember(entries, token, action, replacement).value;
            && r.Object? && DistinctKeys(r.entries)
            && (action != Remove ==> replacement.Some? && Entry(token, replacement.value) in r.entries)
            && Find(r.entries, token) == if action == Remove then None else replacement
  {
    hide Canonical, Sort, KeyBefore, Put, Delete, Collect, Find, Lookup;
    var start := StartOf(Object(entries));
    GoodDistinct(start);
    var changed := if action == Remove then Delete(start, token) else Put(start, token, replacement.value);
    if action == Remove {
      DeleteIs(start, token);
      LookupDelete(start, token, token);
    } else {
      PutIs(start, token, replacement.value);
      LookupPut(start, token, replacement.value, token);
    }
    SortAscends(changed);
    var r := Sort(changed, KeyBefore);
    AscendingDistinct(r);
    LookupSame(r, changed, token);
    FindLooks(r, token);
  }

  /** A found key does not start with a mark. */
  lemma FoundUnmarked(entries: seq<Entry>, token: string)
    requires Canonical(Object(entries)) && Find(entries, token).Some?
    ensures !BomLed(token)
  {
    CanonicalGood(Object(entries));
    FindLooks(entries, token);
    LookupIn(entries, token);
    var e := Entry(token, Lookup(entries, token).value);
    var i :| 0 <= i < |entries| && entries[i] == e;
    assert BomFreeEntry(entries[i]);
  }

  lemma EntryCanonical(entries: seq<Entry>, e: Entry)
    requires Canonical(Object(entries)) && e in entries
    ensures !BomLed(e.key) && Canonical(e.value)
  {
    var i :| 0 <= i < |entries| && entries[i] == e;
    assert TidyEntry(entries[i]) && BomFreeEntry(entries[i]);
  }

  lemma MemberCanonical(entries: seq<Entry>, token: string, action: Action, replacement: Option<Json>)
    requires Canonical(Object(entries)) && ChangeMember(entries, token, action, replacement).Done?
    ensures Canonical(ChangeMember(entries, token, action, replacement).value) <==>
              GoodChange([token], action, replacement)
  {
    hide Canonical, Sort, KeyBefore, Put, Delete, Collect, Find;
    var start := StartOf(Object(entries));
    MemberLooks(entries, token, action, replacement);
    var r := ChangeMember(entries, token, action, replacement).value;
    if action == Remove {
      DeleteGood(start, token);
      GoodObject(Delete(start, token));
    } else {
      if action == Replace { FoundUnmarked(entries, token); }
      if Canonical(r) { EntryCanonical(r.entries, Entry(token, replacement.value)); }
      if GoodChange([token], action, replacement) {
        MergeOneGood(start, Entry(token, Null), replacement.value);
        GoodObject(Put(start, token, replacement.value));
      }
    }
  }

  lemma ItemCanonical(values: seq<Json>, token: string, action: Action, replacement: Option<Json>)
    requires Canonical(Array(values)) && ChangeItem(values, token, action, replacement).Done?
    ensures Canonical(ChangeItem(values, token, action, replacement).value) <==>
              GoodChange([token], action, replacement)
  {
    hide Canonical, NatValue;
    var i := Position(|values|, token, action == Add).value;
    CanonicalItems(values);
    assert !BomLed(token) by { PositionUnmarked(|values|, token, action == Add); }
    if action == Remove {
      CanonicalItems(values[..i] + values[i + 1..]);
    } else {
      var after := if action == Add then values[..i] + [replacement.value] + values[i..]
            else values[i := replacement.value];
      assert after[i] == replacement.value && forall v :: v in after ==> v in values || v == replacement.value;
      CanonicalItems(after);
    }
  }

  lemma PositionUnmarked(size: nat, token: string, add: bool)
    requires Position(size, token, add).Done?
    ensures !BomLed(token)
  {
    if token != "-" { assert IsDigit(token[0]); }
  }

  lemma CanonicalItems(values: seq<Json>)
    ensures Canonical(Array(values)) <==> forall v :: v in values ==> Canonical(v)
  {
    if Canonical(Array(values)) {
      forall v | v in values ensures Canonical(v) {
        var i :| 0 <= i < |values| && values[i] == v;
      }
    }
    assert forall i :: 0 <= i < |values| ==> values[i] in values;
  }

  lemma InnerCanonical(current: Json, token: string)
    requires Canonical(current)
    ensures current.Object? ==> Find(current.entries, token) == Lookup(current.entries, token)
    ensures current.Object? && Lookup(current.entries, token).Some? ==> Canonical(Lookup(current.entries, token).value)
  {
    if current.Object? {
      CanonicalFinds(current, token);
      CanonicalGood(current);
      var there := ThereOf(current.entries, token);
    }
  }

  /** A change that is carried out keeps a canonical document canonical exactly when what it puts
      in is canonical and it adds under no key that starts with a byte order mark. */
  lemma {:induction false} ChangeCanonical(current: Json, tokens: seq<string>, action: Action,
      replacement: Option<Json>)
    requires Canonical(current) && ChangedAt(current, tokens, action, replacement).Done?
    ensures Canonical(ChangedAt(current, tokens, action, replacement).value) <==>
              GoodChange(tokens, action, replacement)
    decreases |tokens|
  {
    hide Canonical, ChangeMember, ChangeItem, Position, Find;
    if tokens != [] {
      InnerCanonical(current, tokens[0]);
      if |tokens| == 1 {
        assert tokens == [tokens[0]];
        if current.Object? { MemberCanonical(current.entries, tokens[0], action, replacement); }
        if current.Array? { ItemCanonical(current.values, tokens[0], action, replacement); }
      } else if current.Object? {
        var existing := Find(current.entries, tokens[0]).value;
        ChangeCanonical(existing, tokens[1..], action, replacement);
        MemberCanonical(current.entries, tokens[0], Replace,
            Some(ChangedAt(existing, tokens[1..], action, replacement).value));
      } else {
        var i := Position(|current.values|, tokens[0], false).value;
        assert 0 <= i < |current.values| by { PositionIn(|current.values|, tokens[0]); }
        assert Canonical(current.values[i]) by { ItemOf(current.values, i); }
        ChangeCanonical(current.values[i], tokens[1..], action, replacement);
        SetItem(current.values, i, ChangedAt(current.values[i], tokens[1..], action, replacement).value);
      }
    }
  }

  lemma PositionIn(size: nat, token: string)
    ensures Position(size, token, false).Done? ==> Position(size, token, false).value < size
  {
  }

  lemma ItemOf(values: seq<Json>, i: nat)
    requires Canonical(Array(values)) && i < |values|
    ensures Canonical(values[i])
  {
  }

  lemma SetItem(values: seq<Json>, i: nat, v: Json)
    requires Canonical(Array(values)) && i < |values|
    ensures Canonical(Array(values[i := v])) <==> Canonical(v)
  {
    if Canonical(Array(values[i := v])) { assert values[i := v][i] == v; }
  }

  /** What was put at a path is found there. */
  lemma {:induction false} ReplacedIsFound(current: Json, tokens: seq<string>, x: Json)
    requires Canonical(current) && ChangedAt(current, tokens, Replace, Some(x)).Done?
    ensures ValueAt(ChangedAt(current, tokens, Replace, Some(x)).value, tokens) == Done(x)
    decreases |tokens|
  {
    hide Canonical, Position, Find, ChangeMember;
    if tokens != [] {
      var rest := tokens[1..];
      InnerCanonical(current, tokens[0]);
      if current.Object? {
        assert |tokens| == 1 ==> rest == [];
        if |tokens| > 1 { ReplacedIsFound(Find(current.entries, tokens[0]).value, rest, x); }
        var inner := if |tokens| == 1 then x
              else ChangedAt(Find(current.entries, tokens[0]).value, rest, Replace, Some(x)).value;
        MemberLooks(current.entries, tokens[0], Replace, Some(inner));
      } else {
        var i := Position(|current.values|, tokens[0], false).value;
        assert 0 <= i < |current.values| by { PositionIn(|current.values|, tokens[0]); }
        assert Canonical(current.values[i]) by { ItemOf(current.values, i); }
        if |tokens| > 1 { ReplacedIsFound(current.values[i], rest, x); }
      }
    }
  }

  // ---- operations

  datatype Operation =
    | AddAt(path: seq<string>, value: Json)
    | ReplaceAt(path: seq<string>, value: Json)
    | TestAt(path: seq<string>, value: Json)
    | RemoveAt(path: seq<string>)
    | Copy(from: seq<string>, path: seq<string>)
    | Move(from: seq<string>, path: seq<string>)

  /** It brings in nothing that is not canonical, neither a value nor a key. */
  ghost predicate GoodOperation(op: Operation) {
    match op
    case TestAt(path, value) => true
    case AddAt(path, value) => Canonical(value) && !MarksKey(path, Add)
    case ReplaceAt(path, value) => Canonical(value)
    case RemoveAt(path) => true
    case Copy(from, path) => !MarksKey(path, Add)
    case Move(from, path) => !MarksKey(path, Add)
  }

  predicate TestPasses(current: Json, op: Operation)
    requires op.TestAt?
  {
    var found := ValueAt(current, op.path);
    found.Done? && NumbersOk(found.value) && NumbersOk(op.value) && CanonicalJsonEqual(found.value, op.value)
  }

  function ApplyOperation(current: Json, op: Operation): Outcome<Json> {
    match op
    case TestAt(path, value) => if TestPasses(current, op) then Done(current) else PathError
    case AddAt(path, value) => ChangedAt(current, path, Add, Some(value))
    case ReplaceAt(path, value) => ChangedAt(current, path, Replace, Some(value))
    case RemoveAt(path) => ChangedAt(current, path, Remove, None)
    case Copy(from, path) =>
      (match ValueAt(current, from)
       case PathError => PathError
       case Done(copied) => ChangedAt(current, path, Add, Some(copied)))
    case Move(from, path) =>
      match ValueAt(current, from)
      case PathError => PathError
      case Done(moved) =>
        if from <= path then PathError
        else
          match ChangedAt(current, from, Remove, None)
          case PathError => PathError
          case Done(without) => ChangedAt(without, path, Add, Some(moved))
  }

  function Applied(v: Json, ops: seq<Operation>): Outcome<Json> {
    if ops == [] then Done(v)
    else
      match Applied(v, ops[..|ops| - 1])
      case PathError => PathError
      case Done(current) => ApplyOperation(current, ops[|ops| - 1])
  }

  method ApplyJsonPatch(v: Json, ops: seq<Operation>) returns (r: Outcome<Json>)
    ensures r == Applied(v, ops)
  {
    hide ApplyOperation;
    var current := v;
    for i := 0 to |ops|
      invariant Applied(v, ops[..i]) == Done(current)
    {
      assert ops[..i + 1][..i] == ops[..i];
      var next := ApplyOperation(current, ops[i]);
      if next.PathError? {
        AppliedFails(v, ops, i + 1);
        return PathError;
      }
      current := next.value;
    }
    assert ops[..|ops|] == ops;
    return Done(current);
  }

  lemma {:induction false} AppliedFails(v: Json, ops: seq<Operation>, n: nat)
    requires n <= |ops| && Applied(v, ops[..n]).PathError?
    ensures Applied(v, ops).PathError?
    decreases |ops|
  {
    hide ApplyOperation;
    if n < |ops| {
      assert ops[..|ops| - 1][..n] == ops[..n];
      AppliedFails(v, ops[..|ops| - 1], n);
    } else {
      assert ops[..n] == ops;
    }
  }

  lemma {:induction false} ValueAtCanonical(current: Json, tokens: seq<string>)
    requires Canonical(current) && ValueAt(current, tokens).Done?
    ensures Canonical(ValueAt(current, tokens).value)
    decreases |tokens|
  {
    hide Canonical, Position, Lookup, Find;
    if tokens != [] {
      InnerCanonical(current, tokens[0]);
      if current.Object? {
        ValueAtCanonical(Find(current.entries, tokens[0]).value, tokens[1..]);
      } else {
        var i := Position(|current.values|, tokens[0], false).value;
        assert 0 <= i < |current.values| by { PositionIn(|current.values|, tokens[0]); }
        assert Canonical(current.values[i]) by { ItemOf(current.values, i); }
        ValueAtCanonical(current.values[i], tokens[1..]);
      }
    }
  }

  lemma OperationCanonical(current: Json, op: Operation)
    requires Canonical(current) && ApplyOperation(current, op).Done?
    ensures Canonical(ApplyOperation(current, op).value) <==> GoodOperation(op)
  {
    hide Canonical, ChangedAt, ValueAt, TestPasses;
    match op
    case TestAt(path, value) =>
    case AddAt(path, value) => ChangeCanonical(current, path, Add, Some(value));
    case ReplaceAt(path, value) => ChangeCanonical(current, path, Replace, Some(value));
    case RemoveAt(path) => ChangeCanonical(current, path, Remove, None);
    case Copy(from, path) =>
      ValueAtCanonical(current, from);
      ChangeCanonical(current, path, Add, Some(ValueAt(current, from).value));
    case Move(from, path) =>
      ValueAtCanonical(current, from);
      ChangeCanonical(current, from, Remove, None);
      ChangeCanonical(ChangedAt(current, from, Remove, None).value, path, Add, Some(ValueAt(current, from).value));
  }

  /** The document is canonical before and after each operation of a patch. */
  ghost predicate StaysCanonical(v: Json, ops: seq<Operation>) {
    forall n :: 0 <= n <= |ops| ==> CanonicalAfter(v, ops, n)
  }

  ghost predicate CanonicalAfter(v: Json, ops: seq<Operation>, n: nat)
    requires n <= |ops|
  {
    Applied(v, ops[..n]).Done? && Canonical(Applied(v, ops[..n]).value)
  }

  /** A patch that is carried out keeps a canonical document canonical throughout exactly when
      none of its operations brings in a value or a key that is not. */
  lemma {:induction false} PatchCanonical(v: Json, ops: seq<Operation>)
    requires Canonical(v) && Applied(v, ops).Done?
    ensures StaysCanonical(v, ops) <==> forall i :: 0 <= i < |ops| ==> GoodOperation(ops[i])
    ensures (forall i :: 0 <= i < |ops| ==> GoodOperation(ops[i])) ==> Canonical(Applied(v, ops).value)
  {
    hide Canonical, ApplyOperation, GoodOperation, CanonicalAfter;
    if ops == [] {
      assert CanonicalAfter(v, ops, 0) by { Unpatched(v, ops); }
    } else {
      var front, last := ops[..|ops| - 1], ops[|ops| - 1];
      PatchCanonical(v, front);
      assert ops[..|ops|] == ops && ops[..|front|] == front && front[..|front|] == front;
      forall n | 0 <= n <= |front|
        ensures CanonicalAfter(v, ops, n) <==> CanonicalAfter(v, front, n)
      {
        SamePrefix(v, ops, n);
      }
      CanonicalWhole(v, ops);
      CanonicalWhole(v, front);
      if Canonical(Applied(v, front).value) { OperationCanonical(Applied(v, front).value, last); }
      assert forall i :: 0 <= i < |front| ==> front[i] == ops[i];
      if StaysCanonical(v, ops) { assert CanonicalAfter(v, ops, |ops|) && CanonicalAfter(v, ops, |front|); }
    }
  }

  lemma Unpatched(v: Json, ops: seq<Operation>)
    requires Canonical(v)
    ensures CanonicalAfter(v, ops, 0)
  {
  }

  lemma SamePrefix(v: Json, ops: seq<Operation>, n: nat)
    requires n < |ops|
    ensures CanonicalAfter(v, ops, n) <==> CanonicalAfter(v, ops[..|ops| - 1], n)
  {
    assert ops[..|ops| - 1][..n] == ops[..n];
  }

  lemma CanonicalWhole(v: Json, ops: seq<Operation>)
    requires Applied(v, ops).Done?
    ensures CanonicalAfter(v, ops, |ops|) <==> Canonical(Applied(v, ops).value)
  {
    assert ops[..|ops|] == ops;
  }

  lemma {:induction false} FoundIsEntry(entries: seq<Entry>, key: string)
    requires Find(entries, key).Some?
    ensures exists i :: 0 <= i < |entries| && entries[i] == Entry(key, Find(entries, key).value)
  {
    if entries[0].key != key {
      FoundIsEntry(entries[1..], key);
      var i :| 0 <= i < |entries[1..]| && entries[1..][i] == Entry(key, Find(entries[1..], key).value);
      assert entries[i + 1] == entries[1..][i];
    }
  }

  lemma {:induction false} ValueAtTidy(current: Json, tokens: seq<string>)
    requires Tidy(current) && ValueAt(current, tokens).Done?
    ensures Tidy(ValueAt(current, tokens).value)
    decreases |tokens|
  {
    hide Position, Find, KeysAscend;
    if tokens != [] {
      if current.Object? {
        FoundIsEntry(current.entries, tokens[0]);
        var i :| 0 <= i < |current.entries|
                 && current.entries[i] == Entry(tokens[0], Find(current.entries, tokens[0]).value);
        assert TidyEntry(current.entries[i]);
        ValueAtTidy(current.entries[i].value, tokens[1..]);
      } else {
        var i := Position(|current.values|, tokens[0], false).value;
        assert 0 <= i < |current.values| by { PositionIn(|current.values|, tokens[0]); }
        ValueAtTidy(current.values[i], tokens[1..]);
      }
    }
  }

  /** A test passes exactly when the value found is alike the value given, and so, for canonical
      values, exactly when it is that value. */
  lemma TestExact(current: Json, op: Operation)
    requires Tidy(current) && op.TestAt? && Tidy(op.value)
    ensures ApplyOperation(current, op).Done? <==>
              ValueAt(current, op.path).Done? && Alike(ValueAt(current, op.path).value, op.value)
    ensures Canonical(current) && Canonical(op.value) ==>
              (ApplyOperation(current, op).Done? <==> ValueAt(current, op.path) == Done(op.value))
  {
    hide Tidy, BomFree, ValueAt, Alike, CanonicalJsonEqual;
    if ValueAt(current, op.path).Done? {
      var found := ValueAt(current, op.path).value;
      ValueAtTidy(current, op.path);
      TidyNumbers(found);
      TidyNumbers(op.value);
      EqualTextsExactly(found, op.value);
      if Canonical(current) && Canonical(op.value) {
        ValueAtCanonical(current, op.path);
        AlikeUnmarked(found, op.value);
      }
    }
  }

  /** A path token that starts with a byte order mark puts in a key that is not canonical. */
  lemma BomTokenBreaks()
    ensures Canonical(Object([]))
    ensures ChangedAt(Object([]), [[BOM]], Add, Some(Null)) == Done(Object([Entry([BOM], Null)]))
    ensures !Canonical(Object([Entry([BOM], Null)]))
  {
    var e := Entry([BOM], Null);
    assert [e][..0] == [];
    assert Sort([], KeyBefore) == [] && Sort([e], KeyBefore) == [e];
    assert !BomFreeEntry([e][0]);
  }
}
