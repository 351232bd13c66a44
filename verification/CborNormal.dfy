/** Values up to the insertion order of their maps: every encodable value has one normal form,
    with the same encoding. */
module CborNormal {
  import opened Bytes
  import opened Sorting
  import opened BigEndian
  import opened Utf8
  import opened Cbor
  import opened CborLaws
  import opened CborCanonical

  /** Any value the host can hold: strings are well-formed, map keys are of the three key types. */
  ghost predicate WellTyped(v: Value)
    decreases v
  {
    match v
    case Null => true
    case Bool(_) => true
    case Int(_) => true
    case Text(s) => ValidUtf8(s)
    case Blob(_) => true
    case Array(items) => forall i :: 0 <= i < |items| ==> WellTyped(items[i])
    case Map(entries) => forall i :: 0 <= i < |entries| ==> WellTypedEntry(entries[i])
  }

  ghost predicate WellTypedEntry(e: Entry)
    decreases e
  {
    IsKey(e.key) && WellTyped(e.key) && WellTyped(e.value)
  }

  ghost predicate EntryBefore(a: Entry, b: Entry) {
    |KeyOf(a)| < |KeyOf(b)| || (|KeyOf(a)| == |KeyOf(b)| && ByteOrder(KeyOf(a), KeyOf(b)) <= 0)
  }

  /** Put the entries of every map in canonical order. */
  ghost function Normalize(v: Value): Value
    decreases v
  {
    match v
    case Null => v
    case Bool(_) => v
    case Int(_) => v
    case Text(_) => v
    case Blob(_) => v
    case Array(items) => Array(NormalizeItems(items))
    case Map(entries) => Map(Sort(NormalizeEntries(entries), EntryBefore))
  }

  ghost function NormalizeItems(items: seq<Value>): (r: seq<Value>)
    ensures |r| == |items|
    decreases items
  {
    if items == [] then [] else NormalizeItems(items[..|items| - 1]) + [Normalize(items[|items| - 1])]
  }

  ghost function NormalizeEntry(e: Entry): Entry
    decreases e
  {
    Entry(e.key, Normalize(e.value))
  }

  ghost function NormalizeEntries(entries: seq<Entry>): (r: seq<Entry>)
    ensures |r| == |entries|
    decreases entries
  {
    if entries == [] then [] else NormalizeEntries(entries[..|entries| - 1]) + [NormalizeEntry(entries[|entries| - 1])]
  }

  lemma {:induction false} NormalizeItemAt(items: seq<Value>, i: nat)
    requires i < |items|
    ensures NormalizeItems(items)[i] == Normalize(items[i])
  {
    if i < |items| - 1 { NormalizeItemAt(items[..|items| - 1], i); }
  }

  lemma {:induction false} NormalizeEntryAt(entries: seq<Entry>, i: nat)
    requires i < |entries|
    ensures NormalizeEntries(entries)[i] == NormalizeEntry(entries[i])
  {
    if i < |entries| - 1 { NormalizeEntryAt(entries[..|entries| - 1], i); }
  }

  // ---- sorting entries sorts their encodings

  lemma EncodeAppend(entries: seq<Entry>, e: Entry)
    requires EncodeEntries(entries).Ok? && EncodeEntry(e).Ok?
    ensures EncodeEntries(entries + [e]) == Ok(EncodeEntries(entries).value + [EncodeEntry(e).value])
  {
    hide EncodeEntry;
    assert (entries + [e])[..|entries|] == entries;
  }

  lemma EncodeSplit(entries: seq<Entry>)
    requires entries != [] && EncodeEntries(entries).Ok?
    ensures EncodeEntries(entries[..|entries| - 1]).Ok? && EncodeEntry(entries[|entries| - 1]).Ok?
    ensures EncodeEntries(entries).value
         == EncodeEntries(entries[..|entries| - 1]).value + [EncodeEntry(entries[|entries| - 1]).value]
  {
    hide EncodeEntry;
  }

  lemma SameComparison(a: Entry, b: Entry)
    requires EncodeEntry(a).Ok? && EncodeEntry(b).Ok?
    ensures EntryBefore(a, b) <==> PairBefore(EncodeEntry(a).value, EncodeEntry(b).value)
  {
    hide Encode;
  }

  lemma {:induction false} InsertCommutes(entries: seq<Entry>, e: Entry)
    requires EncodeEntries(entries).Ok? && EncodeEntry(e).Ok?
    ensures EncodeEntries(Insert(entries, e, EntryBefore))
         == Ok(Insert(EncodeEntries(entries).value, EncodeEntry(e).value, PairBefore))
  {
    hide EncodeEntries, EncodeEntry, ByteOrder;
    var pairs, pair := EncodeEntries(entries).value, EncodeEntry(e).value;
    EncodeAppend(entries, e);
    if entries == [] {
      assert entries + [e] == [e] && pairs + [pair] == [pair];
    } else {
      var front, last := entries[..|entries| - 1], entries[|entries| - 1];
      EncodeSplit(entries);
      assert pairs[..|pairs| - 1] == EncodeEntries(front).value;
      SameComparison(last, e);
      if !EntryBefore(last, e) {
        InsertCommutes(front, e);
        EncodeAppend(Insert(front, e, EntryBefore), last);
      }
    }
  }

  lemma {:induction false} SortCommutes(entries: seq<Entry>)
    requires EncodeEntries(entries).Ok?
    ensures EncodeEntries(Sort(entries, EntryBefore)) == Ok(Sort(EncodeEntries(entries).value, PairBefore))
  {
    hide Encode, Insert, ByteOrder;
    if entries != [] {
      var front := entries[..|entries| - 1];
      SortCommutes(front);
      InsertCommutes(Sort(front, EntryBefore), entries[|entries| - 1]);
      var pairs := EncodeEntries(entries).value;
      assert pairs[..|pairs| - 1] == EncodeEntries(front).value;
    }
  }

  lemma PairOrderTotal()
    ensures TotalPreorder(PairBefore)
  {
    forall a: Pair, b: Pair ensures PairBefore(a, b) || PairBefore(b, a) { ByteOrderAntisymmetric(a.key, b.key); }
    forall a: Pair, b: Pair, c: Pair | PairBefore(a, b) && PairBefore(b, c) ensures PairBefore(a, c) {
      ByteOrderZero(a.key, b.key);
      ByteOrderZero(b.key, c.key);
      ByteOrderZero(a.key, c.key);
      if |a.key| == |c.key| && a.key != b.key && b.key != c.key { ByteOrderTransitive(a.key, b.key, c.key); }
    }
  }

  /** Sorted keys with no equal neighbours ascend strictly. */
  lemma {:induction false} SortedAscends(pairs: seq<Pair>, i: nat, j: nat)
    requires Sorted(pairs, PairBefore) && AdjacentKeysDiffer(pairs) && i < j < |pairs|
    ensures ShorterKey(pairs[i].key, pairs[j].key)
    decreases j
  {
    assert PairBefore(pairs[j - 1], pairs[j]);
    assert pairs[j - 1].key != pairs[j].key;
    ByteOrderZero(pairs[j - 1].key, pairs[j].key);
    if i < j - 1 {
      SortedAscends(pairs, i, j - 1);
      ShorterChain(pairs[i].key, pairs[j - 1].key, pairs[j].key);
    }
  }

  /** Normalizing keeps the encoding and gives a normal value. */
  lemma {:induction false} NormalizeEncodes(v: Value)
    requires WellTyped(v) && Encode(v).Ok?
    ensures Encode(Normalize(v)) == Encode(v) && Normal(Normalize(v))
    decreases v
  {
    match v
    case Null => case Bool(_) => case Int(_) => case Text(_) => case Blob(_) =>
    case Array(items) =>
      ItemsEncode(items);
      forall i | 0 <= i < |items|
        ensures Encode(NormalizeItems(items)[i]) == Encode(items[i]) && Normal(NormalizeItems(items)[i])
      {
        NormalizeItemAt(items, i);
        NormalizeEncodes(items[i]);
      }
      SameItems(NormalizeItems(items), items);
    case Map(entries) =>
      EntriesEncode(entries);
      forall i | 0 <= i < |entries|
        ensures EncodeEntry(NormalizeEntries(entries)[i]) == EncodeEntry(entries[i])
        ensures NormalEntry(NormalizeEntries(entries)[i])
      {
        NormalizeEntryAt(entries, i);
        assert WellTypedEntry(entries[i]) && EncodeEntry(entries[i]).Ok?;
        NormalizeEncodes(entries[i].key);
        NormalizeEncodes(entries[i].value);
      }
      SameEntries(NormalizeEntries(entries), entries);
      SortedMap(NormalizeEntries(entries), entries);
  }

  lemma {:induction false} SameItems(a: seq<Value>, b: seq<Value>)
    requires |a| == |b| && forall i :: 0 <= i < |a| ==> Encode(a[i]) == Encode(b[i])
    ensures EncodeItems(a) == EncodeItems(b)
  {
    hide Encode;
    if a != [] { SameItems(a[..|a| - 1], b[..|b| - 1]); }
  }

  lemma {:induction false} SameEntries(a: seq<Entry>, b: seq<Entry>)
    requires |a| == |b| && forall i :: 0 <= i < |a| ==> EncodeEntry(a[i]) == EncodeEntry(b[i])
    ensures EncodeEntries(a) == EncodeEntries(b)
  {
    hide EncodeEntry;
    if a != [] { SameEntries(a[..|a| - 1], b[..|b| - 1]); }
  }

  lemma SortedMap(listed: seq<Entry>, entries: seq<Entry>)
    requires EncodeEntries(listed) == EncodeEntries(entries) && Encode(Map(entries)).Ok?
    requires forall i :: 0 <= i < |listed| ==> NormalEntry(listed[i])
    ensures Encode(Map(Sort(listed, EntryBefore))) == Encode(Map(entries)) && Normal(Map(Sort(listed, EntryBefore)))
  {
    hide EncodeEntries, EncodeEntry, Sort, NormalEntry, ByteOrder;
    var sorted, pairs := Sort(listed, EntryBefore), EncodeEntries(entries).value;
    var ordered := Sort(pairs, PairBefore);
    SortCommutes(listed);
    PairOrderTotal();
    SortSorts(pairs, PairBefore);
    SortStays(ordered, PairBefore);
    EntriesEncode(sorted);
    forall i, j | 0 <= i < j < |sorted| ensures ShorterKey(KeyOf(sorted[i]), KeyOf(sorted[j])) {
      SortedAscends(ordered, i, j);
      KeyOfPair(sorted[i], ordered[i]);
      KeyOfPair(sorted[j], ordered[j]);
    }
    forall i | 0 <= i < |sorted| ensures NormalEntry(sorted[i]) {
      SameElements(sorted, listed, sorted[i]);
    }
  }

  lemma KeyOfPair(e: Entry, pair: Pair)
    requires EncodeEntry(e) == Ok(pair)
    ensures KeyOf(e) == pair.key
  {
    hide Encode;
  }

  lemma {:induction false} NormalizeFits(l: Limits, v: Value, depth: nat)
    ensures Fits(l, v, depth) <==> Fits(l, Normalize(v), depth)
    decreases v
  {
    hide Minimal, NormalizeItems, NormalizeEntries, Sort, IsBignum;
    match v
    case Null => case Bool(_) => case Int(_) => case Text(_) => case Blob(_) =>
    case Array(items) =>
      forall i | 0 <= i < |items|
        ensures Fits(l, items[i], depth + 1) <==> Fits(l, NormalizeItems(items)[i], depth + 1)
      {
        NormalizeItemAt(items, i);
        NormalizeFits(l, items[i], depth + 1);
      }
    case Map(entries) =>
      forall i | 0 <= i < |entries|
        ensures FitsEntry(l, entries[i], depth + 1) <==> FitsEntry(l, NormalizeEntries(entries)[i], depth + 1)
      {
        NormalizeEntryAt(entries, i);
        KeyStays(entries[i]);
        NormalizeFits(l, entries[i].value, depth + 1);
      }
      var listed := NormalizeEntries(entries);
      var sorted := Sort(listed, EntryBefore);
      if AllFit(l, listed, depth + 1) { PermutedFits(l, listed, sorted, depth + 1); }
      if AllFit(l, sorted, depth + 1) { PermutedFits(l, sorted, listed, depth + 1); }
  }

  lemma KeyStays(e: Entry)
    ensures NormalizeEntry(e).key == e.key && NormalizeEntry(e).value == Normalize(e.value)
  {
  }

  ghost predicate AllFit(l: Limits, entries: seq<Entry>, depth: nat) {
    forall i :: 0 <= i < |entries| ==> FitsEntry(l, entries[i], depth)
  }

  lemma PermutedFits(l: Limits, a: seq<Entry>, b: seq<Entry>, depth: nat)
    requires multiset(a) == multiset(b) && AllFit(l, a, depth)
    ensures AllFit(l, b, depth)
  {
    hide FitsEntry;
    forall i | 0 <= i < |b| ensures FitsEntry(l, b[i], depth) { SameElements(a, b, b[i]); }
  }

  ghost predicate Encodes(l: Limits, v: Value, input: Bytes) {
    WellTyped(v) && Fits(l, v, 0) && Encode(v) == Ok(input)
  }

  /** `assertCanonicalCbor` accepts a byte string exactly when it is the encoding of some value
      within the limits, whatever the insertion order of its maps; and that value is unique up to
      that order: its normal form is what is returned. */
  lemma AcceptsEncodings(l: Limits, input: Bytes)
    ensures AssertCanonical(l, input).Ok? <==> |input| <= l.maxBytes && exists v :: Encodes(l, v, input)
    ensures |input| <= l.maxBytes ==> forall v :: Encodes(l, v, input) ==> AssertCanonical(l, input) == Ok(Normalize(v))
  {
    hide AssertCanonical, Fits, Encode, Normalize, WellTyped, Normal;
    if AssertCanonical(l, input).Ok? {
      var v := AssertCanonical(l, input).value;
      AcceptsExactly(l, input, v);
      NormalIsWellTyped(v);
      assert Encodes(l, v, input);
    }
    forall v | |input| <= l.maxBytes && Encodes(l, v, input) ensures AssertCanonical(l, input) == Ok(Normalize(v)) {
      NormalizeEncodes(v);
      NormalizeFits(l, v, 0);
      AcceptsExactly(l, input, Normalize(v));
    }
  }

  lemma {:induction false} NormalIsWellTyped(v: Value)
    requires Normal(v)
    ensures WellTyped(v)
    decreases v
  {
    match v
    case Null => case Bool(_) => case Int(_) => case Text(_) => case Blob(_) =>
    case Array(items) =>
      forall i | 0 <= i < |items| ensures WellTyped(items[i]) { NormalIsWellTyped(items[i]); }
    case Map(entries) =>
      forall i | 0 <= i < |entries| ensures WellTypedEntry(entries[i]) {
        assert NormalEntry(entries[i]);
        NormalIsWellTyped(entries[i].key);
        NormalIsWellTyped(entries[i].value);
      }
  }
}
