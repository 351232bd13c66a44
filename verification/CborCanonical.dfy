/** What the decoder accepts: exactly the encodings of values within the limits, unless a text
    begins with a byte order mark. */
module CborCanonical {
  import opened Bytes
  import opened Sorting
  import opened BigEndian
  import opened Utf8
  import opened Cbor
  import opened CborLaws

  // ---- the size of an encoding, where there is one

  ghost function Weight(v: Value): nat {
    if Encode(v).Ok? then |Encode(v).value| else 0
  }

  ghost function ItemsWeight(items: seq<Value>): nat {
    if items == [] then 0 else ItemsWeight(items[..|items| - 1]) + Weight(items[|items| - 1])
  }

  ghost function EntryWeight(e: Entry): nat {
    Weight(e.key) + Weight(e.value)
  }

  ghost function EntriesWeight(entries: seq<Entry>): nat {
    if entries == [] then 0 else EntriesWeight(entries[..|entries| - 1]) + EntryWeight(entries[|entries| - 1])
  }

  ghost function PairsWeight(pairs: seq<Pair>): nat {
    if pairs == [] then 0 else PairsWeight(pairs[..|pairs| - 1]) + |pairs[|pairs| - 1].key| + |pairs[|pairs| - 1].value|
  }

  lemma {:induction false} ItemsSize(items: seq<Value>)
    requires EncodeItems(items).Ok?
    ensures |EncodeItems(items).value| == ItemsWeight(items)
  {
    hide Encode;
    if items != [] { ItemsSize(items[..|items| - 1]); }
  }

  lemma {:induction false} FlatSize(pairs: seq<Pair>)
    ensures |Flat(pairs)| == PairsWeight(pairs)
  {
    if pairs != [] { FlatSize(pairs[..|pairs| - 1]); }
  }

  lemma {:induction false} EntriesSize(entries: seq<Entry>)
    requires EncodeEntries(entries).Ok?
    ensures PairsWeight(EncodeEntries(entries).value) == EntriesWeight(entries)
  {
    hide Encode;
    if entries != [] {
      EntriesSize(entries[..|entries| - 1]);
      var pairs := EncodeEntries(entries).value;
      assert pairs[..|pairs| - 1] == EncodeEntries(entries[..|entries| - 1]).value;
    }
  }

  lemma {:induction false} InsertWeight(pairs: seq<Pair>, x: Pair)
    ensures PairsWeight(Insert(pairs, x, PairBefore)) == PairsWeight(pairs) + |x.key| + |x.value|
  {
    hide PairBefore;
    if pairs == [] {
      assert [x][..0] == [];
    } else if PairBefore(pairs[|pairs| - 1], x) {
      assert (pairs + [x])[..|pairs|] == pairs;
    } else {
      var front := pairs[..|pairs| - 1];
      InsertWeight(front, x);
      assert Insert(pairs, x, PairBefore)[..|pairs|] == Insert(front, x, PairBefore);
    }
  }

  lemma {:induction false} SortWeight(pairs: seq<Pair>)
    ensures PairsWeight(Sort(pairs, PairBefore)) == PairsWeight(pairs)
  {
    hide Insert;
    if pairs != [] {
      SortWeight(pairs[..|pairs| - 1]);
      InsertWeight(Sort(pairs[..|pairs| - 1], PairBefore), pairs[|pairs| - 1]);
    }
  }

  lemma MapWeight(entries: seq<Entry>)
    requires |entries| <= MAX_UINT64
    ensures Weight(Map(entries)) <= |Head(5, |entries|)| + EntriesWeight(entries)
  {
    hide EncodeEntries, Head, Sort;
    if Encode(Map(entries)).Ok? {
      var pairs := EncodeEntries(entries).value;
      EntriesSize(entries);
      SortWeight(pairs);
      FlatSize(Sort(pairs, PairBefore));
    }
  }

  lemma ArrayWeight(items: seq<Value>)
    requires |items| <= MAX_UINT64
    ensures Weight(Array(items)) <= |Head(4, |items|)| + ItemsWeight(items)
  {
    hide EncodeItems, Head;
    if Encode(Array(items)).Ok? { ItemsSize(items); }
  }

  lemma {:induction false} ReplaceWeight(entries: seq<Entry>, i: nat, e: Entry)
    requires i < |entries|
    ensures EntriesWeight(entries[i := e]) + EntryWeight(entries[i]) == EntriesWeight(entries) + EntryWeight(e)
  {
    hide EntryWeight;
    var front := entries[..|entries| - 1];
    if i < |front| {
      ReplaceWeight(front, i, e);
      assert entries[i := e][..|entries| - 1] == front[i := e];
    } else {
      assert entries[i := e][..|entries| - 1] == front;
    }
  }

  lemma SetWeight(entries: seq<Entry>, key: Value, value: Value)
    ensures EntriesWeight(SetEntry(entries, key, value)) <= EntriesWeight(entries) + Weight(key) + Weight(value)
    ensures |entries| <= |SetEntry(entries, key, value)| <= |entries| + 1
  {
    hide Weight;
    if !key.Blob? && HasKey(entries, key) {
      ReplaceWeight(entries, KeyIndex(entries, key), Entry(key, value));
    } else {
      assert (entries + [Entry(key, value)])[..|entries|] == entries;
    }
  }

  // ---- soundness

  /** The rest is a proper suffix. */
  ghost predicate Suffix(s: Bytes, rest: Bytes) {
    |rest| < |s| && s == Used(s, rest) + rest
  }

  /** With no byte order mark dropped, the value is in normal form, within the limits, and its
      encoding is what was read; otherwise its encoding, if any, is shorter. */
  ghost predicate Sound(l: Limits, s: Bytes, depth: nat, p: Parsed<Value>) {
    && Suffix(s, p.rest)
    && if p.stripped then Weight(p.value) < |Used(s, p.rest)|
       else Normal(p.value) && Fits(l, p.value, depth) && Encode(p.value) == Ok(Used(s, p.rest))
  }

  ghost predicate ItemsSound(l: Limits, items: seq<Value>, depth: nat, stripped: bool, done: Bytes) {
    if stripped then ItemsWeight(items) < |done|
    else (forall i :: 0 <= i < |items| ==> Normal(items[i]) && Fits(l, items[i], depth))
         && EncodeItems(items) == Ok(done)
  }

  ghost predicate LastKeyIs(pairs: seq<Pair>, previous: Option<Bytes>) {
    previous == if pairs == [] then None else Some(pairs[|pairs| - 1].key)
  }

  ghost predicate EntriesSound(l: Limits, entries: seq<Entry>, depth: nat, previous: Option<Bytes>, stripped: bool,
      done: Bytes)
  {
    if stripped then EntriesWeight(entries) < |done|
    else
      && (forall i :: 0 <= i < |entries| ==> NormalEntry(entries[i]) && FitsEntry(l, entries[i], depth))
      && KeysAscend(entries)
      && EncodeEntries(entries).Ok? && Flat(EncodeEntries(entries).value) == done
      && LastKeyIs(EncodeEntries(entries).value, previous)
  }

  ghost predicate EntriesDone(l: Limits, entries: seq<Entry>, depth: nat, stripped: bool, done: Bytes) {
    exists last :: EntriesSound(l, entries, depth, last, stripped, done)
  }

  lemma TakeSound(s: Bytes, size: nat)
    requires Take(s, size).Ok?
    ensures var p := Take(s, size).value; s == p.value + p.rest && |p.value| == size <= MAX_SAFE_INTEGER
  {
  }

  lemma SuffixOf(a: Bytes, rest: Bytes)
    requires a != []
    ensures Suffix(a + rest, rest) && Used(a + rest, rest) == a
  {
  }

  /** The comparison of the magnitude with 64 bits never decides: a minimal magnitude of more than
      eight bytes is above it. */
  lemma BignumCheckRedundant(bytes: Bytes)
    requires |bytes| > 8 && bytes[0] != 0
    ensures BeValue(bytes) > MAX_UINT64 && Minimal(BeValue(bytes)) == bytes
  {
    PowValues();
    MinimalOfValue(bytes);
    PowMonotone(8, |bytes| - 1);
  }

  lemma BignumSound(l: Limits, s: Bytes, depth: nat)
    requires s != [] && s[0] / 32 == 6 && Argument(s[0] % 32, s[1..]).Ok? && depth <= l.maxDepth
    requires var a := Argument(s[0] % 32, s[1..]).value; ParseBignum(l, a.value, a.rest, depth + 1).Ok?
    ensures var a := Argument(s[0] % 32, s[1..]).value;
              Sound(l, s, depth, ParseBignum(l, a.value, a.rest, depth + 1).value)
  {
    hide Head, Argument, BeValue, Minimal;
    var a := Argument(s[0] % 32, s[1..]).value;
    HeadSound(s);
    var t := a.rest;
    var size := Argument(t[0] % 32, t[1..]).value;
    HeadSound(t);
    TakeSound(size.rest, size.value);
    var p := Take(size.rest, size.value).value;
    BignumCheckRedundant(p.value);
    var whole := Head(6, a.value) + (Head(2, size.value) + p.value);
    assert s == whole + p.rest;
    SuffixOf(whole, p.rest);
  }

  lemma StringSound(l: Limits, s: Bytes, depth: nat, major: nat)
    requires s != [] && s[0] / 32 == major && (major == 2 || major == 3) && Argument(s[0] % 32, s[1..]).Ok?
    requires depth <= l.maxDepth
    requires var a := Argument(s[0] % 32, s[1..]).value; ParseMajor(l, major, a.value, a.rest, depth).Ok?
    ensures var a := Argument(s[0] % 32, s[1..]).value;
              Sound(l, s, depth, ParseMajor(l, major, a.value, a.rest, depth).value)
  {
    hide Head, Argument, ValidUtf8;
    var a := Argument(s[0] % 32, s[1..]).value;
    HeadSound(s);
    TakeSound(a.rest, a.value);
    var p := Take(a.rest, a.value).value;
    assert s == (Head(major, a.value) + p.value) + p.rest;
    SuffixOf(Head(major, a.value) + p.value, p.rest);
    if BomLed(p.value) { HeadGrows(3, |p.value| - 3, |p.value|); }
  }

  lemma SimpleSound(l: Limits, s: Bytes, depth: nat)
    requires s != [] && s[0] / 32 == 7 && ParseValue(l, s, depth).Ok?
    ensures Sound(l, s, depth, ParseValue(l, s, depth).value)
  {
    assert s == [s[0]] + s[1..];
    SuffixOf([s[0]], s[1..]);
  }

  lemma IntSound(l: Limits, s: Bytes, depth: nat)
    requires s != [] && s[0] / 32 <= 1 && ParseValue(l, s, depth).Ok?
    ensures Sound(l, s, depth, ParseValue(l, s, depth).value)
  {
    hide Head, Argument;
    var a := Argument(s[0] % 32, s[1..]).value;
    HeadSound(s);
    SuffixOf(Head(s[0] / 32, a.value), a.rest);
  }

  lemma NothingYet(l: Limits, depth: nat)
    ensures ItemsSound(l, [], depth, false, []) && EntriesSound(l, [], depth, None, false, [])
  {
  }

  lemma {:induction false} ParseSound(l: Limits, s: Bytes, depth: nat)
    requires ParseValue(l, s, depth).Ok?
    ensures Sound(l, s, depth, ParseValue(l, s, depth).value)
    decreases Room(l, depth), 0, 0
  {
    hide Argument, Sound, ItemsSound, EntriesSound, ParseBignum, ParseItems, ParseEntries, Limited;
    var major := s[0] / 32;
    if major == 7 {
      SimpleSound(l, s, depth);
    } else if major <= 1 {
      IntSound(l, s, depth);
    } else {
      var a := Argument(s[0] % 32, s[1..]).value;
      NothingYet(l, depth + 1);
      if major == 6 {
        BignumSound(l, s, depth);
      } else if major <= 3 {
        StringSound(l, s, depth, major);
      } else if major == 4 {
        ParseItemsSound(l, a.rest, depth + 1, a.value, [], false, []);
        ArraySound(l, s, depth, a);
      } else {
        ParseEntriesSound(l, a.rest, depth + 1, a.value, None, [], false, []);
        MapSound(l, s, depth, a);
      }
    }
  }

  lemma ArraySound(l: Limits, s: Bytes, depth: nat, a: Parsed<nat>)
    requires s != [] && s[0] / 32 == 4 && Argument(s[0] % 32, s[1..]) == Ok(a) && depth <= l.maxDepth
    requires SizeFits(a.value, l.maxArrayItems)
    requires ParseItems(l, a.rest, depth + 1, a.value, [], false).Ok?
    requires var p := ParseItems(l, a.rest, depth + 1, a.value, [], false).value;
             && |p.rest| <= |a.rest| && a.rest == Used(a.rest, p.rest) + p.rest && |p.value| == a.value
             && ItemsSound(l, p.value, depth + 1, p.stripped, [] + Used(a.rest, p.rest))
    ensures ParseValue(l, s, depth).Ok? && Sound(l, s, depth, ParseValue(l, s, depth).value)
  {
    hide Head, Argument, ParseItems, Normal, Fits, EncodeItems;
    var p := ParseItems(l, a.rest, depth + 1, a.value, [], false).value;
    var done := Used(a.rest, p.rest);
    assert [] + done == done;
    HeadSound(s);
    assert s == (Head(4, a.value) + done) + p.rest;
    SuffixOf(Head(4, a.value) + done, p.rest);
    if p.stripped {
      ArrayWeight(p.value);
    } else {
      ArrayNormal(l, p.value, depth);
      assert Encode(Array(p.value)) == Ok(Head(4, a.value) + done);
    }
  }

  lemma ArrayNormal(l: Limits, items: seq<Value>, depth: nat)
    requires depth <= l.maxDepth && SizeFits(|items|, l.maxArrayItems)
    requires forall i :: 0 <= i < |items| ==> Normal(items[i]) && Fits(l, items[i], depth + 1)
    ensures Normal(Array(items)) && Fits(l, Array(items), depth)
  {
  }

  lemma MapSound(l: Limits, s: Bytes, depth: nat, a: Parsed<nat>)
    requires s != [] && s[0] / 32 == 5 && Argument(s[0] % 32, s[1..]) == Ok(a) && depth <= l.maxDepth
    requires SizeFits(a.value, l.maxMapItems)
    requires ParseEntries(l, a.rest, depth + 1, a.value, None, [], false).Ok?
    requires var p := ParseEntries(l, a.rest, depth + 1, a.value, None, [], false).value;
             && |p.rest| <= |a.rest| && a.rest == Used(a.rest, p.rest) + p.rest
             && |p.value| <= a.value && (!p.stripped ==> |p.value| == a.value)
             && EntriesDone(l, p.value, depth + 1, p.stripped, [] + Used(a.rest, p.rest))
    ensures ParseValue(l, s, depth).Ok? && Sound(l, s, depth, ParseValue(l, s, depth).value)
  {
    hide Head, Argument, ParseEntries, Normal, Fits, EncodeEntries, Flat, KeysAscend;
    var p := ParseEntries(l, a.rest, depth + 1, a.value, None, [], false).value;
    var done := Used(a.rest, p.rest);
    assert [] + done == done;
    HeadSound(s);
    assert s == (Head(5, a.value) + done) + p.rest;
    SuffixOf(Head(5, a.value) + done, p.rest);
    var previous :| EntriesSound(l, p.value, depth + 1, previous, p.stripped, done);
    if p.stripped {
      MapWeight(p.value);
      HeadGrows(5, |p.value|, a.value);
    } else {
      MapNormal(l, p.value, depth);
      AscendingIsSorted(p.value);
      assert Encode(Map(p.value)) == Ok(Head(5, a.value) + done);
    }
  }

  lemma MapNormal(l: Limits, entries: seq<Entry>, depth: nat)
    requires depth <= l.maxDepth && SizeFits(|entries|, l.maxMapItems)
    requires forall i :: 0 <= i < |entries| ==> NormalEntry(entries[i]) && FitsEntry(l, entries[i], depth + 1)
    requires KeysAscend(entries)
    ensures Normal(Map(entries)) && Fits(l, Map(entries), depth)
  {
  }

  lemma Glue(s: Bytes, middle: Bytes, rest: Bytes, done: Bytes)
    requires Suffix(s, middle) && |rest| <= |middle| && middle == Used(middle, rest) + rest
    ensures |rest| <= |s| && s == Used(s, rest) + rest
    ensures Used(s, rest) == Used(s, middle) + Used(middle, rest)
    ensures (done + Used(s, middle)) + Used(middle, rest) == done + Used(s, rest)
  {
  }

  lemma {:induction false} ParseItemsSound(l: Limits, s: Bytes, depth: nat, count: nat, items: seq<Value>,
      stripped: bool, done: Bytes)
    requires ParseItems(l, s, depth, count, items, stripped).Ok? && ItemsSound(l, items, depth, stripped, done)
    ensures var p := ParseItems(l, s, depth, count, items, stripped).value;
            && |p.rest| <= |s| && s == Used(s, p.rest) + p.rest && |p.value| == |items| + count
            && ItemsSound(l, p.value, depth, p.stripped, done + Used(s, p.rest))
    decreases Room(l, depth), 1, count
  {
    hide ParseValue, Sound, ItemsSound;
    if count == 0 {
      assert Used(s, s) == [] && done + [] == done;
    } else {
      var p := ParseValue(l, s, depth).value;
      ParseSound(l, s, depth);
      OneMoreItem(l, s, depth, items, stripped, done, p);
      ParseItemsSound(l, p.rest, depth, count - 1, items + [p.value], stripped || p.stripped, done + Used(s, p.rest));
      assert Suffix(s, p.rest) by { SoundSuffix(l, s, depth, p); }
      Glue(s, p.rest, ParseItems(l, s, depth, count, items, stripped).value.rest, done);
    }
  }

  lemma SoundSuffix(l: Limits, s: Bytes, depth: nat, p: Parsed<Value>)
    requires Sound(l, s, depth, p)
    ensures Suffix(s, p.rest) && Weight(p.value) + (if p.stripped then 1 else 0) <= |Used(s, p.rest)|
  {
  }

  lemma OneMoreItem(l: Limits, s: Bytes, depth: nat, items: seq<Value>, stripped: bool, done: Bytes, p: Parsed<Value>)
    requires ItemsSound(l, items, depth, stripped, done) && Sound(l, s, depth, p)
    ensures ItemsSound(l, items + [p.value], depth, stripped || p.stripped, done + Used(s, p.rest))
  {
    hide Encode, Normal, Fits, Weight;
    assert (items + [p.value])[..|items|] == items;
    SoundSuffix(l, s, depth, p);
    if stripped || p.stripped {
      if !stripped { ItemsSize(items); }
    }
  }

  lemma {:induction false} ParseEntriesSound(
      l: Limits, s: Bytes, depth: nat, count: nat, previous: Option<Bytes>, entries: seq<Entry>, stripped: bool,
      done: Bytes)
    requires ParseEntries(l, s, depth, count, previous, entries, stripped).Ok?
    requires EntriesSound(l, entries, depth, previous, stripped, done)
    ensures var p := ParseEntries(l, s, depth, count, previous, entries, stripped).value;
            && |p.rest| <= |s| && s == Used(s, p.rest) + p.rest
            && |p.value| <= |entries| + count && (!p.stripped ==> |p.value| == |entries| + count)
            && EntriesDone(l, p.value, depth, p.stripped, done + Used(s, p.rest))
    decreases Room(l, depth), 1, count
  {
    hide ParseValue, Sound, EntriesSound, SetEntry, ShorterKey;
    if count == 0 {
      assert Used(s, s) == [] && done + [] == done;
      assert EntriesSound(l, entries, depth, previous, stripped, done + Used(s, s));
    } else {
      var key := ParseValue(l, s, depth).value;
      var value := ParseValue(l, key.rest, depth).value;
      ParseSound(l, s, depth);
      ParseSound(l, key.rest, depth);
      var next := SetEntry(entries, key.value, value.value);
      OneMoreEntry(l, s, depth, previous, entries, stripped, done, key, value);
      var flag := stripped || key.stripped || value.stripped;
      ParseEntriesSound(l, value.rest, depth, count - 1, Some(Used(s, key.rest)), next, flag,
          done + Used(s, value.rest));
      Glue(s, value.rest, ParseEntries(l, s, depth, count, previous, entries, stripped).value.rest, done);
      if flag { StrippedStays(l, value.rest, depth, count - 1, Some(Used(s, key.rest)), next, flag); }
    }
  }

  lemma {:induction false} StrippedStays(
      l: Limits, s: Bytes, depth: nat, count: nat, previous: Option<Bytes>, entries: seq<Entry>, stripped: bool)
    requires ParseEntries(l, s, depth, count, previous, entries, stripped).Ok? && stripped
    ensures ParseEntries(l, s, depth, count, previous, entries, stripped).value.stripped
    decreases count
  {
    hide ParseValue, SetEntry, ShorterKey;
    if count > 0 {
      var key := ParseValue(l, s, depth).value;
      var value := ParseValue(l, key.rest, depth).value;
      StrippedStays(l, value.rest, depth, count - 1, Some(Used(s, key.rest)), SetEntry(entries, key.value, value.value),
          true);
    }
  }

  /** One more entry, as the loop checks and sets it. */
  lemma OneMoreEntry(
      l: Limits, s: Bytes, depth: nat, previous: Option<Bytes>, entries: seq<Entry>, stripped: bool, done: Bytes,
      key: Parsed<Value>, value: Parsed<Value>)
    requires EntriesSound(l, entries, depth, previous, stripped, done) && IsKey(key.value)
    requires Sound(l, s, depth, key) && Sound(l, key.rest, depth, value)
    requires previous.Some? ==> ShorterKey(previous.value, Used(s, key.rest))
    ensures Suffix(s, value.rest)
    ensures var next := SetEntry(entries, key.value, value.value);
            && |entries| <= |next| <= |entries| + 1
            && (!stripped && !key.stripped && !value.stripped ==> |next| == |entries| + 1)
            && EntriesSound(l, next, depth, Some(Used(s, key.rest)), stripped || key.stripped || value.stripped,
                            done + Used(s, value.rest))
  {
    hide Encode, Normal, Fits, Weight, EncodeEntries, Flat, SetEntry, KeysAscend, ShorterKey;
    SoundSuffix(l, s, depth, key);
    SoundSuffix(l, key.rest, depth, value);
    Glue(s, key.rest, value.rest, done);
    SetWeight(entries, key.value, value.value);
    if stripped || key.stripped || value.stripped {
      if !stripped {
        EntriesSize(entries);
        FlatSize(EncodeEntries(entries).value);
      }
    } else {
      AppendEntry(l, depth, previous, entries, done, key.value, Used(s, key.rest), value.value,
          Used(key.rest, value.rest));
      assert done + Used(s, key.rest) + Used(key.rest, value.rest) == done + Used(s, value.rest);
    }
  }

  lemma AppendEntry(
      l: Limits, depth: nat, previous: Option<Bytes>, entries: seq<Entry>, done: Bytes,
      key: Value, keyBytes: Bytes, value: Value, valueBytes: Bytes)
    requires EntriesSound(l, entries, depth, previous, false, done)
    requires IsKey(key) && Normal(key) && Normal(value) && Fits(l, key, depth) && Fits(l, value, depth)
    requires Encode(key) == Ok(keyBytes) && Encode(value) == Ok(valueBytes)
    requires previous.Some? ==> ShorterKey(previous.value, keyBytes)
    ensures SetEntry(entries, key, value) == entries + [Entry(key, value)]
    ensures EntriesSound(l, entries + [Entry(key, value)], depth, Some(keyBytes), false, done + keyBytes + valueBytes)
  {
    hide Encode, Normal, Fits, ShorterKey, SetEntry;
    var e := Entry(key, value);
    var longer := entries + [e];
    assert longer[..|entries|] == entries && longer[|entries|] == e;
    EntriesEncode(entries);
    var pairs := EncodeEntries(entries).value;
    assert (pairs + [Pair(keyBytes, valueBytes)])[..|pairs|] == pairs;
    assert EncodeEntries(longer) == Ok(pairs + [Pair(keyBytes, valueBytes)]);
    assert forall i :: 0 <= i < |entries| ==> pairs[i].key == KeyOf(entries[i]);
    forall i, j | 0 <= i < j < |longer| ensures ShorterKey(KeyOf(longer[i]), KeyOf(longer[j])) {
      if j < |entries| {
        assert longer[i] == entries[i] && longer[j] == entries[j];
      } else {
        var last := entries[|entries| - 1];
        assert longer[i] == entries[i] && KeyOf(last) == previous.value;
        if i < |entries| - 1 { ShorterChain(KeyOf(entries[i]), KeyOf(last), keyBytes); }
      }
    }
    NewKeyAppends(longer, |entries|);
  }

  lemma ShorterChain(a: Bytes, b: Bytes, c: Bytes)
    requires ShorterKey(a, b) && ShorterKey(b, c)
    ensures ShorterKey(a, c)
  {
    if |a| == |b| == |c| { ByteOrderTransitive(a, b, c); }
  }

  // ---- the main results

  /** A decoding that drops no byte order mark is of a normal value within the limits whose
      encoding is the input: the inline checks alone decide, and encoding again adds nothing. */
  lemma DecodeExact(l: Limits, input: Bytes, v: Value)
    ensures Decode(l, input) == Ok(Parsed(v, [], false)) <==>
              |input| <= l.maxBytes && Normal(v) && Fits(l, v, 0) && Encode(v) == Ok(input)
  {
    hide ParseValue, Normal, Fits, Encode;
    if Decode(l, input).Ok? { ParseSound(l, input, 0); assert Used(input, []) == input; }
    if Normal(v) && Fits(l, v, 0) && Encode(v) == Ok(input) {
      ParseEncoded(l, v, 0, []);
      assert input + [] == input;
    }
  }

  /** Encoding again catches exactly the inputs that lost a byte order mark. */
  lemma ReencodingCatches(l: Limits, input: Bytes)
    requires Decode(l, input).Ok?
    ensures AssertCanonical(l, input).Ok? <==> !Decode(l, input).value.stripped
  {
    hide ParseValue, Normal, Fits, Encode;
    ParseSound(l, input, 0);
    assert Used(input, []) == input;
  }

  /** `assertCanonicalCbor` accepts exactly the encodings of normal values within the limits, and
      returns that value; so the value is unique. */
  lemma AcceptsExactly(l: Limits, input: Bytes, v: Value)
    ensures AssertCanonical(l, input) == Ok(v) <==>
              |input| <= l.maxBytes && Normal(v) && Fits(l, v, 0) && Encode(v) == Ok(input)
  {
    hide Decode, Normal, Fits, Encode;
    DecodeExact(l, input, v);
    if Decode(l, input).Ok? {
      ReencodingCatches(l, input);
      DecodedAll(l, input);
    }
  }

  lemma DecodedAll(l: Limits, input: Bytes)
    requires Decode(l, input).Ok?
    ensures Decode(l, input).value.rest == []
  {
    hide ParseValue;
  }

  /** The decoder alone is not enough: the text EF BB BF decodes to the empty text, and its one
      byte more is only seen on encoding again. */
  lemma BomTextDecodes(l: Limits)
    requires l.maxBytes >= 4 && l.maxDepth >= 0 && l.maxTextBytes >= 3
    ensures Decode(l, [0x63, 0xEF, 0xBB, 0xBF]) == Ok(Parsed(Text([]), [], true))
    ensures Encode(Text([])) == Ok([0x60])
    ensures AssertCanonical(l, [0x63, 0xEF, 0xBB, 0xBF]) == Err(NonCanonical)
  {
    var s: Bytes := [0x63, 0xEF, 0xBB, 0xBF];
    assert s[1..] == BOM && BOM[3..] == [] && BOM[..3] == BOM;
    BomIsCharacter(BOM);
    assert Argument(3, BOM) == Ok(Parsed(3, BOM, false));
    assert ParseText(Parsed(BOM, [], false)) == Ok(Parsed(Text([]), [], true));
    assert ParseMajor(l, 3, 3, BOM, 0) == Ok(Parsed(Text([]), [], true));
    assert Head(3, 0) + [] == [0x60];
  }
}
