/** The bytes themselves: what an encoding looks like, item by item, as sections 3.1, 3.4.3, 4.2.1
    and 4.2.3 of RFC 8949 lay it down. */
module CborWire {
  import opened Bytes
  import opened Sorting
  import opened BigEndian
  import opened Utf8
  import opened Cbor
  import opened CborLaws
  import CborCanonical

  /** The first byte counts most. */
  lemma {:induction false} MostSignificantFirst(first: byte, rest: Bytes)
    ensures BeValue([first] + rest) == first * Pow256(|rest|) + BeValue(rest)
  {
    var s := [first] + rest;
    if rest == [] {
      assert s[..0] == [];
    } else {
      var front, last := rest[..|rest| - 1], rest[|rest| - 1];
      assert s[..|s| - 1] == [first] + front && s[|s| - 1] == last;
      MostSignificantFirst(first, front);
      assert BeValue(s) == (first * Pow256(|front|) + BeValue(front)) * 256 + last;
      assert BeValue(rest) == BeValue(front) * 256 + last;
      assert Pow256(|rest|) == 256 * Pow256(|front|);
    }
  }

  /** A head: the major type in the three high bits, and the argument in the shortest of the five
      forms: in the low bits, or behind in 1, 2, 4 or 8 bytes. */
  predicate HeadIs(h: Bytes, major: nat, n: nat) {
    || (n < 24 && |h| == 1 && h[0] == 32 * major + n)
    || (24 <= n < 0x100 && |h| == 2 && h[0] == 32 * major + 24 && BeValue(h[1..]) == n)
    || (0x100 <= n < 0x1_0000 && |h| == 3 && h[0] == 32 * major + 25 && BeValue(h[1..]) == n)
    || (0x1_0000 <= n < 0x1_0000_0000 && |h| == 5 && h[0] == 32 * major + 26 && BeValue(h[1..]) == n)
    || (0x1_0000_0000 <= n < 0x1_0000_0000_0000_0000 && |h| == 9 && h[0] == 32 * major + 27 && BeValue(h[1..]) == n)
  }

  lemma HeadExact(h: Bytes, major: nat, n: nat)
    requires major < 8
    ensures HeadIs(h, major, n) <==> n <= MAX_UINT64 && h == Head(major, n)
  {
    hide BeValue, Be;
    PowValues();
    if h != [] {
      BeOfValue(h[1..]);
      assert h == [h[0]] + h[1..];
    }
    if 24 <= n <= MAX_UINT64 {
      var width := if n < 0x100 then 1 else if n < 0x1_0000 then 2 else if n < 0x1_0000_0000 then 4 else 8;
      BeRoundTrip(n, width);
      assert Head(major, n)[1..] == Be(n, width);
    }
  }

  function Joined(parts: seq<Bytes>): Bytes {
    if parts == [] then [] else Joined(parts[..|parts| - 1]) + parts[|parts| - 1]
  }

  /** Shorter keys first, keys of one length in byte order, none twice. */
  ghost predicate KeyOrder(keys: seq<Bytes>) {
    forall i, j :: 0 <= i < j < |keys| ==>
      |keys[i]| < |keys[j]| || (|keys[i]| == |keys[j]| && exists k: nat :: SmallerAt(keys[i], keys[j], k))
  }

  function Interleaved(keys: seq<Bytes>, values: seq<Bytes>): seq<Bytes>
    requires |keys| == |values|
  {
    if keys == [] then []
    else Interleaved(keys[..|keys| - 1], values[..|keys| - 1]) + [keys[|keys| - 1], values[|keys| - 1]]
  }

  /** These bytes are the encoding of the value. */
  ghost predicate Denotes(b: Bytes, v: Value)
    decreases v
  {
    match v
    case Null => b == [0xF6]
    case Bool(x) => b == if x then [0xF5] else [0xF4]
    case Int(n) =>
      if 0 <= n < 0x1_0000_0000_0000_0000 then HeadIs(b, 0, n)
      else if -0x1_0000_0000_0000_0000 <= n < 0 then HeadIs(b, 1, -1 - n)
      else IsBignumText(b, n)
    case Text(s) => !BomLed(s) && StringText(b, 3, s)
    case Blob(s) => StringText(b, 2, s)
    case Array(items) =>
      exists parts: seq<Bytes> ::
        && |parts| == |items| && (forall i :: 0 <= i < |items| ==> Denotes(parts[i], items[i]))
        && StringOf(b, 4, |items|, Joined(parts))
    case Map(entries) =>
      exists keys: seq<Bytes>, values: seq<Bytes> ::
        && |keys| == |values| == |entries| && KeyOrder(keys)
        && (forall i :: 0 <= i < |entries| ==> EntryDenotes(keys[i], values[i], entries[i]))
        && StringOf(b, 5, |entries|, Joined(Interleaved(keys, values)))
  }

  ghost predicate EntryDenotes(key: Bytes, value: Bytes, e: Entry)
    decreases e
  {
    Denotes(key, e.key) && Denotes(value, e.value)
  }

  /** A head with this argument, and the payload. */
  ghost predicate StringOf(b: Bytes, major: nat, n: nat, payload: Bytes) {
    |b| >= |payload| && b[|b| - |payload|..] == payload && HeadIs(b[..|b| - |payload|], major, n)
  }

  ghost predicate StringText(b: Bytes, major: nat, s: Bytes) { StringOf(b, major, |s|, s) }

  /** Tag 2 or 3, and a byte string with the magnitude that has no leading zero. */
  ghost predicate IsBignumText(b: Bytes, n: int) {
    exists magnitude: Bytes ::
      && magnitude != [] && magnitude[0] != 0 && BeValue(magnitude) == (if n < 0 then -1 - n else n)
      && b != [] && b[0] == (if n < 0 then 0xC3 else 0xC2) && StringText(b[1..], 2, magnitude)
  }

  lemma StringExact(b: Bytes, major: nat, n: nat, payload: Bytes)
    requires major < 8
    ensures StringOf(b, major, n, payload) <==> Sized(major, n, payload) == Ok(b)
  {
    hide Head, HeadIs;
    if |b| >= |payload| {
      var h := b[..|b| - |payload|];
      HeadExact(h, major, n);
      assert b == h + b[|b| - |payload|..];
    }
    if n <= MAX_UINT64 {
      var whole := Head(major, n) + payload;
      assert whole[|whole| - |payload|..] == payload && whole[..|whole| - |payload|] == Head(major, n);
      HeadExact(Head(major, n), major, n);
    }
  }

  lemma IntExact(b: Bytes, n: int)
    ensures EncodeInt(n) == Ok(b) <==> Denotes(b, Int(n))
  {
    hide Head, HeadIs, Minimal, BeValue;
    HeadExact(b, if n < 0 then 1 else 0, Magnitude(n));
    if IsBignum(n) {
      var bytes := Minimal(Magnitude(n));
      MinimalRoundTrip(Magnitude(n));
      var tag := if n < 0 then 3 else 2;
      assert Head(6, tag) == [192 + tag] by { SmallHead(6, tag); }
      if IsBignumText(b, n) {
        var magnitude: Bytes :|
          && magnitude != [] && magnitude[0] != 0 && BeValue(magnitude) == (if n < 0 then -1 - n else n)
          && b != [] && b[0] == (if n < 0 then 0xC3 else 0xC2) && StringText(b[1..], 2, magnitude);
        MinimalOfValue(magnitude);
        StringExact(b[1..], 2, |bytes|, bytes);
        assert b == [b[0]] + b[1..];
      }
      if EncodeInt(n) == Ok(b) {
        assert b[1..] == Sized(2, |bytes|, bytes).value;
        StringExact(b[1..], 2, |bytes|, bytes);
      }
    }
  }

  lemma SmallHead(major: nat, n: nat)
    requires major < 8 && n < 24
    ensures Head(major, n) == [major * 32 + n]
  {
  }

  lemma ShorterMeans(a: Bytes, b: Bytes)
    ensures ShorterKey(a, b) <==> |a| < |b| || (|a| == |b| && exists k: nat :: SmallerAt(a, b, k))
  {
    Lexicographic(a, b);
  }

  ghost predicate ItemsDenote(parts: seq<Bytes>, items: seq<Value>) {
    |parts| == |items| && forall i :: 0 <= i < |items| ==> Encode(items[i]) == Ok(parts[i])
  }

  lemma {:induction false} ItemsJoin(items: seq<Value>, parts: seq<Bytes>)
    requires ItemsDenote(parts, items)
    ensures EncodeItems(items) == Ok(Joined(parts))
  {
    hide Encode;
    if items != [] { ItemsJoin(items[..|items| - 1], parts[..|parts| - 1]); }
  }

  /** The encodings of the items of an encodable array. */
  ghost function PartsOf(items: seq<Value>): (parts: seq<Bytes>)
    requires EncodeItems(items).Ok?
    ensures ItemsDenote(parts, items)
  {
    ItemsEncode(items);
    seq(|items|, i requires 0 <= i < |items| => Encode(items[i]).value)
  }

  ghost predicate EntriesDenote(keys: seq<Bytes>, values: seq<Bytes>, entries: seq<Entry>) {
    && |keys| == |values| == |entries|
    && forall i :: 0 <= i < |entries| ==> EncodeEntry(entries[i]) == Ok(Pair(keys[i], values[i]))
  }

  lemma {:induction false} EntriesJoin(entries: seq<Entry>, keys: seq<Bytes>, values: seq<Bytes>)
    requires EntriesDenote(keys, values, entries)
    ensures EncodeEntries(entries).Ok? && Flat(EncodeEntries(entries).value) == Joined(Interleaved(keys, values))
  {
    hide EncodeEntry;
    if entries != [] {
      var n := |entries| - 1;
      EntriesJoin(entries[..n], keys[..n], values[..n]);
      var before := Interleaved(keys[..n], values[..n]);
      var all := before + [keys[n], values[n]];
      assert all[..|all| - 1] == before + [keys[n]] && (before + [keys[n]])[..|before|] == before;
      assert Joined(all) == (Joined(before) + keys[n]) + values[n];
      var pairs := EncodeEntries(entries).value;
      assert pairs[..n] == EncodeEntries(entries[..n]).value;
    }
  }

  lemma KeysOrdered(entries: seq<Entry>, keys: seq<Bytes>, values: seq<Bytes>)
    requires EntriesDenote(keys, values, entries)
    ensures KeyOrder(keys) <==> KeysAscend(entries)
  {
    hide Encode, ByteOrder;
    forall i | 0 <= i < |entries| ensures KeyOf(entries[i]) == keys[i] {}
    forall i, j | 0 <= i < j < |keys|
      ensures ShorterKey(keys[i], keys[j]) <==>
                |keys[i]| < |keys[j]| || (|keys[i]| == |keys[j]| && exists k: nat :: SmallerAt(keys[i], keys[j], k))
    {
      ShorterMeans(keys[i], keys[j]);
    }
    if KeysAscend(entries) {
      forall i, j | 0 <= i < j < |keys|
        ensures |keys[i]| < |keys[j]| || (|keys[i]| == |keys[j]| && exists k: nat :: SmallerAt(keys[i], keys[j], k))
      {
        assert ShorterKey(KeyOf(entries[i]), KeyOf(entries[j]));
      }
    }
    if KeyOrder(keys) {
      forall i, j | 0 <= i < j < |entries| ensures ShorterKey(KeyOf(entries[i]), KeyOf(entries[j])) {
        assert ShorterKey(keys[i], keys[j]);
      }
    }
  }

  lemma MapExact(entries: seq<Entry>, keys: seq<Bytes>, values: seq<Bytes>, b: Bytes)
    requires EntriesDenote(keys, values, entries) && KeyOrder(keys)
    ensures Encode(Map(entries)) == Ok(b) <==> StringOf(b, 5, |entries|, Joined(Interleaved(keys, values)))
  {
    hide StringOf, EncodeEntries, Interleaved, Joined, Flat, KeyOrder;
    EntriesJoin(entries, keys, values);
    KeysOrdered(entries, keys, values);
    AscendingIsSorted(entries);
    StringExact(b, 5, |entries|, Joined(Interleaved(keys, values)));
  }

  /** Bytes that denote a value are what the encoder writes for it. */
  lemma {:induction false} WireSound(v: Value, b: Bytes)
    requires Denotes(b, v)
    ensures Encode(v) == Ok(b)
    decreases v
  {
    hide StringOf, HeadIs, Head, Joined, Interleaved, KeyOrder, IsBignumText, EncodeInt;
    match v
    case Null =>
    case Bool(_) =>
    case Int(n) => IntExact(b, n);
    case Text(s) => StringExact(b, 3, |s|, s);
    case Blob(s) => StringExact(b, 2, |s|, s);
    case Array(items) =>
      var parts: seq<Bytes> :|
        && |parts| == |items| && (forall i :: 0 <= i < |items| ==> Denotes(parts[i], items[i]))
        && StringOf(b, 4, |items|, Joined(parts));
      forall i | 0 <= i < |items| ensures Encode(items[i]) == Ok(parts[i]) { WireSound(items[i], parts[i]); }
      ItemsJoin(items, parts);
      StringExact(b, 4, |items|, Joined(parts));
    case Map(entries) =>
      var keys: seq<Bytes>, values: seq<Bytes> :|
        && |keys| == |values| == |entries| && KeyOrder(keys)
        && (forall i :: 0 <= i < |entries| ==> EntryDenotes(keys[i], values[i], entries[i]))
        && StringOf(b, 5, |entries|, Joined(Interleaved(keys, values)));
      forall i | 0 <= i < |entries| ensures EncodeEntry(entries[i]) == Ok(Pair(keys[i], values[i])) {
        EntrySound(entries[i], keys[i], values[i]);
      }
      MapExact(entries, keys, values, b);
  }

  lemma {:induction false} EntrySound(e: Entry, key: Bytes, value: Bytes)
    requires EntryDenotes(key, value, e)
    ensures EncodeEntry(e) == Ok(Pair(key, value))
    decreases e
  {
    hide Encode;
    WireSound(e.key, key);
    WireSound(e.value, value);
  }

  /** What the encoder writes for a value whose maps are in canonical order denotes it. */
  lemma {:induction false} WireComplete(v: Value, b: Bytes)
    requires Normal(v) && Encode(v) == Ok(b)
    ensures Denotes(b, v)
    decreases v
  {
    hide StringOf, HeadIs, Head, Joined, Interleaved, KeyOrder, IsBignumText, EncodeInt;
    match v
    case Null =>
    case Bool(_) =>
    case Int(n) => IntExact(b, n);
    case Text(s) => StringExact(b, 3, |s|, s);
    case Blob(s) => StringExact(b, 2, |s|, s);
    case Array(items) =>
      var parts := PartsOf(items);
      ItemsJoin(items, parts);
      forall i | 0 <= i < |items| ensures Denotes(parts[i], items[i]) { WireComplete(items[i], parts[i]); }
      StringExact(b, 4, |items|, Joined(parts));
    case Map(entries) =>
      var keys, values := PairsOf(entries);
      KeysOrdered(entries, keys, values);
      forall i | 0 <= i < |entries| ensures EntryDenotes(keys[i], values[i], entries[i]) {
        assert NormalEntry(entries[i]);
        EntryComplete(entries[i], keys[i], values[i]);
      }
      MapExact(entries, keys, values, b);
  }

  lemma {:induction false} EntryComplete(e: Entry, key: Bytes, value: Bytes)
    requires NormalEntry(e) && EncodeEntry(e) == Ok(Pair(key, value))
    ensures EntryDenotes(key, value, e)
    decreases e
  {
    hide Encode;
    WireComplete(e.key, key);
    WireComplete(e.value, value);
  }

  lemma PairsOf(entries: seq<Entry>) returns (keys: seq<Bytes>, values: seq<Bytes>)
    requires EncodeEntries(entries).Ok?
    ensures EntriesDenote(keys, values, entries)
  {
    hide EncodeEntry;
    EntriesEncode(entries);
    var pairs := EncodeEntries(entries).value;
    keys := seq(|pairs|, i requires 0 <= i < |pairs| => pairs[i].key);
    values := seq(|pairs|, i requires 0 <= i < |pairs| => pairs[i].value);
  }

  /** The strict decoder returns a value exactly when it is normal, within the limits, and the input
      is its encoding byte by byte. */
  lemma AcceptsWire(l: Limits, input: Bytes, v: Value)
    ensures AssertCanonical(l, input) == Ok(v) <==>
              Normal(v) && Fits(l, v, 0) && Denotes(input, v) && |input| <= l.maxBytes
  {
    hide AssertCanonical, Denotes, Normal, Fits, Encode;
    CborCanonical.AcceptsExactly(l, input, v);
    if Denotes(input, v) { WireSound(v, input); }
    if Normal(v) && Encode(v) == Ok(input) { WireComplete(v, input); }
  }
}
