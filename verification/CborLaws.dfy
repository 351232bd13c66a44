/** Encoding and decoding are inverse: what the decoder accepts, and what it returns. */
module CborLaws {
  import opened Bytes
  import opened Sorting
  import opened BigEndian
  import opened Utf8
  import opened Cbor

  // ---- heads

  lemma WideParses(value: nat, size: nat, above: nat, rest: Bytes)
    requires size <= 8 && above < value < Pow256(size)
    ensures Wide(Be(value, size) + rest, size, above) == Ok(Parsed(value, rest, false))
  {
    BeRoundTrip(value, size);
    assert (Be(value, size) + rest)[..size] == Be(value, size);
    assert (Be(value, size) + rest)[size..] == rest;
  }

  lemma HeadParses(major: nat, value: nat, rest: Bytes)
    requires major < 8 && value <= MAX_UINT64
    ensures (Head(major, value) + rest)[0] / 32 == major
    ensures Argument((Head(major, value) + rest)[0] % 32, (Head(major, value) + rest)[1..])
         == Ok(Parsed(value, rest, false))
  {
    hide Be, Wide, Pow256;
    PowValues();
    var s := Head(major, value) + rest;
    if value < 24 {
      assert s[1..] == rest;
    } else if value <= 0xFF {
      assert s[1..] == Be(value, 1) + rest;
      WideParses(value, 1, 23, rest);
    } else if value <= 0xFFFF {
      assert s[1..] == Be(value, 2) + rest;
      WideParses(value, 2, 0xFF, rest);
    } else if value <= 0xFFFF_FFFF {
      assert s[1..] == Be(value, 4) + rest;
      WideParses(value, 4, 0xFFFF, rest);
    } else {
      assert s[1..] == Be(value, 8) + rest;
      WideParses(value, 8, 0xFFFF_FFFF, rest);
    }
  }

  lemma WideSound(s: Bytes, size: nat, above: nat)
    requires size <= 8 && Wide(s, size, above).Ok?
    ensures var a := Wide(s, size, above).value;
            above < a.value < Pow256(size) && s == Be(a.value, size) + a.rest
  {
    BeOfValue(s[..size]);
    assert s == s[..size] + s[size..];
  }

  /** An argument the decoder accepts is in its shortest form. */
  lemma HeadSound(s: Bytes)
    requires s != [] && Argument(s[0] % 32, s[1..]).Ok?
    ensures var a := Argument(s[0] % 32, s[1..]).value;
            a.value <= MAX_UINT64 && s == Head(s[0] / 32, a.value) + a.rest
  {
    hide Be, Wide, Pow256;
    PowValues();
    var t := s[1..];
    assert s == [s[0]] + t && s[0] as int == s[0] / 32 * 32 + s[0] % 32;
    var additional := s[0] % 32;
    if additional == 24 { WideSound(t, 1, 23); }
    if additional == 25 { WideSound(t, 2, 0xFF); }
    if additional == 26 { WideSound(t, 4, 0xFFFF); }
    if additional == 27 { WideSound(t, 8, 0xFFFF_FFFF); }
  }

  lemma HeadGrows(major: nat, a: nat, b: nat)
    requires major < 8 && a <= b <= MAX_UINT64
    ensures |Head(major, a)| <= |Head(major, b)|
  {
  }

  // ---- values in normal form, and within limits

  ghost function KeyOf(e: Entry): Bytes {
    if Encode(e.key).Ok? then Encode(e.key).value else []
  }

  ghost predicate KeysAscend(entries: seq<Entry>) {
    forall i, j :: 0 <= i < j < |entries| ==> ShorterKey(KeyOf(entries[i]), KeyOf(entries[j]))
  }

  /** Texts are well-formed, and maps list their entries in canonical order. */
  ghost predicate Normal(v: Value)
    decreases v
  {
    match v
    case Null => true
    case Bool(_) => true
    case Int(_) => true
    case Text(s) => ValidUtf8(s)
    case Blob(_) => true
    case Array(items) => forall i :: 0 <= i < |items| ==> Normal(items[i])
    case Map(entries) => (forall i :: 0 <= i < |entries| ==> NormalEntry(entries[i])) && KeysAscend(entries)
  }

  ghost predicate NormalEntry(e: Entry)
    decreases e
  {
    IsKey(e.key) && Normal(e.key) && Normal(e.value)
  }

  ghost predicate SizeFits(size: nat, limit: int) {
    size <= limit && size <= MAX_SAFE_INTEGER
  }

  ghost predicate Fits(l: Limits, v: Value, depth: nat)
    decreases v
  {
    && depth <= l.maxDepth
    && match v
       case Null => true
       case Bool(_) => true
       case Int(n) => IsBignum(n) ==> depth + 1 < l.maxDepth && SizeFits(|Minimal(Magnitude(n))|, l.maxBlobBytes)
       case Text(s) => SizeFits(|s|, l.maxTextBytes)
       case Blob(s) => SizeFits(|s|, l.maxBlobBytes)
       case Array(items) => SizeFits(|items|, l.maxArrayItems)
            && forall i :: 0 <= i < |items| ==> Fits(l, items[i], depth + 1)
       case Map(entries) =>
         SizeFits(|entries|, l.maxMapItems) && forall i :: 0 <= i < |entries| ==> FitsEntry(l, entries[i], depth + 1)
  }

  ghost predicate FitsEntry(l: Limits, e: Entry, depth: nat)
    decreases e
  {
    Fits(l, e.key, depth) && Fits(l, e.value, depth)
  }

  // ---- lists

  lemma {:induction false} ItemsEncode(items: seq<Value>)
    ensures EncodeItems(items).Ok? <==> forall i :: 0 <= i < |items| ==> Encode(items[i]).Ok?
  {
    hide Encode;
    if items != [] { ItemsEncode(items[..|items| - 1]); }
  }

  lemma {:induction false} EntriesEncode(entries: seq<Entry>)
    ensures EncodeEntries(entries).Ok? <==> forall i :: 0 <= i < |entries| ==> EncodeEntry(entries[i]).Ok?
    ensures EncodeEntries(entries).Ok? ==>
              forall i :: 0 <= i < |entries| ==> EncodeEntries(entries).value[i] == EncodeEntry(entries[i]).value
  {
    hide EncodeEntry;
    if entries != [] { EntriesEncode(entries[..|entries| - 1]); }
  }

  lemma {:induction false} ItemsFront(items: seq<Value>)
    requires items != [] && EncodeItems(items).Ok?
    ensures Encode(items[0]).Ok? && EncodeItems(items[1..]).Ok?
    ensures EncodeItems(items).value == Encode(items[0]).value + EncodeItems(items[1..]).value
  {
    hide Encode;
    var front := items[..|items| - 1];
    if |items| == 1 {
      assert front == [] && items[1..] == [];
    } else {
      ItemsFront(front);
      assert front[1..] == items[1..][..|items| - 2];
      assert items[1..][|items| - 2] == items[|items| - 1];
    }
  }

  lemma {:induction false} FlatFront(pairs: seq<Pair>)
    requires pairs != []
    ensures Flat(pairs) == pairs[0].key + (pairs[0].value + Flat(pairs[1..]))
  {
    var front := pairs[..|pairs| - 1];
    if |pairs| == 1 {
      assert front == [] && pairs[1..] == [];
    } else {
      FlatFront(front);
      assert front[1..] == pairs[1..][..|pairs| - 2];
      assert pairs[1..][|pairs| - 2] == pairs[|pairs| - 1];
    }
  }

  lemma AscendingIsSorted(entries: seq<Entry>)
    requires EncodeEntries(entries).Ok? && KeysAscend(entries)
    ensures Sort(EncodeEntries(entries).value, PairBefore) == EncodeEntries(entries).value
    ensures AdjacentKeysDiffer(EncodeEntries(entries).value)
  {
    hide Encode, EncodeEntries;
    EntriesEncode(entries);
    var pairs := EncodeEntries(entries).value;
    assert forall i :: 0 <= i < |pairs| ==> pairs[i].key == KeyOf(entries[i]);
    forall i | 0 < i < |pairs| ensures pairs[i - 1].key != pairs[i].key {
      assert ShorterKey(KeyOf(entries[i - 1]), KeyOf(entries[i]));
      ByteOrderZero(pairs[i - 1].key, pairs[i].key);
    }
    SortStays(pairs, PairBefore);
  }

  // ---- every encoding within the limits is read back

  lemma IntParses(l: Limits, n: int, depth: nat, rest: Bytes)
    requires Fits(l, Int(n), depth) && EncodeInt(n).Ok?
    ensures ParseValue(l, EncodeInt(n).value + rest, depth) == Ok(Parsed(Int(n), rest, false))
  {
    hide Head, Argument, Minimal;
    var s := EncodeInt(n).value + rest;
    if !IsBignum(n) {
      HeadParses(if n < 0 then 1 else 0, Magnitude(n), rest);
    } else {
      var bytes := Minimal(Magnitude(n));
      var blob := Head(2, |bytes|) + bytes;
      assert s == Head(6, if n < 0 then 3 else 2) + (blob + rest);
      HeadParses(6, if n < 0 then 3 else 2, blob + rest);
      assert blob + rest == Head(2, |bytes|) + (bytes + rest);
      HeadParses(2, |bytes|, bytes + rest);
      TakeParses(bytes, rest);
      PowValues();
      MinimalRoundTrip(Magnitude(n));
      MinimalLength(Magnitude(n), 8);
    }
  }

  lemma TakeParses(bytes: Bytes, rest: Bytes)
    requires |bytes| <= MAX_SAFE_INTEGER
    ensures Take(bytes + rest, |bytes|) == Ok(Parsed(bytes, rest, false))
  {
    assert (bytes + rest)[..|bytes|] == bytes && (bytes + rest)[|bytes|..] == rest;
  }

  lemma StringParses(l: Limits, v: Value, depth: nat, rest: Bytes)
    requires (v.Text? || v.Blob?) && Normal(v) && Fits(l, v, depth) && Encode(v).Ok?
    ensures ParseValue(l, Encode(v).value + rest, depth) == Ok(Parsed(v, rest, false))
  {
    hide Head, Argument, ValidUtf8;
    var bytes := if v.Text? then v.utf8 else v.bytes;
    var major := if v.Text? then 3 else 2;
    assert Encode(v).value + rest == Head(major, |bytes|) + (bytes + rest);
    HeadParses(major, |bytes|, bytes + rest);
    TakeParses(bytes, rest);
  }

  lemma {:induction false} ParseEncoded(l: Limits, v: Value, depth: nat, rest: Bytes)
    requires Normal(v) && Fits(l, v, depth) && Encode(v).Ok?
    ensures ParseValue(l, Encode(v).value + rest, depth) == Ok(Parsed(v, rest, false))
    decreases v
  {
    match v
    case Null => assert ([0xF6] + rest)[1..] == rest;
    case Bool(b) => assert ([0xF5] + rest)[1..] == rest && ([0xF4] + rest)[1..] == rest;
    case Int(n) => IntParses(l, n, depth, rest);
    case Text(s) => StringParses(l, v, depth, rest);
    case Blob(s) => StringParses(l, v, depth, rest);
    case Array(items) =>
      var payload := EncodeItems(items).value;
      ParseEncodedItems(l, v, 0, depth + 1, rest);
      ArrayParses(l, items, payload, depth, rest);
    case Map(entries) =>
      AscendingIsSorted(entries);
      var pairs := EncodeEntries(entries).value;
      ParseEncodedEntries(l, v, 0, depth + 1, rest);
      MapParses(l, entries, Flat(pairs), depth, rest);
  }

  lemma ArrayParses(l: Limits, items: seq<Value>, payload: Bytes, depth: nat, rest: Bytes)
    requires depth <= l.maxDepth && SizeFits(|items|, l.maxArrayItems)
    requires ParseItems(l, payload + rest, depth + 1, |items|, [], false) == Ok(Parsed(items, rest, false))
    ensures ParseValue(l, Head(4, |items|) + payload + rest, depth) == Ok(Parsed(Array(items), rest, false))
  {
    hide Head, Argument, ParseItems;
    assert Head(4, |items|) + payload + rest == Head(4, |items|) + (payload + rest);
    HeadParses(4, |items|, payload + rest);
  }

  lemma MapParses(l: Limits, entries: seq<Entry>, payload: Bytes, depth: nat, rest: Bytes)
    requires depth <= l.maxDepth && SizeFits(|entries|, l.maxMapItems)
    requires ParseEntries(l, payload + rest, depth + 1, |entries|, None, [], false) == Ok(Parsed(entries, rest, false))
    ensures ParseValue(l, Head(5, |entries|) + payload + rest, depth) == Ok(Parsed(Map(entries), rest, false))
  {
    hide Head, Argument, ParseEntries;
    assert Head(5, |entries|) + payload + rest == Head(5, |entries|) + (payload + rest);
    HeadParses(5, |entries|, payload + rest);
  }

  lemma {:induction false} ParseEncodedItems(l: Limits, v: Value, k: nat, depth: nat, rest: Bytes)
    requires v.Array? && Normal(v) && k <= |v.items| && EncodeItems(v.items[k..]).Ok?
    requires forall i :: 0 <= i < |v.items| ==> Fits(l, v.items[i], depth)
    ensures ParseItems(l, EncodeItems(v.items[k..]).value + rest, depth, |v.items| - k, v.items[..k], false)
         == Ok(Parsed(v.items, rest, false))
    decreases v, |v.items| - k
  {
    hide ParseValue, Encode;
    var items := v.items;
    if k == |items| {
      assert items[k..] == [] && items[..k] == items;
      assert EncodeItems(items[k..]).value + rest == rest;
    } else {
      ItemsFront(items[k..]);
      var first, more := Encode(items[k]).value, EncodeItems(items[k..][1..]).value;
      assert items[k..][1..] == items[k + 1..] && items[..k + 1] == items[..k] + [items[k]];
      assert EncodeItems(items[k..]).value + rest == first + (more + rest);
      ParseEncoded(l, items[k], depth, more + rest);
      ParseEncodedItems(l, v, k + 1, depth, rest);
    }
  }

  ghost function Before(pairs: seq<Pair>, k: nat): Option<Bytes>
    requires k <= |pairs|
  {
    if k == 0 then None else Some(pairs[k - 1].key)
  }

  lemma {:induction false} ParseEncodedEntries(l: Limits, v: Value, k: nat, depth: nat, rest: Bytes)
    requires v.Map? && Normal(v) && k <= |v.entries| && EncodeEntries(v.entries).Ok?
    requires forall i :: 0 <= i < |v.entries| ==> FitsEntry(l, v.entries[i], depth)
    ensures var pairs := EncodeEntries(v.entries).value;
            ParseEntries(l, Flat(pairs[k..]) + rest, depth, |v.entries| - k, Before(pairs, k), v.entries[..k], false)
            == Ok(Parsed(v.entries, rest, false))
    decreases v, |v.entries| - k
  {
    hide ParseValue, Encode, EncodeEntries, Flat, SetEntry;
    var entries, pairs := v.entries, EncodeEntries(v.entries).value;
    EntriesEncode(entries);
    if k == |entries| {
      assert pairs[k..] == [] && entries[..k] == entries;
      assert Flat(pairs[k..]) + rest == rest by { assert Flat([]) == [] by { FlatNothing(); } }
    } else {
      var e, pair := entries[k], pairs[k];
      FlatFront(pairs[k..]);
      assert pairs[k..][1..] == pairs[k + 1..];
      var after := Flat(pairs[k + 1..]) + rest;
      assert NormalEntry(e) && FitsEntry(l, e, depth) && EncodeEntry(e) == Ok(pair);
      assert Flat(pairs[k..]) + rest == pair.key + (pair.value + after);
      ParseEncoded(l, e.key, depth, pair.value + after);
      ParseEncoded(l, e.value, depth, after);
      UsedFront(pair.key, pair.value + after);
      NewKeyAppends(entries, k);
      assert entries[..k + 1] == entries[..k] + [e];
      assert k > 0 ==> ShorterKey(KeyOf(entries[k - 1]), KeyOf(e)) && pairs[k - 1].key == KeyOf(entries[k - 1]);
      ParseEncodedEntries(l, v, k + 1, depth, rest);
    }
  }

  lemma FlatNothing()
    ensures Flat([]) == []
  {
  }

  lemma UsedFront(a: Bytes, b: Bytes)
    ensures Used(a + b, b) == a
  {
  }

  lemma NewKeyAppends(entries: seq<Entry>, k: nat)
    requires k < |entries| && KeysAscend(entries)
    ensures SetEntry(entries[..k], entries[k].key, entries[k].value) == entries[..k] + [entries[k]]
  {
    hide Encode;
    if HasKey(entries[..k], entries[k].key) {
      var i :| 0 <= i < k && entries[..k][i].key == entries[k].key;
      assert ShorterKey(KeyOf(entries[i]), KeyOf(entries[k]));
      ByteOrderZero(KeyOf(entries[i]), KeyOf(entries[k]));
      assert false;
    }
  }
}
