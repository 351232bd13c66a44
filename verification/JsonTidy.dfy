/** Sorted unique keys: what sorting entries gives, and that every parse result is tidy. */
module JsonTidy {
  import opened Sorting
  import opened TextOrder
  import opened DecimalText
  import opened JsonText
  import opened JsonLaws

  // ---- the order of keys

  lemma KeysTotal()
    ensures TotalPreorder(KeyBefore)
  {
    forall a: Entry, b: Entry ensures KeyBefore(a, b) || KeyBefore(b, a) { TextTotal(a.key, b.key); }
    forall a: Entry, b: Entry, c: Entry | KeyBefore(a, b) && KeyBefore(b, c)
      ensures KeyBefore(a, c)
    {
      TextChain(a.key, b.key, c.key);
    }
  }

  ghost predicate DistinctKeys(entries: seq<Entry>) {
    forall i, j :: 0 <= i < j < |entries| ==> entries[i].key != entries[j].key
  }

  lemma {:induction false} InsertDistinct(entries: seq<Entry>, e: Entry)
    requires DistinctKeys(entries) && !HasKey(entries, e.key)
    ensures DistinctKeys(Insert(entries, e, KeyBefore))
    ensures forall key :: HasKey(Insert(entries, e, KeyBefore), key) <==> HasKey(entries, key) || key == e.key
  {
    hide KeyBefore;
    if entries == [] {
      assert Insert(entries, e, KeyBefore) == [e];
      assert [e][0] == e;
    } else {
      var front, last := entries[..|entries| - 1], entries[|entries| - 1];
      HasKeySplit(entries);
      if KeyBefore(last, e) {
        HasKeyAppend(entries, e);
      } else {
        InsertDistinct(front, e);
        HasKeyAppend(Insert(front, e, KeyBefore), last);
        DistinctAppend(Insert(front, e, KeyBefore), last);
      }
    }
  }

  lemma HasKeySplit(entries: seq<Entry>)
    requires entries != [] && DistinctKeys(entries)
    ensures DistinctKeys(entries[..|entries| - 1]) && !HasKey(entries[..|entries| - 1], entries[|entries| - 1].key)
    ensures forall key :: HasKey(entries, key) <==>
              HasKey(entries[..|entries| - 1], key) || key == entries[|entries| - 1].key
  {
    HasKeyAppend(entries[..|entries| - 1], entries[|entries| - 1]);
    assert entries == entries[..|entries| - 1] + [entries[|entries| - 1]];
  }

  lemma HasKeyAppend(entries: seq<Entry>, e: Entry)
    ensures forall key :: HasKey(entries + [e], key) <==> HasKey(entries, key) || key == e.key
  {
    var longer := entries + [e];
    forall key ensures HasKey(longer, key) <==> HasKey(entries, key) || key == e.key {
      if HasKey(entries, key) {
        var i :| 0 <= i < |entries| && entries[i].key == key;
        assert longer[i].key == key;
      }
      assert longer[|entries|] == e;
    }
  }

  lemma DistinctAppend(entries: seq<Entry>, e: Entry)
    requires DistinctKeys(entries) && !HasKey(entries, e.key)
    ensures DistinctKeys(entries + [e])
  {
  }

  lemma {:induction false} SortDistinct(entries: seq<Entry>)
    requires DistinctKeys(entries)
    ensures DistinctKeys(Sort(entries, KeyBefore))
    ensures forall key :: HasKey(Sort(entries, KeyBefore), key) <==> HasKey(entries, key)
  {
    hide KeyBefore, Insert;
    if entries != [] {
      HasKeySplit(entries);
      SortDistinct(entries[..|entries| - 1]);
      InsertDistinct(Sort(entries[..|entries| - 1], KeyBefore), entries[|entries| - 1]);
    }
  }

  /** Sorting entries with distinct keys gives strictly ascending keys, and the same entries. */
  lemma SortAscends(entries: seq<Entry>)
    requires DistinctKeys(entries)
    ensures KeysAscend(Sort(entries, KeyBefore))
    ensures forall e :: e in Sort(entries, KeyBefore) <==> e in entries
  {
    hide Sort, TextBefore;
    KeysTotal();
    SortSorts(entries, KeyBefore);
    SortDistinct(entries);
    forall e
      ensures e in Sort(entries, KeyBefore) <==> e in entries
    {
      SameElements(Sort(entries, KeyBefore), entries, e);
    }
    forall i, j | 0 <= i < j < |Sort(entries, KeyBefore)|
      ensures TextBefore(Sort(entries, KeyBefore)[i].key, Sort(entries, KeyBefore)[j].key)
    {
      assert KeyBefore(Sort(entries, KeyBefore)[i], Sort(entries, KeyBefore)[j]);
    }
  }

  lemma AscendingDistinct(entries: seq<Entry>)
    requires KeysAscend(entries)
    ensures DistinctKeys(entries)
  {
  }

  /** An object made of tidy entries with distinct keys is tidy once sorted. */
  lemma SortedTidy(entries: seq<Entry>)
    requires DistinctKeys(entries) && forall i :: 0 <= i < |entries| ==> TidyEntry(entries[i])
    ensures Tidy(Object(Sort(entries, KeyBefore)))
  {
    hide Sort, KeyBefore, KeysAscend;
    SortAscends(entries);
    var sorted := Sort(entries, KeyBefore);
    forall i | 0 <= i < |sorted| ensures TidyEntry(sorted[i]) {
      assert sorted[i] in sorted && sorted[i] in entries;
    }
  }

  // ---- parse results

  lemma ExactReduced(c: int, scale: int)
    ensures Tidy(Exact(c, scale))
  {
  }

  lemma NumberTidy(l: Limits, s: string)
    requires ParseNumber(l, s).Ok?
    ensures Tidy(ParseNumber(l, s).value.value)
  {
    hide Exact, Tidy;
    forall c: int, scale: int ensures Tidy(Exact(c, scale)) { ExactReduced(c, scale); }
  }

  /** Every value the parser returns has reduced numbers and sorted unique keys. */
  lemma {:induction false} ParseTidy(l: Limits, s: string, depth: nat, nodes: nat)
    requires ParseValue(l, s, depth, nodes).Ok?
    ensures Tidy(ParseValue(l, s, depth, nodes).value.value)
    decreases |s|, 0
  {
    hide ParseNumber, ParseString, StartsWith, Sort;
    var t := SkipSpace(s);
    if t[0] == '-' || IsDigit(t[0]) { NumberTidy(l, t); }
    if t[0] == '[' {
      var u := SkipSpace(t[1..]);
      if !(u != "" && u[0] == ']') { ItemsTidy(l, u, depth + 1, nodes + 1, []); }
    }
    if t[0] == '{' {
      var u := SkipSpace(t[1..]);
      if !(u != "" && u[0] == '}') { MembersTidy(l, u, depth + 1, nodes + 1, []); }
    }
  }

  lemma {:induction false} ItemsTidy(l: Limits, s: string, depth: nat, nodes: nat, values: seq<Json>)
    requires ParseItems(l, s, depth, nodes, values).Ok? && forall i :: 0 <= i < |values| ==> Tidy(values[i])
    ensures Tidy(ParseItems(l, s, depth, nodes, values).value.value)
    decreases |s|, 1
  {
    hide ParseValue, AfterElement;
    ParseTidy(l, s, depth, nodes);
    var v := ParseValue(l, s, depth, nodes).value;
    var a := AfterElement(v.rest, ']').value;
    if !a.value { ItemsTidy(l, a.rest, depth, v.nodes, values + [v.value]); }
  }

  lemma {:induction false} MembersTidy(l: Limits, s: string, depth: nat, nodes: nat, entries: seq<Entry>)
    requires ParseMembers(l, s, depth, nodes, entries).Ok? && DistinctKeys(entries)
    requires forall i :: 0 <= i < |entries| ==> TidyEntry(entries[i])
    ensures Tidy(ParseMembers(l, s, depth, nodes, entries).value.value)
    decreases |s|, 1
  {
    hide ParseValue, AfterElement, ParseString, Sort;
    var key := ParseString(l, s).value;
    var t := SkipSpace(key.rest);
    ParseTidy(l, t[1..], depth, nodes);
    var m := ParseMember(l, s, depth, nodes, entries).value;
    var a := AfterElement(m.rest, '}').value;
    DistinctAppend(entries, m.value);
    assert TidyEntry(m.value);
    if a.value {
      SortedTidy(entries + [m.value]); } else { MembersTidy(l, a.rest, depth, m.nodes, entries + [m.value]);
    }
  }

  /** `parseCanonicalJson` returns tidy values. */
  lemma ParsedIsTidy(l: Limits, source: string)
    requires Parse(l, source).Ok?
    ensures Tidy(Parse(l, source).value)
  {
    hide ParseValue, Tidy;
    ParseTidy(l, source, 0, 0);
  }
}
