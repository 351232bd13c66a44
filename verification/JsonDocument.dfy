/** JSON documents as syntax trees with their blanks, how they are written and what they mean; and that the
    parser reads exactly the documents' texts, each as its meaning, within the limits. */
module JsonDocument {
  import opened Sorting
  import opened DecimalText
  import opened JsonText
  import opened JsonGrammar
  import Laws = JsonLaws

  datatype Doc =
    | Word(v: Json)
    | Quote(text: string, s: string)
    | Numeral(sp: Spelling, v: Json)
    | List(gap: string, items: seq<Item>)
    | Record(gap: string, members: seq<Member>)

  datatype Item = Item(before: string, doc: Doc, after: string)

  datatype Member = Member(before: string, text: string, key: string, gap: string, item: Item)

  // ---- what documents are

  ghost predicate WellFormed(doc: Doc)
    decreases doc
  {
    match doc
    case Word(v) => v.Null? || v.Bool?
    case Quote(text, s) => StringText(text, s)
    case Numeral(sp, v) => Means(sp, v)
    case List(gap, items) => Blank(gap) && forall i :: 0 <= i < |items| ==> ItemOk(items[i])
    case Record(gap, members) =>
      Blank(gap) && DistinctNames(members) && forall i :: 0 <= i < |members| ==> MemberOk(members[i])
  }

  ghost predicate ItemOk(item: Item)
    decreases item
  {
    Blank(item.before) && Blank(item.after) && WellFormed(item.doc)
  }

  ghost predicate MemberOk(m: Member)
    decreases m
  {
    Blank(m.before) && StringText(m.text, m.key) && Blank(m.gap) && ItemOk(m.item)
  }

  ghost predicate DistinctNames(members: seq<Member>) {
    forall i, j :: 0 <= i < j < |members| ==> members[i].key != members[j].key
  }

  // ---- how they are written, in front of what follows

  function WordText(v: Json): string {
    if v.Bool? then if v.b then "true" else "false" else "null"
  }

  function Written(doc: Doc, rest: string): string
    decreases doc
  {
    match doc
    case Word(v) => WordText(v) + rest
    case Quote(text, _) => text + rest
    case Numeral(sp, _) => Spell(sp) + rest
    case List(gap, items) =>
      "[" + if items == [] then gap + ("]" + rest) else WrittenItems(items, "]" + rest)
    case Record(gap, members) =>
      "{" + if members == [] then gap + ("}" + rest) else WrittenMembers(members, "}" + rest)
  }

  function WrittenItem(item: Item, rest: string): string
    decreases item
  {
    item.before + Written(item.doc, item.after + rest)
  }

  function WrittenItems(items: seq<Item>, rest: string): string
    requires items != []
    decreases items
  {
    WrittenItem(items[0], if |items| == 1 then rest else "," + WrittenItems(items[1..], rest))
  }

  function WrittenMember(m: Member, rest: string): string
    decreases m
  {
    m.before + (m.text + (m.gap + (":" + WrittenItem(m.item, rest))))
  }

  function WrittenMembers(members: seq<Member>, rest: string): string
    requires members != []
    decreases members
  {
    WrittenMember(members[0], if |members| == 1 then rest else "," + WrittenMembers(members[1..], rest))
  }

  // ---- what they mean

  function Meaning(doc: Doc): Json
    decreases doc
  {
    match doc
    case Word(v) => v
    case Quote(_, s) => Str(s)
    case Numeral(_, v) => v
    case List(_, items) => Array(Meanings(items))
    case Record(_, members) => Object(Sort(Entries(members), KeyBefore))
  }

  function Meanings(items: seq<Item>): (r: seq<Json>)
    ensures |r| == |items|
    decreases items
  {
    if items == [] then [] else [Meaning(items[0].doc)] + Meanings(items[1..])
  }

  function EntryOf(m: Member): Entry
    decreases m
  {
    Entry(m.key, Meaning(m.item.doc))
  }

  function Entries(members: seq<Member>): (r: seq<Entry>)
    ensures |r| == |members|
    decreases members
  {
    if members == [] then [] else [EntryOf(members[0])] + Entries(members[1..])
  }

  // ---- what they need of the limits

  /** Values in the document, itself among them. */
  function Size(doc: Doc): (n: nat)
    ensures n > 0
    decreases doc
  {
    match doc
    case List(_, items) => 1 + SizeOf(items)
    case Record(_, members) => 1 + SizeIn(members)
    case _ => 1
  }

  function SizeOf(items: seq<Item>): nat
    decreases items
  {
    if items == [] then 0 else Size(items[0].doc) + SizeOf(items[1..])
  }

  function MemberSize(m: Member): nat
    decreases m
  {
    Size(m.item.doc)
  }

  function SizeIn(members: seq<Member>): nat
    decreases members
  {
    if members == [] then 0 else MemberSize(members[0]) + SizeIn(members[1..])
  }

  /** Nothing is too deep, too long a string or too long a number. */
  ghost predicate Within(l: Limits, doc: Doc, depth: nat)
    requires WellFormed(doc)
    decreases doc
  {
    && depth <= l.maxDepth
    && match doc
       case Word(_) => true
       case Quote(_, s) => Utf8Length(s) <= l.maxStringBytes
       case Numeral(sp, _) => SpellingFits(l, sp)
       case List(_, items) => forall i :: 0 <= i < |items| ==> ItemWithin(l, items[i], depth + 1)
       case Record(_, members) => forall i :: 0 <= i < |members| ==> MemberWithin(l, members[i], depth + 1)
  }

  ghost predicate ItemWithin(l: Limits, item: Item, depth: nat)
    requires ItemOk(item)
    decreases item
  {
    Within(l, item.doc, depth)
  }

  ghost predicate MemberWithin(l: Limits, m: Member, depth: nat)
    requires MemberOk(m)
    decreases m
  {
    Utf8Length(m.key) <= l.maxStringBytes && ItemWithin(l, m.item, depth)
  }

  // ---- blanks

  lemma {:induction false} Skips(gap: string, t: string)
    requires Blank(gap) && (t == "" || !IsBlank(t[0]))
    ensures SkipSpace(gap + t) == t
  {
    if gap == "" {
      assert gap + t == t;
    } else {
      assert (gap + t)[0] == gap[0] && (gap + t)[1..] == gap[1..] + t;
      Skips(gap[1..], t);
    }
  }

  lemma {:induction false} Skipped(s: string) returns (gap: string)
    ensures Blank(gap) && s == gap + SkipSpace(s) && SkipSpace(SkipSpace(s)) == SkipSpace(s)
    ensures SkipSpace(s) == "" || !IsBlank(SkipSpace(s)[0])
  {
    if s != "" && IsBlank(s[0]) {
      var more := Skipped(s[1..]);
      gap := [s[0]] + more;
      assert s == [s[0]] + s[1..];
    } else {
      gap := "";
    }
  }

  // ---- every document is read as its meaning

  /** The value and what is left, if the limits allow; an error about the limits, if not. */
  predicate Gives(r: Result<Counted<Json>>, ok: bool, v: Json, rest: string, nodes: nat) {
    if ok then r == Ok(Counted(v, rest, nodes)) else r == Err(ResourceLimit) || r == Err(DepthLimit)
  }

  ghost predicate ReadsDoc(l: Limits, doc: Doc, gap: string, rest: string, depth: nat, nodes: nat)
    requires WellFormed(doc)
  {
    var after := nodes + Size(doc);
    Gives(ParseValue(l, gap + Written(doc, rest), depth, nodes), Within(l, doc, depth) && after <= l.maxNodes,
          Meaning(doc), rest, after)
  }

  lemma DocStarts(doc: Doc, rest: string)
    requires WellFormed(doc)
    ensures Laws.GoodStart(Written(doc, rest))
  {
    hide Means, WrittenItems, WrittenMembers, CharsText;
    match doc
    case Word(_) => assert Written(doc, rest)[0] == WordText(doc.v)[0];
    case Quote(text, _) => assert Written(doc, rest)[0] == text[0];
    case Numeral(sp, _) =>
      SpellStarts(sp, doc.v);
      assert Written(doc, rest)[0] == Spell(sp)[0];
    case List(_, _) => assert Written(doc, rest)[0] == '[';
    case Record(_, _) => assert Written(doc, rest)[0] == '{';
  }

  lemma SpellStarts(sp: Spelling, v: Json)
    requires Means(sp, v)
    ensures Spell(sp) != "" && (Spell(sp)[0] == '-' || IsDigit(Spell(sp)[0]))
  {
    hide Worth;
    WholeNotEmpty(sp.whole);
  }

  lemma Ends(after: string, t: string)
    requires Blank(after) && (t == "" || t[0] in ",]}")
    ensures NumberEnds(after + t) && SkipSpace(after + t) == t
  {
    Skips(after, t);
    if after == "" { assert after + t == t; } else { assert (after + t)[0] == after[0]; }
  }

  lemma WordReads(l: Limits, doc: Doc, gap: string, rest: string, depth: nat, nodes: nat)
    requires WellFormed(doc) && doc.Word? && Blank(gap)
    ensures ReadsDoc(l, doc, gap, rest, depth, nodes)
  {
    var t, word := Written(doc, rest), WordText(doc.v);
    DocStarts(doc, rest);
    Skips(gap, t);
    assert t[..|word|] == word && t[|word|..] == rest && t[0] == word[0];
  }

  lemma QuoteReads(l: Limits, doc: Doc, gap: string, rest: string, depth: nat, nodes: nat)
    requires WellFormed(doc) && doc.Quote? && Blank(gap)
    ensures ReadsDoc(l, doc, gap, rest, depth, nodes)
  {
    hide ParseString, CharsText, Utf8Length;
    var t := Written(doc, rest);
    DocStarts(doc, rest);
    Skips(gap, t);
    assert t[0] == doc.text[0] == '"';
    StringReads(l, doc.text, doc.s, rest);
  }

  lemma NumeralReads(l: Limits, doc: Doc, gap: string, rest: string, depth: nat, nodes: nat)
    requires WellFormed(doc) && doc.Numeral? && Blank(gap) && NumberEnds(rest)
    ensures ReadsDoc(l, doc, gap, rest, depth, nodes)
  {
    hide ParseNumber, Means, SpellingFits, Spell, NumberEnds;
    var t := Written(doc, rest);
    DocStarts(doc, rest);
    Skips(gap, t);
    NumberReads(l, doc.sp, doc.v, rest);
    assert t[0] == Spell(doc.sp)[0];
  }

  /** All that stands behind an item's own text. */
  function AfterItem(items: seq<Item>, rest: string): string
    requires items != []
  {
    if |items| == 1 then "]" + rest else "," + WrittenItems(items[1..], "]" + rest)
  }

  /** The items without the blanks in front of the first. */
  function Items(items: seq<Item>, rest: string): string
    requires items != []
  {
    Written(items[0].doc, items[0].after + AfterItem(items, rest))
  }

  ghost predicate ItemsOk(items: seq<Item>) { forall i :: 0 <= i < |items| ==> ItemOk(items[i]) }

  ghost predicate ItemsWithin(l: Limits, items: seq<Item>, depth: nat)
    requires ItemsOk(items)
  {
    forall i :: 0 <= i < |items| ==> ItemWithin(l, items[i], depth)
  }

  lemma FirstItem(l: Limits, items: seq<Item>, depth: nat)
    requires items != [] && ItemsOk(items)
    ensures ItemsOk(items[1..]) && WellFormed(items[0].doc)
    ensures ItemsWithin(l, items, depth) <==> Within(l, items[0].doc, depth) && ItemsWithin(l, items[1..], depth)
  {
    hide WellFormed, Within, Blank;
    assert items == [items[0]] + items[1..];
    assert ItemOk(items[0]);
    if Within(l, items[0].doc, depth) && ItemsWithin(l, items[1..], depth) {
      forall i | 0 <= i < |items| ensures ItemWithin(l, items[i], depth) {
        if i > 0 { assert items[i] == items[1..][i - 1]; }
      }
    }
  }

  lemma ItemsStart(items: seq<Item>, rest: string)
    requires items != [] && ItemsOk(items)
    ensures Laws.GoodStart(Items(items, rest)) && SkipSpace(WrittenItems(items, "]" + rest)) == Items(items, rest)
  {
    hide Written, WellFormed;
    assert ItemOk(items[0]);
    DocStarts(items[0].doc, items[0].after + AfterItem(items, rest));
    Skips(items[0].before, Items(items, rest));
  }

  ghost predicate ReadsItems(l: Limits, items: seq<Item>, rest: string, depth: nat, nodes: nat, done: seq<Json>)
    requires items != [] && ItemsOk(items)
  {
    var after := nodes + SizeOf(items);
    Gives(ParseItems(l, Items(items, rest), depth, nodes, done), ItemsWithin(l, items, depth) && after <= l.maxNodes,
          Array(done + Meanings(items)), rest, after)
  }

  lemma LastItem(l: Limits, items: seq<Item>, rest: string, depth: nat, nodes: nat, done: seq<Json>)
    requires |items| == 1 && ItemsOk(items) && WellFormed(items[0].doc)
    requires ReadsDoc(l, items[0].doc, "", items[0].after + AfterItem(items, rest), depth, nodes)
    ensures ReadsItems(l, items, rest, depth, nodes, done)
  {
    hide Written, WellFormed, Within, ParseValue, Size, Meaning, AfterElement, Blank;
    FirstItem(l, items, depth);
    assert ItemOk(items[0]);
    assert "" + Items(items, rest) == Items(items, rest);
    ClosingBracket(items[0].after, rest);
    assert items[1..] == [] && Meanings(items) == [Meaning(items[0].doc)] && SizeOf(items) == Size(items[0].doc);
  }

  lemma ClosingBracket(after: string, rest: string)
    requires Blank(after)
    ensures AfterElement(after + ("]" + rest), ']') == Ok(Read(true, rest))
  {
    hide Blank;
    Ends(after, "]" + rest);
    assert ("]" + rest)[1..] == rest;
  }

  lemma MoreItems(l: Limits, items: seq<Item>, rest: string, depth: nat, nodes: nat, done: seq<Json>)
    requires |items| > 1 && ItemsOk(items) && ItemsOk(items[1..]) && WellFormed(items[0].doc)
    requires ReadsDoc(l, items[0].doc, "", items[0].after + AfterItem(items, rest), depth, nodes)
    requires ReadsItems(l, items[1..], rest, depth, nodes + Size(items[0].doc), done + [Meaning(items[0].doc)])
    ensures ReadsItems(l, items, rest, depth, nodes, done)
  {
    hide Written, WellFormed, Within, ParseValue, Size, Meaning, WrittenItems, AfterElement, ItemWithin, ItemOk;
    FirstItem(l, items, depth);
    var more := items[1..];
    assert "" + Items(items, rest) == Items(items, rest);
    assert ItemOk(items[0]);
    CommaAndItems(items[0], more, rest);
    assert done + Meanings(items) == done + [Meaning(items[0].doc)] + Meanings(more);
  }

  lemma CommaAndItems(item: Item, more: seq<Item>, rest: string)
    requires ItemOk(item) && more != [] && ItemsOk(more)
    ensures AfterElement(item.after + ("," + WrittenItems(more, "]" + rest)), ']') ==
            Ok(Read(false, Items(more, rest)))
  {
    hide WellFormed, WrittenItems, Items, Laws.GoodStart;
    var u := WrittenItems(more, "]" + rest);
    Ends(item.after, "," + u);
    assert ("," + u)[1..] == u;
    ItemsStart(more, rest);
    NotClosed(Items(more, rest));
  }

  lemma NotClosed(t: string)
    requires Laws.GoodStart(t)
    ensures t != "" && t[0] != ']' && t[0] != '}' && !IsBlank(t[0])
  {
  }

  lemma {:induction false} ItemsRead(
      l: Limits, items: seq<Item>, rest: string, depth: nat, nodes: nat, done: seq<Json>)
    requires items != [] && ItemsOk(items)
    ensures ReadsItems(l, items, rest, depth, nodes, done)
    decreases items
  {
    hide ReadsDoc, ReadsItems, WellFormed, WrittenItems, NumberEnds;
    FirstItem(l, items, depth);
    assert ItemOk(items[0]);
    Ends(items[0].after, AfterItem(items, rest));
    DocReads(l, items[0].doc, "", items[0].after + AfterItem(items, rest), depth, nodes);
    if |items| == 1 {
      LastItem(l, items, rest, depth, nodes, done);
    } else {
      ItemsRead(l, items[1..], rest, depth, nodes + Size(items[0].doc), done + [Meaning(items[0].doc)]);
      MoreItems(l, items, rest, depth, nodes, done);
    }
  }

  lemma OpensList(l: Limits, gap: string, t: string, depth: nat, nodes: nat)
    requires Blank(gap) && t != "" && t[0] == '['
    ensures var u := SkipSpace(t[1..]);
            ParseValue(l, gap + t, depth, nodes) ==
              if nodes + 1 > l.maxNodes then Err(ResourceLimit)
              else if depth > l.maxDepth then Err(DepthLimit)
              else if u != "" && u[0] == ']' then Ok(Counted(Array([]), u[1..], nodes + 1))
              else ParseItems(l, u, depth + 1, nodes + 1, [])
  {
    hide SkipSpace, ParseMembers, ParseItems, ParseNumber, ParseString;
    Skips(gap, t);
  }

  lemma ListReads(l: Limits, doc: Doc, gap: string, rest: string, depth: nat, nodes: nat)
    requires WellFormed(doc) && doc.List? && Blank(gap) && ItemsOk(doc.items)
    requires doc.items != [] ==> ReadsItems(l, doc.items, rest, depth + 1, nodes + 1, [])
    ensures ReadsDoc(l, doc, gap, rest, depth, nodes)
  {
    hide ParseItems, WrittenItems, Items, ItemOk, ItemWithin, Laws.GoodStart, SkipSpace, ParseValue;
    var t := Written(doc, rest);
    assert t[0] == '[';
    OpensList(l, gap, t, depth, nodes);
    if doc.items == [] {
      assert t[1..] == doc.gap + ("]" + rest);
      Skips(doc.gap, "]" + rest);
      assert ("]" + rest)[1..] == rest && ("]" + rest)[0] == ']';
      NoItems(l, doc.gap, depth);
    } else {
      assert t[1..] == WrittenItems(doc.items, "]" + rest);
      ItemsStart(doc.items, rest);
      NotClosed(Items(doc.items, rest));
      assert [] + Meanings(doc.items) == Meanings(doc.items);
    }
  }

  lemma NoItems(l: Limits, gap: string, depth: nat)
    requires Blank(gap)
    ensures var doc := List(gap, []);
            && WellFormed(doc) && Meaning(doc) == Array([]) && Size(doc) == 1
            && (Within(l, doc, depth) <==> depth <= l.maxDepth)
  {
    assert Meanings([]) == [];
  }

  // ---- members

  lemma NothingWithin(l: Limits, doc: Doc, depth: nat)
    requires WellFormed(doc) && doc.Record? && doc.members == []
    ensures Size(doc) == 1 && (Within(l, doc, depth) <==> depth <= l.maxDepth)
  {
  }

  function AfterMember(members: seq<Member>, rest: string): string
    requires members != []
  {
    if |members| == 1 then "}" + rest else "," + WrittenMembers(members[1..], "}" + rest)
  }

  function Members(members: seq<Member>, rest: string): string
    requires members != []
  {
    var m := members[0];
    m.text + (m.gap + (":" + WrittenItem(m.item, AfterMember(members, rest))))
  }

  ghost predicate MembersOk(members: seq<Member>) { forall i :: 0 <= i < |members| ==> MemberOk(members[i]) }

  ghost predicate MembersWithin(l: Limits, members: seq<Member>, depth: nat)
    requires MembersOk(members)
  {
    forall i :: 0 <= i < |members| ==> MemberWithin(l, members[i], depth)
  }

  lemma FirstMember(l: Limits, members: seq<Member>, depth: nat)
    requires members != [] && MembersOk(members)
    ensures MembersOk(members[1..]) && MemberOk(members[0])
    ensures MembersWithin(l, members, depth) <==>
            MemberWithin(l, members[0], depth) && MembersWithin(l, members[1..], depth)
  {
    hide MemberOk, MemberWithin;
    if MemberWithin(l, members[0], depth) && MembersWithin(l, members[1..], depth) {
      forall i | 0 <= i < |members| ensures MemberWithin(l, members[i], depth) {
        if i > 0 { assert members[i] == members[1..][i - 1]; }
      }
    }
    forall i | 0 <= i < |members[1..]| ensures MemberOk(members[1..][i]) { assert members[1..][i] == members[i + 1]; }
  }

  lemma MembersStart(members: seq<Member>, rest: string)
    requires members != [] && MembersOk(members)
    ensures Laws.GoodStart(Members(members, rest))
    ensures SkipSpace(WrittenMembers(members, "}" + rest)) == Members(members, rest)
  {
    hide WrittenItem, ItemOk, CharsText;
    var m := members[0];
    assert MemberOk(m);
    assert Members(members, rest)[0] == m.text[0];
    Skips(m.before, Members(members, rest));
  }

  /** No name is among those already read. */
  ghost predicate Fresh(members: seq<Member>, done: seq<Entry>) {
    DistinctNames(members) && forall i :: 0 <= i < |members| ==> !HasKey(done, members[i].key)
  }

  lemma FreshMore(members: seq<Member>, done: seq<Entry>)
    requires members != [] && Fresh(members, done)
    ensures !HasKey(done, members[0].key) && Fresh(members[1..], done + [EntryOf(members[0])])
  {
    hide Meaning;
    var more, now := members[1..], done + [EntryOf(members[0])];
    forall i | 0 <= i < |more| ensures !HasKey(now, more[i].key) {
      assert more[i] == members[i + 1];
      assert !HasKey(done, members[i + 1].key);
      forall j | 0 <= j < |now| ensures now[j].key != more[i].key {
        if j < |done| { assert now[j] == done[j]; }
      }
    }
  }

  ghost predicate ReadsMember(l: Limits, m: Member, tail: string, depth: nat, nodes: nat, done: seq<Entry>)
    requires MemberOk(m)
  {
    var r := ParseMember(l, m.text + (m.gap + (":" + WrittenItem(m.item, tail))), depth, nodes, done);
    var after := nodes + MemberSize(m);
    if MemberWithin(l, m, depth) && after <= l.maxNodes then r == Ok(Counted(EntryOf(m), m.item.after + tail, after))
    else r == Err(ResourceLimit) || r == Err(DepthLimit)
  }

  lemma MemberReads(l: Limits, m: Member, tail: string, depth: nat, nodes: nat, done: seq<Entry>)
    requires MemberOk(m) && ItemOk(m.item) && WellFormed(m.item.doc) && !HasKey(done, m.key)
    requires ReadsDoc(l, m.item.doc, m.item.before, m.item.after + tail, depth, nodes)
    ensures ReadsMember(l, m, tail, depth, nodes, done)
  {
    hide Written, WellFormed, Within, ParseValue, Size, Meaning, ParseString, StringText, Utf8Length, HasKey;
    var x := WrittenItem(m.item, tail);
    StringReads(l, m.text, m.key, m.gap + (":" + x));
    Skips(m.gap, ":" + x);
    assert (":" + x)[1..] == x && (":" + x)[0] == ':';
    assert x == m.item.before + Written(m.item.doc, m.item.after + tail);
    assert MemberWithin(l, m, depth) <==> Utf8Length(m.key) <= l.maxStringBytes && Within(l, m.item.doc, depth);
  }

  ghost predicate ReadsMembers(l: Limits, members: seq<Member>, rest: string, depth: nat, nodes: nat, done: seq<Entry>)
    requires members != [] && MembersOk(members)
  {
    var after := nodes + SizeIn(members);
    Gives(ParseMembers(l, Members(members, rest), depth, nodes, done),
          MembersWithin(l, members, depth) && after <= l.maxNodes,
          Object(Sort(done + Entries(members), KeyBefore)), rest, after)
  }

  lemma LastMember(l: Limits, members: seq<Member>, rest: string, depth: nat, nodes: nat, done: seq<Entry>)
    requires |members| == 1 && MembersOk(members) && MemberOk(members[0])
    requires ReadsMember(l, members[0], AfterMember(members, rest), depth, nodes, done)
    ensures ReadsMembers(l, members, rest, depth, nodes, done)
  {
    hide WrittenItem, MemberWithin, ParseMember, MemberSize, EntryOf, MemberOk, AfterElement, Sort, Blank;
    FirstMember(l, members, depth);
    var m := members[0];
    AfterBlank(m);
    ClosingBrace(m.item.after, rest);
    assert members[1..] == [] && Entries(members) == [EntryOf(m)] && SizeIn(members) == MemberSize(m);
  }

  lemma ClosingBrace(after: string, rest: string)
    requires Blank(after)
    ensures AfterElement(after + ("}" + rest), '}') == Ok(Read(true, rest))
  {
    hide Blank;
    Ends(after, "}" + rest);
    assert ("}" + rest)[1..] == rest;
  }

  lemma AfterBlank(m: Member)
    requires MemberOk(m)
    ensures Blank(m.item.before) && Blank(m.item.after) && WellFormed(m.item.doc)
  {
    assert ItemOk(m.item);
  }

  lemma MoreMembers(l: Limits, members: seq<Member>, rest: string, depth: nat, nodes: nat, done: seq<Entry>)
    requires |members| > 1 && MembersOk(members) && MembersOk(members[1..]) && MemberOk(members[0])
    requires ReadsMember(l, members[0], AfterMember(members, rest), depth, nodes, done)
    requires ReadsMembers(l, members[1..], rest, depth, nodes + MemberSize(members[0]), done + [EntryOf(members[0])])
    ensures ReadsMembers(l, members, rest, depth, nodes, done)
  {
    hide WrittenItem, MemberWithin, ParseMember, MemberSize, EntryOf, MemberOk, WrittenMembers, AfterElement, Sort;
    FirstMember(l, members, depth);
    var m, more := members[0], members[1..];
    CommaAndMembers(m, more, rest);
    assert done + Entries(members) == done + [EntryOf(m)] + Entries(more);
  }

  lemma CommaAndMembers(m: Member, more: seq<Member>, rest: string)
    requires MemberOk(m) && more != [] && MembersOk(more)
    ensures AfterElement(m.item.after + ("," + WrittenMembers(more, "}" + rest)), '}') ==
            Ok(Read(false, Members(more, rest)))
  {
    hide MemberOk, WrittenMembers, Members, Laws.GoodStart;
    AfterBlank(m);
    var u := WrittenMembers(more, "}" + rest);
    Ends(m.item.after, "," + u);
    assert ("," + u)[1..] == u;
    MembersStart(more, rest);
    NotClosed(Members(more, rest));
  }

  lemma {:induction false} MembersRead(
      l: Limits, members: seq<Member>, rest: string, depth: nat, nodes: nat, done: seq<Entry>)
    requires members != [] && MembersOk(members) && Fresh(members, done)
    ensures ReadsMembers(l, members, rest, depth, nodes, done)
    decreases members
  {
    hide ReadsDoc, ReadsMember, ReadsMembers, WellFormed, WrittenMembers, NumberEnds, Fresh, MemberOk;
    FirstMember(l, members, depth);
    FreshMore(members, done);
    var m := members[0];
    AfterBlank(m);
    assert ItemOk(m.item);
    var tail := AfterMember(members, rest);
    Ends(m.item.after, tail);
    DocReads(l, m.item.doc, m.item.before, m.item.after + tail, depth, nodes);
    MemberReads(l, m, tail, depth, nodes, done);
    if |members| == 1 {
      LastMember(l, members, rest, depth, nodes, done);
    } else {
      MembersRead(l, members[1..], rest, depth, nodes + MemberSize(m), done + [EntryOf(m)]);
      MoreMembers(l, members, rest, depth, nodes, done);
    }
  }

  lemma OpensRecord(l: Limits, gap: string, t: string, depth: nat, nodes: nat)
    requires Blank(gap) && t != "" && t[0] == '{'
    ensures var u := SkipSpace(t[1..]);
            ParseValue(l, gap + t, depth, nodes) ==
              if nodes + 1 > l.maxNodes then Err(ResourceLimit)
              else if depth > l.maxDepth then Err(DepthLimit)
              else if u != "" && u[0] == '}' then Ok(Counted(Object([]), u[1..], nodes + 1))
              else ParseMembers(l, u, depth + 1, nodes + 1, [])
  {
    hide SkipSpace, ParseMembers, ParseItems, ParseNumber, ParseString;
    Skips(gap, t);
  }

  lemma RecordReads(l: Limits, doc: Doc, gap: string, rest: string, depth: nat, nodes: nat)
    requires WellFormed(doc) && doc.Record? && Blank(gap) && MembersOk(doc.members)
    requires doc.members != [] ==> ReadsMembers(l, doc.members, rest, depth + 1, nodes + 1, [])
    ensures ReadsDoc(l, doc, gap, rest, depth, nodes)
  {
    hide ParseMembers, WrittenMembers, Members, MemberOk, MemberWithin, Laws.GoodStart, SkipSpace, Sort, ParseValue;
    var t := Written(doc, rest);
    assert t[0] == '{';
    OpensRecord(l, gap, t, depth, nodes);
    if doc.members == [] {
      assert t[1..] == doc.gap + ("}" + rest);
      Skips(doc.gap, "}" + rest);
      assert ("}" + rest)[1..] == rest && ("}" + rest)[0] == '}';
      NoMembers(doc.gap, rest);
      assert Size(doc) == 1 && (Within(l, doc, depth) <==> depth <= l.maxDepth) by {
        NothingWithin(l, doc, depth);
      }
    } else {
      assert t[1..] == WrittenMembers(doc.members, "}" + rest);
      MembersStart(doc.members, rest);
      NotClosed(Members(doc.members, rest));
      assert [] + Entries(doc.members) == Entries(doc.members);
    }
  }

  /** Every document's text, in front of what may follow a value, is read as what the document means. */
  lemma {:induction false} DocReads(l: Limits, doc: Doc, gap: string, rest: string, depth: nat, nodes: nat)
    requires WellFormed(doc) && Blank(gap) && NumberEnds(rest)
    ensures ReadsDoc(l, doc, gap, rest, depth, nodes)
    decreases doc
  {
    hide ReadsDoc, ReadsItems, ReadsMembers, NumberEnds, Blank, ItemOk, MemberOk;
    match doc
    case Word(_) => WordReads(l, doc, gap, rest, depth, nodes);
    case Quote(_, _) => QuoteReads(l, doc, gap, rest, depth, nodes);
    case Numeral(_, _) => NumeralReads(l, doc, gap, rest, depth, nodes);
    case List(_, items) =>
      if items != [] { ItemsRead(l, items, rest, depth + 1, nodes + 1, []); }
      ListReads(l, doc, gap, rest, depth, nodes);
    case Record(_, members) =>
      if members != [] {
        assert Fresh(members, []) by { Laws.NoKey(""); }
        MembersRead(l, members, rest, depth + 1, nodes + 1, []);
      }
      RecordReads(l, doc, gap, rest, depth, nodes);
  }

  // ---- all that is read is a document's text

  /** What was read stands at the front, after blanks, as this document's text. */
  ghost predicate ReadFrom(doc: Doc, s: string, v: Json, rest: string) {
    WellFormed(doc) && SkipSpace(s) == Written(doc, rest) && Meaning(doc) == v
  }

  function Led(gap: string, items: seq<Item>): seq<Item>
    requires items != []
  {
    items[0 := items[0].(before := gap)]
  }

  lemma LedItems(gap: string, items: seq<Item>, rest: string)
    requires items != [] && ItemsOk(items) && Blank(gap)
    ensures ItemsOk(Led(gap, items)) && Meanings(Led(gap, items)) == Meanings(items)
    ensures WrittenItems(Led(gap, items), "]" + rest) == gap + Items(items, rest)
  {
    hide WellFormed, Written, Meaning, Blank;
    var led := Led(gap, items);
    assert led[1..] == items[1..];
    assert ItemOk(items[0]);
    forall i | 0 <= i < |led| ensures ItemOk(led[i]) { if i > 0 { assert led[i] == items[i]; } }
    AfterItemIs(led, rest);
    AfterItemIs(items, rest);
  }

  lemma AfterItemIs(items: seq<Item>, rest: string)
    requires items != []
    ensures WrittenItems(items, "]" + rest) == items[0].before + Items(items, rest)
  {
    hide Written;
  }

  ghost predicate ItemsFrom(items: seq<Item>, s: string, done: seq<Json>, v: Json, rest: string) {
    items != [] && ItemsOk(items) && SkipSpace(s) == Items(items, rest) && v == Array(done + Meanings(items))
  }

  lemma OneItem(doc: Doc, s: string, done: seq<Json>, v: Counted<Json>) returns (items: seq<Item>)
    requires ReadFrom(doc, s, v.value, v.rest) && AfterElement(v.rest, ']').Ok? && AfterElement(v.rest, ']').value.value
    ensures ItemsFrom(items, s, done, Array(done + [v.value]), AfterElement(v.rest, ']').value.rest)
  {
    hide WellFormed, Written, Meaning;
    var after := Skipped(v.rest);
    var t := SkipSpace(v.rest);
    items := [Item("", doc, after)];
    assert t == "]" + t[1..];
    assert items[1..] == [] && Meanings(items) == [Meaning(doc)];
    assert Blank("");
    assert ItemOk(items[0]);
  }

  lemma ItemAndMore(doc: Doc, s: string, done: seq<Json>, v: Counted<Json>, more: seq<Item>, w: Json, rest: string)
      returns (items: seq<Item>)
    requires ReadFrom(doc, s, v.value, v.rest)
    requires AfterElement(v.rest, ']').Ok? && !AfterElement(v.rest, ']').value.value
    requires ItemsFrom(more, AfterElement(v.rest, ']').value.rest, done + [v.value], w, rest)
    ensures ItemsFrom(items, s, done, w, rest)
  {
    hide WellFormed, Written, Meaning, Items, ItemOk, Meanings;
    var after := Skipped(v.rest);
    var t := SkipSpace(v.rest);
    var gap := Skipped(t[1..]);
    assert t == "," + t[1..];
    LedItems(gap, more, rest);
    var led := Led(gap, more);
    items := [Item("", doc, after)] + led;
    JoinItem(items[0], led, done, v.value, rest);
  }

  lemma JoinItem(item: Item, led: seq<Item>, done: seq<Json>, v: Json, rest: string)
    requires led != [] && ItemsOk(led) && Blank(item.after) && item.before == "" && WellFormed(item.doc)
    requires Meaning(item.doc) == v
    ensures var items := [item] + led;
            && ItemsOk(items) && done + Meanings(items) == done + [v] + Meanings(led)
            && Items(items, rest) == Written(item.doc, item.after + ("," + WrittenItems(led, "]" + rest)))
  {
    hide WellFormed, Written, Meaning;
    var items := [item] + led;
    assert items[1..] == led;
    assert ItemOk(item);
    forall i | 0 <= i < |items| ensures ItemOk(items[i]) { if i > 0 { assert items[i] == led[i - 1]; } }
    assert done + Meanings(items) == done + [v] + Meanings(led);
  }

  lemma {:induction false} ReadItems(l: Limits, s: string, depth: nat, nodes: nat, done: seq<Json>)
      returns (items: seq<Item>)
    requires ParseItems(l, s, depth, nodes, done).Ok?
    ensures var r := ParseItems(l, s, depth, nodes, done).value; ItemsFrom(items, s, done, r.value, r.rest)
    decreases |s|, 1
  {
    hide ParseValue, ReadFrom, ItemsFrom, AfterElement;
    var v := ParseValue(l, s, depth, nodes).value;
    var doc := ReadValue(l, s, depth, nodes);
    var a := AfterElement(v.rest, ']').value;
    if a.value {
      items := OneItem(doc, s, done, v);
    } else {
      var more := ReadItems(l, a.rest, depth, v.nodes, done + [v.value]);
      var r := ParseItems(l, s, depth, nodes, done).value;
      items := ItemAndMore(doc, s, done, v, more, r.value, r.rest);
    }
  }

  /** One member as it was read, with nothing behind its value. */
  ghost predicate MemberFrom(m: Member, s: string, e: Entry, rest: string) {
    && MemberOk(m) && m.item.after == "" && EntryOf(m) == e
    && s == m.text + (m.gap + (":" + WrittenItem(m.item, rest)))
  }

  lemma ReadMember(l: Limits, s: string, depth: nat, nodes: nat, done: seq<Entry>) returns (m: Member)
    requires ParseMember(l, s, depth, nodes, done).Ok?
    ensures var r := ParseMember(l, s, depth, nodes, done).value;
            MemberFrom(m, s, r.value, r.rest) && !HasKey(done, m.key)
    decreases |s|, 1
  {
    hide ParseValue, ParseString, StringText, WellFormed, Written, Meaning, HasKey;
    var key := ParseString(l, s).value;
    ReadString(l, s);
    var gap := Skipped(key.rest);
    var t := SkipSpace(key.rest);
    var before := Skipped(t[1..]);
    var doc := ReadValue(l, t[1..], depth, nodes);
    m := Member("", s[..|s| - |key.rest|], key.value, gap, Item(before, doc, ""));
    assert t == ":" + t[1..];
    var r := ParseMember(l, s, depth, nodes, done).value;
    assert "" + r.rest == r.rest && Blank("");
    assert ItemOk(m.item);
    assert s == m.text + key.rest;
  }

  ghost predicate MembersFrom(members: seq<Member>, s: string, done: seq<Entry>, v: Json, rest: string) {
    && members != [] && MembersOk(members) && Fresh(members, done) && s == Members(members, rest)
    && v == Object(Sort(done + Entries(members), KeyBefore))
  }

  function LedBy(gap: string, members: seq<Member>): seq<Member>
    requires members != []
  {
    members[0 := members[0].(before := gap)]
  }

  lemma LedMembers(gap: string, members: seq<Member>, rest: string)
    requires members != [] && MembersOk(members) && Blank(gap)
    ensures MembersOk(LedBy(gap, members)) && Entries(LedBy(gap, members)) == Entries(members)
    ensures DistinctNames(members) ==> DistinctNames(LedBy(gap, members))
    ensures WrittenMembers(LedBy(gap, members), "}" + rest) == gap + Members(members, rest)
  {
    hide ItemOk, Meaning, Blank, StringText, WrittenItem;
    var led := LedBy(gap, members);
    assert led[1..] == members[1..];
    assert MemberOk(members[0]);
    forall i | 0 <= i < |led| ensures MemberOk(led[i]) { if i > 0 { assert led[i] == members[i]; } }
    assert forall i :: 0 <= i < |led| ==> led[i].key == members[i].key;
  }

  lemma WithAfter(m: Member, after: string, rest: string)
    requires MemberOk(m) && m.item.after == "" && Blank(after)
    ensures var n := m.(item := m.item.(after := after));
            && MemberOk(n) && EntryOf(n) == EntryOf(m)
            && WrittenItem(n.item, rest) == WrittenItem(m.item, after + rest)
  {
    hide WellFormed, Written, Meaning, StringText, Blank;
    var n := m.(item := m.item.(after := after));
    assert ItemOk(m.item) && ItemOk(n.item);
    assert "" + (after + rest) == after + rest;
  }

  lemma OneMember(m: Member, s: string, done: seq<Entry>, r: Counted<Entry>) returns (members: seq<Member>)
    requires MemberFrom(m, s, r.value, r.rest) && !HasKey(done, m.key)
    requires AfterElement(r.rest, '}').Ok? && AfterElement(r.rest, '}').value.value
    ensures var v := Object(Sort(done + [r.value], KeyBefore));
            MembersFrom(members, s, done, v, AfterElement(r.rest, '}').value.rest)
  {
    hide MemberOk, WrittenItem, EntryOf, Sort, HasKey;
    var after := Skipped(r.rest);
    var t := SkipSpace(r.rest);
    assert t == "}" + t[1..];
    WithAfter(m, after, t);
    members := [m.(item := m.item.(after := after))];
    assert members[1..] == [] && Entries(members) == [EntryOf(members[0])];
  }

  lemma MemberAndMore(
      m: Member, s: string, done: seq<Entry>, r: Counted<Entry>, more: seq<Member>, w: Json, rest: string)
      returns (members: seq<Member>)
    requires MemberFrom(m, s, r.value, r.rest) && !HasKey(done, m.key)
    requires AfterElement(r.rest, '}').Ok? && !AfterElement(r.rest, '}').value.value
    requires MembersFrom(more, AfterElement(r.rest, '}').value.rest, done + [r.value], w, rest)
    ensures MembersFrom(members, s, done, w, rest)
  {
    hide MemberOk, WrittenItem, EntryOf, Sort, HasKey, Members, Entries, Fresh, WrittenMembers, AfterElement, LedBy;
    var after, gap := AfterComma(r.rest);
    var u := AfterElement(r.rest, '}').value.rest;
    WithAfter(m, after, "," + (gap + u));
    LedMembers(gap, more, rest);
    var led, n := LedBy(gap, more), m.(item := m.item.(after := after));
    SameNames(gap, more, done + [r.value]);
    members := [n] + led;
    JoinMember(n, led, done, r.value, rest);
  }

  lemma AfterComma(s: string) returns (after: string, gap: string)
    requires AfterElement(s, '}').Ok? && !AfterElement(s, '}').value.value
    ensures Blank(after) && Blank(gap) && s == after + ("," + (gap + AfterElement(s, '}').value.rest))
  {
    hide Blank;
    after := Skipped(s);
    var t := SkipSpace(s);
    assert t == "," + t[1..];
    gap := Skipped(t[1..]);
  }

  lemma SameNames(gap: string, more: seq<Member>, done: seq<Entry>)
    requires more != [] && Fresh(more, done)
    ensures Fresh(LedBy(gap, more), done)
  {
    hide HasKey;
    assert forall i :: 0 <= i < |more| ==> LedBy(gap, more)[i].key == more[i].key;
  }

  lemma JoinMember(m: Member, led: seq<Member>, done: seq<Entry>, e: Entry, rest: string)
    requires led != [] && MembersOk(led) && MemberOk(m) && EntryOf(m) == e
    requires Fresh(led, done + [e]) && !HasKey(done, m.key)
    ensures var members := [m] + led;
            && MembersOk(members) && Fresh(members, done) && done + Entries(members) == done + [e] + Entries(led)
            && Members(members, rest) ==
               m.text + (m.gap + (":" + WrittenItem(m.item, "," + WrittenMembers(led, "}" + rest))))
  {
    hide MemberOk, WrittenItem, WrittenMembers, Meaning;
    var members := [m] + led;
    assert members[1..] == led;
    forall i | 0 <= i < |members| ensures MemberOk(members[i]) { if i > 0 { assert members[i] == led[i - 1]; } }
    FreshFront(m, led, done, e);
    assert done + Entries(members) == done + [e] + Entries(led);
  }

  lemma FreshFront(m: Member, led: seq<Member>, done: seq<Entry>, e: Entry)
    requires Fresh(led, done + [e]) && !HasKey(done, m.key) && e.key == m.key
    ensures Fresh([m] + led, done)
  {
    hide HasKey;
    var members := [m] + led;
    forall i | 0 <= i < |led| ensures led[i].key != m.key && !HasKey(done, led[i].key) {
      Laws.LastKey(done, e, led[i].key);
    }
    forall i | 0 <= i < |members| ensures !HasKey(done, members[i].key) {
      if i > 0 { assert members[i] == led[i - 1]; }
    }
    forall i, j | 0 <= i < j < |members| ensures members[i].key != members[j].key {
      assert members[j] == led[j - 1];
      if i > 0 { assert members[i] == led[i - 1]; }
    }
  }

  lemma {:induction false} ReadMembers(l: Limits, s: string, depth: nat, nodes: nat, done: seq<Entry>)
      returns (members: seq<Member>)
    requires ParseMembers(l, s, depth, nodes, done).Ok?
    ensures var r := ParseMembers(l, s, depth, nodes, done).value; MembersFrom(members, s, done, r.value, r.rest)
    decreases |s|, 2
  {
    hide ParseMember, MemberFrom, MembersFrom, AfterElement, Sort;
    var e := ParseMember(l, s, depth, nodes, done).value;
    var m := ReadMember(l, s, depth, nodes, done);
    var a := AfterElement(e.rest, '}').value;
    if a.value {
      members := OneMember(m, s, done, e);
    } else {
      var more := ReadMembers(l, a.rest, depth, e.nodes, done + [e.value]);
      var r := ParseMembers(l, s, depth, nodes, done).value;
      members := MemberAndMore(m, s, done, e, more, r.value, r.rest);
    }
  }

  lemma ReadList(l: Limits, s: string, depth: nat, nodes: nat) returns (doc: Doc)
    requires ParseValue(l, s, depth, nodes).Ok? && SkipSpace(s) != "" && SkipSpace(s)[0] == '['
    ensures var r := ParseValue(l, s, depth, nodes).value; ReadFrom(doc, s, r.value, r.rest)
    decreases |s|, 0, 0
  {
    hide ParseValue, ParseItems, WellFormed, Meaning, Written, ItemsFrom, Blank, SkipSpace;
    var front := Skipped(s);
    var t := SkipSpace(s);
    OpensList(l, front, t, depth, nodes);
    var gap := Skipped(t[1..]);
    var u := SkipSpace(t[1..]);
    assert t == "[" + t[1..];
    var r := ParseValue(l, s, depth, nodes).value;
    if u != "" && u[0] == ']' {
      doc := List(gap, []);
      assert u == "]" + u[1..];
      EmptyList(gap, u[1..]);
    } else {
      var items := ReadItems(l, u, depth + 1, nodes + 1, []);
      doc := SomeItems(gap, items, u, r.value, r.rest);
    }
  }

  lemma EmptyList(gap: string, rest: string)
    requires Blank(gap)
    ensures var doc := List(gap, []);
            WellFormed(doc) && Meaning(doc) == Array([]) && Written(doc, rest) == "[" + (gap + ("]" + rest))
  {
    assert Meanings([]) == [];
  }

  lemma SomeItems(gap: string, items: seq<Item>, u: string, v: Json, rest: string) returns (doc: Doc)
    requires ItemsFrom(items, u, [], v, rest) && Blank(gap)
    ensures WellFormed(doc) && Meaning(doc) == v && Written(doc, rest) == "[" + (gap + SkipSpace(u))
  {
    hide ItemOk, WrittenItems, Items, Meanings, SkipSpace;
    LedItems(gap, items, rest);
    doc := List("", Led(gap, items));
    assert [] + Meanings(items) == Meanings(items);
  }

  lemma ReadRecord(l: Limits, s: string, depth: nat, nodes: nat) returns (doc: Doc)
    requires ParseValue(l, s, depth, nodes).Ok? && SkipSpace(s) != "" && SkipSpace(s)[0] == '{'
    ensures var r := ParseValue(l, s, depth, nodes).value; ReadFrom(doc, s, r.value, r.rest)
    decreases |s|, 0, 0
  {
    hide ParseValue, ParseMembers, WellFormed, Meaning, Written, MembersFrom, Blank, SkipSpace;
    var front := Skipped(s);
    var t := SkipSpace(s);
    OpensRecord(l, front, t, depth, nodes);
    var gap := Skipped(t[1..]);
    var u := SkipSpace(t[1..]);
    assert t == "{" + t[1..];
    var r := ParseValue(l, s, depth, nodes).value;
    if u != "" && u[0] == '}' {
      doc := Record(gap, []);
      assert u == "}" + u[1..];
      NoMembers(gap, u[1..]);
    } else {
      var members := ReadMembers(l, u, depth + 1, nodes + 1, []);
      doc := SomeMembers(gap, members, u, r.value, r.rest);
    }
  }

  lemma NotEmpty(l: Limits, s: string, depth: nat, nodes: nat)
    requires ParseValue(l, s, depth, nodes).Ok?
    ensures SkipSpace(s) != ""
  {
    hide SkipSpace, ParseMembers, ParseItems, ParseNumber, ParseString;
  }

  lemma NoMembers(gap: string, rest: string)
    requires Blank(gap)
    ensures var doc := Record(gap, []);
            WellFormed(doc) && Meaning(doc) == Object([]) && Written(doc, rest) == "{" + (gap + ("}" + rest))
  {
    assert Entries([]) == [] && Sort<Entry>([], KeyBefore) == [];
  }

  lemma SomeMembers(gap: string, members: seq<Member>, u: string, v: Json, rest: string) returns (doc: Doc)
    requires MembersFrom(members, u, [], v, rest) && Blank(gap)
    ensures WellFormed(doc) && Meaning(doc) == v && Written(doc, rest) == "{" + (gap + u)
  {
    hide MemberOk, WrittenMembers, Members, Entries, Sort, HasKey;
    LedMembers(gap, members, rest);
    doc := Record("", LedBy(gap, members));
    assert [] + Entries(members) == Entries(members);
  }

  lemma ReadScalar(l: Limits, s: string, depth: nat, nodes: nat) returns (doc: Doc)
    requires ParseValue(l, s, depth, nodes).Ok? && SkipSpace(s) != ""
    requires SkipSpace(s)[0] != '[' && SkipSpace(s)[0] != '{'
    ensures var r := ParseValue(l, s, depth, nodes).value; ReadFrom(doc, s, r.value, r.rest)
  {
    hide ParseString, ParseNumber, StringText, Means, Spell;
    var t := SkipSpace(s);
    var r := ParseValue(l, s, depth, nodes).value;
    if t[0] == '"' {
      ReadString(l, t);
      var text := t[..|t| - |r.rest|];
      doc := Quote(text, r.value.s);
      assert t == text + r.rest;
    } else if t[0] == '-' || IsDigit(t[0]) {
      var sp := ReadNumber(l, t);
      doc := Numeral(sp, r.value);
    } else {
      doc := Word(r.value);
      assert t == t[..|t| - |r.rest|] + r.rest;
    }
  }

  /** What is read is, after blanks, the text of a document that means the value. */
  lemma {:induction false} ReadValue(l: Limits, s: string, depth: nat, nodes: nat) returns (doc: Doc)
    requires ParseValue(l, s, depth, nodes).Ok?
    ensures var r := ParseValue(l, s, depth, nodes).value; ReadFrom(doc, s, r.value, r.rest)
    decreases |s|, 0, 1
  {
    hide ReadFrom, ParseValue;
    NotEmpty(l, s, depth, nodes);
    if SkipSpace(s)[0] == '[' {
      doc := ReadList(l, s, depth, nodes);
    } else if SkipSpace(s)[0] == '{' {
      doc := ReadRecord(l, s, depth, nodes);
    } else {
      doc := ReadScalar(l, s, depth, nodes);
    }
  }

  // ---- whole texts

  /** A document in the limits, with blanks around it, written as this text and meaning this value. */
  ghost predicate Accepted(l: Limits, item: Item, s: string, v: Json) {
    && ItemOk(item) && WrittenItem(item, "") == s && Meaning(item.doc) == v
    && Utf8Length(s) <= l.maxBytes && ItemWithin(l, item, 0) && Size(item.doc) <= l.maxNodes
  }

  /** The parser gives a value exactly when the text is a document in the limits that means this value. */
  lemma ParsesExactly(l: Limits, s: string, v: Json)
    ensures Parse(l, s) == Ok(v) <==> exists item :: Accepted(l, item, s, v)
  {
    hide WellFormed, Written, Meaning, Within, ParseValue, Size, Utf8Length;
    if Parse(l, s) == Ok(v) {
      var r := ParseValue(l, s, 0, 0).value;
      var doc := ReadValue(l, s, 0, 0);
      var before := Skipped(s);
      var after := Skipped(r.rest);
      var item := Item(before, doc, after);
      assert after + "" == after == r.rest;
      ParseOfText(l, item);
      assert Accepted(l, item, s, v);
    }
    if item :| Accepted(l, item, s, v) { ParseOfText(l, item); }
  }

  /** A document's text is refused only for the limits. */
  lemma ParseOfText(l: Limits, item: Item)
    requires ItemOk(item)
    ensures var s := WrittenItem(item, "");
            var r := Parse(l, s);
            if Accepted(l, item, s, Meaning(item.doc)) then r == Ok(Meaning(item.doc))
            else r == Err(ResourceLimit) || r == Err(DepthLimit)
  {
    hide WellFormed, Written, Meaning, Within, ParseValue, Size, Utf8Length, NumberEnds;
    Ends(item.after, "");
    DocReads(l, item.doc, item.before, item.after + "", 0, 0);
  }

  /** A text that is refused for its form is not the text of any document. */
  lemma RefusedIsNoDocument(l: Limits, s: string, item: Item)
    requires Parse(l, s) == Err(InvalidJson) || Parse(l, s) == Err(DuplicateKey)
    ensures !(ItemOk(item) && WrittenItem(item, "") == s)
  {
    hide ItemOk, WrittenItem;
    if ItemOk(item) && WrittenItem(item, "") == s { ParseOfText(l, item); }
  }
}
