/** `canonicalJsonEqual` compares texts; what that says about values. */
module JsonEquality {
  import opened DecimalText
  import Decimal
  import DecimalCodec
  import opened JsonText
  import opened JsonLaws

  predicate CanonicalJsonEqual(a: Json, b: Json)
    requires NumbersOk(a) && NumbersOk(b)
  {
    Serialize(a) == Serialize(b)
  }

  /** The same structure, with strings and keys compared without a leading byte order mark. */
  ghost predicate Alike(a: Json, b: Json)
    decreases a
  {
    match a
    case Null => b.Null?
    case Bool(_) => b == a
    case Number(_, _) => b == a
    case Str(s) => b.Str? && HostText(b.s) == HostText(s)
    case Array(values) => b.Array? && |b.values| == |values|
        && forall i :: 0 <= i < |values| ==> Alike(values[i], b.values[i])
    case Object(entries) =>
      b.Object? && |b.entries| == |entries| && forall i :: 0 <= i < |entries| ==> AlikeEntries(entries[i], b.entries[i])
  }

  ghost predicate AlikeEntries(e: Entry, f: Entry)
    decreases e
  {
    HostText(e.key) == HostText(f.key) && Alike(e.value, f.value)
  }

  // ---- alike values have one text

  lemma {:induction false} AlikeTexts(a: Json, b: Json)
    requires Alike(a, b) && NumbersOk(a) && NumbersOk(b)
    ensures Serialize(a) == Serialize(b)
    decreases a
  {
    hide SerializeItems, SerializeMembers, NumberText, Quoted;
    if a.Array? { assert a.values[0..] == a.values && b.values[0..] == b.values; AlikeItems(a, b, 0); }
    if a.Object? { assert a.entries[0..] == a.entries && b.entries[0..] == b.entries; AlikeMembers(a, b, 0); }
  }

  lemma {:induction false} AlikeItems(a: Json, b: Json, k: nat)
    requires a.Array? && Alike(a, b) && NumbersOk(a) && NumbersOk(b) && k <= |a.values|
    ensures SerializeItems(a.values[k..]) == SerializeItems(b.values[k..])
    decreases a, |a.values| - k
  {
    hide Serialize;
    if k < |a.values| {
      AlikeTexts(a.values[k], b.values[k]);
      AlikeItems(a, b, k + 1);
      NextText(a.values, k);
      NextText(b.values, k);
    }
  }

  lemma NextText(values: seq<Json>, k: nat)
    requires k < |values| && forall i :: 0 <= i < |values| ==> NumbersOk(values[i])
    ensures SerializeItems(values[k..]) == Serialize(values[k]) +
              if k + 1 == |values| then "" else "," + SerializeItems(values[k + 1..])
  {
    hide Serialize, NumbersOk;
    assert values[k..][0] == values[k] && values[k..][1..] == values[k + 1..];
  }

  lemma {:induction false} AlikeMembers(a: Json, b: Json, k: nat)
    requires a.Object? && Alike(a, b) && NumbersOk(a) && NumbersOk(b) && k <= |a.entries|
    ensures SerializeMembers(a.entries[k..]) == SerializeMembers(b.entries[k..])
    decreases a, |a.entries| - k
  {
    hide Serialize, Quoted;
    if k < |a.entries| {
      var e, f := a.entries[k], b.entries[k];
      assert AlikeEntries(e, f) && EntryNumbersOk(e) && EntryNumbersOk(f);
      AlikeTexts(e.value, f.value);
      AlikeMembers(a, b, k + 1);
      NextMemberText(a.entries, k);
      NextMemberText(b.entries, k);
    }
  }

  lemma NextMemberText(entries: seq<Entry>, k: nat)
    requires k < |entries| && forall i :: 0 <= i < |entries| ==> EntryNumbersOk(entries[i])
    ensures SerializeMembers(entries[k..])
         == SerializeMember(entries[k]) + if k + 1 == |entries| then "" else "," + SerializeMembers(entries[k + 1..])
  {
    hide SerializeMember, EntryNumbersOk;
    assert entries[k..][0] == entries[k] && entries[k..][1..] == entries[k + 1..];
  }

  // ---- one text comes from alike values

  /** What may follow a value inside a text. */
  predicate Follows(s: string) { s == "" || s[0] == ',' || s[0] == ']' || s[0] == '}' }

  lemma QuotedSplits(s: string, t: string, u: string, w: string)
    requires Quoted(s) + u == Quoted(t) + w
    ensures s == t && u == w
  {
    hide Quoted, ParseString, Utf8Length;
    var n := Utf8Length(s) + Utf8Length(t);
    var l := Limits(n, n, n, n, n);
    QuotedParses(l, s, u);
    QuotedParses(l, t, w);
  }

  lemma NumberSplits(a: Json, b: Json, u: string, w: string)
    requires a.Number? && b.Number? && Tidy(a) && Tidy(b) && Follows(u) && Follows(w)
    requires NumberText(a.coefficient, a.scale) + u == NumberText(b.coefficient, b.scale) + w
    ensures a == b && u == w
  {
    hide NumberText, ParseNumber, DecimalCodec.Digits;
    var n := |DecimalCodec.Digits(Decimal.Decimal(a.coefficient, a.scale))| +
          |DecimalCodec.Digits(Decimal.Decimal(b.coefficient, b.scale))|;
    var l := Limits(n, n, n, n, n);
    NumberParses(l, a.coefficient, a.scale, u);
    NumberParses(l, b.coefficient, b.scale, w);
  }

  /** The first character of a value's text. */
  lemma FirstCharacter(v: Json)
    requires Tidy(v) && NumbersOk(v)
    ensures Serialize(v) != ""
    ensures v.Null? <==> Serialize(v)[0] == 'n'
    ensures v == Bool(true) <==> Serialize(v)[0] == 't'
    ensures v == Bool(false) <==> Serialize(v)[0] == 'f'
    ensures v.Str? <==> Serialize(v)[0] == '"'
    ensures v.Array? <==> Serialize(v)[0] == '['
    ensures v.Object? <==> Serialize(v)[0] == '{'
    ensures Serialize(v)[0] != ',' && Serialize(v)[0] != ']' && Serialize(v)[0] != '}'
  {
    hide NumberText;
    if v.Number? {
      NumberStarts(v.coefficient, v.scale);
      assert IsDigit(Serialize(v)[0]) || Serialize(v)[0] == '-';
    }
  }

  /** Two texts of values that start one text are of alike values, and what follows is the same. */
  lemma {:induction false} TextSplits(a: Json, b: Json, u: string, w: string)
    requires Tidy(a) && Tidy(b) && NumbersOk(a) && NumbersOk(b) && Follows(u) && Follows(w)
    requires Serialize(a) + u == Serialize(b) + w
    ensures Alike(a, b) && u == w
    decreases a
  {
    hide Serialize, Tidy, NumbersOk, Alike, Follows;
    FirstCharacter(a);
    FirstCharacter(b);
    assert (Serialize(a) + u)[0] == Serialize(a)[0] && (Serialize(b) + w)[0] == Serialize(b)[0];
    if a.Array? {
      ArraySplits(a, b, u, w);
    } else if a.Object? {
      ObjectSplits(a, b, u, w);
    } else {
      LeafSplits(a, b, u, w);
    }
  }

  lemma LeafSplits(a: Json, b: Json, u: string, w: string)
    requires Tidy(a) && Tidy(b) && NumbersOk(a) && NumbersOk(b) && Follows(u) && Follows(w)
    requires Serialize(a) + u == Serialize(b) + w && !a.Array? && !a.Object?
    requires (a.Null? <==> b.Null?) && (a == Bool(true) <==> b == Bool(true))
    requires (a == Bool(false) <==> b == Bool(false))
    requires (a.Str? <==> b.Str?) && !b.Array? && !b.Object?
    ensures Alike(a, b) && u == w
  {
    hide NumberText, Quoted, Follows;
    if a.Str? {
      QuotedSplits(HostText(a.s), HostText(b.s), u, w);
    } else if a.Number? {
      NumberSplits(a, b, u, w);
    } else {
      var n := |Serialize(a)|;
      assert u == (Serialize(a) + u)[n..] && w == (Serialize(b) + w)[n..];
    }
  }

  lemma {:induction false} ArraySplits(a: Json, b: Json, u: string, w: string)
    requires a.Array? && b.Array? && Tidy(a) && Tidy(b) && NumbersOk(a) && NumbersOk(b)
    requires Serialize(a) + u == Serialize(b) + w
    ensures Alike(a, b) && u == w
    decreases a, |a.values| + 1
  {
    hide SerializeItems, Alike;
    assert Serialize(a) + u == "[" + (SerializeItems(a.values) + ("]" + u));
    assert Serialize(b) + w == "[" + (SerializeItems(b.values) + ("]" + w));
    assert (Serialize(a) + u)[1..] == SerializeItems(a.values) + ("]" + u);
    assert (Serialize(b) + w)[1..] == SerializeItems(b.values) + ("]" + w);
    assert a.values[0..] == a.values && b.values[0..] == b.values;
    ItemsSplit(a, b, 0, u, w);
    ArrayAlike(a, b);
  }

  lemma ArrayAlike(a: Json, b: Json)
    requires a.Array? && b.Array? && |a.values| == |b.values|
    requires forall i :: 0 <= i < |a.values| ==> Alike(a.values[i], b.values[i])
    ensures Alike(a, b)
  {
  }

  /** The items from one position on. */
  lemma {:induction false} ItemsSplit(a: Json, b: Json, k: nat, u: string, w: string)
    requires a.Array? && b.Array? && Tidy(a) && Tidy(b) && NumbersOk(a) && NumbersOk(b) && k <= |a.values|
    requires k <= |b.values|
    requires k > 0 ==> k < |a.values| && k < |b.values|
    requires SerializeItems(a.values[k..]) + ("]" + u) == SerializeItems(b.values[k..]) + ("]" + w)
    ensures |a.values| == |b.values| && u == w
    ensures forall i :: k <= i < |a.values| ==> Alike(a.values[i], b.values[i])
    decreases a, |a.values| - k
  {
    hide Serialize, SerializeItems, Alike;
    ItemsFirst(a.values, k, u);
    ItemsFirst(b.values, k, w);
    if k == |a.values| || k == |b.values| {
      assert ("]" + u)[1..] == u && ("]" + w)[1..] == w;
    } else {
      NextText(a.values, k);
      NextText(b.values, k);
      var p := if k + 1 == |a.values| then "]" + u else "," + (SerializeItems(a.values[k + 1..]) + ("]" + u));
      var q := if k + 1 == |b.values| then "]" + w else "," + (SerializeItems(b.values[k + 1..]) + ("]" + w));
      assert SerializeItems(a.values[k..]) + ("]" + u) == Serialize(a.values[k]) + p;
      assert SerializeItems(b.values[k..]) + ("]" + w) == Serialize(b.values[k]) + q;
      TextSplits(a.values[k], b.values[k], p, q);
      if k + 1 < |a.values| {
        assert p[0] == ',' && q[0] == ',' && k + 1 < |b.values|;
        assert p[1..] == SerializeItems(a.values[k + 1..]) + ("]" + u);
        assert q[1..] == SerializeItems(b.values[k + 1..]) + ("]" + w);
        ItemsSplit(a, b, k + 1, u, w);
      } else {
        assert p[0] == ']' && k + 1 == |b.values|;
        assert p[1..] == u && q[1..] == w;
      }
    }
  }

  /** A closing bracket comes first exactly when no item is left. */
  lemma ItemsFirst(values: seq<Json>, k: nat, u: string)
    requires k <= |values| && forall i :: 0 <= i < |values| ==> Tidy(values[i]) && NumbersOk(values[i])
    ensures var s := SerializeItems(values[k..]) + ("]" + u); s != "" && (s[0] == ']' <==> k == |values|)
    ensures k == |values| ==> SerializeItems(values[k..]) + ("]" + u) == "]" + u
  {
    hide Serialize, Tidy, NumbersOk;
    if k < |values| {
      NextText(values, k);
      FirstCharacter(values[k]);
      assert (SerializeItems(values[k..]) + ("]" + u))[0] == Serialize(values[k])[0];
    } else {
      assert values[k..] == [];
      assert "" + ("]" + u) == "]" + u;
    }
  }

  lemma {:induction false} ObjectSplits(a: Json, b: Json, u: string, w: string)
    requires a.Object? && b.Object? && Tidy(a) && Tidy(b) && NumbersOk(a) && NumbersOk(b)
    requires Serialize(a) + u == Serialize(b) + w
    ensures Alike(a, b) && u == w
    decreases a, |a.entries| + 1
  {
    hide SerializeMembers, Alike;
    assert Serialize(a) + u == "{" + (SerializeMembers(a.entries) + ("}" + u));
    assert Serialize(b) + w == "{" + (SerializeMembers(b.entries) + ("}" + w));
    assert (Serialize(a) + u)[1..] == SerializeMembers(a.entries) + ("}" + u);
    assert (Serialize(b) + w)[1..] == SerializeMembers(b.entries) + ("}" + w);
    assert a.entries[0..] == a.entries && b.entries[0..] == b.entries;
    MembersSplit(a, b, 0, u, w);
    ObjectAlike(a, b);
  }

  lemma ObjectAlike(a: Json, b: Json)
    requires a.Object? && b.Object? && |a.entries| == |b.entries|
    requires forall i :: 0 <= i < |a.entries| ==> AlikeEntries(a.entries[i], b.entries[i])
    ensures Alike(a, b)
  {
  }

  /** One member's text, up to what follows it. */
  lemma {:induction false} MemberSplits(e: Entry, f: Entry, p: string, q: string)
    requires TidyEntry(e) && TidyEntry(f) && EntryNumbersOk(e) && EntryNumbersOk(f) && Follows(p) && Follows(q)
    requires SerializeMember(e) + p == SerializeMember(f) + q
    ensures AlikeEntries(e, f) && p == q
    decreases e
  {
    hide Serialize, Quoted, Alike, Follows;
    var s, t := ":" + (Serialize(e.value) + p), ":" + (Serialize(f.value) + q);
    assert SerializeMember(e) + p == Quoted(HostText(e.key)) + s;
    assert SerializeMember(f) + q == Quoted(HostText(f.key)) + t;
    QuotedSplits(HostText(e.key), HostText(f.key), s, t);
    assert s[1..] == Serialize(e.value) + p && t[1..] == Serialize(f.value) + q;
    TextSplits(e.value, f.value, p, q);
  }

  lemma {:induction false} MembersSplit(a: Json, b: Json, k: nat, u: string, w: string)
    requires a.Object? && b.Object? && Tidy(a) && Tidy(b) && NumbersOk(a) && NumbersOk(b) && k <= |a.entries|
    requires k <= |b.entries|
    requires k > 0 ==> k < |a.entries| && k < |b.entries|
    requires SerializeMembers(a.entries[k..]) + ("}" + u) == SerializeMembers(b.entries[k..]) + ("}" + w)
    ensures |a.entries| == |b.entries| && u == w
    ensures forall i :: k <= i < |a.entries| ==> AlikeEntries(a.entries[i], b.entries[i])
    decreases a, |a.entries| - k
  {
    hide SerializeMember, SerializeMembers, AlikeEntries, KeysAscend;
    MembersFirst(a.entries, k, u);
    MembersFirst(b.entries, k, w);
    if k == |a.entries| || k == |b.entries| {
      assert ("}" + u)[1..] == u && ("}" + w)[1..] == w;
    } else {
      NextMemberText(a.entries, k);
      NextMemberText(b.entries, k);
      var p := if k + 1 == |a.entries| then "}" + u else "," + (SerializeMembers(a.entries[k + 1..]) + ("}" + u));
      var q := if k + 1 == |b.entries| then "}" + w else "," + (SerializeMembers(b.entries[k + 1..]) + ("}" + w));
      assert SerializeMembers(a.entries[k..]) + ("}" + u) == SerializeMember(a.entries[k]) + p;
      assert SerializeMembers(b.entries[k..]) + ("}" + w) == SerializeMember(b.entries[k]) + q;
      assert TidyEntry(a.entries[k]) && TidyEntry(b.entries[k]) && EntryNumbersOk(a.entries[k]);
      assert EntryNumbersOk(b.entries[k]);
      MemberSplits(a.entries[k], b.entries[k], p, q);
      if k + 1 < |a.entries| {
        assert p[0] == ',' && q[0] == ',' && k + 1 < |b.entries|;
        assert p[1..] == SerializeMembers(a.entries[k + 1..]) + ("}" + u);
        assert q[1..] == SerializeMembers(b.entries[k + 1..]) + ("}" + w);
        MembersSplit(a, b, k + 1, u, w);
      } else {
        assert p[0] == '}' && k + 1 == |b.entries|;
        assert p[1..] == u && q[1..] == w;
      }
    }
  }

  lemma MembersFirst(entries: seq<Entry>, k: nat, u: string)
    requires k <= |entries| && forall i :: 0 <= i < |entries| ==> EntryNumbersOk(entries[i])
    ensures var s := SerializeMembers(entries[k..]) + ("}" + u); s != "" && (s[0] == '}' <==> k == |entries|)
    ensures k == |entries| ==> SerializeMembers(entries[k..]) + ("}" + u) == "}" + u
  {
    if k < |entries| {
      MembersStart(entries[k..]);
    } else {
      assert entries[k..] == [];
      assert "" + ("}" + u) == "}" + u;
    }
  }

  /** `canonicalJsonEqual` on values as the parser returns them: it holds exactly when the values
      are alike. */
  lemma EqualTextsExactly(a: Json, b: Json)
    requires Tidy(a) && Tidy(b) && NumbersOk(a) && NumbersOk(b)
    ensures CanonicalJsonEqual(a, b) <==> Alike(a, b)
  {
    hide Serialize, Tidy, NumbersOk, Alike;
    if CanonicalJsonEqual(a, b) {
      assert Serialize(a) + "" == Serialize(b) + "";
      TextSplits(a, b, "", "");
    }
    if Alike(a, b) { AlikeTexts(a, b); }
  }

  // ---- without marks

  lemma {:induction false} AlikeUnmarked(a: Json, b: Json)
    requires BomFree(a) && BomFree(b)
    ensures Alike(a, b) <==> a == b
    decreases a
  {
    if a.Array? && b.Array? && |a.values| == |b.values| {
      forall i | 0 <= i < |a.values| ensures Alike(a.values[i], b.values[i]) <==> a.values[i] == b.values[i] {
        AlikeUnmarked(a.values[i], b.values[i]);
      }
    }
    if a.Object? && b.Object? && |a.entries| == |b.entries| {
      forall i | 0 <= i < |a.entries|
        ensures AlikeEntries(a.entries[i], b.entries[i]) <==> a.entries[i] == b.entries[i]
      {
        assert BomFreeEntry(a.entries[i]) && BomFreeEntry(b.entries[i]);
        AlikeUnmarked(a.entries[i].value, b.entries[i].value);
      }
    }
  }

  /** On canonical values comparing texts is equality. */
  lemma EqualTexts(a: Json, b: Json)
    requires Canonical(a) && Canonical(b) && NumbersOk(a) && NumbersOk(b)
    ensures CanonicalJsonEqual(a, b) <==> a == b
  {
    hide Serialize, Tidy, NumbersOk, Alike, BomFree;
    EqualTextsExactly(a, b);
    AlikeUnmarked(a, b);
  }

  /** A leading byte order mark is not written: two different strings have one text. */
  lemma BomStringsCollide(s: string)
    requires BomLed(s)
    ensures Str(s) != Str(HostText(s))
    ensures !BomLed(HostText(s)) ==> CanonicalJsonEqual(Str(s), Str(HostText(s)))
  {
    assert |HostText(s)| == |s| - 1;
  }
}
