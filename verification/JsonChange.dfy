/** What patch operations do to a document, stated member by member and item by item: the change at
    a path, everything else staying where it was or moving by one place, and taking back. */
module JsonChange {
  import opened Sorting
  import opened TextOrder
  import opened DecimalText
  import opened JsonText
  import opened JsonLaws
  import opened JsonTidy
  import opened JsonPatch

  // ---- one object or array

  /** An object with ascending keys that has this value, or none, under the token, and under every
      other key what the last member of that name had before. */
  ghost predicate MemberChange(before: seq<Entry>, after: Json, token: string, value: Option<Json>) {
    && after.Object? && KeysAscend(after.entries)
    && forall k :: Find(after.entries, k) == if k == token then value else LastNamed(before, k)
  }

  /** The token is the position's decimal text or, for adding at the end, a dash. */
  predicate Names(token: string, i: nat, size: nat, action: Action) {
    if token == "-" then action == Add && i == size
    else token == NatText(i) && (i < size || (action == Add && i == size))
  }

  /** The item comes in at `i`, and what was there and behind it moves up by one. */
  ghost predicate InsertedAt(before: seq<Json>, after: seq<Json>, i: nat, x: Json) {
    && |after| == |before| + 1 && i <= |before| && after[i] == x
    && (forall j :: 0 <= j < i ==> after[j] == before[j])
    && (forall j :: i <= j < |before| ==> after[j + 1] == before[j])
  }

  ghost predicate SetAt(before: seq<Json>, after: seq<Json>, i: nat, x: Json) {
    && |after| == |before| && i < |before| && after[i] == x
    && forall j :: 0 <= j < |before| && j != i ==> after[j] == before[j]
  }

  ghost predicate ItemChange(before: seq<Json>, after: seq<Json>, i: nat, action: Action, x: Option<Json>) {
    match action
    case Add => x.Some? && InsertedAt(before, after, i, x.value)
    case Replace => x.Some? && SetAt(before, after, i, x.value)
    case Remove => i < |before| && InsertedAt(after, before, i, before[i])
  }

  // ---- a whole document

  /** The change of a document at a path. */
  ghost predicate Changes(before: Json, after: Json, tokens: seq<string>, action: Action, x: Option<Json>)
    decreases |tokens|
  {
    if tokens == [] then action != Remove && x == Some(after)
    else if before.Object? then
      var there := Find(before.entries, tokens[0]);
      if |tokens| == 1 then
        && (action != Add ==> there.Some?) && (action != Remove ==> x.Some?)
        && MemberChange(before.entries, after, tokens[0], if action == Remove then None else x)
      else
        && there.Some? && after.Object? && Find(after.entries, tokens[0]).Some?
        && MemberChange(before.entries, after, tokens[0], Find(after.entries, tokens[0]))
        && Changes(there.value, Find(after.entries, tokens[0]).value, tokens[1..], action, x)
    else if before.Array? then
      && after.Array?
      && if |tokens| == 1 then
           exists i: nat :: Names(tokens[0], i, |before.values|, action)
                       && ItemChange(before.values, after.values, i, action, x)
         else
           exists i: nat :: && Names(tokens[0], i, |before.values|, Replace)
                       && i < |after.values| && SetAt(before.values, after.values, i, after.values[i])
                       && Changes(before.values[i], after.values[i], tokens[1..], action, x)
    else false
  }

  lemma PositionNames(token: string, size: nat, action: Action, i: nat)
    ensures Position(size, token, action == Add) == Done(i) <==> Names(token, i, size, action)
    ensures Position(size, token, false).Done? ==> Position(size, token, false).value < size
  {
    hide NatValue, NatText;
    NatTextRoundTrip(i);
    if IsNatText(token) { NatValueRoundTrip(token); }
  }

  lemma {:induction false} FindHas(entries: seq<Entry>, key: string)
    ensures Find(entries, key).Some? <==> HasKey(entries, key)
    ensures Find(entries, key).Some? ==> Entry(key, Find(entries, key).value) in entries
  {
    if entries != [] {
      FindHas(entries[1..], key);
      if HasKey(entries, key) && entries[0].key != key {
        var i :| 0 <= i < |entries| && entries[i].key == key;
        assert entries[1..][i - 1].key == key;
      }
      if HasKey(entries[1..], key) {
        var i :| 0 <= i < |entries[1..]| && entries[1..][i].key == key;
        assert entries[i + 1].key == key;
      }
      assert entries == [entries[0]] + entries[1..];
    }
  }

  /** Two ascending member lists that answer alike are equal. */
  lemma {:induction false} AscendingSame(a: seq<Entry>, b: seq<Entry>)
    requires KeysAscend(a) && KeysAscend(b) && forall k :: Find(a, k) == Find(b, k)
    ensures a == b
    decreases |a|
  {
    hide TextBefore;
    if a == [] {
      if b != [] { FirstFound(b); }
    } else {
      FirstFound(a);
      assert b != [];
      LeastFirst(a, b);
      assert Find(a, a[0].key) == Some(a[0].value) && Find(b, b[0].key) == Some(b[0].value);
      assert a[0] == b[0];
      assert a == [a[0]] + a[1..] && b == [b[0]] + b[1..];
      NotAgain(a);
      NotAgain(b);
      forall k ensures Find(a[1..], k) == Find(b[1..], k) {
        assert Find(a, k) == Find(b, k);
        assert k != a[0].key ==> Find(a, k) == Find(a[1..], k) && Find(b, k) == Find(b[1..], k);
      }
      AscendingSame(a[1..], b[1..]);
    }
  }

  lemma FirstFound(a: seq<Entry>)
    requires a != []
    ensures Find(a, a[0].key) == Some(a[0].value) && Find([], a[0].key).None?
  {
  }

  lemma NotAgain(a: seq<Entry>)
    requires a != [] && KeysAscend(a)
    ensures Find(a[1..], a[0].key).None?
  {
    FindHas(a[1..], a[0].key);
    assert forall i :: 0 <= i < |a[1..]| ==> a[1..][i] == a[i + 1];
  }

  lemma LeastFirst(a: seq<Entry>, b: seq<Entry>)
    requires a != [] && b != [] && KeysAscend(a) && KeysAscend(b) && forall k :: Find(a, k) == Find(b, k)
    ensures a[0].key == b[0].key
  {
    hide TextBefore;
    assert Find(b, a[0].key).Some? && Find(a, b[0].key).Some?;
    FindHas(a, b[0].key);
    FindHas(b, a[0].key);
    var i :| 0 <= i < |a| && a[i].key == b[0].key;
    var j :| 0 <= j < |b| && b[j].key == a[0].key;
    if i > 0 && j > 0 { TextTotal(a[0].key, b[0].key); }
  }

  /** Changing a member does just that, and it is the only change of that kind. */
  lemma MemberExact(before: seq<Entry>, token: string, action: Action, x: Option<Json>, after: Json)
    ensures ChangeMember(before, token, action, x) == Done(after) <==>
              && (action != Add ==> Find(before, token).Some?) && (action != Remove ==> x.Some?)
              && MemberChange(before, after, token, if action == Remove then None else x)
  {
    hide Sort, KeyBefore, KeysAscend, Put, Delete, Collect, Lookup, LastNamed;
    if (action != Add ==> Find(before, token).Some?) && (action != Remove ==> x.Some?) {
      var value := if action == Remove then None else x;
      var made := ChangeMember(before, token, action, x).value;
      MemberMade(before, token, action, x);
      if MemberChange(before, after, token, value) { AscendingSame(made.entries, after.entries); }
    }
  }

  lemma MemberMade(before: seq<Entry>, token: string, action: Action, x: Option<Json>)
    requires ChangeMember(before, token, action, x).Done?
    ensures MemberChange(before, ChangeMember(before, token, action, x).value, token,
                         if action == Remove then None else x)
  {
    hide Sort, KeyBefore, KeysAscend, Put, Delete, Collect, Lookup, LastNamed, Find;
    var values := Collect(before);
    CollectLooks(before, token);
    var changed := if action == Remove then Delete(values, token) else Put(values, token, x.value);
    if action == Remove { DeleteIs(values, token); } else { PutIs(values, token, x.value); }
    SortAscends(changed);
    var after := Sort(changed, KeyBefore);
    AscendingDistinct(after);
    var value := if action == Remove then None else x;
    forall k ensures Find(after, k) == if k == token then value else LastNamed(before, k) {
      CollectLooks(before, k);
      if action == Remove { LookupDelete(values, token, k); } else { LookupPut(values, token, x.value, k); }
      LookupSame(after, changed, k);
      FindLooks(after, k);
    }
  }

  lemma ItemExact(before: seq<Json>, token: string, action: Action, x: Option<Json>, after: Json)
    ensures ChangeItem(before, token, action, x) == Done(after) <==>
              && after.Array?
              && exists i: nat :: Names(token, i, |before|, action)
                             && ItemChange(before, after.values, i, action, x)
  {
    hide Position, Names, ItemChange;
    var position := Position(|before|, token, action == Add);
    if position.Done? {
      var i := position.value;
      PositionNames(token, |before|, action, i);
      assert i < |before| || (action == Add && i == |before|) by { NamesInside(token, i, |before|, action); }
      ItemMade(before, token, i, action, x, after);
      assert Names(token, i, |before|, action);
    }
    assert position.PathError? ==> ChangeItem(before, token, action, x).PathError?;
    forall i: nat | Names(token, i, |before|, action) ensures position == Done(i) {
      PositionNames(token, |before|, action, i);
    }
  }

  lemma NamesInside(token: string, i: nat, size: nat, action: Action)
    requires Names(token, i, size, action)
    ensures i < size || (action == Add && i == size)
  {
  }

  lemma ItemMade(before: seq<Json>, token: string, i: nat, action: Action, x: Option<Json>, after: Json)
    requires Position(|before|, token, action == Add) == Done(i) && (i < |before| || (action == Add && i == |before|))
    ensures ChangeItem(before, token, action, x) == Done(after) <==>
              after.Array? && ItemChange(before, after.values, i, action, x)
  {
    hide Position;
    if after.Array? && ItemChange(before, after.values, i, action, x) {
      match action
      case Add => assert after.values == before[..i] + [x.value] + before[i..];
      case Replace => assert after.values == before[i := x.value];
      case Remove => assert after.values == before[..i] + before[i + 1..];
    }
  }

  /** A change is carried out exactly when there is one, and there is never more than one. */
  lemma {:induction false} ChangeExact(before: Json, tokens: seq<string>, action: Action, x: Option<Json>, after: Json)
    ensures ChangedAt(before, tokens, action, x) == Done(after) <==> Changes(before, after, tokens, action, x)
    decreases |tokens|
  {
    hide ChangeMember, ChangeItem, MemberChange, ItemChange, Position, Names, SetAt;
    if tokens != [] {
      var token, rest := tokens[0], tokens[1..];
      if before.Object? {
        if |tokens| == 1 {
          MemberExact(before.entries, token, action, x, after);
        } else {
          InnerMember(before, tokens, action, x, after);
        }
      } else if before.Array? {
        if |tokens| == 1 {
          ItemExact(before.values, token, action, x, after);
        } else {
          InnerItem(before, tokens, action, x, after);
        }
      }
    }
  }

  lemma {:induction false} InnerMember(before: Json, tokens: seq<string>, action: Action, x: Option<Json>, after: Json)
    requires |tokens| > 1 && before.Object?
    ensures ChangedAt(before, tokens, action, x) == Done(after) <==> Changes(before, after, tokens, action, x)
    decreases |tokens|, 0
  {
    hide ChangeMember, ChangeItem, MemberChange;
    var token, rest := tokens[0], tokens[1..];
    var there := Find(before.entries, token);
    if there.Some? {
      var inner := ChangedAt(there.value, rest, action, x);
      if inner.Done? {
        ChangeExact(there.value, rest, action, x, inner.value);
        MemberExact(before.entries, token, Replace, Some(inner.value), after);
        if ChangedAt(before, tokens, action, x) == Done(after) {
          ChangedFinds(before.entries, after, token, inner.value);
        }
      }
      if Changes(before, after, tokens, action, x) {
        var made := Find(after.entries, token).value;
        ChangeExact(there.value, rest, action, x, made);
        MemberExact(before.entries, token, Replace, Some(made), after);
      }
    }
  }

  lemma ChangedFinds(before: seq<Entry>, after: Json, token: string, x: Json)
    requires MemberChange(before, after, token, Some(x))
    ensures after.Object? && Find(after.entries, token) == Some(x)
  {
  }

  lemma {:induction false} InnerItem(before: Json, tokens: seq<string>, action: Action, x: Option<Json>, after: Json)
    requires |tokens| > 1 && before.Array?
    ensures ChangedAt(before, tokens, action, x) == Done(after) <==> Changes(before, after, tokens, action, x)
    decreases |tokens|, 0
  {
    hide ChangeMember, ChangeItem, Position, Names;
    var token, rest := tokens[0], tokens[1..];
    var position := Position(|before.values|, token, false);
    if position.Done? {
      var i := position.value;
      PositionNames(token, |before.values|, Replace, i);
      var inner := ChangedAt(before.values[i], rest, action, x);
      if ChangedAt(before, tokens, action, x) == Done(after) {
        ChangeExact(before.values[i], rest, action, x, inner.value);
        assert SetAt(before.values, after.values, i, after.values[i]);
      }
    }
    if Changes(before, after, tokens, action, x) {
      var i: nat :| && Names(token, i, |before.values|, Replace)
               && i < |after.values| && SetAt(before.values, after.values, i, after.values[i])
               && Changes(before.values[i], after.values[i], rest, action, x);
      PositionNames(token, |before.values|, Replace, i);
      ChangeExact(before.values[i], rest, action, x, after.values[i]);
      assert after.values == before.values[i := after.values[i]];
    }
  }

  // ---- what is found where

  lemma LastIsFound(v: Json, key: string)
    requires v.Object? && Canonical(v)
    ensures LastNamed(v.entries, key) == Find(v.entries, key)
  {
    hide Canonical, Lookup, Find, LastNamed, Collect;
    CanonicalGood(v);
    CanonicalFinds(v, key);
    CollectLooks(v.entries, key);
    CollectSame(v.entries);
    GoodDistinct(v.entries);
    LookupSame(Collect(v.entries), v.entries, key);
  }

  /** Where an added value lands: adding behind the end of an array gives it the next position. */
  function Landing(before: Json, p: seq<string>): seq<string>
    decreases |p|
  {
    if p == [] then p
    else if |p| == 1 then if before.Array? && p[0] == "-" then [NatText(|before.values|)] else p
    else if ValueAt(before, [p[0]]).PathError? then p
    else [p[0]] + Landing(ValueAt(before, [p[0]]).value, p[1..])
  }

  lemma StepInto(v: Json, token: string, rest: seq<string>)
    ensures ValueAt(v, [token] + rest) ==
              match ValueAt(v, [token]) case PathError => PathError case Done(child) => ValueAt(child, rest)
    ensures v.Object? && Find(v.entries, token).Some? ==> ValueAt(v, [token]) == Done(Find(v.entries, token).value)
    ensures v.Object? && Find(v.entries, token).None? ==> ValueAt(v, [token]).PathError?
    ensures v.Array? ==>
              forall i: nat :: Names(token, i, |v.values|, Replace) ==> ValueAt(v, [token]) == Done(v.values[i])
    ensures v.Array? && token == "-" ==> ValueAt(v, [token]).PathError?
  {
    hide NatText, NatValue, Find;
    assert ([token] + rest)[1..] == rest && [token][1..] == [];
    if v.Array? {
      forall i: nat | Names(token, i, |v.values|, Replace) ensures ValueAt(v, [token]) == Done(v.values[i]) {
        PositionNames(token, |v.values|, Replace, i);
      }
    }
  }

  /** What was added or replaced is found where it landed. */
  lemma {:induction false} Landed(before: Json, after: Json, p: seq<string>, action: Action, x: Json)
    requires Changes(before, after, p, action, Some(x)) && action != Remove
    ensures ValueAt(after, Landing(before, p)) == Done(x)
    decreases |p|
  {
    hide ValueAt, MemberChange, Names;
    if p == [] {
      assert ValueAt(after, []) == Done(after) by { Whole(after); }
    } else {
      var token, rest := p[0], p[1..];
      assert p == [token] + rest;
      StepInto(before, token, rest);
      if |p| == 1 {
        assert p == [token];
        LandedHere(before, after, token, action, x);
      } else if before.Object? {
        var there := Find(before.entries, token).value;
        var made := Find(after.entries, token).value;
        Landed(there, made, rest, action, x);
        StepInto(after, token, Landing(there, rest));
      } else {
        var i := ItemOnPath(before, after, p, action, Some(x));
        Landed(before.values[i], after.values[i], rest, action, x);
        StepInto(after, token, Landing(before.values[i], rest));
      }
    }
  }

  lemma Whole(v: Json)
    ensures ValueAt(v, []) == Done(v)
  {
  }

  lemma LandedHere(before: Json, after: Json, token: string, action: Action, x: Json)
    requires Changes(before, after, [token], action, Some(x)) && action != Remove
    ensures ValueAt(after, Landing(before, [token])) == Done(x)
  {
    hide ValueAt, NatText;
    StepInto(after, token, []);
    if before.Object? {
      Whole(x);
    } else {
      var i: nat :| Names(token, i, |before.values|, action)
                    && ItemChange(before.values, after.values, i, action, Some(x));
      var at := if token == "-" then NatText(|before.values|) else token;
      assert at != "-" by { NatTextRoundTrip(i); }
      assert Names(at, i, |after.values|, Replace);
      StepInto(after, at, []);
    }
  }

  /** The path at which, after the change, something else is found that was at `q`: items of the
      array that took in or lost an item move by one place from there on. */
  function Shifted(before: Json, p: seq<string>, action: Action, q: seq<string>): seq<string>
    decreases |p|
  {
    if p == [] || q == [] then q
    else if p[0] == q[0] then
      if |p| == 1 || ValueAt(before, [p[0]]).PathError? then q
      else [q[0]] + Shifted(ValueAt(before, [p[0]]).value, p[1..], action, q[1..])
    else if |p| == 1 && before.Array? then Moved(before.values, p[0], action, q)
    else q
  }

  function Moved(values: seq<Json>, token: string, action: Action, q: seq<string>): seq<string>
    requires q != []
  {
    match Position(|values|, token, action == Add)
    case PathError => q
    case Done(i) =>
      match Position(|values|, q[0], false)
      case PathError => q
      case Done(j) =>
        if action == Add && j >= i then q[0 := NatText(j + 1)]
        else if action == Remove && j > i then q[0 := NatText(j - 1)]
        else q
  }

  /** The paths part before either ends. */
  ghost predicate Apart(p: seq<string>, q: seq<string>) {
    exists d :: 0 <= d < |p| && d < |q| && p[..d] == q[..d] && p[d] != q[d]
  }

  lemma ApartRest(p: seq<string>, q: seq<string>)
    requires Apart(p, q) && p[0] == q[0]
    ensures |p| > 1 && |q| > 1 && Apart(p[1..], q[1..])
  {
    var d :| 0 <= d < |p| && d < |q| && p[..d] == q[..d] && p[d] != q[d];
    assert p[1..][..d - 1] == p[..d][1..] && q[1..][..d - 1] == q[..d][1..];
  }

  lemma ApartStarts(p: seq<string>, q: seq<string>)
    requires Apart(p, q)
    ensures p != [] && q != []
  {
  }

  /** Whatever stood elsewhere in a canonical document stays, at the path the change moved it to. */
  lemma {:induction false} Elsewhere(before: Json, after: Json, p: seq<string>, action: Action, x: Option<Json>,
      q: seq<string>)
    requires Canonical(before) && Changes(before, after, p, action, x) && Apart(p, q)
    requires ValueAt(before, q).Done?
    ensures ValueAt(after, Shifted(before, p, action, q)) == ValueAt(before, q)
    decreases |p|
  {
    hide ValueAt, MemberChange, Names, Canonical, Apart, SetAt;
    ApartStarts(p, q);
    var token, rest := p[0], q[1..];
    assert p == [token] + p[1..] && q == [q[0]] + rest;
    StepInto(before, q[0], rest);
    if token == q[0] {
      ApartRest(p, q);
      var shifted := Shifted(ValueAt(before, [token]).value, p[1..], action, rest);
      StepInto(after, q[0], shifted);
      if before.Object? {
        var there, made := Find(before.entries, token).value, Find(after.entries, token).value;
        assert Canonical(there) by { InnerCanonical(before, token); }
        Elsewhere(there, made, p[1..], action, x, rest);
      } else {
        var i := ItemOnPath(before, after, p, action, x);
        assert Canonical(before.values[i]) by { ItemOf(before.values, i); }
        Elsewhere(before.values[i], after.values[i], p[1..], action, x, rest);
      }
    } else if before.Object? {
      OtherMember(before, after, p, action, x, q[0]);
      StepInto(after, q[0], rest);
    } else if |p| == 1 {
      OtherItem(before, after, token, action, x, q);
    } else {
      OtherInner(before, after, p, action, x, q);
    }
  }

  /** The item a longer path goes through. */
  lemma ItemOnPath(before: Json, after: Json, p: seq<string>, action: Action, x: Option<Json>) returns (i: nat)
    requires before.Array? && |p| > 1 && Changes(before, after, p, action, x)
    ensures after.Array? && i < |before.values| == |after.values| && Names(p[0], i, |before.values|, Replace)
    ensures SetAt(before.values, after.values, i, after.values[i])
    ensures Changes(before.values[i], after.values[i], p[1..], action, x)
  {
    i :| && Names(p[0], i, |before.values|, Replace)
         && i < |after.values| && SetAt(before.values, after.values, i, after.values[i])
         && Changes(before.values[i], after.values[i], p[1..], action, x);
  }

  lemma OtherMember(before: Json, after: Json, p: seq<string>, action: Action, x: Option<Json>, key: string)
    requires Canonical(before) && before.Object? && p != [] && Changes(before, after, p, action, x) && key != p[0]
    ensures after.Object? && Find(after.entries, key) == Find(before.entries, key)
  {
    hide Canonical, Find, LastNamed, KeysAscend;
    LastIsFound(before, key);
  }

  lemma OtherInner(before: Json, after: Json, p: seq<string>, action: Action, x: Option<Json>, q: seq<string>)
    requires before.Array? && |p| > 1 && q != [] && Changes(before, after, p, action, x) && q[0] != p[0]
    requires ValueAt(before, q).Done?
    ensures ValueAt(after, q) == ValueAt(before, q)
  {
    hide NatText, Position;
    var i := ItemOnPath(before, after, p, action, x);
    var j := Position(|before.values|, q[0], false).value;
    PositionNames(q[0], |before.values|, Replace, j);
    PositionNames(p[0], |before.values|, Replace, i);
    assert i != j;
  }

  lemma OtherItem(before: Json, after: Json, token: string, action: Action, x: Option<Json>, q: seq<string>)
    requires before.Array? && q != [] && Changes(before, after, [token], action, x) && q[0] != token
    requires ValueAt(before, q).Done?
    ensures ValueAt(after, Moved(before.values, token, action, q)) == ValueAt(before, q)
  {
    hide NatText, Position, ValueAt, ItemChange;
    var i: nat :| Names(token, i, |before.values|, action)
                  && ItemChange(before.values, after.values, i, action, x);
    PositionNames(token, |before.values|, action, i);
    var rest := q[1..];
    assert q == [q[0]] + rest;
    var j := FoundAt(before, q);
    assert action != Add ==> i != j;
    var k := OtherPlace(before.values, after.values, i, action, x, j);
    StepInto(before, q[0], rest);
    var at := if k == j then q[0] else NatText(k);
    assert Names(at, k, |after.values|, Replace) by { NatTextRoundTrip(k); NatTextRoundTrip(j); }
    StepInto(after, at, rest);
    assert Moved(before.values, token, action, q) == [at] + rest;
  }

  lemma OtherPlace(before: seq<Json>, after: seq<Json>, i: nat, action: Action, x: Option<Json>, j: nat)
      returns (k: nat)
    requires ItemChange(before, after, i, action, x) && j < |before| && (action == Add || i != j)
    ensures k < |after| && after[k] == before[j]
    ensures k == if action == Add && j >= i then j + 1 else if action == Remove && j > i then j - 1 else j
  {
    k := if action == Add && j >= i then j + 1 else if action == Remove && j > i then j - 1 else j;
  }

  lemma FoundAt(v: Json, q: seq<string>) returns (j: nat)
    requires v.Array? && q != [] && ValueAt(v, q).Done?
    ensures Position(|v.values|, q[0], false) == Done(j) && Names(q[0], j, |v.values|, Replace)
  {
    hide Position;
    j := Position(|v.values|, q[0], false).value;
    PositionNames(q[0], |v.values|, Replace, j);
  }

  // ---- taking back

  /** Adding back what was removed gives the document again. */
  lemma RemovedComesBack(before: Json, p: seq<string>)
    requires Canonical(before) && ValueAt(before, p).Done? && ChangedAt(before, p, Remove, None).Done?
    ensures ChangedAt(ChangedAt(before, p, Remove, None).value, p, Add, Some(ValueAt(before, p).value)) == Done(before)
  {
    hide Canonical, Changes, ChangedAt, ValueAt;
    var after := ChangedAt(before, p, Remove, None).value;
    ChangeExact(before, p, Remove, None, after);
    PutBack(before, after, p);
    ChangeExact(after, p, Add, Some(ValueAt(before, p).value), before);
  }

  lemma {:induction false} PutBack(before: Json, after: Json, p: seq<string>)
    requires Canonical(before) && ValueAt(before, p).Done? && Changes(before, after, p, Remove, None)
    ensures Changes(after, before, p, Add, Some(ValueAt(before, p).value))
    decreases |p|
  {
    hide Canonical, MemberChange, ValueAt, SetAt, Names;
    if p != [] {
      var token, rest := p[0], p[1..];
      assert p == [token] + rest;
      assert Canonical(after) by { ChangeKeepsCanonical(before, after, p, Remove, None); }
      StepInto(before, token, rest);
      var x := ValueAt(before, p).value;
      if before.Object? {
        MemberBack(before, after, p);
        if |p| == 1 {
          assert rest == [];
          Whole(Find(before.entries, token).value);
        } else {
          var there, made := Find(before.entries, token).value, Find(after.entries, token).value;
          assert Canonical(there) by { InnerCanonical(before, token); }
          PutBack(there, made, rest);
        }
      } else if |p| == 1 {
        assert p == [token];
        ItemBack(before, after, token, x);
      } else {
        var i := ItemOnPath(before, after, p, Remove, None);
        assert Canonical(before.values[i]) by { ItemOf(before.values, i); }
        PutBack(before.values[i], after.values[i], rest);
        assert SetAt(after.values, before.values, i, before.values[i]) by { SetBack(before.values, after.values, i); }
        assert Names(token, i, |after.values|, Replace);
      }
    }
  }

  lemma ChangeKeepsCanonical(before: Json, after: Json, p: seq<string>, action: Action, x: Option<Json>)
    requires Canonical(before) && Changes(before, after, p, action, x) && GoodChange(p, action, x)
    ensures Canonical(after)
  {
    hide Canonical, Changes, ChangedAt;
    ChangeExact(before, p, action, x, after);
    ChangeCanonical(before, p, action, x);
  }

  lemma SetBack(before: seq<Json>, after: seq<Json>, i: nat)
    requires i < |after| && SetAt(before, after, i, after[i])
    ensures SetAt(after, before, i, before[i])
  {
  }

  /** One member differs: the object before is the one after with that member changed. */
  lemma MemberBack(before: Json, after: Json, p: seq<string>)
    requires before.Object? && Canonical(before) && Canonical(after) && p != []
    requires Changes(before, after, p, Remove, None)
    ensures after.Object? && MemberChange(after.entries, before, p[0], Find(before.entries, p[0]))
  {
    hide Find, LastNamed;
    forall k ensures Find(before.entries, k) ==
                       if k == p[0] then Find(before.entries, p[0]) else LastNamed(after.entries, k)
    {
      LastIsFound(before, k);
      LastIsFound(after, k);
    }
  }

  lemma ItemBack(before: Json, after: Json, token: string, x: Json)
    requires before.Array? && Changes(before, after, [token], Remove, None) && ValueAt(before, [token]) == Done(x)
    ensures Changes(after, before, [token], Add, Some(x))
  {
    hide ValueAt, NatText;
    var i: nat :| Names(token, i, |before.values|, Remove)
                  && ItemChange(before.values, after.values, i, Remove, None);
    StepInto(before, token, []);
    assert Names(token, i, |before.values|, Replace);
    assert ItemChange(after.values, before.values, i, Add, Some(x));
    assert Names(token, i, |after.values|, Add);
  }

  // ---- operations

  /** What each operation of RFC 6902 does. */
  ghost predicate Performs(before: Json, op: Operation, after: Json) {
    match op
    case AddAt(path, value) => Changes(before, after, path, Add, Some(value))
    case ReplaceAt(path, value) => Changes(before, after, path, Replace, Some(value))
    case RemoveAt(path) => Changes(before, after, path, Remove, None)
    case TestAt(path, value) => TestPasses(before, op) && after == before
    case Copy(from, path) =>
      ValueAt(before, from).Done? && Changes(before, after, path, Add, Some(ValueAt(before, from).value))
    case Move(from, path) =>
      && !(from <= path) && ValueAt(before, from).Done?
      && exists without :: Changes(before, without, from, Remove, None)
                           && Changes(without, after, path, Add, Some(ValueAt(before, from).value))
  }

  lemma OperationMeans(before: Json, op: Operation, after: Json)
    ensures ApplyOperation(before, op) == Done(after) <==> Performs(before, op, after)
  {
    hide Changes, ChangedAt, ValueAt;
    match op
    case AddAt(path, value) => ChangeExact(before, path, Add, Some(value), after);
    case ReplaceAt(path, value) => ChangeExact(before, path, Replace, Some(value), after);
    case RemoveAt(path) => ChangeExact(before, path, Remove, None, after);
    case TestAt(path, value) =>
    case Copy(from, path) =>
      if ValueAt(before, from).Done? { ChangeExact(before, path, Add, Some(ValueAt(before, from).value), after); }
    case Move(from, path) =>
      if ValueAt(before, from).Done? {
        var moved := Some(ValueAt(before, from).value);
        forall without
          ensures ChangedAt(before, from, Remove, None) == Done(without) <==>
                    Changes(before, without, from, Remove, None)
          ensures ChangedAt(without, path, Add, moved) == Done(after) <==> Changes(without, after, path, Add, moved)
        {
          ChangeExact(before, from, Remove, None, without);
          ChangeExact(without, path, Add, moved, after);
        }
      }
  }
}
