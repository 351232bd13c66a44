/** The logical-value codec on top of CBOR values, and exactly when it loses information. */
module LogicalValue {
  import opened Bytes
  import opened Utf8
  import opened Cbor
  import opened CborLaws
  import opened CborCanonical
  import CborNormal

  /** A canonical JSON value; objects list their entries in insertion order. */
  datatype Json =
    | JNull
    | JBool(b: bool)
    | JInt(n: int)
    | JText(utf8: Bytes)
    | JDecimal(coefficient: int, scale: int)
    | JArray(items: seq<Json>)
    | JObject(members: seq<Member>)

  datatype Member = Member(key: Bytes, value: Json)

  datatype Element = I8 | U8 | I16 | I32 | F32 | F64

  datatype Logical =
    | LNull
    | LBoolean(b: bool)
    | LInt64(n: int)
    | LDecimal(coefficient: int, scale: int)
    | LText(utf8: Bytes)
    | LBlob(bytes: Bytes)
    | LUuid(bytes: Bytes)
    | LTimestamp(n: int)
    | LDuration(n: int)
    | LJson(json: Json)
    | LVector(element: Element, dimensions: int, bytes: Bytes)

  const ELEMENTS: seq<Element> := [I8, U8, I16, I32, F32, F64]

  function ElementIndex(e: Element): (i: nat)
    ensures i < 6 && ELEMENTS[i] == e
  {
    match e case I8 => 0 case U8 => 1 case I16 => 2 case I32 => 3 case F32 => 4 case F64 => 5
  }

  function ElementWidth(e: Element): nat {
    match e case I8 => 1 case U8 => 1 case I16 => 2 case I32 => 4 case F32 => 4 case F64 => 8
  }

  predicate IsInt64(n: int) { -0x8000_0000_0000_0000 <= n <= 0x7FFF_FFFF_FFFF_FFFF }

  predicate IsUint(n: int) { 0 <= n <= MAX_SAFE_INTEGER }

  // ---- valid values

  /** Host maps hold each key once; a decimal's scale is an unsigned safe integer. */
  predicate ValidJson(j: Json)
    decreases j
  {
    match j
    case JNull => true
    case JBool(_) => true
    case JInt(_) => true
    case JText(_) => true
    case JDecimal(_, scale) => IsUint(scale)
    case JArray(items) => forall i :: 0 <= i < |items| ==> ValidJson(items[i])
    case JObject(members) =>
      && (forall i :: 0 <= i < |members| ==> ValidMember(members[i]))
      && (forall i, k :: 0 <= i < k < |members| ==> members[i].key != members[k].key)
  }

  predicate ValidMember(m: Member)
    decreases m
  {
    ValidJson(m.value)
  }

  /** `assertLogicalValue`. */
  predicate Valid(v: Logical) {
    match v
    case LNull => true
    case LBoolean(_) => true
    case LInt64(n) => IsInt64(n)
    case LDecimal(_, scale) => IsUint(scale)
    case LText(s) => ValidUtf8(s)
    case LBlob(_) => true
    case LUuid(s) => |s| == 16
    case LTimestamp(n) => IsInt64(n)
    case LDuration(n) => IsInt64(n)
    case LJson(j) => ValidJson(j)
    case LVector(e, dimensions, s) => IsUint(dimensions) && dimensions > 0 && |s| == dimensions * ElementWidth(e)
  }

  // ---- to CBOR

  function ToJson(j: Json): Value
    decreases j
  {
    match j
    case JNull => Null
    case JBool(b) => Bool(b)
    case JInt(n) => Int(n)
    case JText(s) => Text(s)
    case JDecimal(coefficient, scale) => Array([Int(3), Int(coefficient), Int(scale)])
    case JArray(items) => Array(ToItems(items))
    case JObject(members) => Map(ToMembers(members))
  }

  function ToItems(items: seq<Json>): (r: seq<Value>)
    ensures |r| == |items|
    decreases items
  {
    if items == [] then [] else ToItems(items[..|items| - 1]) + [ToJson(items[|items| - 1])]
  }

  function ToMember(m: Member): Entry
    decreases m
  {
    Entry(Text(m.key), ToJson(m.value))
  }

  function ToMembers(members: seq<Member>): (r: seq<Entry>)
    ensures |r| == |members|
    decreases members
  {
    if members == [] then [] else ToMembers(members[..|members| - 1]) + [ToMember(members[|members| - 1])]
  }

  /** The host's decoder drops a byte order mark here. */
  function HostText(s: Bytes): Bytes {
    if BomLed(s) then s[3..] else s
  }

  function ToCbor(v: Logical): Option<Value> {
    if !Valid(v) then None
    else Some(Array(
      match v
      case LNull => [Int(0)]
      case LBoolean(b) => [Int(1), Bool(b)]
      case LInt64(n) => [Int(2), Int(n)]
      case LDecimal(coefficient, scale) => [Int(3), Int(coefficient), Int(scale)]
      case LText(s) => [Int(4), Text(HostText(s))]
      case LBlob(s) => [Int(5), Blob(s)]
      case LUuid(s) => [Int(6), Blob(s)]
      case LTimestamp(n) => [Int(7), Int(n)]
      case LDuration(n) => [Int(8), Int(n)]
      case LJson(j) => [Int(9), ToJson(j)]
      case LVector(e, dimensions, s) => [Int(10), Int(ElementIndex(e)), Int(dimensions), Blob(s)]))
  }

  // ---- from CBOR

  predicate DecimalShape(items: seq<Value>) {
    |items| == 3 && items[0] == Int(3)
  }

  function SetMember(members: seq<Member>, key: Bytes, value: Json): seq<Member> {
    if HasMember(members, key) then members[MemberIndex(members, key) := Member(key, value)]
    else members + [Member(key, value)]
  }

  predicate HasMember(members: seq<Member>, key: Bytes) {
    exists i :: 0 <= i < |members| && members[i].key == key
  }

  function MemberIndex(members: seq<Member>, key: Bytes): (i: nat)
    requires HasMember(members, key)
    ensures i < |members| && members[i].key == key
  {
    if members[|members| - 1].key == key then |members| - 1
    else
      assert HasMember(members[..|members| - 1], key) by {
        var i :| 0 <= i < |members| && members[i].key == key;
        assert members[..|members| - 1][i].key == key;
      }
      MemberIndex(members[..|members| - 1], key)
  }

  function FromJson(c: Value): Option<Json>
    decreases c
  {
    match c
    case Null => Some(JNull)
    case Bool(b) => Some(JBool(b))
    case Int(n) => Some(JInt(n))
    case Text(s) => Some(JText(s))
    case Blob(_) => None
    case Array(items) =>
      if DecimalShape(items) then
        if items[1].Int? && items[2].Int? && IsUint(items[2].n) then Some(JDecimal(items[1].n, items[2].n)) else None
      else (match FromItems(items) case None => None case Some(js) => Some(JArray(js)))
    case Map(entries) =>
      match FromEntries(entries) case None => None case Some(ms) => Some(JObject(ms))
  }

  function FromItems(items: seq<Value>): Option<seq<Json>>
    decreases items
  {
    if items == [] then Some([])
    else
      match FromItems(items[..|items| - 1])
      case None => None
      case Some(before) =>
        match FromJson(items[|items| - 1])
        case None => None
        case Some(j) => Some(before + [j])
  }

  function FromEntry(e: Entry): Option<Member>
    decreases e
  {
    if !e.key.Text? then None
    else match FromJson(e.value) case None => None case Some(j) => Some(Member(e.key.utf8, j))
  }

  function FromEntries(entries: seq<Entry>): Option<seq<Member>>
    decreases entries
  {
    if entries == [] then Some([])
    else
      match FromEntries(entries[..|entries| - 1])
      case None => None
      case Some(before) =>
        match FromEntry(entries[|entries| - 1])
        case None => None
        case Some(m) => Some(SetMember(before, m.key, m.value))
  }

  function FromTagged(tag: int, items: seq<Value>): Option<Logical> {
    if tag == 0 && |items| == 1 then Some(LNull)
    else if tag == 1 && |items| == 2 then if items[1].Bool? then Some(LBoolean(items[1].b)) else None
    else if tag == 2 && |items| == 2 then if items[1].Int? then Some(LInt64(items[1].n)) else None
    else if tag == 3 && |items| == 3 then
      if items[1].Int? && items[2].Int? && IsUint(items[2].n) then Some(LDecimal(items[1].n, items[2].n)) else None
    else if tag == 4 && |items| == 2 then if items[1].Text? && !BomLed(items[1].utf8) then Some(LText(items[1].utf8))
    else None
    else if tag == 5 && |items| == 2 then if items[1].Blob? then Some(LBlob(items[1].bytes)) else None
    else if tag == 6 && |items| == 2 then if items[1].Blob? && |items[1].bytes| == 16 then Some(LUuid(items[1].bytes))
    else None
    else if tag == 7 && |items| == 2 then if items[1].Int? then Some(LTimestamp(items[1].n)) else None
    else if tag == 8 && |items| == 2 then if items[1].Int? then Some(LDuration(items[1].n)) else None
    else if tag == 9 && |items| == 2 then match FromJson(items[1]) case None => None case Some(j) => Some(LJson(j))
    else if tag == 10 && |items| == 4 then
      if items[1].Int? && 0 <= items[1].n < 6 && items[2].Int? && IsUint(items[2].n) && items[3].Blob?
      then Some(LVector(ELEMENTS[items[1].n], items[2].n, items[3].bytes)) else None
    else None
  }

  function FromCbor(c: Value): Option<Logical> {
    if !c.Array? || c.items == []
       || !c.items[0].Int? || !(-(MAX_SAFE_INTEGER as int) <= c.items[0].n <= MAX_SAFE_INTEGER) then None
    else
      match FromTagged(c.items[0].n, c.items)
      case None => None
      case Some(v) => if Valid(v) then Some(v) else None
  }

  /** The decoder, with its loops over items and entries. */
  method JsonFromCbor(c: Value) returns (r: Option<Json>)
    ensures r == FromJson(c)
    decreases c
  {
    match c {
      case Null => return Some(JNull);
      case Bool(b) => return Some(JBool(b));
      case Int(n) => return Some(JInt(n));
      case Text(s) => return Some(JText(s));
      case Blob(_) => return None;
      case Map(entries) =>
        var members := MembersFromCbor(entries);
        return if members.None? then None else Some(JObject(members.value));
      case Array(items) =>
        if DecimalShape(items) {
          if !items[1].Int? || !items[2].Int? || !IsUint(items[2].n) { return None; }
          return Some(JDecimal(items[1].n, items[2].n));
        }
        var list := ItemsFromCbor(items);
        return if list.None? then None else Some(JArray(list.value));
    }
  }

  method MemberFromCbor(e: Entry) returns (r: Option<Member>)
    ensures r == FromEntry(e)
    decreases e
  {
    if !e.key.Text? { return None; }
    var item := JsonFromCbor(e.value);
    return if item.None? then None else Some(Member(e.key.utf8, item.value));
  }

  method MembersFromCbor(entries: seq<Entry>) returns (r: Option<seq<Member>>)
    ensures r == FromEntries(entries)
    decreases entries
  {
    hide FromEntry, SetMember;
    var result: seq<Member> := [];
    for i := 0 to |entries|
      invariant FromEntries(entries[..i]) == Some(result)
    {
      assert entries[..i + 1][..i] == entries[..i];
      var member := MemberFromCbor(entries[i]);
      if member.None? { EntriesFail(entries, i + 1); return None; }
      result := SetMember(result, member.value.key, member.value.value);
    }
    assert entries[..|entries|] == entries;
    return Some(result);
  }

  method ItemsFromCbor(items: seq<Value>) returns (r: Option<seq<Json>>)
    ensures r == FromItems(items)
    decreases items
  {
    hide FromJson;
    var result: seq<Json> := [];
    for i := 0 to |items|
      invariant FromItems(items[..i]) == Some(result)
    {
      assert items[..i + 1][..i] == items[..i];
      var item := JsonFromCbor(items[i]);
      if item.None? { ItemsFail(items, i + 1); return None; }
      result := result + [item.value];
    }
    assert items[..|items|] == items;
    return Some(result);
  }

  lemma {:induction false} EntriesFail(entries: seq<Entry>, n: nat)
    requires n <= |entries| && FromEntries(entries[..n]).None?
    ensures FromEntries(entries).None?
    decreases |entries|
  {
    if n < |entries| {
      assert entries[..|entries| - 1][..n] == entries[..n];
      EntriesFail(entries[..|entries| - 1], n);
    } else {
      assert entries[..n] == entries;
    }
  }

  lemma {:induction false} ItemsFail(items: seq<Value>, n: nat)
    requires n <= |items| && FromItems(items[..n]).None?
    ensures FromItems(items).None?
    decreases |items|
  {
    if n < |items| {
      assert items[..|items| - 1][..n] == items[..n];
      ItemsFail(items[..|items| - 1], n);
    } else {
      assert items[..n] == items;
    }
  }

  // ---- the round trip

  /** Somewhere in it is a three-element array that starts with the integer 3: the encoding of
      such an array is that of a decimal. */
  predicate HidesDecimal(j: Json)
    decreases j
  {
    match j
    case JNull => false
    case JBool(_) => false
    case JInt(_) => false
    case JText(_) => false
    case JDecimal(_, _) => false
    case JArray(items) => (|items| == 3 && items[0] == JInt(3))
        || exists i :: 0 <= i < |items| && HidesDecimal(items[i])
    case JObject(members) => exists i :: 0 <= i < |members| && MemberHides(members[i])
  }

  predicate MemberHides(m: Member)
    decreases m
  {
    HidesDecimal(m.value)
  }

  lemma {:induction false} ItemAt(items: seq<Json>, i: nat)
    requires i < |items|
    ensures ToItems(items)[i] == ToJson(items[i])
  {
    if i < |items| - 1 { ItemAt(items[..|items| - 1], i); }
  }

  /** A list is returned exactly when each of its items is. */
  lemma {:induction false} ItemsReturn(items: seq<Json>)
    ensures FromItems(ToItems(items)) == Some(items) <==>
              forall i :: 0 <= i < |items| ==> FromJson(ToJson(items[i])) == Some(items[i])
  {
    hide FromJson, ToJson, FromItems, ToItems;
    if items == [] {
      assert FromItems(ToItems(items)) == Some(items) by { NoItemsReturn(); }
    } else {
      var front, last := items[..|items| - 1], items[|items| - 1];
      ItemsReturn(front);
      LastItemReturns(front, last);
      assert items == front + [last];
      assert forall i :: 0 <= i < |front| ==> front[i] == items[i];
    }
  }

  lemma NoItemsReturn()
    ensures FromItems(ToItems([])) == Some([])
  {
  }

  lemma LastItemReturns(front: seq<Json>, last: Json)
    ensures FromItems(ToItems(front + [last])) == Some(front + [last])
       <==> FromItems(ToItems(front)) == Some(front) && FromJson(ToJson(last)) == Some(last)
  {
    hide FromJson, ToJson;
    var items := front + [last];
    assert items[..|items| - 1] == front;
    var encoded := ToItems(items);
    assert encoded[..|encoded| - 1] == ToItems(front) && encoded[|encoded| - 1] == ToJson(last);
    AppendSplits(front, last, FromItems(ToItems(front)), FromJson(ToJson(last)));
  }

  lemma AppendSplits(front: seq<Json>, last: Json, a: Option<seq<Json>>, b: Option<Json>)
    ensures a.Some? && b.Some? ==> (a.value + [b.value] == front + [last] <==> a.value == front && b.value == last)
  {
    if a.Some? && b.Some? && a.value + [b.value] == front + [last] {
      assert |a.value| == |front|;
      assert (a.value + [b.value])[..|front|] == a.value && (front + [last])[..|front|] == front;
      assert (a.value + [b.value])[|front|] == b.value;
    }
  }

  ghost predicate DistinctKeys(members: seq<Member>) {
    forall i, k :: 0 <= i < k < |members| ==> members[i].key != members[k].key
  }

  lemma {:induction false} MembersReturn(members: seq<Member>)
    requires DistinctKeys(members)
    ensures FromEntries(ToMembers(members)) == Some(members) <==>
              forall i :: 0 <= i < |members| ==> FromEntry(ToMember(members[i])) == Some(members[i])
    ensures FromEntries(ToMembers(members)).Some? ==> SameKeys(FromEntries(ToMembers(members)).value, members)
  {
    hide FromEntry, ToMember, SetMember, FromJson, ToJson;
    if members != [] {
      var front, last := members[..|members| - 1], members[|members| - 1];
      MembersReturn(front);
      assert members == front + [last];
      var encoded := ToMembers(members);
      assert encoded[..|encoded| - 1] == ToMembers(front) && encoded[|encoded| - 1] == ToMember(last);
      FromEntryKey(last);
      if FromEntries(ToMembers(front)).Some? && FromEntry(ToMember(last)).Some? {
        var before, m := FromEntries(ToMembers(front)).value, FromEntry(ToMember(last)).value;
        NewMember(before, front, members, m);
        assert FromEntries(ToMembers(members)) == Some(before + [m]);
        MemberSplits(front, last, before, m);
      }
      assert forall i :: 0 <= i < |front| ==> front[i] == members[i];
    }
  }

  ghost predicate SameKeys(a: seq<Member>, b: seq<Member>) {
    |a| == |b| && forall i :: 0 <= i < |a| ==> a[i].key == b[i].key
  }

  lemma FromEntryKey(m: Member)
    ensures FromEntry(ToMember(m)).Some? ==> FromEntry(ToMember(m)).value.key == m.key
  {
    hide FromJson, ToJson;
  }

  lemma NewMember(before: seq<Member>, front: seq<Member>, members: seq<Member>, m: Member)
    requires members != [] && front == members[..|members| - 1] && DistinctKeys(members) && SameKeys(before, front)
    requires m.key == members[|members| - 1].key
    ensures SetMember(before, m.key, m.value) == before + [m]
  {
    assert !HasMember(before, m.key);
  }

  lemma MemberSplits(front: seq<Member>, last: Member, before: seq<Member>, m: Member)
    ensures before + [m] == front + [last] <==> before == front && m == last
  {
    if before + [m] == front + [last] {
      assert |before| == |front|;
      assert (before + [m])[..|front|] == before && (front + [last])[..|front|] == front;
      assert (before + [m])[|front|] == m;
    }
  }

  lemma LeafRoundTrip(j: Json)
    requires ValidJson(j) && !j.JArray? && !j.JObject?
    ensures FromJson(ToJson(j)) == Some(j) && !HidesDecimal(j)
  {
  }

  lemma ArrayRoundTrip(items: seq<Json>)
    requires forall i :: 0 <= i < |items| ==>
              (FromJson(ToJson(items[i])) == Some(items[i]) <==> !HidesDecimal(items[i]))
    ensures FromJson(ToJson(JArray(items))) == Some(JArray(items)) <==> !HidesDecimal(JArray(items))
  {
    hide FromItems, ToItems;
    ItemsReturn(items);
    ShapeExact(items);
  }

  lemma ObjectRoundTrip(members: seq<Member>)
    requires DistinctKeys(members)
    requires forall i :: 0 <= i < |members| ==>
              (FromEntry(ToMember(members[i])) == Some(members[i]) <==> !MemberHides(members[i]))
    ensures FromJson(ToJson(JObject(members))) == Some(JObject(members)) <==> !HidesDecimal(JObject(members))
  {
    hide FromEntries, ToMembers, FromEntry, ToMember, MemberHides;
    MembersReturn(members);
  }

  /** A valid JSON value comes back exactly when it hides no decimal. */
  lemma {:induction false} JsonRoundTrip(j: Json)
    requires ValidJson(j)
    ensures FromJson(ToJson(j)) == Some(j) <==> !HidesDecimal(j)
    decreases j
  {
    hide FromJson, ToJson, HidesDecimal;
    if j.JArray? {
      forall i | 0 <= i < |j.items|
        ensures FromJson(ToJson(j.items[i])) == Some(j.items[i]) <==> !HidesDecimal(j.items[i])
      {
        JsonRoundTrip(j.items[i]);
      }
      ArrayRoundTrip(j.items);
    } else if j.JObject? {
      forall i | 0 <= i < |j.members|
        ensures FromEntry(ToMember(j.members[i])) == Some(j.members[i]) <==> !MemberHides(j.members[i])
      {
        assert ValidMember(j.members[i]);
        JsonRoundTrip(j.members[i].value);
      }
      ObjectRoundTrip(j.members);
    } else {
      LeafRoundTrip(j);
    }
  }

  lemma ShapeExact(items: seq<Json>)
    ensures DecimalShape(ToItems(items)) <==> |items| == 3 && items[0] == JInt(3)
  {
    if |items| == 3 { ItemAt(items, 0); }
  }

  predicate Loses(v: Logical) {
    (v.LText? && BomLed(v.utf8)) || (v.LJson? && HidesDecimal(v.json))
  }

  /** Decoding the CBOR form of a valid value returns it exactly when its text does not start with
      a byte order mark and its JSON hides no decimal. */
  lemma LogicalRoundTrip(v: Logical)
    requires Valid(v)
    ensures ToCbor(v).Some?
    ensures FromCbor(ToCbor(v).value) == Some(v) <==> !Loses(v)
  {
    hide ValidUtf8, ToJson, FromJson, HidesDecimal, ValidJson;
    if v.LJson? { JsonRoundTrip(v.json); }
    if v.LText? && BomLed(v.utf8) { assert |HostText(v.utf8)| == |v.utf8| - 3; }
  }

  /** Such a loss is silent: the array [3, 5, 0] comes back as the decimal 5. */
  lemma ArrayBecomesDecimal()
    ensures FromCbor(ToCbor(LJson(JArray([JInt(3), JInt(5), JInt(0)]))).value) == Some(LJson(JDecimal(5, 0)))
  {
    var items := [JInt(3), JInt(5), JInt(0)];
    assert ToItems(items[..0]) == [];
    assert items[..1][..0] == items[..0] && ToItems(items[..1]) == [Int(3)];
    assert items[..2][..1] == items[..1] && ToItems(items[..2]) == [Int(3), Int(5)];
    assert items[..3] == items && items[..3][..2] == items[..2] && ToItems(items) == [Int(3), Int(5), Int(0)];
  }

  // ---- decoding first

  /** What is decoded is encoded as it was. */
  lemma {:induction false} JsonEncodesBack(c: Value)
    requires Normal(c) && FromJson(c).Some?
    ensures ToJson(FromJson(c).value) == c
    decreases c
  {
    hide FromItems, FromEntries, ToItems, ToMembers, KeysAscend;
    match c
    case Null => case Bool(_) => case Int(_) => case Text(_) =>
    case Array(items) =>
      if DecimalShape(items) {
        assert items == [items[0], items[1], items[2]];
      } else {
        ItemsEncodeBack(items);
      }
    case Map(entries) => EntriesEncodeBack(entries);
  }

  lemma {:induction false} ItemsEncodeBack(items: seq<Value>)
    requires (forall i :: 0 <= i < |items| ==> Normal(items[i])) && FromItems(items).Some?
    ensures ToItems(FromItems(items).value) == items
    decreases items
  {
    hide FromJson, ToJson, Normal;
    if items != [] {
      var front, last := items[..|items| - 1], items[|items| - 1];
      ItemsEncodeBack(front);
      JsonEncodesBack(last);
      var before, j := FromItems(front).value, FromJson(last).value;
      assert (before + [j])[..|before|] == before;
      assert items == front + [last];
    }
  }

  lemma {:induction false} EntriesEncodeBack(entries: seq<Entry>)
    requires (forall i :: 0 <= i < |entries| ==> NormalEntry(entries[i])) && KeysAscend(entries)
    requires FromEntries(entries).Some?
    ensures ToMembers(FromEntries(entries).value) == entries
    decreases entries
  {
    hide FromEntry, ToMember, NormalEntry, KeysAscend, SetMember;
    if entries != [] {
      var front, last := entries[..|entries| - 1], entries[|entries| - 1];
      FrontAscends(entries);
      EntriesEncodeBack(front);
      assert NormalEntry(last);
      EntryEncodesBack(last);
      var before, m := FromEntries(front).value, FromEntry(last).value;
      NewKey(entries, before, m);
      assert (before + [m])[..|before|] == before;
      assert entries == front + [last];
    }
  }

  lemma {:induction false} EntryEncodesBack(e: Entry)
    requires NormalEntry(e) && FromEntry(e).Some?
    ensures ToMember(FromEntry(e).value) == e
    decreases e
  {
    hide FromJson, ToJson, Normal;
    JsonEncodesBack(e.value);
  }

  lemma FrontAscends(entries: seq<Entry>)
    requires KeysAscend(entries) && entries != []
    ensures KeysAscend(entries[..|entries| - 1])
  {
    var front := entries[..|entries| - 1];
    assert forall i :: 0 <= i < |front| ==> front[i] == entries[i];
  }

  lemma NewKey(entries: seq<Entry>, before: seq<Member>, m: Member)
    requires entries != [] && KeysAscend(entries) && ToMembers(before) == entries[..|entries| - 1]
    requires ToMember(m) == entries[|entries| - 1]
    ensures SetMember(before, m.key, m.value) == before + [m]
  {
    hide ToMembers, ToJson;
    forall i | 0 <= i < |before| ensures before[i].key != m.key {
      MemberAt(before, i);
      assert entries[i].key == Text(before[i].key);
      KeysDiffer(entries, i, |entries| - 1);
    }
  }

  lemma KeysDiffer(entries: seq<Entry>, i: nat, j: nat)
    requires KeysAscend(entries) && i < j < |entries|
    ensures entries[i].key != entries[j].key
  {
    hide Encode;
    assert ShorterKey(KeyOf(entries[i]), KeyOf(entries[j]));
    ByteOrderZero(KeyOf(entries[i]), KeyOf(entries[j]));
  }

  lemma {:induction false} MemberAt(members: seq<Member>, i: nat)
    requires i < |members|
    ensures ToMembers(members)[i] == ToMember(members[i])
  {
    hide ToMember;
    if i < |members| - 1 { MemberAt(members[..|members| - 1], i); }
  }

  /** Whatever is decoded from a normal value is encoded as that value again. */
  lemma DecodedEncodesBack(c: Value)
    requires Normal(c) && FromCbor(c).Some?
    ensures ToCbor(FromCbor(c).value) == Some(c)
  {
    hide FromJson, ToJson, ValidJson, ValidUtf8, KeysAscend;
    var items := c.items;
    if items[0].n == 9 {
      assert Normal(items[1]);
      JsonEncodesBack(items[1]);
    }
    assert |items| == 1 ==> items == [items[0]];
    assert |items| == 2 ==> items == [items[0], items[1]];
    assert |items| == 3 ==> items == [items[0], items[1], items[2]];
    assert |items| == 4 ==> items == [items[0], items[1], items[2], items[3]];
    if items[0].n == 10 { ElementBack(items[1].n); }
  }

  lemma ElementBack(i: nat)
    requires i < 6
    ensures ElementIndex(ELEMENTS[i]) == i
  {
  }

  /** Through bytes, a value within the limits survives encoding and strict decoding exactly when
      neither loss occurs and its JSON objects list their members in canonical order; what is
      returned is its CBOR form with every map in that order. */
  lemma LogicalBytesRoundTrip(l: Limits, v: Logical, bytes: Bytes)
    requires Valid(v) && |bytes| <= l.maxBytes && CborNormal.Encodes(l, ToCbor(v).value, bytes)
    ensures AssertCanonical(l, bytes) == Ok(CborNormal.Normalize(ToCbor(v).value))
    ensures FromCbor(AssertCanonical(l, bytes).value) == Some(v) <==> !Loses(v) && Normal(ToCbor(v).value)
  {
    hide AssertCanonical, Normal, Fits, Encode, FromCbor, ToCbor, Loses, CborNormal.Normalize, CborNormal.WellTyped;
    LogicalRoundTrip(v);
    var c := ToCbor(v).value;
    CborNormal.AcceptsEncodings(l, bytes);
    var n := AssertCanonical(l, bytes).value;
    AcceptsExactly(l, bytes, n);
    AcceptsExactly(l, bytes, c);
    if FromCbor(n) == Some(v) { DecodedEncodesBack(n); }
  }
}
