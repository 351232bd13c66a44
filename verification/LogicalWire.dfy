/** The bytes of logical values: a short array that starts with the tag of the kind. */
module LogicalWire {
  import opened Bytes
  import opened Utf8
  import opened BigEndian
  import opened Cbor
  import opened CborLaws
  import opened CborWire
  import opened LogicalValue

  /** The first two bytes of each kind: an array of one to four items, and the tag. */
  function Opening(v: Logical): Bytes {
    match v
    case LNull => [0x81, 0x00]
    case LBoolean(_) => [0x82, 0x01]
    case LInt64(_) => [0x82, 0x02]
    case LDecimal(_, _) => [0x83, 0x03]
    case LText(_) => [0x82, 0x04]
    case LBlob(_) => [0x82, 0x05]
    case LUuid(_) => [0x82, 0x06]
    case LTimestamp(_) => [0x82, 0x07]
    case LDuration(_) => [0x82, 0x08]
    case LJson(_) => [0x82, 0x09]
    case LVector(_, _, _) => [0x84, 0x0A]
  }

  /** What follows them: the value itself; coefficient and scale; or element kind, dimensions and
      bytes. */
  ghost predicate Payload(b: Bytes, v: Logical) {
    match v
    case LNull => b == []
    case LBoolean(x) => Denotes(b, Bool(x))
    case LInt64(n) => Denotes(b, Int(n))
    case LDecimal(coefficient, scale) =>
      exists x: Bytes, y: Bytes :: b == x + y && Denotes(x, Int(coefficient)) && Denotes(y, Int(scale))
    case LText(s) => StringText(b, 3, if BomLed(s) then s[3..] else s)
    case LBlob(s) => StringText(b, 2, s)
    case LUuid(s) => b == [0x50] + s
    case LTimestamp(n) => Denotes(b, Int(n))
    case LDuration(n) => Denotes(b, Int(n))
    case LJson(j) => exists c :: JsonStands(c, j) && Encode(c) == Ok(b)
    case LVector(e, dimensions, s) =>
      exists y: Bytes, z: Bytes ::
        && b == [match e case I8 => 0 case U8 => 1 case I16 => 2 case I32 => 3 case F32 => 4 case F64 => 5] + y + z
        && Denotes(y, Int(dimensions)) && StringText(z, 2, s)
  }

  /** The CBOR value a JSON value stands in: item for item and member for member, a decimal as an array that
      starts with its tag. */
  ghost predicate JsonStands(c: Value, j: Json)
    decreases j
  {
    match j
    case JNull => c.Null?
    case JBool(b) => c.Bool? && (c.b <==> b)
    case JInt(n) => c.Int? && c.n == n
    case JText(s) => c.Text? && c.utf8 == s
    case JDecimal(coefficient, scale) =>
      c.Array? && |c.items| == 3 && c.items[0] == Int(3) && c.items[1] == Int(coefficient) && c.items[2] == Int(scale)
    case JArray(items) =>
      c.Array? && |c.items| == |items| && forall i :: 0 <= i < |items| ==> JsonStands(c.items[i], items[i])
    case JObject(members) =>
      c.Map? && |c.entries| == |members| && forall i :: 0 <= i < |members| ==> MemberStands(c.entries[i], members[i])
  }

  ghost predicate MemberStands(e: Entry, m: Member)
    decreases m
  {
    e.key == Text(m.key) && JsonStands(e.value, m.value)
  }

  lemma {:induction false} ItemAt(items: seq<Json>, i: nat)
    requires i < |items|
    ensures ToItems(items)[i] == ToJson(items[i])
  {
    hide ToJson;
    if i < |items| - 1 { ItemAt(items[..|items| - 1], i); }
  }

  lemma {:induction false} MemberAt(members: seq<Member>, i: nat)
    requires i < |members|
    ensures ToMembers(members)[i] == ToMember(members[i])
  {
    hide ToMember;
    if i < |members| - 1 { MemberAt(members[..|members| - 1], i); }
  }

  /** The encoding of JSON, and no other value stands for it. */
  lemma {:induction false} JsonShape(c: Value, j: Json)
    ensures JsonStands(c, j) <==> c == ToJson(j)
    decreases j
  {
    match j
    case JArray(items) =>
      var all := ToItems(items);
      forall i | 0 <= i < |items| ensures all[i] == ToJson(items[i]) { ItemAt(items, i); }
      if c.Array? && |c.items| == |items| {
        forall i | 0 <= i < |items| ensures JsonStands(c.items[i], items[i]) <==> c.items[i] == all[i] {
          JsonShape(c.items[i], items[i]);
        }
        assert JsonStands(c, j) <==> c.items == all;
      }
    case JObject(members) =>
      var all := ToMembers(members);
      forall i | 0 <= i < |members| ensures all[i] == ToMember(members[i]) { MemberAt(members, i); }
      if c.Map? && |c.entries| == |members| {
        forall i | 0 <= i < |members| ensures MemberStands(c.entries[i], members[i]) <==> c.entries[i] == all[i] {
          JsonShape(c.entries[i].value, members[i].value);
        }
        assert JsonStands(c, j) <==> c.entries == all;
      }
    case JDecimal(coefficient, scale) =>
    case _ =>
  }

  lemma ArrayOpens(tag: nat, rest: seq<Value>, b: Bytes)
    requires tag < 24 && |rest| < 23 && Encode(Array([Int(tag)] + rest)) == Ok(b)
    ensures EncodeItems(rest).Ok? && b == [0x80 + |rest| + 1, tag] + EncodeItems(rest).value
  {
    hide EncodeItems, Encode, Head;
    var items := [Int(tag)] + rest;
    ArrayEncoded(items, b);
    ItemsFront(items);
    assert items[1..] == rest;
    SmallHead(4, |items|);
    SmallInt(tag);
  }

  lemma ArrayEncoded(items: seq<Value>, b: Bytes)
    requires Encode(Array(items)) == Ok(b)
    ensures EncodeItems(items).Ok? && |items| <= MAX_UINT64 && b == Head(4, |items|) + EncodeItems(items).value
  {
    hide EncodeItems, Head;
  }

  lemma SmallInt(n: nat)
    requires n < 24
    ensures Encode(Int(n)) == Ok([n])
  {
    SmallHead(0, n);
  }

  lemma OneItem(x: Value)
    ensures Encode(x).Ok? ==> EncodeItems([x]) == Encode(x)
    ensures EncodeItems([x]).Ok? ==> Encode(x).Ok?
  {
    hide Encode;
    assert [x][..0] == [];
    assert EncodeItems([]) == Ok([]);
    if Encode(x).Ok? { assert [] + Encode(x).value == Encode(x).value; }
  }

  lemma TwoItems(x: Value, y: Value)
    requires EncodeItems([x, y]).Ok?
    ensures Encode(x).Ok? && Encode(y).Ok? && EncodeItems([x, y]).value == Encode(x).value + Encode(y).value
  {
    hide Encode;
    assert [x, y][..1] == [x];
    OneItem(x);
  }

  lemma NoItems()
    ensures EncodeItems([]) == Ok([])
  {
  }

  /** How the bytes of a logical value begin, and what its payload is. */
  lemma LogicalBytes(v: Logical, b: Bytes)
    requires ToCbor(v).Some? && Encode(ToCbor(v).value) == Ok(b)
    ensures |b| >= 2 && b[..2] == Opening(v) && Payload(b[2..], v)
  {
    hide Encode, EncodeItems;
    var items := ToCbor(v).value.items;
    var tag, rest := items[0].n, items[1..];
    assert items == [Int(tag)] + rest;
    ArrayOpens(tag, rest, b);
    assert b[..2] == [0x80 + |items|, tag] && b[2..] == EncodeItems(rest).value;
    match v
    case LNull => NoItems();
    case LDecimal(coefficient, scale) =>
      TwoItems(Int(coefficient), Int(scale));
      WireComplete(Int(coefficient), Encode(Int(coefficient)).value);
      WireComplete(Int(scale), Encode(Int(scale)).value);
    case LVector(e, dimensions, s) => VectorBytes(e, dimensions, s, b[2..]);
    case LUuid(s) =>
      OneItem(Blob(s));
      UuidBytes(s, b[2..]);
    case LText(s) =>
      OneItem(Text(HostText(s)));
      TextBytes(HostText(s), b[2..]);
    case LBlob(s) =>
      OneItem(Blob(s));
      BlobBytes(s, b[2..]);
    case LJson(j) =>
      OneItem(ToJson(j));
      JsonShape(ToJson(j), j);
    case LBoolean(x) =>
      OneItem(Bool(x));
      WireComplete(Bool(x), b[2..]);
    case LInt64(n) =>
      OneItem(Int(n));
      WireComplete(Int(n), b[2..]);
    case LTimestamp(n) =>
      OneItem(Int(n));
      WireComplete(Int(n), b[2..]);
    case LDuration(n) =>
      OneItem(Int(n));
      WireComplete(Int(n), b[2..]);
  }

  lemma TextBytes(s: Bytes, b: Bytes)
    requires Encode(Text(s)) == Ok(b)
    ensures StringText(b, 3, s)
  {
    StringExact(b, 3, |s|, s);
  }

  lemma BlobBytes(s: Bytes, b: Bytes)
    requires Encode(Blob(s)) == Ok(b)
    ensures StringText(b, 2, s)
  {
    StringExact(b, 2, |s|, s);
  }

  lemma UuidBytes(s: Bytes, b: Bytes)
    requires |s| == 16 && Encode(Blob(s)) == Ok(b)
    ensures b == [0x50] + s
  {
    SmallHead(2, 16);
  }

  lemma VectorBytes(e: Element, dimensions: int, s: Bytes, b: Bytes)
    requires EncodeItems([Int(ElementIndex(e)), Int(dimensions), Blob(s)]) == Ok(b)
    ensures Payload(b, LVector(e, dimensions, s))
  {
    hide Encode, EncodeItems;
    var items := [Int(ElementIndex(e)), Int(dimensions), Blob(s)];
    ItemsFront(items);
    assert items[1..] == [Int(dimensions), Blob(s)];
    TwoItems(Int(dimensions), Blob(s));
    var x, y, z := Encode(items[0]).value, Encode(Int(dimensions)).value, Encode(Blob(s)).value;
    ElementByte(e, x);
    WireComplete(Int(dimensions), y);
    BlobBytes(s, z);
    assert b == x + y + z;
  }

  lemma ElementByte(e: Element, b: Bytes)
    requires Encode(Int(ElementIndex(e))) == Ok(b)
    ensures b == [match e case I8 => 0 case U8 => 1 case I16 => 2 case I32 => 3 case F32 => 4 case F64 => 5]
  {
    SmallHead(0, ElementIndex(e));
  }
}
