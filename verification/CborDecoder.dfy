/** The decoder with its moving offset, and the two entry points. */
module CborDecoder {
  import opened Bytes
  import opened BigEndian
  import opened Utf8
  import opened Cbor
  import opened CborLaws
  import opened CborCanonical

  /** The outcome of a read agrees with the grammar, and so does what is left on success. */
  ghost predicate Agrees<T(!new)>(r: Result<T>, rest: Bytes, spec: Result<Parsed<T>>) {
    match spec
    case Err(e) => r == Err(e)
    case Ok(p) => r == Ok(p.value) && rest == p.rest
  }

  class Decoder {
    const input: Bytes
    const limits: Limits
    var offset: nat

    ghost predicate Valid()
      reads this
    {
      offset <= |input|
    }

    ghost function Rest(): Bytes
      requires Valid()
      reads this
    {
      input[offset..]
    }

    constructor (input: Bytes, limits: Limits)
      ensures this.input == input && this.limits == limits && Valid() && Rest() == input
    {
      this.input, this.limits, offset := input, limits, 0;
    }

    method Byte() returns (r: Result<byte>)
      requires Valid()
      modifies this
      ensures Valid()
      ensures r == if old(Rest()) == [] then Err(Invalid) else Ok(old(Rest())[0])
      ensures r.Ok? ==> Rest() == old(Rest())[1..]
    {
      if offset >= |input| { return Err(Invalid); }
      r := Ok(input[offset]);
      offset := offset + 1;
    }

    method TakeBytes(size: int) returns (r: Result<Bytes>)
      requires Valid()
      modifies this
      ensures Valid() && Agrees(r, Rest(), Take(old(Rest()), size))
    {
      if size > MAX_SAFE_INTEGER || size < 0 || offset + size > |input| { return Err(Invalid); }
      assert input[offset..][..size] == input[offset..offset + size];
      r := Ok(input[offset..offset + size]);
      offset := offset + size;
    }

    method ReadWide(size: nat, above: nat) returns (r: Result<nat>)
      requires Valid() && size <= 8
      modifies this
      ensures Valid() && Agrees(r, Rest(), Wide(old(Rest()), size, above))
    {
      var bytes := TakeBytes(size);
      if bytes.Err? { return Err(bytes.error); }
      var value := BeValue(bytes.value);
      if value <= above { return Err(NonCanonical); }
      r := Ok(value);
    }

    method ReadArgument(additional: nat) returns (r: Result<nat>)
      requires Valid()
      modifies this
      ensures Valid() && Agrees(r, Rest(), Argument(additional, old(Rest())))
    {
      hide Wide;
      if additional < 24 { return Ok(additional); }
      if additional == 24 { r := ReadWide(1, 23); return; }
      if additional == 25 { r := ReadWide(2, 0xFF); return; }
      if additional == 26 { r := ReadWide(4, 0xFFFF); return; }
      if additional == 27 { r := ReadWide(8, 0xFFFF_FFFF); return; }
      r := Err(if additional == 31 then NonCanonical else Invalid);
    }

    method Bignum(tag: nat, depth: nat) returns (r: Result<Value>)
      requires Valid()
      modifies this
      ensures Valid() && Agrees(r, Rest(), ParseBignum(limits, tag, old(Rest()), depth))
    {
      hide Argument, Take;
      if tag != 2 && tag != 3 { return Err(Invalid); }
      if depth >= limits.maxDepth { return Err(LimitExceeded); }
      var initial := Byte();
      if initial.Err? { return Err(initial.error); }
      if initial.value / 32 != 2 { return Err(Invalid); }
      var argument := ReadArgument(initial.value % 32);
      if argument.Err? { return Err(argument.error); }
      if argument.value > MAX_SAFE_INTEGER || argument.value > limits.maxBlobBytes { return Err(LimitExceeded); }
      var bytes := TakeBytes(argument.value);
      if bytes.Err? { return Err(bytes.error); }
      if |bytes.value| <= 8 || bytes.value[0] == 0 { return Err(NonCanonical); }
      var magnitude := 0;
      for i := 0 to |bytes.value|
        invariant magnitude == BeValue(bytes.value[..i])
      {
        magnitude := magnitude * 256 + bytes.value[i];
        assert bytes.value[..i + 1][..i] == bytes.value[..i];
      }
      assert bytes.value[..|bytes.value|] == bytes.value;
      if magnitude <= MAX_UINT64 { return Err(NonCanonical); }
      r := Ok(Int(if tag == 2 then magnitude else -1 - magnitude));
    }

    method ReadText(size: nat) returns (r: Result<Value>)
      requires Valid() && size <= MAX_SAFE_INTEGER
      modifies this
      ensures Valid()
      ensures Agrees(r, Rest(), match Take(old(Rest()), size) case Err(e) => Err(e) case Ok(p) => ParseText(p))
    {
      hide ValidUtf8;
      var bytes := TakeBytes(size);
      if bytes.Err? { return Err(bytes.error); }
      if !ValidUtf8(bytes.value) { return Err(InvalidUtf8); }
      r := Ok(Text(if BomLed(bytes.value) then bytes.value[3..] else bytes.value));
    }

    method ReadValue(depth: nat) returns (r: Result<Value>)
      requires Valid()
      modifies this
      ensures Valid() && Agrees(r, Rest(), ParseValue(limits, old(Rest()), depth))
      decreases Room(limits, depth), 0
    {
      hide Argument, Take, ParseBignum, ParseItems, ParseEntries, ParseText;
      if depth > limits.maxDepth { return Err(LimitExceeded); }
      var initial := Byte();
      if initial.Err? { return Err(initial.error); }
      var major, additional := initial.value / 32, initial.value % 32;
      if major == 7 {
        if additional == 20 { return Ok(Bool(false)); }
        if additional == 21 { return Ok(Bool(true)); }
        if additional == 22 { return Ok(Null); }
        return Err(Invalid);
      }
      var argument := ReadArgument(additional);
      if argument.Err? { return Err(argument.error); }
      if major == 6 { r := Bignum(argument.value, depth + 1); return; }
      if major == 0 { return Ok(Int(argument.value)); }
      if major == 1 { return Ok(Int(-1 - argument.value)); }
      if argument.value > MAX_SAFE_INTEGER { return Err(LimitExceeded); }
      var size := argument.value;
      if major == 2 {
        if size > limits.maxBlobBytes { return Err(LimitExceeded); }
        var bytes := TakeBytes(size);
        if bytes.Err? { return Err(bytes.error); }
        return Ok(Blob(bytes.value));
      }
      if major == 3 {
        if size > limits.maxTextBytes { return Err(LimitExceeded); }
        r := ReadText(size);
        return;
      }
      if major == 4 {
        if size > limits.maxArrayItems { return Err(LimitExceeded); }
        var items := ReadItems(depth + 1, size);
        if items.Err? { return Err(items.error); }
        return Ok(Array(items.value));
      }
      if size > limits.maxMapItems { return Err(LimitExceeded); }
      var entries := ReadEntries(depth + 1, size);
      if entries.Err? { return Err(entries.error); }
      return Ok(Map(entries.value));
    }

    method ReadItems(depth: nat, size: nat) returns (r: Result<seq<Value>>)
      requires Valid()
      modifies this
      ensures Valid() && Agrees(r, Rest(), ParseItems(limits, old(Rest()), depth, size, [], false))
      decreases Room(limits, depth), 1
    {
      hide ParseValue;
      var items: seq<Value> := [];
      ghost var stripped := false;
      for index := 0 to size
        invariant Valid()
        invariant ParseItems(limits, old(Rest()), depth, size, [], false)
               == ParseItems(limits, Rest(), depth, size - index, items, stripped)
      {
        ghost var p := ParseValue(limits, Rest(), depth);
        var item := ReadValue(depth);
        if item.Err? { return Err(item.error); }
        items := items + [item.value];
        stripped := stripped || p.value.stripped;
      }
      r := Ok(items);
    }

    method ReadEntries(depth: nat, size: nat) returns (r: Result<seq<Entry>>)
      requires Valid()
      modifies this
      ensures Valid() && Agrees(r, Rest(), ParseEntries(limits, old(Rest()), depth, size, None, [], false))
      decreases Room(limits, depth), 1
    {
      hide ParseValue, SetEntry, ShorterKey;
      var entries: seq<Entry> := [];
      var previous: Option<Bytes> := None;
      ghost var stripped := false;
      for index := 0 to size
        invariant Valid()
        invariant ParseEntries(limits, old(Rest()), depth, size, None, [], false)
               == ParseEntries(limits, Rest(), depth, size - index, previous, entries, stripped)
      {
        var start := offset;
        ghost var before := Rest();
        ghost var k := ParseValue(limits, before, depth);
        if k.Ok? { ParseSound(limits, before, depth); }
        var key := ReadValue(depth);
        if key.Err? { return Err(key.error); }
        if !IsKey(key.value) { return Err(Invalid); }
        assert offset == start + |Used(before, Rest())|;
        var encoded := input[start..offset];
        assert encoded == Used(before, Rest());
        if previous.Some? && !ShorterKey(previous.value, encoded) { return Err(NonCanonical); }
        ghost var v := ParseValue(limits, Rest(), depth);
        var value := ReadValue(depth);
        if value.Err? { return Err(value.error); }
        previous := Some(encoded);
        entries := SetEntry(entries, key.value, value.value);
        stripped := stripped || k.value.stripped || v.value.stripped;
      }
      r := Ok(entries);
    }
  }

  method DecodeCanonicalCbor(input: Bytes, limits: Limits) returns (r: Result<Value>)
    ensures Agrees(r, [], Decode(limits, input))
  {
    hide ParseValue;
    if |input| > limits.maxBytes { return Err(LimitExceeded); }
    var decoder := new Decoder(input, limits);
    r := decoder.ReadValue(0);
    if r.Ok? && decoder.offset != |input| { r := Err(Invalid); }
  }

  /** Accepts exactly the encodings of normal values within the limits. */
  method AssertCanonicalCbor(input: Bytes, limits: Limits) returns (r: Result<Value>)
    ensures r == AssertCanonical(limits, input)
    ensures r.Ok? <==>
              |input| <= limits.maxBytes && exists v :: Normal(v) && Fits(limits, v, 0) && Encode(v) == Ok(input)
    ensures r.Ok? ==> Normal(r.value) && Fits(limits, r.value, 0) && Encode(r.value) == Ok(input)
  {
    hide Decode, Encode, Normal, Fits, AssertCanonical;
    forall v { AcceptsExactly(limits, input, v); }
    AssertUnfolds(limits, input);
    r := DecodeCanonicalCbor(input, limits);
    if r.Err? { return; }
    var again := Encode(r.value);
    if again.Err? { return Err(again.error); }
    if again.value != input { return Err(NonCanonical); }
  }

  lemma AssertUnfolds(l: Limits, input: Bytes)
    ensures Decode(l, input).Err? ==> AssertCanonical(l, input) == Err(Decode(l, input).error)
    ensures Decode(l, input).Ok? ==>
              AssertCanonical(l, input) ==
                match Encode(Decode(l, input).value.value)
                case Err(e) => Err(e)
                case Ok(again) => if again != input then Err(NonCanonical) else Ok(Decode(l, input).value.value)
  {
    hide Decode, Encode;
  }
}
