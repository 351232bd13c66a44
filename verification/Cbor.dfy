/** Deterministic CBOR: values, the encoder, and the decoder's grammar as a function on what is
    left of the input. */
module Cbor {
  import opened Bytes
  import opened Sorting
  import opened BigEndian
  import opened Utf8

  datatype Error = IntegerOutOfRange | InvalidUtf8 | NonCanonical | Invalid | LimitExceeded

  datatype Result<+T> = Ok(value: T) | Err(error: Error)

  /** A text is the UTF-8 form of a string; a map lists its entries in insertion order. */
  datatype Value =
    | Null
    | Bool(b: bool)
    | Int(n: int)
    | Text(utf8: Bytes)
    | Blob(bytes: Bytes)
    | Array(items: seq<Value>)
    | Map(entries: seq<Entry>)

  datatype Entry = Entry(key: Value, value: Value)

  datatype Limits = Limits(
    maxBytes: int, maxDepth: int, maxArrayItems: int, maxMapItems: int, maxTextBytes: int, maxBlobBytes: int)

  const MAX_UINT64: nat := 0xFFFF_FFFF_FFFF_FFFF
  const MAX_SAFE_INTEGER: nat := 0x1F_FFFF_FFFF_FFFF

  // ---- encoding

  /** Shortest form of a major type and its argument. */
  function Head(major: nat, value: nat): (s: Bytes)
    requires major < 8 && value <= MAX_UINT64
    ensures s != [] && |s| <= 9
  {
    if value < 24 then [major * 32 + value]
    else if value <= 0xFF then [major * 32 + 24] + Be(value, 1)
    else if value <= 0xFFFF then [major * 32 + 25] + Be(value, 2)
    else if value <= 0xFFFF_FFFF then [major * 32 + 26] + Be(value, 4)
    else [major * 32 + 27] + Be(value, 8)
  }

  /** A head and its payload; a length beyond 64 bits is refused. */
  function Sized(major: nat, size: nat, payload: Bytes): Result<Bytes>
    requires major < 8
  {
    if size > MAX_UINT64 then Err(IntegerOutOfRange) else Ok(Head(major, size) + payload)
  }

  function Magnitude(n: int): nat { if n < 0 then -1 - n else n }

  predicate IsBignum(n: int) { Magnitude(n) > MAX_UINT64 }

  function EncodeInt(n: int): Result<Bytes> {
    if !IsBignum(n) then Ok(Head(if n < 0 then 1 else 0, Magnitude(n)))
    else
      var bytes := Minimal(Magnitude(n));
      match Sized(2, |bytes|, bytes)
      case Err(e) => Err(e)
      case Ok(blob) => Ok(Head(6, if n < 0 then 3 else 2) + blob)
  }

  datatype Pair = Pair(key: Bytes, value: Bytes)

  predicate ShorterKey(a: Bytes, b: Bytes) {
    |a| < |b| || (|a| == |b| && ByteOrder(a, b) < 0)
  }

  predicate PairBefore(a: Pair, b: Pair) {
    |a.key| < |b.key| || (|a.key| == |b.key| && ByteOrder(a.key, b.key) <= 0)
  }

  predicate AdjacentKeysDiffer(pairs: seq<Pair>) {
    forall i :: 0 < i < |pairs| ==> pairs[i - 1].key != pairs[i].key
  }

  function Flat(pairs: seq<Pair>): Bytes {
    if pairs == [] then [] else Flat(pairs[..|pairs| - 1]) + pairs[|pairs| - 1].key + pairs[|pairs| - 1].value
  }

  function Encode(v: Value): Result<Bytes>
    decreases v
  {
    match v
    case Null => Ok([0xF6])
    case Bool(b) => Ok(if b then [0xF5] else [0xF4])
    case Int(n) => EncodeInt(n)
    case Text(s) => if BomLed(s) then Err(InvalidUtf8) else Sized(3, |s|, s)
    case Blob(s) => Sized(2, |s|, s)
    case Array(items) =>
      (match EncodeItems(items)
       case Err(e) => Err(e)
       case Ok(payload) => Sized(4, |items|, payload))
    case Map(entries) =>
      match EncodeEntries(entries)
      case Err(e) => Err(e)
      case Ok(pairs) =>
        var sorted := Sort(pairs, PairBefore);
        if !AdjacentKeysDiffer(sorted) then Err(NonCanonical) else Sized(5, |entries|, Flat(sorted))
  }

  function EncodeItems(items: seq<Value>): Result<Bytes>
    decreases items
  {
    if items == [] then Ok([])
    else
      match EncodeItems(items[..|items| - 1])
      case Err(e) => Err(e)
      case Ok(before) =>
        match Encode(items[|items| - 1])
        case Err(e) => Err(e)
        case Ok(last) => Ok(before + last)
  }

  function EncodeEntry(e: Entry): Result<Pair>
    decreases e
  {
    match Encode(e.key)
    case Err(error) => Err(error)
    case Ok(key) =>
      match Encode(e.value)
      case Err(error) => Err(error)
      case Ok(value) => Ok(Pair(key, value))
  }

  function EncodeEntries(entries: seq<Entry>): (r: Result<seq<Pair>>)
    ensures r.Ok? ==> |r.value| == |entries|
    decreases entries
  {
    if entries == [] then Ok([])
    else
      match EncodeEntries(entries[..|entries| - 1])
      case Err(e) => Err(e)
      case Ok(before) =>
        match EncodeEntry(entries[|entries| - 1])
        case Err(e) => Err(e)
        case Ok(pair) => Ok(before + [pair])
  }

  // ---- decoding

  /** A decoded piece, what is left of the input, and whether a text lost a byte order mark. */
  datatype Parsed<+T> = Parsed(value: T, rest: Bytes, stripped: bool)

  function Take(s: Bytes, size: int): Result<Parsed<Bytes>> {
    if size < 0 || size > MAX_SAFE_INTEGER || size > |s| then Err(Invalid) else Ok(Parsed(s[..size], s[size..], false))
  }

  function Wide(s: Bytes, size: nat, above: nat): Result<Parsed<nat>>
    requires size <= 8
  {
    match Take(s, size)
    case Err(e) => Err(e)
    case Ok(p) => if BeValue(p.value) <= above then Err(NonCanonical) else Ok(Parsed(BeValue(p.value), p.rest, false))
  }

  function Argument(additional: nat, s: Bytes): Result<Parsed<nat>> {
    if additional < 24 then Ok(Parsed(additional, s, false))
    else if additional == 24 then Wide(s, 1, 23)
    else if additional == 25 then Wide(s, 2, 0xFF)
    else if additional == 26 then Wide(s, 4, 0xFFFF)
    else if additional == 27 then Wide(s, 8, 0xFFFF_FFFF)
    else if additional == 31 then Err(NonCanonical)
    else Err(Invalid)
  }

  /** A byte string's payload of the given length under a limit. */
  function Limited(s: Bytes, size: nat, limit: int): Result<Parsed<Bytes>> {
    if size > MAX_SAFE_INTEGER || size > limit then Err(LimitExceeded) else Take(s, size)
  }

  function ParseBignum(l: Limits, tag: nat, s: Bytes, depth: nat): Result<Parsed<Value>> {
    if tag != 2 && tag != 3 then Err(Invalid)
    else if depth >= l.maxDepth then Err(LimitExceeded)
    else if s == [] || s[0] / 32 != 2 then Err(Invalid)
    else
      match Argument(s[0] % 32, s[1..])
      case Err(e) => Err(e)
      case Ok(size) =>
        match Limited(size.rest, size.value, l.maxBlobBytes)
        case Err(e) => Err(e)
        case Ok(p) =>
          if |p.value| <= 8 || p.value[0] == 0 || BeValue(p.value) <= MAX_UINT64 then Err(NonCanonical)
          else Ok(Parsed(Int(if tag == 2 then BeValue(p.value) else -1 - BeValue(p.value)), p.rest, false))
  }

  /** The host's UTF-8 decoder, which drops a leading byte order mark. */
  function ParseText(p: Parsed<Bytes>): Result<Parsed<Value>> {
    if !ValidUtf8(p.value) then Err(InvalidUtf8)
    else if BomLed(p.value) then Ok(Parsed(Text(p.value[3..]), p.rest, true))
    else Ok(Parsed(Text(p.value), p.rest, false))
  }

  predicate IsKey(v: Value) { v.Int? || v.Text? || v.Blob? }

  /** Setting a key of a host map: numbers and strings are found by value, byte arrays never. */
  function SetEntry(entries: seq<Entry>, key: Value, value: Value): seq<Entry> {
    if !key.Blob? && HasKey(entries, key) then entries[KeyIndex(entries, key) := Entry(key, value)]
    else entries + [Entry(key, value)]
  }

  predicate HasKey(entries: seq<Entry>, key: Value) {
    exists i :: 0 <= i < |entries| && entries[i].key == key
  }

  function KeyIndex(entries: seq<Entry>, key: Value): (i: nat)
    requires HasKey(entries, key)
    ensures i < |entries| && entries[i].key == key
  {
    if entries[0].key == key then 0
    else
      assert HasKey(entries[1..], key) by {
        var i :| 0 <= i < |entries| && entries[i].key == key;
        assert entries[1..][i - 1].key == key;
      }
      1 + KeyIndex(entries[1..], key)
  }

  function Room(l: Limits, depth: nat): nat { if depth > l.maxDepth then 0 else l.maxDepth + 1 - depth }

  function ParseValue(l: Limits, s: Bytes, depth: nat): Result<Parsed<Value>>
    decreases Room(l, depth), 0, 0
  {
    if depth > l.maxDepth then Err(LimitExceeded)
    else if s == [] then Err(Invalid)
    else if s[0] / 32 == 7 then
      if s[0] % 32 == 20 then Ok(Parsed(Bool(false), s[1..], false))
      else if s[0] % 32 == 21 then Ok(Parsed(Bool(true), s[1..], false))
      else if s[0] % 32 == 22 then Ok(Parsed(Null, s[1..], false))
      else Err(Invalid)
    else
      match Argument(s[0] % 32, s[1..])
      case Err(e) => Err(e)
      case Ok(a) => ParseMajor(l, s[0] / 32, a.value, a.rest, depth)
  }

  function ParseMajor(l: Limits, major: nat, argument: nat, s: Bytes, depth: nat): Result<Parsed<Value>>
    requires major < 7 && depth <= l.maxDepth
    decreases Room(l, depth + 1), 2, 0
  {
    if major == 6 then ParseBignum(l, argument, s, depth + 1)
    else if major == 0 then Ok(Parsed(Int(argument), s, false))
    else if major == 1 then Ok(Parsed(Int(-1 - argument), s, false))
    else if major == 2 then
      match Limited(s, argument, l.maxBlobBytes)
      case Err(e) => Err(e)
      case Ok(p) => Ok(Parsed(Blob(p.value), p.rest, false))
    else if major == 3 then
      match Limited(s, argument, l.maxTextBytes)
      case Err(e) => Err(e)
      case Ok(p) => ParseText(p)
    else if argument > MAX_SAFE_INTEGER || argument > (if major == 4 then l.maxArrayItems else l.maxMapItems)
      then Err(LimitExceeded)
    else if major == 4 then
      match ParseItems(l, s, depth + 1, argument, [], false)
      case Err(e) => Err(e)
      case Ok(p) => Ok(Parsed(Array(p.value), p.rest, p.stripped))
    else
      match ParseEntries(l, s, depth + 1, argument, None, [], false)
      case Err(e) => Err(e)
      case Ok(p) => Ok(Parsed(Map(p.value), p.rest, p.stripped))
  }

  function ParseItems(l: Limits, s: Bytes, depth: nat, count: nat, items: seq<Value>,
      stripped: bool): Result<Parsed<seq<Value>>>
    decreases Room(l, depth), 1, count
  {
    if count == 0 then Ok(Parsed(items, s, stripped))
    else
      match ParseValue(l, s, depth)
      case Err(e) => Err(e)
      case Ok(p) => ParseItems(l, p.rest, depth, count - 1, items + [p.value], stripped || p.stripped)
  }

  datatype Option<+T> = None | Some(value: T)

  /** What a parse consumed. */
  function Used(s: Bytes, rest: Bytes): Bytes {
    if |rest| <= |s| then s[..|s| - |rest|] else []
  }

  function ParseEntries(
      l: Limits, s: Bytes, depth: nat, count: nat, previous: Option<Bytes>, entries: seq<Entry>, stripped: bool)
    : Result<Parsed<seq<Entry>>>
    decreases Room(l, depth), 1, count
  {
    if count == 0 then Ok(Parsed(entries, s, stripped))
    else
      match ParseValue(l, s, depth)
      case Err(e) => Err(e)
      case Ok(key) =>
        var encoded := Used(s, key.rest);
        if !IsKey(key.value) then Err(Invalid)
        else if previous.Some? && !ShorterKey(previous.value, encoded) then Err(NonCanonical)
        else
          match ParseValue(l, key.rest, depth)
          case Err(e) => Err(e)
          case Ok(value) =>
            ParseEntries(l, value.rest, depth, count - 1, Some(encoded), SetEntry(entries, key.value, value.value),
                         stripped || key.stripped || value.stripped)
  }

  /** `decodeCanonicalCbor`. */
  function Decode(l: Limits, input: Bytes): Result<Parsed<Value>> {
    if |input| > l.maxBytes then Err(LimitExceeded)
    else
      match ParseValue(l, input, 0)
      case Err(e) => Err(e)
      case Ok(p) => if p.rest != [] then Err(Invalid) else Ok(p)
  }

  /** `assertCanonicalCbor`: decode, encode again, compare. */
  function AssertCanonical(l: Limits, input: Bytes): Result<Value> {
    match Decode(l, input)
    case Err(e) => Err(e)
    case Ok(p) =>
      match Encode(p.value)
      case Err(e) => Err(e)
      case Ok(again) => if again != input then Err(NonCanonical) else Ok(p.value)
  }
}
