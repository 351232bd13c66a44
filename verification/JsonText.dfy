/** Canonical JSON: values with exact numbers, their text, and the parser's grammar as a function
    on what is left of the source. */
module JsonText {
  import opened Sorting
  import opened TextOrder
  import opened DecimalText
  import Decimal
  import DecimalCodec

  datatype Error = InvalidJson | ResourceLimit | DepthLimit | DuplicateKey

  datatype Result<+T> = Ok(value: T) | Err(error: Error)

  /** A string is a sequence of Unicode scalar values. */
  datatype Json =
    | Null
    | Bool(b: bool)
    | Number(coefficient: int, scale: int)
    | Str(s: string)
    | Array(values: seq<Json>)
    | Object(entries: seq<Entry>)

  datatype Entry = Entry(key: string, value: Json)

  datatype Limits = Limits(maxBytes: int, maxDepth: int, maxNodes: int, maxStringBytes: int, maxNumberDigits: int)

  const BOM: char := '\U{FEFF}'

  predicate BomLed(s: string) { s != "" && s[0] == BOM }

  /** The host's UTF-8 decoder drops a leading byte order mark. */
  function HostText(s: string): string { if BomLed(s) then s[1..] else s }

  function CharBytes(c: char): nat {
    if c as int < 0x80 then 1 else if c as int < 0x800 then 2 else if c as int < 0x1_0000 then 3 else 4
  }

  function Utf8Length(s: string): nat {
    if s == "" then 0 else CharBytes(s[0]) + Utf8Length(s[1..])
  }

  predicate KeyBefore(a: Entry, b: Entry) { TextBefore(a.key, b.key) }

  // ---- writing

  function HexDigit(n: nat): char
    requires n < 16
  {
    if n < 10 then '0' + n as char else 'a' + (n - 10) as char
  }

  function EscapeChar(c: char): (s: string)
    ensures s != ""
  {
    if c == '"' then "\\\""
    else if c == '\\' then "\\\\"
    else if c as int == 8 then "\\b"
    else if c as int == 12 then "\\f"
    else if c == '\n' then "\\n"
    else if c == '\r' then "\\r"
    else if c == '\t' then "\\t"
    else if c as int < 0x20 then "\\u00" + [HexDigit(c as int / 16), HexDigit(c as int % 16)]
    else [c]
  }

  function EscapeChars(s: string): string {
    if s == "" then "" else EscapeChar(s[0]) + EscapeChars(s[1..])
  }

  function Quoted(s: string): string { "\"" + EscapeChars(s) + "\"" }

  function NumberText(coefficient: int, scale: int): string
    requires scale >= 0
  {
    if coefficient == 0 then "0" else DecimalCodec.FormatDecimal(Decimal.Decimal(coefficient, scale))
  }

  predicate NumbersOk(v: Json)
    decreases v
  {
    match v
    case Null => true
    case Bool(_) => true
    case Number(_, scale) => scale >= 0
    case Str(_) => true
    case Array(values) => forall i :: 0 <= i < |values| ==> NumbersOk(values[i])
    case Object(entries) => forall i :: 0 <= i < |entries| ==> EntryNumbersOk(entries[i])
  }

  predicate EntryNumbersOk(e: Entry)
    decreases e
  {
    NumbersOk(e.value)
  }

  function Serialize(v: Json): string
    requires NumbersOk(v)
    decreases v
  {
    match v
    case Null => "null"
    case Bool(b) => if b then "true" else "false"
    case Number(c, scale) => NumberText(c, scale)
    case Str(s) => Quoted(HostText(s))
    case Array(values) => "[" + SerializeItems(values) + "]"
    case Object(entries) => "{" + SerializeMembers(entries) + "}"
  }

  /** Joined by commas. */
  function SerializeItems(values: seq<Json>): string
    requires forall i :: 0 <= i < |values| ==> NumbersOk(values[i])
    decreases values
  {
    if values == [] then ""
    else if |values| == 1 then Serialize(values[0])
    else Serialize(values[0]) + "," + SerializeItems(values[1..])
  }

  function SerializeMember(e: Entry): string
    requires EntryNumbersOk(e)
    decreases e
  {
    Quoted(HostText(e.key)) + ":" + Serialize(e.value)
  }

  function SerializeMembers(entries: seq<Entry>): string
    requires forall i :: 0 <= i < |entries| ==> EntryNumbersOk(entries[i])
    decreases entries
  {
    if entries == [] then ""
    else if |entries| == 1 then SerializeMember(entries[0])
    else SerializeMember(entries[0]) + "," + SerializeMembers(entries[1..])
  }

  // ---- reading

  /** A parsed piece and what is left of the source. */
  datatype Read<+T> = Read(value: T, rest: string)

  predicate IsBlank(c: char) { c == ' ' || c == '\n' || c == '\r' || c == '\t' }

  function SkipSpace(s: string): (r: string)
    ensures |r| <= |s|
  {
    if s != "" && IsBlank(s[0]) then SkipSpace(s[1..]) else s
  }

  predicate IsHex(c: char) { IsDigit(c) || 'a' <= c <= 'f' || 'A' <= c <= 'F' }

  function HexValue(c: char): (n: nat)
    requires IsHex(c)
    ensures n < 16
  {
    if IsDigit(c) then c as int - '0' as int else if 'a' <= c <= 'f' then c as int - 'a' as int + 10
    else c as int - 'A' as int + 10
  }

  predicate FourHex(s: string) { |s| >= 4 && IsHex(s[0]) && IsHex(s[1]) && IsHex(s[2]) && IsHex(s[3]) }

  function HexNumber(s: string): (n: nat)
    requires FourHex(s)
    ensures n < 0x1_0000
  {
    HexValue(s[0]) * 0x1000 + HexValue(s[1]) * 0x100 + HexValue(s[2]) * 0x10 + HexValue(s[3])
  }

  /** After a backslash and u: one scalar, from one code or a surrogate pair. */
  function UnicodeEscape(s: string): (r: Result<Read<char>>)
    ensures r.Ok? ==> |r.value.rest| < |s|
  {
    if !FourHex(s) then Err(InvalidJson)
    else
      var first := HexNumber(s);
      if 0xD800 <= first <= 0xDBFF then
        var t := s[4..];
        if |t| < 2 || t[0] != '\\' || t[1] != 'u' || !FourHex(t[2..]) then Err(InvalidJson)
        else
          var low := HexNumber(t[2..]);
          if !(0xDC00 <= low <= 0xDFFF) then Err(InvalidJson)
          else Ok(Read((0x1_0000 + (first - 0xD800) * 0x400 + low - 0xDC00) as char, t[6..]))
      else if 0xDC00 <= first <= 0xDFFF then Err(InvalidJson)
      else Ok(Read(first as char, s[4..]))
  }

  /** One character or escape of a string. */
  function StringChar(s: string): (r: Result<Read<char>>)
    requires s != ""
    ensures r.Ok? ==> |r.value.rest| < |s|
  {
    var c := s[0];
    if c == '\\' then
      if |s| < 2 then Err(InvalidJson)
      else
        var e := s[1];
        if e == '"' || e == '\\' || e == '/' then Ok(Read(e, s[2..]))
        else if e == 'b' then Ok(Read(8 as char, s[2..]))
        else if e == 'f' then Ok(Read(12 as char, s[2..]))
        else if e == 'n' then Ok(Read('\n', s[2..]))
        else if e == 'r' then Ok(Read('\r', s[2..]))
        else if e == 't' then Ok(Read('\t', s[2..]))
        else if e == 'u' then UnicodeEscape(s[2..])
        else Err(InvalidJson)
    else if c as int < 0x20 then Err(InvalidJson)
    else Ok(Read(c, s[1..]))
  }

  function StringChars(l: Limits, s: string, done: string): (r: Result<Read<string>>)
    ensures r.Ok? ==> |r.value.rest| < |s|
    decreases |s|
  {
    if s == "" then Err(InvalidJson)
    else if s[0] == '"' then
      if Utf8Length(done) > l.maxStringBytes then Err(ResourceLimit) else Ok(Read(done, s[1..]))
    else
      match StringChar(s)
      case Err(e) => Err(e)
      case Ok(c) => StringChars(l, c.rest, done + [c.value])
  }

  function ParseString(l: Limits, s: string): (r: Result<Read<string>>)
    ensures r.Ok? ==> |r.value.rest| < |s|
  {
    if s == "" || s[0] != '"' then Err(InvalidJson) else StringChars(l, s[1..], "")
  }

  // ---- numbers

  function Digits(s: string): (n: nat)
    ensures n <= |s| && AllDigits(s[..n]) && (n < |s| ==> !IsDigit(s[n]))
  {
    if s == "" || !IsDigit(s[0]) then 0
    else
      var n := 1 + Digits(s[1..]);
      assert s[..n] == [s[0]] + s[1..][..n - 1];
      n
  }

  /** The pattern of a number, piece by piece: how much of the text it takes. */
  function WholeLength(s: string): (n: nat)
    ensures n <= |s| && AllDigits(s[..n])
  {
    if s == "" || !IsDigit(s[0]) then 0 else if s[0] == '0' then 1 else Digits(s)
  }

  function FractionLength(s: string): (n: nat)
    ensures n <= |s| && (n > 0 ==> AllDigits(s[1..n]))
  {
    if s != "" && s[0] == '.' && Digits(s[1..]) > 0 then
      assert s[1..1 + Digits(s[1..])] == s[1..][..Digits(s[1..])];
      1 + Digits(s[1..])
    else 0
  }

  /** The digits of a number without its point. */
  function NumberDigits(t: string, whole: nat, fraction: nat): (digits: string)
    requires whole == WholeLength(t) && fraction == FractionLength(t[whole..])
    ensures AllDigits(digits)
  {
    assert fraction > 0 ==> t[whole + 1..whole + fraction] == t[whole..][1..fraction];
    t[..whole] + if fraction > 0 then t[whole + 1..whole + fraction] else ""
  }

  function SignLength(s: string): (n: nat)
    ensures n <= |s|
  {
    if s != "" && (s[0] == '+' || s[0] == '-') then 1 else 0
  }

  function ExponentLength(s: string): (n: nat)
    ensures n <= |s|
  {
    if s != "" && (s[0] == 'e' || s[0] == 'E') then
      var sign := SignLength(s[1..]);
      var digits := Digits(s[1 + sign..]);
      if digits > 0 then 1 + sign + digits else 0
    else 0
  }

  /** What may follow a number: the end, white space, a comma or a closing bracket. */
  predicate NumberEnds(s: string) {
    s == "" || s[0] == ',' || s[0] == ']' || s[0] == '}' || IsJsSpace(s[0])
  }

  predicate IsJsSpace(c: char) {
    || 9 <= c as int <= 13 || c == ' ' || c as int == 0xA0 || c as int == 0x1680 || 0x2000 <= c as int <= 0x200A
    || c as int == 0x2028 || c as int == 0x2029 || c as int == 0x202F || c as int == 0x205F || c as int == 0x3000
    || c as int == 0xFEFF
  }

  /** Take factors of ten out of a scaled number. */
  function Reduced(coefficient: int, scale: nat): (r: (int, nat))
    ensures r.1 > 0 ==> r.0 % 10 != 0
    ensures r.0 == 0 <==> coefficient == 0
    decreases scale
  {
    if scale > 0 && coefficient % 10 == 0 then Reduced(coefficient / 10, scale - 1) else (coefficient, scale)
  }

  function Exact(coefficient: int, scale: int): Json {
    var c := if scale < 0 then coefficient * Decimal.Pow10(-scale) else coefficient;
    var r := Reduced(c, if scale < 0 then 0 else scale);
    Number(r.0, if r.0 == 0 then 0 else r.1)
  }

  function ExponentValue(s: string): int
    requires ExponentLength(s) > 0
  {
    var sign := SignLength(s[1..]);
    var n := NatValue(s[1 + sign..][..Digits(s[1 + sign..])]);
    if sign == 1 && s[1] == '-' then -(n as int) else n
  }

  function ParseNumber(l: Limits, s: string): (r: Result<Read<Json>>)
    ensures r.Ok? ==> |r.value.rest| < |s|
  {
    if s != "" && s[0] == '-' then ParseUnsigned(l, true, s[1..]) else ParseUnsigned(l, false, s)
  }

  function ParseUnsigned(l: Limits, negative: bool, t: string): (r: Result<Read<Json>>)
    ensures r.Ok? ==> |r.value.rest| < |t|
  {
    var whole := WholeLength(t);
    if whole == 0 then Err(InvalidJson)
    else
      var fraction := FractionLength(t[whole..]);
      var tail := t[whole + fraction..];
      var exponent := ExponentLength(tail);
      var rest := tail[exponent..];
      var digits := NumberDigits(t, whole, fraction);
      if !NumberEnds(rest) then Err(InvalidJson)
      else if |digits| + (if exponent > 0 then exponent - 1 - SignLength(tail[1..]) else 0) > l.maxNumberDigits
        then Err(ResourceLimit)
      else
        var power := if exponent > 0 then ExponentValue(tail) else 0;
        if Decimal.Abs(power) > l.maxNumberDigits || Decimal.Abs(power) > Decimal.MAX_SAFE_INTEGER
          then Err(ResourceLimit)
        else
          var c: int := NatValue(digits);
          Ok(Read(Exact(if negative then -c else c, (if fraction > 0 then fraction - 1 else 0) - power), rest))
  }

  // ---- values

  datatype Counted<+T> = Counted(value: T, rest: string, nodes: nat)

  predicate StartsWith(s: string, word: string) { |s| >= |word| && s[..|word|] == word }

  predicate HasKey(entries: seq<Entry>, key: string) {
    exists i :: 0 <= i < |entries| && entries[i].key == key
  }

  function ParseValue(l: Limits, s: string, depth: nat, nodes: nat): (r: Result<Counted<Json>>)
    ensures r.Ok? ==> |r.value.rest| < |s|
    decreases |s|, 0
  {
    if nodes + 1 > l.maxNodes then Err(ResourceLimit)
    else if depth > l.maxDepth then Err(DepthLimit)
    else
      var t := SkipSpace(s);
      if t == "" then Err(InvalidJson)
      else if t[0] == 'n' && StartsWith(t, "null") then Ok(Counted(Null, t[4..], nodes + 1))
      else if t[0] == 't' && StartsWith(t, "true") then Ok(Counted(Bool(true), t[4..], nodes + 1))
      else if t[0] == 'f' && StartsWith(t, "false") then Ok(Counted(Bool(false), t[5..], nodes + 1))
      else if t[0] == '"' then
        match ParseString(l, t)
        case Err(e) => Err(e)
        case Ok(r) => Ok(Counted(Str(r.value), r.rest, nodes + 1))
      else if t[0] == '[' then
        var u := SkipSpace(t[1..]);
        if u != "" && u[0] == ']' then Ok(Counted(Array([]), u[1..], nodes + 1))
        else ParseItems(l, u, depth + 1, nodes + 1, [])
      else if t[0] == '{' then
        var u := SkipSpace(t[1..]);
        if u != "" && u[0] == '}' then Ok(Counted(Object([]), u[1..], nodes + 1))
        else ParseMembers(l, u, depth + 1, nodes + 1, [])
      else if t[0] == '-' || IsDigit(t[0]) then
        match ParseNumber(l, t)
        case Err(e) => Err(e)
        case Ok(r) => Ok(Counted(r.value, r.rest, nodes + 1))
      else Err(InvalidJson)
  }

  /** A comma, with something other than the closing bracket behind it; or the closing bracket. */
  function AfterElement(s: string, close: char): (r: Result<Read<bool>>)
    ensures r.Ok? ==> |r.value.rest| < |s|
  {
    var t := SkipSpace(s);
    if t == "" then Err(InvalidJson)
    else if t[0] == close then Ok(Read(true, t[1..]))
    else if t[0] != ',' then Err(InvalidJson)
    else
      var u := SkipSpace(t[1..]);
      if u != "" && u[0] == close then Err(InvalidJson) else Ok(Read(false, u))
  }

  function ParseItems(l: Limits, s: string, depth: nat, nodes: nat, values: seq<Json>): (r: Result<Counted<Json>>)
    ensures r.Ok? ==> |r.value.rest| < |s|
    decreases |s|, 1
  {
    match ParseValue(l, s, depth, nodes)
    case Err(e) => Err(e)
    case Ok(v) =>
      match AfterElement(v.rest, ']')
      case Err(e) => Err(e)
      case Ok(a) =>
        if a.value then Ok(Counted(Array(values + [v.value]), a.rest, v.nodes))
        else ParseItems(l, a.rest, depth, v.nodes, values + [v.value])
  }

  /** A new key, a colon and a value. */
  function ParseMember(l: Limits, s: string, depth: nat, nodes: nat, entries: seq<Entry>): (r: Result<Counted<Entry>>)
    ensures r.Ok? ==> |r.value.rest| < |s|
    decreases |s|, 1
  {
    match ParseString(l, s)
    case Err(e) => Err(e)
    case Ok(key) =>
      if HasKey(entries, key.value) then Err(DuplicateKey)
      else
        var t := SkipSpace(key.rest);
        if t == "" || t[0] != ':' then Err(InvalidJson)
        else
          match ParseValue(l, t[1..], depth, nodes)
          case Err(e) => Err(e)
          case Ok(v) => Ok(Counted(Entry(key.value, v.value), v.rest, v.nodes))
  }

  function ParseMembers(l: Limits, s: string, depth: nat, nodes: nat, entries: seq<Entry>): (r: Result<Counted<Json>>)
    ensures r.Ok? ==> |r.value.rest| < |s|
    decreases |s|, 2
  {
    match ParseMember(l, s, depth, nodes, entries)
    case Err(e) => Err(e)
    case Ok(m) =>
      match AfterElement(m.rest, '}')
      case Err(e) => Err(e)
      case Ok(a) =>
        if a.value then Ok(Counted(Object(Sort(entries + [m.value], KeyBefore)), a.rest, m.nodes))
        else ParseMembers(l, a.rest, depth, m.nodes, entries + [m.value])
  }

  /** `parseCanonicalJson` on text. */
  function Parse(l: Limits, source: string): Result<Json> {
    if Utf8Length(source) > l.maxBytes then Err(ResourceLimit)
    else
      match ParseValue(l, source, 0, 0)
      case Err(e) => Err(e)
      case Ok(v) => if SkipSpace(v.rest) != "" then Err(InvalidJson) else Ok(v.value)
  }
}
