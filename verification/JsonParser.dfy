/** The JSON parser with its moving index and node count. */
module JsonParser {
  import opened Sorting
  import opened DecimalText
  import Decimal
  import opened JsonText
  import opened JsonLaws
  import opened JsonTidy

  ghost predicate Agrees<T(!new)>(r: Result<T>, rest: string, spec: Result<Read<T>>) {
    match spec
    case Err(e) => r == Err(e)
    case Ok(p) => r == Ok(p.value) && rest == p.rest
  }

  ghost predicate AgreesCounted<T(!new)>(r: Result<T>, rest: string, nodes: nat, spec: Result<Counted<T>>) {
    match spec
    case Err(e) => r == Err(e)
    case Ok(p) => r == Ok(p.value) && rest == p.rest && nodes == p.nodes
  }

  /** Taking factors of ten out of a number in a loop. */
  method Reduce(c: int, scale: nat) returns (coefficient: int, left: nat)
    ensures (coefficient, left) == Reduced(c, scale)
  {
    coefficient, left := c, scale;
    while left > 0 && coefficient % 10 == 0
      invariant Reduced(c, scale) == Reduced(coefficient, left)
      decreases left
    {
      coefficient, left := coefficient / 10, left - 1;
    }
  }

  /** A coefficient and a possibly negative scale as a reduced number. */
  method Scaled(c: int, places: int) returns (number: Json)
    ensures number == Exact(c, places)
  {
    var coefficient, scale := c, places;
    if scale < 0 { coefficient, scale := coefficient * Decimal.Pow10(-scale), 0; }
    coefficient, scale := Reduce(coefficient, scale);
    if coefficient == 0 { scale := 0; }
    return Number(coefficient, scale);
  }

  class Parser {
    const source: string
    const limits: Limits
    var index: nat
    var nodes: nat

    ghost predicate Valid()
      reads this
    {
      index <= |source|
    }

    ghost function Rest(): string
      requires Valid()
      reads this
    {
      source[index..]
    }

    constructor (source: string, limits: Limits)
      ensures this.source == source && this.limits == limits && Valid() && Rest() == source && nodes == 0
    {
      this.source, this.limits, index, nodes := source, limits, 0, 0;
    }

    method Whitespace()
      requires Valid()
      modifies this`index
      ensures Valid() && Rest() == SkipSpace(old(Rest()))
    {
      while index < |source| && IsBlank(source[index])
        invariant Valid() && SkipSpace(Rest()) == SkipSpace(old(Rest()))
      {
        assert Rest()[1..] == source[index + 1..];
        index := index + 1;
      }
    }

    method ReadEscape() returns (r: Result<char>)
      requires Valid()
      modifies this`index
      ensures Valid() && Agrees(r, Rest(), UnicodeEscape(old(Rest())))
    {
      var s := source[index..];
      if !FourHex(s) { return Err(InvalidJson); }
      index := index + 4;
      var first := HexNumber(s);
      if 0xD800 <= first <= 0xDBFF {
        var t := source[index..];
        assert t == s[4..];
        if |t| < 2 || t[0] != '\\' || t[1] != 'u' { return Err(InvalidJson); }
        index := index + 2;
        var lowText := source[index..];
        assert lowText == t[2..];
        if !FourHex(lowText) { return Err(InvalidJson); }
        var low := HexNumber(lowText);
        if !(0xDC00 <= low <= 0xDFFF) { return Err(InvalidJson); }
        index := index + 4;
        assert source[index..] == t[6..];
        return Ok((0x1_0000 + (first - 0xD800) * 0x400 + low - 0xDC00) as char);
      }
      if 0xDC00 <= first <= 0xDFFF { return Err(InvalidJson); }
      return Ok(first as char);
    }

    /** One character or escape inside a string. */
    method ReadChar() returns (r: Result<char>)
      requires Valid() && Rest() != ""
      modifies this`index
      ensures Valid() && Agrees(r, Rest(), StringChar(old(Rest())))
    {
      hide UnicodeEscape;
      ghost var s := Rest();
      var c := source[index];
      index := index + 1;
      if c == '\\' {
        if index >= |source| { return Err(InvalidJson); }
        var e := source[index];
        assert e == s[1];
        index := index + 1;
        assert Rest() == s[2..];
        if e == '"' || e == '\\' || e == '/' { return Ok(e); }
        if e == 'b' { return Ok(8 as char); }
        if e == 'f' { return Ok(12 as char); }
        if e == 'n' { return Ok('\n'); }
        if e == 'r' { return Ok('\r'); }
        if e == 't' { return Ok('\t'); }
        if e == 'u' { r := ReadEscape(); return; }
        return Err(InvalidJson);
      }
      if c as int < 0x20 { return Err(InvalidJson); }
      return Ok(c);
    }

    method ReadString() returns (r: Result<string>)
      requires Valid()
      modifies this`index
      ensures Valid() && Agrees(r, Rest(), ParseString(limits, old(Rest())))
    {
      hide StringChar, Utf8Length;
      if index >= |source| || source[index] != '"' { return Err(InvalidJson); }
      index := index + 1;
      assert Rest() == old(Rest())[1..];
      var result := "";
      while index < |source|
        invariant Valid()
        invariant ParseString(limits, old(Rest())) == StringChars(limits, Rest(), result)
        decreases |source| - index
      {
        if source[index] == '"' {
          assert Rest()[1..] == source[index + 1..];
          index := index + 1;
          if Utf8Length(result) > limits.maxStringBytes { return Err(ResourceLimit); }
          return Ok(result);
        }
        ghost var before := Rest();
        var c := ReadChar();
        if c.Err? { return Err(c.error); }
        assert |Rest()| < |before|;
        result := result + [c.value];
      }
      return Err(InvalidJson);
    }

    method ReadNumber() returns (r: Result<Json>)
      requires Valid()
      modifies this`index
      ensures Valid() && Agrees(r, Rest(), ParseNumber(limits, old(Rest())))
    {
      hide ParseUnsigned;
      if index < |source| && source[index] == '-' {
        assert Rest()[1..] == source[index + 1..];
        index := index + 1;
        r := ReadUnsigned(true);
      } else {
        r := ReadUnsigned(false);
      }
    }

    method ReadUnsigned(negative: bool) returns (r: Result<Json>)
      requires Valid()
      modifies this`index
      ensures Valid() && Agrees(r, Rest(), ParseUnsigned(limits, negative, old(Rest())))
    {
      hide WholeLength, FractionLength, ExponentLength, NumberDigits, NatValue, Exact, NumberEnds, ExponentValue,
        Decimal.Abs, AllDigits, SignLength;
      var t := source[index..];
      var whole := WholeLength(t);
      if whole == 0 { return Err(InvalidJson); }
      var fraction := FractionLength(t[whole..]);
      var tail := t[whole + fraction..];
      var exponent := ExponentLength(tail);
      if !NumberEnds(tail[exponent..]) { return Err(InvalidJson); }
      var digits := NumberDigits(t, whole, fraction);
      var count := |digits| + if exponent > 0 then exponent - 1 - SignLength(tail[1..]) else 0;
      if count > limits.maxNumberDigits { return Err(ResourceLimit); }
      assert tail[exponent..] == source[index + (whole + fraction + exponent)..];
      index := index + (whole + fraction + exponent);
      var power := if exponent > 0 then ExponentValue(tail) else 0;
      if Decimal.Abs(power) > limits.maxNumberDigits || Decimal.Abs(power) > Decimal.MAX_SAFE_INTEGER {
        return Err(ResourceLimit);
      }
      var magnitude: int := NatValue(digits);
      var number := Scaled(if negative then -magnitude else magnitude,
          (if fraction > 0 then fraction - 1 else 0) - power);
      return Ok(number);
    }

    method ReadValue(depth: nat) returns (r: Result<Json>)
      requires Valid()
      modifies this
      ensures Valid() && AgreesCounted(r, Rest(), nodes, ParseValue(limits, old(Rest()), depth, old(nodes)))
      decreases |source| - index, 1
    {
      hide ParseNumber, ParseString, ParseItems, ParseMembers, StartsWith;
      nodes := nodes + 1;
      if nodes > limits.maxNodes { return Err(ResourceLimit); }
      if depth > limits.maxDepth { return Err(DepthLimit); }
      Whitespace();
      var t := source[index..];
      if t == "" { return Err(InvalidJson); }
      if t[0] == 'n' && StartsWith(t, "null") { Skip(t, "null"); return Ok(Null); }
      if t[0] == 't' && StartsWith(t, "true") { Skip(t, "true"); return Ok(Bool(true)); }
      if t[0] == 'f' && StartsWith(t, "false") { Skip(t, "false"); return Ok(Bool(false)); }
      if t[0] == '"' {
        var s := ReadString();
        return if s.Err? then Err(s.error) else Ok(Str(s.value));
      }
      if t[0] == '[' { r := ReadArray(depth); return; }
      if t[0] == '{' { r := ReadObject(depth); return; }
      if t[0] == '-' || IsDigit(t[0]) { r := ReadNumber(); return; }
      return Err(InvalidJson);
    }

    method Skip(t: string, word: string)
      requires Valid() && t == Rest() && StartsWith(t, word)
      modifies this`index
      ensures Valid() && Rest() == t[|word|..]
    {
      index := index + |word|;
    }

    method ReadArray(depth: nat) returns (r: Result<Json>)
      requires Valid() && Rest() != "" && Rest()[0] == '['
      modifies this
      ensures Valid()
      ensures var u := SkipSpace(old(Rest())[1..]);
              AgreesCounted(r, Rest(), nodes,
                            if u != "" && u[0] == ']' then Ok(Counted(Array([]), u[1..], old(nodes)))
                            else ParseItems(limits, u, depth + 1, old(nodes), []))
      decreases |source| - index, 0
    {
      hide ParseValue, AfterElement;
      assert Rest()[1..] == source[index + 1..];
      index := index + 1;
      Whitespace();
      ghost var start, count := Rest(), nodes;
      if index < |source| && source[index] == ']' {
        assert Rest()[1..] == source[index + 1..];
        index := index + 1;
        return Ok(Array([]));
      }
      var values: seq<Json> := [];
      while true
        invariant Valid() && |source| - index <= |start|
        invariant ParseItems(limits, start, depth + 1, count, [])
             == ParseItems(limits, Rest(), depth + 1, nodes, values)
        decreases |source| - index
      {
        ghost var s := Rest();
        var v := ReadValue(depth + 1);
        if v.Err? { return Err(v.error); }
        values := values + [v.value];
        var more := AfterItem(']');
        if more.Err? { return Err(more.error); }
        if more.value { return Ok(Array(values)); }
      }
    }

    /** The closing bracket, or a comma with another element behind it. */
    method AfterItem(close: char) returns (closed: Result<bool>)
      requires Valid()
      modifies this`index
      ensures Valid() && Agrees(closed, Rest(), AfterElement(old(Rest()), close))
    {
      Whitespace();
      if index >= |source| { return Err(InvalidJson); }
      var c := source[index];
      assert Rest()[1..] == source[index + 1..];
      index := index + 1;
      if c == close { return Ok(true); }
      if c != ',' { return Err(InvalidJson); }
      Whitespace();
      if index < |source| && source[index] == close { return Err(InvalidJson); }
      return Ok(false);
    }

    method ReadObject(depth: nat) returns (r: Result<Json>)
      requires Valid() && Rest() != "" && Rest()[0] == '{'
      modifies this
      ensures Valid()
      ensures var u := SkipSpace(old(Rest())[1..]);
              AgreesCounted(r, Rest(), nodes,
                            if u != "" && u[0] == '}' then Ok(Counted(Object([]), u[1..], old(nodes)))
                            else ParseMembers(limits, u, depth + 1, old(nodes), []))
      decreases |source| - index, 0
    {
      hide ParseMember, AfterElement, Sort;
      assert Rest()[1..] == source[index + 1..];
      index := index + 1;
      Whitespace();
      ghost var start, count := Rest(), nodes;
      if index < |source| && source[index] == '}' {
        assert Rest()[1..] == source[index + 1..];
        index := index + 1;
        return Ok(Object([]));
      }
      var entries: seq<Entry> := [];
      while true
        invariant Valid() && |source| - index <= |start|
        invariant ParseMembers(limits, start, depth + 1, count, [])
             == ParseMembers(limits, Rest(), depth + 1, nodes, entries)
        decreases |source| - index
      {
        var member := ReadMember(depth + 1, entries);
        if member.Err? { return Err(member.error); }
        entries := entries + [member.value];
        var more := AfterItem('}');
        if more.Err? { return Err(more.error); }
        if more.value { return Ok(Object(Sort(entries, KeyBefore))); }
      }
    }

    method ReadMember(depth: nat, entries: seq<Entry>) returns (r: Result<Entry>)
      requires Valid()
      modifies this
      ensures Valid() && AgreesCounted(r, Rest(), nodes, ParseMember(limits, old(Rest()), depth, old(nodes), entries))
      decreases |source| - index, 2
    {
      hide ParseValue, ParseString;
      ghost var before := Rest();
      var key := ReadString();
      if key.Err? { return Err(key.error); }
      if HasKey(entries, key.value) { return Err(DuplicateKey); }
      Whitespace();
      if index >= |source| || source[index] != ':' { return Err(InvalidJson); }
      assert Rest()[1..] == source[index + 1..];
      index := index + 1;
      assert |Rest()| < |before|;
      var v := ReadValue(depth);
      return if v.Err? then Err(v.error) else Ok(Entry(key.value, v.value));
    }
  }

  /** Parses as the grammar says; what it returns is tidy. */
  method ParseCanonicalJson(source: string, limits: Limits) returns (r: Result<Json>)
    ensures r == Parse(limits, source)
    ensures r.Ok? ==> Tidy(r.value)
  {
    hide ParseValue, Tidy, Utf8Length;
    if Utf8Length(source) > limits.maxBytes { return Err(ResourceLimit); }
    var parser := new Parser(source, limits);
    r := parser.ReadValue(0);
    if r.Ok? {
      ParseTidy(limits, source, 0, 0);
      parser.Whitespace();
      if parser.index != |source| { r := Err(InvalidJson); }
    }
  }
}
