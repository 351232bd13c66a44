/** Well-formed UTF-8 and the byte order mark that the host's decoder drops. */
module Utf8 {
  import opened Bytes

  predicate Continues(s: Bytes, from: nat, to: nat) {
    to <= |s| && forall i :: from <= i < to ==> 0x80 <= s[i] <= 0xBF
  }

  /** The length of the character a byte string starts with; none when it starts with no
      well-formed character. */
  function CharLength(s: Bytes): (n: nat)
    ensures n <= |s| && n <= 4
  {
    if s == [] then 0
    else if s[0] <= 0x7F then 1
    else if 0xC2 <= s[0] <= 0xDF then (if Continues(s, 1, 2) then 2 else 0)
    else if 0xE0 <= s[0] <= 0xEF then
      if !Continues(s, 1, 3) || (s[0] == 0xE0 && s[1] < 0xA0) || (s[0] == 0xED && s[1] > 0x9F) then 0 else 3
    else if 0xF0 <= s[0] <= 0xF4 then
      if !Continues(s, 1, 4) || (s[0] == 0xF0 && s[1] < 0x90) || (s[0] == 0xF4 && s[1] > 0x8F) then 0 else 4
    else 0
  }

  /** Section 4 of RFC 3629. */
  predicate ValidUtf8(s: Bytes) {
    s == [] || (CharLength(s) > 0 && ValidUtf8(s[CharLength(s)..]))
  }

  const BOM: Bytes := [0xEF, 0xBB, 0xBF]

  predicate BomLed(s: Bytes) {
    |s| >= 3 && s[..3] == BOM
  }

  /** Dropping a leading byte order mark neither makes nor breaks well-formedness. */
  lemma BomIsCharacter(s: Bytes)
    requires BomLed(s)
    ensures ValidUtf8(s) <==> ValidUtf8(s[3..])
  {
    assert s[0] == s[..3][0] && s[1] == s[..3][1] && s[2] == s[..3][2];
    assert CharLength(s) == 3;
  }

  // ---- exactly the encodings of texts

  /** The bytes of one scalar value, as the table in section 3 of RFC 3629 gives them. */
  function CharUtf8(c: char): (s: Bytes)
    ensures 1 <= |s| <= 4
  {
    var n := c as int;
    if n < 0x80 then [n]
    else if n < 0x800 then [0xC0 + n / 64, 0x80 + n % 64]
    else if n < 0x1_0000 then [0xE0 + n / 4096, 0x80 + n / 64 % 64, 0x80 + n % 64]
    else [0xF0 + n / 0x4_0000, 0x80 + n / 4096 % 64, 0x80 + n / 64 % 64, 0x80 + n % 64]
  }

  function StringUtf8(text: string): Bytes {
    if text == "" then [] else CharUtf8(text[0]) + StringUtf8(text[1..])
  }

  lemma CharIsRead(c: char, rest: Bytes)
    ensures CharLength(CharUtf8(c) + rest) == |CharUtf8(c)|
  {
    var n, s := c as int, CharUtf8(c) + rest;
    assert forall i :: 0 <= i < |CharUtf8(c)| ==> s[i] == CharUtf8(c)[i];
    assert n < 0xD800 || 0xE000 <= n < 0x11_0000;
    assert 0x800 <= n < 0x1000 ==> n / 64 % 64 >= 32;
    assert 0xD000 <= n < 0xD800 ==> n / 4096 == 13 && n / 64 % 64 < 32;
    assert 0x1_0000 <= n < 0x4_0000 ==> n / 4096 % 64 >= 16;
    assert 0x10_0000 <= n ==> n / 0x4_0000 == 4 && n / 4096 % 64 < 16;
  }

  lemma ReadIsChar(s: Bytes) returns (c: char)
    requires CharLength(s) > 0
    ensures CharUtf8(c) == s[..CharLength(s)]
  {
    var k := CharLength(s);
    if k == 1 {
      c := s[0] as char;
    } else if k == 2 {
      c := TwoBytes(s[0], s[1]);
    } else if k == 3 {
      c := ThreeBytes(s[0], s[1], s[2]);
    } else {
      c := FourBytes(s[0], s[1], s[2], s[3]);
    }
  }

  lemma TwoBytes(a: byte, b: byte) returns (c: char)
    requires 0xC2 <= a <= 0xDF && 0x80 <= b <= 0xBF
    ensures CharUtf8(c) == [a, b]
  {
    var n := (a - 0xC0) * 64 + (b - 0x80);
    assert n / 64 == a - 0xC0 && n % 64 == b - 0x80;
    c := n as char;
  }

  lemma ThreeBytes(a: byte, b: byte, d: byte) returns (c: char)
    requires 0xE0 <= a <= 0xEF && 0x80 <= b <= 0xBF && 0x80 <= d <= 0xBF
    requires (a == 0xE0 ==> b >= 0xA0) && (a == 0xED ==> b <= 0x9F)
    ensures CharUtf8(c) == [a, b, d]
  {
    var n := (a - 0xE0) * 4096 + (b - 0x80) * 64 + (d - 0x80);
    assert n / 64 == (a - 0xE0) * 64 + (b - 0x80) && n % 64 == d - 0x80;
    assert n / 4096 == a - 0xE0 && n / 64 % 64 == b - 0x80;
    assert a < 0xED ==> n < 0xD800;
    assert a > 0xED ==> n >= 0xE000;
    c := n as char;
  }

  lemma FourBytes(a: byte, b: byte, d: byte, e: byte) returns (c: char)
    requires 0xF0 <= a <= 0xF4 && 0x80 <= b <= 0xBF && 0x80 <= d <= 0xBF && 0x80 <= e <= 0xBF
    requires (a == 0xF0 ==> b >= 0x90) && (a == 0xF4 ==> b <= 0x8F)
    ensures CharUtf8(c) == [a, b, d, e]
  {
    var n := (a - 0xF0) * 0x4_0000 + (b - 0x80) * 4096 + (d - 0x80) * 64 + (e - 0x80);
    assert n / 64 == (a - 0xF0) * 4096 + (b - 0x80) * 64 + (d - 0x80) && n % 64 == e - 0x80;
    assert n / 4096 == (a - 0xF0) * 64 + (b - 0x80) && n / 64 % 64 == d - 0x80;
    assert n / 0x4_0000 == a - 0xF0 && n / 4096 % 64 == b - 0x80;
    c := n as char;
  }

  /** Well-formed byte strings are exactly the encodings of texts. */
  lemma {:induction false} ValidExactly(s: Bytes)
    ensures ValidUtf8(s) <==> exists text :: StringUtf8(text) == s
  {
    hide CharLength, CharUtf8;
    if ValidUtf8(s) {
      var text := TextOf(s);
    }
    if text :| StringUtf8(text) == s { TextIsValid(text); }
  }

  lemma {:induction false} TextOf(s: Bytes) returns (text: string)
    requires ValidUtf8(s)
    ensures StringUtf8(text) == s
  {
    hide CharLength, CharUtf8;
    if s == [] {
      text := "";
    } else {
      var k := CharLength(s);
      var c := ReadIsChar(s);
      var rest := TextOf(s[k..]);
      text := [c] + rest;
      assert text[1..] == rest && s == s[..k] + s[k..];
    }
  }

  lemma {:induction false} TextIsValid(text: string)
    ensures ValidUtf8(StringUtf8(text))
  {
    hide CharLength, CharUtf8;
    if text != "" {
      var s := StringUtf8(text);
      TextIsValid(text[1..]);
      CharIsRead(text[0], StringUtf8(text[1..]));
      assert s[|CharUtf8(text[0])|..] == StringUtf8(text[1..]);
    }
  }
}
