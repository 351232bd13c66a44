/** Natural numbers as big-endian bytes: of a fixed size, and with no leading zero. */
module BigEndian {
  import opened Bytes

  function Pow256(k: nat): (r: nat)
    ensures r > 0
  {
    if k == 0 then 1 else 256 * Pow256(k - 1)
  }

  lemma PowValues()
    ensures Pow256(1) == 0x100 && Pow256(2) == 0x1_0000 && Pow256(4) == 0x1_0000_0000
    ensures Pow256(8) == 0x1_0000_0000_0000_0000
  {
    assert Pow256(1) == 256 * Pow256(0);
    assert Pow256(2) == 256 * Pow256(1);
    assert Pow256(3) == 256 * Pow256(2);
    assert Pow256(4) == 256 * Pow256(3);
    assert Pow256(5) == 256 * Pow256(4);
    assert Pow256(6) == 256 * Pow256(5);
    assert Pow256(7) == 256 * Pow256(6);
  }

  function Be(n: nat, size: nat): (s: Bytes)
    ensures |s| == size
  {
    if size == 0 then [] else Be(n / 256, size - 1) + [n % 256]
  }

  function BeValue(s: Bytes): nat {
    if s == [] then 0 else BeValue(s[..|s| - 1]) * 256 + s[|s| - 1]
  }

  lemma {:induction false} BeRoundTrip(n: nat, size: nat)
    requires n < Pow256(size)
    ensures BeValue(Be(n, size)) == n
  {
    if size > 0 {
      BeRoundTrip(n / 256, size - 1);
      assert Be(n, size)[..size - 1] == Be(n / 256, size - 1);
    }
  }

  lemma {:induction false} BeOfValue(s: Bytes)
    ensures BeValue(s) < Pow256(|s|) && Be(BeValue(s), |s|) == s
  {
    if s != [] {
      BeOfValue(s[..|s| - 1]);
      assert s == s[..|s| - 1] + [s[|s| - 1]];
    }
  }

  /** The least number of bytes. */
  function Minimal(n: nat): Bytes {
    if n == 0 then [] else Minimal(n / 256) + [n % 256]
  }

  lemma {:induction false} MinimalRoundTrip(n: nat)
    ensures BeValue(Minimal(n)) == n
    ensures n > 0 ==> Minimal(n) != [] && Minimal(n)[0] != 0
  {
    if n > 0 {
      MinimalRoundTrip(n / 256);
      assert Minimal(n)[..|Minimal(n)| - 1] == Minimal(n / 256);
      if n >= 256 { assert Minimal(n)[0] == Minimal(n / 256)[0]; }
    }
  }

  /** One more low byte. */
  lemma MinimalShift(n: nat, last: nat)
    requires last < 256 && n + last > 0
    ensures Minimal(n * 256 + last) == Minimal(n) + [last]
  {
    var m := n * 256 + last;
    assert m / 256 == n && m % 256 == last;
  }

  lemma {:induction false} MinimalOfValue(s: Bytes)
    requires s != [] && s[0] != 0
    ensures BeValue(s) >= Pow256(|s| - 1)
    ensures Minimal(BeValue(s)) == s
  {
    hide Minimal;
    var front, last := s[..|s| - 1], s[|s| - 1];
    assert s == front + [last];
    if front == [] {
      assert BeValue(front) == 0;
      assert Minimal(0) == [] by { NoBytes(); }
    } else {
      assert front[0] == s[0];
      MinimalOfValue(front);
      assert BeValue(front) > 0;
    }
    MinimalShift(BeValue(front), last);
  }

  lemma NoBytes()
    ensures Minimal(0) == []
  {
  }

  lemma {:induction false} PowMonotone(a: nat, b: nat)
    requires a <= b
    ensures Pow256(a) <= Pow256(b)
  {
    if a < b { PowMonotone(a, b - 1); }
  }

  /** A number needs more than `k` bytes exactly when it reaches 256 to the `k`. */
  lemma MinimalLength(n: nat, k: nat)
    ensures |Minimal(n)| > k <==> n >= Pow256(k)
  {
    MinimalRoundTrip(n);
    BeOfValue(Minimal(n));
    if |Minimal(n)| > k {
      MinimalOfValue(Minimal(n));
      PowMonotone(k, |Minimal(n)| - 1);
    } else {
      PowMonotone(|Minimal(n)|, k);
    }
  }

  /** The octets are collected from the low end and reversed. */
  method MagnitudeBytes(value: nat) returns (bytes: Bytes)
    ensures bytes == Minimal(value)
  {
    var octets: Bytes := [];
    var remaining := value;
    assert Reversed(octets) == [];
    while remaining > 0
      invariant Minimal(value) == Minimal(remaining) + Reversed(octets)
    {
      assert Reversed(octets + [remaining % 256]) == [remaining % 256] + Reversed(octets);
      octets := octets + [remaining % 256];
      remaining := remaining / 256;
    }
    bytes := Reversed(octets);
  }

  function Reversed(s: Bytes): Bytes {
    seq(|s|, i requires 0 <= i < |s| => s[|s| - 1 - i])
  }
}
