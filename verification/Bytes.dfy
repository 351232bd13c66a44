/** Byte strings and the orders built on them: the lexicographic byte order and the
    transaction order key compared field by field. */
module Bytes {

  type byte = x: int | 0 <= x < 256

  type Bytes = seq<byte>

  function Sign(x: int): int {
    if x < 0 then -1 else if x > 0 then 1 else 0
  }

  /** The lexicographic order on byte strings: negative, zero or positive. */
  function ByteOrder(left: Bytes, right: Bytes): int
    decreases |left|
  {
    if |left| == 0 || |right| == 0 then Sign(|left| - |right|)
    else if left[0] != right[0] then Sign(left[0] as int - right[0] as int)
    else ByteOrder(left[1..], right[1..])
  }

  /** The first index where two strings disagree decides; a proper prefix comes first. */
  lemma {:induction false} ByteOrderAt(left: Bytes, right: Bytes, k: nat)
    requires k <= |left| && k <= |right|
    requires left[..k] == right[..k]
    ensures ByteOrder(left, right) == ByteOrder(left[k..], right[k..])
  {
    if k > 0 {
      assert left[0] == left[..k][0] == right[..k][0] == right[0];
      assert left[1..][..k - 1] == left[..k][1..] == right[..k][1..] == right[1..][..k - 1];
      ByteOrderAt(left[1..], right[1..], k - 1);
      assert left[1..][k - 1..] == left[k..] && right[1..][k - 1..] == right[k..];
    } else {
      assert left[0..] == left && right[0..] == right;
    }
  }

  /** The index loop of the source computes the lexicographic order. */
  method CompareBytes(left: Bytes, right: Bytes) returns (order: int)
    ensures order == ByteOrder(left, right)
    ensures order == 0 <==> left == right
  {
    var size := if |left| < |right| then |left| else |right|;
    for index := 0 to size
      invariant left[..index] == right[..index]
    {
      var difference := left[index] as int - right[index] as int;
      ByteOrderAt(left, right, index);
      if difference != 0 {
        order := if difference < 0 then -1 else 1;
        ByteOrderZero(left, right);
        return;
      }
    }
    ByteOrderAt(left, right, size);
    ByteOrderZero(left, right);
    order := if |left| == |right| then 0 else if |left| < |right| then -1 else 1;
  }

  lemma {:induction false} ByteOrderZero(left: Bytes, right: Bytes)
    ensures ByteOrder(left, right) == 0 <==> left == right
  {
    if |left| > 0 && |right| > 0 && left[0] == right[0] {
      ByteOrderZero(left[1..], right[1..]);
      assert left == [left[0]] + left[1..] && right == [right[0]] + right[1..];
    }
  }

  /** Equal up to `k`, and smaller there. */
  predicate SmallerAt(left: Bytes, right: Bytes, k: nat) {
    k < |left| && k < |right| && left[..k] == right[..k] && left[k] < right[k]
  }

  /** A string comes first exactly when it is a proper prefix of the other or smaller at the first
      byte where they differ. */
  lemma {:induction false} Lexicographic(left: Bytes, right: Bytes)
    ensures ByteOrder(left, right) < 0 <==> left < right || exists k: nat :: SmallerAt(left, right, k)
  {
    if |left| > 0 && |right| > 0 && left[0] == right[0] {
      var l, r := left[1..], right[1..];
      Lexicographic(l, r);
      assert left == [left[0]] + l && right == [left[0]] + r;
      forall k: nat ensures SmallerAt(l, r, k) ==> SmallerAt(left, right, k + 1) {
        if SmallerAt(l, r, k) { assert left[..k + 1] == [left[0]] + l[..k] && right[..k + 1] == [left[0]] + r[..k]; }
      }
      forall k: nat ensures SmallerAt(left, right, k) ==> k > 0 && SmallerAt(l, r, k - 1) {
        if SmallerAt(left, right, k) { assert l[..k - 1] == left[..k][1..] && r[..k - 1] == right[..k][1..]; }
      }
      if exists k: nat :: SmallerAt(left, right, k) {
        var k: nat :| SmallerAt(left, right, k);
        assert SmallerAt(l, r, k - 1);
      }
      if exists k: nat :: SmallerAt(l, r, k) {
        var k: nat :| SmallerAt(l, r, k);
        assert SmallerAt(left, right, k + 1);
      }
      assert left < right <==> l < r;
    } else if |left| > 0 && |right| > 0 {
      assert left[..0] == right[..0];
      assert left[0] < right[0] <==> SmallerAt(left, right, 0);
      forall k: nat | k > 0 ensures !SmallerAt(left, right, k) {
        if k < |left| && k < |right| { assert left[..k][0] == left[0] && right[..k][0] == right[0]; }
      }
    }
  }

  lemma {:induction false} ByteOrderAntisymmetric(left: Bytes, right: Bytes)
    ensures ByteOrder(left, right) == -ByteOrder(right, left)
  {
    if |left| > 0 && |right| > 0 && left[0] == right[0] {
      ByteOrderAntisymmetric(left[1..], right[1..]);
    }
  }

  lemma {:induction false} ByteOrderTransitive(a: Bytes, b: Bytes, c: Bytes)
    requires ByteOrder(a, b) <= 0 && ByteOrder(b, c) <= 0
    ensures ByteOrder(a, c) <= 0
    ensures ByteOrder(a, b) < 0 || ByteOrder(b, c) < 0 ==> ByteOrder(a, c) < 0
  {
    if |a| > 0 && |b| > 0 && |c| > 0 && a[0] == b[0] == c[0] {
      ByteOrderTransitive(a[1..], b[1..], c[1..]);
    }
  }
}

/** The transaction order: author timestamp, author, author feed sequence, transaction id. */
module Order {
  import opened Bytes

  datatype OrderKey = OrderKey(authorTimestampMs: int, authorId: Bytes, authorFeedSequence: int, txId: Bytes)

  function CompareKeys(left: OrderKey, right: OrderKey): int {
    if left.authorTimestampMs != right.authorTimestampMs then
      Sign(left.authorTimestampMs - right.authorTimestampMs)
    else if ByteOrder(left.authorId, right.authorId) != 0 then
      ByteOrder(left.authorId, right.authorId)
    else if left.authorFeedSequence != right.authorFeedSequence then
      Sign(left.authorFeedSequence - right.authorFeedSequence)
    else
      ByteOrder(left.txId, right.txId)
  }

  predicate Before(left: OrderKey, right: OrderKey) {
    CompareKeys(left, right) < 0
  }

  /** The comparison is a strict total order whose only ties are equal keys. */
  lemma KeysTotallyOrdered(left: OrderKey, right: OrderKey)
    ensures CompareKeys(left, right) == -CompareKeys(right, left)
    ensures CompareKeys(left, right) == 0 <==> left == right
    ensures Before(left, right) || left == right || Before(right, left)
  {
    ByteOrderAntisymmetric(left.authorId, right.authorId);
    ByteOrderAntisymmetric(left.txId, right.txId);
    ByteOrderZero(left.authorId, right.authorId);
    ByteOrderZero(left.txId, right.txId);
  }

  /** An earlier author timestamp comes first, whoever wrote and in whatever sequence; author, feed
      sequence and id only decide between equal ones, in this order. */
  lemma TimestampFirst(left: OrderKey, right: OrderKey)
    ensures left.authorTimestampMs < right.authorTimestampMs ==> Before(left, right)
    ensures Before(left, right) ==> left.authorTimestampMs <= right.authorTimestampMs
    ensures left.authorTimestampMs == right.authorTimestampMs && ByteOrder(left.authorId, right.authorId) < 0 ==>
              Before(left, right)
    ensures left.authorTimestampMs == right.authorTimestampMs && left.authorId == right.authorId
            && left.authorFeedSequence < right.authorFeedSequence ==>
              Before(left, right)
    ensures left.(txId := []) == right.(txId := []) ==> (Before(left, right) <==> ByteOrder(left.txId, right.txId) < 0)
  {
    ByteOrderZero(left.authorId, right.authorId);
  }

  lemma KeysTransitive(a: OrderKey, b: OrderKey, c: OrderKey)
    requires CompareKeys(a, b) <= 0 && CompareKeys(b, c) <= 0
    ensures CompareKeys(a, c) <= 0
    ensures Before(a, b) || Before(b, c) ==> Before(a, c)
  {
    KeysTotallyOrdered(a, b);
    KeysTotallyOrdered(b, c);
    ByteOrderZero(a.authorId, b.authorId);
    ByteOrderZero(b.authorId, c.authorId);
    ByteOrderZero(a.authorId, c.authorId);
    if a.authorTimestampMs == b.authorTimestampMs == c.authorTimestampMs {
      ByteOrderTransitive(a.authorId, b.authorId, c.authorId);
      if a.authorId == b.authorId == c.authorId &&
         a.authorFeedSequence == b.authorFeedSequence == c.authorFeedSequence {
        ByteOrderTransitive(a.txId, b.txId, c.txId);
      }
    }
  }
}
