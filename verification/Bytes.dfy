// Bytes as bounded integers.

module Bytes {
  type Byte = b: int | 0 <= b < 256 witness 0

  // The first place where c stands, or the length.
  function IndexByte(s: seq<Byte>, c: Byte): (i: nat)
    ensures i <= |s|
    ensures i < |s| ==> s[i] == c
    ensures forall k :: 0 <= k < i ==> s[k] != c
  {
    if s == [] || s[0] == c then 0 else 1 + IndexByte(s[1..], c)
  }

  lemma IndexByteIs(s: seq<Byte>, c: Byte, i: nat)
    requires i <= |s| && (forall k :: 0 <= k < i ==> s[k] != c) && (i < |s| ==> s[i] == c)
    ensures IndexByte(s, c) == i
  {
  }

  lemma Regroup(a: seq<Byte>, b: seq<Byte>, c: seq<Byte>)
    ensures (a + b) + c == a + (b + c)
  {
  }

  // A buffer into which data was copied from index end on.
  lemma Appended(b0: seq<Byte>, b1: seq<Byte>, start: nat, end: nat, data: seq<Byte>)
    requires |b1| == |b0| && start <= end && end + |data| <= |b0|
    requires forall k :: 0 <= k < |b0| ==> b1[k] == if end <= k < end + |data| then data[k - end] else b0[k]
    ensures b1[start..end + |data|] == b0[start..end] + data
  {
  }

  lemma SlicePrefix(b: seq<Byte>, start: nat, end: nat, n: nat)
    requires start + n <= end <= |b|
    ensures b[start..end][..n] == b[start..start + n]
    ensures b[start..end] == b[start..start + n] + b[start + n..end]
  {
  }
}
