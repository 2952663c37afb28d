/** Small shared definitions: an optional value and integer min/max. */
module Util {

  /** Python's `X | None`. */
  datatype Option<+T> = None | Some(value: T)

  function Min(a: int, b: int): int
  {
    if a <= b then a else b
  }

  function Max(a: int, b: int): int
  {
    if a >= b then a else b
  }

  /** Concatenation is associative; stated once so that proofs about growing
      lists can name the regrouping step. */
  lemma AppendAssoc<T>(a: seq<T>, b: seq<T>, c: seq<T>)
    ensures (a + b) + c == a + (b + c)
  {
  }

  /** A slice that lies inside the left operand of a concatenation. */
  lemma SliceLeft<T>(a: seq<T>, b: seq<T>, lo: nat, hi: nat)
    requires lo <= hi <= |a|
    ensures (a + b)[lo..hi] == a[lo..hi]
  {
  }

  /** A slice that lies inside the right operand of a concatenation. */
  lemma SliceRight<T>(a: seq<T>, b: seq<T>, lo: nat, hi: nat)
    requires |a| <= lo <= hi <= |a| + |b|
    ensures (a + b)[lo..hi] == b[lo - |a|..hi - |a|]
  {
  }

  /** A slice of the middle operand of a three-way concatenation. */
  lemma Embedded<T>(head: seq<T>, mid: seq<T>, tail: seq<T>, lo: nat, hi: nat)
    requires lo <= hi <= |mid|
    ensures (head + mid + tail)[|head| + lo..|head| + hi] == mid[lo..hi]
  {
    SliceLeft(mid, tail, lo, hi);
    assert head + mid + tail == head + (mid + tail);
    SliceRight(head, mid + tail, |head| + lo, |head| + hi);
  }

  /** A prefix of a slice is a slice. */
  lemma SlicePrefix<T>(s: seq<T>, p: nat, b: seq<T>, pre: seq<T>)
    requires p + |b| <= |s| && s[p..p + |b|] == b
    requires |pre| <= |b| && b[..|pre|] == pre
    ensures s[p..p + |pre|] == pre
  {
    assert s[p..p + |pre|] == s[p..p + |b|][..|pre|];
  }

  /** A sequence of length at least two is its first element, its inside
      and its last element. */
  lemma Enclosed<T>(s: seq<T>)
    requires |s| >= 2
    ensures s == [s[0]] + s[1..|s| - 1] + [s[|s| - 1]]
  {
  }
}
