/** Sequence helpers shared by the alignment engine: reversal (std::reverse),
    the subsequence relation, and the earliest-maximum scan that both the
    exact aligner and the recursive driver perform. */
module Seqs {

  function Max(a: int, b: int): int {
    if a < b then b else a
  }

  /** The elements of `s` in the opposite order. */
  function Reverse<T>(s: seq<T>): (r: seq<T>)
    ensures |r| == |s|
    ensures forall k :: 0 <= k < |s| ==> r[k] == s[|s| - 1 - k]
  {
    if s == [] then [] else [s[|s| - 1]] + Reverse(s[..|s| - 1])
  }

  lemma ReverseSnoc<T>(s: seq<T>, x: T)
    ensures Reverse(s + [x]) == [x] + Reverse(s)
  {
    assert (s + [x])[..|s|] == s;
  }

  /** The first `n` elements of the reversed sequence are the last `n`
      elements of the original, reversed. */
  lemma {:induction false} ReversePrefix<T>(s: seq<T>, n: nat)
    requires n <= |s|
    ensures Reverse(s)[..n] == Reverse(s[|s| - n..])
  {
    var tail := s[|s| - n..];
    var a, b := Reverse(s)[..n], Reverse(tail);
    assert |a| == n == |b|;
    forall k | 0 <= k < n ensures a[k] == b[k] {
      calc {
        b[k];
        tail[n - 1 - k];
        s[|s| - 1 - k];
        Reverse(s)[k];
      }
    }
  }

  /** `a` can be obtained from `b` by deleting elements, keeping the order. */
  predicate IsSubsequence<T(==)>(a: seq<T>, b: seq<T>)
  {
    if b == [] then a == []
    else IsSubsequence(a, b[1..]) || (a != [] && a[0] == b[0] && IsSubsequence(a[1..], b[1..]))
  }

  lemma {:induction false} EmptyIsSubsequence<T>(b: seq<T>)
    ensures IsSubsequence([], b)
  {
    if b != [] {
      EmptyIsSubsequence(b[1..]);
    }
  }

  lemma {:induction false} SelfIsSubsequence<T>(b: seq<T>)
    ensures IsSubsequence(b, b)
  {
    if b != [] {
      SelfIsSubsequence(b[1..]);
    }
  }

  /** Subsequences of consecutive pieces concatenate to a subsequence of the
      concatenated pieces. */
  lemma {:induction false} SubsequenceConcat<T>(a: seq<T>, b: seq<T>, c: seq<T>, d: seq<T>)
    requires IsSubsequence(a, b) && IsSubsequence(c, d)
    ensures IsSubsequence(a + c, b + d)
  {
    if b == [] {
      assert a == [] && a + c == c && b + d == d;
    } else {
      assert (b + d)[1..] == b[1..] + d;
      if IsSubsequence(a, b[1..]) {
        SubsequenceConcat(a, b[1..], c, d);
      } else {
        SubsequenceConcat(a[1..], b[1..], c, d);
        assert (a + c)[1..] == a[1..] + c;
      }
    }
  }

  /** The index of the first maximum of `row[lo..]`, found by a left-to-right
      scan that replaces the current best only on a strictly larger value. */
  function ArgMax(row: seq<int>, lo: nat): (r: nat)
    requires lo < |row|
    ensures lo <= r < |row|
    ensures forall k :: lo <= k < |row| ==> row[k] <= row[r]
    ensures forall k :: lo <= k < r ==> row[k] < row[r]
    decreases |row|
  {
    if |row| == lo + 1 then lo
    else
      var best := ArgMax(row[..|row| - 1], lo);
      if row[best] < row[|row| - 1] then |row| - 1 else best
  }

  /** The earliest-maximum property determines the index uniquely. */
  lemma ArgMaxUnique(row: seq<int>, lo: nat, r: nat)
    requires lo <= r < |row|
    requires forall k :: lo <= k < |row| ==> row[k] <= row[r]
    requires forall k :: lo <= k < r ==> row[k] < row[r]
    ensures ArgMax(row, lo) == r
  {
  }
}
