/** Sortedness of a sample sequence, and the adjacent-pair check `is_sorted`
    (hist-sort.c) that the driver runs on the output of the histogram sort. */
module Sortedness {

  /** Every element is at most every later element. */
  predicate Sorted(s: seq<nat>) {
    forall i, j :: 0 <= i < j < |s| ==> s[i] <= s[j]
  }

  /** Every adjacent pair is in non-decreasing order: the test `is_sorted` makes. */
  predicate AdjacentSorted(s: seq<nat>) {
    forall i :: 0 <= i < |s| - 1 ==> s[i] <= s[i + 1]
  }

  /** Checking adjacent pairs only is enough: it decides full sortedness. */
  lemma {:induction false} AdjacentSortedIffSorted(s: seq<nat>)
    ensures AdjacentSorted(s) <==> Sorted(s)
  {
    if AdjacentSorted(s) && |s| > 1 {
      var t := s[1..];
      assert AdjacentSorted(t) by {
        forall i | 0 <= i < |t| - 1 ensures t[i] <= t[i + 1] {
          assert t[i] == s[i + 1] && t[i + 1] == s[i + 2];
        }
      }
      AdjacentSortedIffSorted(t);
      forall i, j | 0 <= i < j < |s| ensures s[i] <= s[j] {
        if i == 0 {
          if j > 1 { assert t[0] <= t[j - 1]; }
        } else {
          assert t[i - 1] <= t[j - 1];
        }
      }
    }
  }

  /** The first element of a non-empty sorted sequence is at most every
      element of any permutation of it. */
  lemma HeadIsLeast(a: seq<nat>, b: seq<nat>)
    requires Sorted(b) && |b| > 0
    requires multiset(a) == multiset(b)
    ensures forall k :: 0 <= k < |a| ==> b[0] <= a[k]
  {
    forall k | 0 <= k < |a| ensures b[0] <= a[k] {
      assert a[k] in multiset(b);
      var m :| 0 <= m < |b| && b[m] == a[k];
    }
  }

  /** A sorted sequence is determined by its multiset of values: two sorted
      permutations of each other are equal. */
  lemma {:induction false} SortedPermutationUnique(a: seq<nat>, b: seq<nat>)
    requires Sorted(a) && Sorted(b)
    requires multiset(a) == multiset(b)
    ensures a == b
  {
    assert |a| == |multiset(a)| == |multiset(b)| == |b|;
    if |a| > 0 {
      HeadIsLeast(a, b);
      HeadIsLeast(b, a);
      assert a[0] == b[0];
      assert a == [a[0]] + a[1..] && b == [b[0]] + b[1..];
      assert multiset(a) == multiset{a[0]} + multiset(a[1..]);
      assert multiset(b) == multiset{b[0]} + multiset(b[1..]);
      assert multiset(a[1..]) == multiset(a) - multiset{a[0]} == multiset(b[1..]);
      SortedPermutationUnique(a[1..], b[1..]);
    }
  }

  /** Largest value of a 64-bit `size_t`. */
  const SIZE_MAX: nat := 0xFFFF_FFFF_FFFF_FFFF

  /** The loop bound `length-1` of `is_sorted` as computed in `size_t`
      arithmetic: it wraps around to SIZE_MAX when length is 0. */
  function LoopBoundAsWritten(length: nat): (b: nat)
    requires length <= SIZE_MAX
    ensures b <= SIZE_MAX
    ensures length >= 1 ==> b == length - 1
    ensures length == 0 ==> b == SIZE_MAX
  {
    (length + SIZE_MAX) % (SIZE_MAX + 1)
  }

  /** With the bound as written, an empty array still enters the loop at
      i == 0 (0 < bound) and compares data[0] with data[1], both past its
      end. IsSorted below guards with `i + 1 < length` instead, which an
      empty array never passes. */
  lemma EmptyArrayEntersLoop()
    ensures 0 < LoopBoundAsWritten(0)
  {
  }

  /** `is_sorted`: 1 when every adjacent pair is in order, 0 at the first
      inversion. An empty array counts as sorted. */
  method IsSorted(data: array<nat>) returns (r: int)
    ensures r == 0 || r == 1
    ensures r == 1 <==> AdjacentSorted(data[..])
    ensures r == 1 <==> Sorted(data[..])
  {
    AdjacentSortedIffSorted(data[..]);
    var i := 0;
    while i + 1 < data.Length
      invariant i == 0 || i < data.Length
      invariant forall k :: 0 <= k < i ==> data[k] <= data[k + 1]
    {
      if data[i] > data[i + 1] {
        return 0;
      }
      i := i + 1;
    }
    return 1;
  }
}
