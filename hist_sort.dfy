/** The histogram (counting) sort of hist-sort.c: count how often each value
    in [0, max] occurs, then overwrite the data with the values in ascending
    order, each as many times as it was counted. */
module HistSort {
  import opened Sortedness

  /** Every element lies in [0, max], the bound `sort` relies on to index its
      `max + 1` counters. */
  predicate InRange(s: seq<nat>, max: nat) {
    forall k :: 0 <= k < |s| ==> s[k] <= max
  }

  /** The counter table for values 0..max: entry v is the number of
      occurrences of v in s. */
  function Histogram(s: seq<nat>, max: nat): seq<nat> {
    seq(max + 1, v requires 0 <= v <= max => multiset(s)[v])
  }

  /** The sum of all counters. */
  function Total(h: seq<nat>): nat {
    if h == [] then 0 else Total(h[..|h| - 1]) + h[|h| - 1]
  }

  /** Walks the counters in ascending index order and emits h[v] copies of v. */
  function Expand(h: seq<nat>): seq<nat> {
    if h == [] then [] else Expand(h[..|h| - 1]) + seq(h[|h| - 1], _ => |h| - 1)
  }

  /** What `sort` leaves in the data: its histogram, expanded. */
  function HistSorted(s: seq<nat>, max: nat): seq<nat> {
    Expand(Histogram(s, max))
  }

  /** Summing a prefix of the counters: one more counter adds its count, and a
      prefix never sums to more than the whole table. */
  lemma {:induction false} TotalPrefix(h: seq<nat>, n: nat)
    requires n < |h|
    ensures Total(h[..n + 1]) == Total(h[..n]) + h[n]
    ensures Total(h[..n + 1]) <= Total(h)
    decreases |h| - n
  {
    assert h[..n + 1][..n] == h[..n];
    if n + 1 < |h| {
      TotalPrefix(h, n + 1);
    } else {
      assert h[..n + 1] == h;
    }
  }

  /** Expanding the counters emits exactly as many values as they sum to. */
  lemma {:induction false} ExpandLength(h: seq<nat>)
    ensures |Expand(h)| == Total(h)
  {
    if h != [] {
      ExpandLength(h[..|h| - 1]);
    }
  }

  /** Every value emitted is a valid counter index. */
  lemma {:induction false} ExpandBelow(h: seq<nat>)
    ensures forall k :: 0 <= k < |Expand(h)| ==> Expand(h)[k] < |h|
  {
    if h != [] {
      ExpandBelow(h[..|h| - 1]);
    }
  }

  /** Values come out in ascending counter order, so the output is sorted. */
  lemma {:induction false} ExpandSorted(h: seq<nat>)
    ensures Sorted(Expand(h))
  {
    if h != [] {
      var init := h[..|h| - 1];
      ExpandSorted(init);
      ExpandBelow(init);
      var e, tail := Expand(init), seq(h[|h| - 1], _ => |h| - 1);
      assert Expand(h) == e + tail;
      forall i, j | 0 <= i < j < |e + tail| ensures (e + tail)[i] <= (e + tail)[j] {
        if j < |e| {
          assert (e + tail)[i] == e[i] && (e + tail)[j] == e[j];
        } else if i < |e| {
          assert (e + tail)[i] == e[i] < |init|;
        }
      }
    }
  }

  /** Each value v is emitted exactly h[v] times, and nothing outside the table
      is emitted. */
  lemma {:induction false} ExpandCounts(h: seq<nat>, v: nat)
    ensures multiset(Expand(h))[v] == if v < |h| then h[v] else 0
  {
    if h != [] {
      var init := h[..|h| - 1];
      ExpandCounts(init, v);
      var c, last := h[|h| - 1], |h| - 1;
      assert Expand(h) == Expand(init) + seq(c, _ => last);
      RepeatCount(last, c, v);
    }
  }

  /** c copies of `last` hold v exactly c times when v is `last`, else never. */
  lemma {:induction false} RepeatCount(last: nat, c: nat, v: nat)
    ensures multiset(seq(c, _ => last))[v] == if v == last then c else 0
  {
    if c > 0 {
      RepeatCount(last, c - 1, v);
      assert seq(c, _ => last) == seq(c - 1, _ => last) + [last];
    }
  }

  /** The sort emits a permutation of its input: the same multiset of values,
      hence the same length. */
  lemma HistSortedPermutation(s: seq<nat>, max: nat)
    requires InRange(s, max)
    ensures multiset(HistSorted(s, max)) == multiset(s)
    ensures |HistSorted(s, max)| == |s|
  {
    var h := Histogram(s, max);
    forall v: nat ensures multiset(Expand(h))[v] == multiset(s)[v] {
      ExpandCounts(h, v);
      if v > max {
        assert v !in multiset(s);
      }
    }
    assert multiset(Expand(h)) == multiset(s);
    assert |Expand(h)| == |multiset(Expand(h))| == |multiset(s)| == |s|;
  }

  /** The counters of in-range data sum to its length. */
  lemma HistogramTotal(s: seq<nat>, max: nat)
    requires InRange(s, max)
    ensures Total(Histogram(s, max)) == |s|
  {
    HistSortedPermutation(s, max);
    ExpandLength(Histogram(s, max));
  }

  /** The sort's output is sorted. */
  lemma HistSortedSorted(s: seq<nat>, max: nat)
    ensures Sorted(HistSorted(s, max))
  {
    ExpandSorted(Histogram(s, max));
  }

  /** The sort's output is THE sorted permutation of in-range data: any sorted
      rearrangement of the input equals it. */
  lemma HistSortedUnique(s: seq<nat>, t: seq<nat>, max: nat)
    requires InRange(s, max)
    requires Sorted(t) && multiset(t) == multiset(s)
    ensures t == HistSorted(s, max)
  {
    HistSortedSorted(s, max);
    HistSortedPermutation(s, max);
    SortedPermutationUnique(t, HistSorted(s, max));
  }

  /** Sorting data that is already sorted leaves it unchanged. */
  lemma SortSortedIsIdentity(s: seq<nat>, max: nat)
    requires InRange(s, max) && Sorted(s)
    ensures HistSorted(s, max) == s
  {
    HistSortedUnique(s, s, max);
  }

  /** Sorting twice is sorting once; the output is in range again. */
  lemma HistSortedIdempotent(s: seq<nat>, max: nat)
    requires InRange(s, max)
    ensures InRange(HistSorted(s, max), max)
    ensures HistSorted(HistSorted(s, max), max) == HistSorted(s, max)
  {
    ExpandBelow(Histogram(s, max));
    HistSortedSorted(s, max);
    SortSortedIsIdentity(HistSorted(s, max), max);
  }

  /** The worked example: the counters of eleven values bounded by 5. */
  lemma WorkedHistogram()
    ensures Histogram([5, 4, 0, 5, 0, 1, 4, 2, 1, 1, 3], 5) == [2, 3, 1, 1, 2, 2]
  {
  }

  /** The worked example: walking those counters gives the sorted output. */
  lemma WorkedExpansion()
    ensures Expand([2, 3, 1, 1, 2, 2]) == [0, 0, 1, 1, 1, 2, 3, 4, 4, 5, 5]
  {
    var h := [2, 3, 1, 1, 2, 2];
    assert Expand(h[..1]) == [0, 0];
    assert Expand(h[..2]) == [0, 0, 1, 1, 1];
    assert h[..3][..2] == h[..2];
    assert Expand(h[..3]) == [0, 0, 1, 1, 1, 2];
    assert h[..4][..3] == h[..3];
    assert Expand(h[..4]) == [0, 0, 1, 1, 1, 2, 3];
    assert h[..5][..4] == h[..4];
    assert Expand(h[..5]) == [0, 0, 1, 1, 1, 2, 3, 4, 4];
    assert h[..5] == h[..|h| - 1];
  }

  /** The worked example end to end. */
  lemma WorkedExample()
    ensures HistSorted([5, 4, 0, 5, 0, 1, 4, 2, 1, 1, 3], 5) == [0, 0, 1, 1, 1, 2, 3, 4, 4, 5, 5]
  {
    WorkedHistogram();
    WorkedExpansion();
  }

  /** The counting loop: a fresh table of `max + 1` zeroed counters, then one
      increment per element. */
  method CountValues(data: array<nat>, max: nat) returns (hist: array<nat>)
    requires InRange(data[..], max)
    ensures fresh(hist)
    ensures hist[..] == Histogram(data[..], max)
  {
    hist := new nat[max + 1](_ => 0);
    var i := 0;
    while i < data.Length
      invariant 0 <= i <= data.Length
      invariant forall v :: 0 <= v <= max ==> hist[v] == multiset(data[..i])[v]
    {
      assert data[..i + 1] == data[..i] + [data[i]];
      hist[data[i]] := hist[data[i]] + 1;
      i := i + 1;
    }
    assert data[..i] == data[..];
  }

  /** The emitting loops: for each counter in ascending order, write its index
      into the data and decrement the counter until it reaches zero. */
  method EmitCounts(data: array<nat>, hist: array<nat>)
    requires data != hist
    requires Total(hist[..]) == data.Length
    modifies data, hist
    ensures data[..] == Expand(old(hist[..]))
    ensures forall v :: 0 <= v < hist.Length ==> hist[v] == 0
  {
    ghost var h := hist[..];
    var i, j := 0, 0;
    while i < hist.Length
      invariant 0 <= i <= hist.Length
      invariant j == Total(h[..i]) <= data.Length
      invariant data[..j] == Expand(h[..i])
      invariant forall v :: 0 <= v < i ==> hist[v] == 0
      invariant forall v :: i <= v < hist.Length ==> hist[v] == h[v]
    {
      TotalPrefix(h, i);
      ghost var done := data[..j];
      while hist[i] != 0
        invariant hist[i] <= h[i]
        invariant j == Total(h[..i]) + (h[i] - hist[i])
        invariant data[..j] == done + seq(h[i] - hist[i], _ => i)
        invariant forall v :: 0 <= v < i ==> hist[v] == 0
        invariant forall v :: i < v < hist.Length ==> hist[v] == h[v]
        decreases hist[i]
      {
        data[j] := i;
        hist[i] := hist[i] - 1;
        j := j + 1;
        assert data[..j] == done + seq(h[i] - hist[i], _ => i);
      }
      assert h[..i + 1][..i] == h[..i];
      assert Expand(h[..i + 1]) == Expand(h[..i]) + seq(h[i], _ => i);
      i := i + 1;
    }
    assert h[..i] == h;
    assert data[..j] == data[..];
  }

  /** `sort`: counts, then emits. Requires every element to be at most `max`. */
  method Sort(data: array<nat>, max: nat)
    requires InRange(data[..], max)
    modifies data
    ensures data[..] == HistSorted(old(data[..]), max)
    ensures Sorted(data[..])
    ensures multiset(data[..]) == multiset(old(data[..]))
  {
    ghost var input := data[..];
    var hist := CountValues(data, max);
    HistogramTotal(input, max);
    EmitCounts(data, hist);
    HistSortedSorted(input, max);
    HistSortedPermutation(input, max);
  }

  /** `fill_random`, with the `rand()` results passed in as `draws`: each
      element becomes draws[k] % max + 1, so it lies in [1, max]. */
  method FillRandom(data: array<nat>, max: nat, draws: seq<nat>)
    requires max > 0
    requires |draws| == data.Length
    modifies data
    ensures forall k :: 0 <= k < data.Length ==> data[k] == draws[k] % max + 1
    ensures forall k :: 0 <= k < data.Length ==> 1 <= data[k]
    ensures InRange(data[..], max)
  {
    var i := 0;
    while i < data.Length
      invariant 0 <= i <= data.Length
      invariant forall k :: 0 <= k < i ==> data[k] == draws[k] % max + 1
    {
      data[i] := draws[i] % max + 1;
      i := i + 1;
    }
  }
}
