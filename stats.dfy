/** `brrd.stats`: the sliding window of timestamped measurements and the
    median of a sorted list. */
module Stats {
  import opened Wrappers
  import opened HeapQ
  import opened Bisect

  /** The entries of `s` whose timestamp is not older than `cutoff`, in order. */
  function Retained<T>(s: seq<Entry<T>>, cutoff: int): (r: seq<Entry<T>>)
    ensures |r| <= |s|
    ensures forall i :: 0 <= i < |r| ==> r[i].ts >= cutoff
  {
    if s == [] then []
    else if s[0].ts >= cutoff then [s[0]] + Retained(s[1..], cutoff)
    else Retained(s[1..], cutoff)
  }

  /** `Retained` keeps every copy of a fresh entry and no copy of a stale one. */
  lemma {:induction false} RetainedCount<T>(s: seq<Entry<T>>, cutoff: int, x: Entry<T>)
    ensures multiset(Retained(s, cutoff))[x] == if x.ts >= cutoff then multiset(s)[x] else 0
  {
    if s != [] {
      assert s == [s[0]] + s[1..];
      RetainedCount(s[1..], cutoff, x);
    }
  }

  /** Two multisets with the same count for every element are equal. */
  lemma MultisetExt<X>(a: multiset<X>, b: multiset<X>)
    requires forall x :: a[x] == b[x]
    ensures a == b
  {
  }

  /** A common element cancels from both sides of a multiset equation. */
  lemma MultisetCancel<X>(a: multiset<X>, b: multiset<X>, x: X)
    requires a + multiset{x} == b + multiset{x}
    ensures a == b
  {
    forall y
      ensures a[y] == b[y]
    {
      assert (a + multiset{x})[y] == (b + multiset{x})[y];
    }
    MultisetExt(a, b);
  }

  /** What `Retained` keeps depends only on the multiset of entries, not on their order. */
  lemma RetainedPermutation<T>(a: seq<Entry<T>>, b: seq<Entry<T>>, cutoff: int)
    requires multiset(a) == multiset(b)
    ensures multiset(Retained(a, cutoff)) == multiset(Retained(b, cutoff))
  {
    forall x
      ensures multiset(Retained(a, cutoff))[x] == multiset(Retained(b, cutoff))[x]
    {
      RetainedCount(a, cutoff, x);
      RetainedCount(b, cutoff, x);
    }
    MultisetExt(multiset(Retained(a, cutoff)), multiset(Retained(b, cutoff)));
  }

  /** Removing a stale entry does not change what is retained. */
  lemma RetainedDropStale<T>(a: seq<Entry<T>>, b: seq<Entry<T>>, x: Entry<T>, cutoff: int)
    requires x in multiset(a) && x.ts < cutoff
    requires multiset(b) == multiset(a) - multiset{x}
    ensures multiset(Retained(b, cutoff)) == multiset(Retained(a, cutoff))
  {
    forall y
      ensures multiset(Retained(b, cutoff))[y] == multiset(Retained(a, cutoff))[y]
    {
      RetainedCount(a, cutoff, y);
      RetainedCount(b, cutoff, y);
      if y.ts >= cutoff {
        assert y != x;
        assert multiset(b)[y] == multiset(a)[y];
      }
    }
    MultisetExt(multiset(Retained(b, cutoff)), multiset(Retained(a, cutoff)));
  }

  /** A sequence with no stale entry is retained whole. */
  lemma {:induction false} RetainedAllFresh<T>(s: seq<Entry<T>>, cutoff: int)
    requires forall i :: 0 <= i < |s| ==> s[i].ts >= cutoff
    ensures Retained(s, cutoff) == s
  {
    if s != [] {
      RetainedAllFresh(s[1..], cutoff);
    }
  }

  /** A sequence with a stale entry loses at least that entry. */
  lemma {:induction false} RetainedDropsStale<T>(s: seq<Entry<T>>, cutoff: int, k: nat)
    requires k < |s| && s[k].ts < cutoff
    ensures |Retained(s, cutoff)| < |s|
  {
    if k > 0 {
      RetainedDropsStale(s[1..], cutoff, k - 1);
    }
  }

  /** The pruning loop shared by `add` and `items`: pop while the oldest entry
      is older than `cutoff`. */
  method Prune<T>(h: seq<Entry<T>>, cutoff: int) returns (r: seq<Entry<T>>)
    requires IsHeap(h)
    ensures IsHeap(r)
    ensures multiset(r) == multiset(Retained(h, cutoff))
    ensures forall i :: 0 <= i < |r| ==> r[i].ts >= cutoff
  {
    r := h;
    while r != [] && r[0].ts < cutoff
      invariant IsHeap(r)
      invariant multiset(Retained(r, cutoff)) == multiset(Retained(h, cutoff))
      decreases |r|
    {
      var top, rest := HeapPop(r);
      RetainedDropStale(r, rest, top, cutoff);
      r := rest;
    }
    forall i | 0 <= i < |r|
      ensures r[i].ts >= cutoff
    {
      RootIsMinimum(r, i);
    }
    RetainedAllFresh(r, cutoff);
  }

  /** A sliding window of `(timestamp, data)` entries whose age is below `span`,
      kept in a min-heap on the timestamp. */
  class SlidingWindow<T(==)> {
    var heap: seq<Entry<T>>
    const span: int

    ghost predicate Valid()
      reads this
    {
      IsHeap(heap)
    }

    /** The entries stored, stale or not. */
    ghost function Contents(): multiset<Entry<T>>
      reads this
    {
      multiset(heap)
    }

    constructor (span: int)
      ensures Valid()
      ensures this.span == span && heap == []
    {
      heap := [];
      this.span := span;
    }

    /** Push one entry, then evict every entry older than `now - span`.
        `now` stands for the wall clock read at the call. */
    method Add(now: int, timestamp: int, data: T)
      requires Valid()
      modifies this
      ensures Valid()
      ensures Contents() == multiset(Retained(old(heap) + [Entry(timestamp, data)], now - span))
      ensures forall i :: 0 <= i < |heap| ==> heap[i].ts >= now - span
    {
      var cutoff := now - span;
      var pushed := HeapPush(heap, Entry(timestamp, data));
      RetainedPermutation(pushed, heap + [Entry(timestamp, data)], cutoff);
      heap := Prune(pushed, cutoff);
    }

    /** A pruned copy of the heap; the window itself is left as it is. */
    method Items(now: int) returns (items: seq<Entry<T>>)
      requires Valid()
      ensures IsHeap(items)
      ensures multiset(items) == multiset(Retained(heap, now - span))
      ensures forall i :: 0 <= i < |items| ==> items[i].ts >= now - span
      ensures items != [] ==> forall i :: 0 <= i < |items| ==> items[0].ts <= items[i].ts
    {
      items := Prune(heap, now - span);
      forall i | 0 <= i < |items|
        ensures items[0].ts <= items[i].ts
      {
        RootIsMinimum(items, i);
      }
    }

    /** `len(window)`: the number of stored entries, without pruning. */
    function Len(): (n: nat)
      reads this
      ensures n == |Contents()|
    {
      |heap|
    }
  }

  /** `len(window)` can exceed the number of items a read at `now` returns:
      it is never smaller, and strictly larger once some entry has gone stale. */
  lemma LenAtLeastItems<T>(w: SlidingWindow<T>, now: int)
    ensures |Retained(w.heap, now - w.span)| <= w.Len()
    ensures (exists k :: 0 <= k < |w.heap| && w.heap[k].ts < now - w.span) ==>
              |Retained(w.heap, now - w.span)| < w.Len()
  {
    if k :| 0 <= k < |w.heap| && w.heap[k].ts < now - w.span {
      RetainedDropsStale(w.heap, now - w.span, k);
    }
  }

  datatype StatsError = EmptyPopulation

  /** `median`: the middle element of a list of odd length, the mean of the
      two middle elements of a list of even length, an error for an empty list. */
  function Median(population: seq<real>): (r: Result<real, StatsError>)
    ensures r.Failure? <==> population == []
    ensures r.Success? ==>
      var n := |population|;
      r.value == (population[(n - 1) / 2] + population[n / 2]) / 2.0
  {
    var length := |population|;
    if length == 0 then Failure(EmptyPopulation)
    else
      var index := (length - 1) / 2;
      if length % 2 == 1 then Success(population[index])
      else Success((population[index] + population[index + 1]) / 2.0)
  }

  /** On a sorted list the median splits the list: the lower half is no
      larger than it and the upper half no smaller, so it lies between the
      first and the last element. */
  lemma MedianOfSorted(s: seq<real>)
    requires Sorted(s) && s != []
    ensures Median(s).Success?
    ensures forall i :: 0 <= i <= (|s| - 1) / 2 ==> s[i] <= Median(s).value
    ensures forall i :: |s| / 2 <= i < |s| ==> Median(s).value <= s[i]
    ensures s[0] <= Median(s).value <= s[|s| - 1]
  {
    var n := |s|;
    var m := Median(s).value;
    assert s[(n - 1) / 2] <= s[n / 2];
    forall i | 0 <= i <= (n - 1) / 2
      ensures s[i] <= m
    {
      assert s[i] <= s[(n - 1) / 2];
    }
    forall i | n / 2 <= i < n
      ensures m <= s[i]
    {
      assert s[n / 2] <= s[i];
    }
  }

  /** The two worked values: an odd list and an even list. */
  lemma MedianExamples()
    ensures Median([1.0, 2.0, 3.0]) == Success(2.0)
    ensures Median([1.0, 2.0, 3.0, 4.0]) == Success(2.5)
    ensures Median([]) == Failure(EmptyPopulation)
  {
  }
}
