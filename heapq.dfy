/** A binary min-heap on a sequence, ordered by timestamp: the two operations
    of Python's `heapq` that the sliding window uses (`heappush`, `heappop`).
    Entries are compared on their timestamp only. */
module HeapQ {

  /** One `(timestamp, data)` pair held by the window. */
  datatype Entry<T> = Entry(ts: int, data: T)

  /** Position `j` is a child of position `i` in the implicit binary tree. */
  predicate Child(i: int, j: int)
  {
    j == 2 * i + 1 || j == 2 * i + 2
  }

  /** Heap order: every parent's timestamp is at most its children's. */
  ghost predicate IsHeap<T>(h: seq<Entry<T>>)
  {
    forall i, j :: 0 <= i < |h| && 0 <= j < |h| && Child(i, j) ==> h[i].ts <= h[j].ts
  }

  /** Heap order holds on every edge except the one into position `k`, and
      `k`'s parent is no later than `k`'s children (the sift-up invariant). */
  ghost predicate HeapBelow<T>(h: seq<Entry<T>>, k: int)
  {
    (forall i, j :: 0 <= i < |h| && 0 <= j < |h| && Child(i, j) && j != k ==> h[i].ts <= h[j].ts) &&
    (forall i, j :: 0 <= i < |h| && 0 <= j < |h| && Child(i, k) && Child(k, j) ==> h[i].ts <= h[j].ts)
  }

  /** Heap order holds on every edge except those out of position `k`, and
      `k`'s parent is no later than `k`'s children (the sift-down invariant). */
  ghost predicate HeapAbove<T>(h: seq<Entry<T>>, k: int)
  {
    (forall i, j :: 0 <= i < |h| && 0 <= j < |h| && Child(i, j) && i != k ==> h[i].ts <= h[j].ts) &&
    (forall i, j :: 0 <= i < |h| && 0 <= j < |h| && Child(i, k) && Child(k, j) ==> h[i].ts <= h[j].ts)
  }

  /** Exchange two positions. */
  function Swap<T>(s: seq<T>, a: nat, b: nat): (r: seq<T>)
    requires a < |s| && b < |s|
    ensures |r| == |s| && r[a] == s[b] && r[b] == s[a]
    ensures forall i :: 0 <= i < |s| && i != a && i != b ==> r[i] == s[i]
    ensures multiset(r) == multiset(s)
  {
    s[a := s[b]][b := s[a]]
  }

  /** The root of a heap carries the smallest timestamp. */
  lemma {:induction false} RootIsMinimum<T>(h: seq<Entry<T>>, i: nat)
    requires IsHeap(h) && i < |h|
    ensures h[0].ts <= h[i].ts
    decreases i
  {
    if i > 0 {
      var p := (i - 1) / 2;
      assert Child(p, i);
      RootIsMinimum(h, p);
    }
  }

  /** One sift-up swap moves the defect one level up. */
  lemma SiftUpStep<T>(r: seq<Entry<T>>, k: nat)
    requires 0 < k < |r| && HeapBelow(r, k)
    requires r[k].ts < r[(k - 1) / 2].ts
    ensures HeapBelow(Swap(r, k, (k - 1) / 2), (k - 1) / 2)
  {
    var p := (k - 1) / 2;
    var s := Swap(r, k, p);
    assert Child(p, k);
    forall i, j | 0 <= i < |s| && 0 <= j < |s| && Child(i, j) && j != p
      ensures s[i].ts <= s[j].ts
    {
      if i == p {
        if j != k {
          assert r[p].ts <= r[j].ts;
        }
      } else if i == k {
        assert r[p].ts <= r[j].ts;
      } else {
        assert j != k;
        assert r[i].ts <= r[j].ts;
      }
    }
    forall i, j | 0 <= i < |s| && 0 <= j < |s| && Child(i, p) && Child(p, j)
      ensures s[i].ts <= s[j].ts
    {
      assert r[i].ts <= r[p].ts;
      if j != k {
        assert r[p].ts <= r[j].ts;
      }
    }
  }

  /** One sift-down swap, with the smaller child `c`, moves the defect one level down. */
  lemma SiftDownStep<T>(r: seq<Entry<T>>, k: nat, c: nat)
    requires k < |r| && c < |r| && Child(k, c) && HeapAbove(r, k)
    requires forall j :: 0 <= j < |r| && Child(k, j) ==> r[c].ts <= r[j].ts
    requires r[c].ts < r[k].ts
    ensures HeapAbove(Swap(r, k, c), c)
  {
    var s := Swap(r, k, c);
    forall i, j | 0 <= i < |s| && 0 <= j < |s| && Child(i, j) && i != c
      ensures s[i].ts <= s[j].ts
    {
      if i == k {
        assert r[c].ts <= r[j].ts;
      } else if j == k {
        assert r[i].ts <= r[c].ts;
      } else {
        assert r[i].ts <= r[j].ts;
      }
    }
    forall i, j | 0 <= i < |s| && 0 <= j < |s| && Child(i, c) && Child(c, j)
      ensures s[i].ts <= s[j].ts
    {
      assert i == k;
      assert r[c].ts <= r[j].ts;
    }
  }

  /** `heapq.heappush`: append, then sift the new entry up towards the root. */
  method HeapPush<T>(h: seq<Entry<T>>, e: Entry<T>) returns (r: seq<Entry<T>>)
    requires IsHeap(h)
    ensures IsHeap(r)
    ensures multiset(r) == multiset(h) + multiset{e}
  {
    r := h + [e];
    var k := |h|;
    while k > 0 && r[k].ts < r[(k - 1) / 2].ts
      invariant 0 <= k < |r| == |h| + 1
      invariant multiset(r) == multiset(h) + multiset{e}
      invariant HeapBelow(r, k)
    {
      SiftUpStep(r, k);
      r := Swap(r, k, (k - 1) / 2);
      k := (k - 1) / 2;
    }
    forall i, j | 0 <= i < |r| && 0 <= j < |r| && Child(i, j)
      ensures r[i].ts <= r[j].ts
    {
      if j == k {
        assert i == (k - 1) / 2;
      }
    }
  }

  /** Moving the last entry of a heap to its root leaves a defect only at the root. */
  lemma PopStart<T>(h: seq<Entry<T>>)
    requires IsHeap(h) && |h| > 1
    ensures HeapAbove(h[..|h| - 1][0 := h[|h| - 1]], 0)
    ensures multiset(h[..|h| - 1][0 := h[|h| - 1]]) == multiset(h) - multiset{h[0]}
  {
    var r := h[..|h| - 1];
    assert h == r + [h[|h| - 1]];
    var s := r[0 := h[|h| - 1]];
    forall i, j | 0 <= i < |s| && 0 <= j < |s| && Child(i, j) && i != 0
      ensures s[i].ts <= s[j].ts
    {
      assert s[i] == h[i] && s[j] == h[j];
    }
  }

  /** Once position `k` is no later than its children, the whole sequence is a heap. */
  lemma SiftDownDone<T>(r: seq<Entry<T>>, k: nat)
    requires HeapAbove(r, k)
    requires forall j :: 0 <= j < |r| && Child(k, j) ==> r[k].ts <= r[j].ts
    ensures IsHeap(r)
  {
  }

  /** Sift the entry at the root down until it is no later than its children
      (the work of `heapq._siftup`). */
  method SiftDown<T>(h: seq<Entry<T>>) returns (r: seq<Entry<T>>)
    requires |h| > 0 && HeapAbove(h, 0)
    ensures IsHeap(r)
    ensures multiset(r) == multiset(h) && |r| == |h|
  {
    r := h;
    var k := 0;
    var done := false;
    while !done && 2 * k + 1 < |r|
      invariant 0 <= k < |r| == |h|
      invariant multiset(r) == multiset(h)
      invariant HeapAbove(r, k)
      invariant done ==> forall j :: 0 <= j < |r| && Child(k, j) ==> r[k].ts <= r[j].ts
      decreases |r| - k, !done
    {
      var c := 2 * k + 1;
      if c + 1 < |r| && r[c + 1].ts < r[c].ts {
        c := c + 1;
      }
      if r[k].ts <= r[c].ts {
        done := true;
      } else {
        SiftDownStep(r, k, c);
        r := Swap(r, k, c);
        k := c;
      }
    }
    SiftDownDone(r, k);
  }

  /** `heapq.heappop`: remove and return the root, move the last entry to the
      root and sift it down. The caller never pops an empty heap. */
  method HeapPop<T>(h: seq<Entry<T>>) returns (top: Entry<T>, r: seq<Entry<T>>)
    requires IsHeap(h) && |h| > 0
    ensures top == h[0]
    ensures IsHeap(r)
    ensures multiset(r) == multiset(h) - multiset{top}
    ensures |r| == |h| - 1
  {
    top := h[0];
    if |h| == 1 {
      r := [];
      assert h == [top];
      return;
    }
    PopStart(h);
    r := SiftDown(h[..|h| - 1][0 := h[|h| - 1]]);
  }
}
