/** Python's `bisect.insort` (that is, `insort_right`) on a sorted list of values. */
module Bisect {

  predicate Sorted(s: seq<real>)
  {
    forall i, j :: 0 <= i <= j < |s| ==> s[i] <= s[j]
  }

  /** The insertion point right of every element equal to `x`: on a sorted
      list, the number of elements no larger than `x`. */
  function BisectRight(a: seq<real>, x: real): (k: nat)
    ensures k <= |a|
  {
    if a == [] || x < a[0] then 0 else 1 + BisectRight(a[1..], x)
  }

  /** On a sorted list everything before the insertion point is at most `x`
      and everything from it on is larger. */
  lemma {:induction false} BisectRightSplits(a: seq<real>, x: real)
    requires Sorted(a)
    ensures forall i :: 0 <= i < BisectRight(a, x) ==> a[i] <= x
    ensures forall i :: BisectRight(a, x) <= i < |a| ==> x < a[i]
  {
    if a != [] && a[0] <= x {
      BisectRightSplits(a[1..], x);
    }
  }

  /** Any position that splits `a` this way is the insertion point. */
  lemma {:induction false} BisectRightUnique(a: seq<real>, x: real, k: nat)
    requires k <= |a|
    requires forall i :: 0 <= i < k ==> a[i] <= x
    requires forall i :: k <= i < |a| ==> x < a[i]
    ensures k == BisectRight(a, x)
  {
    if a != [] && a[0] <= x {
      BisectRightUnique(a[1..], x, k - 1);
    }
  }

  /** The list after `insort(a, x)`. */
  function Insert(a: seq<real>, x: real): seq<real>
  {
    var k := BisectRight(a, x);
    a[..k] + [x] + a[k..]
  }

  /** Where the elements of `a[..k] + [x] + a[k..]` come from. */
  lemma SpliceShape(a: seq<real>, x: real, k: nat)
    requires k <= |a|
    ensures |a[..k] + [x] + a[k..]| == |a| + 1
    ensures multiset(a[..k] + [x] + a[k..]) == multiset(a) + multiset{x}
    ensures forall i :: 0 <= i < k ==> (a[..k] + [x] + a[k..])[i] == a[i]
    ensures (a[..k] + [x] + a[k..])[k] == x
    ensures forall i :: k < i <= |a| ==> (a[..k] + [x] + a[k..])[i] == a[i - 1]
  {
    assert a == a[..k] + a[k..];
  }

  /** Inserting into a sorted list keeps it sorted and adds exactly one `x`. */
  lemma InsertSorted(a: seq<real>, x: real)
    requires Sorted(a)
    ensures Sorted(Insert(a, x)) && |Insert(a, x)| == |a| + 1
    ensures multiset(Insert(a, x)) == multiset(a) + multiset{x}
  {
    var k := BisectRight(a, x);
    BisectRightSplits(a, x);
    SpliceShape(a, x, k);
    var r := a[..k] + [x] + a[k..];
    assert r == Insert(a, x);
    forall i, j | 0 <= i <= j < |r|
      ensures r[i] <= r[j]
    {
      if j < k {
        assert a[i] <= a[j];
      } else if i > k {
        assert a[i - 1] <= a[j - 1];
      } else if i < k && j > k {
        assert a[i] <= a[j - 1];
      }
    }
  }

  /** `bisect.insort`: binary search for the insertion point, then insert. */
  method Insort(a: seq<real>, x: real) returns (r: seq<real>)
    requires Sorted(a)
    ensures r == Insert(a, x)
    ensures Sorted(r) && multiset(r) == multiset(a) + multiset{x}
  {
    var lo, hi := 0, |a|;
    while lo < hi
      invariant 0 <= lo <= hi <= |a|
      invariant forall i :: 0 <= i < lo ==> a[i] <= x
      invariant forall i :: hi <= i < |a| ==> x < a[i]
    {
      var mid := (lo + hi) / 2;
      if x < a[mid] {
        hi := mid;
      } else {
        lo := mid + 1;
      }
    }
    BisectRightUnique(a, x, lo);
    InsertSorted(a, x);
    r := a[..lo] + [x] + a[lo..];
  }
}
