/** The in-place quicksort of Project3/fork-join/Quicksort/Quicksort.java. A permutation is given
    by the exchanges that make it, so that it says which positions it touches. */
module Quicksort {

  function Swap(s: seq<int>, i: nat, j: nat): (t: seq<int>)
    requires i < |s| && j < |s|
    ensures |t| == |s|
  {
    s[i := s[j]][j := s[i]]
  }

  ghost predicate Within(w: seq<(nat, nat)>, lo: int, hi: int) {
    forall k :: 0 <= k < |w| ==> lo <= w[k].0 <= hi && lo <= w[k].1 <= hi
  }

  /** The exchanges of w, one after another. */
  function Swaps(s: seq<int>, w: seq<(nat, nat)>): (t: seq<int>)
    requires Within(w, 0, |s| - 1)
    ensures |t| == |s|
    decreases |w|
  {
    if w == [] then s else Swaps(Swap(s, w[0].0, w[0].1), w[1..])
  }

  lemma {:induction false} SwapsConcat(s: seq<int>, v: seq<(nat, nat)>, w: seq<(nat, nat)>)
    requires Within(v, 0, |s| - 1) && Within(w, 0, |s| - 1)
    ensures Swaps(s, v + w) == Swaps(Swaps(s, v), w)
    decreases |v|
  {
    if v == [] {
      assert v + w == w;
    } else {
      assert (v + w)[1..] == v[1..] + w;
      SwapsConcat(Swap(s, v[0].0, v[0].1), v[1..], w);
    }
  }

  lemma {:induction false} SwapsMultiset(s: seq<int>, w: seq<(nat, nat)>)
    requires Within(w, 0, |s| - 1)
    ensures multiset(Swaps(s, w)) == multiset(s)
    decreases |w|
  {
    if w == [] {
    } else {
      SwapsMultiset(Swap(s, w[0].0, w[0].1), w[1..]);
    }
  }

  /** Every element of the range is below x; or none is. */
  ghost predicate Below(s: seq<int>, lo: int, hi: int, x: int) {
    forall k :: 0 <= k < |s| && lo <= k <= hi ==> s[k] < x
  }

  ghost predicate NotBelow(s: seq<int>, lo: int, hi: int, x: int) {
    forall k :: 0 <= k < |s| && lo <= k <= hi ==> s[k] >= x
  }

  ghost predicate SameOutside(s: seq<int>, t: seq<int>, lo: int, hi: int) {
    |s| == |t| && forall k :: 0 <= k < |s| && !(lo <= k <= hi) ==> s[k] == t[k]
  }

  /** Exchanges within a range leave the rest alone, and the range's bounds. */
  lemma {:induction false} SwapsStayWithin(s: seq<int>, w: seq<(nat, nat)>, lo: int, hi: int, x: int)
    requires Within(w, lo, hi) && 0 <= lo && hi < |s|
    ensures SameOutside(s, Swaps(s, w), lo, hi)
    ensures Below(s, lo, hi, x) ==> Below(Swaps(s, w), lo, hi, x)
    ensures NotBelow(s, lo, hi, x) ==> NotBelow(Swaps(s, w), lo, hi, x)
    decreases |w|
  {
    if w == [] {
    } else {
      SwapsStayWithin(Swap(s, w[0].0, w[0].1), w[1..], lo, hi, x);
    }
  }

  ghost predicate Sorted(s: seq<int>, lo: int, hi: int) {
    forall i, j :: 0 <= i < j < |s| && lo <= i && j <= hi ==> s[i] <= s[j]
  }

  /** Sorted parts on either side of the pivot make the whole sorted. */
  lemma JoinSorted(s: seq<int>, lo: int, mid: int, hi: int)
    requires 0 <= lo <= mid <= hi < |s|
    requires Sorted(s, lo, mid - 1) && Sorted(s, mid + 1, hi)
    requires Below(s, lo, mid - 1, s[mid]) && NotBelow(s, mid + 1, hi, s[mid])
    ensures Sorted(s, lo, hi)
  {
  }

  lemma LeastFirst(s: seq<int>, x: int)
    requires Sorted(s, 0, |s| - 1) && x in multiset(s)
    ensures s[0] <= x
  {
  }

  lemma TailMultiset(s: seq<int>)
    requires s != []
    ensures multiset(s[1..]) == multiset(s) - multiset{s[0]}
  {
    assert s == [s[0]] + s[1..];
  }

  lemma TailSorted(s: seq<int>)
    requires s != [] && Sorted(s, 0, |s| - 1)
    ensures Sorted(s[1..], 0, |s| - 2)
  {
  }

  lemma HeadAndTail(s: seq<int>, t: seq<int>)
    requires |s| == |t| > 0 && s[0] == t[0] && s[1..] == t[1..]
    ensures s == t
  {
  }

  /** There is only one sorted permutation. */
  lemma {:induction false} SortedUnique(s: seq<int>, t: seq<int>)
    requires Sorted(s, 0, |s| - 1) && Sorted(t, 0, |t| - 1) && multiset(s) == multiset(t)
    ensures s == t
    decreases |s|
  {
    hide Sorted;
    assert |s| == |multiset(s)| == |multiset(t)| == |t|;
    if s == [] {
    } else {
      assert t[0] in multiset(t) && s[0] in multiset(s);
      LeastFirst(s, t[0]);
      LeastFirst(t, s[0]);
      TailMultiset(s);
      TailMultiset(t);
      TailSorted(s);
      TailSorted(t);
      SortedUnique(s[1..], t[1..]);
      HeadAndTail(s, t);
    }
  }

  /** What holds at each head of the outer loop: the elements passed on the left are below the
      pivot, those passed on the right are not, and neither is the one at `right`. */
  ghost predicate Partitioning(s: seq<int>, begin: nat, end: nat, left: nat, right: nat, pivot: int) {
    && begin <= left <= right <= end < |s| && s[end] == pivot && s[right] >= pivot
    && Below(s, begin, left - 1, pivot) && NotBelow(s, right + 1, end, pivot)
  }

  /** The inner loops and the exchange. */
  method Narrow(a: array<int>, begin: nat, end: nat, l: nat, r: nat, midValue: int) returns (left: nat, right: nat)
    requires Partitioning(a[..], begin, end, l, r, midValue) && l < r
    modifies a
    ensures begin <= left <= right <= end < a.Length && a[..] == Swap(old(a[..]), left, right)
    ensures Partitioning(a[..], begin, end, left, right, midValue) && right - left < r - l
  {
    left, right := l, r;
    while left < right && a[left] < midValue
      invariant l <= left <= right && Below(a[..], begin, left - 1, midValue)
    {
      left := left + 1;
    }
    while left < right && a[right] >= midValue
      invariant left <= right <= r && NotBelow(a[..], right + 1, end, midValue)
      invariant left == right ==> a[right] >= midValue
      invariant right == r ==> a[right] >= midValue
    {
      right := right - 1;
    }
    Exchange(a, left, right);
  }

  /** The outer loop. */
  method Scan(a: array<int>, begin: nat, end: nat, midValue: int) returns (left: nat, ghost w: seq<(nat, nat)>)
    requires begin < end < a.Length && midValue == a[end]
    modifies a
    ensures Partitioning(a[..], begin, end, left, left, midValue)
    ensures Within(w, begin, end) && a[..] == Swaps(old(a[..]), w)
  {
    left := begin;
    var right: nat := end;
    w := [];
    while left < right
      invariant Partitioning(a[..], begin, end, left, right, midValue)
      invariant Within(w, begin, end) && a[..] == Swaps(old(a[..]), w)
      decreases right - left
    {
      left, right := Narrow(a, begin, end, left, right, midValue);
      hide Partitioning;
      w := Snoc(old(a[..]), w, left, right);
    }
  }

  /** The partition loops and the final exchange. */
  method Partition(a: array<int>, begin: nat, end: nat) returns (left: nat, ghost w: seq<(nat, nat)>)
    requires begin < end < a.Length
    modifies a
    ensures begin <= left <= end && Within(w, begin, end) && a[..] == Swaps(old(a[..]), w)
    ensures Below(a[..], begin, left - 1, a[left]) && NotBelow(a[..], left + 1, end, a[left])
    ensures a[left] == old(a[end])
  {
    var midValue := a[end];
    left, w := Scan(a, begin, end, midValue);
    PlacePivot(a, begin, end, left, midValue);
    w := Snoc(old(a[..]), w, left, end);
  }

  /** The final exchange. The branch `else left++` is never taken. */
  method PlacePivot(a: array<int>, begin: nat, end: nat, left: nat, midValue: int)
    requires Partitioning(a[..], begin, end, left, left, midValue)
    modifies a
    ensures begin <= left <= end < a.Length && a[..] == Swap(old(a[..]), left, end) && a[left] == midValue
    ensures Below(a[..], begin, left - 1, midValue) && NotBelow(a[..], left + 1, end, midValue)
  {
    if a[left] >= a[end] {
      Exchange(a, left, end);
    } else {
      assert false;
    }
  }

  method Exchange(a: array<int>, i: nat, j: nat)
    requires i < a.Length && j < a.Length
    modifies a
    ensures a[..] == Swap(old(a[..]), i, j)
  {
    var temp := a[j];
    a[j] := a[i];
    a[i] := temp;
  }

  lemma Snoc(s: seq<int>, w: seq<(nat, nat)>, i: nat, j: nat) returns (v: seq<(nat, nat)>)
    requires Within(w, 0, |s| - 1) && i < |s| && j < |s|
    ensures v == w + [(i, j)] && Within(v, 0, |s| - 1) && Swaps(s, v) == Swap(Swaps(s, w), i, j)
  {
    v := w + [(i, j)];
    SwapsConcat(s, w, [(i, j)]);
  }

  /** Sort.compute, with each forked task run when it is joined. */
  method Compute(a: array<int>, begin: int, end: int) returns (ghost w: seq<(nat, nat)>)
    requires 0 <= begin <= end + 1 <= a.Length
    modifies a
    ensures Within(w, begin, end) && a[..] == Swaps(old(a[..]), w)
    ensures Sorted(a[..], begin, end)
    decreases end + 1 - begin
  {
    if begin >= end {
      return [];
    }
    ghost var s0 := a[..];
    var left: int;
    left, w := Partition(a, begin, end);
    ghost var s1 := a[..];
    ghost var v := Compute(a, begin, left - 1);
    ghost var u := Compute(a, left + 1, end);
    PartsSorted(s1, v, u, begin, left, end);
    w := ConcatThree(s0, w, v, u, begin, end);
  }

  lemma ConcatThree(s: seq<int>, w: seq<(nat, nat)>, v: seq<(nat, nat)>, u: seq<(nat, nat)>, lo: nat, hi: int)
    returns (r: seq<(nat, nat)>)
    requires hi < |s| && Within(w, lo, hi) && Within(v, lo, hi) && Within(u, lo, hi)
    ensures Within(r, lo, hi) && Swaps(s, r) == Swaps(Swaps(Swaps(s, w), v), u)
  {
    SwapsConcat(s, w, v);
    SwapsConcat(s, w + v, u);
    r := w + v + u;
  }

  /** Sorting both sides of a partition sorts the whole, and neither side disturbs the other. */
  lemma PartsSorted(s: seq<int>, v: seq<(nat, nat)>, u: seq<(nat, nat)>, lo: int, mid: int, hi: int)
    requires 0 <= lo <= mid <= hi < |s| && Within(v, lo, mid - 1) && Within(u, mid + 1, hi)
    requires Below(s, lo, mid - 1, s[mid]) && NotBelow(s, mid + 1, hi, s[mid])
    requires Sorted(Swaps(s, v), lo, mid - 1) && Sorted(Swaps(Swaps(s, v), u), mid + 1, hi)
    ensures Sorted(Swaps(Swaps(s, v), u), lo, hi)
  {
    SwapsStayWithin(s, v, lo, mid - 1, s[mid]);
    SwapsStayWithin(Swaps(s, v), u, mid + 1, hi, s[mid]);
    JoinSorted(Swaps(Swaps(s, v), u), lo, mid, hi);
  }

  /** The whole array ends up as the sorted permutation of itself. */
  method Sort(a: array<int>)
    modifies a
    ensures Sorted(a[..], 0, a.Length - 1) && multiset(a[..]) == multiset(old(a[..]))
  {
    ghost var w := Compute(a, 0, a.Length - 1);
    SwapsMultiset(old(a[..]), w);
  }
}
