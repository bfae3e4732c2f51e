/** Repeated selection of the least key from a list, as the schedulers of Project4 do with the
    burst (SJF) and with the priority (priority round robin). */
module Selection {
  import opened Sequences

  datatype Item = Item(key: int, tid: nat)

  /** The scan keeps the first of the least keys among the first n. */
  function MinIndex(xs: seq<Item>, n: nat): (k: nat)
    requires 0 < n <= |xs|
    ensures k < n
    ensures forall i :: 0 <= i < n ==> xs[k].key <= xs[i].key
    ensures forall i :: 0 <= i < k ==> xs[k].key < xs[i].key
  {
    if n == 1 then 0
    else
      var k := MinIndex(xs, n - 1);
      if xs[n - 1].key < xs[k].key then n - 1 else k
  }

  function RemoveAt<T>(xs: seq<T>, k: nat): (r: seq<T>)
    requires k < |xs|
    ensures |r| == |xs| - 1
  {
    xs[..k] + xs[k + 1..]
  }

  /** The items in the order in which they are selected and deleted. */
  function Select(xs: seq<Item>): (r: seq<Item>)
    ensures |r| == |xs|
    decreases |xs|
  {
    if xs == [] then [] else
      var k := MinIndex(xs, |xs|);
      [xs[k]] + Select(RemoveAt(xs, k))
  }

  lemma RemoveAtIndex<T>(xs: seq<T>, k: nat)
    requires k < |xs|
    ensures forall j {:trigger RemoveAt(xs, k)[j]} :: 0 <= j < |xs| - 1 ==>
              RemoveAt(xs, k)[j] == if j < k then xs[j] else xs[j + 1]
  {
  }

  lemma RemoveAtMultiset<T>(xs: seq<T>, k: nat)
    requires k < |xs|
    ensures multiset(xs) == multiset{xs[k]} + multiset(RemoveAt(xs, k))
  {
    assert xs == xs[..k] + [xs[k]] + xs[k + 1..];
  }

  lemma SelectNext(done: seq<Item>, items: seq<Item>, k: nat)
    requires items != [] && k == MinIndex(items, |items|)
    ensures (done + [items[k]]) + Select(RemoveAt(items, k)) == done + Select(items)
  {
    Associative(done, [items[k]], Select(RemoveAt(items, k)));
  }

  lemma {:induction false} SelectPermutes(xs: seq<Item>)
    ensures multiset(Select(xs)) == multiset(xs)
    decreases |xs|
  {
    if xs == [] {
    } else {
      var k := MinIndex(xs, |xs|);
      RemoveAtMultiset(xs, k);
      SelectPermutes(RemoveAt(xs, k));
    }
  }

  lemma SelectedFrom(xs: seq<Item>, x: Item)
    ensures x in Select(xs) <==> x in xs
  {
  }

  ghost predicate NewestFirst(xs: seq<Item>) {
    forall i, j :: 0 <= i < j < |xs| ==> xs[i].tid > xs[j].tid
  }

  /** A smaller key, or the same key and newer. */
  ghost predicate Before(x: Item, y: Item) {
    x.key < y.key || (x.key == y.key && x.tid > y.tid)
  }

  /** Ascending keys; among equal keys the newer first. */
  ghost predicate Ordered(xs: seq<Item>) {
    forall i, j :: 0 <= i < j < |xs| ==> Before(xs[i], xs[j])
  }

  lemma ConsOrders(x: Item, tail: seq<Item>)
    requires Ordered(tail) && forall j :: 0 <= j < |tail| ==> Before(x, tail[j])
    ensures Ordered([x] + tail)
  {
  }

  lemma MinIsBefore(xs: seq<Item>, k: nat)
    requires NewestFirst(xs) && xs != [] && k == MinIndex(xs, |xs|)
    ensures NewestFirst(RemoveAt(xs, k))
    ensures forall j :: 0 <= j < |xs| - 1 ==> Before(xs[k], RemoveAt(xs, k)[j])
  {
    RemoveAtIndex(xs, k);
  }

  lemma {:induction false} SelectOrders(xs: seq<Item>)
    requires NewestFirst(xs)
    ensures Ordered(Select(xs))
    decreases |xs|
  {
    if xs == [] {
    } else {
      var k := MinIndex(xs, |xs|);
      var rest := RemoveAt(xs, k);
      MinIsBefore(xs, k);
      SelectOrders(rest);
      forall j | 0 <= j < |rest| ensures Before(xs[k], Select(rest)[j]) {
        SelectedFrom(rest, Select(rest)[j]);
      }
      hide Ordered, Before;
      ConsOrders(xs[k], Select(rest));
    }
  }

  /** Every key at least as large as all before it. */
  ghost predicate Ascending(keys: seq<int>) {
    forall i, j :: 0 <= i < j < |keys| ==> keys[i] <= keys[j]
  }

  function Keys(xs: seq<Item>): (keys: seq<int>)
    ensures |keys| == |xs| && forall i :: 0 <= i < |xs| ==> keys[i] == xs[i].key
  {
    if xs == [] then [] else [xs[0].key] + Keys(xs[1..])
  }

  lemma {:induction false} SelectAscends(xs: seq<Item>)
    ensures Ascending(Keys(Select(xs)))
    decreases |xs|
  {
    if xs == [] {
    } else {
      var k := MinIndex(xs, |xs|);
      var rest := RemoveAt(xs, k);
      SelectAscends(rest);
      var r := Select(xs);
      forall j | 0 < j < |r| ensures xs[k].key <= r[j].key && r[j].key == Keys(Select(rest))[j - 1] {
        assert r[j] == Select(rest)[j - 1];
        SelectedFrom(rest, r[j]);
      }
    }
  }

  function Reverse<T>(xs: seq<T>): (r: seq<T>)
    ensures |r| == |xs| && forall i :: 0 <= i < |xs| ==> r[i] == xs[|xs| - 1 - i]
  {
    if xs == [] then [] else Reverse(xs[1..]) + [xs[0]]
  }

  lemma ReverseSnoc<T>(xs: seq<T>, x: T)
    ensures Reverse(xs + [x]) == [x] + Reverse(xs)
  {
  }

  lemma {:induction false} ReverseMultiset<T>(xs: seq<T>)
    ensures multiset(Reverse(xs)) == multiset(xs)
  {
    if xs == [] {
    } else {
      ReverseMultiset(xs[1..]);
      assert xs == [xs[0]] + xs[1..];
    }
  }

  /** Selecting by priority and inserting each at the front sorts by descending priority, ties
      in the order the tasks were added: a stable sort of the list read oldest first. */
  lemma PriorityOrder(xs: seq<Item>)
    requires NewestFirst(xs)
    ensures var r := Reverse(Select(xs));
            && multiset(r) == multiset(xs)
            && forall i, j :: 0 <= i < j < |r| ==>
                 r[i].key > r[j].key || (r[i].key == r[j].key && r[i].tid < r[j].tid)
  {
    SelectPermutes(xs);
    SelectOrders(xs);
    ReverseMultiset(Select(xs));
  }
}
