/** Why shortest job first: the total of the turnaround times is least when the bursts ascend. */
module Sjf {
  import opened Selection
  import opened Sequences

  /** The total of all completion times when tasks with these bursts run from time `start`. */
  function Total(bursts: seq<int>, start: int): int {
    if bursts == [] then 0
    else start + bursts[0] + Total(bursts[1..], start + bursts[0])
  }

  lemma {:induction false} SumTail(xs: seq<int>, n: nat)
    requires 0 < n <= |xs|
    ensures Sum(xs, n) == xs[0] + Sum(xs[1..], n - 1)
  {
    if n == 1 {
    } else {
      SumTail(xs, n - 1);
    }
  }

  /** The sum of the first n completion times: each task ends when it and all before it have run. */
  function EndSum(bursts: seq<int>, start: int, n: nat): int
    requires n <= |bursts|
  {
    if n == 0 then 0 else EndSum(bursts, start, n - 1) + (start + Sum(bursts, n))
  }

  lemma {:induction false} EndSumTail(bursts: seq<int>, start: int, n: nat)
    requires 0 < n <= |bursts|
    ensures EndSum(bursts, start, n)
            == start + bursts[0] + EndSum(bursts[1..], start + bursts[0], n - 1)
  {
    SumTail(bursts, n);
    if n == 1 {
    } else {
      EndSumTail(bursts, start, n - 1);
    }
  }

  /** Total is what it claims to be: the sum of the completion times of all the tasks. */
  lemma {:induction false} TotalIsSumOfEnds(bursts: seq<int>, start: int)
    ensures Total(bursts, start) == EndSum(bursts, start, |bursts|)
  {
    if bursts == [] {
    } else {
      TotalIsSumOfEnds(bursts[1..], start + bursts[0]);
      EndSumTail(bursts, start, |bursts|);
    }
  }

  /** Moving a least burst to the front never makes the total larger. */
  lemma {:induction false} MoveLeastToFront(p: seq<int>, k: nat, start: int)
    requires k < |p| && forall i :: 0 <= i < |p| ==> p[k] <= p[i]
    ensures start + p[k] + Total(RemoveAt(p, k), start + p[k]) <= Total(p, start)
    decreases k
  {
    if k > 0 {
      var x, m, t := p[0], p[k], p[1..];
      MoveLeastToFront(t, k - 1, start + x);
      assert RemoveAt(p, k)[0] == x && RemoveAt(p, k)[1..] == RemoveAt(t, k - 1);
      assert start + m + x == start + x + m;
    } else {
      assert RemoveAt(p, 0) == p[1..];
    }
  }

  lemma HeadIn(s: seq<int>, p: seq<int>) returns (k: nat)
    requires s != [] && Ascending(s) && multiset(s) == multiset(p)
    ensures k < |p| && p[k] == s[0] && forall i :: 0 <= i < |p| ==> p[k] <= p[i]
    ensures multiset(s[1..]) == multiset(RemoveAt(p, k))
  {
    assert s[0] in multiset(p);
    k :| 0 <= k < |p| && p[k] == s[0];
    forall i | 0 <= i < |p| ensures p[k] <= p[i] {
      assert p[i] in multiset(s);
    }
    RemoveAtMultiset(p, k);
    assert s == [s[0]] + s[1..];
    assert multiset(s[1..]) == multiset(s) - multiset{s[0]};
  }

  lemma {:induction false} AscendingIsBest(s: seq<int>, p: seq<int>, start: int)
    requires Ascending(s) && multiset(s) == multiset(p)
    ensures Total(s, start) <= Total(p, start)
    decreases |s|
  {
    if s != [] {
      var k := HeadIn(s, p);
      AscendingIsBest(s[1..], RemoveAt(p, k), start + s[0]);
      MoveLeastToFront(p, k, start);
    } else {
      assert |multiset(p)| == |p|;
    }
  }

  lemma KeysRemoveAt(xs: seq<Item>, k: nat)
    requires k < |xs|
    ensures multiset(Keys(xs)) == multiset{xs[k].key} + multiset(Keys(RemoveAt(xs, k)))
  {
    RemoveAtIndex(xs, k);
    RemoveAtIndex(Keys(xs), k);
    assert Keys(RemoveAt(xs, k)) == RemoveAt(Keys(xs), k);
    RemoveAtMultiset(Keys(xs), k);
  }

  lemma HeadElsewhere<T>(xs: seq<T>, ys: seq<T>) returns (k: nat)
    requires xs != [] && multiset(xs) == multiset(ys)
    ensures k < |ys| && ys[k] == xs[0] && multiset(xs[1..]) == multiset(RemoveAt(ys, k))
  {
    assert xs == [xs[0]] + xs[1..];
    assert xs[0] in multiset(ys);
    k :| 0 <= k < |ys| && ys[k] == xs[0];
    RemoveAtMultiset(ys, k);
    assert multiset(xs[1..]) == multiset(xs) - multiset{xs[0]};
  }

  lemma {:induction false} KeysMultiset(xs: seq<Item>, ys: seq<Item>)
    requires multiset(xs) == multiset(ys)
    ensures multiset(Keys(xs)) == multiset(Keys(ys))
    decreases |xs|
  {
    if xs == [] {
      assert |multiset(ys)| == |ys|;
    } else {
      var k := HeadElsewhere(xs, ys);
      KeysMultiset(xs[1..], RemoveAt(ys, k));
      KeysRemoveAt(ys, k);
      assert Keys(xs) == [xs[0].key] + Keys(xs[1..]);
    }
  }

  /** No order of the same tasks has a smaller total turnaround than the one SJF selects. */
  lemma SjfIsOptimal(tasks: seq<Item>, other: seq<Item>)
    requires multiset(other) == multiset(tasks)
    ensures Total(Keys(Select(tasks)), 0) <= Total(Keys(other), 0)
  {
    SelectPermutes(tasks);
    SelectAscends(tasks);
    KeysMultiset(Select(tasks), other);
    AscendingIsBest(Keys(Select(tasks)), Keys(other), 0);
  }

  // ---------- waiting ----------

  /** The total of all start times. */
  function Waits(bursts: seq<int>, start: int): int {
    if bursts == [] then 0 else start + Waits(bursts[1..], start + bursts[0])
  }

  /** Each task waits for its turnaround time less its burst. */
  lemma {:induction false} WaitsAreTotalLessBursts(bursts: seq<int>, start: int)
    ensures Waits(bursts, start) == Total(bursts, start) - Sum(bursts, |bursts|)
  {
    if bursts == [] {
    } else {
      WaitsAreTotalLessBursts(bursts[1..], start + bursts[0]);
      SumTail(bursts, |bursts|);
    }
  }

  lemma {:induction false} SumRemoveAt(xs: seq<int>, k: nat, n: nat)
    requires k < n <= |xs|
    ensures Sum(xs, n) == xs[k] + Sum(RemoveAt(xs, k), n - 1)
    decreases n
  {
    RemoveAtIndex(xs, k);
    if k == n - 1 {
      SumSame(xs, RemoveAt(xs, k), k);
    } else {
      SumRemoveAt(xs, k, n - 1);
    }
  }

  /** The sum does not depend on the order. */
  lemma {:induction false} SumPermutes(xs: seq<int>, ys: seq<int>)
    requires multiset(xs) == multiset(ys)
    ensures Sum(xs, |xs|) == Sum(ys, |ys|)
    decreases |xs|
  {
    if xs == [] {
      assert |multiset(ys)| == |ys|;
    } else {
      var k := HeadElsewhere(xs, ys);
      SumPermutes(xs[1..], RemoveAt(ys, k));
      SumTail(xs, |xs|);
      SumRemoveAt(ys, k, |ys|);
    }
  }

  /** No order of the same tasks has a smaller total wait than the one SJF selects. */
  lemma SjfWaitsLeast(tasks: seq<Item>, other: seq<Item>)
    requires multiset(other) == multiset(tasks)
    ensures Waits(Keys(Select(tasks)), 0) <= Waits(Keys(other), 0)
  {
    var order := Select(tasks);
    SjfIsOptimal(tasks, other);
    SelectPermutes(tasks);
    KeysMultiset(order, other);
    SumPermutes(Keys(order), Keys(other));
    WaitsAreTotalLessBursts(Keys(order), 0);
    WaitsAreTotalLessBursts(Keys(other), 0);
  }

  // ---------- the sum the program computes ----------

  ghost predicate InRange(xs: seq<Item>, n: nat) {
    forall i :: 0 <= i < |xs| ==> xs[i].tid < n
  }

  /** The sum of the array entries of the first n items. */
  function GatherSum(xs: seq<Item>, a: seq<int>, n: nat): int
    requires n <= |xs| && InRange(xs, |a|)
  {
    if n == 0 then 0 else GatherSum(xs, a, n - 1) + a[xs[n - 1].tid]
  }

  lemma {:induction false} GatherSame(xs: seq<Item>, ys: seq<Item>, a: seq<int>, n: nat)
    requires n <= |xs| && n <= |ys| && InRange(xs, |a|) && InRange(ys, |a|) && xs[..n] == ys[..n]
    ensures GatherSum(xs, a, n) == GatherSum(ys, a, n)
  {
    if n == 0 {
    } else {
      assert xs[n - 1] == xs[..n][n - 1] == ys[n - 1];
      assert xs[..n - 1] == xs[..n][..n - 1] == ys[..n - 1];
      GatherSame(xs, ys, a, n - 1);
    }
  }

  lemma RemovedInRange(xs: seq<Item>, k: nat, n: nat)
    requires InRange(xs, n) && k < |xs|
    ensures InRange(RemoveAt(xs, k), n)
  {
  }

  lemma {:induction false} GatherRemove(xs: seq<Item>, a: seq<int>, k: nat, n: nat)
    requires k < n <= |xs| && InRange(xs, |a|) && InRange(RemoveAt(xs, k), |a|)
    ensures GatherSum(xs, a, n) == a[xs[k].tid] + GatherSum(RemoveAt(xs, k), a, n - 1)
    decreases n
  {
    if k < n - 1 {
      assert RemoveAt(xs, k)[n - 2] == xs[n - 1];
      GatherRemove(xs, a, k, n - 1);
    } else {
      assert xs[..k] == RemoveAt(xs, k)[..k];
      GatherSame(xs, RemoveAt(xs, k), a, k);
    }
  }

  lemma {:induction false} GatherCons(x: Item, rest: seq<Item>, a: seq<int>, n: nat)
    requires n <= |rest| && InRange(rest, |a|) && InRange([x] + rest, |a|)
    ensures GatherSum([x] + rest, a, n + 1) == a[([x] + rest)[0].tid] + GatherSum(rest, a, n)
  {
    if n == 0 {
    } else {
      GatherCons(x, rest, a, n - 1);
      assert ([x] + rest)[n] == rest[n - 1];
    }
  }

  lemma SelectInRange(xs: seq<Item>, n: nat)
    requires InRange(xs, n)
    ensures InRange(Select(xs), n)
  {
  }

  /** Selecting only reorders, so the sum over the items stays. */
  lemma {:induction false} GatherSelect(xs: seq<Item>, a: seq<int>)
    requires InRange(xs, |a|) && InRange(Select(xs), |a|)
    ensures GatherSum(Select(xs), a, |xs|) == GatherSum(xs, a, |xs|)
    decreases |xs|
  {
    if xs == [] {
    } else {
      var k := MinIndex(xs, |xs|);
      var rest := RemoveAt(xs, k);
      RemovedInRange(xs, k, |a|);
      SelectInRange(rest, |a|);
      GatherSelect(rest, a);
      GatherRemove(xs, a, k, |xs|);
      GatherCons(xs[k], Select(rest), a, |rest|);
    }
  }

  lemma KeysSnoc(xs: seq<Item>, x: Item)
    ensures Keys(xs + [x]) == Keys(xs) + [x.key]
    ensures forall i :: 0 <= i <= |xs| ==> Sum(Keys(xs + [x]), i) == Sum(Keys(xs), i)
    ensures Sum(Keys(xs + [x]), |xs| + 1) == Sum(Keys(xs), |xs|) + x.key
  {
    assert Keys(xs + [x]) == Keys(xs) + [x.key];
    forall i | 0 <= i <= |xs| ensures Sum(Keys(xs + [x]), i) == Sum(Keys(xs), i) {
      SumSame(Keys(xs + [x]), Keys(xs), i);
    }
  }

  lemma {:induction false} SumSame(xs: seq<int>, ys: seq<int>, n: nat)
    requires n <= |xs| && n <= |ys| && forall i :: 0 <= i < n ==> xs[i] == ys[i]
    ensures Sum(xs, n) == Sum(ys, n)
  {
    if n == 0 {
    } else {
      SumSame(xs, ys, n - 1);
    }
  }

  /** Over the whole newest-first list, that is the sum of the array. */
  lemma {:induction false} GatherAll(xs: seq<Item>, a: seq<int>, n: nat)
    requires |xs| == |a| && n <= |a| && InRange(xs, |a|)
    requires forall i :: 0 <= i < |xs| ==> xs[i].tid == |a| - 1 - i
    ensures GatherSum(xs, a, n) == Sum(a, |a|) - Sum(a, |a| - n)
  {
    if n == 0 {
    } else {
      GatherAll(xs, a, n - 1);
    }
  }

  /** The array has the end time of each item in its order. */
  ghost predicate HoldsEnds(order: seq<Item>, a: seq<int>) {
    InRange(order, |a|) && forall i :: 0 <= i < |order| ==> a[order[i].tid] == Sum(Keys(order), i + 1)
  }

  lemma {:induction false} GatherEnds(order: seq<Item>, a: seq<int>, n: nat)
    requires HoldsEnds(order, a) && n <= |order|
    ensures GatherSum(order, a, n) == EndSum(Keys(order), 0, n)
  {
    if n == 0 {
    } else {
      GatherEnds(order, a, n - 1);
      assert a[order[n - 1].tid] == Sum(Keys(order), n);
    }
  }

  /** The tasks numbered from the end of the list, in the order in which they ran. */
  lemma SelectedSum(xs: seq<Item>, a: seq<int>)
    requires |xs| == |a| && forall i :: 0 <= i < |xs| ==> xs[i].tid == |xs| - 1 - i
    ensures InRange(Select(xs), |a|) && GatherSum(Select(xs), a, |xs|) == Sum(a, |xs|)
  {
    assert InRange(xs, |a|) && Sum(a, 0) == 0;
    hide *;
    SelectInRange(xs, |a|);
    GatherSelect(xs, a);
    GatherAll(xs, a, |xs|);
  }

  /** The sum of the turnaround array, which the program divides by the number of tasks, is the
      total of the order in which the tasks ran. */
  lemma ArraySum(xs: seq<Item>, order: seq<Item>, turnaround: seq<int>)
    requires order == Select(xs) && |xs| == |turnaround| && HoldsEnds(order, turnaround)
    requires forall i :: 0 <= i < |xs| ==> xs[i].tid == |xs| - 1 - i
    ensures Sum(turnaround, |xs|) == Total(Keys(order), 0)
  {
    hide *;
    TotalIsSumOfEnds(Keys(order), 0);
    SelectedSum(xs, turnaround);
    GatherEnds(order, turnaround, |xs|);
  }

  /** The array has the start time of each item in its order. */
  ghost predicate HoldsStarts(order: seq<Item>, a: seq<int>) {
    InRange(order, |a|) && forall i :: 0 <= i < |order| ==> a[order[i].tid] == Sum(Keys(order), i)
  }

  lemma {:induction false} GatherStarts(order: seq<Item>, a: seq<int>, n: nat)
    requires HoldsStarts(order, a) && n <= |order|
    ensures GatherSum(order, a, n) == EndSum(Keys(order), 0, n) - Sum(Keys(order), n)
  {
    if n == 0 {
    } else {
      GatherStarts(order, a, n - 1);
      assert a[order[n - 1].tid] == Sum(Keys(order), n - 1);
    }
  }

  /** The sum of the response array, which is also the average wait times the number of tasks, is
      the total wait of the order in which the tasks ran. */
  lemma ResponseSum(xs: seq<Item>, order: seq<Item>, response: seq<int>)
    requires order == Select(xs) && |xs| == |response| && HoldsStarts(order, response)
    requires forall i :: 0 <= i < |xs| ==> xs[i].tid == |xs| - 1 - i
    ensures Sum(response, |xs|) == Waits(Keys(order), 0)
  {
    hide *;
    TotalIsSumOfEnds(Keys(order), 0);
    WaitsAreTotalLessBursts(Keys(order), 0);
    SelectedSum(xs, response);
    GatherStarts(order, response, |xs|);
  }
}
