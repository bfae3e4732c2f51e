/** The global arrays of Project6/banker.c and the functions that update them in place. */
module BankerProgram {
  import opened Banker

  ghost function Row(a: array2<int>, i: nat): Vec
    requires i < a.Length0
    reads a
  {
    seq(a.Length1, j requires 0 <= j < a.Length1 reads a => a[i, j])
  }

  ghost function Rows(a: array2<int>): seq<Vec>
    reads a
  {
    seq(a.Length0, i requires 0 <= i < a.Length0 reads a => Row(a, i))
  }

  class Bank {
    const n: nat
    const m: nat
    const available: array<int>
    const maximum: array2<int>
    const allocation: array2<int>
    const need: array2<int>

    ghost predicate Valid() {
      && available.Length == m
      && maximum.Length0 == allocation.Length0 == need.Length0 == n
      && maximum.Length1 == allocation.Length1 == need.Length1 == m
      && maximum != allocation && maximum != need && allocation != need
    }

    ghost function Contents(): (s: State)
      requires Valid()
      reads available, allocation, need
      ensures Shaped(s) && N(s) == n && M(s) == m
    {
      State(available[..], Rows(allocation), Rows(need))
    }

    /** main's initialisation from the command line and input.txt. */
    constructor (resources: Vec, demands: seq<Vec>)
      requires forall i :: 0 <= i < |demands| ==> |demands[i]| == |resources|
      ensures Valid() && n == |demands| && m == |resources|
      ensures fresh(available) && fresh(maximum) && fresh(allocation) && fresh(need)
      ensures Contents() == Initial(demands, resources)
      ensures Rows(maximum) == demands
    {
      n, m := |demands|, |resources|;
      available := new int[|resources|](i requires 0 <= i < |resources| => resources[i]);
      maximum := new int[|demands|, |resources|];
      allocation := new int[|demands|, |resources|];
      need := new int[|demands|, |resources|];
      new;
      for i := 0 to n
        invariant available[..] == resources
        invariant forall k, j :: 0 <= k < i && 0 <= j < m ==>
                    maximum[k, j] == need[k, j] == demands[k][j]
      {
        for j := 0 to m
          invariant available[..] == resources
          invariant forall k, l :: 0 <= k < i && 0 <= l < m ==>
                      maximum[k, l] == need[k, l] == demands[k][l]
          invariant forall l :: 0 <= l < j ==> maximum[i, l] == need[i, l] == demands[i][l]
        {
          maximum[i, j] := demands[i][j];
          need[i, j] := maximum[i, j];
        }
      }
      forall i, j | 0 <= i < n && 0 <= j < m {
        allocation[i, j] := 0;
      }
      assert forall i :: 0 <= i < n ==> Row(need, i) == demands[i] == Row(maximum, i);
      assert forall i :: 0 <= i < n ==> Row(allocation, i) == Zero(m);
    }

    /** vleq on a row of a matrix and a vector. */
    method RowLeq(a: array2<int>, i: nat, b: array<int>) returns (leq: bool)
      requires i < a.Length0 && a.Length1 == b.Length
      ensures leq == Vleq(Row(a, i), b[..])
    {
      for j := 0 to b.Length
        invariant forall k :: 0 <= k < j ==> a[i, k] <= b[k]
      {
        if a[i, j] > b[j] {
          assert Row(a, i)[j] > b[..][j];
          return false;
        }
      }
      return true;
    }

    method LeqVector(v: Vec, b: array<int>) returns (leq: bool)
      requires |v| == b.Length
      ensures leq == Vleq(v, b[..])
    {
      for j := 0 to b.Length
        invariant forall k :: 0 <= k < j ==> v[k] <= b[k]
      {
        if v[j] > b[j] {
          return false;
        }
      }
      return true;
    }

    method LeqRow(v: Vec, a: array2<int>, i: nat) returns (leq: bool)
      requires i < a.Length0 && a.Length1 == |v|
      ensures leq == Vleq(v, Row(a, i))
    {
      for j := 0 to |v|
        invariant forall k :: 0 <= k < j ==> v[k] <= a[i, k]
      {
        if v[j] > a[i, j] {
          assert v[j] > Row(a, i)[j];
          return false;
        }
      }
      return true;
    }

    ghost predicate Scanning(work: array<int>, finish: array<bool>, s: State, fin: set<nat>)
      requires Valid()
      reads available, allocation, need, work, finish
    {
      && s == Contents() && work.Length == m && finish.Length == n && work != available
      && work[..] == Work(s, fin)
      && forall i :: 0 <= i < n ==> (finish[i] <==> i in fin)
    }

    /** safe(): the customers the rescanning loop finishes are all of them. */
    method SafeCheck() returns (ok: bool)
      requires Valid()
      ensures ok == GreedySafe(Contents())
      ensures OnlyLastNegative(Contents().allocation) ==> ok == Safe(Contents())
    {
      var work := new int[m](i requires 0 <= i < m reads available requires available.Length == m => available[i]);
      var finish := new bool[n](_ => false);
      AvailableIsWork(Contents());
      ghost var fin := FinishAll(work, finish, Contents());
      ok := AllFinished(finish, fin);
      GreedySafeIff(Contents());
      hide Greedy, GreedySafe, Members, Safe, OnlyLastNegative;
      if OnlyLastNegative(Contents().allocation) {
        GreedyDecidesSafe(Contents());
      }
    }

    /** Rescan from customer 0 after each customer that can finish. */
    method FinishAll(work: array<int>, finish: array<bool>, ghost s: State) returns (ghost fin: set<nat>)
      requires Valid() && Scanning(work, finish, s, {})
      modifies work, finish
      ensures Scanning(work, finish, s, fin)
      ensures fin == Members(Greedy(s, {}))
    {
      fin := {};
      var customer := 0;
      GreedyStep(s, fin);
      while customer < n
        invariant customer <= n && Scanning(work, finish, s, fin)
        invariant fin + Members(Greedy(s, fin)) == Members(Greedy(s, {}))
        invariant customer == n ==> Members(Greedy(s, fin)) == {}
        decreases Customers(n) - fin, n - customer
      {
        ghost var before := fin;
        GreedyStep(s, before);
        customer := ScanOnce(work, finish, s, before);
        fin := if customer < n then before + {customer} else before;
      }
    }

    /** One run of the inner for loop: finishes the first customer that can finish. */
    method ScanOnce(work: array<int>, finish: array<bool>, ghost s: State, ghost fin: set<nat>)
      returns (customer: nat)
      requires Valid() && Scanning(work, finish, s, fin)
      modifies work, finish
      ensures customer == FirstReady(s, fin, 0)
      ensures Valid() && Scanning(work, finish, s, if customer < n then fin + {customer} else fin)
    {
      customer := 0;
      while customer < n
        invariant customer <= n && Scanning(work, finish, s, fin)
        invariant forall k :: 0 <= k < customer ==> !Ready(s, fin, k)
      {
        var leq := RowLeq(need, customer, work);
        if !finish[customer] && leq {
          assert s.need[customer] == Row(need, customer);
          assert Ready(s, fin, customer);
          AddRow(work, customer, s, fin);
          finish[customer] := true;
          break;
        }
        customer := customer + 1;
      }
    }

    method AllFinished(finish: array<bool>, ghost fin: set<nat>) returns (all: bool)
      requires finish.Length == n && forall i :: 0 <= i < n ==> (finish[i] <==> i in fin)
      ensures all <==> Customers(n) <= fin
    {
      for i := 0 to n
        invariant forall k :: 0 <= k < i ==> k in fin
      {
        if !finish[i] {
          assert i in Customers(n);
          return false;
        }
      }
      return true;
    }

    method AddRow(work: array<int>, c: nat, ghost s: State, ghost fin: set<nat>)
      requires Valid() && c < n && s == Contents() && c !in fin
      requires work.Length == m && work != available && work[..] == Work(s, fin)
      modifies work
      ensures work[..] == Work(s, fin + {c})
    {
      for i := 0 to m
        invariant forall k :: 0 <= k < i ==> work[k] == old(work[k]) + allocation[c, k]
        invariant forall k :: i <= k < m ==> work[k] == old(work[k])
      {
        work[i] := work[i] + allocation[c, i];
      }
      WorkInsert(s, fin, c);
      assert forall k :: 0 <= k < m ==> work[..][k] == Work(s, fin)[k] + s.allocation[c][k];
    }

    /** The transfer loop: v from available to customer c. */
    method Transfer(c: nat, v: Vec)
      requires Valid() && c < n && |v| == m
      modifies available, allocation, need
      ensures Contents() == Move(old(Contents()), c, v)
    {
      for i := 0 to m
        invariant forall k :: 0 <= k < m ==>
                    && available[k] == old(available[k]) - (if k < i then v[k] else 0)
                    && allocation[c, k] == old(allocation[c, k]) + (if k < i then v[k] else 0)
                    && need[c, k] == old(need[c, k]) - (if k < i then v[k] else 0)
        invariant forall r, k :: 0 <= r < n && 0 <= k < m && r != c ==>
                    allocation[r, k] == old(allocation[r, k]) && need[r, k] == old(need[r, k])
      {
        available[i] := available[i] - v[i];
        allocation[c, i] := allocation[c, i] + v[i];
        need[c, i] := need[c, i] - v[i];
      }
      ghost var s := old(Contents());
      ghost var t := Move(s, c, v);
      assert available[..] == t.available;
      forall r | 0 <= r < n
        ensures Row(allocation, r) == t.allocation[r] && Row(need, r) == t.need[r]
      {
        assert forall k :: 0 <= k < m ==> s.allocation[r][k] == old(allocation[r, k]);
        assert forall k :: 0 <= k < m ==> s.need[r][k] == old(need[r, k]);
      }
    }

    /** The entries of the state are those of the arrays. */
    lemma Entries()
      requires Valid()
      ensures forall j :: 0 <= j < m ==> Contents().available[j] == available[j]
      ensures forall i, j :: 0 <= i < n && 0 <= j < m ==>
                Contents().allocation[i][j] == allocation[i, j] && Contents().need[i][j] == need[i, j]
    {
    }

    /** request_resources: -1 for a customer that does not exist, -2 for more than is available, -3
        for more than is needed, and otherwise 0 or 1 as the resulting state is safe or not. */
    method RequestResources(c: nat, resources: Vec) returns (code: int)
      requires Valid() && |resources| == m && InBounds(Contents(), c, resources)
      modifies available, allocation, need
      ensures (Contents(), code) == Request(old(Contents()), c, resources)
      ensures code != 0 ==> Contents() == old(Contents())
      ensures code == -1 <==> c > n
      ensures code == -2 <==> c <= n && exists j :: 0 <= j < m && resources[j] > old(available[j])
      ensures code == -3 <==> c < n && (forall j :: 0 <= j < m ==> resources[j] <= old(available[j]))
                              && exists j :: 0 <= j < m && resources[j] > old(need[c, j])
      ensures -3 <= code <= 1
      ensures code >= 0 ==> c < n
      ensures code == 0 ==> forall j :: 0 <= j < m ==>
                && available[j] == old(available[j]) - resources[j]
                && allocation[c, j] == old(allocation[c, j]) + resources[j]
                && need[c, j] == old(need[c, j]) - resources[j]
      ensures code == 0 ==> forall i, j :: 0 <= i < n && i != c && 0 <= j < m ==>
                allocation[i, j] == old(allocation[i, j]) && need[i, j] == old(need[i, j])
      ensures code >= 0 ==> forall t ::
                Transferred(old(Contents()), c, resources, t) && OnlyLastNegative(t.allocation) ==>
                  (code == 0 <==> Safe(t))
    {
      ghost var s := Contents();
      RequestAnswers(s, c, resources);
      Entries();
      code := GrantOrRollBack(c, resources);
      Entries();
      hide Request, GreedySafe, Safe, OnlyLastNegative, InBounds;
      if code >= 0 {
        ReachesSafetyCheck(s, c, resources, code);
      }
    }

    static lemma ReachesSafetyCheck(s: State, c: nat, v: Vec, code: int)
      requires Shaped(s) && c < N(s) && |v| == M(s) && InBounds(s, c, v) && Request(s, c, v).1 == code
      requires code == 0 || code == 1
      ensures forall t :: Transferred(s, c, v, t) && OnlyLastNegative(t.allocation) ==> (code == 0 <==> Safe(t))
    {
      RequestAnswers(s, c, v);
      forall t | Transferred(s, c, v, t) && OnlyLastNegative(t.allocation) ensures code == 0 <==> Safe(t) {
        hide Transferred, Safe, OnlyLastNegative, Request;
        RequestGrantsIff(s, c, v, t);
      }
    }

    /** Grants tentatively, and rolls back when the result is not safe. */
    method GrantOrRollBack(c: nat, resources: Vec) returns (code: int)
      requires Valid() && |resources| == m && InBounds(Contents(), c, resources)
      modifies available, allocation, need
      ensures (Contents(), code) == Request(old(Contents()), c, resources)
    {
      if c > n {
        return -1;
      }
      var leq := LeqVector(resources, available);
      if !leq {
        return -2;
      }
      leq := LeqRow(resources, need, c);
      if !leq {
        return -3;
      }
      Transfer(c, resources);
      var ok := SafeCheck();
      if !ok {
        MoveBack(old(Contents()), c, resources);
        Transfer(c, Neg(resources));
        return 1;
      }
      return 0;
    }

    /** release_resources: -1 for a customer that does not exist, 1 for more than it holds, and
        otherwise 0, after giving back exactly that. */
    method ReleaseResources(c: nat, resources: Vec) returns (code: int)
      requires Valid() && |resources| == m
      modifies available, allocation, need
      ensures (Contents(), code) == Release(old(Contents()), c, resources)
      ensures code != 0 ==> Contents() == old(Contents())
      ensures code == -1 <==> c >= n
      ensures code == 1 <==> c < n && exists j :: 0 <= j < m && resources[j] > old(allocation[c, j])
      ensures -1 <= code <= 1
      ensures code == 0 ==> c < n && forall j :: 0 <= j < m ==>
                && available[j] == old(available[j]) + resources[j]
                && allocation[c, j] == old(allocation[c, j]) - resources[j]
                && need[c, j] == old(need[c, j]) + resources[j]
      ensures code == 0 ==> forall i, j :: 0 <= i < n && i != c && 0 <= j < m ==>
                allocation[i, j] == old(allocation[i, j]) && need[i, j] == old(need[i, j])
    {
      ReleaseAnswers(Contents(), c, resources);
      Entries();
      code := TakeBackOrRefuse(c, resources);
      Entries();
      hide Release;
    }

    method TakeBackOrRefuse(c: nat, resources: Vec) returns (code: int)
      requires Valid() && |resources| == m
      modifies available, allocation, need
      ensures (Contents(), code) == Release(old(Contents()), c, resources)
    {
      if c >= n {
        return -1;
      }
      var leq := LeqRow(resources, allocation, c);
      if !leq {
        return 1;
      }
      Transfer(c, Neg(resources));
      return 0;
    }
  }
}
