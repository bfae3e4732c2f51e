/** Neither request_resources nor release_resources of Project6/banker.c rejects negative entries.
    When safe() still answers right, and when it can be fooled by states that calls reach. */
module NegativeVectors {
  import opened Banker

  // ---------- an input ----------

  /** After the first customer of two has asked for -1 of a resource that nobody has. */
  function Tentative(): State {
    State([1], [[-1], [0]], [[1], [1]])
  }

  /** The first call of a run is refused although the state it leads to is safe: only serving the
      second customer first works. */
  lemma GreedyMissesWithNegativeAllocation()
    ensures GoodInput([[0], [1]], [0])
    ensures var s := Initial([[0], [1]], [0]);
            Request(s, 0, [-1]).1 == 1 && Safe(Move(s, 0, [-1]))
  {
    var s := Initial([[0], [1]], [0]);
    TentativeMove();
    SecondThenFirst();
    FirstGetsStuck();
    hide Safe, GreedySafe, Move;
  }

  lemma TentativeMove()
    ensures Move(Initial([[0], [1]], [0]), 0, [-1]) == Tentative()
  {
    var s := Initial([[0], [1]], [0]);
    assert Zero(1) == [0];
    assert s.allocation == [[0], [0]];
    assert Add([0], Neg([-1])) == [1] && Add([0], [-1]) == [-1];
  }

  lemma TentativeWork(fin: set<nat>)
    ensures Work(Tentative(), fin) == [if 0 in fin then 0 else 1]
  {
    var s := Tentative();
    assert Held(s, fin, 0, 1) == if 0 in fin then -1 else 0;
    assert Held(s, fin, 0, 2) == if 0 in fin then -1 else 0;
  }

  lemma SecondThenFirst()
    ensures Safe(Tentative())
  {
    var s := Tentative();
    TentativeWork({});
    TentativeWork({} + {1});
    assert Completes(s, {} + {1} + {0}, []);
    assert Completes(s, {} + {1}, [0]) by { assert [0][1..] == []; }
    var order := [1, 0];
    assert Completes(s, {}, order) by { assert order[1..] == [0]; }
    assert Permutation(order, 2) by { assert Members(order) == {0, 1} == Customers(2); }
  }

  lemma FirstGetsStuck()
    ensures !GreedySafe(Tentative())
  {
    var s := Tentative();
    TentativeWork({});
    TentativeWork({} + {0});
    assert FirstReady(s, {}, 0) == 0;
    assert s.need[1][0] > Work(s, {} + {0})[0];
    assert !Ready(s, {} + {0}, 0) && !Ready(s, {} + {0}, 1);
    assert Greedy(s, {} + {0}) == [];
    assert Greedy(s, {}) == [0];
    assert 1 in Customers(2) && 1 !in Members([0]);
  }

  // ---------- a state that fools the loop ----------

  function Magnitude(v: Vec): (k: nat)
    ensures forall j :: 0 <= j < |v| ==> v[j] <= k && -v[j] <= k
  {
    if v == [] then 0 else (if v[0] < 0 then -v[0] else v[0]) + Magnitude(v[1..])
  }

  function Magnitudes(rows: seq<Vec>): (k: nat)
    ensures forall i :: 0 <= i < |rows| ==> Magnitude(rows[i]) <= k
  {
    if rows == [] then 0 else Magnitude(rows[0]) + Magnitudes(rows[1..])
  }

  ghost predicate RowsOf(alloc: seq<Vec>, m: nat, k: nat) {
    forall i :: 0 <= i < |alloc| ==> |alloc[i]| == m && Magnitude(alloc[i]) <= k
  }

  /** k for each of n customers, and once more. */
  function Stock(n: nat, k: nat): (stock: nat)
    ensures stock >= k
  {
    if n == 0 then k else Stock(n - 1, k) + k
  }

  function Uniform(m: nat, k: nat): (v: Vec)
    ensures |v| == m && forall j :: 0 <= j < m ==> v[j] == k
  {
    seq(m, _ => k)
  }

  /** Everybody needs k of each resource, and however the others finish, k is free. */
  function Generous(alloc: seq<Vec>, m: nat, k: nat): (s: State)
    requires RowsOf(alloc, m, k)
    ensures Shaped(s) && N(s) == |alloc| && M(s) == m
  {
    State(Uniform(m, Stock(|alloc|, k)), alloc, seq(|alloc|, _ => Uniform(m, k)))
  }

  /** The last customer needs exactly what is free once all but i and itself have finished. */
  function Trap(alloc: seq<Vec>, m: nat, i: nat, k: nat): (s: State)
    requires RowsOf(alloc, m, k) && i + 1 < |alloc|
    ensures Shaped(s) && N(s) == |alloc| && M(s) == m && s.allocation == alloc
  {
    var s := Generous(alloc, m, k);
    s.(need := s.need[|alloc| - 1 := Work(s, Customers(|alloc|) - {i, |alloc| - 1})])
  }

  lemma {:induction false} HeldSame(s: State, t: State, fin: set<nat>, j: nat, n: nat)
    requires Shaped(s) && Shaped(t) && s.allocation == t.allocation && M(s) == M(t)
    requires j < M(s) && n <= N(s) == N(t)
    ensures Held(s, fin, j, n) == Held(t, fin, j, n)
  {
    if n == 0 {
    } else {
      HeldSame(s, t, fin, j, n - 1);
    }
  }

  lemma {:induction false} HeldAtLeast(s: State, fin: set<nat>, j: nat, n: nat, k: nat)
    requires Shaped(s) && RowsOf(s.allocation, M(s), k) && j < M(s) && n <= N(s)
    ensures Held(s, fin, j, n) + Stock(n, k) >= k
  {
    if n == 0 {
    } else {
      HeldAtLeast(s, fin, j, n - 1, k);
    }
  }

  lemma TrapWork(alloc: seq<Vec>, m: nat, i: nat, k: nat, fin: set<nat>)
    requires RowsOf(alloc, m, k) && i + 1 < |alloc|
    ensures Work(Trap(alloc, m, i, k), fin) == Work(Generous(alloc, m, k), fin)
    ensures forall j :: 0 <= j < m ==> Work(Trap(alloc, m, i, k), fin)[j] >= k
  {
    var s, t := Generous(alloc, m, k), Trap(alloc, m, i, k);
    forall j: nat | j < m ensures Work(t, fin)[j] == Work(s, fin)[j] >= k {
      HeldSame(s, t, fin, j, |alloc|);
      HeldAtLeast(s, fin, j, |alloc|, k);
    }
  }

  lemma TrapShape(alloc: seq<Vec>, m: nat, i: nat, k: nat)
    requires RowsOf(alloc, m, k) && i + 1 < |alloc|
    ensures var s, last := Trap(alloc, m, i, k), |alloc| - 1;
            && s.available == Uniform(m, Stock(|alloc|, k))
            && s.need[last] == Work(Generous(alloc, m, k), Customers(|alloc|) - {i, last})
            && (forall r :: 0 <= r < last ==> s.need[r] == Uniform(m, k))
  {
    hide Work, RowsOf, Customers, Uniform, Stock;
  }

  lemma TrapNeeds(alloc: seq<Vec>, m: nat, i: nat, k: nat)
    requires RowsOf(alloc, m, k) && i + 1 < |alloc|
    ensures var s, last := Trap(alloc, m, i, k), |alloc| - 1;
            && s.need[last] == Work(s, Customers(|alloc|) - {i, last})
            && (forall r :: 0 <= r < last ==> s.need[r] == Uniform(m, k))
            && Vleq(Uniform(m, k), s.available) && Vleq(Uniform(m, k), s.need[last])
  {
    TrapShape(alloc, m, i, k);
    TrapWork(alloc, m, i, k, Customers(|alloc|) - {i, |alloc| - 1});
    hide Trap, Generous, Work, RowsOf, Customers, Stock;
  }

  /** All but the last customer are ready whenever they have not finished. */
  ghost predicate Patient(s: State)
    requires Shaped(s)
  {
    forall fin: set<nat>, r: nat :: r + 1 < N(s) && r !in fin ==> Ready(s, fin, r)
  }

  lemma TrapIsPatient(alloc: seq<Vec>, m: nat, i: nat, k: nat)
    requires RowsOf(alloc, m, k) && i + 1 < |alloc|
    ensures Patient(Trap(alloc, m, i, k))
  {
    var s := Trap(alloc, m, i, k);
    TrapNeeds(alloc, m, i, k);
    hide Trap;
    forall fin: set<nat>, r: nat | r + 1 < N(s) && r !in fin ensures Ready(s, fin, r) {
      TrapWork(alloc, m, i, k, fin);
    }
  }

  /** What the last customer needs is free without i, but not with it. */
  lemma LastNeedsAllBut(s: State, i: nat, j: nat)
    requires Shaped(s) && i + 1 < N(s) && j < M(s) && s.allocation[i][j] < 0
    requires s.need[N(s) - 1] == Work(s, Customers(N(s)) - {i, N(s) - 1})
    ensures Ready(s, Customers(N(s)) - {i, N(s) - 1}, N(s) - 1)
    ensures !Ready(s, Customers(N(s)) - {N(s) - 1}, N(s) - 1)
  {
    var last := N(s) - 1;
    var rest := Customers(N(s)) - {i, last};
    hide Work;
    assert rest + {i} == Customers(N(s)) - {last};
    WorkInsert(s, rest, i);
    assert Work(s, rest + {i})[j] == s.need[last][j] + s.allocation[i][j];
  }

  /** A state that is safe although the loop gets stuck in it. */
  ghost predicate Trapped(s: State, i: nat) {
    && Shaped(s) && i + 1 < N(s) && Patient(s)
    && Ready(s, Customers(N(s)) - {i, N(s) - 1}, N(s) - 1)
    && !Ready(s, Customers(N(s)) - {N(s) - 1}, N(s) - 1)
  }

  lemma TrapIsTrapped(alloc: seq<Vec>, m: nat, i: nat, j: nat, k: nat)
    requires RowsOf(alloc, m, k) && i + 1 < |alloc| && j < m && alloc[i][j] < 0
    ensures Trapped(Trap(alloc, m, i, k), i)
  {
    TrapIsPatient(alloc, m, i, k);
    TrapNeeds(alloc, m, i, k);
    hide Trap, Patient, Work, Ready, RowsOf;
    LastNeedsAllBut(Trap(alloc, m, i, k), i, j);
  }

  /** Ready customers can be put before any order that works after them. */
  lemma {:induction false} OrderVia(s: State, fin: set<nat>, rest: set<nat>, tail: seq<nat>) returns (order: seq<nat>)
    requires Shaped(s) && Patient(s) && rest !! fin && Completes(s, fin + rest, tail)
    requires forall r :: r in rest ==> r + 1 < N(s)
    ensures Completes(s, fin, order) && Members(order) == rest + Members(tail)
    decreases rest
  {
    if rest == {} {
      assert fin + rest == fin;
      order := tail;
    } else {
      var r :| r in rest;
      assert fin + {r} + (rest - {r}) == fin + rest;
      var after := OrderVia(s, fin + {r}, rest - {r}, tail);
      order := [r] + after;
      assert order[1..] == after;
      MembersCons(order);
    }
  }

  lemma OneThenOther(s: State, fin: set<nat>, x: nat, y: nat)
    requires Shaped(s) && Ready(s, fin, x) && Ready(s, fin + {x}, y)
    ensures Completes(s, fin, [x, y])
  {
    assert [x, y][1..] == [y] && [y][1..] == [];
    assert Completes(s, fin + {x} + {y}, []);
    assert Completes(s, fin + {x}, [y]);
  }

  lemma MembersOfPair(x: nat, y: nat, all: set<nat>)
    requires x in all && y in all
    ensures (all - {y, x}) + Members([x, y]) == all
  {
    assert Members([x, y]) == {x, y};
  }

  lemma RestThenLast(s: State, i: nat, rest: set<nat>)
    requires Trapped(s, i) && rest == Customers(N(s)) - {i, N(s) - 1}
    ensures Ready(s, rest, N(s) - 1) && Ready(s, rest + {N(s) - 1}, i)
    ensures forall r :: r in rest ==> r + 1 < N(s)
  {
    hide Ready;
  }

  lemma OrderEndingWith(s: State, rest: set<nat>, x: nat, y: nat, all: set<nat>) returns (order: seq<nat>)
    requires Shaped(s) && Patient(s) && forall r :: r in rest ==> r + 1 < N(s)
    requires Ready(s, rest, x) && Ready(s, rest + {x}, y)
    requires x in all && y in all && rest == all - {y, x}
    ensures Completes(s, {}, order) && Members(order) == all
  {
    hide *;
    OneThenOther(s, rest, x, y);
    assert {} + rest == rest;
    order := OrderVia(s, {}, rest, [x, y]);
    MembersOfPair(x, y, all);
  }

  /** All but i and the last customer, then the last, then i. */
  lemma OrderOfTrapped(s: State, i: nat) returns (order: seq<nat>)
    requires Trapped(s, i)
    ensures Completes(s, {}, order) && Members(order) == Customers(N(s))
  {
    var rest := Customers(N(s)) - {i, N(s) - 1};
    RestThenLast(s, i, rest);
    hide Patient, Ready, Completes, Members;
    order := OrderEndingWith(s, rest, N(s) - 1, i, Customers(N(s)));
  }

  lemma TrappedIsSafe(s: State, i: nat)
    requires Trapped(s, i)
    ensures Safe(s)
  {
    hide Patient, Ready, Completes, Members;
    var order := OrderOfTrapped(s, i);
    CompletesDistinct(s, {}, order);
  }

  lemma GateOfTrapped(s: State, i: nat, before: set<nat>, done: set<nat>)
    requires Trapped(s, i) && Gate(s, before, done)
    ensures N(s) - 1 !in done
  {
    hide Ready;
    assert before == Customers(N(s)) - {N(s) - 1};
  }

  lemma TrappedFools(s: State, i: nat)
    requires Trapped(s, i)
    ensures !GreedySafe(s)
  {
    hide Patient, Ready, Gate, Members, Greedy;
    var before := GreedyGate(s, {});
    GateOfTrapped(s, i, before, {} + Members(Greedy(s, {})));
    assert N(s) - 1 in Customers(N(s));
  }

  // ---------- exactly when safe() decides safety ----------

  /** safe() answers right whatever is available and needed. */
  ghost predicate AlwaysDecides(alloc: seq<Vec>, m: nat) {
    forall s: State :: Shaped(s) && s.allocation == alloc && M(s) == m ==> (GreedySafe(s) <==> Safe(s))
  }

  /** For given allocations, safe() always answers right iff nobody but the last customer holds a
      negative amount. */
  lemma DecidesIffOnlyLastNegative(alloc: seq<Vec>, m: nat)
    requires forall i :: 0 <= i < |alloc| ==> |alloc[i]| == m
    ensures AlwaysDecides(alloc, m) <==> OnlyLastNegative(alloc)
  {
    if OnlyLastNegative(alloc) {
      forall s: State | Shaped(s) && s.allocation == alloc && M(s) == m ensures GreedySafe(s) <==> Safe(s) {
        GreedyDecidesSafe(s);
      }
    } else {
      var i, j :| 0 <= i < |alloc| - 1 && 0 <= j < |alloc[i]| && alloc[i][j] < 0;
      var s := Trap(alloc, m, i, Magnitudes(alloc));
      TrapIsTrapped(alloc, m, i, j, Magnitudes(alloc));
      TrappedIsSafe(s, i);
      TrappedFools(s, i);
    }
  }

  // ---------- exactly when a request is answered right ----------

  /** A request within what is available and needed is granted iff the state it leads to is safe. */
  ghost predicate AnsweredRight(s: State, c: nat, v: Vec)
    requires Shaped(s) && |v| == M(s) && InBounds(s, c, v)
  {
    c < N(s) && (forall j :: 0 <= j < M(s) ==> v[j] <= s.available[j] && v[j] <= s.need[c][j]) ==>
      Request(s, c, v).1 == if Safe(Move(s, c, v)) then 0 else 1
  }

  /** In every state with these allocations and balanced books. */
  ghost predicate AlwaysAnsweredRight(alloc: seq<Vec>, m: nat, c: nat, v: Vec)
    requires |v| == m
  {
    forall s: State, maximum: seq<Vec>, total: Vec ::
      Inv(s, maximum, total) && s.allocation == alloc && M(s) == m && InBounds(s, c, v) ==> AnsweredRight(s, c, v)
  }

  function MaximumOf(s: State): (rows: seq<Vec>)
    requires Shaped(s)
    ensures |rows| == N(s) && forall i :: 0 <= i < N(s) ==> |rows[i]| == M(s)
  {
    seq(N(s), i requires 0 <= i < N(s) => Add(s.allocation[i], s.need[i]))
  }

  /** The state before the request that would lead to the trap. */
  function BeforeTrap(alloc: seq<Vec>, m: nat, c: nat, v: Vec, k: nat): (s: State)
    requires c + 1 < |alloc| && |alloc[c]| == |v| == m && RowsOf(alloc[c := Add(alloc[c], v)], m, k)
    ensures Shaped(s) && N(s) == |alloc| && M(s) == m
  {
    Move(Trap(alloc[c := Add(alloc[c], v)], m, c, k), c, Neg(v))
  }

  lemma BeforeTrapLeadsThere(alloc: seq<Vec>, m: nat, c: nat, v: Vec, k: nat)
    requires c + 1 < |alloc| && |alloc[c]| == |v| == m && RowsOf(alloc[c := Add(alloc[c], v)], m, k)
    ensures var s, t := BeforeTrap(alloc, m, c, v, k), Trap(alloc[c := Add(alloc[c], v)], m, c, k);
            s.allocation == alloc && Move(s, c, v) == t
  {
    var s, t := BeforeTrap(alloc, m, c, v, k), Trap(alloc[c := Add(alloc[c], v)], m, c, k);
    hide Trap, RowsOf;
    assert s.allocation[c] == alloc[c];
    assert s.allocation == alloc;
    MoveBack(t, c, Neg(v));
    assert Neg(Neg(v)) == v;
  }

  lemma Covers(a: Vec, v: Vec, k: nat)
    requires |v| == |a| && Magnitude(v) <= k && Vleq(Uniform(|a|, k), a)
    ensures Vleq(Zero(|a|), Add(a, Neg(Neg(v)))) && Vleq(v, Add(a, Neg(Neg(v))))
    ensures Vleq(Zero(|a|), a)
  {
  }

  ghost predicate NothingNegative(s: State)
    requires Shaped(s)
  {
    Vleq(Zero(M(s)), s.available) && forall i :: 0 <= i < N(s) ==> Vleq(Zero(M(s)), s.need[i])
  }

  lemma StepBack(t: State, c: nat, v: Vec, k: nat)
    requires Shaped(t) && c < N(t) && |v| == M(t) && Magnitude(v) <= k
    requires Vleq(Uniform(M(t), k), t.available)
    requires forall i :: 0 <= i < N(t) ==> Vleq(Uniform(M(t), k), t.need[i])
    ensures var s := Move(t, c, Neg(v));
            NothingNegative(s) && Vleq(v, s.available) && Vleq(v, s.need[c])
  {
    hide Vleq, Uniform;
    Covers(t.available, v, k);
    forall i | 0 <= i < N(t) ensures Vleq(Zero(M(t)), Move(t, c, Neg(v)).need[i]) {
      Covers(t.need[i], v, k);
    }
    Covers(t.need[c], v, k);
  }

  /** Books with nothing negative in them are those of some input. */
  lemma BooksBalance(s: State)
    requires Shaped(s) && NonNegative(s) && NothingNegative(s)
    ensures Inv(s, MaximumOf(s), Work(s, Customers(N(s))))
  {
    hide Held, Customers;
    forall i, j | 0 <= i < N(s) && 0 <= j < M(s) ensures s.need[i][j] >= 0 {
      assert Zero(M(s))[j] <= s.need[i][j];
    }
    forall j | 0 <= j < M(s) ensures s.available[j] >= 0 {
      assert Zero(M(s))[j] <= s.available[j];
    }
  }

  /** For given allocations, the request of c for v is always answered right iff c is the last
      customer or v asks back no more than c holds. */
  lemma AnsweredRightIff(alloc: seq<Vec>, m: nat, c: nat, v: Vec)
    requires forall i :: 0 <= i < |alloc| ==> |alloc[i]| == m
    requires forall i, j :: 0 <= i < |alloc| && 0 <= j < m ==> alloc[i][j] >= 0
    requires c < |alloc| && |v| == m
    ensures AlwaysAnsweredRight(alloc, m, c, v) <==> c == |alloc| - 1 || Vleq(Neg(v), alloc[c])
  {
    if c == |alloc| - 1 || Vleq(Neg(v), alloc[c]) {
      forall s: State, maximum: seq<Vec>, total: Vec |
        Inv(s, maximum, total) && s.allocation == alloc && M(s) == m && InBounds(s, c, v)
        ensures AnsweredRight(s, c, v)
      {
        GreedyDecidesSafe(Move(s, c, v));
      }
    } else {
      AnsweredWrong(alloc, m, c, v);
    }
  }

  lemma NotAnsweredRight(s: State, c: nat, v: Vec)
    requires Shaped(s) && c < N(s) && |v| == M(s) && InBounds(s, c, v)
    requires Vleq(v, s.available) && Vleq(v, s.need[c])
    requires Safe(Move(s, c, v)) && !GreedySafe(Move(s, c, v))
    ensures !AnsweredRight(s, c, v)
  {
    hide Safe, GreedySafe, Move;
  }

  /** A state with these allocations and balanced books that refuses the request wrongly. */
  lemma WrongRefusal(alloc: seq<Vec>, m: nat, c: nat, v: Vec) returns (s: State)
    requires forall i :: 0 <= i < |alloc| ==> |alloc[i]| == m
    requires forall i, j :: 0 <= i < |alloc| && 0 <= j < m ==> alloc[i][j] >= 0
    requires c < |alloc| - 1 && |v| == m && !Vleq(Neg(v), alloc[c])
    ensures Shaped(s) && N(s) == |alloc| && M(s) == m && s.allocation == alloc
    ensures Inv(s, MaximumOf(s), Work(s, Customers(N(s))))
    ensures Vleq(v, s.available) && Vleq(v, s.need[c])
    ensures Safe(Move(s, c, v)) && !GreedySafe(Move(s, c, v))
  {
    var after := alloc[c := Add(alloc[c], v)];
    var j :| 0 <= j < m && Neg(v)[j] > alloc[c][j];
    assert after[c][j] < 0;
    var k := Magnitudes(after) + Magnitude(v);
    s := BeforeTrap(alloc, m, c, v, k);
    BeforeTrapLeadsThere(alloc, m, c, v, k);
    assert NonNegative(s);
    TrapNeeds(after, m, c, k);
    StepBack(Trap(after, m, c, k), c, v, k);
    TrapIsTrapped(after, m, c, j, k);
    hide Trap, Safe, GreedySafe, Vleq, NonNegative, NothingNegative, Work, Trapped;
    BooksBalance(s);
    TrappedIsSafe(Trap(after, m, c, k), c);
    TrappedFools(Trap(after, m, c, k), c);
  }

  lemma AnsweredWrong(alloc: seq<Vec>, m: nat, c: nat, v: Vec)
    requires forall i :: 0 <= i < |alloc| ==> |alloc[i]| == m
    requires forall i, j :: 0 <= i < |alloc| && 0 <= j < m ==> alloc[i][j] >= 0
    requires c < |alloc| - 1 && |v| == m && !Vleq(Neg(v), alloc[c])
    ensures !AlwaysAnsweredRight(alloc, m, c, v)
  {
    var s := WrongRefusal(alloc, m, c, v);
    hide Safe, GreedySafe, Vleq, Inv, Work, MaximumOf, AnsweredRight;
    NotAnsweredRight(s, c, v);
  }

  // ---------- such states are reached ----------

  /** A run of releases, each with any vector. */
  function After(s: State, releases: seq<(nat, Vec)>): (t: State)
    requires Shaped(s) && forall i :: 0 <= i < |releases| ==> |releases[i].1| == M(s)
    ensures Shaped(t) && N(t) == N(s) && M(t) == M(s)
    decreases |releases|
  {
    if releases == [] then s
    else
      var last := releases[|releases| - 1];
      Release(After(s, releases[..|releases| - 1]), last.0, last.1).0
  }

  ghost predicate Reaches(s: State, releases: seq<(nat, Vec)>, t: State)
    requires Shaped(s)
  {
    (forall i :: 0 <= i < |releases| ==> |releases[i].1| == M(s)) && After(s, releases) == t
  }

  /** Releasing a negative vector takes resources without any test of safety. */
  lemma TakeBack(s: State, c: nat, maximum: seq<Vec>, total: Vec)
    requires Inv(s, maximum, total) && c < N(s)
    ensures var before := Move(s, c, Neg(s.allocation[c]));
            && Inv(before, maximum, total) && before.allocation == s.allocation[c := Zero(M(s))]
            && Release(before, c, Neg(s.allocation[c])) == (s, 0)
  {
    var a := s.allocation[c];
    var before := Move(s, c, Neg(a));
    MoveKeepsInv(s, c, Neg(a), maximum, total);
    assert before.allocation[c] == Zero(M(s));
    MoveBack(s, c, Neg(a));
  }

  lemma {:induction false} ReachedByReleases(s: State, maximum: seq<Vec>, total: Vec, n: nat)
    returns (releases: seq<(nat, Vec)>)
    requires Inv(s, maximum, total) && n <= N(s)
    requires forall i :: n <= i < N(s) ==> s.allocation[i] == Zero(M(s))
    ensures Reaches(Initial(maximum, total), releases, s)
    decreases n
  {
    if n == 0 {
      AllReturnedIsInitial(s, maximum, total);
      releases := [];
    } else {
      var v := Neg(s.allocation[n - 1]);
      TakeBack(s, n - 1, maximum, total);
      var before := ReachedByReleases(Move(s, n - 1, v), maximum, total, n - 1);
      releases := before + [(n - 1, v)];
      assert releases[..|releases| - 1] == before;
    }
  }

  /** Releases with negative vectors reach every state with balanced books, safe or not. */
  lemma BalancedIsReached(s: State, maximum: seq<Vec>, total: Vec)
    requires Inv(s, maximum, total)
    ensures exists releases :: Reaches(Initial(maximum, total), releases, s)
  {
    var releases := ReachedByReleases(s, maximum, total, N(s));
  }
}
