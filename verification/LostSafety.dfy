/** Exactly which releases of Project6/banker.c keep a state safe, and which requests only a safe
    state grants, when vectors may have negative entries. */
module LostSafety {
  import opened Banker
  import opened NegativeVectors

  lemma StuckIsUnsafe(s: State, stuck: set<nat>, i: nat)
    requires Shaped(s) && NonNegative(s) && Stuck(s, stuck) && i < N(s) && i !in stuck
    ensures !Safe(s)
  {
    forall order | Completes(s, {}, order) ensures !Permutation(order, N(s)) {
      StuckAbsorbs(s, stuck, {}, order);
      assert i in Customers(N(s));
    }
  }

  // ---------- inputs ----------

  function UnsafeStart(): (s: State)
    ensures Shaped(s) && N(s) == 2 && M(s) == 1
  {
    Initial([[1], [0]], [0])
  }

  /** From an unsafe start the second customer asks for -1 of a resource that nobody has, and gets
      it: the first can then finish, although only with what the second now owes. */
  lemma UnsafeStartGrants()
    ensures GoodInput([[1], [0]], [0])
    ensures !Safe(UnsafeStart()) && Request(UnsafeStart(), 1, [-1]).1 == 0
  {
    hide Safe, Request, UnsafeStart;
    UnsafeInput();
    GrantedInput();
  }

  lemma UnsafeInput()
    ensures !Safe(UnsafeStart())
  {
    var maximum: seq<Vec> := [[1], [0]];
    assert maximum[0][0] > [0][0];
    hide Initial, Safe;
    InitialSafeIff(maximum, [0]);
  }

  lemma GrantedInput()
    ensures Request(UnsafeStart(), 1, [-1]).1 == 0
  {
    var s := UnsafeStart();
    BorrowedState();
    assert Vleq([-1], s.available) && Vleq([-1], s.need[1]);
    hide Move, GreedySafe, Borrowed;
    BorrowedIsGranted();
  }

  /** What that request leads to. */
  function Borrowed(): State {
    State([1], [[0], [-1]], [[1], [1]])
  }

  lemma BorrowedState()
    ensures Move(UnsafeStart(), 1, [-1]) == Borrowed()
  {
    var s := UnsafeStart();
    assert Zero(1) == [0];
    assert s.allocation == [[0], [0]];
    assert Add([0], Neg([-1])) == [1] && Add([0], [-1]) == [-1];
  }

  lemma BorrowedWork(fin: set<nat>)
    ensures Work(Borrowed(), fin) == [if 1 in fin then 0 else 1]
  {
    assert Held(Borrowed(), fin, 0, 1) == 0;
    assert Held(Borrowed(), fin, 0, 2) == if 1 in fin then -1 else 0;
  }

  lemma TwoCanFinish(s: State)
    requires Shaped(s) && N(s) == 2 && OnlyLastNegative(s.allocation) && Ready(s, {}, 0) && Ready(s, {0}, 1)
    ensures GreedySafe(s)
  {
    assert {} + {0} == {0};
    FirstTwo();
    assert N(s) == 2;
    hide *;
    OneThenOther(s, {}, 0, 1);
    SafeByOrder(s, [0, 1]);
    GreedyDecidesSafe(s);
  }

  lemma FirstTwo()
    ensures Permutation([0, 1], 2)
  {
    assert Members([0, 1]) == {0, 1} == Customers(2);
  }

  lemma SafeByOrder(s: State, order: seq<nat>)
    requires Shaped(s) && Completes(s, {}, order) && Permutation(order, N(s))
    ensures Safe(s)
  {
  }

  lemma BorrowedIsGranted()
    ensures GreedySafe(Borrowed())
  {
    BorrowedWork({});
    BorrowedWork({0});
    hide Work;
    TwoCanFinish(Borrowed());
  }

  function SafeStart(): (s: State)
    ensures Shaped(s) && N(s) == 2 && M(s) == 1
  {
    Initial([[2], [2]], [2])
  }

  /** From a safe start: after the first customer has got 1 of 2, the second takes the other one by
      releasing -1, and nobody can finish. */
  lemma ReleaseLosesSafety()
    ensures GoodInput([[2], [2]], [2]) && Safe(SafeStart())
    ensures Request(SafeStart(), 0, [1]) == (Half(), 0)
    ensures Release(Half(), 1, [-1]) == (Halves(), 0) && Safe(Half()) && !Safe(Halves())
  {
    hide Safe, GreedySafe, Request, Release, SafeStart;
    AllOfTwoFits();
    HalfIsGranted();
    HalfIsSafe();
    GreedySound(Half());
    SecondTakes();
    StuckHalves();
  }

  lemma AllOfTwoFits()
    ensures Safe(SafeStart())
  {
    hide Safe, Initial;
    InitialSafeIff([[2], [2]], [2]);
  }

  lemma HalfIsGranted()
    ensures Request(SafeStart(), 0, [1]) == (Half(), 0)
  {
    var s := SafeStart();
    FirstOfTwo();
    assert Vleq([1], s.available) && Vleq([1], s.need[0]);
    hide Move, GreedySafe, Half;
    HalfIsSafe();
  }

  function Half(): State {
    State([1], [[1], [0]], [[1], [2]])
  }

  function Halves(): State {
    State([0], [[1], [1]], [[1], [1]])
  }

  lemma FirstOfTwo()
    ensures Move(SafeStart(), 0, [1]) == Half()
  {
    var s := SafeStart();
    assert Zero(1) == [0];
    assert s.allocation == [[0], [0]];
    assert Add([2], Neg([1])) == [1] && Add([0], [1]) == [1];
  }

  lemma SecondTakes()
    ensures Release(Half(), 1, [-1]) == (Halves(), 0)
  {
    assert Neg([-1]) == [1];
    var t := Move(Half(), 1, [1]);
    assert t.available == [0];
    assert t.allocation[1] == [1] && t.need[1] == [1];
    assert t.allocation == [[1], [1]] && t.need == [[1], [1]];
  }

  lemma HalfWork(fin: set<nat>)
    ensures Work(Half(), fin) == [if 0 in fin then 2 else 1]
  {
    assert Held(Half(), fin, 0, 1) == if 0 in fin then 1 else 0;
    assert Held(Half(), fin, 0, 2) == if 0 in fin then 1 else 0;
  }

  lemma HalfIsSafe()
    ensures GreedySafe(Half())
  {
    HalfWork({});
    HalfWork({0});
    hide Work;
    TwoCanFinish(Half());
  }

  lemma StuckHalves()
    ensures !Safe(Halves())
  {
    var s := Halves();
    AvailableIsWork(s);
    assert s.need[0][0] > s.available[0] && s.need[1][0] > s.available[0];
    StuckIsUnsafe(s, {}, 0);
  }

  // ---------- a state balanced on one customer ----------

  /** The least that a customer holds: c may owe up to k. */
  function Floor(k: nat, owes: bool): int {
    if owes then -(k as int) else 0
  }

  /** k of everything is available, the eager customers need k of everything, c needs what is free
      once all others have finished, and the rest need nothing. */
  ghost predicate Levered(s: State, c: nat, k: nat, eager: set<nat>)
  {
    && Shaped(s) && c < N(s) && c !in eager && s.available == Uniform(M(s), k)
    && (forall i, j :: 0 <= i < N(s) && 0 <= j < M(s) ==> s.allocation[i][j] >= Floor(k, i == c))
    && s.need[c] == Work(s, Customers(N(s)) - {c})
    && (forall i :: 0 <= i < N(s) && i != c ==> s.need[i] == if i in eager then Uniform(M(s), k) else Zero(M(s)))
  }

  function Lever(alloc: seq<Vec>, m: nat, c: nat, k: nat, eager: set<nat>): (s: State)
    requires c < |alloc| && forall i :: 0 <= i < |alloc| ==> |alloc[i]| == m
    ensures Shaped(s) && N(s) == |alloc| && M(s) == m && s.allocation == alloc
  {
    var s := State(Uniform(m, k), alloc,
                   seq(|alloc|, i requires 0 <= i < |alloc| => if i in eager then Uniform(m, k) else Zero(m)));
    s.(need := s.need[c := Work(s, Customers(|alloc|) - {c})])
  }

  lemma LeverIsLevered(alloc: seq<Vec>, m: nat, c: nat, k: nat, eager: set<nat>)
    requires c < |alloc| && c !in eager && forall i :: 0 <= i < |alloc| ==> |alloc[i]| == m
    requires forall i, j :: 0 <= i < |alloc| && 0 <= j < m ==> alloc[i][j] >= Floor(k, i == c)
    ensures Levered(Lever(alloc, m, c, k, eager), c, k, eager)
  {
    var s := Lever(alloc, m, c, k, eager);
    var t := State(Uniform(m, k), alloc,
                   seq(|alloc|, i requires 0 <= i < |alloc| => if i in eager then Uniform(m, k) else Zero(m)));
    WorkSame(t, s, Customers(|alloc|) - {c});
  }

  lemma WorkSame(s: State, t: State, fin: set<nat>)
    requires Shaped(s) && Shaped(t) && s.allocation == t.allocation && s.available == t.available && N(s) == N(t)
    ensures Work(s, fin) == Work(t, fin)
  {
    forall j: nat | j < M(s) ensures Held(s, fin, j, N(s)) == Held(t, fin, j, N(s)) {
      HeldSame(s, t, fin, j, N(s));
    }
  }

  lemma {:induction false} HeldFloor(s: State, c: nat, k: nat, eager: set<nat>, fin: set<nat>, j: nat, n: nat)
    requires Levered(s, c, k, eager) && j < M(s) && n <= N(s)
    ensures Held(s, fin, j, n) >= Floor(k, c in fin && c < n)
  {
    if n == 0 {
    } else {
      HeldFloor(s, c, k, eager, fin, j, n - 1);
    }
  }

  lemma WorkFloor(s: State, c: nat, k: nat, eager: set<nat>, fin: set<nat>)
    requires Levered(s, c, k, eager)
    ensures Vleq(Zero(M(s)), Work(s, fin))
    ensures c !in fin ==> Vleq(Uniform(M(s), k), Work(s, fin))
  {
    forall j: nat | j < M(s) ensures Work(s, fin)[j] >= if c in fin then 0 else k {
      HeldFloor(s, c, k, eager, fin, j, N(s));
    }
  }

  /** The others are ready until c has finished, and those that need nothing always. */
  lemma OthersAreReady(s: State, c: nat, k: nat, eager: set<nat>, fin: set<nat>, i: nat)
    requires Levered(s, c, k, eager) && i < N(s) && i != c && i !in fin && (i !in eager || c !in fin)
    ensures Ready(s, fin, i)
  {
    WorkFloor(s, c, k, eager, fin);
    hide Work, Vleq, Zero, Uniform;
  }

  /** So the loop comes to c. */
  lemma LeverTurns(s: State, c: nat, k: nat, eager: set<nat>)
    requires Levered(s, c, k, eager)
    ensures c in Members(Greedy(s, {}))
    ensures forall i :: 0 <= i < N(s) && i !in eager ==> i in Members(Greedy(s, {}))
  {
    var done := Members(Greedy(s, {}));
    GreedyRunsToStuck(s, {});
    assert {} + done == done;
    forall i: nat | i < N(s) && i != c && (i !in eager || c !in done) ensures i in done {
      if i !in done {
        OthersAreReady(s, c, k, eager, done, i);
      }
    }
    if c !in done {
      assert done == Customers(N(s)) - {c};
      assert Ready(s, done, c);
    }
  }

  /** Whoever the loop finishes was ready when it did. */
  lemma {:induction false} TakenWhenReady(s: State, fin: set<nat>, i: nat) returns (before: set<nat>)
    requires Shaped(s) && i in Members(Greedy(s, fin))
    ensures fin <= before <= fin + Members(Greedy(s, fin)) && Ready(s, before, i)
    decreases Customers(N(s)) - fin
  {
    var first := FirstReady(s, fin, 0);
    GreedyStep(s, fin);
    if i == first {
      before := fin;
    } else {
      assert i in fin + {first} + Members(Greedy(s, fin + {first}));
      assert i in Members(Greedy(s, fin + {first})) by {
        MembersCons(Greedy(s, fin));
        assert Greedy(s, fin)[1..] == Greedy(s, fin + {first});
      }
      before := TakenWhenReady(s, fin + {first}, i);
    }
  }

  ghost predicate HoldsSomething(s: State, i: nat)
    requires Shaped(s)
  {
    i < N(s) && exists j :: 0 <= j < M(s) && s.allocation[i][j] > 0
  }

  lemma WorkGrows(s: State, small: set<nat>, large: set<nat>, j: nat)
    requires Shaped(s) && j < M(s) && small <= large
    requires forall i :: 0 <= i < N(s) && i in large && i !in small ==> s.allocation[i][j] >= 0
    ensures Work(s, small)[j] <= Work(s, large)[j]
  {
    HeldMonotone(s, small, large, j, N(s));
  }

  /** If c needs what is free once all others have finished, it waits for all who hold something. */
  lemma NotReadyWithout(s: State, c: nat, fin: set<nat>, d: nat)
    requires Shaped(s) && c < N(s) && s.need[c] == Work(s, Customers(N(s)) - {c})
    requires forall i, j :: 0 <= i < N(s) && i != c && 0 <= j < M(s) ==> s.allocation[i][j] >= 0
    requires fin <= Customers(N(s)) - {c} && d !in fin && d != c && HoldsSomething(s, d)
    ensures !Ready(s, fin, c)
  {
    var j :| 0 <= j < M(s) && s.allocation[d][j] > 0;
    WorkInsert(s, fin, d);
    WorkGrows(s, fin + {d}, Customers(N(s)) - {c}, j);
    hide Work;
    assert Work(s, fin + {d})[j] == Work(s, fin)[j] + s.allocation[d][j];
    assert s.need[c][j] > Work(s, fin)[j];
  }

  lemma HoldersFirst(s: State, c: nat, k: nat, eager: set<nat>)
    requires Levered(s, c, k, eager)
    requires forall i :: i in eager && i < N(s) ==> HoldsSomething(s, i)
    ensures GreedySafe(s)
  {
    var done := Members(Greedy(s, {}));
    LeverTurns(s, c, k, eager);
    GreedyRunsToStuck(s, {});
    var before := TakenWhenReady(s, {}, c);
    assert {} + done == done;
    forall i: nat | i < N(s) ensures i in done {
      if i in eager && i !in before {
        NotReadyWithout(s, c, before, i);
        assert false;
      }
    }
  }

  lemma FirstIsEager(s: State, c: nat, k: nat)
    requires Levered(s, c, k, {0})
    ensures GreedySafe(s)
  {
    LeverTurns(s, c, k, {0});
    OthersAreReady(s, c, k, {0}, {}, 0);
    GreedyRunsToStuck(s, {});
    assert FirstReady(s, {}, 0) == 0;
    assert Greedy(s, {})[0] == 0;
    assert Members(Greedy(s, {})) == Customers(N(s));
  }

  // ---------- when c takes away what was free ----------

  lemma {:induction false} HeldByNobody(s: State, fin: set<nat>, j: nat, n: nat)
    requires Shaped(s) && j < M(s) && n <= N(s)
    requires forall i :: 0 <= i < n && i in fin ==> s.allocation[i][j] == 0
    ensures Held(s, fin, j, n) == 0
  {
    if n == 0 {
    } else {
      HeldByNobody(s, fin, j, n - 1);
    }
  }

  /** After the move c still needs what is free once all others have finished. */
  lemma LastNeed(t: State, c: nat, k: nat, eager: set<nat>, v: Vec)
    requires Levered(t, c, k, eager) && |v| == M(t)
    ensures var s := Move(t, c, Neg(v));
            && s.need[c] == Work(s, Customers(N(t)) - {c})
            && (forall i :: 0 <= i < N(t) && i != c ==> s.need[i] == t.need[i] && s.allocation[i] == t.allocation[i])
            && (forall j :: 0 <= j < M(t) ==> s.available[j] == k + v[j])
  {
    WorkAfterMove(t, c, Neg(v), Customers(N(t)) - {c});
  }

  /** With another holder d, nobody who holds anything can finish any more. */
  lemma HoldersAreStuck(t: State, c: nat, k: nat, eager: set<nat>, v: Vec, d: nat)
    requires Levered(t, c, k, eager) && |v| == M(t) && !Vleq(Zero(M(t)), v)
    requires NonNegative(Move(t, c, Neg(v))) && d in eager && d < N(t)
    requires forall i :: 0 <= i < N(t) && i != c ==> (i in eager <==> HoldsSomething(t, i))
    ensures !Safe(Move(t, c, Neg(v)))
  {
    var s := Move(t, c, Neg(v));
    var stuck := Customers(N(t)) - eager - {c};
    LastNeed(t, c, k, eager, v);
    IdleHoldNothing(t, c, k, eager, v, stuck);
    assert HoldsSomething(t, d) && s.allocation[d] == t.allocation[d];
    assert HoldsSomething(s, d);
    NotReadyWithout(s, c, stuck, d);
    var j :| 0 <= j < M(t) && v[j] < 0;
    forall i | 0 <= i < N(s) ensures !Ready(s, stuck, i) {
      if i in eager && i != c {
        assert s.need[i][j] == k > s.available[j];
      }
    }
    StuckIsUnsafe(s, stuck, c);
  }

  lemma IdleHoldNothing(t: State, c: nat, k: nat, eager: set<nat>, v: Vec, stuck: set<nat>)
    requires Levered(t, c, k, eager) && |v| == M(t) && stuck == Customers(N(t)) - eager - {c}
    requires forall i :: 0 <= i < N(t) && i != c ==> (i in eager <==> HoldsSomething(t, i))
    ensures Work(Move(t, c, Neg(v)), stuck) == Move(t, c, Neg(v)).available
  {
    var s := Move(t, c, Neg(v));
    forall j: nat | j < M(t) ensures Held(s, stuck, j, N(t)) == 0 {
      forall i | 0 <= i < N(t) && i in stuck ensures s.allocation[i][j] == 0 {
        assert !HoldsSomething(t, i);
        assert s.allocation[i] == t.allocation[i];
      }
      HeldByNobody(s, stuck, j, N(t));
    }
  }

  lemma WorkWithoutFirst(s: State, c: nat)
    requires Shaped(s) && 0 < c < N(s) && Alone(s.allocation, c)
    ensures Work(s, Customers(N(s)) - {0}) == Add(s.available, s.allocation[c])
  {
    var rest := Customers(N(s)) - {0, c};
    assert rest + {c} == Customers(N(s)) - {0};
    hide Work;
    WorkOfOthers(s, c, rest);
    WorkInsert(s, rest, c);
  }

  /** Alone, but asking back more than it holds, c takes away what the first customer needs. */
  lemma FirstIsStuck(t: State, c: nat, k: nat, v: Vec)
    requires Levered(t, c, k, {0}) && |v| == M(t) && Alone(t.allocation, c) && !Vleq(Zero(M(t)), t.allocation[c])
    requires NonNegative(Move(t, c, Neg(v)))
    ensures !Safe(Move(t, c, Neg(v)))
  {
    var s := Move(t, c, Neg(v));
    var j :| 0 <= j < M(t) && t.allocation[c][j] < 0;
    LastNeed(t, c, k, {0}, v);
    MoveKeepsAlone(t, c, Neg(v));
    assert s.allocation[c][j] == t.allocation[c][j] - v[j];
    assert s.need[0][j] == k;
    hide Levered, Move, Alone, Work, NonNegative, Safe;
    WorkWithoutFirst(s, c);
    assert !Ready(s, Customers(N(s)) - {0}, 0);
    StuckIsUnsafe(s, Customers(N(s)) - {0}, 0);
  }

  // ---------- the books stay balanced ----------

  lemma LeveredHasRoom(t: State, c: nat, k: nat, eager: set<nat>)
    requires Levered(t, c, k, eager)
    ensures Vleq(Uniform(M(t), k), t.available) && Vleq(Uniform(M(t), k), t.need[c])
    ensures forall i :: 0 <= i < N(t) ==> Vleq(Zero(M(t)), t.need[i])
  {
    WorkFloor(t, c, k, eager, Customers(N(t)) - {c});
    hide Work;
  }

  lemma RoomToMove(t: State, c: nat, k: nat, v: Vec)
    requires Shaped(t) && c < N(t) && |v| == M(t) && Magnitude(v) <= k
    requires Vleq(Uniform(M(t), k), t.available) && Vleq(Uniform(M(t), k), t.need[c])
    requires forall i :: 0 <= i < N(t) ==> Vleq(Zero(M(t)), t.need[i])
    ensures var s := Move(t, c, Neg(v));
            NothingNegative(t) && NothingNegative(s) && Vleq(v, s.available) && Vleq(v, s.need[c])
  {
    Covers(t.available, v, k);
    Covers(t.need[c], v, k);
    hide Vleq, Uniform;
  }

  lemma CoversBack(a: Vec, v: Vec, k: nat)
    requires |v| == |a| && Magnitude(v) <= k && Vleq(Uniform(|a|, k), a)
    ensures Vleq(Neg(v), a)
  {
  }

  lemma LeveredIsBalanced(t: State, c: nat, k: nat, eager: set<nat>, v: Vec)
    requires Levered(t, c, k, eager) && |v| == M(t) && Magnitude(v) <= k
    ensures var s := Move(t, c, Neg(v));
            && NothingNegative(t) && NothingNegative(s) && Vleq(v, s.available) && Vleq(v, s.need[c])
            && Vleq(Neg(v), t.available) && Vleq(Neg(v), t.need[c])
  {
    LeveredHasRoom(t, c, k, eager);
    RoomToMove(t, c, k, v);
    CoversBack(t.available, v, k);
    CoversBack(t.need[c], v, k);
  }

  // ---------- exactly when a release keeps safety ----------

  ghost predicate ReleaseAlwaysSafe(alloc: seq<Vec>, m: nat, c: nat, v: Vec)
    requires |v| == m
  {
    forall s: State, maximum: seq<Vec>, total: Vec ::
      Inv(s, maximum, total) && s.allocation == alloc && M(s) == m && Safe(s) ==> Safe(Release(s, c, v).0)
  }

  /** The same only where the books stay balanced. */
  ghost predicate BalancedReleaseAlwaysSafe(alloc: seq<Vec>, m: nat, c: nat, v: Vec)
    requires |v| == m
  {
    forall s: State, maximum: seq<Vec>, total: Vec ::
      (Inv(s, maximum, total) && s.allocation == alloc && M(s) == m && Safe(s)
       && Inv(Release(s, c, v).0, maximum, total)) ==> Safe(Release(s, c, v).0)
  }

  /** For given allocations, a release by c always keeps safety iff it is refused, has no negative
      entry, or nobody else holds anything. */
  lemma ReleaseKeepsSafeIff(alloc: seq<Vec>, m: nat, c: nat, v: Vec)
    requires forall i :: 0 <= i < |alloc| ==> |alloc[i]| == m
    requires forall i, j :: 0 <= i < |alloc| && 0 <= j < m ==> alloc[i][j] >= 0
    requires c < |alloc| && |v| == m
    ensures ReleaseAlwaysSafe(alloc, m, c, v) <==>
            !Vleq(v, alloc[c]) || Vleq(Zero(m), v) || Alone(alloc, c)
    ensures BalancedReleaseAlwaysSafe(alloc, m, c, v) <==> ReleaseAlwaysSafe(alloc, m, c, v)
  {
    if !Vleq(v, alloc[c]) || Vleq(Zero(m), v) || Alone(alloc, c) {
      forall s: State, maximum: seq<Vec>, total: Vec |
        Inv(s, maximum, total) && s.allocation == alloc && M(s) == m && Safe(s)
        ensures Safe(Release(s, c, v).0)
      {
        if Vleq(v, alloc[c]) {
          ReleaseKeepsSafe(s, c, v);
        }
      }
    } else {
      UnsafeRelease(alloc, m, c, v);
    }
  }

  ghost function Holders(alloc: seq<Vec>, m: nat, c: nat): (holders: set<nat>)
    requires forall i :: 0 <= i < |alloc| ==> |alloc[i]| == m
    ensures forall i: nat :: i in holders <==>
              i < |alloc| && i != c && exists j :: 0 <= j < m && alloc[i][j] > 0
  {
    set i: nat | i < |alloc| && i != c && exists j :: 0 <= j < m && alloc[i][j] > 0
  }

  lemma SomeHolder(alloc: seq<Vec>, m: nat, c: nat) returns (d: nat)
    requires forall i :: 0 <= i < |alloc| ==> |alloc[i]| == m
    requires forall i, j :: 0 <= i < |alloc| && i != c && 0 <= j < m ==> alloc[i][j] >= 0
    requires !Alone(alloc, c)
    ensures d in Holders(alloc, m, c)
  {
    var i, j :| 0 <= i < |alloc| && i != c && 0 <= j < |alloc[i]| && alloc[i][j] != 0;
    d := i;
  }

  lemma TakesNoMore(t: State, c: nat, v: Vec)
    requires Shaped(t) && NonNegative(t) && c < N(t) && |v| == M(t) && Vleq(v, t.allocation[c])
    ensures NonNegative(Move(t, c, Neg(v)))
  {
  }

  /** A safe state with these allocations and balanced books that the release makes unsafe. */
  lemma LoseByRelease(alloc: seq<Vec>, m: nat, c: nat, v: Vec) returns (t: State)
    requires forall i :: 0 <= i < |alloc| ==> |alloc[i]| == m
    requires forall i, j :: 0 <= i < |alloc| && 0 <= j < m ==> alloc[i][j] >= 0
    requires c < |alloc| && |v| == m && Vleq(v, alloc[c]) && !Vleq(Zero(m), v) && !Alone(alloc, c)
    ensures Shaped(t) && t.allocation == alloc && M(t) == m && N(t) == |alloc| && Safe(t)
    ensures Inv(t, MaximumOf(t), Work(t, Customers(N(t))))
    ensures Vleq(Neg(v), t.available) && Vleq(Neg(v), t.need[c]) && !Safe(Move(t, c, Neg(v)))
  {
    var k, holders := Magnitude(v), Holders(alloc, m, c);
    t := Lever(alloc, m, c, k, holders);
    var d := SomeHolder(alloc, m, c);
    LeverIsLevered(alloc, m, c, k, holders);
    assert NonNegative(t);
    HoldersHold(t, c);
    hide *;
    LeveredIsBalanced(t, c, k, holders, v);
    BooksBalance(t);
    HoldersFirst(t, c, k, holders);
    GreedySound(t);
    TakesNoMore(t, c, v);
    HoldersAreStuck(t, c, k, holders, v, d);
  }

  lemma HoldersHold(t: State, c: nat)
    requires Shaped(t)
    ensures forall i: nat :: i in Holders(t.allocation, M(t), c) <==> i < N(t) && i != c && HoldsSomething(t, i)
  {
  }

  lemma UnsafeRelease(alloc: seq<Vec>, m: nat, c: nat, v: Vec)
    requires forall i :: 0 <= i < |alloc| ==> |alloc[i]| == m
    requires forall i, j :: 0 <= i < |alloc| && 0 <= j < m ==> alloc[i][j] >= 0
    requires c < |alloc| && |v| == m && Vleq(v, alloc[c]) && !Vleq(Zero(m), v) && !Alone(alloc, c)
    ensures !ReleaseAlwaysSafe(alloc, m, c, v) && !BalancedReleaseAlwaysSafe(alloc, m, c, v)
  {
    var t := LoseByRelease(alloc, m, c, v);
    ReleaseKeepsInvIff(t, c, v, MaximumOf(t), Work(t, Customers(N(t))));
    hide Inv, Safe, Vleq, Move, Work, MaximumOf;
    assert Release(t, c, v).1 == 0;
  }

  // ---------- exactly which requests only a safe state grants ----------

  ghost predicate GrantAlwaysFromSafe(alloc: seq<Vec>, m: nat, c: nat, v: Vec)
    requires |v| == m
  {
    forall s: State, maximum: seq<Vec>, total: Vec ::
      (Inv(s, maximum, total) && s.allocation == alloc && M(s) == m && InBounds(s, c, v)
       && Request(s, c, v).1 == 0) ==> Safe(s)
  }

  /** For given allocations, only safe states grant a request of c iff it has no negative entry, or
      nobody else holds anything and c asks back no more than it holds or is the first customer. */
  lemma GrantNeedsSafeIff(alloc: seq<Vec>, m: nat, c: nat, v: Vec)
    requires forall i :: 0 <= i < |alloc| ==> |alloc[i]| == m
    requires forall i, j :: 0 <= i < |alloc| && 0 <= j < m ==> alloc[i][j] >= 0
    requires c < |alloc| && |v| == m
    ensures GrantAlwaysFromSafe(alloc, m, c, v) <==>
            Vleq(Zero(m), v) || (Alone(alloc, c) && (c == 0 || Vleq(Neg(v), alloc[c])))
  {
    if Vleq(Zero(m), v) || (Alone(alloc, c) && (c == 0 || Vleq(Neg(v), alloc[c]))) {
      forall s: State, maximum: seq<Vec>, total: Vec |
        Inv(s, maximum, total) && s.allocation == alloc && M(s) == m && InBounds(s, c, v)
        && Request(s, c, v).1 == 0
        ensures Safe(s)
      {
        GrantNeedsSafe(s, c, v);
      }
    } else {
      UnsafeGrant(alloc, m, c, v);
    }
  }

  /** The state before a request that leads to t. */
  lemma Rewind(t: State, alloc: seq<Vec>, c: nat, v: Vec)
    requires Shaped(t) && c < |alloc| == N(t) && |v| == |alloc[c]| == M(t)
    requires t.allocation == alloc[c := Add(alloc[c], v)]
    ensures Move(t, c, Neg(v)).allocation == alloc && Move(Move(t, c, Neg(v)), c, v) == t
  {
    assert Move(t, c, Neg(v)).allocation[c] == alloc[c];
    assert Move(t, c, Neg(v)).allocation == alloc;
    MoveBack(t, c, Neg(v));
    assert Neg(Neg(v)) == v;
  }

  /** An unsafe state with these allocations and balanced books that grants the request, when
      somebody else holds something. */
  lemma WinByRequest(alloc: seq<Vec>, m: nat, c: nat, v: Vec) returns (s: State)
    requires forall i :: 0 <= i < |alloc| ==> |alloc[i]| == m
    requires forall i, j :: 0 <= i < |alloc| && 0 <= j < m ==> alloc[i][j] >= 0
    requires c < |alloc| && |v| == m && !Vleq(Zero(m), v) && !Alone(alloc, c)
    ensures Shaped(s) && s.allocation == alloc && M(s) == m && N(s) == |alloc| && !Safe(s)
    ensures Inv(s, MaximumOf(s), Work(s, Customers(N(s))))
    ensures Vleq(v, s.available) && Vleq(v, s.need[c]) && GreedySafe(Move(s, c, v))
  {
    var k, after, holders := Magnitude(v), alloc[c := Add(alloc[c], v)], Holders(alloc, m, c);
    var t := Lever(after, m, c, k, holders);
    var d := SomeHolder(alloc, m, c);
    s := Move(t, c, Neg(v));
    LeverIsLevered(after, m, c, k, holders);
    Rewind(t, alloc, c, v);
    assert NonNegative(s);
    HoldersHold(t, c);
    assert Holders(after, m, c) == holders;
    hide *;
    LeveredIsBalanced(t, c, k, holders, v);
    BooksBalance(s);
    HoldersFirst(t, c, k, holders);
    HoldersAreStuck(t, c, k, holders, v, d);
  }

  /** The same when nobody else holds anything, but c asks back more than it holds. */
  lemma WinAlone(alloc: seq<Vec>, m: nat, c: nat, v: Vec) returns (s: State)
    requires forall i :: 0 <= i < |alloc| ==> |alloc[i]| == m
    requires forall i, j :: 0 <= i < |alloc| && 0 <= j < m ==> alloc[i][j] >= 0
    requires 0 < c < |alloc| && |v| == m && !Vleq(Neg(v), alloc[c]) && Alone(alloc, c)
    ensures Shaped(s) && s.allocation == alloc && M(s) == m && N(s) == |alloc| && !Safe(s)
    ensures Inv(s, MaximumOf(s), Work(s, Customers(N(s))))
    ensures Vleq(v, s.available) && Vleq(v, s.need[c]) && GreedySafe(Move(s, c, v))
  {
    var k, after := Magnitude(v), alloc[c := Add(alloc[c], v)];
    var t := Lever(after, m, c, k, {0});
    s := Move(t, c, Neg(v));
    LeverIsLevered(after, m, c, k, {0});
    Rewind(t, alloc, c, v);
    assert NonNegative(s) && Alone(after, c);
    var j :| 0 <= j < m && Neg(v)[j] > alloc[c][j];
    assert after[c][j] < 0;
    assert !Vleq(Zero(m), after[c]);
    hide *;
    LeveredIsBalanced(t, c, k, {0}, v);
    BooksBalance(s);
    FirstIsEager(t, c, k);
    FirstIsStuck(t, c, k, v);
  }

  lemma UnsafeGrant(alloc: seq<Vec>, m: nat, c: nat, v: Vec)
    requires forall i :: 0 <= i < |alloc| ==> |alloc[i]| == m
    requires forall i, j :: 0 <= i < |alloc| && 0 <= j < m ==> alloc[i][j] >= 0
    requires c < |alloc| && |v| == m && !Vleq(Zero(m), v)
    requires Alone(alloc, c) ==> c > 0 && !Vleq(Neg(v), alloc[c])
    ensures !GrantAlwaysFromSafe(alloc, m, c, v)
  {
    hide Inv, Safe, GreedySafe, Alone, Vleq, Move, Work, MaximumOf;
    var s: State;
    if Alone(alloc, c) {
      s := WinAlone(alloc, m, c, v);
    } else {
      s := WinByRequest(alloc, m, c, v);
    }
    assert Request(s, c, v).1 == 0;
  }
}
