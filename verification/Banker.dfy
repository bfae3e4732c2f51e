/** The banker's algorithm of Project6/banker.c on values: the safety check, requests and
    releases as functions of the state, and what every run of them keeps.
    The numbers of customers and resources are those of the state, so nothing is bounded. */
module Banker {

  type Vec = seq<int>

  /** The arrays `available`, `allocation` and `need`; one row per customer. */
  datatype State = State(available: Vec, allocation: seq<Vec>, need: seq<Vec>)

  function N(s: State): nat { |s.need| }

  function M(s: State): nat { |s.available| }

  predicate Shaped(s: State) {
    && |s.allocation| == N(s)
    && forall i :: 0 <= i < N(s) ==> |s.allocation[i]| == M(s) && |s.need[i]| == M(s)
  }

  predicate Vleq(a: Vec, b: Vec)
    requires |a| == |b|
  {
    forall j :: 0 <= j < |a| ==> a[j] <= b[j]
  }

  function Add(a: Vec, b: Vec): Vec
    requires |a| == |b|
  {
    seq(|a|, j requires 0 <= j < |a| => a[j] + b[j])
  }

  function Neg(a: Vec): Vec {
    seq(|a|, j requires 0 <= j < |a| => -a[j])
  }

  function Zero(m: nat): Vec {
    seq(m, _ => 0)
  }

  function Customers(n: nat): (all: set<nat>)
    ensures forall i: nat :: i in all <==> i < n
    ensures |all| == n
  {
    if n == 0 then {} else Customers(n - 1) + {n - 1}
  }

  function Members(order: seq<nat>): set<nat> {
    set i | i in order
  }

  // ---------- safety, declaratively ----------

  /** What the customers of `fin` among the first n hold of resource j. */
  function Held(s: State, fin: set<nat>, j: nat, n: nat): int
    requires Shaped(s) && j < M(s) && n <= N(s)
  {
    if n == 0 then 0
    else Held(s, fin, j, n - 1) + if n - 1 in fin then s.allocation[n - 1][j] else 0
  }

  /** The free resources once the customers of `fin` have finished and returned everything. */
  function Work(s: State, fin: set<nat>): Vec
    requires Shaped(s)
  {
    seq(M(s), j requires 0 <= j < M(s) => s.available[j] + Held(s, fin, j, N(s)))
  }

  predicate Ready(s: State, fin: set<nat>, i: nat)
    requires Shaped(s)
  {
    i < N(s) && i !in fin && Vleq(s.need[i], Work(s, fin))
  }

  /** The customers of `order` can finish one after another once those of `fin` have. */
  predicate Completes(s: State, fin: set<nat>, order: seq<nat>)
    requires Shaped(s)
    decreases |order|
  {
    order == [] || (Ready(s, fin, order[0]) && Completes(s, fin + {order[0]}, order[1..]))
  }

  predicate Permutation(order: seq<nat>, n: nat) {
    |order| == n && Members(order) == Customers(n)
  }

  /** A safe state: some order of all the customers lets every one of them finish. */
  ghost predicate Safe(s: State)
    requires Shaped(s)
  {
    exists order :: Completes(s, {}, order) && Permutation(order, N(s))
  }

  ghost predicate Stuck(s: State, fin: set<nat>)
    requires Shaped(s)
  {
    forall i :: 0 <= i < N(s) ==> !Ready(s, fin, i)
  }

  ghost predicate NonNegative(s: State)
    requires Shaped(s)
  {
    forall i, j :: 0 <= i < N(s) && 0 <= j < M(s) ==> s.allocation[i][j] >= 0
  }

  /** Nobody but the last customer holds a negative amount. */
  ghost predicate OnlyLastNegative(allocation: seq<Vec>) {
    forall i, j :: 0 <= i < |allocation| - 1 && 0 <= j < |allocation[i]| ==> allocation[i][j] >= 0
  }

  // ---------- the greedy restart loop of safe() ----------

  /** The first customer at or after `from` that is ready, or N. */
  function FirstReady(s: State, fin: set<nat>, from: nat): (i: nat)
    requires Shaped(s) && from <= N(s)
    ensures from <= i <= N(s)
    ensures i < N(s) ==> Ready(s, fin, i)
    ensures forall k :: from <= k < i ==> !Ready(s, fin, k)
    decreases N(s) - from
  {
    if from == N(s) || Ready(s, fin, from) then from else FirstReady(s, fin, from + 1)
  }

  /** The order in which the loop marks customers finished, starting from `fin`. */
  function Greedy(s: State, fin: set<nat>): seq<nat>
    requires Shaped(s)
    decreases Customers(N(s)) - fin
  {
    var i := FirstReady(s, fin, 0);
    if i == N(s) then []
    else
      assert i in Customers(N(s)) - fin;
      [i] + Greedy(s, fin + {i})
  }

  predicate GreedySafe(s: State)
    requires Shaped(s)
  {
    Members(Greedy(s, {})) == Customers(N(s))
  }

  lemma {:induction false} HeldInsert(s: State, fin: set<nat>, i: nat, j: nat, n: nat)
    requires Shaped(s) && j < M(s) && n <= N(s) && i < N(s) && i !in fin
    ensures Held(s, fin + {i}, j, n) == Held(s, fin, j, n) + if i < n then s.allocation[i][j] else 0
  {
    if n == 0 {
    } else {
      HeldInsert(s, fin, i, j, n - 1);
    }
  }

  lemma WorkInsert(s: State, fin: set<nat>, i: nat)
    requires Shaped(s) && i < N(s) && i !in fin
    ensures Work(s, fin + {i}) == Add(Work(s, fin), s.allocation[i])
  {
    forall j: nat | j < M(s)
      ensures Work(s, fin + {i})[j] == Work(s, fin)[j] + s.allocation[i][j]
    {
      HeldInsert(s, fin, i, j, N(s));
    }
  }

  lemma {:induction false} HeldMonotone(s: State, small: set<nat>, large: set<nat>, j: nat, n: nat)
    requires Shaped(s) && j < M(s) && n <= N(s) && small <= large
    requires forall i :: 0 <= i < n && i in large && i !in small ==> s.allocation[i][j] >= 0
    ensures Held(s, small, j, n) <= Held(s, large, j, n)
  {
    if n == 0 {
    } else {
      HeldMonotone(s, small, large, j, n - 1);
    }
  }

  /** More is free when more customers have finished, if those hold nothing negative. */
  lemma WorkMonotone(s: State, small: set<nat>, large: set<nat>)
    requires Shaped(s) && small <= large
    requires OnlyLastNegative(s.allocation)
    requires NonNegative(s) || (N(s) - 1 in small <==> N(s) - 1 in large)
    ensures Vleq(Work(s, small), Work(s, large))
  {
    forall j: nat | j < M(s)
      ensures Work(s, small)[j] <= Work(s, large)[j]
    {
      HeldMonotone(s, small, large, j, N(s));
    }
  }

  lemma MembersCons(order: seq<nat>)
    requires order != []
    ensures Members(order) == {order[0]} + Members(order[1..])
  {
  }

  /** One turn of the loop: either nobody is ready, or the first who is gets finished. */
  lemma GreedyStep(s: State, fin: set<nat>)
    requires Shaped(s)
    ensures var i := FirstReady(s, fin, 0);
            if i == N(s) then Members(Greedy(s, fin)) == {}
            else i in Customers(N(s)) - fin &&
                 fin + {i} + Members(Greedy(s, fin + {i})) == fin + Members(Greedy(s, fin))
  {
  }

  lemma {:induction false} CompletesDistinct(s: State, fin: set<nat>, order: seq<nat>)
    requires Shaped(s) && Completes(s, fin, order)
    ensures Members(order) !! fin && |Members(order)| == |order|
    decreases |order|
  {
    if order == [] {
    } else {
      CompletesDistinct(s, fin + {order[0]}, order[1..]);
      MembersCons(order);
    }
  }

  /** The loop only finishes customers that can finish, and stops where nobody can. */
  lemma {:induction false} GreedyRunsToStuck(s: State, fin: set<nat>)
    requires Shaped(s)
    ensures Completes(s, fin, Greedy(s, fin))
    ensures Stuck(s, fin + Members(Greedy(s, fin)))
    ensures Members(Greedy(s, fin)) <= Customers(N(s))
    decreases Customers(N(s)) - fin
  {
    var i := FirstReady(s, fin, 0);
    if i < N(s) {
      assert i in Customers(N(s)) - fin;
      GreedyRunsToStuck(s, fin + {i});
      var g := Greedy(s, fin);
      assert g[1..] == Greedy(s, fin + {i});
      MembersCons(g);
      assert fin + {i} + Members(g[1..]) == fin + Members(g);
    } else {
      assert fin + Members(Greedy(s, fin)) == fin;
    }
  }

  /** Exchange argument: whoever can finish in some order is already in every stuck set. */
  lemma {:induction false} StuckAbsorbs(s: State, stuck: set<nat>, fin: set<nat>, order: seq<nat>)
    requires Shaped(s) && NonNegative(s)
    requires Stuck(s, stuck) && fin <= stuck && Completes(s, fin, order)
    ensures Members(order) <= stuck
    decreases |order|
  {
    if order == [] {
    } else {
      var i := order[0];
      WorkMonotone(s, fin, stuck);
      assert !Ready(s, stuck, i);
      assert i in stuck;
      StuckAbsorbs(s, stuck, fin + {i}, order[1..]);
      MembersCons(order);
    }
  }

  /** `done` is where the loop stops, and `before` what had finished when it came to the last
      customer; when it never did, they are the same. */
  ghost predicate Gate(s: State, before: set<nat>, done: set<nat>)
    requires Shaped(s)
  {
    && before <= done <= Customers(N(s)) && N(s) - 1 !in before && Stuck(s, done)
    && (forall i :: 0 <= i < N(s) - 1 ==> !Ready(s, before, i))
    && if N(s) - 1 in done then Ready(s, before, N(s) - 1) else before == done
  }

  /** The loop takes the last customer only when nobody else is ready. */
  lemma {:induction false} GreedyGate(s: State, fin: set<nat>) returns (before: set<nat>)
    requires Shaped(s) && fin <= Customers(N(s)) && N(s) - 1 !in fin
    ensures fin <= before && Gate(s, before, fin + Members(Greedy(s, fin)))
    decreases Customers(N(s)) - fin
  {
    var i := FirstReady(s, fin, 0);
    GreedyStep(s, fin);
    GreedyRunsToStuck(s, fin);
    before := fin;
    if i + 1 < N(s) {
      before := GreedyGate(s, fin + {i});
    } else if i == N(s) {
      assert fin + Members(Greedy(s, fin)) == fin;
    }
  }

  /** The exchange argument when the last customer may hold a negative amount: before an order
      comes to that customer, it is within `before`; afterwards, within `done`. */
  lemma {:induction false} GateAbsorbs(s: State, before: set<nat>, done: set<nat>, fin: set<nat>, order: seq<nat>)
    requires Shaped(s) && OnlyLastNegative(s.allocation) && Gate(s, before, done)
    requires if N(s) - 1 in fin then fin <= done else fin <= before
    requires Completes(s, fin, order)
    ensures Members(order) <= done
    decreases |order|
  {
    if order == [] {
    } else {
      GateTakes(s, before, done, fin, order[0]);
      GateAbsorbs(s, before, done, fin + {order[0]}, order[1..]);
      MembersCons(order);
    }
  }

  lemma GateTakes(s: State, before: set<nat>, done: set<nat>, fin: set<nat>, i: nat)
    requires Shaped(s) && OnlyLastNegative(s.allocation) && Gate(s, before, done)
    requires if N(s) - 1 in fin then fin <= done else fin <= before
    requires Ready(s, fin, i)
    ensures i in done && (N(s) - 1 !in fin && i != N(s) - 1 ==> i in before)
  {
    if N(s) - 1 in fin {
      WorkMonotone(s, fin, done);
      assert !Ready(s, done, i);
    } else {
      WorkMonotone(s, fin, before);
      assert i < N(s) - 1 ==> !Ready(s, before, i);
      assert !Ready(s, done, i);
    }
  }

  /** The finished set is the largest one any order reaches, whatever order the scan uses. */
  lemma GreedyIsLargest(s: State, order: seq<nat>)
    requires Shaped(s) && OnlyLastNegative(s.allocation) && Completes(s, {}, order)
    ensures Members(order) <= Members(Greedy(s, {}))
    ensures NonNegative(s) && Stuck(s, Members(order)) ==> Members(order) == Members(Greedy(s, {}))
  {
    var g := Greedy(s, {});
    GreedyRunsToStuck(s, {});
    assert {} + Members(g) == Members(g);
    var before := GreedyGate(s, {});
    GateAbsorbs(s, before, Members(g), {}, order);
    if NonNegative(s) && Stuck(s, Members(order)) {
      StuckAbsorbs(s, Members(order), {}, g);
    }
  }

  /** safe() answers yes only for safe states, even when entries are negative. */
  lemma GreedySound(s: State)
    requires Shaped(s) && GreedySafe(s)
    ensures Safe(s)
  {
    GreedyRunsToStuck(s, {});
    CompletesDistinct(s, {}, Greedy(s, {}));
  }

  /** The final loop of safe(). */
  lemma GreedySafeIff(s: State)
    requires Shaped(s)
    ensures GreedySafe(s) <==> Customers(N(s)) <= Members(Greedy(s, {}))
  {
    GreedyRunsToStuck(s, {});
  }

  /** safe() decides safety when nobody but the last customer holds a negative amount. */
  lemma GreedyDecidesSafe(s: State)
    requires Shaped(s) && OnlyLastNegative(s.allocation)
    ensures GreedySafe(s) <==> Safe(s)
  {
    GreedyRunsToStuck(s, {});
    if GreedySafe(s) {
      GreedySound(s);
    }
    if Safe(s) {
      var order :| Completes(s, {}, order) && Permutation(order, N(s));
      GreedyIsLargest(s, order);
    }
  }

  // ---------- requests and releases ----------

  /** Moves v from the available resources to customer c, who then needs that much less. */
  function Move(s: State, c: nat, v: Vec): (t: State)
    requires Shaped(s) && c < N(s) && |v| == M(s)
    ensures Shaped(t) && N(t) == N(s) && M(t) == M(s)
  {
    State(Add(s.available, Neg(v)),
          s.allocation[c := Add(s.allocation[c], v)],
          s.need[c := Add(s.need[c], Neg(v))])
  }

  /** The source tests c against N with `>`, so that a vector that is available makes it read
      `need` out of bounds for the customer number N. */
  predicate InBounds(s: State, c: nat, v: Vec)
    requires |v| == M(s)
  {
    c == N(s) ==> !Vleq(v, s.available)
  }

  function Request(s: State, c: nat, v: Vec): (r: (State, int))
    requires Shaped(s) && |v| == M(s) && InBounds(s, c, v)
    ensures Shaped(r.0) && N(r.0) == N(s) && M(r.0) == M(s)
  {
    if c > N(s) then (s, -1)
    else if !Vleq(v, s.available) then (s, -2)
    else if !Vleq(v, s.need[c]) then (s, -3)
    else if !GreedySafe(Move(s, c, v)) then (s, 1)
    else (Move(s, c, v), 0)
  }

  function Release(s: State, c: nat, v: Vec): (r: (State, int))
    requires Shaped(s) && |v| == M(s)
    ensures Shaped(r.0) && N(r.0) == N(s) && M(r.0) == M(s)
  {
    if c >= N(s) then (s, -1)
    else if !Vleq(v, s.allocation[c]) then (s, 1)
    else (Move(s, c, Neg(v)), 0)
  }

  lemma MoveBack(s: State, c: nat, v: Vec)
    requires Shaped(s) && c < N(s) && |v| == M(s)
    ensures Move(Move(s, c, v), c, Neg(v)) == s
  {
    var t := Move(Move(s, c, v), c, Neg(v));
    assert t.available == s.available;
    assert t.allocation[c] == s.allocation[c] && t.need[c] == s.need[c];
    assert t.allocation == s.allocation && t.need == s.need;
  }

  lemma {:induction false} HeldAfterMove(s: State, c: nat, v: Vec, fin: set<nat>, j: nat, n: nat)
    requires Shaped(s) && c < N(s) && |v| == M(s) && j < M(s) && n <= N(s)
    ensures Held(Move(s, c, v), fin, j, n) == Held(s, fin, j, n) + if c in fin && c < n then v[j] else 0
  {
    if n == 0 {
    } else {
      HeldAfterMove(s, c, v, fin, j, n - 1);
    }
  }

  lemma WorkAfterMove(s: State, c: nat, v: Vec, fin: set<nat>)
    requires Shaped(s) && c < N(s) && |v| == M(s)
    ensures Work(Move(s, c, v), fin) == if c in fin then Work(s, fin) else Add(Work(s, fin), Neg(v))
  {
    var t := Move(s, c, v);
    forall j: nat | j < M(s)
      ensures Work(t, fin)[j] == Work(s, fin)[j] - if c in fin then 0 else v[j]
    {
      HeldAfterMove(s, c, v, fin, j, N(s));
    }
  }

  // ---------- what a call answers, entry by entry ----------

  /** t is s after v has gone from the available resources to customer c. */
  ghost predicate Transferred(s: State, c: nat, v: Vec, t: State) {
    && Shaped(s) && Shaped(t) && N(t) == N(s) && M(t) == M(s) == |v| && c < N(s)
    && (forall j :: 0 <= j < M(s) ==> t.available[j] == s.available[j] - v[j])
    && (forall j :: 0 <= j < M(s) ==> t.allocation[c][j] == s.allocation[c][j] + v[j])
    && (forall j :: 0 <= j < M(s) ==> t.need[c][j] == s.need[c][j] - v[j])
    && (forall i :: 0 <= i < N(s) && i != c ==> t.allocation[i] == s.allocation[i] && t.need[i] == s.need[i])
  }

  lemma TransferredIsMove(s: State, c: nat, v: Vec, t: State)
    requires Shaped(s) && c < N(s) && |v| == M(s)
    ensures Transferred(s, c, v, t) <==> t == Move(s, c, v)
  {
    if Transferred(s, c, v, t) {
      var u := Move(s, c, v);
      assert t.available == u.available;
      assert t.allocation[c] == u.allocation[c] && t.need[c] == u.need[c];
      assert t.allocation == u.allocation && t.need == u.need;
    }
  }

  /** Some entry of v is larger than that of w. */
  ghost predicate Exceeds(v: Vec, w: Vec)
    requires |v| == |w|
  {
    exists j :: 0 <= j < |v| && v[j] > w[j]
  }

  lemma VleqIff(v: Vec, w: Vec)
    requires |v| == |w|
    ensures Vleq(v, w) <==> !Exceeds(v, w)
  {
  }

  /** -1 for a customer that does not exist, -2 for more than is available, -3 for more than is
      needed; everything else reaches the safety check. */
  lemma RequestAnswers(s: State, c: nat, v: Vec)
    requires Shaped(s) && |v| == M(s) && InBounds(s, c, v)
    ensures var (t, code) := Request(s, c, v);
            && (code == -1 <==> c > N(s))
            && (code == -2 <==> c <= N(s) && exists j :: 0 <= j < M(s) && v[j] > s.available[j])
            && (code == -3 <==> c < N(s) && (forall j :: 0 <= j < M(s) ==> v[j] <= s.available[j])
                                && exists j :: 0 <= j < M(s) && v[j] > s.need[c][j])
            && -3 <= code <= 1
            && (code == 0 ==> Transferred(s, c, v, t)) && (code != 0 ==> t == s)
  {
    VleqIff(v, s.available);
    if c < N(s) {
      VleqIff(v, s.need[c]);
      TransferredIsMove(s, c, v, Move(s, c, v));
    }
    hide Transferred, GreedySafe, Move, Vleq;
  }

  /** A request within what is available and needed is granted iff the state it leads to is safe. */
  lemma RequestGrantsIff(s: State, c: nat, v: Vec, t: State)
    requires Transferred(s, c, v, t) && OnlyLastNegative(t.allocation)
    requires forall j :: 0 <= j < M(s) ==> v[j] <= s.available[j] && v[j] <= s.need[c][j]
    ensures Request(s, c, v).1 == (if Safe(t) then 0 else 1)
  {
    TransferredIsMove(s, c, v, t);
    assert Vleq(v, s.available) && Vleq(v, s.need[c]);
    hide Transferred, GreedySafe, Safe, Move, Vleq;
    GreedyDecidesSafe(t);
  }

  /** 0 exactly when the customer exists and holds at least v, which it then no longer does. */
  lemma ReleaseAnswers(s: State, c: nat, v: Vec)
    requires Shaped(s) && |v| == M(s)
    ensures var (t, code) := Release(s, c, v);
            && (code == -1 <==> c >= N(s))
            && (code == 1 <==> c < N(s) && exists j :: 0 <= j < M(s) && v[j] > s.allocation[c][j])
            && -1 <= code <= 1
            && (code == 0 ==> Transferred(t, c, v, s)) && (code != 0 ==> t == s)
  {
    if c < N(s) {
      VleqIff(v, s.allocation[c]);
      TransferredIsMove(s, c, Neg(v), Move(s, c, Neg(v)));
    }
  }

  // ---------- invariants over whole runs ----------

  datatype Op = RQ(customer: nat, vector: Vec) | RL(customer: nat, vector: Vec)

  /** Calls the source can serve without reading out of bounds. */
  predicate Possible(s: State, op: Op) {
    |op.vector| == M(s) && (op.RQ? ==> InBounds(s, op.customer, op.vector))
  }

  /** Nobody but c holds anything. */
  predicate Alone(allocation: seq<Vec>, c: nat) {
    forall i, j :: 0 <= i < |allocation| && i != c && 0 <= j < |allocation[i]| ==> allocation[i][j] == 0
  }

  /** A vector with negative entries that keeps the books: it asks back no more than c holds, or
      takes no more than is available and needed. */
  predicate Covered(s: State, op: Op)
    requires Shaped(s) && Possible(s, op) && op.customer < N(s)
  {
    match op
    case RQ(c, v) => Vleq(Neg(v), s.allocation[c])
    case RL(c, v) => Vleq(Neg(v), s.available) && Vleq(Neg(v), s.need[c])
  }

  predicate NonNegativeVector(op: Op) {
    forall j :: 0 <= j < |op.vector| ==> op.vector[j] >= 0
  }

  predicate NonNegativeVectors(ops: seq<Op>) {
    forall k :: 0 <= k < |ops| ==> NonNegativeVector(ops[k])
  }

  /** Calls that cannot spoil the books or safety: those with non-negative vectors, those that are
      refused, and those of a customer that alone holds anything, if they are covered. */
  predicate Admissible(s: State, op: Op)
    requires Shaped(s)
  {
    && Possible(s, op)
    && (NonNegativeVector(op) || Step(s, op).1 != 0
        || (op.customer < N(s) && Alone(s.allocation, op.customer) && Covered(s, op)))
  }

  function Step(s: State, op: Op): (r: (State, int))
    requires Shaped(s) && Possible(s, op)
    ensures Shaped(r.0) && N(r.0) == N(s) && M(r.0) == M(s)
  {
    match op
    case RQ(c, v) => Request(s, c, v)
    case RL(c, v) => Release(s, c, v)
  }

  predicate AllAdmissible(s: State, ops: seq<Op>)
    requires Shaped(s)
    decreases |ops|
  {
    ops == [] || (Admissible(s, ops[0]) && AllAdmissible(Step(s, ops[0]).0, ops[1..]))
  }

  function Run(s: State, ops: seq<Op>): (t: State)
    requires Shaped(s) && AllAdmissible(s, ops)
    ensures Shaped(t) && N(t) == N(s) && M(t) == M(s)
    decreases |ops|
  {
    if ops == [] then s else Run(Step(s, ops[0]).0, ops[1..])
  }

  /** How many requests of the run are granted. */
  function Grants(s: State, ops: seq<Op>): nat
    requires Shaped(s) && AllAdmissible(s, ops)
    decreases |ops|
  {
    if ops == [] then 0
    else
      var (t, code) := Step(s, ops[0]);
      (if ops[0].RQ? && code == 0 then 1 else 0) + Grants(t, ops[1..])
  }

  /** The state main() sets up: nothing allocated, everything needed. */
  function Initial(maximum: seq<Vec>, available: Vec): State {
    State(available, seq(|maximum|, _ => Zero(|available|)), maximum)
  }

  predicate GoodInput(maximum: seq<Vec>, available: Vec) {
    && (forall j :: 0 <= j < |available| ==> available[j] >= 0)
    && (forall i :: 0 <= i < |maximum| ==> |maximum[i]| == |available|)
    && (forall i, j :: 0 <= i < |maximum| && 0 <= j < |available| ==> maximum[i][j] >= 0)
  }

  /** Nothing is created, lost or overdrawn. */
  ghost predicate Inv(s: State, maximum: seq<Vec>, total: Vec) {
    && Shaped(s) && NonNegative(s)
    && N(s) == |maximum| && M(s) == |total|
    && (forall i :: 0 <= i < N(s) ==> |maximum[i]| == M(s))
    && (forall i, j :: 0 <= i < N(s) && 0 <= j < M(s) ==>
          s.need[i][j] >= 0 && s.allocation[i][j] + s.need[i][j] == maximum[i][j])
    && (forall j :: 0 <= j < M(s) ==>
          s.available[j] >= 0 && s.available[j] + Held(s, Customers(N(s)), j, N(s)) == total[j])
  }

  lemma {:induction false} NothingHeld(s: State, fin: set<nat>, j: nat, n: nat)
    requires Shaped(s) && j < M(s) && n <= N(s)
    requires forall i :: 0 <= i < n ==> s.allocation[i][j] == 0
    ensures Held(s, fin, j, n) == 0
  {
    if n == 0 {
    } else {
      NothingHeld(s, fin, j, n - 1);
    }
  }

  lemma InitialInv(maximum: seq<Vec>, available: Vec)
    requires GoodInput(maximum, available)
    ensures Inv(Initial(maximum, available), maximum, available)
  {
    var s := Initial(maximum, available);
    forall j: nat | j < M(s)
      ensures Held(s, Customers(N(s)), j, N(s)) == 0
    {
      NothingHeld(s, Customers(N(s)), j, N(s));
    }
  }

  /** Moving v keeps the invariant exactly when it leaves no entry negative. */
  lemma MoveKeepsInv(s: State, c: nat, v: Vec, maximum: seq<Vec>, total: Vec)
    requires Inv(s, maximum, total) && c < N(s) && |v| == M(s)
    ensures Inv(Move(s, c, v), maximum, total) <==>
            Vleq(v, s.available) && Vleq(v, s.need[c]) && Vleq(Neg(v), s.allocation[c])
  {
    var t := Move(s, c, v);
    var all := Customers(N(s));
    forall j: nat | j < M(s)
      ensures t.available[j] + Held(t, all, j, N(t)) == total[j]
      ensures t.available[j] == s.available[j] - v[j]
      ensures t.need[c][j] == s.need[c][j] - v[j]
      ensures t.allocation[c][j] == s.allocation[c][j] + v[j]
    {
      HeldAfterMove(s, c, v, all, j, N(s));
    }
  }

  /** Any vector, negative entries included: a request keeps the invariant exactly when it is
      refused or asks back no more than the customer holds. */
  lemma RequestKeepsInvIff(s: State, c: nat, v: Vec, maximum: seq<Vec>, total: Vec)
    requires Inv(s, maximum, total) && |v| == M(s) && InBounds(s, c, v)
    ensures Inv(Request(s, c, v).0, maximum, total) <==>
            Request(s, c, v).1 != 0 || Vleq(Neg(v), s.allocation[c])
  {
    if Request(s, c, v).1 == 0 {
      MoveKeepsInv(s, c, v, maximum, total);
    }
  }

  /** A release keeps it exactly when it is refused or takes no more than is available and needed. */
  lemma ReleaseKeepsInvIff(s: State, c: nat, v: Vec, maximum: seq<Vec>, total: Vec)
    requires Inv(s, maximum, total) && |v| == M(s)
    ensures Inv(Release(s, c, v).0, maximum, total) <==>
            Release(s, c, v).1 != 0 || (Vleq(Neg(v), s.available) && Vleq(Neg(v), s.need[c]))
  {
    if Release(s, c, v).1 == 0 {
      MoveKeepsInv(s, c, Neg(v), maximum, total);
      assert Neg(Neg(v)) == v;
    }
  }

  lemma StepKeepsInv(s: State, op: Op, maximum: seq<Vec>, total: Vec)
    requires Inv(s, maximum, total) && Admissible(s, op)
    ensures Inv(Step(s, op).0, maximum, total)
  {
    match op
    case RQ(c, v) => RequestKeepsInvIff(s, c, v, maximum, total);
    case RL(c, v) => ReleaseKeepsInvIff(s, c, v, maximum, total);
  }

  lemma {:induction false} RunKeepsInv(s: State, ops: seq<Op>, maximum: seq<Vec>, total: Vec)
    requires Inv(s, maximum, total) && AllAdmissible(s, ops)
    ensures Inv(Run(s, ops), maximum, total)
    decreases |ops|
  {
    if ops == [] {
    } else {
      StepKeepsInv(s, ops[0], maximum, total);
      RunKeepsInv(Step(s, ops[0]).0, ops[1..], maximum, total);
    }
  }

  /** Returning resources never spoils an order: the same order still works. */
  lemma {:induction false} ReturnKeepsOrder(s: State, c: nat, v: Vec, fin: set<nat>, order: seq<nat>)
    requires Shaped(s) && c < N(s) && |v| == M(s) && Vleq(Zero(M(s)), v)
    requires Completes(s, fin, order)
    ensures Completes(Move(s, c, Neg(v)), fin, order)
    decreases |order|
  {
    if order == [] {
    } else {
      WorkAfterMove(s, c, Neg(v), fin);
      ReturnKeepsOrder(s, c, v, fin + {order[0]}, order[1..]);
    }
  }

  lemma ReturnKeepsSafe(s: State, c: nat, v: Vec)
    requires Shaped(s) && c < N(s) && |v| == M(s) && Vleq(Zero(M(s)), v) && Safe(s)
    ensures Safe(Move(s, c, Neg(v)))
  {
    var order :| Completes(s, {}, order) && Permutation(order, N(s));
    ReturnKeepsOrder(s, c, v, {}, order);
  }

  /** While c has not finished, nothing comes back if the others hold nothing. */
  lemma {:induction false} HeldByOthers(s: State, c: nat, fin: set<nat>, j: nat, n: nat)
    requires Shaped(s) && Alone(s.allocation, c) && c !in fin && j < M(s) && n <= N(s)
    ensures Held(s, fin, j, n) == 0
  {
    if n == 0 {
    } else {
      HeldByOthers(s, c, fin, j, n - 1);
    }
  }

  lemma WorkOfOthers(s: State, c: nat, fin: set<nat>)
    requires Shaped(s) && Alone(s.allocation, c) && c !in fin
    ensures Work(s, fin) == s.available
  {
    forall j: nat | j < M(s) ensures Held(s, fin, j, N(s)) == 0 {
      HeldByOthers(s, c, fin, j, N(s));
    }
  }

  /** If c alone holds anything, any order in which it can finish lets it finish first. */
  lemma {:induction false} LoneHolderIsReady(s: State, c: nat, fin: set<nat>, order: seq<nat>)
    requires Shaped(s) && Alone(s.allocation, c) && c !in fin && c in order && Completes(s, fin, order)
    ensures Ready(s, {}, c)
    decreases |order|
  {
    if order[0] == c {
      WorkOfOthers(s, c, fin);
      WorkOfOthers(s, c, {});
    } else {
      LoneHolderIsReady(s, c, fin + {order[0]}, order[1..]);
    }
  }

  lemma SafeLoneHolderIsReady(s: State, c: nat)
    requires Shaped(s) && Alone(s.allocation, c) && c < N(s) && Safe(s)
    ensures Ready(s, {}, c)
  {
    var order :| Completes(s, {}, order) && Permutation(order, N(s));
    assert c in Customers(N(s));
    LoneHolderIsReady(s, c, {}, order);
  }

  lemma ReadyAfterMove(s: State, c: nat, v: Vec)
    requires Shaped(s) && Ready(s, {}, c) && |v| == M(s)
    ensures Ready(Move(s, c, v), {}, c)
  {
    WorkAfterMove(s, c, v, {});
  }

  /** Whatever the lone holder takes or gives back, the state stays safe. */
  lemma LoneMoveKeepsSafe(s: State, c: nat, v: Vec)
    requires Shaped(s) && NonNegative(s) && Alone(s.allocation, c) && c < N(s) && |v| == M(s) && Safe(s)
    ensures Safe(Move(s, c, v))
  {
    SafeLoneHolderIsReady(s, c);
    var rest := OrderStartingWith(s, c);
    MoveOfFinishedKeepsOrder(s, c, v, {c}, rest);
    ReadyAfterMove(s, c, v);
    SafeFromFirst(Move(s, c, v), c, rest);
  }

  /** Releasing keeps a state safe, with negative entries too if nobody else holds anything. */
  lemma ReleaseKeepsSafe(s: State, c: nat, v: Vec)
    requires Shaped(s) && |v| == M(s) && Safe(s)
    requires Vleq(Zero(M(s)), v) || (NonNegative(s) && Alone(s.allocation, c))
    ensures Safe(Release(s, c, v).0)
  {
    if Release(s, c, v).1 == 0 {
      if Vleq(Zero(M(s)), v) {
        ReturnKeepsSafe(s, c, v);
      } else {
        LoneMoveKeepsSafe(s, c, Neg(v));
      }
    }
  }

  lemma StepKeepsNonNegative(s: State, op: Op)
    requires Shaped(s) && NonNegative(s) && Admissible(s, op)
    ensures NonNegative(Step(s, op).0)
  {
    if Step(s, op).1 == 0 {
      var v := if op.RQ? then op.vector else Neg(op.vector);
      assert Vleq(Neg(v), s.allocation[op.customer]);
      assert Step(s, op).0 == Move(s, op.customer, v);
      hide Move, Admissible, Step;
      MoveKeepsAlone(s, op.customer, v);
    }
  }

  lemma StepKeepsSafe(s: State, op: Op)
    requires Shaped(s) && Admissible(s, op) && Safe(s) && (NonNegative(s) || NonNegativeVector(op))
    ensures Safe(Step(s, op).0)
  {
    match op
    case RQ(c, v) =>
      if Request(s, c, v).1 == 0 {
        GreedySound(Move(s, c, v));
      }
    case RL(c, v) =>
      if Release(s, c, v).1 == 0 {
        ReleaseKeepsSafe(s, c, v);
      }
  }

  lemma {:induction false} RunKeepsSafe(s: State, ops: seq<Op>)
    requires Shaped(s) && AllAdmissible(s, ops) && Safe(s) && (NonNegative(s) || NonNegativeVectors(ops))
    ensures Safe(Run(s, ops))
    decreases |ops|
  {
    if ops == [] {
    } else {
      StepKeepsSafe(s, ops[0]);
      if NonNegative(s) {
        StepKeepsNonNegative(s, ops[0]);
      }
      RunKeepsSafe(Step(s, ops[0]).0, ops[1..]);
    }
  }

  // ---------- the unchecked initial state ----------

  lemma WorkWithNothingHeld(s: State, fin: set<nat>)
    requires Shaped(s)
    requires forall i :: 0 <= i < N(s) ==> s.allocation[i] == Zero(M(s))
    ensures Work(s, fin) == s.available
  {
    forall j: nat | j < M(s) ensures Held(s, fin, j, N(s)) == 0 {
      NothingHeld(s, fin, j, N(s));
    }
  }

  /** main() never checks it: the initial state is safe iff each maximum alone fits. */
  lemma InitialSafeIff(maximum: seq<Vec>, available: Vec)
    requires GoodInput(maximum, available)
    ensures Safe(Initial(maximum, available)) <==>
            forall i :: 0 <= i < |maximum| ==> Vleq(maximum[i], available)
  {
    var s := Initial(maximum, available);
    if forall i :: 0 <= i < |maximum| ==> Vleq(maximum[i], available) {
      FittingIsSafe(s);
    } else {
      var bad :| 0 <= bad < |maximum| && !Vleq(maximum[bad], available);
      MisfitIsUnsafe(s, bad);
    }
  }

  lemma FittingIsSafe(s: State)
    requires Shaped(s)
    requires forall i :: 0 <= i < N(s) ==> s.allocation[i] == Zero(M(s)) && Vleq(s.need[i], s.available)
    ensures Safe(s)
  {
    var done := Members(Greedy(s, {}));
    GreedyRunsToStuck(s, {});
    WorkWithNothingHeld(s, done);
    assert {} + done == done;
    forall i: nat | i < N(s) ensures i in done {
      assert !Ready(s, done, i);
    }
    GreedySound(s);
  }

  lemma MisfitIsUnsafe(s: State, bad: nat)
    requires Shaped(s) && bad < N(s) && !Vleq(s.need[bad], s.available)
    requires forall i :: 0 <= i < N(s) ==> s.allocation[i] == Zero(M(s))
    ensures !Safe(s)
  {
    var stuck := Customers(N(s)) - {bad};
    WorkWithNothingHeld(s, stuck);
    assert Stuck(s, stuck);
    forall order | Completes(s, {}, order)
      ensures !Permutation(order, N(s))
    {
      StuckAbsorbs(s, stuck, {}, order);
      assert bad in Customers(N(s)) && bad !in stuck;
    }
  }

  /** The first customer, if it alone holds anything, is the first that the loop finishes. */
  lemma FirstLoneHolder(s: State) returns (rest: seq<nat>)
    requires Shaped(s) && N(s) > 0 && Alone(s.allocation, 0) && GreedySafe(s)
    ensures Ready(s, {}, 0) && Completes(s, {0}, rest) && {0} + Members(rest) == Customers(N(s))
  {
    GreedySound(s);
    SafeLoneHolderIsReady(s, 0);
    assert FirstReady(s, {}, 0) == 0;
    rest := Greedy(s, {} + {0});
    GreedyStep(s, {});
    assert {} + {0} == {0};
    GreedyRunsToStuck(s, {0});
    assert {} + Members(Greedy(s, {})) == Members(Greedy(s, {}));
  }

  lemma FirstMoveKeepsSafe(s: State, v: Vec)
    requires Shaped(s) && N(s) > 0 && Alone(s.allocation, 0) && GreedySafe(s) && |v| == M(s)
    ensures Safe(Move(s, 0, v))
  {
    var rest := FirstLoneHolder(s);
    MoveOfFinishedKeepsOrder(s, 0, v, {0}, rest);
    ReadyAfterMove(s, 0, v);
    SafeFromFirst(Move(s, 0, v), 0, rest);
  }

  lemma MoveKeepsAlone(s: State, c: nat, v: Vec)
    requires Shaped(s) && c < N(s) && |v| == M(s)
    ensures Alone(s.allocation, c) ==> Alone(Move(s, c, v).allocation, c)
    ensures NonNegative(s) && Vleq(Neg(v), s.allocation[c]) ==> NonNegative(Move(s, c, v))
  {
  }

  /** Only safe states grant a request for a vector without negative entries, or of a customer that
      alone holds anything, if it asks back no more than it holds or is the first. */
  lemma GrantNeedsSafe(s: State, c: nat, v: Vec)
    requires Shaped(s) && |v| == M(s) && InBounds(s, c, v) && Request(s, c, v).1 == 0
    requires Vleq(Zero(M(s)), v)
             || (NonNegative(s) && Alone(s.allocation, c) && (c == 0 || Vleq(Neg(v), s.allocation[c])))
    ensures Safe(s)
  {
    var t := Move(s, c, v);
    assert c < N(s) && GreedySafe(t);
    MoveBack(s, c, v);
    MoveKeepsAlone(s, c, v);
    hide Move, Request, Safe, GreedySafe, Alone, NonNegative;
    GreedySound(t);
    if Vleq(Zero(M(s)), v) {
      ReturnKeepsSafe(t, c, v);
    } else if c == 0 {
      FirstMoveKeepsSafe(t, Neg(v));
    } else {
      LoneMoveKeepsSafe(t, c, Neg(v));
    }
  }

  lemma ReleaseOfNothing(s: State, c: nat, v: Vec)
    requires Shaped(s) && |v| == M(s) && Vleq(Zero(M(s)), v)
    requires c < N(s) ==> s.allocation[c] == Zero(M(s))
    ensures Release(s, c, v).0 == s
  {
    if Release(s, c, v).1 == 0 {
      forall j | 0 <= j < M(s) ensures v[j] == 0 {
        assert v[j] <= s.allocation[c][j];
        assert Zero(M(s))[j] <= v[j];
      }
      var t := Move(s, c, Neg(v));
      assert t.available == s.available;
      assert t.allocation[c] == s.allocation[c] && t.need[c] == s.need[c];
      assert t.allocation == s.allocation && t.need == s.need;
    }
  }

  lemma UnsafeGrantsNothing(s: State, op: Op, maximum: seq<Vec>, total: Vec)
    requires Inv(s, maximum, total) && Admissible(s, op) && op.RQ? && !Safe(s)
    ensures Step(s, op).1 != 0
  {
    if Step(s, op).1 == 0 {
      GrantNeedsSafe(s, op.customer, op.vector);
    }
  }

  lemma UnsafeStep(maximum: seq<Vec>, available: Vec, op: Op)
    requires GoodInput(maximum, available) && Admissible(Initial(maximum, available), op)
    requires !Safe(Initial(maximum, available)) && NonNegativeVector(op)
    ensures Step(Initial(maximum, available), op).0 == Initial(maximum, available)
    ensures op.RQ? ==> Step(Initial(maximum, available), op).1 != 0
  {
    var s := Initial(maximum, available);
    InitialInv(maximum, available);
    if op.RQ? {
      UnsafeGrantsNothing(s, op, maximum, available);
    } else {
      ReleaseOfNothing(s, op.customer, op.vector);
    }
  }

  /** Without negative entries, from an unsafe start the state never changes, and no request is ever
      granted. */
  lemma {:induction false} UnsafeStartFreezes(maximum: seq<Vec>, available: Vec, ops: seq<Op>)
    requires GoodInput(maximum, available) && !Safe(Initial(maximum, available))
    requires AllAdmissible(Initial(maximum, available), ops) && NonNegativeVectors(ops)
    ensures Run(Initial(maximum, available), ops) == Initial(maximum, available)
    ensures Grants(Initial(maximum, available), ops) == 0
    decreases |ops|
  {
    if ops == [] {
    } else {
      assert NonNegativeVector(ops[0]);
      UnsafeStep(maximum, available, ops[0]);
      UnsafeStartFreezes(maximum, available, ops[1..]);
    }
  }

  /** Unsafe, and only customer h holds anything. */
  ghost predicate UnsafeWithHolder(s: State, h: nat)
    requires Shaped(s)
  {
    !Safe(s) && Alone(s.allocation, h)
  }

  lemma LoneReleaseStaysUnsafe(s: State, c: nat, v: Vec, maximum: seq<Vec>, total: Vec)
    requires Inv(s, maximum, total) && Admissible(s, RL(c, v)) && UnsafeWithHolder(s, c)
    ensures UnsafeWithHolder(Release(s, c, v).0, c)
  {
    if Release(s, c, v).1 == 0 {
      var t := Move(s, c, Neg(v));
      StepKeepsInv(s, RL(c, v), maximum, total);
      MoveKeepsAlone(s, c, Neg(v));
      MoveBack(s, c, Neg(v));
      assert Neg(Neg(v)) == v;
      hide Move, Alone, Safe, Admissible;
      if Safe(t) {
        LoneMoveKeepsSafe(t, c, v);
      }
    }
  }

  lemma UnsafeStaysUnsafe(s: State, h: nat, op: Op, maximum: seq<Vec>, total: Vec) returns (h': nat)
    requires Inv(s, maximum, total) && Admissible(s, op) && UnsafeWithHolder(s, h)
    ensures UnsafeWithHolder(Step(s, op).0, h') && (op.RQ? ==> Step(s, op).1 != 0)
  {
    h' := h;
    match op
    case RQ(c, v) => UnsafeGrantsNothing(s, op, maximum, total);
    case RL(c, v) =>
      if c < N(s) && c != h && NonNegativeVector(op) {
        assert s.allocation[c] == Zero(M(s));
        ReleaseOfNothing(s, c, v);
      } else if Release(s, c, v).1 == 0 {
        h' := c;
        LoneReleaseStaysUnsafe(s, c, v, maximum, total);
      }
  }

  lemma {:induction false} UnsafeRun(s: State, h: nat, ops: seq<Op>, maximum: seq<Vec>, total: Vec)
    requires Inv(s, maximum, total) && AllAdmissible(s, ops) && UnsafeWithHolder(s, h)
    ensures !Safe(Run(s, ops)) && Grants(s, ops) == 0
    decreases |ops|
  {
    if ops == [] {
    } else {
      var h' := UnsafeStaysUnsafe(s, h, ops[0], maximum, total);
      StepKeepsInv(s, ops[0], maximum, total);
      UnsafeRun(Step(s, ops[0]).0, h', ops[1..], maximum, total);
    }
  }

  /** From an unsafe start no admissible run, negative entries or not, grants anything or becomes
      safe. */
  lemma UnsafeStartStaysUnsafe(maximum: seq<Vec>, available: Vec, ops: seq<Op>)
    requires GoodInput(maximum, available) && !Safe(Initial(maximum, available))
    requires AllAdmissible(Initial(maximum, available), ops)
    ensures !Safe(Run(Initial(maximum, available), ops)) && Grants(Initial(maximum, available), ops) == 0
  {
    InitialInv(maximum, available);
    UnsafeRun(Initial(maximum, available), 0, ops, maximum, available);
  }

  /** Every reachable state is safe iff the initial one was. */
  lemma ReachableSafeIffInitialSafe(maximum: seq<Vec>, available: Vec, ops: seq<Op>)
    requires GoodInput(maximum, available) && AllAdmissible(Initial(maximum, available), ops)
    ensures Safe(Run(Initial(maximum, available), ops)) <==> Safe(Initial(maximum, available))
  {
    if Safe(Initial(maximum, available)) {
      InitialInv(maximum, available);
      RunKeepsSafe(Initial(maximum, available), ops);
    } else {
      UnsafeStartStaysUnsafe(maximum, available, ops);
    }
  }

  // ---------- a completing run exists ----------

  ghost predicate SameShape(s: State, maximum: seq<Vec>) {
    && Shaped(s) && N(s) == |maximum|
    && forall i :: 0 <= i < N(s) ==> |maximum[i]| == M(s)
  }

  /** The state after c requests all it needs and then releases its full maximum. */
  function Served(s: State, c: nat, maximum: seq<Vec>): (t: State)
    requires SameShape(s, maximum) && c < N(s)
    ensures SameShape(t, maximum)
  {
    Release(Request(s, c, s.need[c]).0, c, maximum[c]).0
  }

  /** Both calls answer 0, and in between c holds its full maximum. */
  ghost predicate ServedFully(s: State, c: nat, maximum: seq<Vec>)
    requires SameShape(s, maximum) && c < N(s)
  {
    var (held, code) := Request(s, c, s.need[c]);
    code == 0 && held.allocation[c] == maximum[c] && Release(held, c, maximum[c]).1 == 0
  }

  /** The customers of `order` are served fully one after another, and `end` is left. */
  ghost predicate Serves(s: State, order: seq<nat>, maximum: seq<Vec>, end: State)
    requires SameShape(s, maximum)
    decreases |order|
  {
    if order == [] then s == end
    else
      && order[0] < N(s)
      && ServedFully(s, order[0], maximum)
      && Serves(Served(s, order[0], maximum), order[1..], maximum, end)
  }

  lemma {:induction false} MoveOfFinishedKeepsOrder(s: State, c: nat, v: Vec, fin: set<nat>, order: seq<nat>)
    requires Shaped(s) && c < N(s) && |v| == M(s) && c in fin
    requires Completes(s, fin, order)
    ensures Completes(Move(s, c, v), fin, order)
    decreases |order|
  {
    if order == [] {
    } else {
      WorkAfterMove(s, c, v, fin);
      MoveOfFinishedKeepsOrder(s, c, v, fin + {order[0]}, order[1..]);
    }
  }

  /** Returning all that c holds leaves the others as if c had finished. */
  lemma {:induction false} FinishKeepsOrder(s: State, c: nat, fin: set<nat>, order: seq<nat>)
    requires Shaped(s) && c < N(s) && c !in fin
    requires Completes(s, fin + {c}, order)
    ensures Completes(Move(s, c, Neg(s.allocation[c])), fin, order)
    decreases |order|
  {
    if order == [] {
    } else {
      var i := order[0];
      WorkAfterMove(s, c, Neg(s.allocation[c]), fin);
      WorkInsert(s, fin, c);
      assert Work(Move(s, c, Neg(s.allocation[c])), fin) == Work(s, fin + {c});
      assert fin + {c} + {i} == fin + {i} + {c};
      FinishKeepsOrder(s, c, fin + {i}, order[1..]);
    }
  }

  /** In a safe state whoever can finish now can be the first of an order of all. */
  lemma OrderStartingWith(s: State, c: nat) returns (rest: seq<nat>)
    requires Shaped(s) && NonNegative(s) && Safe(s) && Ready(s, {}, c)
    ensures Completes(s, {c}, rest) && {c} + Members(rest) == Customers(N(s))
  {
    rest := Greedy(s, {c});
    GreedyRunsToStuck(s, {c});
    var safeOrder :| Completes(s, {}, safeOrder) && Permutation(safeOrder, N(s));
    StuckAbsorbs(s, {c} + Members(rest), {}, safeOrder);
  }

  /** In a safe state, granting a customer all it needs is safe whenever it is available. */
  lemma FullGrantIsSafe(s: State, c: nat)
    requires Shaped(s) && NonNegative(s) && Safe(s) && Ready(s, {}, c)
    ensures Safe(Move(s, c, s.need[c]))
  {
    var t := Move(s, c, s.need[c]);
    var rest := OrderStartingWith(s, c);
    MoveOfFinishedKeepsOrder(s, c, s.need[c], {c}, rest);
    WorkAfterMove(s, c, s.need[c], {});
    assert Ready(t, {}, c);
    SafeFromFirst(t, c, rest);
  }

  lemma SafeFromFirst(s: State, c: nat, rest: seq<nat>)
    requires Shaped(s) && Ready(s, {}, c)
    requires Completes(s, {c}, rest) && {c} + Members(rest) == Customers(N(s))
    ensures Safe(s)
  {
    var order := [c] + rest;
    assert order[1..] == rest && {} + {c} == {c};
    assert Completes(s, {}, order);
    MembersCons(order);
    CompletesDistinct(s, {}, order);
    assert Permutation(order, N(s));
  }

  lemma AvailableIsWork(s: State)
    requires Shaped(s)
    ensures Work(s, {}) == s.available
  {
    forall j: nat | j < M(s) ensures Held(s, {}, j, N(s)) == 0 {
      HeldNobody(s, j, N(s));
    }
  }

  lemma {:induction false} HeldNobody(s: State, j: nat, n: nat)
    requires Shaped(s) && j < M(s) && n <= N(s)
    ensures Held(s, {}, j, n) == 0
  {
    if n == 0 {
    } else {
      HeldNobody(s, j, n - 1);
    }
  }

  lemma FullRequestGranted(s: State, c: nat)
    requires Shaped(s) && NonNegative(s) && Safe(s) && Ready(s, {}, c)
    requires Vleq(Zero(M(s)), s.need[c])
    ensures Request(s, c, s.need[c]) == (Move(s, c, s.need[c]), 0)
  {
    AvailableIsWork(s);
    FullGrantIsSafe(s, c);
    GreedyDecidesSafe(Move(s, c, s.need[c]));
  }

  lemma FullReleaseAccepted(s: State, c: nat, maximum: seq<Vec>, total: Vec)
    requires Inv(s, maximum, total) && c < N(s)
    ensures var held := Move(s, c, s.need[c]);
            held.allocation[c] == maximum[c] &&
            Release(held, c, maximum[c]) == (Move(s, c, Neg(s.allocation[c])), 0)
  {
    var held := Move(s, c, s.need[c]);
    assert held.allocation[c] == maximum[c];
    assert Vleq(maximum[c], held.allocation[c]);
    assert Neg(s.allocation[c]) == Add(s.need[c], Neg(maximum[c]));
    MoveTwice(s, c, s.need[c], Neg(maximum[c]), Neg(s.allocation[c]));
  }

  /** Served fully, a customer has in effect given back what it held. */
  lemma ServeEffect(s: State, c: nat, maximum: seq<Vec>, total: Vec)
    requires Inv(s, maximum, total) && Safe(s) && Ready(s, {}, c)
    ensures ServedFully(s, c, maximum)
    ensures Served(s, c, maximum) == Move(s, c, Neg(s.allocation[c]))
  {
    FullRequestGranted(s, c);
    FullReleaseAccepted(s, c, maximum, total);
  }

  lemma MoveTwice(s: State, c: nat, v: Vec, w: Vec, sum: Vec)
    requires Shaped(s) && c < N(s) && |v| == |w| == M(s) && sum == Add(v, w)
    ensures Move(Move(s, c, v), c, w) == Move(s, c, sum)
  {
    var t, u := Move(Move(s, c, v), c, w), Move(s, c, sum);
    assert t.available == u.available;
    assert t.allocation[c] == u.allocation[c] && t.need[c] == u.need[c];
    assert t.allocation == u.allocation && t.need == u.need;
  }

  lemma ServedKeeps(s: State, c: nat, rest: seq<nat>, maximum: seq<Vec>, total: Vec)
    requires Inv(s, maximum, total) && Safe(s) && Ready(s, {}, c) && Completes(s, {c}, rest)
    ensures var t := Move(s, c, Neg(s.allocation[c]));
            Inv(t, maximum, total) && Safe(t) && Completes(t, {}, rest)
  {
    var op := RL(c, s.allocation[c]);
    StepKeepsInv(s, op, maximum, total);
    StepKeepsSafe(s, op);
    assert {} + {c} == {c};
    FinishKeepsOrder(s, c, {}, rest);
  }

  lemma AllReturnedIsInitial(s: State, maximum: seq<Vec>, total: Vec)
    requires Inv(s, maximum, total)
    requires forall i :: 0 <= i < N(s) ==> s.allocation[i] == Zero(M(s))
    ensures s == Initial(maximum, total)
  {
    forall j: nat | j < M(s) ensures s.available[j] == total[j] {
      NothingHeld(s, Customers(N(s)), j, N(s));
    }
    assert s.available == total;
    assert s.allocation == Initial(maximum, total).allocation;
    forall i | 0 <= i < N(s) ensures s.need[i] == maximum[i] {
      assert forall j :: 0 <= j < M(s) ==> s.need[i][j] == maximum[i][j];
    }
    assert s.need == maximum;
  }

  ghost predicate OthersHoldNothing(s: State, order: seq<nat>)
    requires Shaped(s)
  {
    forall i :: 0 <= i < N(s) && i !in order ==> s.allocation[i] == Zero(M(s))
  }

  lemma ReturnedHoldsNothing(s: State, order: seq<nat>)
    requires Shaped(s) && order != [] && order[0] < N(s) && OthersHoldNothing(s, order)
    ensures OthersHoldNothing(Move(s, order[0], Neg(s.allocation[order[0]])), order[1..])
  {
  }

  lemma {:induction false} ServeAll(s: State, order: seq<nat>, maximum: seq<Vec>, total: Vec)
    requires Inv(s, maximum, total) && Safe(s) && Completes(s, {}, order) && OthersHoldNothing(s, order)
    ensures Serves(s, order, maximum, Initial(maximum, total))
    decreases |order|
  {
    if order == [] {
      AllReturnedIsInitial(s, maximum, total);
    } else {
      var c := order[0];
      assert {} + {c} == {c};
      ServeEffect(s, c, maximum, total);
      ServedKeeps(s, c, order[1..], maximum, total);
      ReturnedHoldsNothing(s, order);
      ServeAll(Served(s, c, maximum), order[1..], maximum, total);
    }
  }

  lemma SafeServesAll(s: State, maximum: seq<Vec>, total: Vec)
    requires Inv(s, maximum, total) && Safe(s)
    ensures exists order :: Permutation(order, N(s)) && Serves(s, order, maximum, Initial(maximum, total))
  {
    var order :| Completes(s, {}, order) && Permutation(order, N(s));
    forall i: nat | i < N(s) ensures i in order {
      assert i in Customers(N(s));
    }
    ServeAll(s, order, maximum, total);
  }

  /** So safety means just that: the calls themselves can serve everybody. */
  lemma SafeIffServable(s: State, maximum: seq<Vec>, total: Vec)
    requires Inv(s, maximum, total)
    ensures Safe(s) <==>
            exists order :: Permutation(order, N(s)) && Serves(s, order, maximum, Initial(maximum, total))
  {
    if Safe(s) {
      SafeServesAll(s, maximum, total);
    }
    if order :| Permutation(order, N(s)) && Serves(s, order, maximum, Initial(maximum, total)) {
      ServableIsSafe(s, order, maximum, total);
    }
  }

  lemma ServableIsSafe(s: State, order: seq<nat>, maximum: seq<Vec>, total: Vec)
    requires Inv(s, maximum, total) && Permutation(order, N(s))
    requires Serves(s, order, maximum, Initial(maximum, total))
    ensures Safe(s)
  {
    if order == [] {
      assert Completes(s, {}, order);
    } else {
      GrantNeedsSafe(s, order[0], s.need[order[0]]);
    }
  }

  /** From every state reachable from a safe start there is an order of all the customers in
      which each gets its full maximum and returns it, ending in the initial state. */
  lemma CompletingRunExists(maximum: seq<Vec>, available: Vec, ops: seq<Op>)
    requires GoodInput(maximum, available) && AllAdmissible(Initial(maximum, available), ops)
    requires Safe(Initial(maximum, available))
    ensures exists order ::
              && Permutation(order, |maximum|)
              && Serves(Run(Initial(maximum, available), ops), order, maximum, Initial(maximum, available))
  {
    var s := Run(Initial(maximum, available), ops);
    InitialInv(maximum, available);
    RunKeepsInv(Initial(maximum, available), ops, maximum, available);
    RunKeepsSafe(Initial(maximum, available), ops);
    SafeServesAll(s, maximum, available);
  }
}
