/** The scheduling loop of Project4/posix/schedule_rr.c and schedule_priority_rr.c on values, and
    the closed form of what it computes. The live list read from the cursor on, and then from its
    head to the cursor, is a queue: the loop runs its first task and puts it back at the end. */
module RoundRobin {
  import opened Sequences

  /** Task numbers from the cursor on; the other fields are the arrays, by task number. */
  datatype State = State(
    queue: seq<nat>, burst: seq<int>,
    response: seq<int>, lastFinish: seq<int>, wait: seq<int>, time: int)

  function Min(a: int, b: int): int {
    if a < b then a else b
  }

  predicate Shaped(s: State) {
    && |s.burst| == |s.response| == |s.lastFinish| == |s.wait|
    && forall i :: 0 <= i < |s.queue| ==> s.queue[i] < |s.burst|
  }

  /** One turn of the while loop of schedule(). */
  function Step(quantum: nat, s: State): (t: State)
    requires Shaped(s) && s.queue != []
    ensures Shaped(t)
  {
    var task := s.queue[0];
    var slice := Min(s.burst[task], quantum);
    var now := s.time + slice;
    var left := s.burst[task] - slice;
    State(if left == 0 then s.queue[1..] else s.queue[1..] + [task],
          s.burst[task := left],
          if s.lastFinish[task] == 0 then s.response[task := s.time] else s.response,
          s.lastFinish[task := now],
          s.wait[task := s.wait[task] + s.time - s.lastFinish[task]],
          now)
  }

  /** The state after n turns, or after the last one. */
  function Turns(quantum: nat, s: State, n: nat): (t: State)
    requires Shaped(s)
    ensures Shaped(t)
    decreases n
  {
    if n == 0 || s.queue == [] then s else Turns(quantum, Step(quantum, s), n - 1)
  }

  // ---------- rounds ----------

  /** k quanta, without a product. */
  function Cap(quantum: nat, k: nat): (c: nat) {
    if k == 0 then 0 else Cap(quantum, k - 1) + quantum
  }

  lemma {:induction false} CapIsProduct(quantum: nat, k: nat)
    ensures Cap(quantum, k) == k * quantum
  {
    if k == 0 {
    } else {
      CapIsProduct(quantum, k - 1);
      assert k * quantum == (k - 1) * quantum + quantum;
    }
  }

  lemma {:induction false} CapMonotone(quantum: nat, j: nat, k: nat)
    requires j <= k
    ensures Cap(quantum, j) <= Cap(quantum, k)
    decreases k
  {
    if j == k {
    } else {
      CapMonotone(quantum, j, k - 1);
    }
  }

  /** How many turns a burst takes: one for an empty burst, else the quotient rounded up. */
  function Rounds(burst: nat, quantum: nat): (k: nat)
    requires quantum > 0
    ensures k >= 1
    decreases burst
  {
    if burst <= quantum then 1 else 1 + Rounds(burst - quantum, quantum)
  }

  lemma {:induction false} RoundsIff(burst: nat, quantum: nat, k: nat)
    requires quantum > 0 && k >= 1
    ensures Rounds(burst, quantum) <= k <==> burst <= Cap(quantum, k)
    decreases burst
  {
    CapMonotone(quantum, 1, k);
    assert Cap(quantum, 1) == quantum;
    if burst <= quantum || k == 1 {
    } else {
      RoundsIff(burst - quantum, quantum, k - 1);
    }
  }

  /** Rounds is the quotient rounded up. */
  lemma {:induction false} RoundsIsCeiling(burst: nat, quantum: nat)
    requires quantum > 0 && burst > 0
    ensures (Rounds(burst, quantum) - 1) * quantum < burst <= Rounds(burst, quantum) * quantum
    decreases burst
  {
    var k := Rounds(burst, quantum);
    if burst <= quantum {
    } else {
      RoundsIsCeiling(burst - quantum, quantum);
      assert (k - 1) * quantum == (k - 2) * quantum + quantum;
      assert k * quantum == (k - 1) * quantum + quantum;
    }
  }

  /** What the first n tasks have received when each of the first p has got at most `high` and
      each of the others at most `low`. */
  function Served(b: seq<nat>, high: nat, low: nat, p: nat, n: nat): (sum: nat)
    requires n <= |b|
  {
    if n == 0 then 0 else Served(b, high, low, p, n - 1) + Min(b[n - 1], if n - 1 < p then high else low)
  }

  /** The time at which, in round r, the turn of position p comes. */
  function Clock(b: seq<nat>, quantum: nat, r: nat, p: nat): nat {
    Served(b, Cap(quantum, r + 1), Cap(quantum, r), p, |b|)
  }

  lemma {:induction false} ServedNext(b: seq<nat>, high: nat, low: nat, p: nat, n: nat)
    requires n <= |b| && p < |b|
    ensures Served(b, high, low, p + 1, n)
            == Served(b, high, low, p, n) + if p < n then Min(b[p], high) - Min(b[p], low) else 0
  {
    if n == 0 {
    } else {
      ServedNext(b, high, low, p, n - 1);
    }
  }

  lemma {:induction false} ServedWraps(b: seq<nat>, high: nat, low: nat, other: nat, n: nat)
    requires n <= |b|
    ensures Served(b, high, low, |b|, n) == Served(b, other, high, 0, n)
  {
    if n == 0 {
    } else {
      ServedWraps(b, high, low, other, n - 1);
    }
  }

  lemma ClockNext(b: seq<nat>, quantum: nat, r: nat, p: nat)
    requires p < |b|
    ensures Clock(b, quantum, r, p + 1)
            == Clock(b, quantum, r, p) + Min(b[p], Cap(quantum, r + 1)) - Min(b[p], Cap(quantum, r))
  {
    ServedNext(b, Cap(quantum, r + 1), Cap(quantum, r), p, |b|);
  }

  lemma ClockWraps(b: seq<nat>, quantum: nat, r: nat)
    ensures Clock(b, quantum, r, |b|) == Clock(b, quantum, r + 1, 0)
  {
    ServedWraps(b, Cap(quantum, r + 1), Cap(quantum, r), Cap(quantum, r + 2), |b|);
  }

  // ---------- where the loop is ----------

  function IfLive(order: seq<nat>, b: seq<nat>, quantum: nat, r: nat, j: nat): seq<nat>
    requires quantum > 0 && j < |b| == |order|
  {
    if Rounds(b[j], quantum) > r then [order[j]] else []
  }

  /** The positions in [lo, hi) that still have a turn in round r, as task numbers. */
  function Live(order: seq<nat>, b: seq<nat>, quantum: nat, r: nat, lo: nat, hi: nat): seq<nat>
    requires quantum > 0 && lo <= hi <= |b| == |order|
    decreases hi - lo
  {
    if lo == hi then []
    else IfLive(order, b, quantum, r, lo) + Live(order, b, quantum, r, lo + 1, hi)
  }

  lemma {:induction false} LiveSnoc(order: seq<nat>, b: seq<nat>, quantum: nat, r: nat, lo: nat, hi: nat)
    requires quantum > 0 && lo <= hi < |b| == |order|
    ensures Live(order, b, quantum, r, lo, hi + 1)
            == Live(order, b, quantum, r, lo, hi) + IfLive(order, b, quantum, r, hi)
    decreases hi - lo
  {
    hide IfLive;
    if lo == hi {
    } else {
      LiveSnoc(order, b, quantum, r, lo + 1, hi);
      Associative(IfLive(order, b, quantum, r, lo), Live(order, b, quantum, r, lo + 1, hi),
                  IfLive(order, b, quantum, r, hi));
    }
  }

  lemma {:induction false} LiveEmpty(order: seq<nat>, b: seq<nat>, quantum: nat, r: nat, lo: nat, hi: nat)
    requires quantum > 0 && lo <= hi <= |b| == |order|
    requires Live(order, b, quantum, r, lo, hi) == []
    ensures forall j :: lo <= j < hi ==> Rounds(b[j], quantum) <= r
    decreases hi - lo
  {
    if lo == hi {
    } else {
      LiveEmpty(order, b, quantum, r, lo + 1, hi);
    }
  }

  /** The turns position j has had when position p of round r is next. */
  function TurnsHad(b: seq<nat>, quantum: nat, r: nat, p: nat, j: nat): nat
    requires quantum > 0 && j < |b|
  {
    var offered := if j < p then r + 1 else r;
    if offered < Rounds(b[j], quantum) then offered else Rounds(b[j], quantum)
  }

  /** What the arrays hold for a task with burst b[j] that has had k turns. */
  ghost predicate Entry(s: State, task: nat, b: seq<nat>, quantum: nat, j: nat, k: nat)
    requires Shaped(s) && task < |s.burst| && j < |b|
  {
    var got := Min(b[j], Cap(quantum, k));
    && s.burst[task] == b[j] - got
    && s.wait[task] == s.lastFinish[task] - got
    && if k == 0 then s.lastFinish[task] == 0
       else s.lastFinish[task] == Clock(b, quantum, k - 1, j + 1) && s.response[task] == Clock(b, quantum, 0, j)
  }

  predicate GoodOrder(order: seq<nat>, b: seq<nat>, s: State) {
    && |order| == |b| && Shaped(s) && (forall j :: 0 <= j < |order| ==> order[j] < |s.burst|)
    && forall i, j :: 0 <= i < j < |order| ==> order[i] != order[j]
  }

  /** Position p of round r is next: all earlier turns have been taken, and no later one. */
  ghost predicate At(s: State, order: seq<nat>, b: seq<nat>, quantum: nat, r: nat, p: nat) {
    && GoodOrder(order, b, s) && quantum > 0 && p <= |b|
    && s.queue == Live(order, b, quantum, r, p, |b|) + Live(order, b, quantum, r + 1, 0, p)
    && s.time == Clock(b, quantum, r, p)
    && forall j :: 0 <= j < |b| ==> Entry(s, order[j], b, quantum, j, TurnsHad(b, quantum, r, p, j))
  }

  lemma NextRound(s: State, order: seq<nat>, b: seq<nat>, quantum: nat, r: nat)
    requires At(s, order, b, quantum, r, |b|)
    ensures At(s, order, b, quantum, r + 1, 0)
  {
    ClockWraps(b, quantum, r);
  }

  lemma SkipClock(b: seq<nat>, quantum: nat, r: nat, p: nat)
    requires quantum > 0 && p < |b| && Rounds(b[p], quantum) <= r
    ensures Clock(b, quantum, r, p + 1) == Clock(b, quantum, r, p)
    ensures forall j :: 0 <= j < |b| ==> TurnsHad(b, quantum, r, p + 1, j) == TurnsHad(b, quantum, r, p, j)
  {
    RoundsIff(b[p], quantum, r);
    CapMonotone(quantum, r, r + 1);
    ClockNext(b, quantum, r, p);
  }

  /** A finished position is passed without a turn. */
  lemma Skip(s: State, order: seq<nat>, b: seq<nat>, quantum: nat, r: nat, p: nat)
    requires At(s, order, b, quantum, r, p) && p < |b| && Rounds(b[p], quantum) <= r
    ensures At(s, order, b, quantum, r, p + 1)
  {
    LiveSnoc(order, b, quantum, r + 1, 0, p);
    SkipClock(b, quantum, r, p);
  }

  lemma RanBefore(b: seq<nat>, quantum: nat, r: nat, p: nat)
    requires quantum > 0 && p < |b| && r > 0 && Rounds(b[p], quantum) > r
    ensures Clock(b, quantum, r - 1, p + 1) > 0
  {
    RoundsIff(b[p], quantum, r);
    ClockNext(b, quantum, r - 1, p);
    CapMonotone(quantum, r - 1, r);
  }

  lemma SliceOf(b: nat, quantum: nat, r: nat)
    requires quantum > 0 && Rounds(b, quantum) > r
    ensures var left := b - Min(b, Cap(quantum, r));
            && Min(left, quantum) == Min(b, Cap(quantum, r + 1)) - Min(b, Cap(quantum, r))
            && (left - Min(left, quantum) == 0 <==> Rounds(b, quantum) <= r + 1)
  {
    RoundsIff(b, quantum, r + 1);
    if r > 0 {
      RoundsIff(b, quantum, r);
    }
  }

  /** The arrays of the task that takes its turn r at its time. */
  lemma TurnEntry(s: State, b: seq<nat>, quantum: nat, r: nat, p: nat)
    requires Shaped(s) && s.queue != [] && quantum > 0 && p < |b| && Rounds(b[p], quantum) > r
    requires Entry(s, s.queue[0], b, quantum, p, r) && s.time == Clock(b, quantum, r, p)
    ensures Entry(Step(quantum, s), s.queue[0], b, quantum, p, r + 1)
    ensures Step(quantum, s).time == Clock(b, quantum, r, p + 1)
    ensures Step(quantum, s).burst[s.queue[0]] == 0 <==> Rounds(b[p], quantum) <= r + 1
  {
    SliceOf(b[p], quantum, r);
    ClockNext(b, quantum, r, p);
    if r > 0 {
      RanBefore(b, quantum, r, p);
    }
  }

  lemma Rotates(task: nat, here: seq<nat>, there: seq<nat>)
    ensures (([task] + here) + there)[0] == task && (([task] + here) + there)[1..] == here + there
    ensures (here + there) + [task] == here + (there + [task])
  {
  }

  lemma LiveHere(order: seq<nat>, b: seq<nat>, quantum: nat, r: nat, p: nat)
    requires quantum > 0 && |order| == |b| && p < |b| && Rounds(b[p], quantum) > r
    ensures Live(order, b, quantum, r, p, |b|) == [order[p]] + Live(order, b, quantum, r, p + 1, |b|)
  {
  }

  lemma LiveNext(order: seq<nat>, b: seq<nat>, quantum: nat, r: nat, p: nat)
    requires quantum > 0 && |order| == |b| && p < |b|
    ensures var there := Live(order, b, quantum, r + 1, 0, p);
            Live(order, b, quantum, r + 1, 0, p + 1)
            == if Rounds(b[p], quantum) <= r + 1 then there else there + [order[p]]
  {
    hide Live;
    LiveSnoc(order, b, quantum, r + 1, 0, p);
    assert Live(order, b, quantum, r + 1, 0, p) + [] == Live(order, b, quantum, r + 1, 0, p);
  }

  lemma TurnQueue(s: State, order: seq<nat>, b: seq<nat>, quantum: nat, r: nat, p: nat)
    requires Shaped(s) && quantum > 0 && |order| == |b| && p < |b| && Rounds(b[p], quantum) > r
    requires s.queue == Live(order, b, quantum, r, p, |b|) + Live(order, b, quantum, r + 1, 0, p)
    ensures s.queue != [] && s.queue[0] == order[p]
    ensures Live(order, b, quantum, r, p + 1, |b|) + Live(order, b, quantum, r + 1, 0, p + 1)
            == if Rounds(b[p], quantum) <= r + 1 then s.queue[1..] else s.queue[1..] + [order[p]]
  {
    hide *;
    LiveHere(order, b, quantum, r, p);
    LiveNext(order, b, quantum, r, p);
    Rotates(order[p], Live(order, b, quantum, r, p + 1, |b|), Live(order, b, quantum, r + 1, 0, p));
  }

  lemma OthersKeepEntry(s: State, order: seq<nat>, b: seq<nat>, quantum: nat, p: nat, j: nat, k: nat)
    requires GoodOrder(order, b, s) && s.queue != [] && j < |b| && p < |b| && j != p
    requires s.queue[0] == order[p] && Entry(s, order[j], b, quantum, j, k)
    ensures Entry(Step(quantum, s), order[j], b, quantum, j, k)
  {
  }

  lemma TurnEntries(s: State, order: seq<nat>, b: seq<nat>, quantum: nat, r: nat, p: nat)
    requires At(s, order, b, quantum, r, p) && p < |b| && Rounds(b[p], quantum) > r
    requires s.queue != [] && s.queue[0] == order[p]
    ensures Step(quantum, s).time == Clock(b, quantum, r, p + 1)
    ensures Step(quantum, s).burst[order[p]] == 0 <==> Rounds(b[p], quantum) <= r + 1
    ensures forall j :: 0 <= j < |b| ==>
              Entry(Step(quantum, s), order[j], b, quantum, j, TurnsHad(b, quantum, r, p + 1, j))
  {
    assert Entry(s, order[p], b, quantum, p, TurnsHad(b, quantum, r, p, p));
    TurnEntry(s, b, quantum, r, p);
    forall j | 0 <= j < |b|
      ensures Entry(Step(quantum, s), order[j], b, quantum, j, TurnsHad(b, quantum, r, p + 1, j))
    {
      if j != p {
        OthersKeepEntry(s, order, b, quantum, p, j, TurnsHad(b, quantum, r, p, j));
      }
    }
  }

  /** The turn of position p in round r. */
  lemma Turn(s: State, order: seq<nat>, b: seq<nat>, quantum: nat, r: nat, p: nat)
    requires At(s, order, b, quantum, r, p) && p < |b| && Rounds(b[p], quantum) > r
    ensures s.queue != [] && s.queue[0] == order[p]
    ensures At(Step(quantum, s), order, b, quantum, r, p + 1)
  {
    hide Entry, Clock, TurnsHad, Live;
    TurnQueue(s, order, b, quantum, r, p);
    TurnEntries(s, order, b, quantum, r, p);
  }

  /** While the queue is not empty, the next turn is that of some position in some round. */
  lemma {:induction false} NextTurn(s: State, order: seq<nat>, b: seq<nat>, quantum: nat, r: nat, p: nat)
    returns (r': nat, p': nat)
    requires At(s, order, b, quantum, r, p) && s.queue != []
    ensures At(s, order, b, quantum, r', p') && p' < |b| && Rounds(b[p'], quantum) > r'
    decreases if Live(order, b, quantum, r, p, |b|) == [] then 1 else 0, |b| - p
  {
    if p == |b| {
      NextRound(s, order, b, quantum, r);
      r', p' := NextTurn(s, order, b, quantum, r + 1, 0);
    } else if Rounds(b[p], quantum) > r {
      r', p' := r, p;
    } else {
      Skip(s, order, b, quantum, r, p);
      r', p' := NextTurn(s, order, b, quantum, r, p + 1);
    }
  }

  // ---------- the start and the end ----------

  ghost predicate Start(s: State, order: seq<nat>, b: seq<nat>) {
    && GoodOrder(order, b, s) && s.queue == order && s.time == 0
    && forall j :: 0 <= j < |b| ==>
         s.burst[order[j]] == b[j] && s.lastFinish[order[j]] == 0 && s.wait[order[j]] == 0
  }

  lemma {:induction false} ServedNothing(b: seq<nat>, high: nat, n: nat)
    requires n <= |b|
    ensures Served(b, high, 0, 0, n) == 0
  {
    if n == 0 {
    } else {
      ServedNothing(b, high, n - 1);
    }
  }

  lemma {:induction false} AllLive(order: seq<nat>, b: seq<nat>, quantum: nat, lo: nat)
    requires quantum > 0 && lo <= |b| == |order|
    ensures Live(order, b, quantum, 0, lo, |b|) == order[lo..]
    decreases |b| - lo
  {
    if lo == |b| {
    } else {
      AllLive(order, b, quantum, lo + 1);
    }
  }

  lemma StartIsAt(s: State, order: seq<nat>, b: seq<nat>, quantum: nat)
    requires Start(s, order, b) && quantum > 0
    ensures At(s, order, b, quantum, 0, 0)
  {
    AllLive(order, b, quantum, 0);
    ServedNothing(b, Cap(quantum, 1), |b|);
  }

  lemma {:induction false} ServedAll(b: seq<nat>, quantum: nat, r: nat, p: nat, n: nat)
    requires quantum > 0 && p <= |b| && n <= |b|
    ensures Served(b, Cap(quantum, r + 1), Cap(quantum, r), p, n) <= Sum(b, n)
    ensures (forall j :: 0 <= j < n ==> Rounds(b[j], quantum) <= if j < p then r + 1 else r) ==>
              Served(b, Cap(quantum, r + 1), Cap(quantum, r), p, n) == Sum(b, n)
  {
    if n == 0 {
    } else {
      ServedAll(b, quantum, r, p, n - 1);
      RoundsIff(b[n - 1], quantum, r + 1);
      if r > 0 {
        RoundsIff(b[n - 1], quantum, r);
      }
    }
  }

  /** The closed form, with quotients and products spelled out: the task at position i ends
      when everyone up to it has had its k turns and the others have had k - 1. */
  ghost predicate FinishedAt(s: State, task: nat, b: seq<nat>, quantum: nat, i: nat)
    requires Shaped(s) && task < |s.burst| && quantum > 0 && i < |b|
  {
    var k := Rounds(b[i], quantum);
    && s.burst[task] == 0
    && s.lastFinish[task] == Served(b, k * quantum, (k - 1) * quantum, i + 1, |b|)
    && s.response[task] == Served(b, quantum, 0, i, |b|)
    && s.wait[task] == s.lastFinish[task] - b[i]
  }

  ghost predicate Finished(s: State, order: seq<nat>, b: seq<nat>, quantum: nat) {
    && GoodOrder(order, b, s) && quantum > 0 && s.queue == [] && s.time == Sum(b, |b|)
    && forall i :: 0 <= i < |b| ==> FinishedAt(s, order[i], b, quantum, i)
  }

  lemma LastEntry(s: State, task: nat, b: seq<nat>, quantum: nat, i: nat)
    requires Shaped(s) && task < |s.burst| && quantum > 0 && i < |b|
    requires Entry(s, task, b, quantum, i, Rounds(b[i], quantum))
    ensures FinishedAt(s, task, b, quantum, i)
  {
    var k := Rounds(b[i], quantum);
    RoundsIff(b[i], quantum, k);
    CapIsProduct(quantum, k);
    CapIsProduct(quantum, k - 1);
    assert Cap(quantum, 1) == quantum && Cap(quantum, 0) == 0;
  }

  lemma EmptyHadAll(s: State, order: seq<nat>, b: seq<nat>, quantum: nat, r: nat, p: nat)
    requires quantum > 0 && p <= |b| == |order|
    requires Live(order, b, quantum, r, p, |b|) == [] && Live(order, b, quantum, r + 1, 0, p) == []
    ensures forall j :: 0 <= j < |b| ==> TurnsHad(b, quantum, r, p, j) == Rounds(b[j], quantum)
    ensures Clock(b, quantum, r, p) == Sum(b, |b|)
  {
    LiveEmpty(order, b, quantum, r, p, |b|);
    LiveEmpty(order, b, quantum, r + 1, 0, p);
    ServedAll(b, quantum, r, p, |b|);
  }

  lemma EmptyIsFinished(s: State, order: seq<nat>, b: seq<nat>, quantum: nat, r: nat, p: nat)
    requires At(s, order, b, quantum, r, p) && s.queue == []
    ensures Finished(s, order, b, quantum)
  {
    EmptyHadAll(s, order, b, quantum, r, p);
    forall i | 0 <= i < |b| ensures FinishedAt(s, order[i], b, quantum, i) {
      LastEntry(s, order[i], b, quantum, i);
    }
  }

  /** What is left to run, which never grows, and the queue: one of them shrinks every turn. */
  lemma TurnDecreases(s: State, order: seq<nat>, b: seq<nat>, quantum: nat, r: nat, p: nat)
    requires At(s, order, b, quantum, r, p) && p < |b| && Rounds(b[p], quantum) > r
    requires s.queue != [] && s.queue[0] == order[p]
    ensures var t := Step(quantum, s);
            && s.time <= t.time && s.time <= Sum(b, |b|)
            && (s.time == t.time ==> |t.queue| < |s.queue|)
  {
    assert Entry(s, order[p], b, quantum, p, TurnsHad(b, quantum, r, p, p));
    ServedAll(b, quantum, r, p, |b|);
  }

  lemma {:induction false} FinishFrom(s: State, order: seq<nat>, b: seq<nat>, quantum: nat, r: nat, p: nat)
    returns (n: nat)
    requires At(s, order, b, quantum, r, p)
    ensures Finished(Turns(quantum, s, n), order, b, quantum)
    decreases Sum(b, |b|) - s.time, |s.queue|
  {
    if s.queue == [] {
      EmptyIsFinished(s, order, b, quantum, r, p);
      n := 0;
    } else {
      var r', p' := NextTurn(s, order, b, quantum, r, p);
      Turn(s, order, b, quantum, r', p');
      TurnDecreases(s, order, b, quantum, r', p');
      n := FinishFrom(Step(quantum, s), order, b, quantum, r', p' + 1);
      n := n + 1;
    }
  }

  /** Round robin always ends, with exactly these times. */
  lemma ClosedForm(s: State, order: seq<nat>, b: seq<nat>, quantum: nat)
    requires Start(s, order, b) && quantum > 0
    ensures exists n :: Finished(Turns(quantum, s, n), order, b, quantum)
  {
    StartIsAt(s, order, b, quantum);
    var n := FinishFrom(s, order, b, quantum, 0, 0);
  }

  // ---------- fairness ----------

  lemma InConcat(x: nat, y: seq<nat>, z: seq<nat>)
    ensures x in y + z <==> x in y || x in z
  {
  }

  lemma {:induction false} LiveMember(order: seq<nat>, b: seq<nat>, quantum: nat, r: nat, lo: nat, hi: nat, j: nat)
    requires quantum > 0 && lo <= hi <= |b| == |order| && j < |b|
    requires forall i, k :: 0 <= i < k < |order| ==> order[i] != order[k]
    ensures order[j] in Live(order, b, quantum, r, lo, hi) <==> lo <= j < hi && Rounds(b[j], quantum) > r
    decreases hi - lo
  {
    if lo == hi {
    } else {
      LiveMember(order, b, quantum, r, lo + 1, hi, j);
      InConcat(order[j], IfLive(order, b, quantum, r, lo), Live(order, b, quantum, r, lo + 1, hi));
      assert order[j] in IfLive(order, b, quantum, r, lo) <==> j == lo && Rounds(b[j], quantum) > r;
      hide IfLive;
    }
  }

  /** The list holds exactly the unfinished tasks. */
  lemma QueueIsUnfinished(s: State, order: seq<nat>, b: seq<nat>, quantum: nat, r: nat, p: nat, i: nat)
    requires At(s, order, b, quantum, r, p) && i < |b|
    ensures order[i] in s.queue <==> TurnsHad(b, quantum, r, p, i) < Rounds(b[i], quantum)
  {
    LiveMember(order, b, quantum, r, p, |b|, i);
    LiveMember(order, b, quantum, r + 1, 0, p, i);
  }

  /** The task has run for k whole quanta. */
  ghost predicate HadTurns(s: State, task: nat, burst: nat, quantum: nat, k: nat)
    requires task < |s.burst|
  {
    burst - s.burst[task] == k * quantum
  }

  /** An unfinished task has run for whole quanta, and for any two of them the numbers of turns
      differ by at most one. */
  lemma FairTurns(s: State, order: seq<nat>, b: seq<nat>, quantum: nat, r: nat, p: nat, i: nat, j: nat)
    requires At(s, order, b, quantum, r, p) && i < |b| && j < |b|
    requires order[i] in s.queue && order[j] in s.queue
    ensures TurnsHad(b, quantum, r, p, i) <= TurnsHad(b, quantum, r, p, j) + 1
    ensures HadTurns(s, order[i], b[i], quantum, TurnsHad(b, quantum, r, p, i))
  {
    QueueIsUnfinished(s, order, b, quantum, r, p, i);
    QueueIsUnfinished(s, order, b, quantum, r, p, j);
    var k := TurnsHad(b, quantum, r, p, i);
    assert Entry(s, order[i], b, quantum, i, k);
    CapIsProduct(quantum, k);
    if k > 0 {
      RoundsIff(b[i], quantum, k);
    }
  }

  ghost predicate NoTwice(queue: seq<nat>) {
    forall i, j :: 0 <= i < j < |queue| ==> queue[i] != queue[j]
  }

  lemma StepKeepsNoTwice(quantum: nat, s: State)
    requires Shaped(s) && s.queue != [] && NoTwice(s.queue)
    ensures NoTwice(Step(quantum, s).queue)
  {
  }

  /** A turn brings every other task one place forward, at the cost of at most a quantum. */
  lemma StepBringsForward(quantum: nat, s: State, x: nat)
    requires Shaped(s) && 0 < x < |s.queue| && NoTwice(s.queue)
    ensures var t := Step(quantum, s);
            && x - 1 < |t.queue| && t.queue[x - 1] == s.queue[x]
            && t.lastFinish[s.queue[x]] == s.lastFinish[s.queue[x]] && t.time <= s.time + quantum
  {
    assert s.queue[0] != s.queue[x];
  }

  /** The task x places from the front waits for at most x quanta, and x turns. */
  lemma {:induction false} WaitsForThoseAhead(quantum: nat, s: State, x: nat)
    requires Shaped(s) && x < |s.queue|
    requires NoTwice(s.queue)
    ensures var t := Turns(quantum, s, x);
            && t.queue != [] && t.queue[0] == s.queue[x]
            && t.lastFinish[s.queue[x]] == s.lastFinish[s.queue[x]]
            && t.time - s.time <= Cap(quantum, x)
    decreases x
  {
    hide NoTwice, Step;
    if x == 0 {
    } else {
      StepKeepsNoTwice(quantum, s);
      StepBringsForward(quantum, s, x);
      WaitsForThoseAhead(quantum, Step(quantum, s), x - 1);
    }
  }

  lemma StepPutsBack(quantum: nat, s: State)
    requires Shaped(s) && s.queue != [] && s.burst[s.queue[0]] > quantum
    ensures var t, m := Step(quantum, s), |s.queue|;
            && |t.queue| == m && t.queue[m - 1] == s.queue[0] && t.lastFinish[s.queue[0]] == t.time
  {
  }

  /** A task that is put back runs again after everyone else has, at most (m - 1) quanta later,
      where m is the number of live tasks. */
  lemma RunsAgainWithin(quantum: nat, s: State)
    requires Shaped(s) && s.queue != []
    requires NoTwice(s.queue)
    requires s.burst[s.queue[0]] > quantum
    ensures var task, m := s.queue[0], |s.queue|;
            var t := Turns(quantum, s, m);
            && t.queue != [] && t.queue[0] == task
            && t.lastFinish[task] == Step(quantum, s).time
            && t.time - t.lastFinish[task] <= (m - 1) * quantum
  {
    hide NoTwice, Step;
    var t, m := Step(quantum, s), |s.queue|;
    StepPutsBack(quantum, s);
    StepKeepsNoTwice(quantum, s);
    WaitsForThoseAhead(quantum, t, m - 1);
    CapIsProduct(quantum, m - 1);
  }

  // ---------- every reachable state ----------

  /** The loop is at some position of some round, and no task is in the queue twice. */
  ghost predicate Placed(s: State, order: seq<nat>, b: seq<nat>, quantum: nat) {
    NoTwice(s.queue) && exists r, p :: At(s, order, b, quantum, r, p)
  }

  lemma StartIsPlaced(s: State, order: seq<nat>, b: seq<nat>, quantum: nat)
    requires Start(s, order, b) && quantum > 0
    ensures Placed(s, order, b, quantum)
  {
    StartIsAt(s, order, b, quantum);
  }

  lemma StepKeepsPlaced(s: State, order: seq<nat>, b: seq<nat>, quantum: nat)
    requires Shaped(s) && Placed(s, order, b, quantum) && s.queue != []
    ensures Placed(Step(quantum, s), order, b, quantum)
  {
    var r, p :| At(s, order, b, quantum, r, p);
    r, p := NextTurn(s, order, b, quantum, r, p);
    Turn(s, order, b, quantum, r, p);
    StepKeepsNoTwice(quantum, s);
  }

  lemma {:induction false} TurnsKeepPlaced(s: State, order: seq<nat>, b: seq<nat>, quantum: nat, n: nat)
    requires Shaped(s) && Placed(s, order, b, quantum)
    ensures Placed(Turns(quantum, s, n), order, b, quantum)
    decreases n
  {
    hide Placed, Step;
    if n == 0 || s.queue == [] {
    } else {
      StepKeepsPlaced(s, order, b, quantum);
      TurnsKeepPlaced(Step(quantum, s), order, b, quantum, n - 1);
    }
  }

  /** Both tasks have run for whole quanta, one of them for at most one more than the other. */
  ghost predicate Fair(s: State, task: nat, burst: nat, other: nat, otherBurst: nat, quantum: nat)
    requires task < |s.burst| && other < |s.burst|
  {
    exists k: nat, l: nat ::
      HadTurns(s, task, burst, quantum, k) && HadTurns(s, other, otherBurst, quantum, l) && -1 <= k - l <= 1
  }

  lemma PlacedIsFair(s: State, order: seq<nat>, b: seq<nat>, quantum: nat, i: nat, j: nat)
    requires Shaped(s) && Placed(s, order, b, quantum) && i < |b| == |order| && j < |b|
    requires order[i] in s.queue && order[j] in s.queue
    ensures Fair(s, order[i], b[i], order[j], b[j], quantum)
  {
    hide HadTurns;
    var r, p :| At(s, order, b, quantum, r, p);
    FairTurns(s, order, b, quantum, r, p, i, j);
    FairTurns(s, order, b, quantum, r, p, j, i);
  }

  /** After any number of turns, two unfinished tasks have had numbers of turns that differ by at
      most one. */
  lemma AlwaysFair(s: State, order: seq<nat>, b: seq<nat>, quantum: nat, n: nat, i: nat, j: nat)
    requires Start(s, order, b) && quantum > 0 && i < |b| && j < |b|
    requires order[i] in Turns(quantum, s, n).queue && order[j] in Turns(quantum, s, n).queue
    ensures Fair(Turns(quantum, s, n), order[i], b[i], order[j], b[j], quantum)
  {
    hide Placed, HadTurns, Turns;
    StartIsPlaced(s, order, b, quantum);
    TurnsKeepPlaced(s, order, b, quantum, n);
    PlacedIsFair(Turns(quantum, s, n), order, b, quantum, i, j);
  }

  /** After any number of turns, the task whose turn it is and that does not finish in it runs
      again after everyone else, at most (m - 1) quanta later. */
  lemma AlwaysRunsAgain(s: State, order: seq<nat>, b: seq<nat>, quantum: nat, n: nat)
    requires Start(s, order, b) && quantum > 0
    requires var t := Turns(quantum, s, n); t.queue != [] && t.burst[t.queue[0]] > quantum
    ensures var t := Turns(quantum, s, n);
            var task, m := t.queue[0], |t.queue|;
            var u := Turns(quantum, t, m);
            && u.queue != [] && u.queue[0] == task
            && u.lastFinish[task] == Step(quantum, t).time
            && u.time - u.lastFinish[task] <= (m - 1) * quantum
  {
    StartIsPlaced(s, order, b, quantum);
    TurnsKeepPlaced(s, order, b, quantum, n);
    RunsAgainWithin(quantum, Turns(quantum, s, n));
  }
}
