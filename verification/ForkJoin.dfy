/** The forked tasks of Quicksort.java as an interleaved system: a tree of tasks over one shared
    array, where any task may take the next step. A step is one test, one move of an index, one
    exchange, one fork or one join. */
module ForkJoin {
  import opened Quicksort

  datatype Phase = Outer | Left | Right | Exchange_

  datatype Job =
    | Start(lo: nat, hi: int)
    | Scan(lo: nat, hi: int, left: nat, right: nat, pivot: int, phase: Phase)
    | Place(lo: nat, hi: int, left: nat, pivot: int)      // after the loops: the final exchange
    | Join(lo: nat, hi: int, mid: nat, below: Job, above: Job)
    | Done(lo: nat, hi: int)

  /** The ranges of the tasks fit the array and nest: the two of a fork leave out the pivot
      between them. */
  ghost predicate Fits(job: Job, n: nat) {
    && -1 <= job.hi < n
    && match job
       case Start(_, _) => true
       case Scan(lo, hi, left, right, _, _) => lo <= left <= right <= hi
       case Place(lo, hi, left, _) => lo <= left <= hi
       case Join(lo, hi, mid, below, above) =>
         && lo <= mid <= hi + 1 && Fits(below, n) && Fits(above, n)
         && below.lo == lo && below.hi == mid - 1 && above.lo == mid + 1 && above.hi == hi
       case Done(_, _) => true
  }

  /** One step of the task that `path` leads to, taking true for the first of two forked tasks. */
  function Step(s: seq<int>, job: Job, path: seq<bool>): (r: (seq<int>, Job))
    requires Fits(job, |s|)
    ensures |r.0| == |s| && Fits(r.1, |s|) && r.1.lo == job.lo && r.1.hi == job.hi
    decreases job
  {
    match job
    case Start(lo, hi) =>
      (s, if lo >= hi then Done(lo, hi) else Scan(lo, hi, lo, hi, s[hi], Outer))
    case Scan(lo, hi, left, right, pivot, Outer) =>
      (s, if left < right then Scan(lo, hi, left, right, pivot, Left) else Place(lo, hi, left, pivot))
    case Scan(lo, hi, left, right, pivot, Left) =>
      (s, if left < right && s[left] < pivot then Scan(lo, hi, left + 1, right, pivot, Left)
          else Scan(lo, hi, left, right, pivot, Right))
    case Scan(lo, hi, left, right, pivot, Right) =>
      (s, if left < right && s[right] >= pivot then Scan(lo, hi, left, right - 1, pivot, Right)
          else Scan(lo, hi, left, right, pivot, Exchange_))
    case Scan(lo, hi, left, right, pivot, Exchange_) =>
      (Swap(s, left, right), Scan(lo, hi, left, right, pivot, Outer))
    case Place(lo, hi, left, pivot) =>
      if s[left] >= s[hi] then (Swap(s, left, hi), Fork(lo, hi, left))
      else (s, Fork(lo, hi, left + 1))
    case Join(lo, hi, mid, below, above) =>
      if below.Done? && above.Done? then (s, Done(lo, hi))
      else if path != [] && path[0] then
        var (t, b) := Step(s, below, path[1..]); (t, Join(lo, hi, mid, b, above))
      else
        var (t, b) := Step(s, above, if path == [] then [] else path[1..]); (t, Join(lo, hi, mid, below, b))
    case Done(_, _) => (s, job)
  }

  function Fork(lo: nat, hi: int, mid: nat): (job: Job)
    requires lo <= mid <= hi + 1
  {
    Join(lo, hi, mid, Start(lo, mid - 1), Start(mid + 1, hi))
  }

  /** What each task has achieved on its own range. */
  ghost predicate Inv(s: seq<int>, job: Job)
    requires Fits(job, |s|)
  {
    match job
    case Start(_, _) => true
    case Scan(lo, hi, left, right, pivot, phase) =>
      && s[hi] == pivot && Below(s, lo, left - 1, pivot) && NotBelow(s, right + 1, hi, pivot)
      && (phase.Outer? || phase.Left? || left == right || right == hi ==> s[right] >= pivot)
      && (phase.Right? ==> left < right ==> s[left] >= pivot)
      && (phase.Exchange_? && left < right ==> s[left] >= pivot && s[right] < pivot)
    case Place(lo, hi, left, pivot) =>
      && s[hi] == pivot && s[left] >= pivot && Below(s, lo, left - 1, pivot) && NotBelow(s, left + 1, hi, pivot)
    case Join(lo, hi, mid, below, above) =>
      && mid <= hi && Below(s, lo, mid - 1, s[mid]) && NotBelow(s, mid + 1, hi, s[mid])
      && Inv(s, below) && Inv(s, above)
    case Done(lo, hi) => Sorted(s, lo, hi)
  }

  /** A task only depends on its own range, so the steps of other tasks do not matter to it. */
  lemma {:induction false} OthersDoNotMatter(s: seq<int>, t: seq<int>, job: Job)
    requires |s| == |t| && Fits(job, |s|) && Inv(s, job)
    requires forall k :: job.lo <= k <= job.hi ==> s[k] == t[k]
    ensures Inv(t, job)
    decreases job
  {
    if !job.Join? {
    } else {
      OthersDoNotMatter(s, t, job.below);
      OthersDoNotMatter(s, t, job.above);
    }
  }

  /** A step changes nothing, or exchanges two elements of the task's own range. */
  lemma {:induction false} StepIsLocal(s: seq<int>, job: Job, path: seq<bool>) returns (w: seq<(nat, nat)>)
    requires Fits(job, |s|)
    ensures |w| <= 1 && Within(w, job.lo, job.hi) && Step(s, job, path).0 == Swaps(s, w)
    decreases job
  {
    w := [];
    match job
    case Scan(_, _, left, right, _, Exchange_) => w := [(left, right)];
    case Place(_, hi, left, _) => if s[left] >= s[hi] { w := [(left, hi)]; }
    case Join(lo, hi, mid, below, above) =>
      if below.Done? && above.Done? {
      } else if path != [] && path[0] {
        w := StepIsLocal(s, below, path[1..]);
      } else {
        w := StepIsLocal(s, above, if path == [] then [] else path[1..]);
      }
    case _ =>
  }

  lemma ScanStepKeepsInv(s: seq<int>, job: Job, path: seq<bool>)
    requires Fits(job, |s|) && job.Scan? && Inv(s, job)
    ensures Inv(Step(s, job, path).0, Step(s, job, path).1)
  {
  }

  /** The final exchange; its else branch is never taken. */
  lemma PlaceStepKeepsInv(s: seq<int>, job: Job, path: seq<bool>)
    requires Fits(job, |s|) && job.Place? && Inv(s, job)
    ensures s[job.left] >= s[job.hi]
    ensures Inv(Step(s, job, path).0, Step(s, job, path).1)
  {
  }

  lemma BelowMoves(s: seq<int>, t: seq<int>, w: seq<(nat, nat)>, job: Job)
    requires Fits(job, |s|) && job.Join? && Inv(s, job)
    requires Within(w, job.lo, job.mid - 1) && t == Swaps(s, w)
    ensures Below(t, job.lo, job.mid - 1, t[job.mid]) && NotBelow(t, job.mid + 1, job.hi, t[job.mid])
    ensures Inv(t, job.above)
  {
    SwapsStayWithin(s, w, job.lo, job.mid - 1, s[job.mid]);
    OthersDoNotMatter(s, t, job.above);
  }

  lemma AboveMoves(s: seq<int>, t: seq<int>, w: seq<(nat, nat)>, job: Job)
    requires Fits(job, |s|) && job.Join? && Inv(s, job)
    requires Within(w, job.mid + 1, job.hi) && t == Swaps(s, w)
    ensures Below(t, job.lo, job.mid - 1, t[job.mid]) && NotBelow(t, job.mid + 1, job.hi, t[job.mid])
    ensures Inv(t, job.below)
  {
    SwapsStayWithin(s, w, job.mid + 1, job.hi, s[job.mid]);
    OthersDoNotMatter(s, t, job.below);
  }

  lemma BelowStepKeepsInv(s: seq<int>, job: Job, path: seq<bool>)
    requires Fits(job, |s|) && job.Join? && Inv(s, job) && !(job.below.Done? && job.above.Done?)
    requires path != [] && path[0]
    requires Inv(Step(s, job.below, path[1..]).0, Step(s, job.below, path[1..]).1)
    ensures Inv(Step(s, job, path).0, Step(s, job, path).1)
  {
    var w := StepIsLocal(s, job.below, path[1..]);
    BelowMoves(s, Step(s, job.below, path[1..]).0, w, job);
  }

  lemma AboveStepKeepsInv(s: seq<int>, job: Job, path: seq<bool>, rest: seq<bool>)
    requires Fits(job, |s|) && job.Join? && Inv(s, job) && !(job.below.Done? && job.above.Done?)
    requires path == [] || !path[0]
    requires rest == (if path == [] then [] else path[1..])
    requires Inv(Step(s, job.above, rest).0, Step(s, job.above, rest).1)
    ensures Inv(Step(s, job, path).0, Step(s, job, path).1)
  {
    var w := StepIsLocal(s, job.above, rest);
    AboveMoves(s, Step(s, job.above, rest).0, w, job);
  }

  lemma LastStepKeepsInv(s: seq<int>, job: Job, path: seq<bool>)
    requires Fits(job, |s|) && job.Join? && Inv(s, job) && job.below.Done? && job.above.Done?
    ensures Inv(Step(s, job, path).0, Step(s, job, path).1)
  {
    JoinSorted(s, job.lo, job.mid, job.hi);
  }

  /** The join, or the step of one of the forked tasks, given that it keeps that task's invariant. */
  lemma JoinStepKeepsInv(s: seq<int>, job: Job, path: seq<bool>)
    requires Fits(job, |s|) && job.Join? && Inv(s, job)
    requires var rest := if path == [] then [] else path[1..];
             var child := if path != [] && path[0] then job.below else job.above;
             Inv(Step(s, child, rest).0, Step(s, child, rest).1)
    ensures Inv(Step(s, job, path).0, Step(s, job, path).1)
  {
    hide *;
    if job.below.Done? && job.above.Done? {
      LastStepKeepsInv(s, job, path);
    } else if path != [] && path[0] {
      BelowStepKeepsInv(s, job, path);
    } else {
      AboveStepKeepsInv(s, job, path, if path == [] then [] else path[1..]);
    }
  }

  lemma {:induction false} StepKeepsInv(s: seq<int>, job: Job, path: seq<bool>)
    requires Fits(job, |s|) && Inv(s, job)
    ensures Inv(Step(s, job, path).0, Step(s, job, path).1)
    decreases job
  {
    match job
    case Start(_, _) =>
    case Scan(_, _, _, _, _, _) => ScanStepKeepsInv(s, job, path);
    case Place(_, _, _, _) => PlaceStepKeepsInv(s, job, path);
    case Join(lo, hi, mid, below, above) =>
      var rest := if path == [] then [] else path[1..];
      StepKeepsInv(s, if path != [] && path[0] then below else above, rest);
      JoinStepKeepsInv(s, job, path);
    case Done(_, _) =>
  }

  /** The state after the steps that the scheduler chose. */
  function Run(s: seq<int>, job: Job, paths: seq<seq<bool>>): (r: (seq<int>, Job))
    requires Fits(job, |s|)
    ensures |r.0| == |s| && Fits(r.1, |s|) && r.1.lo == job.lo && r.1.hi == job.hi
    decreases |paths|
  {
    if paths == [] then (s, job)
    else var (t, next) := Step(s, job, paths[0]); Run(t, next, paths[1..])
  }

  lemma {:induction false} RunKeepsInv(s: seq<int>, job: Job, paths: seq<seq<bool>>)
    requires Fits(job, |s|) && Inv(s, job)
    ensures Inv(Run(s, job, paths).0, Run(s, job, paths).1)
    ensures multiset(Run(s, job, paths).0) == multiset(s)
    decreases |paths|
  {
    if paths == [] {
    } else {
      var (t, next) := Step(s, job, paths[0]);
      StepKeepsInv(s, job, paths[0]);
      var w := StepIsLocal(s, job, paths[0]);
      SwapsMultiset(s, w);
      RunKeepsInv(t, next, paths[1..]);
    }
  }

  /** However the steps of all the forked tasks interleave: the array is always a permutation of
      the input, and sorted once the root task is done. */
  lemma EveryInterleavingSorts(s: seq<int>, paths: seq<seq<bool>>)
    ensures var (t, job) := Run(s, Start(0, |s| - 1), paths);
            multiset(t) == multiset(s) && (job.Done? ==> Sorted(t, 0, |s| - 1))
  {
    RunKeepsInv(s, Start(0, |s| - 1), paths);
  }

  /** So the interleaving cannot matter: whenever the root task is done, the array is the same. */
  lemma InterleavingDoesNotMatter(s: seq<int>, paths: seq<seq<bool>>, others: seq<seq<bool>>)
    requires Run(s, Start(0, |s| - 1), paths).1.Done? && Run(s, Start(0, |s| - 1), others).1.Done?
    ensures Run(s, Start(0, |s| - 1), paths).0 == Run(s, Start(0, |s| - 1), others).0
  {
    EveryInterleavingSorts(s, paths);
    EveryInterleavingSorts(s, others);
    SortedUnique(Run(s, Start(0, |s| - 1), paths).0, Run(s, Start(0, |s| - 1), others).0);
  }

  /** A root task that is not done can always move: some task of the tree has a step. */
  lemma {:induction false} SomeTaskCanMove(s: seq<int>, job: Job) returns (path: seq<bool>)
    requires Fits(job, |s|) && !job.Done?
    ensures Step(s, job, path).1 != job
    decreases job
  {
    path := [];
    match job
    case Join(_, _, _, below, above) =>
      if !below.Done? {
        path := SomeTaskCanMove(s, below);
        path := [true] + path;
      } else if !above.Done? {
        path := SomeTaskCanMove(s, above);
        path := [false] + path;
      }
    case _ =>
  }

  // ---------- every interleaving ends ----------

  /** A number of steps that sorting n elements does not exceed. */
  function Bound(n: nat): nat {
    if n == 0 then 2 else Bound(n - 1) + 9 * n
  }

  lemma {:induction false} BoundAdds(a: nat, b: nat)
    ensures Bound(a) + Bound(b) <= Bound(a + b) + 2
  {
    if b == 0 {
    } else {
      BoundAdds(a, b - 1);
    }
  }

  function Size(lo: nat, hi: int): nat {
    if lo <= hi then hi + 1 - lo else 0
  }

  /** The steps a scan at a distance d between its indices still takes. In the phase of the right
      index, what matters is whether that index is about to move. */
  function ScanLeft(phase: Phase, d: nat, moves: bool): nat {
    match phase
    case Outer => 6 * d + 5
    case Left => if d == 0 then 8 else 6 * d + 4
    case Right => if moves then 6 * d + 3 else 6 * d + 7
    case Exchange_ => 6 * d + 6
  }

  /** How many more steps the tasks of the tree can take. */
  function Remaining(s: seq<int>, job: Job): nat
    requires Fits(job, |s|)
  {
    match job
    case Start(lo, hi) => Bound(Size(lo, hi))
    case Scan(lo, hi, left, right, pivot, phase) =>
      4 + Bound(Size(lo, hi) - 1) + ScanLeft(phase, right - left, left < right && s[right] >= pivot)
    case Place(lo, hi, _, _) => 4 + Bound(Size(lo, hi) - 1)
    case Join(_, _, _, below, above) => 1 + Remaining(s, below) + Remaining(s, above)
    case Done(_, _) => 0
  }

  lemma {:induction false} OthersLeaveRemaining(s: seq<int>, t: seq<int>, job: Job)
    requires |s| == |t| && Fits(job, |s|)
    requires forall k :: job.lo <= k <= job.hi ==> s[k] == t[k]
    ensures Remaining(t, job) == Remaining(s, job)
    decreases job
  {
    if !job.Join? {
    } else {
      OthersLeaveRemaining(s, t, job.below);
      OthersLeaveRemaining(s, t, job.above);
    }
  }

  ghost predicate Lowers(s: seq<int>, job: Job, path: seq<bool>)
    requires Fits(job, |s|)
  {
    var (t, next) := Step(s, job, path);
    (t, next) == (s, job) || Remaining(t, next) < Remaining(s, job)
  }

  lemma ScanLowers(s: seq<int>, job: Job, path: seq<bool>)
    requires Fits(job, |s|) && job.Scan? && Inv(s, job)
    ensures Lowers(s, job, path)
  {
  }

  lemma ForkRemaining(s: seq<int>, lo: nat, hi: int, mid: nat)
    requires lo <= mid <= hi < |s| && Fits(Fork(lo, hi, mid), |s|)
    ensures Remaining(s, Fork(lo, hi, mid)) <= 3 + Bound(Size(lo, hi) - 1)
  {
    BoundAdds(mid - lo, hi - mid);
  }

  lemma PlaceLowers(s: seq<int>, job: Job, path: seq<bool>)
    requires Fits(job, |s|) && job.Place? && Inv(s, job)
    ensures Lowers(s, job, path)
  {
    hide Bound, Fork;
    ForkRemaining(Step(s, job, path).0, job.lo, job.hi, job.left);
  }

  lemma JoinLowers(s: seq<int>, job: Job, path: seq<bool>)
    requires Fits(job, |s|) && job.Join?
    requires var rest := if path == [] then [] else path[1..];
             Lowers(s, if path != [] && path[0] then job.below else job.above, rest)
    ensures Lowers(s, job, path)
  {
    if job.below.Done? && job.above.Done? {
    } else if path != [] && path[0] {
      var w := StepIsLocal(s, job.below, path[1..]);
      SwapsStayWithin(s, w, job.lo, job.mid - 1, 0);
      OthersLeaveRemaining(s, Step(s, job.below, path[1..]).0, job.above);
    } else {
      var rest := if path == [] then [] else path[1..];
      var w := StepIsLocal(s, job.above, rest);
      SwapsStayWithin(s, w, job.mid + 1, job.hi, 0);
      OthersLeaveRemaining(s, Step(s, job.above, rest).0, job.below);
    }
  }

  /** Every step that changes anything leaves fewer to take. */
  lemma {:induction false} StepLowers(s: seq<int>, job: Job, path: seq<bool>)
    requires Fits(job, |s|) && Inv(s, job)
    ensures Lowers(s, job, path)
    decreases job
  {
    match job
    case Start(_, _) =>
    case Scan(_, _, _, _, _, _) => ScanLowers(s, job, path);
    case Place(_, _, _, _) => PlaceLowers(s, job, path);
    case Join(_, _, _, below, above) =>
      StepLowers(s, if path != [] && path[0] then below else above, if path == [] then [] else path[1..]);
      JoinLowers(s, job, path);
    case Done(_, _) =>
  }

  /** How many of the chosen steps change anything. */
  function Moves(s: seq<int>, job: Job, paths: seq<seq<bool>>): nat
    requires Fits(job, |s|)
    decreases |paths|
  {
    if paths == [] then 0
    else
      var (t, next) := Step(s, job, paths[0]);
      (if (t, next) == (s, job) then 0 else 1) + Moves(t, next, paths[1..])
  }

  lemma {:induction false} MovesAreBounded(s: seq<int>, job: Job, paths: seq<seq<bool>>)
    requires Fits(job, |s|) && Inv(s, job)
    ensures Moves(s, job, paths) + Remaining(Run(s, job, paths).0, Run(s, job, paths).1) <= Remaining(s, job)
    decreases |paths|
  {
    if paths == [] {
    } else {
      var (t, next) := Step(s, job, paths[0]);
      StepKeepsInv(s, job, paths[0]);
      StepLowers(s, job, paths[0]);
      MovesAreBounded(t, next, paths[1..]);
    }
  }

  lemma {:induction false} FinishFrom(s: seq<int>, job: Job) returns (paths: seq<seq<bool>>)
    requires Fits(job, |s|) && Inv(s, job)
    ensures Run(s, job, paths).1.Done?
    decreases Remaining(s, job)
  {
    if job.Done? {
      paths := [];
    } else {
      var path := SomeTaskCanMove(s, job);
      StepKeepsInv(s, job, path);
      StepLowers(s, job, path);
      var (t, next) := Step(s, job, path);
      paths := FinishFrom(t, next);
      paths := [path] + paths;
    }
  }

  /** No interleaving goes on for ever, and from wherever one has got to the sort can finish. */
  lemma EveryInterleavingEnds(s: seq<int>, paths: seq<seq<bool>>)
    ensures var root := Start(0, |s| - 1);
            var (t, job) := Run(s, root, paths);
            && Moves(s, root, paths) <= Bound(|s|)
            && exists more :: Run(t, job, more).1.Done?
  {
    var root := Start(0, |s| - 1);
    var (t, job) := Run(s, root, paths);
    RunKeepsInv(s, root, paths);
    MovesAreBounded(s, root, paths);
    var more := FinishFrom(t, job);
  }
}
