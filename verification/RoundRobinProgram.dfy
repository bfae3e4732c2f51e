/** The globals of Project4/posix/schedule_rr.c and schedule_priority_rr.c: the same scheduling
    loop over a moving cursor, behind two ways of rearranging the list. */
module RoundRobinProgram {
  import opened Selection
  import opened Sequences
  import opened TaskList
  import RR = RoundRobin

  /** Priority and number of each task, as selection sees them. */
  function Priorities(ts: seq<Task>): (items: seq<Item>)
    ensures |items| == |ts|
    ensures forall i :: 0 <= i < |ts| ==> items[i] == Item(ts[i].priority, ts[i].tid)
  {
    if ts == [] then [] else [Item(ts[0].priority, ts[0].tid)] + Priorities(ts[1..])
  }

  lemma PrioritiesRemoveAt(ts: seq<Task>, k: nat)
    requires k < |ts|
    ensures Priorities(RemoveAt(ts, k)) == RemoveAt(Priorities(ts), k)
  {
    hide Priorities, RemoveAt;
    RemoveAtIndex(ts, k);
    RemoveAtIndex(Priorities(ts), k);
  }

  lemma PrioritiesCons(t: Task, ts: seq<Task>)
    ensures Priorities([t] + ts) == [Item(t.priority, t.tid)] + Priorities(ts)
  {
  }

  /** What moving the selected task does to the two lists, as items. */
  lemma MoveFacts(from: seq<Task>, to: seq<Task>, k: nat, done: seq<Item>, left: seq<Item>)
    requires left == Priorities(from) && left != [] && k == MinIndex(left, |left|)
    requires Priorities(to) == Reverse(done)
    ensures Priorities(RemoveAt(from, k)) == RemoveAt(left, k)
    ensures Priorities([from[k]] + to) == Reverse(done + [left[k]])
    ensures (done + [left[k]]) + Select(RemoveAt(left, k)) == done + Select(left)
  {
    SelectNext(done, left, k);
    ReverseSnoc(done, left[k]);
    PrioritiesRemoveAt(from, k);
    PrioritiesCons(from[k], to);
  }

  function Tids(ts: seq<Task>): (tids: seq<nat>)
    ensures |tids| == |ts| && forall i :: 0 <= i < |ts| ==> tids[i] == ts[i].tid
  {
    if ts == [] then [] else [ts[0].tid] + Tids(ts[1..])
  }

  /** The tasks are among `all`, which lists every task by its number. */
  ghost predicate Indexed(ts: seq<Task>, all: seq<Task>) {
    forall i :: 0 <= i < |ts| ==> ts[i].tid < |all| && all[ts[i].tid] == ts[i]
  }

  ghost predicate ByNumber(all: seq<Task>) {
    NamesDiffer(all) && forall i :: 0 <= i < |all| ==> all[i].tid == i
  }

  /** The list from position c on, and then from its head to c. */
  function Rotated<T>(xs: seq<T>, c: nat): seq<T>
    requires c <= |xs|
  {
    xs[c..] + xs[..c]
  }

  /** The position after c, or the head. */
  function After(c: nat, n: nat): nat {
    if c + 1 < n then c + 1 else 0
  }

  lemma CursorMoves<T>(xs: seq<T>, c: nat)
    requires c < |xs|
    ensures Rotated(xs, c) != [] && Rotated(xs, c)[0] == xs[c]
    ensures Rotated(xs, After(c, |xs|)) == Rotated(xs, c)[1..] + [xs[c]]
  {
  }

  /** Deleting the task that ran leaves the cursor on the next one. */
  lemma CursorSurvives<T>(xs: seq<T>, c: nat)
    requires c < |xs|
    ensures var d := if c + 1 < |xs| then c else 0;
            d <= |RemoveAt(xs, c)| && Rotated(RemoveAt(xs, c), d) == Rotated(xs, c)[1..]
            && (|xs| > 1 ==> d < |xs| - 1 && RemoveAt(xs, c)[d] == xs[After(c, |xs|)])
  {
  }

  lemma TidsRemoveAt(ts: seq<Task>, k: nat)
    requires k < |ts|
    ensures Tids(RemoveAt(ts, k)) == RemoveAt(Tids(ts), k)
  {
  }

  /** Deleting the task that ran turns its queue into the rest of the queue. */
  lemma DropFacts(ts: seq<Task>, c: nat, d: nat, all: seq<Task>)
    requires c < |ts| && NamesDiffer(ts) && Indexed(ts, all) && d == if c + 1 < |ts| then c else 0
    ensures NamesDiffer(RemoveAt(ts, c)) && Indexed(RemoveAt(ts, c), all)
    ensures d <= |RemoveAt(ts, c)| && Rotated(Tids(RemoveAt(ts, c)), d) == Rotated(Tids(ts), c)[1..]
  {
    RemoveAtIndex(ts, c);
    CursorSurvives(Tids(ts), c);
    TidsRemoveAt(ts, c);
  }

  /** The bursts in the order of the list. */
  function InOrder(bursts: seq<nat>, order: seq<nat>): (b: seq<nat>)
    requires forall j :: 0 <= j < |order| ==> order[j] < |bursts|
    ensures |b| == |order| && forall j :: 0 <= j < |order| ==> b[j] == bursts[order[j]]
  {
    if order == [] then [] else [bursts[order[0]]] + InOrder(bursts, order[1..])
  }

  lemma AddOrder(bursts: seq<nat>, all: seq<Task>)
    requires ByNumber(all) && |all| == |bursts|
    ensures |Tids(all)| == |bursts| && (forall i :: 0 <= i < |all| ==> Tids(all)[i] == i)
    ensures InOrder(bursts, Tids(all)) == bursts
  {
  }

  ghost predicate ByPriority(ts: seq<Task>) {
    forall i, j :: 0 <= i < j < |ts| ==>
      ts[i].priority > ts[j].priority || (ts[i].priority == ts[j].priority && ts[i].tid < ts[j].tid)
  }

  /** The whole of what was added, by number. */
  lemma ReversedIsByNumber(ts: seq<Task>, num: nat)
    requires Added(ts, num)
    ensures |Reverse(ts)| == num && ByNumber(Reverse(ts))
    ensures Indexed(ts, Reverse(ts)) && Indexed(Reverse(ts), Reverse(ts))
  {
  }

  lemma PriorityList(old_: seq<Task>, new_: seq<Task>, num: nat, all: seq<Task>)
    requires Added(old_, num) && Indexed(new_, all) && ByNumber(all)
    requires Priorities(new_) == Reverse(Select(Priorities(old_)))
    ensures |new_| == num && ByPriority(new_) && NamesDiffer(new_)
    ensures multiset(Priorities(new_)) == multiset(Priorities(old_))
  {
    PriorityOrder(Priorities(old_));
    SortedItems(new_);
    NumbersName(new_, all);
  }

  lemma SortedItems(ts: seq<Task>)
    requires var items := Priorities(ts);
             forall i, j :: 0 <= i < j < |items| ==>
               items[i].key > items[j].key || (items[i].key == items[j].key && items[i].tid < items[j].tid)
    ensures ByPriority(ts)
  {
    hide Priorities;
    forall i, j | 0 <= i < j < |ts|
      ensures ts[i].priority > ts[j].priority || (ts[i].priority == ts[j].priority && ts[i].tid < ts[j].tid)
    {
      assert Priorities(ts)[i].key == ts[i].priority && Priorities(ts)[j].key == ts[j].priority;
    }
  }

  lemma NumbersName(ts: seq<Task>, all: seq<Task>)
    requires Indexed(ts, all) && ByNumber(all) && ByPriority(ts)
    ensures NamesDiffer(ts)
  {
  }

  class Scheduler {
    const quantum: nat
    const taskList: List
    const newTaskList: List
    var nextTask: Node?
    var num: nat
    var response: array<int>
    var lastFinish: array<int>
    var wait: array<int>
    var curTime: int

    constructor (quantum: nat)
      ensures this.quantum == quantum && num == 0 && curTime == 0 && fresh(taskList) && fresh(newTaskList)
      ensures taskList.Valid() && taskList.tasks == [] && newTaskList.Valid() && newTaskList.tasks == []
      ensures taskList != newTaskList && taskList.repr == {} && newTaskList.repr == {}
    {
      this.quantum := quantum;
      taskList := new List();
      newTaskList := new List();
      nextTask, num, curTime := null, 0, 0;
      response, lastFinish, wait := new int[0], new int[0], new int[0];
    }

    method Add(name: string, priority: int, burst: int)
      requires taskList.Valid() && Added(taskList.tasks, num)
      requires forall i :: 0 <= i < num ==> taskList.tasks[i].name != name
      modifies this`num, taskList
      ensures taskList.Valid() && Added(taskList.tasks, num) && num == old(num) + 1
      ensures taskList.tasks[1..] == old(taskList.tasks) && fresh(taskList.repr - old(taskList.repr))
      ensures var t := taskList.tasks[0];
              fresh(t) && t.name == name && t.priority == priority && t.burst == burst
    {
      var newTask := new Task(name, num, priority, burst);
      AddedToFront(taskList.tasks, newTask, num);
      num := num + 1;
      taskList.Insert(newTask);
    }

    // ---------- rearrangement ----------

    ghost predicate TwoLists(all: seq<Task>)
      reads taskList, newTaskList, taskList.nodes, newTaskList.nodes
      ensures TwoLists(all) ==> taskList.Valid() && newTaskList.Valid()
    {
      && taskList != newTaskList && taskList.Valid() && newTaskList.Valid()
      && taskList.repr !! newTaskList.repr && NamesDiffer(taskList.tasks)
      && Indexed(taskList.tasks, all) && Indexed(newTaskList.tasks, all)
    }

    /** firstTask and the insertion of rearrangement: the head changes lists. */
    method MoveTask(task: Task, ghost k: nat, ghost all: seq<Task>)
      requires TwoLists(all) && k < |taskList.tasks| && task == taskList.tasks[k]
      modifies taskList, taskList.repr, newTaskList
      ensures TwoLists(all) && newTaskList.head != null && fresh(newTaskList.head)
      ensures newTaskList.repr == old(newTaskList.repr) + {newTaskList.head}
      ensures taskList.tasks == RemoveAt(old(taskList.tasks), k) && taskList.repr == old(taskList.repr)
      ensures newTaskList.tasks == [task] + old(newTaskList.tasks)
    {
      RemoveAtIndex(taskList.tasks, k);
      taskList.DeleteTask(task, k);
      newTaskList.Insert(task);
    }

    /** rearrangement() of schedule_rr.c: the new list is the old one reversed. */
    method Rearrange(ghost all: seq<Task>)
      requires TwoLists(all) && newTaskList.tasks == [] && newTaskList.repr == {}
      modifies taskList, taskList.repr, newTaskList
      ensures TwoLists(all) && fresh(newTaskList.repr)
      ensures taskList.tasks == [] && newTaskList.tasks == Reverse(old(taskList.tasks))
    {
      ghost var ts, i := taskList.tasks, 0;
      while taskList.head != null
        invariant TwoLists(all) && fresh(newTaskList.repr)
        invariant taskList.repr == old(taskList.repr)
        invariant i <= |ts| && taskList.tasks == ts[i..] && newTaskList.tasks == Reverse(ts[..i])
        decreases |ts| - i
      {
        assert taskList.head.task == taskList.tasks[0];
        ReverseSnoc(ts[..i], ts[i]);
        assert ts[..i + 1] == ts[..i] + [ts[i]];
        assert RemoveAt(ts[i..], 0) == ts[i + 1..];
        MoveTask(taskList.head.task, 0, all);
        i := i + 1;
      }
      assert ts[..i] == ts;
    }

    /** The scan for the lowest priority. */
    method LowestPriorTask(ghost items: seq<Item>) returns (dest: Task, ghost k: nat)
      requires taskList.Valid() && taskList.tasks != [] && items == Priorities(taskList.tasks)
      ensures k == MinIndex(items, |items|) && k < |taskList.tasks| && dest == taskList.tasks[k]
    {
      hide Priorities;
      ghost var nodes := taskList.nodes;
      ghost var i := 0;
      dest, k := taskList.head.task, 0;
      var cur := taskList.head;
      while cur != null
        invariant 0 <= i <= |nodes| && Segment(cur, nodes[i..], null)
        invariant k < |nodes| && dest == taskList.tasks[k]
        invariant i > 0 ==> k == MinIndex(items, i)
        invariant i == 0 ==> k == 0
        decreases |nodes| - i
      {
        assert nodes[i..][1..] == nodes[i + 1..] && taskList.tasks[i] == cur.task;
        if cur.task.priority < dest.priority {
          dest, k := cur.task, i;
        }
        cur := cur.next;
        i := i + 1;
      }
    }

    /** The part of the rearrangement of `items` that is done, and the part that is left. */
    ghost predicate Rearranging(done: seq<Item>, left: seq<Item>, items: seq<Item>, all: seq<Task>)
      reads taskList, newTaskList, taskList.nodes, newTaskList.nodes
    {
      && TwoLists(all) && left == Priorities(taskList.tasks)
      && Priorities(newTaskList.tasks) == Reverse(done) && done + Select(left) == Select(items)
    }

    /** One turn of the loop: the lowest priority moves to the front of the new list. */
    method MoveLowest(ghost done: seq<Item>, ghost left: seq<Item>, ghost items: seq<Item>, ghost all: seq<Task>)
      returns (ghost after: seq<Item>, ghost rest: seq<Item>)
      requires Rearranging(done, left, items, all) && taskList.head != null
      modifies taskList, taskList.repr, newTaskList
      ensures Rearranging(after, rest, items, all) && newTaskList.head != null && fresh(newTaskList.head)
      ensures newTaskList.repr == old(newTaskList.repr) + {newTaskList.head}
      ensures taskList.repr == old(taskList.repr) && |rest| < |left|
    {
      hide List.Valid, TwoLists, Select, MinIndex, Reverse;
      var task, k := LowestPriorTask(left);
      after, rest := done + [left[k]], RemoveAt(left, k);
      MoveFacts(taskList.tasks, newTaskList.tasks, k, done, left);
      hide Priorities;
      MoveTask(task, k, all);
    }

    /** The loop of rearrangement(). */
    method MoveAll(ghost items: seq<Item>, ghost all: seq<Task>) returns (ghost done: seq<Item>, ghost left: seq<Item>)
      requires Rearranging([], items, items, all) && newTaskList.repr == {}
      modifies taskList, taskList.repr, newTaskList
      ensures Rearranging(done, left, items, all) && taskList.head == null && fresh(newTaskList.repr)
    {
      hide *;
      done, left := [], items;
      ghost var made: set<Node> := {};
      while taskList.head != null
        invariant Rearranging(done, left, items, all)
        invariant newTaskList.repr == made && fresh(made)
        invariant taskList.repr == old(taskList.repr)
        decreases |left|
      {
        done, left := MoveLowest(done, left, items, all);
        made := made + {newTaskList.head};
      }
    }

    lemma AllMoved(done: seq<Item>, left: seq<Item>, items: seq<Item>, all: seq<Task>)
      requires Rearranging(done, left, items, all) && taskList.head == null
      ensures TwoLists(all) && taskList.tasks == []
      ensures Priorities(newTaskList.tasks) == Reverse(Select(items))
    {
      assert Select(left) == [] && done + [] == done;
    }

    /** rearrangement() of schedule_priority_rr.c: the new list is the old one in the reverse of
        the order of selection by priority. */
    method RearrangeByPriority(ghost all: seq<Task>)
      requires TwoLists(all) && newTaskList.tasks == [] && newTaskList.repr == {}
      modifies taskList, taskList.repr, newTaskList
      ensures TwoLists(all) && fresh(newTaskList.repr) && taskList.tasks == []
      ensures Priorities(newTaskList.tasks) == Reverse(Select(Priorities(old(taskList.tasks))))
    {
      ghost var items := Priorities(taskList.tasks);
      assert Rearranging([], items, items, all);
      hide *;
      ghost var done, left := MoveAll(items, all);
      AllMoved(done, left, items, all);
    }

    // ---------- the scheduling loop ----------

    /** The list, the cursor and the queue they stand for. */
    ghost predicate ListShows(queue: seq<nat>, c: nat, all: seq<Task>)
      reads newTaskList, newTaskList.nodes, this`nextTask
    {
      && newTaskList.Valid() && NamesDiffer(newTaskList.tasks) && Indexed(newTaskList.tasks, all)
      && c <= |newTaskList.tasks| && queue == Rotated(Tids(newTaskList.tasks), c)
      && (newTaskList.tasks != [] ==> c < |newTaskList.nodes| && nextTask == newTaskList.nodes[c])
    }

    /** The arrays, the clock and the bursts. */
    ghost predicate ArraysShow(s: RR.State, all: seq<Task>)
      reads this`response, this`lastFinish, this`wait, this`curTime, response, lastFinish, wait, all
    {
      && response != lastFinish && response != wait && lastFinish != wait
      && response[..] == s.response && lastFinish[..] == s.lastFinish && wait[..] == s.wait
      && curTime == s.time && |s.burst| == |all|
      && forall i :: 0 <= i < |all| ==> all[i].burst == s.burst[i]
    }

    ghost predicate Shows(s: RR.State, c: nat, all: seq<Task>)
      reads this, newTaskList, newTaskList.nodes, response, lastFinish, wait, all
    {
      RR.Shaped(s) && ByNumber(all) && ListShows(s.queue, c, all) && ArraysShow(s, all)
    }

    /** taskToRun(): the task under the cursor, which moves on. */
    method TaskToRun(ghost queue: seq<nat>, ghost c: nat, ghost all: seq<Task>) returns (dest: Task)
      requires ListShows(queue, c, all) && newTaskList.tasks != []
      modifies this`nextTask
      ensures dest == newTaskList.tasks[c] && dest.tid == queue[0]
      ensures ListShows(queue[1..] + [queue[0]], After(c, |newTaskList.tasks|), all)
    {
      CursorMoves(Tids(newTaskList.tasks), c);
      dest := nextTask.task;
      SegmentSplit(newTaskList.head, newTaskList.nodes, null, c);
      nextTask := if nextTask.next != null then nextTask.next else newTaskList.head;
    }

    /** The turn itself: response, wait, clock, lastFinish and burst. */
    method RunSlice(task: Task, ghost s: RR.State, ghost all: seq<Task>, ghost queue: seq<nat>, ghost c: nat)
      requires ListShows(queue, c, all) && RR.Shaped(s) && ByNumber(all) && ArraysShow(s, all) && s.queue != []
      requires task.tid == s.queue[0] && all[task.tid] == task
      modifies this`curTime, task, response, lastFinish, wait
      ensures ArraysShow(RR.Step(quantum, s), all) && ListShows(queue, c, all)
      ensures task.burst == RR.Step(quantum, s).burst[s.queue[0]]
    {
      hide List.Valid, ListShows;
      var slice := if task.burst < quantum then task.burst else quantum;
      if lastFinish[task.tid] == 0 {
        response[task.tid] := curTime;
      }
      wait[task.tid] := wait[task.tid] + curTime - lastFinish[task.tid];
      curTime := curTime + slice;
      lastFinish[task.tid] := curTime;
      task.burst := task.burst - slice;
    }

    /** The deletion of a finished task: the cursor, already moved, stays valid. */
    method DropTask(task: Task, ghost queue: seq<nat>, ghost c: nat, ghost all: seq<Task>, ghost s: RR.State)
      returns (ghost d: nat)
      requires ArraysShow(s, all) && c < |newTaskList.tasks| && task == newTaskList.tasks[c]
      requires queue == Rotated(Tids(newTaskList.tasks), c)
      requires ListShows(queue[1..] + [queue[0]], After(c, |newTaskList.tasks|), all)
      modifies newTaskList, newTaskList.repr
      ensures ListShows(queue[1..], d, all) && ArraysShow(s, all)
      ensures newTaskList.repr == old(newTaskList.repr)
    {
      d := if c + 1 < |newTaskList.tasks| then c else 0;
      DropFacts(newTaskList.tasks, c, d, all);
      CursorSurvives(newTaskList.nodes, c);
      assert |newTaskList.nodes| == |newTaskList.tasks|;
      hide List.Valid, NamesDiffer, Indexed;
      newTaskList.DeleteTask(task, c);
    }

    lemma FrontOfList(s: RR.State, c: nat, all: seq<Task>)
      requires Shows(s, c, all) && newTaskList.head != null
      ensures s.queue != [] && c < |newTaskList.tasks| && s.queue == Rotated(Tids(newTaskList.tasks), c)
      ensures var task := newTaskList.tasks[c]; task.tid < |all| && all[task.tid] == task
    {
      assert |Tids(newTaskList.tasks)| == |s.queue|;
    }

    /** One turn of the loop of schedule() is a step of the queue. */
    method Turn(ghost s: RR.State, ghost c: nat, ghost all: seq<Task>) returns (ghost d: nat)
      requires Shows(s, c, all) && newTaskList.head != null
      modifies this`nextTask, this`curTime, newTaskList, newTaskList.repr, all, response, lastFinish, wait
      ensures s.queue != [] && Shows(RR.Step(quantum, s), d, all)
      ensures newTaskList.repr == old(newTaskList.repr)
    {
      FrontOfList(s, c, all);
      hide List.Valid, ArraysShow, ListShows, Tids, Rotated;
      var task := TaskToRun(s.queue, c, all);
      d := After(c, |newTaskList.tasks|);
      RunSlice(task, s, all, s.queue[1..] + [s.queue[0]], d);
      if task.burst == 0 {
        d := DropTask(task, s.queue, c, all, RR.Step(quantum, s));
      }
    }

    /** A turn of the loop, with its place in the rounds. */
    method PlacedTurn(ghost s: RR.State, ghost c: nat, ghost r: nat, ghost p: nat,
                      ghost order: seq<nat>, ghost b: seq<nat>, ghost all: seq<Task>)
      returns (ghost t: RR.State, ghost d: nat, ghost r': nat, ghost p': nat)
      requires Shows(s, c, all) && newTaskList.head != null && RR.At(s, order, b, quantum, r, p)
      modifies this`nextTask, this`curTime, newTaskList, newTaskList.repr, all, response, lastFinish, wait
      ensures Shows(t, d, all) && newTaskList.repr == old(newTaskList.repr)
      ensures RR.At(t, order, b, quantum, r', p')
      ensures s.time <= t.time && s.time <= Sum(b, |b|) && (s.time == t.time ==> |t.queue| < |s.queue|)
    {
      assert RR.Shaped(s);
      hide List.Valid, Shows, RR.At;
      d := Turn(s, c, all);
      t := RR.Step(quantum, s);
      r', p' := RR.NextTurn(s, order, b, quantum, r, p);
      RR.Turn(s, order, b, quantum, r', p');
      RR.TurnDecreases(s, order, b, quantum, r', p');
      p' := p' + 1;
    }

    /** The loop of schedule() runs to the closed form. */
    method RunAll(ghost s0: RR.State, ghost order: seq<nat>, ghost b: seq<nat>, ghost all: seq<Task>)
      returns (ghost s: RR.State)
      requires Shows(s0, 0, all) && RR.Start(s0, order, b) && quantum > 0
      modifies this`nextTask, this`curTime, newTaskList, newTaskList.repr, all, response, lastFinish, wait
      ensures RR.Finished(s, order, b, quantum) && ArraysShow(s, all) && newTaskList.head == null
    {
      ghost var c, r, p := 0, 0, 0;
      s := s0;
      RR.StartIsAt(s, order, b, quantum);
      while newTaskList.head != null
        invariant Shows(s, c, all) && RR.At(s, order, b, quantum, r, p)
        invariant newTaskList.repr == old(newTaskList.repr)
        decreases Sum(b, |b|) - s.time, |s.queue|
      {
        s, c, r, p := PlacedTurn(s, c, r, p, order, b, all);
      }
      assert |Tids(newTaskList.tasks)| == |s.queue|;
      RR.EmptyIsFinished(s, order, b, quantum, r, p);
    }

    /** The list that a rearrangement leaves, with the bursts by number. */
    ghost predicate Rearranged(bursts: seq<nat>, all: seq<Task>)
      reads newTaskList, newTaskList.nodes, all
    {
      && newTaskList.Valid() && NamesDiffer(newTaskList.tasks) && Indexed(newTaskList.tasks, all)
      && ByNumber(all) && |all| == |bursts|
      && forall i :: 0 <= i < |all| ==> all[i].burst == bursts[i]
    }

    /** The beginning of schedule() after the rearrangement. */
    method Prepare(ghost bursts: seq<nat>, ghost all: seq<Task>) returns (ghost s: RR.State)
      requires Rearranged(bursts, all) && |all| == num && curTime == 0
      modifies this
      ensures fresh(response) && fresh(lastFinish) && fresh(wait) && num == old(num)
      ensures Shows(s, 0, all) && s.queue == Tids(newTaskList.tasks)
      ensures (forall j :: 0 <= j < |s.queue| ==> s.queue[j] < |bursts|)
              && RR.Start(s, s.queue, InOrder(bursts, s.queue))
    {
      s := MakeArrays(bursts, all);
      hide List.Valid;
      nextTask := newTaskList.head;
      StartShows(s, bursts, all);
    }

    method MakeArrays(ghost bursts: seq<nat>, ghost all: seq<Task>) returns (ghost s: RR.State)
      requires Rearranged(bursts, all) && |all| == num && curTime == 0
      modifies this`response, this`lastFinish, this`wait
      ensures fresh(response) && fresh(lastFinish) && fresh(wait)
      ensures s.queue == Tids(newTaskList.tasks) && s.burst == bursts && s.time == 0
      ensures RR.Shaped(s) && ArraysShow(s, all) && Rearranged(bursts, all)
      ensures forall i :: 0 <= i < |bursts| ==> s.lastFinish[i] == 0 && s.wait[i] == 0
    {
      hide List.Valid;
      response := new int[num];
      lastFinish := new int[num](_ => 0);
      wait := new int[num](_ => 0);
      s := RR.State(Tids(newTaskList.tasks), bursts, response[..], lastFinish[..], wait[..], 0);
    }

    /** What the arrays and the clock hold in the end: for each task in the order of the turns, when
        it first ran, when it last ran, and how long it waited; and nothing of it is left to run. */
    ghost predicate Ended(order: seq<nat>, b: seq<nat>, all: seq<Task>)
      requires quantum > 0 && |order| == |b|
      reads this`response, this`lastFinish, this`wait, this`curTime, response, lastFinish, wait, all
    {
      && response.Length == lastFinish.Length == wait.Length == |all| && curTime == Sum(b, |b|)
      && forall i :: 0 <= i < |b| ==>
           && order[i] < |all| && all[order[i]].burst == 0
           && response[order[i]] == RR.Served(b, quantum, 0, i, |b|)
           && lastFinish[order[i]]
              == RR.Served(b, RR.Rounds(b[i], quantum) * quantum, (RR.Rounds(b[i], quantum) - 1) * quantum, i + 1, |b|)
           && wait[order[i]] == lastFinish[order[i]] - b[i]
    }

    lemma FinishedHasEnded(s: RR.State, order: seq<nat>, b: seq<nat>, all: seq<Task>)
      requires RR.Finished(s, order, b, quantum) && ArraysShow(s, all)
      ensures Ended(order, b, all)
    {
      hide RR.Served, RR.Rounds, Sum;
      forall i | 0 <= i < |b| ensures RR.FinishedAt(s, order[i], b, quantum, i) {
      }
    }

    /** schedule() after the rearrangement. */
    method RunFromStart(ghost bursts: seq<nat>, ghost all: seq<Task>)
      returns (ghost s: RR.State, ghost order: seq<nat>)
      requires Rearranged(bursts, all) && |all| == num && curTime == 0 && quantum > 0
      modifies this, newTaskList, newTaskList.repr, all
      ensures order == old(Tids(newTaskList.tasks)) && num == old(num)
      ensures (forall j :: 0 <= j < |order| ==> order[j] < |bursts|)
              && RR.Finished(s, order, InOrder(bursts, order), quantum)
      ensures ArraysShow(s, all) && newTaskList.head == null && Ended(order, InOrder(bursts, order), all)
    {
      hide *;
      s := Prepare(bursts, all);
      order := s.queue;
      s := RunAll(s, order, InOrder(bursts, order), all);
      FinishedHasEnded(s, order, InOrder(bursts, order), all);
    }

    lemma StartShows(s: RR.State, bursts: seq<nat>, all: seq<Task>)
      requires Rearranged(bursts, all) && nextTask == newTaskList.head
      requires s.queue == Tids(newTaskList.tasks) && ArraysShow(s, all) && s.burst == bursts && RR.Shaped(s)
      requires s.time == 0 && forall i :: 0 <= i < |bursts| ==> s.lastFinish[i] == 0 && s.wait[i] == 0
      ensures Shows(s, 0, all) && RR.Start(s, s.queue, InOrder(bursts, s.queue))
    {
    }

    /** The state after the add() calls: `all` lists the tasks in the order they were added. */
    ghost predicate Loaded(bursts: seq<nat>, all: seq<Task>)
      reads this, taskList, newTaskList, taskList.nodes, newTaskList.nodes, all
    {
      && TwoLists(all) && newTaskList.tasks == [] && newTaskList.repr == {}
      && Added(taskList.tasks, num) && all == Reverse(taskList.tasks) && |bursts| == num
      && (forall i :: 0 <= i < num ==> all[i].burst == bursts[i])
      && curTime == 0 && quantum > 0
    }

    method RearrangeLoaded(ghost bursts: seq<nat>, ghost all: seq<Task>)
      requires Loaded(bursts, all)
      modifies taskList, taskList.repr, newTaskList
      ensures Rearranged(bursts, all) && fresh(newTaskList.repr) && newTaskList.tasks == all && ByNumber(all)
    {
      ReversedIsByNumber(taskList.tasks, num);
      hide List.Valid, Added, Reverse;
      Rearrange(all);
    }

    /** schedule() of schedule_rr.c: the tasks take turns in the order in which they were added,
        and the arrays end with the closed form. */
    method Schedule(ghost bursts: seq<nat>, ghost all: seq<Task>) returns (ghost s: RR.State, ghost order: seq<nat>)
      requires Loaded(bursts, all)
      modifies this, taskList, taskList.repr, newTaskList, all
      ensures |order| == |bursts| && forall i :: 0 <= i < |order| ==> order[i] == i
      ensures RR.Finished(s, order, bursts, quantum)
      ensures ArraysShow(s, all) && newTaskList.head == null
      ensures Ended(order, bursts, all)
    {
      assert |all| == num == |bursts| && curTime == 0 && quantum > 0;
      hide *;
      RearrangeLoaded(bursts, all);
      AddOrder(bursts, all);
      s, order := RunFromStart(bursts, all);
    }

    method RearrangeLoadedByPriority(ghost bursts: seq<nat>, ghost all: seq<Task>)
      requires Loaded(bursts, all)
      modifies taskList, taskList.repr, newTaskList
      ensures Rearranged(bursts, all) && fresh(newTaskList.repr) && ByPriority(newTaskList.tasks)
      ensures |newTaskList.tasks| == num
      ensures multiset(Priorities(newTaskList.tasks)) == multiset(Priorities(old(taskList.tasks)))
    {
      ghost var ts := taskList.tasks;
      ReversedIsByNumber(ts, num);
      assert |all| == |bursts| && TwoLists(all) && Added(ts, num);
      hide *;
      RearrangeByPriority(all);
      PriorityList(ts, newTaskList.tasks, num, all) by {
        assert Indexed(newTaskList.tasks, all) by { NewListIndexed(all); }
      }
      NewListIsRearranged(bursts, all);
    }

    lemma NewListIndexed(all: seq<Task>)
      requires TwoLists(all)
      ensures Indexed(newTaskList.tasks, all)
    {
    }

    lemma NewListIsRearranged(bursts: seq<nat>, all: seq<Task>)
      requires TwoLists(all) && NamesDiffer(newTaskList.tasks) && ByNumber(all) && |all| == |bursts|
      requires forall i :: 0 <= i < |all| ==> all[i].burst == bursts[i]
      ensures Rearranged(bursts, all)
    {
      hide List.Valid;
    }

    /** schedule() of schedule_priority_rr.c: the same, in the order of descending priority with
        ties in the order in which the tasks were added. */
    method ScheduleByPriority(ghost bursts: seq<nat>, ghost all: seq<Task>)
      returns (ghost s: RR.State, ghost order: seq<nat>, ghost ranked: seq<Task>)
      requires Loaded(bursts, all)
      modifies this, taskList, taskList.repr, newTaskList, all
      ensures ByPriority(ranked) && order == Tids(ranked)
      ensures multiset(Priorities(ranked)) == multiset(Priorities(old(taskList.tasks)))
      ensures (forall j :: 0 <= j < |order| ==> order[j] < |bursts|)
              && RR.Finished(s, order, InOrder(bursts, order), quantum)
      ensures ArraysShow(s, all) && newTaskList.head == null
      ensures Ended(order, InOrder(bursts, order), all)
    {
      assert |all| == num;
      RearrangeLoadedByPriority(bursts, all);
      ranked := newTaskList.tasks;
      hide List.Valid, Rearranged, ArraysShow, Priorities, ByPriority, Ended;
      s, order := RunFromStart(bursts, all);
    }
  }
}
