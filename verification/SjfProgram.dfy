/** The globals and the loop of Project4/posix/schedule_sjf.c. */
module SjfProgram {
  import opened Selection
  import opened Sequences
  import opened TaskList
  import opened Sjf

  /** The items as selection sees them: burst and number of each task. */
  ghost predicate Described(ts: seq<Task>, items: seq<Item>)
    reads ts
  {
    |items| == |ts| && forall i :: 0 <= i < |ts| ==> items[i] == Item(ts[i].burst, ts[i].tid)
  }

  ghost predicate Apart(done: seq<Item>, items: seq<Item>) {
    forall i, j :: 0 <= i < |done| && 0 <= j < |items| ==> done[i].tid != items[j].tid
  }

  ghost predicate NumbersDiffer(items: seq<Item>, num: nat) {
    && (forall i :: 0 <= i < |items| ==> items[i].tid < num)
    && forall i, j :: 0 <= i < j < |items| ==> items[i].tid != items[j].tid
  }

  lemma StillApart(done: seq<Item>, items: seq<Item>, k: nat, num: nat)
    requires NumbersDiffer(items, num) && k < |items| && Apart(done, items)
    ensures NumbersDiffer(RemoveAt(items, k), num) && Apart(done + [items[k]], RemoveAt(items, k))
  {
  }

  /** The tasks still in the list are those of the items. */
  ghost predicate Holds(list: List, items: seq<Item>)
    reads list, list.nodes, list.tasks
  {
    list.Valid() && NamesDiffer(list.tasks) && Described(list.tasks, items)
  }

  method DropTask(list: List, task: Task, ghost k: nat, ghost items: seq<Item>)
    requires Holds(list, items) && k < |items| && list.tasks[k] == task
    modifies list, list.repr
    ensures Holds(list, RemoveAt(items, k)) && list.repr == old(list.repr)
  {
    RemoveAtIndex(list.tasks, k);
    RemoveAtIndex(items, k);
    list.DeleteTask(task, k);
  }

  class Scheduler {
    const taskList: List
    var num: nat
    var response: array<int>
    var turnaround: array<int>
    var curTime: int

    constructor ()
      ensures taskList.Valid() && taskList.tasks == [] && num == 0 && curTime == 0
      ensures fresh(taskList) && taskList.repr == {}
    {
      taskList := new List();
      num, curTime := 0, 0;
      response, turnaround := new int[0], new int[0];
    }

    method Add(name: string, priority: int, burst: int)
      requires taskList.Valid() && Added(taskList.tasks, num)
      requires forall i :: 0 <= i < num ==> taskList.tasks[i].name != name
      modifies this`num, taskList
      ensures taskList.Valid() && Added(taskList.tasks, num) && num == old(num) + 1
      ensures taskList.tasks[1..] == old(taskList.tasks) && fresh(taskList.repr - old(taskList.repr))
      ensures var t := taskList.tasks[0];
              fresh(t) && t.name == name && t.priority == priority && t.burst == burst
    {
      var newTask := new Task(name, num, priority, burst);
      AddedToFront(taskList.tasks, newTask, num);
      num := num + 1;
      taskList.Insert(newTask);
    }

    /** The scan for the shortest burst. */
    method TaskToRun(ghost items: seq<Item>) returns (dest: Task, ghost k: nat)
      requires Holds(taskList, items) && items != []
      ensures k == MinIndex(items, |items|) && k < |taskList.tasks| && dest == taskList.tasks[k]
    {
      ghost var nodes := taskList.nodes;
      ghost var i := 0;
      dest, k := taskList.head.task, 0;
      var cur := taskList.head;
      while cur != null
        invariant 0 <= i <= |nodes| && Segment(cur, nodes[i..], null)
        invariant k < |nodes| && dest == taskList.tasks[k]
        invariant i > 0 ==> k == MinIndex(items, i)
        invariant i == 0 ==> k == 0
        decreases |nodes| - i
      {
        assert nodes[i..][1..] == nodes[i + 1..] && taskList.tasks[i] == cur.task;
        if cur.task.burst < dest.burst {
          dest, k := cur.task, i;
        }
        cur := cur.next;
        i := i + 1;
      }
    }

    /** What the arrays hold for the i-th task that ran. */
    ghost predicate Entry(done: seq<Item>, i: nat)
      requires i < |done|
      reads this`response, this`turnaround, response, turnaround
    {
      && done[i].tid < response.Length == turnaround.Length
      && response[done[i].tid] == Sum(Keys(done), i)
      && turnaround[done[i].tid] == Sum(Keys(done), i + 1)
    }

    /** The tasks of `done` have run, in that order. */
    ghost predicate Ran(done: seq<Item>)
      reads this`response, this`turnaround, this`curTime, response, turnaround
    {
      && response != turnaround && response.Length == turnaround.Length
      && curTime == Sum(Keys(done), |done|)
      && forall i :: 0 <= i < |done| ==> Entry(done, i)
    }

    /** The body of the loop up to the deletion: one task runs to its end. */
    method RunTask(task: Task, ghost done: seq<Item>, ghost items: seq<Item>) returns (ghost after: seq<Item>)
      requires Holds(taskList, items) && Ran(done) && task.tid < response.Length
      requires forall i :: 0 <= i < |done| ==> done[i].tid != task.tid
      modifies this`curTime, response, turnaround
      ensures after == done + [Item(task.burst, task.tid)] && Ran(after) && Holds(taskList, items)
    {
      after := done + [Item(task.burst, task.tid)];
      KeysSnoc(done, Item(task.burst, task.tid));
      response[task.tid] := curTime;
      curTime := curTime + task.burst;
      turnaround[task.tid] := curTime;
      forall i | 0 <= i < |after| ensures Entry(after, i) {
        assert i < |done| ==> old(Entry(done, i));
      }
    }

    /** The tasks of `items` are left in the list, and those of `done` have run. */
    ghost predicate Running(done: seq<Item>, items: seq<Item>)
      reads this, taskList, taskList.nodes, taskList.tasks, response, turnaround
    {
      && Holds(taskList, items) && Ran(done)
      && response.Length == num && NumbersDiffer(items, num) && Apart(done, items)
    }

    /** The deletion at the end of the loop body. */
    method Finish(task: Task, ghost k: nat, ghost after: seq<Item>, ghost items: seq<Item>)
      requires Holds(taskList, items) && k < |items| && taskList.tasks[k] == task && Ran(after)
      modifies taskList, taskList.repr
      ensures Holds(taskList, RemoveAt(items, k)) && Ran(after) && taskList.repr == old(taskList.repr)
    {
      hide List.Valid;
      DropTask(taskList, task, k, items);
    }

    /** One turn of the loop of schedule(). */
    method Turn(ghost done: seq<Item>, ghost items: seq<Item>)
      returns (ghost after: seq<Item>, ghost left: seq<Item>)
      requires Running(done, items) && items != []
      modifies taskList, taskList.repr
      modifies this`curTime, response, turnaround
      ensures Running(after, left) && |left| == |items| - 1
      ensures after + Select(left) == done + Select(items) && taskList.repr == old(taskList.repr)
    {
      hide List.Valid, Ran, Select, MinIndex;
      var task, k := TaskToRun(items);
      left := RemoveAt(items, k);
      SelectNext(done, items, k);
      StillApart(done, items, k, num);
      assert items[k] == Item(task.burst, task.tid);
      assert forall i :: 0 <= i < |done| ==> done[i].tid != task.tid;
      hide Described, NumbersDiffer, Apart;
      after := RunTask(task, done, items);
      Finish(task, k, after, items);
    }

    method RunAll(ghost items: seq<Item>) returns (ghost order: seq<Item>)
      requires Running([], items)
      modifies taskList, taskList.repr
      modifies this`curTime, response, turnaround
      ensures Running(order, []) && order == Select(items)
    {
      ghost var left := items;
      order := [];
      while taskList.head != null
        invariant Running(order, left) && taskList.repr == old(taskList.repr)
        invariant order + Select(left) == Select(items)
        decreases |left|
      {
        order, left := Turn(order, left);
      }
      assert left == [] && order == Select(items);
    }

    /** schedule() on fresh arrays. */
    method RunFresh(ghost items: seq<Item>) returns (ghost order: seq<Item>)
      requires Holds(taskList, items) && Added(taskList.tasks, num) && curTime == 0
      modifies this, taskList, taskList.repr
      ensures order == Select(items) && |order| == num && num == old(num)
      ensures Ran(order) && taskList.head == null && response.Length == turnaround.Length == num
    {
      response := new int[num];
      turnaround := new int[num];
      hide List.Valid;
      order := RunAll(items);
    }

    /** schedule(): the tasks run in the order of repeated selection, the arrays hold their start
        and end times, and no other order has a smaller sum of turnaround times or of waits. */
    method Schedule(ghost items: seq<Item>) returns (ghost order: seq<Item>)
      requires Holds(taskList, items) && Added(taskList.tasks, num) && curTime == 0
      modifies this, taskList, taskList.repr
      ensures order == Select(items) && |order| == num && num == old(num)
      ensures Ran(order) && taskList.head == null && response.Length == num
      ensures multiset(order) == multiset(items) && Ordered(order)
      ensures turnaround.Length == num && forall i :: 0 <= i < num ==> order[i].tid < num
      ensures forall i :: 0 <= i < num ==> response[order[i].tid] == Sum(Keys(order), i)
      ensures forall i :: 0 <= i < num ==> turnaround[order[i].tid] == Sum(Keys(order), i + 1)
      ensures curTime == Sum(Keys(order), num)
      ensures Sum(turnaround[..], num) == Total(Keys(order), 0)
      ensures forall other :: multiset(other) == multiset(items) ==>
                Sum(turnaround[..], num) <= Total(Keys(other), 0)
      ensures Sum(response[..], num) == Waits(Keys(order), 0)
      ensures forall other :: multiset(other) == multiset(items) ==>
                Sum(response[..], num) <= Waits(Keys(other), 0)
    {
      assert NewestFirst(items) && forall i :: 0 <= i < |items| ==> items[i].tid == |items| - 1 - i;
      hide *;
      order := RunFresh(items);
      AverageTurnaround(order, items);
      AverageWait(order, items);
      LeastOfAll(items);
      SelectPermutes(items);
      SelectOrders(items);
      StartsAndEnds(order);
    }

    /** When each task started and ended, and when the last one did. */
    lemma StartsAndEnds(order: seq<Item>)
      requires Ran(order)
      ensures turnaround.Length == response.Length && curTime == Sum(Keys(order), |order|)
      ensures forall i :: 0 <= i < |order| ==> order[i].tid < response.Length
      ensures forall i :: 0 <= i < |order| ==> response[order[i].tid] == Sum(Keys(order), i)
      ensures forall i :: 0 <= i < |order| ==> turnaround[order[i].tid] == Sum(Keys(order), i + 1)
    {
      hide Keys, Sum;
      forall i | 0 <= i < |order|
        ensures order[i].tid < response.Length
        ensures response[order[i].tid] == Sum(Keys(order), i)
        ensures turnaround[order[i].tid] == Sum(Keys(order), i + 1)
      {
        assert Entry(order, i);
      }
    }

    static lemma LeastOfAll(items: seq<Item>)
      ensures forall other :: multiset(other) == multiset(items) ==>
                && Total(Keys(Select(items)), 0) <= Total(Keys(other), 0)
                && Waits(Keys(Select(items)), 0) <= Waits(Keys(other), 0)
    {
      forall other | multiset(other) == multiset(items)
        ensures Total(Keys(Select(items)), 0) <= Total(Keys(other), 0)
        ensures Waits(Keys(Select(items)), 0) <= Waits(Keys(other), 0)
      {
        SjfIsOptimal(items, other);
        SjfWaitsLeast(items, other);
      }
    }

    /** The arrays hold start and end of each task. */
    lemma RanHolds(order: seq<Item>)
      requires Ran(order)
      ensures HoldsStarts(order, response[..]) && HoldsEnds(order, turnaround[..])
    {
      hide Keys, Sum;
      StartsAndEnds(order);
    }

    lemma AverageTurnaround(order: seq<Item>, items: seq<Item>)
      requires Ran(order) && order == Select(items) && turnaround.Length == |items|
      requires forall i :: 0 <= i < |items| ==> items[i].tid == |items| - 1 - i
      ensures Sum(turnaround[..], |items|) == Total(Keys(order), 0)
    {
      hide *;
      RanHolds(order);
      ArraySum(items, order, turnaround[..]);
    }

    lemma AverageWait(order: seq<Item>, items: seq<Item>)
      requires Ran(order) && order == Select(items) && response.Length == |items|
      requires forall i :: 0 <= i < |items| ==> items[i].tid == |items| - 1 - i
      ensures Sum(response[..], |items|) == Waits(Keys(order), 0)
    {
      hide *;
      RanHolds(order);
      ResponseSum(items, order, response[..]);
    }
  }
}
