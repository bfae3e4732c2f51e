/** The singly linked task list of Project4/posix/list.c. */
module TaskList {
  import opened Selection

  class Task {
    const name: string
    const tid: nat
    const priority: int
    var burst: int

    constructor (name: string, tid: nat, priority: int, burst: int)
      ensures this.name == name && this.tid == tid && this.priority == priority && this.burst == burst
    {
      this.name, this.tid, this.priority, this.burst := name, tid, priority, burst;
    }
  }

  class Node {
    const task: Task
    var next: Node?

    constructor (task: Task, next: Node?)
      ensures this.task == task && this.next == next
    {
      this.task, this.next := task, next;
    }
  }

  /** Following `next` from `head` visits exactly `nodes`, and then comes `tail`. */
  ghost predicate Segment(head: Node?, nodes: seq<Node>, tail: Node?)
    reads nodes
  {
    if nodes == [] then head == tail
    else head == nodes[0] && Segment(nodes[0].next, nodes[1..], tail)
  }

  lemma {:induction false} SegmentConcat(head: Node?, a: seq<Node>, mid: Node?, b: seq<Node>, tail: Node?)
    requires Segment(head, a, mid) && Segment(mid, b, tail)
    ensures Segment(head, a + b, tail)
    decreases |a|
  {
    if a == [] {
      assert a + b == b;
    } else {
      assert (a + b)[1..] == a[1..] + b;
      SegmentConcat(a[0].next, a[1..], mid, b, tail);
    }
  }

  /** The list can be cut before any of its nodes. */
  lemma {:induction false} SegmentSplit(head: Node?, nodes: seq<Node>, tail: Node?, k: nat)
    requires Segment(head, nodes, tail) && k < |nodes|
    ensures Segment(head, nodes[..k], nodes[k]) && Segment(nodes[k].next, nodes[k + 1..], tail)
    decreases k
  {
    if k == 0 {
    } else {
      SegmentSplit(nodes[0].next, nodes[1..], tail, k - 1);
      assert nodes[..k][1..] == nodes[1..][..k - 1];
      assert nodes[1..][k..] == nodes[k + 1..];
    }
  }

  ghost function Tasks(nodes: seq<Node>): seq<Task> {
    seq(|nodes|, i requires 0 <= i < |nodes| => nodes[i].task)
  }

  ghost predicate Distinct<T>(xs: seq<T>) {
    forall i, j :: 0 <= i < j < |xs| ==> xs[i] != xs[j]
  }

  ghost predicate NamesDiffer(ts: seq<Task>) {
    forall i, j :: 0 <= i < j < |ts| ==> ts[i].name != ts[j].name
  }

  /** A head pointer, which insert and delete get the address of. */
  class List {
    var head: Node?
    ghost var nodes: seq<Node>
    ghost var tasks: seq<Task>
    ghost var repr: set<Node>

    ghost predicate Valid()
      reads this, nodes
      ensures Valid() ==> (head == null <==> tasks == [])
    {
      && Segment(head, nodes, null) && Distinct(nodes) && tasks == Tasks(nodes)
      && forall i :: 0 <= i < |nodes| ==> nodes[i] in repr
    }

    constructor ()
      ensures Valid() && tasks == [] && repr == {}
    {
      head, nodes, tasks, repr := null, [], [], {};
    }

    method Insert(newTask: Task)
      requires Valid()
      modifies this
      ensures Valid() && tasks == [newTask] + old(tasks)
      ensures head != null && fresh(head) && nodes == [head] + old(nodes) && repr == old(repr) + {head}
    {
      var newNode := new Node(newTask, head);
      head := newNode;
      nodes, tasks, repr := [newNode] + nodes, [newTask] + tasks, repr + {newNode};
      assert nodes[1..] == old(nodes);
    }

    /** Deletes the first node whose task has the name; the source walks off the end if none has. */
    method Delete(task: Task) returns (ghost k: nat)
      requires Valid() && exists i :: 0 <= i < |tasks| && tasks[i].name == task.name
      modifies this, repr
      ensures Valid() && k < |old(tasks)| && old(tasks)[k].name == task.name
      ensures forall i :: 0 <= i < k ==> old(tasks)[i].name != task.name
      ensures tasks == RemoveAt(old(tasks), k) && nodes == RemoveAt(old(nodes), k) && repr == old(repr)
    {
      k := FindAndUnlink(task);
      Removed(k);
      nodes, tasks := RemoveAt(nodes, k), RemoveAt(tasks, k);
    }

    method FindAndUnlink(task: Task) returns (ghost k: nat)
      requires Valid() && exists i :: 0 <= i < |tasks| && tasks[i].name == task.name
      modifies this`head, repr
      ensures k < |tasks| && tasks[k].name == task.name
      ensures forall i :: 0 <= i < k ==> tasks[i].name != task.name
      ensures Segment(head, RemoveAt(nodes, k), null)
    {
      if task.name == head.task.name {
        k := 0;
        head := head.next;
        assert RemoveAt(nodes, 0) == nodes[1..];
      } else {
        var prev, temp;
        prev, temp, k := Walk(task);
        Unlink(prev, temp, k);
      }
    }

    /** The walk to an interior or last node. */
    method Walk(task: Task) returns (prev: Node, temp: Node, ghost k: nat)
      requires Valid() && exists i :: 0 <= i < |tasks| && tasks[i].name == task.name
      requires tasks[0].name != task.name
      ensures 0 < k < |nodes| && prev == nodes[k - 1] && temp == nodes[k] && tasks[k].name == task.name
      ensures forall i :: 0 <= i < k ==> tasks[i].name != task.name
    {
      assert nodes[1..] != [] && Segment(head.next, nodes[1..], null);
      prev, temp, k := head, head.next, 1;
      while task.name != temp.task.name
        invariant 0 < k < |nodes| && prev == nodes[k - 1]
        invariant Segment(temp, nodes[k..], null)
        invariant forall i :: 0 <= i < k ==> tasks[i].name != task.name
        decreases |nodes| - k
      {
        assert tasks[k].name != task.name;
        prev := temp;
        temp := temp.next;
        assert nodes[k..][1..] == nodes[k + 1..];
        k := k + 1;
      }
    }

    lemma Removed(k: nat)
      requires tasks == Tasks(nodes) && Distinct(nodes) && k < |nodes|
      requires forall i :: 0 <= i < |nodes| ==> nodes[i] in repr
      ensures Distinct(RemoveAt(nodes, k)) && Tasks(RemoveAt(nodes, k)) == RemoveAt(tasks, k)
      ensures forall i :: 0 <= i < |nodes| - 1 ==> RemoveAt(nodes, k)[i] in repr
    {
    }

    /** The node leaves the chain: its predecessor is linked to its successor. */
    method Unlink(prev: Node, temp: Node, ghost k: nat)
      requires Segment(head, nodes, null) && Distinct(nodes)
      requires 0 < k < |nodes| && prev == nodes[k - 1] && temp == nodes[k]
      modifies prev
      ensures Segment(head, RemoveAt(nodes, k), null)
    {
      ghost var before, after := nodes[..k - 1], nodes[k + 1..];
      SegmentSplit(head, nodes, null, k - 1);
      SegmentSplit(head, nodes, null, k);
      prev.next := temp.next;
      assert Segment(head, before, prev);
      assert Segment(prev.next, after, null);
      assert ([prev] + after)[1..] == after;
      SegmentConcat(head, before, prev, [prev] + after, null);
      assert before + ([prev] + after) == RemoveAt(nodes, k);
    }

    /** With distinct names, deleting a task of the list deletes that task. */
    method DeleteTask(task: Task, ghost k: nat)
      requires Valid() && NamesDiffer(tasks) && k < |tasks| && tasks[k] == task
      modifies this, repr
      ensures Valid() && tasks == RemoveAt(old(tasks), k) && nodes == RemoveAt(old(nodes), k)
      ensures repr == old(repr)
    {
      ghost var j := Delete(task);
    }
  }

  /** The list add() builds: newest first, numbered from 0, with distinct names. */
  ghost predicate Added(ts: seq<Task>, num: nat) {
    |ts| == num && NamesDiffer(ts) && forall i :: 0 <= i < num ==> ts[i].tid == num - 1 - i
  }

  lemma AddedToFront(ts: seq<Task>, t: Task, num: nat)
    requires Added(ts, num) && t.tid == num && forall i :: 0 <= i < |ts| ==> ts[i].name != t.name
    ensures Added([t] + ts, num + 1)
  {
  }
}
