/** The critical sections of Project5 as code on the shared array: from the lock to the unlock,
    each does to the array exactly what the steps of the interleaved system do. */
module RingProgram {
  import opened SemaphoreQueue

  /** What the three steps of an insertion do to the ring. */
  lemma InsertSteps<T>(c: Config, s: State<T>, tid: nat, x: T)
    requires Shaped(c, s) && tid < |s.threads|
    ensures s.threads[tid] == InsertCheck(x) ==>
              Step(c, s, (tid, x))
              == At(s, tid, if (s.rear + 1) % (c.capacity + 1) == s.front then InsertFail else MoveRear(x))
    ensures s.threads[tid] == MoveRear(x) ==>
              Step(c, s, (tid, x)) == At(s, tid, Write(x)).(rear := (s.rear + 1) % (c.capacity + 1))
    ensures s.threads[tid] == Write(x) ==>
              Step(c, s, (tid, x))
              == At(s, tid, InsertUnlock).(buffer := s.buffer[s.rear := x], inserted := s.inserted + [x])
  {
  }

  /** What the three steps of a removal do to the ring. */
  lemma RemoveSteps<T>(c: Config, s: State<T>, tid: nat, any: T)
    requires Shaped(c, s) && tid < |s.threads|
    ensures s.threads[tid].RemoveCheck? ==>
              Step(c, s, (tid, any)) == At(s, tid, if c.checked && s.rear == s.front then RemoveFail else MoveFront)
    ensures s.threads[tid].MoveFront? ==>
              Step(c, s, (tid, any)) == At(s, tid, Read).(front := (s.front + 1) % (c.capacity + 1))
    ensures s.threads[tid].Read? ==>
              var x := s.buffer[s.front];
              Step(c, s, (tid, any)) == At(s, tid, RemoveUnlock(|s.removed|, x)).(removed := s.removed + [x])
  {
  }

  class Ring<T> {
    const capacity: nat
    const buffer: array<T>
    var front: nat
    var rear: nat

    ghost predicate Shows(c: Config, s: State<T>)
      reads this, buffer
    {
      && Shaped(c, s) && c.capacity == capacity && buffer.Length == capacity + 1
      && buffer[..] == s.buffer && front == s.front && rear == s.rear
    }

    ghost predicate About(c: Config, s: State<T>, tid: nat, pc: Pc<T>)
      reads this, buffer
    {
      Shows(c, s) && tid < |s.threads| && s.threads[tid] == pc
    }

    constructor (capacity: nat, blank: T)
      ensures this.capacity == capacity && buffer.Length == capacity + 1 && fresh(buffer)
      ensures front == 0 && rear == 0
    {
      this.capacity := capacity;
      buffer := new T[capacity + 1](_ => blank);
      front, rear := 0, 0;
    }

    /** insert_item and enqueue between lock and unlock. */
    method Insert(item: T, ghost c: Config, ghost s: State<T>, ghost tid: nat)
      returns (code: int, ghost t: State<T>)
      requires About(c, s, tid, InsertCheck(item))
      modifies this`rear, buffer
      ensures var e := (tid, item);
              t == if code == 1 then Step(c, s, e) else Step(c, Step(c, Step(c, s, e), e), e)
      ensures About(c, t, tid, if code == 1 then InsertFail else InsertUnlock)
      ensures code == if (old(rear) + 1) % (capacity + 1) == front then 1 else 0
      ensures code == 1 ==> rear == old(rear) && buffer[..] == old(buffer[..])
      ensures code == 0 ==> rear == (old(rear) + 1) % (capacity + 1) < buffer.Length
                            && buffer[..] == old(buffer[..])[rear := item]
    {
      InsertSteps(c, s, tid, item);
      t := Step(c, s, (tid, item));
      if (rear + 1) % (capacity + 1) == front {
        return 1, t;
      }
      rear := (rear + 1) % (capacity + 1);
      InsertSteps(c, t, tid, item);
      t := Step(c, t, (tid, item));
      buffer[rear] := item;
      InsertSteps(c, t, tid, item);
      t := Step(c, t, (tid, item));
      return 0, t;
    }

    /** remove_item between lock and unlock. */
    method Remove(ghost c: Config, ghost s: State<T>, ghost tid: nat, ghost any: T)
      returns (code: int, item: T, ghost t: State<T>)
      requires About(c, s, tid, RemoveCheck) && c.checked
      modifies this`front
      ensures var e := (tid, any);
              t == if code == 1 then Step(c, s, e) else Step(c, Step(c, Step(c, s, e), e), e)
      ensures About(c, t, tid, if code == 1 then RemoveFail else RemoveUnlock(|s.removed|, item))
      ensures code == if rear == old(front) then 1 else 0
      ensures code == 1 ==> front == old(front)
      ensures code == 0 ==> front == (old(front) + 1) % (capacity + 1) < buffer.Length && item == buffer[front]
    {
      RemoveSteps(c, s, tid, any);
      t := Step(c, s, (tid, any));
      if rear == front {
        return 1, buffer[front], t;
      }
      front := (front + 1) % (capacity + 1);
      RemoveSteps(c, t, tid, any);
      t := Step(c, t, (tid, any));
      item := buffer[front];
      RemoveSteps(c, t, tid, any);
      t := Step(c, t, (tid, any));
      return 0, item, t;
    }

    /** dequeue between lock and unlock: no test. */
    method Dequeue(ghost c: Config, ghost s: State<T>, ghost tid: nat, ghost any: T)
      returns (item: T, ghost t: State<T>)
      requires About(c, s, tid, RemoveCheck) && !c.checked
      modifies this`front
      ensures var e := (tid, any); t == Step(c, Step(c, Step(c, s, e), e), e)
      ensures About(c, t, tid, RemoveUnlock(|s.removed|, item))
      ensures front == (old(front) + 1) % (capacity + 1) < buffer.Length && item == buffer[front]
    {
      RemoveSteps(c, s, tid, any);
      t := Step(c, s, (tid, any));
      front := (front + 1) % (capacity + 1);
      RemoveSteps(c, t, tid, any);
      t := Step(c, t, (tid, any));
      item := buffer[front];
      RemoveSteps(c, t, tid, any);
      t := Step(c, t, (tid, any));
    }
  }
}
