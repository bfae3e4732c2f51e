/** The queue that Project5 uses twice: a ring of capacity + 1 slots, a mutex, and two counting
    semaphores. Any number of threads take atomic steps in any order; a thread's program counter
    says which statement it is about to execute. */
module SemaphoreQueue {
  import opened Modular
  import opened Options

  /** `checked`: whether the remover tests for emptiness, as remove_item does and dequeue does not. */
  datatype Config = Config(capacity: nat, checked: bool)

  datatype Pc<T> =
      // producers: insert_item, or pool_submit and enqueue
    | Making                    // sem_wait(&empty)
    | Holding(item: T)          // pthread_mutex_lock
    | InsertCheck(item: T)      // the test for a full ring
    | MoveRear(item: T)
    | Write(item: T)
    | InsertUnlock
    | PostFull                  // sem_post(&full)
    | InsertFail                // unlock and return 1
      // consumers: remove_item, or worker and dequeue
    | Idle                      // sem_wait(&full)
    | Wanting                   // pthread_mutex_lock
    | RemoveCheck               // the test for an empty ring, if there is one
    | MoveFront
    | Read
    | RemoveUnlock(index: nat, item: T)
    | PostEmpty(index: nat, item: T)  // sem_post(&empty)
    | Using(index: nat, item: T)      // prints or executes the item
    | RemoveFail                // unlock and return 1

  /** `inserted` and `removed` record the items in critical-section order, `used` the numbers of
      the items whose consumer is done with them. */
  datatype State<T> = State(
    buffer: seq<T>, front: nat, rear: nat,
    empty: nat, full: nat, lock: Option<nat>,
    threads: seq<Pc<T>>,
    inserted: seq<T>, removed: seq<T>, used: set<nat>)

  predicate Producer<T>(pc: Pc<T>) {
    pc.Making? || pc.Holding? || pc.InsertCheck? || pc.MoveRear? || pc.Write?
    || pc.InsertUnlock? || pc.PostFull? || pc.InsertFail?
  }

  predicate Critical<T>(pc: Pc<T>) {
    pc.InsertCheck? || pc.MoveRear? || pc.Write? || pc.InsertUnlock? || pc.InsertFail?
    || pc.RemoveCheck? || pc.MoveFront? || pc.Read? || pc.RemoveUnlock? || pc.RemoveFail?
  }

  predicate Shaped<T>(c: Config, s: State<T>) {
    |s.buffer| == c.capacity + 1 && s.rear <= c.capacity && s.front <= c.capacity
  }

  function At<T>(s: State<T>, tid: nat, pc: Pc<T>): (t: State<T>)
    requires tid < |s.threads|
  {
    s.(threads := s.threads[tid := pc])
  }

  /** One atomic step of thread tid; None when it is blocked. A producer that starts a call
      starts it with `item`. */
  function Next<T>(c: Config, s: State<T>, tid: nat, item: T): (r: Option<State<T>>)
    requires Shaped(c, s) && tid < |s.threads|
    ensures r.Some? ==> Shaped(c, r.value) && |r.value.threads| == |s.threads|
  {
    var n := c.capacity + 1;
    match s.threads[tid]
    case Making =>
      if s.empty == 0 then None else Some(At(s, tid, Holding(item)).(empty := s.empty - 1))
    case Holding(x) =>
      if s.lock.Some? then None else Some(At(s, tid, InsertCheck(x)).(lock := Some(tid)))
    case InsertCheck(x) =>
      Some(At(s, tid, if (s.rear + 1) % n == s.front then InsertFail else MoveRear(x)))
    case MoveRear(x) =>
      Some(At(s, tid, Write(x)).(rear := (s.rear + 1) % n))
    case Write(x) =>
      Some(At(s, tid, InsertUnlock).(buffer := s.buffer[s.rear := x], inserted := s.inserted + [x]))
    case InsertUnlock =>
      Some(At(s, tid, PostFull).(lock := None))
    case PostFull =>
      Some(At(s, tid, Making).(full := s.full + 1))
    case InsertFail =>
      Some(At(s, tid, Making).(lock := None))
    case Idle =>
      if s.full == 0 then None else Some(At(s, tid, Wanting).(full := s.full - 1))
    case Wanting =>
      if s.lock.Some? then None else Some(At(s, tid, RemoveCheck).(lock := Some(tid)))
    case RemoveCheck =>
      Some(At(s, tid, if c.checked && s.rear == s.front then RemoveFail else MoveFront))
    case MoveFront =>
      Some(At(s, tid, Read).(front := (s.front + 1) % n))
    case Read =>
      var x := s.buffer[s.front];
      Some(At(s, tid, RemoveUnlock(|s.removed|, x)).(removed := s.removed + [x]))
    case RemoveUnlock(k, x) =>
      Some(At(s, tid, PostEmpty(k, x)).(lock := None))
    case PostEmpty(k, x) =>
      Some(At(s, tid, Using(k, x)).(empty := s.empty + 1))
    case Using(k, x) =>
      Some(At(s, tid, Idle).(used := s.used + {k}))
    case RemoveFail =>
      Some(At(s, tid, Idle).(lock := None))
  }

  // ---------- the invariant ----------

  /** Exactly the thread in a critical section holds the mutex, and no error branch is taken. */
  ghost predicate LockInv<T>(s: State<T>) {
    && (s.lock.Some? ==> s.lock.value < |s.threads|)
    && (forall i :: 0 <= i < |s.threads| ==>
          (Critical(s.threads[i]) <==> s.lock == Some(i))
          && !s.threads[i].InsertFail? && !s.threads[i].RemoveFail?)
  }

  /** Threads that took `empty` and have not filled a slot, or freed one and not posted. */
  function EmptyToken<T>(pc: Pc<T>): nat {
    if pc.Holding? || pc.InsertCheck? || pc.MoveRear? || pc.Read? || pc.RemoveUnlock? || pc.PostEmpty?
    then 1 else 0
  }

  /** Threads that filled a slot and have not posted, or took `full` and have not freed one. */
  function FullToken<T>(pc: Pc<T>): nat {
    if pc.Write? || pc.InsertUnlock? || pc.PostFull? || pc.Wanting? || pc.RemoveCheck? || pc.MoveFront?
    then 1 else 0
  }

  function EmptyTokens<T>(threads: seq<Pc<T>>): nat {
    if threads == [] then 0 else EmptyToken(threads[0]) + EmptyTokens(threads[1..])
  }

  function FullTokens<T>(threads: seq<Pc<T>>): nat {
    if threads == [] then 0 else FullToken(threads[0]) + FullTokens(threads[1..])
  }

  /** How often rear has moved: once per inserted item, and once more before the item is written. */
  function Rears<T>(s: State<T>): nat {
    |s.inserted| + if s.lock.Some? && s.lock.value < |s.threads| && s.threads[s.lock.value].Write? then 1 else 0
  }

  function Fronts<T>(s: State<T>): nat {
    |s.removed| + if s.lock.Some? && s.lock.value < |s.threads| && s.threads[s.lock.value].Read? then 1 else 0
  }

  ghost predicate CountInv<T>(c: Config, s: State<T>) {
    && s.rear == Rears(s) % (c.capacity + 1) && s.front == Fronts(s) % (c.capacity + 1)
    && s.empty + EmptyTokens(s.threads) + Rears(s) - Fronts(s) == c.capacity
    && s.full + FullTokens(s.threads) == Rears(s) - Fronts(s)
  }

  /** The items inserted and not removed are in their slots, oldest first. */
  ghost predicate DataInv<T>(c: Config, s: State<T>) {
    && |s.buffer| == c.capacity + 1
    && |s.removed| <= |s.inserted| && s.removed == s.inserted[..|s.removed|]
    && forall i :: |s.removed| <= i < |s.inserted| ==> s.buffer[Slot(c, i)] == s.inserted[i]
  }

  /** The slot of the i-th inserted item. */
  function Slot(c: Config, i: nat): (k: nat)
    ensures k < c.capacity + 1
  {
    (i + 1) % (c.capacity + 1)
  }

  predicate Holds<T>(pc: Pc<T>) {
    pc.RemoveUnlock? || pc.PostEmpty? || pc.Using?
  }

  /** Every removed item is either used or held by exactly one consumer. */
  ghost predicate ItemInv<T>(s: State<T>) {
    && (forall k :: k in s.used ==> k < |s.removed|)
    && (forall i :: 0 <= i < |s.threads| && Holds(s.threads[i]) ==>
          s.threads[i].index < |s.removed| && s.threads[i].index !in s.used
          && s.threads[i].item == s.removed[s.threads[i].index])
    && (forall i, j :: 0 <= i < j < |s.threads| && Holds(s.threads[i]) && Holds(s.threads[j]) ==>
          s.threads[i].index != s.threads[j].index)
    && (forall k :: 0 <= k < |s.removed| ==> k in s.used || HeldBySome(s, k))
  }

  ghost predicate HeldBySome<T>(s: State<T>, k: nat) {
    exists i :: 0 <= i < |s.threads| && Holds(s.threads[i]) && s.threads[i].index == k
  }

  ghost predicate Inv<T>(c: Config, s: State<T>) {
    Shaped(c, s) && LockInv(s) && CountInv(c, s) && DataInv(c, s) && ItemInv(s)
  }

  /** Threads at the start of their loops, an empty ring, and the semaphores of init_buffer or
      pool_init. */
  ghost predicate Init<T>(c: Config, s: State<T>) {
    && |s.buffer| == c.capacity + 1 && s.front == 0 && s.rear == 0
    && s.empty == c.capacity && s.full == 0 && s.lock == None
    && (forall i :: 0 <= i < |s.threads| ==> s.threads[i].Making? || s.threads[i].Idle?)
    && s.inserted == [] && s.removed == [] && s.used == {}
  }

  lemma {:induction false} QuietTokens<T>(threads: seq<Pc<T>>)
    requires forall i :: 0 <= i < |threads| ==> threads[i].Making? || threads[i].Idle? || threads[i].Using?
    ensures EmptyTokens(threads) == 0 && FullTokens(threads) == 0
  {
    if threads == [] {
    } else {
      QuietTokens(threads[1..]);
    }
  }

  lemma {:induction false} TokensUpdate<T>(threads: seq<Pc<T>>, i: nat, pc: Pc<T>)
    requires i < |threads|
    ensures EmptyTokens(threads[i := pc]) == EmptyTokens(threads) - EmptyToken(threads[i]) + EmptyToken(pc)
    ensures FullTokens(threads[i := pc]) == FullTokens(threads) - FullToken(threads[i]) + FullToken(pc)
    ensures EmptyTokens(threads) >= EmptyToken(threads[i]) && FullTokens(threads) >= FullToken(threads[i])
  {
    if i == 0 {
      assert threads[0 := pc][1..] == threads[1..];
    } else {
      assert threads[i := pc][1..] == threads[1..][i - 1 := pc];
      TokensUpdate(threads[1..], i - 1, pc);
    }
  }

  lemma InitInv<T>(c: Config, s: State<T>)
    requires Init(c, s)
    ensures Inv(c, s)
  {
    QuietTokens(s.threads);
    ModIs(0, 0, 0, c.capacity + 1);
  }

  /** The ring is not full when a producer tests it, and not empty when a consumer does. */
  lemma NeverFullNorEmpty<T>(c: Config, s: State<T>, tid: nat)
    requires Shaped(c, s) && LockInv(s) && CountInv(c, s) && tid < |s.threads|
    ensures s.threads[tid].InsertCheck? ==> (s.rear + 1) % (c.capacity + 1) != s.front
    ensures s.threads[tid].RemoveCheck? ==> s.rear != s.front
    ensures s.threads[tid].RemoveCheck? || s.threads[tid].MoveFront? ==> Fronts(s) < Rears(s)
  {
    var n := c.capacity + 1;
    TokensUpdate(s.threads, tid, s.threads[tid]);
    ModNext(Rears(s), n);
    if s.threads[tid].InsertCheck? {
      ModSpread(Fronts(s), Rears(s) + 1, n);
    } else if s.threads[tid].RemoveCheck? {
      ModSpread(Fronts(s), Rears(s), n);
    }
  }

  lemma OthersStay<T>(c: Config, s: State<T>, tid: nat, item: T)
    requires Shaped(c, s) && tid < |s.threads| && Next(c, s, tid, item).Some?
    ensures var t := Next(c, s, tid, item).value; t.threads == s.threads[tid := t.threads[tid]]
  {
  }

  /** A thread takes the mutex when it enters its critical section and gives it back when it leaves. */
  lemma OwnLock<T>(c: Config, s: State<T>, tid: nat, item: T)
    requires Shaped(c, s) && LockInv(s) && CountInv(c, s) && tid < |s.threads|
    requires Next(c, s, tid, item).Some?
    ensures var t := Next(c, s, tid, item).value;
            && (Critical(t.threads[tid]) <==> t.lock == Some(tid))
            && !t.threads[tid].InsertFail? && !t.threads[tid].RemoveFail?
            && (t.lock == s.lock || (s.lock == None && t.lock == Some(tid)) || (s.lock == Some(tid) && t.lock == None))
  {
    NeverFullNorEmpty(c, s, tid);
  }

  lemma NextKeepsLock<T>(c: Config, s: State<T>, tid: nat, item: T)
    requires Shaped(c, s) && LockInv(s) && CountInv(c, s) && tid < |s.threads|
    requires Next(c, s, tid, item).Some?
    ensures LockInv(Next(c, s, tid, item).value)
  {
    hide Next, CountInv, Critical;
    OwnLock(c, s, tid, item);
    OthersStay(c, s, tid, item);
  }

  /** Only MoveRear and MoveFront move the ends of the ring. */
  lemma EndsMove<T>(c: Config, s: State<T>, tid: nat, item: T)
    requires Shaped(c, s) && LockInv(s) && tid < |s.threads| && Next(c, s, tid, item).Some?
    ensures Rears(Next(c, s, tid, item).value) == Rears(s) + if s.threads[tid].MoveRear? then 1 else 0
    ensures Fronts(Next(c, s, tid, item).value) == Fronts(s) + if s.threads[tid].MoveFront? then 1 else 0
    ensures Next(c, s, tid, item).value.rear
            == if s.threads[tid].MoveRear? then (s.rear + 1) % (c.capacity + 1) else s.rear
    ensures Next(c, s, tid, item).value.front
            == if s.threads[tid].MoveFront? then (s.front + 1) % (c.capacity + 1) else s.front
  {
  }

  /** A semaphore count changes only against a token, except where an end of the ring moves. */
  lemma TokensMove<T>(c: Config, s: State<T>, tid: nat, item: T)
    requires Shaped(c, s) && LockInv(s) && tid < |s.threads| && Next(c, s, tid, item).Some?
    requires s.threads[tid].InsertCheck? ==> (s.rear + 1) % (c.capacity + 1) != s.front
    requires s.threads[tid].RemoveCheck? ==> s.rear != s.front
    ensures var t, pc := Next(c, s, tid, item).value, s.threads[tid];
            && t.empty + EmptyToken(t.threads[tid]) + (if pc.MoveRear? then 1 else 0)
               == s.empty + EmptyToken(pc) + (if pc.MoveFront? then 1 else 0)
            && t.full + FullToken(t.threads[tid]) + (if pc.MoveFront? then 1 else 0)
               == s.full + FullToken(pc) + (if pc.MoveRear? then 1 else 0)
            && t.threads == s.threads[tid := t.threads[tid]]
  {
  }

  lemma EndIsCounted(end: nat, count: nat, moves: bool, nextEnd: nat, nextCount: nat, n: nat)
    requires n > 0 && end == count % n && nextCount == count + (if moves then 1 else 0)
    requires nextEnd == if moves then (end + 1) % n else end
    ensures nextEnd == nextCount % n
  {
    ModNext(count, n);
  }

  lemma EndsAreCounted<T>(c: Config, s: State<T>, tid: nat, item: T)
    requires Shaped(c, s) && LockInv(s) && tid < |s.threads| && Next(c, s, tid, item).Some?
    requires s.rear == Rears(s) % (c.capacity + 1) && s.front == Fronts(s) % (c.capacity + 1)
    ensures var t := Next(c, s, tid, item).value;
            t.rear == Rears(t) % (c.capacity + 1) && t.front == Fronts(t) % (c.capacity + 1)
  {
    hide *;
    var t := Next(c, s, tid, item).value;
    EndsMove(c, s, tid, item);
    EndIsCounted(s.rear, Rears(s), s.threads[tid].MoveRear?, t.rear, Rears(t), c.capacity + 1);
    EndIsCounted(s.front, Fronts(s), s.threads[tid].MoveFront?, t.front, Fronts(t), c.capacity + 1);
  }

  lemma NextKeepsCount<T>(c: Config, s: State<T>, tid: nat, item: T)
    requires Shaped(c, s) && LockInv(s) && CountInv(c, s) && tid < |s.threads|
    requires Next(c, s, tid, item).Some?
    ensures CountInv(c, Next(c, s, tid, item).value)
  {
    NeverFullNorEmpty(c, s, tid);
    EndsMove(c, s, tid, item);
    EndsAreCounted(c, s, tid, item);
    TokensMove(c, s, tid, item);
    TokensUpdate(s.threads, tid, Next(c, s, tid, item).value.threads[tid]);
  }

  /** Writing the newest item does not overwrite one that is still queued. */
  lemma SlotsDiffer(c: Config, i: nat, j: nat)
    requires i < j <= i + c.capacity
    ensures Slot(c, i) != Slot(c, j)
  {
    ModSpread(i + 1, j + 1, c.capacity + 1);
  }

  lemma NextKeepsData<T>(c: Config, s: State<T>, tid: nat, item: T)
    requires Shaped(c, s) && LockInv(s) && CountInv(c, s) && DataInv(c, s) && tid < |s.threads|
    requires Next(c, s, tid, item).Some?
    ensures DataInv(c, Next(c, s, tid, item).value)
  {
    if s.threads[tid].Write? {
      forall i | |s.removed| <= i < |s.inserted| ensures Slot(c, i) != Slot(c, |s.inserted|) {
        SlotsDiffer(c, i, |s.inserted|);
      }
    } else if s.threads[tid].Read? {
      ReadsOldest(c, s, tid);
    }
  }

  /** What a consumer reads is the oldest item not yet removed, and there is one. */
  lemma ReadsOldest<T>(c: Config, s: State<T>, tid: nat)
    requires Shaped(c, s) && LockInv(s) && CountInv(c, s) && DataInv(c, s) && tid < |s.threads|
    requires s.threads[tid].Read?
    ensures |s.removed| < |s.inserted| && s.buffer[s.front] == s.inserted[|s.removed|]
  {
  }

  /** The effect of a thread's own step on the item it is about. */
  ghost predicate OwnItemStep<T>(s: State<T>, t: State<T>, pc: Pc<T>, qc: Pc<T>) {
    if pc.Read? then
      qc.RemoveUnlock? && qc.index == |s.removed| && t.removed == s.removed + [qc.item] && t.used == s.used
    else if pc.Using? then
      !Holds(qc) && t.removed == s.removed && t.used == s.used + {pc.index}
    else
      && t.removed == s.removed && t.used == s.used && (Holds(qc) <==> Holds(pc))
      && (Holds(pc) ==> qc.index == pc.index && qc.item == pc.item)
  }

  /** The effect of a step on the items on their way from the ring to a consumer. */
  ghost predicate ItemStep<T>(s: State<T>, t: State<T>, tid: nat)
    requires tid < |s.threads|
  {
    && |t.threads| == |s.threads| && (forall i :: 0 <= i < |s.threads| && i != tid ==> t.threads[i] == s.threads[i])
    && OwnItemStep(s, t, s.threads[tid], t.threads[tid])
  }

  lemma NextIsOwnItemStep<T>(c: Config, s: State<T>, tid: nat, item: T)
    requires Shaped(c, s) && tid < |s.threads| && Next(c, s, tid, item).Some?
    ensures var t := Next(c, s, tid, item).value; OwnItemStep(s, t, s.threads[tid], t.threads[tid])
  {
    match s.threads[tid]
    case Read =>
    case RemoveUnlock(_, _) =>
    case PostEmpty(_, _) =>
    case Using(_, _) =>
    case _ =>
  }

  lemma NextIsItemStep<T>(c: Config, s: State<T>, tid: nat, item: T)
    requires Shaped(c, s) && tid < |s.threads| && Next(c, s, tid, item).Some?
    ensures ItemStep(s, Next(c, s, tid, item).value, tid)
  {
    hide Next, OwnItemStep;
    OthersStay(c, s, tid, item);
    NextIsOwnItemStep(c, s, tid, item);
  }

  lemma ItemStepKeepsItems<T>(s: State<T>, t: State<T>, tid: nat)
    requires ItemInv(s) && tid < |s.threads| && ItemStep(s, t, tid)
    ensures ItemInv(t)
  {
  }

  lemma NextKeepsInv<T>(c: Config, s: State<T>, tid: nat, item: T)
    requires Inv(c, s) && tid < |s.threads| && Next(c, s, tid, item).Some?
    ensures Inv(c, Next(c, s, tid, item).value)
  {
    NextKeepsLock(c, s, tid, item);
    NextKeepsCount(c, s, tid, item);
    NextKeepsData(c, s, tid, item);
    NextIsItemStep(c, s, tid, item);
    ItemStepKeepsItems(s, Next(c, s, tid, item).value, tid);
  }

  // ---------- every interleaving ----------

  /** The scheduler's choices: which thread moves, and the item it inserts if it starts to. */
  type Event<T> = (nat, T)

  function Step<T>(c: Config, s: State<T>, e: Event<T>): (t: State<T>)
    requires Shaped(c, s)
    ensures Shaped(c, t) && |t.threads| == |s.threads|
  {
    if e.0 < |s.threads| && Next(c, s, e.0, e.1).Some? then Next(c, s, e.0, e.1).value else s
  }

  function Run<T>(c: Config, s: State<T>, events: seq<Event<T>>): (t: State<T>)
    requires Shaped(c, s)
    ensures Shaped(c, t) && |t.threads| == |s.threads|
    decreases |events|
  {
    if events == [] then s else Run(c, Step(c, s, events[0]), events[1..])
  }

  /** The event lets a producer start a call: sem_wait lets it through. */
  predicate Starts<T>(s: State<T>, e: Event<T>) {
    e.0 < |s.threads| && s.threads[e.0].Making? && s.empty > 0
  }

  /** The item that the call is to insert. */
  function Given<T>(s: State<T>, e: Event<T>): seq<T> {
    if Starts(s, e) then [e.1] else []
  }

  function GivenTo<T>(s: State<T>, e: Event<T>, tid: nat): seq<T> {
    if e.0 == tid then Given(s, e) else []
  }

  /** All the items that calls started during the run are to insert. */
  function Offered<T>(c: Config, s: State<T>, events: seq<Event<T>>): seq<T>
    requires Shaped(c, s)
    decreases |events|
  {
    if events == [] then []
    else Given(s, events[0]) + Offered(c, Step(c, s, events[0]), events[1..])
  }

  /** Those of one thread, in the order of its calls. */
  function OfferedBy<T>(c: Config, s: State<T>, events: seq<Event<T>>, tid: nat): seq<T>
    requires Shaped(c, s)
    decreases |events|
  {
    if events == [] then []
    else GivenTo(s, events[0], tid) + OfferedBy(c, Step(c, s, events[0]), events[1..], tid)
  }

  lemma {:induction false} RunKeepsInv<T>(c: Config, s: State<T>, events: seq<Event<T>>)
    requires Inv(c, s)
    ensures Inv(c, Run(c, s, events))
    decreases |events|
  {
    if events == [] {
    } else {
      var e := events[0];
      if e.0 < |s.threads| && Next(c, s, e.0, e.1).Some? {
        NextKeepsInv(c, s, e.0, e.1);
      }
      RunKeepsInv(c, Step(c, s, e), events[1..]);
    }
  }

  // ---------- refinement of a bounded FIFO queue ----------

  /** The queue the ring stands for. */
  function Queue<T>(s: State<T>): seq<T>
    requires |s.removed| <= |s.inserted|
  {
    s.inserted[|s.removed|..]
  }

  /** Each step is a put at the back of a queue that is not full, a get from the front, or
      invisible. */
  ghost predicate QueueStep<T>(c: Config, s: State<T>, t: State<T>, tid: nat)
    requires tid < |s.threads| == |t.threads|
    requires |s.removed| <= |s.inserted| && |t.removed| <= |t.inserted|
  {
    var pc, qc := s.threads[tid], t.threads[tid];
    if pc.Write? then |Queue(s)| < c.capacity && Queue(t) == Queue(s) + [pc.item]
    else if pc.Read? then qc.RemoveUnlock? && Queue(s) == [qc.item] + Queue(t)
    else Queue(t) == Queue(s)
  }

  lemma QueueFits<T>(c: Config, s: State<T>, tid: nat)
    requires Shaped(c, s) && LockInv(s) && CountInv(c, s) && DataInv(c, s) && tid < |s.threads|
    ensures |Queue(s)| <= c.capacity
    ensures s.threads[tid].Write? ==> |Queue(s)| < c.capacity
  {
    TokensUpdate(s.threads, tid, s.threads[tid]);
    if s.lock.Some? {
      TokensUpdate(s.threads, s.lock.value, s.threads[s.lock.value]);
    }
  }

  lemma NextRefinesQueue<T>(c: Config, s: State<T>, tid: nat, item: T)
    requires Shaped(c, s) && LockInv(s) && CountInv(c, s) && DataInv(c, s) && tid < |s.threads|
    requires Next(c, s, tid, item).Some?
    ensures var t := Next(c, s, tid, item).value;
            |t.removed| <= |t.inserted| && QueueStep(c, s, t, tid)
  {
    QueueFits(c, s, tid);
    if s.threads[tid].Read? {
      ReadsOldest(c, s, tid);
    }
  }

  /** From every state of every interleaving, each step refines the queue. */
  lemma EveryStepRefinesQueue<T>(c: Config, s: State<T>, events: seq<Event<T>>, tid: nat, item: T)
    requires Init(c, s) && tid < |s.threads| && Next(c, Run(c, s, events), tid, item).Some?
    ensures var before := Run(c, s, events);
            var after := Next(c, before, tid, item).value;
            && |before.removed| <= |before.inserted| && |after.removed| <= |after.inserted|
            && QueueStep(c, before, after, tid)
  {
    InitInv(c, s);
    RunKeepsInv(c, s, events);
    NextRefinesQueue(c, Run(c, s, events), tid, item);
  }

  /** Where the code takes an item, with or without testing, the oldest one is there. */
  lemma TakesOldest<T>(c: Config, s: State<T>, tid: nat)
    requires Shaped(c, s) && LockInv(s) && CountInv(c, s) && DataInv(c, s) && tid < |s.threads|
    ensures s.threads[tid].RemoveCheck? || s.threads[tid].MoveFront? ==> Queue(s) != []
    ensures s.threads[tid].Read? ==> Queue(s) != [] && s.buffer[s.front] == Queue(s)[0]
  {
    NeverFullNorEmpty(c, s, tid);
    if s.threads[tid].Read? {
      ReadsOldest(c, s, tid);
    }
  }

  ghost predicate Sound<T>(c: Config, s: State<T>)
    requires Shaped(c, s)
  {
    && s.removed <= s.inserted && |Queue(s)| <= c.capacity
    && forall i :: 0 <= i < |s.threads| ==>
         && !s.threads[i].InsertFail? && !s.threads[i].RemoveFail?
         && (s.threads[i].RemoveCheck? || s.threads[i].MoveFront? ==> Queue(s) != [])
         && (s.threads[i].Read? ==> Queue(s) != [] && s.buffer[s.front] == Queue(s)[0])
  }

  lemma InvIsSound<T>(c: Config, s: State<T>)
    requires Shaped(c, s) && LockInv(s) && CountInv(c, s) && DataInv(c, s) && s.threads != []
    ensures Sound(c, s)
  {
    QueueFits(c, s, 0);
    forall i | 0 <= i < |s.threads|
      ensures s.threads[i].RemoveCheck? || s.threads[i].MoveFront? ==> Queue(s) != []
      ensures s.threads[i].Read? ==> Queue(s) != [] && s.buffer[s.front] == Queue(s)[0]
    {
      TakesOldest(c, s, i);
    }
  }

  // ---------- progress ----------

  ghost predicate Enabled<T(!new)>(c: Config, s: State<T>, tid: nat)
    requires Shaped(c, s) && tid < |s.threads|
  {
    forall item :: Next(c, s, tid, item).Some?
  }

  /** A thread waits only for a semaphore that is zero or for a mutex that is held. */
  lemma BlockedIff<T>(c: Config, s: State<T>, tid: nat, item: T)
    requires Shaped(c, s) && tid < |s.threads|
    ensures var pc := s.threads[tid];
            Next(c, s, tid, item).None? <==>
            || (pc.Making? && s.empty == 0) || (pc.Idle? && s.full == 0)
            || ((pc.Holding? || pc.Wanting?) && s.lock.Some?)
  {
  }

  /** With nobody inside a call, a producer can start one iff the queue is not full, and a consumer
      iff it is not empty. */
  lemma CallsWaitIff<T>(c: Config, s: State<T>, tid: nat, item: T)
    requires Inv(c, s) && tid < |s.threads|
    requires forall i :: 0 <= i < |s.threads| ==> s.threads[i].Making? || s.threads[i].Idle? || s.threads[i].Using?
    ensures s.threads[tid].Making? ==> (Next(c, s, tid, item).None? <==> |Queue(s)| == c.capacity)
    ensures s.threads[tid].Idle? ==> (Next(c, s, tid, item).None? <==> Queue(s) == [])
  {
    BlockedIff(c, s, tid, item);
    QuietTokens(s.threads);
    assert s.lock == None;
    hide Next, ItemInv;
  }

  /** With a producer, a consumer and at least one slot, some thread can always move. */
  lemma SomeoneCanMove<T(!new)>(c: Config, s: State<T>, producer: nat, consumer: nat) returns (tid: nat)
    requires Inv(c, s) && c.capacity > 0
    requires producer < |s.threads| && Producer(s.threads[producer])
    requires consumer < |s.threads| && !Producer(s.threads[consumer])
    ensures tid < |s.threads| && Enabled(c, s, tid)
  {
    if s.lock.Some? {
      tid := s.lock.value;
    } else if i :| 0 <= i < |s.threads| && !s.threads[i].Making? && !s.threads[i].Idle? {
      tid := i;
    } else {
      QuietTokens(s.threads);
      tid := if s.empty > 0 then producer else consumer;
    }
  }

  lemma StepKeepsRoles<T>(c: Config, s: State<T>, e: Event<T>, i: nat)
    requires Shaped(c, s) && i < |s.threads|
    ensures Producer(Step(c, s, e).threads[i]) <==> Producer(s.threads[i])
  {
    if e.0 < |s.threads| && Next(c, s, e.0, e.1).Some? {
      OthersStay(c, s, e.0, e.1);
    }
  }

  lemma {:induction false} RunKeepsRoles<T>(c: Config, s: State<T>, events: seq<Event<T>>, i: nat)
    requires Shaped(c, s) && i < |s.threads|
    ensures Producer(Run(c, s, events).threads[i]) <==> Producer(s.threads[i])
    decreases |events|
  {
    if events == [] {
    } else {
      StepKeepsRoles(c, s, events[0], i);
      RunKeepsRoles(c, Step(c, s, events[0]), events[1..], i);
    }
  }

  /** No reachable state has every thread blocked. */
  lemma NeverDeadlocked<T(!new)>(c: Config, s: State<T>, events: seq<Event<T>>, producer: nat, consumer: nat)
    requires Init(c, s) && c.capacity > 0
    requires producer < |s.threads| && Producer(s.threads[producer])
    requires consumer < |s.threads| && !Producer(s.threads[consumer])
    ensures exists tid: nat :: tid < |s.threads| && Enabled(c, Run(c, s, events), tid)
  {
    InitInv(c, s);
    RunKeepsInv(c, s, events);
    RunKeepsRoles(c, s, events, producer);
    RunKeepsRoles(c, s, events, consumer);
    var tid := SomeoneCanMove(c, Run(c, s, events), producer, consumer);
  }

  // ---------- every item can still be used ----------

  /** The steps that a thread still takes before it rests, and 8 more for the item that a producer
      is about to announce: so many take it from the ring and use it. */
  function Left<T>(pc: Pc<T>): nat {
    match pc
    case Making => 0
    case Holding(_) => 14
    case InsertCheck(_) => 13
    case MoveRear(_) => 12
    case Write(_) => 11
    case InsertUnlock => 10
    case PostFull => 9
    case InsertFail => 1
    case Idle => 0
    case Wanting => 7
    case RemoveCheck => 6
    case MoveFront => 5
    case Read => 4
    case RemoveUnlock(_, _) => 3
    case PostEmpty(_, _) => 2
    case Using(_, _) => 1
    case RemoveFail => 1
  }

  function Lefts<T>(threads: seq<Pc<T>>): nat {
    if threads == [] then 0 else Left(threads[0]) + Lefts(threads[1..])
  }

  function Pending<T>(s: State<T>): nat {
    Lefts(s.threads) + 8 * s.full
  }

  lemma {:induction false} LeftsUpdate<T>(threads: seq<Pc<T>>, i: nat, pc: Pc<T>)
    requires i < |threads|
    ensures Lefts(threads[i := pc]) == Lefts(threads) - Left(threads[i]) + Left(pc)
  {
    if i == 0 {
      assert threads[0 := pc][1..] == threads[1..];
    } else {
      assert threads[i := pc][1..] == threads[1..][i - 1 := pc];
      LeftsUpdate(threads[1..], i - 1, pc);
    }
  }

  lemma OwnStepWorks<T>(c: Config, s: State<T>, tid: nat, item: T)
    requires Shaped(c, s) && tid < |s.threads| && !s.threads[tid].Making? && Next(c, s, tid, item).Some?
    ensures var t := Next(c, s, tid, item).value;
            Left(t.threads[tid]) + 8 * t.full < Left(s.threads[tid]) + 8 * s.full
  {
    match s.threads[tid]
    case Holding(_) =>
    case InsertCheck(_) =>
    case MoveRear(_) =>
    case Write(_) =>
    case InsertUnlock =>
    case PostFull =>
    case InsertFail =>
    case Idle =>
    case Wanting =>
    case RemoveCheck =>
    case MoveFront =>
    case Read =>
    case _ =>
  }

  /** Every step but the start of a new insertion leaves fewer to take. */
  lemma StepWorks<T>(c: Config, s: State<T>, tid: nat, item: T)
    requires Shaped(c, s) && tid < |s.threads| && !s.threads[tid].Making? && Next(c, s, tid, item).Some?
    ensures Pending(Next(c, s, tid, item).value) < Pending(s)
  {
    hide Next, Left;
    OwnStepWorks(c, s, tid, item);
    OthersStay(c, s, tid, item);
    LeftsUpdate(s.threads, tid, Next(c, s, tid, item).value.threads[tid]);
  }

  /** Every item is used, every thread rests, and every token is back. */
  ghost predicate Rested<T>(c: Config, s: State<T>) {
    && s.lock == None && s.empty == c.capacity && s.full == 0
    && (forall i :: 0 <= i < |s.threads| ==> s.threads[i].Making? || s.threads[i].Idle?)
    && s.removed == s.inserted && forall k :: 0 <= k < |s.inserted| ==> k in s.used
  }

  /** With a consumer, somebody has a step to take, other than to start an insertion, until all
      is done. */
  lemma SomeoneCanWork<T>(c: Config, s: State<T>, consumer: nat, item: T) returns (tid: nat)
    requires Inv(c, s) && !Rested(c, s)
    requires consumer < |s.threads| && !Producer(s.threads[consumer])
    ensures tid < |s.threads| && !s.threads[tid].Making? && Next(c, s, tid, item).Some?
  {
    if s.lock.Some? {
      tid := s.lock.value;
    } else if i :| 0 <= i < |s.threads| && !s.threads[i].Making? && !s.threads[i].Idle? {
      tid := i;
    } else {
      QuietTokens(s.threads);
      tid := consumer;
      if s.full == 0 {
        AllUsed(c, s);
        assert false;
      }
    }
  }

  lemma AllUsed<T>(c: Config, s: State<T>)
    requires Inv(c, s) && s.lock == None && s.full == 0
    requires forall i :: 0 <= i < |s.threads| ==> s.threads[i].Making? || s.threads[i].Idle?
    ensures Rested(c, s)
  {
    QuietTokens(s.threads);
    forall k | 0 <= k < |s.removed| ensures k in s.used {
      assert !HeldBySome(s, k);
    }
  }

  lemma {:induction false} Drain<T>(c: Config, s: State<T>, consumer: nat, item: T) returns (events: seq<Event<T>>)
    requires Inv(c, s) && consumer < |s.threads| && !Producer(s.threads[consumer])
    ensures Rested(c, Run(c, s, events)) && Offered(c, s, events) == []
    decreases Pending(s)
  {
    if Rested(c, s) {
      events := [];
    } else {
      var tid := SomeoneCanWork(c, s, consumer, item);
      NextKeepsInv(c, s, tid, item);
      StepWorks(c, s, tid, item);
      StepKeepsRoles(c, s, (tid, item), consumer);
      assert !Starts(s, (tid, item));
      hide Inv, Next, Rested, Pending, Producer, Starts;
      var rest := Drain(c, Step(c, s, (tid, item)), consumer, item);
      events := [(tid, item)] + rest;
      assert events[1..] == rest;
    }
  }

  lemma StepKeepsInserted<T>(c: Config, s: State<T>, e: Event<T>)
    requires Shaped(c, s)
    ensures s.inserted <= Step(c, s, e).inserted
  {
  }

  lemma {:induction false} RunKeepsInserted<T>(c: Config, s: State<T>, events: seq<Event<T>>)
    requires Shaped(c, s)
    ensures s.inserted <= Run(c, s, events).inserted
    decreases |events|
  {
    if events == [] {
    } else {
      StepKeepsInserted(c, s, events[0]);
      RunKeepsInserted(c, Step(c, s, events[0]), events[1..]);
    }
  }

  // ---------- where an item is ----------

  predicate Queued<T>(s: State<T>, k: nat) {
    |s.removed| <= k < |s.inserted|
  }

  ghost predicate HeldByOne<T>(s: State<T>, k: nat) {
    exists i :: 0 <= i < |s.threads| && Holds(s.threads[i]) && s.threads[i].index == k
             && forall j :: 0 <= j < |s.threads| && Holds(s.threads[j]) && s.threads[j].index == k ==> j == i
  }

  ghost predicate InOnePlace<T>(s: State<T>, k: nat) {
    && (Queued(s, k) || HeldByOne(s, k) || k in s.used)
    && !(Queued(s, k) && HeldByOne(s, k)) && !(Queued(s, k) && k in s.used)
    && !(HeldByOne(s, k) && k in s.used)
  }

  /** In every interleaving, each inserted item is in exactly one place: in the queue, with one
      consumer, or used. */
  lemma ExactlyOnePlace<T>(c: Config, s: State<T>, events: seq<Event<T>>, k: nat)
    requires Init(c, s) && k < |Run(c, s, events).inserted|
    ensures InOnePlace(Run(c, s, events), k)
  {
    InitInv(c, s);
    RunKeepsInv(c, s, events);
    HeldByOneOrNone(Run(c, s, events), k);
  }

  lemma HeldByOneOrNone<T>(s: State<T>, k: nat)
    requires ItemInv(s)
    ensures HeldBySome(s, k) ==> HeldByOne(s, k)
    ensures HeldByOne(s, k) ==> k < |s.removed| && k !in s.used
  {
  }
}
