/** What becomes of the items that the producers of the semaphore queue are given: in every
    interleaving each is in the queue once, in its producer's order, or with the thread that is
    about to insert it; and once all threads rest, exactly those items have been consumed. */
module Deliveries {
  import opened Options
  import opened SemaphoreQueue

  /** The item that a producer has been given and has not yet written. */
  function Carried<T>(pc: Pc<T>): seq<T> {
    match pc
    case Holding(x) => [x]
    case InsertCheck(x) => [x]
    case MoveRear(x) => [x]
    case Write(x) => [x]
    case _ => []
  }

  ghost function AllCarried<T>(threads: seq<Pc<T>>): multiset<T> {
    if threads == [] then multiset{} else multiset(Carried(threads[0])) + AllCarried(threads[1..])
  }

  lemma {:induction false} CarriedUpdate<T>(threads: seq<Pc<T>>, i: nat, pc: Pc<T>)
    requires i < |threads|
    ensures AllCarried(threads[i := pc]) + multiset(Carried(threads[i]))
            == AllCarried(threads) + multiset(Carried(pc))
  {
    hide Carried;
    if i == 0 {
      assert threads[0 := pc][1..] == threads[1..];
    } else {
      var rest := threads[1..];
      assert threads[i := pc][1..] == rest[i - 1 := pc];
      CarriedUpdate(rest, i - 1, pc);
      var first := multiset(Carried(threads[0]));
      assert AllCarried(threads[i := pc]) == first + AllCarried(rest[i - 1 := pc]);
      assert AllCarried(threads) == first + AllCarried(rest);
      assert (first + AllCarried(rest[i - 1 := pc])) + multiset(Carried(threads[i]))
             == first + (AllCarried(rest[i - 1 := pc]) + multiset(Carried(rest[i - 1])));
    }
  }

  lemma {:induction false} NothingCarried<T>(threads: seq<Pc<T>>)
    requires forall i :: 0 <= i < |threads| ==> Carried(threads[i]) == []
    ensures AllCarried(threads) == multiset{}
  {
    if threads == [] {
    } else {
      assert Carried(threads[0]) == [];
      NothingCarried(threads[1..]);
    }
  }

  /** The items whose writer is the thread, in order. */
  function By<T>(items: seq<T>, writers: seq<nat>, tid: nat): seq<T>
    requires |items| == |writers|
  {
    if items == [] then []
    else (if writers[0] == tid then [items[0]] else []) + By(items[1..], writers[1..], tid)
  }

  lemma {:induction false} ByAppend<T>(a: seq<T>, v: seq<nat>, b: seq<T>, w: seq<nat>, tid: nat)
    requires |a| == |v| && |b| == |w|
    ensures By(a + b, v + w, tid) == By(a, v, tid) + By(b, w, tid)
  {
    if a == [] {
      assert a + b == b && v + w == w;
    } else {
      var rest, others := a[1..] + b, v[1..] + w;
      ByAppend(a[1..], v[1..], b, w, tid);
      var first := if v[0] == tid then [a[0]] else [];
      assert By(a, v, tid) == first + By(a[1..], v[1..], tid);
      assert By(a + b, v + w, tid) == first + By(rest, others, tid) by {
        assert (a + b)[1..] == rest && (v + w)[1..] == others && (a + b)[0] == a[0] && (v + w)[0] == v[0];
      }
      hide By;
    }
  }

  // ---------- one step ----------

  /** The items inserted from s to t. */
  function Gained<T>(s: State<T>, t: State<T>): seq<T>
    requires |s.inserted| <= |t.inserted|
  {
    t.inserted[|s.inserted|..]
  }

  lemma OnlyWriteInserts<T>(c: Config, s: State<T>, tid: nat, item: T)
    requires Shaped(c, s) && tid < |s.threads| && Next(c, s, tid, item).Some?
    ensures Next(c, s, tid, item).value.inserted
            == s.inserted + if s.threads[tid].Write? then Carried(s.threads[tid]) else []
  {
    assert s.inserted + [] == s.inserted;
  }

  lemma CarriesOn<T>(c: Config, s: State<T>, tid: nat, item: T)
    requires Shaped(c, s) && tid < |s.threads| && Next(c, s, tid, item).Some?
    requires s.threads[tid].InsertCheck? ==> (s.rear + 1) % (c.capacity + 1) != s.front
    ensures Carried(Next(c, s, tid, item).value.threads[tid])
            == if s.threads[tid].Write? then []
               else Carried(s.threads[tid]) + Given(s, (tid, item))
    ensures s.threads[tid].Write? ==> Given(s, (tid, item)) == []
  {
    match s.threads[tid]
    case Making =>
    case Holding(_) =>
    case InsertCheck(_) =>
    case MoveRear(_) =>
    case Write(_) =>
    case InsertUnlock =>
    case _ =>
  }

  /** A thread inserts what it carries, or goes on carrying it. */
  lemma OwnDelivery<T>(c: Config, s: State<T>, tid: nat, item: T)
    requires Inv(c, s) && tid < |s.threads| && Next(c, s, tid, item).Some?
    ensures var t := Next(c, s, tid, item).value;
            && s.inserted <= t.inserted
            && Carried(s.threads[tid]) + Given(s, (tid, item)) == Gained(s, t) + Carried(t.threads[tid])
            && |Gained(s, t)| == if s.threads[tid].Write? then 1 else 0
  {
    NeverFullNorEmpty(c, s, tid);
    OnlyWriteInserts(c, s, tid, item);
    CarriesOn(c, s, tid, item);
    hide Next, Inv, Given;
  }

  /** The effect of an event on what is carried and inserted. */
  ghost predicate Delivery<T>(s: State<T>, t: State<T>, e: Event<T>) {
    && |t.threads| == |s.threads| && s.inserted <= t.inserted && |Gained(s, t)| <= 1
    && if e.0 < |s.threads| then
         && Carried(s.threads[e.0]) + Given(s, e) == Gained(s, t) + Carried(t.threads[e.0])
         && t.threads == s.threads[e.0 := t.threads[e.0]]
       else t == s && Given(s, e) == []
  }

  lemma StepIsDelivery<T>(c: Config, s: State<T>, e: Event<T>)
    requires Inv(c, s)
    ensures Delivery(s, Step(c, s, e), e)
  {
    if e.0 < |s.threads| && Next(c, s, e.0, e.1).Some? {
      OwnDelivery(c, s, e.0, e.1);
      OthersStay(c, s, e.0, e.1);
      hide Next, Inv, Given, Carried;
    } else {
      assert Given(s, e) == [];
      assert s.inserted[|s.inserted|..] == [];
    }
  }

  /** The thread that has inserted something from s to t, if any. */
  function Writer<T>(s: State<T>, t: State<T>, tid: nat): seq<nat> {
    if |t.inserted| > |s.inserted| then [tid] else []
  }

  /** From s to t, what the threads carried and were offered has been inserted by the writers or is
      carried; and so for each thread, in order. */
  ghost predicate Flow<T>(s: State<T>, t: State<T>, offered: seq<T>, writers: seq<nat>) {
    && |t.threads| == |s.threads| && s.inserted <= t.inserted && |writers| == |Gained(s, t)|
    && (forall i :: 0 <= i < |writers| ==> writers[i] < |s.threads|)
    && multiset(Gained(s, t)) + AllCarried(t.threads) == AllCarried(s.threads) + multiset(offered)
  }

  ghost predicate FlowOf<T>(s: State<T>, t: State<T>, offered: seq<T>, writers: seq<nat>, tid: nat) {
    && tid < |s.threads| == |t.threads| && s.inserted <= t.inserted && |writers| == |Gained(s, t)|
    && Carried(s.threads[tid]) + offered == By(Gained(s, t), writers, tid) + Carried(t.threads[tid])
  }

  lemma Exchange<T>(was: multiset<T>, given: multiset<T>, gained: multiset<T>, now: multiset<T>,
                    before: multiset<T>, after: multiset<T>)
    requires was + given == gained + now && after + was == before + now
    ensures gained + after == before + given
  {
    assert (gained + after) + was == gained + (before + now);
    assert (before + given) + was == before + (gained + now);
    forall x ensures (gained + after)[x] == (before + given)[x] {
      assert ((gained + after) + was)[x] == ((before + given) + was)[x];
    }
  }

  lemma DeliveryFlows<T>(s: State<T>, t: State<T>, e: Event<T>)
    requires Delivery(s, t, e)
    ensures Flow(s, t, Given(s, e), Writer(s, t, e.0))
  {
    hide Carried, Given;
    var gained := Gained(s, t);
    if e.0 < |s.threads| {
      var was, now := Carried(s.threads[e.0]), Carried(t.threads[e.0]);
      CarriedUpdate(s.threads, e.0, t.threads[e.0]);
      assert was + Given(s, e) == gained + now;
      assert multiset(was + Given(s, e)) == multiset(was) + multiset(Given(s, e));
      assert multiset(gained + now) == multiset(gained) + multiset(now);
      Exchange(multiset(was), multiset(Given(s, e)), multiset(gained), multiset(now),
               AllCarried(s.threads), AllCarried(t.threads));
    }
  }

  lemma DeliveryFlowsOf<T>(s: State<T>, t: State<T>, e: Event<T>, tid: nat)
    requires Delivery(s, t, e) && tid < |s.threads|
    ensures FlowOf(s, t, GivenTo(s, e, tid), Writer(s, t, e.0), tid)
  {
    hide Carried, Given;
    var gained := Gained(s, t);
    assert By(gained, Writer(s, t, e.0), tid) == if e.0 == tid then gained else [];
  }

  // ---------- every run ----------

  /** The threads that inserted something during the run. */
  function Writers<T>(c: Config, s: State<T>, events: seq<Event<T>>): seq<nat>
    requires Shaped(c, s)
    decreases |events|
  {
    if events == [] then []
    else
      var t := Step(c, s, events[0]);
      Writer(s, t, events[0].0) + Writers(c, t, events[1..])
  }

  lemma BagsJoin<T>(s: multiset<T>, t: multiset<T>, u: multiset<T>,
                    a: multiset<T>, g: multiset<T>, b: multiset<T>, h: multiset<T>)
    requires g + t == s + a && h + u == t + b
    ensures (g + h) + u == s + (a + b)
  {
    assert (g + h) + u == g + (h + u) == g + (t + b) == (g + t) + b;
  }

  lemma ListsJoin<T>(s: seq<T>, t: seq<T>, u: seq<T>, a: seq<T>, g: seq<T>, b: seq<T>, h: seq<T>)
    requires s + a == g + t && t + b == h + u
    ensures s + (a + b) == (g + h) + u
  {
    assert s + (a + b) == (s + a) + b == (g + t) + b == g + (t + b) == g + (h + u);
  }

  lemma GainedJoin<T>(s: State<T>, t: State<T>, u: State<T>)
    requires s.inserted <= t.inserted <= u.inserted
    ensures s.inserted <= u.inserted && Gained(s, u) == Gained(s, t) + Gained(t, u)
  {
  }

  lemma FlowJoin<T>(s: State<T>, t: State<T>, u: State<T>, a: seq<T>, v: seq<nat>, b: seq<T>, w: seq<nat>)
    requires Flow(s, t, a, v) && Flow(t, u, b, w)
    ensures Flow(s, u, a + b, v + w)
  {
    hide AllCarried, Gained;
    GainedJoin(s, t, u);
    var g, h := Gained(s, t), Gained(t, u);
    assert multiset(a + b) == multiset(a) + multiset(b) && multiset(g + h) == multiset(g) + multiset(h);
    BagsJoin(AllCarried(s.threads), AllCarried(t.threads), AllCarried(u.threads),
             multiset(a), multiset(g), multiset(b), multiset(h));
  }

  lemma FlowOfJoin<T>(s: State<T>, t: State<T>, u: State<T>,
                      a: seq<T>, v: seq<nat>, b: seq<T>, w: seq<nat>, tid: nat)
    requires FlowOf(s, t, a, v, tid) && FlowOf(t, u, b, w, tid)
    ensures FlowOf(s, u, a + b, v + w, tid)
  {
    hide By, Carried, Gained;
    GainedJoin(s, t, u);
    ByAppend(Gained(s, t), v, Gained(t, u), w, tid);
    ListsJoin(Carried(s.threads[tid]), Carried(t.threads[tid]), Carried(u.threads[tid]),
              a, By(Gained(s, t), v, tid), b, By(Gained(t, u), w, tid));
  }

  lemma {:induction false} RunFlows<T>(c: Config, s: State<T>, events: seq<Event<T>>)
    requires Inv(c, s)
    ensures Inv(c, Run(c, s, events))
    ensures Flow(s, Run(c, s, events), Offered(c, s, events), Writers(c, s, events))
    decreases |events|
  {
    assert Shaped(c, s);
    hide Inv, Flow, Step;
    if events == [] {
      Stays(s);
    } else {
      var t := Step(c, s, events[0]);
      StepFlows(c, s, events[0]);
      RunFlows(c, t, events[1..]);
      FlowJoin(s, t, Run(c, t, events[1..]), Given(s, events[0]), Writer(s, t, events[0].0),
               Offered(c, t, events[1..]), Writers(c, t, events[1..]));
    }
  }

  lemma {:induction false} RunFlowsOf<T>(c: Config, s: State<T>, events: seq<Event<T>>, tid: nat)
    requires Inv(c, s) && tid < |s.threads|
    ensures FlowOf(s, Run(c, s, events), OfferedBy(c, s, events, tid), Writers(c, s, events), tid)
    decreases |events|
  {
    assert Shaped(c, s);
    hide Inv, FlowOf, Step;
    if events == [] {
      Stays(s);
    } else {
      var e := events[0];
      var t := Step(c, s, e);
      StepFlows(c, s, e);
      StepFlowsOf(c, s, e, tid);
      RunFlowsOf(c, t, events[1..], tid);
      FlowOfJoin(s, t, Run(c, t, events[1..]), GivenTo(s, e, tid), Writer(s, t, e.0),
                 OfferedBy(c, t, events[1..], tid), Writers(c, t, events[1..]), tid);
    }
  }

  lemma Stays<T>(s: State<T>)
    ensures Flow(s, s, [], [])
    ensures forall tid: nat :: tid < |s.threads| ==> FlowOf(s, s, [], [], tid)
  {
    hide Carried;
    assert Gained(s, s) == [];
  }

  lemma StepFlows<T>(c: Config, s: State<T>, e: Event<T>)
    requires Inv(c, s)
    ensures Inv(c, Step(c, s, e)) && |Step(c, s, e).threads| == |s.threads|
    ensures Flow(s, Step(c, s, e), Given(s, e), Writer(s, Step(c, s, e), e.0))
  {
    StepIsDelivery(c, s, e);
    DeliveryFlows(s, Step(c, s, e), e);
    if e.0 < |s.threads| && Next(c, s, e.0, e.1).Some? {
      NextKeepsInv(c, s, e.0, e.1);
    }
    hide Next, Inv, Flow, Given, Writer;
  }

  lemma StepFlowsOf<T>(c: Config, s: State<T>, e: Event<T>, tid: nat)
    requires Inv(c, s) && tid < |s.threads|
    ensures FlowOf(s, Step(c, s, e), GivenTo(s, e, tid), Writer(s, Step(c, s, e), e.0), tid)
  {
    StepIsDelivery(c, s, e);
    DeliveryFlowsOf(s, Step(c, s, e), e, tid);
  }

  // ---------- from the start ----------

  /** Each inserted item has a writer, and each thread has written what it was offered, in order,
      but for what it carries. */
  ghost predicate InOrder<T>(c: Config, s: State<T>, events: seq<Event<T>>, t: State<T>, writers: seq<nat>)
    requires Shaped(c, s)
  {
    && |writers| == |t.inserted| && |t.threads| == |s.threads|
    && (forall i :: 0 <= i < |writers| ==> writers[i] < |t.threads|)
    && forall tid: nat :: tid < |t.threads| ==>
         OfferedBy(c, s, events, tid) == By(t.inserted, writers, tid) + Carried(t.threads[tid])
  }

  /** The items offered by the events are the items inserted and carried in t, in order. */
  ghost predicate Accounted<T>(c: Config, s: State<T>, events: seq<Event<T>>, t: State<T>)
    requires Shaped(c, s)
  {
    && multiset(Offered(c, s, events)) == multiset(t.inserted) + AllCarried(t.threads)
    && exists writers :: InOrder(c, s, events, t, writers)
  }

  /** The items offered by the events are the items removed and used in t, in order. */
  ghost predicate Consumed<T>(c: Config, s: State<T>, events: seq<Event<T>>, t: State<T>)
    requires Shaped(c, s)
  {
    && multiset(Offered(c, s, events)) == multiset(t.removed)
    && (forall k :: 0 <= k < |t.removed| ==> k in t.used)
    && exists writers: seq<nat> ::
         && |writers| == |t.removed| && (forall i :: 0 <= i < |writers| ==> writers[i] < |s.threads|)
         && forall tid: nat :: tid < |s.threads| ==>
              OfferedBy(c, s, events, tid) == By(t.removed, writers, tid)
  }

  lemma StartsEmpty<T>(c: Config, s: State<T>, t: State<T>)
    requires Init(c, s)
    ensures s.inserted <= t.inserted && Gained(s, t) == t.inserted && AllCarried(s.threads) == multiset{}
    ensures forall tid: nat :: tid < |s.threads| ==> Carried(s.threads[tid]) == []
  {
    NothingCarried(s.threads);
  }

  lemma {:induction false} NothingOffered<T>(c: Config, s: State<T>, events: seq<Event<T>>, tid: nat)
    requires Shaped(c, s) && Offered(c, s, events) == []
    ensures OfferedBy(c, s, events, tid) == []
    decreases |events|
  {
    if events == [] {
    } else {
      hide Step, Given;
      assert Given(s, events[0]) == [] && Offered(c, Step(c, s, events[0]), events[1..]) == [];
      NothingOffered(c, Step(c, s, events[0]), events[1..], tid);
    }
  }

  lemma WholeFlow<T>(c: Config, s: State<T>, events: seq<Event<T>>, more: seq<Event<T>>)
    requires Shaped(c, s) && Inv(c, s) && Offered(c, Run(c, s, events), more) == []
    ensures Flow(s, Run(c, Run(c, s, events), more), Offered(c, s, events),
                 Writers(c, s, events) + Writers(c, Run(c, s, events), more))
  {
    hide *;
    var t := Run(c, s, events);
    RunFlows(c, s, events);
    RunFlows(c, t, more);
    FlowJoin(s, t, Run(c, t, more), Offered(c, s, events), Writers(c, s, events), [], Writers(c, t, more));
    assert Offered(c, s, events) + [] == Offered(c, s, events);
  }

  lemma WholeFlowOf<T>(c: Config, s: State<T>, events: seq<Event<T>>, more: seq<Event<T>>, tid: nat)
    requires Shaped(c, s) && Inv(c, s) && Offered(c, Run(c, s, events), more) == [] && tid < |s.threads|
    ensures FlowOf(s, Run(c, Run(c, s, events), more), OfferedBy(c, s, events, tid),
                   Writers(c, s, events) + Writers(c, Run(c, s, events), more), tid)
  {
    hide *;
    var t := Run(c, s, events);
    RunFlows(c, s, events);
    RunFlowsOf(c, s, events, tid);
    RunFlowsOf(c, t, more, tid);
    NothingOffered(c, t, more, tid);
    FlowOfJoin(s, t, Run(c, t, more), OfferedBy(c, s, events, tid), Writers(c, s, events), [],
               Writers(c, t, more), tid);
    assert OfferedBy(c, s, events, tid) + [] == OfferedBy(c, s, events, tid);
  }

  lemma FlowOfFromStart<T>(s: State<T>, t: State<T>, offered: seq<T>, writers: seq<nat>, tid: nat)
    requires tid < |s.threads| && s.inserted <= t.inserted
    requires Carried(s.threads[tid]) == [] && Gained(s, t) == t.inserted && FlowOf(s, t, offered, writers, tid)
    ensures |t.threads| == |s.threads| && |writers| == |t.inserted|
    ensures offered == By(t.inserted, writers, tid) + Carried(t.threads[tid])
  {
    hide By, Carried, Gained;
    assert [] + offered == offered;
  }

  lemma FlowFromNothing<T>(s: State<T>, t: State<T>, offered: seq<T>, writers: seq<nat>)
    requires s.inserted <= t.inserted && Gained(s, t) == t.inserted && AllCarried(s.threads) == multiset{}
    requires Flow(s, t, offered, writers)
    ensures |writers| == |t.inserted| && |t.threads| == |s.threads|
    ensures forall i :: 0 <= i < |writers| ==> writers[i] < |t.threads|
    ensures multiset(offered) == multiset(t.inserted) + AllCarried(t.threads)
  {
    hide AllCarried, Gained;
  }

  /** What flows from the initial state is what is inserted or carried. */
  lemma FlowFromStart<T>(c: Config, s: State<T>, events: seq<Event<T>>, t: State<T>, writers: seq<nat>)
    requires Init(c, s) && Shaped(c, s) && Flow(s, t, Offered(c, s, events), writers)
    requires forall tid: nat :: tid < |s.threads| ==> FlowOf(s, t, OfferedBy(c, s, events, tid), writers, tid)
    ensures Accounted(c, s, events, t)
  {
    hide Flow, FlowOf, Offered, OfferedBy, By, Carried, AllCarried, Gained, Init, Shaped;
    StartsEmpty(c, s, t);
    FlowFromNothing(s, t, Offered(c, s, events), writers);
    forall tid: nat | tid < |t.threads|
      ensures OfferedBy(c, s, events, tid) == By(t.inserted, writers, tid) + Carried(t.threads[tid])
    {
      FlowOfFromStart(s, t, OfferedBy(c, s, events, tid), writers, tid);
    }
    assert InOrder(c, s, events, t, writers);
  }

  /** In every interleaving, and however it goes on without a new call: the items offered are those
      inserted and those carried, for each thread in the order of its calls. */
  lemma EveryItemIsAccounted<T>(c: Config, s: State<T>, events: seq<Event<T>>, more: seq<Event<T>>)
    requires Init(c, s) && Offered(c, Run(c, s, events), more) == []
    ensures Accounted(c, s, events, Run(c, Run(c, s, events), more))
  {
    hide *;
    InitInv(c, s);
    var t := Run(c, s, events);
    var u, writers := Run(c, t, more), Writers(c, s, events) + Writers(c, t, more);
    WholeFlow(c, s, events, more);
    forall tid: nat | tid < |s.threads| ensures FlowOf(s, u, OfferedBy(c, s, events, tid), writers, tid) {
      WholeFlowOf(c, s, events, more, tid);
    }
    FlowFromStart(c, s, events, u, writers);
  }

  lemma RestCarriesNothing<T>(c: Config, t: State<T>)
    requires Rested(c, t)
    ensures AllCarried(t.threads) == multiset{} && t.removed == t.inserted
    ensures forall k :: 0 <= k < |t.removed| ==> k in t.used
    ensures forall tid: nat :: tid < |t.threads| ==> Carried(t.threads[tid]) == []
  {
    NothingCarried(t.threads);
  }

  lemma RestConsumes<T>(c: Config, s: State<T>, events: seq<Event<T>>, t: State<T>)
    requires Shaped(c, s) && Accounted(c, s, events, t) && Rested(c, t)
    ensures Consumed(c, s, events, t)
  {
    RestCarriesNothing(c, t);
    hide Offered, OfferedBy, By, Carried, AllCarried, Rested;
    var writers :| InOrder(c, s, events, t, writers);
    assert |writers| == |t.removed| && |t.threads| == |s.threads|;
    forall tid: nat | tid < |t.threads| ensures OfferedBy(c, s, events, tid) == By(t.removed, writers, tid) {
      assert Carried(t.threads[tid]) == [];
    }
  }

  /** In every interleaving: the items that went in are those offered, but for those that a producer
      still carries, and each producer's in the order of its calls; they come out in the order they
      went in, nobody takes an error branch, and nobody takes an item from an empty ring. */
  lemma EveryInterleaving<T>(c: Config, s: State<T>, events: seq<Event<T>>)
    requires Init(c, s) && s.threads != []
    ensures Sound(c, Run(c, s, events)) && Accounted(c, s, events, Run(c, s, events))
  {
    InitInv(c, s);
    RunKeepsInv(c, s, events);
    InvIsSound(c, Run(c, s, events));
    hide Inv, Init, Sound, Accounted;
    EveryItemIsAccounted(c, s, events, []);
  }

  /** Whenever all threads rest, the consumers have used exactly the items that the producers were
      given, each once. */
  lemma RestedHasConsumed<T>(c: Config, s: State<T>, events: seq<Event<T>>)
    requires Init(c, s) && Rested(c, Run(c, s, events))
    ensures Consumed(c, s, events, Run(c, s, events))
  {
    EveryItemIsAccounted(c, s, events, []);
    RestConsumes(c, s, events, Run(c, s, events));
  }

  /** From every reachable state with a consumer, some continuation without a new call brings every
      token back and consumes exactly the items that the producers have been given so far. */
  lemma NothingIsLost<T(!new)>(c: Config, s: State<T>, events: seq<Event<T>>, consumer: nat, item: T)
    requires Init(c, s) && consumer < |s.threads| && !Producer(s.threads[consumer])
    ensures exists more: seq<Event<T>> ::
              && Rested(c, Run(c, Run(c, s, events), more))
              && Run(c, s, events).inserted <= Run(c, Run(c, s, events), more).inserted
              && Consumed(c, s, events, Run(c, Run(c, s, events), more))
  {
    InitInv(c, s);
    hide Init, Inv, Rested, Consumed, Accounted;
    RunKeepsInv(c, s, events);
    RunKeepsRoles(c, s, events, consumer);
    var more := Drain(c, Run(c, s, events), consumer, item);
    RunKeepsInserted(c, Run(c, s, events), more);
    EveryItemIsAccounted(c, s, events, more);
    RestConsumes(c, s, events, Run(c, Run(c, s, events), more));
  }
}
