/** Project5/producerConsumer/buffer.c and Project5/threadPool/threadpool.c as the two uses of
    the semaphore queue, with the sizes they are shipped with. */
module BoundedBuffer {
  import opened Options
  import opened SemaphoreQueue
  import opened Deliveries

  const BUFFER_SIZE := 10

  const CONFIG := Config(BUFFER_SIZE, true)

  /** init_buffer, with any numbers of producer and consumer threads. */
  function Start(producers: nat, consumers: nat): State<int> {
    State(seq(BUFFER_SIZE + 1, _ => 0), 0, 0, BUFFER_SIZE, 0, None,
          seq(producers, _ => Making) + seq(consumers, _ => Idle), [], [], {})
  }

  /** Any number of threads, any interleaving: the buffer is a FIFO queue of BUFFER_SIZE items,
      neither error return is reached, the threads never all block, the items the producers have
      been given are those inserted and those they carry, and exactly those can still be consumed
      - and have been, whenever all threads rest. */
  lemma BufferIsCorrect(producers: nat, consumers: nat, events: seq<Event<int>>)
    requires producers > 0 && consumers > 0
    ensures var s := Start(producers, consumers);
            var t := Run(CONFIG, s, events);
            && Sound(CONFIG, t) && Accounted(CONFIG, s, events, t)
            && (Rested(CONFIG, t) ==> Consumed(CONFIG, s, events, t))
            && (exists tid: nat :: tid < producers + consumers && Enabled(CONFIG, t, tid))
            && exists more: seq<Event<int>> ::
                 && Rested(CONFIG, Run(CONFIG, t, more)) && t.inserted <= Run(CONFIG, t, more).inserted
                 && Consumed(CONFIG, s, events, Run(CONFIG, t, more))
  {
    var s := Start(producers, consumers);
    assert Init(CONFIG, s) && !Producer(s.threads[producers]);
    hide Init, Run, Accounted, Consumed, Rested, Sound;
    EveryInterleaving(CONFIG, s, events);
    NeverDeadlocked(CONFIG, s, events, 0, producers);
    if Rested(CONFIG, Run(CONFIG, s, events)) {
      RestedHasConsumed(CONFIG, s, events);
    }
    NothingIsLost(CONFIG, s, events, producers, 0);
  }
}

module ThreadPool {
  import opened Options
  import opened SemaphoreQueue
  import opened Deliveries

  const QUEUE_SIZE := 10
  const NUMBER_OF_THREADS := 3

  const CONFIG := Config(QUEUE_SIZE, false)

  /** A function and its argument, named rather than pointed to. */
  datatype Task = Task(function_: nat, data: nat)

  /** pool_init, with any number of threads submitting work. */
  function Start(submitters: nat): State<Task> {
    State(seq(QUEUE_SIZE + 1, _ => Task(0, 0)), 0, 0, QUEUE_SIZE, 0, None,
          seq(submitters, _ => Making) + seq(NUMBER_OF_THREADS, _ => Idle), [], [], {})
  }

  /** Before shutdown, in any interleaving: pool_submit never answers ERROR, the unchecked
      dequeue always finds the oldest task, every enqueued task is queued, held by one worker or
      executed, the tasks submitted are those enqueued and those about to be, exactly those can
      still be executed - and have been, whenever all threads rest - and the threads never all
      block. */
  lemma PoolIsCorrect(submitters: nat, events: seq<Event<Task>>)
    ensures var s := Start(submitters);
            var t := Run(CONFIG, s, events);
            && Sound(CONFIG, t) && Accounted(CONFIG, s, events, t)
            && (Rested(CONFIG, t) ==> Consumed(CONFIG, s, events, t))
            && (forall k: nat :: k < |t.inserted| ==> InOnePlace(t, k))
            && (exists more: seq<Event<Task>> ::
                  && Rested(CONFIG, Run(CONFIG, t, more)) && t.inserted <= Run(CONFIG, t, more).inserted
                  && Consumed(CONFIG, s, events, Run(CONFIG, t, more)))
            && (submitters > 0 ==> exists tid: nat :: tid < submitters + NUMBER_OF_THREADS && Enabled(CONFIG, t, tid))
  {
    var s := Start(submitters);
    assert Init(CONFIG, s) && !Producer(s.threads[submitters]);
    hide Init, Run, Accounted, Consumed, Rested, Sound, InOnePlace;
    EveryInterleaving(CONFIG, s, events);
    forall k: nat | k < |Run(CONFIG, s, events).inserted| ensures InOnePlace(Run(CONFIG, s, events), k) {
      ExactlyOnePlace(CONFIG, s, events, k);
    }
    if Rested(CONFIG, Run(CONFIG, s, events)) {
      RestedHasConsumed(CONFIG, s, events);
    }
    NothingIsLost(CONFIG, s, events, submitters, Task(0, 0));
    if submitters > 0 {
      NeverDeadlocked(CONFIG, s, events, 0, submitters);
    }
  }
}
