/** A consumer with one credit at a time (src/consumer.rs, and the spawning of a handler for
    every frame in src/client/mod.rs). */
module Consumer {
  import opened Sequences

  datatype Chunk<T> = Chunk(firstOffset: nat, messages: seq<T>)

  datatype Delivery<T> = Delivery(message: T, offset: nat)

  datatype OffsetSpecification = First | Last | Next | Offset(offset: nat) | Timestamp(at: int)

  /** What a handler needs to know: where to start, and which messages the client wants. */
  datatype Config<!T> = Config(start: OffsetSpecification, keep: T -> bool)

  const QUEUE_CAPACITY: nat := 10000

  /** The smallest offset that is let through. */
  function Requested(start: OffsetSpecification): nat {
    match start
    case Offset(n) => n
    case _ => 0
  }

  function Filter<T>(keep: T -> bool, ms: seq<T>): seq<T> {
    if ms == [] then [] else (if keep(ms[0]) then [ms[0]] else []) + Filter(keep, ms[1..])
  }

  /** Number the messages from `offset`, and drop those numbered below `from`. */
  function Deliver<T>(ms: seq<T>, offset: nat, from: nat): seq<Delivery<T>>
    decreases |ms|
  {
    if ms == [] then []
    else (if from > offset then [] else [Delivery(ms[0], offset)]) + Deliver(ms[1..], offset + 1, from)
  }

  /** What the handler queues for one chunk. */
  function Deliveries<T>(cfg: Config<T>, c: Chunk<T>): seq<Delivery<T>> {
    Deliver(Filter(cfg.keep, c.messages), c.firstOffset, Requested(cfg.start))
  }

  function AllDeliveries<T>(cfg: Config<T>, cs: seq<Chunk<T>>): seq<Delivery<T>> {
    if cs == [] then [] else Deliveries(cfg, cs[0]) + AllDeliveries(cfg, cs[1..])
  }

  /** Queueing one message, or skipping it, leaves the same total. */
  lemma DeliverNext<T>(queue: seq<Delivery<T>>, ms: seq<T>, i: nat, offset: nat, from: nat)
    requires i < |ms|
    ensures queue + Deliver(ms[i..], offset, from)
         == (if from > offset then queue else queue + [Delivery(ms[i], offset)])
            + Deliver(ms[i + 1..], offset + 1, from)
  {
    assert ms[i..][1..] == ms[i + 1..];
    Regroup(queue, [Delivery(ms[i], offset)], Deliver(ms[i + 1..], offset + 1, from));
    Regroup(queue, [], Deliver(ms[i + 1..], offset + 1, from));
  }

  // ----- The handler -----

  class ConsumerMessageHandler<T> {
    const cfg: Config<T>
    var queue: seq<Delivery<T>>
    var credits: nat

    constructor (cfg: Config<T>)
      ensures this.cfg == cfg && queue == [] && credits == 0
    {
      this.cfg := cfg;
      queue, credits := [], 0;
    }

    /** Queue a chunk, message by message, and only then ask for another. */
    method HandleDeliver(c: Chunk<T>)
      modifies this
      ensures queue == old(queue) + Deliveries(cfg, c)
      ensures credits == old(credits) + 1
    {
      var messages := KeptMessages(c);
      var offset := c.firstOffset;
      ghost var total := queue + Deliver(messages, offset, Requested(cfg.start));
      assert messages[0..] == messages;
      for i := 0 to |messages|
        invariant offset == c.firstOffset + i && credits == old(credits)
        invariant queue + Deliver(messages[i..], offset, Requested(cfg.start)) == total
      {
        DeliverNext(queue, messages, i, offset, Requested(cfg.start));
        if cfg.start.Offset? && cfg.start.offset > offset {
          offset := offset + 1;
          continue;
        }
        queue := queue + [Delivery(messages[i], offset)];
        offset := offset + 1;
      }
      credits := credits + 1;
    }

    method KeptMessages(c: Chunk<T>) returns (messages: seq<T>)
      ensures messages == Filter(cfg.keep, c.messages)
    {
      messages := [];
      for i := 0 to |c.messages|
        invariant messages + Filter(cfg.keep, c.messages[i..]) == Filter(cfg.keep, c.messages)
      {
        assert c.messages[i..][1..] == c.messages[i + 1..];
        if cfg.keep(c.messages[i]) {
          messages := messages + [c.messages[i]];
        }
      }
    }
  }

  // ----- Runs: broker, connection, handler tasks and reader, interleaved step by step -----

  /** A handler task: the kept messages it has not looked at, and the number of the next. */
  datatype Task<T> = Task(rest: seq<T>, offset: nat)

  /** `script` is what the broker has still to send, in stream order. `queue` is everything ever
      queued, of which the reader has taken the first `taken`. `lost` counts credits that could
      not be sent. */
  datatype State<T> = State(
    script: seq<Chunk<T>>, brokerCredit: nat, wire: seq<Chunk<T>>, tasks: seq<Task<T>>,
    creditsInFlight: nat, lost: nat, queue: seq<Delivery<T>>, taken: nat, closed: bool)

  datatype Event =
    | BrokerSends
    | FrameArrives
    | TaskAdvances(task: nat)
    | TaskReturnsCredit(task: nat)
    | TaskFailsToReturnCredit(task: nat)
    | CreditArrives
    | ReaderTakes
    | Close

  function Start<T>(script: seq<Chunk<T>>, credit: nat): State<T> {
    State(script, credit, [], [], 0, 0, [], 0, false)
  }

  function Spawn<T>(cfg: Config<T>, c: Chunk<T>): Task<T> {
    Task(Filter(cfg.keep, c.messages), c.firstOffset)
  }

  /** A handler looks at its next message. It waits while the queue is full. */
  function Advance<T>(cfg: Config<T>, s: State<T>, i: nat): State<T>
    requires i < |s.tasks| && s.tasks[i].rest != []
  {
    var t := s.tasks[i];
    var next := s.tasks[i := Task(t.rest[1..], t.offset + 1)];
    if Requested(cfg.start) > t.offset then s.(tasks := next)
    else if |s.queue| < s.taken + QUEUE_CAPACITY then
      s.(tasks := next, queue := s.queue + [Delivery(t.rest[0], t.offset)])
    else s
  }

  /** An event that cannot happen changes nothing. */
  function Step<T>(cfg: Config<T>, s: State<T>, e: Event): State<T> {
    match e
    case BrokerSends =>
      if s.brokerCredit > 0 && s.script != [] then
        s.(brokerCredit := s.brokerCredit - 1, script := s.script[1..], wire := s.wire + [s.script[0]])
      else s
    case FrameArrives =>
      if s.wire != [] then s.(wire := s.wire[1..], tasks := s.tasks + [Spawn(cfg, s.wire[0])]) else s
    case TaskAdvances(i) =>
      if i < |s.tasks| && s.tasks[i].rest != [] then Advance(cfg, s, i) else s
    case TaskReturnsCredit(i) =>
      if i < |s.tasks| && s.tasks[i].rest == [] then
        s.(tasks := Without(s.tasks, i), creditsInFlight := s.creditsInFlight + 1)
      else s
    case TaskFailsToReturnCredit(i) =>
      if i < |s.tasks| && s.tasks[i].rest == [] then s.(tasks := Without(s.tasks, i), lost := s.lost + 1)
      else s
    case CreditArrives =>
      if s.creditsInFlight > 0 then
        s.(creditsInFlight := s.creditsInFlight - 1, brokerCredit := s.brokerCredit + 1)
      else s
    case ReaderTakes => if s.taken < |s.queue| then s.(taken := s.taken + 1) else s
    case Close => s.(closed := true)
  }

  function Run<T>(cfg: Config<T>, s: State<T>, events: seq<Event>): State<T>
    decreases |events|
  {
    if events == [] then s else Run(cfg, Step(cfg, s, events[0]), events[1..])
  }

  /** Credits at the broker, frames in flight, running handlers, and credits in flight. */
  function Load<T>(s: State<T>): nat {
    s.brokerCredit + |s.wire| + |s.tasks| + s.creditsInFlight
  }

  function TaskDeliveries<T>(cfg: Config<T>, t: Task<T>): seq<Delivery<T>> {
    Deliver(t.rest, t.offset, Requested(cfg.start))
  }

  function OpenDeliveries<T>(cfg: Config<T>, ts: seq<Task<T>>): seq<Delivery<T>> {
    if ts == [] then [] else TaskDeliveries(cfg, ts[0]) + OpenDeliveries(cfg, ts[1..])
  }

  /** What is still to be queued, in the order in which the frames were sent. */
  function Outstanding<T>(cfg: Config<T>, s: State<T>): seq<Delivery<T>> {
    OpenDeliveries(cfg, s.tasks) + (AllDeliveries(cfg, s.wire) + AllDeliveries(cfg, s.script))
  }

  ghost predicate Inv<T>(cfg: Config<T>, script: seq<Chunk<T>>, credit: nat, s: State<T>) {
    && Load(s) + s.lost == credit
    && s.taken <= |s.queue| <= s.taken + QUEUE_CAPACITY
    && s.queue + Outstanding(cfg, s) == AllDeliveries(cfg, script)
  }

  lemma {:induction false} AllDeliveriesAppend<T>(cfg: Config<T>, cs: seq<Chunk<T>>, c: Chunk<T>)
    ensures AllDeliveries(cfg, cs + [c]) == AllDeliveries(cfg, cs) + Deliveries(cfg, c)
  {
    if cs == [] {
      assert [] + [c] == [c] && [c][1..] == [];
    } else {
      assert (cs + [c])[1..] == cs[1..] + [c];
      AllDeliveriesAppend(cfg, cs[1..], c);
    }
  }

  lemma {:induction false} OpenDeliveriesAppend<T>(cfg: Config<T>, ts: seq<Task<T>>, t: Task<T>)
    ensures OpenDeliveries(cfg, ts + [t]) == OpenDeliveries(cfg, ts) + TaskDeliveries(cfg, t)
  {
    if ts == [] {
      assert [] + [t] == [t] && [t][1..] == [];
    } else {
      assert (ts + [t])[1..] == ts[1..] + [t];
      OpenDeliveriesAppend(cfg, ts[1..], t);
    }
  }

  lemma OneTask<T>(cfg: Config<T>, t: Task<T>)
    ensures OpenDeliveries(cfg, [t]) == TaskDeliveries(cfg, t)
  {
    assert [t][1..] == [];
  }

  lemma SendKeepsOrder<T>(cfg: Config<T>, s: State<T>)
    requires s.script != []
    ensures AllDeliveries(cfg, s.wire + [s.script[0]]) + AllDeliveries(cfg, s.script[1..])
         == AllDeliveries(cfg, s.wire) + AllDeliveries(cfg, s.script)
  {
    AllDeliveriesAppend(cfg, s.wire, s.script[0]);
  }

  lemma SpawnKeepsOrder<T>(cfg: Config<T>, s: State<T>)
    requires s.wire != []
    ensures OpenDeliveries(cfg, s.tasks + [Spawn(cfg, s.wire[0])]) + AllDeliveries(cfg, s.wire[1..])
         == OpenDeliveries(cfg, s.tasks) + AllDeliveries(cfg, s.wire)
  {
    OpenDeliveriesAppend(cfg, s.tasks, Spawn(cfg, s.wire[0]));
  }

  lemma AdvanceKeepsOrder<T>(cfg: Config<T>, s: State<T>, i: nat)
    requires i < |s.tasks| <= 1 && s.tasks[i].rest != []
    ensures var s' := Advance(cfg, s, i);
            s'.queue + OpenDeliveries(cfg, s'.tasks) == s.queue + OpenDeliveries(cfg, s.tasks)
  {
    var t := s.tasks[0];
    var t' := Task(t.rest[1..], t.offset + 1);
    assert s.tasks == [t] && s.tasks[0 := t'] == [t'];
    OneTask(cfg, t);
    OneTask(cfg, t');
  }

  lemma AdvanceKeepsInv<T>(cfg: Config<T>, script: seq<Chunk<T>>, credit: nat, s: State<T>, i: nat)
    requires credit <= 1 && Inv(cfg, script, credit, s) && i < |s.tasks| && s.tasks[i].rest != []
    ensures Inv(cfg, script, credit, Advance(cfg, s, i))
  {
    var s', ahead := Advance(cfg, s, i), AllDeliveries(cfg, s.wire) + AllDeliveries(cfg, s.script);
    AdvanceKeepsOrder(cfg, s, i);
    Regroup(s.queue, OpenDeliveries(cfg, s.tasks), ahead);
    Regroup(s'.queue, OpenDeliveries(cfg, s'.tasks), ahead);
  }

  /** With at most one credit, every step keeps the invariant. */
  lemma StepKeepsInv<T>(cfg: Config<T>, script: seq<Chunk<T>>, credit: nat, s: State<T>, e: Event)
    requires credit <= 1 && Inv(cfg, script, credit, s)
    ensures Inv(cfg, script, credit, Step(cfg, s, e))
  {
    match e
    case BrokerSends => if s.script != [] { SendKeepsOrder(cfg, s); }
    case FrameArrives => if s.wire != [] { SpawnKeepsOrder(cfg, s); }
    case TaskAdvances(i) => if i < |s.tasks| && s.tasks[i].rest != [] { AdvanceKeepsInv(cfg, script, credit, s, i); }
    case TaskReturnsCredit(i) => FinishedTask(cfg, s, i);
    case TaskFailsToReturnCredit(i) => FinishedTask(cfg, s, i);
    case _ =>
  }

  lemma FinishedTask<T>(cfg: Config<T>, s: State<T>, i: nat)
    requires |s.tasks| <= 1
    ensures i < |s.tasks| && s.tasks[i].rest == [] ==>
            && |Without(s.tasks, i)| == |s.tasks| - 1
            && OpenDeliveries(cfg, Without(s.tasks, i)) == OpenDeliveries(cfg, s.tasks)
  {
    if i < |s.tasks| {
      assert s.tasks == [s.tasks[0]] && Without(s.tasks, i) == [];
      OneTask(cfg, s.tasks[0]);
    }
  }

  lemma {:induction false} RunKeepsInv<T>(cfg: Config<T>, script: seq<Chunk<T>>, credit: nat, s: State<T>,
                                          events: seq<Event>)
    requires credit <= 1 && Inv(cfg, script, credit, s)
    ensures Inv(cfg, script, credit, Run(cfg, s, events))
    decreases |events|
  {
    if events != [] {
      StepKeepsInv(cfg, script, credit, s, events[0]);
      RunKeepsInv(cfg, script, credit, Step(cfg, s, events[0]), events[1..]);
    }
  }

  /** In every interleaving that starts with one credit, at most one credit, frame or handler is
      under way at any time; what was queued is always a prefix of the stream, and all of it once
      nothing is left to send or handle. */
  lemma {:induction false} InOrder<T>(cfg: Config<T>, script: seq<Chunk<T>>, credit: nat, events: seq<Event>)
    requires credit <= 1
    ensures var s := Run(cfg, Start(script, credit), events);
            && Load(s) <= 1
            && s.queue <= AllDeliveries(cfg, script)
            && (s.script == [] && s.wire == [] && s.tasks == [] ==> s.queue == AllDeliveries(cfg, script))
  {
    assert Outstanding(cfg, Start(script, credit)) == AllDeliveries(cfg, script);
    RunKeepsInv(cfg, script, credit, Start(script, credit), events);
  }

  /** The schedule in which the second of two frames overtakes the first. */
  const OVERTAKE: seq<Event> :=
    [BrokerSends, BrokerSends, FrameArrives, FrameArrives, TaskAdvances(1)]

  lemma RunNext<T>(cfg: Config<T>, s: State<T>, e: Event, more: seq<Event>)
    ensures Run(cfg, s, [e] + more) == Run(cfg, Step(cfg, s, e), more)
  {
  }

  lemma RunFive<T>(cfg: Config<T>, s: State<T>, a: Event, b: Event, c: Event, d: Event, e: Event)
    ensures Run(cfg, s, [a, b, c, d, e]) == Step(cfg, Step(cfg, Step(cfg, Step(cfg, Step(cfg, s, a), b), c), d), e)
  {
    var s1 := Step(cfg, s, a);
    var s2 := Step(cfg, s1, b);
    assert [a, b, c, d, e] == [a] + [b, c, d, e] && [b, c, d, e] == [b] + [c, d, e];
    RunNext(cfg, s, a, [b, c, d, e]);
    RunNext(cfg, s1, b, [c, d, e]);
    RunThree(cfg, s2, c, d, e);
  }

  lemma RunThree<T>(cfg: Config<T>, s: State<T>, a: Event, b: Event, c: Event)
    ensures Run(cfg, s, [a, b, c]) == Step(cfg, Step(cfg, Step(cfg, s, a), b), c)
  {
    var s1 := Step(cfg, s, a);
    var s2 := Step(cfg, s1, b);
    assert [a, b, c] == [a] + [b, c] && [b, c] == [b] + [c] && [c] == [c] + [];
    RunNext(cfg, s, a, [b, c]);
    RunNext(cfg, s1, b, [c]);
    RunNext(cfg, s2, c, []);
  }

  /** One credit is the most that keeps the order: with two, there is a schedule that queues
      from the second chunk first. */
  lemma {:induction false} TwoCreditsReorder<T>(cfg: Config<T>, script: seq<Chunk<T>>, credit: nat)
    requires credit >= 2 && |script| >= 2
    requires Filter(cfg.keep, script[0].messages) != [] && Filter(cfg.keep, script[1].messages) != []
    requires Requested(cfg.start) <= script[0].firstOffset < script[1].firstOffset
    ensures !(Run(cfg, Start(script, credit), OVERTAKE).queue <= AllDeliveries(cfg, script))
  {
    var s0 := Start(script, credit);
    RunFive(cfg, s0, BrokerSends, BrokerSends, FrameArrives, FrameArrives, TaskAdvances(1));
    var s1 := Step(cfg, s0, BrokerSends);
    var s2 := Step(cfg, s1, BrokerSends);
    assert s2.wire == [script[0], script[1]];
    var s3 := Step(cfg, s2, FrameArrives);
    assert s3.tasks == [Spawn(cfg, script[0])] && s3.wire == [script[1]];
    var s4 := Step(cfg, s3, FrameArrives);
    assert s4.tasks == [Spawn(cfg, script[0]), Spawn(cfg, script[1])];
    var s5 := Step(cfg, s4, TaskAdvances(1));
    assert s5.queue == [Delivery(Filter(cfg.keep, script[1].messages)[0], script[1].firstOffset)];
    assert AllDeliveries(cfg, script)[0] == Delivery(Filter(cfg.keep, script[0].messages)[0], script[0].firstOffset);
  }

  // ----- Steps without interruption are the method -----

  function Advances(n: nat): seq<Event> {
    if n == 0 then [] else [TaskAdvances(0)] + Advances(n - 1)
  }

  lemma {:induction false} RunAdvances<T>(cfg: Config<T>, s: State<T>)
    requires |s.tasks| == 1 && |s.queue| + |s.tasks[0].rest| <= s.taken + QUEUE_CAPACITY
    ensures var t := s.tasks[0];
            Run(cfg, s, Advances(|t.rest|))
            == s.(tasks := [Task([], t.offset + |t.rest|)], queue := s.queue + TaskDeliveries(cfg, t))
    decreases |s.tasks[0].rest|
  {
    var t := s.tasks[0];
    if t.rest == [] {
      assert s.tasks == [Task([], t.offset)] && s.queue + TaskDeliveries(cfg, t) == s.queue;
    } else {
      var next := Step(cfg, s, TaskAdvances(0));
      assert Advances(|t.rest|)[1..] == Advances(|t.rest| - 1);
      assert s.tasks[0 := Task(t.rest[1..], t.offset + 1)] == [Task(t.rest[1..], t.offset + 1)];
      RunAdvances(cfg, next);
      assert t.rest[0..] == t.rest;
      DeliverNext(s.queue, t.rest, 0, t.offset, Requested(cfg.start));
    }
  }

  /** A handler task that runs alone, with room in the queue, does what `HandleDeliver` does: it
      queues the deliveries of its chunk. */
  lemma TaskIsHandler<T>(cfg: Config<T>, s: State<T>, c: Chunk<T>)
    requires s.tasks == [] && s.wire == [c] && |s.queue| + |c.messages| <= s.taken + QUEUE_CAPACITY
    ensures var n := |Filter(cfg.keep, c.messages)|;
            Run(cfg, s, [FrameArrives] + Advances(n)).queue == s.queue + Deliveries(cfg, c)
  {
    KeptBounds(cfg.keep, c.messages, 0);
    var arrived := Step(cfg, s, FrameArrives);
    assert arrived.tasks == [Spawn(cfg, c)];
    RunNext(cfg, s, FrameArrives, Advances(|Filter(cfg.keep, c.messages)|));
    RunAdvances(cfg, arrived);
  }

  // ----- The reader -----

  datatype Polled<T> = Item(delivery: Delivery<T>) | End | Pending

  /** `poll_next`: a closed consumer ends only when nothing is queued. */
  function PollNext<T>(s: State<T>): Polled<T>
    requires s.taken <= |s.queue|
  {
    if s.taken < |s.queue| then Item(s.queue[s.taken]) else if s.closed then End else Pending
  }

  /** What the reader has seen is a prefix of the stream, what it sees next continues it, and it
      sees the end only after closing and only when it has seen all that was queued. */
  lemma {:induction false} ReaderSeesTheStream<T>(cfg: Config<T>, script: seq<Chunk<T>>, credit: nat,
                                                  events: seq<Event>)
    requires credit <= 1
    ensures var s := Run(cfg, Start(script, credit), events);
            && s.taken <= |s.queue| <= |AllDeliveries(cfg, script)|
            && (PollNext(s).Item? ==> PollNext(s).delivery == AllDeliveries(cfg, script)[s.taken])
            && (PollNext(s).End? <==> s.closed && s.taken == |s.queue|)
  {
    assert Outstanding(cfg, Start(script, credit)) == AllDeliveries(cfg, script);
    RunKeepsInv(cfg, script, credit, Start(script, credit), events);
  }

  lemma {:induction false} AllDeliveriesJoin<T>(cfg: Config<T>, a: seq<Chunk<T>>, b: seq<Chunk<T>>)
    ensures AllDeliveries(cfg, a + b) == AllDeliveries(cfg, a) + AllDeliveries(cfg, b)
  {
    if a == [] {
      assert a + b == b;
    } else {
      assert (a + b)[1..] == a[1..] + b;
      AllDeliveriesJoin(cfg, a[1..], b);
    }
  }

  /** What has not arrived is the end of the script. */
  ghost predicate Ahead<T>(script: seq<Chunk<T>>, s: State<T>) {
    var ahead := s.wire + s.script;
    |ahead| <= |script| && ahead == script[|script| - |ahead|..]
  }

  lemma {:induction false} RunKeepsAhead<T>(cfg: Config<T>, script: seq<Chunk<T>>, s: State<T>, events: seq<Event>)
    requires Ahead(script, s)
    ensures Ahead(script, Run(cfg, s, events))
    decreases |events|
  {
    if events != [] {
      StepKeepsAhead(cfg, script, s, events[0]);
      RunKeepsAhead(cfg, script, Step(cfg, s, events[0]), events[1..]);
    }
  }

  lemma StepKeepsAhead<T>(cfg: Config<T>, script: seq<Chunk<T>>, s: State<T>, e: Event)
    requires Ahead(script, s)
    ensures Ahead(script, Step(cfg, s, e))
  {
    match e
    case BrokerSends =>
      if s.script != [] {
        assert (s.wire + [s.script[0]]) + s.script[1..] == s.wire + s.script;
      }
    case FrameArrives =>
      if s.wire != [] {
        assert s.wire[1..] + s.script == (s.wire + s.script)[1..];
      }
    case _ =>
  }

  /** The chunks whose frames have arrived. */
  function Arrived<T>(script: seq<Chunk<T>>, s: State<T>): seq<Chunk<T>>
    requires |s.wire| + |s.script| <= |script|
  {
    script[..|script| - |s.wire| - |s.script|]
  }

  /** In every run: what has arrived is queued or held by a running handler. When the reader sees the
      end, it has seen everything that has arrived if and only if no handler has anything left to
      queue. */
  lemma {:induction false} EndIsCompleteExactly<T>(cfg: Config<T>, script: seq<Chunk<T>>, credit: nat,
                                                   events: seq<Event>)
    requires credit <= 1
    ensures var s := Run(cfg, Start(script, credit), events);
            && |s.wire| + |s.script| <= |script| && s.taken <= |s.queue|
            && s.queue + OpenDeliveries(cfg, s.tasks) == AllDeliveries(cfg, Arrived(script, s))
            && (PollNext(s).End? ==>
                (s.queue[..s.taken] == AllDeliveries(cfg, Arrived(script, s)) <==> OpenDeliveries(cfg, s.tasks) == []))
  {
    assert Outstanding(cfg, Start(script, credit)) == AllDeliveries(cfg, script);
    RunKeepsInv(cfg, script, credit, Start(script, credit), events);
    assert [] + script == script && script[|script| - |script|..] == script;
    RunKeepsAhead(cfg, script, Start(script, credit), events);
    var s := Run(cfg, Start(script, credit), events);
    QueuedOrOpen(cfg, script, s);
  }

  lemma QueuedOrOpen<T>(cfg: Config<T>, script: seq<Chunk<T>>, s: State<T>)
    requires Ahead(script, s) && s.queue + Outstanding(cfg, s) == AllDeliveries(cfg, script)
    ensures s.queue + OpenDeliveries(cfg, s.tasks) == AllDeliveries(cfg, Arrived(script, s))
  {
    var ahead := s.wire + s.script;
    assert script == Arrived(script, s) + ahead;
    AllDeliveriesJoin(cfg, Arrived(script, s), ahead);
    AllDeliveriesJoin(cfg, s.wire, s.script);
    Regroup(s.queue, OpenDeliveries(cfg, s.tasks), AllDeliveries(cfg, ahead));
    SameEnd(s.queue + OpenDeliveries(cfg, s.tasks), AllDeliveries(cfg, Arrived(script, s)), AllDeliveries(cfg, ahead));
  }

  lemma SameEnd<X>(a: seq<X>, b: seq<X>, c: seq<X>)
    requires a + c == b + c
    ensures a == b
  {
    assert |a + c| == |b + c|;
    assert a == (a + c)[..|a|] && b == (b + c)[..|b|];
  }

  /** And it can be otherwise: for every script, the consumer can be closed before the handler of the
      first chunk has queued anything. */
  lemma EndCanComeEarly<T>(cfg: Config<T>, script: seq<Chunk<T>>)
    requires script != [] && Deliveries(cfg, script[0]) != []
    ensures var s := Run(cfg, Start(script, 1), [BrokerSends, FrameArrives, Close]);
            PollNext(s).End? && s.taken == 0 && OpenDeliveries(cfg, s.tasks) == Deliveries(cfg, script[0])
  {
    var s0 := Start(script, 1);
    RunNext(cfg, s0, BrokerSends, [FrameArrives, Close]);
    var s1 := Step(cfg, s0, BrokerSends);
    assert s1.wire == [script[0]];
    RunNext(cfg, s1, FrameArrives, [Close]);
    var s2 := Step(cfg, s1, FrameArrives);
    assert s2.tasks == [Spawn(cfg, script[0])];
    RunNext(cfg, s2, Close, []);
    assert [BrokerSends, FrameArrives, Close] == [BrokerSends] + [FrameArrives, Close];
    assert [FrameArrives, Close] == [FrameArrives] + [Close] && [Close] == [Close] + [];
    OneTask(cfg, Spawn(cfg, script[0]));
  }

  // ----- Offsets -----

  /** Each chunk begins where the one before it ends. */
  predicate Contiguous<T>(cs: seq<Chunk<T>>) {
    |cs| >= 2 ==> cs[1].firstOffset == cs[0].firstOffset + |cs[0].messages| && Contiguous(cs[1..])
  }

  function StreamOf<T>(cs: seq<Chunk<T>>): seq<T> {
    if cs == [] then [] else cs[0].messages + StreamOf(cs[1..])
  }

  lemma {:induction false} KeepAll<T>(keep: T -> bool, ms: seq<T>)
    requires forall m :: keep(m)
    ensures Filter(keep, ms) == ms
  {
    if ms != [] {
      KeepAll(keep, ms[1..]);
    }
  }

  lemma {:induction false} DeliverJoins<T>(a: seq<T>, b: seq<T>, offset: nat, from: nat)
    ensures Deliver(a + b, offset, from) == Deliver(a, offset, from) + Deliver(b, offset + |a|, from)
    decreases |a|
  {
    if a == [] {
      assert a + b == b;
    } else {
      assert (a + b)[1..] == a[1..] + b;
      DeliverJoins(a[1..], b, offset + 1, from);
    }
  }

  /** Without a predicate, contiguous chunks are numbered as one stream. */
  lemma {:induction false} ChunksAreOneStream<T>(cfg: Config<T>, cs: seq<Chunk<T>>)
    requires Contiguous(cs) && cs != [] && forall m :: cfg.keep(m)
    ensures AllDeliveries(cfg, cs) == Deliver(StreamOf(cs), cs[0].firstOffset, Requested(cfg.start))
  {
    KeepAll(cfg.keep, cs[0].messages);
    DeliverJoins(cs[0].messages, StreamOf(cs[1..]), cs[0].firstOffset, Requested(cfg.start));
    if |cs| > 1 {
      ChunksAreOneStream(cfg, cs[1..]);
    } else {
      assert StreamOf(cs[1..]) == [];
    }
  }

  lemma {:induction false} DeliverFrom<T>(ms: seq<T>, offset: nat, from: nat)
    ensures var skip := if from <= offset then 0 else if from <= offset + |ms| then from - offset else |ms|;
            var r := Deliver(ms, offset, from);
            && |r| == |ms| - skip
            && forall k | 0 <= k < |r| :: r[k] == Delivery(ms[skip + k], offset + skip + k)
    decreases |ms|
  {
    if ms != [] {
      DeliverFrom(ms[1..], offset + 1, from);
    }
  }

  /** In every run over contiguous chunks without a predicate, the k-th delivery is the message at
      the k-th offset from the first one that is both requested and present: no gap, no repetition,
      no other offset. */
  lemma OffsetsAreTrue<T>(cfg: Config<T>, script: seq<Chunk<T>>, events: seq<Event>, k: nat)
    requires Contiguous(script) && script != [] && forall m :: cfg.keep(m)
    requires k < |Run(cfg, Start(script, 1), events).queue|
    ensures var base, from := script[0].firstOffset, Requested(cfg.start);
            var first := if from > base then from else base;
            && first + k < base + |StreamOf(script)|
            && Run(cfg, Start(script, 1), events).queue[k] == Delivery(StreamOf(script)[first + k - base], first + k)
  {
    InOrder(cfg, script, 1, events);
    ChunksAreOneStream(cfg, script);
    DeliverFrom(StreamOf(script), script[0].firstOffset, Requested(cfg.start));
    assert Run(cfg, Start(script, 1), events).queue[k] == AllDeliveries(cfg, script)[k];
  }

  // ----- Offsets with a predicate: messages are counted after filtering -----

  /** The positions, counted from `base`, of the messages that are kept. */
  function KeptAt<T>(keep: T -> bool, ms: seq<T>, base: nat): seq<nat>
    decreases |ms|
  {
    if ms == [] then [] else (if keep(ms[0]) then [base] else []) + KeptAt(keep, ms[1..], base + 1)
  }

  lemma {:induction false} KeptBounds<T>(keep: T -> bool, ms: seq<T>, base: nat)
    ensures var at := KeptAt(keep, ms, base);
            && |at| == |Filter(keep, ms)| <= |ms|
            && (forall k | 0 <= k < |at| :: base + k <= at[k] < base + |ms|)
            && (|at| == |ms| <==> forall i | 0 <= i < |ms| :: keep(ms[i]))
            && (at == [] <==> forall i | 0 <= i < |ms| :: !keep(ms[i]))
  {
    KeptPlaces(keep, ms, base);
    KeptCount(keep, ms, base);
  }

  lemma {:induction false} KeptPlaces<T>(keep: T -> bool, ms: seq<T>, base: nat)
    ensures forall k | 0 <= k < |KeptAt(keep, ms, base)| :: base + k <= KeptAt(keep, ms, base)[k] < base + |ms|
    decreases |ms|
  {
    if ms != [] {
      KeptPlaces(keep, ms[1..], base + 1);
    }
  }

  lemma {:induction false} KeptCount<T>(keep: T -> bool, ms: seq<T>, base: nat)
    ensures var at := KeptAt(keep, ms, base);
            && |at| == |Filter(keep, ms)| <= |ms|
            && (|at| == |ms| <==> forall i | 0 <= i < |ms| :: keep(ms[i]))
            && (at == [] <==> forall i | 0 <= i < |ms| :: !keep(ms[i]))
    decreases |ms|
  {
    if ms != [] {
      KeptCount(keep, ms[1..], base + 1);
      assert forall i | 1 <= i < |ms| :: ms[i] == ms[1..][i - 1];
    }
  }

  /** The k-th kept message stands at the k-th of these positions. */
  lemma {:induction false} KeptAtIsKept<T>(keep: T -> bool, ms: seq<T>, base: nat, k: nat)
    requires k < |KeptAt(keep, ms, base)|
    ensures k < |Filter(keep, ms)| && base <= KeptAt(keep, ms, base)[k] < base + |ms|
    ensures Filter(keep, ms)[k] == ms[KeptAt(keep, ms, base)[k] - base]
    decreases |ms|
  {
    KeptBounds(keep, ms, base);
    if !keep(ms[0]) {
      KeptAtIsKept(keep, ms[1..], base + 1, k);
    } else if k > 0 {
      KeptAtIsKept(keep, ms[1..], base + 1, k - 1);
    }
  }

  lemma {:induction false} KeptSplit<T>(keep: T -> bool, a: seq<T>, b: seq<T>, base: nat)
    ensures KeptAt(keep, a + b, base) == KeptAt(keep, a, base) + KeptAt(keep, b, base + |a|)
    decreases |a|
  {
    if a == [] {
      assert a + b == b;
    } else {
      assert (a + b)[1..] == a[1..] + b;
      KeptSplit(keep, a[1..], b, base + 1);
    }
  }

  /** Every message that is delivered carries its true offset. The k-th kept message carries
      `firstOffset + k` and is delivered when that is not below the requested offset. */
  ghost predicate TrueOffsets<T>(cfg: Config<T>, c: Chunk<T>) {
    var at := KeptAt(cfg.keep, c.messages, c.firstOffset);
    forall k | 0 <= k < |at| :: Requested(cfg.start) <= c.firstOffset + k ==> at[k] == c.firstOffset + k
  }

  lemma {:induction false} AllKept<T>(keep: T -> bool, ms: seq<T>, base: nat)
    requires forall i | 0 <= i < |ms| :: keep(ms[i])
    ensures |KeptAt(keep, ms, base)| == |ms|
    ensures forall k | 0 <= k < |ms| :: KeptAt(keep, ms, base)[k] == base + k
    decreases |ms|
  {
    if ms != [] {
      AllKept(keep, ms[1..], base + 1);
    }
  }

  /** With `n` messages kept in all, each stands at its own rank if they are the first `n`. */
  lemma FirstKept<T>(keep: T -> bool, ms: seq<T>, base: nat, n: nat)
    requires n == |KeptAt(keep, ms, base)| <= |ms| && forall i | 0 <= i < n :: keep(ms[i])
    ensures forall k | 0 <= k < n :: KeptAt(keep, ms, base)[k] == base + k
  {
    assert ms == ms[..n] + ms[n..];
    KeptSplit(keep, ms[..n], ms[n..], base);
    AllKept(keep, ms[..n], base);
  }

  /** Otherwise the last of them stands further on. */
  lemma LastKept<T>(keep: T -> bool, a: seq<T>, b: seq<T>, base: nat)
    requires |KeptAt(keep, a + b, base)| == |a| > 0
    requires exists i | 0 <= i < |a| :: !keep(a[i])
    ensures KeptAt(keep, a + b, base)[|a| - 1] >= base + |a|
  {
    KeptSplit(keep, a, b, base);
    KeptCount(keep, a, base);
    KeptPlaces(keep, b, base + |a|);
    var late := |a| - 1 - |KeptAt(keep, a, base)|;
    assert KeptAt(keep, a + b, base)[|a| - 1] == KeptAt(keep, b, base + |a|)[late];
  }

  /** With a predicate, offsets are true exactly when nothing is delivered, or no rejected message
      stands before a kept one. */
  lemma TrueOffsetsExactly<T>(cfg: Config<T>, c: Chunk<T>)
    ensures var n := |Filter(cfg.keep, c.messages)|;
            && n <= |c.messages|
            && (TrueOffsets(cfg, c) <==>
                n == 0 || c.firstOffset + n <= Requested(cfg.start) || forall i | 0 <= i < n :: cfg.keep(c.messages[i]))
  {
    KeptBounds(cfg.keep, c.messages, c.firstOffset);
    var n := |Filter(cfg.keep, c.messages)|;
    if n > 0 {
      if TrueOffsets(cfg, c) && Requested(cfg.start) < c.firstOffset + n {
        assert KeptAt(cfg.keep, c.messages, c.firstOffset)[n - 1] == c.firstOffset + (n - 1);
        var a, b := c.messages[..n], c.messages[n..];
        assert c.messages == a + b;
        if i :| 0 <= i < n && !cfg.keep(c.messages[i]) {
          assert !cfg.keep(a[i]);
          LastKept(cfg.keep, a, b, c.firstOffset);
        }
      }
      if forall i | 0 <= i < n :: cfg.keep(c.messages[i]) {
        FirstKept(cfg.keep, c.messages, c.firstOffset, n);
      }
    }
  }

  /** No kept message at or above the requested offset is dropped. */
  ghost predicate NothingLost<T>(cfg: Config<T>, c: Chunk<T>) {
    var at := KeptAt(cfg.keep, c.messages, c.firstOffset);
    forall k | 0 <= k < |at| :: Requested(cfg.start) <= at[k] ==> Requested(cfg.start) <= c.firstOffset + k
  }

  lemma LostInside<T>(cfg: Config<T>, c: Chunk<T>, a: seq<T>, b: seq<T>)
    requires c.messages == a + b && Requested(cfg.start) == c.firstOffset + |a|
    ensures NothingLost(cfg, c) <==>
            (forall i | 0 <= i < |a| :: cfg.keep(a[i])) || (forall i | 0 <= i < |b| :: !cfg.keep(b[i]))
  {
    var base := c.firstOffset;
    KeptSplit(cfg.keep, a, b, base);
    KeptBounds(cfg.keep, a, base);
    KeptBounds(cfg.keep, b, base + |a|);
    var below, above := KeptAt(cfg.keep, a, base), KeptAt(cfg.keep, b, base + |a|);
    if above != [] && |below| < |a| {
      assert KeptAt(cfg.keep, c.messages, base)[|below|] == above[0];
    }
  }

  /** With a predicate, nothing is lost exactly when the requested offset is not beyond the first
      of the chunk, or all messages below it are kept, or none from it on is. */
  lemma NothingLostExactly<T>(cfg: Config<T>, c: Chunk<T>)
    ensures var from, ms := Requested(cfg.start), c.messages;
            NothingLost(cfg, c) <==>
            || from <= c.firstOffset
            || (forall i | 0 <= i < |ms| && c.firstOffset + i < from :: cfg.keep(ms[i]))
            || (forall i | 0 <= i < |ms| && from <= c.firstOffset + i :: !cfg.keep(ms[i]))
  {
    var from, ms := Requested(cfg.start), c.messages;
    if c.firstOffset < from <= c.firstOffset + |ms| {
      var a, b := ms[..from - c.firstOffset], ms[from - c.firstOffset..];
      assert ms == a + b;
      LostInside(cfg, c, a, b);
      assert forall i | 0 <= i < |b| :: b[i] == ms[|a| + i];
      assert forall i | |a| <= i < |ms| :: ms[i] == b[i - |a|];
    } else {
      NothingAcross(cfg, c);
    }
  }

  /** A requested offset before the chunk or behind it. */
  lemma NothingAcross<T>(cfg: Config<T>, c: Chunk<T>)
    requires !(c.firstOffset < Requested(cfg.start) <= c.firstOffset + |c.messages|)
    ensures NothingLost(cfg, c)
  {
    KeptPlaces(cfg.keep, c.messages, c.firstOffset);
  }
}
