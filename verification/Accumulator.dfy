/** The producer's accumulator (src/producer.rs): a bounded channel, a counter that is updated
    after the channel is, and flushes by senders and by a timer, interleaved at every atomic
    step. */
module Accumulator {

  import opened Bytes
  import opened Sequences

  /** The number of values of a `usize`. */
  const WORD: int := 0x1_0000_0000_0000_0000

  // ----- The operations, one after the other -----

  function Min(a: nat, b: nat): nat {
    if a < b then a else b
  }

  class MessageAccumulator<T> {
    const capacity: nat
    var queue: seq<T>
    var messageCount: nat

    ghost predicate Valid()
      reads this
    {
      0 < capacity < WORD && |queue| <= capacity && messageCount < WORD
    }

    constructor (batchSize: nat)
      requires 0 < batchSize < WORD
      ensures Valid() && capacity == batchSize && queue == [] && messageCount == 0
    {
      capacity, queue, messageCount := batchSize, [], 0;
    }

    /** `None` when the channel is full and the call would wait. Otherwise whether the count has
        just reached the capacity. */
    method Add(message: T) returns (full: Option<bool>)
      requires Valid()
      modifies this
      ensures Valid()
      ensures full.None? <==> |old(queue)| == capacity
      ensures full.None? ==> queue == old(queue) && messageCount == old(messageCount)
      ensures full.Some? ==> queue == old(queue) + [message]
      ensures full.Some? ==> messageCount == (old(messageCount) + 1) % WORD
      ensures full.Some? ==> (full.value <==> messageCount == capacity)
    {
      if |queue| == capacity {
        return None;
      }
      queue := queue + [message];
      var val := messageCount;
      messageCount := (messageCount + 1) % WORD;
      full := Some((val + 1) % WORD == capacity);
    }

    /** The oldest messages, at most `batchSize` of them. */
    method Get(batchSize: nat) returns (messages: seq<T>)
      requires Valid()
      modifies this
      ensures Valid()
      ensures messages == old(queue)[..Min(batchSize, |old(queue)|)]
      ensures queue == old(queue)[Min(batchSize, |old(queue)|)..]
      ensures messageCount == (old(messageCount) - |messages|) % WORD
    {
      messages := [];
      var count := 0;
      while count < batchSize
        invariant count == |messages| <= Min(batchSize, |old(queue)|)
        invariant messages == old(queue)[..count] && queue == old(queue)[count..]
        invariant messageCount == old(messageCount)
      {
        if queue == [] {
          break;
        }
        messages := messages + [queue[0]];
        queue := queue[1..];
        count := count + 1;
      }
      messageCount := (messageCount - |messages|) % WORD;
    }
  }

  // ----- The same operations, interleaved -----

  /** Whoever flushes: a sending task or the timer. */
  datatype Actor = Sender(id: nat) | Timer

  datatype Batch<T> = Batch(owner: Actor, messages: seq<T>)

  /** The receiver lock: free, or held while messages are taken, after the last look at the channel,
      or after the count was reduced. */
  datatype Lock<T> = Free | Draining(batch: Batch<T>) | Stopped(batch: Batch<T>) | Drained(batch: Batch<T>)

  /** `counting` are the senders that have queued a message and not counted it; `wanting` are
      those about to take the lock; `handed` are batches taken and not yet published.
      `enqueued`, `drained` and `published` are histories. */
  datatype State<T> = State(
    capacity: nat, queue: seq<T>, count: int, counting: set<nat>, wanting: set<Actor>, lock: Lock<T>,
    handed: seq<Batch<T>>, enqueued: seq<T>, drained: seq<T>, published: seq<T>)

  datatype Event<T> =
    | Enqueue(sender: nat, message: T)
    | Count(sender: nat)
    | Tick
    | TakeLock(actor: Actor)
    | TakeMessage
    | Stop
    | Subtract
    | Unlock
    | Publish(batch: nat)

  function Start<T>(capacity: nat): State<T> {
    State(capacity, [], 0, {}, {}, Free, [], [], [], [])
  }

  predicate HoldsLock<T>(s: State<T>, a: Actor) {
    !s.lock.Free? && s.lock.batch.owner == a
  }

  predicate Publishing<T>(s: State<T>, a: Actor) {
    exists i | 0 <= i < |s.handed| :: s.handed[i].owner == a
  }

  /** The actor has finished what it did before. */
  predicate Idle<T>(s: State<T>, a: Actor) {
    && (a.Sender? ==> a.id !in s.counting)
    && a !in s.wanting
    && !HoldsLock(s, a)
    && !Publishing(s, a)
  }

  predicate ChannelFull<T>(s: State<T>) {
    |s.queue| >= s.capacity
  }

  function Step<T>(s: State<T>, e: Event<T>): State<T> {
    match e
    case Enqueue(id, m) =>
      if Idle(s, Sender(id)) && !ChannelFull(s) then
        s.(queue := s.queue + [m], enqueued := s.enqueued + [m], counting := s.counting + {id})
      else s
    case Count(id) =>
      if id in s.counting then
        s.(count := (s.count + 1) % WORD, counting := s.counting - {id},
           wanting := if (s.count + 1) % WORD == s.capacity then s.wanting + {Sender(id)} else s.wanting)
      else s
    case Tick => if Idle(s, Timer) then s.(wanting := s.wanting + {Timer}) else s
    case TakeLock(a) =>
      if s.lock.Free? && a in s.wanting then s.(wanting := s.wanting - {a}, lock := Draining(Batch(a, []))) else s
    case TakeMessage =>
      if s.lock.Draining? && |s.lock.batch.messages| < s.capacity && s.queue != [] then
        var b := s.lock.batch;
        s.(queue := s.queue[1..], drained := s.drained + [s.queue[0]],
           lock := Draining(b.(messages := b.messages + [s.queue[0]])))
      else s
    case Stop =>
      if s.lock.Draining? && (|s.lock.batch.messages| == s.capacity || s.queue == []) then
        s.(lock := Stopped(s.lock.batch))
      else s
    case Subtract =>
      if s.lock.Stopped? then
        s.(count := (s.count - |s.lock.batch.messages|) % WORD, lock := Drained(s.lock.batch))
      else s
    case Unlock =>
      if s.lock.Drained? then
        s.(lock := Free, handed := if s.lock.batch.messages == [] then s.handed else s.handed + [s.lock.batch])
      else s
    case Publish(i) =>
      if i < |s.handed| then
        s.(handed := s.handed[..i] + s.handed[i + 1..], published := s.published + s.handed[i].messages)
      else s
  }

  function Run<T>(s: State<T>, events: seq<Event<T>>): State<T>
    decreases |events|
  {
    if events == [] then s else Run(Step(s, events[0]), events[1..])
  }

  // ----- Any number of senders -----

  /** Messages taken from the queue whose number has not been subtracted from the count. */
  function Unsubtracted<T>(s: State<T>): nat {
    if s.lock.Draining? || s.lock.Stopped? then |s.lock.batch.messages| else 0
  }

  /** Messages taken from the queue and held under the lock. */
  function Held<T>(s: State<T>): seq<T> {
    if s.lock.Free? then [] else s.lock.batch.messages
  }

  function Flatten<T>(bs: seq<Batch<T>>): seq<T> {
    if bs == [] then [] else bs[0].messages + Flatten(bs[1..])
  }

  ghost predicate Inv<T>(s: State<T>) {
    && s.drained + s.queue == s.enqueued
    && 0 <= s.count < WORD
    && s.count == (|s.queue| + Unsubtracted(s) - |s.counting|) % WORD
    && |s.queue| <= s.capacity
    && multiset(s.published) + multiset(Flatten(s.handed)) + multiset(Held(s)) == multiset(s.drained)
  }

  lemma ModShift(count: int, total: int, delta: int)
    requires count == total % WORD
    ensures (count + delta) % WORD == (total + delta) % WORD
  {
    var q := total / WORD;
    assert total == q * WORD + count;
    assert total + delta == q * WORD + (count + delta);
    Multiples(q, count + delta);
  }

  lemma Multiples(q: int, n: int)
    ensures (q * WORD + n) % WORD == n % WORD
  {
    var r := n % WORD;
    var p := n / WORD;
    assert q * WORD + n == (q + p) * WORD + r;
  }

  lemma {:induction false} FlattenSplit<T>(a: seq<Batch<T>>, b: seq<Batch<T>>)
    ensures Flatten(a + b) == Flatten(a) + Flatten(b)
  {
    if a == [] {
      assert a + b == b;
    } else {
      assert (a + b)[1..] == a[1..] + b;
      FlattenSplit(a[1..], b);
    }
  }

  lemma FlattenOne<T>(b: Batch<T>)
    ensures Flatten([b]) == b.messages
  {
    assert [b][1..] == [];
  }

  lemma PublishKeepsMessages<T>(s: State<T>, i: nat)
    requires i < |s.handed|
    ensures multiset(s.published + s.handed[i].messages) + multiset(Flatten(s.handed[..i] + s.handed[i + 1..]))
         == multiset(s.published) + multiset(Flatten(s.handed))
  {
    var a, b := s.handed[..i], s.handed[i + 1..];
    assert s.handed == a + ([s.handed[i]] + b);
    FlattenSplit(a, [s.handed[i]] + b);
    FlattenSplit([s.handed[i]], b);
    FlattenOne(s.handed[i]);
    FlattenSplit(a, b);
  }

  lemma PublishKeepsInv<T>(s: State<T>, i: nat)
    requires Inv(s) && i < |s.handed|
    ensures Inv(Step(s, Publish(i)))
  {
    PublishKeepsMessages(s, i);
  }

  lemma CountKeepsInv<T>(s: State<T>, id: nat)
    requires Inv(s) && id in s.counting
    ensures Inv(Step(s, Count(id)))
  {
    ModShift(s.count, |s.queue| + Unsubtracted(s) - |s.counting|, 1);
  }

  lemma TakeMessageKeepsInv<T>(s: State<T>)
    requires Inv(s) && s.lock.Draining? && |s.lock.batch.messages| < s.capacity && s.queue != []
    ensures Inv(Step(s, TakeMessage))
  {
    assert s.queue == [s.queue[0]] + s.queue[1..];
  }

  lemma SubtractKeepsInv<T>(s: State<T>)
    requires Inv(s) && s.lock.Stopped?
    ensures Inv(Step(s, Subtract))
  {
    ModShift(s.count, |s.queue| + Unsubtracted(s) - |s.counting|, -|s.lock.batch.messages|);
  }

  lemma UnlockKeepsInv<T>(s: State<T>)
    requires Inv(s) && s.lock.Drained?
    ensures Inv(Step(s, Unlock))
  {
    FlattenSplit(s.handed, [s.lock.batch]);
    FlattenOne(s.lock.batch);
  }

  lemma EnqueueKeepsInv<T>(s: State<T>, id: nat, m: T)
    requires Inv(s) && Idle(s, Sender(id)) && !ChannelFull(s)
    ensures Inv(Step(s, Enqueue(id, m)))
  {
    assert |s.counting + {id}| == |s.counting| + 1;
    assert s.drained + (s.queue + [m]) == s.drained + s.queue + [m];
  }

  lemma StepKeepsInv<T>(s: State<T>, e: Event<T>)
    requires Inv(s)
    ensures Inv(Step(s, e)) && Step(s, e).capacity == s.capacity
  {
    match e
    case Enqueue(id, m) => if Idle(s, Sender(id)) && !ChannelFull(s) { EnqueueKeepsInv(s, id, m); }
    case Count(id) => if id in s.counting { CountKeepsInv(s, id); }
    case TakeMessage =>
      if s.lock.Draining? && |s.lock.batch.messages| < s.capacity && s.queue != [] { TakeMessageKeepsInv(s); }
    case Subtract => if s.lock.Stopped? { SubtractKeepsInv(s); }
    case Unlock => if s.lock.Drained? { UnlockKeepsInv(s); }
    case Publish(i) => if i < |s.handed| { PublishKeepsInv(s, i); }
    case Tick =>
    case TakeLock(_) =>
    case Stop =>
  }

  lemma {:induction false} RunKeepsInv<T>(s: State<T>, events: seq<Event<T>>)
    requires Inv(s)
    ensures Inv(Run(s, events)) && Run(s, events).capacity == s.capacity
    decreases |events|
  {
    if events != [] {
      StepKeepsInv(s, events[0]);
      RunKeepsInv(Step(s, events[0]), events[1..]);
    }
  }

  /** With any number of senders and flushes: messages leave the queue in the order in which they
      entered it, each is published at most once, held, handed over or still queued, and the count
      is what it should be up to the steps that are late, modulo the word size. */
  lemma {:induction false} AccumulatorConserves<T>(capacity: nat, events: seq<Event<T>>)
    ensures var s := Run(Start<T>(capacity), events);
            && s.drained + s.queue == s.enqueued
            && multiset(s.published) + multiset(Flatten(s.handed)) + multiset(Held(s)) + multiset(s.queue)
               == multiset(s.enqueued)
            && s.count == (|s.queue| + Unsubtracted(s) - |s.counting|) % WORD
            && |s.queue| <= capacity
  {
    RunKeepsInv(Start<T>(capacity), events);
    NoneLost(Run(Start<T>(capacity), events));
  }

  lemma NoneLost<T>(s: State<T>)
    requires Inv(s)
    ensures multiset(s.published) + multiset(Flatten(s.handed)) + multiset(Held(s)) + multiset(s.queue)
         == multiset(s.enqueued)
  {
    assert multiset(s.drained + s.queue) == multiset(s.drained) + multiset(s.queue);
  }

  // ----- One sender and the timer -----

  predicate OnlySender<T>(events: seq<Event<T>>, id: nat) {
    forall i | 0 <= i < |events| :: events[i].Enqueue? ==> events[i].sender == id
  }

  /** The sender neither has a message to count nor has to make room. */
  predicate BetweenSends<T>(s: State<T>, id: nat) {
    && id !in s.counting && Sender(id) !in s.wanting
    && !((s.lock.Draining? || s.lock.Stopped?) && s.lock.batch.owner == Sender(id))
  }

  ghost predicate OneSender<T>(s: State<T>, id: nat) {
    && Inv(s)
    && 0 < s.capacity < WORD
    && s.counting <= {id}
    && s.wanting <= {Sender(id), Timer}
    && |s.queue| + Unsubtracted(s) <= s.capacity
    && (BetweenSends(s, id) ==> |s.queue| + Unsubtracted(s) < s.capacity)
    && (id in s.counting ==> Sender(id) !in s.wanting && !HoldsLock(s, Sender(id)))
    && (Sender(id) in s.wanting ==> !HoldsLock(s, Sender(id)))
    && (s.lock.Stopped? && s.lock.batch.owner == Sender(id) ==> s.queue == [])
  }

  lemma CountKeepsOneSender<T>(s: State<T>, id: nat)
    requires OneSender(s, id) && id in s.counting
    ensures OneSender(Step(s, Count(id)), id)
  {
    assert s.counting == {id};
    CountKeepsInv(s, id);
    CountedLast(s.count, |s.queue| + Unsubtracted(s));
  }

  lemma CountedLast(count: int, total: nat)
    requires count == (total - 1) % WORD && total < WORD
    ensures (count + 1) % WORD == total
  {
    ModShift(count, total - 1, 1);
  }

  lemma FlushKeepsOneSender<T>(s: State<T>, e: Event<T>, id: nat)
    requires OneSender(s, id) && Inv(Step(s, e))
    requires e.TakeLock? || e.TakeMessage? || e.Stop? || e.Subtract?
    ensures OneSender(Step(s, e), id)
  {
  }

  lemma HandOverKeepsOneSender<T>(s: State<T>, e: Event<T>, id: nat)
    requires OneSender(s, id) && Inv(Step(s, e))
    requires e.Unlock? || e.Publish? || e.Tick?
    ensures OneSender(Step(s, e), id)
  {
  }

  lemma EnqueueKeepsOneSender<T>(s: State<T>, id: nat, m: T)
    requires OneSender(s, id) && Inv(Step(s, Enqueue(id, m)))
    ensures OneSender(Step(s, Enqueue(id, m)), id)
  {
  }

  lemma StepKeepsOneSender<T>(s: State<T>, e: Event<T>, id: nat)
    requires OneSender(s, id) && (e.Enqueue? ==> e.sender == id)
    ensures OneSender(Step(s, e), id)
  {
    StepKeepsInv(s, e);
    match e
    case Count(n) => if n in s.counting { CountKeepsOneSender(s, id); }
    case Enqueue(_, m) => EnqueueKeepsOneSender(s, id, m);
    case TakeLock(_) => FlushKeepsOneSender(s, e, id);
    case TakeMessage => FlushKeepsOneSender(s, e, id);
    case Stop => FlushKeepsOneSender(s, e, id);
    case Subtract => FlushKeepsOneSender(s, e, id);
    case _ => HandOverKeepsOneSender(s, e, id);
  }

  lemma {:induction false} RunKeepsOneSender<T>(s: State<T>, events: seq<Event<T>>, id: nat)
    requires OneSender(s, id) && OnlySender(events, id)
    ensures OneSender(Run(s, events), id)
    decreases |events|
  {
    if events != [] {
      StepKeepsOneSender(s, events[0], id);
      RunKeepsOneSender(Step(s, events[0]), events[1..], id);
    }
  }

  /** With one sending task and the timer, in every interleaving, a send never finds the channel
      full: between sends, what is queued or drained and not subtracted is below the capacity. */
  lemma OneSenderNeverWaits<T>(capacity: nat, events: seq<Event<T>>, id: nat)
    requires 0 < capacity < WORD && OnlySender(events, id)
    ensures var s := Run(Start<T>(capacity), events);
            Idle(s, Sender(id)) ==> |s.queue| + Unsubtracted(s) < capacity && !ChannelFull(s)
  {
    RunKeepsOneSender(Start<T>(capacity), events, id);
    RunKeepsInv(Start<T>(capacity), events);
  }

  // ----- Two senders -----

  /** `n` messages queued and counted by one sender. */
  function Sends<T>(m: T, n: nat): seq<Event<T>> {
    if n == 0 then [] else Sends(m, n - 1) + [Enqueue(0, m), Count(0)]
  }

  lemma {:induction false} RunJoins<T>(s: State<T>, a: seq<Event<T>>, b: seq<Event<T>>)
    ensures Run(s, a + b) == Run(Run(s, a), b)
    decreases |a|
  {
    if a == [] {
      assert a + b == b;
    } else {
      assert (a + b)[1..] == a[1..] + b;
      RunJoins(Step(s, a[0]), a[1..], b);
    }
  }

  lemma RunThenStep<T>(s: State<T>, events: seq<Event<T>>, e: Event<T>)
    ensures Run(s, events + [e]) == Step(Run(s, events), e)
  {
    RunJoins(s, events, [e]);
    assert [e][1..] == [];
  }

  lemma RunTwo<T>(s: State<T>, a: Event<T>, b: Event<T>)
    ensures Run(s, [a, b]) == Step(Step(s, a), b)
  {
    assert [a, b] == [a] + [b] && [] + [a] == [a];
    RunThenStep(s, [], a);
    RunThenStep(s, [a], b);
  }

  lemma RunThree<T>(s: State<T>, a: Event<T>, b: Event<T>, c: Event<T>)
    ensures Run(s, [a, b, c]) == Step(Step(Step(s, a), b), c)
  {
    assert [a, b, c] == [a, b] + [c];
    RunTwo(s, a, b);
    RunThenStep(s, [a, b], c);
  }

  /** Nobody is doing anything, and `n` messages are queued and counted. */
  ghost predicate Quiet<T>(s: State<T>, capacity: nat, n: nat) {
    && s.capacity == capacity && |s.queue| == n && s.count == n
    && s.counting == {} && s.wanting == {} && s.lock == Free && s.handed == []
  }

  lemma {:induction false} RunSends<T>(capacity: nat, m: T, n: nat)
    requires n < capacity < WORD
    ensures Quiet(Run(Start<T>(capacity), Sends(m, n)), capacity, n)
  {
    if n > 0 {
      RunSends(capacity, m, n - 1);
      RunJoins(Start<T>(capacity), Sends(m, n - 1), [Enqueue(0, m), Count(0)]);
      RunTwo(Run(Start<T>(capacity), Sends(m, n - 1)), Enqueue(0, m), Count(0));
    }
  }

  /** With two senders the channel can be full when a send starts, whatever the capacity: the
      first has queued the last message that fits and has not counted it. */
  lemma TwoSendersCanWait<T>(capacity: nat, m: T)
    requires 0 < capacity < WORD
    ensures var s := Run(Start<T>(capacity), Sends(m, capacity - 1) + [Enqueue(0, m)]);
            Idle(s, Sender(1)) && ChannelFull(s)
  {
    RunSends(capacity, m, capacity - 1);
    RunJoins(Start<T>(capacity), Sends(m, capacity - 1), [Enqueue(0, m)]);
    var s := Run(Start<T>(capacity), Sends(m, capacity - 1));
    RunThenStep(Start<T>(capacity), Sends(m, capacity - 1), Enqueue(0, m));
    QuietThenFull(s, capacity, m);
  }

  lemma QuietThenFull<T>(s: State<T>, capacity: nat, m: T)
    requires capacity > 0 && Quiet(s, capacity, capacity - 1)
    ensures Idle(Step(s, Enqueue(0, m)), Sender(1)) && ChannelFull(Step(s, Enqueue(0, m)))
  {
    assert Idle(s, Sender(0));
  }

  // ----- The count below zero -----

  /** `fetch_add` returns the largest word, and adding one to it overflows. */
  predicate CountOverflows<T>(s: State<T>) {
    s.count == WORD - 1
  }

  /** With any number of senders, and fewer of them and of messages than there are words: the next
      count overflows exactly when the senders that have not counted are one more than the messages
      that are queued or not subtracted. */
  lemma {:induction false} OverflowExactly<T>(capacity: nat, events: seq<Event<T>>)
    ensures var s := Run(Start<T>(capacity), events);
            |s.counting| < WORD && |s.queue| + Unsubtracted(s) < WORD - 1 ==>
            (CountOverflows(s) <==> |s.counting| == |s.queue| + Unsubtracted(s) + 1)
  {
    RunKeepsInv(Start<T>(capacity), events);
    var s := Run(Start<T>(capacity), events);
    WordBelowZero(|s.queue| + Unsubtracted(s) - |s.counting|);
  }

  lemma WordBelowZero(n: int)
    ensures -WORD < n < WORD - 1 ==> (n % WORD == WORD - 1 <==> n == -1)
  {
    if -WORD < n < 0 {
      Multiples(-1, n + WORD);
    }
  }

  /** So one sender about to count sees an overflow exactly when a flush has taken its message,
      everything else is out of the queue, and the flush has already subtracted. */
  lemma {:induction false} OneSenderOverflow<T>(capacity: nat, events: seq<Event<T>>, id: nat)
    requires 0 < capacity < WORD - 1 && OnlySender(events, id)
    ensures var s := Run(Start<T>(capacity), events);
            id in s.counting ==> (CountOverflows(s) <==> s.queue == [] && Unsubtracted(s) == 0)
  {
    OverflowExactly(capacity, events);
    OneSenderBounds(capacity, events, id);
  }

  lemma OneSenderBounds<T>(capacity: nat, events: seq<Event<T>>, id: nat)
    requires 0 < capacity < WORD && OnlySender(events, id)
    ensures var s := Run(Start<T>(capacity), events);
            |s.queue| + Unsubtracted(s) <= capacity && (id in s.counting ==> |s.counting| == 1)
  {
    RunKeepsOneSender(Start<T>(capacity), events, id);
    RunKeepsInv(Start<T>(capacity), events);
    JustOne(Run(Start<T>(capacity), events).counting, id);
  }

  lemma JustOne(s: set<nat>, id: nat)
    requires s <= {id}
    ensures id in s ==> |s| == 1
  {
    if id in s {
      assert s == {id};
    }
  }

  // ----- The order of publishing -----

  /** Every publish that finds a batch takes the one that was handed over first. */
  predicate PublishesInTurn<T>(s: State<T>, events: seq<Event<T>>)
    decreases |events|
  {
    events != [] ==>
      && (events[0].Publish? && events[0].batch < |s.handed| ==> events[0].batch == 0)
      && PublishesInTurn(Step(s, events[0]), events[1..])
  }

  /** At every step, what is published is a prefix of what was sent. */
  ghost predicate AlwaysPrefix<T>(s: State<T>, events: seq<Event<T>>)
    decreases |events|
  {
    s.published <= s.enqueued && (events != [] ==> AlwaysPrefix(Step(s, events[0]), events[1..]))
  }

  ghost predicate Distinct<X>(s: seq<X>) {
    forall i, j | 0 <= i < j < |s| :: s[i] != s[j]
  }

  ghost predicate InTurn<T>(s: State<T>) {
    s.published + Flatten(s.handed) + Held(s) == s.drained
  }

  lemma UnlockKeepsTurn<T>(s: State<T>)
    requires InTurn(s) && s.lock.Drained?
    ensures InTurn(Step(s, Unlock))
  {
    FlattenSplit(s.handed, [s.lock.batch]);
    FlattenOne(s.lock.batch);
  }

  lemma PublishKeepsTurn<T>(s: State<T>)
    requires InTurn(s) && s.handed != []
    ensures InTurn(Step(s, Publish(0)))
  {
    assert s.handed[..0] + s.handed[1..] == s.handed[1..];
  }

  lemma StepKeepsTurn<T>(s: State<T>, e: Event<T>)
    requires InTurn(s) && (e.Publish? && e.batch < |s.handed| ==> e.batch == 0)
    ensures InTurn(Step(s, e))
  {
    match e
    case Unlock => if s.lock.Drained? { UnlockKeepsTurn(s); }
    case Publish(i) => if i < |s.handed| { PublishKeepsTurn(s); }
    case _ =>
  }

  ghost predicate NoEmptyBatch<T>(bs: seq<Batch<T>>) {
    forall i | 0 <= i < |bs| :: bs[i].messages != []
  }

  lemma PublishedIsPrefix<T>(s: State<T>)
    requires Inv(s) && InTurn(s)
    ensures s.published <= s.enqueued
  {
    FirstOfFour(s.published, Flatten(s.handed), Held(s), s.queue);
  }

  /** Publishing in turn keeps the order. */
  lemma {:induction false} InTurnIsPrefix<T>(s: State<T>, events: seq<Event<T>>)
    requires Inv(s) && InTurn(s) && PublishesInTurn(s, events)
    ensures AlwaysPrefix(s, events) && Run(s, events).published <= Run(s, events).enqueued
    decreases |events|
  {
    PublishedIsPrefix(s);
    if events != [] {
      StepKeepsTurn(s, events[0]);
      StepKeepsInv(s, events[0]);
      InTurnIsPrefix(Step(s, events[0]), events[1..]);
    }
  }

  lemma {:induction false} EnqueuedGrows<T>(s: State<T>, events: seq<Event<T>>)
    ensures s.enqueued <= Run(s, events).enqueued
    decreases |events|
  {
    if events != [] {
      EnqueuedGrows(Step(s, events[0]), events[1..]);
    }
  }

  /** A batch that is published before another one puts a message where another belongs. */
  lemma OutOfTurnIsNoPrefix<T>(s: State<T>, i: nat)
    requires Inv(s) && InTurn(s) && NoEmptyBatch(s.handed) && Distinct(s.enqueued) && 0 < i < |s.handed|
    ensures !(Step(s, Publish(i)).published <= s.enqueued)
  {
    var n, first, other := |s.published|, s.handed[0].messages, s.handed[i].messages;
    assert s.handed == s.handed[..i] + s.handed[i..] && s.handed[i..] == [s.handed[i]] + s.handed[i + 1..];
    FlattenSplit(s.handed[..i], s.handed[i..]);
    var front, back := Flatten(s.handed[..i]), Flatten(s.handed[i..]);
    assert front[0] == first[0] && back[0] == other[0];
    assert s.enqueued == s.published + (front + (back + Held(s) + s.queue));
    assert s.enqueued[n] == first[0] && s.enqueued[n + |front|] == other[0];
    assert Step(s, Publish(i)).published[n] == other[0];
  }

  lemma StepKeepsBatches<T>(s: State<T>, e: Event<T>)
    requires NoEmptyBatch(s.handed)
    ensures NoEmptyBatch(Step(s, e).handed)
  {
  }

  lemma {:induction false} PrefixIffInTurn<T>(s: State<T>, events: seq<Event<T>>)
    requires Inv(s) && InTurn(s) && NoEmptyBatch(s.handed) && Distinct(Run(s, events).enqueued)
    ensures AlwaysPrefix(s, events) <==> PublishesInTurn(s, events)
    decreases |events|
  {
    PublishedIsPrefix(s);
    if events != [] {
      var e := events[0];
      EnqueuedGrows(s, events);
      if e.Publish? && 0 < e.batch < |s.handed| {
        OutOfTurnIsNoPrefix(s, e.batch);
      } else {
        StepKeepsTurn(s, e);
        StepKeepsInv(s, e);
        StepKeepsBatches(s, e);
        PrefixIffInTurn(Step(s, e), events[1..]);
      }
    }
  }

  /** With distinct messages, what is published stays a prefix of what was sent, throughout a run,
      if and only if the batches are published in the order in which they were handed over. */
  lemma PublishedInOrderExactly<T>(capacity: nat, events: seq<Event<T>>)
    requires Distinct(Run(Start<T>(capacity), events).enqueued)
    ensures AlwaysPrefix(Start<T>(capacity), events) <==> PublishesInTurn(Start<T>(capacity), events)
  {
    PrefixIffInTurn(Start<T>(capacity), events);
  }

  /** In any case publishing in turn is enough. */
  lemma PublishedInOrder<T>(capacity: nat, events: seq<Event<T>>)
    requires PublishesInTurn(Start<T>(capacity), events)
    ensures AlwaysPrefix(Start<T>(capacity), events)
    ensures Run(Start<T>(capacity), events).published <= Run(Start<T>(capacity), events).enqueued
  {
    InTurnIsPrefix(Start<T>(capacity), events);
  }

  lemma FirstOfFour<X>(a: seq<X>, b: seq<X>, c: seq<X>, d: seq<X>)
    ensures a <= a + b + c + d
  {
  }

  // ----- Steps without interruption are the methods -----

  function Takes<T>(n: nat): seq<Event<T>> {
    if n == 0 then [] else [TakeMessage] + Takes(n - 1)
  }

  /** A flush that nobody interrupts and that finds `n` messages. */
  function Flush<T>(a: Actor, n: nat): seq<Event<T>> {
    [TakeLock(a)] + (Takes(n) + [Stop, Subtract, Unlock])
  }

  lemma {:induction false} RunTakes<T>(s: State<T>, n: nat)
    requires s.lock.Draining? && n <= |s.queue| && |s.lock.batch.messages| + n <= s.capacity
    ensures Run(s, Takes(n)) == s.(
              queue := s.queue[n..], drained := s.drained + s.queue[..n],
              lock := Draining(s.lock.batch.(messages := s.lock.batch.messages + s.queue[..n])))
    decreases n
  {
    if n > 0 {
      var next := Step(s, TakeMessage);
      assert Takes<T>(n)[1..] == Takes(n - 1);
      RunTakes(next, n - 1);
      assert [s.queue[0]] + s.queue[1..][..n - 1] == s.queue[..n];
      Regroup(s.drained, [s.queue[0]], s.queue[1..][..n - 1]);
      Regroup(s.lock.batch.messages, [s.queue[0]], s.queue[1..][..n - 1]);
    } else {
      assert s.queue[..0] == [];
    }
  }

  /** An uninterrupted flush does what `Get` does: it takes the oldest messages, up to the
      capacity, and subtracts their number. */
  lemma {:induction false} FlushIsGet<T>(s: State<T>, a: Actor)
    requires s.lock.Free? && a in s.wanting && s.capacity > 0
    ensures var n := Min(s.capacity, |s.queue|);
            Run(s, Flush(a, n)) == s.(
              wanting := s.wanting - {a}, queue := s.queue[n..], drained := s.drained + s.queue[..n],
              count := (s.count - n) % WORD,
              handed := if n == 0 then s.handed else s.handed + [Batch(a, s.queue[..n])])
  {
    var n := Min(s.capacity, |s.queue|);
    var locked := Step(s, TakeLock(a));
    RunJoins(s, [TakeLock(a)], Takes(n) + [Stop, Subtract, Unlock]);
    RunThenStep(s, [], TakeLock(a));
    var first: seq<Event<T>> := [TakeLock(a)];
    assert [] + first == first;
    RunJoins(locked, Takes(n), [Stop, Subtract, Unlock]);
    RunTakes(locked, n);
    assert [] + s.queue[..n] == s.queue[..n];
    RunThree(Run(locked, Takes(n)), Stop, Subtract, Unlock);
  }

  /** An uninterrupted send does what `Add` does. */
  lemma SendIsAdd<T>(s: State<T>, id: nat, m: T)
    requires Idle(s, Sender(id)) && !ChannelFull(s)
    ensures var count := (s.count + 1) % WORD;
            Run(s, [Enqueue(id, m), Count(id)]) == s.(
              queue := s.queue + [m], enqueued := s.enqueued + [m], count := count,
              wanting := if count == s.capacity then s.wanting + {Sender(id)} else s.wanting)
  {
    RunTwo(s, Enqueue(id, m), Count(id));
    assert s.counting + {id} - {id} == s.counting;
  }

  // ----- Flushes that overtake each other -----

  /** One sender sends these messages, and counts each. */
  function SendsAll<T>(ms: seq<T>): seq<Event<T>> {
    if ms == [] then [] else [Enqueue(0, ms[0]), Count(0)] + SendsAll(ms[1..])
  }

  /** Sending up to the capacity makes the sender want a flush. */
  lemma {:induction false} RunSendsAll<T>(s: State<T>, ms: seq<T>)
    requires Idle(s, Sender(0)) && ms != [] && |s.queue| + |ms| == s.capacity < WORD && s.count + |ms| == s.capacity
    ensures Run(s, SendsAll(ms)) == s.(
              queue := s.queue + ms, enqueued := s.enqueued + ms, count := s.capacity,
              wanting := s.wanting + {Sender(0)})
    decreases |ms|
  {
    var first, more := [Enqueue(0, ms[0]), Count(0)], SendsAll(ms[1..]);
    assert ms == [ms[0]] + ms[1..];
    RunJoins(s, first, more);
    SendIsAdd(s, 0, ms[0]);
    var next := Run(s, first);
    Regroup(s.queue, [ms[0]], ms[1..]);
    Regroup(s.enqueued, [ms[0]], ms[1..]);
    if |ms| > 1 {
      assert Idle(next, Sender(0));
      RunSendsAll(next, ms[1..]);
    } else {
      assert ms[1..] == [];
      assert s.queue + [ms[0]] == s.queue + ms && s.enqueued + [ms[0]] == s.enqueued + ms;
    }
  }

  /** The timer has the only message sent, which is not counted yet. */
  function TimerHas<T>(capacity: nat, a: T): State<T> {
    State(capacity, [], WORD - 1, {0}, {}, Free, [Batch(Timer, [a])], [a], [a], [])
  }

  lemma TimerTakesFirst<T>(capacity: nat, a: T)
    requires 0 < capacity
    ensures Run(Start<T>(capacity), [Tick, Enqueue(0, a)] + Flush(Timer, 1)) == TimerHas(capacity, a)
  {
    var s0 := Start<T>(capacity);
    var s1 := s0.(queue := [a], enqueued := [a], counting := {0}, wanting := {Timer});
    TickThenSend(capacity, a);
    FlushIsGet(s1, Timer);
    assert Min(capacity, |s1.queue|) == 1;
    assert [a][1..] == [] && [a][..1] == [a] && {Timer} - {Timer} == {};
    RunJoins(s0, [Tick, Enqueue(0, a)], Flush(Timer, 1));
  }

  lemma TickThenSend<T>(capacity: nat, a: T)
    requires 0 < capacity
    ensures Run(Start<T>(capacity), [Tick, Enqueue(0, a)])
         == Start<T>(capacity).(queue := [a], enqueued := [a], counting := {0}, wanting := {Timer})
  {
    RunTwo(Start<T>(capacity), Tick, Enqueue(0, a));
  }

  /** The sender fills the channel behind the timer's back, and flushes it. */
  lemma SenderOvertakes<T>(capacity: nat, a: T, ms: seq<T>)
    requires 0 < capacity < WORD && |ms| == capacity
    ensures var s := Run(TimerHas(capacity, a), [Count(0)] + SendsAll(ms) + Flush(Sender(0), capacity));
            s.enqueued == [a] + ms && s.handed == [Batch(Timer, [a]), Batch(Sender(0), ms)] && s.published == []
  {
    var s1 := TimerHas(capacity, a);
    RunThenStep(s1, [], Count(0));
    var counted: seq<Event<T>> := [Count(0)];
    assert [] + counted == counted;
    var s2 := Step(s1, Count(0));
    assert Idle(s2, Sender(0));
    RunJoins(s1, counted, SendsAll(ms));
    RunSendsAll(s2, ms);
    var s3 := Run(s2, SendsAll(ms));
    assert [] + ms == ms && ms[..capacity] == ms;
    FlushIsGet(s3, Sender(0));
    RunJoins(s1, counted + SendsAll(ms), Flush(Sender(0), capacity));
  }

  /** For every capacity, a single sender's messages can be published out of order: the timer takes
      the first, the sender fills and flushes the channel, and publishes before the timer. */
  lemma FlushesCanOvertake<T>(capacity: nat, a: T, ms: seq<T>) returns (events: seq<Event<T>>)
    requires 0 < capacity < WORD && |ms| == capacity
    ensures OnlySender(events, 0)
    ensures var s := Run(Start<T>(capacity), events);
            s.enqueued == [a] + ms && s.published == ms && s.handed == [Batch(Timer, [a])]
  {
    TimerTakesFirst(capacity, a);
    SenderOvertakes(capacity, a, ms);
    var s0, first := Start<T>(capacity), [Tick, Enqueue(0, a)] + Flush(Timer, 1);
    var second := [Count(0)] + SendsAll(ms) + Flush(Sender(0), capacity);
    RunJoins(s0, first, second);
    events := first + second + [Publish(1)];
    RunThenStep(s0, first + second, Publish(1));
    assert [] + ms == ms;
    OneSenderSends(capacity, ms);
  }

  lemma OneSenderSends<T>(capacity: nat, ms: seq<T>)
    ensures OnlySender([Count(0)] + SendsAll(ms) + Flush(Sender(0), capacity), 0)
    ensures OnlySender<T>(Flush(Timer, 1), 0)
  {
    OnlyZeroSends(ms);
    OnlyTakes<T>(capacity);
    OnlyTakes<T>(1);
  }

  lemma {:induction false} OnlyZeroSends<T>(ms: seq<T>)
    ensures OnlySender(SendsAll(ms), 0)
  {
    if ms != [] {
      OnlyZeroSends(ms[1..]);
    }
  }

  lemma {:induction false} OnlyTakes<T>(n: nat)
    ensures OnlySender(Takes<T>(n), 0)
  {
    if n > 0 {
      OnlyTakes<T>(n - 1);
    }
  }
}
