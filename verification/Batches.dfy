/** Batches in which an id can occur more than once (src/producer.rs): when such a batch stops waiting,
    and how many statuses it gets. */
module Batches {
  import opened Sequences
  import opened Confirms
  import opened Statuses

  // ----- What the broker has answered -----

  /** All ids that the broker answers in a run. */
  function Answered<T>(s: State<T>, events: seq<Event<T>>): seq<Id>
    decreases |events|
  {
    if events == [] then [] else AnsweredBy(s, events[0]) + Answered(Step(s, events[0]), events[1..])
  }

  function AnsweredBy<T>(s: State<T>, e: Event<T>): seq<Id> {
    if e.Answer? && multiset(e.ids) <= s.wire.atBroker then e.ids else []
  }

  lemma AnswerAnswers<T>(s: State<T>, ids: seq<Id>, confirmed: bool)
    ensures FrameIds(s.wire.frames + [Frame(ids, confirmed)]) == FrameIds(s.wire.frames) + multiset(ids)
  {
    FrameIdsJoin(s.wire.frames, [Frame(ids, confirmed)]);
    FrameIdsOne(Frame(ids, confirmed));
  }

  // ----- Ids that are answered once -----

  ghost predicate Once(answered: multiset<Id>) {
    forall id: Id :: answered[id] <= 1
  }

  lemma OncePart(a: multiset<Id>, b: multiset<Id>)
    requires Once(a + b)
    ensures Once(a)
  {
    forall id: Id ensures a[id] <= 1 {
      assert (a + b)[id] == a[id] + b[id];
    }
  }

  /** Only registered ids are on their way or answered, and answered ones have fired or are in a frame.
      No answer has missed its waiter. */
  ghost predicate Routed<T>(s: State<T>, answered: multiset<Id>) {
    && (forall id | id in s.wire.ready + s.wire.atBroker :: id in Ids(s.waiters.inserted))
    && (forall id | id in answered :: id in Ids(s.waiters.inserted))
    && multiset(Ids(s.waiters.fired)) + FrameIds(s.wire.frames) == answered
    && s.wire.abandoned == multiset{} && s.wire.panics == 0
  }

  lemma InsertedIds<T>(w: Waiters<T>, e: Entry<T>)
    ensures forall id :: id in Ids(w.inserted + [e]) <==> id in Ids(w.inserted) || id == e.id
  {
    assert Ids(w.inserted + [e]) == Ids(w.inserted) + [e.id];
  }

  lemma InsertRoutes<T>(s: State<T>, i: nat, answered: multiset<Id>)
    requires Routed(s, answered) && i < |s.numbered|
    ensures Routed(Step(s, Insert(i)), answered)
  {
    InsertedIds(s.waiters, s.numbered[i]);
  }

  lemma AnswerRoutes<T>(s: State<T>, e: Event<T>, answered: multiset<Id>)
    requires Routed(s, answered) && e.Answer? && multiset(e.ids) <= s.wire.atBroker
    ensures Routed(Step(s, e), answered + multiset(e.ids))
  {
    AnswerAnswers(s, e.ids, e.confirmed);
  }

  /** An id that is answered once finds its waiter: it has been registered, so it waits unless it has
      fired, and it has not. */
  lemma AnswerFindsWaiter<T>(s: State<T>, i: nat, answered: multiset<Id>)
    requires Traced(s) && Routed(s, answered) && Once(answered)
    requires i < |s.wire.frames| && s.wire.frames[i].ids != []
    ensures s.wire.frames[i].ids[0] in s.waiters.waiting
  {
    var f, id := s.wire.frames[i], s.wire.frames[i].ids[0];
    FrameIdsAround(s.wire.frames, i, f);
    assert FrameIds(s.wire.frames)[id] >= multiset(f.ids)[id] > 0;
    AnsweredCounts(s, answered, id);
    RegisteredIds(s, id);
  }

  lemma AnsweredCounts<T>(s: State<T>, answered: multiset<Id>, id: Id)
    requires Routed(s, answered)
    ensures answered[id] == multiset(Ids(s.waiters.fired))[id] + FrameIds(s.wire.frames)[id]
    ensures id in answered ==> id in Ids(s.waiters.inserted)
  {
  }

  lemma RegisteredIds<T>(s: State<T>, id: Id)
    requires Traced(s) && id in Ids(s.waiters.inserted)
    ensures id in s.waiters.waiting || id in multiset(Ids(s.waiters.fired))
  {
    var k :| 0 <= k < |s.waiters.inserted| && Ids(s.waiters.inserted)[k] == id;
    assert s.waiters.inserted[k] in s.waiters.inserted;
  }

  /** Firing moves an id from its frame to those that have fired. */
  lemma FireMoves<T>(s: State<T>, i: nat)
    requires i < |s.wire.frames| && s.wire.frames[i].ids != [] && s.wire.frames[i].ids[0] in s.waiters.waiting
    ensures var s', id := HandleFirst(s, i), s.wire.frames[i].ids[0];
            && FrameIds(s.wire.frames) == FrameIds(s'.wire.frames) + multiset{id}
            && Ids(s'.waiters.fired) == Ids(s.waiters.fired) + [id]
  {
    var f := s.wire.frames[i];
    FrameIdsAround(s.wire.frames, i, f.(ids := f.ids[1..]));
    assert f.ids == [f.ids[0]] + f.ids[1..];
  }

  lemma HandleRoutes<T>(s: State<T>, i: nat, answered: multiset<Id>)
    requires Traced(s) && Routed(s, answered) && Once(answered)
    requires i < |s.wire.frames| && s.wire.frames[i].ids != []
    ensures Routed(HandleFirst(s, i), answered)
  {
    AnswerFindsWaiter(s, i, answered);
    FireMoves(s, i);
  }

  lemma StepRoutes<T>(s: State<T>, e: Event<T>, answered: multiset<Id>)
    requires Traced(s) && Routed(s, answered) && Once(answered)
    ensures Routed(Step(s, e), answered + multiset(AnsweredBy(s, e)))
  {
    assert answered + multiset{} == answered;
    match e
    case Insert(i) => if i < |s.numbered| { InsertRoutes(s, i, answered); }
    case Answer(ids, _) => if multiset(ids) <= s.wire.atBroker { AnswerRoutes(s, e, answered); }
    case Handle(i) => if i < |s.wire.frames| && s.wire.frames[i].ids != [] { HandleRoutes(s, i, answered); }
    case Publish(_) => PublishRoutes(s, e, answered);
    case Allocate(_, _, _) => CallsKeepWire(s, e);
    case Return(_) => CallsKeepWire(s, e);
  }

  lemma PublishRoutes<T>(s: State<T>, e: Event<T>, answered: multiset<Id>)
    requires Routed(s, answered) && e.Publish?
    ensures Routed(Step(s, e), answered)
  {
  }

  lemma AnsweredNext(answered: multiset<Id>, now: seq<Id>, later: seq<Id>)
    ensures answered + multiset(now + later) == (answered + multiset(now)) + multiset(later)
  {
    assert multiset(now + later) == multiset(now) + multiset(later);
  }

  lemma {:induction false} RunRoutes<T>(s: State<T>, events: seq<Event<T>>, answered: multiset<Id>)
    requires Traced(s) && Routed(s, answered) && Once(answered + multiset(Answered(s, events)))
    ensures Routed(Run(s, events), answered + multiset(Answered(s, events)))
    decreases |events|
  {
    OncePart(answered, multiset(Answered(s, events)));
    if events == [] {
      assert answered + multiset{} == answered;
    } else {
      var next, now := Step(s, events[0]), AnsweredBy(s, events[0]);
      AnsweredNext(answered, now, Answered(next, events[1..]));
      StepTraces(s, events[0]);
      StepRoutes(s, events[0], answered);
      RunRoutes(next, events[1..], answered + multiset(now));
    }
  }

  lemma StartRoutes<T>(first: nat)
    ensures Traced(Start<T>(first)) && Routed(Start<T>(first), multiset{})
  {
    assert Ids(Start<T>(first).waiters.fired) == [];
  }

  lemma AnsweredIsRouted<T>(first: nat, events: seq<Event<T>>)
    requires Distinct(Answered(Start<T>(first), events))
    ensures var answered := multiset(Answered(Start<T>(first), events));
            Once(answered) && Routed(Run(Start<T>(first), events), answered)
  {
    StartRoutes<T>(first);
    DistinctIsOnce(Answered(Start<T>(first), events));
    assert multiset{} + multiset(Answered(Start<T>(first), events)) == multiset(Answered(Start<T>(first), events));
    RunRoutes(Start<T>(first), events, multiset{});
  }

  /** In every run in which the broker answers each id at most once, no answer misses its waiter, even if
      ids are used more than once. */
  lemma AnsweredOnceNeverPanics<T>(first: nat, events: seq<Event<T>>)
    requires Distinct(Answered(Start<T>(first), events))
    ensures var w := Run(Start<T>(first), events).wire; w.panics == 0 && w.abandoned == multiset{}
  {
    AnsweredIsRouted(first, events);
  }

  // ----- One status for each id -----

  lemma IdsOfLast<T>(es: seq<Entry<T>>, e: Entry<T>, call: nat)
    ensures IdsOf(es + [e], call) == IdsOf(es, call) + if e.waiter.call == call then {e.id} else {}
  {
    assert forall i | 0 <= i < |es| :: (es + [e])[i] == es[i];
    assert (es + [e])[|es|] == e;
  }

  lemma DistinctLast<T>(es: seq<Entry<T>>, e: Entry<T>)
    requires Distinct(Ids(es + [e]))
    ensures Distinct(Ids(es)) && forall i | 0 <= i < |es| :: es[i].id != e.id
  {
    assert Ids(es + [e]) == Ids(es) + [e.id];
    assert forall i | 0 <= i < |es| :: (Ids(es) + [e.id])[i] == es[i].id;
    assert (Ids(es) + [e.id])[|es|] == e.id;
  }

  lemma {:induction false} DistinctCountOf<T>(es: seq<Entry<T>>, call: nat)
    requires Distinct(Ids(es))
    ensures |IdsOf(es, call)| == CountOf(es, call)
  {
    if es != [] {
      var front, last := es[..|es| - 1], es[|es| - 1];
      assert es == front + [last];
      DistinctLast(front, last);
      IdsOfLast(front, last, call);
      DistinctCountOf(front, call);
      assert last.id !in IdsOf(front, call);
    }
  }

  /** No other call uses the ids of this one. */
  ghost predicate OwnIds<T>(es: seq<Entry<T>>, call: nat) {
    forall i, j | 0 <= i < |es| && 0 <= j < |es| ::
      es[i].id == es[j].id && es[i].waiter.call == call ==> es[j].waiter.call == call
  }

  lemma ReleasedIdsFired<T>(s: State<T>, call: nat)
    requires Traced(s) && Accounted(s, call) && Released(s, call) && OwnIds(s.sent, call)
    ensures IdsOf(s.waiters.fired, call) == IdsOf(s.sent, call)
  {
    var w := s.waiters;
    CountOfNone(s.numbered, call);
    forall id | id in IdsOf(s.sent, call) ensures id in IdsOf(w.fired, call) {
      var i :| 0 <= i < |s.sent| && s.sent[i].waiter.call == call && s.sent[i].id == id;
      assert s.sent[i] in s.sent && s.sent[i] in w.inserted;
      assert id in w.waiting ==> id in WaitingOf(w.waiting, call);
      if id !in w.waiting {
        var k :| 0 <= k < |w.fired| && Ids(w.fired)[k] == id;
        assert w.fired[k] in w.fired;
        var j :| 0 <= j < |s.sent| && s.sent[j] == w.fired[k];
      }
    }
    forall id | id in IdsOf(w.fired, call) ensures id in IdsOf(s.sent, call) {
      var k :| 0 <= k < |w.fired| && w.fired[k].waiter.call == call && w.fired[k].id == id;
      assert w.fired[k] in w.fired;
      var j :| 0 <= j < |s.sent| && s.sent[j] == w.fired[k];
    }
  }

  /** In every run in which the broker answers each id once and no other call uses the ids of this
      one: when the call stops waiting, it has one status for each distinct id that it sent. */
  lemma OneStatusPerId<T>(first: nat, events: seq<Event<T>>, call: nat)
    requires Distinct(Answered(Start<T>(first), events)) && OwnIds(Run(Start<T>(first), events).sent, call)
    requires Released(Run(Start<T>(first), events), call)
    ensures CountOf(Run(Start<T>(first), events).waiters.fired, call)
         == |IdsOf(Run(Start<T>(first), events).sent, call)|
  {
    var s := Run(Start<T>(first), events);
    RunTraces(Start<T>(first), events);
    RunAccounts(Start<T>(first), events, call);
    ReleasedIdsFired(s, call);
    AnsweredIsRouted(first, events);
    FiredOnce(s, multiset(Answered(Start<T>(first), events)));
    DistinctCountOf(s.waiters.fired, call);
  }

  lemma FiredOnce<T>(s: State<T>, answered: multiset<Id>)
    requires Routed(s, answered) && Once(answered)
    ensures Distinct(Ids(s.waiters.fired))
  {
    forall id: Id ensures multiset(Ids(s.waiters.fired))[id] <= 1 {
      AnsweredCounts(s, answered, id);
    }
    DistinctIsOnce(Ids(s.waiters.fired));
  }

  // ----- The end of the wait -----

  /** No message of the call is published before all that it sends, `total` messages, have a waiter. */
  ghost predicate RegistersFirst<T>(s: State<T>, events: seq<Event<T>>, call: nat, total: nat)
    decreases |events|
  {
    events != [] ==>
      && (events[0].Publish? && events[0].id in s.wire.ready && events[0].id in IdsOf(s.sent, call) ==>
            CountOf(s.waiters.inserted, call) == total)
      && RegistersFirst(Step(s, events[0]), events[1..], call, total)
  }

  /** Ids that have left for the broker. */
  function Gone<T>(s: State<T>): multiset<Id> {
    s.wire.atBroker + FrameIds(s.wire.frames) + multiset(Ids(s.waiters.fired))
  }

  /** The ids of a call: once fired they wait no more, and none leaves before the call has registered all
      that it sends. */
  ghost predicate Settling<T>(s: State<T>, call: nat, total: nat) {
    forall id | id in IdsOf(s.sent, call) ::
      && (id in Ids(s.waiters.fired) ==> id !in s.waiters.waiting)
      && (CountOf(s.waiters.inserted, call) < total ==> id !in Gone(s))
  }

  /** All of it, for a call that shares its ids with no other and sends at most `total` messages. */
  ghost predicate BatchInv<T>(s: State<T>, call: nat, total: nat, answered: multiset<Id>) {
    && Traced(s) && Accounted(s, call) && Routed(s, answered) && Settling(s, call, total)
    && OwnIds(s.sent, call) && CountOf(s.sent, call) <= total
  }

  /** A registered id that the call has now sent is one that it had sent before. */
  lemma KnownIsOwn<T>(s: State<T>, e: Entry<T>, call: nat, id: Id)
    requires Traced(s) && OwnIds(s.sent + [e], call) && id in IdsOf(s.sent + [e], call)
    requires id in Ids(s.waiters.inserted)
    ensures id in IdsOf(s.sent, call)
  {
    var k :| 0 <= k < |s.waiters.inserted| && Ids(s.waiters.inserted)[k] == id;
    assert s.waiters.inserted[k] in s.sent;
    var j :| 0 <= j < |s.sent| && s.sent[j] == s.waiters.inserted[k];
    assert (s.sent + [e])[j] == s.sent[j];
    var i :| 0 <= i < |s.sent + [e]| && (s.sent + [e])[i].waiter.call == call && (s.sent + [e])[i].id == id;
  }

  lemma GoneIsRegistered<T>(s: State<T>, answered: multiset<Id>, id: Id)
    requires Routed(s, answered) && id in Gone(s)
    ensures id in Ids(s.waiters.inserted)
  {
  }

  lemma AllocateSettles<T>(s: State<T>, e: Event<T>, call: nat, total: nat, answered: multiset<Id>)
    requires BatchInv(s, call, total, answered) && e.Allocate? && e.call !in s.returned
    requires OwnIds(Step(s, e).sent, call)
    ensures Settling(Step(s, e), call, total)
  {
    var s' := Step(s, e);
    var added := s'.sent[|s.sent|];
    forall id | id in IdsOf(s'.sent, call) && id in Gone(s)
      ensures id in IdsOf(s.sent, call)
    {
      GoneIsRegistered(s, answered, id);
      KnownIsOwn(s, added, call, id);
    }
  }

  lemma InsertSettles<T>(s: State<T>, i: nat, call: nat, total: nat, answered: multiset<Id>)
    requires BatchInv(s, call, total, answered) && i < |s.numbered|
    ensures Settling(Step(s, Insert(i)), call, total)
  {
    var e := s.numbered[i];
    CountOfAppend(s.waiters.inserted, e, call);
    assert e in s.sent;
    if e.id in IdsOf(s.sent, call) {
      assert e.waiter.call == call;
      CountOfNone(s.numbered, call);
      assert CountOf(s.waiters.inserted, call) < total;
      assert e.id !in Gone(s);
    }
  }

  lemma PublishSettles<T>(s: State<T>, id: Id, call: nat, total: nat)
    requires Settling(s, call, total) && id in s.wire.ready
    requires id in IdsOf(s.sent, call) ==> CountOf(s.waiters.inserted, call) == total
    ensures Settling(Step(s, Publish(id)), call, total)
  {
  }

  lemma AnswerSettles<T>(s: State<T>, e: Event<T>, call: nat, total: nat)
    requires Settling(s, call, total) && e.Answer? && multiset(e.ids) <= s.wire.atBroker
    ensures Settling(Step(s, e), call, total)
  {
    AnswerAnswers(s, e.ids, e.confirmed);
    assert Gone(Step(s, e)) == Gone(s);
  }

  lemma FireSettles<T>(s: State<T>, i: nat, call: nat, total: nat)
    requires Settling(s, call, total) && i < |s.wire.frames| && s.wire.frames[i].ids != []
    requires s.wire.frames[i].ids[0] in s.waiters.waiting
    ensures Settling(HandleFirst(s, i), call, total)
  {
    FireMoves(s, i);
    assert Gone(HandleFirst(s, i)) == Gone(s);
  }

  lemma StepSettles<T>(s: State<T>, e: Event<T>, call: nat, total: nat, answered: multiset<Id>)
    requires BatchInv(s, call, total, answered) && Once(answered) && OwnIds(Step(s, e).sent, call)
    requires e.Publish? && e.id in s.wire.ready && e.id in IdsOf(s.sent, call) ==>
            CountOf(s.waiters.inserted, call) == total
    ensures Settling(Step(s, e), call, total)
  {
    match e
    case Allocate(c, _, _) => if c !in s.returned { AllocateSettles(s, e, call, total, answered); }
    case Insert(i) => if i < |s.numbered| { InsertSettles(s, i, call, total, answered); }
    case Publish(id) => if id in s.wire.ready { PublishSettles(s, id, call, total); }
    case Answer(ids, _) => if multiset(ids) <= s.wire.atBroker { AnswerSettles(s, e, call, total); }
    case Handle(i) =>
      if i < |s.wire.frames| && s.wire.frames[i].ids != [] {
        HandleSettles(s, i, call, total, answered);
      }
    case Return(_) => ReturnSettles(s, e, call, total);
  }

  lemma HandleSettles<T>(s: State<T>, i: nat, call: nat, total: nat, answered: multiset<Id>)
    requires BatchInv(s, call, total, answered) && Once(answered)
    requires i < |s.wire.frames| && s.wire.frames[i].ids != []
    ensures Settling(HandleFirst(s, i), call, total)
  {
    AnswerFindsWaiter(s, i, answered);
    FireSettles(s, i, call, total);
  }

  lemma ReturnSettles<T>(s: State<T>, e: Event<T>, call: nat, total: nat)
    requires Settling(s, call, total) && e.Return?
    ensures Settling(Step(s, e), call, total)
  {
  }

  lemma StepKeepsBatch<T>(s: State<T>, e: Event<T>, call: nat, total: nat, answered: multiset<Id>)
    requires BatchInv(s, call, total, answered) && Once(answered)
    requires OwnIds(Step(s, e).sent, call) && CountOf(Step(s, e).sent, call) <= total
    requires e.Publish? && e.id in s.wire.ready && e.id in IdsOf(s.sent, call) ==>
            CountOf(s.waiters.inserted, call) == total
    ensures BatchInv(Step(s, e), call, total, answered + multiset(AnsweredBy(s, e)))
  {
    StepTraces(s, e);
    StepAccounts(s, e, call);
    StepRoutes(s, e, answered);
    StepSettles(s, e, call, total, answered);
  }

  /** What is sent grows. */
  lemma {:induction false} SentGrows<T>(s: State<T>, events: seq<Event<T>>)
    ensures s.sent <= Run(s, events).sent
    decreases |events|
  {
    if events != [] {
      SentGrows(Step(s, events[0]), events[1..]);
    }
  }

  lemma BeforeTheEnd<T>(s: State<T>, events: seq<Event<T>>, call: nat)
    requires OwnIds(Run(s, events).sent, call)
    ensures OwnIds(s.sent, call) && CountOf(s.sent, call) <= CountOf(Run(s, events).sent, call)
  {
    SentGrows(s, events);
    var all := Run(s, events).sent;
    assert forall i | 0 <= i < |s.sent| :: s.sent[i] == all[i];
    assert all == s.sent + all[|s.sent|..];
    CountOfJoin(s.sent, all[|s.sent|..], call);
  }

  lemma {:induction false} RunKeepsBatch<T>(s: State<T>, events: seq<Event<T>>, call: nat, total: nat,
                                            answered: multiset<Id>)
    requires BatchInv(s, call, total, answered)
    requires OwnIds(Run(s, events).sent, call) && CountOf(Run(s, events).sent, call) <= total
    requires RegistersFirst(s, events, call, total) && Once(answered + multiset(Answered(s, events)))
    ensures BatchInv(Run(s, events), call, total, answered + multiset(Answered(s, events)))
    decreases |events|
  {
    OncePart(answered, multiset(Answered(s, events)));
    if events == [] {
      assert answered + multiset{} == answered;
    } else {
      var next, now := Step(s, events[0]), AnsweredBy(s, events[0]);
      AnsweredNext(answered, now, Answered(next, events[1..]));
      BeforeTheEnd(next, events[1..], call);
      StepKeepsBatch(s, events[0], call, total, answered);
      RunKeepsBatch(next, events[1..], call, total, answered + multiset(now));
    }
  }

  /** All ids of the call have been answered, and their frames handled. */
  ghost predicate AllHandled<T>(s: State<T>, call: nat, answered: multiset<Id>) {
    forall id | id in IdsOf(s.sent, call) :: id in answered && id !in FrameIds(s.wire.frames)
  }

  lemma ReleasedIsHandled<T>(s: State<T>, call: nat, total: nat, answered: multiset<Id>)
    requires BatchInv(s, call, total, answered) && Released(s, call) && Once(answered)
    ensures AllHandled(s, call, answered)
  {
    ReleasedIdsFired(s, call);
    forall id | id in IdsOf(s.sent, call) ensures id in answered && id !in FrameIds(s.wire.frames) {
      var k :| 0 <= k < |s.waiters.fired| && s.waiters.fired[k].id == id;
      assert Ids(s.waiters.fired)[k] == id;
      AnsweredCounts(s, answered, id);
    }
  }

  lemma HandledIsReleased<T>(s: State<T>, call: nat, total: nat, answered: multiset<Id>)
    requires BatchInv(s, call, total, answered) && call in s.returned && AllHandled(s, call, answered)
    ensures Released(s, call)
  {
    forall id | id in s.waiters.waiting ensures s.waiters.waiting[id].call == call ==> id in IdsOf(s.sent, call) {
      var k :| 0 <= k < |s.sent| && s.sent[k] == Entry(id, s.waiters.waiting[id]);
    }
    forall id | id in IdsOf(s.sent, call) ensures id !in s.waiters.waiting {
      AnsweredCounts(s, answered, id);
      assert id in multiset(Ids(s.waiters.fired));
    }
  }

  lemma EndOfRun<T>(first: nat, events: seq<Event<T>>, call: nat)
    requires Distinct(Answered(Start<T>(first), events)) && OwnIds(Run(Start<T>(first), events).sent, call)
    requires RegistersFirst(Start<T>(first), events, call, CountOf(Run(Start<T>(first), events).sent, call))
    ensures var s, answered := Run(Start<T>(first), events), multiset(Answered(Start<T>(first), events));
            BatchInv(s, call, CountOf(s.sent, call), answered) && Once(answered)
  {
    var s0 := Start<T>(first);
    DistinctIsOnce(Answered(s0, events));
    assert multiset{} + multiset(Answered(s0, events)) == multiset(Answered(s0, events));
    StartRoutes<T>(first);
    RunKeepsBatch(s0, events, call, CountOf(Run(s0, events).sent, call), multiset{});
  }

  /** In every run in which the broker answers each id once, for a call that shares its ids with no other
      and registers all its messages before it publishes any: once the call has returned, its receiver
      stops waiting exactly when each of its ids has been answered and handled, however often an id
      occurs in the batch. It has then got one status for each distinct id. */
  lemma RepeatedIdsEndTheWait<T>(first: nat, events: seq<Event<T>>, call: nat)
    requires Distinct(Answered(Start<T>(first), events)) && OwnIds(Run(Start<T>(first), events).sent, call)
    requires RegistersFirst(Start<T>(first), events, call, CountOf(Run(Start<T>(first), events).sent, call))
    requires call in Run(Start<T>(first), events).returned
    ensures var s := Run(Start<T>(first), events);
            && (Released(s, call) <==> AllHandled(s, call, multiset(Answered(Start<T>(first), events))))
            && (Released(s, call) ==> CountOf(s.waiters.fired, call) == |IdsOf(s.sent, call)|)
  {
    var s, answered := Run(Start<T>(first), events), multiset(Answered(Start<T>(first), events));
    EndOfRun(first, events, call);
    if Released(s, call) {
      ReleasedIsHandled(s, call, CountOf(s.sent, call), answered);
      OneStatusPerId(first, events, call);
    }
    if AllHandled(s, call, answered) {
      HandledIsReleased(s, call, CountOf(s.sent, call), answered);
    }
  }
}
