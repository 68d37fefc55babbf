/** What the callers of a producer can rely on (src/producer.rs): which callbacks fire, when a batch
    stops waiting for its statuses, and how many it gets. */
module Statuses {
  import opened Sequences
  import opened Confirms

  // ----- What was sent -----

  lemma {:induction false} CountOfJoin<T>(a: seq<Entry<T>>, b: seq<Entry<T>>, call: nat)
    ensures CountOf(a + b, call) == CountOf(a, call) + CountOf(b, call)
  {
    if b == [] {
      assert a + b == a;
    } else {
      assert a + b == (a + b[..|b| - 1]) + [b[|b| - 1]];
      CountOfAppend(a + b[..|b| - 1], b[|b| - 1], call);
      CountOfJoin(a, b[..|b| - 1], call);
    }
  }

  lemma CountOfWithout<T>(es: seq<Entry<T>>, i: nat, call: nat)
    requires i < |es|
    ensures CountOf(es, call) == CountOf(Without(es, i), call) + if es[i].waiter.call == call then 1 else 0
  {
    assert es == (es[..i] + [es[i]]) + es[i + 1..];
    CountOfJoin(es[..i] + [es[i]], es[i + 1..], call);
    CountOfAppend(es[..i], es[i], call);
    CountOfJoin(es[..i], es[i + 1..], call);
  }

  lemma {:induction false} CountOfNone<T>(es: seq<Entry<T>>, call: nat)
    ensures CountOf(es, call) == 0 <==> forall i | 0 <= i < |es| :: es[i].waiter.call != call
  {
    if es != [] {
      CountOfNone(es[..|es| - 1], call);
      assert forall i | 0 <= i < |es| - 1 :: es[i] == es[..|es| - 1][i];
    }
  }

  /** What a call sent is numbered or has a waiter registered, and once the call has returned it is
      all registered. */
  ghost predicate Accounted<T>(s: State<T>, call: nat) {
    && CountOf(s.sent, call) == CountOf(s.waiters.inserted, call) + CountOf(s.numbered, call)
    && (call in s.returned ==> CountOf(s.numbered, call) == 0)
  }

  lemma StepAccounts<T>(s: State<T>, e: Event<T>, call: nat)
    requires Accounted(s, call)
    ensures Accounted(Step(s, e), call)
  {
    match e
    case Allocate(c, message, chosen) =>
      if c !in s.returned {
        var next := Step(s, e);
        CountOfAppend(s.sent, next.sent[|s.sent|], call);
        CountOfAppend(s.numbered, next.sent[|s.sent|], call);
      }
    case Insert(i) =>
      if i < |s.numbered| {
        CountOfWithout(s.numbered, i, call);
        CountOfAppend(s.waiters.inserted, s.numbered[i], call);
      }
    case Return(c) => CountOfNone(s.numbered, call);
    case _ =>
  }

  lemma {:induction false} RunAccounts<T>(s: State<T>, events: seq<Event<T>>, call: nat)
    requires Accounted(s, call)
    ensures Accounted(Run(s, events), call)
    decreases |events|
  {
    if events != [] {
      StepAccounts(s, events[0], call);
      RunAccounts(Step(s, events[0]), events[1..], call);
    }
  }

  // ----- The end of a batch -----

  /** No reference to the callback of the call is left: the call has returned, and no waiter holds
      one. The receiver of its statuses then gets no more, and stops waiting. */
  predicate Released<T>(s: State<T>, call: nat) {
    call in s.returned && WaitingOf(s.waiters.waiting, call) == {}
  }

  /** In every run, the receiver of a call stops waiting exactly when the call has returned and
      everything it sent has fired or was overwritten. */
  lemma BatchEndsExactly<T(!new)>(first: nat, events: seq<Event<T>>, call: nat)
    ensures var s := Run(Start<T>(first), events);
            var w := s.waiters;
            Released(s, call) <==>
            call in s.returned && CountOf(w.fired, call) + CountOf(w.overwritten, call) == CountOf(s.sent, call)
  {
    StartConserved<T>(first, call);
    RunConserves(Start<T>(first), events, call);
    RunAccounts(Start<T>(first), events, call);
  }

  /** What the call got is then all that it ever gets. */
  lemma {:induction false} RunKeepsReleased<T>(s: State<T>, events: seq<Event<T>>, call: nat)
    requires Accounted(s, call) && Released(s, call)
    ensures Released(Run(s, events), call)
    ensures CountOf(Run(s, events).waiters.fired, call) == CountOf(s.waiters.fired, call)
    decreases |events|
  {
    if events != [] {
      var e, next := events[0], Step(s, events[0]);
      StepAccounts(s, e, call);
      StepKeepsReleased(s, e, call);
      RunKeepsReleased(next, events[1..], call);
    }
  }

  lemma StepKeepsReleased<T>(s: State<T>, e: Event<T>, call: nat)
    requires Accounted(s, call) && Released(s, call)
    ensures Released(Step(s, e), call) && CountOf(Step(s, e).waiters.fired, call) == CountOf(s.waiters.fired, call)
  {
    var next := Step(s, e);
    CountOfNone(s.numbered, call);
    assert next.waiters.waiting != s.waiters.waiting ==> e.Insert? || e.Handle?;
    if e.Handle? && next.waiters != s.waiters {
      var id := s.wire.frames[e.frame].ids[0];
      assert s.waiters.waiting[id].call == call ==> id in WaitingOf(s.waiters.waiting, call);
      CountOfAppend(s.waiters.fired, Entry(id, s.waiters.waiting[id]), call);
    }
    assert WaitingOf(next.waiters.waiting, call) <= WaitingOf(s.waiters.waiting, call);
  }

  lemma BatchEndIsFinal<T>(first: nat, events: seq<Event<T>>, more: seq<Event<T>>, call: nat)
    requires Released(Run(Start<T>(first), events), call)
    ensures var s := Run(Start<T>(first), events);
            Released(Run(s, more), call) && CountOf(Run(s, more).waiters.fired, call) == CountOf(s.waiters.fired, call)
  {
    RunAccounts(Start<T>(first), events, call);
    RunKeepsReleased(Run(Start<T>(first), events), more, call);
  }

  // ----- Different ids -----

  function Ids<T>(es: seq<Entry<T>>): (r: seq<Id>)
    ensures |r| == |es| && forall i | 0 <= i < |es| :: r[i] == es[i].id
  {
    seq(|es|, i requires 0 <= i < |es| => es[i].id)
  }

  lemma IdsAppend<T>(es: seq<Entry<T>>, e: Entry<T>)
    ensures multiset(Ids(es + [e])) == multiset(Ids(es)) + multiset{e.id}
  {
    assert Ids(es + [e]) == Ids(es) + [e.id];
  }

  lemma IdsWithout<T>(es: seq<Entry<T>>, i: nat)
    requires i < |es|
    ensures multiset(Ids(es)) == multiset(Ids(Without(es, i))) + multiset{es[i].id}
  {
    assert Ids(es) == Ids(es)[..i] + [es[i].id] + Ids(es)[i + 1..];
    assert Ids(Without(es, i)) == Ids(es)[..i] + Ids(es)[i + 1..];
  }

  lemma {:induction false} DistinctIsOnce(ids: seq<Id>)
    ensures Distinct(ids) <==> forall id :: multiset(ids)[id] <= 1
  {
    if forall id :: multiset(ids)[id] <= 1 {
      forall i, j | 0 <= i < j < |ids| ensures ids[i] != ids[j] {
        assert ids == ids[..j] + [ids[j]] + ids[j + 1..];
        assert ids[..j][i] == ids[i];
        assert multiset(ids) == multiset(ids[..j]) + multiset{ids[j]} + multiset(ids[j + 1..]);
        assert ids[i] in multiset(ids[..j]);
        assert multiset(ids)[ids[j]] <= 1;
      }
    }
    if Distinct(ids) && ids != [] {
      var last := |ids| - 1;
      assert ids == ids[..last] + [ids[last]];
      DistinctIsOnce(ids[..last]);
      assert ids[last] !in ids[..last];
    }
  }

  /** Ids that were sent are numbered or registered; registered ones wait, have fired or were
      overwritten, and an overwritten one was registered twice. */
  ghost predicate IdsConserved<T>(s: State<T>) {
    var w := s.waiters;
    && multiset(Ids(s.sent)) == multiset(Ids(s.numbered)) + multiset(Ids(w.inserted))
    && multiset(Ids(w.inserted)) == multiset(w.waiting.Keys) + multiset(Ids(w.fired)) + multiset(Ids(w.overwritten))
    && forall id | id in Ids(w.overwritten) :: multiset(Ids(w.inserted))[id] >= 2
  }

  lemma RegisterConservesIds<T>(w: Waiters<T>, e: Entry<T>)
    requires multiset(Ids(w.inserted))
         == multiset(w.waiting.Keys) + multiset(Ids(w.fired)) + multiset(Ids(w.overwritten))
    requires forall id | id in Ids(w.overwritten) :: multiset(Ids(w.inserted))[id] >= 2
    ensures var r := Register(w, e);
            && multiset(Ids(r.inserted))
               == multiset(r.waiting.Keys) + multiset(Ids(r.fired)) + multiset(Ids(r.overwritten))
            && forall id | id in Ids(r.overwritten) :: multiset(Ids(r.inserted))[id] >= 2
  {
    IdsAppend(w.inserted, e);
    assert Register(w, e).waiting.Keys == w.waiting.Keys + {e.id};
    if e.id in w.waiting {
      IdsAppend(w.overwritten, Entry(e.id, w.waiting[e.id]));
      assert Ids(w.overwritten + [Entry(e.id, w.waiting[e.id])]) == Ids(w.overwritten) + [e.id];
      assert multiset(w.waiting.Keys)[e.id] == 1;
    }
  }

  lemma FireConservesIds<T>(w: Waiters<T>, id: Id)
    requires id in w.waiting
    ensures multiset(w.waiting.Keys) + multiset(Ids(w.fired))
         == multiset(Fire(w, id).waiting.Keys) + multiset(Ids(Fire(w, id).fired))
  {
    IdsAppend(w.fired, Entry(id, w.waiting[id]));
    assert Fire(w, id).waiting.Keys == w.waiting.Keys - {id};
  }

  lemma AllocateConservesIds<T>(s: State<T>, e: Event<T>)
    requires IdsConserved(s) && e.Allocate? && e.call !in s.returned
    ensures IdsConserved(Step(s, e))
  {
    var added := Step(s, e).sent[|s.sent|];
    IdsAppend(s.sent, added);
    IdsAppend(s.numbered, added);
  }

  lemma InsertConservesIds<T>(s: State<T>, i: nat)
    requires IdsConserved(s) && i < |s.numbered|
    ensures IdsConserved(Step(s, Insert(i)))
  {
    IdsWithout(s.numbered, i);
    IdsAppend(s.waiters.inserted, s.numbered[i]);
    RegisterConservesIds(s.waiters, s.numbered[i]);
  }

  lemma StepConservesIds<T>(s: State<T>, e: Event<T>)
    requires IdsConserved(s)
    ensures IdsConserved(Step(s, e))
  {
    match e
    case Allocate(call, _, _) => if call !in s.returned { AllocateConservesIds(s, e); }
    case Insert(i) => if i < |s.numbered| { InsertConservesIds(s, i); }
    case Handle(i) =>
      if i < |s.wire.frames| && s.wire.frames[i].ids != [] && s.wire.frames[i].ids[0] in s.waiters.waiting {
        FireConservesIds(s.waiters, s.wire.frames[i].ids[0]);
      }
    case _ =>
  }

  lemma {:induction false} RunConservesIds<T>(s: State<T>, events: seq<Event<T>>)
    requires IdsConserved(s)
    ensures IdsConserved(Run(s, events))
    decreases |events|
  {
    if events != [] {
      StepConservesIds(s, events[0]);
      RunConservesIds(Step(s, events[0]), events[1..]);
    }
  }

  lemma StartConservesIds<T>(first: nat)
    ensures IdsConserved(Start<T>(first))
  {
  }

  lemma OverwrittenIsTwice<T>(s: State<T>)
    requires IdsConserved(s) && s.waiters.overwritten != []
    ensures !Distinct(Ids(s.waiters.inserted))
  {
    var id := s.waiters.overwritten[0].id;
    assert Ids(s.waiters.overwritten)[0] == id;
    assert multiset(Ids(s.waiters.inserted))[id] >= 2;
    DistinctIsOnce(Ids(s.waiters.inserted));
  }

  lemma DistinctOverwriteNothing<T>(s: State<T>)
    requires IdsConserved(s) && Distinct(Ids(s.waiters.inserted))
    ensures s.waiters.overwritten == [] && Distinct(Ids(s.waiters.fired))
    ensures forall id | id in Ids(s.waiters.fired) :: id !in s.waiters.waiting
  {
    var w := s.waiters;
    if w.overwritten != [] {
      OverwrittenIsTwice(s);
    }
    DistinctIsOnce(Ids(w.inserted));
    DistinctIsOnce(Ids(w.fired));
    assert forall id :: multiset(Ids(w.fired))[id] <= multiset(Ids(w.inserted))[id];
    forall id | id in Ids(w.fired) ensures id !in w.waiting {
      assert multiset(Ids(w.inserted))[id] >= multiset(w.waiting.Keys)[id] + multiset(Ids(w.fired))[id];
    }
  }

  /** Messages sent with different ids are registered with different ids. */
  lemma DistinctWhenSent<T>(first: nat, events: seq<Event<T>>)
    ensures var s := Run(Start<T>(first), events);
            Distinct(Ids(s.sent)) ==> Distinct(Ids(s.waiters.inserted))
  {
    StartConservesIds<T>(first);
    RunConservesIds(Start<T>(first), events);
    var s := Run(Start<T>(first), events);
    DistinctIsOnce(Ids(s.sent));
    DistinctIsOnce(Ids(s.waiters.inserted));
    assert forall id :: multiset(Ids(s.waiters.inserted))[id] <= multiset(Ids(s.sent))[id];
  }

  /** In every run in which waiters are registered under different ids, chosen or assigned: no answer
      misses its waiter, the registered waiters are those waiting and those that fired, and no id
      is among both or fires twice. */
  lemma DistinctIdsAreSafe<T(!new)>(first: nat, events: seq<Event<T>>)
    requires Distinct(Ids(Run(Start<T>(first), events).waiters.inserted))
    ensures var s := Run(Start<T>(first), events);
            var w := s.waiters;
            && s.wire.panics == 0 && s.wire.abandoned == multiset{}
            && multiset(w.inserted) == multiset(Entries(w.waiting)) + multiset(w.fired)
            && Distinct(Ids(w.fired)) && forall id | id in Ids(w.fired) :: id !in w.waiting
  {
    StartConservesIds<T>(first);
    RunConservesIds(Start<T>(first), events);
    DistinctOverwriteNothing(Run(Start<T>(first), events));
    WaitersAreFound(first, events);
    CallbacksFireOnce(first, events);
  }

  /** Then a call that has stopped waiting got one status for each message it sent. */
  lemma DistinctIdsGetTheirStatus<T(!new)>(first: nat, events: seq<Event<T>>, call: nat)
    requires Distinct(Ids(Run(Start<T>(first), events).waiters.inserted))
    requires Released(Run(Start<T>(first), events), call)
    ensures CountOf(Run(Start<T>(first), events).waiters.fired, call)
         == CountOf(Run(Start<T>(first), events).sent, call)
  {
    StartConservesIds<T>(first);
    RunConservesIds(Start<T>(first), events);
    DistinctOverwriteNothing(Run(Start<T>(first), events));
    BatchEndsExactly(first, events, call);
  }

  // ----- Ids that the producer assigns -----

  predicate Automatic<T>(events: seq<Event<T>>) {
    forall i | 0 <= i < |events| :: events[i].Allocate? ==> events[i].chosen.None?
  }

  /** The next id is larger than all that were sent. */
  ghost predicate Fresh<T>(s: State<T>) {
    Distinct(Ids(s.sent)) && forall id | id in Ids(s.sent) :: id < s.sequence
  }

  lemma {:induction false} SequenceGrows<T>(s: State<T>, events: seq<Event<T>>)
    ensures s.sequence <= Run(s, events).sequence
    decreases |events|
  {
    if events != [] {
      SequenceGrows(Step(s, events[0]), events[1..]);
    }
  }

  lemma StepKeepsFresh<T>(s: State<T>, e: Event<T>)
    requires Fresh(s) && Step(s, e).sequence <= WORD && (e.Allocate? ==> e.chosen.None?)
    ensures Fresh(Step(s, e))
  {
    if e.Allocate? && e.call !in s.returned {
      var ids := Ids(Step(s, e).sent);
      assert s.sequence < WORD && ids[|s.sent|] == s.sequence;
      assert ids == Ids(s.sent) + [s.sequence];
      assert forall i | 0 <= i < |s.sent| :: ids[i] == Ids(s.sent)[i] && ids[i] in Ids(s.sent);
    }
  }

  lemma {:induction false} RunKeepsFresh<T>(s: State<T>, events: seq<Event<T>>)
    requires Fresh(s) && Run(s, events).sequence <= WORD && Automatic(events)
    ensures Fresh(Run(s, events))
    decreases |events|
  {
    if events != [] {
      SequenceGrows(Step(s, events[0]), events[1..]);
      StepKeepsFresh(s, events[0]);
      RunKeepsFresh(Step(s, events[0]), events[1..]);
    }
  }

  /** Ids that the producer assigns are different as long as the sequence does not wrap around. */
  lemma AutomaticIdsAreDistinct<T>(first: nat, events: seq<Event<T>>)
    requires Automatic(events) && Run(Start<T>(first), events).sequence <= WORD
    ensures Distinct(Ids(Run(Start<T>(first), events).sent))
    ensures Distinct(Ids(Run(Start<T>(first), events).waiters.inserted))
  {
    RunKeepsFresh(Start<T>(first), events);
    DistinctWhenSent(first, events);
  }

  /** So while the producer assigns the ids and does not run out of them, every answer finds its
      waiter, and every waiter is waiting or has fired, once and with its own message. */
  lemma AutomaticIdsAreSafe<T(!new)>(first: nat, events: seq<Event<T>>)
    requires Automatic(events) && Run(Start<T>(first), events).sequence <= WORD
    ensures var s := Run(Start<T>(first), events);
            && s.wire.panics == 0
            && multiset(s.waiters.inserted) == multiset(Entries(s.waiters.waiting)) + multiset(s.waiters.fired)
  {
    AutomaticIdsAreDistinct(first, events);
    DistinctIdsAreSafe(first, events);
  }

  // ----- Where registered ids come from -----

  /** Everything comes from what was sent, and a registered id waits or has fired. */
  ghost predicate Traced<T>(s: State<T>) {
    var w := s.waiters;
    && (forall e | e in s.numbered :: e in s.sent)
    && (forall e | e in w.inserted :: e in s.sent)
    && (forall e | e in w.fired :: e in s.sent)
    && (forall id | id in w.waiting :: Entry(id, w.waiting[id]) in s.sent)
    && (forall e | e in s.sent :: e in s.numbered || e in w.inserted)
    && (forall e | e in w.inserted :: e.id in w.waiting || e.id in Ids(w.fired))
  }

  lemma InsertTraces<T>(s: State<T>, i: nat)
    requires Traced(s) && i < |s.numbered|
    ensures Traced(Step(s, Insert(i)))
  {
    var rest := Without(s.numbered, i);
    assert forall k | 0 <= k < |rest| :: rest[k] in s.numbered;
    forall e | e in s.numbered && e != s.numbered[i] ensures e in rest {
      var k :| 0 <= k < |s.numbered| && s.numbered[k] == e;
      assert rest[if k < i then k else k - 1] == e;
    }
  }

  lemma HandleTraces<T>(s: State<T>, i: nat)
    requires Traced(s) && i < |s.wire.frames| && s.wire.frames[i].ids != []
    ensures Traced(HandleFirst(s, i))
  {
    var w, id := s.waiters, s.wire.frames[i].ids[0];
    if id in w.waiting {
      assert Ids(Fire(w, id).fired) == Ids(w.fired) + [id];
    }
  }

  lemma StepTraces<T>(s: State<T>, e: Event<T>)
    requires Traced(s)
    ensures Traced(Step(s, e))
  {
    match e
    case Insert(i) => if i < |s.numbered| { InsertTraces(s, i); }
    case Handle(i) => if i < |s.wire.frames| && s.wire.frames[i].ids != [] { HandleTraces(s, i); }
    case _ =>
  }

  lemma {:induction false} RunTraces<T>(s: State<T>, events: seq<Event<T>>)
    requires Traced(s)
    ensures Traced(Run(s, events))
    decreases |events|
  {
    if events != [] {
      StepTraces(s, events[0]);
      RunTraces(Step(s, events[0]), events[1..]);
    }
  }

  /** The ids under which a call sent something. */
  function IdsOf<T>(es: seq<Entry<T>>, call: nat): set<Id> {
    set i | 0 <= i < |es| && es[i].waiter.call == call :: es[i].id
  }

  // ----- When a batch has been answered -----

  lemma {:induction false} Covers(ids: set<Id>, m: multiset<Id>)
    requires |m| == |ids| && forall id | id in ids :: id in m
    ensures m == multiset(ids)
  {
    if ids != {} {
      var id :| id in ids;
      var others := ids - {id};
      forall x | x in others ensures x in m - multiset{id} {
        assert x != id;
      }
      Covers(others, m - multiset{id});
      assert ids == others + {id};
    } else {
      assert m == multiset{};
    }
  }

  /** With different ids, an id is going to the broker, at the broker, or in a frame that is not handled,
      exactly as long as it has a waiter. */
  lemma LiveIsWaiting<T>(first: nat, events: seq<Event<T>>)
    requires Distinct(Ids(Run(Start<T>(first), events).waiters.inserted))
    ensures var s := Run(Start<T>(first), events); Live(s.wire) == multiset(s.waiters.waiting.Keys)
  {
    StartConservesIds<T>(first);
    RunConservesIds(Start<T>(first), events);
    var s := Run(Start<T>(first), events);
    DistinctOverwriteNothing(s);
    WaitersAreFound(first, events);
    RunKeepsInv(Start<T>(first), events);
    Covers(s.waiters.waiting.Keys, Live(s.wire));
  }

  lemma TracedRun<T>(first: nat, events: seq<Event<T>>)
    ensures Traced(Run(Start<T>(first), events))
  {
    RunTraces(Start<T>(first), events);
  }

  /** An id of a call that waits is one that the call sent, if ids are different. */
  lemma WaitingIsSent<T>(s: State<T>, call: nat, id: Id)
    requires Traced(s) && Distinct(Ids(s.sent)) && id in s.waiters.waiting
    ensures s.waiters.waiting[id].call == call <==> id in IdsOf(s.sent, call)
  {
    var k :| 0 <= k < |s.sent| && s.sent[k] == Entry(id, s.waiters.waiting[id]);
    forall i | 0 <= i < |s.sent| && s.sent[i].id == id ensures i == k {
      assert Ids(s.sent)[i] == Ids(s.sent)[k];
    }
  }

  /** In every run in which messages are sent with different ids: the receiver of a call that has
      returned stops waiting exactly when all its ids have been answered and handled, and then it
      has got one status for each. */
  lemma BatchEndsWhenAnswered<T(!new)>(first: nat, events: seq<Event<T>>, call: nat)
    requires var s := Run(Start<T>(first), events); Distinct(Ids(s.sent)) && call in s.returned
    ensures var s := Run(Start<T>(first), events);
            && (Released(s, call) <==> forall id | id in IdsOf(s.sent, call) :: id !in Live(s.wire))
            && (Released(s, call) ==> CountOf(s.waiters.fired, call) == CountOf(s.sent, call))
  {
    var s := Run(Start<T>(first), events);
    DistinctWhenSent(first, events);
    LiveIsWaiting(first, events);
    TracedRun(first, events);
    forall id | id in s.waiters.waiting
      ensures s.waiters.waiting[id].call == call <==> id in IdsOf(s.sent, call)
    {
      WaitingIsSent(s, call, id);
    }
    assert forall id :: id in Live(s.wire) <==> id in s.waiters.waiting;
    if Released(s, call) {
      DistinctIdsGetTheirStatus(first, events, call);
      forall id | id in IdsOf(s.sent, call) ensures id !in Live(s.wire) {
        assert id in s.waiters.waiting ==> id in WaitingOf(s.waiters.waiting, call);
      }
    }
  }
}
