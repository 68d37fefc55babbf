/** Publishing ids, waiters and confirmations (src/producer.rs): every step of sending, of the
    broker, and of the tasks that handle its frames, interleaved in any order. */
module Confirms {

  import opened Bytes
  import opened Sequences

  const WORD: nat := 0x1_0000_0000_0000_0000

  type Id = n: nat | n < WORD

  /** `call` stands for the callback of one send: all messages of a batch share it. */
  datatype Waiter<T> = Waiter(call: nat, message: T)

  /** A waiter under the id it was registered with. */
  datatype Entry<T> = Entry(id: Id, waiter: Waiter<T>)

  /** A confirmation or error frame, as the ids its handler has not looked at. */
  datatype Frame = Frame(ids: seq<Id>, confirmed: bool)

  datatype Event<T> =
    | Allocate(call: nat, message: T, chosen: Option<Id>)
    | Insert(index: nat)
    | Return(call: nat)
    | Publish(id: Id)
    | Answer(ids: seq<Id>, confirmed: bool)
    | Handle(frame: nat)

  /** The waiter map, and what was ever inserted into it, taken out to fire, or overwritten. */
  datatype Waiters<T> = Waiters(
    waiting: map<Id, Waiter<T>>, inserted: seq<Entry<T>>, fired: seq<Entry<T>>, overwritten: seq<Entry<T>>)

  /** Ids on their way: `ready` ones have a waiter and are going to the broker, `atBroker` ones are
      not answered, and those in `frames` are answered. `panics` counts answers for which no
      waiter was found, and `abandoned` holds the ids that the panicking handler had not looked
      at. */
  datatype Wire = Wire(
    ready: multiset<Id>, atBroker: multiset<Id>, frames: seq<Frame>, abandoned: multiset<Id>, panics: nat)

  /** `numbered` sends have an id but no waiter yet. `sent` is a history: all that were ever
      numbered. A call in `returned` has released its own reference to its callback. */
  datatype State<T> = State(
    sequence: nat, numbered: seq<Entry<T>>, sent: seq<Entry<T>>, returned: set<nat>, waiters: Waiters<T>, wire: Wire)

  /** The first id is that of the session: 0, or one more than the broker has stored. */
  function Start<T>(first: nat): State<T> {
    State(first, [], [], {}, Waiters(map[], [], [], []), Wire(multiset{}, multiset{}, [], multiset{}, 0))
  }

  /** Register a waiter. One already registered under the same id is dropped. */
  function Register<T>(w: Waiters<T>, e: Entry<T>): Waiters<T> {
    w.(waiting := w.waiting[e.id := e.waiter],
       inserted := w.inserted + [e],
       overwritten := if e.id in w.waiting then w.overwritten + [Entry(e.id, w.waiting[e.id])] else w.overwritten)
  }

  /** Take a waiter out and call its callback. */
  function Fire<T>(w: Waiters<T>, id: Id): Waiters<T>
    requires id in w.waiting
  {
    w.(waiting := w.waiting - {id}, fired := w.fired + [Entry(id, w.waiting[id])])
  }

  /** The frames once the first id of one of them is taken off. */
  function TakeFirst(fs: seq<Frame>, i: nat): seq<Frame>
    requires i < |fs| && fs[i].ids != []
  {
    fs[i := fs[i].(ids := fs[i].ids[1..])]
  }

  /** Look up the first id of a frame. Without a waiter, the handler panics and the rest of its
      frame is never looked at. */
  function HandleFirst<T>(s: State<T>, i: nat): State<T>
    requires i < |s.wire.frames| && s.wire.frames[i].ids != []
  {
    var wire, f := s.wire, s.wire.frames[i];
    if f.ids[0] in s.waiters.waiting then
      s.(waiters := Fire(s.waiters, f.ids[0]), wire := wire.(frames := TakeFirst(wire.frames, i)))
    else
      s.(wire := wire.(panics := wire.panics + 1, abandoned := wire.abandoned + multiset(f.ids[1..]),
                       frames := Without(wire.frames, i)))
  }

  /** The broker answers only ids that were published, each as often as it was published. */
  function Step<T>(s: State<T>, e: Event<T>): State<T> {
    match e
    case Allocate(call, message, chosen) =>
      var e := Entry(match chosen case Some(id) => id case None => s.sequence % WORD, Waiter(call, message));
      if call in s.returned then s
      else
        s.(sequence := if chosen.None? then s.sequence + 1 else s.sequence,
           numbered := s.numbered + [e], sent := s.sent + [e])
    case Insert(i) =>
      if i < |s.numbered| then
        s.(numbered := Without(s.numbered, i), waiters := Register(s.waiters, s.numbered[i]),
           wire := s.wire.(ready := s.wire.ready + multiset{s.numbered[i].id}))
      else s
    case Return(call) =>
      if exists i | 0 <= i < |s.numbered| :: s.numbered[i].waiter.call == call then s
      else s.(returned := s.returned + {call})
    case Publish(id) =>
      if id in s.wire.ready then
        s.(wire := s.wire.(ready := s.wire.ready - multiset{id}, atBroker := s.wire.atBroker + multiset{id}))
      else s
    case Answer(ids, confirmed) =>
      if multiset(ids) <= s.wire.atBroker then
        s.(wire := s.wire.(atBroker := s.wire.atBroker - multiset(ids),
                           frames := s.wire.frames + [Frame(ids, confirmed)]))
      else s
    case Handle(i) =>
      if i < |s.wire.frames| && s.wire.frames[i].ids != [] then HandleFirst(s, i) else s
  }

  function Run<T>(s: State<T>, events: seq<Event<T>>): State<T>
    decreases |events|
  {
    if events == [] then s else Run(Step(s, events[0]), events[1..])
  }

  // ----- Ids on their way -----

  function FrameIds(fs: seq<Frame>): multiset<Id> {
    if fs == [] then multiset{} else multiset(fs[0].ids) + FrameIds(fs[1..])
  }

  /** Ids that are or will be answered. */
  function Live(w: Wire): multiset<Id> {
    w.ready + w.atBroker + FrameIds(w.frames)
  }

  lemma {:induction false} FrameIdsJoin(a: seq<Frame>, b: seq<Frame>)
    ensures FrameIds(a + b) == FrameIds(a) + FrameIds(b)
  {
    if a == [] {
      assert a + b == b;
    } else {
      assert (a + b)[1..] == a[1..] + b;
      FrameIdsJoin(a[1..], b);
    }
  }

  lemma FrameIdsOne(f: Frame)
    ensures FrameIds([f]) == multiset(f.ids)
  {
    assert [f][1..] == [];
  }

  /** The ids of all frames but one, and of that one or of another in its place. */
  lemma FrameIdsAround(fs: seq<Frame>, i: nat, f: Frame)
    requires i < |fs|
    ensures FrameIds(fs) == FrameIds(Without(fs, i)) + multiset(fs[i].ids)
    ensures FrameIds(fs[i := f]) == FrameIds(Without(fs, i)) + multiset(f.ids)
  {
    FrameIdsBetween(fs[..i], f, fs[i + 1..]);
    FrameIdsBetween(fs[..i], fs[i], fs[i + 1..]);
    assert fs[i := f] == fs[..i] + ([f] + fs[i + 1..]);
    assert fs == fs[..i] + ([fs[i]] + fs[i + 1..]);
  }

  lemma FrameIdsBetween(a: seq<Frame>, f: Frame, b: seq<Frame>)
    ensures FrameIds(a + ([f] + b)) == FrameIds(a + b) + multiset(f.ids)
  {
    FrameIdsJoin(a, [f] + b);
    FrameIdsJoin([f], b);
    FrameIdsOne(f);
    FrameIdsJoin(a, b);
  }

  // ----- Waiters and answers -----

  /** Every waiter has an answer coming or abandoned. Answers exceed waiters by the waiters that
      were overwritten, except for those that already met no waiter. */
  ghost predicate Matched(ids: set<Id>, overwritten: nat, w: Wire) {
    && (forall id | id in ids :: id in Live(w) + w.abandoned)
    && |Live(w)| + |w.abandoned| + w.panics == |ids| + overwritten
    && (|w.abandoned| > 0 ==> w.panics > 0)
  }

  ghost predicate Inv<T>(s: State<T>) {
    Matched(s.waiters.waiting.Keys, |s.waiters.overwritten|, s.wire)
  }

  lemma InsertKeepsInv<T>(s: State<T>, i: nat)
    requires Inv(s) && i < |s.numbered|
    ensures Inv(Step(s, Insert(i)))
  {
    var s', id := Step(s, Insert(i)), s.numbered[i].id;
    assert Live(s'.wire) == Live(s.wire) + multiset{id};
    assert s'.waiters.waiting.Keys == s.waiters.waiting.Keys + {id};
  }

  lemma LiveWithoutFirst(w: Wire, i: nat)
    requires i < |w.frames| && w.frames[i].ids != []
    ensures Live(w) == Live(w.(frames := TakeFirst(w.frames, i))) + multiset{w.frames[i].ids[0]}
  {
    var f := w.frames[i];
    FrameIdsAround(w.frames, i, f.(ids := f.ids[1..]));
    assert f.ids == [f.ids[0]] + f.ids[1..];
  }

  lemma FireKeepsMatched(ids: set<Id>, overwritten: nat, w: Wire, i: nat)
    requires Matched(ids, overwritten, w) && i < |w.frames| && w.frames[i].ids != [] && w.frames[i].ids[0] in ids
    ensures Matched(ids - {w.frames[i].ids[0]}, overwritten, w.(frames := TakeFirst(w.frames, i)))
  {
    LiveWithoutFirst(w, i);
  }

  lemma PanicKeepsMatched(ids: set<Id>, overwritten: nat, w: Wire, i: nat)
    requires Matched(ids, overwritten, w) && i < |w.frames| && w.frames[i].ids != [] && w.frames[i].ids[0] !in ids
    ensures Matched(ids, overwritten, w.(panics := w.panics + 1, frames := Without(w.frames, i),
                                         abandoned := w.abandoned + multiset(w.frames[i].ids[1..])))
  {
    LiveWithoutFrame(w, i);
  }

  lemma LiveWithoutFrame(w: Wire, i: nat)
    requires i < |w.frames| && w.frames[i].ids != []
    ensures var f := w.frames[i];
            Live(w) == Live(w.(frames := Without(w.frames, i))) + multiset(f.ids[1..]) + multiset{f.ids[0]}
  {
    var f := w.frames[i];
    FrameIdsAround(w.frames, i, f);
    assert f.ids == [f.ids[0]] + f.ids[1..];
  }

  lemma HandleKeepsInv<T>(s: State<T>, i: nat)
    requires Inv(s) && i < |s.wire.frames| && s.wire.frames[i].ids != []
    ensures Inv(HandleFirst(s, i))
  {
    var waiting, id := s.waiters.waiting, s.wire.frames[i].ids[0];
    if id in waiting {
      FireKeepsMatched(waiting.Keys, |s.waiters.overwritten|, s.wire, i);
      assert (waiting - {id}).Keys == waiting.Keys - {id};
    } else {
      PanicKeepsMatched(waiting.Keys, |s.waiters.overwritten|, s.wire, i);
    }
  }

  lemma AnswerKeepsInv<T>(s: State<T>, ids: seq<Id>, confirmed: bool)
    requires Inv(s)
    ensures Inv(Step(s, Answer(ids, confirmed)))
  {
    if multiset(ids) <= s.wire.atBroker {
      AnsweredStaysLive(s.wire, ids, confirmed);
    }
  }

  lemma AnsweredStaysLive(w: Wire, ids: seq<Id>, confirmed: bool)
    requires multiset(ids) <= w.atBroker
    ensures Live(w.(atBroker := w.atBroker - multiset(ids), frames := w.frames + [Frame(ids, confirmed)])) == Live(w)
  {
    FrameIdsJoin(w.frames, [Frame(ids, confirmed)]);
    FrameIdsOne(Frame(ids, confirmed));
  }

  lemma PublishedStaysLive(w: Wire, id: Id)
    ensures id in w.ready ==>
            Live(w.(ready := w.ready - multiset{id}, atBroker := w.atBroker + multiset{id})) == Live(w)
  {
  }

  lemma PublishKeepsInv<T>(s: State<T>, id: Id)
    requires Inv(s)
    ensures Inv(Step(s, Publish(id)))
  {
    PublishedStaysLive(s.wire, id);
  }

  lemma CallsKeepWire<T>(s: State<T>, e: Event<T>)
    requires e.Allocate? || e.Return?
    ensures Step(s, e).waiters == s.waiters && Step(s, e).wire == s.wire
  {
  }

  lemma StepKeepsInv<T>(s: State<T>, e: Event<T>)
    requires Inv(s)
    ensures Inv(Step(s, e))
  {
    match e
    case Insert(i) => if i < |s.numbered| { InsertKeepsInv(s, i); }
    case Publish(id) => PublishKeepsInv(s, id);
    case Answer(ids, confirmed) => AnswerKeepsInv(s, ids, confirmed);
    case Handle(i) => if i < |s.wire.frames| && s.wire.frames[i].ids != [] { HandleKeepsInv(s, i); }
    case Allocate(_, _, _) => CallsKeepWire(s, e);
    case Return(_) => CallsKeepWire(s, e);
  }

  lemma {:induction false} RunKeepsInv<T>(s: State<T>, events: seq<Event<T>>)
    requires Inv(s)
    ensures Inv(Run(s, events))
    decreases |events|
  {
    if events != [] {
      StepKeepsInv(s, events[0]);
      RunKeepsInv(Step(s, events[0]), events[1..]);
    }
  }

  lemma {:induction false} CoveredIsSmaller(ids: set<Id>, m: multiset<Id>)
    requires forall id | id in ids :: id in m
    ensures |ids| <= |m|
  {
    if ids != {} {
      var id :| id in ids;
      CoveredIsSmaller(ids - {id}, m - multiset{id});
    }
  }

  /** In every run, no more answers panic than waiters were overwritten. So while no id is
      registered twice at a time, the waiter is always found. Once every id has been answered
      and handled, a panic has happened exactly when a waiter had been overwritten. */
  lemma WaitersAreFound<T>(first: nat, events: seq<Event<T>>)
    ensures var s := Run(Start<T>(first), events);
            var w := s.wire;
            && w.panics <= |s.waiters.overwritten|
            && (Live(w) == multiset{} ==> (w.panics > 0 <==> s.waiters.overwritten != []))
            && (s.waiters.overwritten == [] ==>
                w.abandoned == multiset{} && forall id | id in s.waiters.waiting :: id in Live(w))
  {
    RunKeepsInv(Start<T>(first), events);
    var s := Run(Start<T>(first), events);
    CoveredIsSmaller(s.waiters.waiting.Keys, Live(s.wire) + s.wire.abandoned);
  }

  // ----- Callbacks -----

  /** How many entries belong to one call. */
  function CountOf<T>(es: seq<Entry<T>>, call: nat): nat {
    if es == [] then 0 else (if es[|es| - 1].waiter.call == call then 1 else 0) + CountOf(es[..|es| - 1], call)
  }

  lemma CountOfAppend<T>(es: seq<Entry<T>>, e: Entry<T>, call: nat)
    ensures CountOf(es + [e], call) == CountOf(es, call) + if e.waiter.call == call then 1 else 0
  {
    assert (es + [e])[..|es|] == es;
  }

  /** The waiters that hold a reference to the callback of a call. */
  function WaitingOf<T>(waiting: map<Id, Waiter<T>>, call: nat): set<Id> {
    set id | id in waiting && waiting[id].call == call
  }

  ghost function Entries<T(!new)>(waiting: map<Id, Waiter<T>>): set<Entry<T>> {
    set id | id in waiting :: Entry(id, waiting[id])
  }

  lemma InEntries<T(!new)>(waiting: map<Id, Waiter<T>>, e: Entry<T>)
    ensures e in Entries(waiting) <==> e.id in waiting && waiting[e.id] == e.waiter
  {
    if e.id in waiting {
      assert Entry(e.id, waiting[e.id]) in Entries(waiting);
    }
  }

  lemma EntriesWithout<T(!new)>(waiting: map<Id, Waiter<T>>, id: Id)
    requires id in waiting
    ensures multiset(Entries(waiting)) == multiset(Entries(waiting - {id})) + multiset{Entry(id, waiting[id])}
  {
    var e := Entry(id, waiting[id]);
    forall x: Entry<T> ensures x in Entries(waiting) <==> x in Entries(waiting - {id}) + {e} {
      InEntries(waiting, x);
      InEntries(waiting - {id}, x);
    }
    InEntries(waiting - {id}, e);
    assert Entries(waiting) == Entries(waiting - {id}) + {e};
  }

  lemma EntriesWith<T(!new)>(waiting: map<Id, Waiter<T>>, e: Entry<T>)
    ensures multiset(Entries(waiting[e.id := e.waiter])) == multiset(Entries(waiting - {e.id})) + multiset{e}
  {
    var waiting' := waiting[e.id := e.waiter];
    EntriesWithout(waiting', e.id);
    assert waiting' - {e.id} == waiting - {e.id};
  }

  /** Every waiter that was registered is waiting, has fired, or was overwritten, and only one of
      these, with its own callback and message. */
  ghost predicate Conserved<T(!new)>(w: Waiters<T>) {
    multiset(w.inserted) == multiset(Entries(w.waiting)) + multiset(w.fired) + multiset(w.overwritten)
  }

  /** The same for the callbacks of one call. */
  ghost predicate Counted<T>(w: Waiters<T>, call: nat) {
    CountOf(w.inserted, call) == |WaitingOf(w.waiting, call)| + CountOf(w.fired, call) + CountOf(w.overwritten, call)
  }

  lemma RegisterConserves<T(!new)>(w: Waiters<T>, e: Entry<T>)
    requires Conserved(w)
    ensures Conserved(Register(w, e))
  {
    EntriesWith(w.waiting, e);
    if e.id in w.waiting {
      EntriesWithout(w.waiting, e.id);
    } else {
      assert w.waiting - {e.id} == w.waiting;
    }
  }

  lemma RegisterCounts<T>(w: Waiters<T>, e: Entry<T>, call: nat)
    requires Counted(w, call)
    ensures Counted(Register(w, e), call)
  {
    CountOfAppend(w.inserted, e, call);
    var before := WaitingOf(w.waiting, call);
    assert WaitingOf(Register(w, e).waiting, call)
         == if e.waiter.call == call then before + {e.id} else before - {e.id};
    if e.id in w.waiting {
      CountOfAppend(w.overwritten, Entry(e.id, w.waiting[e.id]), call);
      assert e.id in before <==> w.waiting[e.id].call == call;
    } else {
      assert e.id !in before;
    }
  }

  lemma FireConserves<T(!new)>(w: Waiters<T>, id: Id, call: nat)
    requires id in w.waiting
    ensures Conserved(w) ==> Conserved(Fire(w, id))
    ensures Counted(w, call) ==> Counted(Fire(w, id), call)
  {
    EntriesWithout(w.waiting, id);
    CountOfAppend(w.fired, Entry(id, w.waiting[id]), call);
    assert WaitingOf(w.waiting - {id}, call) == WaitingOf(w.waiting, call) - {id};
  }

  /** The only steps that touch the waiters. */
  lemma WaitersAfter<T>(s: State<T>, e: Event<T>)
    ensures Step(s, e).waiters == s.waiters
         || (exists x: Entry<T> :: Step(s, e).waiters == Register(s.waiters, x))
         || (exists id: Id | id in s.waiters.waiting :: Step(s, e).waiters == Fire(s.waiters, id))
  {
  }

  lemma StepConserves<T(!new)>(s: State<T>, e: Event<T>, call: nat)
    requires Conserved(s.waiters) && Counted(s.waiters, call)
    ensures Conserved(Step(s, e).waiters) && Counted(Step(s, e).waiters, call)
  {
    WaitersAfter(s, e);
    var w := s.waiters;
    if x: Entry<T> :| Step(s, e).waiters == Register(w, x) {
      RegisterConserves(w, x);
      RegisterCounts(w, x, call);
    } else if id: Id :| id in w.waiting && Step(s, e).waiters == Fire(w, id) {
      FireConserves(w, id, call);
    }
  }

  lemma {:induction false} RunConserves<T(!new)>(s: State<T>, events: seq<Event<T>>, call: nat)
    requires Conserved(s.waiters) && Counted(s.waiters, call)
    ensures Conserved(Run(s, events).waiters) && Counted(Run(s, events).waiters, call)
    decreases |events|
  {
    if events != [] {
      StepConserves(s, events[0], call);
      RunConserves(Step(s, events[0]), events[1..], call);
    }
  }

  lemma StartConserved<T(!new)>(first: nat, call: nat)
    ensures Conserved(Start<T>(first).waiters) && Counted(Start<T>(first).waiters, call)
  {
    assert Entries<T>(map[]) == {};
    assert WaitingOf<T>(map[], call) == {};
  }

  /** In every run: the waiters that were registered are those waiting, those whose callback fired
      with its own id and message, and those that were overwritten, each exactly once. */
  lemma CallbacksFireOnce<T(!new)>(first: nat, events: seq<Event<T>>)
    ensures var w := Run(Start<T>(first), events).waiters;
            multiset(w.inserted) == multiset(Entries(w.waiting)) + multiset(w.fired) + multiset(w.overwritten)
  {
    StartConserved<T>(first, 0);
    RunConserves(Start<T>(first), events, 0);
  }

  // ----- The same id twice -----

  lemma RunThenStep<T>(s: State<T>, events: seq<Event<T>>, e: Event<T>)
    ensures Run(s, events + [e]) == Step(Run(s, events), e)
    decreases |events|
  {
    if events == [] {
      assert [] + [e] == [e] && [e][1..] == [];
    } else {
      assert (events + [e])[1..] == events[1..] + [e];
      RunThenStep(Step(s, events[0]), events[1..], e);
    }
  }

  /** Two sends register a waiter under the same id. */
  function BothRegistered<T>(id: Id, m: T, n: T): State<T> {
    var both := [Entry(id, Waiter(1, m)), Entry(id, Waiter(2, n))];
    State(0, [], both, {}, Waiters(map[id := Waiter(2, n)], both, [], [Entry(id, Waiter(1, m))]),
          Wire(multiset{id, id}, multiset{}, [], multiset{}, 0))
  }

  lemma FirstRegistered<T>(id: Id, m: T)
    ensures Run(Start<T>(0), [Allocate(1, m, Some(id)), Insert(0)])
         == State(0, [], [Entry(id, Waiter(1, m))], {},
                  Waiters(map[id := Waiter(1, m)], [Entry(id, Waiter(1, m))], [], []),
                  Wire(multiset{id}, multiset{}, [], multiset{}, 0))
  {
    RunThenStep(Start<T>(0), [], Allocate(1, m, Some(id)));
    RunThenStep(Start<T>(0), [Allocate(1, m, Some(id))], Insert(0));
    assert [] + [Allocate(1, m, Some(id))] == [Allocate(1, m, Some(id))];
    assert [Allocate(1, m, Some(id))] + [Insert(0)] == [Allocate(1, m, Some(id)), Insert(0)];
  }

  /** Two messages sent with the same id: the first callback is dropped and never fires. */
  lemma ChosenIdsCanClash<T(!new)>(id: Id, m: T, n: T) returns (events: seq<Event<T>>)
    ensures Run(Start<T>(0), events) == BothRegistered(id, m, n)
    ensures WaitingOf(BothRegistered(id, m, n).waiters.waiting, 1) == {}
  {
    var first := [Allocate(1, m, Some(id)), Insert(0)];
    FirstRegistered(id, m);
    var second := first + [Allocate(2, n, Some(id))];
    RunThenStep(Start<T>(0), first, Allocate(2, n, Some(id)));
    RunThenStep(Start<T>(0), second, Insert(0));
    events := second + [Insert(0)];
    assert Run(Start<T>(0), second).numbered == [Entry(id, Waiter(2, n))];
    assert map[id := Waiter(1, m)][id := Waiter(2, n)] == map[id := Waiter(2, n)];
    assert Without([Entry(id, Waiter(2, n))], 0) == [];
  }

  // ----- The methods of the producer -----

  /** A message, and the publishing id that its owner may have chosen. */
  datatype Outgoing<T> = Outgoing(message: T, chosen: Option<Id>)

  /** A message takes the id chosen for it, or else the next of the sequence. */
  function EntryFor<T>(sequence: nat, call: nat, m: Outgoing<T>): Entry<T> {
    Entry(match m.chosen case Some(id) => id case None => sequence % WORD, Waiter(call, m.message))
  }

  function Advanced<T>(sequence: nat, m: Outgoing<T>): nat {
    if m.chosen.None? then sequence + 1 else sequence
  }

  /** The entries of a batch, numbered from `sequence`. */
  function Numbered<T>(sequence: nat, call: nat, ms: seq<Outgoing<T>>): seq<Entry<T>>
    decreases |ms|
  {
    if ms == [] then [] else [EntryFor(sequence, call, ms[0])] + Numbered(Advanced(sequence, ms[0]), call, ms[1..])
  }

  /** How many messages of a batch take an id from the sequence. */
  function Unchosen<T>(ms: seq<Outgoing<T>>): nat {
    if ms == [] then 0 else (if ms[0].chosen.None? then 1 else 0) + Unchosen(ms[1..])
  }

  lemma NumberNext<T>(sequence: nat, call: nat, ms: seq<Outgoing<T>>, i: nat)
    requires i < |ms|
    ensures Numbered(sequence, call, ms[i..])
         == [EntryFor(sequence, call, ms[i])] + Numbered(Advanced(sequence, ms[i]), call, ms[i + 1..])
    ensures sequence + Unchosen(ms[i..]) == Advanced(sequence, ms[i]) + Unchosen(ms[i + 1..])
  {
    assert ms[i..][1..] == ms[i + 1..];
  }

  lemma RegisterNext<T>(w: Waiters<T>, e: Entry<T>, more: seq<Entry<T>>)
    ensures RegisterAll(w, [e] + more) == RegisterAll(Register(w, e), more)
  {
    assert ([e] + more)[1..] == more;
  }

  function RegisterAll<T>(w: Waiters<T>, es: seq<Entry<T>>): Waiters<T>
    decreases |es|
  {
    if es == [] then w else RegisterAll(Register(w, es[0]), es[1..])
  }

  /** Fire the waiters of a frame in turn, up to the first id that has none. */
  function FireAll<T>(w: Waiters<T>, ids: seq<Id>): (Waiters<T>, bool)
    decreases |ids|
  {
    if ids == [] then (w, true)
    else if ids[0] in w.waiting then FireAll(Fire(w, ids[0]), ids[1..])
    else (w, false)
  }

  datatype Sent<T> = Panicked | Refused | Published(entries: seq<Entry<T>>)

  class Producer<T> {
    var publishSequence: nat
    var waiters: Waiters<T>
    var closed: bool

    constructor (first: nat)
      ensures publishSequence == first && waiters == Waiters(map[], [], [], []) && !closed
    {
      publishSequence, waiters, closed := first, Waiters(map[], [], [], []), false;
    }

    /** Number the messages, register a waiter for each, and return what is to be published. */
    method InternalBatchSend(call: nat, messages: seq<Outgoing<T>>) returns (wrapped: Option<seq<Entry<T>>>)
      modifies this
      ensures closed == old(closed)
      ensures closed ==> wrapped == None && waiters == old(waiters) && publishSequence == old(publishSequence)
      ensures !closed ==> wrapped == Some(Numbered(old(publishSequence), call, messages))
      ensures !closed ==> waiters == RegisterAll(old(waiters), Numbered(old(publishSequence), call, messages))
      ensures !closed ==> publishSequence == old(publishSequence) + Unchosen(messages)
    {
      if closed {
        return None;
      }
      var msgs := [];
      ghost var all := Numbered(publishSequence, call, messages);
      ghost var registered := RegisterAll(waiters, all);
      ghost var last := publishSequence + Unchosen(messages);
      assert messages[0..] == messages;
      for i := 0 to |messages|
        invariant !closed
        invariant all == msgs + Numbered(publishSequence, call, messages[i..])
        invariant RegisterAll(waiters, Numbered(publishSequence, call, messages[i..])) == registered
        invariant publishSequence + Unchosen(messages[i..]) == last
      {
        NumberNext(publishSequence, call, messages, i);
        ghost var before, more := waiters, Numbered(Advanced(publishSequence, messages[i]), call, messages[i + 1..]);
        var e := Wrap(call, messages[i]);
        RegisterNext(before, e, more);
        Regroup(msgs, [e], more);
        msgs := msgs + [e];
      }
      assert messages[|messages|..] == [];
      assert msgs + [] == msgs;
      wrapped := Some(msgs);
    }

    /** `do_batch_send_with_confirm` up to its wait for the statuses: the channel for them has
        one place per message, and a channel without places panics. */
    method BatchSendWithConfirm(call: nat, messages: seq<Outgoing<T>>) returns (sent: Sent<T>)
      modifies this
      ensures sent.Panicked? <==> messages == []
      ensures sent.Refused? <==> messages != [] && old(closed)
      ensures !sent.Published? ==> waiters == old(waiters) && publishSequence == old(publishSequence)
      ensures sent.Published? ==> sent.entries == Numbered(old(publishSequence), call, messages)
      ensures sent.Published? ==> waiters == RegisterAll(old(waiters), sent.entries)
    {
      if messages == [] {
        return Panicked;
      }
      var wrapped := InternalBatchSend(call, messages);
      sent := match wrapped case Some(entries) => Published(entries) case None => Refused;
    }

    /** Number one message and register its waiter. */
    method Wrap(call: nat, m: Outgoing<T>) returns (e: Entry<T>)
      modifies this
      ensures closed == old(closed) && e == EntryFor(old(publishSequence), call, m)
      ensures publishSequence == Advanced(old(publishSequence), m) && waiters == Register(old(waiters), e)
    {
      var id: Id;
      match m.chosen {
        case Some(chosen) => id := chosen;
        case None =>
          id := publishSequence % WORD;
          publishSequence := publishSequence + 1;
      }
      e := Entry(id, Waiter(call, m.message));
      waiters := Register(waiters, e);
    }

    /** Answer the ids of a frame. False stands for the panic at an id without a waiter. */
    method HandleAnswers(ids: seq<Id>) returns (found: bool)
      modifies this`waiters
      ensures (waiters, found) == FireAll(old(waiters), ids)
    {
      for i := 0 to |ids|
        invariant FireAll(waiters, ids[i..]) == FireAll(old(waiters), ids)
      {
        assert ids[i..][1..] == ids[i + 1..];
        if ids[i] !in waiters.waiting {
          return false;
        }
        waiters := Fire(waiters, ids[i]);
      }
      found := true;
    }
  }

  function EntryIds<T>(es: seq<Entry<T>>): set<Id> {
    set i | 0 <= i < |es| :: es[i].id
  }

  function IdSet(ids: seq<Id>): set<Id> {
    set i | 0 <= i < |ids| :: ids[i]
  }

  predicate Distinct(ids: seq<Id>) {
    forall i, j | 0 <= i < j < |ids| :: ids[i] != ids[j]
  }

  /** After a batch is registered, its call waits for one answer per distinct id. */
  lemma {:induction false} BatchWaitsForItsIds<T>(w: Waiters<T>, es: seq<Entry<T>>, call: nat)
    requires forall i | 0 <= i < |es| :: es[i].waiter.call == call
    ensures WaitingOf(RegisterAll(w, es).waiting, call) == WaitingOf(w.waiting, call) + EntryIds(es)
    decreases |es|
  {
    if es != [] {
      BatchWaitsForItsIds(Register(w, es[0]), es[1..], call);
      assert WaitingOf(Register(w, es[0]).waiting, call) == WaitingOf(w.waiting, call) + {es[0].id};
      assert forall i | 1 <= i < |es| :: es[i] == es[1..][i - 1];
      assert EntryIds(es) == {es[0].id} + EntryIds(es[1..]);
    }
  }

  /** Answering different ids that are all registered finds every waiter, fires each callback with
      the message that was registered, and leaves the other waiters alone. */
  lemma {:induction false} AnswersFire<T>(w: Waiters<T>, ids: seq<Id>)
    requires forall i | 0 <= i < |ids| :: ids[i] in w.waiting
    requires Distinct(ids)
    ensures var (w', found) := FireAll(w, ids);
            && found
            && w'.waiting == w.waiting - IdSet(ids)
            && w'.fired == w.fired + seq(|ids|, i requires 0 <= i < |ids| => Entry(ids[i], w.waiting[ids[i]]))
    decreases |ids|
  {
    if ids != [] {
      var next := Fire(w, ids[0]);
      assert forall i | 1 <= i < |ids| :: ids[i] == ids[1..][i - 1] && ids[i] in next.waiting;
      AnswersFire(next, ids[1..]);
      var (w', found) := FireAll(w, ids);
      assert IdSet(ids) == {ids[0]} + IdSet(ids[1..]);
    }
  }

  /** Answering all the ids that a call waits for, once each and in any order, gives it one status
      for each and leaves it waiting for none. */
  lemma AnswersEndTheCall<T>(w: Waiters<T>, ids: seq<Id>, call: nat)
    requires Distinct(ids) && IdSet(ids) == WaitingOf(w.waiting, call)
    ensures var (w', found) := FireAll(w, ids);
            && found && WaitingOf(w'.waiting, call) == {} && |w'.fired| == |w.fired| + |ids|
            && forall i | 0 <= i < |ids| ::
                 w'.fired[|w.fired| + i].id == ids[i] && w'.fired[|w.fired| + i].waiter.call == call
  {
    forall i | 0 <= i < |ids| ensures ids[i] in w.waiting && w.waiting[ids[i]].call == call {
      assert ids[i] in IdSet(ids);
    }
    AnswersFire(w, ids);
  }

  /** A batch gets one status for each distinct id, and no longer waits, when each of its ids is
      answered once, in whatever order. */
  lemma BatchGetsOneStatusEach<T>(w: Waiters<T>, es: seq<Entry<T>>, ids: seq<Id>, call: nat)
    requires WaitingOf(w.waiting, call) == {} && forall i | 0 <= i < |es| :: es[i].waiter.call == call
    requires Distinct(ids) && IdSet(ids) == EntryIds(es)
    ensures var (w', found) := FireAll(RegisterAll(w, es), ids);
            && found && WaitingOf(w'.waiting, call) == {} && |w'.fired| == |w.fired| + |EntryIds(es)|
  {
    BatchWaitsForItsIds(w, es, call);
    RegisterFiresNone(w, es);
    AnswersEndTheCall(RegisterAll(w, es), ids, call);
    DistinctCount(ids);
  }

  lemma {:induction false} DistinctCount(ids: seq<Id>)
    requires Distinct(ids)
    ensures |IdSet(ids)| == |ids|
  {
    if ids != [] {
      assert IdSet(ids) == {ids[0]} + IdSet(ids[1..]);
      assert ids[0] !in IdSet(ids[1..]);
      DistinctCount(ids[1..]);
    }
  }

  lemma {:induction false} RegisterFiresNone<T>(w: Waiters<T>, es: seq<Entry<T>>)
    ensures RegisterAll(w, es).fired == w.fired
    decreases |es|
  {
    if es != [] {
      RegisterFiresNone(Register(w, es[0]), es[1..]);
    }
  }

  /** How many ids of a frame are looked at: all, or those up to the first without a waiter. */
  function LookedAt<T>(w: Waiters<T>, ids: seq<Id>): nat
    decreases |ids|
  {
    if ids == [] then 0 else if ids[0] in w.waiting then 1 + LookedAt(Fire(w, ids[0]), ids[1..]) else 1
  }

  function Handles<T>(i: nat, n: nat): seq<Event<T>> {
    if n == 0 then [] else [Handle(i)] + Handles(i, n - 1)
  }

  /** A frame that is handled without interruption is handled as by `HandleAnswers`, whether it
      finds all its waiters or panics on the way. */
  lemma {:induction false} HandlesAreHandleAnswers<T>(s: State<T>, i: nat)
    requires i < |s.wire.frames|
    ensures var ids := s.wire.frames[i].ids;
            var (w, found) := FireAll(s.waiters, ids);
            var s' := Run(s, Handles(i, LookedAt(s.waiters, ids)));
            s'.waiters == w && s'.wire.panics == if found then s.wire.panics else s.wire.panics + 1
    decreases |s.wire.frames[i].ids|
  {
    var ids := s.wire.frames[i].ids;
    if ids != [] {
      var next := Step(s, Handle(i));
      assert Handles<T>(i, LookedAt(s.waiters, ids))[1..] == Handles(i, LookedAt(s.waiters, ids) - 1);
      if ids[0] in s.waiters.waiting {
        HandlesAreHandleAnswers(next, i);
      } else {
        assert Handles<T>(i, 0) == [];
      }
    }
  }
}
