/** Requests and their responses on one connection (src/client/dispatcher.rs, and
    `send_and_receive` in src/client/mod.rs), at the grain of single atomic steps. */
module Dispatcher {

  import opened Bytes

  /** Correlation ids are 32-bit words. */
  const WORD: nat := 0x1_0000_0000

  type Id = n: nat | n < WORD

  function IdOf(ticket: nat): Id {
    ticket % WORD
  }

  // ----- The table and the dispatcher -----

  class RequestsMap {
    var requests: map<Id, nat>
    var closed: bool

    constructor ()
      ensures requests == map[] && !closed
    {
      requests, closed := map[], false;
    }

    /** `sender` stands for the sending half of the caller's channel. */
    method Insert(correlationId: Id, sender: nat) returns (inserted: bool)
      modifies this
      ensures closed == old(closed) && inserted == !closed
      ensures requests == if inserted then old(requests)[correlationId := sender] else old(requests)
    {
      if closed {
        return false;
      }
      requests := requests[correlationId := sender];
      inserted := true;
    }

    method Remove(correlationId: Id) returns (sender: Option<nat>)
      modifies this
      ensures closed == old(closed) && requests == old(requests) - {correlationId}
      ensures sender == if correlationId in old(requests) then Some(old(requests)[correlationId]) else None
    {
      sender := if correlationId in requests then Some(requests[correlationId]) else None;
      requests := requests - {correlationId};
    }

    method Close()
      modifies this
      ensures closed && requests == map[]
    {
      closed := true;
      requests := map[];
    }
  }

  /** What arrives: an answer to a request, which `request` identifies; a consumer update that the
      server has numbered; a frame without a number; or an error of the stream. */
  datatype Incoming = Reply(id: Id, request: nat) | ConsumerUpdate(id: Id) | Unnumbered | Broken

  /** Deliver replies to the slots of their ids, up to the end of the stream or its first error. */
  function Listened(requests: map<Id, nat>, delivered: seq<(nat, nat)>, notified: nat, incoming: seq<Incoming>)
    : (seq<(nat, nat)>, nat)
    decreases |incoming|
  {
    if incoming == [] then (delivered, notified)
    else match incoming[0]
      case Reply(id, request) =>
        Listened(requests - {id}, if id in requests then delivered + [(requests[id], request)] else delivered,
                 notified, incoming[1..])
      case ConsumerUpdate(_) => Listened(requests, delivered, notified + 1, incoming[1..])
      case Unnumbered => Listened(requests, delivered, notified + 1, incoming[1..])
      case Broken => (delivered, notified)
  }

  class Dispatcher {
    const table: RequestsMap
    var correlationId: Id
    /** The replies sent so far, each with the channel it went to. */
    var delivered: seq<(nat, nat)>
    /** Frames passed on to the handler. */
    var notified: nat

    constructor ()
      ensures fresh(table) && table.requests == map[] && !table.closed
      ensures correlationId == 0 && delivered == [] && notified == 0
    {
      table := new RequestsMap();
      correlationId, delivered, notified := 0, [], 0;
    }

    /** A fresh id and a slot for its response, or nothing once the table is closed. The id is
        used up in either case. */
    method ResponseChannel(sender: nat) returns (channel: Option<Id>)
      modifies this`correlationId, table
      ensures correlationId == (old(correlationId) + 1) % WORD
      ensures channel == if old(table.closed) then None else Some(old(correlationId))
      ensures table.closed == old(table.closed)
      ensures table.requests
           == if channel.Some? then old(table.requests)[channel.value := sender] else old(table.requests)
    {
      var id := correlationId;
      correlationId := (correlationId + 1) % WORD;
      var inserted := table.Insert(id, sender);
      channel := if inserted then Some(id) else None;
    }

    method Dispatch(id: Id, request: nat)
      modifies this`delivered, table
      ensures table.requests == old(table.requests) - {id} && table.closed == old(table.closed)
      ensures delivered ==
              if id in old(table.requests) then old(delivered) + [(old(table.requests)[id], request)]
              else old(delivered)
    {
      var receiver := table.Remove(id);
      if receiver.Some? {
        delivered := delivered + [(receiver.value, request)];
      }
    }

    /** The receive loop, which closes the table when the stream ends or fails. */
    method HandleResponse(incoming: seq<Incoming>)
      modifies this`delivered, this`notified, table
      ensures (delivered, notified) == Listened(old(table.requests), old(delivered), old(notified), incoming)
      ensures table.closed && table.requests == map[]
    {
      var i := 0;
      while i < |incoming|
        invariant i <= |incoming|
        invariant Listened(table.requests, delivered, notified, incoming[i..])
               == Listened(old(table.requests), old(delivered), old(notified), incoming)
      {
        assert incoming[i..][1..] == incoming[i + 1..];
        match incoming[i] {
          case Reply(id, request) => Dispatch(id, request);
          case ConsumerUpdate(_) => notified := notified + 1;
          case Unnumbered => notified := notified + 1;
          case Broken => break;
        }
        i := i + 1;
      }
      table.Close();
    }
  }

  // ----- Runs: callers, connection and receive loop, step by step -----

  /** Tickets number the calls without wrapping around. A call is `numbered`, then has passed the
      check of the closed flag (`checked`), then has a slot in the table. `toSend` are requests of
      calls with a slot that are not sent, `pending` ones wait at the server. `delivered` maps a
      call to the request whose reply it got. `refused` calls failed the check and `dropped` ones
      lost their slot: both get ConnectionClosed. `passed` is a history: the calls between check
      and insert when the flag was set. */
  datatype State = State(
    next: nat, numbered: set<nat>, checked: set<nat>, table: map<Id, nat>, toSend: set<nat>, pending: set<nat>,
    incoming: seq<Incoming>, delivered: map<nat, nat>, refused: set<nat>, dropped: set<nat>,
    flag: bool, cleared: bool, passed: set<nat>)

  datatype Event =
    | Number
    | Check(ticket: nat)
    | Insert(ticket: nat)
    | Send(ticket: nat)
    | Answer(ticket: nat)
    | Push(frame: Incoming)
    | Receive
    | SetFlag
    | Clear

  const START := State(0, {}, {}, map[], {}, {}, [], map[], {}, {}, false, false, {})

  function Slots(table: map<Id, nat>): set<nat> {
    set id | id in table :: table[id]
  }

  /** Take a reply from the wire. The sender found under its id, if any, gets it. */
  function Deliver(s: State, id: Id, request: nat): State
    requires s.incoming != []
  {
    if id in s.table then
      s.(table := s.table - {id}, delivered := s.delivered[s.table[id] := request], incoming := s.incoming[1..])
    else s.(incoming := s.incoming[1..])
  }

  function Step(s: State, e: Event): State {
    match e
    case Number => s.(next := s.next + 1, numbered := s.numbered + {s.next})
    case Check(t) =>
      if t !in s.numbered then s
      else if s.flag then s.(numbered := s.numbered - {t}, refused := s.refused + {t})
      else s.(numbered := s.numbered - {t}, checked := s.checked + {t})
    case Insert(t) =>
      if t in s.checked then
        s.(checked := s.checked - {t}, table := s.table[IdOf(t) := t], toSend := s.toSend + {t},
           dropped := if IdOf(t) in s.table then s.dropped + {s.table[IdOf(t)]} else s.dropped)
      else s
    case Send(t) =>
      if t in s.toSend then s.(toSend := s.toSend - {t}, pending := s.pending + {t}) else s
    case Answer(t) =>
      if t in s.pending then s.(pending := s.pending - {t}, incoming := s.incoming + [Reply(IdOf(t), t)]) else s
    case Push(f) => if f.Reply? then s else s.(incoming := s.incoming + [f])
    case Receive =>
      if s.flag || s.incoming == [] then s
      else if s.incoming[0].Reply? then Deliver(s, s.incoming[0].id, s.incoming[0].request)
      else s.(incoming := s.incoming[1..])
    case SetFlag => if s.flag then s else s.(flag := true, passed := s.checked)
    case Clear =>
      if s.flag && !s.cleared then s.(cleared := true, table := map[], dropped := s.dropped + Slots(s.table)) else s
  }

  function Run(s: State, events: seq<Event>): State
    decreases |events|
  {
    if events == [] then s else Run(Step(s, events[0]), events[1..])
  }

  // ----- Each call is in one place -----

  predicate InTable(s: State, t: nat) {
    IdOf(t) in s.table && s.table[IdOf(t)] == t
  }

  function One(b: bool): nat {
    if b then 1 else 0
  }

  /** In how many places a call is. */
  function Places(s: State, t: nat): nat {
    One(t in s.numbered) + One(t in s.checked) + One(InTable(s, t))
    + One(t in s.delivered) + One(t in s.refused) + One(t in s.dropped)
  }

  /** `r` is a reply that the client can expect. */
  predicate Genuine(s: State, f: Incoming) {
    f.Reply? ==> f.id == IdOf(f.request) && f.request < s.next
  }

  ghost predicate Inv(s: State) {
    && (forall t: nat {:trigger Places(s, t)} :: Places(s, t) == One(t < s.next))
    && (forall id | id in s.table :: IdOf(s.table[id]) == id)
    && (forall t | t in s.toSend || t in s.pending :: t < s.next)
    && (forall f | f in s.incoming :: Genuine(s, f))
    && (forall t | t in s.delivered :: IdOf(s.delivered[t]) == IdOf(t))
  }

  lemma NumberKeepsInv(s: State)
    requires Inv(s)
    ensures Inv(Step(s, Number))
  {
    var s' := Step(s, Number);
    forall t: nat ensures Places(s', t) == One(t < s'.next) {
      assert Places(s, t) == One(t < s.next);
    }
  }

  lemma CheckKeepsInv(s: State, t: nat)
    requires Inv(s)
    ensures Inv(Step(s, Check(t)))
  {
    var s' := Step(s, Check(t));
    forall u: nat ensures Places(s', u) == One(u < s'.next) {
      assert Places(s, u) == One(u < s.next);
    }
  }

  lemma InsertKeepsInv(s: State, t: nat)
    requires Inv(s)
    ensures Inv(Step(s, Insert(t)))
  {
    var s' := Step(s, Insert(t));
    forall u: nat ensures Places(s', u) == One(u < s'.next) {
      assert Places(s, u) == One(u < s.next);
      assert Places(s, t) == One(t < s.next);
    }
    assert Places(s, t) == One(t < s.next);
  }

  lemma ReceiveKeepsInv(s: State)
    requires Inv(s)
    ensures Inv(Step(s, Receive))
  {
    var s' := Step(s, Receive);
    forall u: nat ensures Places(s', u) == One(u < s'.next) {
      assert Places(s, u) == One(u < s.next);
    }
    if s.incoming != [] {
      assert Genuine(s, s.incoming[0]);
      assert s.incoming == [s.incoming[0]] + s.incoming[1..];
      assert forall f | f in s.incoming[1..] :: f in s.incoming;
    }
  }

  lemma ClearKeepsInv(s: State)
    requires Inv(s)
    ensures Inv(Step(s, Clear))
  {
    var s' := Step(s, Clear);
    forall u: nat ensures Places(s', u) == One(u < s'.next) {
      assert Places(s, u) == One(u < s.next);
      assert u in Slots(s.table) <==> InTable(s, u);
    }
  }

  lemma WireKeepsInv(s: State, e: Event)
    requires Inv(s) && (e.Send? || e.Answer? || e.Push? || e.SetFlag?)
    ensures Inv(Step(s, e))
  {
    var s' := Step(s, e);
    forall u: nat ensures Places(s', u) == One(u < s'.next) {
      assert Places(s, u) == One(u < s.next);
    }
  }

  lemma StepKeepsInv(s: State, e: Event)
    requires Inv(s)
    ensures Inv(Step(s, e))
  {
    match e
    case Number => NumberKeepsInv(s);
    case Check(t) => CheckKeepsInv(s, t);
    case Insert(t) => InsertKeepsInv(s, t);
    case Receive => ReceiveKeepsInv(s);
    case Clear => ClearKeepsInv(s);
    case _ => WireKeepsInv(s, e);
  }

  lemma {:induction false} RunKeepsInv(s: State, events: seq<Event>)
    requires Inv(s)
    ensures Inv(Run(s, events))
    decreases |events|
  {
    if events != [] {
      StepKeepsInv(s, events[0]);
      RunKeepsInv(Step(s, events[0]), events[1..]);
    }
  }

  /** In every run, every call ever made is in exactly one place: before its check, before its
      insert, in the table, answered, refused, or dropped. An answer it got carries its own
      correlation id. */
  lemma OnePlaceEach(events: seq<Event>, t: nat)
    ensures var s := Run(START, events);
            && Places(s, t) == One(t < s.next)
            && (t in s.delivered ==> IdOf(s.delivered[t]) == IdOf(t))
  {
    RunKeepsInv(START, events);
    assert Places(Run(START, events), t) == One(t < Run(START, events).next);
  }

  // ----- Ids that do not collide -----

  /** The call has not come to its end, or its request has not. */
  predicate Live(s: State, t: nat) {
    || t in s.numbered || t in s.checked || InTable(s, t) || t in s.toSend || t in s.pending
    || exists f | f in s.incoming :: f.Reply? && f.request == t
  }

  /** All live calls are among the last 2^32 that were numbered. */
  ghost predicate Narrow(s: State) {
    forall t: nat :: Live(s, t) ==> s.next <= t + WORD
  }

  ghost predicate NarrowRun(s: State, events: seq<Event>)
    decreases |events|
  {
    Narrow(s) && (events != [] ==> NarrowRun(Step(s, events[0]), events[1..]))
  }

  lemma SameIdSameTicket(a: nat, b: nat, next: nat)
    requires IdOf(a) == IdOf(b) && a < next <= a + WORD && b < next <= b + WORD
    ensures a == b
  {
    assert a == a / WORD * WORD + a % WORD && b == b / WORD * WORD + b % WORD;
  }

  /** Live calls have different ids. */
  lemma LiveIdsDiffer(s: State, t: nat, u: nat)
    requires Inv(s) && Narrow(s) && Live(s, t) && Live(s, u) && t != u
    ensures IdOf(t) != IdOf(u)
  {
    LiveIsNumbered(s, t);
    LiveIsNumbered(s, u);
    if IdOf(t) == IdOf(u) {
      SameIdSameTicket(t, u, s.next);
    }
  }

  lemma LiveIsNumbered(s: State, t: nat)
    requires Inv(s) && Live(s, t)
    ensures t < s.next
  {
    assert Places(s, t) == One(t < s.next);
  }

  ghost predicate OwnReplies(s: State) {
    forall t | t in s.delivered :: s.delivered[t] == t
  }

  lemma StepKeepsReplies(s: State, e: Event)
    requires Inv(s) && Narrow(s) && OwnReplies(s)
    ensures OwnReplies(Step(s, e))
  {
    if e.Receive? && !s.flag && s.incoming != [] && s.incoming[0].Reply? && s.incoming[0].id in s.table {
      var request, slot := s.incoming[0].request, s.table[s.incoming[0].id];
      assert Genuine(s, s.incoming[0]);
      assert Live(s, request) && InTable(s, slot) && Live(s, slot);
      if request != slot {
        LiveIdsDiffer(s, request, slot);
      }
    }
  }

  lemma {:induction false} RunKeepsReplies(s: State, events: seq<Event>)
    requires Inv(s) && OwnReplies(s) && NarrowRun(s, events)
    ensures OwnReplies(Run(s, events))
    decreases |events|
  {
    if events != [] {
      StepKeepsReplies(s, events[0]);
      StepKeepsInv(s, events[0]);
      RunKeepsReplies(Step(s, events[0]), events[1..]);
    }
  }

  /** While live calls span at most 2^32 numbers, a call that is answered gets the reply to its
      own request. */
  lemma RepliesReachTheirCaller(events: seq<Event>, t: nat)
    requires NarrowRun(START, events) && t in Run(START, events).delivered
    ensures Run(START, events).delivered[t] == t
  {
    RunKeepsInv(START, []);
    StartInv();
    RunKeepsReplies(START, events);
  }

  lemma StartInv()
    ensures Inv(START)
  {
  }

  /** What arrives, but for the consumer updates. */
  function WithoutUpdates(incoming: seq<Incoming>): seq<Incoming> {
    if incoming == [] then []
    else (if incoming[0].ConsumerUpdate? then [] else [incoming[0]]) + WithoutUpdates(incoming[1..])
  }

  lemma {:induction false} WithoutUpdatesJoins(a: seq<Incoming>, b: seq<Incoming>)
    ensures WithoutUpdates(a + b) == WithoutUpdates(a) + WithoutUpdates(b)
  {
    if a == [] {
      assert a + b == b;
    } else {
      assert (a + b)[1..] == a[1..] + b;
      WithoutUpdatesJoins(a[1..], b);
    }
  }

  /** Whether an event only brings in a consumer update, or takes one off the wire. */
  predicate OnlyUpdates(s: State, e: Event) {
    || (e.Push? && e.frame.ConsumerUpdate?)
    || (e.Receive? && !s.flag && s.incoming != [] && s.incoming[0].ConsumerUpdate?)
  }

  /** The run without its consumer updates. */
  function Erase(s: State, events: seq<Event>): seq<Event>
    decreases |events|
  {
    if events == [] then []
    else (if OnlyUpdates(s, events[0]) then [] else [events[0]]) + Erase(Step(s, events[0]), events[1..])
  }

  function EraseState(s: State): State {
    s.(incoming := WithoutUpdates(s.incoming))
  }

  lemma EraseReceive(s: State)
    ensures EraseState(Step(s, Receive))
         == if OnlyUpdates(s, Receive) then EraseState(s) else Step(EraseState(s), Receive)
  {
    if s.incoming != [] && !s.incoming[0].ConsumerUpdate? {
      assert WithoutUpdates(s.incoming)[1..] == WithoutUpdates(s.incoming[1..]);
    }
  }

  lemma ErasePush(s: State, f: Incoming)
    ensures WithoutUpdates(s.incoming + [f])
         == if f.ConsumerUpdate? then WithoutUpdates(s.incoming) else WithoutUpdates(s.incoming) + [f]
  {
    WithoutUpdatesJoins(s.incoming, [f]);
    assert [f][1..] == [];
  }

  lemma EraseStep(s: State, e: Event)
    ensures EraseState(Step(s, e)) == if OnlyUpdates(s, e) then EraseState(s) else Step(EraseState(s), e)
  {
    match e
    case Answer(t) => ErasePush(s, Reply(IdOf(t), t));
    case Push(f) => ErasePush(s, f);
    case Receive => EraseReceive(s);
    case _ =>
  }

  lemma {:induction false} EraseRun(s: State, events: seq<Event>)
    ensures Run(EraseState(s), Erase(s, events)) == EraseState(Run(s, events))
    decreases |events|
  {
    if events != [] {
      var e, next := events[0], Step(s, events[0]);
      EraseStep(s, e);
      EraseRun(next, events[1..]);
      if OnlyUpdates(s, e) {
        assert Erase(s, events) == Erase(next, events[1..]);
      } else {
        assert Erase(s, events)[1..] == Erase(next, events[1..]);
      }
    }
  }

  /** The server numbers its consumer updates itself. Whatever numbers they carry and wherever they
      arrive in a run, calls fare exactly as in the same run without them: the same table, the
      same replies, the same calls refused and dropped. */
  lemma UpdatesTakeNoSlot(events: seq<Event>)
    ensures var s, erased := Run(START, events), Run(START, Erase(START, events));
            erased == s.(incoming := WithoutUpdates(s.incoming))
  {
    assert EraseState(START) == START;
    EraseRun(START, events);
  }

  // ----- Steps without interruption are the methods -----

  /** A call that takes a number, checks and inserts without interruption does what
      `ResponseChannel` does. */
  lemma {:induction false} StepsAreResponseChannel(s: State)
    requires Inv(s)
    ensures var t, s' := s.next, Run(s, [Number, Check(s.next), Insert(s.next)]);
            && s'.next == t + 1
            && s'.table == (if s.flag then s.table else s.table[IdOf(t) := t])
            && s'.refused == (if s.flag then s.refused + {t} else s.refused)
  {
    var t := s.next;
    assert Places(s, t) == 0;
    RunThenStep(s, [], Number);
    RunThenStep(s, [Number], Check(t));
    RunThenStep(s, [Number, Check(t)], Insert(t));
    assert [] + [Number] == [Number] && [Number] + [Check(t)] == [Number, Check(t)];
    assert [Number, Check(t)] + [Insert(t)] == [Number, Check(t), Insert(t)];
  }

  /** Receiving a reply does what `Dispatch` does. */
  lemma ReceiveIsDispatch(s: State, id: Id, request: nat)
    requires !s.flag && s.incoming != [] && s.incoming[0] == Reply(id, request)
    ensures var s' := Step(s, Receive);
            && s'.table == s.table - {id}
            && s'.delivered == if id in s.table then s.delivered[s.table[id] := request] else s.delivered
  {
  }

  // ----- One number too many -----

  function Numbers(n: nat): seq<Event> {
    if n == 0 then [] else Numbers(n - 1) + [Number]
  }

  lemma {:induction false} RunJoins(s: State, a: seq<Event>, b: seq<Event>)
    ensures Run(s, a + b) == Run(Run(s, a), b)
    decreases |a|
  {
    if a == [] {
      assert a + b == b;
    } else {
      assert (a + b)[1..] == a[1..] + b;
      RunJoins(Step(s, a[0]), a[1..], b);
    }
  }

  lemma RunThenStep(s: State, events: seq<Event>, e: Event)
    ensures Run(s, events + [e]) == Step(Run(s, events), e)
  {
    RunJoins(s, events, [e]);
    assert [e][1..] == [];
  }

  /** `n` more calls take numbers and do nothing else. */
  lemma {:induction false} RunNumbers(s: State, n: nat)
    ensures Run(s, Numbers(n)) == s.(next := s.next + n, numbered := Run(s, Numbers(n)).numbered)
    ensures forall t | s.next <= t < s.next + n :: t in Run(s, Numbers(n)).numbered
  {
    if n > 0 {
      RunNumbers(s, n - 1);
      RunThenStep(s, Numbers(n - 1), Number);
    }
  }

  /** The call with ticket 0 waits for its reply, which is on the wire. */
  const WAITING: State := START.(next := 1, table := map[0 := 0], incoming := [Reply(0, 0)])

  lemma FirstCallWaits()
    ensures Run(START, [Number, Check(0), Insert(0), Send(0), Answer(0)]) == WAITING
  {
    var a := [Number, Check(0)];
    RunThenStep(START, [], Number);
    RunThenStep(START, [Number], Check(0));
    assert [] + [Number] == [Number] && [Number] + [Check(0)] == a;
    RunThenStep(START, a, Insert(0));
    assert Run(START, a + [Insert(0)]) == START.(next := 1, table := map[0 := 0], toSend := {0});
    RunThenStep(START, a + [Insert(0)], Send(0));
    RunThenStep(START, a + [Insert(0)] + [Send(0)], Answer(0));
    assert a + [Insert(0)] + [Send(0)] + [Answer(0)] == [Number, Check(0), Insert(0), Send(0), Answer(0)];
  }

  /** With one more number than there are ids, a call gets another call's reply, and that one
      loses its slot. */
  lemma OneNumberTooMany() returns (events: seq<Event>)
    ensures var s := Run(START, events);
            WORD in s.delivered && s.delivered[WORD] == 0 && 0 in s.dropped
  {
    var first, numbers := [Number, Check(0), Insert(0), Send(0), Answer(0)], Numbers(WORD);
    FirstCallWaits();
    RunNumbers(WAITING, WORD);
    RunJoins(START, first, numbers);
    var s := Run(START, first + numbers);
    RunThenStep(START, first + numbers, Check(WORD));
    RunThenStep(START, first + numbers + [Check(WORD)], Insert(WORD));
    RunThenStep(START, first + numbers + [Check(WORD)] + [Insert(WORD)], Receive);
    events := first + numbers + [Check(WORD)] + [Insert(WORD)] + [Receive];
    assert WORD in s.numbered && IdOf(WORD) == 0;
  }

  // ----- Closing -----

  ghost predicate CloseInv(s: State) {
    && (s.cleared ==> s.flag)
    && (s.flag ==> s.checked <= s.passed)
    && (s.cleared ==> forall id | id in s.table :: s.table[id] in s.passed)
  }

  lemma {:induction false} RunKeepsClose(s: State, events: seq<Event>)
    requires CloseInv(s)
    ensures CloseInv(Run(s, events))
    decreases |events|
  {
    if events != [] {
      assert CloseInv(Step(s, events[0]));
      RunKeepsClose(Step(s, events[0]), events[1..]);
    }
  }

  /** Once closing is complete, a slot can be in the table only if its call had passed the check
      when the flag was set. */
  lemma OnlyLateInsertsStay(events: seq<Event>, id: Id)
    ensures var s := Run(START, events);
            s.cleared && id in s.table ==> s.table[id] in s.passed
  {
    RunKeepsClose(START, events);
  }

  lemma {:induction false} DroppedStays(s: State, events: seq<Event>, t: nat)
    requires t in s.dropped
    ensures t in Run(s, events).dropped
    decreases |events|
  {
    if events != [] {
      DroppedStays(Step(s, events[0]), events[1..], t);
    }
  }

  /** Clearing drops the slot of every call in the table: in every continuation the call keeps
      that outcome, waits for nothing and is not answered. */
  lemma ClearDropsAll(before: seq<Event>, after: seq<Event>, t: nat)
    requires var s := Run(START, before); s.flag && !s.cleared && InTable(s, t)
    ensures var s := Run(START, before + [Clear] + after);
            t in s.dropped && !InTable(s, t) && t !in s.delivered
  {
    var s := Run(START, before);
    assert s.table[IdOf(t)] in Slots(s.table);
    RunThenStep(START, before, Clear);
    RunJoins(START, before + [Clear], after);
    DroppedStays(Step(s, Clear), after, t);
    OnePlaceEach(before + [Clear] + after, t);
  }

  /** Nobody clears twice, and nobody passes the check any more. */
  lemma {:induction false} RunAfterClear(s: State, late: set<nat>, events: seq<Event>)
    requires s.flag && s.cleared && s.checked <= late && forall id | id in s.table :: s.table[id] in late
    ensures var s' := Run(s, events);
            s'.flag && s'.cleared && s'.checked <= late && forall id | id in s'.table :: s'.table[id] in late
    decreases |events|
  {
    if events != [] {
      RunAfterClear(Step(s, events[0]), late, events[1..]);
    }
  }

  /** After the clear, every slot in the table belongs to a call that was between its check and its
      insert when the table was cleared. */
  lemma SlotsAfterClear(before: seq<Event>, after: seq<Event>, id: Id)
    requires var s := Run(START, before); s.flag && !s.cleared
    ensures var s := Run(START, before + [Clear] + after);
            id in s.table ==> s.table[id] in Run(START, before).checked
  {
    RunThenStep(START, before, Clear);
    RunJoins(START, before + [Clear], after);
    RunAfterClear(Step(Run(START, before), Clear), Run(START, before).checked, after);
  }

  /** No call that may still insert has the id of this one. */
  predicate NobodyElse(s: State, t: nat) {
    forall u | u in s.checked :: IdOf(u) != IdOf(t)
  }

  lemma {:induction false} SlotStays(s: State, t: nat, more: seq<Event>)
    requires s.flag && s.cleared && InTable(s, t) && NobodyElse(s, t)
    ensures InTable(Run(s, more), t)
    decreases |more|
  {
    if more != [] {
      SlotStays(Step(s, more[0]), t, more[1..]);
    }
  }

  /** A call whose slot is in the table after the clear waits forever, in every continuation, if and
      only if no call that may still insert has the same id; such an insert is the only thing that
      can end its wait. */
  lemma LateInsertHangsExactly(before: seq<Event>, t: nat)
    requires Run(START, before).cleared && InTable(Run(START, before), t)
    ensures (forall more: seq<Event> :: InTable(Run(Run(START, before), more), t))
       <==> NobodyElse(Run(START, before), t)
  {
    var s := Run(START, before);
    RunKeepsClose(START, before);
    if NobodyElse(s, t) {
      forall more: seq<Event> ensures InTable(Run(s, more), t) {
        SlotStays(s, t, more);
      }
    } else {
      var u :| u in s.checked && IdOf(u) == IdOf(t);
      OnePlaceEach(before, t);
      RunThenStep(s, [], Insert(u));
      assert [] + [Insert(u)] == [Insert(u)];
      assert !InTable(Run(s, [Insert(u)]), t);
    }
  }

  /** There are such calls: one that inserts after the clear, having checked before the flag was
      set. It is neither answered nor told that the connection is closed. */
  lemma LateInsertHangs(more: seq<Event>)
    ensures var s := Run(START, [Number, Check(0), SetFlag, Clear, Insert(0)]);
            && s.cleared && InTable(Run(s, more), 0)
            && 0 !in Run(s, more).dropped && 0 !in Run(s, more).delivered && 0 !in Run(s, more).refused
  {
    var events := [Number, Check(0), SetFlag, Clear, Insert(0)];
    LateRun();
    SlotStays(Run(START, events), 0, more);
    RunJoins(START, events, more);
    OnePlaceEach(events + more, 0);
  }

  lemma LateRun()
    ensures Run(START, [Number, Check(0), SetFlag, Clear, Insert(0)])
         == START.(next := 1, table := map[0 := 0], toSend := {0}, flag := true, cleared := true, passed := {0})
  {
    var closing := [Number, Check(0), SetFlag];
    RunThenStep(START, [], Number);
    RunThenStep(START, [Number], Check(0));
    RunThenStep(START, [Number] + [Check(0)], SetFlag);
    assert [] + [Number] == [Number] && [Number] + [Check(0)] + [SetFlag] == closing;
    assert Run(START, closing) == START.(next := 1, checked := {0}, flag := true, passed := {0});
    RunThenStep(START, closing, Clear);
    RunThenStep(START, closing + [Clear], Insert(0));
    assert closing + [Clear] + [Insert(0)] == [Number, Check(0), SetFlag, Clear, Insert(0)];
  }
}
