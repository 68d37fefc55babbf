/** Sessions of one named producer against a broker that drops duplicates: the first publishing
    id of a session follows from the id that the broker has stored (src/producer.rs). */
module Sessions {

  import opened Bytes
  import opened Sequences
  import A = Accumulator

  /** The greatest id that the broker has accepted under this name. */
  datatype Broker = Broker(greatest: Option<nat>)

  /** Zero stands both for "nothing accepted" and for "only id zero accepted". */
  function Query(b: Broker): nat {
    match b.greatest
    case Some(n) => n
    case None => 0
  }

  function FirstId(stored: nat): nat {
    if stored == 0 then 0 else stored + 1
  }

  predicate Accepts(b: Broker, id: nat) {
    b.greatest.None? || id > b.greatest.value
  }

  /** The broker after some ids arrived, and those that it discarded. */
  function Arrive(b: Broker, ids: seq<nat>): (Broker, seq<nat>)
    decreases |ids|
  {
    if ids == [] then (b, [])
    else if Accepts(b, ids[0]) then Arrive(Broker(Some(ids[0])), ids[1..])
    else var (b', discarded) := Arrive(b, ids[1..]); (b', [ids[0]] + discarded)
  }

  /** A session assigns consecutive ids. `arrived` are the ranks of those messages that reach the
      broker, in the order in which they do. */
  datatype Session = Session(arrived: seq<nat>)

  predicate Increasing(s: seq<nat>) {
    forall i, j | 0 <= i < j < |s| :: s[i] < s[j]
  }

  function Shift(first: nat, ranks: seq<nat>): (r: seq<nat>)
    ensures |r| == |ranks| && forall i | 0 <= i < |ranks| :: r[i] == first + ranks[i]
  {
    seq(|ranks|, i requires 0 <= i < |ranks| => first + ranks[i])
  }

  function SessionIds(b: Broker, s: Session): seq<nat> {
    Shift(FirstId(Query(b)), s.arrived)
  }

  /** The broker after all sessions, the ids that were sent to it, and those it discarded. */
  function RunAll(b: Broker, sessions: seq<Session>): (Broker, seq<nat>, seq<nat>)
    decreases |sessions|
  {
    if sessions == [] then (b, [], []) else
      var ids := SessionIds(b, sessions[0]);
      var (b1, discarded) := Arrive(b, ids);
      var (b2, moreIds, moreDiscarded) := RunAll(b1, sessions[1..]);
      (b2, ids + moreIds, discarded + moreDiscarded)
  }

  lemma {:induction false} IncreasingArrives(b: Broker, ids: seq<nat>)
    requires Increasing(ids) && (ids != [] ==> Accepts(b, ids[0]))
    ensures Arrive(b, ids) == (if ids == [] then b else Broker(Some(ids[|ids| - 1])), [])
    decreases |ids|
  {
    if ids != [] {
      IncreasingArrives(Broker(Some(ids[0])), ids[1..]);
    }
  }

  /** The session starts where only id zero has been accepted, and sends it again. */
  predicate RepeatsZero(b: Broker, s: Session) {
    b.greatest == Some(0) && s.arrived != [] && s.arrived[0] == 0
  }

  /** Nothing is discarded exactly when the ids increase and the first is accepted. */
  lemma {:induction false} NoneDiscardedExactly(b: Broker, ids: seq<nat>)
    ensures Arrive(b, ids).1 == [] <==> Increasing(ids) && (ids != [] ==> Accepts(b, ids[0]))
    decreases |ids|
  {
    if ids != [] && Accepts(b, ids[0]) {
      NoneDiscardedExactly(Broker(Some(ids[0])), ids[1..]);
      IncreasingNext(ids);
    }
  }

  lemma IncreasingNext(ids: seq<nat>)
    requires ids != []
    ensures Increasing(ids) <==> Increasing(ids[1..]) && (|ids| > 1 ==> ids[0] < ids[1])
  {
    var more := ids[1..];
    assert forall j | 1 <= j < |ids| :: ids[j] == more[j - 1];
    if Increasing(more) && (|ids| > 1 ==> ids[0] < ids[1]) {
      forall i, j | 0 <= i < j < |ids| ensures ids[i] < ids[j] {
        if j > 1 {
          assert i == 0 ==> more[0] < more[j - 1];
          assert i > 0 ==> more[i - 1] < more[j - 1];
        }
      }
    }
  }

  /** A session loses no message as a duplicate if and only if its messages arrive in the order of
      their ids and it does not repeat id zero. When only the latter fails, id zero is all it
      loses. */
  lemma SessionLosesExactly(b: Broker, s: Session)
    ensures Arrive(b, SessionIds(b, s)).1 == [] <==> Increasing(s.arrived) && !RepeatsZero(b, s)
    ensures Increasing(s.arrived) && RepeatsZero(b, s) ==> Arrive(b, SessionIds(b, s)).1 == [0]
  {
    var ids, first := SessionIds(b, s), FirstId(Query(b));
    NoneDiscardedExactly(b, ids);
    assert Increasing(ids) <==> Increasing(s.arrived) by {
      assert forall i | 0 <= i < |ids| :: ids[i] == first + s.arrived[i];
    }
    if Increasing(s.arrived) && RepeatsZero(b, s) {
      assert ids[0] == 0 && Increasing(ids[1..]);
      IncreasingArrives(b, ids[1..]);
    }
  }

  /** Some session of the run loses a message. */
  predicate SomeLoses(b: Broker, sessions: seq<Session>)
    decreases |sessions|
  {
    sessions != [] &&
      var s := sessions[0];
      !Increasing(s.arrived) || RepeatsZero(b, s) || SomeLoses(Arrive(b, SessionIds(b, s)).0, sessions[1..])
  }

  predicate Ordered(sessions: seq<Session>) {
    forall i | 0 <= i < |sessions| :: Increasing(sessions[i].arrived)
  }

  /** The sessions of which something arrives. */
  function Heard(sessions: seq<Session>): (r: seq<Session>)
    ensures forall i | 0 <= i < |r| :: r[i].arrived != []
  {
    if sessions == [] then []
    else (if sessions[0].arrived == [] then [] else [sessions[0]]) + Heard(sessions[1..])
  }

  /** All ids are beyond what the broker has accepted. */
  predicate Beyond(b: Broker, ids: seq<nat>) {
    forall i | 0 <= i < |ids| :: Accepts(b, ids[i])
  }

  lemma {:induction false} RunFrom(b: Broker, sessions: seq<Session>)
    ensures RunAll(b, sessions).2 == [] <==> !SomeLoses(b, sessions)
    ensures !SomeLoses(b, sessions) ==> Increasing(RunAll(b, sessions).1) && Beyond(b, RunAll(b, sessions).1)
    decreases |sessions|
  {
    if sessions != [] {
      var ids := SessionIds(b, sessions[0]);
      var b1 := Arrive(b, ids).0;
      SessionLosesExactly(b, sessions[0]);
      RunFrom(b1, sessions[1..]);
      if Increasing(sessions[0].arrived) && !RepeatsZero(b, sessions[0]) {
        NoneDiscardedExactly(b, ids);
        IncreasingArrives(b, ids);
        JoinIncreasing(b, ids, b1, RunAll(b1, sessions[1..]).1);
      }
    }
  }

  lemma JoinIncreasing(b: Broker, ids: seq<nat>, b1: Broker, more: seq<nat>)
    requires Increasing(ids) && (ids != [] ==> Accepts(b, ids[0]))
    requires b1 == if ids == [] then b else Broker(Some(ids[|ids| - 1]))
    ensures Increasing(more) && Beyond(b1, more) ==> Increasing(ids + more) && Beyond(b, ids + more)
  {
    if Increasing(more) && Beyond(b1, more) && ids != [] {
      forall i, j | 0 <= i < j < |ids + more| ensures (ids + more)[i] < (ids + more)[j] {
        if i < |ids| <= j {
          assert Accepts(b1, more[j - |ids|]) && ids[i] <= ids[|ids| - 1];
        }
      }
      forall i | 0 <= i < |ids + more| ensures Accepts(b, (ids + more)[i]) {
        if i > 0 {
          assert (ids + more)[0] < (ids + more)[i];
        }
      }
    }
  }

  /** Where a session leaves the broker: at its last id, or where it was. */
  lemma AfterSession(b: Broker, s: Session)
    requires Increasing(s.arrived) && !RepeatsZero(b, s)
    ensures var b1 := Arrive(b, SessionIds(b, s)).0;
            b1 == if s.arrived == [] then b else Broker(Some(FirstId(Query(b)) + s.arrived[|s.arrived| - 1]))
  {
    SessionLosesExactly(b, s);
    NoneDiscardedExactly(b, SessionIds(b, s));
    IncreasingArrives(b, SessionIds(b, s));
  }

  /** Once an id above zero is accepted, only the order can go wrong. */
  lemma {:induction false} LosesFromAbove(b: Broker, sessions: seq<Session>)
    requires b.greatest.Some? && b.greatest.value > 0
    ensures SomeLoses(b, sessions) <==> !Ordered(sessions)
    decreases |sessions|
  {
    if sessions != [] {
      OrderedNext(sessions);
      if Increasing(sessions[0].arrived) {
        AfterSession(b, sessions[0]);
        LosesFromAbove(Arrive(b, SessionIds(b, sessions[0])).0, sessions[1..]);
      }
    }
  }

  lemma OrderedNext(sessions: seq<Session>)
    requires sessions != []
    ensures Ordered(sessions) <==> Increasing(sessions[0].arrived) && Ordered(sessions[1..])
  {
    assert forall i | 1 <= i < |sessions| :: sessions[i] == sessions[1..][i - 1];
  }

  lemma {:induction false} LosesFromZero(sessions: seq<Session>)
    ensures SomeLoses(Broker(Some(0)), sessions)
       <==> !Ordered(sessions) || (Heard(sessions) != [] && Heard(sessions)[0].arrived[0] == 0)
    decreases |sessions|
  {
    var b := Broker(Some(0));
    if sessions != [] {
      OrderedNext(sessions);
      var s := sessions[0];
      if s.arrived == [] {
        LosesFromZero(sessions[1..]);
      } else if Increasing(s.arrived) && !RepeatsZero(b, s) {
        AfterSession(b, s);
        LosesFromAbove(Arrive(b, SessionIds(b, s)).0, sessions[1..]);
      }
    }
  }

  /** Every session's messages arrive in order, and when the first session that is heard of gets
      only its first message through, the next one does not get its first message through. */
  predicate Lossless(sessions: seq<Session>) {
    var heard := Heard(sessions);
    Ordered(sessions) && (|heard| >= 2 && heard[0].arrived == [0] ==> heard[1].arrived[0] != 0)
  }

  lemma {:induction false} LosesFromNothing(sessions: seq<Session>)
    ensures SomeLoses(Broker(None), sessions) <==> !Lossless(sessions)
    decreases |sessions|
  {
    var b := Broker(None);
    if sessions != [] {
      OrderedNext(sessions);
      var s := sessions[0];
      if s.arrived == [] {
        LosesFromNothing(sessions[1..]);
      } else if Increasing(s.arrived) {
        AfterSession(b, s);
        assert Heard(sessions)[1..] == Heard(sessions[1..]);
        LosesAfterFirst(s, sessions[1..]);
      }
    }
  }

  lemma LosesAfterFirst(s: Session, more: seq<Session>)
    requires s.arrived != [] && Increasing(s.arrived)
    ensures SomeLoses(Broker(Some(s.arrived[|s.arrived| - 1])), more)
       <==> !Ordered(more) || (s.arrived == [0] && Heard(more) != [] && Heard(more)[0].arrived[0] == 0)
  {
    var last := s.arrived[|s.arrived| - 1];
    assert |s.arrived| > 1 ==> s.arrived[0] < last;
    if last == 0 {
      assert s.arrived == [0];
      LosesFromZero(more);
    } else {
      LosesFromAbove(Broker(Some(last)), more);
    }
  }

  /** Over any number of sessions, whatever arrives of them and in whatever order: nothing is
      discarded if and only if every session's messages arrive in order, and the second session
      does not repeat the id zero of a first one of which nothing else arrived. Then the ids
      strictly increase over all sessions. */
  lemma IdsIncreaseAcrossSessions(sessions: seq<Session>)
    ensures var (_, ids, discarded) := RunAll(Broker(None), sessions);
            && (discarded == [] <==> Lossless(sessions))
            && (discarded == [] ==> Increasing(ids))
  {
    RunFrom(Broker(None), sessions);
    LosesFromNothing(sessions);
  }

  // ----- The order of arrival is the order of publishing -----

  /** The messages of a session are sent by rank. */
  predicate SentByRank(s: A.State<nat>) {
    forall i | 0 <= i < |s.enqueued| :: s.enqueued[i] == i
  }

  /** When the flushes of a session publish in turn, its messages arrive in order, so it loses
      nothing but a repeated id zero. */
  lemma PublishingInTurnLosesNothing(b: Broker, capacity: nat, events: seq<A.Event<nat>>)
    requires SentByRank(A.Run(A.Start(capacity), events)) && A.PublishesInTurn(A.Start(capacity), events)
    ensures var s := Session(A.Run(A.Start(capacity), events).published);
            Increasing(s.arrived) && (Arrive(b, SessionIds(b, s)).1 == [] <==> !RepeatsZero(b, s))
  {
    A.PublishedInOrder(capacity, events);
    SessionLosesExactly(b, Session(A.Run(A.Start(capacity), events).published));
  }

  /** For every capacity, a session whose timer and sender flush out of turn loses messages. */
  lemma OvertakingLosesMessages(b: Broker, capacity: nat) returns (events: seq<A.Event<nat>>)
    requires 0 < capacity < A.WORD
    ensures A.OnlySender(events, 0) && SentByRank(A.Run(A.Start(capacity), events))
    ensures Arrive(b, SessionIds(b, Session(A.Run(A.Start(capacity), events).published))).1 != []
  {
    var later: seq<nat> := seq(capacity, i requires 0 <= i < capacity => i + 1);
    var most := A.FlushesCanOvertake<nat>(capacity, 0, later);
    var last: A.Event<nat> := A.Publish(0);
    events := most + [last];
    A.RunThenStep(A.Start(capacity), most, last);
    var published := A.Run(A.Start(capacity), events).published;
    assert published == later + [0];
    assert published[0] == 1 && published[capacity] == 0;
    SessionLosesExactly(b, Session(published));
  }

  // ----- Batches that do not go through the accumulator -----

  /** `n` ranks in turn. */
  function Ranks(first: nat, n: nat): (r: seq<nat>)
    ensures |r| == n && forall i | 0 <= i < n :: r[i] == first + i
  {
    seq(n, i requires 0 <= i < n => first + i)
  }

  lemma {:induction false} ArriveJoins(b: Broker, a: seq<nat>, c: seq<nat>)
    ensures var (b1, lost) := Arrive(b, a); var (b2, more) := Arrive(b1, c); Arrive(b, a + c) == (b2, lost + more)
    decreases |a|
  {
    if a == [] {
      assert a + c == c && [] + Arrive(b, c).1 == Arrive(b, c).1;
    } else {
      assert (a + c)[1..] == a[1..] + c && (a + c)[0] == a[0];
      if Accepts(b, a[0]) {
        ArriveJoins(Broker(Some(a[0])), a[1..], c);
      } else {
        ArriveJoins(b, a[1..], c);
        var (b1, lost) := Arrive(b, a[1..]);
        Regroup([a[0]], lost, Arrive(b1, c).1);
      }
    }
  }

  lemma {:induction false} NothingNewArrives(b: Broker, ids: seq<nat>)
    requires b.greatest.Some? && forall i | 0 <= i < |ids| :: ids[i] <= b.greatest.value
    ensures Arrive(b, ids) == (b, ids)
    decreases |ids|
  {
    if ids != [] {
      NothingNewArrives(b, ids[1..]);
      assert ids == [ids[0]] + ids[1..];
    }
  }

  /** A batch that is sent directly is published at once, although its ids follow those of the messages
      that wait in the accumulator. Even when flushes publish in turn, a session loses exactly the
      messages that it publishes behind such a batch. */
  lemma {:induction false} DirectBatchOvertakes(b: Broker, capacity: nat, events: seq<A.Event<nat>>,
                                                before: seq<nat>, direct: nat, after: seq<nat>)
    requires SentByRank(A.Run(A.Start(capacity), events)) && A.PublishesInTurn(A.Start(capacity), events)
    requires A.Run(A.Start(capacity), events).published == before + after && direct > 0
    requires var batch := Ranks(|A.Run(A.Start(capacity), events).enqueued|, direct);
             !RepeatsZero(b, Session(before + batch))
    ensures var batch := Ranks(|A.Run(A.Start(capacity), events).enqueued|, direct);
            Arrive(b, SessionIds(b, Session((before + batch) + after))).1 == Shift(FirstId(Query(b)), after)
  {
    A.PublishedInOrder(capacity, events);
    var sent, first := A.Run(A.Start(capacity), events).enqueued, FirstId(Query(b));
    var front := before + Ranks(|sent|, direct);
    RanksInTurn(sent, before, direct, after);
    assert Shift(first, front + after) == Shift(first, front) + Shift(first, after);
    AllOfFront(b, front);
    ArriveJoins(b, Shift(first, front), Shift(first, after));
    NothingNewArrives(Broker(Some(first + front[|front| - 1])), Shift(first, after));
  }

  lemma RanksInTurn(sent: seq<nat>, before: seq<nat>, direct: nat, after: seq<nat>)
    requires before + after <= sent && direct > 0 && forall i | 0 <= i < |sent| :: sent[i] == i
    ensures var front := before + Ranks(|sent|, direct);
            Increasing(front) && forall i | 0 <= i < |after| :: after[i] < front[|front| - 1]
  {
    assert forall i | 0 <= i < |before + after| :: (before + after)[i] == sent[i];
    assert forall i | 0 <= i < |after| :: after[i] == (before + after)[|before| + i];
    assert forall i | 0 <= i < |before| :: before[i] == (before + after)[i];
  }

  lemma AllOfFront(b: Broker, ranks: seq<nat>)
    requires ranks != [] && Increasing(ranks) && !RepeatsZero(b, Session(ranks))
    ensures var first := FirstId(Query(b));
            Arrive(b, Shift(first, ranks)) == (Broker(Some(first + ranks[|ranks| - 1])), [])
  {
    IncreasingArrives(b, Shift(FirstId(Query(b)), ranks));
  }

  /** Two sessions that each send one message: the second message is taken for the first. */
  lemma SecondMessageDiscarded()
    ensures RunAll(Broker(None), [Session([0]), Session([0])]) == (Broker(Some(0)), [0, 0], [0])
  {
    var s, zero: seq<nat> := Session([0]), [0];
    assert Shift(0, [0]) == zero && zero[1..] == [] && zero + [] == zero && zero + zero == [0, 0] && [] + zero == zero;
    assert SessionIds(Broker(None), s) == zero && SessionIds(Broker(Some(0)), s) == zero;
    assert Arrive(Broker(None), zero) == (Broker(Some(0)), []);
    assert Arrive(Broker(Some(0)), zero) == (Broker(Some(0)), zero);
    assert [s, s][1..] == [s] && [s][1..] == [];
    assert RunAll(Broker(Some(0)), [s]) == (Broker(Some(0)), zero, zero);
  }
}
