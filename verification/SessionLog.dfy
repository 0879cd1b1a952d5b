// What a session does, told from the log of its events alone (src/core/p2p/session.rs): which offers
// wait for whom, when the reader waits or stops, and what the table of waiters comes to.
module SessionLog {
  import opened Bytes
  import opened ResponseManager
  import opened Session

  // ----- the log -----

  /** The reader has not been stopped. */
  predicate Alive(log: seq<SessionEvent>) {
    log == [] || (Alive(log[..|log| - 1]) && !Stops(log[..|log| - 1], log[|log| - 1]))
  }

  /** Somebody listens for `id`. */
  predicate Listening(log: seq<SessionEvent>, id: PeerId) {
    Current(log, id).Some? && !Gone(log, id)
  }

  /** The offers for `id` that found room since its last listener was installed, in order. */
  function Offers(log: seq<SessionEvent>, id: PeerId): seq<Packet>
    decreases |log|, 1
  {
    if log == [] then []
    else
      var init, e := log[..|log| - 1], log[|log| - 1];
      if e == Listen(id) then []
      else if e.Incoming? && e.packet.kind == "offer" && e.packet.to == id && Alive(init) && HasRoom(init, id)
      then Offers(init, id) + [e.packet]
      else Offers(init, id)
  }

  /** How many of them that listener has received. */
  function Taken(log: seq<SessionEvent>, id: PeerId): nat
    decreases |log|, 1
  {
    if log == [] then 0
    else
      var init, e := log[..|log| - 1], log[|log| - 1];
      if e == Listen(id) then 0
      else if e.Receive? && Current(init, id) == Some(e.queue) && !Gone(init, id) && Taken(init, id) < |Offers(init, id)|
      then Taken(init, id) + 1
      else Taken(init, id)
  }

  /** Somebody listens for `id`, and fewer than 100 offers wait. */
  predicate HasRoom(log: seq<SessionEvent>, id: PeerId)
    decreases |log|, 2
  {
    Listening(log, id) && |Offers(log, id)| - Taken(log, id) < 100
  }

  // ----- the queues -----

  /** The queue of an id is what the log says. */
  ghost predicate QueueIs(s: SessionState, log: seq<SessionEvent>, id: PeerId) {
    && (id in s.senders <==> Current(log, id).Some?)
    && (id in s.senders ==>
          var c := s.senders[id];
          && Current(log, id) == Some(c) && c < |s.queues|
          && var q := s.queues[c];
             q.open == !Gone(log, id) && Holds(q, Offers(log, id), Taken(log, id)))
  }

  lemma OfferStep(q: Queue, offers: seq<Packet>, taken: nat, p: Packet)
    requires taken <= |offers| && q.received == offers[..taken] && q.waiting == offers[taken..]
    ensures q.received == (offers + [p])[..taken] && q.waiting + [p] == (offers + [p])[taken..]
  {
  }

  lemma ReceiveStep(q: Queue, offers: seq<Packet>, taken: nat)
    requires taken < |offers| && q.received == offers[..taken] && q.waiting == offers[taken..]
    ensures q.waiting != [] && q.received + [q.waiting[0]] == offers[..taken + 1] && q.waiting[1..] == offers[taken + 1..]
  {
  }

  /** One more event in the log. */
  lemma LogAppend(log: seq<SessionEvent>, e: SessionEvent, id: PeerId)
    requires e != Listen(id)
    ensures Offers(log + [e], id) == Offers(log, id) +
      if e.Incoming? && e.packet.kind == "offer" && e.packet.to == id && Alive(log) && HasRoom(log, id) then [e.packet] else []
    ensures Taken(log + [e], id) == Taken(log, id) +
      if e.Receive? && Current(log, id) == Some(e.queue) && !Gone(log, id) && Taken(log, id) < |Offers(log, id)| then 1 else 0
  {
    hide Alive, HasRoom, Current, Gone;
    assert (log + [e])[..|log|] == log;
    assert Offers(log, id) + [] == Offers(log, id);
  }

  /** The queue holds the first `taken` of `offers` as received, and the others as waiting. */
  predicate Holds(q: Queue, offers: seq<Packet>, taken: nat) {
    taken <= |offers| && q.received == offers[..taken] && q.waiting == offers[taken..]
  }

  lemma IncomingIs(s: SessionState, log: seq<SessionEvent>, p: Packet, id: PeerId)
    requires QueuesInvariant(s) && QueueIs(s, log, id) && s.reading == Alive(log) && id in s.senders
    ensures var t := SessionStep(s, SessionEvent.Incoming(p));
      && id in t.senders && t.senders[id] == s.senders[id] < |t.queues|
      && Holds(t.queues[t.senders[id]], Offers(log + [SessionEvent.Incoming(p)], id), Taken(log + [SessionEvent.Incoming(p)], id))
  {
    LogAppend(log, SessionEvent.Incoming(p), id);
    SenderOf(s, SessionEvent.Incoming(p), id);
    var q, taken, offers := s.queues[s.senders[id]], Taken(log, id), Offers(log, id);
    OfferStep(q, offers, taken, p);
    assert offers + [] == offers;
    assert p.to in s.senders && s.senders[p.to] == s.senders[id] ==> p.to == id;
    hide Offers, Taken, Current, Gone, Alive, LedgerStep, QueueSound;
  }

  lemma ReceiveIs(s: SessionState, log: seq<SessionEvent>, c: nat, id: PeerId)
    requires QueuesInvariant(s) && QueueIs(s, log, id) && id in s.senders
    ensures var t := SessionStep(s, Receive(c));
      && id in t.senders && t.senders[id] == s.senders[id] < |t.queues|
      && Holds(t.queues[t.senders[id]], Offers(log + [Receive(c)], id), Taken(log + [Receive(c)], id))
  {
    LogAppend(log, Receive(c), id);
    var q, taken, offers := s.queues[s.senders[id]], Taken(log, id), Offers(log, id);
    if taken < |offers| {
      ReceiveStep(q, offers, taken);
    }
    assert offers + [] == offers;
    hide Offers, Taken, Current, Gone, Alive, LedgerStep, QueueSound;
  }

  lemma OtherIs(s: SessionState, log: seq<SessionEvent>, e: SessionEvent, id: PeerId)
    requires QueuesInvariant(s) && QueueIs(s, log, id) && id in s.senders
    requires e != Listen(id) && !e.Incoming? && !e.Receive?
    ensures var t := SessionStep(s, e);
      && id in t.senders && t.senders[id] == s.senders[id] < |t.queues|
      && Holds(t.queues[t.senders[id]], Offers(log + [e], id), Taken(log + [e], id))
  {
    LogAppend(log, e, id);
    assert Offers(log, id) + [] == Offers(log, id);
    hide Offers, Taken, Current, Gone, Alive, LedgerStep, QueueSound;
  }

  lemma QueueStepIs(s: SessionState, log: seq<SessionEvent>, e: SessionEvent, id: PeerId)
    requires QueuesInvariant(s) && QueueIs(s, log, id) && s.reading == Alive(log)
    requires id in s.senders && e != Listen(id)
    ensures var t := SessionStep(s, e);
      && id in t.senders && t.senders[id] == s.senders[id] < |t.queues|
      && Holds(t.queues[t.senders[id]], Offers(log + [e], id), Taken(log + [e], id))
  {
    hide QueueIs, QueuesInvariant, Holds, SessionStep, Offers, Taken;
    match e {
      case Incoming(p) => IncomingIs(s, log, p, id);
      case Receive(c) => ReceiveIs(s, log, c, id);
      case _ => OtherIs(s, log, e, id);
    }
  }

  /** In every run and for every id: what its current listener has received is the first `Taken` of the
      offers for that id that found room since it was installed, what waits in its queue are the others,
      and the queue is open unless that listener was dropped. The reader is alive exactly if the log does
      not say that it was stopped. */
  lemma {:induction false} LogTellsQueues(log: seq<SessionEvent>, id: PeerId)
    ensures QueuesInvariant(Exec(log)) && QueueIs(Exec(log), log, id) && Exec(log).reading == Alive(log)
  {
    GoneMeansClosed(log, id);
    LogTellsReader(log);
    if log != [] {
      var init, e := log[..|log| - 1], log[|log| - 1];
      LogTellsQueues(init, id);
      assert log == init + [e];
      var s := Exec(init);
      hide Handle, LedgerStep, QueueSound, Alive, Gone, Stops;
      SenderOf(s, e, id);
      if e != Listen(id) && id in s.senders {
        QueueStepIs(s, init, e, id);
      } else if e == Listen(id) {
        FreshQueue(s, id);
      }
    }
  }

  lemma FreshQueue(s: SessionState, id: PeerId)
    ensures var t := SessionStep(s, Listen(id));
      t.senders[id] == |s.queues| && t.queues[|s.queues|] == Queue(id, [], [], true)
  {
  }

  lemma {:induction false} LogTellsReader(log: seq<SessionEvent>)
    ensures Exec(log).reading == Alive(log)
  {
    hide SessionStep, Stops;
    if log != [] {
      LogTellsReader(log[..|log| - 1]);
      AliveStep(log[..|log| - 1], log[|log| - 1]);
    }
  }

  // ----- how a packet is handled -----

  /** Handling a packet fails exactly for an offer whose last installed listener was dropped, and waits
      exactly for an offer whose listener is there and has 100 offers waiting. An offer that nobody ever
      listened for, a reply and a packet of any other kind do neither. */
  lemma HandlingIs(log: seq<SessionEvent>, p: Packet)
    ensures var r := Handle(Exec(log), p).1;
      && (r == Failed <==> p.kind == "offer" && Gone(log, p.to))
      && (r == Blocked <==> p.kind == "offer" && Listening(log, p.to) && !HasRoom(log, p.to))
      && (Listening(log, p.to) ==> |Offers(log, p.to)| - Taken(log, p.to) <= 100)
  {
    LogTellsQueues(log, p.to);
    GoneMeansClosed(log, p.to);
    hide Exec, Offers, Taken, Gone, Current, LedgerStep;
    if p.to in Exec(log).senders {
      assert QueueSound(Exec(log).queues[Exec(log).senders[p.to]]);
    }
  }

  // ----- the reader -----

  /** The events that a message is for the session: a ping or another message, or a receive error, is none. */
  function AsEvent(m: Message): seq<SessionEvent> {
    match m
    case Text(Some(p)) => [SessionEvent.Incoming(p)]
    case Text(None) => [StopReading]
    case Close => [StopReading]
    case Other => []
    case ReceiveError => []
  }

  function AsEvents(messages: seq<Message>): seq<SessionEvent> {
    if messages == [] then [] else AsEvents(messages[..|messages| - 1]) + AsEvent(messages[|messages| - 1])
  }

  /** The message is an offer for a listener with 100 offers waiting. */
  predicate HoldsUp(log: seq<SessionEvent>, m: Message) {
    m.Text? && m.packet.Some? && m.packet.value.kind == "offer"
    && Listening(log, m.packet.value.to) && !HasRoom(log, m.packet.value.to)
  }

  lemma ExecAppend(log: seq<SessionEvent>, e: SessionEvent)
    ensures Exec(log + [e]) == SessionStep(Exec(log), e)
  {
    assert (log + [e])[..|log|] == log;
  }

  lemma OneMessage(log: seq<SessionEvent>, m: Message)
    ensures Waits(Exec(log), m) == HoldsUp(log, m)
    ensures AfterMessage(Exec(log), m) == Exec(log + AsEvents([m]))
  {
    assert [m][..0] == [] && [] + AsEvent(m) == AsEvent(m);
    if m.Text? && m.packet.Some? {
      HandlingIs(log, m.packet.value);
      ExecAppend(log, Incoming(m.packet.value));
    } else {
      ExecAppend(log, StopReading);
    }
    assert log + [] == log;
    hide Handle, SessionStep, Exec;
  }

  lemma {:induction false} AsEventsSplit(a: seq<Message>, b: seq<Message>)
    ensures AsEvents(a + b) == AsEvents(a) + AsEvents(b)
  {
    if b == [] {
      assert a + b == a;
    } else {
      var init, m := b[..|b| - 1], b[|b| - 1];
      assert a + b == (a + init) + [m];
      assert (a + b)[..|a + b| - 1] == a + init;
      AsEventsSplit(a, init);
    }
  }

  /** The log when the reader has taken `k` of the messages. */
  function LogAt(log: seq<SessionEvent>, messages: seq<Message>, k: nat): seq<SessionEvent>
    requires k <= |messages|
  {
    log + AsEvents(messages[..k])
  }

  lemma LogAtShift(log: seq<SessionEvent>, messages: seq<Message>, k: nat)
    requires 1 <= k <= |messages|
    ensures LogAt(log + AsEvents([messages[0]]), messages[1..], k - 1) == LogAt(log, messages, k)
  {
    assert messages[..k] == [messages[0]] + messages[1..][..k - 1];
    AsEventsSplit([messages[0]], messages[1..][..k - 1]);
  }

  /** The reader is alive before message `k`, and does not have to wait for it. */
  predicate Goes(log: seq<SessionEvent>, messages: seq<Message>, k: nat)
    requires k < |messages|
  {
    Alive(LogAt(log, messages, k)) && !HoldsUp(LogAt(log, messages, k), messages[k])
  }

  /** The reader takes every message up to the first that it has to wait for, or the first after it was
      stopped; and the session then is what the log of these messages makes it. */
  lemma {:induction false} ReaderTakes(log: seq<SessionEvent>, messages: seq<Message>)
    decreases |messages|
    ensures var (end, n) := ReadAll(Exec(log), messages);
      && n <= |messages| && end == Exec(LogAt(log, messages, n))
      && (forall k :: 0 <= k < n ==> Goes(log, messages, k))
      && (n < |messages| ==> !Goes(log, messages, n))
  {
    LogTellsReader(log);
    assert messages[..0] == [] && log + [] == log;
    assert LogAt(log, messages, 0) == log;
    if messages != [] {
      OneMessage(log, messages[0]);
      hide Exec, Alive, HoldsUp, AsEvents, LogAt, AfterMessage, Waits;
      assert Goes(log, messages, 0) <==> Exec(log).reading && !Waits(Exec(log), messages[0]);
      if Goes(log, messages, 0) {
        var next, rest := log + AsEvents([messages[0]]), messages[1..];
        ReaderTakes(next, rest);
        var n := ReadAll(Exec(next), rest).1;
        forall k | 1 <= k <= |messages|
          ensures LogAt(next, rest, k - 1) == LogAt(log, messages, k)
          ensures k < |messages| ==> Goes(next, rest, k - 1) == Goes(log, messages, k)
        {
          LogAtShift(log, messages, k);
        }
        forall k | 0 <= k < n + 1
          ensures Goes(log, messages, k)
        {
          if k > 0 {
            assert Goes(next, rest, k - 1);
          }
        }
      }
    }
  }

  // ----- the waiters -----

  /** What an event is for the table of waiters. */
  function LedgerEvents(before: seq<SessionEvent>, e: SessionEvent): seq<Event<nat, Packet>> {
    match e
    case Expect(n) => [Register(n)]
    case GiveUp(w) => [Abandon(w)]
    case Incoming(p) => if p.kind == "reply" && Alive(before) then [Respond(p.number, p)] else []
    case _ => []
  }

  function AsLedgerLog(log: seq<SessionEvent>): seq<Event<nat, Packet>> {
    if log == [] then [] else AsLedgerLog(log[..|log| - 1]) + LedgerEvents(log[..|log| - 1], log[|log| - 1])
  }

  lemma WaiterStep(s: SessionState, before: seq<SessionEvent>, e: SessionEvent)
    requires s.reading == Alive(before)
    ensures var es := LedgerEvents(before, e);
      && |es| <= 1
      && SessionStep(s, e).responses == if es == [] then s.responses else LedgerStep(s.responses, es[0])
  {
    hide Alive, LedgerStep;
  }

  lemma ReplayAppend(log: seq<Event<nat, Packet>>, es: seq<Event<nat, Packet>>)
    requires |es| <= 1
    ensures Replay(log + es) == if es == [] then Replay(log) else LedgerStep(Replay(log), es[0])
  {
    hide LedgerStep;
    if es == [] {
      assert log + es == log;
    } else {
      assert (log + es)[..|log|] == log && (log + es)[|log|] == es[0];
    }
  }

  /** In every run the waiters are those of a table that saw the registrations, the drops, and exactly the
      replies that came while the reader was alive. */
  lemma {:induction false} LogTellsWaiters(log: seq<SessionEvent>)
    ensures Exec(log).responses == Replay(AsLedgerLog(log))
  {
    hide SessionStep, LedgerStep, LedgerEvents, Replay, Alive;
    if log == [] {
      NewTable();
    } else {
      var init, e := log[..|log| - 1], log[|log| - 1];
      LogTellsWaiters(init);
      LogTellsReader(init);
      WaiterStep(Exec(init), init, e);
      ReplayAppend(AsLedgerLog(init), LedgerEvents(init, e));
    }
  }

  lemma NewTable()
    ensures NEW_SESSION.responses == Replay<nat, Packet>([])
  {
    var log: seq<Event<nat, Packet>> := [];
    assert Replay(log) == Empty();
  }
}
