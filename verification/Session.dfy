// One session with the signalling server (src/core/p2p/session.rs).
//
// `SessionState` is the session as a value and `SessionStep` what one event does to it; the classes are
// proved against them. `QueueHistory` says what a listener gets in any run.
module Session {
  import opened Bytes
  import opened ResponseManager

  type PeerId = string

  const CAPACITY: nat := 100

  /** `OfferReply` */
  datatype Packet = Packet(kind: string, id: PeerId, to: PeerId, number: nat, description: string)

  /** The channel between `handle_packet` and one `PeerListener`. */
  datatype Queue = Queue(id: PeerId, received: seq<Packet>, waiting: seq<Packet>, open: bool)

  datatype SessionState = SessionState(
    senders: map<PeerId, nat>,            // the current queue of each peer id
    queues: seq<Queue>,                   // every queue ever made, in order
    responses: Ledger<nat, Packet>,
    reading: bool)                        // the reader task is alive

  const NEW_SESSION := SessionState(map[], [], Empty(), true)

  /** How `handle_packet` ends; `Blocked` waits for room in a full queue. */
  datatype Handling = Handled | Blocked | Failed

  datatype SessionEvent =
    | Incoming(packet: Packet)
    | Listen(id: PeerId)
    | Receive(queue: nat)
    | DropListener(queue: nat)
    | Expect(number: nat)      // `offer` registers its waiter
    | GiveUp(waiter: nat)      // `offer` returns early or is dropped
    | StopReading              // a close frame, a text that is no packet, or the end of the stream

  function Handle(s: SessionState, p: Packet): (SessionState, Handling) {
    if p.kind == "offer" then
      if p.to in s.senders && s.senders[p.to] < |s.queues| then
        var c := s.senders[p.to];
        var q := s.queues[c];
        if !q.open then (s, Failed)
        else if |q.waiting| >= CAPACITY then (s, Blocked)
        else (s.(queues := s.queues[c := q.(waiting := q.waiting + [p])]), Handled)
      else (s, Handled)
    else if p.kind == "reply" then
      (s.(responses := LedgerStep(s.responses, Respond(p.number, p))), Handled)
    else (s, Handled)
  }

  lemma BlockedChangesNothing(s: SessionState, p: Packet)
    ensures Handle(s, p).1 == Blocked ==> Handle(s, p).0 == s
  {
  }

  function SessionStep(s: SessionState, e: SessionEvent): SessionState {
    match e
    case Incoming(p) =>
      if !s.reading then s
      else
        var (t, r) := Handle(s, p);
        t.(reading := r != Failed)
    case Listen(id) => s.(senders := s.senders[id := |s.queues|], queues := s.queues + [Queue(id, [], [], true)])
    case Receive(c) =>
      if c < |s.queues| && s.queues[c].open && s.queues[c].waiting != [] then
        var q := s.queues[c];
        s.(queues := s.queues[c := q.(received := q.received + [q.waiting[0]], waiting := q.waiting[1..])])
      else s
    case DropListener(c) =>
      if c < |s.queues| then s.(queues := s.queues[c := s.queues[c].(open := false)]) else s
    case Expect(n) => s.(responses := LedgerStep(s.responses, Register(n)))
    case GiveUp(w) => s.(responses := LedgerStep(s.responses, Abandon(w)))
    case StopReading => s.(reading := false)
  }

  function Exec(events: seq<SessionEvent>): SessionState {
    if events == [] then NEW_SESSION else SessionStep(Exec(events[..|events| - 1]), events[|events| - 1])
  }

  // ----- the program -----

  datatype SendResult = Sent | Full | Closed

  /** A bounded `mpsc` channel with one receiver. */
  class Mpsc {
    const id: PeerId
    var waiting: seq<Packet>
    var open: bool
    ghost var received: seq<Packet>

    constructor (id: PeerId)
      ensures View() == Queue(id, [], [], true)
    {
      this.id := id;
      waiting, open, received := [], true, [];
    }

    ghost function View(): Queue
      reads this
    {
      Queue(id, received, waiting, open)
    }

    method Send(p: Packet) returns (r: SendResult)
      modifies this`waiting
      ensures r == if !open then Closed else if |old(waiting)| >= CAPACITY then Full else Sent
      ensures waiting == if r == Sent then old(waiting) + [p] else old(waiting)
    {
      if !open {
        return Closed;
      }
      if |waiting| >= CAPACITY {
        return Full;
      }
      waiting := waiting + [p];
      r := Sent;
    }
  }

  class PeerListener {
    const connectionReceiver: Mpsc

    constructor (connectionReceiver: Mpsc)
      ensures this.connectionReceiver == connectionReceiver
    {
      this.connectionReceiver := connectionReceiver;
    }

    /** `PeerListener::receive`; `None` when there is nothing to receive yet, or ever. */
    method Receive() returns (offer: Option<Packet>)
      requires connectionReceiver.open
      modifies connectionReceiver`waiting, connectionReceiver`received
      ensures var q := old(connectionReceiver.View());
        if q.waiting == [] then offer == None && connectionReceiver.View() == q
        else
          && offer == Some(q.waiting[0])
          && connectionReceiver.View() == q.(received := q.received + [q.waiting[0]], waiting := q.waiting[1..])
    {
      if connectionReceiver.waiting == [] {
        return None;
      }
      var head := connectionReceiver.waiting[0];
      connectionReceiver.received := connectionReceiver.received + [head];
      connectionReceiver.waiting := connectionReceiver.waiting[1..];
      offer := Some(head);
    }
  }

  /** What the WebSocket stream yields; a text that is not a packet makes the reader panic. */
  datatype Message = Text(packet: Option<Packet>) | Close | Other | ReceiveError

  class Session {
    var connectionSenders: map<PeerId, Mpsc>
    const responseManager: ResponseManager<nat, Packet>
    var reading: bool
    ghost var queues: seq<Mpsc>
    ghost var index: map<PeerId, nat>

    ghost function Repr(): set<object>
      reads this, responseManager
    {
      {this, responseManager} + (set q <- queues) + (set c <- responseManager.channels)
    }

    ghost predicate Valid()
      reads this, queues, responseManager, responseManager.channels
    {
      && connectionSenders.Keys == index.Keys
      && (forall id <- index :: index[id] < |queues| && connectionSenders[id] == queues[index[id]])
      && (forall i, j :: 0 <= i < j < |queues| ==> queues[i] != queues[j])
      && responseManager.Valid()
    }

    ghost function View(): SessionState
      reads this, queues, responseManager, responseManager.channels
    {
      SessionState(index, seq(|queues|, i requires 0 <= i < |queues| reads this, queues => queues[i].View()),
                   responseManager.View(), reading)
    }

    /** The state that `Session::new` builds before it spawns the reader. */
    constructor ()
      ensures Valid() && View() == NEW_SESSION && fresh(Repr())
    {
      connectionSenders := map[];
      responseManager := new ResponseManager();
      reading := true;
      queues, index := [], map[];
    }

    /** `handle_packet` */
    method HandlePacket(packet: Packet) returns (r: Handling)
      requires Valid()
      modifies queues, responseManager, responseManager.channels
      ensures Valid() && (View(), r) == Handle(old(View()), packet)
      ensures queues == old(queues) && responseManager.channels == old(responseManager.channels)
    {
      ghost var before := View();
      r := Handled;
      if packet.kind == "offer" {
        if packet.to in connectionSenders {
          var sent := connectionSenders[packet.to].Send(packet);
          r := match sent case Sent => Handled case Full => Blocked case Closed => Failed;
        }
      } else if packet.kind == "reply" {
        responseManager.HandleResponse(packet.number, packet);
      }
      assert View().queues == Handle(before, packet).0.queues;
    }

    /** `listener`; without effect if the registration cannot be sent (`registers`). */
    method Listener(id: PeerId, registers: bool) returns (listener: Option<PeerListener>)
      requires Valid()
      modifies this
      ensures Valid() && listener.Some? == registers
      ensures View() == if registers then SessionStep(old(View()), Listen(id)) else old(View())
      ensures registers ==>
        && fresh(listener.value) && fresh(listener.value.connectionReceiver)
        && queues == old(queues) + [listener.value.connectionReceiver]
    {
      if !registers {
        return None;
      }
      ghost var before := View();
      var channel := new Mpsc(id);
      connectionSenders := connectionSenders[id := channel];
      index := index[id := |queues|];
      queues := queues + [channel];
      var made := new PeerListener(channel);
      listener := Some(made);
      assert View().queues == SessionStep(before, Listen(id)).queues;
    }

    /** The reader handles a packet; if that fails, its `unwrap` panics. */
    method OnPacket(packet: Packet) returns (waits: bool)
      requires Valid() && reading
      modifies this`reading, queues, responseManager, responseManager.channels
      ensures Valid() && queues == old(queues) && responseManager.channels == old(responseManager.channels)
      ensures waits == (Handle(old(View()), packet).1 == Blocked)
      ensures View() == if waits then old(View()) else SessionStep(old(View()), Incoming(packet))
    {
      hide Handle, LedgerStep;
      ghost var before := View();
      BlockedChangesNothing(before, packet);
      var r := HandlePacket(packet);
      ghost var handled := View();
      assert handled.reading;
      waits := r == Blocked;
      if r == Failed {
        StopReader();
      }
    }

    method StopReader()
      requires Valid()
      modifies this`reading
      ensures Valid() && View() == SessionStep(old(View()), StopReading)
    {
      reading := false;
    }

    /** One round of the reader task's loop; `waits` if a full queue holds it up. */
    method OnMessage(message: Message) returns (waits: bool)
      requires Valid() && reading
      modifies this`reading, queues, responseManager, responseManager.channels
      ensures Valid() && queues == old(queues) && responseManager.channels == old(responseManager.channels)
      ensures waits == Waits(old(View()), message)
      ensures View() == if waits then old(View()) else AfterMessage(old(View()), message)
    {
      hide Handle, SessionStep;
      waits := false;
      match message {
        case Text(None) => StopReader();
        case Text(Some(packet)) => waits := OnPacket(packet);
        case Close => StopReader();
        case Other =>
        case ReceiveError =>
      }
    }

    /** The task that `Session::new` spawns: it handles messages until the stream ends, a close frame
        or a panic stops it, or a full queue makes it wait. Returns how many messages it took. */
    method ReaderTask(messages: seq<Message>) returns (taken: nat)
      requires Valid()
      modifies this`reading, queues, responseManager, responseManager.channels
      ensures Valid() && taken <= |messages|
      ensures (View(), taken) == ReadAll(old(View()), messages)
    {
      hide Handle, SessionStep;
      taken := 0;
      ghost var goal := ReadAll(View(), messages);
      while taken < |messages| && reading
        invariant Valid() && taken <= |messages| && queues == old(queues)
        invariant responseManager.channels == old(responseManager.channels)
        invariant var (s, n) := ReadAll(View(), messages[taken..]); goal == (s, taken + n)
      {
        assert messages[taken..][1..] == messages[taken + 1..];
        var waits := OnMessage(messages[taken]);
        if waits {
          return;
        }
        taken := taken + 1;
      }
    }
  }

  /** The reader task as a function: the state it leaves and the number of messages it takes. */
  function ReadAll(s: SessionState, messages: seq<Message>): (SessionState, nat)
    decreases |messages|
  {
    if messages == [] || !s.reading then (s, 0)
    else
      if Waits(s, messages[0]) then (s, 0)
      else
        var (end, n) := ReadAll(AfterMessage(s, messages[0]), messages[1..]);
        (end, n + 1)
  }

  function AfterMessage(s: SessionState, m: Message): SessionState {
    match m
    case Text(None) => SessionStep(s, StopReading)
    case Text(Some(p)) => SessionStep(s, Incoming(p))
    case Close => SessionStep(s, StopReading)
    case _ => s
  }

  predicate Waits(s: SessionState, m: Message) {
    m.Text? && m.packet.Some? && Handle(s, m.packet.value).1 == Blocked
  }

  // ----- the offer queues, over all runs -----

  /** The session puts `e`, an offer, into a queue. */
  predicate Enqueues(s: SessionState, e: SessionEvent) {
    && e.Incoming? && e.packet.kind == "offer" && s.reading
    && Handle(s, e.packet).1 == Handled && e.packet.to in s.senders
  }

  /** The offers for `id` that were put into a queue at or after position `from`, in order. */
  function Enqueued(events: seq<SessionEvent>, from: nat, id: PeerId): seq<Packet> {
    if |events| <= from then []
    else
      var init, e := events[..|events| - 1], events[|events| - 1];
      Enqueued(init, from, id) + if Enqueues(Exec(init), e) && e.packet.to == id then [e.packet] else []
  }

  /** The last position at which a listener for `id` was installed. */
  function InstalledAt(events: seq<SessionEvent>, id: PeerId): (k: Option<nat>)
    ensures k.Some? ==> k.value < |events|
  {
    if events == [] then None
    else if events[|events| - 1] == Listen(id) then Some(|events| - 1)
    else InstalledAt(events[..|events| - 1], id)
  }

  ghost predicate QueuesInvariant(s: SessionState) {
    && (forall id <- s.senders :: s.senders[id] < |s.queues| && s.queues[s.senders[id]].id == id)
    && (forall c :: 0 <= c < |s.queues| ==> QueueSound(s.queues[c]))
  }

  /** Bounded, and holding offers for its own peer id only. */
  predicate QueueSound(q: Queue) {
    && |q.waiting| <= CAPACITY
    && (forall p <- q.received + q.waiting :: p.kind == "offer" && p.to == q.id)
  }

  function Arrived(q: Queue): seq<Packet> {
    q.received + q.waiting
  }

  lemma ReceiveKeepsArrived(q: Queue)
    requires q.waiting != []
    ensures Arrived(q.(received := q.received + [q.waiting[0]], waiting := q.waiting[1..])) == Arrived(q)
  {
    assert q.waiting == [q.waiting[0]] + q.waiting[1..];
  }

  lemma SendExtendsArrived(q: Queue, p: Packet)
    ensures Arrived(q.(waiting := q.waiting + [p])) == Arrived(q) + [p]
  {
  }

  /** What one event adds to a queue: nothing, or the offer behind those that arrived before. */
  lemma QueueArrives(s: SessionState, e: SessionEvent, c: nat)
    requires QueuesInvariant(s) && c < |s.queues|
    ensures var t := SessionStep(s, e);
      && c < |t.queues| && t.queues[c].id == s.queues[c].id && |t.queues[c].waiting| <= CAPACITY
      && Arrived(t.queues[c]) == Arrived(s.queues[c])
           + if Enqueues(s, e) && s.senders[e.packet.to] == c then [e.packet] else []
  {
    assert QueueSound(s.queues[c]);
    hide LedgerStep, Arrived, QueueSound;
    var q := s.queues[c];
    if q.waiting != [] {
      ReceiveKeepsArrived(q);
    }
    if e.Incoming? {
      SendExtendsArrived(q, e.packet);
    }
    assert Arrived(q) + [] == Arrived(q);
  }

  lemma QueueStep(s: SessionState, e: SessionEvent, c: nat)
    requires QueuesInvariant(s) && c < |s.queues|
    ensures var t := SessionStep(s, e);
      && c < |t.queues| && t.queues[c].id == s.queues[c].id && QueueSound(t.queues[c])
      && Arrived(t.queues[c]) == Arrived(s.queues[c])
           + if Enqueues(s, e) && s.senders[e.packet.to] == c then [e.packet] else []
  {
    QueueArrives(s, e, c);
    assert QueueSound(s.queues[c]);
    assert Enqueues(s, e) ==> s.queues[s.senders[e.packet.to]].id == e.packet.to;
    hide SessionStep, LedgerStep;
    assert forall p <- Arrived(s.queues[c]) :: p.kind == "offer" && p.to == s.queues[c].id;
  }

  lemma StepKeepsQueues(s: SessionState, e: SessionEvent)
    requires QueuesInvariant(s)
    ensures QueuesInvariant(SessionStep(s, e))
  {
    var t := SessionStep(s, e);
    forall c | 0 <= c < |t.queues|
      ensures QueueSound(t.queues[c])
    {
      if c < |s.queues| {
        QueueStep(s, e, c);
      }
    }
    StepKeepsSenders(s, e);
  }

  lemma StepKeepsSenders(s: SessionState, e: SessionEvent)
    requires QueuesInvariant(s)
    ensures var t := SessionStep(s, e);
      forall id <- t.senders :: t.senders[id] < |t.queues| && t.queues[t.senders[id]].id == id
  {
    hide QueueSound, LedgerStep;
  }

  /** In every run, an id has a queue exactly if a listener was installed for it; and what the current
      listener received, followed by what still waits, is every offer for that id that was put into a
      queue since, in order. No queue exceeds its capacity or holds an offer for another id. */
  lemma {:induction false} QueueHistory(events: seq<SessionEvent>, id: PeerId)
    ensures QueuesInvariant(Exec(events))
    ensures id in Exec(events).senders <==> InstalledAt(events, id).Some?
    ensures id in Exec(events).senders ==>
      var s := Exec(events);
      Arrived(s.queues[s.senders[id]]) == Enqueued(events, InstalledAt(events, id).value + 1, id)
  {
    hide SessionStep, Handle, QueueSound, Arrived, Enqueues;
    if events == [] {
      NewSessionSound();
    } else {
      var init, e := events[..|events| - 1], events[|events| - 1];
      var s := Exec(init);
      QueueHistory(init, id);
      StepKeepsQueues(s, e);
      SenderOf(s, e, id);
      if e != Listen(id) && id in s.senders {
        QueueStep(s, e, s.senders[id]);
      }
    }
  }

  lemma NewSessionSound()
    ensures QueuesInvariant(NEW_SESSION)
  {
  }

  /** Only installing a listener changes the current queue of an id. */
  lemma SenderOf(s: SessionState, e: SessionEvent, id: PeerId)
    requires QueuesInvariant(s)
    ensures var t := SessionStep(s, e);
      if e == Listen(id) then id in t.senders && t.senders[id] < |t.queues| && Arrived(t.queues[t.senders[id]]) == []
      else
        && (id in t.senders <==> id in s.senders)
        && (id in s.senders ==>
              && t.senders[id] == s.senders[id]
              && (Enqueues(s, e) ==> (s.senders[e.packet.to] == s.senders[id] <==> e.packet.to == id)))
  {
    hide QueueSound, LedgerStep;
  }

  // ----- when the reader is still alive -----

  /** How many listeners were installed. */
  function Listeners(events: seq<SessionEvent>): nat {
    if events == [] then 0
    else Listeners(events[..|events| - 1]) + if events[|events| - 1].Listen? then 1 else 0
  }

  /** The number of the listener that was last installed for `id`. */
  function Current(events: seq<SessionEvent>, id: PeerId): Option<nat> {
    if events == [] then None
    else
      var init := events[..|events| - 1];
      if events[|events| - 1] == Listen(id) then Some(Listeners(init)) else Current(init, id)
  }

  /** The listener that was last installed for `id` has been dropped. */
  predicate Gone(events: seq<SessionEvent>, id: PeerId) {
    && events != []
    && var init, e := events[..|events| - 1], events[|events| - 1];
       e != Listen(id) && (Gone(init, id) || (e.DropListener? && Current(init, id) == Some(e.queue)))
  }

  lemma {:induction false} GoneMeansClosed(events: seq<SessionEvent>, id: PeerId)
    ensures var s := Exec(events);
      && QueuesInvariant(s) && |s.queues| == Listeners(events)
      && (id in s.senders <==> Current(events, id).Some?)
      && (id in s.senders ==> s.senders[id] == Current(events, id).value)
      && (Gone(events, id) <==> id in s.senders && !s.queues[s.senders[id]].open)
  {
    if events != [] {
      var init, e := events[..|events| - 1], events[|events| - 1];
      GoneMeansClosed(init, id);
      StepKeepsQueues(Exec(init), e);
      hide Exec, QueueSound, Listeners, Current, Gone;
      OpenStep(Exec(init), e, id);
    }
  }

  /** What one event does to the current queue of an id. */
  lemma OpenStep(s: SessionState, e: SessionEvent, id: PeerId)
    requires QueuesInvariant(s)
    ensures var t := SessionStep(s, e);
      && |t.queues| == |s.queues| + (if e.Listen? then 1 else 0)
      && (if e == Listen(id) then id in t.senders && t.senders[id] == |s.queues| && t.queues[|s.queues|].open
          else
            && (id in t.senders <==> id in s.senders)
            && (id in s.senders ==>
                  && t.senders[id] == s.senders[id] < |t.queues|
                  && t.queues[s.senders[id]].open == (s.queues[s.senders[id]].open && e != DropListener(s.senders[id]))))
  {
  }

  /** An event that stops the reader, as far as one can tell from what happened before. */
  predicate Stops(before: seq<SessionEvent>, e: SessionEvent) {
    e.StopReading? || (e.Incoming? && e.packet.kind == "offer" && Gone(before, e.packet.to))
  }

  lemma AliveStep(init: seq<SessionEvent>, e: SessionEvent)
    ensures SessionStep(Exec(init), e).reading <==> Exec(init).reading && !Stops(init, e)
  {
    if e.Incoming? {
      GoneMeansClosed(init, e.packet.to);
    }
    hide Exec, Gone, LedgerStep, QueueSound;
  }

  /** In every run the reader is alive exactly if the stream has not stopped it and no offer has come for
      an id whose last listener was dropped before. */
  lemma {:induction false} AliveExactlyIf(events: seq<SessionEvent>)
    ensures Exec(events).reading <==> forall k :: 0 <= k < |events| ==> !Stops(events[..k], events[k])
  {
    hide SessionStep, Stops;
    if events != [] {
      var n := |events| - 1;
      var init, e := events[..n], events[n];
      AliveExactlyIf(init);
      AliveStep(init, e);
      assert forall k :: 0 <= k < n ==> events[..k] == init[..k] && events[k] == init[k];
    }
  }
}
