// Offers and replies between any number of sessions (src/core/p2p/session.rs and the messages of
// src/core/p2p/peer_connection.rs), over a relay that may lose, duplicate, reorder and misroute
// packets but does not alter them: a packet that was ever sent may reach any session, any number
// of times, at any moment.
module Signalling {
  import opened Bytes
  import opened ResponseManager
  import opened Session

  /** Where an `offer` call stands, apart from its waiter. */
  datatype Phase = Registered | Offered | GivenUp

  datatype Call = Call(session: nat, offer: Packet, waiter: nat, phase: Phase)

  datatype System = System(
    sessions: seq<SessionState>,
    calls: seq<Call>,
    wire: set<Packet>,                 // every packet ever sent
    accepts: set<(Packet, Packet)>)    // each offer that was accepted, with the reply it got

  datatype Action =
    | StartOffer(session: nat, offer: Packet)           // `offer`: register the waiter ...
    | SendOffer(call: nat)                              // ... and then send
    | DropCall(call: nat)                               // the send fails, or the call is dropped
    | Deliver(session: nat, packet: Packet)
    | Install(session: nat, id: PeerId)
    | TakeOffer(session: nat, queue: nat)
    | CloseListener(session: nat, queue: nat)
    | StreamStops(session: nat)                         // the session's reader ends
    | Accept(session: nat, queue: nat, k: nat, description: string)

  /** The reply that `accept` sends. */
  function Reply(o: Packet, description: string): Packet {
    Packet("reply", o.to, o.id, o.number, description)
  }

  function OnSession(s: System, i: nat, e: SessionEvent): System
    requires i < |s.sessions|
  {
    s.(sessions := s.sessions[i := SessionStep(s.sessions[i], e)])
  }

  predicate Enabled(s: System, a: Action) {
    match a
    case StartOffer(i, o) => i < |s.sessions| && o.kind == "offer"
    case SendOffer(c) => c < |s.calls| && s.calls[c].phase == Registered
    case DropCall(c) => c < |s.calls| && s.calls[c].session < |s.sessions|
    case Deliver(i, p) => i < |s.sessions| && p in s.wire
    case Install(i, _) => i < |s.sessions|
    case TakeOffer(i, _) => i < |s.sessions|
    case CloseListener(i, _) => i < |s.sessions|
    case StreamStops(i) => i < |s.sessions|
    case Accept(i, c, k, _) =>
      i < |s.sessions| && c < |s.sessions[i].queues| && k < |s.sessions[i].queues[c].received|
  }

  /** One step; an action that is not enabled changes nothing. */
  function Act(s: System, a: Action): System {
    if !Enabled(s, a) then s
    else
      match a
      case StartOffer(i, o) =>
        OnSession(s, i, Expect(o.number)).(
          calls := s.calls + [Call(i, o, |s.sessions[i].responses.slots|, Registered)])
      case SendOffer(c) =>
        s.(calls := s.calls[c := s.calls[c].(phase := Offered)], wire := s.wire + {s.calls[c].offer})
      case DropCall(c) =>
        OnSession(s, s.calls[c].session, GiveUp(s.calls[c].waiter)).(
          calls := s.calls[c := s.calls[c].(phase := GivenUp)])
      case Deliver(i, p) => OnSession(s, i, Incoming(p))
      case Install(i, id) => OnSession(s, i, Listen(id))
      case TakeOffer(i, c) => OnSession(s, i, Receive(c))
      case CloseListener(i, c) => OnSession(s, i, DropListener(c))
      case StreamStops(i) => OnSession(s, i, StopReading)
      case Accept(i, c, k, description) =>
        var o := s.sessions[i].queues[c].received[k];
        var r := Reply(o, description);
        s.(wire := s.wire + {r}, accepts := s.accepts + {(o, r)})
  }

  function Initial(n: nat): System {
    System(seq(n, _ => NEW_SESSION), [], {}, {})
  }

  /** The state after a run. */
  function Run(s: System, actions: seq<Action>): System
    decreases |actions|
  {
    if actions == [] then s else Run(Act(s, actions[0]), actions[1..])
  }

  function Slots(s: System, i: nat): seq<Slot<Packet>>
    requires i < |s.sessions|
  {
    s.sessions[i].responses.slots
  }

  /** The reply that call `c` returns, once it has one. */
  function Returned(s: System, c: nat): Option<Packet>
    requires c < |s.calls|
  {
    var call := s.calls[c];
    if call.session < |s.sessions| && call.waiter < |Slots(s, call.session)| && Slots(s, call.session)[call.waiter].outcome.Delivered?
    then Some(Slots(s, call.session)[call.waiter].outcome.response)
    else None
  }

  // ----- the invariant -----

  ghost predicate WasOffered(s: System, p: Packet) {
    exists c :: 0 <= c < |s.calls| && s.calls[c].offer == p && s.calls[c].phase != Registered
  }

  ghost predicate WireSound(s: System) {
    && (forall p <- s.wire :: (p.kind == "offer" && WasOffered(s, p)) || (p.kind == "reply" && exists o :: (o, p) in s.accepts))
    && (forall o, r :: (o, r) in s.accepts ==> o in s.wire && o.kind == "offer" && r == Reply(o, r.description))
  }

  ghost predicate QueuesSound(s: System, i: nat)
    requires i < |s.sessions|
  {
    && QueuesInvariant(s.sessions[i])
    && forall c, p :: 0 <= c < |s.sessions[i].queues| && p in Arrived(s.sessions[i].queues[c])
         ==> p in s.wire
  }

  /** A call's waiter is pending exactly if its number is in the table for it; and what it was answered
      with is a reply from the wire with its number. */
  ghost predicate CallSound(s: System, call: Call) {
    && call.session < |s.sessions|
    && call.offer.kind == "offer"
    && var v := s.sessions[call.session].responses;
       && call.waiter < |v.slots|
       && (forall id <- v.table :: v.table[id] == call.waiter ==> id == call.offer.number)
       && match v.slots[call.waiter].outcome
          case Pending => call.offer.number in v.table && v.table[call.offer.number] == call.waiter
          case Superseded => true
          case _ =>
            var r := v.slots[call.waiter].outcome.response;
            r in s.wire && r.kind == "reply" && r.number == call.offer.number
  }

  ghost predicate Inv(s: System) {
    && WireSound(s)
    && (forall i :: 0 <= i < |s.sessions| ==> QueuesSound(s, i) && s.sessions[i].responses.Consistent())
    && (forall c :: 0 <= c < |s.calls| ==> CallSound(s, s.calls[c]))
  }

  lemma InitialInv(n: nat)
    ensures Inv(Initial(n))
  {
  }

  // ----- every action keeps it -----

  lemma CallIsOffer(s: System, c: nat)
    requires Inv(s) && c < |s.calls|
    ensures s.calls[c].offer.kind == "offer"
  {
    assert CallSound(s, s.calls[c]);
  }

  lemma ReceivedIsOffer(s: System, i: nat, c: nat, k: nat)
    requires Inv(s) && Enabled(s, Accept(i, c, k, ""))
    ensures var o := s.sessions[i].queues[c].received[k]; o in s.wire && o.kind == "offer"
  {
    var q := s.sessions[i].queues[c];
    assert QueuesSound(s, i) && QueueSound(q);
    assert q.received[k] in Arrived(q);
  }

  lemma WireSoundKept(s: System, a: Action)
    requires Inv(s)
    ensures WireSound(Act(s, a))
  {
    hide SessionStep, QueueSound, CallSound;
    var t := Act(s, a);
    forall p | p in s.wire && WasOffered(s, p)
      ensures WasOffered(t, p)
    {
      var c :| 0 <= c < |s.calls| && s.calls[c].offer == p && s.calls[c].phase != Registered;
      assert t.calls[c].offer == p && t.calls[c].phase != Registered;
    }
    if Enabled(s, a) {
      match a {
        case SendOffer(c) =>
          CallIsOffer(s, c);
          assert t.calls[c].offer == s.calls[c].offer && t.calls[c].phase != Registered;
        case Accept(i, c, k, d) =>
          ReceivedIsOffer(s, i, c, k);
        case _ =>
      }
    }
  }

  /** The event that an action is for the session it concerns. */
  function EventOf(s: System, a: Action): SessionEvent {
    match a
    case StartOffer(_, o) => Expect(o.number)
    case DropCall(c) => GiveUp(if c < |s.calls| then s.calls[c].waiter else 0)
    case Deliver(_, p) => Incoming(p)
    case Install(_, id) => Listen(id)
    case TakeOffer(_, c) => Receive(c)
    case CloseListener(_, c) => DropListener(c)
    case StreamStops(_) => StopReading
    case _ => Receive(0)
  }

  /** What an action does to a session: nothing, or one event. */
  lemma SessionChange(s: System, a: Action, i: nat)
    requires i < |s.sessions|
    ensures i < |Act(s, a).sessions| && s.wire <= Act(s, a).wire
    ensures var v, u := s.sessions[i], Act(s, a).sessions[i];
      u == v || (Enabled(s, a) && u == SessionStep(v, EventOf(s, a)))
  {
    hide SessionStep;
  }

  lemma QueuesSoundKept(s: System, a: Action, i: nat)
    requires i < |s.sessions| && QueuesSound(s, i)
    ensures i < |Act(s, a).sessions| && QueuesSound(Act(s, a), i)
  {
    SessionChange(s, a, i);
    var t := Act(s, a);
    if t.sessions[i] != s.sessions[i] {
      var e := EventOf(s, a);
      assert e.Incoming? ==> e.packet in s.wire;
      hide Act, SessionStep, QueueSound, QueuesInvariant, Arrived, Enqueues;
      StepKeepsQueues(s.sessions[i], e);
      forall c, p | 0 <= c < |t.sessions[i].queues| && p in Arrived(t.sessions[i].queues[c])
        ensures p in t.wire
      {
        QueueGrows(s.sessions[i], e, c, p);
      }
    }
  }

  /** What is in a queue was there before, or has just come. */
  lemma QueueGrows(v: SessionState, e: SessionEvent, c: nat, p: Packet)
    requires QueuesInvariant(v) && c < |SessionStep(v, e).queues| && p in Arrived(SessionStep(v, e).queues[c])
    ensures (c < |v.queues| && p in Arrived(v.queues[c])) || (e.Incoming? && p == e.packet)
  {
    if c < |v.queues| {
      hide SessionStep, QueueSound, Arrived;
      QueueStep(v, e, c);
    } else {
      hide Handle, LedgerStep, QueueSound;
    }
  }

  function LedgerEvent(s: System, a: Action): Option<Event<nat, Packet>> {
    match a
    case StartOffer(_, o) => Some(Register(o.number))
    case DropCall(c) => if c < |s.calls| then Some(Abandon(s.calls[c].waiter)) else None
    case Deliver(_, p) => if p.kind == "reply" then Some(Respond(p.number, p)) else None
    case _ => None
  }

  /** What an action does to the waiters of a session: nothing, or one event. */
  lemma LedgerChange(s: System, a: Action, i: nat)
    requires i < |s.sessions|
    ensures i < |Act(s, a).sessions|
    ensures var v, u := s.sessions[i].responses, Act(s, a).sessions[i].responses;
      u == v || (Enabled(s, a) && LedgerEvent(s, a).Some? && u == LedgerStep(v, LedgerEvent(s, a).value))
  {
    hide LedgerStep;
  }

  lemma CallSoundKept(s: System, a: Action, call: Call)
    requires Inv(s) && CallSound(s, call)
    ensures CallSound(Act(s, a), call)
  {
    hide Act, WireSound, QueuesSound;
    LedgerChange(s, a, call.session);
    SessionChange(s, a, call.session);
    var v, u := s.sessions[call.session].responses, Act(s, a).sessions[call.session].responses;
    assert v.Consistent();
    if u != v {
      match LedgerEvent(s, a).value {
        case Register(id) =>
        case Respond(id, r) => assert r in s.wire && r.kind == "reply" && r.number == id;
        case Abandon(w) =>
      }
    }
  }

  lemma ActKeepsInv(s: System, a: Action)
    requires Inv(s)
    ensures Inv(Act(s, a))
  {
    var t := Act(s, a);
    WireSoundKept(s, a);
    forall i | 0 <= i < |t.sessions|
      ensures QueuesSound(t, i) && t.sessions[i].responses.Consistent()
    {
      QueuesSoundKept(s, a, i);
      LedgerChange(s, a, i);
      if t.sessions[i].responses != s.sessions[i].responses {
        StepKeepsConsistent(s.sessions[i].responses, LedgerEvent(s, a).value);
      }
    }
    forall c | 0 <= c < |t.calls|
      ensures CallSound(t, t.calls[c])
    {
      if c < |s.calls| {
        CallSoundKept(s, a, s.calls[c]);
      } else {
        NewCallSound(s, a);
      }
    }
  }

  lemma NewCallSound(s: System, a: Action)
    requires Inv(s) && a.StartOffer? && Enabled(s, a)
    ensures CallSound(Act(s, a), Call(a.session, a.offer, |s.sessions[a.session].responses.slots|, Registered))
  {
    assert s.sessions[a.session].responses.Consistent();
  }

  lemma {:induction false} RunKeepsInv(s: System, actions: seq<Action>)
    requires Inv(s)
    decreases |actions|
    ensures Inv(Run(s, actions))
  {
    if actions != [] {
      ActKeepsInv(s, actions[0]);
      RunKeepsInv(Act(s, actions[0]), actions[1..]);
    }
  }

  // ----- correlation -----

  /** What `accept` answers `o` with. */
  predicate Answers(r: Packet, o: Packet) {
    r.kind == "reply" && r.number == o.number && r.id == o.to && r.to == o.id
  }

  /** No other offer carries the number of call `c`. */
  predicate NumberIsUnique(s: System, c: nat)
    requires c < |s.calls|
  {
    forall d :: 0 <= d < |s.calls| && s.calls[d].offer.number == s.calls[c].offer.number
      ==> s.calls[d].offer == s.calls[c].offer
  }

  /** In every run, what a call returns is a reply with its number that was made by accepting an offer
      that was sent; if the number is unique, by accepting this very offer. */
  lemma ReplyMatchesOffer(n: nat, actions: seq<Action>, c: nat)
    requires c < |Run(Initial(n), actions).calls|
    requires Returned(Run(Initial(n), actions), c).Some?
    ensures var s := Run(Initial(n), actions);
      var o, r := s.calls[c].offer, Returned(s, c).value;
      && r.number == o.number
      && (exists o' :: (o', r) in s.accepts && WasOffered(s, o') && Answers(r, o'))
      && (NumberIsUnique(s, c) ==> (o, r) in s.accepts && Answers(r, o))
  {
    InitialInv(n);
    RunKeepsInv(Initial(n), actions);
    var s := Run(Initial(n), actions);
    var r := Returned(s, c).value;
    assert CallSound(s, s.calls[c]);
    assert r in s.wire;
    var o' :| (o', r) in s.accepts;
    assert o' in s.wire && WasOffered(s, o') && Answers(r, o');
  }

  // ----- where an answer comes from -----

  /** At position `k` of the run an offer `o` is accepted, and `r` tells the caller so: it swaps the peers,
      keeps the number, and describes the acceptor. */
  ghost predicate AcceptedAt(n: nat, actions: seq<Action>, k: nat, o: Packet, r: Packet) {
    && k < |actions| && actions[k].Accept?
    && var s, a := Run(Initial(n), actions[..k]), actions[k];
    && a.session < |s.sessions| && a.queue < |s.sessions[a.session].queues|
    && a.k < |s.sessions[a.session].queues[a.queue].received|
    && o == s.sessions[a.session].queues[a.queue].received[a.k]
    && r.kind == "reply" && r.number == o.number && r.id == o.to && r.to == o.id && r.description == a.description
  }

  lemma {:induction false} RunAppend(s: System, actions: seq<Action>, a: Action)
    decreases |actions|
    ensures Run(s, actions + [a]) == Act(Run(s, actions), a)
  {
    hide Act;
    if actions == [] {
      assert [a][1..] == [] && [] + [a] == [a];
      assert Run(s, [a]) == Run(Act(s, a), []);
    } else {
      assert (actions + [a])[1..] == actions[1..] + [a];
      RunAppend(Act(s, actions[0]), actions[1..], a);
    }
  }

  lemma AcceptedStill(n: nat, init: seq<Action>, a: Action, k: nat, o: Packet, r: Packet)
    requires AcceptedAt(n, init, k, o, r)
    ensures AcceptedAt(n, init + [a], k, o, r)
  {
    hide Run;
    assert (init + [a])[..k] == init[..k] && (init + [a])[k] == init[k];
  }

  lemma NewAccept(s: System, a: Action, o: Packet, r: Packet)
    requires (o, r) in Act(s, a).accepts && (o, r) !in s.accepts
    ensures a.Accept? && a.session < |s.sessions| && a.queue < |s.sessions[a.session].queues|
    ensures a.k < |s.sessions[a.session].queues[a.queue].received|
    ensures o == s.sessions[a.session].queues[a.queue].received[a.k]
    ensures r.kind == "reply" && r.number == o.number && r.id == o.to && r.to == o.id && r.description == a.description
  {
    hide SessionStep;
  }

  lemma AcceptStep(n: nat, init: seq<Action>, a: Action, o: Packet, r: Packet)
    requires (o, r) in Act(Run(Initial(n), init), a).accepts && (o, r) !in Run(Initial(n), init).accepts
    ensures AcceptedAt(n, init + [a], |init|, o, r)
  {
    hide Run, Act;
    NewAccept(Run(Initial(n), init), a, o, r);
    assert (init + [a])[..|init|] == init && (init + [a])[|init|] == a;
  }

  lemma {:induction false} AcceptsAreActions(n: nat, actions: seq<Action>, o: Packet, r: Packet) returns (k: nat)
    requires (o, r) in Run(Initial(n), actions).accepts
    decreases |actions|
    ensures AcceptedAt(n, actions, k, o, r)
  {
    hide Act, AcceptedAt;
    k := 0;
    if actions == [] {
      assert false;
    } else {
      var last := |actions| - 1;
      var init, a := actions[..last], actions[last];
      assert actions == init + [a];
      RunAppend(Initial(n), init, a);
      if (o, r) in Run(Initial(n), init).accepts {
        k := AcceptsAreActions(n, init, o, r);
        AcceptedStill(n, init, a, k, o, r);
      } else {
        k := last;
        AcceptStep(n, init, a, o, r);
      }
    }
  }

  /** In every run, what a call returns was made when some session accepted an offer with the call's number,
      and has the description that this acceptor gave; if the number is unique, it was the very offer of the
      call. */
  lemma AnswerIsTheAcceptors(n: nat, actions: seq<Action>, c: nat) returns (k: nat, o: Packet)
    requires c < |Run(Initial(n), actions).calls|
    requires Returned(Run(Initial(n), actions), c).Some?
    ensures var s := Run(Initial(n), actions);
      && AcceptedAt(n, actions, k, o, Returned(s, c).value)
      && o.kind == "offer" && o.number == s.calls[c].offer.number
      && (NumberIsUnique(s, c) ==> o == s.calls[c].offer)
  {
    var s := Run(Initial(n), actions);
    var r := Returned(s, c).value;
    ReplyMatchesOffer(n, actions, c);
    hide Act, AcceptedAt;
    o :| (o, r) in s.accepts && WasOffered(s, o) && Answers(r, o);
    InitialInv(n);
    RunKeepsInv(Initial(n), actions);
    k := AcceptsAreActions(n, actions, o, r);
  }

  /** In every run, a reply that is anywhere on the wire has a waiter: a call with its number was
      registered and then sent, and it is pending exactly while the table still holds it. */
  lemma NoReplyOutrunsItsWaiter(n: nat, actions: seq<Action>, r: Packet) returns (c: nat)
    requires r in Run(Initial(n), actions).wire && r.kind == "reply"
    ensures var s := Run(Initial(n), actions);
      && c < |s.calls| && s.calls[c].session < |s.sessions|
      && s.calls[c].offer.number == r.number && s.calls[c].phase != Registered
      && var v := s.sessions[s.calls[c].session].responses;
         && s.calls[c].waiter < |v.slots|
         && (v.slots[s.calls[c].waiter].outcome.Pending?
             <==> r.number in v.table && v.table[r.number] == s.calls[c].waiter)
  {
    InitialInv(n);
    RunKeepsInv(Initial(n), actions);
    var s := Run(Initial(n), actions);
    var o :| (o, r) in s.accepts;
    assert o in s.wire && WasOffered(s, o);
    c :| 0 <= c < |s.calls| && s.calls[c].offer == o && s.calls[c].phase != Registered;
    assert CallSound(s, s.calls[c]);
    assert s.sessions[s.calls[c].session].responses.Consistent();
  }

  /** No call with number `n` starts at session `i`. */
  predicate NotExpectedAgain(actions: seq<Action>, i: nat, n: nat) {
    forall a <- actions :: !(a.StartOffer? && a.session == i && a.offer.number == n)
  }

  lemma StaysUnexpected(s: System, a: Action, i: nat, n: nat)
    requires i < |s.sessions| && n !in s.sessions[i].responses.table
    requires !(a.StartOffer? && a.session == i && a.offer.number == n)
    ensures i < |Act(s, a).sessions| && n !in Act(s, a).sessions[i].responses.table
  {
  }

  lemma {:induction false} StaysUnexpectedInRun(s: System, actions: seq<Action>, i: nat, n: nat)
    requires i < |s.sessions| && n !in s.sessions[i].responses.table
    requires NotExpectedAgain(actions, i, n)
    decreases |actions|
    ensures i < |Run(s, actions).sessions| && n !in Run(s, actions).sessions[i].responses.table
  {
    hide Act;
    if actions != [] {
      assert actions[0] in actions && forall a <- actions[1..] :: a in actions;
      StaysUnexpected(s, actions[0], i, n);
      StaysUnexpectedInRun(Act(s, actions[0]), actions[1..], i, n);
    }
  }

  lemma UnexpectedIsIgnored(s: System, i: nat, r: Packet)
    requires i < |s.sessions| && r.kind == "reply" && r.number !in s.sessions[i].responses.table
    ensures Act(s, Deliver(i, r)) == s
  {
    var v := s.sessions[i];
    assert SessionStep(v, SessionEvent.Incoming(r)) == v;
    assert s.sessions[i := v] == s.sessions;
  }

  lemma FirstCopyIsTaken(s: System, c: nat, r: Packet)
    requires Inv(s) && c < |s.calls| && r in s.wire && r.kind == "reply"
    requires var call := s.calls[c];
      && s.sessions[call.session].reading && r.number == call.offer.number
      && Slots(s, call.session)[call.waiter].outcome.Pending? && Slots(s, call.session)[call.waiter].listening
    ensures var i := s.calls[c].session;
      var t := Act(s, Deliver(i, r));
      && c < |t.calls| && i < |t.sessions| && Returned(t, c) == Some(r)
      && r.number !in t.sessions[i].responses.table
  {
    hide WireSound, QueuesSound;
    assert CallSound(s, s.calls[c]);
  }

  /** The first copy of a reply that reaches a session answers the call that waits for its number, unless
      that call was dropped. Whatever happens from then on, as long as that session does not start a call
      with the same number: the call keeps the answer, and no later reply with this number changes
      anything. */
  lemma FirstCopyAnswers(s: System, c: nat, r: Packet, later: seq<Action>, copy: Packet)
    requires Inv(s) && c < |s.calls| && r in s.wire && r.kind == "reply"
    requires var call := s.calls[c];
      && s.sessions[call.session].reading && r.number == call.offer.number
      && Slots(s, call.session)[call.waiter].outcome.Pending? && Slots(s, call.session)[call.waiter].listening
    requires NotExpectedAgain(later, s.calls[c].session, r.number)
    requires copy.kind == "reply" && copy.number == r.number
    ensures var i := s.calls[c].session;
      var t := Act(s, Deliver(i, r));
      var u := Run(t, later);
      && c < |t.calls| && Returned(t, c) == Some(r)
      && c < |u.calls| && Returned(u, c) == Some(r)
      && Act(u, Deliver(i, copy)) == u
  {
    var i := s.calls[c].session;
    FirstCopyIsTaken(s, c, r);
    ActKeepsInv(s, Deliver(i, r));
    hide Act, Inv, Returned, NotExpectedAgain;
    var t := Act(s, Deliver(i, r));
    AnswerIsFinal(t, later, c);
    StaysUnexpectedInRun(t, later, i, r.number);
    UnexpectedIsIgnored(Run(t, later), i, copy);
  }

  lemma AnswerKept(s: System, a: Action, c: nat)
    requires Inv(s) && c < |s.calls| && Returned(s, c).Some?
    ensures c < |Act(s, a).calls| && Returned(Act(s, a), c) == Returned(s, c)
  {
    var call := s.calls[c];
    assert Act(s, a).calls[c].session == call.session && Act(s, a).calls[c].waiter == call.waiter;
    assert s.sessions[call.session].responses.Consistent();
    LedgerChange(s, a, call.session);
    if LedgerEvent(s, a).Some? {
      ResolvedStays(s.sessions[call.session].responses, LedgerEvent(s, a).value, call.waiter);
    }
  }

  lemma ResolvedStays(v: Ledger<nat, Packet>, e: Event<nat, Packet>, w: nat)
    requires v.Consistent() && w < |v.slots| && !v.slots[w].outcome.Pending?
    ensures w < |LedgerStep(v, e).slots| && LedgerStep(v, e).slots[w].outcome == v.slots[w].outcome
  {
  }

  /** A call is answered at most once: whatever happens later, it keeps its answer. */
  lemma {:induction false} AnswerIsFinal(s: System, actions: seq<Action>, c: nat)
    requires Inv(s) && c < |s.calls| && Returned(s, c).Some?
    decreases |actions|
    ensures c < |Run(s, actions).calls| && Returned(Run(s, actions), c) == Returned(s, c)
  {
    hide Act, Inv, Returned;
    if actions != [] {
      AnswerKept(s, actions[0], c);
      ActKeepsInv(s, actions[0]);
      AnswerIsFinal(Act(s, actions[0]), actions[1..], c);
    }
  }

  // ----- a call that was dropped -----

  /** The call was dropped before it was answered: its waiter is not listened to. */
  ghost predicate DroppedUnanswered(s: System, c: nat) {
    && c < |s.calls| && Returned(s, c) == None
    && s.calls[c].session < |s.sessions| && s.calls[c].waiter < |Slots(s, s.calls[c].session)|
    && !Slots(s, s.calls[c].session)[s.calls[c].waiter].listening
  }

  lemma NotListening(v: Ledger<nat, Packet>, e: Event<nat, Packet>, w: nat)
    requires w < |v.slots| && !v.slots[w].listening && !v.slots[w].outcome.Delivered?
    ensures var u := LedgerStep(v, e); w < |u.slots| && !u.slots[w].listening && !u.slots[w].outcome.Delivered?
  {
  }

  lemma DroppedStep(s: System, a: Action, c: nat)
    requires DroppedUnanswered(s, c)
    ensures DroppedUnanswered(Act(s, a), c)
  {
    hide Act, LedgerStep;
    var i := s.calls[c].session;
    LedgerChange(s, a, i);
    CallsKeepTheirWaiter(s, a, c);
    if LedgerEvent(s, a).Some? {
      NotListening(s.sessions[i].responses, LedgerEvent(s, a).value, s.calls[c].waiter);
    }
  }

  lemma {:induction false} DroppedRun(s: System, actions: seq<Action>, c: nat)
    requires DroppedUnanswered(s, c)
    decreases |actions|
    ensures DroppedUnanswered(Run(s, actions), c)
  {
    hide Act, DroppedUnanswered;
    if actions != [] {
      DroppedStep(s, actions[0], c);
      DroppedRun(Act(s, actions[0]), actions[1..], c);
    }
  }

  lemma DropDrops(s: System, c: nat)
    requires Inv(s) && c < |s.calls| && Returned(s, c) == None
    ensures DroppedUnanswered(Act(s, DropCall(c)), c)
  {
    hide WireSound, QueuesSound;
    assert CallSound(s, s.calls[c]);
  }

  /** A call that was dropped before it was answered never returns anything, whatever replies still come. */
  lemma DroppedCallReturnsNothing(n: nat, before: seq<Action>, c: nat, later: seq<Action>)
    requires c < |Run(Initial(n), before).calls| && Returned(Run(Initial(n), before), c) == None
    ensures var s := Run(Act(Run(Initial(n), before), DropCall(c)), later);
      c < |s.calls| && Returned(s, c) == None
  {
    InitialInv(n);
    RunKeepsInv(Initial(n), before);
    DropDrops(Run(Initial(n), before), c);
    hide Act, Run, Returned, Inv;
    DroppedRun(Act(Run(Initial(n), before), DropCall(c)), later, c);
  }

  // ----- a reader that stopped -----

  /** What can still happen to the waiters of a session that does not read. */
  lemma StoppedChange(s: System, a: Action, i: nat)
    requires i < |s.sessions| && !s.sessions[i].reading
    ensures i < |Act(s, a).sessions| && !Act(s, a).sessions[i].reading
    ensures var v, u := s.sessions[i].responses, Act(s, a).sessions[i].responses;
      u == v || (exists n :: u == LedgerStep(v, Register(n))) || (exists w :: u == LedgerStep(v, Abandon(w)))
  {
    LedgerChange(s, a, i);
  }

  lemma CallsKeepTheirWaiter(s: System, a: Action, c: nat)
    requires c < |s.calls|
    ensures c < |Act(s, a).calls|
    ensures Act(s, a).calls[c].session == s.calls[c].session && Act(s, a).calls[c].waiter == s.calls[c].waiter
  {
    hide SessionStep;
  }

  lemma NotAnswered(v: Ledger<nat, Packet>, u: Ledger<nat, Packet>, w: nat)
    requires w < |v.slots| && !v.slots[w].outcome.Delivered?
    requires u == v || (exists n :: u == LedgerStep(v, Register(n))) || (exists k :: u == LedgerStep(v, Abandon(k)))
    ensures w < |u.slots| && !u.slots[w].outcome.Delivered?
  {
  }

  lemma ReaderStaysStopped(s: System, a: Action, c: nat)
    requires Inv(s) && c < |s.calls| && Returned(s, c).None?
    requires s.calls[c].session < |s.sessions| && !s.sessions[s.calls[c].session].reading
    ensures var t := Act(s, a);
      && c < |t.calls| && t.calls[c].session < |t.sessions|
      && !t.sessions[t.calls[c].session].reading && Returned(t, c).None?
  {
    var i := s.calls[c].session;
    assert CallSound(s, s.calls[c]);
    hide Act, CallSound, WireSound, QueuesSound, LedgerStep;
    StoppedChange(s, a, i);
    CallsKeepTheirWaiter(s, a, c);
    NotAnswered(s.sessions[i].responses, Act(s, a).sessions[i].responses, s.calls[c].waiter);
  }

  /** A session whose reader has stopped, as it does at the first offer for an id whose listener was
      dropped, answers none of its calls any more. */
  lemma {:induction false} StoppedReaderAnswersNothing(s: System, actions: seq<Action>, c: nat)
    requires Inv(s) && c < |s.calls| && Returned(s, c).None?
    requires s.calls[c].session < |s.sessions| && !s.sessions[s.calls[c].session].reading
    decreases |actions|
    ensures c < |Run(s, actions).calls| && Returned(Run(s, actions), c).None?
  {
    hide Act, Inv, Returned;
    if actions != [] {
      ReaderStaysStopped(s, actions[0], c);
      ActKeepsInv(s, actions[0]);
      StoppedReaderAnswersNothing(Act(s, actions[0]), actions[1..], c);
    }
  }

  // ----- an exchange that succeeds -----

  /** One session offers, another listens and accepts, and the reply comes back. */
  function Exchange(o: Packet, description: string): seq<Action> {
    [Install(1, o.to), StartOffer(0, o), SendOffer(0), Deliver(1, o), TakeOffer(1, 0), Accept(1, 0, 0, description),
     Deliver(0, Packet("reply", o.to, o.id, o.number, description))]
  }

  lemma OfferArrives(o: Packet, description: string)
    requires o.kind == "offer"
    ensures var run := Exchange(o, description);
      var s := Act(Act(Act(Initial(2), run[0]), run[1]), run[2]);
      && s.sessions == [NEW_SESSION.(responses := Ledger(map[o.number := 0], [Slot(Pending, true)])),
                        SessionState(map[o.to := 0], [Queue(o.to, [], [], true)], Empty(), true)]
      && s.calls == [Call(0, o, 0, Offered)] && s.wire == {o} && s.accepts == {}
  {
    var run := Exchange(o, description);
    var s1 := Act(Initial(2), run[0]);
    assert s1.sessions[1] == SessionState(map[o.to := 0], [Queue(o.to, [], [], true)], Empty(), true);
    assert s1.sessions == [NEW_SESSION, SessionState(map[o.to := 0], [Queue(o.to, [], [], true)], Empty(), true)];
    var s2 := Act(s1, run[1]);
    assert s2.sessions[0] == NEW_SESSION.(responses := Ledger(map[o.number := 0], [Slot(Pending, true)]));
    assert s2.calls == [Call(0, o, 0, Registered)];
    var s3 := Act(s2, run[2]);
    assert s3.calls == [Call(0, o, 0, Offered)];
  }

  lemma OfferIsAccepted(s: System, o: Packet, description: string)
    requires o.kind == "offer" && o in s.wire && |s.sessions| == 2
    requires s.sessions[1] == SessionState(map[o.to := 0], [Queue(o.to, [], [], true)], Empty(), true)
    ensures var run := Exchange(o, description);
      var t := Act(Act(Act(s, run[3]), run[4]), run[5]);
      && |t.sessions| == 2 && t.sessions[0] == s.sessions[0] && t.calls == s.calls
      && Packet("reply", o.to, o.id, o.number, description) in t.wire
  {
    var run := Exchange(o, description);
    var s1 := Act(s, run[3]);
    assert [] + [o] == [o];
    assert s1.sessions[1].queues == [Queue(o.to, [], [o], true)];
    var s2 := Act(s1, run[4]);
    assert [o][1..] == [];
    assert s2.sessions[1].queues[0].received == [o];
  }

  /** For every offer and every description there is a run in which the call for the offer returns a reply
      with this description, and nothing else. */
  lemma ExchangeSucceeds(o: Packet, description: string)
    requires o.kind == "offer"
    ensures var s := Run(Initial(2), Exchange(o, description));
      && |s.calls| == 1 && s.calls[0].offer == o
      && Returned(s, 0) == Some(Packet("reply", o.to, o.id, o.number, description))
  {
    var run := Exchange(o, description);
    Unroll3(Initial(2), run);
    OfferArrives(o, description);
    var s3 := Act(Act(Act(Initial(2), run[0]), run[1]), run[2]);
    Unroll3(s3, run[3..]);
    OfferIsAccepted(s3, o, description);
    var s6 := Act(Act(Act(s3, run[3]), run[4]), run[5]);
    assert run[3..][3..] == [run[6]];
    assert [run[6]][1..] == [];
    assert Run(s6, [run[6]]) == Run(Act(s6, run[6]), []) == Act(s6, run[6]);
    ReplyArrives(s6, o, run[6].packet);
  }

  lemma ReplyArrives(s: System, o: Packet, r: Packet)
    requires |s.sessions| == 2 && r in s.wire && r.kind == "reply" && r.number == o.number
    requires s.sessions[0] == NEW_SESSION.(responses := Ledger(map[o.number := 0], [Slot(Pending, true)]))
    requires s.calls == [Call(0, o, 0, Offered)]
    ensures Act(s, Deliver(0, r)).calls == s.calls && Returned(Act(s, Deliver(0, r)), 0) == Some(r)
  {
  }

  // ----- numbers that are not unique -----

  /** The run that shows what a repeated number does: one session offers `o1` and then `o2`; the
      reply to `o1` arrives first. */
  function Collision(o1: Packet, o2: Packet, description: string): seq<Action> {
    [StartOffer(0, o1), SendOffer(0), StartOffer(0, o2), SendOffer(1),
     Install(1, o1.to), Deliver(1, o1), TakeOffer(1, 0), Accept(1, 0, 0, description),
     Deliver(0, Reply(o1, description))]
  }

  /** After four steps of that run both offers are out, and only the second has a waiter. */
  function BothOffered(o1: Packet, o2: Packet): System {
    var v := Ledger(map[o1.number := 1], [Slot(Superseded, true), Slot(Pending, true)]);
    System([NEW_SESSION.(responses := v), NEW_SESSION],
           [Call(0, o1, 0, Offered), Call(0, o2, 1, Offered)], {o1, o2}, {})
  }

  /** After eight, the first offer has been accepted. */
  function FirstAccepted(o1: Packet, o2: Packet, description: string): System {
    var s, r := BothOffered(o1, o2), Reply(o1, description);
    s.(sessions := [s.sessions[0], SessionState(map[o1.to := 0], [Queue(o1.to, [o1], [], true)], Empty(), true)],
       wire := {o1, o2, r}, accepts := {(o1, r)})
  }

  lemma OfferBoth(o1: Packet, o2: Packet, description: string)
    requires o1.kind == "offer" && o2.kind == "offer" && o1.number == o2.number
    ensures var run := Collision(o1, o2, description);
      Act(Act(Act(Act(Initial(2), run[0]), run[1]), run[2]), run[3]) == BothOffered(o1, o2)
  {
    var run := Collision(o1, o2, description);
    var s2 := Act(Act(Initial(2), run[0]), run[1]);
    assert s2.sessions[0] == NEW_SESSION.(responses := Ledger(map[o1.number := 0], [Slot(Pending, true)]));
    assert s2.calls == [Call(0, o1, 0, Offered)] && s2.wire == {o1};
    var s4 := Act(Act(s2, run[2]), run[3]);
    assert s4.sessions[0] == BothOffered(o1, o2).sessions[0];
    assert s4.calls == BothOffered(o1, o2).calls;
    assert s4.sessions == BothOffered(o1, o2).sessions;
  }

  lemma AcceptFirst(o1: Packet, o2: Packet, description: string)
    requires o1.kind == "offer"
    ensures var run := Collision(o1, o2, description);
      Act(Act(Act(Act(BothOffered(o1, o2), run[4]), run[5]), run[6]), run[7]) == FirstAccepted(o1, o2, description)
  {
    var run, s4 := Collision(o1, o2, description), BothOffered(o1, o2);
    var s5 := Act(s4, run[4]);
    assert s5.sessions[1] == SessionState(map[o1.to := 0], [Queue(o1.to, [], [], true)], Empty(), true);
    assert s5.sessions[1].queues[0].(waiting := [] + [o1]) == Queue(o1.to, [], [o1], true);
    var s6 := Act(s5, run[5]);
    assert s6.sessions[1].queues == [Queue(o1.to, [], [o1], true)];
    var s7 := Act(s6, run[6]);
    assert [o1][1..] == [] && [] + [o1] == [o1];
    assert s7.sessions[1].queues[0] == Queue(o1.to, [o1], [], true);
    assert s7.sessions[1].queues == [Queue(o1.to, [o1], [], true)];
    var s8 := Act(s7, run[7]);
    assert s8.sessions == FirstAccepted(o1, o2, description).sessions;
  }

  /** Uniqueness cannot be dropped: for any two offers with the same number there is a run in which
      the call for the second returns what accepting the first produced. */
  lemma RepeatedNumberConfuses(o1: Packet, o2: Packet, description: string)
    requires o1.kind == "offer" && o2.kind == "offer" && o1.number == o2.number
    ensures var s := Run(Initial(2), Collision(o1, o2, description));
      && |s.calls| == 2 && s.calls[1].offer == o2
      && Returned(s, 1) == Some(Reply(o1, description))
      && (o1 != o2 ==> (o2, Reply(o1, description)) !in s.accepts)
  {
    var run := Collision(o1, o2, description);
    Unroll9(Initial(2), run);
    assert Run(Initial(2), run) == Act(FirstAccepted(o1, o2, description), run[8]) by {
      hide Act;
      OfferBoth(o1, o2, description);
      AcceptFirst(o1, o2, description);
    }
  }

  lemma Unroll9(s: System, run: seq<Action>)
    requires |run| == 9
    ensures Run(s, run) == Act(Act(Act(Act(Act(Act(Act(Act(Act(s, run[0]), run[1]), run[2]), run[3]), run[4]), run[5]), run[6]), run[7]), run[8])
  {
    hide Act;
    Unroll3(s, run);
    var s3 := Act(Act(Act(s, run[0]), run[1]), run[2]);
    Unroll3(s3, run[3..]);
    var s6 := Act(Act(Act(s3, run[3]), run[4]), run[5]);
    assert run[3..][3..] == run[6..];
    Unroll3(s6, run[6..]);
    assert run[6..][3..] == [];
  }

  lemma Unroll3(s: System, run: seq<Action>)
    requires |run| >= 3
    ensures Run(s, run) == Run(Act(Act(Act(s, run[0]), run[1]), run[2]), run[3..])
  {
    hide Act;
    assert run[1..][1..] == run[2..] && run[2..][1..] == run[3..];
    assert Run(Act(s, run[0]), run[1..]) == Run(Act(Act(s, run[0]), run[1]), run[2..]);
  }
}
