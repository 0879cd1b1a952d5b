// Why and how a client is refused, and when the two ends begin to forward (src/p2p_pipe.rs), over all runs
// of the tunnel.
module Refusals {
  import opened Bytes
  import opened Lane
  import opened ParseServer
  import opened McDisconnect
  import opened P2pPipe
  import opened HalfClose

  /** The handler's action fails with `r`: a routing step, or the write of the preamble. */
  predicate FailsWith(a: Action, r: Refusal) {
    a == Client(RouteFails(r)) || (a == Client(PreambleFails) && r == HandshakeFailed)
  }

  predicate TakesEffect(t: Tunnel, a: Action) {
    a.Client? && ClientEnabled(t, a.c)
  }

  // ----- a failure decides what the client is told -----

  /** A refused client. */
  predicate RefusedWith(t: Tunnel, r: Refusal, info: HandshakeInfo) {
    t.client.refusal == Some(r) && t.client.info == Some(info)
  }

  /** A client that does not log in, and whose handler failed. */
  predicate JustClosed(t: Tunnel) {
    t.client.stage == ClientDone && t.client.refusal == None && !t.client.end.started && t.client.out == []
  }

  lemma FailureStep(t: Tunnel, a: Action, r: Refusal, text: Text)
    requires Inv(t, text) && TakesEffect(t, a) && FailsWith(a, r)
    ensures t.client.info.Some? && t.client.out == []
    ensures var u := Step(t, a, text);
      && (if t.client.info.value.nextState == 2 then RefusedWith(u, r, t.client.info.value) && u.client.stage == Refusing
          else JustClosed(u))
      && u.client.out == [] && u.up == t.up
  {
    hide Parse, LoginDisconnect, Message, LaneInv;
    IdleMeansUntouched(t.down);
  }

  lemma RefusedStep(t: Tunnel, a: Action, r: Refusal, info: HandshakeInfo, text: Text)
    requires Inv(t, text) && RefusedWith(t, r, info)
    ensures RefusedWith(Step(t, a, text), r, info)
  {
    hide Parse, LoginDisconnect, Message, LaneInv, LaneStep;
  }

  lemma ClosedStep(t: Tunnel, a: Action, text: Text)
    requires Inv(t, text) && JustClosed(t)
    ensures JustClosed(Step(t, a, text))
  {
    hide Parse, LoginDisconnect, Message, LaneInv, LaneStep;
  }

  lemma {:induction false} RefusedRun(t: Tunnel, actions: seq<Action>, r: Refusal, info: HandshakeInfo, text: Text)
    requires Inv(t, text) && RefusedWith(t, r, info)
    decreases |actions|
    ensures RefusedWith(Run(t, actions, text), r, info)
  {
    hide Step, Inv, RefusedWith;
    if actions != [] {
      RefusedStep(t, actions[0], r, info, text);
      StepKeepsInv(t, actions[0], text);
      RefusedRun(Step(t, actions[0], text), actions[1..], r, info, text);
    }
  }

  lemma {:induction false} ClosedRun(t: Tunnel, actions: seq<Action>, text: Text)
    requires Inv(t, text) && JustClosed(t)
    decreases |actions|
    ensures JustClosed(Run(t, actions, text))
  {
    hide Step, Inv, JustClosed;
    if actions != [] {
      ClosedStep(t, actions[0], text);
      StepKeepsInv(t, actions[0], text);
      ClosedRun(Step(t, actions[0], text), actions[1..], text);
    }
  }

  /** What the handler knows when it fails. */
  lemma KnowsTheHandshake(t: Tunnel, text: Text)
    requires Inv(t, text) && t.client.info.Some?
    ensures t.client.peeked <= |t.up.source| && t.client.peeked <= 512
    ensures Parse(t.up.source[..t.client.peeked], text) == Ok(t.client.info.value)
  {
    hide Parse, LanesInv, ClientInv, OutputInv, ServerSide;
  }

  /** In every run in which a step of the handler fails: if the handshake that it peeked says that the
      client logs in (2), the client is refused for exactly this failure, whatever happens from then on;
      any other client is never sent a byte. */
  lemma FailureDecidesRefusal(before: seq<Action>, a: Action, r: Refusal, later: seq<Action>, text: Text)
    requires FailsWith(a, r) && TakesEffect(Run(Initial(), before, text), a)
    ensures var t, u := Run(Initial(), before, text), Run(Initial(), before + [a] + later, text);
      && t.client.peeked <= |t.up.source| && t.client.peeked <= 512
      && var handshake := Parse(t.up.source[..t.client.peeked], text);
      && handshake.Ok?
      && if handshake.value.nextState == 2
         then u.client.refusal == Some(r) && u.client.info == Some(handshake.value)
         else u.client.refusal == None && u.client.out == []
  {
    var t := Run(Initial(), before, text);
    hide Run, Step, Parse, Inv;
    Reachable(before, text);
    FailureStep(t, a, r, text);
    KnowsTheHandshake(t, text);
    StepKeepsInv(t, a, text);
    RunConcat(Initial(), before + [a], later, text);
    RunConcat(Initial(), before, [a], text);
    RunOne(t, a, text);
    var u := Step(t, a, text);
    if t.client.info.value.nextState == 2 {
      RefusedRun(u, later, r, t.client.info.value, text);
    } else {
      ClosedRun(u, later, text);
    }
  }

  lemma RefusalIsWritten(t: Tunnel, text: Text) returns (later: seq<Action>)
    requires t.client.stage == Refusing && t.client.info.Some? && t.client.refusal.Some? && t.client.out == []
    requires t.client.info.value.packetLen <= MAX_SLICE
    ensures Run(t, later, text).client.out == Notice(t.client)
  {
    hide Notice;
    var all := Notice(t.client);
    later := [Peers(ClientCloses), Client(RefuseWrite(|all|))];
    var u := Step(t, later[0], text);
    assert u.client == t.client && u.up.sourceEnded;
    assert [] + all[0..|all|] == all;
    var v := Step(u, later[1], text);
    assert v.client.out == all;
    assert later[1..][1..] == [];
    RunNothing(v, text);
    assert Run(t, later, text) == Run(u, later[1..], text) == Run(v, [], text);
  }

  /** And such a client can get the whole packet that says so, unless its packet length is one that cannot
      be discarded; then it gets nothing (`OutputIsExclusive`). */
  lemma RefusalCanBeSent(before: seq<Action>, a: Action, r: Refusal, text: Text) returns (later: seq<Action>)
    requires FailsWith(a, r) && TakesEffect(Run(Initial(), before, text), a)
    requires var t := Run(Initial(), before, text);
      && t.client.peeked <= |t.up.source|
      && var handshake := Parse(t.up.source[..t.client.peeked], text);
      handshake.Ok? && handshake.value.nextState == 2 && handshake.value.packetLen <= MAX_SLICE
    ensures var t := Run(Initial(), before, text);
      var serverId := Parse(t.up.source[..t.client.peeked], text).value.serverId;
      Run(Initial(), before + [a] + later, text).client.out == LoginDisconnect(Message(r, serverId))
  {
    var t := Run(Initial(), before, text);
    hide Run, Step, Parse, Inv, LoginDisconnect, Message;
    Reachable(before, text);
    FailureStep(t, a, r, text);
    KnowsTheHandshake(t, text);
    var u := Step(t, a, text);
    later := RefusalIsWritten(u, text);
    RunConcat(Initial(), before + [a], later, text);
    RunConcat(Initial(), before, [a], text);
    RunOne(t, a, text);
  }

  // ----- a handshake that is not understood -----

  /** The peek fails or times out, or what it shows is not a handshake. */
  predicate NotUnderstood(t: Tunnel, a: Action, text: Text) {
    && TakesEffect(t, a)
    && (a == Client(PeekFails)
        || (a.c.Peek? && a.c.k <= |t.up.source| && !Parse(t.up.source[..a.c.k], text).Ok?))
  }

  /** The client's handler has ended, and has done nothing. */
  predicate NeverServed(t: Tunnel) {
    && t.client.stage == ClientDone && t.client.info == None && t.client.refusal == None && !t.client.end.started
    && t.client.out == [] && t.up.stream == []
  }

  lemma NotUnderstoodStep(t: Tunnel, a: Action, text: Text)
    requires Inv(t, text) && NotUnderstood(t, a, text) && t.client.info == None
    ensures NeverServed(Step(t, a, text))
  {
    hide Parse, LoginDisconnect, Message, LaneInv, LaneStep;
    IdleMeansUntouched(t.down);
  }

  lemma NeverServedStep(t: Tunnel, a: Action, text: Text)
    requires Inv(t, text) && NeverServed(t)
    ensures NeverServed(Step(t, a, text))
  {
    hide Parse, LoginDisconnect, Message, LaneInv;
  }

  lemma {:induction false} NeverServedRun(t: Tunnel, actions: seq<Action>, text: Text)
    requires Inv(t, text) && NeverServed(t)
    decreases |actions|
    ensures NeverServed(Run(t, actions, text))
  {
    hide Step, Inv, NeverServed;
    if actions != [] {
      NeverServedStep(t, actions[0], text);
      StepKeepsInv(t, actions[0], text);
      NeverServedRun(Step(t, actions[0], text), actions[1..], text);
    }
  }

  /** Before the handshake is understood the handler knows nothing. */
  lemma KnowsNothingYet(t: Tunnel, a: Action, text: Text)
    requires t.client.stage == Parsing ==> t.client.info == None
    ensures Step(t, a, text).client.stage == Parsing ==> Step(t, a, text).client.info == None
  {
    hide Parse, LoginDisconnect, Message, LaneStep;
  }

  lemma {:induction false} ParsingKnowsNothing(t: Tunnel, actions: seq<Action>, text: Text)
    requires t.client.stage == Parsing ==> t.client.info == None
    decreases |actions|
    ensures var u := Run(t, actions, text); u.client.stage == Parsing ==> u.client.info == None
  {
    hide Step;
    if actions != [] {
      KnowsNothingYet(t, actions[0], text);
      ParsingKnowsNothing(Step(t, actions[0], text), actions[1..], text);
    }
  }

  /** A client whose handshake is not understood is closed for good: it is never sent a byte, nothing of it
      reaches a stream, and the backend is not dialled. */
  lemma BadHandshakeCloses(before: seq<Action>, a: Action, later: seq<Action>, text: Text)
    requires NotUnderstood(Run(Initial(), before, text), a, text)
    ensures var u := Run(Initial(), before + [a] + later, text);
      && u.client.stage == ClientDone && u.client.info == None
      && u.client.out == [] && u.up.stream == [] && !u.server.dialled && u.up.sink == []
  {
    var t := Run(Initial(), before, text);
    ParsingKnowsNothing(Initial(), before, text);
    assert t.client.stage == Parsing;
    hide Run, Step, Parse, Inv;
    Reachable(before, text);
    NotUnderstoodStep(t, a, text);
    StepKeepsInv(t, a, text);
    RunConcat(Initial(), before + [a], later, text);
    RunConcat(Initial(), before, [a], text);
    RunOne(t, a, text);
    NeverServedRun(Step(t, a, text), later, text);
    Reachable(before + [a] + later, text);
    NothingForTheBackend(Run(Initial(), before + [a] + later, text), text);
  }

  lemma NothingForTheBackend(t: Tunnel, text: Text)
    requires Inv(t, text) && t.up.stream == []
    ensures !t.server.dialled && t.up.sink == []
  {
    SinkNeedsPreamble(t.up);
    assert t.up.consumed <= |t.up.stream|;
  }

  // ----- a refusal has one cause -----

  lemma RefusalStep(t: Tunnel, a: Action, r: Refusal, text: Text)
    requires Inv(t, text) && Step(t, a, text).client.refusal == Some(r)
    ensures t.client.refusal == Some(r) || (FailsWith(a, r) && TakesEffect(t, a))
  {
    hide Parse, LoginDisconnect, Message, LaneInv, LaneStep;
  }

  /** The action at position `k` of the run fails with `r`. */
  predicate FailsAt(actions: seq<Action>, k: nat, r: Refusal, text: Text) {
    k < |actions| && FailsWith(actions[k], r) && TakesEffect(Run(Initial(), actions[..k], text), actions[k])
  }

  /** Conversely, a client is refused for `r` only if a step of its handler failed with `r`. */
  lemma {:induction false} RefusalHasCause(actions: seq<Action>, r: Refusal, text: Text)
    requires Run(Initial(), actions, text).client.refusal == Some(r)
    decreases |actions|
    ensures exists k: nat :: FailsAt(actions, k, r, text)
  {
    hide Step, Inv, FailsWith, TakesEffect;
    if actions == [] {
      assert false;
    } else {
      var n := |actions| - 1;
      var init, a := actions[..n], actions[n];
      var t := Run(Initial(), init, text);
      assert actions == init + [a];
      RunConcat(Initial(), init, [a], text);
      RunOne(t, a, text);
      Reachable(init, text);
      RefusalStep(t, a, r, text);
      if t.client.refusal == Some(r) {
        RefusalHasCause(init, r, text);
        var k: nat :| FailsAt(init, k, r, text);
        assert init[..k] == actions[..k] && init[k] == actions[k];
        assert FailsAt(actions, k, r, text);
      } else {
        assert FailsAt(actions, n, r, text);
      }
    }
  }

  // ----- the steps are taken in order -----

  /** How many routing steps succeeded in a run. */
  function Passed(t: Tunnel, actions: seq<Action>, text: Text): nat
    decreases |actions|
  {
    if actions == [] then 0
    else
      (if actions[0] == Client(RouteOk) && TakesEffect(t, actions[0]) then 1 else 0)
      + Passed(Step(t, actions[0], text), actions[1..], text)
  }

  /** The handler has passed `n` of the steps lookup, ticket, connection and stream. */
  predicate HasPassed(c: ClientState, n: nat) {
    && (match c.stage
        case Parsing => n == 0
        case Routing(Lookup) => n == 0
        case Routing(ReadTicket) => n == 1
        case Routing(Connect) => n == 2
        case Routing(OpenStream) => n == 3
        case SendingPreamble => n == 4
        case ClientForwarding => n == 4
        case _ => true)
    && (c.end.started ==> n == 4)
    && (match c.refusal
        case None => true
        case Some(NotFound) => n == 0
        case Some(LookupFailed) => n == 0
        case Some(BadTicket) => n == 1
        case Some(Unreachable) => n == 2
        case Some(NoStream) => n == 3
        case Some(HandshakeFailed) => n == 4)
  }

  lemma PassedStep(t: Tunnel, a: Action, n: nat, text: Text)
    requires Inv(t, text) && HasPassed(t.client, n)
    ensures HasPassed(Step(t, a, text).client, n + if a == Client(RouteOk) && TakesEffect(t, a) then 1 else 0)
  {
    hide Parse, LoginDisconnect, Message, LaneInv, LaneStep;
  }

  lemma {:induction false} PassedRun(t: Tunnel, actions: seq<Action>, n: nat, text: Text)
    requires Inv(t, text) && HasPassed(t.client, n)
    decreases |actions|
    ensures HasPassed(Run(t, actions, text).client, n + Passed(t, actions, text))
  {
    hide Step, Inv, HasPassed, TakesEffect;
    if actions != [] {
      var m := n + if actions[0] == Client(RouteOk) && TakesEffect(t, actions[0]) then 1 else 0;
      PassedStep(t, actions[0], n, text);
      StepKeepsInv(t, actions[0], text);
      PassedRun(Step(t, actions[0], text), actions[1..], m, text);
    }
  }

  /** In every run the stage of the handler, and what it refused the client for, tell how many routing steps
      succeeded: each refusal belongs to its own step, and nothing is forwarded before all four. */
  lemma RoutesInOrder(actions: seq<Action>, text: Text)
    ensures HasPassed(Run(Initial(), actions, text).client, Passed(Initial(), actions, text))
  {
    hide Run, Step;
    InitialInv(text);
    PassedRun(Initial(), actions, 0, text);
  }

  // ----- every refusal can happen -----

  function StageAfter(n: nat): ClientStage {
    match n
    case 0 => Routing(Lookup)
    case 1 => Routing(ReadTicket)
    case 2 => Routing(Connect)
    case 3 => Routing(OpenStream)
    case _ => SendingPreamble
  }

  /** A client sends a handshake, and `n` routing steps succeed. */
  function RoutingSteps(request: seq<byte>, k: nat, n: nat): seq<Action> {
    if n == 0 then [Peers(ClientSends(request)), Client(Peek(k))] else RoutingSteps(request, k, n - 1) + [Client(RouteOk)]
  }

  function AtStage(request: seq<byte>, k: nat, info: HandshakeInfo, n: nat): Tunnel {
    var t := Routed(request, k, info);
    t.(client := t.client.(stage := StageAfter(n)))
  }

  lemma {:induction false} RoutingRun(request: seq<byte>, k: nat, n: nat, text: Text)
    requires 0 < k <= PEEK_SIZE && k <= |request| && Parse(request[..k], text).Ok? && n <= 4
    ensures Run(Initial(), RoutingSteps(request, k, n), text) == AtStage(request, k, Parse(request[..k], text).value, n)
  {
    hide Parse, Run;
    var t := AtStage(request, k, Parse(request[..k], text).value, n);
    if n == 0 {
      var run := RoutingSteps(request, k, 0);
      Unroll(Initial(), run, text);
      assert [] + request == request && run[2..] == [];
      assert Step(Step(Initial(), run[0], text), run[1], text) == t;
      RunNothing(t, text);
    } else {
      RoutingRun(request, k, n - 1, text);
      var s := Run(Initial(), RoutingSteps(request, k, n - 1), text);
      RunConcat(Initial(), RoutingSteps(request, k, n - 1), [Client(RouteOk)], text);
      RunOne(s, Client(RouteOk), text);
      assert Step(s, Client(RouteOk), text) == t;
    }
  }

  function StepsBefore(r: Refusal): (n: nat)
    ensures n <= 4
  {
    match r
    case NotFound => 0
    case LookupFailed => 0
    case BadTicket => 1
    case Unreachable => 2
    case NoStream => 3
    case HandshakeFailed => 4
  }

  /** For every login that a peek can see whole, and every refusal, there is a run that ends with the client
      having the packet for that refusal. */
  lemma EveryRefusalCanHappen(request: seq<byte>, k: nat, r: Refusal, text: Text) returns (run: seq<Action>)
    requires 0 < k <= 512 && k <= |request|
    requires var handshake := Parse(request[..k], text);
      handshake.Ok? && handshake.value.nextState == 2 && handshake.value.packetLen <= MAX_SLICE
    ensures var t := Run(Initial(), run, text);
      t.client.refusal == Some(r)
      && t.client.out == LoginDisconnect(Message(r, Parse(request[..k], text).value.serverId))
  {
    hide Run, Parse, LoginDisconnect, Message, Step;
    var before := RoutingSteps(request, k, StepsBefore(r));
    var a := Client(if r == HandshakeFailed then PreambleFails else RouteFails(r));
    RoutingRun(request, k, StepsBefore(r), text);
    var later := RefusalCanBeSent(before, a, r, text);
    FailureDecidesRefusal(before, a, r, later, text);
    run := before + [a] + later;
  }

  /** What the client's player reads in that run, if the label has no control character. */
  lemma PlayerIsTold(request: seq<byte>, k: nat, r: Refusal, text: Text) returns (run: seq<Action>, reason: seq<byte>)
    requires Moderate(text) && 0 < k <= 512 && k <= |request|
    requires var handshake := Parse(request[..k], text);
      && handshake.Ok? && handshake.value.nextState == 2 && handshake.value.packetLen <= MAX_SLICE
      && NoControl(handshake.value.serverId)
    ensures var t := Run(Initial(), run, text);
      t.client.refusal == Some(r) && ReadLoginDisconnect(t.client.out) == Some((reason, []))
    ensures var name := Parse(request[..k], text).value.serverId;
      match r
      case NotFound => reason == Ascii("Server '") + name + Ascii("' not found. Check the address and try again.")
      case LookupFailed => reason == Ascii("Proxy error: failed to look up server. Please try again later.")
      case BadTicket =>
        reason == Ascii("Server '") + name + Ascii("' has an invalid configuration. Contact the server owner.")
      case Unreachable => reason == Ascii("Could not reach server '") + name + Ascii("'. It may be offline.")
      case NoStream => reason == Ascii("Connected to '") + name + Ascii("' but could not open a stream. Try again.")
      case HandshakeFailed => reason == Ascii("Proxy handshake failed. Please try again.")
  {
    hide Run, Parse, LoginDisconnect, ReadLoginDisconnect, Step, NoControl, Ascii, Moderate;
    var name := Parse(request[..k], text).value.serverId;
    run := EveryRefusalCanHappen(request, k, r, text);
    reason := Message(r, name);
    LabelIsBounded(request[..k], text);
    MessageIsClean(r, name);
    SpecialsAtMost(reason);
    ReadWrittenDisconnect(reason, []);
    assert LoginDisconnect(reason) + [] == LoginDisconnect(reason);
  }

  // ----- when the ends begin -----

  /** At position `k` of the run the backend is dialled. */
  predicate DialsAt(actions: seq<Action>, k: nat, text: Text) {
    && k < |actions| && actions[k].Server? && actions[k].s.Dial?
    && Run(Initial(), actions[..k], text).server.stage == Dialling
  }

  /** At position `k` of the run an end begins to forward. */
  predicate StartsAt(actions: seq<Action>, k: nat, atClient: bool, text: Text) {
    if atClient then k < |actions| && actions[k] == Client(StartClient) && TakesEffect(Run(Initial(), actions[..k], text), actions[k])
    else DialsAt(actions, k, text) && actions[k].s.ok
  }

  lemma BeginStep(t: Tunnel, a: Action, text: Text)
    ensures var u := Step(t, a, text);
      && (u.server.dialled <==> t.server.dialled || (a.Server? && a.s.Dial? && t.server.stage == Dialling))
      && (u.server.end.started <==>
            if a.Server? && a.s.Dial? && t.server.stage == Dialling then a.s.ok else t.server.end.started)
      && (u.client.end.started <==> t.client.end.started || (a == Client(StartClient) && TakesEffect(t, a)))
  {
    hide Parse, LoginDisconnect, Message, LaneStep;
  }

  lemma DialsAppend(init: seq<Action>, a: Action, k: nat, text: Text)
    ensures var t := Run(Initial(), init, text);
      && (DialsAt(init + [a], k, text)
          <==> DialsAt(init, k, text) || (k == |init| && a.Server? && a.s.Dial? && t.server.stage == Dialling))
      && (StartsAt(init + [a], k, true, text)
          <==> StartsAt(init, k, true, text) || (k == |init| && a == Client(StartClient) && TakesEffect(t, a)))
      && (StartsAt(init + [a], k, false, text)
          <==> StartsAt(init, k, false, text)
               || (k == |init| && a.Server? && a.s.Dial? && a.s.ok && t.server.stage == Dialling))
  {
    hide Run, TakesEffect;
    var actions := init + [a];
    if k < |init| {
      assert actions[..k] == init[..k] && actions[k] == init[k];
    } else if k == |init| {
      assert actions[..k] == init && actions[k] == a;
    }
  }

  /** In every run the backend was dialled exactly if some `Dial` came when the preamble had been checked,
      whether or not it succeeded; the server's end forwards exactly if one succeeded, and the client's exactly
      if its preamble was complete and it started. */
  lemma {:induction false} BeginsExactlyIf(actions: seq<Action>, text: Text)
    decreases |actions|
    ensures var t := Run(Initial(), actions, text);
      && (t.server.dialled <==> exists k: nat :: DialsAt(actions, k, text))
      && (t.server.end.started <==> exists k: nat :: StartsAt(actions, k, false, text))
      && (t.client.end.started <==> exists k: nat :: StartsAt(actions, k, true, text))
  {
    if actions != [] {
      hide Step, Run, TakesEffect, DialsAt, StartsAt, Inv;
      var init, a := actions[..|actions| - 1], actions[|actions| - 1];
      var t := Run(Initial(), init, text);
      assert actions == init + [a];
      RunConcat(Initial(), init, [a], text);
      RunOne(t, a, text);
      BeginsExactlyIf(init, text);
      BeginStep(t, a, text);
      Reachable(init, text);
      DialsOnce(t, text);
      forall k: nat {
        DialsAppend(init, a, k, text);
      }
      DialsAppend(init, a, |init|, text);
    }
  }

  lemma DialsOnce(t: Tunnel, text: Text)
    requires Inv(t, text)
    ensures t.server.stage == Dialling ==> !t.server.end.started && !t.server.dialled
  {
  }

  /** The server's handler has ended before it forwarded. */
  predicate ServerGaveUp(t: Tunnel) {
    t.server.stage == ServerDone && !t.server.end.started && !t.server.dialled
  }

  lemma GaveUpStep(t: Tunnel, a: Action, text: Text)
    requires ServerGaveUp(t)
    ensures ServerGaveUp(Step(t, a, text))
  {
    hide Parse, LoginDisconnect, Message, LaneStep;
  }

  lemma {:induction false} GaveUpRun(t: Tunnel, actions: seq<Action>, text: Text)
    requires ServerGaveUp(t)
    decreases |actions|
    ensures ServerGaveUp(Run(t, actions, text))
  {
    hide Step, ServerGaveUp;
    if actions != [] {
      GaveUpStep(t, actions[0], text);
      GaveUpRun(Step(t, actions[0], text), actions[1..], text);
    }
  }

  /** As long as the server's handler has not dialled it can end at any time, and then the backend is never
      dialled or sent a byte. */
  lemma ServerCanGiveUp(before: seq<Action>, later: seq<Action>, text: Text)
    requires var s := Run(Initial(), before, text).server; s.stage == Awaiting || s.stage == ReadingPreamble || s.stage == Dialling
    ensures var u := Run(Initial(), before + [Server(DropServer)] + later, text);
      u.server.stage == ServerDone && !u.server.dialled && u.up.sink == []
  {
    var t := Run(Initial(), before, text);
    Reachable(before, text);
    assert ServerGaveUp(Step(t, Server(DropServer), text));
    hide Run, Step, Parse;
    RunConcat(Initial(), before + [Server(DropServer)], later, text);
    RunConcat(Initial(), before, [Server(DropServer)], text);
    RunOne(t, Server(DropServer), text);
    GaveUpRun(Step(t, Server(DropServer), text), later, text);
    TunnelDelivers(before + [Server(DropServer)] + later, text);
  }
}
