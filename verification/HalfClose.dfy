// Runs of the tunnel in which the two directions end at different times (src/p2p_pipe.rs): a clean end
// in one direction leaves the other alone, and a sender that fails can leave the far end with a success.
module HalfClose {
  import opened Bytes
  import opened Lane
  import opened ParseServer
  import opened P2pPipe

  // ----- one direction, from any point on, to its end -----

  function RunLane(l: Lane, xs: seq<LaneAction>): Lane
    decreases |xs|
  {
    if xs == [] then l else RunLane(LaneStep(l, xs[0]), xs[1..])
  }

  /** The source sends `bytes` and ends, and both pumps move what is left. */
  function Drain(l: Lane, bytes: seq<byte>): seq<LaneAction>
    requires l.near.Running? && l.far.Running? && l.taken <= |l.source| && l.consumed <= |l.stream|
  {
    var toRead := |l.source| + |bytes| - l.taken;
    var toWrite := |l.near.held| + toRead;
    var toGet := |l.stream| + toWrite - l.consumed;
    [Send(bytes), LaneAction.End, Near(Read(toRead), false), Near(Write(toWrite), false), Near(Finish, false),
     Far(Read(toGet)), Far(Write(|l.far.held| + toGet)), Far(Finish)]
  }

  lemma {:induction false} LaneRunKeepsInv(l: Lane, xs: seq<LaneAction>)
    requires LaneInv(l)
    decreases |xs|
    ensures LaneInv(RunLane(l, xs))
  {
    hide LaneInv, LaneStep;
    if xs != [] {
      LaneStepKeepsInv(l, xs[0]);
      LaneRunKeepsInv(LaneStep(l, xs[0]), xs[1..]);
    }
  }

  lemma Unroll4(l: Lane, xs: seq<LaneAction>)
    requires |xs| >= 4
    ensures RunLane(l, xs)
         == RunLane(LaneStep(LaneStep(LaneStep(LaneStep(l, xs[0]), xs[1]), xs[2]), xs[3]), xs[4..])
  {
    hide LaneStep;
    var m := LaneStep(LaneStep(l, xs[0]), xs[1]);
    UnrollLane2(l, xs);
    UnrollLane2(m, xs[2..]);
    assert xs[2..][2..] == xs[4..];
  }

  lemma UnrollLane2(l: Lane, xs: seq<LaneAction>)
    requires |xs| >= 2
    ensures RunLane(l, xs) == RunLane(LaneStep(LaneStep(l, xs[0]), xs[1]), xs[2..])
  {
    hide LaneStep;
    assert xs[1..][1..] == xs[2..];
    assert RunLane(l, xs) == RunLane(LaneStep(l, xs[0]), xs[1..]);
  }

  /** The sender's half. */
  lemma SenderDrains(l: Lane, bytes: seq<byte>)
    requires l.near.Running? && l.far.Running? && !l.sourceEnded && l.taken <= |l.source| && l.consumed <= |l.stream|
    ensures var xs := Drain(l, bytes);
      var m := LaneStep(LaneStep(LaneStep(LaneStep(l, xs[0]), xs[1]), xs[2]), xs[3]);
      && m.near == Running([]) && m.taken == |m.source| && m.sourceEnded && m.source == l.source + bytes
      && m.far == l.far && m.consumed == l.consumed && |m.stream| == |l.stream| + xs[3].pump.n
  {
    var xs := Drain(l, bytes);
    var a := LaneStep(LaneStep(l, xs[0]), xs[1]);
    assert a == l.(source := l.source + bytes, sourceEnded := true);
    var b := LaneStep(a, xs[2]);
    assert b.near.Running? && |b.near.held| == xs[3].pump.n && b.taken == |b.source| && b.stream == l.stream;
  }

  /** The receiver's half, and the sender's end. */
  lemma ReceiverDrains(m: Lane, xs: seq<LaneAction>)
    requires m.near == Running([]) && m.taken == |m.source| && m.sourceEnded
    requires m.far.Running? && m.consumed <= |m.stream|
    requires var n := |m.stream| - m.consumed;
      xs == [Near(Finish, false), Far(Read(n)), Far(Write(|m.far.held| + n)), Far(Finish)]
    ensures var d := LaneStep(LaneStep(LaneStep(LaneStep(m, xs[0]), xs[1]), xs[2]), xs[3]);
      d.near.Finished? && d.far.Finished? && d.source == m.source
  {
    var a := LaneStep(m, xs[0]);
    assert a == m.(near := Finished, streamEnded := true);
    var b := LaneStep(a, xs[1]);
    assert b.far.Running? && |b.far.held| == xs[2].pump.n && b.consumed == |b.stream| && b.streamEnded;
    var c := LaneStep(b, xs[2]);
    assert c.far == Running([]) && c.consumed == |c.stream| && c.streamEnded;
  }

  lemma Drained(l: Lane, bytes: seq<byte>)
    requires LaneInv(l) && l.near.Running? && l.far.Running? && !l.sourceEnded
    ensures var d := RunLane(l, Drain(l, bytes));
      && LaneInv(d) && d.near.Finished? && d.far.Finished?
      && d.sink == d.source == l.source + bytes
  {
    hide LaneStep, LaneInv, RunLane;
    Counts(l);
    var xs := Drain(l, bytes);
    LaneRunKeepsInv(l, xs);
    SenderDrains(l, bytes);
    Unroll4(l, xs);
    var m := LaneStep(LaneStep(LaneStep(LaneStep(l, xs[0]), xs[1]), xs[2]), xs[3]);
    assert xs[4..] == [xs[4], xs[5], xs[6], xs[7]];
    ReceiverDrains(m, xs[4..]);
    Unroll4(m, xs[4..]);
    assert xs[4..][4..] == [];
    NothingLeft(LaneStep(LaneStep(LaneStep(LaneStep(m, xs[4]), xs[5]), xs[6]), xs[7]));
    SinkIsPrefix(RunLane(l, xs));
  }

  lemma Counts(l: Lane)
    requires LaneInv(l)
    ensures l.taken <= |l.source| && l.consumed <= |l.stream|
  {
  }

  lemma NothingLeft(l: Lane)
    ensures RunLane(l, []) == l
  {
  }

  // ----- the same inside the tunnel -----

  /** The steps of a direction that its peers and its pumps take. */
  predicate Carried(x: LaneAction) {
    match x
    case Send(_) => true
    case End => true
    case Near(p, endsStream) => Moves(p) && !endsStream
    case Far(p) => Moves(p)
    case _ => false
  }

  function AsAction(x: LaneAction, up: bool): Action
    requires Carried(x)
  {
    match x
    case Send(bytes) => Peers(if up then ClientSends(bytes) else BackendSends(bytes))
    case End => Peers(if up then ClientCloses else BackendCloses)
    case Near(p, _) => Flow(Pumping(up, true, p))
    case Far(p) => Flow(Pumping(!up, false, p))
  }

  function AsActions(xs: seq<LaneAction>, up: bool): seq<Action>
    requires forall x <- xs :: Carried(x)
  {
    if xs == [] then [] else [AsAction(xs[0], up)] + AsActions(xs[1..], up)
  }

  /** Everything but one lane, and but what the client was sent, is the same. */
  predicate OnlyLane(t: Tunnel, u: Tunnel, up: bool) {
    && u.server == t.server && u.client.(out := t.client.out) == t.client
    && (if up then u.down == t.down else u.up == t.up)
  }

  function LaneOf(t: Tunnel, up: bool): Lane {
    if up then t.up else t.down
  }

  lemma CarryStep(t: Tunnel, x: LaneAction, up: bool, text: Text)
    requires Carried(x) && t.server.dialled
    ensures var u := Step(t, AsAction(x, up), text);
      OnlyLane(t, u, up) && LaneOf(u, up) == LaneStep(LaneOf(t, up), x)
  {
    hide LaneStep, FarEnabled;
  }

  lemma {:induction false} CarryRun(t: Tunnel, xs: seq<LaneAction>, up: bool, text: Text)
    requires (forall x <- xs :: Carried(x)) && t.server.dialled
    decreases |xs|
    ensures var u := Run(t, AsActions(xs, up), text);
      OnlyLane(t, u, up) && LaneOf(u, up) == RunLane(LaneOf(t, up), xs)
  {
    hide LaneStep, Step;
    if xs != [] {
      CarryStep(t, xs[0], up, text);
      assert AsActions(xs, up)[1..] == AsActions(xs[1..], up);
      CarryRun(Step(t, AsAction(xs[0], up), text), xs[1..], up, text);
    }
  }

  lemma {:induction false} RunConcat(t: Tunnel, a: seq<Action>, b: seq<Action>, text: Text)
    decreases |a|
    ensures Run(t, a + b, text) == Run(Run(t, a, text), b, text)
  {
    hide Step;
    if a == [] {
      assert a + b == b;
    } else {
      assert (a + b)[1..] == a[1..] + b;
      RunConcat(Step(t, a[0], text), a[1..], b, text);
    }
  }

  // ----- half-closing -----

  /** All four pumps run, neither peer has closed, and no token is cancelled. */
  predicate Open(t: Tunnel) {
    && !t.client.end.token && !t.server.end.token
    && t.up.near.Running? && t.up.far.Running? && t.down.near.Running? && t.down.far.Running?
    && !t.up.sourceEnded && !t.down.sourceEnded
  }

  /** The actions with which the peer of one direction sends its last bytes and closes, and all of it is
      forwarded. */
  function Finishing(t: Tunnel, up: bool, last: seq<byte>): seq<Action>
    requires LanesInv(t) && LaneOf(t, up).near.Running? && LaneOf(t, up).far.Running?
  {
    AsActions(Drain(LaneOf(t, up), last), up)
  }

  lemma DialledWhenRunning(t: Tunnel, text: Text)
    requires Inv(t, text) && (t.up.far.Running? || t.down.near.Running?)
    ensures t.server.dialled
  {
  }

  lemma OneDirectionFinishes(t: Tunnel, up: bool, last: seq<byte>, text: Text)
    requires Inv(t, text)
    requires LaneOf(t, up).near.Running? && LaneOf(t, up).far.Running? && !LaneOf(t, up).sourceEnded
    ensures var u := Run(t, Finishing(t, up, last), text);
      && OnlyLane(t, u, up) && Inv(u, text)
      && LaneOf(u, up).near.Finished? && LaneOf(u, up).far.Finished?
      && LaneOf(u, up).sink == LaneOf(u, up).source == LaneOf(t, up).source + last
  {
    hide Run, RunLane, LaneInv, ClientSide, ServerSide;
    Counts(LaneOf(t, up));
    RunKeepsInv(t, Finishing(t, up, last), text);
    DialledWhenRunning(t, text);
    Drained(LaneOf(t, up), last);
    CarryRun(t, Drain(LaneOf(t, up), last), up, text);
  }

  /** Aborting both sides when either one is done is not what happens. From every reachable state in
      which traffic flows, either peer can close, its direction can end cleanly at both ends, and the other
      direction is untouched; and then it still delivers whatever the other peer goes on to send, up to
      its own end, and both `forward_bidi` succeed. */
  lemma OtherDirectionGoesOn(before: seq<Action>, up: bool, last: seq<byte>, answer: seq<byte>, text: Text)
      returns (first: seq<Action>, second: seq<Action>)
    requires Open(Run(Initial(), before, text))
    ensures var t := Run(Initial(), before, text);
      var u := Run(Initial(), before + first, text);
      var v := Run(Initial(), before + first + second, text);
      && LaneOf(u, up).near.Finished? && LaneOf(u, up).far.Finished?
      && LaneOf(u, up).sink == LaneOf(t, up).source + last
      && LaneOf(u, !up) == LaneOf(t, !up) && u.client.end == t.client.end && u.server.end == t.server.end
      && v.client.end == t.client.end && v.server.end == t.server.end
      && LaneOf(v, up) == LaneOf(u, up) && LaneOf(v, !up).sink == LaneOf(t, !up).source + answer
      && v.client.out == v.down.sink
      && ResultAt(v, true) == Some(true) && ResultAt(v, false) == Some(true)
  {
    var t := Run(Initial(), before, text);
    Reachable(before, text);
    first := Finishing(t, up, last);
    RunConcat(Initial(), before, first, text);
    var u := Run(t, first, text);
    OneDirectionFinishes(t, up, last, text);
    second := Finishing(u, !up, answer);
    RunConcat(Initial(), before + first, second, text);
    OneDirectionFinishes(u, !up, answer, text);
    FinishedHasNoRefusal(Run(u, second, text), text);
  }

  lemma FinishedHasNoRefusal(t: Tunnel, text: Text)
    requires Inv(t, text) && t.down.far.Finished?
    ensures t.client.out == t.down.sink
  {
  }

  // ----- traffic can flow -----

  /** A client whose handshake was accepted is connected, and everybody starts forwarding. */
  function Connecting(request: seq<byte>, k: nat): seq<Action> {
    [Peers(ClientSends(request)), Client(Peek(k)), Client(RouteOk), Client(RouteOk), Client(RouteOk), Client(RouteOk),
     Client(SendPreamble(|HANDSHAKE|)), Client(StartClient),
     Server(AcceptStream), Server(ReadPreamble(|HANDSHAKE|)), Server(CheckPreamble), Server(Dial(true))]
  }

  /** The state after six of these steps. */
  function Routed(request: seq<byte>, k: nat, info: HandshakeInfo): Tunnel {
    var t := Initial();
    t.(up := t.up.(source := request), client := t.client.(stage := SendingPreamble, peeked := k, info := Some(info)))
  }

  /** After two more. */
  function Greeted(request: seq<byte>, k: nat, info: HandshakeInfo): Tunnel {
    var t := Routed(request, k, info);
    t.(up := t.up.(stream := HANDSHAKE, near := Running([])), down := t.down.(far := Running([])),
       client := t.client.(stage := ClientForwarding, end := End.End(true, false)))
  }

  lemma Unroll(t: Tunnel, actions: seq<Action>, text: Text)
    requires |actions| >= 2
    ensures Run(t, actions, text) == Run(Step(Step(t, actions[0], text), actions[1], text), actions[2..], text)
  {
    hide Step;
    assert actions[1..][1..] == actions[2..];
  }

  lemma Routes(request: seq<byte>, k: nat, text: Text)
    requires 0 < k <= PEEK_SIZE && k <= |request| && Parse(request[..k], text).Ok?
    ensures Run(Initial(), Connecting(request, k), text)
         == Run(Routed(request, k, Parse(request[..k], text).value), Connecting(request, k)[6..], text)
  {
    hide Run, Parse;
    var run, s0 := Connecting(request, k), Routed(request, k, Parse(request[..k], text).value);
    Unroll(Initial(), run, text);
    assert [] + request == request;
    var s1 := s0.(client := s0.client.(stage := Routing(Lookup)));
    assert Step(Step(Initial(), run[0], text), run[1], text) == s1;
    Unroll(s1, run[2..], text);
    var s2 := s0.(client := s0.client.(stage := Routing(Connect)));
    assert run[2..][2..] == run[4..] && run[4..][2..] == run[6..];
    assert Step(Step(s1, run[2], text), run[3], text) == s2;
    Unroll(s2, run[4..], text);
  }

  lemma Greets(request: seq<byte>, k: nat, info: HandshakeInfo, text: Text)
    ensures Run(Routed(request, k, info), Connecting(request, k)[6..], text)
         == Run(Greeted(request, k, info), Connecting(request, k)[8..], text)
  {
    hide Run, Parse;
    var run, s := Connecting(request, k), Routed(request, k, info);
    Unroll(s, run[6..], text);
    assert run[6..][2..] == run[8..];
    var s1 := Step(s, run[6], text);
    assert s1 == s.(up := s.up.(stream := HANDSHAKE));
    assert Step(s1, run[7], text) == Greeted(request, k, info);
  }

  /** Whatever a client sends behind a handshake that a peek can see whole: there is a run in which
      traffic flows in both directions and no token is cancelled. */
  lemma OpenIsReachable(request: seq<byte>, k: nat, text: Text)
    requires 0 < k <= PEEK_SIZE && k <= |request| && Parse(request[..k], text).Ok?
    ensures var t := Run(Initial(), Connecting(request, k), text);
      Open(t) && t.up.source == request && t.down.source == []
  {
    hide Run, Parse;
    var run, info := Connecting(request, k), Parse(request[..k], text).value;
    Routes(request, k, text);
    Greets(request, k, info, text);
    var s := Greeted(request, k, info);
    Unroll(s, run[8..], text);
    assert run[8..][2..] == run[10..] && run[10..][2..] == [];
    var s1 := s.(up := s.up.(consumed := |HANDSHAKE|), server := s.server.(stage := ReadingPreamble));
    assert Step(Step(s, run[8], text), run[9], text) == s1;
    Unroll(s1, run[10..], text);
    var s2 := Step(s1, run[10], text);
    assert s2.server.stage == Dialling;
    RunNothing(Step(s2, run[11], text), text);
  }

  lemma RunNothing(t: Tunnel, text: Text)
    ensures Run(t, [], text) == t
  {
  }

  // ----- a success that hides a loss -----

  /** The client's sending pump fails and its stream is ended rather than reset, as dropping it does; the
      server takes what is in the stream. */
  function FailAndDrop(t: Tunnel, more: seq<byte>): seq<Action>
    requires t.up.far.Running? && t.up.consumed <= |t.up.stream|
  {
    [Peers(ClientSends(more)), Flow(PumpFails(true, true, false, true))] + AsActions(TakeRest(t.up), true)
  }

  function TakeRest(l: Lane): seq<LaneAction>
    requires l.far.Running? && l.consumed <= |l.stream|
  {
    var n := |l.stream| - l.consumed;
    [Far(Read(n)), Far(Write(|l.far.held| + n)), Far(Finish)]
  }

  lemma TakesRest(l: Lane)
    requires LaneInv(l) && l.far.Running? && l.streamEnded && l.preamble == HANDSHAKE
    ensures var m := RunLane(l, TakeRest(l));
      && m.far.Finished? && m.near == l.near && m.source == l.source && LaneInv(m)
      && m.stream == l.stream && |HANDSHAKE| <= |l.stream| && m.sink == l.stream[|HANDSHAKE|..]
  {
    var xs := TakeRest(l);
    LaneRunKeepsInv(l, xs);
    assert xs[1..][1..] == xs[2..] && xs[2..][1..] == [];
    var a := LaneStep(l, xs[0]);
    assert a.far.Running? && |a.far.held| == xs[1].pump.n && a.consumed == |a.stream|;
    var b := LaneStep(a, xs[1]);
    assert b.far == Running([]) && b.consumed == |b.stream|;
    var c := LaneStep(b, xs[2]);
    assert c.far.Finished? && c.stream == l.stream;
    assert RunLane(l, xs) == RunLane(a, xs[1..]) == RunLane(b, xs[2..]) == RunLane(c, []) == c;
  }

  lemma FailsAndDrops(t: Tunnel, more: seq<byte>, text: Text)
    requires Inv(t, text) && Open(t)
    ensures var u := Run(t, FailAndDrop(t, more), text);
      && Inv(u, text) && u.up.far.Finished? && u.down == t.down && u.server == t.server
      && u.up.source == t.up.source + more && |HANDSHAKE| <= |t.up.stream| && u.up.sink == t.up.stream[|HANDSHAKE|..]
  {
    hide Run, RunLane, LaneInv, OutputInv, InfoInv;
    Counts(t.up);
    var run := FailAndDrop(t, more);
    RunKeepsInv(t, run, text);
    Unroll(t, run, text);
    assert run[2..] == AsActions(TakeRest(t.up), true);
    var s1 := Step(t, run[0], text);
    StepKeepsInv(t, run[0], text);
    var s := Step(s1, run[1], text);
    StepKeepsInv(s1, run[1], text);
    assert s.up == t.up.(source := t.up.source + more, near := Failed, streamEnded := true);
    TakesRest(s.up);
    assert s.server == t.server && s.down == t.down;
    assert TakeRest(s.up) == TakeRest(t.up);
    CarryRun(s, TakeRest(s.up), true, text);
  }

  /** The backend closes, and the server's sending pump moves what is left: the sender's half of `Drain`. */
  function ServerSends(t: Tunnel): seq<Action>
    requires LanesInv(t) && t.down.near.Running? && t.down.far.Running?
  {
    AsActions(Drain(t.down, [])[..5], false)
  }

  lemma SenderFinishes(l: Lane)
    requires l.near.Running? && l.far.Running? && !l.sourceEnded && l.taken <= |l.source| && l.consumed <= |l.stream|
    ensures RunLane(l, Drain(l, [])[..5]).near.Finished?
  {
    SenderDrains(l, []);
    var all := Drain(l, []);
    var xs := all[..5];
    Unroll4(l, xs);
    var m := LaneStep(LaneStep(LaneStep(LaneStep(l, xs[0]), xs[1]), xs[2]), xs[3]);
    assert xs[4..] == [xs[4]] && [xs[4]][1..] == [];
    assert LaneStep(m, xs[4]).near.Finished?;
    NothingLeft(LaneStep(m, xs[4]));
    assert RunLane(m, [xs[4]]) == RunLane(LaneStep(m, xs[4]), []);
  }

  lemma ServerFinishesSending(t: Tunnel, text: Text)
    requires Inv(t, text) && t.server.dialled && t.down.near.Running? && t.down.far.Running? && !t.down.sourceEnded
    ensures var u := Run(t, ServerSends(t), text);
      u.up == t.up && u.down.near.Finished? && u.server == t.server
  {
    Counts(t.down);
    hide Run, RunLane, LaneStep, Drain, LaneInv;
    SenderFinishes(t.down);
    SenderIsCarried(t.down);
    CarryRun(t, Drain(t.down, [])[..5], false, text);
  }

  lemma SenderIsCarried(l: Lane)
    requires l.near.Running? && l.far.Running? && l.taken <= |l.source| && l.consumed <= |l.stream|
    ensures |Drain(l, [])| == 8 && forall x <- Drain(l, [])[..5] :: Carried(x)
  {
  }

  /** A success at the receiving end alone can hide a loss. From every reachable state in which traffic
      flows, the client's end can fail in such a way that `forward_bidi` succeeds at the server's end,
      and the backend lacks all that was not yet in the stream. Nothing that the client's end does after
      its failure is needed. */
  lemma SuccessCanHideLoss(before: seq<Action>, more: seq<byte>, text: Text) returns (after: seq<Action>)
    requires Open(Run(Initial(), before, text))
    ensures var t, v := Run(Initial(), before, text), Run(Initial(), before + after, text);
      && ResultAt(v, false) == Some(true)
      && v.up.source == t.up.source + more
      && |HANDSHAKE| <= |t.up.stream| && v.up.sink == t.up.stream[|HANDSHAKE|..]
  {
    var t := Run(Initial(), before, text);
    Reachable(before, text);
    FailsAndDrops(t, more, text);
    var u := Run(t, FailAndDrop(t, more), text);
    DialledWhenRunning(t, text);
    ServerFinishesSending(u, text);
    after := FailAndDrop(t, more) + ServerSends(u);
    RunConcat(t, FailAndDrop(t, more), ServerSends(u), text);
    RunConcat(Initial(), before, after, text);
  }

  /** Dropping the client's handler while traffic flows does not end the connection: from every such state
      both directions can still be completed, in either order, and both `forward_bidi` succeed. */
  lemma DroppedHandlerForwardsOn(before: seq<Action>, up: bool, last: seq<byte>, answer: seq<byte>, text: Text)
      returns (first: seq<Action>, second: seq<Action>)
    requires Open(Run(Initial(), before, text))
    ensures var t := Run(Initial(), before, text);
      var v := Run(Initial(), before + [Client(DropClient)] + first + second, text);
      && LaneOf(v, up).sink == LaneOf(t, up).source + last && LaneOf(v, !up).sink == LaneOf(t, !up).source + answer
      && ResultAt(v, true) == Some(true) && ResultAt(v, false) == Some(true)
  {
    var t := Run(Initial(), before, text);
    var dropped := before + [Client(DropClient)];
    RunConcat(Initial(), before, [Client(DropClient)], text);
    RunOne(t, Client(DropClient), text);
    DropKeepsLanes(t, text);
    first, second := OtherDirectionGoesOn(dropped, up, last, answer, text);
  }

  lemma RunOne(t: Tunnel, a: Action, text: Text)
    ensures Run(t, [a], text) == Step(t, a, text)
  {
    hide Step;
    assert [a][1..] == [];
    RunNothing(Step(t, a, text), text);
  }

  lemma DropKeepsLanes(t: Tunnel, text: Text)
    ensures Step(t, Client(DropClient), text) == t.(client := t.client.(stage := ClientDone))
  {
  }

  // ----- an interrupt -----

  /** An interrupt at an end that forwards cancels its token, and then a receiving pump that still runs there
      can end at once, with which `forward_bidi` fails. The other end's token is not touched. */
  lemma InterruptEnds(before: seq<Action>, atClient: bool, text: Text) returns (after: seq<Action>)
    requires var t := Run(Initial(), before, text);
      EndOf(t, atClient).started && PumpOf(t, atClient, false).Running?
    ensures var u := Run(Initial(), before + [Flow(Interrupt(atClient))], text);
      var v := Run(Initial(), before + [Flow(Interrupt(atClient))] + after, text);
      && EndOf(u, atClient).token
      && ResultAt(v, atClient) == Some(false)
      && EndOf(v, !atClient) == EndOf(Run(Initial(), before, text), !atClient)
  {
    var t := Run(Initial(), before, text);
    var strike, fail := Flow(Interrupt(atClient)), Flow(PumpFails(atClient, false, true, false));
    after := [fail];
    hide Run;
    RunConcat(Initial(), before + [strike], after, text);
    RunConcat(Initial(), before, [strike], text);
    RunOne(t, strike, text);
    RunOne(Step(t, strike, text), fail, text);
  }
}
