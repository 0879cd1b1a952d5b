// One tunnelled connection (src/p2p_pipe.rs): `handle_tcp_accept` at the client's end, a QUIC stream
// in each direction, and `handle_endpoint_accept` at the server's end. The two handlers, the four
// pumps, the game client and the backend take steps in any order; anything may fail at any moment.
module P2pPipe {
  import opened Bytes
  import opened Lane
  import opened ParseServer
  import opened McDisconnect
  import opened VarInt

  const HANDSHAKE: seq<byte> := [0x68, 0x65, 0x6C, 0x6C, 0x6F]  // "hello"
  const PEEK_SIZE: nat := 512
  const LOGIN: i32 := 2

  /** The steps between the parsed handshake and the preamble, in order. */
  datatype RouteStep = Lookup | ReadTicket | Connect | OpenStream

  datatype Refusal = NotFound | LookupFailed | BadTicket | Unreachable | NoStream | HandshakeFailed

  function Message(r: Refusal, serverId: seq<byte>): seq<byte> {
    match r
    case NotFound => Ascii("Server '") + serverId + Ascii("' not found. Check the address and try again.")
    case LookupFailed => Ascii("Proxy error: failed to look up server. Please try again later.")
    case BadTicket => Ascii("Server '") + serverId + Ascii("' has an invalid configuration. Contact the server owner.")
    case Unreachable => Ascii("Could not reach server '") + serverId + Ascii("'. It may be offline.")
    case NoStream => Ascii("Connected to '") + serverId + Ascii("' but could not open a stream. Try again.")
    case HandshakeFailed => Ascii("Proxy handshake failed. Please try again.")
  }

  /** The refusals that a routing step can lead to. */
  predicate CanFailWith(step: RouteStep, r: Refusal) {
    match step
    case Lookup => r == NotFound || r == LookupFailed
    case ReadTicket => r == BadTicket
    case Connect => r == Unreachable
    case OpenStream => r == NoStream
  }

  datatype ClientStage = Parsing | Routing(step: RouteStep) | SendingPreamble | Refusing | ClientForwarding | ClientDone

  datatype ServerStage = Awaiting | ReadingPreamble | Dialling | ServerForwarding | ServerDone

  /** What `forward_bidi` has at one end: has it started, and is its token cancelled? */
  datatype End = End(started: bool, token: bool)

  datatype ClientState = ClientState(
    stage: ClientStage,
    peeked: nat,                     // how many bytes the successful peek saw
    info: Option<HandshakeInfo>,
    refusal: Option<Refusal>,
    out: seq<byte>,                  // all bytes written to the game client's socket
    end: End)

  datatype ServerState = ServerState(
    stage: ServerStage,
    dialled: bool,                   // a connection to the backend was attempted
    end: End)

  /** `up` leads from the game client to the backend, `down` back. */
  datatype Tunnel = Tunnel(up: Lane, down: Lane, client: ClientState, server: ServerState)

  datatype PeerAction = ClientSends(bytes: seq<byte>) | ClientCloses | BackendSends(bytes: seq<byte>) | BackendCloses

  datatype ClientAction =
    | Peek(k: nat) | PeekFails
    | RouteOk | RouteFails(refusal: Refusal)
    | SendPreamble(n: nat) | PreambleFails | StartClient
    | RefuseWrite(n: nat)
    | DropClient | ReleaseUp(endsStream: bool) | ReleaseOut

  datatype ServerAction =
    | AcceptStream | ReadPreamble(n: nat) | CheckPreamble | Dial(ok: bool)
    | DropServer | ReleaseDown(endsStream: bool) | ReleaseBackend

  datatype FlowAction =
    | Pumping(atClient: bool, sending: bool, pump: PumpAction)
    | PumpFails(atClient: bool, sending: bool, cancelled: bool, endsStream: bool)
    | Interrupt(atClient: bool)

  datatype Action = Peers(p: PeerAction) | Client(c: ClientAction) | Server(s: ServerAction) | Flow(f: FlowAction)

  function Initial(): Tunnel {
    Tunnel(NewLane(HANDSHAKE), NewLane([]),
           ClientState(Parsing, 0, None, None, [], End.End(false, false)),
           ServerState(Awaiting, false, End.End(false, false)))
  }

  // ----- the game client and the backend -----

  function PeersStep(t: Tunnel, a: PeerAction): Tunnel {
    match a
    case ClientSends(bytes) => t.(up := LaneStep(t.up, Send(bytes)))
    case ClientCloses => t.(up := LaneStep(t.up, LaneAction.End))
    case BackendSends(bytes) => if t.server.dialled then t.(down := LaneStep(t.down, Send(bytes))) else t
    case BackendCloses => if t.server.dialled then t.(down := LaneStep(t.down, LaneAction.End)) else t
  }

  // ----- `handle_tcp_accept` -----

  /** The packet with which a refused client is disconnected. */
  function Notice(c: ClientState): seq<byte>
    requires c.info.Some? && c.refusal.Some?
  {
    LoginDisconnect(Message(c.refusal.value, c.info.value.serverId))
  }

  /** `disconnect!` */
  function Refuse(c: ClientState, r: Refusal): ClientState {
    if c.info.Some? && c.info.value.nextState == LOGIN then c.(stage := Refusing, refusal := Some(r))
    else c.(stage := ClientDone)
  }

  /** The handshake can be discarded: allocating the bytes does not panic, and as many have come, or the
      client has closed. */
  predicate Discards(info: HandshakeInfo, up: Lane) {
    info.packetLen <= MAX_SLICE && (info.packetLen <= |up.source| || up.sourceEnded)
  }

  function NextStage(step: RouteStep): ClientStage {
    match step
    case Lookup => Routing(ReadTicket)
    case ReadTicket => Routing(Connect)
    case Connect => Routing(OpenStream)
    case OpenStream => SendingPreamble
  }

  predicate ClientEnabled(t: Tunnel, a: ClientAction) {
    var c := t.client;
    match a
    case Peek(k) => c.stage == Parsing && 0 < k <= PEEK_SIZE && k <= |t.up.source|
    case PeekFails => c.stage == Parsing
    case RouteOk => c.stage.Routing?
    case RouteFails(r) => c.stage.Routing? && CanFailWith(c.stage.step, r)
    case SendPreamble(_) => c.stage == SendingPreamble
    case PreambleFails => c.stage == SendingPreamble && |t.up.stream| < |HANDSHAKE|
    case StartClient => c.stage == SendingPreamble && t.up.stream == HANDSHAKE
    case RefuseWrite(n) =>
      c.stage == Refusing && c.info.Some? && c.refusal.Some? && Discards(c.info.value, t.up)
      && |c.out| + n <= |Notice(c)|
    case DropClient => true
    case ReleaseUp(_) => (c.stage == Refusing || c.stage == ClientDone) && t.up.near.Idle?
    case ReleaseOut => c.stage == ClientDone && t.down.far.Idle?
  }

  function ClientControl(t: Tunnel, a: ClientAction, text: Text): ClientState
    requires ClientEnabled(t, a)
  {
    var c := t.client;
    match a
    case Peek(k) =>
      (match Parse(t.up.source[..k], text)
       case Ok(info) => c.(stage := Routing(Lookup), peeked := k, info := Some(info))
       case _ => c.(stage := ClientDone))
    case PeekFails => c.(stage := ClientDone)
    case RouteOk => c.(stage := NextStage(c.stage.step))
    case RouteFails(r) => Refuse(c, r)
    case PreambleFails => Refuse(c, HandshakeFailed)
    case StartClient => c.(stage := ClientForwarding, end := c.end.(started := true))
    case RefuseWrite(n) => c.(out := c.out + Notice(c)[|c.out|..|c.out| + n])
    case DropClient => c.(stage := ClientDone)
    case _ => c
  }

  function ClientUp(a: ClientAction): Option<LaneAction> {
    match a
    case SendPreamble(n) => Some(WritePreamble(n))
    case StartClient => Some(Near(Start, false))
    case ReleaseUp(endsStream) => Some(Near(Fail, endsStream))
    case _ => None
  }

  function ClientDown(a: ClientAction): Option<LaneAction> {
    match a
    case StartClient => Some(Far(Start))
    case ReleaseOut => Some(Far(Fail))
    case _ => None
  }

  function ClientStep(t: Tunnel, a: ClientAction, text: Text): Tunnel {
    if !ClientEnabled(t, a) then t
    else t.(client := ClientControl(t, a, text), up := OnLane(t.up, ClientUp(a)), down := OnLane(t.down, ClientDown(a)))
  }

  // ----- `handle_endpoint_accept` -----

  predicate ServerEnabled(t: Tunnel, a: ServerAction) {
    var s := t.server;
    match a
    case AcceptStream => s.stage == Awaiting && |t.up.stream| > 0
    case ReadPreamble(_) => s.stage == ReadingPreamble
    case CheckPreamble => s.stage == ReadingPreamble && t.up.consumed == |HANDSHAKE|
    case Dial(_) => s.stage == Dialling
    case DropServer => s.stage != ServerForwarding
    case ReleaseDown(_) => s.stage == ServerDone && t.down.near.Idle?
    case ReleaseBackend => s.stage == ServerDone && t.up.far.Idle?
  }

  function ServerControl(t: Tunnel, a: ServerAction): ServerState {
    var s := t.server;
    match a
    case AcceptStream => s.(stage := ReadingPreamble)
    case CheckPreamble => s.(stage := if IsPrefix(HANDSHAKE, t.up.stream) then Dialling else ServerDone)
    case Dial(ok) =>
      s.(dialled := true, stage := if ok then ServerForwarding else ServerDone, end := s.end.(started := ok))
    case DropServer => s.(stage := ServerDone)
    case _ => s
  }

  function ServerUp(a: ServerAction): Option<LaneAction> {
    match a
    case ReadPreamble(n) => Some(SkipPreamble(n))
    case Dial(ok) => if ok then Some(Far(Start)) else None
    case ReleaseBackend => Some(Far(Fail))
    case _ => None
  }

  function ServerDown(a: ServerAction): Option<LaneAction> {
    match a
    case Dial(ok) => if ok then Some(Near(Start, false)) else None
    case ReleaseDown(endsStream) => Some(Near(Fail, endsStream))
    case _ => None
  }

  function ServerStep(t: Tunnel, a: ServerAction): Tunnel {
    if !ServerEnabled(t, a) then t
    else t.(server := ServerControl(t, a), up := OnLane(t.up, ServerUp(a)), down := OnLane(t.down, ServerDown(a)))
  }

  // ----- `forward_bidi`, at both ends -----

  /** A pump step that moves bytes or ends cleanly. */
  predicate Moves(p: PumpAction) {
    p.Read? || p.Write? || p.Finish?
  }

  function PumpOf(t: Tunnel, atClient: bool, sending: bool): Pump {
    if atClient then if sending then t.up.near else t.down.far
    else if sending then t.down.near else t.up.far
  }

  function EndOf(t: Tunnel, atClient: bool): End {
    if atClient then t.client.end else t.server.end
  }

  predicate FlowEnabled(t: Tunnel, a: FlowAction) {
    match a
    case Pumping(_, _, p) => Moves(p)
    case PumpFails(atClient, sending, cancelled, _) =>
      PumpOf(t, atClient, sending).Running? && (cancelled ==> EndOf(t, atClient).token)
    case Interrupt(atClient) => EndOf(t, atClient).started  // `forward_bidi` spawns the task that waits for it
  }

  function OnPump(t: Tunnel, atClient: bool, sending: bool, p: PumpAction, endsStream: bool): Tunnel {
    if atClient == sending then t.(up := LaneStep(t.up, if sending then Near(p, endsStream) else Far(p)))
    else t.(down := LaneStep(t.down, if sending then Near(p, endsStream) else Far(p)))
  }

  function OnEnd(t: Tunnel, atClient: bool, e: End): Tunnel {
    if atClient then t.(client := t.client.(end := e)) else t.(server := t.server.(end := e))
  }

  /** The bytes that a step of the client's receiving pump writes to the game client. */
  function Written(t: Tunnel, a: FlowAction): seq<byte> {
    if a.Pumping? && a.atClient && !a.sending && a.pump.Write? && FarEnabled(t.down, a.pump)
    then t.down.far.held[..a.pump.n]
    else []
  }

  function FlowStep(t: Tunnel, a: FlowAction): Tunnel {
    if !FlowEnabled(t, a) then t
    else
      match a
      case Pumping(atClient, sending, p) =>
        OnPump(t.(client := t.client.(out := t.client.out + Written(t, a))), atClient, sending, p, false)
      case PumpFails(atClient, sending, cancelled, endsStream) =>
        OnEnd(OnPump(t, atClient, sending, Fail, endsStream), atClient, EndOf(t, atClient).(token := true))
      case Interrupt(atClient) => OnEnd(t, atClient, EndOf(t, atClient).(token := true))
  }

  // ----- runs -----

  function OnLane(l: Lane, a: Option<LaneAction>): Lane {
    match a
    case None => l
    case Some(x) => LaneStep(l, x)
  }

  /** One step; an action that is not enabled changes nothing. `text` are the library calls of the parser. */
  function Step(t: Tunnel, a: Action, text: Text): Tunnel {
    match a
    case Peers(p) => PeersStep(t, p)
    case Client(c) => ClientStep(t, c, text)
    case Server(s) => ServerStep(t, s)
    case Flow(f) => FlowStep(t, f)
  }

  function Run(t: Tunnel, actions: seq<Action>, text: Text): Tunnel
    decreases |actions|
  {
    if actions == [] then t else Run(Step(t, actions[0], text), actions[1..], text)
  }

  // ----- the invariant -----

  predicate LanesInv(t: Tunnel) {
    LaneInv(t.up) && LaneInv(t.down) && t.up.preamble == HANDSHAKE && t.down.preamble == []
  }

  predicate Started(p: Pump) {
    p.Running? || p.Finished?
  }

  predicate Early(stage: ClientStage) {
    stage == Parsing || stage.Routing? || stage == SendingPreamble
  }

  /** How far the client's handler has come. */
  predicate ClientInv(t: Tunnel) {
    var c := t.client;
    && (c.stage == Parsing || c.stage.Routing? ==> t.up.stream == [])
    && (Early(c.stage) ==> t.up.near.Idle? && t.down.far.Idle? && c.refusal.None? && !c.end.started)
    && (c.stage != Parsing && c.stage != ClientDone ==> c.info.Some?)
    && (c.stage == Refusing ==> c.refusal.Some?)
    && (c.stage == ClientForwarding ==> c.end.started)
    && (Started(t.up.near) || Started(t.down.far) ==> c.end.started)
    && (c.end.started ==> !t.up.near.Idle? && !t.down.far.Idle?)
  }

  /** What the game client was sent. */
  predicate OutputInv(t: Tunnel) {
    var c := t.client;
    match c.refusal
    case None => c.out == t.down.sink
    case Some(_) =>
      && c.info.Some? && c.info.value.nextState == LOGIN
      && IsPrefix(c.out, Notice(c)) && (c.out != [] ==> Discards(c.info.value, t.up))
      && t.down.sink == [] && !c.end.started
      && |t.up.stream| < |HANDSHAKE|
      && (c.stage == Refusing || c.stage == ClientDone)
  }

  /** How far the server's handler has come. */
  predicate ServerInv(t: Tunnel) {
    var s := t.server;
    && (s.stage == Dialling || s.dialled ==> |HANDSHAKE| <= t.up.consumed)
    && (s.stage == Awaiting || s.stage == ReadingPreamble || s.stage == Dialling ==>
          !s.dialled && t.up.far.Idle? && t.down.near.Idle?)
    && (s.stage == ServerForwarding ==> s.end.started)
    && (Started(t.up.far) || Started(t.down.near) || t.up.sink != [] ==> s.end.started)
    && (s.end.started ==> s.dialled && !t.up.far.Idle? && !t.down.near.Idle?)
  }

  /** A pump that was started fails only at an end whose token is cancelled. */
  predicate TokenInv(e: End, sender: Pump, receiver: Pump) {
    e.started && (sender.Failed? || receiver.Failed?) ==> e.token
  }

  /** What the handler knows is what the parser finds in the bytes that it peeked. */
  predicate InfoInv(c: ClientState, source: seq<byte>, text: Text) {
    && c.peeked <= |source| && c.peeked <= PEEK_SIZE
    && (c.info.Some? ==> Parse(source[..c.peeked], text) == Ok(c.info.value))
  }

  predicate ClientSide(t: Tunnel, text: Text) {
    && ClientInv(t) && OutputInv(t) && InfoInv(t.client, t.up.source, text)
    && TokenInv(t.client.end, t.up.near, t.down.far)
  }

  predicate ServerSide(t: Tunnel) {
    ServerInv(t) && TokenInv(t.server.end, t.down.near, t.up.far)
  }

  predicate Inv(t: Tunnel, text: Text) {
    LanesInv(t) && ClientSide(t, text) && ServerSide(t)
  }

  lemma InitialInv(text: Text)
    ensures Inv(Initial(), text)
  {
  }

  // ----- every action keeps it -----

  lemma OnLaneKeeps(l: Lane, a: Option<LaneAction>)
    requires LaneInv(l)
    ensures LaneInv(OnLane(l, a)) && OnLane(l, a).preamble == l.preamble
  {
    hide LaneInv, LaneStep;
    if a.Some? {
      LaneStepKeepsInv(l, a.value);
      PreambleStays(l, a.value);
    }
  }

  lemma PreambleStays(l: Lane, a: LaneAction)
    ensures LaneStep(l, a).preamble == l.preamble
  {
  }

  /** What the handlers' claims use of a lane's invariant. */
  lemma IdleMeansUntouched(l: Lane)
    requires LaneInv(l)
    ensures l.near.Idle? ==> !l.streamEnded && |l.stream| <= |l.preamble|
    ensures l.far.Idle? ==> l.sink == [] && l.consumed <= |l.preamble|
    ensures l.consumed <= |l.stream|
  {
  }

  lemma LanesKept(t: Tunnel, a: Action, text: Text)
    requires LanesInv(t)
    ensures LanesInv(Step(t, a, text))
  {
    hide LaneInv, LaneStep;
    match a {
      case Peers(ClientSends(bytes)) => OnLaneKeeps(t.up, Some(Send(bytes)));
      case Peers(ClientCloses) => OnLaneKeeps(t.up, Some(LaneAction.End));
      case Peers(BackendSends(bytes)) => OnLaneKeeps(t.down, Some(Send(bytes)));
      case Peers(BackendCloses) => OnLaneKeeps(t.down, Some(LaneAction.End));
      case Client(c) =>
        OnLaneKeeps(t.up, ClientUp(c));
        OnLaneKeeps(t.down, ClientDown(c));
      case Server(s) =>
        OnLaneKeeps(t.up, ServerUp(s));
        OnLaneKeeps(t.down, ServerDown(s));
      case Flow(f) => FlowKeepsLanes(t, f);
    }
  }

  lemma FlowKeepsLanes(t: Tunnel, f: FlowAction)
    requires LanesInv(t)
    ensures LanesInv(FlowStep(t, f))
  {
    hide LaneInv, LaneStep;
    if !f.Interrupt? {
      var p := if f.Pumping? then f.pump else Fail;
      var endsStream := f.PumpFails? && f.endsStream;
      var x := Some(if f.sending then Near(p, endsStream) else Far(p));
      OnLaneKeeps(t.up, x);
      OnLaneKeeps(t.down, x);
    }
  }

  lemma PeersKeep(t: Tunnel, a: PeerAction, text: Text)
    requires Inv(t, text)
    ensures Inv(PeersStep(t, a), text)
  {
    hide Parse, LoginDisconnect, Message, LaneInv;
    LanesKept(t, Peers(a), text);
    if a.ClientSends? {
      var u := PeersStep(t, a);
      assert u.up.source[..t.client.peeked] == t.up.source[..t.client.peeked];
    }
  }

  lemma ClientKeepsClient(t: Tunnel, a: ClientAction, text: Text)
    requires LanesInv(t) && ClientSide(t, text)
    ensures ClientSide(ClientStep(t, a, text), text)
  {
    hide Parse, LoginDisconnect, Message, LaneInv;
    IdleMeansUntouched(t.up);
    IdleMeansUntouched(t.down);
  }

  lemma ClientKeepsServer(t: Tunnel, a: ClientAction, text: Text)
    requires LanesInv(t) && ServerSide(t)
    ensures ServerSide(ClientStep(t, a, text))
  {
    hide Parse, LoginDisconnect, Message, LaneInv;
    IdleMeansUntouched(t.up);
  }

  lemma ServerKeepsServer(t: Tunnel, a: ServerAction)
    requires LanesInv(t) && ServerSide(t)
    ensures ServerSide(ServerStep(t, a))
  {
    hide LaneInv;
    IdleMeansUntouched(t.up);
    IdleMeansUntouched(t.down);
  }

  lemma ServerLeavesClient(t: Tunnel, a: ServerAction)
    ensures var u := ServerStep(t, a);
      && u.client == t.client && u.up.near == t.up.near && u.up.stream == t.up.stream && u.up.source == t.up.source
      && u.up.sourceEnded == t.up.sourceEnded && u.down.far == t.down.far && u.down.sink == t.down.sink
  {
  }

  lemma ServerKeepsClient(t: Tunnel, a: ServerAction, text: Text)
    requires ClientSide(t, text)
    ensures ClientSide(ServerStep(t, a), text)
  {
    hide ServerStep, Parse, LoginDisconnect, Message;
    ServerLeavesClient(t, a);
  }

  /** What the handlers' claims use of a pump's step. */
  predicate PumpsOn(l: Lane, m: Lane, sending: bool, p: PumpAction) {
    && m.source == l.source && m.sourceEnded == l.sourceEnded && |l.stream| <= |m.stream| && l.consumed <= m.consumed
    && (if sending then m.far == l.far && m.sink == l.sink else m.near == l.near && m.stream == l.stream)
    && (Started(m.near) ==> Started(l.near)) && (Started(m.far) ==> Started(l.far))
    && (m.near.Idle? ==> l.near.Idle?) && (m.far.Idle? ==> l.far.Idle?)
    && (!Started(l.near) ==> m.stream == l.stream) && (!Started(l.far) ==> m.sink == l.sink)
    && (p != Fail ==> (m.near.Failed? <==> l.near.Failed?) && (m.far.Failed? <==> l.far.Failed?))
  }

  lemma PumpSummary(l: Lane, sending: bool, p: PumpAction, endsStream: bool)
    requires p != Start
    ensures PumpsOn(l, LaneStep(l, if sending then Near(p, endsStream) else Far(p)), sending, p)
  {
  }

  lemma SinkGrows(l: Lane, p: PumpAction)
    requires Moves(p)
    ensures LaneStep(l, Far(p)).sink == l.sink + if p.Write? && FarEnabled(l, p) then l.far.held[..p.n] else []
  {
  }

  lemma FlowKeepsServer(t: Tunnel, a: FlowAction)
    requires LanesInv(t) && ServerSide(t)
    ensures ServerSide(FlowStep(t, a))
  {
    hide LaneStep, LaneInv;
    match a {
      case Pumping(_, sending, p) =>
        if Moves(p) {
          PumpSummary(t.up, sending, p, false);
          PumpSummary(t.down, sending, p, false);
        }
      case PumpFails(_, sending, _, endsStream) =>
        PumpSummary(t.up, sending, Fail, endsStream);
        PumpSummary(t.down, sending, Fail, endsStream);
      case Interrupt(_) =>
    }
  }

  lemma PumpingKeepsClient(t: Tunnel, a: FlowAction, text: Text)
    requires LanesInv(t) && ClientSide(t, text) && a.Pumping? && Moves(a.pump)
    ensures ClientSide(FlowStep(t, a), text)
  {
    hide LaneStep, LaneInv, FarEnabled, Parse, LoginDisconnect, Message;
    PumpSummary(t.up, a.sending, a.pump, false);
    PumpSummary(t.down, a.sending, a.pump, false);
    SinkGrows(t.down, a.pump);
  }

  lemma FailureKeepsClient(t: Tunnel, a: FlowAction, text: Text)
    requires LanesInv(t) && ClientSide(t, text) && a.PumpFails?
    ensures ClientSide(FlowStep(t, a), text)
  {
    hide LaneStep, LaneInv, Parse, LoginDisconnect, Message;
    PumpSummary(t.up, a.sending, Fail, a.endsStream);
    PumpSummary(t.down, a.sending, Fail, a.endsStream);
    assert LaneStep(t.down, Far(Fail)).sink == t.down.sink by {
      FailKeepsSink(t.down);
    }
  }

  lemma FailKeepsSink(l: Lane)
    ensures LaneStep(l, Far(Fail)).sink == l.sink
  {
  }

  lemma FlowKeepsClient(t: Tunnel, a: FlowAction, text: Text)
    requires LanesInv(t) && ClientSide(t, text)
    ensures ClientSide(FlowStep(t, a), text)
  {
    hide LaneStep, LanesInv, Parse, LoginDisconnect, Message;
    match a {
      case Pumping(_, _, p) =>
        if Moves(p) {
          PumpingKeepsClient(t, a, text);
        }
      case PumpFails(_, _, _, _) => FailureKeepsClient(t, a, text);
      case Interrupt(_) =>
    }
  }

  lemma StepKeepsInv(t: Tunnel, a: Action, text: Text)
    requires Inv(t, text)
    ensures Inv(Step(t, a, text), text)
  {
    hide ClientSide, ServerSide, LanesInv, PeersStep, ClientStep, ServerStep, FlowStep;
    LanesKept(t, a, text);
    match a {
      case Peers(p) => PeersKeep(t, p, text);
      case Client(c) =>
        ClientKeepsClient(t, c, text);
        ClientKeepsServer(t, c, text);
      case Server(s) =>
        ServerKeepsClient(t, s, text);
        ServerKeepsServer(t, s);
      case Flow(f) =>
        FlowKeepsClient(t, f, text);
        FlowKeepsServer(t, f);
    }
  }

  lemma {:induction false} RunKeepsInv(t: Tunnel, actions: seq<Action>, text: Text)
    requires Inv(t, text)
    decreases |actions|
    ensures Inv(Run(t, actions, text), text)
  {
    hide Step, Inv;
    if actions != [] {
      StepKeepsInv(t, actions[0], text);
      RunKeepsInv(Step(t, actions[0], text), actions[1..], text);
    }
  }

  lemma Reachable(actions: seq<Action>, text: Text)
    ensures Inv(Run(Initial(), actions, text), text)
  {
    InitialInv(text);
    RunKeepsInv(Initial(), actions, text);
  }

  // ----- the tunnel is a pipe in each direction -----

  /** What an action does to each lane: one step of the lane, or nothing. */
  lemma StepOnLanes(t: Tunnel, a: Action, text: Text) returns (x: Option<LaneAction>, y: Option<LaneAction>)
    ensures Step(t, a, text).up == OnLane(t.up, x) && Step(t, a, text).down == OnLane(t.down, y)
  {
    hide LaneStep, Parse;
    x, y := None, None;
    match a {
      case Peers(ClientSends(bytes)) => x := Some(Send(bytes));
      case Peers(ClientCloses) => x := Some(LaneAction.End);
      case Peers(BackendSends(bytes)) => y := if t.server.dialled then Some(Send(bytes)) else None;
      case Peers(BackendCloses) => y := if t.server.dialled then Some(LaneAction.End) else None;
      case Client(c) =>
        if ClientEnabled(t, c) {
          x, y := ClientUp(c), ClientDown(c);
        }
      case Server(s) =>
        if ServerEnabled(t, s) {
          x, y := ServerUp(s), ServerDown(s);
        }
      case Flow(f) =>
        if FlowEnabled(t, f) && !f.Interrupt? {
          var p := if f.Pumping? then f.pump else Fail;
          var z := Some(if f.sending then Near(p, f.PumpFails? && f.endsStream) else Far(p));
          x, y := if f.atClient == f.sending then z else None, if f.atClient == f.sending then None else z;
        }
    }
  }

  lemma OnLaneRefinesPipe(l: Lane, x: Option<LaneAction>) returns (p: PipeAction)
    requires LaneInv(l)
    ensures PipeEnabled(AsPipe(l), p) && AsPipe(OnLane(l, x)) == PipeAct(AsPipe(l), p)
  {
    p := if x.Some? then AsPipeAction(l, x.value) else Stutter;
    if x.Some? {
      LaneRefinesPipe(l, x.value);
    }
  }

  /** In every reachable state, each action is a step of a plain pipe from the game client to the
      backend, and of one back, or no step at all. */
  lemma TunnelRefinesPipes(actions: seq<Action>, a: Action, text: Text) returns (up: PipeAction, down: PipeAction)
    ensures var t := Run(Initial(), actions, text);
      var u := Step(t, a, text);
      && PipeEnabled(AsPipe(t.up), up) && AsPipe(u.up) == PipeAct(AsPipe(t.up), up)
      && PipeEnabled(AsPipe(t.down), down) && AsPipe(u.down) == PipeAct(AsPipe(t.down), down)
  {
    hide Step, AsPipe, PipeAct, PipeEnabled, LaneInv;
    var t := Run(Initial(), actions, text);
    Reachable(actions, text);
    var x, y := StepOnLanes(t, a, text);
    up := OnLaneRefinesPipe(t.up, x);
    down := OnLaneRefinesPipe(t.down, y);
  }

  /** In every run the backend has received a prefix of what the game client sent, from its first byte
      and without the preamble, and only after it was dialled; when both pumps of a direction ended
      cleanly, all of it. Likewise back, and then the game client was sent nothing else. */
  lemma TunnelDelivers(actions: seq<Action>, text: Text)
    ensures var t := Run(Initial(), actions, text);
      && IsPrefix(t.up.sink, t.up.source) && IsPrefix(t.down.sink, t.down.source)
      && (t.up.sink != [] ==> t.server.dialled)
      && (t.up.near.Finished? && t.up.far.Finished? ==> t.up.sourceEnded && t.up.sink == t.up.source)
      && (t.down.near.Finished? && t.down.far.Finished? ==>
            t.down.sourceEnded && t.client.out == t.down.sink == t.down.source)
  {
    hide Run, Parse, LoginDisconnect, Message;
    Reachable(actions, text);
    var t := Run(Initial(), actions, text);
    SinkIsPrefix(t.up);
    SinkIsPrefix(t.down);
  }

  // ----- `forward_bidi` -----

  /** What `forward_bidi` returns, once it does: it awaits the receiving pump first. */
  function ForwardResult(receiver: Pump, sender: Pump): Option<bool> {
    match receiver
    case Failed => Some(false)
    case Finished =>
      (match sender
       case Failed => Some(false)
       case Finished => Some(true)
       case _ => None)
    case _ => None
  }

  function ResultAt(t: Tunnel, atClient: bool): Option<bool> {
    ForwardResult(PumpOf(t, atClient, false), PumpOf(t, atClient, true))
  }

  predicate Ended(p: Pump) {
    p.Finished? || p.Failed?
  }

  /** In every run and at both ends: a receiver that failed makes the result an error whatever the sender
      does; apart from that there is a result exactly if both pumps have ended, and it is success exactly if
      both finished. At an end that forwards, an error has a fault of this very end as its cause. */
  lemma ForwardResultMeans(actions: seq<Action>, text: Text, atClient: bool)
    ensures var t := Run(Initial(), actions, text);
      var receiver, sender, result := PumpOf(t, atClient, false), PumpOf(t, atClient, true), ResultAt(t, atClient);
      && (receiver.Failed? ==> result == Some(false))
      && (!receiver.Failed? ==> (result.Some? <==> Ended(receiver) && Ended(sender)))
      && (result == Some(true) <==> receiver.Finished? && sender.Finished?)
      && (EndOf(t, atClient).started && result == Some(false) ==> Struck(Initial(), actions, text, atClient))
  {
    hide Run, Struck;
    OnlyFaultsCancel(actions, text, atClient);
  }

  /** The sender has moved all that its source will ever yield, and the end of it, into the stream. */
  predicate SentAll(l: Lane) {
    l.sourceEnded && l.streamEnded && l.stream == l.preamble + l.source
  }

  /** The receiver has moved all that is in the stream. If the sink still lacks something, then the
      sender failed and ended its stream: the loss shows at the sender's end only. */
  predicate GotAll(l: Lane) {
    && l.streamEnded && l.stream == l.preamble + l.sink && IsPrefix(l.sink, l.source)
    && (l.near.Finished? || l.near.Failed?)
    && (l.near.Finished? ==> l.sourceEnded && l.sink == l.source)
  }

  lemma LaneEnds(l: Lane)
    requires LaneInv(l)
    ensures l.near.Finished? ==> SentAll(l)
    ensures l.far.Finished? ==> GotAll(l)
  {
    if l.far.Finished? {
      SinkIsPrefix(l);
      StreamStartsWithPreamble(l);
      assert l.stream == l.stream[..|l.preamble|] + l.stream[|l.preamble|..];
    }
  }

  lemma StreamStartsWithPreamble(l: Lane)
    requires LaneInv(l) && |l.stream| >= |l.preamble|
    ensures IsPrefix(l.preamble, l.stream)
  {
    var all := l.preamble + l.source[..l.taken];
    assert all[..|l.preamble|] == l.preamble;
    match l.near {
      case Running(held) => PrefixOfConcat(l.stream, held, all);
      case _ =>
    }
  }

  /** If `forward_bidi` succeeds at one end, the one stream took all that this end's socket yields and
      its end, and the socket got all that was in the other stream; what this stream lacks, if anything,
      the other end failed to send. If it succeeds at both ends, both directions are complete from socket
      to socket. */
  lemma ForwardOkIsComplete(actions: seq<Action>, text: Text, atClient: bool)
    requires ResultAt(Run(Initial(), actions, text), atClient) == Some(true)
    ensures var t := Run(Initial(), actions, text);
      && (if atClient then SentAll(t.up) && GotAll(t.down) else SentAll(t.down) && GotAll(t.up))
      && (atClient ==> t.client.out == t.down.sink)
      && (ResultAt(t, !atClient) == Some(true) ==>
            t.up.sink == t.up.source && t.up.sourceEnded && t.client.out == t.down.source && t.down.sourceEnded)
  {
    hide Run, Parse, LoginDisconnect, Message, LaneInv, SentAll;
    Reachable(actions, text);
    var t := Run(Initial(), actions, text);
    LaneEnds(t.up);
    LaneEnds(t.down);
  }

  /** The action cancels the token of an end: a running pump there meets an I/O error, or an interrupt
      reaches it. */
  predicate Faults(t: Tunnel, a: Action, atClient: bool) {
    && a.Flow? && FlowEnabled(t, a.f)
    && (a.f == Interrupt(atClient) || (a.f.PumpFails? && a.f.atClient == atClient && !a.f.cancelled))
  }

  /** An action of the run cancels the token. */
  predicate Struck(t: Tunnel, actions: seq<Action>, text: Text, atClient: bool)
    decreases |actions|
  {
    actions != [] && (Faults(t, actions[0], atClient) || Struck(Step(t, actions[0], text), actions[1..], text, atClient))
  }

  lemma TokenStep(t: Tunnel, a: Action, text: Text, atClient: bool)
    ensures EndOf(Step(t, a, text), atClient).token <==> EndOf(t, atClient).token || Faults(t, a, atClient)
  {
    hide LaneStep, Parse, LoginDisconnect, Message;
  }

  lemma {:induction false} TokenRun(t: Tunnel, actions: seq<Action>, text: Text, atClient: bool)
    decreases |actions|
    ensures EndOf(Run(t, actions, text), atClient).token
       <==> EndOf(t, atClient).token || Struck(t, actions, text, atClient)
  {
    hide Step, EndOf, Faults;
    if actions != [] {
      TokenStep(t, actions[0], text, atClient);
      TokenRun(Step(t, actions[0], text), actions[1..], text, atClient);
    }
  }

  /** Exactly the faults of an end cancel it: in every run, whatever happens at the other end and in
      whatever order the two directions end, the token of an end is cancelled if and only if one of its
      own pumps met an I/O error or an interrupt reached it; and without that neither of its pumps fails. */
  lemma OnlyFaultsCancel(actions: seq<Action>, text: Text, atClient: bool)
    ensures var t := Run(Initial(), actions, text);
      && (EndOf(t, atClient).token <==> Struck(Initial(), actions, text, atClient))
      && (EndOf(t, atClient).started && !EndOf(t, atClient).token ==>
            !PumpOf(t, atClient, true).Failed? && !PumpOf(t, atClient, false).Failed?)
  {
    hide Run, Struck, LanesInv, ClientInv, OutputInv, ServerInv, InfoInv;
    Reachable(actions, text);
    TokenRun(Initial(), actions, text, atClient);
  }

  /** The accept loop's cancellation drops the handler, which ends nothing that was started: the spawned
      pumps have tokens of their own. Neither stream, nor any pump, nor any token changes, and what the
      handler would have released by being dropped is not released. */
  lemma DroppingLeavesPumps(actions: seq<Action>, text: Text, endsStream: bool)
    requires Run(Initial(), actions, text).client.stage == ClientForwarding
    ensures var t := Run(Initial(), actions, text);
      var u := Step(t, Client(DropClient), text);
      && u == t.(client := t.client.(stage := ClientDone)) && u.client.end == t.client.end
      && Step(u, Client(ReleaseUp(endsStream)), text) == u && Step(u, Client(ReleaseOut), text) == u
  {
    hide Run, Parse, LoginDisconnect, Message, LaneInv;
    Reachable(actions, text);
  }

  predicate Untouched(p: Pump) {
    p.Idle? || p.Failed?
  }

  lemma ClientReleases(t: Tunnel, text: Text, endsStream: bool)
    requires t.client.stage == ClientDone && Untouched(t.up.near) && Untouched(t.down.far)
    ensures var u := Step(Step(t, Client(ReleaseUp(endsStream)), text), Client(ReleaseOut), text);
      && u.up.near == Failed && u.down.far == Failed
      && (t.up.near.Idle? ==> u.up.streamEnded == endsStream && u.up.stream == t.up.stream)
  {
    hide Parse, LoginDisconnect, Message;
  }

  lemma ServerReleases(t: Tunnel, text: Text, endsStream: bool)
    requires t.server.stage == ServerDone && Untouched(t.down.near) && Untouched(t.up.far)
    ensures var u := Step(Step(t, Server(ReleaseDown(endsStream)), text), Server(ReleaseBackend), text);
      && u.down.near == Failed && u.up.far == Failed
      && (t.down.near.Idle? ==> u.down.streamEnded == endsStream && u.down.stream == t.down.stream)
  {
    hide Parse, LoginDisconnect, Message;
  }

  /** A handler that ends before it forwards lets go of its streams: the other end of each can find out. */
  lemma EndedHandlersRelease(actions: seq<Action>, text: Text, endsStream: bool)
    ensures var t := Run(Initial(), actions, text);
      && (t.client.stage == ClientDone && !t.client.end.started ==>
            var u := Step(Step(t, Client(ReleaseUp(endsStream)), text), Client(ReleaseOut), text);
            && u.up.near == Failed && u.down.far == Failed
            && (t.up.near.Idle? ==> u.up.streamEnded == endsStream && u.up.stream == t.up.stream))
      && (t.server.stage == ServerDone && !t.server.end.started ==>
            var u := Step(Step(t, Server(ReleaseDown(endsStream)), text), Server(ReleaseBackend), text);
            && u.down.near == Failed && u.up.far == Failed
            && (t.down.near.Idle? ==> u.down.streamEnded == endsStream && u.down.stream == t.down.stream))
  {
    hide Run, Step, LanesInv, OutputInv, InfoInv;
    Reachable(actions, text);
    var t := Run(Initial(), actions, text);
    if t.client.stage == ClientDone && !t.client.end.started {
      ClientReleases(t, text, endsStream);
    }
    if t.server.stage == ServerDone && !t.server.end.started {
      ServerReleases(t, text, endsStream);
    }
  }

  // ----- `handle_tcp_accept` -----

  /** In every run, what the game client was sent is either a prefix of one disconnect packet, which
      only a client that logs in gets and with which the backend was not even dialled; or it is exactly
      what the receiving pump wrote, a prefix of the backend's output. */
  lemma OutputIsExclusive(actions: seq<Action>, text: Text)
    ensures var t := Run(Initial(), actions, text);
      match t.client.refusal
      case Some(_) =>
        && t.client.info.Some? && t.client.info.value.nextState == LOGIN
        && IsPrefix(t.client.out, Notice(t.client))
        && (t.client.out != [] ==> Discards(t.client.info.value, t.up))
        && !t.server.dialled && t.up.sink == [] && t.down.sink == []
      case None => t.client.out == t.down.sink && IsPrefix(t.client.out, t.down.source)
  {
    hide Run, Parse, LoginDisconnect, Message;
    Reachable(actions, text);
    var t := Run(Initial(), actions, text);
    SinkIsPrefix(t.down);
    assert t.up.consumed <= |t.up.stream|;
    if t.client.refusal.Some? {
      assert !t.server.dialled && !t.server.end.started;
      assert t.up.far.Idle? || t.up.far.Failed?;
      SinkNeedsPreamble(t.up);
    }
  }

  lemma SinkNeedsPreamble(l: Lane)
    requires LaneInv(l) && |l.stream| < |l.preamble|
    ensures l.sink == []
  {
  }

  /** The server reads the whole preamble before it dials, and what it reads is the preamble: the check
      that follows never fails. */
  lemma PreambleIsValid(actions: seq<Action>, text: Text)
    ensures var t := Run(Initial(), actions, text);
      && (t.server.dialled ==> 5 <= t.up.consumed)
      && (t.up.consumed >= 5 ==> IsPrefix([0x68, 0x65, 0x6C, 0x6C, 0x6F], t.up.stream))
  {
    hide Run, Parse, LoginDisconnect, Message;
    Reachable(actions, text);
    var t := Run(Initial(), actions, text);
    assert t.up.consumed <= |t.up.stream|;
    if |HANDSHAKE| <= t.up.consumed {
      StreamStartsWithPreamble(t.up);
    }
  }

  /** Peeking early is harmless: what the handler works with, the label that it routes on included, is
      what the parser finds in everything the game client has sent by now. */
  lemma PeekSawEnough(actions: seq<Action>, text: Text)
    requires var t := Run(Initial(), actions, text); t.client.info.Some? && |t.up.source| <= MAX_SLICE
    ensures var t := Run(Initial(), actions, text);
      Parse(t.up.source, text) == Ok(t.client.info.value) && t.client.peeked <= 512
  {
    hide Run, Parse, LoginDisconnect, Message;
    Reachable(actions, text);
    var t := Run(Initial(), actions, text);
    var seen, more := t.up.source[..t.client.peeked], t.up.source[t.client.peeked..];
    assert seen + more == t.up.source;
    ParseIsStable(seen, more, text);
  }

  // ----- what a refused client reads -----

  predicate Quotes(r: Refusal) {
    !r.LookupFailed? && !r.HandshakeFailed?
  }

  lemma QuotedLabel(before: string, serverId: seq<byte>, after: string)
    ensures var m := Ascii(before) + serverId + Ascii(after);
      (NoControl(m) <==> NoControl(serverId)) && |m| == |before| + |serverId| + |after|
  {
    var m := Ascii(before) + serverId + Ascii(after);
    assert forall i :: 0 <= i < |serverId| ==> m[|before| + i] == serverId[i];
  }

  lemma MessageIsClean(r: Refusal, serverId: seq<byte>)
    ensures NoControl(Message(r, serverId)) <==> (Quotes(r) ==> NoControl(serverId))
    ensures |Message(r, serverId)| <= |serverId| + 80
  {
    match r {
      case NotFound => QuotedLabel("Server '", serverId, "' not found. Check the address and try again.");
      case BadTicket => QuotedLabel("Server '", serverId, "' has an invalid configuration. Contact the server owner.");
      case Unreachable => QuotedLabel("Could not reach server '", serverId, "'. It may be offline.");
      case NoStream => QuotedLabel("Connected to '", serverId, "' but could not open a stream. Try again.");
      case _ =>
    }
  }

  lemma {:induction false} SpecialsAtMost(message: seq<byte>)
    ensures Specials(message) <= |message|
  {
    if message != [] {
      SpecialsAtMost(message[1..]);
    }
  }

  /** A client that was sent the whole disconnect packet reads the intended message, and nothing is left
      over, exactly if the message does not quote the label or the label that the parser found in the
      handshake has no control character. That the message fits follows from the size of the peek. */
  lemma RefusedClientReads(actions: seq<Action>, text: Text)
    requires Moderate(text)
    requires var c := Run(Initial(), actions, text).client;
      c.refusal.Some? && c.info.Some? && c.out == Notice(c)
    ensures var t := Run(Initial(), actions, text);
      && t.client.peeked <= |t.up.source|
      && var r, handshake := t.client.refusal.value, Parse(t.up.source[..t.client.peeked], text);
      && handshake.Ok?
      && var serverId := handshake.value.serverId;
      ReadLoginDisconnect(t.client.out) == Some((Message(r, serverId), [])) <==> (Quotes(r) ==> NoControl(serverId))
  {
    hide Run, Parse, Message, LoginDisconnect, ReadLoginDisconnect, LanesInv, ClientInv, OutputInv, ServerInv, NoControl;
    Reachable(actions, text);
    var t := Run(Initial(), actions, text);
    var serverId := t.client.info.value.serverId;
    var message := Message(t.client.refusal.value, serverId);
    LabelIsBounded(t.up.source[..t.client.peeked], text);
    MessageIsClean(t.client.refusal.value, serverId);
    SpecialsAtMost(message);
    ReadWrittenDisconnect(message, []);
    assert LoginDisconnect(message) + [] == LoginDisconnect(message);
  }

  /** `disconnect!` and what goes before it: parse what a peek of `k` bytes shows, then refuse. The client
      has announced `len` bytes, and sent a handshake and `rest`. A login is answered at once, and the
      handshake is cut off exactly, if it announced what it sent. If it announced more than has arrived, the
      refusal waits for the rest or for the client to close; if less than nothing, it panics. */
  method RefuseClient(stream: TcpStream, k: nat, text: Text, message: seq<byte>, through: nat,
                      ghost len: i32, ghost version: i32, ghost address: seq<byte>, ghost port: nat,
                      ghost nextState: i32, ghost rest: seq<byte>)
      returns (r: Refusing)
    requires port < 0x1_0000 && |HandshakeBody(version, address, port, nextState)| < TWO_31
    requires stream.inbound == Encode(len) + HandshakeBody(version, address, port, nextState) + rest
    requires |Encode(len) + HandshakeBody(version, address, port, nextState)| <= k <= |stream.inbound| && k <= PEEK_SIZE
    modifies stream
    ensures nextState != LOGIN ==>
      r == Refused && stream.writeShut && stream.inbound == old(stream.inbound) && stream.outbound == old(stream.outbound)
    ensures var announced, arrived := len, |HandshakeBody(version, address, port, nextState)| + |rest|;
      nextState == LOGIN ==>
        && (r == Panics <==> announced + |Encode(len)| < 0)
        && (r == Waits <==> announced > arrived && !old(stream.ended))
        && (announced == arrived - |rest| ==> stream.inbound == rest)
        && (-|Encode(len)| <= announced <= arrived ==> stream.inbound == old(stream.inbound)[announced + |Encode(len)|..])
        && (r == Refused && announced > arrived ==> stream.inbound == [])
    ensures r != Refused ==> stream.outbound == old(stream.outbound) && stream.writeShut == old(stream.writeShut)
    ensures r == Refused ==>
      && stream.writeShut
      && (exists sent :: IsPrefix(sent, LoginDisconnect(message)) && stream.outbound == old(stream.outbound) + sent)
      && (nextState == LOGIN && through >= |LoginDisconnect(message)| ==>
            stream.outbound == old(stream.outbound) + LoginDisconnect(message))
  {
    hide LoginDisconnect, HandshakeBody, Parse, Encode;
    ghost var body := HandshakeBody(version, address, port, nextState);
    ghost var h := Encode(len) + body;
    assert stream.inbound[..k] == h + rest[..k - |h|];
    LengthIsNotChecked(len, version, address, port, nextState, rest[..k - |h|], text);
    var parsed := ParseHandshakeBuf(stream.inbound[..k], text);
    var info := parsed.value;
    Announced(len);
    if info.nextState == LOGIN {
      DropsHead(h, rest);
      r := SendLoginDisconnect(stream, message, info.protocolVersion, info.packetLen, through);
    } else {
      stream.Shutdown();
      r := Refused;
      assert IsPrefix([], LoginDisconnect(message)) && stream.outbound == stream.outbound + [];
    }
  }

  /** What the parser makes of an announced length. */
  lemma Announced(len: i32)
    ensures var n := |Encode(len)|;
      && 1 <= n <= 5
      && (AddUsize(AsUsize(len), n) > MAX_SLICE <==> len + n < 0)
      && (len + n >= 0 ==> AddUsize(AsUsize(len), n) == len + n)
  {
    hide Encode;
    DecodeEncode(len, []);
  }
}
