// Two ends of `proxy_traffic` (src/util/proxy_traffic.rs) joined by a reliable ordered channel: four
// tasks and two cancellation tokens, stepping in any order.
module ProxyPair {
  import opened Bytes
  import opened ProxyTraffic

  /** A task is in its `select!`, or busy with the write that follows a read, or it has returned. */
  datatype Task = Selecting | Busy(chunk: seq<byte>) | Ended | Broken

  /** One direction: a TCP source, the task that reads it, the channel, the task that writes the sink. */
  datatype Half = Half(
    source: seq<byte>, sourceEnded: bool,
    taken: nat,
    near: Task,
    sent: seq<Message>,
    delivered: nat,        // how many messages the far task has read
    far: Task,
    sink: seq<byte>)

  datatype Move =
    | Supply(bytes: seq<byte>) | SupplyEnds
    | NearRead(n: nat) | NearWrite | NearEof | NearCancel | NearBreak(sentAnyway: bool)
    | FarRead | FarWrite(n: nat) | FarCancel | FarBreak

  predicate CanMove(h: Half, m: Move) {
    match m
    case Supply(_) => !h.sourceEnded
    case SupplyEnds => true
    case NearRead(n) => h.near == Selecting && 0 < n <= BUFFER && h.taken + n <= |h.source|
    case NearWrite => h.near.Busy?
    case NearEof => h.near == Selecting && h.sourceEnded && h.taken == |h.source|
    case NearCancel => h.near == Selecting
    case NearBreak(sentAnyway) => if sentAnyway then h.near.Busy? else h.near == Selecting || h.near.Busy?
    case FarRead => h.far == Selecting && h.delivered < |h.sent|
    case FarWrite(n) => h.far.Busy? && 0 < n <= |h.far.chunk|
    case FarCancel => h.far == Selecting
    case FarBreak => h.far == Selecting || h.far.Busy?
  }

  function HalfStep(h: Half, m: Move): Half {
    if !CanMove(h, m) then h
    else
      match m
      case Supply(bytes) => h.(source := h.source + bytes)
      case SupplyEnds => h.(sourceEnded := true)
      case NearRead(n) => h.(near := Busy(h.source[h.taken..h.taken + n]), taken := h.taken + n)
      case NearWrite => h.(near := Selecting, sent := h.sent + [h.near.chunk])
      case NearEof => h.(near := Ended)
      case NearCancel => h.(near := Ended)
      case NearBreak(sentAnyway) => h.(near := Broken, sent := if sentAnyway then h.sent + [h.near.chunk] else h.sent)
      case FarRead => h.(far := Busy(h.sent[h.delivered]), delivered := h.delivered + 1)
      case FarWrite(n) =>
        h.(sink := h.sink + h.far.chunk[..n], far := if n == |h.far.chunk| then Selecting else Busy(h.far.chunk[n..]))
      case FarCancel => h.(far := Ended)
      case FarBreak => h.(far := Broken)
  }

  const NEW_HALF := Half([], false, 0, Selecting, [], 0, Selecting, [])

  /** `up` is read at end A and written at end B; `down` the other way. */
  datatype Pair = Pair(up: Half, down: Half, tokenA: bool, tokenB: bool)

  datatype Action = Up(m: Move) | Down(m: Move) | CancelOwn(atA: bool) | CancelFromOutside(atA: bool)

  const INITIAL := Pair(NEW_HALF, NEW_HALF, false, false)

  predicate Returned(t: Task) {
    t == Ended || t == Broken
  }

  /** A task can leave its `select!` through cancellation only when its end's token is cancelled; and
      `proxy_traffic` itself cancels the token once one of its two tasks has returned. */
  predicate Enabled(p: Pair, a: Action) {
    match a
    case Up(m) => (m == NearCancel ==> p.tokenA) && (m == FarCancel ==> p.tokenB)
    case Down(m) => (m == NearCancel ==> p.tokenB) && (m == FarCancel ==> p.tokenA)
    case CancelOwn(atA) =>
      if atA then Returned(p.up.near) || Returned(p.down.far) else Returned(p.up.far) || Returned(p.down.near)
    case CancelFromOutside(_) => true
  }

  function Step(p: Pair, a: Action): Pair {
    if !Enabled(p, a) then p
    else
      match a
      case Up(m) => p.(up := HalfStep(p.up, m))
      case Down(m) => p.(down := HalfStep(p.down, m))
      case CancelOwn(atA) => if atA then p.(tokenA := true) else p.(tokenB := true)
      case CancelFromOutside(atA) => if atA then p.(tokenA := true) else p.(tokenB := true)
  }

  function Run(p: Pair, actions: seq<Action>): Pair
    decreases |actions|
  {
    if actions == [] then p else Run(Step(p, actions[0]), actions[1..])
  }

  // ----- the invariant -----

  predicate NearInv(h: Half) {
    && h.taken <= |h.source| && Sendable(h.sent)
    && match h.near
       case Busy(chunk) => 1 <= |chunk| <= BUFFER && Flatten(h.sent) + chunk == h.source[..h.taken]
       case Broken => IsPrefix(Flatten(h.sent), h.source[..h.taken])
       case _ => Flatten(h.sent) == h.source[..h.taken]
  }

  predicate FarInv(h: Half) {
    && h.delivered <= |h.sent|
    && match h.far
       case Busy(chunk) => 1 <= |chunk| <= BUFFER && h.sink + chunk == Flatten(h.sent[..h.delivered])
       case Broken => IsPrefix(h.sink, Flatten(h.sent[..h.delivered]))
       case _ => h.sink == Flatten(h.sent[..h.delivered])
  }

  predicate HalfInv(h: Half) {
    NearInv(h) && FarInv(h)
  }

  lemma NearKeeps(h: Half, m: Move)
    requires NearInv(h)
    ensures NearInv(HalfStep(h, m))
  {
    hide Flatten;
    if CanMove(h, m) {
      match m {
        case Supply(bytes) => assert (h.source + bytes)[..h.taken] == h.source[..h.taken];
        case NearRead(n) => assert h.source[..h.taken] + h.source[h.taken..h.taken + n] == h.source[..h.taken + n];
        case NearWrite => FlattenAppend(h.sent, h.near.chunk);
        case NearBreak(sentAnyway) =>
          if h.near.Busy? {
            FlattenAppend(h.sent, h.near.chunk);
            PrefixOfConcat(Flatten(h.sent), h.near.chunk, h.source[..h.taken]);
          }
        case _ =>
      }
    }
  }

  lemma FarKeeps(h: Half, m: Move)
    requires HalfInv(h)
    ensures FarInv(HalfStep(h, m))
  {
    hide Flatten;
    if CanMove(h, m) {
      match m {
        case NearWrite => assert (h.sent + [h.near.chunk])[..h.delivered] == h.sent[..h.delivered];
        case NearBreak(sentAnyway) =>
          if sentAnyway {
            assert (h.sent + [h.near.chunk])[..h.delivered] == h.sent[..h.delivered];
          }
        case FarRead =>
          assert h.sent[h.delivered] in h.sent;
          assert h.sent[..h.delivered + 1] == h.sent[..h.delivered] + [h.sent[h.delivered]];
          FlattenAppend(h.sent[..h.delivered], h.sent[h.delivered]);
        case FarWrite(n) =>
          assert h.far.chunk == h.far.chunk[..n] + h.far.chunk[n..];
          assert h.sink + h.far.chunk == (h.sink + h.far.chunk[..n]) + h.far.chunk[n..];
        case FarBreak =>
          if h.far.Busy? {
            PrefixOfConcat(h.sink, h.far.chunk, Flatten(h.sent[..h.delivered]));
          }
        case _ =>
      }
    }
  }

  lemma {:induction false} RunKeepsInv(p: Pair, actions: seq<Action>)
    requires HalfInv(p.up) && HalfInv(p.down)
    decreases |actions|
    ensures HalfInv(Run(p, actions).up) && HalfInv(Run(p, actions).down)
  {
    hide NearInv, FarInv, HalfStep;
    if actions != [] {
      match actions[0] {
        case Up(m) =>
          NearKeeps(p.up, m);
          FarKeeps(p.up, m);
        case Down(m) =>
          NearKeeps(p.down, m);
          FarKeeps(p.down, m);
        case _ =>
      }
      RunKeepsInv(Step(p, actions[0]), actions[1..]);
    }
  }

  lemma Reachable(actions: seq<Action>)
    ensures HalfInv(Run(INITIAL, actions).up) && HalfInv(Run(INITIAL, actions).down)
  {
    RunKeepsInv(INITIAL, actions);
  }

  // ----- what a direction guarantees -----

  /** The bytes that a task holds between its read and the end of its write. */
  function Held(t: Task): seq<byte> {
    match t
    case Busy(chunk) => chunk
    case _ => []
  }

  ghost predicate Guarantees(h: Half) {
    && h.taken <= |h.source| && h.delivered <= |h.sent| && Sendable(h.sent)
    && IsPrefix(h.sink, h.source)
    && (h.near != Broken && h.far != Broken ==>
          h.sink + Held(h.far) + Flatten(h.sent[h.delivered..]) + Held(h.near) == h.source[..h.taken])
    && (h.far == Ended ==> h.sink == Flatten(h.sent[..h.delivered]))
    && (h.near == Ended ==> Flatten(h.sent) == h.source[..h.taken])
  }

  lemma InvGuarantees(h: Half)
    requires HalfInv(h)
    ensures Guarantees(h)
  {
    hide Flatten;
    var front, back, read := h.sent[..h.delivered], h.sent[h.delivered..], h.source[..h.taken];
    assert h.sent == front + back;
    FlattenConcat(front, back);
    PrefixOfConcat(Flatten(front), Flatten(back), Flatten(h.sent));
    if h.near.Busy? {
      PrefixOfConcat(Flatten(h.sent), h.near.chunk, read);
    }
    if h.far.Busy? {
      PrefixOfConcat(h.sink, h.far.chunk, Flatten(front));
    }
    PrefixTrans(h.sink, Flatten(front), Flatten(h.sent));
    PrefixTrans(h.sink, Flatten(h.sent), read);
    PrefixTrans(h.sink, read, h.source);
    assert h.far != Broken ==> h.sink + Held(h.far) == Flatten(front);
    assert h.near != Broken ==> Flatten(h.sent) + Held(h.near) == read;
  }

  /** In every run and in both directions: every message fits the far buffer; the sink holds a prefix of
      the source; as long as no task broke, the bytes that were read are in the sink, held by a task, or
      in flight, in order; and a task that ended without error, cancelled or not, holds nothing back. */
  lemma PairDelivers(actions: seq<Action>)
    ensures Guarantees(Run(INITIAL, actions).up) && Guarantees(Run(INITIAL, actions).down)
  {
    hide Guarantees;
    Reachable(actions);
    InvGuarantees(Run(INITIAL, actions).up);
    InvGuarantees(Run(INITIAL, actions).down);
  }

  // ----- what ends a receiving task -----

  function OnHalf(up: bool, m: Move): Action {
    if up then Up(m) else Down(m)
  }

  function HalfOf(p: Pair, up: bool): Half {
    if up then p.up else p.down
  }

  /** The direction that starts at an end, and the one that ends there. */
  function Outgoing(p: Pair, atA: bool): Half {
    HalfOf(p, atA)
  }

  function Incoming(p: Pair, atA: bool): Half {
    HalfOf(p, !atA)
  }

  function Token(p: Pair, atA: bool): bool {
    if atA then p.tokenA else p.tokenB
  }

  /** An error of one of the end's two tasks, or a cancellation by its caller. */
  predicate Disturbs(a: Action, atA: bool) {
    a == CancelFromOutside(atA) || (exists b :: a == OnHalf(atA, NearBreak(b))) || a == OnHalf(!atA, FarBreak)
  }

  /** All that the end's socket will ever yield has been read. */
  predicate ReadUp(h: Half) {
    h.sourceEnded && h.taken == |h.source|
  }

  /** An end is cancelled, or one of its tasks has returned, only after a clean end of file. */
  predicate EofInv(p: Pair, atA: bool) {
    Token(p, atA) || Returned(Outgoing(p, atA).near) || Returned(Incoming(p, atA).far) ==>
      Outgoing(p, atA).near == Ended && ReadUp(Outgoing(p, atA))
  }

  /** Which moves make a task return. */
  lemma MoveReturns(h: Half, m: Move)
    ensures var g := HalfStep(h, m);
      && (ReadUp(h) ==> ReadUp(g)) && (h.near == Ended ==> g.near == Ended)
      && (g.near == Ended ==> h.near == Ended || m == NearCancel || (m == NearEof && ReadUp(g)))
      && (g.near == Broken ==> h.near == Broken || m.NearBreak?)
      && (g.far == Ended ==> h.far == Ended || m == FarCancel)
      && (g.far == Broken ==> h.far == Broken || m == FarBreak)
  {
  }

  lemma StepKeepsEof(p: Pair, a: Action, atA: bool)
    requires EofInv(p, atA) && !Disturbs(a, atA)
    ensures EofInv(Step(p, a), atA)
  {
    hide HalfStep, ReadUp;
    if a.Up? || a.Down? {
      MoveReturns(p.up, a.m);
      MoveReturns(p.down, a.m);
    }
    if a.Up? && a.m.NearBreak? {
      assert a == OnHalf(true, NearBreak(a.m.sentAnyway));
    }
    if a.Down? && a.m.NearBreak? {
      assert a == OnHalf(false, NearBreak(a.m.sentAnyway));
    }
  }

  lemma {:induction false} RunKeepsEof(p: Pair, actions: seq<Action>, atA: bool)
    requires EofInv(p, atA) && forall a <- actions :: !Disturbs(a, atA)
    decreases |actions|
    ensures EofInv(Run(p, actions), atA)
  {
    hide Step, EofInv, Disturbs;
    if actions != [] {
      StepKeepsEof(p, actions[0], atA);
      RunKeepsEof(Step(p, actions[0]), actions[1..], atA);
    }
  }

  /** In every run in which neither an error nor the caller disturbs an end, what comes in there is cut
      off only after all that goes out has been read and sent, up to a clean end of file. */
  lemma OnlyEofCuts(actions: seq<Action>, atA: bool)
    requires forall a <- actions :: !Disturbs(a, atA)
    ensures var p := Run(INITIAL, actions);
      Returned(Incoming(p, atA).far) ==> Outgoing(p, atA).near == Ended && ReadUp(Outgoing(p, atA))
  {
    RunKeepsEof(INITIAL, actions, atA);
  }

  /** How an end of file cuts off what comes in: the sending task ends, the token is cancelled, and the
      receiving task writes what it holds and ends. */
  function Cut(p: Pair, atA: bool): seq<Action> {
    [OnHalf(atA, NearWrite), OnHalf(atA, NearEof), CancelOwn(atA),
     OnHalf(!atA, FarWrite(|Held(Incoming(p, atA).far)|)), OnHalf(!atA, FarCancel)]
  }

  lemma {:induction false} RunConcat(p: Pair, a: seq<Action>, b: seq<Action>)
    decreases |a|
    ensures Run(p, a + b) == Run(Run(p, a), b)
  {
    hide Step;
    if a == [] {
      assert a + b == b;
    } else {
      assert (a + b)[1..] == a[1..] + b;
      RunConcat(Step(p, a[0]), a[1..], b);
    }
  }

  lemma OutgoingEnds(p: Pair, atA: bool)
    requires ReadUp(Outgoing(p, atA))
    ensures var q := Step(Step(Step(p, OnHalf(atA, NearWrite)), OnHalf(atA, NearEof)), CancelOwn(atA));
      Token(q, atA) && Incoming(q, atA) == Incoming(p, atA)
  {
    var q := Step(Step(p, OnHalf(atA, NearWrite)), OnHalf(atA, NearEof));
    assert Returned(Outgoing(q, atA).near);
  }

  lemma IncomingEnds(p: Pair, atA: bool)
    requires FarInv(Incoming(p, atA)) && Token(p, atA)
    ensures var h := Incoming(p, atA);
      var g := Incoming(Step(Step(p, OnHalf(!atA, FarWrite(|Held(h.far)|))), OnHalf(!atA, FarCancel)), atA);
      Returned(g.far) && g.sent == h.sent && g.delivered == h.delivered && g.sink == h.sink + Held(h.far)
  {
    hide Flatten;
    var h := Incoming(p, atA);
    var q := Step(p, OnHalf(!atA, FarWrite(|Held(h.far)|)));
    if h.far.Busy? {
      assert h.far.chunk[..|h.far.chunk|] == h.far.chunk;
      assert Incoming(q, atA).far == Selecting && Incoming(q, atA).sink == h.sink + h.far.chunk;
    } else {
      assert q == p && h.sink + [] == h.sink;
    }
  }

  lemma CutsOff(p: Pair, atA: bool)
    requires ReadUp(Outgoing(p, atA)) && FarInv(Incoming(p, atA))
    ensures var h, g := Incoming(p, atA), Incoming(Run(p, Cut(p, atA)), atA);
      Returned(g.far) && g.sent == h.sent && g.delivered == h.delivered && g.sink == h.sink + Held(h.far)
  {
    hide Step, FarInv;
    var run := Cut(p, atA);
    Unroll3(p, run);
    var q := Step(Step(Step(p, run[0]), run[1]), run[2]);
    OutgoingEnds(p, atA);
    IncomingEnds(q, atA);
    assert run[3..] == [run[3], run[4]];
    Unroll2(q, run[3..]);
  }

  lemma Unroll3(p: Pair, run: seq<Action>)
    requires |run| >= 3
    ensures Run(p, run) == Run(Step(Step(Step(p, run[0]), run[1]), run[2]), run[3..])
  {
    hide Step;
    assert run[1..][1..] == run[2..] && run[2..][1..] == run[3..];
    assert Run(p, run) == Run(Step(p, run[0]), run[1..]) == Run(Step(Step(p, run[0]), run[1]), run[2..]);
  }

  lemma Unroll2(p: Pair, run: seq<Action>)
    requires |run| == 2
    ensures Run(p, run) == Step(Step(p, run[0]), run[1])
  {
    hide Step;
    assert run[1..][1..] == [];
    assert Run(p, run) == Run(Step(p, run[0]), run[1..]);
  }

  /** What stays of a direction whose receiving task has returned. */
  predicate CutFrom(h: Half, g: Half) {
    Returned(g.far) && g.delivered == h.delivered && g.sink == h.sink && IsPrefix(h.sent, g.sent)
  }

  lemma {:induction false} CutStaysCut(p: Pair, actions: seq<Action>, up: bool)
    requires Returned(HalfOf(p, up).far)
    decreases |actions|
    ensures CutFrom(HalfOf(p, up), HalfOf(Run(p, actions), up))
  {
    if actions != [] {
      var q := Step(p, actions[0]);
      CutStep(p, actions[0], up);
      CutStaysCut(q, actions[1..], up);
      PrefixTrans(HalfOf(p, up).sent, HalfOf(q, up).sent, HalfOf(Run(p, actions), up).sent);
    }
  }

  lemma CutStep(p: Pair, a: Action, up: bool)
    requires Returned(HalfOf(p, up).far)
    ensures CutFrom(HalfOf(p, up), HalfOf(Step(p, a), up))
  {
    if (a.Up? || a.Down?) && a == OnHalf(up, a.m) {
      CutMove(HalfOf(p, up), a.m);
    }
  }

  lemma CutMove(h: Half, m: Move)
    requires Returned(h.far)
    ensures CutFrom(h, HalfStep(h, m))
  {
  }

  /** And it is cut off then: from every reachable state in which all that goes out of an end has been
      read, there is a continuation without any error after which the messages that were not delivered
      never are, and neither is anything that is sent later, whatever happens. */
  lemma EofCutsTheOtherDirection(before: seq<Action>, atA: bool, later: seq<Action>)
    requires ReadUp(Outgoing(Run(INITIAL, before), atA))
    ensures var p := Run(INITIAL, before);
      var cut := Cut(p, atA);
      var h, g := Incoming(p, atA), Incoming(Run(INITIAL, before + cut + later), atA);
      && (forall a <- cut :: !Disturbs(a, atA))
      && g.delivered == h.delivered && IsPrefix(h.sent, g.sent) && g.sink == h.sink + Held(h.far)
  {
    var p := Run(INITIAL, before);
    var cut := Cut(p, atA);
    hide Run, Step, Cut, NearInv, FarInv;
    Reachable(before);
    CutsOff(p, atA);
    RunConcat(INITIAL, before, cut);
    RunConcat(INITIAL, before + cut, later);
    CutStaysCut(Run(p, cut), later, !atA);
    CutDoesNotDisturb(p, atA);
  }

  lemma CutDoesNotDisturb(p: Pair, atA: bool)
    ensures forall a <- Cut(p, atA) :: !Disturbs(a, atA) && FromWithin(a, atA)
  {
  }

  /** Nothing new comes from the end's own socket. */
  predicate FromWithin(a: Action, atA: bool) {
    a.Up? || a.Down? ==>
      (a == OnHalf(atA, a.m) ==> !a.m.Supply? && !a.m.SupplyEnds? && !a.m.NearRead?)
  }

  lemma StepReadsNothing(p: Pair, a: Action, atA: bool)
    requires FromWithin(a, atA)
    ensures ReadUp(Outgoing(Step(p, a), atA)) == ReadUp(Outgoing(p, atA))
  {
  }

  lemma {:induction false} ReadsNothing(p: Pair, actions: seq<Action>, atA: bool)
    requires forall a <- actions :: FromWithin(a, atA)
    decreases |actions|
    ensures ReadUp(Outgoing(Run(p, actions), atA)) == ReadUp(Outgoing(p, atA))
  {
    hide Step, ReadUp, FromWithin;
    if actions != [] {
      assert actions[0] in actions && forall a <- actions[1..] :: a in actions;
      StepReadsNothing(p, actions[0], atA);
      ReadsNothing(Step(p, actions[0]), actions[1..], atA);
    }
  }

  /** The run goes on undisturbed, without anything new from the end's own socket, to a state in which the
      receiving task of that end has returned. */
  ghost predicate CanBeCut(p: Pair, atA: bool) {
    exists cut: seq<Action> ::
      (forall a <- cut :: !Disturbs(a, atA) && FromWithin(a, atA)) && Returned(Incoming(Run(p, cut), atA).far)
  }

  /** So in an undisturbed run, what comes in at an end can be cut off exactly from the moment on at which
      all that goes out has been read, end of file included. */
  lemma CutExactlyAfterEof(before: seq<Action>, atA: bool)
    requires forall a <- before :: !Disturbs(a, atA)
    ensures var p := Run(INITIAL, before);
      CanBeCut(p, atA) <==> ReadUp(Outgoing(p, atA))
  {
    var p := Run(INITIAL, before);
    hide Run, Step, Disturbs, FromWithin, Cut, NearInv, FarInv;
    if CanBeCut(p, atA) {
      var cut :| (forall a <- cut :: !Disturbs(a, atA) && FromWithin(a, atA)) && Returned(Incoming(Run(p, cut), atA).far);
      RunConcat(INITIAL, before, cut);
      OnlyEofCuts(before + cut, atA);
      ReadsNothing(p, cut, atA);
    }
    if ReadUp(Outgoing(p, atA)) {
      Reachable(before);
      CutsOff(p, atA);
      CutDoesNotDisturb(p, atA);
    }
  }

  // ----- an end stops as a whole -----

  /** How both tasks of an end stop: each finishes the write that it is in, and then sees the token. */
  function Stop(p: Pair, atA: bool): seq<Action> {
    [CancelOwn(atA), OnHalf(atA, NearWrite), OnHalf(atA, NearCancel),
     OnHalf(!atA, FarWrite(|Held(Incoming(p, atA).far)|)), OnHalf(!atA, FarCancel)]
  }

  lemma OutgoingStops(p: Pair, atA: bool)
    requires Token(p, atA) || Returned(Outgoing(p, atA).near) || Returned(Incoming(p, atA).far)
    ensures var q := Step(Step(Step(p, CancelOwn(atA)), OnHalf(atA, NearWrite)), OnHalf(atA, NearCancel));
      Token(q, atA) && Incoming(q, atA) == Incoming(p, atA) && Returned(Outgoing(q, atA).near)
  {
    var q := Step(p, CancelOwn(atA));
    assert Token(q, atA) && q.up == p.up && q.down == p.down;
  }

  lemma IncomingLeavesOutgoing(p: Pair, m: Move, atA: bool)
    ensures Outgoing(Step(p, OnHalf(!atA, m)), atA) == Outgoing(p, atA)
  {
    hide HalfStep;
  }

  /** As soon as an end's token is cancelled, from outside or by itself, or one of its two tasks has returned
      for whatever reason, both tasks can end; what the receiving one holds is still written. */
  lemma EndStopsAsAWhole(before: seq<Action>, atA: bool)
    requires var p := Run(INITIAL, before);
      Token(p, atA) || Returned(Outgoing(p, atA).near) || Returned(Incoming(p, atA).far)
    ensures var p := Run(INITIAL, before);
      var q := Run(INITIAL, before + Stop(p, atA));
      && Returned(Outgoing(q, atA).near) && Returned(Incoming(q, atA).far)
      && Incoming(q, atA).sink == Incoming(p, atA).sink + Held(Incoming(p, atA).far)
  {
    var p := Run(INITIAL, before);
    hide Run, Step, NearInv, FarInv;
    Reachable(before);
    var run := Stop(p, atA);
    RunConcat(INITIAL, before, run);
    Unroll3(p, run);
    var q := Step(Step(Step(p, run[0]), run[1]), run[2]);
    OutgoingStops(p, atA);
    IncomingEnds(q, atA);
    assert run[3..] == [run[3], run[4]];
    Unroll2(q, run[3..]);
    IncomingLeavesOutgoing(q, FarWrite(|Held(Incoming(p, atA).far)|), atA);
    IncomingLeavesOutgoing(Step(q, run[3]), FarCancel, atA);
  }

  /** A cancellation from outside is one of these reasons, at any time. */
  lemma OutsideCancels(p: Pair, atA: bool)
    ensures var q := Step(p, CancelFromOutside(atA));
      Token(q, atA) && Token(q, !atA) == Token(p, !atA) && q.up == p.up && q.down == p.down
  {
  }

  // ----- an answer of any length can be lost -----

  function HalfRun(h: Half, moves: seq<Move>): Half
    decreases |moves|
  {
    if moves == [] then h else HalfRun(HalfStep(h, moves[0]), moves[1..])
  }

  function OnHalves(up: bool, moves: seq<Move>): seq<Action> {
    seq(|moves|, i requires 0 <= i < |moves| => OnHalf(up, moves[i]))
  }

  /** What a task does by itself is what it does in the pair, provided it is not cancelled without token. */
  lemma {:induction false} HalfRunInPair(p: Pair, up: bool, moves: seq<Move>)
    requires forall m <- moves :: Enabled(p, OnHalf(up, m))
    decreases |moves|
    ensures var q := Run(p, OnHalves(up, moves));
      HalfOf(q, up) == HalfRun(HalfOf(p, up), moves) && HalfOf(q, !up) == HalfOf(p, !up)
      && q.tokenA == p.tokenA && q.tokenB == p.tokenB
  {
    hide HalfStep;
    if moves != [] {
      assert OnHalves(up, moves)[1..] == OnHalves(up, moves[1..]);
      assert moves[0] in moves;
      HalfRunInPair(Step(p, OnHalf(up, moves[0])), up, moves[1..]);
    }
  }

  lemma {:induction false} HalfRunConcat(h: Half, a: seq<Move>, b: seq<Move>)
    decreases |a|
    ensures HalfRun(h, a + b) == HalfRun(HalfRun(h, a), b)
  {
    hide HalfStep;
    if a == [] {
      assert a + b == b;
    } else {
      assert (a + b)[1..] == a[1..] + b;
      HalfRunConcat(HalfStep(h, a[0]), a[1..], b);
    }
  }

  /** Reading and sending `n` more bytes, in chunks of the buffer's size. */
  function InChunks(n: nat): seq<Move> {
    if n == 0 then []
    else
      var k := if n < BUFFER then n else BUFFER;
      [NearRead(k), NearWrite] + InChunks(n - k)
  }

  lemma {:induction false} SendsInChunks(h: Half, n: nat)
    requires NearInv(h) && h.near == Selecting && h.taken + n == |h.source|
    decreases n
    ensures var g := HalfRun(h, InChunks(n));
      && g.near == Selecting && NearInv(g) && g.taken == |g.source| && g.source == h.source
  {
    hide NearInv, HalfStep;
    if n > 0 {
      var k := if n < BUFFER then n else BUFFER;
      var h1 := HalfStep(h, NearRead(k));
      var h2 := HalfStep(h1, NearWrite);
      NearKeeps(h, NearRead(k));
      NearKeeps(h1, NearWrite);
      OneChunk(h, k);
      SendsInChunks(h2, n - k);
      HalfRunConcat(h, [NearRead(k), NearWrite], InChunks(n - k));
      TwoMoves(h, NearRead(k), NearWrite);
    }
  }

  lemma OneChunk(h: Half, k: nat)
    requires h.near == Selecting && 0 < k <= BUFFER && h.taken + k <= |h.source|
    ensures HalfStep(HalfStep(h, NearRead(k)), NearWrite)
         == h.(taken := h.taken + k, sent := h.sent + [h.source[h.taken..h.taken + k]])
  {
  }

  lemma TwoMoves(h: Half, m: Move, n: Move)
    ensures HalfRun(h, [m, n]) == HalfStep(HalfStep(h, m), n)
  {
    hide HalfStep;
    assert [m, n][1..] == [n] && [n][1..] == [];
    assert HalfRun(h, [m, n]) == HalfRun(HalfStep(h, m), [n]);
  }

  /** A client that closes its write half before it has got anything, and then is answered. */
  function CloseEarly(answer: seq<byte>): seq<Action> {
    [Up(SupplyEnds)] + Cut(INITIAL, true) + OnHalves(false, [Supply(answer)] + InChunks(|answer|))
  }

  /** For every answer there is a run without any error in which all of it was sent over the channel, and
      whatever happens from then on, none of it reaches the client. */
  lemma AnyAnswerCanBeLost(answer: seq<byte>, later: seq<Action>)
    ensures forall a <- CloseEarly(answer) :: !Disturbs(a, true) && !Disturbs(a, false)
    ensures var p := Run(INITIAL, CloseEarly(answer));
      && p.up.near == Ended && p.down.near == Selecting && Flatten(p.down.sent) == answer
      && Run(INITIAL, CloseEarly(answer) + later).down.sink == []
  {
    var before, cut := [Up(SupplyEnds)], Cut(INITIAL, true);
    var moves := [Supply(answer)] + InChunks(|answer|);
    var s := Step(INITIAL, Up(SupplyEnds));
    assert Run(INITIAL, before) == s;
    assert Cut(s, true) == cut;
    var send := OnHalves(false, moves);
    EofCutsTheOtherDirection(before, true, send + later);
    assert before + cut + (send + later) == CloseEarly(answer) + later;
    RunConcat(INITIAL, before + cut, send);
    RunConcat(INITIAL, before, cut);
    EarlyCloseIsClean(answer);
    ClosedWithoutAnswer(s);
    Answered(Run(s, cut), answer);
  }

  lemma {:induction false} ChunksAreClean(n: nat)
    ensures forall m <- InChunks(n) :: m.NearRead? || m == NearWrite
  {
    if n > 0 {
      ChunksAreClean(n - if n < BUFFER then n else BUFFER);
    }
  }

  lemma EarlyCloseIsClean(answer: seq<byte>)
    ensures forall a <- CloseEarly(answer) :: !Disturbs(a, true) && !Disturbs(a, false)
  {
    var moves := [Supply(answer)] + InChunks(|answer|);
    ChunksAreClean(|answer|);
    forall a | a in OnHalves(false, moves)
      ensures !Disturbs(a, true) && !Disturbs(a, false)
    {
      var i :| 0 <= i < |moves| && a == OnHalf(false, moves[i]);
      assert moves[i] in moves;
    }
  }

  lemma ClosedWithoutAnswer(s: Pair)
    requires s == Step(INITIAL, Up(SupplyEnds))
    ensures var q := Run(s, Cut(INITIAL, true));
      q.up.near == Ended && q.down == NEW_HALF.(far := Ended)
  {
    var run := Cut(INITIAL, true);
    Unroll3(s, run);
    assert run[3..] == [run[3], run[4]];
    var q := s.(up := s.up.(near := Ended), tokenA := true);
    assert Step(Step(Step(s, run[0]), run[1]), run[2]) == q;
    Unroll2(q, run[3..]);
  }

  lemma Answered(q: Pair, answer: seq<byte>)
    requires q.up.near == Ended && q.down == NEW_HALF.(far := Ended)
    ensures var p := Run(q, OnHalves(false, [Supply(answer)] + InChunks(|answer|)));
      p.up.near == Ended && p.down.near == Selecting && Flatten(p.down.sent) == answer
  {
    var moves := [Supply(answer)] + InChunks(|answer|);
    var h := HalfStep(q.down, Supply(answer));
    assert [] + answer == answer;
    SendsInChunks(h, |answer|);
    ChunksAreClean(|answer|);
    assert moves[1..] == InChunks(|answer|);
    HalfRunInPair(q, false, moves);
    var g := HalfRun(h, InChunks(|answer|));
    assert g.source[..g.taken] == answer;
  }

  // ----- the tasks of the program take these steps -----

  function TaskAfter(end: TaskEnd): Task {
    match end
    case Waiting => Selecting
    case Ok => Ended
    case Error => Broken
  }

  /** Each run of `write_task` is a sequence of the sending task's moves. A read yields nothing only at
      the end of file. */
  lemma {:induction false} WriteTaskMoves(h: Half, rounds: seq<Round>) returns (moves: seq<Move>)
    requires h.near == Selecting && h.sourceEnded && h.taken <= |h.source|
    requires FitsBuffer(rounds) && forall r <- rounds :: r.Input? ==> r.n > 0
    decreases |rounds|
    ensures var (rest, out, end) := WriteTaskRun(h.source[h.taken..], h.sent, rounds);
      var g := HalfRun(h, moves);
      && g.sent == out && g.source == h.source && g.taken <= |g.source| && g.source[g.taken..] == rest
      && g.near == TaskAfter(end)
      && g.far == h.far && g.sink == h.sink && g.delivered == h.delivered
    ensures NearCancel in moves ==> Cancelled in rounds
  {
    hide HalfStep, HalfRun;
    moves := [];
    var rest := h.source[h.taken..];
    if rounds == [] {
      NoMove(h);
    } else {
      assert rounds[0] in rounds;
      match rounds[0] {
        case Cancelled => moves := [NearCancel];
        case ReadFails => moves := [NearBreak(false)];
        case Input(n, written) =>
          var k := Yield(rest, n);
          if k == 0 {
            moves := [NearEof];
          } else if written < k {
            moves := [NearRead(k), NearBreak(false)];
            TwoMoves(h, NearRead(k), NearBreak(false));
            FailedChunk(h, k);
          } else {
            var g := h.(taken := h.taken + k, sent := h.sent + [rest[..k]]);
            OneChunk(h, k);
            assert h.source[h.taken..h.taken + k] == rest[..k];
            assert g.source[g.taken..] == rest[k..];
            assert forall r <- rounds[1..] :: r in rounds;
            var tail := WriteTaskMoves(g, rounds[1..]);
            moves := [NearRead(k), NearWrite] + tail;
            HalfRunConcat(h, [NearRead(k), NearWrite], tail);
            TwoMoves(h, NearRead(k), NearWrite);
          }
      }
      LastMove(h);
    }
  }

  lemma NoMove(h: Half)
    ensures HalfRun(h, []) == h
  {
  }

  /** How a task returns from its `select!`. */
  lemma LastMove(h: Half)
    ensures h.near == Selecting ==>
      HalfRun(h, [NearCancel]) == h.(near := Ended) && HalfRun(h, [NearBreak(false)]) == h.(near := Broken)
    ensures h.near == Selecting && h.sourceEnded && h.taken == |h.source| ==> HalfRun(h, [NearEof]) == h.(near := Ended)
    ensures h.far == Selecting ==> HalfRun(h, [FarCancel]) == h.(far := Ended)
    ensures h.far == Selecting || h.far.Busy? ==> HalfRun(h, [FarBreak]) == h.(far := Broken)
  {
    forall m: Move
      ensures HalfRun(h, [m]) == HalfStep(h, m)
    {
      NoMove(HalfStep(h, m));
      assert [m][1..] == [];
    }
  }

  lemma FailedChunk(h: Half, k: nat)
    requires h.near == Selecting && 0 < k <= BUFFER && h.taken + k <= |h.source|
    ensures HalfStep(HalfStep(h, NearRead(k)), NearBreak(false)) == h.(taken := h.taken + k, near := Broken)
  {
  }

  /** Each run of `read_task` is a sequence of the receiving task's moves. */
  lemma {:induction false} ReadTaskMoves(h: Half, rounds: seq<Round>) returns (moves: seq<Move>)
    requires h.far == Selecting && h.delivered <= |h.sent| && Sendable(h.sent)
    decreases |rounds|
    ensures var (rest, out, end) := ReadTaskRun(h.sent[h.delivered..], h.sink, rounds);
      var g := HalfRun(h, moves);
      && g.sink == out && g.sent == h.sent && g.delivered <= |g.sent| && g.sent[g.delivered..] == rest
      && g.far == TaskAfter(end)
      && g.near == h.near && g.source == h.source && g.taken == h.taken
    ensures FarCancel in moves ==> Cancelled in rounds
  {
    hide HalfStep, HalfRun;
    moves := [];
    if rounds == [] {
      NoMove(h);
    } else {
      match rounds[0] {
        case Cancelled => moves := [FarCancel];
        case ReadFails => moves := [FarBreak];
        case Input(_, written) =>
          if h.delivered == |h.sent| {
            NoMove(h);
          } else {
            var m := h.sent[h.delivered];
            assert m in h.sent && h.sent[h.delivered..][0] == m;
            assert h.sent[h.delivered..][1..] == h.sent[h.delivered + 1..];
            if written < |m| {
              moves := [FarRead, FarWrite(written), FarBreak];
              FailedMessage(h, written);
            } else {
              var g := h.(delivered := h.delivered + 1, sink := h.sink + m);
              assert m[..|m|] == m;
              OneMessage(h, |m|);
              TwoMoves(h, FarRead, FarWrite(|m|));
              var tail := ReadTaskMoves(g, rounds[1..]);
              moves := [FarRead, FarWrite(|m|)] + tail;
              HalfRunConcat(h, [FarRead, FarWrite(|m|)], tail);
            }
          }
      }
      LastMove(h);
    }
  }

  lemma FailedMessage(h: Half, k: nat)
    requires h.far == Selecting && h.delivered < |h.sent| && k < |h.sent[h.delivered]|
    ensures HalfRun(h, [FarRead, FarWrite(k), FarBreak])
         == h.(delivered := h.delivered + 1, sink := h.sink + h.sent[h.delivered][..k], far := Broken)
  {
    hide HalfStep, HalfRun;
    OneMessage(h, k);
    TwoMoves(h, FarRead, FarWrite(k));
    HalfRunConcat(h, [FarRead, FarWrite(k)], [FarBreak]);
    assert [FarRead, FarWrite(k)] + [FarBreak] == [FarRead, FarWrite(k), FarBreak];
    LastMove(HalfRun(h, [FarRead, FarWrite(k)]));
  }

  lemma OneMessage(h: Half, k: nat)
    requires h.far == Selecting && h.delivered < |h.sent| && h.sent[h.delivered] != [] && k <= |h.sent[h.delivered]|
    ensures var m := h.sent[h.delivered];
      HalfStep(HalfStep(h, FarRead), FarWrite(k))
      == h.(delivered := h.delivered + 1, sink := h.sink + m[..k],
            far := if k == |m| then Selecting else Busy(m[k..]))
  {
    var m := h.sent[h.delivered];
    if k == 0 {
      assert h.sink + m[..0] == h.sink && m[0..] == m;
    }
  }
}
