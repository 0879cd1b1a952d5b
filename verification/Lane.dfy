// One direction of a tunnel (`copy_to_noq` and `copy_from_noq` of src/p2p_pipe.rs and
// src/dumbpipe.rs): a near pump moves a source into a QUIC stream, behind a preamble, and a far pump
// moves the stream into a sink. Reads and writes take any number of bytes, and anything may fail
// at any time. The lane is proved to be a plain pipe from source to sink.
module Lane {
  import opened Bytes

  /** `tokio::io::copy` with the bytes it has read and not yet written. */
  datatype Pump = Idle | Running(held: seq<byte>) | Finished | Failed

  datatype Lane = Lane(
    preamble: seq<byte>,
    source: seq<byte>, sourceEnded: bool,    // all that the source's peer has sent so far
    taken: nat,                              // how much of it the near pump has read
    near: Pump,
    stream: seq<byte>, streamEnded: bool,    // all that was written to the stream
    consumed: nat,                           // how much of it the far side has read
    far: Pump,
    sink: seq<byte>)                         // all that was written to the sink

  datatype PumpAction = Start | Read(n: nat) | Write(n: nat) | Finish | Fail

  datatype LaneAction =
    | Send(bytes: seq<byte>)
    | End
    | WritePreamble(n: nat)
    | SkipPreamble(n: nat)
    | Near(pump: PumpAction, endsStream: bool)  // a failing sender may reset its stream or end it
    | Far(pump: PumpAction)

  function NewLane(preamble: seq<byte>): Lane {
    Lane(preamble, [], false, 0, Idle, [], false, 0, Idle, [])
  }

  predicate NearEnabled(l: Lane, a: PumpAction) {
    match a
    case Start => l.near.Idle? && l.stream == l.preamble && !l.streamEnded
    case Read(n) => l.near.Running? && n > 0 && l.taken + n <= |l.source|
    case Write(n) => l.near.Running? && 0 < n <= |l.near.held|
    case Finish => l.near == Running([]) && l.sourceEnded && l.taken == |l.source|
    case Fail => l.near.Idle? || l.near.Running?
  }

  predicate FarEnabled(l: Lane, a: PumpAction) {
    match a
    case Start => l.far.Idle? && l.consumed == |l.preamble|
    case Read(n) => l.far.Running? && n > 0 && l.consumed + n <= |l.stream|
    case Write(n) => l.far.Running? && 0 < n <= |l.far.held|
    case Finish => l.far == Running([]) && l.streamEnded && l.consumed == |l.stream|
    case Fail => l.far.Idle? || l.far.Running?
  }

  predicate LaneEnabled(l: Lane, a: LaneAction) {
    match a
    case Send(_) => !l.sourceEnded
    case End => true
    case WritePreamble(n) => l.near.Idle? && 0 < n && |l.stream| + n <= |l.preamble|
    case SkipPreamble(n) => l.far.Idle? && 0 < n && l.consumed + n <= |l.stream| && l.consumed + n <= |l.preamble|
    case Near(p, _) => NearEnabled(l, p)
    case Far(p) => FarEnabled(l, p)
  }

  function LaneStep(l: Lane, a: LaneAction): Lane {
    if !LaneEnabled(l, a) then l
    else
      match a
      case Send(bytes) => l.(source := l.source + bytes)
      case End => l.(sourceEnded := true)
      case WritePreamble(n) => l.(stream := l.stream + l.preamble[|l.stream|..|l.stream| + n])
      case SkipPreamble(n) => l.(consumed := l.consumed + n)
      case Near(Start, _) => l.(near := Running([]))
      case Near(Read(n), _) =>
        l.(near := Running(l.near.held + l.source[l.taken..l.taken + n]), taken := l.taken + n)
      case Near(Write(n), _) => l.(near := Running(l.near.held[n..]), stream := l.stream + l.near.held[..n])
      case Near(Finish, _) => l.(near := Finished, streamEnded := true)
      case Near(Fail, endsStream) => l.(near := Failed, streamEnded := endsStream)
      case Far(Start) => l.(far := Running([]))
      case Far(Read(n)) =>
        l.(far := Running(l.far.held + l.stream[l.consumed..l.consumed + n]), consumed := l.consumed + n)
      case Far(Write(n)) => l.(far := Running(l.far.held[n..]), sink := l.sink + l.far.held[..n])
      case Far(Finish) => l.(far := Finished)
      case Far(Fail) => l.(far := Failed)
  }

  // ----- the invariant -----

  /** What the near side has put into the stream. */
  predicate NearInv(l: Lane) {
    && l.taken <= |l.source|
    && match l.near
       case Idle => l.taken == 0 && !l.streamEnded && IsPrefix(l.stream, l.preamble)
       case Running(held) => !l.streamEnded && l.stream + held == l.preamble + l.source[..l.taken]
       case Finished => l.sourceEnded && l.streamEnded && l.stream == l.preamble + l.source
       case Failed => IsPrefix(l.stream, l.preamble + l.source[..l.taken])
  }

  /** What the far side has taken out of it. */
  predicate FarInv(l: Lane) {
    && l.consumed <= |l.stream|
    && match l.far
       case Idle => l.sink == [] && l.consumed <= |l.preamble|
       case Running(held) => |l.preamble| <= l.consumed && l.sink + held == l.stream[|l.preamble|..l.consumed]
       case Finished => |l.preamble| <= |l.stream| && l.streamEnded && l.sink == l.stream[|l.preamble|..]
       case Failed => l.sink == [] || (|l.preamble| <= |l.stream| && IsPrefix(l.sink, l.stream[|l.preamble|..]))
  }

  predicate LaneInv(l: Lane) {
    NearInv(l) && FarInv(l)
  }

  lemma MoveHead<T>(a: seq<T>, held: seq<T>, n: nat)
    requires n <= |held|
    ensures (a + held[..n]) + held[n..] == a + held
  {
  }

  lemma TakeMore<T>(a: seq<T>, b: seq<T>, i: nat, j: nat, k: nat)
    requires i <= j <= k <= |b|
    ensures b[i..j] + b[j..k] == b[i..k]
    ensures b[..j] + b[j..k] == b[..k]
  {
  }

  lemma SliceOfPrefix<T>(a: seq<T>, b: seq<T>, i: nat, j: nat)
    requires IsPrefix(a, b) && i <= j <= |a|
    ensures b[i..j] == a[i..j]
  {
    assert b[i..j] == b[..|a|][i..j];
  }

  lemma ReadMore<T>(a: seq<T>, held: seq<T>, p: seq<T>, source: seq<T>, i: nat, j: nat)
    requires i <= j <= |source| && a + held == p + source[..i]
    ensures a + (held + source[i..j]) == p + source[..j]
  {
    assert source[..i] + source[i..j] == source[..j];
    assert a + (held + source[i..j]) == (a + held) + source[i..j];
    assert p + (source[..i] + source[i..j]) == (p + source[..i]) + source[i..j];
  }

  lemma NearKeeps(l: Lane, p: PumpAction, endsStream: bool)
    requires NearInv(l) && NearEnabled(l, p)
    ensures NearInv(LaneStep(l, Near(p, endsStream)))
  {
    match p {
      case Start =>
      case Read(n) =>
        ReadMore(l.stream, l.near.held, l.preamble, l.source, l.taken, l.taken + n);
      case Write(n) => MoveHead(l.stream, l.near.held, n);
      case Finish => assert l.stream + [] == l.stream && l.source[..l.taken] == l.source;
      case Fail =>
        if l.near.Running? {
          PrefixOfConcat(l.stream, l.near.held, l.preamble + l.source[..l.taken]);
        } else {
          PrefixExtends(l.stream, l.preamble, l.source[..l.taken]);
        }
    }
  }

  lemma FarKeeps(l: Lane, p: PumpAction)
    requires FarInv(l) && FarEnabled(l, p)
    ensures FarInv(LaneStep(l, Far(p)))
  {
    match p {
      case Start =>
      case Read(n) => TakeMore([], l.stream, |l.preamble|, l.consumed, l.consumed + n);
      case Write(n) => MoveHead(l.sink, l.far.held, n);
      case Finish => FarStops(l);
      case Fail =>
        if l.far.Running? {
          FarStops(l);
        }
    }
  }

  lemma FarStops(l: Lane)
    requires FarInv(l) && l.far.Running?
    ensures |l.preamble| <= |l.stream| && IsPrefix(l.sink, l.stream[|l.preamble|..])
    ensures l.far.held == [] && l.consumed == |l.stream| ==> l.sink == l.stream[|l.preamble|..]
  {
    var carried := l.stream[|l.preamble|..];
    PrefixOfConcat(l.sink, l.far.held, l.stream[|l.preamble|..l.consumed]);
    assert l.stream[|l.preamble|..l.consumed] == carried[..l.consumed - |l.preamble|];
    PrefixTrans(l.sink, carried[..l.consumed - |l.preamble|], carried);
  }

  /** The far side's claim survives whatever the near side appends. */
  lemma FarSurvives(l: Lane, m: Lane)
    requires FarInv(l) && m.far == l.far && m.sink == l.sink && m.consumed == l.consumed && m.preamble == l.preamble
    requires IsPrefix(l.stream, m.stream) && (l.streamEnded ==> m.stream == l.stream && m.streamEnded)
    ensures FarInv(m)
  {
    if |l.preamble| <= |l.stream| {
      assert m.stream[|l.preamble|..][..|l.stream| - |l.preamble|] == l.stream[|l.preamble|..];
    }
    if |l.preamble| <= l.consumed {
      SliceOfPrefix(l.stream, m.stream, |l.preamble|, l.consumed);
    }
  }

  lemma SourceKeeps(l: Lane, bytes: seq<byte>)
    requires NearInv(l) && !l.sourceEnded
    ensures NearInv(l.(source := l.source + bytes))
  {
    assert (l.source + bytes)[..l.taken] == l.source[..l.taken];
  }

  lemma PreambleKeeps(l: Lane, n: nat)
    requires LaneInv(l) && LaneEnabled(l, WritePreamble(n))
    ensures LaneInv(LaneStep(l, WritePreamble(n)))
  {
    hide FarInv;
    TakeMore([], l.preamble, 0, |l.stream|, |l.stream| + n);
    FarSurvives(l, LaneStep(l, WritePreamble(n)));
  }

  lemma NearActKeeps(l: Lane, p: PumpAction, endsStream: bool)
    requires LaneInv(l) && NearEnabled(l, p)
    ensures LaneInv(LaneStep(l, Near(p, endsStream)))
  {
    NearKeeps(l, p, endsStream);
    assert !l.streamEnded;
    hide NearInv, FarInv;
    FarSurvives(l, LaneStep(l, Near(p, endsStream)));
  }

  lemma FarActKeeps(l: Lane, p: PumpAction)
    requires LaneInv(l) && FarEnabled(l, p)
    ensures LaneInv(LaneStep(l, Far(p)))
  {
    FarKeeps(l, p);
    hide FarInv;
  }

  lemma LaneStepKeepsInv(l: Lane, a: LaneAction)
    requires LaneInv(l)
    ensures LaneInv(LaneStep(l, a))
  {
    if LaneEnabled(l, a) {
      match a {
        case Send(bytes) => SourceKeeps(l, bytes);
        case End =>
        case WritePreamble(n) => PreambleKeeps(l, n);
        case SkipPreamble(_) =>
        case Near(p, endsStream) => NearActKeeps(l, p, endsStream);
        case Far(p) => FarActKeeps(l, p);
      }
    }
  }

  // ----- the pipe that a lane refines -----

  /** A reliable ordered pipe: `got` grows along `sent`, and it is complete when its end was reached. */
  datatype Pipe = Pipe(sent: seq<byte>, ended: bool, got: seq<byte>, complete: bool)

  datatype PipeAction = Stutter | Push(bytes: seq<byte>) | Close | Deliver(n: nat) | Complete

  predicate PipeEnabled(p: Pipe, a: PipeAction) {
    match a
    case Stutter => true
    case Push(_) => !p.ended
    case Close => true
    case Deliver(n) => |p.got| + n <= |p.sent| && !p.complete
    case Complete => p.ended && p.got == p.sent
  }

  function PipeAct(p: Pipe, a: PipeAction): Pipe
    requires PipeEnabled(p, a)
  {
    match a
    case Stutter => p
    case Push(bytes) => p.(sent := p.sent + bytes)
    case Close => p.(ended := true)
    case Deliver(n) => p.(got := p.sent[..|p.got| + n])
    case Complete => p.(complete := true)
  }

  function AsPipe(l: Lane): Pipe {
    Pipe(l.source, l.sourceEnded, l.sink, l.near.Finished? && l.far.Finished?)
  }

  /** What an action of the lane is for the pipe. */
  function AsPipeAction(l: Lane, a: LaneAction): PipeAction {
    if !LaneEnabled(l, a) then Stutter
    else
      match a
      case Send(bytes) => Push(bytes)
      case End => Close
      case Far(Write(n)) => Deliver(n)
      case Near(Finish, _) => if l.far.Finished? then Complete else Stutter
      case Far(Finish) => if l.near.Finished? then Complete else Stutter
      case _ => Stutter
  }

  /** The sink never holds anything but a prefix of the source; the preamble is never part of it. */
  lemma SinkIsPrefix(l: Lane)
    requires LaneInv(l)
    ensures IsPrefix(l.sink, l.source)
    ensures l.near.Finished? && l.far.Finished? ==> l.sourceEnded && l.sink == l.source
  {
    var p := l.preamble;
    if l.sink != [] {
      assert |p| <= |l.stream|;
      PrefixOfCarried(l);
      if l.far.Running? {
        PrefixOfConcat(l.sink, l.far.held, l.stream[|p|..l.consumed]);
        assert l.stream[|p|..l.consumed] == l.stream[|p|..][..l.consumed - |p|];
      }
      PrefixTrans(l.sink, l.stream[|p|..], l.source);
    }
    if l.near.Finished? {
      DropsHead(p, l.source);
    }
  }

  lemma PrefixOfCarried(l: Lane)
    requires LaneInv(l) && |l.preamble| <= |l.stream|
    ensures IsPrefix(l.stream[|l.preamble|..], l.source)
  {
    var p, got := l.preamble, l.stream[|l.preamble|..];
    var all := p + l.source[..l.taken];
    match l.near {
      case Idle => assert got == [];
      case Running(held) => PrefixOfConcat(l.stream, held, all);
      case Finished => DropsHead(p, l.source); return;
      case Failed =>
    }
    if l.near.Idle? {
    } else {
      assert l.stream == all[..|l.stream|];
      assert got == all[|p|..][..|got|] == l.source[..l.taken][..|got|];
    }
  }

  /** While both pumps run, every byte that was read is in the sink, held, or in the stream, in order. */
  lemma NothingIsLost(l: Lane)
    requires LaneInv(l) && l.near.Running? && l.far.Running?
    ensures l.sink + l.far.held + l.stream[l.consumed..] + l.near.held == l.source[..l.taken]
  {
    var p := |l.preamble|;
    TakeMore([], l.stream, p, l.consumed, |l.stream|);
    assert l.stream[p..] + l.near.held == (l.preamble + l.source[..l.taken])[p..];
  }

  lemma NearRefines(l: Lane, p: PumpAction, endsStream: bool)
    requires LaneInv(l) && NearEnabled(l, p)
    ensures var a := Near(p, endsStream);
      && PipeEnabled(AsPipe(l), AsPipeAction(l, a))
      && AsPipe(LaneStep(l, a)) == PipeAct(AsPipe(l), AsPipeAction(l, a))
  {
    NearActKeeps(l, p, endsStream);
    SinkIsPrefix(LaneStep(l, Near(p, endsStream)));
    hide LaneInv;
  }

  lemma FarRefines(l: Lane, p: PumpAction)
    requires LaneInv(l) && FarEnabled(l, p)
    ensures var a := Far(p);
      && PipeEnabled(AsPipe(l), AsPipeAction(l, a))
      && AsPipe(LaneStep(l, a)) == PipeAct(AsPipe(l), AsPipeAction(l, a))
  {
    FarActKeeps(l, p);
    SinkIsPrefix(l);
    SinkIsPrefix(LaneStep(l, Far(p)));
    hide LaneInv;
  }

  /** Each step of a lane is a step of the pipe, or none. */
  lemma LaneRefinesPipe(l: Lane, a: LaneAction)
    requires LaneInv(l)
    ensures PipeEnabled(AsPipe(l), AsPipeAction(l, a))
    ensures AsPipe(LaneStep(l, a)) == PipeAct(AsPipe(l), AsPipeAction(l, a))
  {
    if LaneEnabled(l, a) {
      match a {
        case Near(p, endsStream) => NearRefines(l, p, endsStream);
        case Far(p) => FarRefines(l, p);
        case _ =>
      }
    }
  }
}
