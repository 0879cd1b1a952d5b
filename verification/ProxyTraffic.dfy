// Proxying between a TCP stream and a data channel (src/util/proxy_traffic.rs): the two pump tasks as
// they are written. `ProxyPair` composes two ends.
module ProxyTraffic {
  import opened Bytes

  const BUFFER: nat := 4096

  type Message = seq<byte>

  function Flatten(messages: seq<Message>): seq<byte> {
    if messages == [] then [] else Flatten(messages[..|messages| - 1]) + messages[|messages| - 1]
  }

  lemma FlattenAppend(messages: seq<Message>, m: Message)
    ensures Flatten(messages + [m]) == Flatten(messages) + m
  {
    assert (messages + [m])[..|messages|] == messages;
  }

  // ----- the two tasks -----

  /** What one round of a task's `select!` runs into. `Input(n, written)`: the read yields `n` bytes, and
      of the write that follows `written` bytes get through; less than all is a failed write. */
  datatype Round = Cancelled | ReadFails | Input(n: nat, written: nat)

  datatype TaskEnd = Waiting | Ok | Error

  /** The reading half of a TCP stream: what is still to come before the end of file. */
  class TcpReadHalf {
    var inbound: seq<byte>

    constructor (inbound: seq<byte>)
      ensures this.inbound == inbound
    {
      this.inbound := inbound;
    }

    /** `read`: fills the front of `buf`. */
    method Read(buf: array<byte>, n: nat)
      requires n <= |inbound| && n <= buf.Length
      modifies this, buf
      ensures inbound == old(inbound)[n..] && buf[..n] == old(inbound)[..n]
      ensures buf[n..] == old(buf[n..])
    {
      forall i | 0 <= i < n {
        buf[i] := inbound[i];
      }
      inbound := inbound[n..];
    }
  }

  class TcpWriteHalf {
    var outbound: seq<byte>

    constructor ()
      ensures outbound == []
    {
      outbound := [];
    }

    /** `write_all`, of which `through` bytes get through. */
    method WriteAll(bytes: seq<byte>, through: nat) returns (ok: bool)
      modifies this
      ensures ok <==> through >= |bytes|
      ensures outbound == old(outbound) + if ok then bytes else bytes[..through]
    {
      ok := through >= |bytes|;
      outbound := outbound + if ok then bytes else bytes[..through];
    }
  }

  /** One end of a data channel: the messages that arrived and the messages that were sent. */
  class DataChannel {
    var arrived: seq<Message>
    var sent: seq<Message>

    constructor (arrived: seq<Message>)
      ensures this.arrived == arrived && sent == []
    {
      this.arrived := arrived;
      sent := [];
    }

    /** `read`: the next message; an error, and the message is gone, if it does not fit into `buf`. */
    method Read(buf: array<byte>) returns (n: Option<nat>)
      requires arrived != []
      modifies this`arrived, buf
      ensures arrived == old(arrived)[1..]
      ensures n.Some? <==> |old(arrived)[0]| <= buf.Length
      ensures n.Some? ==>
        n.value == |old(arrived)[0]| && buf[..n.value] == old(arrived)[0] && buf[n.value..] == old(buf[n.value..])
    {
      var m := arrived[0];
      if |m| > buf.Length {
        arrived := arrived[1..];
        return None;
      }
      n := Some(|m|);
      forall i | 0 <= i < |m| {
        buf[i] := m[i];
      }
      arrived := arrived[1..];
    }

    method Write(m: Message)
      modifies this`sent
      ensures sent == old(sent) + [m]
    {
      sent := sent + [m];
    }
  }

  /** No read yields more than the buffer holds. */
  predicate FitsBuffer(rounds: seq<Round>) {
    forall r <- rounds :: r.Input? ==> r.n <= BUFFER
  }

  /** The number of bytes that a read of up to `n` bytes yields. */
  function Yield(inbound: seq<byte>, n: nat): nat {
    if n < |inbound| then n else |inbound|
  }

  /** The task that moves TCP bytes into the channel, as a function: what it leaves unread, what it has
      sent, and how it ends. */
  function WriteTaskRun(inbound: seq<byte>, sent: seq<Message>, rounds: seq<Round>): (seq<byte>, seq<Message>, TaskEnd)
    decreases |rounds|
  {
    if rounds == [] then (inbound, sent, Waiting)
    else
      match rounds[0]
      case Cancelled => (inbound, sent, Ok)
      case ReadFails => (inbound, sent, Error)
      case Input(n, written) =>
        var k := Yield(inbound, n);
        if k == 0 then (inbound, sent, Ok)
        else if written < k then (inbound[k..], sent, Error)
        else WriteTaskRun(inbound[k..], sent + [inbound[..k]], rounds[1..])
  }

  /** `write_task` */
  method WriteTask(tcpRead: TcpReadHalf, channel: DataChannel, rounds: seq<Round>) returns (end: TaskEnd)
    requires FitsBuffer(rounds)
    modifies tcpRead, channel
    ensures (tcpRead.inbound, channel.sent, end) == WriteTaskRun(old(tcpRead.inbound), old(channel.sent), rounds)
    ensures channel.arrived == old(channel.arrived)
  {
    var buf := new byte[BUFFER](_ => 0);
    ghost var goal := WriteTaskRun(tcpRead.inbound, channel.sent, rounds);
    for i := 0 to |rounds|
      invariant fresh(buf) && buf.Length == BUFFER
      invariant channel.arrived == old(channel.arrived)
      invariant WriteTaskRun(tcpRead.inbound, channel.sent, rounds[i..]) == goal
    {
      assert rounds[i..][1..] == rounds[i + 1..];
      match rounds[i] {
        case Cancelled => return Ok;
        case ReadFails => return Error;
        case Input(limit, written) =>
          assert rounds[i] in rounds;
          var n := Yield(tcpRead.inbound, limit);
          tcpRead.Read(buf, n);
          if n == 0 {
            return Ok;
          }
          if written < n {
            return Error;
          }
          channel.Write(buf[..n]);
      }
    }
    end := Waiting;
  }

  /** The task that moves channel messages into the TCP stream, as a function. */
  function ReadTaskRun(arrived: seq<Message>, outbound: seq<byte>, rounds: seq<Round>): (seq<Message>, seq<byte>, TaskEnd)
    decreases |rounds|
  {
    if rounds == [] then (arrived, outbound, Waiting)
    else
      match rounds[0]
      case Cancelled => (arrived, outbound, Ok)
      case ReadFails => (arrived, outbound, Error)
      case Input(_, written) =>
        if arrived == [] then (arrived, outbound, Waiting)
        else
          var m := arrived[0];
          if |m| > BUFFER then (arrived[1..], outbound, Error)
          else if written < |m| then (arrived[1..], outbound + m[..written], Error)
          else ReadTaskRun(arrived[1..], outbound + m, rounds[1..])
  }

  /** `read_task` */
  method ReadTask(channel: DataChannel, tcpWrite: TcpWriteHalf, rounds: seq<Round>) returns (end: TaskEnd)
    modifies channel, tcpWrite
    ensures (channel.arrived, tcpWrite.outbound, end) == ReadTaskRun(old(channel.arrived), old(tcpWrite.outbound), rounds)
    ensures channel.sent == old(channel.sent)
  {
    var buf := new byte[BUFFER](_ => 0);
    ghost var goal := ReadTaskRun(channel.arrived, tcpWrite.outbound, rounds);
    for i := 0 to |rounds|
      invariant fresh(buf) && buf.Length == BUFFER
      invariant channel.sent == old(channel.sent)
      invariant ReadTaskRun(channel.arrived, tcpWrite.outbound, rounds[i..]) == goal
    {
      assert rounds[i..][1..] == rounds[i + 1..];
      match rounds[i] {
        case Cancelled => return Ok;
        case ReadFails => return Error;
        case Input(_, written) =>
          if channel.arrived == [] {
            return Waiting;
          }
          var n := channel.Read(buf);
          if n.None? {
            return Error;
          }
          var ok := tcpWrite.WriteAll(buf[..n.value], written);
          if !ok {
            return Error;
          }
      }
    }
    end := Waiting;
  }

  predicate Sendable(messages: seq<Message>) {
    forall m <- messages :: 1 <= |m| <= BUFFER
  }

  lemma ChunkMoves(sent: seq<Message>, inbound: seq<byte>, k: nat)
    requires k <= |inbound|
    ensures Flatten(sent + [inbound[..k]]) + inbound[k..] == Flatten(sent) + inbound
  {
    FlattenAppend(sent, inbound[..k]);
    assert inbound == inbound[..k] + inbound[k..];
    assert (Flatten(sent) + inbound[..k]) + inbound[k..] == Flatten(sent) + (inbound[..k] + inbound[k..]);
  }

  /** Unless its last write failed, the writing task has sent exactly what it read, in messages that fit
      the buffer of the other side; whatever the schedule and wherever it was cancelled. */
  lemma {:induction false} WriteTaskConserves(inbound: seq<byte>, sent: seq<Message>, rounds: seq<Round>)
    requires FitsBuffer(rounds) && Sendable(sent)
    decreases |rounds|
    ensures var (rest, out, end) := WriteTaskRun(inbound, sent, rounds);
      && Sendable(out)
      && (end != Error ==> Flatten(out) + rest == Flatten(sent) + inbound)
      && IsPrefix(Flatten(out), Flatten(sent) + inbound)
  {
    hide Flatten;
    PrefixOfConcat(Flatten(sent), inbound, Flatten(sent) + inbound);
    if rounds != [] && rounds[0].Input? {
      var k := Yield(inbound, rounds[0].n);
      if 0 < k <= rounds[0].written {
        ChunkMoves(sent, inbound, k);
        assert rounds[0] in rounds && FitsBuffer(rounds[1..]);
        WriteTaskConserves(inbound[k..], sent + [inbound[..k]], rounds[1..]);
      }
    }
  }

  /** What is left unread is the end of the input, and a failed write loses the one chunk of at most 4096
      bytes that it was to send. */
  lemma {:induction false} WriteTaskLosesOneChunk(inbound: seq<byte>, sent: seq<Message>, rounds: seq<Round>)
    requires FitsBuffer(rounds)
    decreases |rounds|
    ensures var (rest, out, end) := WriteTaskRun(inbound, sent, rounds);
      && |rest| <= |inbound| && rest == inbound[|inbound| - |rest|..]
      && |Flatten(sent)| + |inbound| <= |Flatten(out)| + |rest| + 4096
  {
    hide Flatten;
    if rounds != [] && rounds[0].Input? {
      var k := Yield(inbound, rounds[0].n);
      assert rounds[0] in rounds;
      if 0 < k <= rounds[0].written {
        ChunkMoves(sent, inbound, k);
        assert FitsBuffer(rounds[1..]);
        WriteTaskLosesOneChunk(inbound[k..], sent + [inbound[..k]], rounds[1..]);
      }
    }
  }

  // ----- how the tasks end -----

  function Min(a: nat, b: nat): nat {
    if a < b then a else b
  }

  /** The round reads something and writes all of it. */
  predicate Passes(left: nat, r: Round) {
    r.Input? && 0 < Min(left, r.n) <= r.written
  }

  /** The read fails, or the write falls short. */
  predicate Fails(left: nat, r: Round) {
    r.ReadFails? || (r.Input? && r.written < Min(left, r.n))
  }

  /** The round is cancelled, or reads nothing. */
  predicate Stops(left: nat, r: Round) {
    r.Cancelled? || (r.Input? && Min(left, r.n) == 0)
  }

  /** The first round that does not pass, with what is unread then. */
  function FirstBlock(left: nat, rounds: seq<Round>): Option<(nat, Round)> {
    if rounds == [] then None
    else if Passes(left, rounds[0]) then FirstBlock(left - Min(left, rounds[0].n), rounds[1..])
    else Some((left, rounds[0]))
  }

  /** The writing task goes on while rounds read something and write all of it. It fails exactly if the first
      that does not pass fails to read or falls short, succeeds exactly if that one is cancelled or reads
      nothing, and waits for more if all pass. */
  lemma {:induction false} WriteTaskEnds(inbound: seq<byte>, sent: seq<Message>, rounds: seq<Round>)
    decreases |rounds|
    ensures var (rest, out, end) := WriteTaskRun(inbound, sent, rounds);
      match FirstBlock(|inbound|, rounds)
      case None => end == Waiting && |out| == |sent| + |rounds|
      case Some((left, r)) => (end == Error <==> Fails(left, r)) && (end == Ok <==> Stops(left, r)) && end != Waiting
  {
    if rounds != [] && Passes(|inbound|, rounds[0]) {
      var n := Min(|inbound|, rounds[0].n);
      WriteTaskEnds(inbound[n..], sent + [inbound[..n]], rounds[1..]);
    }
  }

  /** Every round before `k` has a message, which fits 4096 bytes, and writes all of it. */
  predicate ReadReaches(arrived: seq<Message>, rounds: seq<Round>, k: nat) {
    && k <= |rounds| && k <= |arrived|
    && forall j :: 0 <= j < k ==> rounds[j].Input? && |arrived[j]| <= 4096 && |arrived[j]| <= rounds[j].written
  }

  lemma NothingWritten(arrived: seq<Message>, outbound: seq<byte>)
    ensures outbound + Flatten(arrived[..0]) == outbound
  {
  }

  /** The read fails, or the message is too long, or its write falls short. */
  predicate ReadFailsAt(arrived: seq<Message>, rounds: seq<Round>, k: nat) {
    && k < |rounds|
    && (rounds[k].ReadFails?
        || (rounds[k].Input? && k < |arrived| && (|arrived[k]| > 4096 || rounds[k].written < |arrived[k]|)))
  }

  /** The reading task ends at the first round that is cancelled, fails to read, gets a message above 4096
      bytes, or does not write all of one; in the first case alone it succeeds. What it wrote are the
      messages before that one, whole, and what got through of that one. */
  lemma {:induction false} ReadTaskEnds(arrived: seq<Message>, outbound: seq<byte>, rounds: seq<Round>) returns (k: nat)
    decreases |rounds|
    ensures ReadReaches(arrived, rounds, k)
    ensures var (rest, out, end) := ReadTaskRun(arrived, outbound, rounds);
      && (end == Waiting <==> k == |rounds| || (rounds[k].Input? && k == |arrived|))
      && (end == Ok <==> k < |rounds| && rounds[k].Cancelled?)
      && (end == Error <==> ReadFailsAt(arrived, rounds, k))
      && out == outbound + Flatten(arrived[..k])
           + if k < |rounds| && k < |arrived| && rounds[k].Input? && rounds[k].written < |arrived[k]| <= 4096
             then arrived[k][..rounds[k].written] else []
  {
    hide Flatten;
    k := 0;
    NothingWritten(arrived, outbound);
    if rounds != [] && rounds[0].Input? && arrived != [] && |arrived[0]| <= 4096 && |arrived[0]| <= rounds[0].written {
      var i := ReadTaskEnds(arrived[1..], outbound + arrived[0], rounds[1..]);
      k := i + 1;
      assert forall j :: 0 < j < k ==> rounds[j] == rounds[1..][j - 1] && arrived[j] == arrived[1..][j - 1];
      assert arrived[..k][0] == arrived[0] && arrived[..k][1..] == arrived[1..][..i];
      FlattenHead(arrived[..k]);
      assert (outbound + arrived[0]) + Flatten(arrived[1..][..i]) == outbound + (arrived[0] + Flatten(arrived[1..][..i]));
    }
  }

  lemma {:induction false} FlattenConcat(a: seq<Message>, b: seq<Message>)
    ensures Flatten(a + b) == Flatten(a) + Flatten(b)
  {
    if b == [] {
      assert a + b == a;
    } else {
      var init := b[..|b| - 1];
      assert a + b == (a + init) + [b[|b| - 1]];
      FlattenAppend(a + init, b[|b| - 1]);
      FlattenConcat(a, init);
    }
  }

  lemma FlattenHead(messages: seq<Message>)
    requires messages != []
    ensures Flatten(messages) == messages[0] + Flatten(messages[1..])
  {
    assert messages == [messages[0]] + messages[1..];
    FlattenConcat([messages[0]], messages[1..]);
    FlattenAppend([], messages[0]);
  }

  /** The reading task writes what arrived, in order; unless its last write failed it has written whole
      messages, whatever the schedule and wherever it was cancelled. */
  lemma {:induction false} ReadTaskConserves(arrived: seq<Message>, outbound: seq<byte>, rounds: seq<Round>)
    decreases |rounds|
    ensures var (rest, out, end) := ReadTaskRun(arrived, outbound, rounds);
      && (end != Error ==> out + Flatten(rest) == outbound + Flatten(arrived))
      && IsPrefix(out, outbound + Flatten(arrived))
  {
    var all := outbound + Flatten(arrived);
    assert all[..|outbound|] == outbound;
    if rounds != [] && rounds[0].Input? && arrived != [] {
      var m := arrived[0];
      FlattenHead(arrived);
      if |m| > BUFFER {
      } else if rounds[0].written < |m| {
        assert all[..|outbound| + rounds[0].written] == outbound + m[..rounds[0].written];
      } else {
        assert (outbound + m) + Flatten(arrived[1..]) == all;
        ReadTaskConserves(arrived[1..], outbound + m, rounds[1..]);
      }
    }
  }
}
