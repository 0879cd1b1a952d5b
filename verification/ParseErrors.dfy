// Which error the handshake parser reports, and what the version probe reads (src/util/parse_server.rs and
// src/util/mc_disconnect.rs), for every buffer.
module ParseErrors {
  import opened Bytes
  import opened VarInt
  import opened ParseServer

  /** What a buffer with error `e` looks like: it has the fields before the one that the error is about, as
      in `l`, and then `tail`, where that field should be. */
  predicate FailsAt(buf: seq<byte>, e: ParseError, l: Layout, tail: seq<byte>) {
    match e
    case NoPacketLength => buf == tail && Decode(tail).None?
    case NoPacketId => IsVarInt(l.len) && buf == l.len + tail && Decode(tail).None?
    case UnexpectedPacketId(id) =>
      IsVarInt(l.len) && IsVarInt(l.id) && VarIntValue(l.id) == id != 0 && buf == l.len + (l.id + tail)
    case NoProtocolVersion =>
      IsVarInt(l.len) && IsVarInt(l.id) && VarIntValue(l.id) == 0 && buf == l.len + (l.id + tail) && Decode(tail).None?
    case NoAddressLength =>
      && IsVarInt(l.len) && IsVarInt(l.id) && VarIntValue(l.id) == 0 && IsVarInt(l.version)
      && buf == l.len + (l.id + (l.version + tail)) && Decode(tail).None?
    case AddressTruncated =>
      && IsHead(l) && buf == HeadThen(l, tail)
      && var len := VarIntValue(l.addrLen);
         if len < 0 then |l.len| + |l.id| + |l.version| + |l.addrLen| + len < 0 else len > |tail|
    case NoNextState =>
      && IsHead(l) && |l.port| == 2 && VarIntValue(l.addrLen) == |l.address|
      && buf == HeadThen(l, l.address + (l.port + tail)) && Decode(tail).None?
  }

  // ----- one field after the other -----

  lemma AtId(buf: seq<byte>, len: seq<byte>, rest: seq<byte>)
    requires IsVarInt(len) && buf == len + rest
    ensures |len| <= |buf| && buf[|len|..] == rest
    ensures Scan(buf) == ScanId(buf, |len|, AddUsize(AsUsize(VarIntValue(len)), |len|))
  {
    hide Decode, ScanId, IsVarInt, VarIntValue, AddUsize, AsUsize;
    assert buf[0..] == buf;
    ScanAtVarInt(buf, 0, len, rest);
  }

  lemma AtVersion(buf: seq<byte>, pos: nat, id: seq<byte>, rest: seq<byte>, packetLen: nat)
    requires pos <= |buf| && IsVarInt(id) && buf[pos..] == id + rest
    ensures pos + |id| <= |buf| && buf[pos + |id|..] == rest
    ensures ScanId(buf, pos, packetLen)
         == if VarIntValue(id) != 0 then Err(UnexpectedPacketId(VarIntValue(id)))
            else ScanVersion(buf, pos + |id|, packetLen)
  {
    hide Decode, ScanVersion, IsVarInt, VarIntValue;
    ScanAtVarInt(buf, pos, id, rest);
  }

  lemma AtAddress(buf: seq<byte>, pos: nat, version: seq<byte>, rest: seq<byte>, packetLen: nat)
    requires pos <= |buf| && IsVarInt(version) && buf[pos..] == version + rest
    ensures pos + |version| <= |buf| && buf[pos + |version|..] == rest
    ensures ScanVersion(buf, pos, packetLen) == ScanAddress(buf, pos + |version|, packetLen, VarIntValue(version))
  {
    hide Decode, ScanAddress, IsVarInt, VarIntValue;
    ScanAtVarInt(buf, pos, version, rest);
  }

  lemma TooLong(buf: seq<byte>, pos: nat, addrLen: seq<byte>, tail: seq<byte>, packetLen: nat, version: i32)
    requires pos <= |buf| <= MAX_SLICE && IsVarInt(addrLen) && buf[pos..] == addrLen + tail
    requires VarIntValue(addrLen) > |tail|
    ensures ScanAddress(buf, pos, packetLen, version) == Err(AddressTruncated)
  {
    hide Decode, ScanNextState;
    ScanAtVarInt(buf, pos, addrLen, tail);
    AddressBounds(pos + |addrLen|, VarIntValue(addrLen), |buf|);
  }

  lemma NoStateAt(buf: seq<byte>, pos: nat, l: Layout, tail: seq<byte>, packetLen: nat, version: i32)
    requires pos <= |buf| <= MAX_SLICE && IsVarInt(l.addrLen) && |l.port| == 2 && VarIntValue(l.addrLen) == |l.address|
    requires buf[pos..] == l.addrLen + (l.address + (l.port + tail)) && Decode(tail).None?
    ensures ScanAddress(buf, pos, packetLen, version) == Err(NoNextState)
  {
    hide Decode;
    ScanAtVarInt(buf, pos, l.addrLen, l.address + (l.port + tail));
    var start := pos + |l.addrLen|;
    AddressBounds(start, |l.address|, |buf|);
    Advance(buf, start, l.address, l.port + tail);
    Advance(buf, start + |l.address|, l.port, tail);
  }

  lemma HeadReads(buf: seq<byte>, l: Layout, tail: seq<byte>)
    requires IsVarInt(l.len) && IsVarInt(l.id) && VarIntValue(l.id) == 0 && IsVarInt(l.version)
    requires buf == l.len + (l.id + (l.version + tail))
    ensures var pos := |l.len| + |l.id| + |l.version|;
      && pos <= |buf| && buf[pos..] == tail
      && Scan(buf) == ScanAddress(buf, pos, AddUsize(AsUsize(VarIntValue(l.len)), |l.len|), VarIntValue(l.version))
  {
    hide Scan, ScanId, ScanVersion, ScanAddress, IsVarInt, VarIntValue, AddUsize, AsUsize;
    var packetLen := AddUsize(AsUsize(VarIntValue(l.len)), |l.len|);
    AtId(buf, l.len, l.id + (l.version + tail));
    AtVersion(buf, |l.len|, l.id, l.version + tail, packetLen);
    AtAddress(buf, |l.len| + |l.id|, l.version, tail, packetLen);
  }

  // ----- such a buffer has this error -----

  lemma EarlyError(buf: seq<byte>, e: ParseError, l: Layout, tail: seq<byte>)
    requires FailsAt(buf, e, l, tail) && |buf| <= MAX_SLICE
    requires e.NoPacketLength? || e.NoPacketId? || e.UnexpectedPacketId? || e.NoProtocolVersion?
    ensures Scan(buf) == Err(e)
  {
    hide Decode, ScanAddress, IsHead, HeadThen, IsVarInt, VarIntValue, AddUsize, AsUsize;
    var packetLen := AddUsize(AsUsize(VarIntValue(l.len)), |l.len|);
    if e.NoPacketId? {
      AtId(buf, l.len, tail);
    } else if !e.NoPacketLength? {
      AtId(buf, l.len, l.id + tail);
      AtVersion(buf, |l.len|, l.id, tail, packetLen);
    }
  }

  lemma TruncatedError(buf: seq<byte>, l: Layout, tail: seq<byte>)
    requires FailsAt(buf, AddressTruncated, l, tail) && |buf| <= MAX_SLICE
    ensures Scan(buf) == Err(AddressTruncated)
  {
    if VarIntValue(l.addrLen) < 0 {
      hide Scan, IsVarInt, VarIntValue;
      NegativeAddressLength(l, tail);
    } else {
      hide Scan, ScanAddress, IsVarInt, VarIntValue, AddUsize, AsUsize;
      HeadReads(buf, l, l.addrLen + tail);
      TooLong(buf, |l.len| + |l.id| + |l.version|, l.addrLen, tail,
              AddUsize(AsUsize(VarIntValue(l.len)), |l.len|), VarIntValue(l.version));
    }
  }

  lemma FailsAtIsError(buf: seq<byte>, e: ParseError, l: Layout, tail: seq<byte>)
    requires FailsAt(buf, e, l, tail) && |buf| <= MAX_SLICE
    ensures Scan(buf) == Err(e)
  {
    hide Decode, Scan, ScanAddress, IsVarInt, VarIntValue, AddUsize, AsUsize;
    var packetLen := AddUsize(AsUsize(VarIntValue(l.len)), |l.len|);
    match e {
      case AddressTruncated => TruncatedError(buf, l, tail);
      case NoAddressLength =>
        HeadReads(buf, l, tail);
        NoLengthAt(buf, |l.len| + |l.id| + |l.version|, packetLen, VarIntValue(l.version));
      case NoNextState =>
        HeadReads(buf, l, l.addrLen + (l.address + (l.port + tail)));
        NoStateAt(buf, |l.len| + |l.id| + |l.version|, l, tail, packetLen, VarIntValue(l.version));
      case _ => EarlyError(buf, e, l, tail);
    }
  }

  lemma NoLengthAt(buf: seq<byte>, pos: nat, packetLen: nat, version: i32)
    requires pos <= |buf| && Decode(buf[pos..]).None?
    ensures ScanAddress(buf, pos, packetLen, version) == Err(NoAddressLength)
  {
  }

  // ----- and whatever has this error looks like this -----

  lemma AddressErrorParts(buf: seq<byte>, pos: nat, packetLen: nat, version: i32, e: ParseError, head: Layout)
      returns (l: Layout, tail: seq<byte>)
    requires pos <= |buf| <= MAX_SLICE && ScanAddress(buf, pos, packetLen, version) == Err(e)
    requires IsVarInt(head.len) && IsVarInt(head.id) && VarIntValue(head.id) == 0 && IsVarInt(head.version)
    requires pos == |head.len| + |head.id| + |head.version|
    requires buf == head.len + (head.id + (head.version + buf[pos..]))
    ensures FailsAt(buf, e, l, tail)
  {
    hide Decode, IsVarInt, VarIntValue;
    if Decode(buf[pos..]).None? {
      l, tail := head, buf[pos..];
    } else {
      var addrLen := FieldAt(buf, pos);
      var start, len := pos + |addrLen|, VarIntValue(addrLen);
      AddressBounds(start, len, |buf|);
      if len < 0 || len > |buf| - start {
        l, tail := head.(addrLen := addrLen), buf[start..];
      } else {
        var end := start + len;
        l := head.(addrLen := addrLen, address := buf[start..end], port := buf[end..end + 2]);
        tail := buf[end + 2..];
        Rejoin(buf, start, end);
      }
    }
  }

  lemma Rejoin(buf: seq<byte>, start: nat, end: nat)
    requires start <= end && end + 2 <= |buf|
    ensures buf[start..] == buf[start..end] + (buf[end..end + 2] + buf[end + 2..])
  {
    assert buf[end..] == buf[end..end + 2] + buf[end + 2..];
    assert buf[start..] == buf[start..end] + buf[end..];
  }

  lemma ErrorParts(buf: seq<byte>, e: ParseError) returns (l: Layout, tail: seq<byte>)
    requires Scan(buf) == Err(e) && |buf| <= MAX_SLICE
    ensures FailsAt(buf, e, l, tail)
  {
    hide Decode, ScanAddress, IsVarInt, VarIntValue, AddUsize, AsUsize;
    assert buf[0..] == buf;
    var none := Layout([], [], [], [], [], [], []);
    if Decode(buf).None? {
      l, tail := none, buf;
    } else {
      var len := FieldAt(buf, 0);
      var packetLen := AddUsize(AsUsize(VarIntValue(len)), |len|);
      AtId(buf, len, buf[|len|..]);
      if Decode(buf[|len|..]).None? {
        l, tail := none.(len := len), buf[|len|..];
      } else {
        var id := FieldAt(buf, |len|);
        var pos := |len| + |id|;
        AtVersion(buf, |len|, id, buf[pos..], packetLen);
        if VarIntValue(id) != 0 || Decode(buf[pos..]).None? {
          l, tail := none.(len := len, id := id), buf[pos..];
        } else {
          var version := FieldAt(buf, pos);
          AtAddress(buf, pos, version, buf[pos + |version|..], packetLen);
          l, tail := AddressErrorParts(buf, pos + |version|, packetLen, VarIntValue(version), e,
                                       none.(len := len, id := id, version := version));
        }
      }
    }
  }

  /** The parser reports an error exactly for the first field that the buffer lacks: with the fields before
      it in place and well-formed. Together with `ParseAccepts` and `PanicsExactlyIf` this says what it does
      with every buffer. */
  lemma ErrorsExactly(buf: seq<byte>, text: Text, e: ParseError)
    requires |buf| <= MAX_SLICE
    ensures Parse(buf, text) == Err(e) <==> exists l, tail :: FailsAt(buf, e, l, tail)
  {
    hide Scan, ServerId, FailsAt;
    if Parse(buf, text) == Err(e) {
      var l, tail := ErrorParts(buf, e);
    }
    if l, tail :| FailsAt(buf, e, l, tail) {
      FailsAtIsError(buf, e, l, tail);
    }
  }

  // ----- the version probe -----

  /** Three VarInts, of which the third has the value `v`, whatever follows. */
  predicate ThreeVarInts(buf: seq<byte>, l: Layout, v: i32) {
    && IsVarInt(l.len) && IsVarInt(l.id) && IsVarInt(l.version) && VarIntValue(l.version) == v
    && IsPrefix(l.len + (l.id + l.version), buf)
  }

  lemma ProbeReads(buf: seq<byte>, l: Layout, v: i32)
    requires ThreeVarInts(buf, l, v)
    ensures ProtocolVersion(buf) == Some(v)
  {
    hide Decode, IsVarInt, VarIntValue;
    var bs := l.len + (l.id + l.version);
    var rest := buf[|bs|..];
    assert buf == bs + rest;
    Assoc(l.len, l.id + l.version, rest);
    Assoc(l.id, l.version, rest);
    assert buf[0..] == buf;
    ScanAtVarInt(buf, 0, l.len, l.id + (l.version + rest));
    ScanAtVarInt(buf, |l.len|, l.id, l.version + rest);
    ScanAtVarInt(buf, |l.len| + |l.id|, l.version, rest);
  }

  lemma ProbeParts(buf: seq<byte>, v: i32) returns (l: Layout)
    requires ProtocolVersion(buf) == Some(v)
    ensures ThreeVarInts(buf, l, v)
  {
    hide Decode, IsVarInt, VarIntValue;
    assert buf[0..] == buf;
    var len := FieldAt(buf, 0);
    var id := FieldAt(buf, |len|);
    var version := FieldAt(buf, |len| + |id|);
    l := Layout(len, id, version, [], [], [], []);
    var rest := buf[|len| + |id| + |version|..];
    Assoc(id, version, rest);
    Assoc(len, id + version, rest);
    assert buf == (len + (id + version)) + rest;
    PrefixOfConcat(len + (id + version), rest, buf);
  }

  /** The probe reads a version exactly from a buffer that begins with three VarInts; it checks neither the
      length nor the packet id. */
  lemma ProbeExactly(buf: seq<byte>, v: i32)
    ensures ProtocolVersion(buf) == Some(v) <==> exists l :: ThreeVarInts(buf, l, v)
  {
    hide ProtocolVersion, ThreeVarInts;
    if ProtocolVersion(buf) == Some(v) {
      var l := ProbeParts(buf, v);
    }
    if l :| ThreeVarInts(buf, l, v) {
      ProbeReads(buf, l, v);
    }
  }
}
