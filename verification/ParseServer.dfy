// The handshake parser (src/util/parse_server.rs) and the version probe of
// src/util/mc_disconnect.rs.
module ParseServer {
  import opened Bytes
  import opened VarInt

  const NUL: byte := 0x00
  const DOT: byte := 0x2E

  datatype HandshakeInfo = HandshakeInfo(serverId: seq<byte>, protocolVersion: i32, nextState: i32, packetLen: nat)

  datatype ParseError =
    | NoPacketLength
    | NoPacketId
    | UnexpectedPacketId(id: i32)
    | NoProtocolVersion
    | NoAddressLength
    | AddressTruncated
    | NoNextState

  /** `Trap` is a slice index out of range, which panics instead of returning an error. */
  datatype Outcome<T> = Ok(value: T) | Err(error: ParseError) | Trap

  /** What the parser takes from the bytes before it interprets the address. */
  datatype Fields = Fields(address: seq<byte>, protocolVersion: i32, nextState: i32, packetLen: nat)

  /** The two library calls that the parser makes on text: `String::from_utf8_lossy`, and
      `Url::parse` followed by `domain`, which yields no domain when either has none. */
  datatype Text = Text(lossy: seq<byte> -> seq<byte>, urlDomain: seq<byte> -> Option<seq<byte>>)

  // ----- the routing label -----

  /** The part of `s` before the first `sep`. */
  function Before(s: seq<byte>, sep: byte): seq<byte> {
    if s == [] || s[0] == sep then [] else [s[0]] + Before(s[1..], sep)
  }

  function Domain(address: seq<byte>, text: Text): seq<byte> {
    var clean := Before(address, NUL);
    match text.urlDomain(clean)
    case Some(domain) => domain
    case None => clean
  }

  /** The label that the connection is routed on. */
  function ServerId(address: seq<byte>, text: Text): seq<byte> {
    Before(Domain(address, text), DOT)
  }

  // ----- the parser, field by field -----

  /** The fields that `parse_handshake_buf` reads from `buf`. */
  function Scan(buf: seq<byte>): Outcome<Fields> {
    match Decode(buf)
    case None => Err(NoPacketLength)
    case Some((bodyLen, n)) => ScanId(buf, n, AddUsize(AsUsize(bodyLen), n))
  }

  function ScanId(buf: seq<byte>, pos: nat, packetLen: nat): Outcome<Fields>
    requires pos <= |buf|
  {
    match Decode(buf[pos..])
    case None => Err(NoPacketId)
    case Some((id, n)) => if id != 0 then Err(UnexpectedPacketId(id)) else ScanVersion(buf, pos + n, packetLen)
  }

  function ScanVersion(buf: seq<byte>, pos: nat, packetLen: nat): Outcome<Fields>
    requires pos <= |buf|
  {
    match Decode(buf[pos..])
    case None => Err(NoProtocolVersion)
    case Some((version, n)) => ScanAddress(buf, pos + n, packetLen, version)
  }

  function ScanAddress(buf: seq<byte>, pos: nat, packetLen: nat, version: i32): Outcome<Fields>
    requires pos <= |buf|
  {
    match Decode(buf[pos..])
    case None => Err(NoAddressLength)
    case Some((len, n)) =>
      var start, end := pos + n, AddUsize(pos + n, AsUsize(len));
      if end > |buf| then Err(AddressTruncated)
      else if end < start then Trap
      else ScanNextState(buf, end + 2, packetLen, version, buf[start..end])
  }

  function ScanNextState(buf: seq<byte>, pos: nat, packetLen: nat, version: i32, address: seq<byte>): Outcome<Fields> {
    if pos > |buf| then Trap
    else
      match Decode(buf[pos..])
      case None => Err(NoNextState)
      case Some((nextState, _)) => Ok(Fields(address, version, nextState, packetLen))
  }

  function Info(f: Fields, text: Text): HandshakeInfo {
    HandshakeInfo(ServerId(text.lossy(f.address), text), f.protocolVersion, f.nextState, f.packetLen)
  }

  /** What `parse_handshake_buf` returns for `buf`. */
  function Parse(buf: seq<byte>, text: Text): Outcome<HandshakeInfo> {
    match Scan(buf)
    case Ok(f) => Ok(Info(f, text))
    case Err(e) => Err(e)
    case Trap => Trap
  }

  /** What `parse_protocol_version` returns for `buf`. */
  function ProtocolVersion(buf: seq<byte>): Option<i32> {
    match Decode(buf)
    case None => None
    case Some((_, n)) =>
      match Decode(buf[n..])
      case None => None
      case Some((_, m)) =>
        match Decode(buf[n + m..])
        case None => None
        case Some((version, _)) => Some(version)
  }

  // ----- the program -----

  /** The fixed part of `parse_handshake_buf`: packet length, id and version, then the rest. */
  method ParseFields(buf: seq<byte>) returns (r: Outcome<Fields>)
    requires |buf| <= MAX_SLICE
    ensures r == Scan(buf)
  {
    hide Decode, ScanAddress;
    var pos := 0;
    assert buf[pos..] == buf;
    var field := DecodeVarInt(buf[pos..]);
    if field.None? {
      return Err(NoPacketLength);
    }
    var packetLen := AddUsize(AsUsize(field.value.0), field.value.1);
    pos := pos + field.value.1;
    assert Scan(buf) == ScanId(buf, pos, packetLen);

    field := DecodeVarInt(buf[pos..]);
    if field.None? {
      return Err(NoPacketId);
    }
    pos := pos + field.value.1;
    if field.value.0 != 0 {
      return Err(UnexpectedPacketId(field.value.0));
    }
    assert Scan(buf) == ScanVersion(buf, pos, packetLen);

    field := DecodeVarInt(buf[pos..]);
    if field.None? {
      return Err(NoProtocolVersion);
    }
    pos := pos + field.value.1;
    r := ParseAddress(buf, pos, packetLen, field.value.0);
  }

  /** The part of `parse_handshake_buf` from the address length on. */
  method ParseAddress(buf: seq<byte>, start: nat, packetLen: nat, protocolVersion: i32) returns (r: Outcome<Fields>)
    requires start <= |buf| <= MAX_SLICE
    ensures r == ScanAddress(buf, start, packetLen, protocolVersion)
  {
    hide Decode;
    var pos := start;
    var field := DecodeVarInt(buf[pos..]);
    if field.None? {
      return Err(NoAddressLength);
    }
    pos := pos + field.value.1;
    var addrLen := AsUsize(field.value.0);
    var addrEnd := AddUsize(pos, addrLen);
    if addrEnd > |buf| {
      return Err(AddressTruncated);
    }
    if addrEnd < pos {
      return Trap;
    }
    var address := buf[pos..addrEnd];
    pos := addrEnd;

    pos := pos + 2;
    if pos > |buf| {
      return Trap;
    }
    field := DecodeVarInt(buf[pos..]);
    if field.None? {
      return Err(NoNextState);
    }
    r := Ok(Fields(address, protocolVersion, field.value.0, packetLen));
  }

  /** `parse_handshake_buf` */
  method ParseHandshakeBuf(buf: seq<byte>, text: Text) returns (r: Outcome<HandshakeInfo>)
    requires |buf| <= MAX_SLICE
    ensures r == Parse(buf, text)
  {
    hide Scan, ServerId, FirstLabel;
    var fields := ParseFields(buf);
    match fields {
      case Err(e) => r := Err(e);
      case Trap => r := Trap;
      case Ok(f) =>
        var serverId := ExtractServerId(f.address, text);
        r := Ok(HandshakeInfo(serverId, f.protocolVersion, f.nextState, f.packetLen));
    }
  }

  /** `str::split` on one character. */
  function Split(s: seq<byte>, sep: byte): (parts: seq<seq<byte>>)
    ensures parts != []
  {
    if s == [] then [[]]
    else
      var parts := Split(s[1..], sep);
      if s[0] == sep then [[]] + parts else [[s[0]] + parts[0]] + parts[1..]
  }

  lemma {:induction false} SplitHead(s: seq<byte>, sep: byte)
    ensures Split(s, sep)[0] == Before(s, sep)
  {
    if s != [] && s[0] != sep {
      SplitHead(s[1..], sep);
    }
  }

  /** `slice::reverse` */
  method ReverseInPlace(parts: array<seq<byte>>)
    modifies parts
    ensures forall k :: 0 <= k < parts.Length ==> parts[k] == old(parts[parts.Length - 1 - k])
  {
    var n := parts.Length;
    for i := 0 to n / 2
      invariant forall k :: 0 <= k < i ==> parts[k] == old(parts[n - 1 - k]) && parts[n - 1 - k] == old(parts[k])
      invariant forall k :: i <= k < n - i ==> parts[k] == old(parts[k])
    {
      parts[i], parts[n - 1 - i] := parts[n - 1 - i], parts[i];
    }
  }

  /** The part of `parse_handshake_buf` that turns the address into the routing label: what comes before
      the first dot of the domain, or before the first dot or NUL of the address if it has no domain. */
  method ExtractServerId(address: seq<byte>, text: Text) returns (serverId: seq<byte>)
    ensures serverId == ServerId(text.lossy(address), text)
    ensures match text.urlDomain(Before(text.lossy(address), NUL))
            case None => FirstLabel(serverId, text.lossy(address), {NUL, DOT})
            case Some(domain) => FirstLabel(serverId, domain, {DOT})
  {
    var serverAddress := text.lossy(address);
    var cleanAddress := Split(serverAddress, NUL)[0];
    SplitHead(serverAddress, NUL);
    var domain := match text.urlDomain(cleanAddress) case Some(d) => d case None => cleanAddress;
    var split := Split(domain, DOT);
    SplitHead(domain, DOT);
    var parts := new seq<byte>[|split|](i requires 0 <= i < |split| => split[i]);
    ReverseInPlace(parts);
    serverId := parts[parts.Length - 1];
    LabelOfDomain(serverAddress, text);
  }

  /** `parse_protocol_version` */
  method ParseProtocolVersion(buf: seq<byte>) returns (r: Option<i32>)
    ensures r == ProtocolVersion(buf)
  {
    var pos := 0;
    var field := DecodeVarInt(buf[pos..]);
    assert buf[pos..] == buf;
    if field.None? {
      return None;
    }
    pos := pos + field.value.1;
    field := DecodeVarInt(buf[pos..]);
    if field.None? {
      return None;
    }
    pos := pos + field.value.1;
    field := DecodeVarInt(buf[pos..]);
    if field.None? {
      return None;
    }
    r := Some(field.value.0);
  }

  // ----- the layout of a handshake -----

  /** The byte strings that make up a handshake, in order. */
  datatype Layout = Layout(
    len: seq<byte>, id: seq<byte>, version: seq<byte>, addrLen: seq<byte>,
    address: seq<byte>, port: seq<byte>, next: seq<byte>)
  {
    function Bytes(): seq<byte> {
      len + (id + (version + (addrLen + (address + (port + next)))))
    }

    /** Where the address ends. */
    function AddressEnd(): nat {
      |len| + |id| + |version| + |addrLen| + |address|
    }
  }

  predicate IsVarInt(bs: seq<byte>) {
    Terminated(bs) && |bs| <= 5
  }

  function VarIntValue(bs: seq<byte>): i32 {
    Wrap32(GroupSum(bs))
  }

  predicate WellFormed(l: Layout) {
    && IsVarInt(l.len) && IsVarInt(l.id) && IsVarInt(l.version) && IsVarInt(l.addrLen) && IsVarInt(l.next)
    && VarIntValue(l.id) == 0
    && VarIntValue(l.addrLen) == |l.address|
    && |l.port| == 2
  }

  function FieldsOf(l: Layout): Fields {
    Fields(l.address, VarIntValue(l.version), VarIntValue(l.next), AddUsize(AsUsize(VarIntValue(l.len)), |l.len|))
  }

  /** Cutting `a` off the head of `b` at position `pos`. */
  lemma Advance(buf: seq<byte>, pos: nat, a: seq<byte>, rest: seq<byte>)
    requires pos <= |buf| && buf[pos..] == a + rest
    ensures pos + |a| <= |buf| && buf[pos + |a|..] == rest && buf[pos..pos + |a|] == a
  {
    assert buf[pos + |a|..] == buf[pos..][|a|..];
    assert buf[pos..pos + |a|] == buf[pos..][..|a|];
  }

  lemma ScanAtVarInt(buf: seq<byte>, pos: nat, bs: seq<byte>, rest: seq<byte>)
    requires pos <= |buf| && buf[pos..] == bs + rest && IsVarInt(bs)
    ensures Decode(buf[pos..]) == Some((VarIntValue(bs), |bs|))
    ensures pos + |bs| <= |buf| && buf[pos + |bs|..] == rest
  {
    TerminatedStops(bs, rest);
    Advance(buf, pos, bs, rest);
  }

  lemma NextStateAt(buf: seq<byte>, pos: nat, l: Layout, tail: seq<byte>, packetLen: nat)
    requires WellFormed(l) && pos <= |buf| && buf[pos..] == l.next + tail
    ensures ScanNextState(buf, pos, packetLen, VarIntValue(l.version), l.address)
         == Ok(Fields(l.address, VarIntValue(l.version), VarIntValue(l.next), packetLen))
  {
    ScanAtVarInt(buf, pos, l.next, tail);
  }

  lemma AddressAt(buf: seq<byte>, pos: nat, l: Layout, tail: seq<byte>, packetLen: nat)
    requires WellFormed(l) && pos <= |buf| <= MAX_SLICE
    requires buf[pos..] == l.addrLen + (l.address + (l.port + (l.next + tail)))
    ensures ScanAddress(buf, pos, packetLen, VarIntValue(l.version))
         == Ok(Fields(l.address, VarIntValue(l.version), VarIntValue(l.next), packetLen))
  {
    hide Decode;
    ScanAtVarInt(buf, pos, l.addrLen, l.address + (l.port + (l.next + tail)));
    Advance(buf, pos + |l.addrLen|, l.address, l.port + (l.next + tail));
    Advance(buf, pos + |l.addrLen| + |l.address|, l.port, l.next + tail);
    NextStateAt(buf, pos + |l.addrLen| + |l.address| + 2, l, tail, packetLen);
  }

  lemma VersionAt(buf: seq<byte>, pos: nat, l: Layout, tail: seq<byte>, packetLen: nat)
    requires WellFormed(l) && pos <= |buf| <= MAX_SLICE
    requires buf[pos..] == l.version + (l.addrLen + (l.address + (l.port + (l.next + tail))))
    ensures ScanVersion(buf, pos, packetLen)
         == Ok(Fields(l.address, VarIntValue(l.version), VarIntValue(l.next), packetLen))
  {
    hide Decode, ScanAddress, IsVarInt, VarIntValue;
    ScanAtVarInt(buf, pos, l.version, l.addrLen + (l.address + (l.port + (l.next + tail))));
    AddressAt(buf, pos + |l.version|, l, tail, packetLen);
  }

  lemma Assoc<T>(a: seq<T>, b: seq<T>, c: seq<T>)
    ensures (a + b) + c == a + (b + c)
  {
  }

  lemma BytesThen(l: Layout, tail: seq<byte>)
    ensures l.Bytes() + tail
         == l.len + (l.id + (l.version + (l.addrLen + (l.address + (l.port + (l.next + tail))))))
  {
    var p := l.port + l.next;
    var a := l.address + p;
    var n := l.addrLen + a;
    var v := l.version + n;
    Assoc(l.port, l.next, tail);
    Assoc(l.address, p, tail);
    Assoc(l.addrLen, a, tail);
    Assoc(l.version, n, tail);
    Assoc(l.id, v, tail);
    Assoc(l.len, l.id + v, tail);
  }

  /** The fields of every well-formed handshake are read, whatever follows it. */
  lemma ScansWellFormed(l: Layout, tail: seq<byte>)
    requires WellFormed(l) && |l.Bytes() + tail| <= MAX_SLICE
    ensures Scan(l.Bytes() + tail) == Ok(FieldsOf(l))
  {
    hide Decode, ScanVersion, IsVarInt, VarIntValue, AddUsize, AsUsize;
    var buf := l.Bytes() + tail;
    var fromVersion := l.version + (l.addrLen + (l.address + (l.port + (l.next + tail))));
    BytesThen(l, tail);
    assert buf[0..] == buf;
    ScanAtVarInt(buf, 0, l.len, l.id + fromVersion);
    ScanAtVarInt(buf, |l.len|, l.id, fromVersion);
    VersionAt(buf, |l.len| + |l.id|, l, tail, FieldsOf(l).packetLen);
  }

  // ----- what is accepted -----

  lemma FieldAt(buf: seq<byte>, pos: nat) returns (bs: seq<byte>)
    requires pos <= |buf| && Decode(buf[pos..]).Some?
    ensures IsVarInt(bs) && Decode(buf[pos..]) == Some((VarIntValue(bs), |bs|))
    ensures pos + |bs| <= |buf| && buf[pos..] == bs + buf[pos + |bs|..]
  {
    DecodeMeaning(buf[pos..]);
    bs := buf[pos..][..Decode(buf[pos..]).value.1];
    assert buf[pos..][|bs|..] == buf[pos + |bs|..];
  }

  /** An address length that passes both bounds is the length of the slice it selects. */
  lemma AddressBounds(start: nat, len: i32, size: nat)
    requires start <= size <= MAX_SLICE
    ensures var end := AddUsize(start, AsUsize(len));
            && (len >= 0 ==> end == start + len)
            && (len < 0 ==> end < start || end > size)
            && (len < 0 ==> (end < start <==> start + len >= 0))
  {
  }

  lemma AddressPart(buf: seq<byte>, pos: nat, packetLen: nat, version: i32)
      returns (addrLen: seq<byte>, address: seq<byte>, port: seq<byte>, next: seq<byte>, rest: seq<byte>)
    requires pos <= |buf| <= MAX_SLICE && ScanAddress(buf, pos, packetLen, version).Ok?
    ensures buf[pos..] == addrLen + (address + (port + (next + rest)))
    ensures IsVarInt(addrLen) && IsVarInt(next) && VarIntValue(addrLen) == |address| && |port| == 2
    ensures ScanAddress(buf, pos, packetLen, version) == Ok(Fields(address, version, VarIntValue(next), packetLen))
  {
    hide Decode;
    addrLen := FieldAt(buf, pos);
    var start := pos + |addrLen|;
    AddressBounds(start, VarIntValue(addrLen), |buf|);
    var end := start + VarIntValue(addrLen);
    next := FieldAt(buf, end + 2);
    address, port, rest := buf[start..end], buf[end..end + 2], buf[end + 2 + |next|..];
    assert buf[end..] == port + buf[end + 2..];
    assert buf[start..] == address + buf[end..];
  }

  lemma VersionPart(buf: seq<byte>, pos: nat, packetLen: nat) returns (version: seq<byte>)
    requires pos <= |buf| && !ScanVersion(buf, pos, packetLen).Err?
    ensures IsVarInt(version) && pos + |version| <= |buf| && buf[pos..] == version + buf[pos + |version|..]
    ensures ScanVersion(buf, pos, packetLen) == ScanAddress(buf, pos + |version|, packetLen, VarIntValue(version))
  {
    hide Decode, ScanAddress, IsVarInt, VarIntValue;
    version := FieldAt(buf, pos);
  }

  lemma IdPart(buf: seq<byte>, pos: nat, packetLen: nat) returns (id: seq<byte>)
    requires pos <= |buf| && !ScanId(buf, pos, packetLen).Err?
    ensures IsVarInt(id) && VarIntValue(id) == 0
    ensures pos + |id| <= |buf| && buf[pos..] == id + buf[pos + |id|..]
    ensures ScanId(buf, pos, packetLen) == ScanVersion(buf, pos + |id|, packetLen)
  {
    hide Decode, ScanVersion, IsVarInt, VarIntValue;
    id := FieldAt(buf, pos);
  }

  lemma LengthPart(buf: seq<byte>) returns (len: seq<byte>)
    requires !Scan(buf).Err?
    ensures IsVarInt(len) && |len| <= |buf| && buf == len + buf[|len|..]
    ensures Scan(buf) == ScanId(buf, |len|, AddUsize(AsUsize(VarIntValue(len)), |len|))
  {
    hide Decode, ScanId, IsVarInt, VarIntValue;
    assert buf[0..] == buf;
    len := FieldAt(buf, 0);
  }

  /** A buffer that is not an error begins with three VarInts, of which the second is 0. */
  lemma HeadPart(buf: seq<byte>) returns (len: seq<byte>, id: seq<byte>, version: seq<byte>, rest: seq<byte>)
    requires !Scan(buf).Err?
    ensures IsVarInt(len) && IsVarInt(id) && IsVarInt(version) && VarIntValue(id) == 0
    ensures buf == len + (id + (version + rest))
    ensures var pos := |len| + |id| + |version|;
      && pos <= |buf| && buf[pos..] == rest
      && Scan(buf) == ScanAddress(buf, pos, AddUsize(AsUsize(VarIntValue(len)), |len|), VarIntValue(version))
  {
    hide Scan, ScanId, ScanVersion, ScanAddress, IsVarInt, VarIntValue;
    len := LengthPart(buf);
    var packetLen := AddUsize(AsUsize(VarIntValue(len)), |len|);
    id := IdPart(buf, |len|, packetLen);
    version := VersionPart(buf, |len| + |id|, packetLen);
    rest := buf[|len| + |id| + |version|..];
  }

  /** Whatever is accepted begins with a well-formed handshake, and its fields are returned. */
  lemma ScannedIsWellFormed(buf: seq<byte>) returns (l: Layout)
    requires Scan(buf).Ok? && |buf| <= MAX_SLICE
    ensures WellFormed(l) && IsPrefix(l.Bytes(), buf)
    ensures Scan(buf) == Ok(FieldsOf(l))
  {
    hide Scan, ScanAddress, IsVarInt, VarIntValue;
    var len, id, version, tail := HeadPart(buf);
    var addrLen, address, port, next, rest :=
      AddressPart(buf, |len| + |id| + |version|, AddUsize(AsUsize(VarIntValue(len)), |len|), VarIntValue(version));
    l := Layout(len, id, version, addrLen, address, port, next);
    assert buf == l.Bytes() + rest;
  }

  /** The parser accepts a buffer exactly when it begins with a well-formed handshake. */
  lemma ParseAccepts(buf: seq<byte>, text: Text, info: HandshakeInfo)
    requires |buf| <= MAX_SLICE
    ensures Parse(buf, text) == Ok(info)
       <==> exists l :: WellFormed(l) && IsPrefix(l.Bytes(), buf) && info == Info(FieldsOf(l), text)
  {
    hide Scan, ServerId, FieldsOf, WellFormed;
    if Parse(buf, text) == Ok(info) {
      var l := ScannedIsWellFormed(buf);
    }
    if l :| WellFormed(l) && IsPrefix(l.Bytes(), buf) && info == Info(FieldsOf(l), text) {
      assert buf == l.Bytes() + buf[|l.Bytes()|..];
      ScansWellFormed(l, buf[|l.Bytes()|..]);
    }
  }

  lemma ScanIsStable(buf: seq<byte>, more: seq<byte>)
    requires Scan(buf).Ok? && |buf + more| <= MAX_SLICE
    ensures Scan(buf + more) == Scan(buf)
    ensures ProtocolVersion(buf + more) == Some(Scan(buf).value.protocolVersion)
  {
    hide Decode, Scan, ProtocolVersion;
    var l := ScannedIsWellFormed(buf);
    var tail := buf[|l.Bytes()|..] + more;
    assert buf + more == l.Bytes() + tail;
    ScansWellFormed(l, tail);
    VersionOf(l, tail);
  }

  /** More bytes behind an accepted handshake change nothing, and the version probe agrees. */
  lemma ParseIsStable(buf: seq<byte>, more: seq<byte>, text: Text)
    requires Parse(buf, text).Ok? && |buf + more| <= MAX_SLICE
    ensures Parse(buf + more, text) == Parse(buf, text)
    ensures ProtocolVersion(buf + more) == Some(Parse(buf, text).value.protocolVersion)
  {
    hide Scan, ServerId, ProtocolVersion;
    ScanIsStable(buf, more);
  }

  lemma VersionOf(l: Layout, tail: seq<byte>)
    requires WellFormed(l)
    ensures ProtocolVersion(l.Bytes() + tail) == Some(VarIntValue(l.version))
  {
    hide Decode, IsVarInt, VarIntValue;
    var buf := l.Bytes() + tail;
    var rest := l.addrLen + (l.address + (l.port + (l.next + tail)));
    BytesThen(l, tail);
    assert buf[0..] == buf;
    ScanAtVarInt(buf, 0, l.len, l.id + (l.version + rest));
    ScanAtVarInt(buf, |l.len|, l.id, l.version + rest);
    ScanAtVarInt(buf, |l.len| + |l.id|, l.version, rest);
  }

  // ----- partial peeks -----

  /** How the parser ends on a buffer that it does not accept. */
  predicate Fails<T>(r: Outcome<T>, traps: bool) {
    if traps then r.Trap? else r.Err?
  }

  lemma CutVarInt(bs: seq<byte>, k: nat)
    requires IsVarInt(bs) && k < |bs|
    ensures Decode(bs[..k]) == None
  {
    NeverStops(bs[..k]);
  }

  lemma CutConcat(a: seq<byte>, b: seq<byte>, k: nat)
    requires k <= |a| + |b|
    ensures (a + b)[..k] == if k < |a| then a[..k] else a + b[..k - |a|]
  {
  }

  lemma CutBehindAddress(buf: seq<byte>, start: nat, l: Layout, j: nat, packetLen: nat, version: i32)
    requires WellFormed(l) && start <= |buf|
    requires |l.address| <= j < |l.address| + 2 + |l.next|
    requires buf[start..] == (l.address + (l.port + l.next))[..j]
    ensures Fails(ScanNextState(buf, start + |l.address| + 2, packetLen, version, l.address), j < |l.address| + 2)
  {
    hide Decode;
    if j >= |l.address| + 2 {
      var i := j - |l.address| - 2;
      assert (l.address + (l.port + l.next))[..j] == (l.address + l.port) + l.next[..i];
      Advance(buf, start, l.address + l.port, l.next[..i]);
      CutVarInt(l.next, i);
    }
  }

  lemma CutInAddress(buf: seq<byte>, pos: nat, l: Layout, k: nat, packetLen: nat)
    requires WellFormed(l) && pos <= |buf| <= MAX_SLICE
    requires k < |l.addrLen| + |l.address| + 2 + |l.next|
    requires buf[pos..] == (l.addrLen + (l.address + (l.port + l.next)))[..k]
    ensures var a := |l.addrLen| + |l.address|;
            Fails(ScanAddress(buf, pos, packetLen, VarIntValue(l.version)), a <= k < a + 2)
  {
    hide Decode, ScanNextState, IsVarInt, VarIntValue, AddUsize, AsUsize;
    var rest := l.address + (l.port + l.next);
    CutConcat(l.addrLen, rest, k);
    if k < |l.addrLen| {
      CutVarInt(l.addrLen, k);
    } else {
      var start, j := pos + |l.addrLen|, k - |l.addrLen|;
      ScanAtVarInt(buf, pos, l.addrLen, rest[..j]);
      AddressBounds(start, |l.address|, |buf|);
      if j >= |l.address| {
        CutConcat(l.address, l.port + l.next, j);
        Advance(buf, start, l.address, (l.port + l.next)[..j - |l.address|]);
        CutBehindAddress(buf, start, l, j, packetLen, VarIntValue(l.version));
      }
    }
  }

  lemma CutInVersion(buf: seq<byte>, pos: nat, l: Layout, k: nat, packetLen: nat)
    requires WellFormed(l) && pos <= |buf| <= MAX_SLICE
    requires k < |l.version| + |l.addrLen| + |l.address| + 2 + |l.next|
    requires buf[pos..] == (l.version + (l.addrLen + (l.address + (l.port + l.next))))[..k]
    ensures var a := |l.version| + |l.addrLen| + |l.address|;
            Fails(ScanVersion(buf, pos, packetLen), a <= k < a + 2)
  {
    hide Decode, ScanAddress;
    var rest := l.addrLen + (l.address + (l.port + l.next));
    CutConcat(l.version, rest, k);
    if k < |l.version| {
      CutVarInt(l.version, k);
    } else {
      ScanAtVarInt(buf, pos, l.version, rest[..k - |l.version|]);
      CutInAddress(buf, pos + |l.version|, l, k - |l.version|, packetLen);
    }
  }

  /** A peek that has not seen the whole handshake is never accepted. It is an error, except that the
      parser panics exactly when the peek ends behind the address with less than the whole port. */
  lemma PartialPeek(l: Layout, k: nat)
    requires WellFormed(l) && |l.Bytes()| <= MAX_SLICE && k < |l.Bytes()|
    ensures Fails(Scan(l.Bytes()[..k]), l.AddressEnd() <= k < l.AddressEnd() + 2)
  {
    hide Decode, ScanVersion, IsVarInt, VarIntValue, AddUsize, AsUsize;
    var buf := l.Bytes()[..k];
    var r2 := l.version + (l.addrLen + (l.address + (l.port + l.next)));
    var r1 := l.id + r2;
    assert buf[0..] == buf;
    CutConcat(l.len, r1, k);
    if k < |l.len| {
      CutVarInt(l.len, k);
    } else {
      var j := k - |l.len|;
      ScanAtVarInt(buf, 0, l.len, r1[..j]);
      CutConcat(l.id, r2, j);
      if j < |l.id| {
        CutVarInt(l.id, j);
      } else {
        ScanAtVarInt(buf, |l.len|, l.id, r2[..j - |l.id|]);
        CutInVersion(buf, |l.len| + |l.id|, l, j - |l.id|, FieldsOf(l).packetLen);
      }
    }
  }

  // ----- panics -----

  /** The bytes of a handshake up to the address, and whatever follows. */
  function HeadThen(l: Layout, tail: seq<byte>): seq<byte> {
    l.len + (l.id + (l.version + (l.addrLen + tail)))
  }

  predicate IsHead(l: Layout) {
    IsVarInt(l.len) && IsVarInt(l.id) && IsVarInt(l.version) && IsVarInt(l.addrLen) && VarIntValue(l.id) == 0
  }

  lemma ScanHead(l: Layout, tail: seq<byte>)
    requires IsHead(l) && |HeadThen(l, tail)| <= MAX_SLICE
    ensures var pos := |l.len| + |l.id| + |l.version|;
      && pos <= |HeadThen(l, tail)| && HeadThen(l, tail)[pos..] == l.addrLen + tail
      && Scan(HeadThen(l, tail))
         == ScanAddress(HeadThen(l, tail), pos, AddUsize(AsUsize(VarIntValue(l.len)), |l.len|), VarIntValue(l.version))
  {
    hide Decode, ScanAddress, IsVarInt, VarIntValue, AddUsize, AsUsize;
    var buf := HeadThen(l, tail);
    assert buf[0..] == buf;
    ScanAtVarInt(buf, 0, l.len, l.id + (l.version + (l.addrLen + tail)));
    ScanAtVarInt(buf, |l.len|, l.id, l.version + (l.addrLen + tail));
    ScanAtVarInt(buf, |l.len| + |l.id|, l.version, l.addrLen + tail);
  }

  lemma NegativeLengthAt(buf: seq<byte>, pos: nat, addrLen: seq<byte>, tail: seq<byte>, packetLen: nat, version: i32)
    requires pos <= |buf| <= MAX_SLICE && buf[pos..] == addrLen + tail
    requires IsVarInt(addrLen) && VarIntValue(addrLen) < 0
    ensures var r := ScanAddress(buf, pos, packetLen, version);
            if pos + |addrLen| + VarIntValue(addrLen) >= 0 then r.Trap? else r == Err(AddressTruncated)
  {
    hide Decode, ScanNextState;
    ScanAtVarInt(buf, pos, addrLen, tail);
    AddressBounds(pos + |addrLen|, VarIntValue(addrLen), |buf|);
  }

  /** A negative address length is an error or a panic, depending on how far the cursor has come. */
  lemma NegativeAddressLength(l: Layout, tail: seq<byte>)
    requires IsHead(l) && VarIntValue(l.addrLen) < 0 && |HeadThen(l, tail)| <= MAX_SLICE
    ensures var r := Scan(HeadThen(l, tail));
            var pos := |l.len| + |l.id| + |l.version| + |l.addrLen|;
            if pos + VarIntValue(l.addrLen) >= 0 then r.Trap? else r == Err(AddressTruncated)
  {
    hide Scan, ScanAddress, HeadThen;
    ScanHead(l, tail);
    NegativeLengthAt(HeadThen(l, tail), |l.len| + |l.id| + |l.version|, l.addrLen, tail,
                     AddUsize(AsUsize(VarIntValue(l.len)), |l.len|), VarIntValue(l.version));
  }

  /** A head of four VarInts with packet id 0 whose address length is negative and leads back into the
      buffer, or leaves less than the two bytes of the port. */
  predicate HeadTraps(l: Layout, tail: seq<byte>) {
    && IsHead(l)
    && var len := VarIntValue(l.addrLen);
       if len < 0 then |l.len| + |l.id| + |l.version| + |l.addrLen| + len >= 0
       else len <= |tail| < len + 2
  }

  lemma ShortPortTraps(buf: seq<byte>, pos: nat, addrLen: seq<byte>, tail: seq<byte>, packetLen: nat, version: i32)
    requires pos <= |buf| <= MAX_SLICE && buf[pos..] == addrLen + tail && IsVarInt(addrLen)
    requires VarIntValue(addrLen) <= |tail| < VarIntValue(addrLen) + 2 && VarIntValue(addrLen) >= 0
    ensures ScanAddress(buf, pos, packetLen, version).Trap?
  {
    hide Decode;
    ScanAtVarInt(buf, pos, addrLen, tail);
    AddressBounds(pos + |addrLen|, VarIntValue(addrLen), |buf|);
  }

  lemma HeadTrapsIsTrap(l: Layout, tail: seq<byte>)
    requires HeadTraps(l, tail) && |HeadThen(l, tail)| <= MAX_SLICE
    ensures Scan(HeadThen(l, tail)).Trap?
  {
    hide Scan, ScanAddress, HeadThen;
    if VarIntValue(l.addrLen) < 0 {
      NegativeAddressLength(l, tail);
    } else {
      ScanHead(l, tail);
      ShortPortTraps(HeadThen(l, tail), |l.len| + |l.id| + |l.version|, l.addrLen, tail,
                     AddUsize(AsUsize(VarIntValue(l.len)), |l.len|), VarIntValue(l.version));
    }
  }

  lemma TrapInAddress(buf: seq<byte>, pos: nat, packetLen: nat, version: i32) returns (addrLen: seq<byte>, tail: seq<byte>)
    requires pos <= |buf| <= MAX_SLICE && ScanAddress(buf, pos, packetLen, version).Trap?
    ensures IsVarInt(addrLen) && buf[pos..] == addrLen + tail
    ensures var len := VarIntValue(addrLen);
      if len < 0 then pos + |addrLen| + len >= 0 else len <= |tail| < len + 2
  {
    hide Decode;
    addrLen := FieldAt(buf, pos);
    var start := pos + |addrLen|;
    tail := buf[start..];
    AddressBounds(start, VarIntValue(addrLen), |buf|);
  }

  lemma TrapHasHead(buf: seq<byte>) returns (l: Layout, tail: seq<byte>)
    requires Scan(buf).Trap? && |buf| <= MAX_SLICE
    ensures HeadTraps(l, tail) && buf == HeadThen(l, tail)
  {
    hide Scan, ScanAddress, IsVarInt, VarIntValue;
    var len, id, version, _ := HeadPart(buf);
    var addrLen, rest := TrapInAddress(buf, |len| + |id| + |version|,
                                       AddUsize(AsUsize(VarIntValue(len)), |len|), VarIntValue(version));
    l, tail := Layout(len, id, version, addrLen, [], [], []), rest;
  }

  /** The parser returns, with a result or an error, on every buffer but these. */
  lemma PanicsExactlyIf(buf: seq<byte>, text: Text)
    requires |buf| <= MAX_SLICE
    ensures Parse(buf, text).Trap? <==> exists l, tail :: HeadTraps(l, tail) && buf == HeadThen(l, tail)
  {
    hide Scan, ServerId, HeadTraps, HeadThen;
    if Parse(buf, text).Trap? {
      var l, tail := TrapHasHead(buf);
    }
    if l, tail :| HeadTraps(l, tail) && buf == HeadThen(l, tail) {
      HeadTrapsIsTrap(l, tail);
    }
  }

  // ----- the client's encoder -----

  function HandshakeBody(version: i32, address: seq<byte>, port: nat, nextState: i32): seq<byte>
    requires port < 0x1_0000
  {
    Encode(0) + (Encode(version) + (Encode(Wrap32(|address|)) + (address + ([port / 0x100, port % 0x100] + Encode(nextState)))))
  }

  /** The Handshake packet, as a client of the protocol writes it. */
  function EncodeHandshake(version: i32, address: seq<byte>, port: nat, nextState: i32): seq<byte>
    requires port < 0x1_0000
  {
    var body := HandshakeBody(version, address, port, nextState);
    Encode(Wrap32(|body|)) + body
  }

  lemma EncodedVarInt(v: i32)
    ensures IsVarInt(Encode(v)) && VarIntValue(Encode(v)) == v
  {
    EncodingIsCanonical(v, Encode(v));
    WrapInvertsU32(v);
  }

  lemma EncodedIsWellFormed(version: i32, address: seq<byte>, port: nat, nextState: i32) returns (l: Layout)
    requires port < 0x1_0000
    requires |HandshakeBody(version, address, port, nextState)| < TWO_31
    ensures WellFormed(l) && l.Bytes() == EncodeHandshake(version, address, port, nextState)
    ensures FieldsOf(l) == Fields(address, version, nextState, |l.Bytes()|)
    ensures l.Bytes() == l.len + HandshakeBody(version, address, port, nextState)
  {
    hide Encode, IsVarInt, VarIntValue;
    var body := HandshakeBody(version, address, port, nextState);
    assert |address| < TWO_31;
    EncodedVarInt(|body|);
    EncodedVarInt(0);
    EncodedVarInt(version);
    EncodedVarInt(|address|);
    EncodedVarInt(nextState);
    l := Layout(Encode(|body|), Encode(0), Encode(version), Encode(|address|), address,
                [port / 0x100, port % 0x100], Encode(nextState));
    assert l.Bytes() == Encode(|body|) + body;
  }

  /** Parsing undoes encoding, whatever follows, and finds where it ends. */
  lemma ParseEncoded(version: i32, address: seq<byte>, port: nat, nextState: i32, rest: seq<byte>, text: Text)
    requires port < 0x1_0000
    requires |HandshakeBody(version, address, port, nextState)| < TWO_31
    requires |EncodeHandshake(version, address, port, nextState) + rest| <= MAX_SLICE
    ensures var h := EncodeHandshake(version, address, port, nextState);
      Parse(h + rest, text) == Ok(HandshakeInfo(ServerId(text.lossy(address), text), version, nextState, |h|))
  {
    hide Scan, ServerId, FieldsOf, EncodeHandshake;
    var l := EncodedIsWellFormed(version, address, port, nextState);
    ScansWellFormed(l, rest);
  }

  // ----- the length field -----

  /** The packet length is the length field and the bytes that it takes, except that a negative length
      field that they do not outweigh leads to one that no buffer can have. */
  lemma PacketLength(buf: seq<byte>, text: Text)
    requires Parse(buf, text).Ok?
    ensures Decode(buf).Some?
    ensures var (bodyLen, n), info := Decode(buf).value, Parse(buf, text).value;
      && (info.packetLen > MAX_SLICE <==> bodyLen + n < 0)
      && (bodyLen + n >= 0 ==> info.packetLen == bodyLen + n)
  {
    hide Decode, ScanAddress, ServerId;
    var (bodyLen, n) := Decode(buf).value;
    DecodedFew(buf);
    assert Scan(buf).value.packetLen == AddUsize(AsUsize(bodyLen), n) by {
      KeepsPacketLength(buf, n, AddUsize(AsUsize(bodyLen), n));
    }
  }

  lemma DecodedFew(buf: seq<byte>)
    requires Decode(buf).Some?
    ensures 1 <= Decode(buf).value.1 <= 5
  {
  }

  lemma KeepsPacketLength(buf: seq<byte>, pos: nat, packetLen: nat)
    requires pos <= |buf| && ScanId(buf, pos, packetLen).Ok?
    ensures ScanId(buf, pos, packetLen).value.packetLen == packetLen
  {
    hide Decode;
  }

  /** The parser never compares the length field with anything: whatever a client puts there, the
      handshake behind it is accepted. */
  lemma LengthIsNotChecked(len: i32, version: i32, address: seq<byte>, port: nat, nextState: i32, rest: seq<byte>, text: Text)
    requires port < 0x1_0000
    requires |HandshakeBody(version, address, port, nextState)| < TWO_31
    requires |Encode(len) + HandshakeBody(version, address, port, nextState) + rest| <= MAX_SLICE
    ensures var packetLen := AddUsize(AsUsize(len), |Encode(len)|);
      Parse(Encode(len) + HandshakeBody(version, address, port, nextState) + rest, text)
      == Ok(HandshakeInfo(ServerId(text.lossy(address), text), version, nextState, packetLen))
  {
    hide Scan, ServerId, Encode, VarIntValue, WellFormed, HandshakeBody;
    var h := EncodedIsWellFormed(version, address, port, nextState);
    var l := h.(len := Encode(len));
    ReplaceLength(h, len, HandshakeBody(version, address, port, nextState));
    ScansWellFormed(l, rest);
  }

  lemma ReplaceLength(h: Layout, len: i32, body: seq<byte>)
    requires WellFormed(h) && h.Bytes() == h.len + body
    ensures var l := h.(len := Encode(len));
      && WellFormed(l) && l.Bytes() == Encode(len) + body
      && FieldsOf(l) == FieldsOf(h).(packetLen := AddUsize(AsUsize(len), |Encode(len)|))
  {
    hide Encode, VarIntValue;
    EncodedVarInt(len);
    assert h.Bytes()[|h.len|..] == body;
  }

  // ----- what the routing label is -----

  /** `id` is the longest prefix of `s` without a separator. */
  predicate FirstLabel(id: seq<byte>, s: seq<byte>, separators: set<byte>) {
    && IsPrefix(id, s) && (forall b <- id :: b !in separators)
    && (|id| == |s| || s[|id|] in separators)
  }

  lemma {:induction false} BeforeIsLabel(s: seq<byte>, sep: byte)
    ensures FirstLabel(Before(s, sep), s, {sep})
  {
    if s != [] && s[0] != sep {
      BeforeIsLabel(s[1..], sep);
      var head := Before(s[1..], sep);
      assert s[1..][..|head|] == s[1..1 + |head|];
      assert [s[0]] + s[1..1 + |head|] == s[..1 + |head|];
    }
  }

  lemma FirstLabelIsUnique(a: seq<byte>, b: seq<byte>, s: seq<byte>, separators: set<byte>)
    requires FirstLabel(a, s, separators) && FirstLabel(b, s, separators) && |a| <= |b|
    ensures a == b
  {
    assert forall i :: 0 <= i < |b| ==> b[i] == s[i] && b[i] in b;
  }

  lemma LabelOfDomain(address: seq<byte>, text: Text)
    ensures match text.urlDomain(Before(address, NUL))
            case None => FirstLabel(ServerId(address, text), address, {NUL, DOT})
            case Some(domain) => FirstLabel(ServerId(address, text), domain, {DOT})
  {
    var clean := Before(address, NUL);
    BeforeIsLabel(address, NUL);
    BeforeIsLabel(Domain(address, text), DOT);
    if text.urlDomain(clean) == None {
      var id := Before(clean, DOT);
      assert forall b <- id :: b in clean;
      assert address[..|clean|][..|id|] == address[..|id|];
    }
  }

  /** When the URL library finds no domain, splitting, reversing and taking the last part comes to the
      longest prefix of the address without a NUL or a dot. */
  lemma ServerIdIsFirstLabel(address: seq<byte>, text: Text, id: seq<byte>)
    requires text.urlDomain(Before(address, NUL)) == None
    ensures id == ServerId(address, text) <==> FirstLabel(id, address, {NUL, DOT})
  {
    hide ServerId, FirstLabel;
    LabelOfDomain(address, text);
    var found := ServerId(address, text);
    if FirstLabel(id, address, {NUL, DOT}) {
      if |id| <= |found| {
        FirstLabelIsUnique(id, found, address, {NUL, DOT});
      } else {
        FirstLabelIsUnique(found, id, address, {NUL, DOT});
      }
    }
  }

  lemma {:induction false} BeforeStopsAtSeparator(s: seq<byte>, sep: byte, more: seq<byte>)
    ensures Before(s + [sep] + more, sep) == Before(s, sep)
  {
    if s == [] {
      assert s + [sep] + more == [sep] + more;
    } else {
      assert (s + [sep] + more)[1..] == s[1..] + [sep] + more;
      BeforeStopsAtSeparator(s[1..], sep, more);
    }
  }

  /** What follows a NUL, such as the marker that Forge clients append, does not change the label. */
  lemma MarkerIsIgnored(address: seq<byte>, marker: seq<byte>, text: Text)
    ensures ServerId(address + [NUL] + marker, text) == ServerId(address, text)
  {
    BeforeStopsAtSeparator(address, NUL, marker);
  }

  /** Neither library call makes text more than `EXPANSION` times as long. */
  const EXPANSION: nat := 1000

  ghost predicate Moderate(text: Text) {
    && (forall s :: |text.lossy(s)| <= EXPANSION * |s|)
    && (forall s :: text.urlDomain(s).Some? ==> |text.urlDomain(s).value| <= EXPANSION * |s|)
  }

  /** The label is never longer than the peek that it was found in allows. */
  lemma LabelIsBounded(buf: seq<byte>, text: Text)
    requires Moderate(text) && |buf| <= MAX_SLICE && Parse(buf, text).Ok?
    ensures |Parse(buf, text).value.serverId| <= EXPANSION * EXPANSION * |buf|
  {
    hide Scan, WellFormed, FieldsOf, FirstLabel;
    var l := ScannedIsWellFormed(buf);
    var address := text.lossy(Scan(buf).value.address);
    AddressIsInside(l);
    LabelIsInside(address, text);
  }

  lemma AddressIsInside(l: Layout)
    ensures FieldsOf(l).address == l.address && |l.address| <= |l.Bytes()|
  {
  }

  lemma LabelIsInside(address: seq<byte>, text: Text)
    requires Moderate(text)
    ensures |ServerId(address, text)| <= EXPANSION * |address|
  {
    BeforeIsLabel(address, NUL);
    BeforeIsLabel(Domain(address, text), DOT);
  }
}
