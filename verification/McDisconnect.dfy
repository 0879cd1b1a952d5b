// Strings, text components and the Login Disconnect packet (src/util/mc_disconnect.rs).
//
// A Rust `str` is modelled by its UTF-8 bytes. The characters that the program replaces are
// ASCII, so replacing characters and replacing bytes come to the same.
module McDisconnect {
  import opened Bytes
  import opened VarInt

  const QUOTE: byte := 0x22
  const BACKSLASH: byte := 0x5C

  // {"text":"  and  "}
  const JSON_OPEN: seq<byte> := [0x7B, 0x22, 0x74, 0x65, 0x78, 0x74, 0x22, 0x3A, 0x22]
  const JSON_CLOSE: seq<byte> := [0x22, 0x7D]

  // ----- what the program writes -----

  /** `str::replace` with a one-byte pattern. */
  function Replace(s: seq<byte>, pattern: byte, with: seq<byte>): seq<byte> {
    if s == [] then [] else (if s[0] == pattern then with else [s[0]]) + Replace(s[1..], pattern, with)
  }

  predicate Special(b: byte) {
    b == QUOTE || b == BACKSLASH
  }

  /** Escaping in one pass. */
  function Escape(text: seq<byte>): seq<byte> {
    if text == [] then [] else (if Special(text[0]) then [BACKSLASH, text[0]] else [text[0]]) + Escape(text[1..])
  }

  /** The JSON document for `text`. */
  function Json(text: seq<byte>): seq<byte> {
    JSON_OPEN + Escape(text) + JSON_CLOSE
  }

  /** A Minecraft String: the length as an `i32`, then the bytes. */
  function McString(s: seq<byte>): seq<byte> {
    Encode(Wrap32(|s|)) + s
  }

  function Payload(message: seq<byte>): seq<byte> {
    Encode(0) + McString(Json(message))
  }

  /** The packet that `build_login_disconnect` returns, for every protocol version. */
  function LoginDisconnect(message: seq<byte>): seq<byte> {
    Encode(Wrap32(|Payload(message)|)) + Payload(message)
  }

  /** `encode_mc_string`: a reader gets the string back if its length fits an `i32`. */
  method EncodeMcString(s: seq<byte>) returns (buf: seq<byte>)
    ensures |s| < TWO_31 ==> ReadMcString(buf) == Some((s, []))
    ensures buf == McString(s)
  {
    buf := EncodeVarInt(Wrap32(|s|));
    buf := buf + s;
    ReadWrittenString(s, []);
    assert McString(s) + [] == McString(s);
  }

  /** `str::replace`, byte by byte. */
  method ReplaceAll(s: seq<byte>, pattern: byte, with: seq<byte>) returns (r: seq<byte>)
    ensures r == Replace(s, pattern, with)
  {
    r := [];
    for i := 0 to |s|
      invariant r + Replace(s[i..], pattern, with) == Replace(s, pattern, with)
    {
      assert s[i..][1..] == s[i + 1..];
      r := r + if s[i] == pattern then with else [s[i]];
    }
  }

  /** `encode_text_component_json`: a reader finds the text in the component, unless it holds a control
      character. */
  method EncodeTextComponentJson(text: seq<byte>) returns (buf: seq<byte>)
    ensures buf == McString(JSON_OPEN + Escape(text) + JSON_CLOSE)
    ensures |JSON_OPEN + Escape(text) + JSON_CLOSE| < TWO_31 && NoControl(text) ==>
      ReadMcString(buf).Some? && ReadTextComponent(ReadMcString(buf).value.0) == Some(text)
  {
    var escaped := ReplaceAll(text, BACKSLASH, [BACKSLASH, BACKSLASH]);
    escaped := ReplaceAll(escaped, QUOTE, [BACKSLASH, QUOTE]);
    TwoPassesAreOne(text);
    ReadWrittenComponent(text);
    hide Escape, Replace, McString, ReadTextComponent, ReadMcString;
    buf := EncodeMcString(JSON_OPEN + escaped + JSON_CLOSE);
  }

  /** `build_login_disconnect` */
  method BuildLoginDisconnect(message: seq<byte>, protocolVersion: i32) returns (packet: seq<byte>)
    ensures packet == LoginDisconnect(message)
    ensures forall rest :: ReadLoginDisconnect(packet + rest) == Some((message, rest)) <==> NoControl(message) && Fits(message)
  {
    var packetId := EncodeVarInt(0);
    var reason := EncodeTextComponentJson(message);
    var payload := packetId;
    payload := payload + reason;
    packet := EncodeVarInt(Wrap32(|payload|));
    packet := packet + payload;
    assert packet == LoginDisconnect(message);
    hide LoginDisconnect, ReadLoginDisconnect, NoControl, Fits;
    forall rest
      ensures ReadLoginDisconnect(packet + rest) == Some((message, rest)) <==> NoControl(message) && Fits(message)
    {
      ReadWrittenDisconnect(message, rest);
    }
  }

  /** The two halves of a TCP stream as its owner sees them: what has arrived and is still to be read,
      whether the peer's end of file has arrived behind it, what was written, and whether the write half is
      shut down. */
  class TcpStream {
    var inbound: seq<byte>
    var ended: bool
    var outbound: seq<byte>
    var writeShut: bool

    constructor (inbound: seq<byte>, ended: bool)
      ensures this.inbound == inbound && this.ended == ended && outbound == [] && !writeShut
    {
      this.inbound, this.ended := inbound, ended;
      outbound, writeShut := [], false;
    }

    /** `read_exact` into a buffer of `n` bytes. If fewer have arrived it takes them all, and then fails at
        the end of file, or waits: it has no timeout. */
    method ReadExact(n: nat) returns (waits: bool)
      modifies this`inbound
      ensures waits <==> n > |old(inbound)| && !ended
      ensures inbound == if n <= |old(inbound)| then old(inbound)[n..] else []
    {
      waits := n > |inbound| && !ended;
      inbound := if n <= |inbound| then inbound[n..] else [];
    }

    /** `write_all` under a timeout: `through` bytes leave before the timeout or an error strikes. */
    method WriteAll(bytes: seq<byte>, through: nat)
      modifies this`outbound
      ensures outbound == old(outbound) + bytes[..if through < |bytes| then through else |bytes|]
    {
      outbound := outbound + bytes[..if through < |bytes| then through else |bytes|];
    }

    method Shutdown()
      modifies this`writeShut
      ensures writeShut
    {
      writeShut := true;
    }
  }

  /** `Waits`: the client has to send more, or to close, before anything goes on. */
  datatype Refusing = Refused | Waits | Panics

  /** `send_login_disconnect`: discard, write what gets through, shut down. The buffer for the bytes to
      discard is allocated in one piece, which panics above `isize::MAX`; then nothing has happened yet. */
  method SendLoginDisconnect(stream: TcpStream, message: seq<byte>, protocolVersion: i32, consumeLen: nat, through: nat)
      returns (r: Refusing)
    modifies stream
    ensures r == Panics <==> consumeLen > MAX_SLICE
    ensures r == Waits <==> |old(stream.inbound)| < consumeLen <= MAX_SLICE && !old(stream.ended)
    ensures stream.ended == old(stream.ended)
    ensures r != Refused ==> stream.outbound == old(stream.outbound) && stream.writeShut == old(stream.writeShut)
    ensures r == Panics ==> stream.inbound == old(stream.inbound)
    ensures r != Panics ==>
      stream.inbound == if consumeLen <= |old(stream.inbound)| then old(stream.inbound)[consumeLen..] else []
    ensures r == Refused ==>
      && (exists sent :: IsPrefix(sent, LoginDisconnect(message)) && stream.outbound == old(stream.outbound) + sent)
      && (through >= |LoginDisconnect(message)| ==> stream.outbound == old(stream.outbound) + LoginDisconnect(message))
      && stream.writeShut
  {
    hide LoginDisconnect;
    if consumeLen > MAX_SLICE {
      return Panics;
    }
    if consumeLen > 0 {
      var waits := stream.ReadExact(consumeLen);
      if waits {
        return Waits;
      }
    }
    var packet := BuildLoginDisconnect(message, protocolVersion);
    stream.WriteAll(packet, through);
    ghost var sent := packet[..if through < |packet| then through else |packet|];
    assert IsPrefix(sent, packet);
    stream.Shutdown();
    r := Refused;
  }

  // ----- what a client reads -----

  /** A Minecraft String at the head of `buf`, and what follows it. */
  function ReadMcString(buf: seq<byte>): Option<(seq<byte>, seq<byte>)> {
    match Decode(buf)
    case None => None
    case Some((len, n)) =>
      if 0 <= len <= |buf| - n then Some((buf[n..n + len], buf[n + len..])) else None
  }

  /** The characters of a JSON string up to its closing quotation mark, and what follows it
      (section 7 of RFC 8259, without the escapes that start with `u`). */
  function ReadJsonChars(s: seq<byte>): Option<(seq<byte>, seq<byte>)> {
    if s == [] then None
    else if s[0] == QUOTE then Some(([], s[1..]))
    else if s[0] == BACKSLASH then
      if |s| < 2 || Unescape(s[1]).None? then None
      else
        match ReadJsonChars(s[2..])
        case None => None
        case Some((chars, rest)) => Some(([Unescape(s[1]).value] + chars, rest))
    else if s[0] < 0x20 then None
    else
      match ReadJsonChars(s[1..])
      case None => None
      case Some((chars, rest)) => Some(([s[0]] + chars, rest))
  }

  /** The character that a backslash and `b` stand for. */
  function Unescape(b: byte): Option<byte> {
    if b == QUOTE || b == BACKSLASH || b == 0x2F then Some(b)
    else if b == 0x62 then Some(0x08)
    else if b == 0x66 then Some(0x0C)
    else if b == 0x6E then Some(0x0A)
    else if b == 0x72 then Some(0x0D)
    else if b == 0x74 then Some(0x09)
    else None
  }

  /** A JSON string, and what follows it. */
  function ReadJsonString(s: seq<byte>): Option<(seq<byte>, seq<byte>)> {
    if s == [] || s[0] != 0x22 then None else ReadJsonChars(s[1..])
  }

  /** The text of a component that is an object with the one member "text" (section 4 of RFC 8259). */
  function ReadTextComponent(json: seq<byte>): Option<seq<byte>> {
    if json == [] || json[0] != 0x7B then None
    else
      match ReadJsonString(json[1..])
      case None => None
      case Some((name, rest)) =>
        if name != Ascii("text") || rest == [] || rest[0] != 0x3A then None
        else
          match ReadJsonString(rest[1..])
          case None => None
          case Some((text, end)) => if end == [0x7D] then Some(text) else None
  }

  /** A Login Disconnect packet at the head of `buf`: its message, and what follows the packet. */
  function ReadLoginDisconnect(buf: seq<byte>): Option<(seq<byte>, seq<byte>)> {
    match ReadMcString(buf)  // the frame of a packet has the shape of a string
    case None => None
    case Some((payload, rest)) =>
      match Decode(payload)
      case None => None
      case Some((id, n)) =>
        if id != 0 then None
        else
          match ReadMcString(payload[n..])
          case None => None
          case Some((json, over)) =>
            if over != [] then None
            else
              match ReadTextComponent(json)
              case None => None
              case Some(text) => Some((text, rest))
  }

  // ----- escaping -----

  function Specials(text: seq<byte>): nat {
    if text == [] then 0 else (if Special(text[0]) then 1 else 0) + Specials(text[1..])
  }

  predicate NoControl(text: seq<byte>) {
    forall i :: 0 <= i < |text| ==> text[i] >= 0x20
  }

  lemma {:induction false} ReplaceConcat(a: seq<byte>, b: seq<byte>, pattern: byte, with: seq<byte>)
    ensures Replace(a + b, pattern, with) == Replace(a, pattern, with) + Replace(b, pattern, with)
  {
    if a == [] {
      assert a + b == b;
    } else {
      assert (a + b)[1..] == a[1..] + b;
      ReplaceConcat(a[1..], b, pattern, with);
    }
  }

  /** The second replacement does not touch what the first one inserted. */
  lemma {:induction false} TwoPassesAreOne(text: seq<byte>)
    ensures Replace(Replace(text, BACKSLASH, [BACKSLASH, BACKSLASH]), QUOTE, [BACKSLASH, QUOTE]) == Escape(text)
  {
    if text != [] {
      var head := if text[0] == BACKSLASH then [BACKSLASH, BACKSLASH] else [text[0]];
      var tail := Replace(text[1..], BACKSLASH, [BACKSLASH, BACKSLASH]);
      ReplaceConcat(head, tail, QUOTE, [BACKSLASH, QUOTE]);
      TwoPassesAreOne(text[1..]);
      ReplaceShort(head);
    }
  }

  lemma ReplaceShort(s: seq<byte>)
    requires |s| == 1 || s == [BACKSLASH, BACKSLASH]
    ensures Replace(s, QUOTE, [BACKSLASH, QUOTE]) == if s == [QUOTE] then [BACKSLASH, QUOTE] else s
  {
    assert Replace(s[1..], QUOTE, [BACKSLASH, QUOTE]) == s[1..];
  }

  lemma {:induction false} EscapeLength(text: seq<byte>)
    ensures |Escape(text)| == |text| + Specials(text)
  {
    if text != [] {
      EscapeLength(text[1..]);
    }
  }

  /** A JSON reader gets back exactly the escaped text, unless it holds a control character. */
  lemma {:induction false} ReadEscaped(text: seq<byte>, rest: seq<byte>)
    ensures ReadJsonChars(Escape(text) + [QUOTE] + rest) == if NoControl(text) then Some((text, rest)) else None
  {
    if text == [] {
      assert Escape(text) + [QUOTE] + rest == [QUOTE] + rest;
    } else {
      var t := Escape(text[1..]) + [QUOTE] + rest;
      ReadEscaped(text[1..], rest);
      assert NoControl(text) <==> text[0] >= 0x20 && NoControl(text[1..]);
      assert text == [text[0]] + text[1..];
      if Special(text[0]) {
        assert Escape(text) + [QUOTE] + rest == [BACKSLASH, text[0]] + t;
        assert ([BACKSLASH, text[0]] + t)[2..] == t;
      } else {
        assert Escape(text) + [QUOTE] + rest == [text[0]] + t;
        assert ([text[0]] + t)[1..] == t;
      }
    }
  }

  // ----- framing -----

  /** A string is read back exactly when its length survives the cast to `i32`. */
  lemma ReadWrittenString(s: seq<byte>, rest: seq<byte>)
    ensures |s| < TWO_31 ==> ReadMcString(McString(s) + rest) == Some((s, rest))
    ensures |s| >= TWO_31 ==>
      ReadMcString(McString(s) + rest).None? || |ReadMcString(McString(s) + rest).value.1| > |rest|
  {
    hide Decode;
    var buf := McString(s) + rest;
    assert buf == Encode(Wrap32(|s|)) + (s + rest);
    DecodeEncode(Wrap32(|s|), s + rest);
    DropsHead(Encode(Wrap32(|s|)), s + rest);
    DropsHead(s, rest);
    if |s| < TWO_31 {
      var n := |Encode(Wrap32(|s|))|;
      assert buf[n..n + |s|] == buf[n..][..|s|] == s;
      assert buf[n + |s|..] == buf[n..][|s|..] == rest;
    }
  }

  /** The caller's side of the size limit: seventeen bytes of framing at most, and one more for each
      character that is escaped. */
  predicate Fits(message: seq<byte>) {
    17 + |message| + Specials(message) < TWO_31
  }

  lemma FitsMeansPayload(message: seq<byte>)
    ensures Fits(message) <==> |Payload(message)| < TWO_31
  {
    var json := Json(message);
    EscapeLength(message);
    assert |json| == 11 + |message| + Specials(message);
    EncodeZero();
    Powers();
    EncodeULength(U32(Wrap32(|json|)), 5);
    if |json| < TWO_31 && |Encode(Wrap32(|json|))| < 5 {
      var bs := Encode(Wrap32(|json|));
      EncodeUSound(|json|);
      GroupSumBound(bs);
      SmallPower(|bs|);
    }
  }

  lemma SmallPower(n: nat)
    requires n <= 4
    ensures Pow128(n) <= 0x1000_0000
  {
    Powers();
  }

  lemma EncodeZero()
    ensures Encode(0) == [0]
  {
  }

  lemma NameIsRead(rest: seq<byte>)
    ensures ReadJsonString([0x22, 0x74, 0x65, 0x78, 0x74, 0x22] + rest) == Some((Ascii("text"), rest))
  {
    var name: seq<byte> := [0x74, 0x65, 0x78, 0x74];
    assert name == Ascii("text");
    assert name[1..][1..] == [0x78, 0x74] && [0x78, 0x74][1..] == [0x74];
    assert Escape([0x74]) == [0x74];
    assert Escape([0x78, 0x74]) == [0x78, 0x74];
    assert Escape(name[1..]) == name[1..];
    assert Escape(name) == name;
    ReadEscaped(name, rest);
    assert ([0x22, 0x74, 0x65, 0x78, 0x74, 0x22] + rest)[1..] == name + [QUOTE] + rest;
  }

  lemma ReadWrittenComponent(message: seq<byte>)
    ensures ReadTextComponent(Json(message)) == if NoControl(message) then Some(message) else None
  {
    var json, value := Json(message), [QUOTE] + (Escape(message) + [QUOTE] + [0x7D]);
    assert json[1..] == [0x22, 0x74, 0x65, 0x78, 0x74, 0x22] + ([0x3A] + value);
    NameIsRead([0x3A] + value);
    assert ([0x3A] + value)[1..] == value && value[1..] == Escape(message) + [QUOTE] + [0x7D];
    hide Escape, ReadJsonChars, NoControl;
    ReadEscaped(message, [0x7D]);
  }

  /** The packet is read back, and the stream left at its end, exactly when the message has no
      control character and the payload's length fits an `i32`. */
  lemma ReadWrittenDisconnect(message: seq<byte>, rest: seq<byte>)
    ensures ReadLoginDisconnect(LoginDisconnect(message) + rest) == Some((message, rest))
       <==> NoControl(message) && Fits(message)
  {
    var payload := Payload(message);
    FitsMeansPayload(message);
    assert LoginDisconnect(message) == McString(payload);
    ReadWrittenString(payload, rest);
    if Fits(message) {
      var json := Json(message);
      EncodeZero();
      DecodeEncode(0, McString(json));
      DropsHead(Encode(0), McString(json));
      assert McString(json) + [] == McString(json);
      ReadWrittenString(json, []);
      ReadWrittenComponent(message);
    }
  }
}
