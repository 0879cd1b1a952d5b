// VarInts of the Minecraft protocol (src/util/mc_disconnect.rs).
//
// The two methods work on words with shifts and masks, as the program does. They are proved
// against `Encode` and `Decode`, which speak of numbers in base 128; the laws are about those.
module VarInt {
  import opened Bytes
  import opened Bits

  /** The continuation bit is set. */
  predicate More(b: byte) {
    b >= 0x80
  }

  /** The seven payload bits. */
  function Low(b: byte): nat {
    b % 0x80
  }

  /** The number that the payload groups of `bs` denote, least significant group first. */
  function GroupSum(bs: seq<byte>): nat {
    if bs == [] then 0 else Low(bs[0]) + 128 * GroupSum(bs[1..])
  }

  function Pow128(n: nat): (p: nat)
    ensures p >= 1
  {
    if n == 0 then 1 else 128 * Pow128(n - 1)
  }

  /** Every byte but the last has the continuation bit. */
  predicate Terminated(bs: seq<byte>) {
    && bs != []
    && !More(bs[|bs| - 1])
    && forall i :: 0 <= i < |bs| - 1 ==> More(bs[i])
  }

  /** No shorter VarInt, and no other of the same length, denotes the same 32-bit word. */
  predicate Minimal(bs: seq<byte>) {
    && 1 <= |bs| <= 5
    && (|bs| > 1 ==> bs[|bs| - 1] != 0)
    && (|bs| == 5 ==> bs[4] <= 0x0F)
  }

  function EncodeU(u: nat): seq<byte> {
    if u < 128 then [u] else [u % 128 + 128] + EncodeU(u / 128)
  }

  /** What `encode_varint` returns for `v`. */
  function Encode(v: i32): seq<byte> {
    EncodeU(U32(v))
  }

  /** The position of the first byte at or after `from` without continuation bit, among the first five. */
  function Terminator(buf: seq<byte>, from: nat): (r: Option<nat>)
    decreases 5 - from
    ensures r.Some? ==> from <= r.value < |buf| && r.value < 5
  {
    if from >= |buf| || from >= 5 then None
    else if !More(buf[from]) then Some(from)
    else Terminator(buf, from + 1)
  }

  lemma {:induction false} TerminatorMeaning(buf: seq<byte>, from: nat)
    decreases 5 - from
    ensures var r := Terminator(buf, from);
            && (r.None? <==> forall i :: from <= i < |buf| && i < 5 ==> More(buf[i]))
            && (r.Some? ==> !More(buf[r.value]) && forall i :: from <= i < r.value ==> More(buf[i]))
  {
    if from < |buf| && from < 5 && More(buf[from]) {
      TerminatorMeaning(buf, from + 1);
    }
  }

  /** What `decode_varint` returns for `buf`: the value and the number of bytes read. */
  function Decode(buf: seq<byte>): (r: Option<(i32, nat)>)
    ensures r.Some? ==> 1 <= r.value.1 <= 5 && r.value.1 <= |buf|
  {
    match Terminator(buf, 0)
    case None => None
    case Some(i) => Some((Wrap32(GroupSum(buf[..i + 1])), i + 1))
  }

  // ----- the program -----

  /** `encode_varint` */
  method EncodeVarInt(value: i32) returns (buf: seq<byte>)
    ensures buf == Encode(value)
  {
    buf := [];
    var word: nat := U32(value);
    while true
      invariant word < TWO_32
      invariant buf + EncodeU(word) == Encode(value)
      decreases word
    {
      var b := And(word, 0x7F);
      EncodeStep(word);
      ghost var before, was := buf, word;
      word := ShiftRight(word, 7);
      if word != 0 {
        b := Or(b, 0x80);
      }
      buf := buf + [b];
      if word == 0 {
        break;
      }
      assert buf + EncodeU(word) == before + EncodeU(was);
    }
  }

  /** `decode_varint` */
  method DecodeVarInt(buf: seq<byte>) returns (r: Option<(i32, nat)>)
    ensures r == Decode(buf)
  {
    var result: nat, shift: nat := 0, 0;
    for i := 0 to |buf|
      invariant i <= 4 && shift == 7 * i
      invariant forall j :: 0 <= j < i ==> More(buf[j])
      invariant result == GroupSum(buf[..i])
    {
      var b := buf[i];
      var group := And(b, 0x7F);
      Accumulate(buf[..i], b);
      assert buf[..i] + [b] == buf[..i + 1];
      result := Or(result, ShiftLeft32(group, shift));
      ContinuationBit(b);
      if And(b, 0x80) == 0 {
        StopsAt(buf, i, result);
        return Some((Wrap32(result), i + 1));
      }
      shift := shift + 7;
      if shift >= 35 {
        NeverStops(buf);
        return None;
      }
    }
    NeverStops(buf);
    r := None;
  }

  // ----- words -----

  lemma EncodeStep(word: nat)
    ensures And(word, 0x7F) == word % 128 && ShiftRight(word, 7) == word / 128
    ensures Or(word % 128, 0x80) == word % 128 + 128
    ensures EncodeU(word) == if word / 128 == 0 then [word] else [word % 128 + 128] + EncodeU(word / 128)
  {
    hide And, Or, ShiftRight, Pow2;
    Powers();
    MaskLow(word);
    ShiftDivides(word, 7);
    OrIsSum(word % 128, 1, 7);
  }

  lemma ContinuationBit(b: byte)
    ensures And(b, 0x80) != 0 <==> More(b)
  {
    hide And, Pow2;
    Powers();
    MaskBit(b, 7);
  }

  /** Adding a group above those of `bs`: exact for four groups, and modulo 2^32 for the fifth. */
  lemma Accumulate(bs: seq<byte>, b: byte)
    requires |bs| <= 4
    ensures var r := Or(GroupSum(bs), ShiftLeft32(And(b, 0x7F), 7 * |bs|));
            && r == GroupSum(bs + [b]) % TWO_32
            && (|bs| < 4 ==> r == GroupSum(bs + [b]))
  {
    MaskLow(b);
    GroupSumBound(bs);
    AppendGroup(bs, b);
    OrGroup(GroupSum(bs), Low(b), |bs|);
    if |bs| < 4 {
      SmallRemainder(GroupSum(bs + [b]));
    }
  }

  lemma MaskLow(b: nat)
    ensures And(b, 0x7F) == b % 0x80
  {
    hide And, Pow2;
    Powers();
    MaskIsRemainder(b, 7);
  }

  lemma OrGroup(r: nat, g: nat, i: nat)
    requires i <= 4 && r < Pow128(i) && g < 128
    ensures Or(r, ShiftLeft32(g, 7 * i)) == (r + g * Pow128(i)) % TWO_32
    ensures i < 4 ==> r + g * Pow128(i) < TWO_32
  {
    Powers();
    match i {
      case 0 => OrLowGroup(r, g, 0, 1);
      case 1 => OrLowGroup(r, g, 7, 0x80);
      case 2 => OrLowGroup(r, g, 14, 0x4000);
      case 3 => OrLowGroup(r, g, 21, 0x20_0000);
      case _ => OrFifthGroup(r, g);
    }
  }

  lemma OrLowGroup(r: nat, g: nat, k: nat, p: nat)
    requires Pow2(k) == p <= 0x20_0000 && r < p && g < 128
    ensures Or(r, ShiftLeft32(g, k)) == (r + g * p) % TWO_32
    ensures r + g * p < TWO_32
  {
    SmallProduct(g, p);
    ShiftMultiplies(g, k);
    OrIsSum(r, g, k);
    SmallRemainder(g * p);
    SmallRemainder(r + g * p);
  }

  lemma SmallProduct(g: nat, p: nat)
    requires g < 128 && p <= 0x20_0000
    ensures g * p <= 127 * 0x20_0000
  {
  }

  lemma SmallRemainder(n: nat)
    requires n < TWO_32
    ensures n % TWO_32 == n
  {
  }

  lemma Powers()
    ensures Pow2(0) == 1 && Pow2(7) == 0x80 && Pow2(14) == 0x4000 && Pow2(21) == 0x20_0000 && Pow2(28) == 0x1000_0000
    ensures Pow128(0) == 1 && Pow128(1) == 0x80 && Pow128(2) == 0x4000 && Pow128(3) == 0x20_0000
    ensures Pow128(4) == 0x1000_0000 && Pow128(5) == 0x8_0000_0000
  {
    Pow2Adds(7, 7);
    Pow2Adds(7, 14);
    Pow2Adds(14, 14);
  }

  lemma OrFifthGroup(r: nat, g: nat)
    requires r < 0x1000_0000 && g < 128
    ensures Or(r, ShiftLeft32(g, 28)) == (r + g * 0x1000_0000) % TWO_32
  {
    Powers();
    ShiftMultiplies(g, 28);
    OrIsSum(r, g % 16, 28);
    Overflow(r, g);
    Overflow(0, g);
  }

  lemma Overflow(r: nat, g: nat)
    requires r < 0x1000_0000 && g < 128
    ensures (r + g * 0x1000_0000) % TWO_32 == r + g % 16 * 0x1000_0000
  {
  }

  // ----- groups -----

  lemma MulStep(x: nat, p: nat)
    ensures 128 * (x * p) == x * (128 * p)
  {
  }

  lemma {:induction false} AppendGroup(bs: seq<byte>, b: byte)
    ensures GroupSum(bs + [b]) == GroupSum(bs) + Low(b) * Pow128(|bs|)
  {
    if bs == [] {
      assert bs + [b] == [b];
    } else {
      assert (bs + [b])[1..] == bs[1..] + [b];
      AppendGroup(bs[1..], b);
      MulStep(Low(b), Pow128(|bs| - 1));
    }
  }

  lemma {:induction false} GroupSumBound(bs: seq<byte>)
    ensures GroupSum(bs) < Pow128(|bs|)
  {
    if bs != [] {
      GroupSumBound(bs[1..]);
    }
  }

  lemma StopsAt(buf: seq<byte>, i: nat, result: nat)
    requires i < |buf| && i < 5 && !More(buf[i])
    requires forall j :: 0 <= j < i ==> More(buf[j])
    requires result == GroupSum(buf[..i + 1]) % TWO_32
    ensures Decode(buf) == Some((Wrap32(result), i + 1))
  {
    TerminatorMeaning(buf, 0);
  }

  lemma NeverStops(buf: seq<byte>)
    requires forall j :: 0 <= j < |buf| && j < 5 ==> More(buf[j])
    ensures Decode(buf) == None
  {
    TerminatorMeaning(buf, 0);
  }

  // ----- laws -----

  /** `EncodeU` yields the shortest terminated groups that denote `u`. */
  lemma {:induction false} EncodeUSound(u: nat)
    ensures Terminated(EncodeU(u)) && GroupSum(EncodeU(u)) == u
    ensures |EncodeU(u)| > 1 ==> EncodeU(u)[|EncodeU(u)| - 1] != 0
  {
    if u >= 128 {
      EncodeUSound(u / 128);
      var rest := EncodeU(u / 128);
      assert EncodeU(u)[1..] == rest;
      if |rest| == 1 {
        assert rest == [u / 128];
      }
    }
  }

  /** Conversely, groups without a redundant zero group on top are the encoding of their sum. */
  lemma {:induction false} EncodeUComplete(bs: seq<byte>)
    requires Terminated(bs) && (|bs| > 1 ==> bs[|bs| - 1] != 0)
    ensures EncodeU(GroupSum(bs)) == bs
  {
    if |bs| == 1 {
      assert bs[1..] == [];
    } else {
      var rest := bs[1..];
      assert rest[|rest| - 1] == bs[|bs| - 1];
      EncodeUComplete(rest);
      TopGroupPositive(rest);
      LowestGroup(Low(bs[0]), GroupSum(rest));
      assert bs[0] == Low(bs[0]) + 128;
      assert bs == [bs[0]] + rest;
    }
  }

  lemma LowestGroup(low: nat, rest: nat)
    requires low < 128
    ensures (low + 128 * rest) % 128 == low && (low + 128 * rest) / 128 == rest
  {
  }

  lemma {:induction false} TopGroupPositive(bs: seq<byte>)
    requires Terminated(bs) && bs[|bs| - 1] != 0
    ensures GroupSum(bs) > 0
  {
    if |bs| > 1 {
      assert bs[1..][|bs| - 2] == bs[|bs| - 1];
      TopGroupPositive(bs[1..]);
    }
  }

  lemma {:induction false} EncodeULength(u: nat, n: nat)
    requires n >= 1 && u < Pow128(n)
    ensures |EncodeU(u)| <= n
  {
    if u >= 128 {
      EncodeULength(u / 128, n - 1);
    }
  }

  lemma TerminatedStops(bs: seq<byte>, tail: seq<byte>)
    requires Terminated(bs) && |bs| <= 5
    ensures Decode(bs + tail) == Some((Wrap32(GroupSum(bs)), |bs|))
  {
    var buf := bs + tail;
    assert forall j :: 0 <= j < |bs| - 1 ==> buf[j] == bs[j];
    assert buf[|bs| - 1] == bs[|bs| - 1];
    TerminatorMeaning(buf, 0);
    assert buf[..|bs|] == bs;
  }

  /** Every `i32` is encoded in one to five bytes, in the one minimal form that denotes its bit pattern. */
  lemma EncodingIsCanonical(v: i32, bs: seq<byte>)
    ensures bs == Encode(v) <==> Terminated(bs) && Minimal(bs) && GroupSum(bs) == U32(v)
  {
    EncodeUSound(U32(v));
    Powers();
    EncodeULength(U32(v), 5);
    FifthGroup(Encode(v));
    if Terminated(bs) && Minimal(bs) {
      EncodeUComplete(bs);
    }
  }

  /** Five groups stay within 32 bits exactly when the fifth is at most 0x0F. */
  lemma FifthGroup(bs: seq<byte>)
    requires Terminated(bs)
    ensures |bs| == 5 ==> (GroupSum(bs) < TWO_32 <==> bs[4] <= 0x0F)
  {
    if |bs| == 5 {
      assert bs == bs[..4] + [bs[4]];
      AppendGroup(bs[..4], bs[4]);
      GroupSumBound(bs[..4]);
      Powers();
    }
  }

  /** Decoding undoes encoding, whatever follows. */
  lemma DecodeEncode(v: i32, tail: seq<byte>)
    ensures Decode(Encode(v) + tail) == Some((v, |Encode(v)|))
  {
    EncodingIsCanonical(v, Encode(v));
    TerminatedStops(Encode(v), tail);
    WrapInvertsU32(v);
  }

  /** Encoding undoes decoding up to redundant bytes: a decoded VarInt is never shorter than the
      encoding of its value, and equals it exactly when it is minimal. */
  lemma EncodeDecode(buf: seq<byte>)
    requires Decode(buf).Some?
    ensures var (v, n) := Decode(buf).value;
            && |Encode(v)| <= n
            && (Encode(v) == buf[..n] <==> Minimal(buf[..n]))
  {
    hide Decode, GroupSum, Pow128, EncodeU;
    var (v, n) := Decode(buf).value;
    var bs := buf[..n];
    DecodeMeaning(buf);
    EncodingIsCanonical(v, Encode(v));
    EncodingIsCanonical(v, bs);
    var sum := GroupSum(bs);
    GroupSumBound(bs);
    assert U32(v) == sum % TWO_32;
    EncodeULength(U32(v), n);
    if Minimal(bs) {
      if n < 5 {
        PowerBelowWord(n);
      }
      FifthGroup(bs);
    }
  }

  lemma PowerBelowWord(n: nat)
    requires n <= 4
    ensures Pow128(n) < TWO_32
  {
    Powers();
  }

  /** What a decoded VarInt means, and exactly when decoding fails. */
  lemma DecodeMeaning(buf: seq<byte>)
    ensures Decode(buf).None? <==> forall i :: 0 <= i < |buf| && i < 5 ==> More(buf[i])
    ensures Decode(buf).Some? ==>
      var (v, n) := Decode(buf).value;
      Terminated(buf[..n]) && U32(v) == GroupSum(buf[..n]) % TWO_32
  {
    TerminatorMeaning(buf, 0);
  }

  /** A successful decoding reads the same from every extension of the buffer. */
  lemma DecodeIsStable(buf: seq<byte>, more: seq<byte>)
    requires Decode(buf).Some?
    ensures Decode(buf + more) == Decode(buf)
  {
    var n := Decode(buf).value.1;
    DecodeMeaning(buf);
    assert buf + more == buf[..n] + (buf[n..] + more);
    TerminatedStops(buf[..n], buf[n..] + more);
  }
}
