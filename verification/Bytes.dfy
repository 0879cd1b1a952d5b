// Bytes, machine integers and small sequence facts shared by every module.
module Bytes {

  const TWO_31: int := 0x8000_0000
  const TWO_32: int := 0x1_0000_0000
  const MAX_SLICE: int := 0x7FFF_FFFF_FFFF_FFFF  // `isize::MAX`: no Rust slice or buffer is longer

  /** Rust's `u8`. */
  type byte = x: int | 0 <= x < 0x100

  /** Rust's `i32`. */
  type i32 = x: int | -TWO_31 <= x < TWO_31

  datatype Option<+T> = None | Some(value: T)

  /** The value of `v as u32`. */
  function U32(v: i32): (u: nat)
    ensures u < TWO_32
  {
    if v < 0 then v + TWO_32 else v
  }

  /** The value of `n as i32`: the low 32 bits read as two's complement. */
  function Wrap32(n: int): i32 {
    var low := n % 0x1_0000_0000;
    if low < 0x8000_0000 then low else low - 0x1_0000_0000
  }

  /** The value of `v as usize` on a 64-bit target: sign extension, then reinterpretation. */
  function AsUsize(v: i32): nat {
    if v < 0 then v + 0x1_0000_0000_0000_0000 else v
  }

  /** A `usize` sum: overflow wraps around, since the build turns overflow checks off. */
  function AddUsize(a: nat, b: nat): (r: nat)
    ensures a + b < 0x1_0000_0000_0000_0000 ==> r == a + b
  {
    (a + b) % 0x1_0000_0000_0000_0000
  }

  lemma WrapInvertsU32(v: i32)
    ensures Wrap32(U32(v)) == v
  {
  }

  /** The bytes of a text of the program; all of them are printable ASCII. */
  function Ascii(s: string): seq<byte> {
    seq(|s|, i requires 0 <= i < |s| => if ' ' <= s[i] <= '~' then s[i] as byte else 0x3F)
  }

  /** `a` is a prefix of `b`. */
  predicate IsPrefix<T(==)>(a: seq<T>, b: seq<T>) {
    |a| <= |b| && a == b[..|a|]
  }

  lemma PrefixExtends<T>(a: seq<T>, b: seq<T>, c: seq<T>)
    requires IsPrefix(a, b)
    ensures IsPrefix(a, b + c)
  {
    assert (b + c)[..|a|] == b[..|a|];
  }

  lemma PrefixOfConcat<T>(a: seq<T>, b: seq<T>, c: seq<T>)
    requires a + b == c
    ensures IsPrefix(a, c)
  {
    assert c[..|a|] == a;
  }

  lemma PrefixTrans<T>(a: seq<T>, b: seq<T>, c: seq<T>)
    requires IsPrefix(a, b) && IsPrefix(b, c)
    ensures IsPrefix(a, c)
  {
    assert c[..|a|] == c[..|b|][..|a|];
  }

  lemma DropsHead<T>(a: seq<T>, b: seq<T>)
    ensures (a + b)[|a|..] == b && (a + b)[..|a|] == a
  {
  }
}
