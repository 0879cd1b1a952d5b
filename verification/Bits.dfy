// Bitwise operators of the program's unsigned words, bit by bit, and the arithmetic they
// amount to for the masks and shifts that the VarInt codec uses.
module Bits {

  function Pow2(k: nat): (p: nat)
    ensures p >= 1
  {
    if k == 0 then 1 else 2 * Pow2(k - 1)
  }

  function And(a: nat, b: nat): nat {
    if a == 0 || b == 0 then 0 else (if a % 2 == 1 && b % 2 == 1 then 1 else 0) + 2 * And(a / 2, b / 2)
  }

  function Or(a: nat, b: nat): nat {
    if a == 0 then b
    else if b == 0 then a
    else (if a % 2 == 1 || b % 2 == 1 then 1 else 0) + 2 * Or(a / 2, b / 2)
  }

  /** Logical shift to the right. */
  function ShiftRight(a: nat, k: nat): nat {
    if k == 0 then a else ShiftRight(a / 2, k - 1)
  }

  function ShiftLeft(a: nat, k: nat): nat {
    if k == 0 then a else 2 * ShiftLeft(a, k - 1)
  }

  /** Shift to the left in a word of 32 bits: what leaves the word is lost. */
  function ShiftLeft32(a: nat, k: nat): nat {
    ShiftLeft(a, k) % 0x1_0000_0000
  }

  lemma {:induction false} Pow2Adds(j: nat, k: nat)
    ensures Pow2(j + k) == Pow2(j) * Pow2(k)
  {
    if j > 0 {
      Pow2Adds(j - 1, k);
      assert Pow2(j + k) == 2 * Pow2(j - 1 + k);
      assert 2 * (Pow2(j - 1) * Pow2(k)) == (2 * Pow2(j - 1)) * Pow2(k);
    }
  }

  lemma {:induction false} ShiftDivides(a: nat, k: nat)
    ensures ShiftRight(a, k) == a / Pow2(k)
  {
    if k == 0 {
      assert Pow2(0) == 1;
    } else {
      ShiftDivides(a / 2, k - 1);
      HalvesFirst(a, Pow2(k - 1));
    }
  }

  lemma {:induction false} ShiftMultiplies(a: nat, k: nat)
    ensures ShiftLeft(a, k) == a * Pow2(k)
  {
    if k == 0 {
      assert Pow2(0) == 1;
    } else {
      ShiftMultiplies(a, k - 1);
      assert a * (2 * Pow2(k - 1)) == 2 * (a * Pow2(k - 1));
    }
  }

  /** The single bit `k` of `b`. */
  lemma {:induction false} MaskBit(b: nat, k: nat)
    ensures And(b, Pow2(k)) == if b / Pow2(k) % 2 == 1 then Pow2(k) else 0
  {
    if b == 0 {
      HalvesFirst(0, Pow2(k));
    } else if k == 0 {
      assert Pow2(0) == 1 && And(b / 2, 0) == 0;
    } else {
      MaskBit(b / 2, k - 1);
      HalvesFirst(b, Pow2(k - 1));
    }
  }

  lemma {:induction false} MaskIsRemainder(a: nat, k: nat)
    ensures And(a, Pow2(k) - 1) == a % Pow2(k)
  {
    if k == 0 {
      assert Pow2(0) == 1;
    } else {
      MaskIsRemainder(a / 2, k - 1);
      var p := Pow2(k - 1);
      assert (2 * p - 1) / 2 == p - 1 && (2 * p - 1) % 2 == 1;
      HalvesFirst(a, p);
    }
  }

  lemma HalvesFirst(a: nat, p: nat)
    requires p >= 1
    ensures a % (2 * p) == a % 2 + 2 * ((a / 2) % p)
    ensures a / (2 * p) == a / 2 / p
  {
    var q, r := a / 2 / p, a / 2 % p;
    assert a == 2 * (q * p + r) + a % 2;
    QuotientIs(a, 2 * p, q, 2 * r + a % 2);
  }

  lemma QuotientIs(a: nat, m: nat, q: nat, r: nat)
    requires m >= 1 && a == q * m + r && r < m
    ensures a % m == r && a / m == q
  {
    var d := a / m - q;
    assert d * m == (a / m) * m - q * m;
    SmallMultiple(d, m);
  }

  lemma SmallMultiple(d: int, m: nat)
    requires d * m < m && 0 < d * m + m
    ensures d == 0
  {
  }

  /** An `or` of words with no common bit is a sum. */
  lemma {:induction false} OrIsSum(r: nat, g: nat, k: nat)
    requires r < Pow2(k)
    ensures Or(r, g * Pow2(k)) == r + g * Pow2(k)
  {
    if k == 0 || r == 0 || g == 0 {
    } else {
      var p := Pow2(k - 1);
      assert g * (2 * p) == 2 * (g * p);
      assert g * p > 0;
      OrIsSum(r / 2, g, k - 1);
    }
  }
}
