/** Bit-mask helpers shared by the LED and button code: the 8-bit row masks of
    main.cpp are bv8 values, and "bit k is set" is `m & (1 << k) != 0`. */
module Bits {

  /** An unsigned 8-bit value used as a number (a field of a message). */
  type Byte = x: nat | x < 256

  /** Bit k of the 8-bit mask m is set (the source's `m & (1 << k)` test). */
  predicate Bit(m: bv8, k: nat)
    requires k < 8
  {
    m & (1 << k) != 0
  }

  /** Bit k of the 16-bit word w is set. */
  predicate Bit16(w: bv16, k: nat)
    requires k < 16
  {
    w & (1 << k) != 0
  }

  /** Two different one-bit masks share no bit. */
  lemma MaskDisjoint(j: nat, k: nat)
    requires j < 8 && k < 8 && j != k
    ensures (1 as bv8 << j) & (1 << k) == 0
  {
  }

  /** Clearing, and optionally setting, the bits of a does not touch a bit
      outside a. */
  lemma ClearSetOther(m: bv8, a: bv8, b: bv8, on: bool)
    requires a & b == 0
    ensures ((if on then (m & !a) | a else m & !a) & b != 0) == (m & b != 0)
  {
  }

  lemma WithBitOthers(m: bv8, k: nat, on: bool)
    requires k < 8
    ensures forall j :: 0 <= j < 8 && j != k ==>
      Bit(if on then (m & !(1 << k)) | (1 << k) else m & !(1 << k), j) == Bit(m, j)
  {
    forall j | 0 <= j < 8 && j != k
      ensures Bit(if on then (m & !(1 << k)) | (1 << k) else m & !(1 << k), j) == Bit(m, j)
    {
      MaskDisjoint(j, k);
      ClearSetOther(m, 1 << k, 1 << j, on);
    }
  }

  /** `1 << k` is a one-bit mask. */
  lemma OneBit(k: nat)
    requires k < 8
    ensures (1 as bv8 << k) != 0 && (1 as bv8 << k) & ((1 as bv8 << k) - 1) == 0
  {
  }

  /** A one-bit mask meets the complement of m exactly when it misses m. */
  lemma ComplementOneBit(m: bv8, a: bv8)
    requires a != 0 && a & (a - 1) == 0
    ensures (!m & a != 0) == (m & a == 0)
  {
  }

  /** The complement flips every bit. */
  lemma Complement(m: bv8)
    ensures forall k :: 0 <= k < 8 ==> Bit(!m, k) == !Bit(m, k)
  {
    forall k | 0 <= k < 8
      ensures Bit(!m, k) == !Bit(m, k)
    {
      OneBit(k);
      ComplementOneBit(m, 1 << k);
    }
  }

  /** A one-bit mask that meets `d ^ last` meets d exactly when it misses last. */
  lemma XorOneBit(d: bv8, last: bv8, a: bv8)
    requires a != 0 && a & (a - 1) == 0
    ensures (d ^ last) & a != 0 ==> ((d & a != 0) <==> (last & a == 0))
  {
  }

  /** A bit of `d ^ last` that is set and clear in last is set in d. */
  lemma XorBit(d: bv8, last: bv8, k: nat)
    requires k < 8
    ensures Bit(d ^ last, k) ==> (Bit(d, k) <==> !Bit(last, k))
  {
    OneBit(k);
    XorOneBit(d, last, 1 << k);
  }

  /** The mask m with bit k cleared and then set again when `on` holds:
      `m &= ~(1 << k)` followed by an optional `m |= (1 << k)`. */
  function WithBit(m: bv8, k: nat, on: bool): (r: bv8)
    requires k < 8
    ensures Bit(r, k) == on
    ensures forall j :: 0 <= j < 8 && j != k ==> Bit(r, j) == Bit(m, j)
  {
    WithBitOthers(m, k, on);
    var cleared := m & !(1 << k);
    if on then cleared | (1 << k) else cleared
  }
}
