/**
 * Octets. A byte is the natural number it stands for; exclusive-or acts on
 * its binary digits, and masking on its eight bits.
 */
module Bytes {

  /** An octet, 0 to 255. */
  newtype Byte = x: int | 0 <= x < 0x100

  function Pow2(k: nat): (p: nat)
    ensures p >= 1
  {
    if k == 0 then 1 else 2 * Pow2(k - 1)
  }

  /** Bitwise exclusive-or of two naturals, lowest binary digit first. */
  function BitXor(a: nat, b: nat): nat
    decreases a
  {
    if a == 0 then b
    else if b == 0 then a
    else (if a % 2 == b % 2 then 0 else 1) + 2 * BitXor(a / 2, b / 2)
  }

  /** Exclusive-or of two k-digit numbers has at most k digits. */
  lemma {:induction false} BitXorBound(a: nat, b: nat, k: nat)
    requires a < Pow2(k) && b < Pow2(k)
    ensures BitXor(a, b) < Pow2(k)
    decreases a
  {
    if a != 0 && b != 0 {
      BitXorBound(a / 2, b / 2, k - 1);
    }
  }

  /** a ^ b on octets. */
  function XorByte(a: Byte, b: Byte): Byte {
    BitXorBound(a as nat, b as nat, 8);
    BitXor(a as nat, b as nat) as Byte
  }

  /** a & b on octets, through their eight bits. */
  function AndByte(a: Byte, b: Byte): Byte {
    ((a as bv8) & (b as bv8)) as int as Byte
  }

  /** Zero is the identity of exclusive-or, on either side. */
  lemma XorZero(b: Byte)
    ensures XorByte(0, b) == b && XorByte(b, 0) == b
  {
  }
}
