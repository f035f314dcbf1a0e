/** The bit reversal `bitrotate` used by the mirrored back-reference command
    (defined twice in the original, once for each direction of the codec). */
module Bits {
  import opened Types

  /** The eight tests of the original: bit 7 of the input sets bit 0 of the
      output, bit 6 sets bit 1, and so on down to bit 0, which sets bit 7. */
  function Rot8(b: bv8): bv8
  {
    (if b & 0x80 != 0 then 0x01 else 0) | (if b & 0x40 != 0 then 0x02 else 0) |
    (if b & 0x20 != 0 then 0x04 else 0) | (if b & 0x10 != 0 then 0x08 else 0) |
    (if b & 0x08 != 0 then 0x10 else 0) | (if b & 0x04 != 0 then 0x20 else 0) |
    (if b & 0x02 != 0 then 0x40 else 0) | (if b & 0x01 != 0 then 0x80 else 0)
  }

  function BitRotate(x: Byte): Byte
  {
    Rot8(x as bv8) as int
  }

  /** Bit `k` (0 = least significant) of a bit-vector byte. */
  predicate BitOf(b: bv8, k: nat)
    requires k < 8
  {
    (b >> k) & 1 == 1
  }

  /** Bit `k` of a byte. */
  predicate Bit(x: Byte, k: nat)
    requires k < 8
  {
    BitOf(x as bv8, k)
  }

  lemma Rot8MirrorsBits(b: bv8, k: nat)
    requires k < 8
    ensures BitOf(Rot8(b), k) == BitOf(b, 7 - k)
  {
  }

  lemma Rot8Involution(b: bv8)
    ensures Rot8(Rot8(b)) == b
  {
  }

  /** `BitRotate` moves bit k of its input to bit 7 - k. */
  lemma BitRotateMirrorsBits(x: Byte, k: nat)
    requires k < 8
    ensures Bit(BitRotate(x), k) == Bit(x, 7 - k)
  {
    var r := Rot8(x as bv8);
    Bv8ToByte(r);
    assert (BitRotate(x) as bv8) == r;
    Rot8MirrorsBits(x as bv8, k);
  }

  /** Reversing twice gives the byte back. */
  lemma BitRotateInvolution(x: Byte)
    ensures BitRotate(BitRotate(x)) == x
  {
    Bv8ToByte(Rot8(x as bv8));
    Rot8Involution(x as bv8);
    ByteToBv8(x);
  }

  /** Hence `BitRotate` is a bijection on 0..255. */
  lemma BitRotateBijective(x: Byte, y: Byte)
    ensures BitRotate(x) == BitRotate(y) <==> x == y
    ensures BitRotate(BitRotate(y)) == y
  {
    BitRotateInvolution(x);
    BitRotateInvolution(y);
  }
}
