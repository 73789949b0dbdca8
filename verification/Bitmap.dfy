/** The erased-block bitmap: one bit per erase block of the slot a session may change. */
module Bitmap {
  import opened Bytes
  import opened Geometry

  /** One bit per erase block of a slot. */
  function BitmapBytes(c: Config): nat
    requires c.eraseBlock > 0
  {
    (c.slotSize / c.eraseBlock + 7) / 8
  }

  function Mask(k: nat): Byte
    requires k < 8
  {
    1 << k
  }

  predicate BitSet(x: Byte, k: nat)
    requires k < 8
  {
    x & Mask(k) != 0
  }

  function SetBit(x: Byte, k: nat): Byte
    requires k < 8
  {
    x | Mask(k)
  }

  lemma MaskValue(k: nat)
    requires k < 8
    ensures Mask(k) == [1, 2, 4, 8, 16, 32, 64, 128][k]
  {
  }

  lemma SetBitSets(x: Byte, k: nat, j: nat)
    requires k < 8 && j < 8
    ensures BitSet(SetBit(x, k), j) <==> j == k || BitSet(x, j)
  {
    hide Mask;
    MaskValue(k);
    MaskValue(j);
  }

  /** The set of bit positions a byte array marks. */
  function Bits(s: Bytes): set<nat> {
    set b: nat | b < 8 * |s| && BitSet(s[b / 8], b % 8)
  }

  lemma BitsMark(s: Bytes, b: nat)
    requires b / 8 < |s|
    ensures Bits(s[b / 8 := SetBit(s[b / 8], b % 8)]) == Bits(s) + {b}
  {
    hide SetBit, BitSet;
    var t := s[b / 8 := SetBit(s[b / 8], b % 8)];
    forall j: nat | j < 8 * |s|
      ensures BitSet(t[j / 8], j % 8) <==> j == b || BitSet(s[j / 8], j % 8)
    {
      SetBitSets(s[b / 8], b % 8, j % 8);
    }
  }

}
