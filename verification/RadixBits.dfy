/** Keys of the routing trie as strings of bits, most significant bit of each byte first. */
module RadixBits {

  type Byte = bv8
  type Key = seq<Byte>

  /** 0x80 >> j. */
  function BitMask(j: nat): Byte {
    if j == 0 then 0x80 else if j == 1 then 0x40 else if j == 2 then 0x20 else if j == 3 then 0x10
    else if j == 4 then 0x08 else if j == 5 then 0x04 else if j == 6 then 0x02 else 0x01
  }

  predicate ByteBit(x: Byte, j: nat) {
    x & BitMask(j) != 0
  }

  /** Bit i of the key. */
  predicate Bit(k: Key, i: nat)
    requires i < 8 * |k|
  {
    ByteBit(k[i / 8], i % 8)
  }

  /** The number of times a byte can be shifted right before it is zero. */
  function BitLength(d: Byte): (n: nat)
    ensures n <= 8 && (n == 0 <==> d == 0)
  {
    if d == 0 then 0 else if d < 0x02 then 1 else if d < 0x04 then 2 else if d < 0x08 then 3
    else if d < 0x10 then 4 else if d < 0x20 then 5 else if d < 0x40 then 6 else if d < 0x80 then 7 else 8
  }

  lemma ShiftShortens(d: Byte)
    requires d != 0
    ensures BitLength(d >> 1) == BitLength(d) - 1
  {
  }

  /** The shift loops of rn_insert and rn_match find the first bit in which two bytes differ. */
  lemma FirstDifference(x: Byte, y: Byte, j: nat)
    requires x != y && j == 8 - BitLength(x ^ y)
    ensures j < 8 && ByteBit(x, j) != ByteBit(y, j)
    ensures forall i | 0 <= i < j :: ByteBit(x, i) == ByteBit(y, i)
  {
    assert x ^ y != 0;
    forall i | 0 <= i < j ensures ByteBit(x, i) == ByteBit(y, i) {
      SameAbove(x, y, i);
    }
    DiffersAt(x, y);
  }

  lemma SameAbove(x: Byte, y: Byte, i: nat)
    requires i < 8 - BitLength(x ^ y)
    ensures ByteBit(x, i) == ByteBit(y, i)
  {
  }

  lemma DiffersAt(x: Byte, y: Byte)
    requires x ^ y != 0
    ensures ByteBit(x, 8 - BitLength(x ^ y)) != ByteBit(y, 8 - BitLength(x ^ y))
  {
  }

  lemma SameBits(x: Byte, y: Byte)
    requires forall i | 0 <= i < 8 :: ByteBit(x, i) == ByteBit(y, i)
    ensures x == y
  {
    assert ByteBit(x, 0) == ByteBit(y, 0) && ByteBit(x, 1) == ByteBit(y, 1) && ByteBit(x, 2) == ByteBit(y, 2) && ByteBit(x, 3) == ByteBit(y, 3);
    assert ByteBit(x, 4) == ByteBit(y, 4) && ByteBit(x, 5) == ByteBit(y, 5) && ByteBit(x, 6) == ByteBit(y, 6) && ByteBit(x, 7) == ByteBit(y, 7);
  }
}
