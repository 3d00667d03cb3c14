/** 32-bit words: put together from bytes, taken apart in the network's order, and masked. */
module Words {

  function Or(a: bv32, b: bv32): bv32 {
    a | b
  }

  /** A byte at its place in the word: shifted left by `8 * i`. */
  function Shifted(b: bv32, i: nat): bv32
    requires i < 4
  {
    if i == 0 then b else if i == 1 then b << 8 else if i == 2 then b << 16 else b << 24
  }

  /** `ntohl` on a little-endian host: the four bytes in reverse. */
  function NetworkToHost(v: bv32): bv32 {
    ((v & 0xff) << 24) | ((v & 0xff00) << 8) | ((v >> 8) & 0xff00) | (v >> 24)
  }

  /** Four bytes, the first one lowest. */
  function LittleEndian(a: bv32, b: bv32, c: bv32, d: bv32): bv32 {
    a | (b << 8) | (c << 16) | (d << 24)
  }

  /** Four bytes, the first one highest. */
  function BigEndian(a: bv32, b: bv32, c: bv32, d: bv32): bv32 {
    (a << 24) | (b << 16) | (c << 8) | d
  }

  lemma SwapIsBigEndian(a: bv32, b: bv32, c: bv32, d: bv32)
    requires a < 256 && b < 256 && c < 256 && d < 256
    ensures NetworkToHost(LittleEndian(a, b, c, d)) == BigEndian(a, b, c, d)
  {
  }

  /** Adding the bytes one by one. */
  lemma NoByte()
    ensures LittleEndian(0, 0, 0, 0) == 0
  {
  }

  lemma FirstByte(a: bv32)
    ensures Or(LittleEndian(0, 0, 0, 0), Shifted(a, 0)) == LittleEndian(a, 0, 0, 0)
  {
  }

  lemma SecondByte(a: bv32, b: bv32)
    ensures Or(LittleEndian(a, 0, 0, 0), Shifted(b, 1)) == LittleEndian(a, b, 0, 0)
  {
  }

  lemma ThirdByte(a: bv32, b: bv32, c: bv32)
    ensures Or(LittleEndian(a, b, 0, 0), Shifted(c, 2)) == LittleEndian(a, b, c, 0)
  {
  }

  lemma FourthByte(a: bv32, b: bv32, c: bv32, d: bv32)
    ensures Or(LittleEndian(a, b, c, 0), Shifted(d, 3)) == LittleEndian(a, b, c, d)
  {
  }

  // ----- Single bits

  function And(a: bv32, b: bv32): bv32 {
    a & b
  }

  predicate SingleBit(mask: bv32) {
    mask != 0 && mask & (mask - 1) == 0
  }

  predicate HasBit(word: bv32, mask: bv32) {
    word & mask != 0
  }

  /** The single bits are the 32 powers of two. */
  lemma SingleBits(mask: bv32)
    ensures SingleBit(mask) <==>
      mask in {0x1, 0x2, 0x4, 0x8, 0x10, 0x20, 0x40, 0x80, 0x100, 0x200, 0x400, 0x800,
               0x1000, 0x2000, 0x4000, 0x8000, 0x1_0000, 0x2_0000, 0x4_0000, 0x8_0000,
               0x10_0000, 0x20_0000, 0x40_0000, 0x80_0000, 0x100_0000, 0x200_0000, 0x400_0000,
               0x800_0000, 0x1000_0000, 0x2000_0000, 0x4000_0000, 0x8000_0000}
  {
  }

  /** A bit is in `a | b` iff it is in one of them. */
  lemma BitOfEither(a: bv32, b: bv32, mask: bv32)
    ensures HasBit(Or(a, b), mask) <==> HasBit(a, mask) || HasBit(b, mask)
  {
    assert (a | b) & mask == (a & mask) | (b & mask);
    EitherIsZero(a & mask, b & mask);
  }

  lemma EitherIsZero(a: bv32, b: bv32)
    ensures a | b == 0 <==> a == 0 && b == 0
  {
  }

  lemma OneBitOfWord(word: bv32, mask: bv32)
    requires SingleBit(mask)
    ensures And(word, mask) == word & mask == if HasBit(word, mask) then mask else 0
  {
  }

  lemma OwnBit(mask: bv32)
    requires SingleBit(mask)
    ensures HasBit(mask, mask)
  {
  }

  lemma AndOverOr(word: bv32, a: bv32, b: bv32)
    ensures And(word, Or(a, b)) == Or(And(word, a), And(word, b))
  {
  }

  lemma AndZero(a: bv32)
    ensures And(0, a) == 0 == And(a, 0)
  {
  }
}
