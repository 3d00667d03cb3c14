/** 32-bit words as numbers: what putting a byte below a word does to its value, bit by bit. */
module Numbers {
  import opened Bytes
  import opened Words

  function Value(w: bv32): nat {
    w as int
  }

  predicate IsBit(b: bv32) {
    b < 2
  }

  function AddBit(w: bv32, bit: bv32): bv32 {
    (w << 1) | bit
  }

  /** A byte put below a word. */
  function Append(w: bv32, b: bv32): bv32 {
    (w << 8) | b
  }

  lemma AddBitIs(w: bv32, bit: bv32)
    requires w < 0x8000_0000 && IsBit(bit)
    ensures Value(AddBit(w, bit)) == Value(w) * 2 + Value(bit)
  {
    if bit == 0 {
      AddZero(w);
    } else {
      assert bit == 1;
      AddOne(w);
    }
  }

  lemma AddZero(w: bv32)
    requires w < 0x8000_0000
    ensures ((w << 1) | 0) as int == w as int * 2
  {
    assert (w << 1) | 0 == w << 1;
  }

  lemma AddOne(w: bv32)
    requires w < 0x8000_0000
    ensures ((w << 1) | 1) as int == w as int * 2 + 1
  {
  }

  /** The bits of a byte, the highest first. */
  function BitsOf(b: bv32): (bits: seq<bv32>)
    ensures |bits| == 8
  {
    [b >> 7, (b >> 6) & 1, (b >> 5) & 1, (b >> 4) & 1, (b >> 3) & 1, (b >> 2) & 1, (b >> 1) & 1, b & 1]
  }

  /** The bits put below `w` one by one. */
  function AddBits(w: bv32, bits: seq<bv32>, n: nat): bv32
    requires n <= |bits|
  {
    if n == 0 then w else AddBit(AddBits(w, bits, n - 1), bits[n - 1])
  }

  /** A word is small enough to take `n` more bits. */
  predicate Takes(w: bv32, n: nat)
    requires n <= 8
  {
    match n
    case 0 => true
    case 1 => w < 0x8000_0000
    case 2 => w < 0x4000_0000
    case 3 => w < 0x2000_0000
    case 4 => w < 0x1000_0000
    case 5 => w < 0x800_0000
    case 6 => w < 0x400_0000
    case 7 => w < 0x200_0000
    case 8 => w < 0x100_0000
  }

  lemma TakesOne(w: bv32, bit: bv32, n: nat)
    requires 1 <= n <= 8 && Takes(w, n) && IsBit(bit)
    ensures w < 0x8000_0000 && Takes(AddBit(w, bit), n - 1)
  {
  }

  function Doubled(k: int, n: nat): int {
    if n == 0 then k else 2 * Doubled(k, n - 1)
  }

  lemma {:induction false} AddBitsIs(w: bv32, bits: seq<bv32>, n: nat)
    requires n <= |bits| == 8 && Takes(w, 8) && forall i :: 0 <= i < 8 ==> IsBit(bits[i])
    ensures Takes(AddBits(w, bits, n), 8 - n) && Takes(AddBits(0, bits, n), 8 - n)
    ensures Value(AddBits(w, bits, n)) == Doubled(Value(w), n) + Value(AddBits(0, bits, n))
  {
    hide Value, AddBit, Takes, IsBit;
    if n == 0 {
      ZeroTakes();
    } else {
      AddBitsIs(w, bits, n - 1);
      var before, zero := AddBits(w, bits, n - 1), AddBits(0, bits, n - 1);
      TakesOne(before, bits[n - 1], 9 - n);
      TakesOne(zero, bits[n - 1], 9 - n);
      AddBitIs(before, bits[n - 1]);
      AddBitIs(zero, bits[n - 1]);
    }
  }

  lemma ZeroTakes()
    ensures Takes(0, 8) && Value(0) == 0
  {
  }

  lemma ByteBits(w: bv32, b: bv32)
    requires w < 0x100_0000 && b < 256
    ensures AddBit(AddBit(AddBit(AddBit(AddBit(AddBit(AddBit(AddBit(w,
              b >> 7), (b >> 6) & 1), (b >> 5) & 1), (b >> 4) & 1),
              (b >> 3) & 1), (b >> 2) & 1), (b >> 1) & 1), b & 1) == Append(w, b)
  {
  }

  lemma SmallBits(b: bv32)
    requires b < 256
    ensures IsBit(b >> 7) && IsBit((b >> 6) & 1) && IsBit((b >> 5) & 1) && IsBit((b >> 4) & 1)
    ensures IsBit((b >> 3) & 1) && IsBit((b >> 2) & 1) && IsBit((b >> 1) & 1) && IsBit(b & 1)
  {
  }

  /** Putting the byte below the word is putting its bits there. */
  lemma AppendIsAddBits(w: bv32, b: bv32)
    requires w < 0x100_0000 && b < 256
    ensures AddBits(w, BitsOf(b), 8) == Append(w, b)
  {
    hide AddBit, Append;
    ByteBits(w, b);
    var bits := BitsOf(b);
    assert AddBits(w, bits, 1) == AddBit(w, bits[0]);
    assert AddBits(w, bits, 3) == AddBit(AddBit(AddBits(w, bits, 1), bits[1]), bits[2]);
    assert AddBits(w, bits, 5) == AddBit(AddBit(AddBits(w, bits, 3), bits[3]), bits[4]);
    assert AddBits(w, bits, 7) == AddBit(AddBit(AddBits(w, bits, 5), bits[5]), bits[6]);
  }

  lemma EightBits(b: bv32)
    requires b < 256
    ensures forall i :: 0 <= i < 8 ==> IsBit(BitsOf(b)[i])
  {
    hide IsBit;
    SmallBits(b);
    forall i | 0 <= i < 8
      ensures IsBit(BitsOf(b)[i])
    {
    }
  }

  lemma ByteTakes(w: bv32)
    ensures w < 0x100_0000 <==> Takes(w, 8)
  {
  }

  lemma AppendToZero(b: bv32)
    ensures Append(0, b) == b
  {
  }

  /** A byte put below a word is added to 256 times the word. */
  lemma AppendIs(w: bv32, b: bv32)
    requires w < 0x100_0000 && b < 256
    ensures Value(Append(w, b)) == Value(w) * 256 + Value(b)
  {
    hide Value, Append, AddBit, Takes, BitsOf, AddBits, IsBit;
    ByteTakes(w);
    EightBits(b);
    AddBitsIs(w, BitsOf(b), 8);
    AppendIsAddBits(w, b);
    ZeroIsSmall();
    AppendIsAddBits(0, b);
    AppendToZero(b);
    TimesTwoFiveSix(Value(w));
  }

  lemma ZeroIsSmall()
    ensures 0 as bv32 < 0x100_0000
  {
  }

  lemma TimesTwoFiveSix(k: int)
    ensures Doubled(k, 8) == k * 256
  {
    assert Doubled(k, 1) == k * 2;
    assert Doubled(k, 3) == k * 8;
    assert Doubled(k, 5) == k * 32;
    assert Doubled(k, 7) == k * 128;
  }

  /** Four bytes, the first one highest, are the number with those digits in base 256. */
  lemma BigEndianNumber(a: bv32, b: bv32, c: bv32, d: bv32)
    requires a < 256 && b < 256 && c < 256 && d < 256
    ensures Value(BigEndian(a, b, c, d))
         == ((Value(a) * 256 + Value(b)) * 256 + Value(c)) * 256 + Value(d)
  {
    hide BigEndian, Append, Value;
    OneByOne(a, b, c, d);
    AppendIs(a, b);
    AppendIs(Append(a, b), c);
    AppendIs(Append(Append(a, b), c), d);
  }

  lemma OneByOne(a: bv32, b: bv32, c: bv32, d: bv32)
    requires a < 256 && b < 256 && c < 256 && d < 256
    ensures BigEndian(a, b, c, d) == Append(Append(Append(a, b), c), d)
    ensures a < 0x100_0000 && Append(a, b) < 0x100_0000 && Append(Append(a, b), c) < 0x100_0000
  {
  }

  /** A byte as a word is the same number. */
  lemma ByteAsWord(b: Byte)
    ensures Value(b as bv32) == b
  {
    hide Value;
    var w := WordOf(b);
    SameWord(w, b);
  }

  lemma SameWord(w: bv32, b: Byte)
    requires Value(w) == b
    ensures w == b as bv32
  {
  }

  lemma {:induction false} WordOf(b: Byte) returns (w: bv32)
    ensures Value(w) == b && w < 256
  {
    if b == 0 {
      w := 0;
    } else {
      w := WordOf(b - 1);
      OneMore(w);
      w := w + 1;
    }
  }

  lemma OneMore(w: bv32)
    requires w < 256 && w as int < 255
    ensures (w + 1) as int == w as int + 1 && w + 1 < 256
  {
  }
}
