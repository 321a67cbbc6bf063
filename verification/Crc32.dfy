/** The CRC of section 8 of RFC 1952: one table lookup a byte, chained over split buffers. */
module Crc32 {
  import opened Bytes

  const POLYNOMIAL: bv32 := 0xedb8_8320

  function Xor(a: bv32, b: bv32): bv32 { a ^ b }
  function Not(a: bv32): bv32 { !a }
  function LowByte(a: bv32): bv32 { a & 0xff }
  function DropByte(a: bv32): bv32 { a >> 8 }

  /** One bit of the polynomial division. */
  function BitStep(c: bv32): bv32 {
    if c & 1 == 1 then POLYNOMIAL ^ (c >> 1) else c >> 1
  }

  function EightBits(c: bv32): bv32 {
    BitStep(BitStep(BitStep(BitStep(BitStep(BitStep(BitStep(BitStep(c))))))))
  }

  /** Entry `n` of the table of 256 entries. */
  function TableEntry(n: bv32): bv32 {
    EightBits(LowByte(n))
  }

  function ByteStep(c: bv32, b: byte): bv32 {
    Xor(TableEntry(Xor(c, (b as bv8) as bv32)), DropByte(c))
  }

  function Fold(c: bv32, bs: seq<byte>): bv32
    decreases |bs|
  {
    if bs == [] then c else Fold(ByteStep(c, bs[0]), bs[1..])
  }

  function Crc(crc: bv32, bs: seq<byte>): bv32 {
    Not(Fold(Not(crc), bs))
  }

  // ---- Chaining --------------------------------------------------------------------------------

  lemma {:induction false} FoldConcat(c: bv32, a: seq<byte>, b: seq<byte>)
    ensures Fold(c, a + b) == Fold(Fold(c, a), b)
    decreases |a|
  {
    hide ByteStep;
    if a == [] {
      assert a + b == b;
    } else {
      assert (a + b)[1..] == a[1..] + b;
      FoldConcat(ByteStep(c, a[0]), a[1..], b);
    }
  }

  lemma NotNot(x: bv32)
    ensures Not(Not(x)) == x
  {
  }

  /** The checksum of two parts, chained, is the checksum of the whole. */
  lemma {:induction false} CrcChained(crc: bv32, a: seq<byte>, b: seq<byte>)
    ensures Crc(Crc(crc, a), b) == Crc(crc, a + b)
  {
    hide Fold, Not;
    FoldConcat(Not(crc), a, b);
    NotNot(Fold(Not(crc), a));
  }

  // ---- The table against the division -----------------------------------------------------------

  lemma LowBitXor(x: bv32, y: bv32)
    ensures (x ^ y) & 1 == (x & 1) ^ (y & 1)
  {
  }

  lemma ShiftXor(x: bv32, y: bv32)
    ensures (x ^ y) >> 1 == (x >> 1) ^ (y >> 1)
  {
  }

  lemma LowBitValue(x: bv32)
    ensures x & 1 == 0 || x & 1 == 1
  {
  }

  lemma XorCancels(p: bv32, x: bv32, y: bv32)
    ensures (p ^ x) ^ (p ^ y) == x ^ y
  {
  }

  lemma XorMoves(p: bv32, x: bv32, y: bv32)
    ensures (p ^ x) ^ y == p ^ (x ^ y) == x ^ (p ^ y)
  {
  }

  lemma BitLinear(x: bv32, y: bv32)
    ensures BitStep(x ^ y) == BitStep(x) ^ BitStep(y)
  {
    ShiftXor(x, y);
    LowBitXor(x, y);
    LowBitValue(x);
    LowBitValue(y);
    XorCancels(POLYNOMIAL, x >> 1, y >> 1);
    XorMoves(POLYNOMIAL, x >> 1, y >> 1);
    if x & 1 == 0 {
      if y & 1 == 0 {
      } else {
      }
    } else {
      if y & 1 == 0 {
      } else {
      }
    }
  }

  lemma BitStepXor(x: bv32, y: bv32)
    ensures BitStep(Xor(x, y)) == Xor(BitStep(x), BitStep(y))
  {
    hide BitStep;
    BitLinear(x, y);
  }

  lemma EightLinear(x: bv32, y: bv32)
    ensures EightBits(Xor(x, y)) == Xor(EightBits(x), EightBits(y))
  {
    hide BitStep, Xor;
    var x1, y1 := BitStep(x), BitStep(y);
    var x2, y2 := BitStep(x1), BitStep(y1);
    var x3, y3 := BitStep(x2), BitStep(y2);
    var x4, y4 := BitStep(x3), BitStep(y3);
    var x5, y5 := BitStep(x4), BitStep(y4);
    var x6, y6 := BitStep(x5), BitStep(y5);
    BitStepXor(x, y);
    BitStepXor(x1, y1);
    BitStepXor(x2, y2);
    BitStepXor(x3, y3);
    BitStepXor(x4, y4);
    BitStepXor(x5, y5);
    BitStepXor(x6, y6);
    BitStepXor(BitStep(x6), BitStep(y6));
  }

  lemma HighBitsShift(h: bv32)
    requires LowByte(h) == 0
    ensures EightBits(h) == DropByte(h)
  {
    assert BitStep(h) == h >> 1;
    assert BitStep(h >> 1) == h >> 2;
    assert BitStep(h >> 2) == h >> 3;
    assert BitStep(h >> 3) == h >> 4;
    assert BitStep(h >> 4) == h >> 5;
    assert BitStep(h >> 5) == h >> 6;
    assert BitStep(h >> 6) == h >> 7;
    assert BitStep(h >> 7) == h >> 8;
  }

  lemma SplitLowByte(c: bv32) returns (hi: bv32)
    ensures c == Xor(LowByte(c), hi) && LowByte(hi) == 0 && DropByte(hi) == DropByte(c)
  {
    hi := c & 0xffff_ff00;
  }

  /** A table lookup does eight steps of the bit-by-bit division at once. */
  lemma TableIsDivision(c: bv32)
    ensures Xor(TableEntry(c), DropByte(c)) == EightBits(c)
  {
    var hi := SplitLowByte(c);
    EightLinear(LowByte(c), hi);
    HighBitsShift(hi);
    hide Xor, DropByte, LowByte, EightBits;
  }

  lemma ByteHasNoHighBits(c: bv32, b: bv8)
    ensures (c ^ (b as bv32)) >> 8 == c >> 8
  {
  }

  /** Each byte of input is eight steps of the division, so `Crc` is the checksum of section 8 of RFC 1952. */
  lemma ByteIsDivision(c: bv32, b: byte)
    ensures ByteStep(c, b) == EightBits(Xor(c, (b as bv8) as bv32))
  {
    ByteHasNoHighBits(c, b as bv8);
    TableIsDivision(Xor(c, (b as bv8) as bv32));
    hide EightBits, TableEntry;
  }

  // ---- The checksum from scratch ----------------------------------------------------------------

  /** The division bit by bit, with no table and no complement. */
  function Divide(c: bv32, bs: seq<byte>): bv32
    decreases |bs|
  {
    if bs == [] then c else Divide(EightBits(c ^ ((bs[0] as bv8) as bv32)), bs[1..])
  }

  lemma {:induction false} FoldIsDivision(c: bv32, bs: seq<byte>)
    ensures Fold(c, bs) == Divide(c, bs)
    decreases |bs|
  {
    hide ByteStep, EightBits;
    if bs != [] {
      ByteIsDivision(c, bs[0]);
      FoldIsDivision(ByteStep(c, bs[0]), bs[1..]);
    }
  }

  lemma AllBits(a: bv32)
    ensures Not(a) == a ^ 0xffff_ffff && Not(a) ^ 0xffff_ffff == a
  {
  }

  /** All bits are inverted before the division and after it. */
  lemma CrcIsDivision(crc: bv32, bs: seq<byte>)
    ensures Crc(crc, bs) ^ 0xffff_ffff == Divide(crc ^ 0xffff_ffff, bs)
  {
    hide Not, Fold, Divide;
    AllBits(crc);
    AllBits(Fold(Not(crc), bs));
    FoldIsDivision(Not(crc), bs);
  }

  lemma OneByte(c: bv32, b: byte, x: bv32, bs: seq<byte>)
    requires x == (b as bv8) as bv32
    ensures Divide(c, [b] + bs) == Divide(EightBits(c ^ x), bs)
  {
    hide EightBits;
    assert ([b] + bs)[1..] == bs;
  }

  lemma FromOne(bs: seq<byte>)
    ensures Divide(0xffff_ffff, [49, 50, 51] + bs) == Divide(0x77b7_9c2d, bs)
  {
    OneByte(0xffff_ffff, 49, 0x31, [50, 51] + bs);
    OneByte(0x7c23_1048, 50, 0x32, [51] + bs);
    OneByte(0xb0ac_bb32, 51, 0x33, bs);
    assert [49] + ([50, 51] + bs) == [49, 50, 51] + bs && [50] + ([51] + bs) == [50, 51] + bs;
    hide Divide;
    assert EightBits(0xffff_ffff ^ 0x31) == 0x7c23_1048;
    assert EightBits(0x7c23_1048 ^ 0x32) == 0xb0ac_bb32;
    assert EightBits(0xb0ac_bb32 ^ 0x33) == 0x77b7_9c2d;
  }

  lemma FromFour(bs: seq<byte>)
    ensures Divide(0x77b7_9c2d, [52, 53, 54] + bs) == Divide(0xf68d_2c9e, bs)
  {
    OneByte(0x77b7_9c2d, 52, 0x34, [53, 54] + bs);
    OneByte(0x641c_1f5c, 53, 0x35, [54] + bs);
    OneByte(0x340a_c5e3, 54, 0x36, bs);
    assert [52] + ([53, 54] + bs) == [52, 53, 54] + bs && [53] + ([54] + bs) == [53, 54] + bs;
    hide Divide;
    assert EightBits(0x77b7_9c2d ^ 0x34) == 0x641c_1f5c;
    assert EightBits(0x641c_1f5c ^ 0x35) == 0x340a_c5e3;
    assert EightBits(0x340a_c5e3 ^ 0x36) == 0xf68d_2c9e;
  }

  lemma FromSeven(bs: seq<byte>)
    ensures Divide(0xf68d_2c9e, [55, 56, 57] + bs) == Divide(0x340b_c6d9, bs)
  {
    OneByte(0xf68d_2c9e, 55, 0x37, [56, 57] + bs);
    OneByte(0xaffc_9660, 56, 0x38, [57] + bs);
    OneByte(0x651f_2550, 57, 0x39, bs);
    assert [55] + ([56, 57] + bs) == [55, 56, 57] + bs && [56] + ([57] + bs) == [56, 57] + bs;
    hide Divide;
    assert EightBits(0xf68d_2c9e ^ 0x37) == 0xaffc_9660;
    assert EightBits(0xaffc_9660 ^ 0x38) == 0x651f_2550;
    assert EightBits(0x651f_2550 ^ 0x39) == 0x340b_c6d9;
  }

  lemma NoBytes(c: bv32)
    ensures Divide(c, []) == c
  {
  }

  lemma DivideDigits(digits: seq<byte>)
    requires digits == [49, 50, 51, 52, 53, 54, 55, 56, 57]
    ensures Divide(0xffff_ffff, digits) == 0x340b_c6d9
  {
    hide Divide;
    var back: seq<byte>, last: seq<byte> := [52, 53, 54, 55, 56, 57], [55, 56, 57];
    FromOne(back);
    FromFour(last);
    FromSeven([]);
    NoBytes(0x340b_c6d9);
    assert digits == [49, 50, 51] + back && back == [52, 53, 54] + last && last == [55, 56, 57] + [];
  }

  /** The check value of this checksum: that of the digits 1 to 9. */
  lemma CheckValue()
    ensures Crc(0, [49, 50, 51, 52, 53, 54, 55, 56, 57]) == 0xcbf4_3926
  {
    hide Crc, Divide;
    var digits: seq<byte> := [49, 50, 51, 52, 53, 54, 55, 56, 57];
    CrcIsDivision(0, digits);
    DivideDigits(digits);
    Twice(Crc(0, digits));
  }

  lemma Twice(a: bv32)
    ensures (a ^ 0xffff_ffff) ^ 0xffff_ffff == a
  {
  }
}
