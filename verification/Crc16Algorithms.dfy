/** The table-driven CRC-16 algorithms of crypt_crc.c and the Python calc_crc. */
module Crc16Algorithms {
  import opened Prelude
  import opened Octets
  import opened Crc16

  /** crc_ta_8 and crctable, sixteen entries a row. */
  const CRC_TA_8: seq<seq<bv16>> := [
    [0x0000, 0x1021, 0x2042, 0x3063, 0x4084, 0x50a5, 0x60c6, 0x70e7,
     0x8108, 0x9129, 0xa14a, 0xb16b, 0xc18c, 0xd1ad, 0xe1ce, 0xf1ef],
    [0x1231, 0x0210, 0x3273, 0x2252, 0x52b5, 0x4294, 0x72f7, 0x62d6,
     0x9339, 0x8318, 0xb37b, 0xa35a, 0xd3bd, 0xc39c, 0xf3ff, 0xe3de],
    [0x2462, 0x3443, 0x0420, 0x1401, 0x64e6, 0x74c7, 0x44a4, 0x5485,
     0xa56a, 0xb54b, 0x8528, 0x9509, 0xe5ee, 0xf5cf, 0xc5ac, 0xd58d],
    [0x3653, 0x2672, 0x1611, 0x0630, 0x76d7, 0x66f6, 0x5695, 0x46b4,
     0xb75b, 0xa77a, 0x9719, 0x8738, 0xf7df, 0xe7fe, 0xd79d, 0xc7bc],
    [0x48c4, 0x58e5, 0x6886, 0x78a7, 0x0840, 0x1861, 0x2802, 0x3823,
     0xc9cc, 0xd9ed, 0xe98e, 0xf9af, 0x8948, 0x9969, 0xa90a, 0xb92b],
    [0x5af5, 0x4ad4, 0x7ab7, 0x6a96, 0x1a71, 0x0a50, 0x3a33, 0x2a12,
     0xdbfd, 0xcbdc, 0xfbbf, 0xeb9e, 0x9b79, 0x8b58, 0xbb3b, 0xab1a],
    [0x6ca6, 0x7c87, 0x4ce4, 0x5cc5, 0x2c22, 0x3c03, 0x0c60, 0x1c41,
     0xedae, 0xfd8f, 0xcdec, 0xddcd, 0xad2a, 0xbd0b, 0x8d68, 0x9d49],
    [0x7e97, 0x6eb6, 0x5ed5, 0x4ef4, 0x3e13, 0x2e32, 0x1e51, 0x0e70,
     0xff9f, 0xefbe, 0xdfdd, 0xcffc, 0xbf1b, 0xaf3a, 0x9f59, 0x8f78],
    [0x9188, 0x81a9, 0xb1ca, 0xa1eb, 0xd10c, 0xc12d, 0xf14e, 0xe16f,
     0x1080, 0x00a1, 0x30c2, 0x20e3, 0x5004, 0x4025, 0x7046, 0x6067],
    [0x83b9, 0x9398, 0xa3fb, 0xb3da, 0xc33d, 0xd31c, 0xe37f, 0xf35e,
     0x02b1, 0x1290, 0x22f3, 0x32d2, 0x4235, 0x5214, 0x6277, 0x7256],
    [0xb5ea, 0xa5cb, 0x95a8, 0x8589, 0xf56e, 0xe54f, 0xd52c, 0xc50d,
     0x34e2, 0x24c3, 0x14a0, 0x0481, 0x7466, 0x6447, 0x5424, 0x4405],
    [0xa7db, 0xb7fa, 0x8799, 0x97b8, 0xe75f, 0xf77e, 0xc71d, 0xd73c,
     0x26d3, 0x36f2, 0x0691, 0x16b0, 0x6657, 0x7676, 0x4615, 0x5634],
    [0xd94c, 0xc96d, 0xf90e, 0xe92f, 0x99c8, 0x89e9, 0xb98a, 0xa9ab,
     0x5844, 0x4865, 0x7806, 0x6827, 0x18c0, 0x08e1, 0x3882, 0x28a3],
    [0xcb7d, 0xdb5c, 0xeb3f, 0xfb1e, 0x8bf9, 0x9bd8, 0xabbb, 0xbb9a,
     0x4a75, 0x5a54, 0x6a37, 0x7a16, 0x0af1, 0x1ad0, 0x2ab3, 0x3a92],
    [0xfd2e, 0xed0f, 0xdd6c, 0xcd4d, 0xbdaa, 0xad8b, 0x9de8, 0x8dc9,
     0x7c26, 0x6c07, 0x5c64, 0x4c45, 0x3ca2, 0x2c83, 0x1ce0, 0x0cc1],
    [0xef1f, 0xff3e, 0xcf5d, 0xdf7c, 0xaf9b, 0xbfba, 0x8fd9, 0x9ff8,
     0x6e17, 0x7e36, 0x4e55, 0x5e74, 0x2e93, 0x3eb2, 0x0ed1, 0x1ef0]
  ]

  /** crc_ta_4. */
  const CRC_TA_4: seq<bv16> := [
    0x0000, 0x1021, 0x2042, 0x3063, 0x4084, 0x50a5, 0x60c6, 0x70e7,
    0x8108, 0x9129, 0xa14a, 0xb16b, 0xc18c, 0xd1ad, 0xe1ce, 0xf1ef]

  function Table8(i: bv8): bv16 { CRC_TA_8[(i >> 4) as int][(i & 0x0F) as int] }

  function Shift4(c: bv16): bv16 { Shift(Shift(Shift(Shift(c)))) }

  lemma FourShifts(c: bv16)
    ensures Shifts(4, c) == Shift4(c)
  {
    hide Shift;
    assert Shifts(1, c) == Shift(Shifts(0, c)) && Shifts(2, c) == Shift(Shifts(1, c));
    assert Shifts(3, c) == Shift(Shifts(2, c)) && Shifts(4, c) == Shift(Shifts(3, c));
  }

  lemma {:induction false} ShiftsAdd(j: nat, k: nat, c: bv16)
    ensures Shifts(j + k, c) == Shifts(j, Shifts(k, c))
  {
    hide Shift;
    if j > 0 {
      ShiftsAdd(j - 1, k, c);
    }
  }

  lemma TableRows0(i: bv8)
    requires i >> 6 == 0
    ensures Table8(i) == Shift4(Shift4(High(i)))
  {
    if i >> 4 == 0 {
      assert Table8(i) == CRC_TA_8[0][(i & 0x0F) as int];
    } else if i >> 4 == 1 {
      assert Table8(i) == CRC_TA_8[1][(i & 0x0F) as int];
    } else if i >> 4 == 2 {
      assert Table8(i) == CRC_TA_8[2][(i & 0x0F) as int];
    } else {
      assert Table8(i) == CRC_TA_8[3][(i & 0x0F) as int];
    }
  }

  lemma TableRows4(i: bv8)
    requires i >> 6 == 1
    ensures Table8(i) == Shift4(Shift4(High(i)))
  {
    if i >> 4 == 4 {
      assert Table8(i) == CRC_TA_8[4][(i & 0x0F) as int];
    } else if i >> 4 == 5 {
      assert Table8(i) == CRC_TA_8[5][(i & 0x0F) as int];
    } else if i >> 4 == 6 {
      assert Table8(i) == CRC_TA_8[6][(i & 0x0F) as int];
    } else {
      assert Table8(i) == CRC_TA_8[7][(i & 0x0F) as int];
    }
  }

  lemma TableRows8(i: bv8)
    requires i >> 6 == 2
    ensures Table8(i) == Shift4(Shift4(High(i)))
  {
    if i >> 4 == 8 {
      assert Table8(i) == CRC_TA_8[8][(i & 0x0F) as int];
    } else if i >> 4 == 9 {
      assert Table8(i) == CRC_TA_8[9][(i & 0x0F) as int];
    } else if i >> 4 == 10 {
      assert Table8(i) == CRC_TA_8[10][(i & 0x0F) as int];
    } else {
      assert Table8(i) == CRC_TA_8[11][(i & 0x0F) as int];
    }
  }

  lemma TableRows12(i: bv8)
    requires i >> 6 == 3
    ensures Table8(i) == Shift4(Shift4(High(i)))
  {
    if i >> 4 == 12 {
      assert Table8(i) == CRC_TA_8[12][(i & 0x0F) as int];
    } else if i >> 4 == 13 {
      assert Table8(i) == CRC_TA_8[13][(i & 0x0F) as int];
    } else if i >> 4 == 14 {
      assert Table8(i) == CRC_TA_8[14][(i & 0x0F) as int];
    } else {
      assert Table8(i) == CRC_TA_8[15][(i & 0x0F) as int];
    }
  }

  /** Every entry of the byte table is its index shifted out of the top of the register. */
  lemma TableEntry(i: bv8)
    ensures Table8(i) == Shifts(8, High(i))
  {
    hide Table8, Shift4;
    if i >> 6 == 0 {
      TableRows0(i);
    } else if i >> 6 == 1 {
      TableRows4(i);
    } else if i >> 6 == 2 {
      TableRows8(i);
    } else {
      TableRows12(i);
    }
    FourShifts(High(i));
    FourShifts(Shifts(4, High(i)));
    ShiftsAdd(4, 4, High(i));
  }

  // ---------------------------------------------------------------- one octet by table

  function HighByte(c: bv16): bv8 { (c >> 8) as bv8 }

  lemma SplitHigh(c: bv16, b: bv8)
    ensures Xor(c, High(b)) == Xor(High(HighByte(c) ^ b), c & 0xFF)
    ensures TopBits(b, 8) == High(b)
  {
    assert BitMask(6) == 0x02 && BitMask(7) == 0x01;
    assert TopMask(8) == 0xFF00;
  }

  lemma ShiftLow4(c: bv16)
    requires c & 0xF000 == 0
    ensures Shift4(c) == c << 4
  {
  }

  lemma ShiftLow8(c: bv16)
    ensures Shifts(8, c & 0xFF) == c << 8
  {
    var lo := c & 0xFF;
    assert Shift4(lo) == lo << 4 && Shift4(lo << 4) == c << 8 by {
      ShiftLow4(lo);
      ShiftLow4(lo << 4);
      assert (lo << 4) << 4 == c << 8;
    }
    hide Shift4;
    FourShifts(lo);
    FourShifts(lo << 4);
    ShiftsAdd(4, 4, lo);
  }

  /** The byte-table step feeds one octet. */
  lemma FeedByte(c: bv16, b: bv8)
    ensures Feed(c, ByteBits(b)) == Xor(c << 8, Table8(HighByte(c) ^ b))
  {
    hide Xor, Table8, High, ByteBits, Shift, TopBits, HighByte;
    FeedAligned(c, ByteBits(b));
    AlignedPrefix(b, 8);
    assert ByteBits(b)[..8] == ByteBits(b);
    SplitHigh(c, b);
    ShiftsXor(8, High(HighByte(c) ^ b), c & 0xFF);
    TableEntry(HighByte(c) ^ b);
    ShiftLow8(c);
    XorLaws(c << 8, Table8(HighByte(c) ^ b), 0);
  }

  // ---------------------------------------------------------------- four bits by table

  function TopNibble(n: bv8): bv16 { (n as bv16) << 12 }

  function HighNibble(c: bv16): bv8 { (c >> 12) as bv8 }

  lemma NibbleEntry(n: bv8)
    requires n < 16
    ensures CRC_TA_4[n as int] == Shifts(4, TopNibble(n))
  {
    FourShifts(TopNibble(n));
    assert CRC_TA_4[n as int] == Shift4(TopNibble(n));
  }

  lemma SplitNibble(c: bv16, n: bv8)
    requires n < 16
    ensures HighNibble(c) ^ n < 16
    ensures Xor(c, TopNibble(n)) == Xor(TopNibble(HighNibble(c) ^ n), c & 0x0FFF)
  {
  }

  function UpperHalf(b: bv8): bv8 { b / 16 }

  function LowerHalf(b: bv8): bv8 { b & 0x0F }

  /** One table step of crc_cal_by_halfbyte. */
  function HalfByteStep(c: bv16, n: bv8): bv16
    requires n < 16
  {
    SplitNibble(c, n);
    Xor(c << 4, CRC_TA_4[(HighNibble(c) ^ n) as int])
  }

  lemma NibbleBits(b: bv8)
    ensures TopBits(b, 4) == TopNibble(UpperHalf(b)) && UpperHalf(b) < 16 && LowerHalf(b) < 16
    ensures ByteBits(b)[4..] == ByteBits(b << 4)[..4]
    ensures UpperHalf(b << 4) == LowerHalf(b)
  {
    assert UpperHalf(b) == b >> 4;
    assert UpperHalf(b << 4) == (b << 4) >> 4;
    assert BitMask(3) == 0x10;
    assert TopMask(4) == 0xF000;
  }

  /** The half-byte-table step feeds four bits. */
  lemma FeedNibble(c: bv16, bits: seq<bool>, n: bv8)
    requires |bits| == 4 && n < 16 && Aligned(bits) == TopNibble(n)
    ensures Feed(c, bits) == HalfByteStep(c, n)
  {
    hide Xor, TopNibble, Shift, HighNibble;
    FeedAligned(c, bits);
    SplitNibble(c, n);
    ShiftsXor(4, TopNibble(HighNibble(c) ^ n), c & 0x0FFF);
    NibbleEntry(HighNibble(c) ^ n);
    ShiftLow4(c & 0x0FFF);
    FourShifts(c & 0x0FFF);
    assert (c & 0x0FFF) << 4 == c << 4;
    XorLaws(c << 4, CRC_TA_4[(HighNibble(c) ^ n) as int], 0);
  }

  lemma FeedTwoNibbles(c: bv16, b: bv8)
    ensures Feed(c, ByteBits(b)) == Feed(Feed(c, ByteBits(b)[..4]), ByteBits(b)[4..])
    ensures Aligned(ByteBits(b)[..4]) == TopNibble(UpperHalf(b))
    ensures Aligned(ByteBits(b)[4..]) == TopNibble(LowerHalf(b))
  {
    hide TopNibble, ByteBits, TopBits, UpperHalf, LowerHalf;
    assert ByteBits(b) == ByteBits(b)[..4] + ByteBits(b)[4..];
    FeedAppend(c, ByteBits(b)[..4], ByteBits(b)[4..]);
    NibbleBits(b);
    NibbleBits(b << 4);
    AlignedPrefix(b, 4);
    AlignedPrefix(b << 4, 4);
  }

  // ---------------------------------------------------------------- the C functions

  lemma BitsOfPrefix(c: bv16, data: seq<bv8>, p: nat)
    requires p < |data|
    ensures Feed(c, Bits(data[..p + 1])) == Feed(Feed(c, Bits(data[..p])), ByteBits(data[p]))
  {
    hide ByteBits, Step;
    assert data[..p + 1] == data[..p] + [data[p]] && [data[p]][1..] == [];
    BitsAppend(data[..p], [data[p]]);
    assert Bits([data[p]]) == ByteBits(data[p]) + Bits([]) == ByteBits(data[p]);
    FeedAppend(c, Bits(data[..p]), ByteBits(data[p]));
  }

  function Double(crc: bv32): bv32 { crc << 1 }

  function Overflows(doubled: bv32): bool { doubled & 0x1_0000 != 0 }

  function XorWide(a: bv32, b: bv32): bv32 { a ^ b }

  function Wide(c: bv16): bv32 { c as bv32 }

  /** One turn of the inner loop of crc_cal_by_bit on its 32-bit accumulator. */
  function Turn(crc: bv32, bit: bool): bv32 {
    var doubled := Double(crc);
    var reduced := if Overflows(doubled) then XorWide(doubled, 0x1_1021) else doubled;
    if bit then XorWide(reduced, 0x1021) else reduced
  }

  lemma DoubleOverflows(c: bv16)
    ensures Overflows(Double(Wide(c))) == Msb(c)
  {
  }

  lemma DropCarry(c: bv16)
    requires Msb(c)
    ensures XorWide(Double(Wide(c)), 0x1_0000) == Wide(Left(c))
  {
    assert ((c as bv32) << 1) ^ 0x1_0000 == (c << 1) as bv32;
  }

  lemma NoCarry(c: bv16)
    requires c & 0x8000 == 0
    ensures (c as bv32) << 1 == (c << 1) as bv32
  {
  }

  lemma DoubleIs(c: bv16)
    ensures Double(c as bv32) == (c as bv32) << 1
  {
  }

  lemma WideLeftIs(c: bv16)
    ensures Wide(Left(c)) == (c << 1) as bv32
  {
  }

  lemma DoubleNarrow(c: bv16)
    requires !Msb(c)
    ensures Double(Wide(c)) == Wide(Left(c))
  {
    hide Double, Left;
    NoCarry(c);
    DoubleIs(c);
    WideLeftIs(c);
  }

  lemma PolyWithCarry(d: bv32)
    ensures XorWide(d, 0x1_1021) == XorWide(XorWide(d, 0x1_0000), 0x1021)
    ensures XorWide(XorWide(d, 0x1_1021), 0x1021) == XorWide(d, 0x1_0000)
  {
    assert d ^ 0x1_1021 == (d ^ 0x1_0000) ^ 0x1021;
    assert (d ^ 0x1_1021) ^ 0x1021 == d ^ 0x1_0000;
  }

  lemma WidePoly(e: bv16)
    ensures XorWide(Wide(e), 0x1021) == Wide(Xor(e, 0x1021))
  {
    assert (e as bv32) ^ 0x1021 == (e ^ 0x1021) as bv32;
  }

  /** The 32-bit accumulator holds the 16-bit register. */
  lemma TurnIsStep(c: bv16, bit: bool)
    ensures Turn(Wide(c), bit) == Wide(Step(c, bit))
  {
    hide Double, Overflows, XorWide, Wide, Msb, Left, Xor;
    DoubleOverflows(c);
    WidePoly(Left(c));
    if Msb(c) {
      DropCarry(c);
      PolyWithCarry(Double(Wide(c)));
    } else {
      DoubleNarrow(c);
    }
  }

  lemma FeedOneMore(c: bv16, b: bv8, k: nat)
    requires k < 8
    ensures Feed(c, ByteBits(b)[..k + 1]) == Step(Feed(c, ByteBits(b)[..k]), Bit(b, BitMask(k)))
  {
    hide ByteBits, Step, Bit, BitMask;
    var bits := ByteBits(b);
    assert bits[..k + 1] == bits[..k] + [bits[k]] && [bits[k]][1..] == [];
    FeedAppend(c, bits[..k], [bits[k]]);
    assert Feed(Feed(c, bits[..k]), [bits[k]]) == Feed(Step(Feed(c, bits[..k]), bits[k]), []);
    BitOfByte(b, k);
  }

  /** The eight turns of the inner loop of crc_cal_by_bit for one octet. */
  method BitLoop(c: bv32, b: bv8, ghost reg: bv16) returns (crc: bv32)
    requires c == Wide(reg)
    ensures crc == Wide(Feed(reg, ByteBits(b)))
  {
    hide Feed, Step, ByteBits, Bit, Wide, BitMask, Double, Overflows, XorWide, Halve;
    crc := c;
    var i: bv8 := 0x80;
    ghost var k := 0;
    MaskHalves(0);
    FeedNothing(reg, ByteBits(b)[..0]);
    while i != 0
      invariant k <= 8 && i == BitMask(k) && (i == 0 <==> k == 8)
      invariant crc == Wide(Feed(reg, ByteBits(b)[..k]))
      decreases 8 - k
    {
      MaskHalves(k);
      FeedOneMore(reg, b, k);
      TurnIsStep(Feed(reg, ByteBits(b)[..k]), Bit(b, BitMask(k)));
      crc := Double(crc);
      if Overflows(crc) {
        crc := XorWide(crc, 0x1_1021);
      }
      if Bit(b, i) {
        crc := XorWide(crc, 0x1021);
      }
      i := Halve(i);
      k := k + 1;
    }
    assert ByteBits(b)[..8] == ByteBits(b);
  }

  lemma FeedNothing(c: bv16, bits: seq<bool>)
    requires bits == []
    ensures Feed(c, bits) == c
  {
  }

  function Halve(i: bv8): bv8 { i / 2 }

  lemma MaskHalves(k: nat)
    requires k < 8
    ensures Halve(BitMask(k)) == BitMask(k + 1) && BitMask(k) != 0 && (BitMask(k + 1) == 0 <==> k == 7)
    ensures BitMask(0) == 0x80
  {
    if k <= 3 {
      assert BitMask(1) == 0x40 && BitMask(2) == 0x20 && BitMask(3) == 0x10 && BitMask(4) == 0x08;
    } else {
      assert BitMask(4) == 0x08 && BitMask(5) == 0x04 && BitMask(6) == 0x02 && BitMask(7) == 0x01 && BitMask(8) == 0;
    }
  }

  /** `crc_cal_by_bit`; the length is an unsigned char. */
  method CalByBit(ptr: seq<bv8>, len: byte) returns (r: bv16)
    requires len <= |ptr|
    ensures r == Crc(ptr[..len])
  {
    hide Feed, Bits, ByteBits, Wide, Step, Low16;
    var crc: bv32 := 0;
    StartWide(ptr[..0]);
    for p := 0 to len
      invariant crc == Wide(Crc(ptr[..p]))
    {
      BitsOfPrefix(0, ptr, p);
      crc := BitLoop(crc, ptr[p], Crc(ptr[..p]));
    }
    Narrow(Crc(ptr[..len]));
    r := Low16(crc);
  }

  lemma StartWide(none: seq<bv8>)
    requires none == []
    ensures Wide(Crc(none)) == 0 && Crc(none) == 0
  {
  }

  function Low16(crc: bv32): bv16 { (crc & 0xFFFF) as bv16 }

  lemma Narrow(c: bv16)
    ensures Low16(Wide(c)) == c
  {
  }

  /** `crc_cal_by_byte`. */
  method CalByByte(ptr: seq<bv8>, len: byte) returns (crc: bv16)
    requires len <= |ptr|
    ensures crc == Crc(ptr[..len])
  {
    hide Feed, Bits, ByteBits, Step, Table8, HighByte, Xor;
    crc := 0;
    StartWide(ptr[..0]);
    for p := 0 to len
      invariant crc == Crc(ptr[..p])
    {
      BitsOfPrefix(0, ptr, p);
      FeedByte(crc, ptr[p]);
      var high := HighByte(crc);
      crc := crc << 8;
      crc := Xor(crc, Table8(high ^ ptr[p]));
    }
  }

  /** `crc_cal_by_halfbyte`. */
  method CalByHalfByte(ptr: seq<bv8>, len: byte) returns (crc: bv16)
    requires len <= |ptr|
    ensures crc == Crc(ptr[..len])
  {
    hide Feed, Bits, ByteBits, Step, HalfByteStep, Aligned, TopNibble, UpperHalf, LowerHalf;
    crc := 0;
    StartWide(ptr[..0]);
    for p := 0 to len
      invariant crc == Crc(ptr[..p])
    {
      var b := ptr[p];
      BitsOfPrefix(0, ptr, p);
      FeedTwoNibbles(crc, b);
      NibbleBits(b);
      FeedNibble(crc, ByteBits(b)[..4], UpperHalf(b));
      FeedNibble(Feed(crc, ByteBits(b)[..4]), ByteBits(b)[4..], LowerHalf(b));
      crc := HalfByteStep(crc, UpperHalf(b));
      crc := HalfByteStep(crc, LowerHalf(b));
    }
  }

  // ---------------------------------------------------------------- Python integers

  /** `a ^ b` on unbounded integers, octet by octet. */
  function XorInt(a: nat, b: nat): nat
    decreases a + b
  {
    if a == 0 && b == 0 then 0
    else XorInt(a / 0x100, b / 0x100) * 0x100 + Value(XorByte(Digit(a), Digit(b)))
  }

  lemma XorZero(b: bv8)
    ensures Digit(0) == 0 && Value(0) == 0 && XorByte(0, b) == b && XorByte(b, 0) == b
  {
  }

  lemma XorIntStep(a: nat, b: nat)
    ensures XorInt(a, b) == XorInt(a / 0x100, b / 0x100) * 0x100 + Value(XorByte(Digit(a), Digit(b)))
  {
    hide Value, XorByte;
    XorZero(0);
  }

  /** The low octet of a xor, and what is above it. */
  lemma XorDigits(a: nat, b: nat)
    ensures XorInt(a, b) % 0x100 == Value(XorByte(Digit(a), Digit(b)))
    ensures XorInt(a, b) / 0x100 == XorInt(a / 0x100, b / 0x100)
  {
    hide Digit, Value, XorByte, XorInt;
    XorIntStep(a, b);
    MulAdd(XorInt(a / 0x100, b / 0x100), Value(XorByte(Digit(a), Digit(b))));
  }

  lemma MulAdd(q: nat, r: nat)
    requires r < 0x100
    ensures (q * 0x100 + r) % 0x100 == r && (q * 0x100 + r) / 0x100 == q
  {
  }

  function LowByte(w: bv16): bv8 { (w & 0xFF) as bv8 }

  function Join(high: bv8, low: bv8): bv16 { ((high as bv16) << 8) | low as bv16 }

  function IntOf(w: bv16): nat { Value(HighByte(w)) * 0x100 + Value(LowByte(w)) }

  /** The low sixteen bits of an integer. */
  function Word(n: nat): bv16 { Join(Digit(n / 0x100), Digit(n)) }

  lemma JoinParts(w: bv16)
    ensures Join(HighByte(w), LowByte(w)) == w
  {
  }

  lemma PartsOfJoin(high: bv8, low: bv8)
    ensures HighByte(Join(high, low)) == high && LowByte(Join(high, low)) == low
  {
  }

  lemma DigitsOfInt(w: bv16)
    ensures Digit(IntOf(w)) == LowByte(w) && IntOf(w) / 0x100 == Value(HighByte(w)) < 0x100
  {
    hide Digit, Value, HighByte, LowByte;
    DigitOfValue(HighByte(w));
    DigitOfValue(LowByte(w));
    MulAdd(Value(HighByte(w)), Value(LowByte(w)));
    SmallMod(Value(LowByte(w)));
    SameDigit(IntOf(w), Value(LowByte(w)));
  }

  lemma WordOfInt(w: bv16)
    ensures Word(IntOf(w)) == w
  {
    hide Digit, Value, HighByte, LowByte, Join, IntOf;
    JoinParts(w);
    DigitsOfInt(w);
    DigitOfValue(HighByte(w));
  }

  lemma IntOfWord(n: nat)
    ensures IntOf(Word(n)) == n % 0x1_0000
  {
    hide Digit, Value, HighByte, LowByte, Join;
    PartsOfJoin(Digit(n / 0x100), Digit(n));
    ValueOfDigit(n / 0x100);
    ValueOfDigit(n);
    assert n % 0x1_0000 == n / 0x100 % 0x100 * 0x100 + n % 0x100;
  }

  lemma JoinXor(high: bv8, low: bv8, w: bv16)
    ensures Join(XorByte(low, HighByte(w)), LowByte(w)) == Xor(LeftByte(Join(high, low)), w)
  {
  }

  function LeftByte(c: bv16): bv16 { c << 8 }

  /** `crc << 8 ^ t` on the unbounded accumulator does to its low sixteen bits what it does to the register. */
  lemma PyShift(crc: nat, t: bv16)
    ensures Word(XorInt(crc * 0x100, IntOf(t))) == Xor(LeftByte(Word(crc)), t)
  {
    hide Digit, Value, XorByte, HighByte, LowByte, Join, Xor, LeftByte, XorInt, IntOf;
    var v, x := IntOf(t), XorInt(crc * 0x100, IntOf(t));
    MulAdd(crc, 0);
    SameDigit(crc * 0x100, 0);
    XorDigits(crc * 0x100, v);
    XorDigits(crc, v / 0x100);
    DigitsOfInt(t);
    DigitOfValue(HighByte(t));
    XorZero(LowByte(t));
    DigitOfValue(LowByte(t));
    assert x % 0x100 == Value(LowByte(t));
    SameDigitValue(x, LowByte(t));
    SameDigitValue(x / 0x100, XorByte(Digit(crc), HighByte(t)));
    JoinXor(Digit(crc / 0x100), Digit(crc), t);
  }

  lemma SameDigitValue(n: nat, b: bv8)
    requires n % 0x100 == Value(b)
    ensures Digit(n) == b
  {
    hide Digit, Value;
    DigitOfValue(b);
    SmallMod(Value(b));
    SameDigit(n, Value(b));
  }

  /** The table index calc_crc computes. */
  lemma PyIndex(crc: nat, ch: bv8)
    ensures Digit(XorInt(crc / 0x100, Value(ch)) % 0x100) == XorByte(HighByte(Word(crc)), ch)
  {
    hide Digit, Value, XorByte, HighByte, LowByte, Join, XorInt;
    PartsOfJoin(Digit(crc / 0x100), Digit(crc));
    XorDigits(crc / 0x100, Value(ch));
    DigitOfValue(ch);
    DigitOfValue(XorByte(Digit(crc / 0x100), ch));
  }

  /** What calc_crc returns: the register after the message, starting from the low bits of `crc`. */
  function PyCrc(data: seq<bv8>, crc: nat): nat { IntOf(Feed(Word(crc), Bits(data))) }

  lemma FeedByteNamed(c: bv16, b: bv8)
    ensures Feed(c, ByteBits(b)) == Xor(LeftByte(c), Table8(XorByte(HighByte(c), b)))
  {
    hide Feed, ByteBits, Xor, Table8, HighByte;
    FeedByte(c, b);
  }

  /** `calc_crc`: the accumulator is never reduced before the final mask. */
  method CalcCrc(data: seq<bv8>, crc0: nat) returns (r: nat)
    ensures r == PyCrc(data, crc0)
  {
    hide Feed, Bits, ByteBits, Step, Table8, HighByte, Word, XorInt, Xor, XorByte, Digit, Value, IntOf, LeftByte;
    var crc := crc0;
    ghost var start := Word(crc0);
    FeedNothing(start, Bits(data[..0]));
    for p := 0 to |data|
      invariant Word(crc) == Feed(start, Bits(data[..p]))
    {
      BitsOfPrefix(start, data, p);
      FeedByteNamed(Word(crc), data[p]);
      PyIndex(crc, data[p]);
      var index := XorInt(crc / 0x100, Value(data[p])) % 0x100;
      PyShift(crc, Table8(Digit(index)));
      crc := XorInt(crc * 0x100, IntOf(Table8(Digit(index))));
    }
    assert data[..|data|] == data;
    IntOfWord(crc);
    r := crc % 0x1_0000;
  }

  /** calc_crc can be continued: the checksum of a concatenation from that of its first part. */
  lemma CalcCrcIncremental(a: seq<bv8>, b: seq<bv8>, crc: nat)
    ensures PyCrc(a + b, crc) == PyCrc(b, PyCrc(a, crc))
  {
    hide Feed, Bits, Word, IntOf;
    BitsAppend(a, b);
    FeedAppend(Word(crc), Bits(a), Bits(b));
    WordOfInt(Feed(Word(crc), Bits(a)));
  }
}
