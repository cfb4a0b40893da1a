/** The CRC-16 of the XMODEM link: three C algorithms (crypt_crc.c) and the Python one (calc_crc). */
module Crc16 {

  // ---------------------------------------------------------------- the register

  function Xor(a: bv16, b: bv16): bv16 { a ^ b }

  function Msb(c: bv16): bool { c & 0x8000 != 0 }

  function Left(c: bv16): bv16 { c << 1 }

  /** One message bit enters the register: x^16 + x^12 + x^5 + 1, most significant bit first. */
  function Step(c: bv16, bit: bool): bv16 {
    if Msb(c) != bit then Xor(Left(c), 0x1021) else Left(c)
  }

  function Bit(b: bv8, mask: bv8): bool { b & mask != 0 }

  function ByteBits(b: bv8): (bits: seq<bool>)
    ensures |bits| == 8
  {
    [Bit(b, 0x80), Bit(b, 0x40), Bit(b, 0x20), Bit(b, 0x10), Bit(b, 0x08), Bit(b, 0x04), Bit(b, 0x02), Bit(b, 0x01)]
  }

  function Bits(data: seq<bv8>): (bits: seq<bool>)
    ensures |bits| == 8 * |data|
  {
    if data == [] then [] else ByteBits(data[0]) + Bits(data[1..])
  }

  function Feed(c: bv16, bits: seq<bool>): bv16
    decreases |bits|
  {
    if bits == [] then c else Feed(Step(c, bits[0]), bits[1..])
  }

  /** The checksum of a message: its bits fed into a zero register. */
  function Crc(data: seq<bv8>): bv16 { Feed(0, Bits(data)) }

  lemma {:induction false} FeedAppend(c: bv16, a: seq<bool>, b: seq<bool>)
    ensures Feed(c, a + b) == Feed(Feed(c, a), b)
    decreases |a|
  {
    if a == [] {
      assert a + b == b;
    } else {
      assert (a + b)[1..] == a[1..] + b;
      FeedAppend(Step(c, a[0]), a[1..], b);
    }
  }

  lemma {:induction false} BitsAppend(a: seq<bv8>, b: seq<bv8>)
    ensures Bits(a + b) == Bits(a) + Bits(b)
  {
    if a == [] {
      assert a + b == b;
    } else {
      assert (a + b)[1..] == a[1..] + b;
      BitsAppend(a[1..], b);
      assert ByteBits(a[0]) + (Bits(a[1..]) + Bits(b)) == ByteBits(a[0]) + Bits(a[1..]) + Bits(b);
    }
  }

  // ---------------------------------------------------------------- linearity

  lemma XorLaws(a: bv16, b: bv16, c: bv16)
    ensures Xor(Xor(a, b), c) == Xor(a, Xor(b, c))
    ensures Xor(a, b) == Xor(b, a) && Xor(a, 0) == a && Xor(a, a) == 0
  {
  }

  /** The register shifted once with no message bit. */
  function Shift(c: bv16): bv16 { Step(c, false) }

  function Shifts(k: nat, c: bv16): bv16 { if k == 0 then c else Shift(Shifts(k - 1, c)) }

  lemma LeftXor(c: bv16, d: bv16)
    ensures Left(Xor(c, d)) == Xor(Left(c), Left(d))
  {
  }

  lemma MsbXor(c: bv16, d: bv16)
    ensures Msb(Xor(c, d)) == (Msb(c) != Msb(d))
  {
  }

  lemma PolyXor(c: bv16, d: bv16)
    ensures Xor(Xor(c, 0x1021), Xor(d, 0x1021)) == Xor(c, d)
    ensures Xor(Xor(c, 0x1021), d) == Xor(Xor(c, d), 0x1021) == Xor(c, Xor(d, 0x1021))
  {
    hide Xor;
    XorLaws(c, 0x1021, Xor(d, 0x1021));
    XorLaws(0x1021, 0x1021, d);
    XorLaws(0x1021, d, 0x1021);
    XorLaws(c, 0x1021, d);
    XorLaws(c, d, 0x1021);
    XorLaws(d, 0x1021, 0);
    XorLaws(0, d, 0);
  }

  lemma ShiftXor(c: bv16, d: bv16)
    ensures Shift(Xor(c, d)) == Xor(Shift(c), Shift(d))
  {
    hide Xor, Msb, Left;
    LeftXor(c, d);
    MsbXor(c, d);
    PolyXor(Left(c), Left(d));
  }

  lemma {:induction false} ShiftsXor(k: nat, c: bv16, d: bv16)
    ensures Shifts(k, Xor(c, d)) == Xor(Shifts(k, c), Shifts(k, d))
  {
    hide Shift, Xor;
    if k > 0 {
      ShiftsXor(k - 1, c, d);
      ShiftXor(Shifts(k - 1, c), Shifts(k - 1, d));
    }
  }

  function Top(bit: bool): bv16 { if bit then 0x8000 else 0 }

  lemma TopBit(bit: bool)
    ensures Left(Top(bit)) == 0 && Msb(Top(bit)) == bit
  {
  }

  lemma StepIsShift(c: bv16, bit: bool)
    ensures Step(c, bit) == Shift(Xor(c, Top(bit)))
  {
    hide Xor, Msb, Left, Top;
    TopBit(bit);
    LeftXor(c, Top(bit));
    MsbXor(c, Top(bit));
    XorLaws(Left(c), 0, 0);
  }

  // ---------------------------------------------------------------- several bits at a time

  /** The mask of bit `k` of an octet, most significant first. */
  function BitMask(k: nat): bv8 { if k == 0 then 0x80 else BitMask(k - 1) >> 1 }

  /** The same mask for an octet in the upper half of the register. */
  function OneBit(k: nat): bv16 { High(BitMask(k)) }

  /** The mask of the top `k` bits of the register. */
  function TopMask(k: nat): bv16 { if k == 0 then 0 else 0 - OneBit(k - 1) }

  /** Up to eight message bits lined up with the top of the register. */
  function Aligned(bits: seq<bool>): bv16
    requires |bits| <= 8
  {
    if bits == [] then 0
    else Xor(Aligned(bits[..|bits| - 1]), if bits[|bits| - 1] then OneBit(|bits| - 1) else 0)
  }

  lemma {:induction false} ShiftsInner(k: nat, c: bv16)
    ensures Shifts(k + 1, c) == Shifts(k, Shift(c))
  {
    hide Shift;
    if k > 0 {
      ShiftsInner(k - 1, c);
    }
  }

  lemma MaskDown(k: nat)
    requires k < 7
    ensures Shift(OneBit(k + 1)) == OneBit(k) && OneBit(k + 1) == OneBit(k) >> 1
  {
    if k == 0 {
    } else if k == 1 {
    } else if k == 2 {
    } else if k == 3 {
    } else if k == 4 {
    } else if k == 5 {
    } else {
      assert OneBit(6) == 0x0200 && OneBit(7) == 0x0100;
    }
  }

  lemma {:induction false} ShiftsOneBit(k: nat)
    requires k < 8
    ensures Shifts(k, OneBit(k)) == 0x8000 && Shifts(k, 0) == 0
  {
    hide Shift;
    if k > 0 {
      ShiftsOneBit(k - 1);
      ShiftsInner(k - 1, OneBit(k));
      ShiftsInner(k - 1, 0);
      MaskDown(k - 1);
      ShiftZero();
    }
  }

  lemma ShiftZero()
    ensures Shift(0) == 0
  {
  }

  /** Feeding up to eight bits is adding them at the top of the register and shifting them out. */
  lemma {:induction false} FeedAligned(c: bv16, bits: seq<bool>)
    requires |bits| <= 8
    ensures Feed(c, bits) == Shifts(|bits|, Xor(c, Aligned(bits)))
  {
    hide Xor, Shift, Step, OneBit;
    if bits == [] {
      XorLaws(c, 0, 0);
    } else {
      var k := |bits| - 1;
      var front, last := bits[..k], bits[k];
      assert bits == front + [last] && [last][1..] == [];
      FeedAppend(c, front, [last]);
      assert Feed(Feed(c, front), [last]) == Feed(Step(Feed(c, front), last), []);
      FeedAligned(c, front);
      StepIsShift(Feed(c, front), last);
      ShiftsOneBit(k);
      var b := if last then OneBit(k) else 0;
      ShiftsXor(k, Xor(c, Aligned(front)), b);
      XorLaws(c, Aligned(front), b);
    }
  }

  lemma BitOfByte(b: bv8, k: nat)
    requires k < 8
    ensures ByteBits(b)[k] == Bit(b, BitMask(k))
    ensures TopMask(k + 1) == Xor(TopMask(k), OneBit(k))
    ensures BitMask(k) & (BitMask(k) - 1) == 0
  {
    if k == 0 {
    } else if k == 1 {
    } else if k == 2 {
    } else if k == 3 {
    } else if k == 4 {
    } else if k == 5 {
    } else if k == 6 {
    } else {
    }
  }

  function High(b: bv8): bv16 { (b as bv16) << 8 }

  function And(a: bv16, b: bv16): bv16 { a & b }

  /** The first `k` bits of an octet in the upper half of the register. */
  function TopBits(b: bv8, k: nat): bv16 { And(High(b), TopMask(k)) }

  lemma TopBitsStep(b: bv8, k: nat)
    requires k < 8
    ensures Xor(TopBits(b, k), if ByteBits(b)[k] then OneBit(k) else 0) == TopBits(b, k + 1)
  {
    hide ByteBits, TopMask, Bit, BitMask, Xor, And, High;
    BitOfByte(b, k);
    SelectBit(b, BitMask(k), OneBit(k));
    AndXor(High(b), TopMask(k), OneBit(k));
  }

  lemma SelectBit(b: bv8, m: bv8, one: bv16)
    requires m & (m - 1) == 0 && one == High(m)
    ensures (if Bit(b, m) then one else 0) == And(High(b), one)
  {
  }

  lemma AndXor(w: bv16, t: bv16, one: bv16)
    ensures Xor(And(w, t), And(w, one)) == And(w, Xor(t, one))
  {
    assert Xor(w & t, w & one) == w & (t ^ one);
  }

  lemma {:induction false} AlignedPrefix(b: bv8, k: nat)
    requires k <= 8
    ensures Aligned(ByteBits(b)[..k]) == TopBits(b, k)
  {
    hide OneBit, BitMask, TopMask, Bit, ByteBits, Xor, TopBits;
    if k == 0 {
      TopBitsNone(b);
    } else {
      AlignedPrefix(b, k - 1);
      var bits := ByteBits(b)[..k];
      assert bits[..k - 1] == ByteBits(b)[..k - 1];
      TopBitsStep(b, k - 1);
    }
  }

  lemma TopBitsNone(b: bv8)
    ensures TopBits(b, 0) == 0
  {
  }
}
