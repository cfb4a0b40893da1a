/** What the XMODEM checksum detects (crc_cal_by_bit as used by `check` in iot_xmodem.c). */
module Crc16Burst {
  import opened Crc16
  import opened Crc16Algorithms

  /** Where two messages of equal length differ, bit by bit. */
  function Differences(a: seq<bool>, b: seq<bool>): seq<bool>
    requires |a| == |b|
  {
    seq(|a|, i requires 0 <= i < |a| => a[i] != b[i])
  }

  lemma StepLinear(c: bv16, d: bv16, x: bool, y: bool)
    ensures Step(Xor(c, d), x != y) == Xor(Step(c, x), Step(d, y))
  {
    hide Step, Xor, Shift;
    StepIsShift(c, x);
    StepIsShift(d, y);
    StepIsShift(Xor(c, d), x != y);
    ShiftXor(Xor(c, Top(x)), Xor(d, Top(y)));
    TopXor(x, y);
    XorRegroup(c, d, Top(x), Top(y));
  }

  lemma TopXor(x: bool, y: bool)
    ensures Top(x != y) == Xor(Top(x), Top(y))
  {
  }

  lemma XorRegroup(a: bv16, b: bv16, c: bv16, d: bv16)
    ensures Xor(Xor(a, b), Xor(c, d)) == Xor(Xor(a, c), Xor(b, d))
  {
    hide Xor;
    XorLaws(a, b, Xor(c, d));
    XorLaws(b, c, d);
    XorLaws(c, b, d);
    XorLaws(a, c, Xor(b, d));
  }

  /** The register is linear over exclusive or. */
  lemma {:induction false} FeedLinear(c: bv16, d: bv16, a: seq<bool>, b: seq<bool>)
    requires |a| == |b|
    ensures Feed(Xor(c, d), Differences(a, b)) == Xor(Feed(c, a), Feed(d, b))
    decreases |a|
  {
    hide Step, Xor;
    if a != [] {
      StepLinear(c, d, a[0], b[0]);
      assert Differences(a, b)[1..] == Differences(a[1..], b[1..]);
      FeedLinear(Step(c, a[0]), Step(d, b[0]), a[1..], b[1..]);
    }
  }

  /** The checksum of the exclusive or of two messages is the exclusive or of their checksums. */
  lemma CrcLinear(a: seq<bv8>, b: seq<bv8>)
    requires |a| == |b|
    ensures Feed(0, Differences(Bits(a), Bits(b))) == Xor(Crc(a), Crc(b))
  {
    hide Feed, Bits, Xor;
    XorLaws(0, 0, 0);
    FeedLinear(0, 0, Bits(a), Bits(b));
  }

  // ---------------------------------------------------------------- bursts

  /** All set bits of `d` lie among the sixteen starting at `w`. */
  ghost predicate InWindow(d: seq<bool>, w: nat) {
    forall i :: 0 <= i < |d| && d[i] ==> w <= i < w + 16
  }

  lemma StepZero(c: bv16)
    ensures Step(c, false) == 0 <==> c == 0
    ensures Step(0, true) == 0x1021
  {
  }

  /** Clear bits never make a register zero, nor a zero register nonzero. */
  lemma {:induction false} FeedClear(c: bv16, bits: seq<bool>)
    requires forall i :: 0 <= i < |bits| ==> !bits[i]
    ensures Feed(c, bits) == 0 <==> c == 0
    decreases |bits|
  {
    hide Step;
    if bits != [] {
      StepZero(c);
      FeedClear(Step(c, bits[0]), bits[1..]);
    }
  }

  function ShiftIn(m: bv16): bv16 { (m << 1) | 1 }

  function LowMask(j: nat): bv16 { if j == 0 then 0 else ShiftIn(LowMask(j - 1)) }

  predicate Meets(c: bv16, m: bv16) { c & m != 0 }

  lemma LowMaskRoom(j: nat)
    requires j < 16
    ensures !Msb(LowMask(j))
  {
    assert LowMask(7) == 0x7F && LowMask(15) == 0x7FFF;
    if j <= 7 {
      assert LowMask(1) == 0x1 && LowMask(2) == 0x3 && LowMask(3) == 0x7;
      assert LowMask(4) == 0xF && LowMask(5) == 0x1F && LowMask(6) == 0x3F;
    } else {
      assert LowMask(8) == 0xFF && LowMask(9) == 0x1FF && LowMask(10) == 0x3FF && LowMask(11) == 0x7FF;
      assert LowMask(12) == 0xFFF && LowMask(13) == 0x1FFF && LowMask(14) == 0x3FFF;
    }
  }

  lemma StepKeepsLow(c: bv16, m: bv16, bit: bool)
    requires Meets(c, m) && !Msb(m)
    ensures Meets(Step(c, bit), ShiftIn(m))
  {
  }

  /** A register with a bit set among its low `j` needs more than `16 - j` further bits to become zero. */
  lemma {:induction false} FeedKeepsLow(c: bv16, j: nat, bits: seq<bool>)
    requires Meets(c, LowMask(j)) && j + |bits| <= 16
    ensures Feed(c, bits) != 0
    decreases |bits|
  {
    hide Step, Meets, ShiftIn, Msb;
    if bits == [] {
      MeetsNonzero(c, LowMask(j));
    } else {
      LowMaskRoom(j);
      StepKeepsLow(c, LowMask(j), bits[0]);
      FeedKeepsLow(Step(c, bits[0]), j + 1, bits[1..]);
    }
  }

  lemma MeetsNonzero(c: bv16, m: bv16)
    requires Meets(c, m)
    ensures c != 0
  {
  }

  /** No nonempty burst of at most sixteen bits leaves the register zero. */
  lemma BurstNonzero(d: seq<bool>, w: nat)
    requires InWindow(d, w) && true in d
    ensures Feed(0, d) != 0
  {
    hide Feed, Step, LowMask;
    var f: nat :| f < |d| && d[f] && forall i :: 0 <= i < f ==> !d[i];
    var e := if w + 16 < |d| then w + 16 else |d|;
    assert d == d[..f] + ([true] + (d[f + 1..e] + d[e..]));
    FeedAppend(0, d[..f], [true] + (d[f + 1..e] + d[e..]));
    FeedClear(0, d[..f]);
    FeedFirst(d[f + 1..e] + d[e..]);
    FeedAppend(0x1021, d[f + 1..e], d[e..]);
    OddMask();
    FeedKeepsLow(0x1021, 1, d[f + 1..e]);
    FeedClear(Feed(0x1021, d[f + 1..e]), d[e..]);
  }

  lemma FeedFirst(rest: seq<bool>)
    ensures Feed(0, [true] + rest) == Feed(0x1021, rest)
  {
    StepZero(0);
    assert ([true] + rest)[1..] == rest;
  }

  lemma OddMask()
    ensures 0x1021 & LowMask(1) != 0
  {
  }

  lemma {:induction false} SomeDifference(a: seq<bv8>, b: seq<bv8>)
    requires |a| == |b| && a != b
    ensures true in Differences(Bits(a), Bits(b))
  {
    hide ByteBits;
    var d := Differences(Bits(a), Bits(b));
    if a[0] != b[0] {
      var k := DifferentBit(a[0], b[0]);
      assert d[k];
    } else {
      assert a == [a[0]] + a[1..] && b == [b[0]] + b[1..];
      SomeDifference(a[1..], b[1..]);
      var d' := Differences(Bits(a[1..]), Bits(b[1..]));
      var i :| 0 <= i < |d'| && d'[i];
      assert d[8 + i];
    }
  }

  lemma SameBits(a: bv8, b: bv8)
    ensures (ByteBits(a)[0] == ByteBits(b)[0] && ByteBits(a)[1] == ByteBits(b)[1] && ByteBits(a)[2] == ByteBits(b)[2]
             && ByteBits(a)[3] == ByteBits(b)[3] && ByteBits(a)[4] == ByteBits(b)[4] && ByteBits(a)[5] == ByteBits(b)[5]
             && ByteBits(a)[6] == ByteBits(b)[6] && ByteBits(a)[7] == ByteBits(b)[7]) ==> a == b
  {
  }

  lemma DifferentBit(a: bv8, b: bv8) returns (k: nat)
    requires a != b
    ensures k < 8 && ByteBits(a)[k] != ByteBits(b)[k]
  {
    var x, y := ByteBits(a), ByteBits(b);
    SameBits(a, b);
    k := if x[0] != y[0] then 0 else if x[1] != y[1] then 1 else if x[2] != y[2] then 2
         else if x[3] != y[3] then 3 else if x[4] != y[4] then 4 else if x[5] != y[5] then 5
         else if x[6] != y[6] then 6 else 7;
  }

  /** Two blocks that differ, but only inside sixteen consecutive bits, have different checksums. */
  lemma BurstDetected(a: seq<bv8>, b: seq<bv8>, w: nat)
    requires |a| == |b| && a != b && InWindow(Differences(Bits(a), Bits(b)), w)
    ensures Crc(a) != Crc(b)
  {
    hide Feed, Bits, Xor, Differences;
    SomeDifference(a, b);
    BurstNonzero(Differences(Bits(a), Bits(b)), w);
    CrcLinear(a, b);
    XorLaws(Crc(a), Crc(b), 0);
  }

  // ---------------------------------------------------------------- the receiver's check

  /** `check(1, buf, sz)` for the octets `buf[..sz + 2]`: the trailer is the checksum, high octet first. */
  predicate Accepts(p: seq<bv8>) {
    2 <= |p| && Crc(p[..|p| - 2]) == Join(p[|p| - 2], p[|p| - 1])
  }

  lemma ShiftsZero(k: nat, c: bv16)
    ensures Shifts(k, c) == 0 <==> c == 0
  {
    hide Shift;
    if k > 0 {
      ShiftsZero(k - 1, c);
      ShiftZeroOnly(Shifts(k - 1, c));
    }
  }

  lemma ShiftZeroOnly(c: bv16)
    ensures Shift(c) == 0 <==> c == 0
  {
  }

  lemma XorZeroOnly(a: bv16, b: bv16)
    ensures Xor(a, b) == 0 <==> a == b
  {
    hide Xor;
    XorLaws(a, b, b);
    XorLaws(b, 0, 0);
  }

  function Low(b: bv8): bv16 { b as bv16 }

  lemma JoinPure(c: bv16, high: bv8, low: bv8)
    ensures (c ^ ((high as bv16) << 8)) ^ (low as bv16) == c ^ (((high as bv16) << 8) | low as bv16)
  {
  }

  lemma XorIs(a: bv16, b: bv16)
    ensures Xor(a, b) == a ^ b
  {
  }

  lemma PartsAre(high: bv8, low: bv8)
    ensures High(high) == (high as bv16) << 8 && Low(low) == low as bv16
    ensures Join(high, low) == ((high as bv16) << 8) | low as bv16
  {
  }

  lemma JoinIsXor(c: bv16, high: bv8, low: bv8)
    ensures Xor(Xor(c, High(high)), Low(low)) == Xor(c, Join(high, low))
  {
    hide Xor, High, Low, Join;
    PartsAre(high, low);
    JoinPure(c, high, low);
    XorIs(c, High(high));
    XorIs(Xor(c, High(high)), Low(low));
    XorIs(c, Join(high, low));
  }

  lemma LowAligned(b: bv8)
    ensures (b as bv16) & 0xFF == b as bv16
  {
  }

  lemma ShiftsLow(b: bv8)
    ensures Shifts(8, Low(b)) == High(b)
  {
    hide Shift, Shifts;
    LowAligned(b);
    ShiftLow8(b as bv16);
  }

  /** Sixteen more bits clear the register exactly when they are its contents. */
  lemma FeedTrailer(c: bv16, high: bv8, low: bv8)
    ensures Feed(Feed(c, ByteBits(high)), ByteBits(low)) == 0 <==> c == Join(high, low)
  {
    hide Xor, Shift, ByteBits, High, Join, Low, Shifts;
    FeedOctet(c, high);
    FeedOctet(Feed(c, ByteBits(high)), low);
    JoinIsXor(c, high, low);
    ShiftsLow(low);
    ShiftsXor(8, Xor(c, High(high)), Low(low));
    ShiftsZero(8, Xor(c, Join(high, low)));
    ShiftsZero(8, Shifts(8, Xor(c, Join(high, low))));
    XorZeroOnly(c, Join(high, low));
  }

  lemma FeedOctet(c: bv16, b: bv8)
    ensures Feed(c, ByteBits(b)) == Shifts(8, Xor(c, High(b)))
  {
    hide Xor, Shift, ByteBits, High, TopBits;
    FeedAligned(c, ByteBits(b));
    AlignedPrefix(b, 8);
    assert ByteBits(b)[..8] == ByteBits(b);
    SplitHigh(c, b);
  }

  /** A block with its trailer is accepted exactly when the checksum of all of it is zero. */
  lemma AcceptsIff(p: seq<bv8>)
    requires 2 <= |p|
    ensures Accepts(p) <==> Crc(p) == 0
  {
    hide Feed, Bits, ByteBits, Join;
    var n := |p| - 2;
    assert p[..|p|] == p;
    BitsOfPrefix(0, p, n);
    BitsOfPrefix(0, p, n + 1);
    FeedTrailer(Crc(p[..n]), p[n], p[n + 1]);
  }

  /** An accepted block changed anywhere inside sixteen consecutive bits, trailer included, is rejected. */
  lemma BurstRejected(good: seq<bv8>, bad: seq<bv8>, w: nat)
    requires Accepts(good) && |bad| == |good| && bad != good
    requires InWindow(Differences(Bits(good), Bits(bad)), w)
    ensures !Accepts(bad)
  {
    hide Crc, Join, Differences;
    AcceptsIff(good);
    AcceptsIff(bad);
    BurstDetected(good, bad, w);
  }
}
