/** SHA-256 and HMAC of sha256.cpp, for a little-endian controller. */
module Sha256Arduino {
  import opened Octets
  import opened Prelude
  import opened Sha256Length
  import opened Sha256Spec
  import opened Sha256Words

  // ---------------------------------------------------------------- the rewritten functions

  function Ror32(number: bv32, bits: nat): bv32
    requires bits < 32
  {
    (number << (32 - bits)) | (number >> bits)
  }

  lemma RorIsRotr(x: bv32, n: nat)
    requires n < 32
    ensures Ror32(x, n) == Rotr(x, n)
  {
    OrComm(x << (32 - n), x >> n);
  }

  lemma OrComm(a: bv32, b: bv32)
    ensures a | b == b | a
  {
  }

  function Choose(e: bv32, f: bv32, g: bv32): bv32 { g ^ (e & (g ^ f)) }

  lemma ChooseBits(e: bv32, f: bv32, g: bv32)
    ensures g ^ (e & (g ^ f)) == (e & f) ^ (!e & g)
  {
  }

  lemma ChooseIsCh(e: bv32, f: bv32, g: bv32)
    ensures Choose(e, f, g) == Ch(e, f, g)
  {
    ChooseBits(e, f, g);
  }

  function Most(a: bv32, b: bv32, c: bv32): bv32 { (b & c) | (a & (b | c)) }

  lemma MostBits(a: bv32, b: bv32, c: bv32)
    ensures (b & c) | (a & (b | c)) == (a & b) ^ (a & c) ^ (b & c)
  {
  }

  lemma MostIsMaj(a: bv32, b: bv32, c: bv32)
    ensures Most(a, b, c) == Maj(a, b, c)
  {
    MostBits(a, b, c);
  }

  lemma AddComm(x: bv32, y: bv32)
    ensures Add(x, y) == Add(y, x)
  {
  }

  lemma AddIs(x: bv32, y: bv32)
    ensures Add(x, y) == x + y
  {
  }

  lemma AddInner(x: bv32, y: bv32, z: bv32)
    ensures Add(Add(x, y), z) == Add(x + y, z)
    ensures Add(x, Add(y, z)) == Add(x, y + z)
  {
    hide Add;
    AddIs(x, y);
    AddIs(y, z);
  }

  lemma PlusAssoc(x: bv32, y: bv32, z: bv32)
    ensures Add(x + y, z) == Add(x, y + z)
  {
  }

  lemma AddAssoc(x: bv32, y: bv32, z: bv32)
    ensures Add(Add(x, y), z) == Add(x, Add(y, z))
  {
    hide Add;
    AddInner(x, y, z);
    PlusAssoc(x, y, z);
  }

  lemma Reorder(w16: bv32, w7: bv32, s1: bv32, s0: bv32)
    ensures Add(Add(Add(w16, w7), s1), s0) == Add(Add(Add(s1, w7), s0), w16)
  {
    hide Add;
    AddAssoc(w16, w7, s1);
    AddAssoc(w16, Add(w7, s1), s0);
    AddComm(w7, s1);
    AddComm(w16, Add(Add(w7, s1), s0));
  }

  /** `n ^ 3` on octets. */
  function XorThree(n: byte): byte { Value(XorByte(Digit(n), 3)) }

  function Quarter(b: bv8): bv8 { b >> 2 }

  function LowTwo(b: bv8): bv8 { b & 3 }

  lemma XorThreeOctet(b: bv8)
    ensures Value(XorByte(b, 3)) == Value(Quarter(b)) * 4 + 3 - Value(LowTwo(b))
  {
  }

  lemma SplitOctet(b: bv8)
    ensures Value(b) == Value(Quarter(b)) * 4 + Value(LowTwo(b)) && Value(LowTwo(b)) < 4
  {
  }

  lemma XorThreeValue(n: byte)
    ensures XorThree(n) == n / 4 * 4 + 3 - n % 4
  {
    hide Value, XorByte, Digit, Quarter, LowTwo;
    XorThreeOctet(Digit(n));
    SplitOctet(Digit(n));
    ValueOfDigit(n);
  }

  // ---------------------------------------------------------------- the class

  function Past(x: bv32, n: nat): bv32
    requires n < 32
  {
    x >> n
  }

  lemma PastIsShr(x: bv32, n: nat)
    requires n < 32
    ensures Past(x, n) == Shr(x, n)
  {
  }

  /** Entry `i` of the schedule from the sixteen words before it, as hashBlock adds them up. */
  function NextWord(w16: bv32, w7: bv32, w2: bv32, w15: bv32): bv32 {
    Add(Add(Add(w16, w7), Xor3(Ror32(w2, 17), Ror32(w2, 19), Past(w2, 10))),
        Xor3(Ror32(w15, 7), Ror32(w15, 18), Past(w15, 3)))
  }

  lemma NextWordIs(block: seq<bv32>, t: nat)
    requires |block| == 16 && 16 <= t < 64
    ensures var w := Schedule(block, 64);
            w[t] == NextWord(w[t - 16], w[t - 7], w[t - 2], w[t - 15])
  {
    hide Add, Xor3, Ror32, Rotr, Shr, Past, Schedule;
    var w := Schedule(block, 64);
    PastIsShr(w[t - 2], 10);
    PastIsShr(w[t - 15], 3);
    ScheduleEntry(block, t);
    RorIsRotr(w[t - 2], 17);
    RorIsRotr(w[t - 2], 19);
    RorIsRotr(w[t - 15], 7);
    RorIsRotr(w[t - 15], 18);
    Reorder(w[t - 16], w[t - 7], SmallSigma1(w[t - 2]), SmallSigma0(w[t - 15]));
  }

  /** One turn of hashBlock on the working variables, in its own terms. */
  function Turn(r: Regs, k: bv32, w: bv32): Regs {
    var t1 := Add(Add(Add(Add(r.h, Xor3(Ror32(r.e, 6), Ror32(r.e, 11), Ror32(r.e, 25))), Choose(r.e, r.f, r.g)), k), w);
    var t2 := Add(Xor3(Ror32(r.a, 2), Ror32(r.a, 13), Ror32(r.a, 22)), Most(r.a, r.b, r.c));
    Regs(Add(t1, t2), r.a, r.b, r.c, Add(r.d, t1), r.e, r.f, r.g)
  }

  lemma TurnIsRound(r: Regs, k: bv32, w: bv32)
    ensures Turn(r, k, w) == Round(r, k, w)
  {
    hide Add, Xor3, Ror32, Rotr, Choose, Ch, Most, Maj;
    RorIsRotr(r.e, 6);
    RorIsRotr(r.e, 11);
    RorIsRotr(r.e, 25);
    RorIsRotr(r.a, 2);
    RorIsRotr(r.a, 13);
    RorIsRotr(r.a, 22);
    ChooseIsCh(r.e, r.f, r.g);
    MostIsMaj(r.a, r.b, r.c);
  }

  /** The first octets of the buffer, most significant first in each word, are `t`. */
  ghost predicate Loaded(buffer: seq<bv32>, t: seq<bv8>)
    requires |buffer| == 16 && |t| <= 64
  {
    forall i :: 0 <= i < |t| ==> ByteOf(buffer[i / 4], i % 4) == t[i]
  }

  /** `i & 15`. */
  function Slot(i: nat): (k: nat)
    ensures k < 16
  {
    i % 16
  }

  lemma Slots(i: nat)
    requires i >= 16
    ensures Slot(i) == Slot(i - 16) && forall j :: i - 16 < j < i ==> Slot(j) != Slot(i)
  {
  }

  /** sha256K, in rows of eight. */
  const SHA256K: seq<seq<bv32>> := [
    [0x428a2f98, 0x71374491, 0xb5c0fbcf, 0xe9b5dba5, 0x3956c25b, 0x59f111f1, 0x923f82a4, 0xab1c5ed5],
    [0xd807aa98, 0x12835b01, 0x243185be, 0x550c7dc3, 0x72be5d74, 0x80deb1fe, 0x9bdc06a7, 0xc19bf174],
    [0xe49b69c1, 0xefbe4786, 0x0fc19dc6, 0x240ca1cc, 0x2de92c6f, 0x4a7484aa, 0x5cb0a9dc, 0x76f988da],
    [0x983e5152, 0xa831c66d, 0xb00327c8, 0xbf597fc7, 0xc6e00bf3, 0xd5a79147, 0x06ca6351, 0x14292967],
    [0x27b70a85, 0x2e1b2138, 0x4d2c6dfc, 0x53380d13, 0x650a7354, 0x766a0abb, 0x81c2c92e, 0x92722c85],
    [0xa2bfe8a1, 0xa81a664b, 0xc24b8b70, 0xc76c51a3, 0xd192e819, 0xd6990624, 0xf40e3585, 0x106aa070],
    [0x19a4c116, 0x1e376c08, 0x2748774c, 0x34b0bcb5, 0x391c0cb3, 0x4ed8aa4a, 0x5b9cca4f, 0x682e6ff3],
    [0x748f82ee, 0x78a5636f, 0x84c87814, 0x8cc70208, 0x90befffa, 0xa4506ceb, 0xbef9a3f7, 0xc67178f2]
  ]

  function ReadK(i: nat): (k: bv32)
    requires i < 64
  {
    SHA256K[i / 8][i % 8]
  }

  /** It holds the constants of section 4.2.2. */
  lemma TableIs(i: nat)
    requires i < 64
    ensures ReadK(i) == KAt(i)
  {
    assert SHA256K == K;
  }

  /** A word of the union, from its octets. */
  function FromLanes(b0: bv8, b1: bv8, b2: bv8, b3: bv8): bv32 {
    (((b0 as bv32) | ((b1 as bv32) << 8)) | ((b2 as bv32) << 16)) | ((b3 as bv32) << 24)
  }

  lemma InitialWords()
    ensures H0 == Regs(FromLanes(0x67, 0xe6, 0x09, 0x6a),
                       FromLanes(0x85, 0xae, 0x67, 0xbb),
                       FromLanes(0x72, 0xf3, 0x6e, 0x3c),
                       FromLanes(0x3a, 0xf5, 0x4f, 0xa5),
                       FromLanes(0x7f, 0x52, 0x0e, 0x51),
                       FromLanes(0x8c, 0x68, 0x05, 0x9b),
                       FromLanes(0xab, 0xd9, 0x83, 0x1f),
                       FromLanes(0x19, 0xcd, 0xe0, 0x5b))
  {
  }

  /** Sha256Class; `fed` is what addUncounted has been given since `init`. */
  class Hasher {
    const buffer: array<bv32>
    var bufferOffset: byte
    const state: array<bv32>
    var byteCount: u32
    const keyBuffer: array<bv8>
    const innerHash: array<bv8>
    ghost var fed: seq<bv8>

    ghost predicate Shape() {
      && buffer.Length == 16 && state.Length == 8 && keyBuffer.Length == 64 && innerHash.Length == 32
      && buffer != state && keyBuffer != innerHash
      && keyBuffer as object != buffer as object && keyBuffer as object != state as object
      && innerHash as object != buffer as object && innerHash as object != state as object
    }

    ghost predicate Valid()
      reads this, buffer, state
    {
      && Shape() && bufferOffset == |fed| % 64 && RegsOf(state[..]) == Absorb(H0, FullBlocks(fed))
      && Loaded(buffer[..], Tail(fed))
    }

    constructor ()
      ensures Shape() && fresh(buffer) && fresh(state) && fresh(keyBuffer) && fresh(innerHash)
    {
      buffer, state, keyBuffer, innerHash := new bv32[16], new bv32[8], new bv8[64], new bv8[32];
      bufferOffset, byteCount, fed := 0, 0, [];
    }

    /** `init`; the initial state is stored as octets in little-endian order. */
    method Init()
      requires Shape()
      modifies this, state
      ensures Valid() && fed == [] && byteCount == 0
    {
      hide Absorb, FromLanes;
      state[0] := FromLanes(0x67, 0xe6, 0x09, 0x6a);
      state[1] := FromLanes(0x85, 0xae, 0x67, 0xbb);
      state[2] := FromLanes(0x72, 0xf3, 0x6e, 0x3c);
      state[3] := FromLanes(0x3a, 0xf5, 0x4f, 0xa5);
      state[4] := FromLanes(0x7f, 0x52, 0x0e, 0x51);
      state[5] := FromLanes(0x8c, 0x68, 0x05, 0x9b);
      state[6] := FromLanes(0xab, 0xd9, 0x83, 0x1f);
      state[7] := FromLanes(0x19, 0xcd, 0xe0, 0x5b);
      InitialWords();
      byteCount, bufferOffset, fed := 0, 0, [];
      AbsorbNothing();
    }

    /** The buffer holds the sixteen entries of the schedule that turn `i` of hashBlock starts with. */
    ghost predicate Window(w: seq<bv32>, i: nat)
      reads buffer
      requires Shape() && |w| == 64 && i <= 64
    {
      forall j :: (if i < 16 then 0 else i - 16) <= j < (if i < 16 then 16 else i) ==> buffer[Slot(j)] == w[j]
    }

    /** The schedule overwrites the buffer as it goes. */
    method ScheduleWord(i: nat, ghost block: seq<bv32>) returns (word: bv32)
      requires Shape() && |block| == 16 && i < 64 && Window(Schedule(block, 64), i)
      modifies buffer
      ensures Window(Schedule(block, 64), i + 1) && word == Schedule(block, 64)[i]
    {
      hide NextWord, Schedule, Slot;
      if i >= 16 {
        ghost var w := Schedule(block, 64);
        NextWordIs(block, i);
        Slots(i);
        assert buffer[Slot(i - 16)] == w[i - 16] && buffer[Slot(i - 7)] == w[i - 7];
        assert buffer[Slot(i - 2)] == w[i - 2] && buffer[Slot(i - 15)] == w[i - 15];
        buffer[Slot(i)] := NextWord(buffer[Slot(i)], buffer[Slot(i - 7)], buffer[Slot(i - 2)], buffer[Slot(i - 15)]);
      }
      word := buffer[Slot(i)];
    }

    /** `hashBlock`. */
    method HashBlock()
      requires Shape()
      modifies buffer, state
      ensures RegsOf(state[..]) == Block(old(RegsOf(state[..])), old(buffer[..]))
    {
      hide Add, Turn, Round, Rounds, Schedule, KAt, ReadK, Window;
      var a, b, c, d, e, f, g, h := state[0], state[1], state[2], state[3], state[4], state[5], state[6], state[7];
      ghost var r, w := RegsOf(state[..]), Schedule(buffer[..], 64);
      RoundsStart(r, w);
      FirstWords();
      for i := 0 to 64
        modifies buffer
        invariant Regs(a, b, c, d, e, f, g, h) == Rounds(r, w, i) && Window(w, i)
      {
        RoundsStep(r, w, i);
        var word := ScheduleWord(i, old(buffer[..]));
        TableIs(i);
        TurnIsRound(Regs(a, b, c, d, e, f, g, h), KAt(i), word);
        var t := Turn(Regs(a, b, c, d, e, f, g, h), ReadK(i), word);
        a, b, c, d, e, f, g, h := t.a, t.b, t.c, t.d, t.e, t.f, t.g, t.h;
      }
      AddState(Regs(a, b, c, d, e, f, g, h));
    }

    method AddState(r: Regs)
      requires Shape()
      modifies state
      ensures RegsOf(state[..]) == AddRegs(old(RegsOf(state[..])), r)
    {
      hide Add;
      state[0] := Add(state[0], r.a);
      state[1] := Add(state[1], r.b);
      state[2] := Add(state[2], r.c);
      state[3] := Add(state[3], r.d);
      state[4] := Add(state[4], r.e);
      state[5] := Add(state[5], r.f);
      state[6] := Add(state[6], r.g);
      state[7] := Add(state[7], r.h);
    }

    lemma FirstWords()
      requires Shape()
      ensures Window(Schedule(buffer[..], 64), 0)
    {
      hide Schedule;
      SchedulePrefix(buffer[..], 16, 64);
      ScheduleStart(buffer[..]);
      forall j | 0 <= j < 16 ensures Schedule(buffer[..], 64)[j] == buffer[j] {
        assert Schedule(buffer[..], 64)[..16][j] == Schedule(buffer[..], 64)[j];
      }
    }

    /** `addUncounted`. */
    method AddUncounted(data: bv8)
      requires Valid()
      modifies this, buffer, state
      ensures Valid() && fed == old(fed) + [data] && byteCount == old(byteCount)
    {
      hide XorThree, SetLane, Loaded, Absorb, Words, RegsOf, FullBlocks, Block;
      XorThreeValue(bufferOffset);
      TailOfMore(fed, [data]);
      ghost var tail, whole := Tail(fed) + [data], FullBlocks(fed);
      PutOctet(XorThree(bufferOffset), data, Tail(fed));
      bufferOffset := bufferOffset + 1;
      fed := fed + [data];
      if bufferOffset == 64 {
        FullBuffer(buffer[..], tail);
        AbsorbBlock(H0, whole, tail);
        HashBlock();
        bufferOffset := 0;
        NoOctets(buffer[..]);
      }
    }

    /** `buffer.b[at] = data`. */
    method PutOctet(at: byte, data: bv8, ghost tail: seq<bv8>)
      requires Shape() && |tail| < 64 && at == |tail| / 4 * 4 + 3 - |tail| % 4
      requires Loaded(buffer[..], tail)
      modifies buffer
      ensures Loaded(buffer[..], tail + [data])
    {
      hide SetLane, ByteOf;
      ghost var n := |tail|;
      assert at as int / 4 == n / 4 && at as int % 4 == 3 - n % 4;
      ghost var w := buffer[n / 4];
      buffer[at as int / 4] := SetLane(buffer[at as int / 4], at as int % 4, data);
      forall i | 0 <= i <= n ensures ByteOf(buffer[i / 4], i % 4) == (tail + [data])[i] {
        SetLaneByte(w, n % 4, data, i % 4);
      }
    }

    /** `write`. */
    method Write(data: bv8)
      requires Valid()
      modifies this, buffer, state
      ensures Valid() && fed == old(fed) + [data] && byteCount == (old(byteCount) + 1) % 0x1_0000_0000
    {
      byteCount := (byteCount + 1) % 0x1_0000_0000;
      AddUncounted(data);
    }

    /** `pad`. */
    method Pad()
      requires Valid() && byteCount == |fed|
      modifies this, buffer, state
      ensures Valid() && fed == old(fed) + Padding(|old(fed)|)
    {
      hide Valid, Digit, BigEndian, ZeroCount;
      ghost var fed0 := fed;
      PadZeros();
      assert fed + BigEndian(8 * |fed0|, 8) == fed0 + Padding(|fed0|);
      AddLength();
    }

    method AddLength()
      requires Valid()
      modifies this, buffer, state
      ensures Valid() && fed == old(fed) + BigEndian(8 * old(byteCount), 8)
    {
      hide Valid, Digit, BigEndian;
      ghost var fed0 := fed;
      AddFour(0, 0, 0, Digit(byteCount / 0x2000_0000));
      AddFour(Digit(byteCount / 0x20_0000), Digit(byteCount / 0x2000), Digit(byteCount / 0x20),
              Digit(byteCount * 8 % 0x1_0000_0000));
      LengthOctets(byteCount);
      assert fed == fed0 + BigEndian(8 * old(byteCount), 8);
    }

    method AddFour(b0: bv8, b1: bv8, b2: bv8, b3: bv8)
      requires Valid()
      modifies this, buffer, state
      ensures Valid() && fed == old(fed) + [b0, b1, b2, b3] && byteCount == old(byteCount)
    {
      hide Valid;
      AddUncounted(b0);
      AddUncounted(b1);
      AddUncounted(b2);
      AddUncounted(b3);
    }

    method PadZeros()
      requires Valid()
      modifies this, buffer, state
      ensures Valid() && fed == old(fed) + ([0x80] + Zeros(ZeroCount(|old(fed)|))) && byteCount == old(byteCount)
    {
      hide Valid, ZeroCount;
      ghost var fed0 := fed;
      AddUncounted(0x80);
      ghost var n := 0;
      assert [0x80] + Zeros(0) == [0x80];
      PadEnd(|fed0|, 0);
      Offset();
      while bufferOffset != 56
        invariant Valid() && byteCount == old(byteCount) && n <= ZeroCount(|fed0|) && bufferOffset == |fed| % 64
        invariant fed == fed0 + ([0x80] + Zeros(n))
        decreases ZeroCount(|fed0|) - n
      {
        PadEnd(|fed0|, n);
        AddUncounted(0);
        n := n + 1;
        Offset();
        assert [0x80] + Zeros(n) == [0x80] + Zeros(n - 1) + [0];
      }
      PadEnd(|fed0|, n);
    }

    /** `result`: the digest is read from the state as octets in little-endian order. */
    method Result() returns (hash: seq<bv8>)
      requires Valid() && byteCount == |fed|
      modifies this, buffer, state
      ensures hash == Sha256(old(fed)) && Shape()
    {
      hide Absorb, RegsOf, Swap, Lane, ByteOf, Padding, Loaded, Output;
      ghost var message := fed;
      Pad();
      EndsOnBlock(message);
      assert FullBlocks(fed) == fed;
      ghost var h := state[..];
      for i := 0 to 8
        modifies state
        invariant forall k :: 0 <= k < 8 ==> state[k] == if k < i then Swap(h[k]) else h[k]
      {
        state[i] := Swap(state[i]);
      }
      var s := state[..];
      hash := seq(32, i requires 0 <= i < 32 => Lane(s[i / 4], i % 4));
      SwappedOutput(hash, h);
    }

    /** `write` for each octet in turn. */
    method WriteAll(data: seq<bv8>)
      requires Valid() && byteCount == |fed| && |fed| + |data| < 0x1_0000_0000
      modifies this, buffer, state
      ensures Valid() && byteCount == |fed| && fed == old(fed) + data
    {
      hide Valid;
      assert data[..0] == [];
      for i := 0 to |data|
        invariant Valid() && fed == old(fed) + data[..i] && byteCount == |fed|
      {
        Write(data[i]);
        assert data[..i + 1] == data[..i] + [data[i]];
      }
      assert data[..|data|] == data;
    }

    /** `initHmac`. */
    method InitHmac(key: seq<bv8>)
      requires Shape() && |key| < 0x8000_0000
      modifies this, buffer, state, keyBuffer
      ensures Valid() && byteCount == |fed| && keyBuffer[..] == KeyBlock(key) && fed == XorAll(KeyBlock(key), 0x36)
    {
      hide Valid, Sha256, XorByte;
      var short := key;
      if |key| > 64 {
        Init();
        WriteAll(key);
        assert [] + key == key;
        short := Result();
      }
      SetKey(short);
      Init();
      ghost var pad := XorAll(keyBuffer[..], 0x36);
      WriteAll(XorAll(keyBuffer[..], 0x36));
      assert [] + pad == pad;
    }

    /** The key buffer is cleared and the key copied to its front. */
    method SetKey(short: seq<bv8>)
      requires Shape() && |short| <= 64
      modifies keyBuffer
      ensures keyBuffer[..] == short + Zeros(64 - |short|)
    {
      for i := 0 to 64
        invariant forall k :: 0 <= k < i ==> keyBuffer[k] == 0
      {
        keyBuffer[i] := 0;
      }
      for i := 0 to |short|
        invariant forall k :: 0 <= k < 64 ==> keyBuffer[k] == if k < i then short[k] else 0
      {
        keyBuffer[i] := short[i];
      }
    }

    /** `resultHmac`. */
    method ResultHmac() returns (digest: seq<bv8>)
      requires Valid() && byteCount == |fed|
      modifies this, buffer, state, innerHash
      ensures digest == Sha256(XorAll(old(keyBuffer[..]), 0x5c) + Sha256(old(fed)))
    {
      hide Valid, Sha256, XorAll;
      ShapeOf();
      var inner := Result();
      forall i | 0 <= i < 32 {
        innerHash[i] := inner[i];
      }
      assert innerHash[..] == inner;
      Init();
      assert keyBuffer[..] == old(keyBuffer[..]);
      ghost var pad := XorAll(keyBuffer[..], 0x5c);
      WriteAll(XorAll(keyBuffer[..], 0x5c));
      assert [] + pad == pad && fed == pad;
      WriteAll(innerHash[..]);
      assert fed == pad + inner;
      digest := Result();
    }

    lemma ShapeOf()
      requires Valid()
      ensures Shape()
    {
    }

    lemma Offset()
      requires Valid()
      ensures bufferOffset == |fed| % 64
    {
    }
  }

  lemma PadEnd(f: nat, n: nat)
    requires n <= ZeroCount(f)
    ensures (f + 1 + n) % 64 == 56 <==> n == ZeroCount(f)
  {
  }

  lemma NoOctets(buffer: seq<bv32>)
    requires |buffer| == 16
    ensures Loaded(buffer, [])
  {
  }

  lemma OctetUp(x: nat, k: nat)
    ensures BigEndian(x, k + 1) == BigEndian(x / 0x100, k) + [Digit(x)]
  {
    hide Digit;
    SameDigit(x, x % 0x100);
  }

  lemma LengthOctets(n: u32)
    ensures BigEndian(8 * n, 8)
         == [0, 0, 0, Digit(n / 0x2000_0000), Digit(n / 0x20_0000), Digit(n / 0x2000), Digit(n / 0x20),
             Digit(n * 8 % 0x1_0000_0000)]
  {
    hide Digit, BigEndian;
    Quotients(n);
    OctetUp(8 * n, 7);
    OctetUp(n / 0x20, 6);
    OctetUp(n / 0x2000, 5);
    OctetUp(n / 0x20_0000, 4);
    OctetUp(n / 0x2000_0000, 3);
    ZeroOctets();
    LowOctet(n);
    SameDigit(8 * n, n * 8 % 0x1_0000_0000);
  }

  lemma ZeroOctets()
    ensures BigEndian(0, 3) == [0, 0, 0]
  {
  }

  /** A buffer whose octets are those of `t` holds its words. */
  lemma FullBuffer(buffer: seq<bv32>, t: seq<bv8>)
    requires |buffer| == 16 && |t| == 64 && Loaded(buffer, t)
    ensures buffer == Words(t)
  {
    hide ByteOf, Word;
    forall k | 0 <= k < 16 ensures buffer[k] == WordAt(t, k) {
      WordOfBytes(buffer[k]);
      assert ByteOf(buffer[k], 0) == t[4 * k] && ByteOf(buffer[k], 1) == t[4 * k + 1];
      assert ByteOf(buffer[k], 2) == t[4 * k + 2] && ByteOf(buffer[k], 3) == t[4 * k + 3];
    }
  }

  lemma SwappedOutput(d: seq<bv8>, s: seq<bv32>)
    requires |d| == 32 && |s| == 8 && forall i :: 0 <= i < 32 ==> d[i] == Lane(Swap(s[i / 4]), i % 4)
    ensures d == Output(RegsOf(s))
  {
    hide Lane, Swap, ByteOf;
    forall i | 0 <= i < 32 ensures d[i] == ByteOf(s[i / 4], i % 4) {
      SwapLanes(s[i / 4]);
    }
    OutputBytes(d, s);
  }

  /** A message authenticated the way the class is used. */
  method HmacOf(key: seq<bv8>, text: seq<bv8>) returns (digest: seq<bv8>)
    requires |key| < 0x8000_0000 && 64 + |text| < 0x1_0000_0000
    ensures digest == Hmac(key, text)
  {
    hide Sha256, XorAll, Hasher.Valid;
    var sha := new Hasher();
    sha.InitHmac(key);
    sha.WriteAll(text);
    digest := sha.ResultHmac();
  }
}
