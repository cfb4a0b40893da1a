/** SHA-256 and HMAC of hmac.c. */
module Sha256Linux {
  import opened Octets
  import opened Prelude
  import opened Sha256Length
  import opened Sha256Spec
  import opened Sha256Words

  // ---------------------------------------------------------------- the expressions of sha256_update

  /** `x >> right | x << left`. */
  function Rot(x: bv32, right: nat, left: nat): bv32
    requires right < 32 && left < 32
  {
    (x >> right) | (x << left)
  }

  function Past(x: bv32, n: nat): bv32
    requires n < 32
  {
    x >> n
  }

  function S0(x: bv32): bv32 { Xor3(Rot(x, 7, 25), Rot(x, 18, 14), Past(x, 3)) }

  function S1(x: bv32): bv32 { Xor3(Rot(x, 17, 15), Rot(x, 19, 13), Past(x, 10)) }

  function E0(a: bv32): bv32 { Xor3(Rot(a, 2, 30), Rot(a, 13, 19), Rot(a, 22, 10)) }

  function E1(e: bv32): bv32 { Xor3(Rot(e, 6, 26), Rot(e, 11, 21), Rot(e, 25, 7)) }

  function Chosen(e: bv32, f: bv32, g: bv32): bv32 { (e & f) ^ (!e & g) }

  function Majority(a: bv32, b: bv32, c: bv32): bv32 { (a & b) ^ (a & c) ^ (b & c) }

  lemma RotIs(x: bv32, n: nat)
    requires 0 < n < 32
    ensures Rot(x, n, 32 - n) == Rotr(x, n) && Past(x, n) == Shr(x, n)
  {
  }

  /** They are the functions of section 4.1.2. */
  lemma ScheduleTerms(x: bv32)
    ensures S0(x) == SmallSigma0(x) && S1(x) == SmallSigma1(x)
  {
    hide Xor3, Rot, Rotr, Past, Shr;
    RotIs(x, 7);
    RotIs(x, 18);
    RotIs(x, 3);
    RotIs(x, 17);
    RotIs(x, 19);
    RotIs(x, 10);
  }

  lemma RoundTerms(x: bv32, y: bv32, z: bv32)
    ensures E0(x) == BigSigma0(x) && E1(x) == BigSigma1(x)
    ensures Chosen(x, y, z) == Ch(x, y, z) && Majority(x, y, z) == Maj(x, y, z)
  {
    ChoiceTerms(x, y, z);
    hide Xor3, Rot, Rotr, Chosen, Ch, Majority, Maj;
    RotIs(x, 2);
    RotIs(x, 13);
    RotIs(x, 22);
    RotIs(x, 6);
    RotIs(x, 11);
    RotIs(x, 25);
  }

  lemma ChoiceTerms(x: bv32, y: bv32, z: bv32)
    ensures Chosen(x, y, z) == Ch(x, y, z) && Majority(x, y, z) == Maj(x, y, z)
  {
  }

  /** The table k of sha256_update, in rows of eight. */
  const TABLE: seq<seq<bv32>> := [
    [0x428a2f98, 0x71374491, 0xb5c0fbcf, 0xe9b5dba5, 0x3956c25b, 0x59f111f1, 0x923f82a4, 0xab1c5ed5],
    [0xd807aa98, 0x12835b01, 0x243185be, 0x550c7dc3, 0x72be5d74, 0x80deb1fe, 0x9bdc06a7, 0xc19bf174],
    [0xe49b69c1, 0xefbe4786, 0x0fc19dc6, 0x240ca1cc, 0x2de92c6f, 0x4a7484aa, 0x5cb0a9dc, 0x76f988da],
    [0x983e5152, 0xa831c66d, 0xb00327c8, 0xbf597fc7, 0xc6e00bf3, 0xd5a79147, 0x06ca6351, 0x14292967],
    [0x27b70a85, 0x2e1b2138, 0x4d2c6dfc, 0x53380d13, 0x650a7354, 0x766a0abb, 0x81c2c92e, 0x92722c85],
    [0xa2bfe8a1, 0xa81a664b, 0xc24b8b70, 0xc76c51a3, 0xd192e819, 0xd6990624, 0xf40e3585, 0x106aa070],
    [0x19a4c116, 0x1e376c08, 0x2748774c, 0x34b0bcb5, 0x391c0cb3, 0x4ed8aa4a, 0x5b9cca4f, 0x682e6ff3],
    [0x748f82ee, 0x78a5636f, 0x84c87814, 0x8cc70208, 0x90befffa, 0xa4506ceb, 0xbef9a3f7, 0xc67178f2]
  ]

  function Constant(t: nat): (k: bv32)
    requires t < 64
  {
    TABLE[t / 8][t % 8]
  }

  /** It holds the constants of section 4.2.2. */
  lemma TableIs(t: nat)
    requires t < 64
    ensures Constant(t) == KAt(t)
  {
    assert TABLE == K;
  }

  /** The struct sha256; `fed` is what has been hashed since the last initialisation. */
  class Context {
    const hash: array<bv8>
    const buffer: array<bv32>
    const state: array<bv32>
    const length: array<byte>
    ghost var fed: seq<bv8>

    ghost predicate Shape() {
      hash.Length == 32 && buffer.Length == 16 && state.Length == 8 && length.Length == 8 && buffer != state
      && buffer as object != length as object && state as object != length as object
      && hash as object != buffer as object && hash as object != state as object && hash as object != length as object
    }

    /** State and buffer are those of the octets in `f`. */
    ghost predicate Holds(f: seq<bv8>)
      reads buffer, state
      requires Shape()
    {
      RegsOf(state[..]) == Absorb(H0, FullBlocks(f)) && buffer[..] == Words(Tail(f))
    }

    ghost predicate Valid()
      reads this, buffer, state, length
    {
      Shape() && Holds(fed) && length[..] == Nums(8 * |fed|, 8)
    }

    constructor ()
      ensures Shape() && fresh(hash) && fresh(buffer) && fresh(state) && fresh(length)
    {
      hash, buffer, state, length := new bv8[32], new bv32[16], new bv32[8], new byte[8];
      fed := [];
    }

    /** `sha256_initialize`; its first loop also clears the word behind the buffer, which is set next. */
    method Initialize()
      requires Shape()
      modifies this, buffer, state, length
      ensures Valid() && fed == []
    {
      hide Words, Absorb, Nums;
      ClearBuffer();
      state[0], state[1], state[2], state[3] := 0x6a09e667, 0xbb67ae85, 0x3c6ef372, 0xa54ff53a;
      state[4], state[5], state[6], state[7] := 0x510e527f, 0x9b05688c, 0x1f83d9ab, 0x5be0cd19;
      assert RegsOf(state[..]) == H0;
      ClearLength();
      fed := [];
      AbsorbNothing();
    }

    method ClearBuffer()
      requires Shape()
      modifies buffer
      ensures buffer[..] == Words([])
    {
      hide Words;
      for i := 0 to 16
        invariant forall k :: 0 <= k < i ==> buffer[k] == 0
      {
        buffer[i] := 0;
      }
      NoWords();
    }

    method ClearLength()
      requires Shape()
      modifies length
      ensures length[..] == Nums(0, 8)
    {
      hide Nums;
      for i := 0 to 8
        invariant forall k :: 0 <= k < i ==> length[k] == 0
      {
        length[i] := 0;
      }
      ZeroNums(8);
    }

    /** The first loop of sha256_update: the length in bits of `n` more octets is added. */
    method AddLength(n: u32)
      requires Shape() && length[..] == Nums(8 * |fed|, 8)
      modifies length
      ensures length[..] == Nums(8 * (|fed| + n), 8)
    {
      hide BitsAt, BitsFrom, Nums;
      var i := 7;
      ghost var x: nat, y: nat := 8 * |fed|, 8 * (|fed| + n);
      BitsOfLength(n, 7);
      WholeLength(n);
      while i >= 0
        invariant -1 <= i <= 7
        invariant length[..i + 1] == Nums(x, i + 1) && x + BitsFrom(n, i) == y
        invariant Nums(y, i + 1) + length[i + 1..] == Nums(8 * (|fed| + n), 8)
      {
        BitsOfLength(n, i);
        DigitSum(x, BitsFrom(n, i));
        NumsStep(y, i);
        ghost var rest := length[i + 1..];
        AddOctet(i, BitsAt(n, i), x);
        assert length[i..] == [y % 0x100] + rest;
        x := x / 0x100 + if x % 0x100 + BitsAt(n, i) > 0xFF then 1 else 0;
        y := y / 0x100;
        i := i - 1;
      }
      assert length[..] == Nums(y, 0) + length[0..];
    }

    /** One turn of that loop. */
    method AddOctet(i: nat, bits: byte, ghost x: nat)
      requires Shape() && i < 8 && length[..i + 1] == Nums(x, i + 1)
      modifies length
      ensures length[..i] == Nums(x / 0x100 + (if x % 0x100 + bits > 0xFF then 1 else 0), i)
      ensures length[i] == (x % 0x100 + bits) % 0x100 && length[i + 1..] == old(length[i + 1..])
    {
      hide Nums, Inc;
      NumsStep(x, i);
      assert length[..i + 1] == length[..i] + [length[i]];
      ghost var front, rest := length[..i], length[i + 1..];
      if length[i] as int + bits as int > 0xFF {
        Ripple(i);
        IncNums(x / 0x100, i);
      }
      assert Nums(x, i + 1)[..i] == Nums(x / 0x100, i);
      assert length[i + 1..] == length[i..][1..] == rest;
      length[i] := (length[i] as int + bits as int) % 0x100;
    }

    /** `for (j = i - 1; j >= 0 && length[j]++ == 0xff; --j)`. */
    method Ripple(i: nat)
      requires Shape() && i < 8
      modifies length
      ensures length[..i] == Inc(old(length[..i])) && length[i..] == old(length[i..])
    {
      hide Nums, Inc;
      var j := i - 1;
      IncNothing(length[..0]);
      while j >= 0
        invariant -1 <= j < i
        invariant Inc(old(length[..i])) == Inc(length[..j + 1]) + length[j + 1..i]
        invariant length[i..] == old(length[i..])
      {
        IncSplit(length[..j + 1]);
        IncNothing(length[..0]);
        assert length[..j + 1][..j] == length[..j];
        var carry := length[j] == 0xFF;
        length[j] := (length[j] as int + 1) % 0x100;
        if !carry {
          return;
        }
        j := j - 1;
      }
    }

    /** The part of sha256_update that hashes a full buffer. */
    method HashBlock()
      requires Shape()
      modifies buffer, state
      ensures RegsOf(state[..]) == Block(old(RegsOf(state[..])), old(buffer[..]))
      ensures buffer[..] == Words([])
    {
      hide Schedule, Rounds, Words, AddRegs;
      var w := new bv32[64];
      for t := 0 to 16
        modifies w, buffer
        invariant w[..t] == old(buffer[..t])
        invariant forall k :: 0 <= k < 16 ==> buffer[k] == if k < t then 0 else old(buffer[k])
      {
        w[t] := buffer[t];
        buffer[t] := 0;
      }
      NoWords();
      assert buffer[..] == Words([]);
      ExtendSchedule(w, old(buffer[..]));
      MixIn(w);
    }

    /** The schedule behind its first sixteen words. */
    static method ExtendSchedule(w: array<bv32>, ghost block: seq<bv32>)
      requires w.Length == 64 && |block| == 16 && w[..16] == block
      modifies w
      ensures w[..] == Schedule(block, 64)
    {
      hide Add, SmallSigma0, SmallSigma1, S0, S1, Schedule, Mask;
      ScheduleStart(block);
      for t := 16 to 64
        invariant w[..t] == Schedule(block, t)
      {
        ScheduleStep(block, t);
        ScheduleTerms(w[t - 15]);
        ScheduleTerms(w[t - 2]);
        var s0 := S0(w[t - 15]);
        var s1 := S1(w[t - 2]);
        MaskWord(Add(Add(Add(s1, w[t - 7]), s0), w[t - 16]));
        w[t] := Mask(Add(Add(Add(s1, w[t - 7]), s0), w[t - 16]));
        assert w[..t + 1] == w[..t] + [w[t]];
      }
      assert w[..] == w[..64];
    }

    /** The rounds over the 64 scheduled words. */
    method MixIn(w: array<bv32>)
      requires Shape() && w.Length == 64 && w != state
      modifies state
      ensures RegsOf(state[..]) == AddRegs(old(RegsOf(state[..])), Rounds(old(RegsOf(state[..])), w[..], 64))
    {
      hide Add, BigSigma0, BigSigma1, Ch, Maj, E0, E1, Chosen, Majority, Rounds, KAt, Constant, AddRegs;
      var a, b, c, d, e, f, g, h := state[0], state[1], state[2], state[3], state[4], state[5], state[6], state[7];
      ghost var r := RegsOf(state[..]);
      RoundsStart(r, w[..]);
      for t := 0 to 64
        invariant Regs(a, b, c, d, e, f, g, h) == Rounds(r, w[..], t)
        invariant w[..] == old(w[..]) && state[..] == old(state[..])
      {
        RoundsStep(r, w[..], t);
        TableIs(t);
        RoundTerms(a, b, c);
        RoundTerms(e, f, g);
        var e0 := E0(a);
        var e1 := E1(e);
        var t1 := Add(Add(Add(Add(h, e1), Chosen(e, f, g)), Constant(t)), w[t]);
        var t2 := Add(e0, Majority(a, b, c));
        h := g;
        g := f;
        f := e;
        e := Add(d, t1);
        d := c;
        c := b;
        b := a;
        a := Add(t1, t2);
      }
      AddToState(Regs(a, b, c, d, e, f, g, h));
    }

    method AddToState(s: Regs)
      requires Shape()
      modifies state
      ensures RegsOf(state[..]) == AddRegs(old(RegsOf(state[..])), s)
    {
      hide Add, Mask;
      MaskRegs(AddRegs(RegsOf(state[..]), s));
      state[0] := Mask(Add(state[0], s.a));
      state[1] := Mask(Add(state[1], s.b));
      state[2] := Mask(Add(state[2], s.c));
      state[3] := Mask(Add(state[3], s.d));
      state[4] := Mask(Add(state[4], s.e));
      state[5] := Mask(Add(state[5], s.f));
      state[6] := Mask(Add(state[6], s.g));
      state[7] := Mask(Add(state[7], s.h));
    }

    /** `sha256_update`. */
    method Update(message: seq<bv8>)
      requires Valid() && |message| < 0x1_0000_0000
      modifies this, buffer, state, length
      ensures Valid() && fed == old(fed) + message
    {
      hide Nums, Absorb, Words, RegsOf, Holds;
      AddLength(|message|);
      var p: nat, left: nat := 0, |message|;
      ghost var fed0 := fed;
      assert message[..0] == [] && fed0 + [] == fed0;
      while left > 0
        invariant p + left == |message|
        invariant fed == fed0 + message[..p] && Holds(fed)
        invariant length[..] == Nums(8 * (|fed0| + |message|), 8)
      {
        p, left := UpdateBlock(message, p, left, fed0);
      }
      assert message[..p] == message;
    }

    /** One turn of the outer loop of sha256_update: the buffer is filled, and hashed if it is full. */
    method UpdateBlock(message: seq<bv8>, p0: nat, left0: nat, ghost fed0: seq<bv8>) returns (p: nat, left: nat)
      requires Shape() && 0 < left0 && p0 + left0 == |message|
      requires fed == fed0 + message[..p0] && Holds(fed) && length[..] == Nums(8 * (|fed0| + |message|), 8)
      modifies this, buffer, state
      ensures p0 < p && p + left == |message| && fed == fed0 + message[..p] && Holds(fed)
    {
      hide Nums, Absorb, Words, RegsOf, Block;
      IndexOfLength(|fed0| + |message|);
      var index: nat := length[6] as int % 2 * 32 + length[7] as int / 8;
      index := (index + 64 - left0 % 64) % 64;
      IndexNow(|fed|, left0);
      ghost var n := if index + left0 < 64 then left0 else 64 - index;
      index, p, left := FillBuffer(message, p0, left0, index);
      SplitRange(message, 0, p0, p);
      assert fed0 + message[..p] == fed + message[p0..p];
      TailOfMore(fed, message[p0..p]);
      ghost var whole, tail := FullBlocks(fed), Tail(fed) + message[p0..p];
      fed := fed0 + message[..p];
      if index == 64 {
        HashBlock();
        AbsorbBlock(H0, whole, tail);
      }
    }

    /** The inner loop of sha256_update: the message is appended to the buffer. */
    method FillBuffer(message: seq<bv8>, p0: nat, left0: nat, index0: nat) returns (index: nat, p: nat, left: nat)
      requires Shape() && p0 + left0 == |message| && index0 == |fed| % 64 && buffer[..] == Words(Tail(fed))
      modifies buffer
      ensures var n := if index0 + left0 < 64 then left0 else 64 - index0;
              && index == index0 + n && p == p0 + n && left == left0 - n
              && buffer[..] == Words(Tail(fed) + message[p0..p])
    {
      hide Words, OrAt;
      index, p, left := index0, p0, left0;
      assert Tail(fed) + message[p0..p] == Tail(fed);
      while left > 0 && index < 64
        invariant p0 <= p <= |message| && index == index0 + p - p0 <= 64 && left == left0 - (p - p0)
        invariant buffer[..] == Words(Tail(fed) + message[p0..p])
      {
        WordsAppend(Tail(fed) + message[p0..p], message[p]);
        GrowRange(Tail(fed), message, p0, p);
        buffer[index / 4] := OrAt(buffer[index / 4], index % 4, message[p]);
        p, index, left := p + 1, index + 1, left - 1;
      }
    }

    /** `sha256_finalize`. */
    method Finalize(message: seq<bv8>)
      requires Valid() && |message| < 0x1_0000_0000
      modifies this, hash, buffer, state, length
      ensures Valid() && hash[..] == Sha256(old(fed) + message)
    {
      hide Nums, Absorb, Words, RegsOf, Padding, Holds;
      if |message| > 0 {
        Update(message);
      } else {
        assert old(fed) + message == old(fed);
      }
      ghost var total := fed;
      var terminator := Terminator();
      Update(terminator);
      EndsOnBlock(total);
      StateOfWhole();
      Extract();
    }

    /** Stop bit, padding and the message length. */
    method Terminator() returns (t: seq<bv8>)
      requires Valid()
      ensures t == Padding(|fed|)
    {
      hide Nums, Absorb, Words, RegsOf, Padding, Holds, Digit;
      IndexOfLength(|fed|);
      var len: nat := 64 - length[6] as int % 2 * 32 - length[7] as int / 8;
      if len < 9 {
        len := len + 64;
      }
      var terminator: seq<bv8> := [0x80] + seq(71, _ => 0);
      for i := 0 to 8
        invariant |terminator| == 72 && terminator[0] == 0x80
        invariant forall k :: 1 <= k < 72 && !(len - 8 <= k < len - 8 + i) ==> terminator[k] == 0
        invariant forall k :: 0 <= k < i ==> terminator[len - 8 + k] == Digit(length[k])
      {
        terminator := terminator[len - 8 + i := Digit(length[i])];
      }
      t := terminator[..len];
      TerminatorIsPadding(t, length[..], |fed|);
    }

    /** The digest is read off the state. */
    method Extract()
      requires Shape()
      modifies hash
      ensures hash[..] == Output(RegsOf(state[..]))
    {
      hide Output, RegsOf, ByteOf;
      for i := 0 to 32
        invariant forall k :: 0 <= k < i ==> hash[k] == ByteOf(state[k / 4], k % 4)
      {
        hash[i] := ByteOf(state[i / 4], i % 4);
      }
      OutputBytes(hash[..], state[..]);
    }

    lemma StateOfWhole()
      requires Valid() && |fed| % 64 == 0
      ensures RegsOf(state[..]) == Absorb(H0, fed)
    {
      assert FullBlocks(fed) == fed;
    }
  }

  lemma IndexNow(fed: nat, left: nat)
    ensures ((fed + left) % 64 + 64 - left % 64) % 64 == fed % 64
  {
  }

  lemma TerminatorIsPadding(t: seq<bv8>, l: seq<byte>, n: nat)
    requires |l| == 8 && l == Nums(8 * n, 8) && |t| == 9 + ZeroCount(n) && t[0] == 0x80
    requires forall k :: 1 <= k < |t| - 8 ==> t[k] == 0
    requires forall k :: 0 <= k < 8 ==> t[|t| - 8 + k] == Digit(l[k])
    ensures t == Padding(n)
  {
    hide Digit, Nums;
    NumsAreDigits(8 * n, 8);
  }

  function Mask(x: bv32): bv32 { x & 0xFFFF_FFFF }

  lemma MaskWord(x: bv32)
    ensures Mask(x) == x
  {
  }

  lemma MaskRegs(r: Regs)
    ensures Regs(Mask(r.a), Mask(r.b), Mask(r.c), Mask(r.d), Mask(r.e), Mask(r.f), Mask(r.g), Mask(r.h)) == r
  {
    hide Mask;
    MaskWord(r.a);
    MaskWord(r.b);
    MaskWord(r.c);
    MaskWord(r.d);
    MaskWord(r.e);
    MaskWord(r.f);
    MaskWord(r.g);
    MaskWord(r.h);
  }

  lemma ZeroNums(k: nat)
    ensures Nums(0, k) == seq(k, _ => 0)
  {
  }

  lemma NumsStep(x: nat, k: nat)
    ensures Nums(x, k + 1) == Nums(x / 0x100, k) + [x % 0x100]
  {
  }

  lemma IncNothing(none: seq<byte>)
    requires none == []
    ensures Inc(none) == []
  {
  }

  lemma IncSplit(l: seq<byte>)
    requires l != []
    ensures Inc(l) == if l[|l| - 1] == 0xFF then Inc(l[..|l| - 1]) + [0] else l[..|l| - 1] + [l[|l| - 1] + 1]
  {
  }

  lemma WholeLength(n: u32)
    ensures BitsFrom(n, 7) == 8 * n && BitsFrom(n, -1) == 0
  {
  }
}
