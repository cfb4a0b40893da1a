/** Octets and words: how the two implementations fill and read their buffers. */
module Sha256Words {
  import opened Sha256Spec

  // ---------------------------------------------------------------- hmac.c: octets or-ed into a cleared word

  /** `w |= b << (24 - pos * 8)`. */
  function OrAt(w: bv32, pos: nat, b: bv8): bv32
    requires pos < 4
  {
    if pos == 0 then w | ((b as bv32) << 24)
    else if pos == 1 then w | ((b as bv32) << 16)
    else if pos == 2 then w | ((b as bv32) << 8)
    else w | (b as bv32)
  }

  lemma OrAt0(b: bv8)
    ensures OrAt(Word(0, 0, 0, 0), 0, b) == Word(b, 0, 0, 0)
  {
  }

  lemma OrAt1(b0: bv8, b: bv8)
    ensures OrAt(Word(b0, 0, 0, 0), 1, b) == Word(b0, b, 0, 0)
  {
  }

  lemma OrAt2(b0: bv8, b1: bv8, b: bv8)
    ensures OrAt(Word(b0, b1, 0, 0), 2, b) == Word(b0, b1, b, 0)
  {
  }

  lemma OrAt3(b0: bv8, b1: bv8, b2: bv8, b: bv8)
    ensures OrAt(Word(b0, b1, b2, 0), 3, b) == Word(b0, b1, b2, b)
  {
  }

  lemma WordElsewhere(data: seq<bv8>, b: bv8, i: nat)
    requires i != |data| / 4
    ensures WordAt(data + [b], i) == WordAt(data, i)
  {
    hide Word;
    assert forall j :: 4 * i <= j < 4 * i + 4 ==> At(data + [b], j) == At(data, j);
  }

  lemma LastWord(data: seq<bv8>, b: bv8)
    ensures WordAt(data + [b], |data| / 4) == OrAt(WordAt(data, |data| / 4), |data| % 4, b)
  {
    hide Word, OrAt;
    var k, pos := |data| / 4 * 4, |data| % 4;
    if pos == 0 {
      OrAt0(b);
    } else if pos == 1 {
      OrAt1(data[k], b);
    } else if pos == 2 {
      OrAt2(data[k], data[k + 1], b);
    } else {
      OrAt3(data[k], data[k + 1], data[k + 2], b);
    }
  }

  /** Appending an octet to the data in a buffer that is zero behind it. */
  lemma WordsAppend(data: seq<bv8>, b: bv8)
    requires |data| < 64
    ensures var k := |data| / 4;
            Words(data + [b]) == Words(data)[k := OrAt(Words(data)[k], |data| % 4, b)]
  {
    hide WordAt, OrAt;
    LastWord(data, b);
    forall i | 0 <= i < 16 && i != |data| / 4 ensures Words(data + [b])[i] == Words(data)[i] {
      WordElsewhere(data, b, i);
    }
  }

  lemma NoWords()
    ensures Words([]) == seq(16, _ => 0)
  {
  }

  // ---------------------------------------------------------------- sha256.cpp: a little-endian union

  /** The octet of a little-endian word at lane `lane` is set to `b`. */
  function SetLane(w: bv32, lane: nat, b: bv8): bv32
    requires lane < 4
  {
    if lane == 0 then (w & 0xFFFF_FF00) | (b as bv32)
    else if lane == 1 then (w & 0xFFFF_00FF) | ((b as bv32) << 8)
    else if lane == 2 then (w & 0xFF00_FFFF) | ((b as bv32) << 16)
    else (w & 0x00FF_FFFF) | ((b as bv32) << 24)
  }

  function Lane(w: bv32, lane: nat): bv8
    requires lane < 4
  {
    if lane == 0 then (w & 0xFF) as bv8
    else if lane == 1 then ((w >> 8) & 0xFF) as bv8
    else if lane == 2 then ((w >> 16) & 0xFF) as bv8
    else ((w >> 24) & 0xFF) as bv8
  }

  /** Lane `i ^ 3` of a little-endian word is octet `i` counted from the most significant one. */
  lemma SetLaneByte(w: bv32, i: nat, b: bv8, j: nat)
    requires i < 4 && j < 4
    ensures ByteOf(SetLane(w, 3 - i, b), j) == if i == j then b else ByteOf(w, j)
  {
    hide SetLane, ByteOf;
    if i == 0 {
      SetLane3(w, b);
    } else if i == 1 {
      SetLane2(w, b);
    } else if i == 2 {
      SetLane1(w, b);
    } else {
      SetLane0(w, b);
    }
  }

  lemma SetLane0(w: bv32, b: bv8)
    ensures forall j | 0 <= j < 4 :: ByteOf(SetLane(w, 0, b), j) == if j == 3 then b else ByteOf(w, j)
  {
  }

  lemma SetLane1(w: bv32, b: bv8)
    ensures forall j | 0 <= j < 4 :: ByteOf(SetLane(w, 1, b), j) == if j == 2 then b else ByteOf(w, j)
  {
  }

  lemma SetLane2(w: bv32, b: bv8)
    ensures forall j | 0 <= j < 4 :: ByteOf(SetLane(w, 2, b), j) == if j == 1 then b else ByteOf(w, j)
  {
  }

  lemma SetLane3(w: bv32, b: bv8)
    ensures forall j | 0 <= j < 4 :: ByteOf(SetLane(w, 3, b), j) == if j == 0 then b else ByteOf(w, j)
  {
  }

  lemma WordOfBytes(w: bv32)
    ensures Word(ByteOf(w, 0), ByteOf(w, 1), ByteOf(w, 2), ByteOf(w, 3)) == w
  {
  }

  /** The byte swap at the end of sha256.cpp. */
  function Swap(a: bv32): bv32 {
    (((a << 24) | ((a << 8) & 0x00ff_0000)) | ((a >> 8) & 0x0000_ff00)) | (a >> 24)
  }

  lemma SwapLanes(w: bv32)
    ensures Lane(Swap(w), 0) == ByteOf(w, 0) && Lane(Swap(w), 1) == ByteOf(w, 1)
    ensures Lane(Swap(w), 2) == ByteOf(w, 2) && Lane(Swap(w), 3) == ByteOf(w, 3)
  {
  }

  // ---------------------------------------------------------------- the stream of octets

  function RegsOf(s: seq<bv32>): Regs
    requires |s| == 8
  {
    Regs(s[0], s[1], s[2], s[3], s[4], s[5], s[6], s[7])
  }

  /** The whole blocks of what has been fed, and what is left over. */
  function FullBlocks(fed: seq<bv8>): (w: seq<bv8>)
    ensures |w| % 64 == 0
  {
    fed[..|fed| / 64 * 64]
  }

  function Tail(fed: seq<bv8>): (t: seq<bv8>)
    ensures |t| == |fed| % 64
  {
    fed[|fed| / 64 * 64..]
  }

  lemma TailOfMore(fed: seq<bv8>, more: seq<bv8>)
    requires |fed| % 64 + |more| <= 64
    ensures if |fed| % 64 + |more| < 64 then
              FullBlocks(fed + more) == FullBlocks(fed) && Tail(fed + more) == Tail(fed) + more
            else
              FullBlocks(fed + more) == FullBlocks(fed) + (Tail(fed) + more) && Tail(fed + more) == []
  {
    var q := |fed| / 64 * 64;
    if |fed| % 64 + |more| < 64 {
      assert (|fed| + |more|) / 64 * 64 == q;
    } else {
      assert (|fed| + |more|) / 64 * 64 == q + 64 == |fed| + |more|;
      assert fed == fed[..q] + fed[q..];
    }
  }

  lemma AbsorbNothing()
    ensures Absorb(H0, FullBlocks([])) == H0 && Tail([]) == []
  {
  }

  lemma EndsOnBlock(message: seq<bv8>)
    ensures |message + Padding(|message|)| % 64 == 0
  {
  }

  lemma OutputBytes(d: seq<bv8>, s: seq<bv32>)
    requires |d| == 32 && |s| == 8 && forall k :: 0 <= k < 32 ==> d[k] == ByteOf(s[k / 4], k % 4)
    ensures d == Output(RegsOf(s))
  {
    hide ByteOf;
    assert s == [s[0], s[1], s[2], s[3], s[4], s[5], s[6], s[7]];
  }
}
