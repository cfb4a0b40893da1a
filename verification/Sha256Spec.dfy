/** SHA-256 as in FIPS 180-2 and HMAC as in RFC 2104: what both implementations are measured against. */
module Sha256Spec {
  import opened Octets

  // ---------------------------------------------------------------- operations on words (section 4.1.2)

  function Add(x: bv32, y: bv32): bv32 { x + y }

  function Xor3(x: bv32, y: bv32, z: bv32): bv32 { x ^ y ^ z }

  function Rotr(x: bv32, n: nat): bv32
    requires n < 32
  {
    (x >> n) | (x << (32 - n))
  }

  function Shr(x: bv32, n: nat): bv32
    requires n < 32
  {
    x >> n
  }

  function Ch(x: bv32, y: bv32, z: bv32): bv32 { (x & y) ^ (!x & z) }

  function Maj(x: bv32, y: bv32, z: bv32): bv32 { (x & y) ^ (x & z) ^ (y & z) }

  function BigSigma0(x: bv32): bv32 { Xor3(Rotr(x, 2), Rotr(x, 13), Rotr(x, 22)) }

  function BigSigma1(x: bv32): bv32 { Xor3(Rotr(x, 6), Rotr(x, 11), Rotr(x, 25)) }

  function SmallSigma0(x: bv32): bv32 { Xor3(Rotr(x, 7), Rotr(x, 18), Shr(x, 3)) }

  function SmallSigma1(x: bv32): bv32 { Xor3(Rotr(x, 17), Rotr(x, 19), Shr(x, 10)) }

  /** The constants of section 4.2.2, in rows of eight. */
  const K: seq<seq<bv32>> := [
    [0x428a2f98, 0x71374491, 0xb5c0fbcf, 0xe9b5dba5, 0x3956c25b, 0x59f111f1, 0x923f82a4, 0xab1c5ed5],
    [0xd807aa98, 0x12835b01, 0x243185be, 0x550c7dc3, 0x72be5d74, 0x80deb1fe, 0x9bdc06a7, 0xc19bf174],
    [0xe49b69c1, 0xefbe4786, 0x0fc19dc6, 0x240ca1cc, 0x2de92c6f, 0x4a7484aa, 0x5cb0a9dc, 0x76f988da],
    [0x983e5152, 0xa831c66d, 0xb00327c8, 0xbf597fc7, 0xc6e00bf3, 0xd5a79147, 0x06ca6351, 0x14292967],
    [0x27b70a85, 0x2e1b2138, 0x4d2c6dfc, 0x53380d13, 0x650a7354, 0x766a0abb, 0x81c2c92e, 0x92722c85],
    [0xa2bfe8a1, 0xa81a664b, 0xc24b8b70, 0xc76c51a3, 0xd192e819, 0xd6990624, 0xf40e3585, 0x106aa070],
    [0x19a4c116, 0x1e376c08, 0x2748774c, 0x34b0bcb5, 0x391c0cb3, 0x4ed8aa4a, 0x5b9cca4f, 0x682e6ff3],
    [0x748f82ee, 0x78a5636f, 0x84c87814, 0x8cc70208, 0x90befffa, 0xa4506ceb, 0xbef9a3f7, 0xc67178f2]]

  function KAt(t: nat): bv32
    requires t < 64
  {
    K[t / 8][t % 8]
  }

  // ---------------------------------------------------------------- one block (section 6.2.2)

  datatype Regs = Regs(a: bv32, b: bv32, c: bv32, d: bv32, e: bv32, f: bv32, g: bv32, h: bv32)

  const H0 := Regs(0x6a09e667, 0xbb67ae85, 0x3c6ef372, 0xa54ff53a, 0x510e527f, 0x9b05688c, 0x1f83d9ab, 0x5be0cd19)

  /** The message schedule W[0], ..., W[n - 1]. */
  function Schedule(block: seq<bv32>, n: nat): (w: seq<bv32>)
    requires |block| == 16
    ensures |w| == n
  {
    if n <= 16 then block[..n]
    else
      var w := Schedule(block, n - 1);
      var t := n - 1;
      w + [Add(Add(Add(SmallSigma1(w[t - 2]), w[t - 7]), SmallSigma0(w[t - 15])), w[t - 16])]
  }

  function Round(r: Regs, k: bv32, w: bv32): Regs {
    var t1 := Add(Add(Add(Add(r.h, BigSigma1(r.e)), Ch(r.e, r.f, r.g)), k), w);
    var t2 := Add(BigSigma0(r.a), Maj(r.a, r.b, r.c));
    Regs(Add(t1, t2), r.a, r.b, r.c, Add(r.d, t1), r.e, r.f, r.g)
  }

  /** The working variables after the first `t` rounds. */
  function Rounds(r: Regs, w: seq<bv32>, t: nat): Regs
    requires t <= |w| && t <= 64
  {
    if t == 0 then r else Round(Rounds(r, w, t - 1), KAt(t - 1), w[t - 1])
  }

  function AddRegs(r: Regs, s: Regs): Regs {
    Regs(Add(r.a, s.a), Add(r.b, s.b), Add(r.c, s.c), Add(r.d, s.d),
         Add(r.e, s.e), Add(r.f, s.f), Add(r.g, s.g), Add(r.h, s.h))
  }

  function Block(h: Regs, block: seq<bv32>): Regs
    requires |block| == 16
  {
    AddRegs(h, Rounds(h, Schedule(block, 64), 64))
  }

  // ---------------------------------------------------------------- messages (section 5)

  /** Four octets, the first one most significant. */
  function Word(b0: bv8, b1: bv8, b2: bv8, b3: bv8): bv32 {
    ((b0 as bv32) << 24) | ((b1 as bv32) << 16) | ((b2 as bv32) << 8) | (b3 as bv32)
  }

  /** Octet `i` of a word, the most significant one first. */
  function ByteOf(w: bv32, i: nat): bv8
    requires i < 4
  {
    if i == 0 then ((w >> 24) & 0xFF) as bv8
    else if i == 1 then ((w >> 16) & 0xFF) as bv8
    else if i == 2 then ((w >> 8) & 0xFF) as bv8
    else (w & 0xFF) as bv8
  }

  function At(data: seq<bv8>, i: nat): bv8 { if i < |data| then data[i] else 0 }

  /** Word `k` of the data followed by zeros. */
  function WordAt(data: seq<bv8>, k: nat): bv32 {
    Word(At(data, 4 * k), At(data, 4 * k + 1), At(data, 4 * k + 2), At(data, 4 * k + 3))
  }

  function Words(data: seq<bv8>): (w: seq<bv32>)
    ensures |w| == 16
  {
    seq(16, k requires 0 <= k < 16 => WordAt(data, k))
  }

  /** The hash value after the blocks of `data`. */
  function Absorb(h: Regs, data: seq<bv8>): Regs
    requires |data| % 64 == 0
  {
    if data == [] then h
    else Block(Absorb(h, data[..|data| - 64]), Words(data[|data| - 64..]))
  }

  /** The last `k` octets of a number, most significant first. */
  function BigEndian(x: nat, k: nat): (d: seq<bv8>)
    ensures |d| == k
  {
    if k == 0 then [] else BigEndian(x / 0x100, k - 1) + [Digit(x % 0x100)]
  }

  function Zeros(n: nat): (z: seq<bv8>)
    ensures |z| == n
  {
    seq(n, _ => 0)
  }

  function ZeroCount(n: nat): nat { if n % 64 <= 55 then 55 - n % 64 else 119 - n % 64 }

  /** What is appended to a message of `n` octets; the last eight octets are its length in bits. */
  function Padding(n: nat): (p: seq<bv8>)
    ensures |p| == 9 + ZeroCount(n) && (n + |p|) % 64 == 0
  {
    [0x80] + Zeros(ZeroCount(n)) + BigEndian(8 * n, 8)
  }

  /** The eight words of the hash value, octet by octet. */
  function Output(h: Regs): (d: seq<bv8>)
    ensures |d| == 32
  {
    var w := [h.a, h.b, h.c, h.d, h.e, h.f, h.g, h.h];
    seq(32, i requires 0 <= i < 32 => ByteOf(w[i / 4], i % 4))
  }

  function Sha256(message: seq<bv8>): (d: seq<bv8>)
    ensures |d| == 32
  {
    Output(Absorb(H0, message + Padding(|message|)))
  }

  // ---------------------------------------------------------------- HMAC (section 2 of RFC 2104)

  function XorAll(data: seq<bv8>, b: bv8): (r: seq<bv8>)
    ensures |r| == |data|
  {
    seq(|data|, i requires 0 <= i < |data| => XorByte(data[i], b))
  }

  function KeyBlock(key: seq<bv8>): (k: seq<bv8>)
    ensures |k| == 64
  {
    var short := if |key| > 64 then Sha256(key) else key;
    short + Zeros(64 - |short|)
  }

  function Hmac(key: seq<bv8>, text: seq<bv8>): seq<bv8> {
    Sha256(XorAll(KeyBlock(key), 0x5c) + Sha256(XorAll(KeyBlock(key), 0x36) + text))
  }

  // ---------------------------------------------------------------- facts about the definitions

  lemma AbsorbBlock(h: Regs, data: seq<bv8>, block: seq<bv8>)
    requires |data| % 64 == 0 && |block| == 64
    ensures Absorb(h, data + block) == Block(Absorb(h, data), Words(block))
  {
    assert (data + block)[..|data|] == data && (data + block)[|data|..] == block;
  }

  lemma ScheduleStart(block: seq<bv32>)
    requires |block| == 16
    ensures Schedule(block, 16) == block
  {
  }

  lemma ScheduleStep(block: seq<bv32>, t: nat)
    requires |block| == 16 && t >= 16
    ensures var w := Schedule(block, t);
            Schedule(block, t + 1)
            == w + [Add(Add(Add(SmallSigma1(w[t - 2]), w[t - 7]), SmallSigma0(w[t - 15])), w[t - 16])]
  {
    hide Add, SmallSigma0, SmallSigma1;
  }

  lemma RoundsStart(r: Regs, w: seq<bv32>)
    ensures Rounds(r, w, 0) == r
  {
  }

  lemma RoundsStep(r: Regs, w: seq<bv32>, t: nat)
    requires t < |w| && t < 64
    ensures Rounds(r, w, t + 1) == Round(Rounds(r, w, t), KAt(t), w[t])
  {
    hide Round, KAt;
  }

  lemma {:induction false} SchedulePrefix(block: seq<bv32>, i: nat, n: nat)
    requires |block| == 16 && i <= n
    ensures Schedule(block, n)[..i] == Schedule(block, i)
    decreases n
  {
    hide Add, SmallSigma0, SmallSigma1;
    if i < n {
      SchedulePrefix(block, i, n - 1);
      if n > 16 {
        assert Schedule(block, n)[..i] == Schedule(block, n - 1)[..i];
      }
    }
  }

  /** The recurrence of section 6.2.2, on the entries of the whole schedule. */
  lemma ScheduleEntry(block: seq<bv32>, t: nat)
    requires |block| == 16 && 16 <= t < 64
    ensures var w := Schedule(block, 64);
            w[t] == Add(Add(Add(SmallSigma1(w[t - 2]), w[t - 7]), SmallSigma0(w[t - 15])), w[t - 16])
  {
    hide Add, SmallSigma0, SmallSigma1, Schedule;
    SchedulePrefix(block, t, 64);
    SchedulePrefix(block, t + 1, 64);
    ScheduleStep(block, t);
    var w := Schedule(block, 64);
    assert w[..t + 1][t] == w[t] && w[..t][t - 2] == w[t - 2];
  }
}
