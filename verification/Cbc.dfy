/** CBC of iot_aes_pub.c over any block cipher. */
module Cbc {
  import opened Octets
  import opened Prelude

  const BLOCK := 16

  /** A block cipher under some key; RT_AES_Encrypt and RT_AES_Decrypt are not part of this model. */
  datatype Cipher = Cipher(enc: seq<bv8> -> seq<bv8>, dec: seq<bv8> -> seq<bv8>)

  predicate Whole(s: seq<bv8>) { |s| % BLOCK == 0 }

  ghost predicate Blocks(c: Cipher) {
    && (forall b :: |b| == BLOCK ==> |c.enc(b)| == BLOCK)
    && (forall b :: |b| == BLOCK ==> |c.dec(b)| == BLOCK)
  }

  function Enc(c: Cipher, block: seq<bv8>): (r: seq<bv8>)
    requires Blocks(c) && |block| == BLOCK
    ensures |r| == BLOCK
  {
    c.enc(block)
  }

  function Dec(c: Cipher, block: seq<bv8>): (r: seq<bv8>)
    requires Blocks(c) && |block| == BLOCK
    ensures |r| == BLOCK
  {
    c.dec(block)
  }

  ghost predicate Inverse(c: Cipher) {
    Blocks(c) && forall b :: |b| == BLOCK ==> Dec(c, Enc(c, b)) == b
  }

  // ---------------------------------------------------------------- section 6.2 of NIST SP 800-38A

  function XorBlock(a: seq<bv8>, b: seq<bv8>): (r: seq<bv8>)
    requires |a| == |b|
    ensures |r| == |a|
  {
    seq(|a|, i requires 0 <= i < |a| => XorByte(a[i], b[i]))
  }

  ghost function Encrypted(c: Cipher, iv: seq<bv8>, plain: seq<bv8>): (r: seq<bv8>)
    requires Blocks(c) && |iv| == BLOCK && Whole(plain)
    ensures |r| == |plain| && Whole(r)
    decreases |plain|
  {
    if plain == [] then []
    else
      var b := Enc(c, XorBlock(plain[..BLOCK], iv));
      b + Encrypted(c, b, plain[BLOCK..])
  }

  ghost function Decrypted(c: Cipher, iv: seq<bv8>, cipher: seq<bv8>): (r: seq<bv8>)
    requires Blocks(c) && |iv| == BLOCK && Whole(cipher)
    ensures |r| == |cipher| && Whole(r)
    decreases |cipher|
  {
    if cipher == [] then []
    else XorBlock(Dec(c, cipher[..BLOCK]), iv) + Decrypted(c, cipher[..BLOCK], cipher[BLOCK..])
  }

  lemma WholeEnds(text: seq<bv8>)
    requires Whole(text)
    ensures text == [] || |text| >= BLOCK
  {
  }

  /** What the next block is chained to. */
  function Chain(iv: seq<bv8>, cipher: seq<bv8>): (r: seq<bv8>)
    requires |iv| == BLOCK && Whole(cipher)
    ensures |r| == BLOCK
  {
    WholeEnds(cipher);
    if cipher == [] then iv else cipher[|cipher| - BLOCK..]
  }

  lemma WholeTail(text: seq<bv8>)
    requires Whole(text) && text != []
    ensures |text| >= BLOCK && Whole(text[BLOCK..]) && (|text| > BLOCK ==> |text| >= 2 * BLOCK)
  {
  }

  lemma FirstBlock(c: Cipher, iv: seq<bv8>, text: seq<bv8>)
    requires Blocks(c) && |iv| == BLOCK && Whole(text) && text != []
    ensures |text| >= BLOCK && Whole(text[BLOCK..])
    ensures Decrypted(c, iv, text) == XorBlock(Dec(c, text[..BLOCK]), iv) + Decrypted(c, text[..BLOCK], text[BLOCK..])
    ensures var b := Enc(c, XorBlock(text[..BLOCK], iv));
            Encrypted(c, iv, text) == b + Encrypted(c, b, text[BLOCK..])
  {
    hide Blocks, Enc, Dec, XorBlock, Whole;
    WholeTail(text);
  }

  lemma ChainTail(iv: seq<bv8>, text: seq<bv8>)
    requires |iv| == BLOCK && Whole(text) && text != []
    ensures |text| >= BLOCK && Whole(text[BLOCK..])
    ensures Chain(text[..BLOCK], text[BLOCK..]) == Chain(iv, text)
  {
    hide Whole;
    WholeTail(text);
  }

  lemma FirstOfSum(a: seq<bv8>, b: seq<bv8>)
    requires Whole(a) && Whole(b) && a != []
    ensures Whole(a + b) && Whole(a[BLOCK..])
    ensures (a + b)[..BLOCK] == a[..BLOCK] && (a + b)[BLOCK..] == a[BLOCK..] + b
  {
  }

  lemma {:induction false} DecryptedAppend(c: Cipher, iv: seq<bv8>, a: seq<bv8>, b: seq<bv8>)
    requires Blocks(c) && |iv| == BLOCK && Whole(a) && Whole(b)
    ensures Whole(a + b)
    ensures Decrypted(c, iv, a + b) == Decrypted(c, iv, a) + Decrypted(c, Chain(iv, a), b)
    decreases |a|
  {
    hide Blocks, Enc, Dec, XorBlock, Decrypted, Whole;
    if a == [] {
      EncryptNothing(c, iv, a);
      assert a + b == b;
    } else {
      FirstOfSum(a, b);
      FirstBlock(c, iv, a);
      FirstBlock(c, iv, a + b);
      ChainTail(iv, a);
      DecryptedAppend(c, a[..BLOCK], a[BLOCK..], b);
    }
  }

  lemma {:induction false} EncryptedAppend(c: Cipher, iv: seq<bv8>, a: seq<bv8>, b: seq<bv8>)
    requires Blocks(c) && |iv| == BLOCK && Whole(a) && Whole(b)
    ensures Whole(a + b)
    ensures Encrypted(c, iv, a + b) == Encrypted(c, iv, a) + Encrypted(c, Chain(iv, Encrypted(c, iv, a)), b)
    decreases |a|
  {
    hide Blocks, Enc, Dec, XorBlock, Encrypted, Whole;
    if a == [] {
      EncryptNothing(c, iv, a);
      assert a + b == b;
    } else {
      FirstOfSum(a, b);
      FirstBlock(c, iv, a);
      FirstBlock(c, iv, a + b);
      var first := Enc(c, XorBlock(a[..BLOCK], iv));
      EncryptedAppend(c, first, a[BLOCK..], b);
      ChainTail(iv, Encrypted(c, iv, a));
    }
  }

  lemma XorTwice(a: seq<bv8>, b: seq<bv8>)
    requires |a| == |b|
    ensures XorBlock(XorBlock(a, b), b) == a
  {
    hide XorByte;
    forall i | 0 <= i < |a| ensures XorByte(XorByte(a[i], b[i]), b[i]) == a[i] {
      XorByteTwice(a[i], b[i]);
    }
  }

  lemma XorByteTwice(a: bv8, b: bv8)
    ensures XorByte(XorByte(a, b), b) == a
  {
  }

  /** Decryption inverts encryption. */
  lemma {:induction false} DecryptsEncrypted(c: Cipher, iv: seq<bv8>, plain: seq<bv8>)
    requires Inverse(c) && |iv| == BLOCK && Whole(plain)
    ensures Decrypted(c, iv, Encrypted(c, iv, plain)) == plain
    decreases |plain|
  {
    hide Blocks, Enc, Dec, XorBlock;
    if plain != [] {
      var b := Enc(c, XorBlock(plain[..BLOCK], iv));
      var rest := Encrypted(c, b, plain[BLOCK..]);
      assert (b + rest)[..BLOCK] == b && (b + rest)[BLOCK..] == rest;
      XorTwice(plain[..BLOCK], iv);
      DecryptsEncrypted(c, b, plain[BLOCK..]);
    }
  }

  // ---------------------------------------------------------------- padding

  function PaddingSize(n: nat): (p: nat)
    ensures 1 <= p <= BLOCK && (n + p) % BLOCK == 0
  {
    BLOCK - n % BLOCK
  }

  function Padded(plain: seq<bv8>): (r: seq<bv8>)
    ensures Whole(r) && |r| == |plain| + PaddingSize(|plain|)
  {
    var p := PaddingSize(|plain|);
    plain + seq(p, _ => Digit(p))
  }

  /** Every octet of the padding is the number of octets added, one to sixteen. */
  lemma PaddingOctets(plain: seq<bv8>)
    ensures var r, p := Padded(plain), 16 - |plain| % 16;
            && |r| == |plain| + p && r[..|plain|] == plain
            && forall i :: |plain| <= i < |r| ==> Value(r[i]) == p
  {
    hide Digit, Value;
    ValueOfDigit(PaddingSize(|plain|));
  }

  predicate KeyLengthOk(keyLength: nat) { keyLength == 16 || keyLength == 24 || keyLength == 32 }

  /** `aes_cbc_encrypt`; `limit` is the size of the output on entry, and the result is left as it is on an error. */
  method Encrypt(c: Cipher, plain: seq<bv8>, keyLength: nat, iv: seq<bv8>, out: array<bv8>, limit: nat)
    returns (length: nat)
    requires Blocks(c) && |plain| + BLOCK < 0x1_0000_0000 && limit <= out.Length
    modifies out
    ensures var size := |plain| + PaddingSize(|plain|);
            if limit < size || keyLength !in {16, 24, 32} || |iv| != BLOCK then
              length == limit && out[..] == old(out[..])
            else
              && length == size
              && out[..length] == Encrypted(c, iv, Padded(plain)) && out[length..] == old(out[length..])
  {
    hide Blocks, Enc, Encrypted;
    var lastBlockSize := |plain| % BLOCK;
    var paddingSize := BLOCK - lastBlockSize;
    if limit < |plain| + paddingSize || !KeyLengthOk(keyLength) || |iv| != BLOCK {
      return limit;
    }
    var start := 0;
    EncryptNothing(c, iv, plain[..0]);
    while |plain| - start >= BLOCK
      invariant start % BLOCK == 0 && start <= |plain|
      invariant out[..start] == Encrypted(c, iv, plain[..start]) && out[start..] == old(out[start..])
    {
      EncryptBlock(c, plain[start..start + BLOCK], iv, out, start, plain[..start]);
      SplitRange(plain, 0, start, start + BLOCK);
      start := start + BLOCK;
    }
    var block := plain[start..] + seq(paddingSize, _ => Digit(paddingSize));
    assert plain[..start] + block == Padded(plain);
    EncryptBlock(c, block, iv, out, start, plain[..start]);
    return start + BLOCK;
  }

  /** A block is chained to the output before it and encrypted. */
  method EncryptBlock(c: Cipher, block: seq<bv8>, iv: seq<bv8>, out: array<bv8>, start: nat, ghost done: seq<bv8>)
    requires Blocks(c) && |iv| == BLOCK && |block| == BLOCK && start % BLOCK == 0 && start + BLOCK <= out.Length
    requires |done| == start && out[..start] == Encrypted(c, iv, done)
    modifies out
    ensures out[..start + BLOCK] == Encrypted(c, iv, done + block) && out[start + BLOCK..] == old(out[start + BLOCK..])
  {
    hide Blocks, Enc, Dec, XorBlock, Encrypted;
    EncryptOneMore(c, iv, done, block);
    Store(out, start, Enc(c, XorBlock(block, if start == 0 then iv else out[start - BLOCK..start])));
  }

  method Store(out: array<bv8>, start: nat, block: seq<bv8>)
    requires |block| == BLOCK && start + BLOCK <= out.Length
    modifies out
    ensures out[..] == old(out[..start]) + block + old(out[start + BLOCK..])
  {
    forall i | 0 <= i < BLOCK {
      out[start + i] := block[i];
    }
  }

  lemma EncryptNothing(c: Cipher, iv: seq<bv8>, none: seq<bv8>)
    requires Blocks(c) && |iv| == BLOCK && none == []
    ensures Encrypted(c, iv, none) == [] && Decrypted(c, iv, none) == []
  {
  }

  lemma EncryptOneMore(c: Cipher, iv: seq<bv8>, a: seq<bv8>, block: seq<bv8>)
    requires Blocks(c) && |iv| == BLOCK && Whole(a) && |block| == BLOCK
    ensures var e := Encrypted(c, iv, a);
            Encrypted(c, iv, a + block) == e + Enc(c, XorBlock(block, if a == [] then iv else e[|a| - BLOCK..]))
  {
    hide Blocks, Enc, Dec, XorBlock;
    EncryptedAppend(c, iv, a, block);
    OneBlock(c, Chain(iv, Encrypted(c, iv, a)), block);
  }

  lemma OneBlock(c: Cipher, iv: seq<bv8>, block: seq<bv8>)
    requires Blocks(c) && |iv| == BLOCK && |block| == BLOCK
    ensures Encrypted(c, iv, block) == Enc(c, XorBlock(block, iv))
    ensures Decrypted(c, iv, block) == XorBlock(Dec(c, block), iv)
  {
    hide Blocks, Enc, Dec, XorBlock;
    assert block[..BLOCK] == block && block[BLOCK..] == [];
    EncryptNothing(c, Enc(c, XorBlock(block, iv)), block[BLOCK..]);
    EncryptNothing(c, block, block[BLOCK..]);
  }

  lemma DecryptOneMore(c: Cipher, iv: seq<bv8>, a: seq<bv8>, block: seq<bv8>)
    requires Blocks(c) && |iv| == BLOCK && Whole(a) && |block| == BLOCK
    ensures Decrypted(c, iv, a + block) == Decrypted(c, iv, a) + XorBlock(Dec(c, block), Chain(iv, a))
  {
    hide Blocks, Enc, Dec, XorBlock;
    DecryptedAppend(c, iv, a, block);
    OneBlock(c, Chain(iv, a), block);
  }

  // ---------------------------------------------------------------- decryption

  /** The loop shared by aes_cbc_decrypt and aes_cbc_complete_decrypt. */
  method DecryptBlocks(c: Cipher, cipher: seq<bv8>, iv: seq<bv8>, out: array<bv8>)
    requires Blocks(c) && |iv| == BLOCK && Whole(cipher) && |cipher| <= out.Length
    modifies out
    ensures out[..|cipher|] == Decrypted(c, iv, cipher) && out[|cipher|..] == old(out[|cipher|..])
  {
    hide Blocks, Enc, Dec, XorBlock, Decrypted;
    var start := 0;
    EncryptNothing(c, iv, cipher[..0]);
    while |cipher| - start >= BLOCK
      invariant start % BLOCK == 0 && start <= |cipher|
      invariant out[..start] == Decrypted(c, iv, cipher[..start]) && out[start..] == old(out[start..])
    {
      DecryptBlock(c, cipher, iv, out, start);
      start := start + BLOCK;
    }
    assert cipher[..start] == cipher;
  }

  method DecryptBlock(c: Cipher, cipher: seq<bv8>, iv: seq<bv8>, out: array<bv8>, start: nat)
    requires Blocks(c) && |iv| == BLOCK && start % BLOCK == 0 && start + BLOCK <= |cipher| <= out.Length
    requires out[..start] == Decrypted(c, iv, cipher[..start])
    modifies out
    ensures out[..start + BLOCK] == Decrypted(c, iv, cipher[..start + BLOCK])
    ensures out[start + BLOCK..] == old(out[start + BLOCK..])
  {
    hide Blocks, Enc, Dec, XorBlock, Decrypted;
    DecryptOneMore(c, iv, cipher[..start], cipher[start..start + BLOCK]);
    SplitRange(cipher, 0, start, start + BLOCK);
    var block := Dec(c, cipher[start..start + BLOCK]);
    Store(out, start, XorBlock(block, if start == 0 then iv else cipher[start - BLOCK..start]));
  }

  /** `aes_cbc_decrypt`; `limit` is the size of the output on entry, and the result is left as it is on an error. */
  method Decrypt(c: Cipher, cipher: seq<bv8>, keyLength: nat, iv: seq<bv8>, out: array<bv8>, limit: u32)
    returns (length: u32)
    requires Blocks(c) && 0 < |cipher| < 0x1_0000_0000 && |cipher| <= limit <= out.Length
    modifies out
    ensures if !Whole(cipher) || keyLength !in {16, 24, 32} || |iv| != BLOCK then
              length == limit && out[..] == old(out[..])
            else
              && out[..|cipher|] == Decrypted(c, iv, cipher) && out[|cipher|..] == old(out[|cipher|..])
              && length == (|cipher| - Value(out[|cipher| - 1])) % 0x1_0000_0000
  {
    if !Whole(cipher) || !KeyLengthOk(keyLength) || |iv| != BLOCK {
      return limit;
    }
    DecryptBlocks(c, cipher, iv, out);
    var paddingSize := Value(out[|cipher| - 1]);
    return (|cipher| - paddingSize as int) % 0x1_0000_0000;
  }

  /** The part of a decryption result that the length returned with it covers. */
  ghost function Unpadded(plain: seq<bv8>): seq<bv8>
    requires 0 < |plain| < 0x1_0000_0000
  {
    var n := (|plain| - Value(plain[|plain| - 1])) % 0x1_0000_0000;
    if n <= |plain| then plain[..n] else plain
  }

  lemma UnpadsPadded(plain: seq<bv8>)
    requires |plain| + BLOCK < 0x1_0000_0000
    ensures Unpadded(Padded(plain)) == plain
  {
    hide Value, Digit;
    ValueOfDigit(PaddingSize(|plain|));
  }

  /** Every plaintext comes back, in octets and length. */
  lemma RoundTrip(c: Cipher, iv: seq<bv8>, plain: seq<bv8>)
    requires Inverse(c) && |iv| == BLOCK && |plain| + BLOCK < 0x1_0000_0000
    ensures Unpadded(Decrypted(c, iv, Encrypted(c, iv, Padded(plain)))) == plain
  {
    hide Blocks, Unpadded, Padded, Encrypted, Decrypted;
    DecryptsEncrypted(c, iv, Padded(plain));
    UnpadsPadded(plain);
  }

  /** The struct AesCbc, its key part of `cipher`. */
  class AesCbc {
    const cipher: Cipher
    const keyLen: nat
    var iv: seq<bv8>
    const ivLen: nat
    const outBufSize: nat

    constructor (cipher: Cipher, keyLen: nat, iv: seq<bv8>, ivLen: nat, outBufSize: nat)
      ensures this.cipher == cipher && this.keyLen == keyLen && this.iv == iv && this.ivLen == ivLen
    {
      this.cipher, this.keyLen, this.iv, this.ivLen, this.outBufSize := cipher, keyLen, iv, ivLen, outBufSize;
    }

    /** `aes_cbc_complete_decrypt`; the result is left as it is on an error. */
    method CompleteDecrypt(text: seq<bv8>, paddingFlag: bool, out: array<bv8>, length0: u32) returns (length: u32)
      requires Blocks(cipher) && |iv| == BLOCK && 0 < |text| < 0x1_0000_0000 && |text| <= out.Length
      modifies this, out
      ensures if !Whole(text) || keyLen !in {16, 24, 32} || ivLen != BLOCK then
                length == length0 && out[..] == old(out[..]) && iv == old(iv)
              else
                && out[..|text|] == Decrypted(cipher, old(iv), text) && out[|text|..] == old(out[|text|..])
                && iv == (if paddingFlag then old(iv) else Chain(old(iv), text))
                && length == (|text| - if paddingFlag then Value(out[|text| - 1]) else 0) % 0x1_0000_0000
    {
      if !Whole(text) || !KeyLengthOk(keyLen) || ivLen != BLOCK {
        return length0;
      }
      DecryptBlocks(cipher, text, iv, out);
      var paddingSize: nat := 0;
      if !paddingFlag {
        iv := text[|text| - BLOCK..];
      } else {
        paddingSize := Value(out[|text| - 1]);
      }
      return (|text| - paddingSize) % 0x1_0000_0000;
    }
  }

  // ---------------------------------------------------------------- segments

  ghost predicate Cut(pieces: seq<seq<bv8>>) {
    forall i :: 0 <= i < |pieces| ==> pieces[i] != [] && Whole(pieces[i])
  }

  lemma {:induction false} CutJoined(pieces: seq<seq<bv8>>)
    requires Cut(pieces)
    ensures Whole(Joined(pieces))
  {
    if pieces != [] {
      CutJoined(pieces[..|pieces| - 1]);
    }
  }

  /** The outputs of aes_cbc_complete_decrypt for the pieces one after the other, the iv handed on from each to
      the next. */
  ghost function InPieces(c: Cipher, iv: seq<bv8>, pieces: seq<seq<bv8>>): (r: (seq<bv8>, seq<bv8>))
    requires Blocks(c) && |iv| == BLOCK && Cut(pieces)
    ensures |r.1| == BLOCK
  {
    if pieces == [] then ([], iv)
    else
      var (plain, chain) := InPieces(c, iv, pieces[..|pieces| - 1]);
      var piece := pieces[|pieces| - 1];
      (plain + Decrypted(c, chain, piece), Chain(chain, piece))
  }

  /** However the ciphertext is cut, the pieces decrypt to the same plaintext. */
  lemma {:induction false} AnyCut(c: Cipher, iv: seq<bv8>, pieces: seq<seq<bv8>>)
    requires Blocks(c) && |iv| == BLOCK && Cut(pieces)
    ensures Whole(Joined(pieces))
    ensures InPieces(c, iv, pieces) == (Decrypted(c, iv, Joined(pieces)), Chain(iv, Joined(pieces)))
  {
    hide Blocks, Decrypted;
    CutJoined(pieces);
    if pieces == [] {
      EncryptNothing(c, iv, []);
    } else {
      var front, piece := pieces[..|pieces| - 1], pieces[|pieces| - 1];
      AnyCut(c, iv, front);
      DecryptedAppend(c, iv, Joined(front), piece);
      assert Chain(Chain(iv, Joined(front)), piece) == Chain(iv, Joined(front) + piece);
    }
  }

  lemma UnpadsLast(front: seq<bv8>, last: seq<bv8>, plain: seq<bv8>)
    requires front + last == Padded(plain) && |last| >= BLOCK && |plain| + BLOCK < 0x1_0000_0000
    ensures front + Unpadded(last) == plain
  {
    hide Value, Digit;
    ValueOfDigit(PaddingSize(|plain|));
    assert (front + last)[|front + last| - 1] == last[|last| - 1];
    assert (front + last)[..|plain|] == front + last[..|plain| - |front|];
  }

  lemma LastPiece(c: Cipher, iv: seq<bv8>, pieces: seq<seq<bv8>>)
    requires Blocks(c) && |iv| == BLOCK && Cut(pieces) && pieces != []
    ensures var last := pieces[|pieces| - 1];
            var (front, chain) := InPieces(c, iv, pieces[..|pieces| - 1]);
            Whole(last) && |last| >= BLOCK && InPieces(c, iv, pieces).0 == front + Decrypted(c, chain, last)
  {
    hide Blocks, Decrypted;
  }

  lemma SomePiece(pieces: seq<seq<bv8>>)
    requires Joined(pieces) != []
    ensures pieces != []
  {
  }

  /** A ciphertext cut into pieces, the padding flag set for the last one only, decrypts to the plaintext. */
  lemma CutRoundTrip(c: Cipher, iv: seq<bv8>, plain: seq<bv8>, pieces: seq<seq<bv8>>)
    requires Inverse(c) && |iv| == BLOCK && |plain| + BLOCK < 0x1_0000_0000 && Cut(pieces)
    requires Joined(pieces) == Encrypted(c, iv, Padded(plain))
    ensures pieces != []
    ensures var (front, chain) := InPieces(c, iv, pieces[..|pieces| - 1]);
            front + Unpadded(Decrypted(c, chain, pieces[|pieces| - 1])) == plain
  {
    hide Blocks, Unpadded, Padded, Encrypted, Decrypted, InPieces, Joined, PaddingSize;
    AnyCut(c, iv, pieces);
    DecryptsEncrypted(c, iv, Padded(plain));
    SomePiece(pieces);
    LastPiece(c, iv, pieces);
    var (front, chain) := InPieces(c, iv, pieces[..|pieces| - 1]);
    UnpadsLast(front, Decrypted(c, chain, pieces[|pieces| - 1]), plain);
  }

  // ---------------------------------------------------------------- both ends

  /** aes_cbc_complete_decrypt for one piece after the other, the padding flag set for the last one only. */
  method DecryptPieces(c: Cipher, keyLength: nat, iv: seq<bv8>, pieces: seq<seq<bv8>>) returns (plain: seq<bv8>)
    requires Blocks(c) && |iv| == BLOCK && keyLength in {16, 24, 32} && Cut(pieces) && pieces != []
    requires forall i :: 0 <= i < |pieces| ==> |pieces[i]| < 0x1_0000_0000
    ensures var (front, chain) := InPieces(c, iv, pieces[..|pieces| - 1]);
            plain == front + Unpadded(Decrypted(c, chain, pieces[|pieces| - 1]))
  {
    hide Blocks, Decrypted, Value, Chain, InPieces, Unpadded;
    var aes := new AesCbc(c, keyLength, iv, BLOCK, 0);
    plain := [];
    var n := |pieces| - 1;
    FirstPieces(c, iv, pieces, 0);
    for i := 0 to n
      invariant fresh(aes) && aes.cipher == c && aes.keyLen == keyLength && aes.ivLen == BLOCK
      invariant |aes.iv| == BLOCK && Cut(pieces[..i]) && (plain, aes.iv) == InPieces(c, iv, pieces[..i])
    {
      FirstPieces(c, iv, pieces, i);
      var piece := pieces[i];
      var out := new bv8[|piece|];
      var length := aes.CompleteDecrypt(piece, false, out, |piece|);
      plain := plain + out[..length];
    }
    var last := pieces[n];
    LastWhole(pieces);
    var out := new bv8[|last|];
    ghost var chain := aes.iv;
    var length := aes.CompleteDecrypt(last, true, out, |last|);
    assert out[..|last|] == out[..];
    UnpaddedIs(out[..], length);
    plain := plain + out[..if length <= |last| then length else |last|];
  }

  lemma UnpaddedIs(plain: seq<bv8>, length: nat)
    requires 0 < |plain| < 0x1_0000_0000 && length == (|plain| - Value(plain[|plain| - 1])) % 0x1_0000_0000
    ensures Unpadded(plain) == plain[..if length <= |plain| then length else |plain|]
  {
  }

  lemma LastWhole(pieces: seq<seq<bv8>>)
    requires Cut(pieces) && pieces != []
    ensures Whole(pieces[|pieces| - 1]) && pieces[|pieces| - 1] != []
  {
  }

  lemma FirstPieces(c: Cipher, iv: seq<bv8>, pieces: seq<seq<bv8>>, i: nat)
    requires Blocks(c) && |iv| == BLOCK && Cut(pieces) && i < |pieces|
    ensures Cut(pieces[..i]) && Cut(pieces[..i + 1]) && pieces[i] != [] && Whole(pieces[i])
    ensures i == 0 ==> InPieces(c, iv, pieces[..i]) == ([], iv)
    ensures var (plain, chain) := InPieces(c, iv, pieces[..i]);
            InPieces(c, iv, pieces[..i + 1]) == (plain + Decrypted(c, chain, pieces[i]), Chain(chain, pieces[i]))
  {
    hide Blocks, Decrypted, Chain;
    assert pieces[..i + 1][..i] == pieces[..i];
  }

  /** A way to cut a ciphertext into nonempty pieces of whole blocks. */
  ghost predicate Cutter(cut: seq<bv8> -> seq<seq<bv8>>) {
    forall text :: Whole(text) ==> Cut(cut(text)) && Joined(cut(text)) == text
  }

  /** What aes_cbc_encrypt makes of a plaintext, cut anyhow, comes back from aes_cbc_complete_decrypt. */
  method EncryptAndDecrypt(c: Cipher, plain: seq<bv8>, keyLength: nat, iv: seq<bv8>, cut: seq<bv8> -> seq<seq<bv8>>)
    returns (back: seq<bv8>)
    requires Inverse(c) && |iv| == BLOCK && keyLength in {16, 24, 32} && Cutter(cut)
    requires |plain| + BLOCK < 0x1_0000_0000
    ensures back == plain
  {
    hide Decrypted, Encrypted, Unpadded, InPieces, Enc, Dec, Joined;
    var limit := |plain| + BLOCK;
    var out := new bv8[limit];
    var length := Encrypt(c, plain, keyLength, iv, out, limit);
    var pieces := cut(out[..length]);
    CutRoundTrip(c, iv, plain, pieces);
    PiecesWithin(pieces);
    back := DecryptPieces(c, keyLength, iv, pieces);
  }

  lemma {:induction false} PiecesWithin(pieces: seq<seq<bv8>>)
    ensures forall i :: 0 <= i < |pieces| ==> |pieces[i]| <= |Joined(pieces)|
  {
    if pieces != [] {
      var front := pieces[..|pieces| - 1];
      PiecesWithin(front);
      forall i | 0 <= i < |pieces| ensures |pieces[i]| <= |Joined(pieces)| {
        assert i < |front| ==> front[i] == pieces[i];
      }
    }
  }
}
