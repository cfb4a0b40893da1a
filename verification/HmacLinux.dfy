/** HMAC-SHA256 of hmac.c. */
module HmacLinux {
  import opened Octets
  import opened Sha256Linux
  import opened Sha256Spec

  /** `sha256_get`. */
  method Sha256Get(message: seq<bv8>) returns (hash: seq<bv8>)
    requires |message| < 0x8000_0000
    ensures hash == Sha256(message)
  {
    var sha := new Context();
    sha.Initialize();
    assert sha.fed + message == message;
    sha.Finalize(message);
    return sha.hash[..];
  }

  /** The struct hmac_sha256; `k0` is the key block of RFC 2104 and `text` what has been fed so far. */
  class HmacContext {
    const digest: array<bv8>
    const key: array<bv8>
    const sha: Context
    ghost var k0: seq<bv8>
    ghost var text: seq<bv8>

    ghost predicate Shape() {
      && digest.Length == 32 && key.Length == 64 && sha.Shape()
      && digest != key && sha.hash != digest && sha.hash != key
      && key as object != sha.buffer as object && key as object != sha.state as object
      && key as object != sha.length as object && digest as object != sha.buffer as object
      && digest as object != sha.state as object && digest as object != sha.length as object
    }

    ghost predicate Valid()
      reads this, key, sha, sha.buffer, sha.state, sha.length
    {
      && Shape() && |k0| == 64 && key[..] == XorAll(k0, 0x36)
      && sha.Valid() && sha.fed == XorAll(k0, 0x36) + text
    }

    constructor ()
      ensures Shape() && fresh(digest) && fresh(key) && fresh(sha)
      ensures fresh(sha.hash) && fresh(sha.buffer) && fresh(sha.state) && fresh(sha.length)
    {
      digest, key := new bv8[32], new bv8[64];
      var s := new Context();
      sha := s;
      k0, text := [], [];
    }

    /** `hmac_sha256_initialize`. */
    method Initialize(k: seq<bv8>)
      requires Shape() && |k| < 0x8000_0000
      modifies this, key, sha, sha.hash, sha.buffer, sha.state, sha.length
      ensures Valid() && k0 == KeyBlock(k) && text == []
    {
      hide XorByte, Sha256, Context.Valid;
      var short := k;
      if |k| > 64 {
        sha.Initialize();
        assert sha.fed + k == k;
        sha.Finalize(k);
        short := sha.hash[..];
      }
      SetKey(short);
      k0, text := KeyBlock(k), [];
      sha.Initialize();
      assert sha.fed + key[..] == key[..];
      sha.Update(key[..]);
      assert sha.fed == XorAll(k0, 0x36) + [];
    }

    /** The loops that fill the inner key block. */
    method SetKey(short: seq<bv8>)
      requires Shape() && |short| <= 64
      modifies key
      ensures key[..] == XorAll(short + Zeros(64 - |short|), 0x36)
    {
      hide XorByte;
      XorZeroKey();
      for i := 0 to |short|
        invariant forall k :: 0 <= k < i ==> key[k] == XorByte(short[k], 0x36)
      {
        key[i] := XorByte(short[i], 0x36);
      }
      for i := |short| to 64
        invariant forall k :: 0 <= k < |short| ==> key[k] == XorByte(short[k], 0x36)
        invariant forall k :: |short| <= k < i ==> key[k] == 0x36
      {
        key[i] := 0x36;
      }
    }

    /** `hmac_sha256_update`. */
    method Update(message: seq<bv8>)
      requires Valid() && |message| < 0x8000_0000
      modifies this, sha, sha.buffer, sha.state, sha.length
      ensures Valid() && k0 == old(k0) && text == old(text) + message
    {
      hide XorAll, Context.Valid;
      sha.Update(message);
      text := text + message;
      assert sha.fed == XorAll(k0, 0x36) + text;
    }

    /** `hmac_sha256_finalize`. */
    method Finalize(message: seq<bv8>)
      requires Valid() && |message| < 0x8000_0000
      modifies this, digest, key, sha, sha.hash, sha.buffer, sha.state, sha.length
      ensures digest[..] == Sha256(XorAll(old(k0), 0x5c) + Sha256(XorAll(old(k0), 0x36) + old(text) + message))
    {
      hide XorByte, Sha256, XorAll, Context.Valid;
      sha.Finalize(message);
      CopyDigest();
      ghost var inner := digest[..];
      SwitchPad();
      sha.Initialize();
      assert sha.fed + key[..] == key[..];
      sha.Update(key[..]);
      sha.Finalize(digest[..]);
      CopyDigest();
    }

    method CopyDigest()
      requires Shape()
      modifies digest
      ensures digest[..] == sha.hash[..]
    {
      for i := 0 to 32
        invariant digest[..i] == sha.hash[..i]
      {
        digest[i] := sha.hash[i];
      }
    }

    /** The inner key block becomes the outer one. */
    method SwitchPad()
      requires Shape() && |k0| == 64 && key[..] == XorAll(k0, 0x36)
      modifies key
      ensures key[..] == XorAll(k0, 0x5c)
    {
      hide XorByte;
      for i := 0 to 64
        invariant forall k :: 0 <= k < 64 ==> key[k] == XorByte(k0[k], if k < i then 0x5c else 0x36)
      {
        SwitchOctet(k0[i]);
        key[i] := XorByte(key[i], XorByte(0x36, 0x5c));
      }
    }
  }

  lemma SwitchOctet(b: bv8)
    ensures XorByte(XorByte(b, 0x36), XorByte(0x36, 0x5c)) == XorByte(b, 0x5c)
  {
  }

  lemma XorZeroKey()
    ensures XorByte(0, 0x36) == 0x36
  {
  }

  /** `hmac_sha256_get`. */
  method HmacGet(message: seq<bv8>, key: seq<bv8>) returns (digest: seq<bv8>)
    requires |message| < 0x8000_0000 && |key| < 0x8000_0000
    ensures digest == Hmac(key, message)
  {
    hide Sha256, XorAll, Context.Valid;
    var hmac := new HmacContext();
    hmac.Initialize(key);
    ghost var inner := XorAll(hmac.k0, 0x36);
    assert inner + hmac.text + message == inner + message;
    hmac.Finalize(message);
    return hmac.digest[..];
  }
}
