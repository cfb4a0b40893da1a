/** The two implementations of SHA-256 and HMAC side by side. */
module Sha256Agree {
  import opened Prelude
  import opened Sha256Spec
  import Linux = Sha256Linux
  import Arduino = Sha256Arduino
  import HmacLinux

  /** hmac.c: however a message is cut into calls of sha256_update, the digest is that of the whole. */
  method DigestOfPieces(pieces: seq<seq<bv8>>, last: seq<bv8>) returns (hash: seq<bv8>)
    requires |last| < 0x1_0000_0000 && forall i :: 0 <= i < |pieces| ==> |pieces[i]| < 0x1_0000_0000
    ensures hash == Sha256(Joined(pieces) + last)
  {
    hide Sha256, Linux.Context.Holds;
    var sha := new Linux.Context();
    sha.Initialize();
    assert pieces[..0] == [];
    for i := 0 to |pieces|
      invariant sha.Valid() && sha.fed == Joined(pieces[..i])
      invariant fresh(sha) && fresh(sha.hash) && fresh(sha.buffer) && fresh(sha.state) && fresh(sha.length)
    {
      JoinedStep(pieces, i);
      sha.Update(pieces[i]);
    }
    assert pieces[..|pieces|] == pieces;
    sha.Finalize(last);
    return sha.hash[..];
  }

  /** sha256.cpp: a message written octet by octet. */
  method ArduinoDigest(message: seq<bv8>) returns (hash: seq<bv8>)
    requires |message| < 0x1_0000_0000
    ensures hash == Sha256(message)
  {
    hide Sha256, Arduino.Hasher.Valid;
    var sha := new Arduino.Hasher();
    sha.Init();
    sha.WriteAll(message);
    assert [] + message == message;
    hash := sha.Result();
  }

  /** Both give the same digest for every message that sha256_get can be passed. */
  method SameDigest(message: seq<bv8>) returns (linux: seq<bv8>, arduino: seq<bv8>)
    requires |message| < 0x8000_0000
    ensures linux == arduino && |linux| == 32
  {
    hide Sha256;
    linux := HmacLinux.Sha256Get(message);
    arduino := ArduinoDigest(message);
  }

  /** And the same authentication code for every key and message. */
  method SameHmac(key: seq<bv8>, text: seq<bv8>) returns (linux: seq<bv8>, arduino: seq<bv8>)
    requires |key| < 0x8000_0000 && |text| < 0x8000_0000
    ensures linux == arduino
  {
    hide Hmac;
    linux := HmacLinux.HmacGet(text, key);
    arduino := Arduino.HmacOf(key, text);
  }
}
