/** The firmware download of cloudclient.c, up to the branch that ends it: segments of an encrypted stream come in,
    decrypted pages go to the flash and to MD5. */
module Fota {
  import opened Octets
  import opened Prelude
  import opened Cbc

  const PAGE := 128       // pageSize and bufSize
  const OUTPUT := 560     // sizeof(FOTAOutput)

  /** One call of spi_flash_update_fw for the download region. */
  datatype Call = Call(offset: nat, data: seq<bv8>)

  // ---------------------------------------------------------------- what the stream determines

  function Full(stream: seq<bv8>): (p: seq<bv8>)
    ensures |p| % PAGE == 0 && |p| == |stream| / PAGE * PAGE
  {
    stream[..|stream| / PAGE * PAGE]
  }

  function Rest(stream: seq<bv8>): (r: seq<bv8>)
    ensures |r| == |stream| % PAGE
  {
    stream[|stream| / PAGE * PAGE..]
  }

  /** The flash calls for a decrypted image: the first page, a header, only opens the region; page j goes to the
      place of page j - 1. */
  function Calls(plain: seq<bv8>): seq<Call> {
    if |plain| < PAGE then []
    else
      var j := |plain| / PAGE - 1;
      Calls(plain[..|plain| - PAGE]) + [if j == 0 then Call(0, []) else Call((j - 1) * PAGE, plain[|plain| - PAGE..])]
  }

  lemma CallsAppend(plain: seq<bv8>, page: seq<bv8>)
    requires |page| == PAGE
    ensures var j := |plain| / PAGE;
            Calls(plain + page) == Calls(plain) + [if j == 0 then Call(0, []) else Call((j - 1) * PAGE, page)]
  {
    assert (plain + page)[..|plain|] == plain && (plain + page)[|plain|..] == page;
    assert (|plain| + PAGE) / PAGE - 1 == |plain| / PAGE;
  }

  /** Page j behind the header is stored once, at its place in the image. */
  lemma {:induction false} CallAt(plain: seq<bv8>, j: nat)
    requires j < |plain| / PAGE && |plain| % PAGE == 0
    ensures |Calls(plain)| == |plain| / PAGE
    ensures Calls(plain)[j] == if j == 0 then Call(0, []) else Call((j - 1) * PAGE, plain[j * PAGE..j * PAGE + PAGE])
    decreases |plain|
  {
    var front := plain[..|plain| - PAGE];
    assert |front| / PAGE == |plain| / PAGE - 1;
    if front != [] {
      CallAt(front, if j < |front| / PAGE then j else 0);
    }
    if j < |front| / PAGE {
      assert front[j * PAGE..j * PAGE + PAGE] == plain[j * PAGE..j * PAGE + PAGE];
    }
  }

  lemma WholePage(s: seq<bv8>)
    requires |s| % PAGE == 0
    ensures Whole(s)
  {
  }

  lemma Keeps(stream: seq<bv8>, data: seq<bv8>)
    requires |stream| % PAGE + |data| < PAGE
    ensures Full(stream + data) == Full(stream) && Rest(stream + data) == Rest(stream) + data
  {
    assert (|stream| + |data|) / PAGE == |stream| / PAGE;
  }

  lemma Fills(stream: seq<bv8>, data: seq<bv8>)
    requires |stream| % PAGE + |data| == PAGE
    ensures Full(stream + data) == Full(stream) + (Rest(stream) + data) && Rest(stream + data) == []
    ensures (|stream| + |data|) % PAGE == 0 && (|stream| + |data|) / PAGE == |stream| / PAGE + 1
  {
    assert (|stream| + |data|) / PAGE == |stream| / PAGE + 1;
    assert stream == stream[..|stream| / PAGE * PAGE] + stream[|stream| / PAGE * PAGE..];
  }

  lemma AddsPages(stream: seq<bv8>, data: seq<bv8>)
    requires |stream| % PAGE == 0 && |data| % PAGE == 0
    ensures Full(stream + data) == Full(stream) + data && Rest(stream + data) == []
    ensures (|stream| + |data|) / PAGE == |stream| / PAGE + |data| / PAGE
    ensures (|stream| + |data|) % PAGE == 0
  {
  }

  // ---------------------------------------------------------------- the globals of cloudclient.c

  /** `md5` is what has been given to RT_MD5_Append and `calls` what to spi_flash_update_fw; `stream` is what
      has been received. */
  class Download {
    const cipher: Cipher
    const iv0: seq<bv8>
    const encryptBuf: array<bv8>
    var iv: seq<bv8>
    var remainNum: nat
    var pageHead: nat
    var pageEnd: nat
    var md5: seq<bv8>
    var calls: seq<Call>
    ghost var stream: seq<bv8>

    ghost predicate Shape() {
      Blocks(cipher) && |iv0| == BLOCK && encryptBuf.Length == PAGE
    }

    /** Everything is determined by the octets received so far, however they were cut into segments. */
    ghost predicate Valid()
      reads this, encryptBuf
    {
      && Shape() && Whole(Full(stream))
      && remainNum == PAGE - |Rest(stream)| && encryptBuf[..|Rest(stream)|] == Rest(stream)
      && iv == Chain(iv0, Full(stream)) && pageEnd == |stream| / PAGE
      && md5 == Decrypted(cipher, iv0, Full(stream)) && calls == Calls(md5)
    }

    /** The start of a download. */
    constructor (cipher: Cipher, iv0: seq<bv8>)
      requires Blocks(cipher) && |iv0| == BLOCK
      ensures Valid() && stream == [] && this.cipher == cipher && this.iv0 == iv0 && fresh(encryptBuf)
    {
      this.cipher, this.iv0, iv := cipher, iv0, iv0;
      encryptBuf := new bv8[PAGE](_ => 0);
      remainNum, pageHead, pageEnd, md5, calls, stream := PAGE, 0, 0, [], [], [];
    }

    /** The segment does not fill the buffer. */
    method Keep(data: seq<bv8>)
      requires Valid() && |data| < remainNum
      modifies this, encryptBuf
      ensures Valid() && stream == old(stream) + data
    {
      hide Decrypted, Calls, Blocks, Chain, Whole, Full, Rest;
      Keeps(stream, data);
      CopyIn(PAGE - remainNum, data);
      remainNum := remainNum - |data|;
      stream := stream + data;
    }

    method CopyIn(at: nat, data: seq<bv8>)
      requires Shape() && at + |data| <= PAGE
      modifies encryptBuf
      ensures encryptBuf[..] == old(encryptBuf[..at]) + data + old(encryptBuf[at + |data|..])
    {
      forall i | 0 <= i < |data| {
        encryptBuf[at + i] := data[i];
      }
    }

    /** Whole pages are decrypted, the iv is handed on and MD5 told. */
    method Decode(text: seq<bv8>) returns (output: seq<bv8>)
      requires Shape() && |iv| == BLOCK && Whole(text) && BLOCK <= |text| <= OUTPUT
      modifies this`iv, this`md5
      ensures output == Decrypted(cipher, old(iv), text) && iv == text[|text| - BLOCK..] && md5 == old(md5) + output
    {
      hide Decrypted, Value, Blocks;
      var fotaOutput := new bv8[OUTPUT](_ => 0);
      var _ := Decrypt(cipher, text, 16, iv, fotaOutput, OUTPUT);
      output := fotaOutput[..|text|];
      iv := text[|text| - BLOCK..];
      md5 := md5 + output;
    }

    /** The buffer is filled, decrypted and passed on. */
    method Flush(data: seq<bv8>)
      requires Valid() && |data| == remainNum && |stream| / PAGE + 1 < 0x1_0000
      modifies this, encryptBuf
      ensures Valid() && stream == old(stream) + data && remainNum == PAGE && |stream| % PAGE == 0
      ensures |stream| / PAGE == |old(stream)| / PAGE + 1
    {
      hide Decrypted, Calls, Blocks, Chain, Whole, Full, Rest;
      Fills(stream, data);
      ghost var full, page := Full(stream), Rest(stream) + data;
      CopyIn(PAGE - remainNum, data);
      assert encryptBuf[..] == page;
      NextPages(cipher, iv0, full, page);
      CallsAppend(md5, Decrypted(cipher, iv, page));
      assert |md5| / PAGE == pageEnd;
      var output := Decode(encryptBuf[..]);
      assert output[PAGE..] == [];
      pageHead := pageEnd;
      pageEnd := pageEnd + 1;
      if pageEnd == 1 {
        calls := calls + [Call(0, output[PAGE..])];
      } else {
        calls := calls + [Call((pageHead - 1) * PAGE, output)];
      }
      remainNum := PAGE;
      stream := stream + data;
      assert encryptBuf[..0] == [];
      assert calls == Calls(md5);
    }

    /** Whole pages are taken from the segment itself. */
    method TakePages(data: seq<bv8>)
      requires Valid() && |stream| >= PAGE && remainNum == PAGE && |stream| % PAGE == 0
      requires |data| % PAGE == 0 && 0 < |data| <= OUTPUT && |stream| / PAGE + |data| / PAGE < 0x1_0000
      modifies this
      ensures Valid() && stream == old(stream) + data && remainNum == PAGE && |stream| % PAGE == 0
    {
      hide Decrypted, Calls, Blocks, Chain, Whole, Full, Rest;
      AddsPages(stream, data);
      NextPages(cipher, iv0, Full(stream), data);
      var pages := |data| / PAGE;
      ghost var plain := md5;
      var output := Decode(data);
      pageHead := pageEnd;
      pageEnd := pageEnd + pages;
      assert output[..0] == [] && plain + [] == plain;
      assert |plain| / PAGE == pageHead;
      for num := 0 to pages
        invariant calls == Calls(plain + output[..num * PAGE])
        invariant md5 == old(md5) + output && iv == data[|data| - BLOCK..] && pageHead == old(pageEnd)
        invariant pageEnd == old(pageEnd) + pages && remainNum == PAGE && stream == old(stream)
      {
        ghost var at: nat := num * PAGE;
        CallsAppend(plain + output[..at], output[at..at + PAGE]);
        SplitRange(output, 0, at, at + PAGE);
        assert plain + output[..at] + output[at..at + PAGE] == plain + output[..at + PAGE];
        PageNumber(|plain|, num);
        calls := calls + [Call((pageHead + num - 1) * PAGE, output[num * PAGE..num * PAGE + PAGE])];
      }
      assert output[..pages * PAGE] == output;
      stream := stream + data;
      assert encryptBuf[..0] == [];
    }

    /** `cloud_fota_update` as long as the image is not complete. */
    method Update(data: seq<bv8>)
      requires Valid() && |data| <= OUTPUT && (|stream| + |data|) / PAGE < 0x1_0000
      modifies this, encryptBuf
      ensures Valid() && stream == old(stream) + data
    {
      hide Valid;
      Room(data);
      if |data| > remainNum {
        var remain := remainNum;
        Flush(data[..remain]);
        var pages := (|data| - remain) / PAGE;
        var rest := data[remain..];
        assert data == data[..remain] + rest[..pages * PAGE] + rest[pages * PAGE..];
        if pages > 0 {
          TakePages(rest[..pages * PAGE]);
        } else {
          assert rest[..pages * PAGE] == [];
        }
        assert stream == old(stream) + (data[..remain] + rest[..pages * PAGE]);
        var leftover := |data| - remain - pages * PAGE;
        if leftover > 0 {
          Keep(rest[pages * PAGE..]);
        }
      } else if |data| < remainNum {
        Keep(data);
      } else {
        Flush(data);
      }
    }

    lemma Room(data: seq<bv8>)
      requires Valid() && (|stream| + |data|) / PAGE < 0x1_0000
      ensures remainNum == PAGE - |stream| % PAGE
      ensures |data| >= remainNum ==> |stream| / PAGE + 1 + (|data| - remainNum) / PAGE < 0x1_0000
    {
    }
  }

  lemma PageNumber(n: nat, num: nat)
    requires n % PAGE == 0
    ensures (n + num * PAGE) / PAGE == n / PAGE + num
  {
  }

  /** Decryption goes on from the last ciphertext block. */
  lemma NextPages(c: Cipher, iv0: seq<bv8>, full: seq<bv8>, text: seq<bv8>)
    requires Blocks(c) && |iv0| == BLOCK && Whole(full) && |text| % PAGE == 0 && text != []
    ensures Whole(text) && Whole(full + text) && |text| >= BLOCK
    ensures Decrypted(c, iv0, full + text) == Decrypted(c, iv0, full) + Decrypted(c, Chain(iv0, full), text)
    ensures Chain(iv0, full + text) == text[|text| - BLOCK..]
  {
    hide Decrypted, Blocks;
    WholePage(text);
    DecryptedAppend(c, iv0, full, text);
    ChainAppend(iv0, full, text);
  }

  lemma ChainAppend(iv: seq<bv8>, a: seq<bv8>, b: seq<bv8>)
    requires |iv| == BLOCK && Whole(a) && Whole(b) && b != []
    ensures |b| >= BLOCK && Whole(a + b) && Chain(iv, a + b) == b[|b| - BLOCK..]
  {
  }

  // ---------------------------------------------------------------- whole downloads

  /** A download's segments given to `cloud_fota_update` one after the other. */
  method Receive(cipher: Cipher, iv0: seq<bv8>, segments: seq<seq<bv8>>)
    returns (calls: seq<Call>, md5: seq<bv8>, iv: seq<bv8>, buffered: seq<bv8>)
    requires Blocks(cipher) && |iv0| == BLOCK && |Joined(segments)| / PAGE < 0x1_0000
    requires forall i :: 0 <= i < |segments| ==> |segments[i]| <= 560
    ensures var stream := Joined(segments);
            && Whole(Full(stream)) && md5 == Decrypted(cipher, iv0, Full(stream)) && calls == Calls(md5)
            && iv == Chain(iv0, Full(stream)) && buffered == Rest(stream)
  {
    hide Blocks, Decrypted, Calls, Chain, Whole, Full, Rest, Joined;
    var d := new Download(cipher, iv0);
    NothingJoined(segments);
    for i := 0 to |segments|
      invariant fresh(d) && fresh(d.encryptBuf) && d.Valid() && d.cipher == cipher && d.iv0 == iv0
      invariant d.stream == Joined(segments[..i])
    {
      JoinedStep(segments, i);
      JoinedWithin(segments, i + 1);
      d.Update(segments[i]);
    }
    assert segments[..|segments|] == segments;
    return d.calls, d.md5, d.iv, d.encryptBuf[..PAGE - d.remainNum];
  }

  lemma NothingJoined(segments: seq<seq<bv8>>)
    ensures Joined(segments[..0]) == []
  {
  }

  lemma {:induction false} JoinedWithin(segments: seq<seq<bv8>>, i: nat)
    requires i <= |segments|
    ensures |Joined(segments[..i])| <= |Joined(segments)|
    decreases |segments| - i
  {
    if i < |segments| {
      JoinedStep(segments, i);
      JoinedWithin(segments, i + 1);
    } else {
      assert segments[..i] == segments;
    }
  }

  /** Two ways of cutting a stream into segments end in the same calls, MD5 input, iv and buffer. */
  method SameDownload(cipher: Cipher, iv0: seq<bv8>, one: seq<seq<bv8>>, other: seq<seq<bv8>>)
    returns (a: (seq<Call>, seq<bv8>, seq<bv8>, seq<bv8>), b: (seq<Call>, seq<bv8>, seq<bv8>, seq<bv8>))
    requires Blocks(cipher) && |iv0| == BLOCK && Joined(one) == Joined(other) && |Joined(one)| / PAGE < 0x1_0000
    requires forall i :: 0 <= i < |one| ==> |one[i]| <= 560
    requires forall i :: 0 <= i < |other| ==> |other[i]| <= 560
    ensures a == b
  {
    hide Blocks, Decrypted, Calls, Chain, Whole, Full, Rest, Joined;
    var calls, md5, iv, buffered := Receive(cipher, iv0, one);
    a := (calls, md5, iv, buffered);
    calls, md5, iv, buffered := Receive(cipher, iv0, other);
    b := (calls, md5, iv, buffered);
  }
}
