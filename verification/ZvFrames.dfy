/** Chunking and ZV framing of LZF payloads (LZFcompress.c). */
module ZvFrames {
  import opened Prelude
  import Lzf

  const BLOCKSIZE := 1024 * 8 - 1
  const CHUNK := 3000
  const Z: byte := 0x5A
  const V: byte := 0x56

  /** What the first frame of a nonempty stream carries and how many octets it takes. */
  function ParseFrame(c: seq<byte>): (r: Option<(seq<byte>, nat)>)
    requires c != []
    ensures r.Some? ==> 0 < r.value.1 <= |c|
  {
    if |c| < 5 || c[0] != Z || c[1] != V then None
    else if c[2] == 0 then
      var us: int := c[3] as int * 256 + c[4] as int;
      if |c| < 5 + us then None else Some((c[5..5 + us], 5 + us))
    else if c[2] == 1 && 7 <= |c| then
      var cs: int := c[3] as int * 256 + c[4] as int;
      var us: int := c[5] as int * 256 + c[6] as int;
      if |c| < 7 + cs then None
      else match Lzf.Decode(c[7..7 + cs], [])
        case None => None
        case Some(data) => if |data| == us then Some((data, 7 + cs)) else None
    else None
  }

  function DecodeFrames(c: seq<byte>): Option<seq<byte>> {
    if c == [] then Some([])
    else match ParseFrame(c)
      case None => None
      case Some((data, size)) =>
        match DecodeFrames(c[size..])
        case None => None
        case Some(rest) => Some(data + rest)
  }

  lemma FramePrefix(a: seq<byte>, b: seq<byte>)
    requires a != [] && ParseFrame(a).Some?
    ensures ParseFrame(a + b) == ParseFrame(a)
  {
    hide Lzf.Decode;
    var size := ParseFrame(a).value.1;
    assert (a + b)[..size] == a[..size];
    assert forall i :: 0 <= i < size ==> (a + b)[i] == a[i];
    if a[2] == 0 {
      assert (a + b)[5..size] == a[5..size];
    } else {
      assert (a + b)[7..size] == a[7..size];
    }
  }

  lemma {:induction false} FramesAppend(a: seq<byte>, frame: seq<byte>, data: seq<byte>)
    requires DecodeFrames(a).Some?
    requires frame != [] && ParseFrame(frame) == Some((data, |frame|))
    ensures DecodeFrames(a + frame) == Some(DecodeFrames(a).value + data)
  {
    hide ParseFrame;
    if a == [] {
      assert a + frame == frame && frame[|frame|..] == [];
      assert DecodeFrames(frame[|frame|..]) == Some([]);
      assert data + [] == data == [] + data;
    } else {
      FramePrefix(a, frame);
      var (first, size) := ParseFrame(a).value;
      assert (a + frame)[size..] == a[size..] + frame;
      FramesAppend(a[size..], frame, data);
      var rest := DecodeFrames(a[size..]).value;
      assert first + (rest + data) == first + rest + data;
    }
  }

  function FrameBound(n: nat): nat { n + 5 * ((n + CHUNK - 1) / CHUNK) }

  lemma FrameBoundIs(n: nat)
    ensures FrameBound(n) == n + 5 * ((n + 2999) / 3000)
  {
  }

  lemma FrameBoundStep(read: nat, k: nat, n: nat)
    requires read % CHUNK == 0 && 1 <= k <= CHUNK && read + k <= n
    ensures FrameBound(read) + k + 5 <= FrameBound(read + k) <= FrameBound(n)
  {
  }

  function Header1(cs: nat, us: nat): seq<byte>
    requires cs < 0x1_0000 && us < 0x1_0000
  {
    [Z, V, 1, cs / 256, cs % 256, us / 256, us % 256]
  }

  function Header0(us: nat): seq<byte>
    requires us < 0x1_0000
  {
    [Z, V, 0, us / 256, us % 256]
  }

  lemma ParseCompressed(payload: seq<byte>, data: seq<byte>)
    requires |payload| < 0x1_0000 && |data| < 0x1_0000 && Lzf.Decode(payload, []) == Some(data)
    ensures ParseFrame(Header1(|payload|, |data|) + payload) == Some((data, 7 + |payload|))
  {
    hide Lzf.Decode;
    var frame := Header1(|payload|, |data|) + payload;
    assert frame[7..7 + |payload|] == payload;
  }

  lemma ParseRaw(data: seq<byte>)
    requires |data| < 0x1_0000
    ensures ParseFrame(Header0(|data|) + data) == Some((data, 5 + |data|))
  {
    var frame := Header0(|data|) + data;
    assert frame[5..5 + |data|] == data;
  }

  /** The frame for one chunk: compressed when that gains at least four octets, raw otherwise. */
  method EncodeChunk(chunk: seq<byte>, htab: array<u32>) returns (frame: seq<byte>)
    requires 1 <= |chunk| <= 3000 && htab.Length == Lzf.HSIZE
    modifies htab
    ensures 0 < |frame| <= |chunk| + 5
    ensures ParseFrame(frame) == Some((chunk, |frame|))
    ensures frame[0] == 0x5A && frame[1] == 0x56 && (frame[2] == 0 || frame[2] == 1)
    ensures |chunk| >= 16 && (forall i :: 0 <= i < |chunk| ==> chunk[i] == chunk[0]) ==>
              frame[2] == 1 && |frame| <= 13 + 3 * ((|chunk| + 263) / 264)
  {
    hide Lzf.Decode, ParseFrame;
    var buf2 := new byte[BLOCKSIZE + 16];
    var us: u32 := |chunk|;
    var cs, _ := Lzf.Compress(chunk + [0], us, buf2, if us > 4 then us - 4 else us, htab);
    assert (chunk + [0])[..us] == chunk;
    if cs > 0 {
      frame := Header1(cs, us) + buf2[..cs];
      ParseCompressed(buf2[..cs], chunk);
    } else {
      frame := Header0(us) + chunk;
      ParseRaw(chunk);
    }
  }

  /** What the output holds when `read` octets of the input have been framed. */
  ghost predicate Framed(input: seq<byte>, read: nat, output: seq<byte>, outputPtr: nat) {
    && read <= |input| && (read == |input| || read % CHUNK == 0)
    && outputPtr <= FrameBound(read) && outputPtr <= |output|
    && DecodeFrames(output[..outputPtr]) == Some(input[..read])
  }

  lemma NothingFramed(input: seq<byte>, output: seq<byte>)
    ensures Framed(input, 0, output, 0)
  {
    assert output[..0] == [] && input[..0] == [];
  }

  lemma AllFramed(input: seq<byte>, output: seq<byte>, outputPtr: nat)
    requires Framed(input, |input|, output, outputPtr)
    ensures outputPtr <= FrameBound(|input|) && DecodeFrames(output[..outputPtr]) == Some(input)
  {
    assert input[..|input|] == input;
  }

  /** The inner loop of `LZFcompress_data`, from where the pass before it has left off. */
  method EncodeChunks(input: seq<byte>, output: array<byte>, htab: array<u32>, outputPtr0: nat, read0: nat)
    returns (outputPtr: nat, read: nat)
    requires FrameBound(|input|) < output.Length && htab.Length == Lzf.HSIZE
    requires Framed(input, read0, output[..], outputPtr0)
    modifies output, htab
    ensures read == |input| && Framed(input, read, output[..], outputPtr)
    ensures output[FrameBound(|input|) + 1..] == old(output[FrameBound(|input|) + 1..])
  {
    hide ParseFrame, FrameBound, DecodeFrames;
    outputPtr, read := outputPtr0, read0;
    ghost var limit := FrameBound(|input|);
    while read < |input|
      invariant Framed(input, read, output[..], outputPtr)
      invariant output[limit + 1..] == old(output[limit + 1..])
    {
      var byteToRead := if |input| - read > CHUNK then CHUNK else |input| - read;
      var chunk := input[read..read + byteToRead];
      var frame := EncodeChunk(chunk, htab);
      FrameBoundStep(read, byteToRead, |input|);
      outputPtr := Append(output, outputPtr, frame, chunk);
      assert input[..read] + chunk == input[..read + byteToRead];
      read := read + byteToRead;
    }
  }

  /** The outer loop of `LZFcompress_data`, stopped after `passes` passes: `again` says whether its condition still
      holds, which it does exactly for an input of BLOCKSIZE octets, however many passes are made. */
  method Passes(input: seq<byte>, output: array<byte>, htab: array<u32>, passes: nat)
    returns (outputPtr: nat, again: bool)
    requires passes > 0 && FrameBound(|input|) < output.Length && htab.Length == Lzf.HSIZE
    modifies output, htab
    ensures again <==> |input| == 8191
    ensures Framed(input, |input|, output[..], outputPtr)
    ensures output[FrameBound(|input|) + 1..] == old(output[FrameBound(|input|) + 1..])
  {
    hide FrameBound, DecodeFrames;
    var read, left := 0, passes;
    outputPtr, again := 0, true;
    NothingFramed(input, output[..]);
    while again && left > 0
      invariant left <= passes && Framed(input, read, output[..], outputPtr)
      invariant left == passes ==> again
      invariant left < passes ==> read == |input| && (again <==> |input| == BLOCKSIZE)
      invariant output[FrameBound(|input|) + 1..] == old(output[FrameBound(|input|) + 1..])
      decreases left
    {
      outputPtr, read := EncodeChunks(input, output, htab, outputPtr, read);
      again, left := read == BLOCKSIZE, left - 1;
    }
  }

  /** `LZFcompress_data`. The outer loop ends with its first pass or, for BLOCKSIZE octets, never (see Passes). */
  method CompressData(input: seq<byte>, output: array<byte>, htab: array<u32>) returns (outputPtr: nat)
    requires |input| != 8191
    requires FrameBound(|input|) < output.Length && htab.Length == Lzf.HSIZE
    modifies output, htab
    ensures outputPtr <= |input| + 5 * ((|input| + 2999) / 3000)
    ensures DecodeFrames(output[..outputPtr]) == Some(input)
    ensures output[outputPtr] == 0
    ensures output[FrameBound(|input|) + 1..] == old(output[FrameBound(|input|) + 1..])
  {
    hide ParseFrame, FrameBound, DecodeFrames, Framed;
    var again;
    outputPtr, again := Passes(input, output, htab, 1);
    assert !again;
    AllFramed(input, output[..], outputPtr);
    FrameBoundIs(|input|);
    ghost var body := output[..outputPtr];
    output[outputPtr] := 0;
    assert output[..outputPtr] == body;
  }

  /** Copies one frame behind what has been written. */
  method Append(output: array<byte>, ptr: nat, frame: seq<byte>, ghost data: seq<byte>) returns (end: nat)
    requires ptr + |frame| <= output.Length && DecodeFrames(output[..ptr]).Some?
    requires frame != [] && ParseFrame(frame) == Some((data, |frame|))
    modifies output
    ensures end == ptr + |frame|
    ensures DecodeFrames(output[..end]) == Some(old(DecodeFrames(output[..ptr])).value + data)
    ensures output[end..] == old(output[end..])
  {
    hide ParseFrame, DecodeFrames;
    ghost var before := output[..];
    for i := 0 to |frame|
      invariant output[..ptr] == before[..ptr]
      invariant output[ptr..ptr + i] == frame[..i]
      invariant output[ptr + |frame|..] == before[ptr + |frame|..]
    {
      output[ptr + i] := frame[i];
    }
    end := ptr + |frame|;
    assert output[..end] == before[..ptr] + frame;
    FramesAppend(before[..ptr], frame, data);
  }
}
