/** The LZF compressor (lzf_c.c) and the decoder its output format determines. */
module Lzf {
  import opened Prelude

  const MAX_LIT := 32      // longest literal run
  const MAX_OFF := 8192    // offsets are 1..MAX_OFF
  const MAX_REF := 264     // longest back-reference
  const HSIZE := 0x1_0000  // HLOG == 16

  // ---------------------------------------------------------------- format

  datatype Token = Literals(run: seq<byte>) | BackRef(dist: nat, len: nat)

  /** The first token of a nonempty stream and the number of octets it takes; None if it is cut off. */
  function ParseToken(c: seq<byte>): (r: Option<(Token, nat)>)
    requires c != []
    ensures r.Some? ==> 0 < r.value.1 <= |c| && (r.value.0.BackRef? ==> 1 <= r.value.0.dist)
  {
    var ctrl: int := c[0];
    if ctrl < 32 then
      if |c| < ctrl + 2 then None else Some((Literals(c[1..ctrl + 2]), ctrl + 2))
    else if ctrl / 32 < 7 then
      if |c| < 2 then None else Some((BackRef(ctrl % 32 * 256 + c[1] as int + 1, ctrl / 32 + 2), 2))
    else
      if |c| < 3 then None else Some((BackRef(ctrl % 32 * 256 + c[2] as int + 1, c[1] as int + 9), 3))
  }

  /** Appends `len` octets, each a copy of the octet `dist` places before the end of what has been
      produced so far; with `dist < len` the copy reads octets it has just written. */
  function CopyBack(acc: seq<byte>, dist: nat, len: nat): seq<byte>
    requires 1 <= dist <= |acc|
    decreases len
  {
    if len == 0 then acc else CopyBack(acc + [acc[|acc| - dist]], dist, len - 1)
  }

  function Expand(t: Token, acc: seq<byte>): Option<seq<byte>>
    requires t.BackRef? ==> 1 <= t.dist
  {
    match t
    case Literals(run) => Some(acc + run)
    case BackRef(dist, len) => if |acc| < dist then None else Some(CopyBack(acc, dist, len))
  }

  /** Decodes the token stream `c` onto the output `acc`; None if `c` is malformed. */
  function Decode(c: seq<byte>, acc: seq<byte>): Option<seq<byte>>
    decreases |c|
  {
    if c == [] then Some(acc)
    else match ParseToken(c)
      case None => None
      case Some((t, size)) =>
        match Expand(t, acc)
        case None => None
        case Some(more) => Decode(c[size..], more)
  }

  lemma ParsePrefix(a: seq<byte>, b: seq<byte>)
    requires a != [] && ParseToken(a).Some?
    ensures ParseToken(a + b) == ParseToken(a)
  {
    if a[0] < 32 {
      assert (a + b)[1..a[0] + 2] == a[1..a[0] + 2];
    }
  }

  lemma {:induction false} DecodeAppend(a: seq<byte>, b: seq<byte>, acc: seq<byte>)
    requires Decode(a, acc).Some?
    ensures Decode(a + b, acc) == Decode(b, Decode(a, acc).value)
    decreases |a|
  {
    if a == [] {
      assert a + b == b;
    } else {
      ParsePrefix(a, b);
      var (t, size) := ParseToken(a).value;
      assert (a + b)[size..] == a[size..] + b;
      DecodeAppend(a[size..], b, Expand(t, acc).value);
    }
  }

  /** The octets at `p..p + len` repeat those at `ref..ref + len`. */
  ghost predicate Repeats(s: seq<byte>, ref: nat, p: nat, len: nat) {
    ref < p && p + len <= |s| && forall i :: p <= i < p + len ==> s[i] == s[i - (p - ref)]
  }

  /** A back-reference into `s` whose source and target agree reproduces `s`, overlapping or not. */
  lemma {:induction false} CopyBackReproduces(s: seq<byte>, ref: nat, p: nat, len: nat)
    requires Repeats(s, ref, p, len)
    ensures CopyBack(s[..p], p - ref, len) == s[..p + len]
    decreases len
  {
    if len > 0 {
      assert s[..p] + [s[ref]] == s[..p + 1];
      CopyBackReproduces(s, ref + 1, p + 1, len - 1);
    }
  }

  lemma DecodeNothing(c: seq<byte>)
    requires c == []
    ensures Decode(c, []) == Some([])
  {
  }

  lemma DecodeLiteralRun(run: seq<byte>, acc: seq<byte>)
    requires 1 <= |run| <= MAX_LIT
    ensures Decode([|run| - 1] + run, acc) == Some(acc + run)
  {
    hide Decode;
    var c := [|run| - 1] + run;
    assert c[1..1 + |run|] == run;
    DecodeOneToken(c, Literals(run), acc);
  }

  // ---------------------------------------------------------------- encoder

  /** The two or three octets of a back-reference to `off + 1` octets back covering `len + 2` octets. */
  function MatchToken(len: nat, off: nat): seq<byte>
    requires 1 <= len <= MAX_REF - 2 && off < MAX_OFF
  {
    if len < 7 then [off / 256 + len * 32, off % 256]
    else [off / 256 + 7 * 32, len - 7, off % 256]
  }

  lemma DecodeMatchToken(len: nat, off: nat, acc: seq<byte>)
    requires 1 <= len <= MAX_REF - 2 && off < MAX_OFF && off < |acc|
    ensures Decode(MatchToken(len, off), acc) == Some(CopyBack(acc, off + 1, len + 2))
  {
    hide Decode, MatchToken, ParseToken;
    ParseMatchToken(len, off);
    DecodeOneToken(MatchToken(len, off), BackRef(off + 1, len + 2), acc);
  }

  lemma ParseMatchToken(len: nat, off: nat)
    requires 1 <= len <= MAX_REF - 2 && off < MAX_OFF
    ensures var c := MatchToken(len, off);
            c != [] && ParseToken(c) == Some((BackRef(off + 1, len + 2), |c|))
  {
  }

  lemma DecodeOneToken(c: seq<byte>, t: Token, acc: seq<byte>)
    requires c != [] && ParseToken(c) == Some((t, |c|)) && Expand(t, acc).Some?
    ensures Decode(c, acc) == Expand(t, acc)
  {
    hide ParseToken, Expand;
    assert c[|c|..] == [];
  }

  function Hash(h: nat): (i: nat)
    ensures i < HSIZE
  {
    (h / 256 - 5 * h) % HSIZE
  }

  /** NEXT(v, p): the rolling 32-bit hash input. */
  function Next(v: nat, b: byte): nat { v * 256 % 0x1_0000_0000 + b }

  /** The number of octets matched from `ref` and `ip`, of which three are known to agree. */
  method MatchLength(inp: seq<byte>, inLen: nat, ref: nat, ip: nat) returns (len: nat)
    requires inLen <= |inp| && ip + 3 <= inLen && Repeats(inp, ref, ip, 3)
    ensures 3 <= len <= MAX_REF && ip + len <= inLen
    ensures Repeats(inp, ref, ip, len)
    ensures len < MAX_REF && ip + len + 2 < inLen ==> inp[ref + len] != inp[ip + len]
    ensures len > 19 ==> ip + len + 2 <= inLen
  {
    len := 2;
    var maxlen := inLen - ip - len;
    maxlen := if maxlen > MAX_REF then MAX_REF else maxlen;
    if maxlen > 16 {
      for i := 0 to 16
        invariant len == 2 + i
        invariant Repeats(inp, ref, ip, len + 1)
      {
        len := len + 1;
        if inp[ref + len] != inp[ip + len] {
          return;
        }
      }
    }
    len := len + 1;
    while len < maxlen && inp[ref + len] == inp[ip + len]
      invariant 3 <= len <= MAX_REF && ip + len <= inLen
      invariant Repeats(inp, ref, ip, len) && (len <= 19 || len <= maxlen)
    {
      len := len + 1;
    }
  }

  /** What the compressor keeps between two turns of its loop: everything before the current run's header
      decodes to the input before that run, the run's octets follow the header, and nothing has been
      stored at or after `limit`. */
  ghost predicate Progress(inp: seq<byte>, inLen: nat, out: seq<byte>, limit: nat, ip: nat, op: nat, lit: nat) {
    && lit < MAX_LIT && lit <= ip <= inLen <= |inp|
    && lit + 1 <= op && op - lit - 1 <= limit <= |out|
    && (lit > 0 ==> op <= limit && out[op - lit..op] == inp[ip - lit..ip])
    && Decode(out[..op - lit - 1], []) == Some(inp[..ip - lit])
    && Expansion(ip - lit, op - lit - 1)
  }

  /** At most one octet in thirty-two is added by run headers; back-references only shrink. */
  ghost predicate Expansion(read: nat, written: nat) { written <= read + read / MAX_LIT }

  lemma FinalSize(read: nat, written: nat, lit: nat)
    requires Expansion(read, written)
    ensures written + lit + (if lit == 0 then 0 else 1) <= read + lit + (read + lit + 31) / 32
  {
  }

  ghost predicate Distinct(s: seq<byte>) { forall i, j :: 0 <= i < j < |s| ==> s[i] != s[j] }

  /** Where a run of literals stands that began with the input. */
  ghost predicate OnlyLiterals(ip: nat, op: nat, lit: nat) {
    lit == ip % MAX_LIT && op == ip + ip / MAX_LIT + 1
  }

  /** The size `n` of a compressed input: a header for every thirty-two octets is added at most, and is added
      when no octet occurs twice. */
  ghost predicate Sized(inp: seq<byte>, n: nat) {
    && n <= |inp| + (|inp| + 31) / 32
    && (Distinct(inp) ==> n == |inp| + (|inp| + 31) / 32)
  }

  lemma FinalLiterals(ip: nat, op: nat, lit: nat)
    ensures OnlyLiterals(ip, op, lit) ==> (if lit == 0 then op - 1 else op) == ip + (ip + 31) / 32
  {
  }

  lemma OneMoreLiteral(ip: nat, op: nat, lit: nat)
    ensures var more := (lit + 1) % MAX_LIT;
            OnlyLiterals(ip, op, lit) ==> OnlyLiterals(ip + 1, op + 1 + (if more == 0 then 1 else 0), more)
  {
  }

  lemma SizeKnown(inp: seq<byte>, n: nat)
    requires n <= |inp| + (|inp| + 31) / 32
    requires Distinct(inp) ==> n == |inp| + (|inp| + 31) / 32
    ensures Sized(inp, n)
    ensures 25 * ((|inp| + 31) / 32) < |inp| ==> 100 * n < 104 * |inp|
    ensures |inp| == 1 ==> n == 2
  {
  }

  lemma NoLiterals()
    ensures OnlyLiterals(0, 1, 0)
  {
  }

  /** lzf.h's bound of less than 104 % holds for every input of a length exactly when a header for every thirty-two
      octets stays below 4 %. */
  lemma Below104Iff(m: nat)
    requires m > 0
    ensures (forall inp: seq<byte>, n: nat | |inp| == m && Sized(inp, n) :: 100 * n < 104 * m)
       <==> 25 * ((m + 31) / 32) < m
  {
    if m <= 256 && 25 * ((m + 31) / 32) >= m {
      var inp := seq(m, i requires 0 <= i < m => i as byte);
      assert Sized(inp, m + (m + 31) / 32);
    }
  }

  /** These are the lengths that fail. */
  lemma LengthsAbove104(m: nat)
    ensures 25 * ((m + 31) / 32) >= m <==> m <= 25 || 33 <= m <= 50 || 65 <= m <= 75 || 97 <= m <= 100
  {
  }

  /** Writing the header of a run makes the run part of the decodable output. */
  lemma RunClosed(inp: seq<byte>, out: seq<byte>, ip: nat, op: nat, lit: nat)
    requires 1 <= lit <= MAX_LIT && lit <= ip <= |inp| && lit + 1 <= op <= |out|
    requires Decode(out[..op - lit - 1], []) == Some(inp[..ip - lit])
    requires out[op - lit - 1] == lit - 1 && out[op - lit..op] == inp[ip - lit..ip]
    ensures Decode(out[..op], []) == Some(inp[..ip])
  {
    hide Decode;
    var run := inp[ip - lit..ip];
    assert out[..op] == out[..op - lit - 1] + ([|run| - 1] + run);
    DecodeAppend(out[..op - lit - 1], [|run| - 1] + run, []);
    DecodeLiteralRun(run, inp[..ip - lit]);
    assert inp[..ip - lit] + run == inp[..ip];
  }

  /** A match token appended to output that decodes to `inp[..ip]` extends it by the matched octets. */
  lemma MatchWritten(inp: seq<byte>, out: seq<byte>, ip: nat, op: nat, off: nat, len: nat)
    requires 3 <= len <= MAX_REF && off < MAX_OFF && off < ip
    requires Repeats(inp, ip - off - 1, ip, len)
    requires op <= |out| && Decode(out[..op], []) == Some(inp[..ip])
    requires MatchToken(len - 2, off) <= out[op..]
    ensures Decode(out[..op + |MatchToken(len - 2, off)|], []) == Some(inp[..ip + len])
  {
    hide Decode, MatchToken;
    DecodeMatchToken(len - 2, off, inp[..ip]);
    CopyBackReproduces(inp, ip - off - 1, ip, len);
    TokenWritten(out, op, MatchToken(len - 2, off), inp[..ip]);
  }

  lemma TokenWritten(out: seq<byte>, op: nat, t: seq<byte>, acc: seq<byte>)
    requires op <= |out| && t <= out[op..] && Decode(out[..op], []) == Some(acc)
    ensures Decode(out[..op + |t|], []) == Decode(t, acc)
  {
    hide Decode;
    assert out[..op + |t|] == out[..op] + t;
    DecodeAppend(out[..op], t, []);
  }

  /** `op[-lit-1] = lit-1; op -= !lit`: ends the current run, undoing it when it is empty. */
  method StopRun(inp: seq<byte>, inLen: nat, out: array<byte>, limit: nat, ip: nat, op: nat, lit: nat)
    returns (end: nat)
    requires Progress(inp, inLen, out[..], limit, ip, op, lit) && op - lit - 1 < limit
    modifies out
    ensures end == (if lit == 0 then op - 1 else op) && end <= limit
    ensures Decode(out[..end], []) == Some(inp[..ip])
    ensures out[limit..] == old(out[limit..])
  {
    hide Decode;
    ghost var before := out[..];
    out[op - lit - 1] := (lit - 1) % 0x100;
    end := if lit == 0 then op - 1 else op;
    assert out[..op - lit - 1] == before[..op - lit - 1];
    if lit > 0 {
      assert out[op - lit..op] == before[op - lit..op];
      RunClosed(inp, out[..], ip, op, lit);
    }
  }

  /** Stores the back-reference for the `len` octets at `ip`. */
  method WriteMatch(inp: seq<byte>, out: array<byte>, limit: nat, ip: nat, op: nat, off: nat, len: nat)
    returns (end: nat)
    requires 3 <= len <= MAX_REF && off < MAX_OFF && off < ip
    requires Repeats(inp, ip - off - 1, ip, len)
    requires op + 3 <= limit <= out.Length && Decode(out[..op], []) == Some(inp[..ip])
    modifies out
    ensures end == op + (if len < 9 then 2 else 3) && end - op < len
    ensures Decode(out[..end], []) == Some(inp[..ip + len])
    ensures out[limit..] == old(out[limit..])
  {
    hide Decode;
    ghost var before := out[..];
    end := op;
    if len - 2 < 7 {
      out[end] := off / 256 + (len - 2) * 32;
      end := end + 1;
    } else {
      out[end] := off / 256 + 7 * 32;
      out[end + 1] := len - 9;
      end := end + 2;
    }
    out[end] := off % 256;
    end := end + 1;
    assert out[..op] == before[..op];
    assert out[op..end] == MatchToken(len - 2, off);
    MatchWritten(inp, out[..], ip, op, off, len);
  }

  /** Copies one octet into the current run, closing the run when it is full. */
  method CopyLiteral(inp: seq<byte>, inLen: nat, out: array<byte>, limit: nat, ip0: nat, op0: nat, lit0: nat)
    returns (ip: nat, op: nat, lit: nat)
    requires Progress(inp, inLen, out[..], limit, ip0, op0, lit0) && ip0 < inLen && op0 < limit
    modifies out
    ensures Progress(inp, inLen, out[..], limit, ip, op, lit) && ip == ip0 + 1
    ensures lit == (lit0 + 1) % MAX_LIT && op == op0 + 1 + (if lit == 0 then 1 else 0)
    ensures OnlyLiterals(ip0, op0, lit0) ==> OnlyLiterals(ip, op, lit)
    ensures out[limit..] == old(out[limit..])
  {
    hide Decode, OnlyLiterals, Progress, Run;
    OneMoreLiteral(ip0, op0, lit0);
    ProgressBounds(inp, inLen, out[..], limit, ip0, op0, lit0);
    LiteralAdded(inp, inLen, out[..], limit, ip0, op0, lit0);
    ip, op, lit := ip0, op0, lit0;
    lit := lit + 1;
    out[op] := inp[ip];
    op, ip := op + 1, ip + 1;
    if lit == MAX_LIT {
      CloseRun(inp, out, ip, op, lit);
      lit := 0;
      op := op + 1;
      RunStarted(inp, inLen, out[..], limit, ip, op);
    } else {
      RunGoesOn(inp, inLen, out[..], limit, ip, op, lit);
    }
  }

  lemma ProgressBounds(inp: seq<byte>, inLen: nat, out: seq<byte>, limit: nat, ip: nat, op: nat, lit: nat)
    requires Progress(inp, inLen, out, limit, ip, op, lit)
    ensures lit < MAX_LIT && lit <= ip <= inLen <= |inp| && lit + 1 <= op && op - lit - 1 <= limit <= |out|
    ensures Expansion(ip - lit, op - lit - 1)
  {
    hide Decode, Expansion;
  }

  /** A run of `lit` octets, its header not yet stored, behind output that decodes to what is before it. */
  ghost predicate Run(inp: seq<byte>, out: seq<byte>, ip: nat, op: nat, lit: nat) {
    && lit <= ip <= |inp| && lit + 1 <= op <= |out|
    && Decode(out[..op - lit - 1], []) == Some(inp[..ip - lit]) && out[op - lit..op] == inp[ip - lit..ip]
    && Expansion(ip - lit, op - lit - 1)
  }

  lemma LiteralAdded(inp: seq<byte>, inLen: nat, out: seq<byte>, limit: nat, ip: nat, op: nat, lit: nat)
    requires Progress(inp, inLen, out, limit, ip, op, lit) && ip < inLen && op < limit
    ensures Run(inp, out[op := inp[ip]], ip + 1, op + 1, lit + 1)
  {
    hide Decode, Expansion;
    var h, more := op - lit - 1, out[op := inp[ip]];
    assert more[..h] == out[..h];
    assert more[h + 1..op + 1] == out[h + 1..op] + [inp[ip]];
    assert inp[ip - lit..ip + 1] == inp[ip - lit..ip] + [inp[ip]];
  }

  lemma RunGoesOn(inp: seq<byte>, inLen: nat, out: seq<byte>, limit: nat, ip: nat, op: nat, lit: nat)
    requires Run(inp, out, ip, op, lit) && 0 < lit < MAX_LIT && ip <= inLen <= |inp| && op <= limit <= |out|
    ensures Progress(inp, inLen, out, limit, ip, op, lit)
  {
    hide Decode, Expansion;
  }

  lemma RunStarted(inp: seq<byte>, inLen: nat, out: seq<byte>, limit: nat, ip: nat, op: nat)
    requires ip <= inLen <= |inp| && 1 <= op <= limit + 1 && limit <= |out|
    requires Decode(out[..op - 1], []) == Some(inp[..ip]) && Expansion(ip, op - 1)
    ensures Progress(inp, inLen, out, limit, ip, op, 0)
  {
    hide Decode, Expansion;
  }

  /** Stores the header of a run that is full. */
  method CloseRun(inp: seq<byte>, out: array<byte>, ip: nat, op: nat, lit: nat)
    requires lit == MAX_LIT && Run(inp, out[..], ip, op, lit)
    modifies out
    ensures op <= out.Length && Decode(out[..op], []) == Some(inp[..ip]) && Expansion(ip, op)
    ensures out[op..] == old(out[op..])
  {
    hide Decode;
    ghost var h, full := op - lit - 1, out[..];
    out[op - lit - 1] := lit - 1;
    assert out[..h] == full[..h] && out[h + 1..op] == full[h + 1..op];
    RunClosed(inp, out[..], ip, op, lit);
  }

  /** Ends the current run, emits the match found at `ref` and starts a new run. */
  method TakeMatch(inp: seq<byte>, inLen: nat, out: array<byte>, limit: nat,
                   ref: nat, ip0: nat, op0: nat, lit0: nat)
    returns (ip: nat, op: nat, lit: nat, ghost len: nat)
    requires Progress(inp, inLen, out[..], limit, ip0, op0, lit0)
    requires ip0 + 3 <= inLen && Repeats(inp, ref, ip0, 3) && ip0 - ref <= MAX_OFF
    requires (if lit0 == 0 then op0 - 1 else op0) + 4 < limit
    modifies out
    ensures Progress(inp, inLen, out[..], limit, ip, op, lit) && ip0 + 3 <= ip <= inLen && lit == 0 && op >= 2
    ensures Longest(inp[..inLen], ref, ip0, len) && ip == ip0 + len
    ensures op == (if lit0 == 0 then op0 - 1 else op0) + (if len < 9 then 2 else 3) + 1
    ensures out[limit..] == old(out[limit..])
  {
    hide Decode;
    op := StopRun(inp, inLen, out, limit, ip0, op0, lit0);
    var found := MatchLength(inp, inLen, ref, ip0);
    op := WriteMatch(inp, out, limit, ip0, op, ip0 - ref - 1, found);
    ip := ip0 + found;
    len := found;
    lit := 0;
    op := op + 1;
  }

  /** The tail: at most two octets are left, and there is room for three. */
  method Finish(inp: seq<byte>, inLen: nat, out: array<byte>, limit: nat, ip0: nat, op0: nat, lit0: nat)
    returns (n: nat)
    requires Progress(inp, inLen, out[..], limit, ip0, op0, lit0) && inLen <= ip0 + 2 && op0 + 3 <= limit
    modifies out
    ensures n <= limit && out[limit..] == old(out[limit..])
    ensures Decode(out[..n], []) == Some(inp[..inLen])
    ensures n <= inLen + (inLen + 31) / 32
    ensures OnlyLiterals(ip0, op0, lit0) ==> n == inLen + (inLen + 31) / 32
    ensures n == TailSize(op0, lit0, inLen - ip0)
  {
    hide Decode, Expansion, OnlyLiterals, Progress;
    ProgressBounds(inp, inLen, out[..], limit, ip0, op0, lit0);
    var ip: nat, op: nat, lit: nat := ip0, op0, lit0;
    while ip < inLen
      invariant Progress(inp, inLen, out[..], limit, ip, op, lit) && ip0 <= ip <= inLen
      invariant out[limit..] == old(out[limit..])
      invariant var k := ip - ip0;
        (lit == lit0 + k && op == op0 + k) || (lit < k && lit0 + k >= MAX_LIT && op == op0 + k + 1)
      invariant OnlyLiterals(ip0, op0, lit0) ==> OnlyLiterals(ip, op, lit)
      invariant TailSize(op, lit, inLen - ip) == TailSize(op0, lit0, inLen - ip0)
    {
      ProgressBounds(inp, inLen, out[..], limit, ip, op, lit);
      ip, op, lit := CopyLiteral(inp, inLen, out, limit, ip, op, lit);
    }
    ProgressBounds(inp, inLen, out[..], limit, ip, op, lit);
    FinalSize(ip - lit, op - lit - 1, lit);
    FinalLiterals(ip, op, lit);
    n := StopRun(inp, inLen, out, limit, ip, op, lit);
  }

  /** The size of the output when `k` more literals come behind `op`. */
  function TailSize(op: nat, lit: nat, k: nat): int
    decreases k
  {
    if k == 0 then (if lit == 0 then op - 1 else op)
    else if lit + 1 == MAX_LIT then TailSize(op + 2, 0, k - 1)
    else TailSize(op + 1, lit + 1, k - 1)
  }

  // ---------------------------------------------------------------- what the scan chooses

  /** One turn of the loop: a literal, or a match with what is at `ref`. */
  datatype Item = Literal | Match(ref: nat, len: nat)

  /** The octets of the input that the items cover. */
  function Reached(items: seq<Item>): nat {
    if items == [] then 0
    else
      var last := items[|items| - 1];
      Reached(items[..|items| - 1]) + if last.Literal? then 1 else last.len
  }

  /** The positions the scan has stored in the table, in order: where each turn began, and the last two octets of each
      match unless the input ends there. */
  function Entered(items: seq<Item>, n: nat): seq<nat> {
    if items == [] then []
    else
      var front, end := items[..|items| - 1], Reached(items);
      Entered(front, n) + [Reached(front)]
      + if items[|items| - 1].Match? && end + 2 < n && end >= 2 then [end - 2, end - 1] else []
  }

  function Triple(inp: seq<byte>, p: nat): nat
    requires p + 2 < |inp|
  {
    0x1_0000 * inp[p] as int + 0x100 * inp[p + 1] as int + inp[p + 2] as int
  }

  /** The last of the positions `entered` whose three octets have hash `h`, or what was in the table before. */
  ghost function LastWith(inp: seq<byte>, table: seq<u32>, entered: seq<nat>, h: nat): nat
    requires |table| == HSIZE && h < HSIZE && Inside(inp, entered)
  {
    if entered == [] then table[h]
    else
      var p := entered[|entered| - 1];
      if Hash(Triple(inp, p)) == h then p else LastWith(inp, table, entered[..|entered| - 1], h)
  }

  ghost predicate Inside(inp: seq<byte>, entered: seq<nat>) {
    forall i :: 0 <= i < |entered| ==> entered[i] + 2 < |inp|
  }

  /** The match with what is at `ref` that is as long as possible, but near the end of the input. */
  ghost predicate Longest(inp: seq<byte>, ref: nat, at: nat, len: nat) {
    && 3 <= len <= MAX_REF && Repeats(inp, ref, at, len)
    && (len < MAX_REF && at + len + 2 < |inp| ==> inp[ref + len] != inp[at + len])
    && (len > 19 ==> at + len + 2 <= |inp|)
  }

  /** Item `k` is a match exactly when the last position with the same hash is behind the first octet, at most 8192
      octets back, and begins with the same three octets. */
  ghost predicate Chosen(inp: seq<byte>, table: seq<u32>, items: seq<Item>, k: nat)
    requires k < |items| && |table| == HSIZE
  {
    var at, entered := Reached(items[..k]), Entered(items[..k], |inp|);
    && at + 2 < |inp| && Inside(inp, entered)
    && var r := LastWith(inp, table, entered, Hash(Triple(inp, at)));
       && (items[k].Match? <==> 0 < r < at && at - r <= MAX_OFF && Repeats(inp, r, at, 3))
       && (items[k].Match? ==> items[k].ref == r && Longest(inp, r, at, items[k].len))
  }

  ghost predicate Greedy(inp: seq<byte>, table: seq<u32>, items: seq<Item>)
    requires |table| == HSIZE
  {
    && Inside(inp, Entered(items, |inp|)) && Reached(items) <= |inp|
    && forall k :: 0 <= k < |items| ==> Chosen(inp, table, items, k)
  }

  /** Where the next octet goes in the output, and the length of the current run. */
  function Output(items: seq<Item>): (r: (nat, nat))
    ensures r.0 >= 1 && r.1 < MAX_LIT
  {
    if items == [] then (1, 0)
    else
      var (op, lit) := Output(items[..|items| - 1]);
      match items[|items| - 1]
      case Literal => if lit + 1 == MAX_LIT then (op + 2, 0) else (op + 1, lit + 1)
      case Match(_, len) => ((if lit == 0 then op - 1 else op) + (if len < 9 then 2 else 3) + 1, 0)
  }

  lemma ReachedStep(items: seq<Item>, i: Item)
    ensures Reached(items + [i]) == Reached(items) + if i.Literal? then 1 else i.len
  {
    assert (items + [i])[..|items|] == items;
  }

  lemma EnteredStep(items: seq<Item>, i: Item, n: nat)
    ensures var end := Reached(items + [i]);
            Entered(items + [i], n)
            == Entered(items, n) + [Reached(items)]
               + if i.Match? && end + 2 < n && end >= 2 then [end - 2, end - 1] else []
  {
    hide Reached;
    assert (items + [i])[..|items|] == items;
  }

  lemma OutputStep(items: seq<Item>, i: Item)
    ensures var (op, lit) := Output(items);
            Output(items + [i])
            == if i.Literal? then (if lit + 1 == MAX_LIT then (op + 2, 0) else (op + 1, lit + 1))
               else ((if lit == 0 then op - 1 else op) + (if i.len < 9 then 2 else 3) + 1, 0)
  {
    assert (items + [i])[..|items|] == items;
  }

  /** The table holds the last position for every hash. */
  ghost predicate TableHolds(inp: seq<byte>, table: seq<u32>, entered: seq<nat>, now: seq<u32>)
    requires |table| == HSIZE
  {
    && |now| == HSIZE && Inside(inp, entered)
    && forall h :: 0 <= h < HSIZE ==> now[h] == LastWith(inp, table, entered, h)
  }

  lemma TableStores(inp: seq<byte>, table: seq<u32>, entered: seq<nat>, now: seq<u32>, p: u32)
    requires |table| == HSIZE && TableHolds(inp, table, entered, now) && p + 2 < |inp|
    ensures now[Hash(Triple(inp, p))] == LastWith(inp, table, entered, Hash(Triple(inp, p)))
    ensures TableHolds(inp, table, entered + [p], now[Hash(Triple(inp, p)) := p])
  {
    hide Hash, Triple;
    assert (entered + [p])[..|entered|] == entered;
  }

  /** The hash is what IDX computes: the value without its last octet less five times the value, modulo 65536. */
  lemma HashIs(v: nat)
    ensures Hash(v) < 65536 && (Hash(v) + 5 * v - v / 256) % 65536 == 0
  {
    var x := v / 256 - 5 * v;
    var q := x / 65536;
    assert x == 65536 * q + x % 65536;
    SameRemainder(0, -q);
  }

  /** Only three octets count for the hash, and the rolling value holds them. */
  lemma HashOfThree(v: nat)
    ensures Hash(v) == Hash(v % 0x100_0000)
  {
    var k, t := v / 0x100_0000, v % 0x100_0000;
    assert v / 256 == 0x1_0000 * k + t / 256;
    assert v / 256 - 5 * v == t / 256 - 5 * t + 0x1_0000 * (k - 5 * 0x100 * k);
    SameRemainder(t / 256 - 5 * t, k - 5 * 0x100 * k);
  }

  lemma SameRemainder(a: int, k: int)
    ensures (a + 0x1_0000 * k) % 0x1_0000 == a % 0x1_0000
  {
  }

  ghost predicate Rolling(inp: seq<byte>, hval: nat, ip: nat) {
    ip + 1 < |inp| && hval % 0x1_0000 == 0x100 * inp[ip] as int + inp[ip + 1] as int
  }

  lemma Rolls(inp: seq<byte>, hval: nat, ip: nat)
    requires Rolling(inp, hval, ip) && ip + 2 < |inp|
    ensures var v := Next(hval, inp[ip + 2]);
            Hash(v) == Hash(Triple(inp, ip)) && Rolling(inp, v, ip + 1)
  {
    hide Hash;
    var v := Next(hval, inp[ip + 2]);
    var q, low := hval / 0x1_0000, hval % 0x1_0000;
    assert hval * 256 == 0x100_0000 * q + 256 * low;
    RollParts(q, low, inp[ip + 2]);
    assert v % 0x100_0000 == 256 * low + inp[ip + 2] as int;
    HashOfThree(v);
    TripleParts(low, inp[ip], inp[ip + 1], inp[ip + 2], v);
  }

  lemma RollParts(q: nat, low: nat, b: byte)
    requires low < 0x1_0000
    ensures ((0x100_0000 * q + 256 * low) % 0x1_0000_0000 + b) % 0x100_0000 == 256 * low + b
  {
    var a, d := q / 0x100, q % 0x100;
    assert 0x100_0000 * q + 256 * low == 0x1_0000_0000 * a + (0x100_0000 * d + 256 * low);
    LowPart(0x1_0000_0000, a, 0x100_0000 * d + 256 * low);
    LowPart(0x100_0000, d, 256 * low + b);
  }

  lemma LowPart(base: nat, high: nat, low: nat)
    requires (base == 0x1_0000_0000 || base == 0x100_0000) && low < base
    ensures (base * high + low) % base == low
  {
  }

  lemma TripleParts(low: nat, a: byte, b: byte, c: byte, v: nat)
    requires low == 0x100 * a + b && v % 0x100_0000 == 256 * low + c
    ensures v % 0x1_0000 == 0x100 * b + c
  {
    var t := v % 0x100_0000;
    assert v % 0x1_0000 == t % 0x1_0000;
    assert t == 0x1_0000 * a + (0x100 * b + c);
  }

  /** What is known of a scan of the input that has come to `ip`. */
  ghost predicate Scanned(inp: seq<byte>, inLen: nat, out: seq<byte>, limit: nat, ip: nat, op: nat, lit: nat) {
    && Progress(inp, inLen, out, limit, ip, op, lit)
    && (if ip == 0 then op == 1 && lit == 0 else op >= 2 && inLen >= 3)
    && (Distinct(inp[..inLen]) ==> OnlyLiterals(ip, op, lit))
  }

  lemma ScanStart(inp: seq<byte>, inLen: nat, out: seq<byte>, limit: nat)
    requires inLen <= |inp| && limit <= |out|
    ensures Scanned(inp, inLen, out, limit, 0, 1, 0)
  {
    DecodeNothing(out[..0]);
    NoLiterals();
  }

  lemma ScanRoom(inp: seq<byte>, inLen: nat, out: seq<byte>, limit: nat, ip: nat, op: nat, lit: nat)
    requires Scanned(inp, inLen, out, limit, ip, op, lit)
    ensures ip <= inLen && op <= ip + ip / MAX_LIT + 1 <= inLen + inLen / MAX_LIT + 1
    ensures (op == 1 ==> ip == 0) && lit < MAX_LIT && (ip > 0 ==> inLen >= 3)
  {
    hide Decode, Distinct;
  }

  /** The items chosen so far, and where the output stands. */
  ghost predicate Chose(inp: seq<byte>, table: seq<u32>, items: seq<Item>, ip: nat, op: nat, lit: nat)
    requires |table| == HSIZE
  {
    Greedy(inp, table, items) && Reached(items) == ip && Output(items) == (op, lit)
  }

  /** With what the table holds. */
  ghost predicate Choosing(inp: seq<byte>, table: seq<u32>, now: seq<u32>, items: seq<Item>, ip: nat, op: nat, lit: nat)
    requires |table| == HSIZE
  {
    && Chose(inp, table, items, ip, op, lit)
    && TableHolds(inp, table, Entered(items, |inp|), now)
  }

  lemma NothingChosen(inp: seq<byte>, table: seq<u32>)
    requires |table| == HSIZE
    ensures Choosing(inp, table, table, [], 0, 1, 0)
  {
  }

  lemma ChoiceStep(inp: seq<byte>, table: seq<u32>, items: seq<Item>, i: Item)
    requires |table| == HSIZE && Greedy(inp, table, items) && Chosen(inp, table, items + [i], |items|)
    requires Inside(inp, Entered(items + [i], |inp|)) && Reached(items + [i]) <= |inp|
    ensures Greedy(inp, table, items + [i])
  {
    hide Chosen, Reached, Entered, Inside, Hash, LastWith, Triple, Repeats, Longest;
    forall k | 0 <= k < |items + [i]| ensures Chosen(inp, table, items + [i], k) {
      if k < |items| {
        SameChoice(inp, table, items, i, k);
      }
    }
  }

  lemma SameChoice(inp: seq<byte>, table: seq<u32>, items: seq<Item>, i: Item, k: nat)
    requires |table| == HSIZE && k < |items| && Chosen(inp, table, items, k)
    ensures Chosen(inp, table, items + [i], k)
  {
    hide Reached, Entered, Hash, Triple, LastWith, Repeats, Longest;
    assert (items + [i])[..k] == items[..k];
  }

  /** The scan goes on with a literal. */
  lemma ChoosesLiteral(inp: seq<byte>, table: seq<u32>, now: seq<u32>, items: seq<Item>, ip: u32, op: nat, lit: nat)
    requires |table| == HSIZE && Choosing(inp, table, now, items, ip, op, lit) && ip + 2 < |inp|
    requires var r := now[Hash(Triple(inp, ip))]; !(0 < r < ip && ip - r <= MAX_OFF && Repeats(inp, r, ip, 3))
    ensures Choosing(inp, table, now[Hash(Triple(inp, ip)) := ip], items + [Literal], ip + 1,
                     if lit + 1 == MAX_LIT then op + 2 else op + 1, (lit + 1) % MAX_LIT)
  {
    hide Hash, Triple, LastWith, TableHolds, Repeats, Longest, Greedy, Reached, Entered, Output;
    var entered := Entered(items, |inp|);
    ReachedStep(items, Literal);
    EnteredStep(items, Literal, |inp|);
    OutputStep(items, Literal);
    assert (items + [Literal])[..|items|] == items;
    InsideEntered(inp, table, items, now);
    InsideOf(inp, table, entered, now);
    TableStores(inp, table, entered, now, ip);
    InsideOf(inp, table, entered + [ip as nat], now[Hash(Triple(inp, ip)) := ip]);
    assert entered + [ip as nat] + [] == entered + [ip as nat];
    OutputRange(items);
    ChoiceStep(inp, table, items, Literal);
  }

  lemma OutputRange(items: seq<Item>)
    ensures Output(items).1 < MAX_LIT
  {
  }

  lemma InsideOf(inp: seq<byte>, table: seq<u32>, entered: seq<nat>, now: seq<u32>)
    requires |table| == HSIZE && TableHolds(inp, table, entered, now)
    ensures Inside(inp, entered) && |now| == HSIZE
  {
  }

  lemma InsideEntered(inp: seq<byte>, table: seq<u32>, items: seq<Item>, now: seq<u32>)
    requires |table| == HSIZE && Greedy(inp, table, items)
    ensures Inside(inp, Entered(items, |inp|)) && Reached(items) <= |inp|
  {
  }

  /** The scan goes on with a match, and stores two more positions unless it has come to the end. */
  lemma ChoosesMatch(inp: seq<byte>, table: seq<u32>, now: seq<u32>, items: seq<Item>, ip: u32, op: nat, lit: nat,
                     len: nat)
    requires |table| == HSIZE && Choosing(inp, table, now, items, ip, op, lit) && ip + 2 < |inp| < 0x1_0000_0000
    requires var r := now[Hash(Triple(inp, ip))];
             0 < r < ip && ip - r <= MAX_OFF && Repeats(inp, r, ip, 3) && Longest(inp, r, ip, len)
    ensures var end, stored := ip + len, now[Hash(Triple(inp, ip)) := ip];
            var again := if end + 2 < |inp| then
                           stored[Hash(Triple(inp, end - 2)) := (end - 2)][Hash(Triple(inp, end - 1)) := (end - 1)]
                         else stored;
            Choosing(inp, table, again, items + [Match(now[Hash(Triple(inp, ip))], len)], end,
                     (if lit == 0 then op - 1 else op) + (if len < 9 then 2 else 3) + 1, 0)
  {
    hide Hash, Triple, LastWith, TableHolds, Greedy, Reached, Entered, Output;
    var entered, end := Entered(items, |inp|), ip + len;
    InsideOf(inp, table, entered, now);
    var i := Match(now[Hash(Triple(inp, ip))], len);
    var h := Hash(Triple(inp, ip));
    ReachedStep(items, i);
    EnteredStep(items, i, |inp|);
    OutputStep(items, i);
    assert (items + [i])[..|items|] == items;
    InsideEntered(inp, table, items, now);
    InsideOf(inp, table, entered, now);
    TableStores(inp, table, entered, now, ip);
    var e1, n1 := entered + [ip as nat], now[h := ip];
    InsideOf(inp, table, e1, n1);
    if end + 2 < |inp| {
      TableStores(inp, table, e1, n1, end - 2);
      var e2, n2 := e1 + [end - 2 as nat], n1[Hash(Triple(inp, end - 2)) := (end - 2) as u32];
      TableStores(inp, table, e2, n2, end - 1);
      InsideOf(inp, table, e2, n2);
      InsideOf(inp, table, e2 + [end - 1 as nat], n2[Hash(Triple(inp, end - 1)) := (end - 1) as u32]);
      assert e1 + [end - 2, end - 1] == e2 + [end - 1 as nat];
    } else {
      assert e1 + [] == e1;
    }
    ChoiceStep(inp, table, items, i);
  }

  /** A turn that takes a match and stores its last two octets in the table. */
  method MatchTurn(inp: seq<byte>, inLen: u32, out: array<byte>, outLen: nat, htab: array<u32>,
                   ref: nat, ip0: nat, op0: nat, lit0: nat,
                   ghost table: seq<u32>, ghost before: seq<u32>, ghost items0: seq<Item>)
    returns (ip: nat, op: nat, lit: nat, hval: nat, ghost items: seq<Item>)
    requires outLen <= out.Length && htab.Length == HSIZE == |table| && ip0 + 2 < inLen <= |inp|
    requires Scanned(inp, inLen, out[..], outLen, ip0, op0, lit0)
    requires Choosing(inp[..inLen], table, before, items0, ip0, op0, lit0)
    requires |before| == HSIZE && var h := Hash(Triple(inp[..inLen], ip0));
             before[h] == ref && htab[..] == before[h := ip0 as u32]
    requires 0 < ref < ip0 && ip0 - ref <= MAX_OFF && Repeats(inp[..inLen], ref, ip0, 3)
    requires (if lit0 == 0 then op0 - 1 else op0) + 4 < outLen
    modifies out, htab
    ensures Scanned(inp, inLen, out[..], outLen, ip, op, lit) && ip0 + 3 <= ip <= inLen
    ensures Choosing(inp[..inLen], table, htab[..], items, ip, op, lit)
    ensures ip + 2 < inLen ==> Rolling(inp[..inLen], hval, ip)
    ensures out[outLen..] == old(out[outLen..])
  {
    hide Decode, OnlyLiterals, Distinct, Progress, Hash, Next, Repeats, Expansion, Choosing, Longest, Rolling, Triple;
    ghost var data := inp[..inLen];
    ghost var len;
    MatchInWhole(inp, inLen, ref, ip0);
    ip, op, lit, len := TakeMatch(inp, inLen, out, outLen, ref, ip0, op0, lit0);
    ChoosesMatch(data, table, before, items0, ip0, op0, lit0, len);
    items := items0 + [Match(ref, len)];
    hval := 0;
    if ip + 2 < inLen {
      RollStart(inp, inLen, ip - 2);
      hval := Next(inp[ip - 2] as int * 256 + inp[ip - 1] as int, inp[ip]);
      Rolls(data, inp[ip - 2] as int * 256 + inp[ip - 1] as int, ip - 2);
      htab[Hash(hval)] := ip - 2;
      Rolls(data, hval, ip - 1);
      hval := Next(hval, inp[ip + 1]);
      htab[Hash(hval)] := ip - 1;
    }
  }

  lemma MatchInWhole(inp: seq<byte>, inLen: nat, ref: nat, ip: nat)
    requires inLen <= |inp| && Repeats(inp[..inLen], ref, ip, 3)
    ensures Repeats(inp, ref, ip, 3) && !Distinct(inp[..inLen])
  {
    var data := inp[..inLen];
    assert data[ip] == data[ref];
    forall i | ip <= i < ip + 3 ensures inp[i] == inp[i - (ip - ref)] {
      assert data[i] == data[i - (ip - ref)];
    }
  }

  /** A turn that copies an octet. */
  method LiteralTurn(inp: seq<byte>, inLen: u32, out: array<byte>, outLen: nat, ghost now: seq<u32>,
                     ip0: nat, op0: nat, lit0: nat,
                     ghost table: seq<u32>, ghost before: seq<u32>, ghost items0: seq<Item>)
    returns (ip: nat, op: nat, lit: nat, ghost items: seq<Item>)
    requires outLen <= out.Length && HSIZE == |table| && ip0 + 2 < inLen <= |inp| && op0 < outLen
    requires Scanned(inp, inLen, out[..], outLen, ip0, op0, lit0)
    requires Choosing(inp[..inLen], table, before, items0, ip0, op0, lit0)
    requires |before| == HSIZE && var h := Hash(Triple(inp[..inLen], ip0));
             && now == before[h := ip0 as u32]
             && var r := before[h]; !(0 < r < ip0 && ip0 - r <= MAX_OFF && Repeats(inp[..inLen], r, ip0, 3))
    modifies out
    ensures Scanned(inp, inLen, out[..], outLen, ip, op, lit) && ip == ip0 + 1
    ensures Choosing(inp[..inLen], table, now, items, ip, op, lit)
    ensures out[outLen..] == old(out[outLen..])
  {
    hide Decode, OnlyLiterals, Distinct, Progress, Hash, Repeats, Choosing, Triple;
    ScanRoom(inp, inLen, out[..], outLen, ip0, op0, lit0);
    ChoosesLiteral(inp[..inLen], table, before, items0, ip0, op0, lit0);
    items := items0 + [Literal];
    ip, op, lit := CopyLiteral(inp, inLen, out, outLen, ip0, op0, lit0);
  }

  // ---------------------------------------------------------------- equal octets

  predicate AllEqual(s: seq<byte>) { forall i, j :: 0 <= i < |s| && 0 <= j < |s| ==> s[i] == s[j] }

  lemma LastEntered(items: seq<Item>, n: nat)
    requires items != []
    ensures var e, end := Entered(items, n), Reached(items);
            e != [] && e[|e| - 1] == if items[|items| - 1].Match? && end + 2 < n && end >= 2 then end - 1
                                     else Reached(items[..|items| - 1])
  {
    hide Reached;
  }

  lemma EqualTriples(inp: seq<byte>, p: nat, q: nat)
    requires AllEqual(inp) && p + 2 < |inp| && q + 2 < |inp|
    ensures Triple(inp, p) == Triple(inp, q)
  {
  }

  /** In equal octets the position found is the one stored last. */
  lemma EqualLast(inp: seq<byte>, table: seq<u32>, entered: seq<nat>, at: nat)
    requires AllEqual(inp) && |table| == HSIZE && Inside(inp, entered) && at + 2 < |inp| && entered != []
    ensures LastWith(inp, table, entered, Hash(Triple(inp, at))) == entered[|entered| - 1]
  {
    hide Hash, Triple;
    EqualTriples(inp, entered[|entered| - 1], at);
  }

  lemma EqualRepeats(inp: seq<byte>, r: nat, at: nat, len: nat)
    requires AllEqual(inp) && r < at && at + len <= |inp|
    ensures Repeats(inp, r, at, len)
  {
  }

  /** Of equal octets the first two are literals, and everything behind them is covered by matches, each but the last of
      264 octets. */
  lemma {:induction false} EqualItems(inp: seq<byte>, table: seq<u32>, items: seq<Item>)
    requires AllEqual(inp) && |table| == HSIZE && Greedy(inp, table, items)
    ensures var (op, lit) := Output(items);
            if |items| <= 2 then Reached(items) == |items| && op == |items| + 1 && lit == |items|
            else
              && items[|items| - 1].Match? && Reached(items) >= 3 && lit == 0 && op <= 4 + 3 * (|items| - 2)
              && (Reached(items) + 2 < |inp| ==> Reached(items) >= 2 + MAX_REF * (|items| - 2))
              && MAX_REF * (|items| - 3) + 4 < |inp|
  {
    hide Hash, Triple, LastWith, Reached, Entered, Output, Repeats, AllEqual;
    if items == [] {
      NothingReached();
    } else {
      var n := |items| - 1;
      var front, i := items[..n], items[n];
      GreedyFront(inp, table, items);
      EqualItems(inp, table, front);
      ReachedStep(front, i);
      OutputStep(front, i);
      assert front + [i] == items;
      EqualChoice(inp, table, items, n);
      if i.Match? {
        EqualLength(inp, i.ref, Reached(front), i.len);
      }
    }
  }

  lemma NothingReached()
    ensures Reached([]) == 0 && Output([]) == (1, 0)
  {
  }

  lemma GreedyFront(inp: seq<byte>, table: seq<u32>, items: seq<Item>)
    requires |table| == HSIZE && Greedy(inp, table, items) && items != []
    ensures Greedy(inp, table, items[..|items| - 1])
    ensures Chosen(inp, table, items, |items| - 1)
  {
    hide Hash, Triple, LastWith, Repeats, Longest, Output;
    var n := |items| - 1;
    var front := items[..n];
    assert front + [items[n]] == items;
    ReachedStep(front, items[n]);
    EnteredStep(front, items[n], |inp|);
    assert Chosen(inp, table, items, n);
    assert items[..n] == front;
    forall k | 0 <= k < n ensures Chosen(inp, table, front, k) {
      assert Chosen(inp, table, items, k);
      assert front[..k] == items[..k];
    }
  }

  lemma EqualChoice(inp: seq<byte>, table: seq<u32>, items: seq<Item>, n: nat)
    requires AllEqual(inp) && |table| == HSIZE && n < |items| && Chosen(inp, table, items, n)
    requires n <= 2 ==> Reached(items[..n]) == n
    requires n > 2 ==> items[n - 1].Match? && Reached(items[..n]) >= 3
    ensures Reached(items[..n]) + 2 < |inp|
    ensures n < 2 ==> items[n].Literal?
    ensures n >= 2 ==> items[n].Match? && Longest(inp, items[n].ref, Reached(items[..n]), items[n].len)
  {
    hide Hash, Triple, LastWith, Reached, Entered, Repeats, AllEqual, Longest;
    var at, entered := Reached(items[..n]), Entered(items[..n], |inp|);
    if n > 0 {
      LastEntered(items[..n], |inp|);
      EqualLast(inp, table, entered, at);
      var r := entered[|entered| - 1];
      if n <= 2 {
        assert items[..n][..n - 1] == items[..n - 1];
        FrontReached(items[..n]);
      }
      if r < at {
        EqualRepeats(inp, r, at, 3);
      }
    }
  }

  /** Where the last of one or two items begins, when they are literals. */
  lemma FrontReached(items: seq<Item>)
    requires 0 < |items| <= 2 && Reached(items) == |items|
    ensures items[|items| - 1].Literal? ==> Reached(items[..|items| - 1]) == |items| - 1
  {
    hide Output;
  }

  lemma EqualLength(inp: seq<byte>, r: nat, at: nat, len: nat)
    requires AllEqual(inp) && r < at && Longest(inp, r, at, len)
    ensures len == MAX_REF || at + len + 2 >= |inp|
  {
  }

  /** The loop of `lzf_compress`, up to the last two octets or a failed space check. */
  method Scan(inp: seq<byte>, inLen: u32, out: array<byte>, outLen: nat, htab: array<u32>)
    returns (ok: bool, ip: nat, op: nat, lit: nat, ghost items: seq<Item>)
    requires 0 < inLen <= |inp| && (inLen == 1 ==> 2 <= |inp|) && outLen <= out.Length && htab.Length == HSIZE
    modifies out, htab
    ensures out[outLen..] == old(out[outLen..])
    ensures Scanned(inp, inLen, out[..], outLen, ip, op, lit)
    ensures Chose(inp[..inLen], old(htab[..]), items, ip, op, lit)
    ensures ok ==> ip <= inLen <= ip + 2
    ensures !ok ==> inLen + inLen / MAX_LIT + 4 > outLen && inLen >= 3 && op + 4 >= outLen
  {
    hide Decode, Scanned, Hash, Next, Repeats, Choosing, Chose, Rolling, Triple;
    ok, ip, op, lit, items := true, 0, 1, 0, [];
    ghost var data := inp[..inLen];
    var hval: nat := inp[0] as int * 256 + inp[1] as int;
    ScanStart(inp, inLen, out[..], outLen);
    NothingChosen(data, htab[..]);
    RollStart(inp, inLen, 0);
    while ip + 2 < inLen
      invariant ok && ip <= inLen && Scanned(inp, inLen, out[..], outLen, ip, op, lit)
      invariant Choosing(data, old(htab[..]), htab[..], items, ip, op, lit)
      invariant ip + 2 < inLen ==> Rolling(data, hval, ip)
      invariant out[outLen..] == old(out[outLen..])
      decreases inLen - ip
    {
      ScanRoom(inp, inLen, out[..], outLen, ip, op, lit);
      Rolls(data, hval, ip);
      ghost var before := htab[..];
      hval := Next(hval, inp[ip + 2]);
      var ref: int := htab[Hash(hval)];
      htab[Hash(hval)] := ip;
      var off := (ip - ref - 1) % 0x1_0000_0000_0000_0000;
      assert htab[..] == before[Hash(Triple(data, ip)) := ip as u32];
      RepeatsOfThree(inp, inLen, ref, ip);
      if off < MAX_OFF && ref > 0
         && inp[ref + 2] == inp[ip + 2] && inp[ref] == inp[ip] && inp[ref + 1] == inp[ip + 1]
      {
        if op + 4 >= outLen && (if lit == 0 then op - 1 else op) + 4 >= outLen {
          ok := false;
          ChosenSoFar(data, old(htab[..]), before, items, ip, op, lit);
          return;
        }
        ip, op, lit, hval, items :=
          MatchTurn(inp, inLen, out, outLen, htab, ref, ip, op, lit, old(htab[..]), before, items);
        if ip + 2 >= inLen {
          ChosenSoFar(data, old(htab[..]), htab[..], items, ip, op, lit);
          return;
        }
      } else {
        if op >= outLen {
          ok := false;
          ChosenSoFar(data, old(htab[..]), before, items, ip, op, lit);
          return;
        }
        ip, op, lit, items :=
          LiteralTurn(inp, inLen, out, outLen, htab[..], ip, op, lit, old(htab[..]), before, items);
      }
    }
    ChosenSoFar(data, old(htab[..]), htab[..], items, ip, op, lit);
  }

  lemma ChosenSoFar(inp: seq<byte>, table: seq<u32>, now: seq<u32>, items: seq<Item>, ip: nat, op: nat, lit: nat)
    requires |table| == HSIZE && Choosing(inp, table, now, items, ip, op, lit)
    ensures Chose(inp, table, items, ip, op, lit)
  {
  }

  lemma RollStart(inp: seq<byte>, inLen: nat, p: nat)
    requires inLen <= |inp|
    ensures p + 1 < inLen ==> Rolling(inp[..inLen], inp[p] as int * 256 + inp[p + 1] as int, p)
  {
  }

  /** The three comparisons of the loop. */
  lemma RepeatsOfThree(inp: seq<byte>, inLen: nat, ref: int, ip: nat)
    requires ip + 2 < inLen <= |inp| && inLen < 0x1_0000_0000 && 0 <= ref < 0x1_0000_0000
    ensures var off := (ip - ref - 1) % 0x1_0000_0000_0000_0000;
            (off < MAX_OFF && ref > 0
               && inp[ref + 2] == inp[ip + 2] && inp[ref] == inp[ip] && inp[ref + 1] == inp[ip + 1])
            <==> (0 < ref < ip && ip - ref <= MAX_OFF && Repeats(inp[..inLen], ref, ip, 3))
  {
  }

  /** The items that a compressed input of size `size` consists of, but for the one or two octets at its end. */
  ghost predicate Parsed(inp: seq<byte>, table: seq<u32>, items: seq<Item>, size: nat)
    requires |table| == HSIZE
  {
    && Greedy(inp, table, items) && Reached(items) <= |inp| <= Reached(items) + 2
    && size == TailSize(Output(items).0, Output(items).1, |inp| - Reached(items))
  }

  /** The bound on what equal octets take. */
  function EqualBound(n: nat): nat { 6 + 3 * ((n + MAX_REF - 1) / MAX_REF) }

  lemma EqualRoom(inp: seq<byte>, table: seq<u32>, items: seq<Item>, ip: nat, op: nat, lit: nat)
    requires inp != [] && AllEqual(inp) && |table| == HSIZE && Chose(inp, table, items, ip, op, lit)
    ensures op <= EqualBound(|inp|) - 2
    ensures ip <= |inp| <= ip + 2 ==> TailSize(op, lit, |inp| - ip) <= EqualBound(|inp|)
  {
    hide Greedy, Reached, Output, AllEqual;
    EqualItems(inp, table, items);
    if |items| > 2 {
      MatchCount(|items| - 2, |inp|);
    }
    if ip <= |inp| <= ip + 2 {
      SmallTail(op, lit, |inp| - ip);
    }
  }

  lemma EqualToFirst(inp: seq<byte>, n: nat)
    requires n <= |inp| && forall i :: 0 <= i < n ==> inp[i] == inp[0]
    ensures AllEqual(inp[..n])
  {
  }

  lemma MatchCount(m: nat, n: nat)
    requires m > 0 && MAX_REF * (m - 1) + 4 < n
    ensures 4 + 3 * m <= EqualBound(n) - 2
  {
    var q := (n + MAX_REF - 1) / MAX_REF;
    assert MAX_REF * q + MAX_REF > n + MAX_REF - 1;
    assert q >= m;
  }

  lemma SmallTail(op: nat, lit: nat, k: nat)
    requires k <= 2 && lit < MAX_LIT - 2
    ensures TailSize(op, lit, k) <= op + k
  {
    assert k == 2 ==> TailSize(op, lit, k) == TailSize(op + 1, lit + 1, 1);
    assert k >= 1 ==> TailSize(op + k - 1, lit + k - 1, 1) == TailSize(op + k, lit + k, 0);
  }

  /** `lzf_compress`. The table arrives with arbitrary contents, as the local array of the original does. */
  method Compress(inp: seq<byte>, inLen: u32, out: array<byte>, outLen: nat, htab: array<u32>)
    returns (n: nat, ghost items: seq<Item>)
    requires inLen <= |inp| && (inLen == 1 ==> 2 <= |inp|)  // FRST reads two octets
    requires outLen <= out.Length && htab.Length == HSIZE
    modifies out, htab
    ensures n <= outLen && out[outLen..] == old(out[outLen..])
    ensures n > 0 ==> Decode(out[..n], []) == Some(inp[..inLen])
    ensures n > 0 ==> Parsed(inp[..inLen], old(htab[..]), items, n)
    ensures n <= inLen + (inLen + 31) / 32 && (n > 0 ==> Sized(inp[..inLen], n))
    ensures n > 0 && 25 * ((inLen + 31) / 32) < inLen ==> 100 * n < 104 * inLen
    ensures 0 < inLen && inLen + inLen / 32 + 4 <= outLen ==> n > 0
    ensures (forall i :: 0 <= i < inLen ==> inp[i] == inp[0]) ==>
              var most := 6 + 3 * ((inLen + 263) / 264); n <= most && (0 < inLen && most + 3 <= outLen ==> n > 0)
    ensures inLen == 1 && 4 <= outLen ==> n == 2
    ensures outLen <= inLen && outLen <= 4 ==> n == 0
  {
    hide Decode, OnlyLiterals, Distinct, Sized, Progress, Greedy, Reached, Output, AllEqual;
    items := [];
    if inLen == 0 || outLen == 0 {
      return 0, items;
    }
    var ok, ip, op, lit;
    ok, ip, op, lit, items := Scan(inp, inLen, out, outLen, htab);
    ScanRoom(inp, inLen, out[..], outLen, ip, op, lit);
    if forall i :: 0 <= i < inLen ==> inp[i] == inp[0] {
      EqualToFirst(inp, inLen);
      EqualRoom(inp[..inLen], old(htab[..]), items, ip, op, lit);
    }
    if !ok || op + 3 > outLen {
      return 0, items;
    }
    n := Finish(inp, inLen, out, outLen, ip, op, lit);
    SizeKnown(inp[..inLen], n);
    DecodeNothing(out[..0]);
  }

  /** For every other length there is an input that takes 104 % or more. */
  method WorstCase(m: u32, htab: array<u32>) returns (inp: seq<byte>, out: array<byte>, n: nat)
    requires 0 < m && 25 * ((m + 31) / 32) >= m && htab.Length == HSIZE
    modifies htab
    ensures |inp| > m && n <= out.Length && Decode(out[..n], []) == Some(inp[..m])
    ensures 100 * n >= 104 * m
  {
    LengthsAbove104(m);
    inp := seq(m + 1, i requires 0 <= i < m + 1 => i as byte);
    out := new byte[m + 8];
    ghost var items;
    n, items := Compress(inp, m, out, m + 8, htab);
  }
}
