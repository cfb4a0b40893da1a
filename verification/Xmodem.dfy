/** The two ends of the firmware upload: XMODEM.send (Python) and the block handling of
    iot_xmodem_update_fw (C). */
module Xmodem {
  import opened Octets
  import opened Prelude
  import opened Crc16
  import opened Crc16Algorithms

  const SOH: bv8 := 0x01
  const STX: bv8 := 0x02
  const EOT: bv8 := 0x04
  const ACK: bv8 := 0x06
  const NAK: bv8 := 0x15
  const CAN: bv8 := 0x18
  const CRC: bv8 := 0x43
  const PAD: bv8 := 0x1A

  const BLOCK := 128
  const RETRY := 16                 // XMODEM.send's retry
  const TRYCHAR_RETRY_LIMIT := 30
  const NAK_RETRY_LIMIT := 3
  const PACKET_RETRY_LIMIT := 25
  const XBUFF := 150                // sizeof(xbuff)
  const UPG_SIZE := 0x1_0000        // FLASH_UPG_FW_SIZE
  const UPG_ID_MAX := 9             // UART_FlASH_UPG_ID_MAX with the cloud client built in

  // ---------------------------------------------------------------- frames

  function Sum(data: seq<bv8>): nat { if data == [] then 0 else Sum(data[..|data| - 1]) + Value(data[|data| - 1]) }

  /** The trailer XMODEM.send appends: calc_crc high octet first, or calc_checksum. */
  function Trailer(crc: bool, data: seq<bv8>): seq<bv8> {
    if crc then [Digit(PyCrc(data, 0) / 0x100), Digit(PyCrc(data, 0) % 0x100)] else [Digit(Sum(data) % 0x100)]
  }

  function Frame(crc: bool, sequence: byte, data: seq<bv8>): seq<bv8> {
    [SOH, Digit(sequence), Digit(0xFF - sequence)] + data + Trailer(crc, data)
  }

  /** What `check` tests of the octets from `buf` on. */
  predicate TrailerOk(crc: bool, buf: seq<bv8>, sz: nat)
    requires sz + 2 <= |buf| || (!crc && sz + 1 <= |buf|)
  {
    if crc then Crc(buf[..sz]) == Join(buf[sz], buf[sz + 1]) else Sum(buf[..sz]) % 0x100 == Value(buf[sz])
  }

  /** A block as read by the receiver that it will not reject for its contents. */
  predicate Checked(crc: bool, xbuff: seq<bv8>) {
    && |xbuff| == 3 + BLOCK + (if crc then 2 else 1)
    && (xbuff[0] == SOH || xbuff[0] == STX)
    && xbuff[1] == !xbuff[2]
    && TrailerOk(crc, xbuff[3..], BLOCK)
  }

  /** `check`. */
  method Check(crc: bool, buf: seq<bv8>, sz: byte) returns (ok: bool)
    requires sz + 2 <= |buf| || (!crc && sz + 1 <= |buf|)
    ensures ok == TrailerOk(crc, buf, sz)
  {
    hide Crc, Sum, Value, Join;
    if crc {
      var c := CalByBit(buf, sz);
      return c == Join(buf[sz], buf[sz + 1]);
    }
    var cks: nat := 0;
    SumSteps(buf, 0);
    for i := 0 to sz
      invariant cks == Sum(buf[..i]) % 0x100
    {
      SumSteps(buf, i);
      ModAdd(Sum(buf[..i]), Value(buf[i]));
      cks := (cks + Value(buf[i])) % 0x100;
    }
    return cks == Value(buf[sz]);
  }

  lemma ModAdd(a: nat, b: nat)
    ensures (a % 0x100 + b) % 0x100 == (a + b) % 0x100
  {
  }

  lemma SumSteps(buf: seq<bv8>, i: nat)
    requires i < |buf|
    ensures Sum(buf[..i + 1]) == Sum(buf[..i]) + Value(buf[i]) && Sum(buf[..0]) == 0
  {
    hide Value;
    assert buf[..i + 1][..i] == buf[..i];
  }

  lemma ComplementDigit(n: byte)
    ensures Digit(n) == !Digit(0xFF - n)
  {
    hide Digit, Value;
    ValueOfDigit(n);
    ValueOfDigit(0xFF - n);
    ComplementValue(Digit(0xFF - n));
    DigitOfValue(Digit(n));
    DigitOfValue(!Digit(0xFF - n));
  }

  lemma TrailerLength(crc: bool, data: seq<bv8>)
    ensures |Trailer(crc, data)| == if crc then 2 else 1
  {
  }

  lemma TrailerChecks(crc: bool, data: seq<bv8>)
    ensures if crc then Crc(data) == Join(Trailer(crc, data)[0], Trailer(crc, data)[1])
            else Sum(data) % 0x100 == Value(Trailer(crc, data)[0])
  {
    hide Digit, Value, Join, IntOf, Feed, Bits, Sum;
    if crc {
      var c := PyCrc(data, 0);
      WordZero();
      WordOfInt(Feed(0, Bits(data)));
      SameDigit(c % 0x100, c);
    } else {
      ValueOfDigit(Sum(data) % 0x100);
    }
  }

  lemma TrailerPasses(crc: bool, data: seq<bv8>)
    requires |data| == BLOCK
    ensures |data + Trailer(crc, data)| == BLOCK + if crc then 2 else 1
    ensures TrailerOk(crc, data + Trailer(crc, data), BLOCK)
  {
    hide Value, Crc, Sum, Join, Trailer;
    TrailerLength(crc, data);
    TrailerChecks(crc, data);
    assert (data + Trailer(crc, data))[..BLOCK] == data;
  }

  /** The receiver accepts what the sender builds: the Python checksum is the one the C code recomputes. */
  lemma FrameChecks(crc: bool, sequence: byte, data: seq<bv8>)
    requires |data| == BLOCK
    ensures Checked(crc, Frame(crc, sequence, data))
    ensures Value(Frame(crc, sequence, data)[1]) == sequence
    ensures Frame(crc, sequence, data)[3..3 + BLOCK] == data
  {
    hide Digit, Value, Trailer, TrailerOk;
    ComplementDigit(sequence);
    ValueOfDigit(sequence);
    TrailerPasses(crc, data);
    var f := Frame(crc, sequence, data);
    assert f[3..] == data + Trailer(crc, data);
  }

  /** The octets of a packet: SOH, the number and its complement, the data, and the trailer. */
  lemma FrameOctets(crc: bool, sequence: byte, data: seq<bv8>)
    ensures var f := Frame(crc, sequence, data);
            && |f| == 3 + |data| + (if crc then 2 else 1)
            && f[0] == 0x01 && Value(f[1]) == sequence && Value(f[2]) == 255 - sequence && f[3..3 + |data|] == data
            && (crc ==> Join(f[3 + |data|], f[4 + |data|]) == Crc(data))
            && (!crc ==> Value(f[3 + |data|]) == Sum(data) % 256)
  {
    hide Digit, Value, Trailer, Crc, Join, Sum;
    ValueOfDigit(sequence);
    ValueOfDigit(0xFF - sequence);
    TrailerLength(crc, data);
    TrailerChecks(crc, data);
  }

  lemma WordZero()
    ensures Word(0) == 0
  {
    XorZero(0);
  }

  // ---------------------------------------------------------------- the receiver

  /** One call of spi_flash_update_fw: `count` octets are asked to be written, `data` are those the block holds. */
  datatype Write = Write(kind: byte, offset: u32, count: nat, data: seq<bv8>)

  datatype Receiver = Receiver(packetno: byte, pktNum: u32, xcycle: byte, len: int, upgSize: int, kind: byte,
                               retrans: byte, flash: seq<Write>)

  const FRESH := Receiver(1, 0, 0, 0, UPG_SIZE, 0, PACKET_RETRY_LIMIT, [])

  /** The reply to a block: ACK, NAK, or three CANs and the end of the transfer. */
  datatype Verdict = Acked | Naked | Cancelled

  /** `count`: the test against sizeof compares unsigned, so a negative count becomes 150. */
  function BlockCount(remaining: int): int {
    var count := if remaining > BLOCK then BLOCK else remaining;
    if count % 0x1_0000_0000 > XBUFF then XBUFF else count
  }

  function Int32(n: u32): int { if n >= 0x8000_0000 then n - 0x1_0000_0000 else n }

  function HeaderLength(data: seq<bv8>): u32
    requires |data| == BLOCK
  {
    Value(data[3]) as int + Value(data[4]) as int * 0x100 + Value(data[5]) as int * 0x1_0000
      + Value(data[6]) as int * 0x100_0000
  }

  predicate HasHeader(data: seq<bv8>)
    requires |data| == BLOCK
  {
    data[..3] == [0x76, 0x81, 0xAA]
  }

  function UpgKind(data: seq<bv8>): byte
    requires |data| == BLOCK
  {
    Value(data[7])
  }

  /** What a new block does to the flash and the counters, and whether the transfer goes on: it stops
      at the first block to be written when the upgrade type is invalid. */
  function Store(r: Receiver, data: seq<bv8>): (Receiver, bool)
    requires |data| == BLOCK
  {
    var count := BlockCount(r.upgSize - r.len);
    if count <= 0 then (r, true)
    else
      var xcycle := if r.packetno == 0 && r.pktNum % 0x100 == 0xFF then (r.xcycle + 1) % 0x100 else r.xcycle;
      var pktNum := xcycle * 0x100 + r.packetno;
      var counted := r.(xcycle := xcycle, pktNum := pktNum);
      if pktNum == 1 then
        (if HasHeader(data) then counted.(upgSize := Int32(HeaderLength(data)), kind := UpgKind(data)) else counted,
         true)
      else if r.kind == 0 || r.kind >= UPG_ID_MAX then (counted, false)
      else
        var w := Write(r.kind, (pktNum - 2) * BLOCK % 0x1_0000_0000, count, data[..Min(count, BLOCK)]);
        (counted.(flash := r.flash + [w], len := r.len + count), true)
  }

  predicate Expected(r: Receiver, xbuff: seq<bv8>)
    requires 2 <= |xbuff|
  {
    Value(xbuff[1]) == r.packetno || Value(xbuff[1]) == r.packetno - 1
  }

  /** What the receiver does with a block it has read completely. */
  function OnBlock(r: Receiver, crc: bool, xbuff: seq<bv8>): (Receiver, Verdict) {
    if !Checked(crc, xbuff) || !Expected(r, xbuff) then (r, Naked)
    else if Value(xbuff[1]) != r.packetno then Reply(r)
    else
      var (s, ok) := Store(r, xbuff[3..3 + BLOCK]);
      if !ok then (s, Cancelled)
      else Reply(s.(packetno := (s.packetno + 1) % 0x100, retrans := PACKET_RETRY_LIMIT + 1))
  }

  /** `--retrans <= 0` on an unsigned char. */
  function Reply(r: Receiver): (Receiver, Verdict) {
    var left := (r.retrans - 1) % 0x100;
    (r.(retrans := left), if left == 0 then Cancelled else Acked)
  }

  /** The locals of iot_xmodem_update_fw that outlive a block. */
  class FirmwareReceiver {
    var packetno: byte
    var pktNum: u32
    var xcycle: byte
    var len: int
    var upgSize: int
    var kind: byte
    var retrans: byte
    var flash: seq<Write>

    function View(): Receiver
      reads this
    {
      Receiver(packetno, pktNum, xcycle, len, upgSize, kind, retrans, flash)
    }

    constructor ()
      ensures View() == FRESH
    {
      packetno, pktNum, xcycle, len := 1, 0, 0, 0;
      upgSize, kind, retrans, flash := UPG_SIZE, 0, PACKET_RETRY_LIMIT, [];
    }

    /** The part that handles a new block. */
    method StoreBlock(data: seq<bv8>) returns (ok: bool)
      requires |data| == BLOCK
      modifies this
      ensures (View(), ok) == Store(old(View()), data)
    {
      hide Value, HeaderLength, UpgKind, HasHeader, BlockCount;
      var count := BlockCount(upgSize - len);
      if count > 0 {
        if packetno == 0 && pktNum % 0x100 == 0xFF {
          xcycle := (xcycle + 1) % 0x100;
        }
        pktNum := xcycle * 0x100 + packetno;
        if pktNum == 1 {
          if HasHeader(data) {
            upgSize := Int32(HeaderLength(data));
            kind := UpgKind(data);
          }
        } else {
          if kind == 0 || kind >= UPG_ID_MAX {
            return false;
          }
          flash := flash + [Write(kind, (pktNum - 2) * BLOCK % 0x1_0000_0000, count,
                                  data[..Min(count, BLOCK)])];
          len := len + count;
        }
      }
      return true;
    }

    /** From `start_recv` on, once the octets of a block have arrived. */
    method HandleBlock(crc: bool, xbuff: seq<bv8>) returns (verdict: Verdict)
      requires |xbuff| == 3 + BLOCK + (if crc then 2 else 1) && (xbuff[0] == SOH || xbuff[0] == STX)
      modifies this
      ensures (View(), verdict) == OnBlock(old(View()), crc, xbuff)
    {
      hide TrailerOk, Value, Store;
      if xbuff[1] == !xbuff[2] && (Value(xbuff[1]) == packetno || Value(xbuff[1]) == packetno - 1) {
        var ok := Check(crc, xbuff[3..], BLOCK);
        if ok {
          if Value(xbuff[1]) == packetno {
            var stored := StoreBlock(xbuff[3..3 + BLOCK]);
            if !stored {
              return Cancelled;
            }
            packetno := (packetno + 1) % 0x100;
            retrans := PACKET_RETRY_LIMIT + 1;
          }
          retrans := (retrans - 1) % 0x100;
          return if retrans == 0 then Cancelled else Acked;
        }
      }
      return Naked;
    }
  }

  // ---------------------------------------------------------------- the sender

  /** The stream cut into blocks, the last one filled up with `pad`. */
  function Blocks(stream: seq<bv8>): (b: seq<seq<bv8>>)
    ensures forall i :: 0 <= i < |b| ==> |b[i]| == BLOCK
  {
    if stream == [] then []
    else if |stream| < BLOCK then [stream + Fill(BLOCK - |stream|)]
    else [stream[..BLOCK]] + Blocks(stream[BLOCK..])
  }

  function Fill(n: nat): (f: seq<bv8>)
    ensures |f| == n
  {
    seq(n, _ => PAD)
  }

  /** What putc is given: a block (the number is for the reader of this model), EOT, or the two CANs of abort. */
  datatype Packet = Block(index: nat, bytes: seq<bv8>) | Eot | Abort

  /** Where `send` waits: for the start, for the reply to a block, for one more octet after an unexpected reply,
      for the reply to EOT, or nowhere: it has returned True, returned False, or raised. It raises before its abort:
      the message for an unexpected reply takes ord of an empty string, or formats the string getc returns with %d. */
  datatype Phase = Starting | Sending | Unexpected | Ending | Done | Failed | Raised

  datatype Sender = Sender(phase: Phase, crc: bool, cancel: bool, errors: nat, index: nat)

  const IDLE := Sender(Starting, false, false, 0, 0)

  /** The packet for block `index`, or EOT behind the last one. */
  function Emit(blocks: seq<seq<bv8>>, s: Sender): (Sender, seq<Packet>) {
    if s.index < |blocks| then
      (s.(phase := Sending), [Block(s.index, Frame(s.crc, (s.index + 1) % 0x100, blocks[s.index]))])
    else (s.(phase := Ending), [Eot])
  }

  /** One call of getc: `ch` is what it returned, None for nothing. */
  function OnReply(blocks: seq<seq<bv8>>, s: Sender, ch: Option<bv8>): (Sender, seq<Packet>) {
    match s.phase
    case Starting =>
      if ch == Some(NAK) || ch == Some(CRC) then
        Emit(blocks, s.(crc := ch == Some(CRC), errors := 0, index := 0))
      else if ch == Some(CAN) && s.cancel then (s.(phase := Failed), [])
      else if s.errors + 1 >= RETRY then (s.(phase := Failed, errors := s.errors + 1), [Abort])
      else (s.(cancel := s.cancel || ch == Some(CAN), errors := s.errors + 1), [])
    case Sending =>
      if ch == Some(ACK) then Emit(blocks, s.(index := s.index + 1))
      else if ch == None then (s.(phase := Raised), [])
      else if ch != Some(NAK) then (s.(phase := Unexpected), [])
      else if s.errors + 1 >= RETRY then (s.(phase := Failed, errors := s.errors + 1), [Abort])
      else Emit(blocks, s.(errors := s.errors + 1))
    case Unexpected => (s.(phase := Raised), [])
    case Ending =>
      if ch == Some(ACK) then (s.(phase := Done), [])
      else if s.errors + 1 >= RETRY then (s.(phase := Failed, errors := s.errors + 1), [Abort])
      else (s.(errors := s.errors + 1), [Eot])
    case _ => (s, [])
  }

  /** A whole run of the sender over the replies getc returns. */
  function OnReplies(blocks: seq<seq<bv8>>, s: Sender, replies: seq<Option<bv8>>): (Sender, seq<Packet>) {
    if replies == [] then (s, [])
    else
      var (t, out) := OnReplies(blocks, s, replies[..|replies| - 1]);
      var (u, more) := OnReply(blocks, t, replies[|replies| - 1]);
      (u, out + more)
  }

  lemma RepliesStep(blocks: seq<seq<bv8>>, replies: seq<Option<bv8>>, p: nat)
    requires p < |replies|
    ensures var (t, out) := OnReplies(blocks, IDLE, replies[..p]);
            var (u, more) := OnReply(blocks, t, replies[p]);
            OnReplies(blocks, IDLE, replies[..p + 1]) == (u, out + more)
  {
    hide OnReply;
    assert replies[..p + 1][..p] == replies[..p];
  }

  /** Once `send` has returned or raised it consumes and transmits nothing more. */
  lemma {:induction false} Settled(blocks: seq<seq<bv8>>, replies: seq<Option<bv8>>, p: nat)
    requires p <= |replies|
    requires OnReplies(blocks, IDLE, replies[..p]).0.phase in {Done, Failed, Raised}
    ensures OnReplies(blocks, IDLE, replies) == OnReplies(blocks, IDLE, replies[..p])
    decreases |replies| - p
  {
    if p < |replies| {
      RepliesStep(blocks, replies, p);
      var (t, out) := OnReplies(blocks, IDLE, replies[..p]);
      assert out + [] == out;
      Settled(blocks, replies, p + 1);
    } else {
      assert replies[..p] == replies;
    }
  }

  /** Reply `i` is one to a block for which `send` raises: nothing, or neither ACK nor NAK with one more octet to
      read. */
  ghost predicate RaisedBy(blocks: seq<seq<bv8>>, replies: seq<Option<bv8>>, i: nat)
    requires i < |replies|
  {
    && OnReplies(blocks, IDLE, replies[..i]).0.phase == Sending
    && (replies[i] == None || (replies[i] !in {Some(ACK), Some(NAK)} && i + 1 < |replies|))
  }

  ghost predicate Unanswered(blocks: seq<seq<bv8>>, replies: seq<Option<bv8>>) {
    && replies != [] && OnReplies(blocks, IDLE, replies[..|replies| - 1]).0.phase == Sending
    && replies[|replies| - 1] !in {None, Some(ACK), Some(NAK)}
  }

  lemma PhaseStep(blocks: seq<seq<bv8>>, s: Sender, ch: Option<bv8>)
    ensures var (t, out) := OnReply(blocks, s, ch);
            && (t.phase == Raised <==>
                  s.phase == Raised || s.phase == Unexpected || (s.phase == Sending && ch == None))
            && (t.phase == Unexpected <==> s.phase == Sending && ch !in {None, Some(ACK), Some(NAK)})
            && (Abort in out ==> t.phase == Failed) && (s.phase == Failed ==> t.phase == Failed)
  {
    hide Frame;
  }

  lemma {:induction false} AbortFails(blocks: seq<seq<bv8>>, replies: seq<Option<bv8>>)
    ensures Abort in OnReplies(blocks, IDLE, replies).1 ==> OnReplies(blocks, IDLE, replies).0.phase == Failed
  {
    hide OnReply;
    if replies != [] {
      var front := replies[..|replies| - 1];
      AbortFails(blocks, front);
      PhaseStep(blocks, OnReplies(blocks, IDLE, front).0, replies[|replies| - 1]);
    }
  }

  lemma RaisedByPrefix(blocks: seq<seq<bv8>>, replies: seq<Option<bv8>>, p: nat, i: nat)
    requires i < p <= |replies|
    ensures RaisedBy(blocks, replies[..p], i) ==> RaisedBy(blocks, replies, i)
    ensures RaisedBy(blocks, replies, i) && (i + 1 < p || replies[i] == None) ==> RaisedBy(blocks, replies[..p], i)
  {
    hide OnReplies;
    assert replies[..p][..i] == replies[..i];
  }

  /** `send` raises exactly when it reads nothing as the reply to a block, or another octet than ACK and NAK and then
      one more; and it has not sent the CANs of its abort then. */
  lemma {:induction false} RaisesIff(blocks: seq<seq<bv8>>, replies: seq<Option<bv8>>)
    ensures OnReplies(blocks, IDLE, replies).0.phase == Raised
       <==> exists i :: 0 <= i < |replies| && RaisedBy(blocks, replies, i)
    ensures OnReplies(blocks, IDLE, replies).0.phase == Unexpected <==> Unanswered(blocks, replies)
    ensures OnReplies(blocks, IDLE, replies).0.phase == Raised ==> Abort !in OnReplies(blocks, IDLE, replies).1
  {
    hide OnReply;
    AbortFails(blocks, replies);
    if replies != [] {
      var n := |replies| - 1;
      var front := replies[..n];
      RaisesIff(blocks, front);
      PhaseStep(blocks, OnReplies(blocks, IDLE, front).0, replies[n]);
      if i :| 0 <= i < n && RaisedBy(blocks, front, i) {
        RaisedByPrefix(blocks, replies, n, i);
      }
      if Unanswered(blocks, front) {
        assert replies[..n - 1] == front[..n - 1];
        assert RaisedBy(blocks, replies, n - 1);
      }
      if OnReplies(blocks, IDLE, front).0.phase == Sending && replies[n] == None {
        assert RaisedBy(blocks, replies, n);
      }
      if i :| 0 <= i < |replies| && RaisedBy(blocks, replies, i) {
        if i == n - 1 && replies[i] != None {
          assert replies[..n - 1] == front[..n - 1];
          assert Unanswered(blocks, front);
        } else if i < n {
          RaisedByPrefix(blocks, replies, n, i);
          assert RaisedBy(blocks, front, i);
        }
      }
    }
  }

  /** The run over `replies[..p]` ends with what `Emit` does from `s` after `sent` has been transmitted. */
  ghost predicate Emitting(blocks: seq<seq<bv8>>, replies: seq<Option<bv8>>, p: nat, s: Sender, sent: seq<Packet>) {
    p <= |replies| && OnReplies(blocks, IDLE, replies[..p]) == (Emit(blocks, s).0, sent + Emit(blocks, s).1)
  }

  lemma BlockAt(stream: seq<bv8>, index: nat)
    ensures |Blocks(stream)| == (|stream| + BLOCK - 1) / BLOCK
    ensures var pos := index * BLOCK;
            && (index < |Blocks(stream)| <==> pos < |stream|)
            && (pos < |stream| ==>
                  var data := stream[pos..if pos + BLOCK < |stream| then pos + BLOCK else |stream|];
                  Blocks(stream)[index] == data + Fill(BLOCK - |data|))
  {
    if |stream| >= BLOCK {
      if index > 0 {
        BlockAt(stream[BLOCK..], index - 1);
      } else {
        BlockAt(stream[BLOCK..], 0);
        assert stream[..BLOCK] + Fill(0) == stream[..BLOCK];
      }
    }
  }

  /** How a run of `send` ends, or where it waits when the replies are used up. */
  ghost predicate Outcome(blocks: seq<seq<bv8>>, replies: seq<Option<bv8>>, phase: Phase, sent: seq<Packet>) {
    OnReplies(blocks, IDLE, replies).0.phase == phase && OnReplies(blocks, IDLE, replies).1 == sent
  }

  lemma Ends(blocks: seq<seq<bv8>>, replies: seq<Option<bv8>>, p: nat)
    requires p <= |replies|
    requires p == |replies| || OnReplies(blocks, IDLE, replies[..p]).0.phase in {Done, Failed, Raised}
    ensures var (s, sent) := OnReplies(blocks, IDLE, replies[..p]); Outcome(blocks, replies, s.phase, sent)
  {
    hide OnReplies;
    if p == |replies| {
      assert replies[..p] == replies;
    } else {
      Settled(blocks, replies, p);
    }
  }

  /** `send`, as far as the given replies take it. */
  method Send(stream: seq<bv8>, replies: seq<Option<bv8>>) returns (phase: Phase, sent: seq<Packet>)
    ensures Outcome(Blocks(stream), replies, phase, sent)
  {
    hide OnReplies, Frame, Blocks, Outcome;
    ghost var blocks := Blocks(stream);
    var p: nat, errorCount: nat, crcMode, cancel := 0, 0, false, false;
    NoReplies(blocks, replies[..0]);
    while true
      invariant p <= |replies|
      invariant OnReplies(blocks, IDLE, replies[..p]) == (Sender(Starting, false, cancel, errorCount, 0), [])
      decreases |replies| - p
    {
      if p == |replies| {
        Ends(blocks, replies, p);
        return Starting, [];
      }
      RepliesStep(blocks, replies, p);
      var ch := replies[p];
      ghost var more := OnReply(blocks, Sender(Starting, false, cancel, errorCount, 0), ch).1;
      assert [] + more == more;
      p := p + 1;
      if ch == Some(NAK) {
        crcMode := false;
        break;
      } else if ch == Some(CRC) {
        crcMode := true;
        break;
      } else if ch == Some(CAN) {
        if cancel {
          Ends(blocks, replies, p);
          return Failed, [];
        }
        cancel := true;
      }
      errorCount := errorCount + 1;
      if errorCount >= RETRY {
        Ends(blocks, replies, p);
        return Failed, [Abort];
      }
    }
    phase, sent := SendBlocks(stream, replies, p, crcMode, cancel);
  }

  lemma StartsSending(blocks: seq<seq<bv8>>, replies: seq<Option<bv8>>, p: nat, s: Sender)
    requires Emitting(blocks, replies, p, s, [])
    ensures Emitting(blocks, replies, p, s.(phase := Sending), []) && p <= |replies|
  {
    hide OnReplies;
  }

  /** The part of `send` that transmits the stream, entered after the start character. */
  method SendBlocks(stream: seq<bv8>, replies: seq<Option<bv8>>, p0: nat, crcMode: bool, ghost cancel: bool)
    returns (phase: Phase, sent: seq<Packet>)
    requires Emitting(Blocks(stream), replies, p0, Sender(Starting, crcMode, cancel, 0, 0), [])
    ensures Outcome(Blocks(stream), replies, phase, sent)
  {
    hide OnReplies, Frame, Blocks, Outcome, Emitting, Emit;
    ghost var blocks := Blocks(stream);
    StartsSending(blocks, replies, p0, Sender(Starting, crcMode, cancel, 0, 0));
    var p, errorCount, sequence: byte, pos, index := p0, 0, 1, 0, 0;
    sent := [];
    while true
      invariant Emitting(blocks, replies, p, Sender(Sending, crcMode, cancel, errorCount, index), sent)
      invariant p <= |replies| && sequence == (index + 1) % 0x100
      invariant pos == if index * BLOCK < |stream| then index * BLOCK else |stream|
      decreases |replies| - p
    {
      var data := stream[pos..if pos + BLOCK < |stream| then pos + BLOCK else |stream|];
      pos := pos + |data|;
      BlockAt(stream, index);
      if data == [] {
        break;
      }
      var acked;
      acked, phase, p, errorCount, sent :=
        SendPacket(blocks, replies, p, crcMode, sequence, index, data + Fill(BLOCK - |data|), errorCount,
                   Sender(Sending, crcMode, cancel, errorCount, index), sent);
      if !acked {
        return;
      }
      sequence := (sequence + 1) % 0x100;
      index := index + 1;
    }
    phase, sent := SendEot(blocks, replies, p, errorCount, Sender(Sending, crcMode, cancel, errorCount, index), sent);
  }

  /** One block of `send`, until it is acknowledged. */
  method SendPacket(ghost blocks: seq<seq<bv8>>, replies: seq<Option<bv8>>, p0: nat, crcMode: bool, sequence: byte,
                    index: nat, data: seq<bv8>, errors0: nat, ghost s: Sender, sent0: seq<Packet>)
    returns (acked: bool, phase: Phase, p: nat, errorCount: nat, sent: seq<Packet>)
    requires Emitting(blocks, replies, p0, s, sent0) && s.phase == Sending && s.errors == errors0 && s.crc == crcMode
    requires s.index == index < |blocks| && data == blocks[s.index] && sequence == (s.index + 1) % 0x100
    ensures acked ==> p0 < p <= |replies|
    ensures acked ==> Emitting(blocks, replies, p, s.(errors := errorCount, index := s.index + 1), sent)
    ensures !acked ==> Outcome(blocks, replies, phase, sent)
  {
    hide OnReplies, Frame, Outcome;
    acked, p, errorCount, sent := false, p0, errors0, sent0;
    while true
      invariant p0 <= p && Emitting(blocks, replies, p, s.(errors := errorCount), sent)
      decreases |replies| - p
    {
      sent := sent + [Block(index, Frame(crcMode, sequence, data))];
      if p == |replies| {
        Ends(blocks, replies, p);
        phase := Sending;
        return;
      }
      RepliesStep(blocks, replies, p);
      var ch := replies[p];
      p := p + 1;
      if ch == Some(ACK) {
        acked, phase := true, Sending;
        return;
      }
      if ch != Some(NAK) {
        assert sent + [] == sent;
        phase := Raised;
        if ch != None {
          if p == |replies| {
            Ends(blocks, replies, p);
            phase := Unexpected;
            return;
          }
          RepliesStep(blocks, replies, p);
          p := p + 1;
        }
        Ends(blocks, replies, p);
        return;
      }
      errorCount := errorCount + 1;
      if errorCount >= RETRY {
        sent := sent + [Abort];
        Ends(blocks, replies, p);
        phase := Failed;
        return;
      }
    }
  }

  /** The end of `send`: EOT until it is acknowledged. */
  method SendEot(ghost blocks: seq<seq<bv8>>, replies: seq<Option<bv8>>, p0: nat, errors0: nat, ghost s: Sender,
                 sent0: seq<Packet>)
    returns (phase: Phase, sent: seq<Packet>)
    requires Emitting(blocks, replies, p0, s, sent0) && |blocks| <= s.index && errors0 == s.errors
    ensures Outcome(blocks, replies, phase, sent)
  {
    hide OnReplies, Outcome;
    var p, errorCount: nat := p0, errors0;
    sent := sent0;
    while true
      invariant Emitting(blocks, replies, p, s.(errors := errorCount), sent)
      decreases |replies| - p
    {
      sent := sent + [Eot];
      if p == |replies| {
        Ends(blocks, replies, p);
        return Ending, sent;
      }
      RepliesStep(blocks, replies, p);
      var ch := replies[p];
      p := p + 1;
      if ch == Some(ACK) {
        assert sent + [] == sent;
        Ends(blocks, replies, p);
        return Done, sent;
      }
      errorCount := errorCount + 1;
      if errorCount >= RETRY {
        sent := sent + [Abort];
        Ends(blocks, replies, p);
        return Failed, sent;
      }
    }
  }

  lemma NoReplies(blocks: seq<seq<bv8>>, none: seq<Option<bv8>>)
    requires none == []
    ensures OnReplies(blocks, IDLE, none) == (IDLE, [])
  {
  }
}
