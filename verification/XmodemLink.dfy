/** Whole runs of the firmware upload: XMODEM.send and iot_xmodem_update_fw joined by a link that loses
    and damages what it carries. */
module XmodemLink {
  import opened Octets
  import opened Prelude
  import opened Xmodem

  // ---------------------------------------------------------------- the system

  /** What the receiver makes of a packet that is not a valid block: it rejects it, sees nothing of it, gives
      up after three octets that are no header, or takes its octets for two CANs or for EOT. */
  datatype Glimpse = Reject | Miss | GiveUp | FalseCan | FalseEot

  datatype Stop = Running | OwnEot | StrayEot | Stopped

  datatype Event =
    | Solicit                               // the receiver times out before the first block and sends its trychar
    | FallBack                              // after thirty of them it goes from 'C' to NAK, which it sends at once
    | WaitOut                               // it has waited in vain as often as it does and gives up
    | SenderRead                            // getc returns the next reply
    | SenderTimeout                         // getc returns nothing
    | ReceiverRead(glimpse: Glimpse)        // the receiver takes the next packet
    | TailRead(glimpse: Glimpse)            // it takes the octet it has left unread of a packet as a control character
    | Damage(k: nat, junk: seq<bv8>)        // a packet becomes octets that are no valid block
    | DamageReply(k: nat, other: bv8)        // a reply becomes another octet, but not ACK
    | LoseReply(k: nat)

  /** `accepted` and `dups` count the new and the repeated blocks the receiver has acknowledged, `solicits` the
      start characters it has sent, `naks` the NAKs that answer no packet: start characters that are NAK, replies the
      link has changed into NAK, and answers to a leftover octet. `last` is the number of the packet the receiver took
      last, `tail` says that the last octet of that packet is still to be read. */
  datatype System = System(sender: Sender, recv: Receiver, trychar: bv8, rcrc: bool, stop: Stop,
                           toR: seq<Packet>, toS: seq<bv8>,
                           accepted: nat, dups: nat, solicits: nat, naks: nat, last: int, tail: bool)

  const CANCEL := [CAN, CAN, CAN]

  const INITIAL := System(IDLE, FRESH, CRC, false, Running, [], [], 0, 0, 0, 0, -1, false)

  function Number(blocks: seq<seq<bv8>>, p: Packet): nat {
    if p.Block? then p.index else |blocks|
  }

  /** What the receiver reads of a packet: without a CRC it stops after one octet of the trailer. */
  function Taken(crc: bool, bytes: seq<bv8>): seq<bv8> {
    if !crc && |bytes| > 3 + BLOCK + 1 then bytes[..3 + BLOCK + 1] else bytes
  }

  /** The octets are a valid block to a receiver of one kind or the other. */
  predicate Acceptable(bytes: seq<bv8>) { Checked(true, bytes) || Checked(false, Taken(false, bytes)) }

  predicate CrcMode(s: System) { s.rcrc || s.trychar == CRC }

  function Receive(blocks: seq<seq<bv8>>, s: System, glimpse: Glimpse): System
    requires s.toR != []
  {
    var p := s.toR[0];
    var t := s.(toR := s.toR[1..], last := Number(blocks, p));
    match p
    case Eot => t.(stop := OwnEot, toS := s.toS + [ACK])
    case Abort => t.(stop := Stopped, toS := s.toS + [ACK])
    case Block(_, bytes) =>
      var crc, xbuff := CrcMode(s), Taken(CrcMode(s), bytes);
      var u := t.(trychar := 0, rcrc := crc, tail := xbuff != bytes);
      if Checked(crc, xbuff) then
        var (r, verdict) := OnBlock(s.recv, crc, xbuff);
        match verdict
        case Naked => u.(recv := r, toS := s.toS + [NAK])
        case Cancelled => u.(recv := r, stop := Stopped, toS := s.toS + CANCEL)
        case Acked =>
          if Value(xbuff[1]) == s.recv.packetno then u.(recv := r, toS := s.toS + [ACK], accepted := s.accepted + 1)
          else u.(recv := r, toS := s.toS + [ACK], dups := s.dups + 1)
      else match glimpse
        case Reject => u.(toS := s.toS + [NAK])
        case Miss => t
        case GiveUp => if s.trychar != 0 then t else t.(stop := Stopped, toS := s.toS + CANCEL)
        case FalseCan => t.(stop := Stopped, toS := s.toS + [ACK])
        case FalseEot => t.(stop := StrayEot, toS := s.toS + [ACK])
  }

  /** The leftover octet: SOH or STX begins a block that is not there. */
  function ReceiveTail(s: System, glimpse: Glimpse): System {
    var t := s.(tail := false);
    match glimpse
    case Reject => t.(toS := s.toS + [NAK], naks := s.naks + 1)
    case Miss => t
    case GiveUp => t
    case FalseCan => t.(stop := Stopped, toS := s.toS + [ACK])
    case FalseEot => t.(stop := StrayEot, toS := s.toS + [ACK])
  }

  /** Whether a turn of the wait for the first block is left in which the receiver sends its trychar. */
  predicate Soliciting(s: System) {
    || (s.trychar == CRC && s.solicits < TRYCHAR_RETRY_LIMIT)
    || (s.trychar == NAK && s.solicits < TRYCHAR_RETRY_LIMIT + NAK_RETRY_LIMIT)
  }

  function One(b: bv8): nat { if b == NAK then 1 else 0 }

  /** One step; an event that cannot happen changes nothing. Once the receiver has returned only the sender goes on. */
  function Next(blocks: seq<seq<bv8>>, s: System, e: Event): System {
    if s.stop != Running && !e.SenderRead? && !e.SenderTimeout? then s
    else match e
      case Solicit =>
        if Soliciting(s) then
          s.(toS := s.toS + [s.trychar], solicits := s.solicits + 1, naks := s.naks + One(s.trychar))
        else s
      case FallBack =>
        if s.trychar == CRC && !Soliciting(s) then
          s.(trychar := NAK, toS := s.toS + [NAK], solicits := s.solicits + 1, naks := s.naks + 1)
        else s
      case WaitOut =>
        if s.trychar == CRC || Soliciting(s) then s else s.(stop := Stopped, toS := s.toS + CANCEL)
      case SenderRead =>
        if s.toS == [] then s
        else
          var (t, out) := OnReply(blocks, s.sender, Some(s.toS[0]));
          s.(sender := t, toR := s.toR + out, toS := s.toS[1..])
      case SenderTimeout =>
        var (t, out) := OnReply(blocks, s.sender, None);
        s.(sender := t, toR := s.toR + out)
      case ReceiverRead(glimpse) => if s.toR == [] || s.tail then s else Receive(blocks, s, glimpse)
      case TailRead(glimpse) => if s.tail then ReceiveTail(s, glimpse) else s
      case Damage(k, junk) =>
        if k >= |s.toR| || Acceptable(junk) then s
        else s.(toR := s.toR[k := Block(Number(blocks, s.toR[k]), junk)])
      case DamageReply(k, other) =>
        if k >= |s.toS| || other == ACK then s else s.(toS := s.toS[k := other], naks := s.naks + One(other))
      case LoseReply(k) => if k >= |s.toS| then s else s.(toS := s.toS[..k] + s.toS[k + 1..])
  }

  function Run(blocks: seq<seq<bv8>>, s: System, events: seq<Event>): System {
    if events == [] then s else Next(blocks, Run(blocks, s, events[..|events| - 1]), events[|events| - 1])
  }

  // ---------------------------------------------------------------- what the flash should hold

  /** The upgrade size and type once the first block has been taken. */
  function UpgOf(first: seq<bv8>): int
    requires |first| == BLOCK
  {
    if HasHeader(first) then Int32(HeaderLength(first)) else UPG_SIZE
  }

  function KindOf(first: seq<bv8>): byte
    requires |first| == BLOCK
  {
    if HasHeader(first) then UpgKind(first) else 0
  }

  /** The flash writes due to the first `k` blocks: each block after the header once, behind the one before. */
  function Writes(blocks: seq<seq<bv8>>, k: nat): seq<Write>
    requires k <= |blocks| <= 0xFFFF && forall i :: 0 <= i < |blocks| ==> |blocks[i]| == BLOCK
  {
    if k <= 1 then []
    else
      var left := UpgOf(blocks[0]) - (k - 2) * BLOCK;
      if left <= 0 then Writes(blocks, k - 1)
      else Writes(blocks, k - 1)
           + [Write(KindOf(blocks[0]), (k - 2) * BLOCK, Min(BLOCK, left), blocks[k - 1][..Min(BLOCK, left)])]
  }

  /** The files the theorems are about: the block number fits the receiver's two counters, and the length in the
      header is no negative int. */
  ghost predicate Fits(blocks: seq<seq<bv8>>) {
    && |blocks| <= 0xFFFF
    && (forall i :: 0 <= i < |blocks| ==> |blocks[i]| == BLOCK)
    && (blocks != [] ==> 0 <= UpgOf(blocks[0]))
  }

  /** The receiver after `k` blocks; its block counters matter only while something is left to write. */
  ghost predicate Stored(blocks: seq<seq<bv8>>, r: Receiver, k: nat, running: bool)
    requires Fits(blocks)
  {
    && k <= |blocks|
    && (running ==> r.packetno == (k + 1) % 0x100)
    && r.flash == Writes(blocks, k)
    && if k == 0 then
         r.len == 0 && r.upgSize == UPG_SIZE && r.kind == 0 && (running ==> r.pktNum == 0 && r.xcycle == 0)
       else
         && r.upgSize == UpgOf(blocks[0]) && r.kind == KindOf(blocks[0])
         && r.len == Min((k - 1) * BLOCK, r.upgSize)
         && (running && r.len < r.upgSize ==> r.pktNum == k && r.xcycle == k / 0x100)
  }

  lemma StoreFirst(blocks: seq<seq<bv8>>, r: Receiver)
    requires Fits(blocks) && Stored(blocks, r, 0, true) && blocks != []
    ensures Store(r, blocks[0]).1
    ensures Stored(blocks, Store(r, blocks[0]).0.(packetno := 2), 1, true) && Store(r, blocks[0]).0.packetno == 1
  {
    hide HasHeader, HeaderLength, UpgKind, Int32;
  }

  lemma StoreLater(blocks: seq<seq<bv8>>, r: Receiver, k: nat)
    requires Fits(blocks) && Stored(blocks, r, k, true) && 0 < k < |blocks|
    ensures var (s, ok) := Store(r, blocks[k]);
            && s.packetno == r.packetno
            && (ok ==> Stored(blocks, s.(packetno := (k + 2) % 0x100), k + 1, true))
            && (!ok ==> Stored(blocks, s, k, false))
  {
    hide UpgOf, KindOf;
    CounterStep(k);
    var left := r.upgSize - r.len;
    if left > 0 {
      StoreWrites(blocks, r, k);
    } else {
      assert Writes(blocks, k + 1) == Writes(blocks, k);
    }
  }

  lemma StoreWrites(blocks: seq<seq<bv8>>, r: Receiver, k: nat)
    requires Fits(blocks) && Stored(blocks, r, k, true) && 0 < k < |blocks| && r.upgSize - r.len > 0
    ensures var (s, ok) := Store(r, blocks[k]);
            && s.packetno == r.packetno
            && (!ok ==> s == r.(xcycle := s.xcycle, pktNum := s.pktNum))
            && (ok ==> s == r.(xcycle := (k + 1) / 0x100, pktNum := k + 1, len := Min(k * BLOCK, r.upgSize),
                               flash := Writes(blocks, k + 1)))
  {
    hide UpgOf, KindOf, Store, BlockCount, Writes;
    CountOfRest(r.upgSize - r.len);
    StoreCounts(r, blocks[k], k);
    WritesMore(blocks, k);
  }

  lemma CountOfRest(left: nat)
    ensures BlockCount(left) == Min(BLOCK, left)
  {
  }

  lemma WritesMore(blocks: seq<seq<bv8>>, k: nat)
    requires Fits(blocks) && 0 < k < |blocks| && UpgOf(blocks[0]) > (k - 1) * BLOCK
    ensures var n := Min(BLOCK, UpgOf(blocks[0]) - (k - 1) * BLOCK);
            Writes(blocks, k + 1)
              == Writes(blocks, k) + [Write(KindOf(blocks[0]), (k - 1) * BLOCK, n, blocks[k][..n])]
  {
    hide UpgOf, KindOf;
  }

  /** Counters and call for a block behind the first. */
  lemma StoreCounts(r: Receiver, data: seq<bv8>, k: nat)
    requires |data| == BLOCK && 0 < k < 0xFFFF && r.packetno == (k + 1) % 0x100
    requires r.pktNum == k && r.xcycle == k / 0x100 && 0 < BlockCount(r.upgSize - r.len) <= BLOCK
    ensures var n := BlockCount(r.upgSize - r.len);
            Store(r, data)
              == if r.kind == 0 || r.kind >= UPG_ID_MAX then (r.(xcycle := (k + 1) / 0x100, pktNum := k + 1), false)
                 else
                   (r.(xcycle := (k + 1) / 0x100, pktNum := k + 1, len := r.len + n,
                       flash := r.flash + [Write(r.kind, (k - 1) * BLOCK, n, data[..n])]), true)
  {
    hide BlockCount;
    CounterStep(k);
    var xcycle := if r.packetno == 0 && r.pktNum % 0x100 == 0xFF then (r.xcycle + 1) % 0x100 else r.xcycle;
    assert xcycle == (k + 1) / 0x100;
  }

  lemma CounterStep(k: nat)
    requires k < 0xFFFF
    ensures (k + 1) % 0x100 == 0 ==> k % 0x100 == 0xFF && (k + 1) / 0x100 == k / 0x100 + 1
    ensures (k + 1) % 0x100 != 0 ==> (k + 1) / 0x100 == k / 0x100
    ensures (k + 1) / 0x100 * 0x100 + (k + 1) % 0x100 == k + 1 && (k + 1) / 0x100 < 0x100
    ensures ((k + 1) % 0x100 + 1) % 0x100 == (k + 2) % 0x100
  {
  }

  // ---------------------------------------------------------------- the invariant of every run

  predicate Genuine(p: Packet) { p.Block? && Acceptable(p.bytes) }

  /** Only what the sender has built passes the receiver's check. */
  ghost predicate Sound(blocks: seq<seq<bv8>>, s: Sender, p: Packet) {
    && Number(blocks, p) <= |blocks|
    && (p.Eot? ==> s.index == |blocks|)
    && (Genuine(p) ==>
          && p.index < |blocks| && p.index <= s.index
          && Value(p.bytes[1]) == (p.index + 1) % 0x100
          && p.bytes[3..3 + BLOCK] == blocks[p.index])
  }

  function LastNumber(blocks: seq<seq<bv8>>, last: int, q: seq<Packet>): int {
    if q == [] then last else Number(blocks, q[|q| - 1])
  }

  /** How many packets carry the same block as the one before them. */
  function Repeats(blocks: seq<seq<bv8>>, last: int, q: seq<Packet>): nat {
    if q == [] then 0
    else
      var front := q[..|q| - 1];
      Repeats(blocks, last, front) + if Number(blocks, q[|q| - 1]) == LastNumber(blocks, last, front) then 1 else 0
  }

  ghost predicate Ordered(blocks: seq<seq<bv8>>, last: int, q: seq<Packet>) {
    forall i :: 0 <= i < |q| ==> LastNumber(blocks, last, q[..i]) <= Number(blocks, q[i])
  }

  function Count(q: seq<bv8>, b: bv8): nat {
    if q == [] then 0 else Count(q[..|q| - 1], b) + if q[|q| - 1] == b then 1 else 0
  }

  /** The ACKs and the NAKs on their way to the sender. */
  function Acks(q: seq<bv8>): nat { Count(q, ACK) }

  function Naks(q: seq<bv8>): nat { Count(q, NAK) }

  ghost predicate SenderInv(blocks: seq<seq<bv8>>, s: System) {
    && s.sender.index <= |blocks| && s.sender.errors <= RETRY
    && (s.sender.phase in {Starting, Sending, Ending} ==> s.sender.errors < RETRY)
    && (s.sender.phase == Sending ==> s.sender.index < |blocks|)
    && (s.sender.phase in {Ending, Done} ==> s.sender.index == |blocks|)
    && (s.sender.phase == Starting ==> s.sender.index == 0 && s.toR == [] && s.last == -1 && s.dups == 0)
  }

  ghost predicate QueueInv(blocks: seq<seq<bv8>>, s: System) {
    && (forall p :: p in s.toR ==> Sound(blocks, s.sender, p))
    && Ordered(blocks, s.last, s.toR)
    && LastNumber(blocks, s.last, s.toR) <= (if s.sender.phase == Failed then |blocks| else s.sender.index)
  }

  /** The sender is ahead of the receiver by no more than the repeated acknowledgements, and each of those cost
      the sender a NAK. */
  ghost predicate CountInv(blocks: seq<seq<bv8>>, s: System) {
    && Acks(s.toS) + s.sender.index <= s.accepted + s.dups
    && s.dups + Repeats(blocks, s.last, s.toR) <= s.sender.errors
    && s.accepted <= s.last + 1
  }

  /** The receiver is without a CRC, and leaves an octet unread, only after it has fallen back to NAK. */
  ghost predicate TailInv(s: System) {
    s.solicits <= TRYCHAR_RETRY_LIMIT || s.naks == 0 ==> CrcMode(s) && !s.tail
  }

  ghost predicate Inv(blocks: seq<seq<bv8>>, s: System) {
    && Fits(blocks)
    && Stored(blocks, s.recv, s.accepted, s.stop == Running)
    && (s.stop == OwnEot ==> |blocks| <= s.accepted + s.dups && s.dups <= RETRY)
    && (s.stop == Running ==> SenderInv(blocks, s) && QueueInv(blocks, s) && CountInv(blocks, s))
  }

  // ---------------------------------------------------------------- queue lemmas

  lemma RepeatsAppend(blocks: seq<seq<bv8>>, last: int, q: seq<Packet>, p: Packet)
    ensures Repeats(blocks, last, q + [p])
         == Repeats(blocks, last, q) + if Number(blocks, p) == LastNumber(blocks, last, q) then 1 else 0
  {
    assert (q + [p])[..|q|] == q;
  }

  lemma OrderedAppend(blocks: seq<seq<bv8>>, last: int, q: seq<Packet>, p: Packet)
    requires Ordered(blocks, last, q) && LastNumber(blocks, last, q) <= Number(blocks, p)
    ensures Ordered(blocks, last, q + [p])
  {
    forall i | 0 <= i < |q| + 1
      ensures LastNumber(blocks, last, (q + [p])[..i]) <= Number(blocks, (q + [p])[i])
    {
      assert (q + [p])[..i] == q[..i];
    }
  }

  lemma {:induction false} RepeatsTail(blocks: seq<seq<bv8>>, last: int, q: seq<Packet>)
    requires q != []
    ensures Repeats(blocks, last, q)
         == Repeats(blocks, Number(blocks, q[0]), q[1..]) + if Number(blocks, q[0]) == last then 1 else 0
    ensures LastNumber(blocks, last, q) == LastNumber(blocks, Number(blocks, q[0]), q[1..])
    decreases |q|
  {
    var front := q[..|q| - 1];
    if |q| > 1 {
      assert q[1..][..|q| - 2] == front[1..];
      RepeatsTail(blocks, last, front);
    }
  }

  lemma OrderedTail(blocks: seq<seq<bv8>>, last: int, q: seq<Packet>)
    requires q != [] && Ordered(blocks, last, q)
    ensures Ordered(blocks, Number(blocks, q[0]), q[1..]) && last <= Number(blocks, q[0])
  {
    var t := q[1..];
    assert LastNumber(blocks, last, q[..0]) == last;
    forall i | 0 <= i < |t|
      ensures LastNumber(blocks, Number(blocks, q[0]), t[..i]) <= Number(blocks, t[i])
    {
      assert LastNumber(blocks, last, q[..i + 1]) <= Number(blocks, q[i + 1]);
    }
  }

  /** Damaging a packet keeps its number, so none of the queue's measures change. */
  lemma {:induction false} SameNumbers(blocks: seq<seq<bv8>>, last: int, q: seq<Packet>, r: seq<Packet>)
    requires |q| == |r| && forall i :: 0 <= i < |q| ==> Number(blocks, q[i]) == Number(blocks, r[i])
    ensures Repeats(blocks, last, q) == Repeats(blocks, last, r)
    ensures LastNumber(blocks, last, q) == LastNumber(blocks, last, r)
    decreases |q|
  {
    hide Number;
    if q != [] {
      SameNumbers(blocks, last, q[..|q| - 1], r[..|r| - 1]);
    }
  }

  lemma SameOrder(blocks: seq<seq<bv8>>, last: int, q: seq<Packet>, r: seq<Packet>)
    requires |q| == |r| && forall i :: 0 <= i < |q| ==> Number(blocks, q[i]) == Number(blocks, r[i])
    requires Ordered(blocks, last, q)
    ensures Ordered(blocks, last, r)
  {
    hide Number;
    forall i | 0 <= i < |r| ensures LastNumber(blocks, last, r[..i]) <= Number(blocks, r[i]) {
      assert LastNumber(blocks, last, q[..i]) <= Number(blocks, q[i]);
    }
  }

  lemma {:induction false} CountConcat(p: seq<bv8>, q: seq<bv8>, b: bv8)
    ensures Count(p + q, b) == Count(p, b) + Count(q, b)
    decreases |q|
  {
    if q == [] {
      assert p + q == p;
    } else {
      assert (p + q)[..|p + q| - 1] == p + q[..|q| - 1];
      CountConcat(p, q[..|q| - 1], b);
    }
  }

  lemma CountOne(c: bv8, b: bv8)
    ensures Count([c], b) == if c == b then 1 else 0
  {
    assert [c][..0] == [];
  }

  lemma CountHead(q: seq<bv8>, b: bv8)
    requires q != []
    ensures Count(q, b) == Count(q[1..], b) + if q[0] == b then 1 else 0
  {
    hide Count;
    assert q == [q[0]] + q[1..];
    CountConcat([q[0]], q[1..], b);
    CountOne(q[0], b);
  }

  lemma CountAppend(q: seq<bv8>, c: bv8, b: bv8)
    ensures Count(q + [c], b) == Count(q, b) + if c == b then 1 else 0
  {
    hide Count;
    CountConcat(q, [c], b);
    CountOne(c, b);
  }

  lemma CountChanged(q: seq<bv8>, k: nat, c: bv8, b: bv8)
    requires k < |q|
    ensures Count(q[..k] + q[k + 1..], b) <= Count(q, b)
    ensures Count(q[k := c], b) <= Count(q, b) + if c == b then 1 else 0
  {
    hide Count;
    assert q == q[..k] + ([q[k]] + q[k + 1..]);
    assert q[k := c] == q[..k] + ([c] + q[k + 1..]);
    CountConcat(q[..k], q[k + 1..], b);
    CountConcat(q[..k], [q[k]] + q[k + 1..], b);
    CountConcat([q[k]], q[k + 1..], b);
    CountConcat(q[..k], [c] + q[k + 1..], b);
    CountConcat([c], q[k + 1..], b);
    CountOne(c, b);
  }

  lemma {:induction false} AnswersWithin(q: seq<bv8>)
    ensures Acks(q) + Naks(q) <= |q|
    decreases |q|
  {
    if q != [] {
      AnswersWithin(q[..|q| - 1]);
    }
  }

  // ---------------------------------------------------------------- steps

  lemma EmitSound(blocks: seq<seq<bv8>>, s: Sender)
    requires Fits(blocks) && s.index <= |blocks|
    ensures Emit(blocks, s).1 != [] && |Emit(blocks, s).1| == 1
    ensures Sound(blocks, Emit(blocks, s).0, Emit(blocks, s).1[0])
    ensures Number(blocks, Emit(blocks, s).1[0]) == s.index
  {
    hide Checked, Frame, Value;
    if s.index < |blocks| {
      FrameChecks(s.crc, (s.index + 1) % 0x100, blocks[s.index]);
    }
  }

  /** The sender goes from `s.sender` to `t`, which keeps every promise made about the packets under way. */
  ghost predicate Forward(blocks: seq<seq<bv8>>, s: Sender, t: Sender) {
    && s.index <= t.index <= |blocks| && t.errors <= RETRY
    && (s.index == |blocks| ==> t.index == |blocks|)
    && t.phase != Starting
    && (t.phase in {Sending, Ending} ==> t.errors < RETRY)
    && (t.phase == Sending ==> t.index < |blocks|)
    && (t.phase in {Ending, Done} ==> t.index == |blocks|)
    && (s.phase == Failed ==> t.phase == Failed)
  }

  lemma QueueForward(blocks: seq<seq<bv8>>, s: System, t: Sender)
    requires QueueInv(blocks, s) && Forward(blocks, s.sender, t)
    ensures forall p :: p in s.toR ==> Sound(blocks, t, p)
  {
    hide Genuine;
  }

  /** The sender goes on without sending anything. */
  lemma SenderQuiet(blocks: seq<seq<bv8>>, s: System, t: Sender, toS: seq<bv8>)
    requires Inv(blocks, s) && s.stop == Running
    requires Forward(blocks, s.sender, t) && t.index == s.sender.index && s.sender.errors <= t.errors
    requires Acks(toS) <= Acks(s.toS)
    ensures Inv(blocks, s.(sender := t, toR := s.toR + [], toS := toS))
  {
    hide Count, Stored, Sound, Ordered, Repeats, LastNumber;
    QueueForward(blocks, s, t);
    assert s.toR + [] == s.toR;
  }

  /** The sender goes on and sends a packet. */
  lemma SenderSends(blocks: seq<seq<bv8>>, s: System, t: Sender, p: Packet, toS: seq<bv8>)
    requires Inv(blocks, s) && s.stop == Running && Forward(blocks, s.sender, t) && Sound(blocks, t, p)
    requires Number(blocks, p) == t.index || (t.phase == Failed && Number(blocks, p) <= |blocks|)
    requires LastNumber(blocks, s.last, s.toR) <= Number(blocks, p)
    requires (s.toR == [] && s.last == -1 && s.dups == 0)
             || s.sender.errors + (if LastNumber(blocks, s.last, s.toR) == Number(blocks, p) then 1 else 0) <= t.errors
    requires Acks(toS) + t.index <= Acks(s.toS) + s.sender.index
    ensures Inv(blocks, s.(sender := t, toR := s.toR + [p], toS := toS))
  {
    hide Count, Stored, Sound, Ordered, Repeats;
    QueueForward(blocks, s, t);
    RepeatsAppend(blocks, s.last, s.toR, p);
    OrderedAppend(blocks, s.last, s.toR, p);
    NoRepeats(blocks, s.last);
  }

  lemma NoRepeats(blocks: seq<seq<bv8>>, last: int)
    ensures Repeats(blocks, last, []) == 0
  {
  }

  lemma StartingStep(blocks: seq<seq<bv8>>, s: System, ch: Option<bv8>, toS: seq<bv8>)
    requires Inv(blocks, s) && s.stop == Running && s.sender.phase == Starting && Acks(toS) <= Acks(s.toS)
    ensures var (t, out) := OnReply(blocks, s.sender, ch);
            Inv(blocks, s.(sender := t, toR := s.toR + out, toS := toS))
  {
    hide Count, Stored, Sound, Ordered, Repeats, QueueInv, CountInv;
    var (t, out) := OnReply(blocks, s.sender, ch);
    QueueFacts(blocks, s);
    if ch == Some(NAK) || ch == Some(CRC) {
      var begin := s.sender.(crc := ch == Some(CRC), errors := 0, index := 0);
      EmitSound(blocks, begin);
      assert out == [out[0]];
      SenderSends(blocks, s, t, out[0], toS);
    } else if out == [Abort] {
      PlainSound(blocks, t, Abort);
      SenderSends(blocks, s, t, Abort, toS);
    } else if t.phase == Failed {
      SenderQuiet(blocks, s, t, toS);
    } else {
      StillStarting(blocks, s, t, toS);
    }
  }

  /** The sender emits the packet for block `begin.index`, or EOT. */
  lemma EmitStep(blocks: seq<seq<bv8>>, s: System, begin: Sender, toS: seq<bv8>)
    requires Inv(blocks, s) && s.stop == Running && s.sender.phase == Sending
    requires s.sender.index <= begin.index <= |blocks| && begin.errors < RETRY
    requires s.sender.errors + (if s.sender.index == begin.index then 1 else 0) <= begin.errors
    requires Acks(toS) + begin.index <= Acks(s.toS) + s.sender.index
    ensures var (t, out) := Emit(blocks, begin);
            Inv(blocks, s.(sender := t, toR := s.toR + out, toS := toS))
  {
    hide Count, Stored, Sound, Ordered, Repeats, QueueInv, CountInv;
    var (t, out) := Emit(blocks, begin);
    QueueFacts(blocks, s);
    EmitSound(blocks, begin);
    assert out == [out[0]];
    SenderSends(blocks, s, t, out[0], toS);
  }

  lemma SendingStep(blocks: seq<seq<bv8>>, s: System, ch: Option<bv8>, toS: seq<bv8>)
    requires Inv(blocks, s) && s.stop == Running && s.sender.phase == Sending
    requires Acks(toS) + (if ch == Some(ACK) then 1 else 0) <= Acks(s.toS)
    ensures var (t, out) := OnReply(blocks, s.sender, ch);
            Inv(blocks, s.(sender := t, toR := s.toR + out, toS := toS))
  {
    hide Count, Stored, Sound, Ordered, Repeats, QueueInv, CountInv, Emit;
    var (t, out) := OnReply(blocks, s.sender, ch);
    QueueFacts(blocks, s);
    if ch == Some(ACK) {
      EmitStep(blocks, s, s.sender.(index := s.sender.index + 1), toS);
    } else if ch == Some(NAK) && s.sender.errors + 1 < RETRY {
      EmitStep(blocks, s, s.sender.(errors := s.sender.errors + 1), toS);
    } else if ch == Some(NAK) {
      PlainSound(blocks, t, Abort);
      SenderSends(blocks, s, t, Abort, toS);
    } else {
      SenderQuiet(blocks, s, t, toS);
    }
  }

  lemma EndingStep(blocks: seq<seq<bv8>>, s: System, ch: Option<bv8>, toS: seq<bv8>)
    requires Inv(blocks, s) && s.stop == Running && s.sender.phase == Ending && Acks(toS) <= Acks(s.toS)
    ensures var (t, out) := OnReply(blocks, s.sender, ch);
            Inv(blocks, s.(sender := t, toR := s.toR + out, toS := toS))
  {
    hide Count, Stored, Sound, Ordered, Repeats, QueueInv, CountInv;
    var (t, out) := OnReply(blocks, s.sender, ch);
    QueueFacts(blocks, s);
    if ch == Some(ACK) {
      SenderQuiet(blocks, s, t, toS);
    } else {
      PlainSound(blocks, t, out[0]);
      assert out == [out[0]];
      SenderSends(blocks, s, t, out[0], toS);
    }
  }

  /** The sender takes a reply, or none. */
  lemma SenderStep(blocks: seq<seq<bv8>>, s: System, ch: Option<bv8>, toS: seq<bv8>)
    requires Inv(blocks, s) && s.stop == Running
    requires Acks(toS) + (if ch == Some(ACK) then 1 else 0) <= Acks(s.toS)
    ensures var (t, out) := OnReply(blocks, s.sender, ch);
            Inv(blocks, s.(sender := t, toR := s.toR + out, toS := toS))
  {
    hide Count, Stored, Sound, QueueInv, CountInv, Emit;
    match s.sender.phase
    case Starting => StartingStep(blocks, s, ch, toS);
    case Sending => SendingStep(blocks, s, ch, toS);
    case Unexpected => SenderQuiet(blocks, s, s.sender.(phase := Raised), toS);
    case Ending => EndingStep(blocks, s, ch, toS);
    case _ => SenderQuiet(blocks, s, s.sender, toS);
  }

  lemma PlainSound(blocks: seq<seq<bv8>>, s: Sender, p: Packet)
    requires p == Abort || (p == Eot && s.index == |blocks|)
    ensures Sound(blocks, s, p) && Number(blocks, p) == |blocks|
  {
  }

  lemma QueueFacts(blocks: seq<seq<bv8>>, s: System)
    requires Inv(blocks, s) && s.stop == Running
    ensures LastNumber(blocks, s.last, s.toR) <= (if s.sender.phase == Failed then |blocks| else s.sender.index)
  {
  }

  lemma StillStarting(blocks: seq<seq<bv8>>, s: System, t: Sender, toS: seq<bv8>)
    requires Inv(blocks, s) && s.stop == Running && s.sender.phase == Starting
    requires t.phase == Starting && t.index == 0 && s.sender.errors <= t.errors < RETRY
    requires Acks(toS) <= Acks(s.toS)
    ensures Inv(blocks, s.(sender := t, toR := s.toR + [], toS := toS))
  {
    hide Count, Stored, Sound, Ordered, Repeats, LastNumber;
    assert s.toR + [] == s.toR;
  }

  /** The bounds on a valid block under way: the sender is never far enough ahead for its number to be mistaken. */
  lemma BlockRange(blocks: seq<seq<bv8>>, s: System)
    requires Inv(blocks, s) && s.stop == Running && s.toR != [] && Genuine(s.toR[0])
    ensures s.last <= s.toR[0].index && s.accepted - 1 <= s.toR[0].index <= s.accepted + RETRY
    ensures s.toR[0].index == s.last ==> s.dups < s.sender.errors
  {
    hide Count, Stored, Checked, Repeats;
    var p := s.toR[0];
    assert p in s.toR;
    OrderedTail(blocks, s.last, s.toR);
    RepeatsTail(blocks, s.last, s.toR);
  }

  lemma NewIsNext(i: nat, a: nat)
    requires a - 1 <= i <= a + RETRY
    ensures (i + 1) % 0x100 == (a + 1) % 0x100 ==> i == a
    ensures (i + 1) % 0x100 == (a + 1) % 0x100 - 1 ==> i == a - 1
  {
  }

  /** What remains true of the queues once the head is taken and the reply `b` has been sent. */
  lemma TakeHead(blocks: seq<seq<bv8>>, s: System, b: bv8, t: System)
    requires Inv(blocks, s) && s.stop == Running && s.toR != []
    requires t.toR == s.toR[1..] && t.last == Number(blocks, s.toR[0]) && t.sender == s.sender
    requires t.toS == s.toS + [b] || t.toS == s.toS
    requires t.accepted + t.dups == s.accepted + s.dups + (if b == ACK && t.toS != s.toS then 1 else 0)
    requires t.dups == s.dups || (t.dups == s.dups + 1 && t.last == s.last)
    requires t.accepted == s.accepted || t.accepted == t.last + 1
    ensures SenderInv(blocks, t) && QueueInv(blocks, t) && CountInv(blocks, t)
  {
    hide Count, Stored, Sound, Repeats, Ordered, LastNumber;
    OrderedTail(blocks, s.last, s.toR);
    RepeatsTail(blocks, s.last, s.toR);
    CountAppend(s.toS, b, ACK);
    forall p | p in t.toR ensures Sound(blocks, t.sender, p) {
      assert p in s.toR;
    }
  }

  /** A valid block's effect on the receiver that has taken `k` blocks. */
  lemma BlockTaken(blocks: seq<seq<bv8>>, r: Receiver, crc: bool, xbuff: seq<bv8>, k: nat)
    requires Fits(blocks) && Stored(blocks, r, k, true) && Checked(crc, xbuff)
    requires |xbuff| > 3 + BLOCK && (Value(xbuff[1]) == r.packetno ==> k < |blocks| && xbuff[3..3 + BLOCK] == blocks[k])
    ensures var (t, verdict) := OnBlock(r, crc, xbuff);
            if Value(xbuff[1]) == r.packetno then
              || (verdict == Acked && Stored(blocks, t, k + 1, true))
              || (verdict == Cancelled && Stored(blocks, t, k, false))
            else
              Stored(blocks, t, k, true) && Stored(blocks, t, k, false) && (verdict == Naked <==> !Expected(r, xbuff))
  {
    hide Stored, Checked, Store;
    StoredStops(blocks, r, k);
    if Value(xbuff[1]) == r.packetno {
      StoreBlock(blocks, r, k);
    } else {
      StoredReply(blocks, r, k);
    }
  }

  lemma ReceiveValid(blocks: seq<seq<bv8>>, s: System, glimpse: Glimpse)
    requires Inv(blocks, s) && s.stop == Running && s.toR != [] && s.toR[0].Block?
    requires Checked(CrcMode(s), Taken(CrcMode(s), s.toR[0].bytes))
    ensures Inv(blocks, Receive(blocks, s, glimpse))
  {
    hide Count, Repeats, Checked, OnBlock, Stored, SenderInv, CountInv, QueueInv, Taken, Acceptable;
    var p := s.toR[0];
    var t := Receive(blocks, s, glimpse);
    var crc, xbuff := CrcMode(s), Taken(CrcMode(s), p.bytes);
    CheckedLength(crc, xbuff);
    TakenPrefix(crc, p.bytes);
    HeadSound(blocks, s);
    BlockRange(blocks, s);
    NewIsNext(p.index, s.accepted);
    PacketNumber(blocks, s);
    BlockTaken(blocks, s.recv, crc, xbuff, s.accepted);
    var (r, verdict) := OnBlock(s.recv, crc, xbuff);
    if verdict != Cancelled {
      TakeHead(blocks, s, if verdict == Acked then ACK else NAK, t);
    }
  }

  lemma PacketNumber(blocks: seq<seq<bv8>>, s: System)
    requires Inv(blocks, s) && s.stop == Running
    ensures s.recv.packetno == (s.accepted + 1) % 0x100 && s.accepted <= |blocks| && s.accepted <= s.last + 1
  {
  }

  lemma StoreBlock(blocks: seq<seq<bv8>>, r: Receiver, k: nat)
    requires Fits(blocks) && Stored(blocks, r, k, true) && k < |blocks|
    ensures var (s, ok) := Store(r, blocks[k]);
            var t := s.(packetno := (s.packetno + 1) % 0x100, retrans := PACKET_RETRY_LIMIT + 1);
            if ok then Stored(blocks, Reply(t).0, k + 1, true)
            else Stored(blocks, s, k, false)
  {
    hide Store;
    CounterStep(k);
    if k == 0 {
      StoreFirst(blocks, r);
    } else {
      StoreLater(blocks, r, k);
    }
  }

  lemma StoredReply(blocks: seq<seq<bv8>>, r: Receiver, k: nat)
    requires Fits(blocks) && Stored(blocks, r, k, true)
    ensures Stored(blocks, Reply(r).0, k, true) && Stored(blocks, Reply(r).0, k, false)
  {
  }

  lemma StoredStops(blocks: seq<seq<bv8>>, r: Receiver, k: nat)
    requires Fits(blocks) && Stored(blocks, r, k, true)
    ensures Stored(blocks, r, k, false)
  {
  }

  lemma ReceiveStep(blocks: seq<seq<bv8>>, s: System, glimpse: Glimpse)
    requires Inv(blocks, s) && s.stop == Running && s.toR != []
    ensures Inv(blocks, Receive(blocks, s, glimpse))
  {
    hide Count, Repeats, Checked, Stored, SenderInv, CountInv, QueueInv, OnBlock;
    StoredStops(blocks, s.recv, s.accepted);
    var p := s.toR[0];
    var t := Receive(blocks, s, glimpse);
    if p.Block? && Checked(CrcMode(s), Taken(CrcMode(s), p.bytes)) {
      ReceiveValid(blocks, s, glimpse);
    } else if p == Eot {
      EotIsLast(blocks, s);
    } else if t.stop == Running {
      TakeHead(blocks, s, NAK, t);
    }
  }

  lemma CheckedLength(crc: bool, xbuff: seq<bv8>)
    requires Checked(crc, xbuff)
    ensures 3 + BLOCK < |xbuff|
  {
  }

  lemma TakenPrefix(crc: bool, bytes: seq<bv8>)
    requires Checked(crc, Taken(crc, bytes))
    ensures |Taken(crc, bytes)| <= |bytes| && 3 + BLOCK < |bytes| && Acceptable(bytes)
    ensures Taken(crc, bytes)[1] == bytes[1] && Taken(crc, bytes)[3..3 + BLOCK] == bytes[3..3 + BLOCK]
  {
    hide TrailerOk;
  }

  lemma EotIsLast(blocks: seq<seq<bv8>>, s: System)
    requires Inv(blocks, s) && s.stop == Running && s.toR != [] && s.toR[0] == Eot
    ensures |blocks| <= s.accepted + s.dups && s.dups <= RETRY
  {
    hide Count, Repeats, Stored;
    assert s.toR[0] in s.toR;
  }

  lemma DamageStep(blocks: seq<seq<bv8>>, s: System, k: nat, junk: seq<bv8>)
    requires Inv(blocks, s) && s.stop == Running
    requires k < |s.toR| && !Acceptable(junk)
    ensures Inv(blocks, s.(toR := s.toR[k := Block(Number(blocks, s.toR[k]), junk)]))
  {
    hide Count, Repeats, Stored, LastNumber, Ordered, Checked;
    var r := s.toR[k := Block(Number(blocks, s.toR[k]), junk)];
    SameNumbers(blocks, s.last, s.toR, r);
    SameOrder(blocks, s.last, s.toR, r);
    forall p | p in r ensures Sound(blocks, s.sender, p) {
      assert s.toR[k] in s.toR;
      assert p in s.toR || p == r[k];
    }
  }

  /** Changing only the replies, with no ACK more, or only the start character. */
  lemma ReplyStep(blocks: seq<seq<bv8>>, s: System, t: System)
    requires Inv(blocks, s) && s.stop == Running && Acks(t.toS) <= Acks(s.toS)
    requires t == s.(toS := t.toS, trychar := t.trychar, solicits := t.solicits, naks := t.naks, tail := t.tail)
    ensures Inv(blocks, t)
  {
    hide Count, Repeats, Stored, LastNumber, Ordered, Sound;
  }

  lemma TailStep(blocks: seq<seq<bv8>>, s: System, glimpse: Glimpse)
    requires Inv(blocks, s) && s.stop == Running && s.tail && Acks(s.toS + [NAK]) == Acks(s.toS)
    ensures Inv(blocks, ReceiveTail(s, glimpse)) && ReceiveTail(s, glimpse).trychar == s.trychar
  {
    hide Count, Repeats, Stored, SenderInv, CountInv, QueueInv;
    StoredStops(blocks, s.recv, s.accepted);
    if glimpse in {Reject, Miss, GiveUp} {
      ReplyStep(blocks, s, ReceiveTail(s, glimpse));
    }
  }

  /** Every step keeps the invariant; `trychar` is never ACK. */
  lemma NextInv(blocks: seq<seq<bv8>>, s: System, e: Event)
    requires Inv(blocks, s) && s.trychar != ACK
    ensures Inv(blocks, Next(blocks, s, e)) && Next(blocks, s, e).trychar != ACK
  {
    hide Count, Stored, SenderInv, CountInv, QueueInv, OnReply, Acceptable, Receive, ReceiveTail;
    if s.stop == Running {
      match e
      case Solicit =>
        CountAppend(s.toS, s.trychar, ACK);
        ReplyStep(blocks, s, Next(blocks, s, e));
      case FallBack =>
        CountAppend(s.toS, NAK, ACK);
        ReplyStep(blocks, s, Next(blocks, s, e));
      case WaitOut => StoredStops(blocks, s.recv, s.accepted);
      case SenderRead =>
        if s.toS != [] {
          CountHead(s.toS, ACK);
          SenderStep(blocks, s, Some(s.toS[0]), s.toS[1..]);
        }
      case SenderTimeout => SenderStep(blocks, s, None, s.toS);
      case ReceiverRead(glimpse) =>
        if s.toR != [] && !s.tail {
          ReceiveStep(blocks, s, glimpse);
          ReceiveShape(blocks, s, glimpse);
        }
      case TailRead(glimpse) =>
        CountAppend(s.toS, NAK, ACK);
        if s.tail {
          TailStep(blocks, s, glimpse);
        }
      case Damage(k, junk) =>
        if k < |s.toR| && !Acceptable(junk) {
          DamageStep(blocks, s, k, junk);
        }
      case DamageReply(k, other) =>
        if k < |s.toS| && other != ACK {
          CountChanged(s.toS, k, other, ACK);
          ReplyStep(blocks, s, Next(blocks, s, e));
        }
      case LoseReply(k) =>
        if k < |s.toS| {
          CountChanged(s.toS, k, 0, ACK);
          ReplyStep(blocks, s, Next(blocks, s, e));
        }
    }
  }

  lemma InitialInv(blocks: seq<seq<bv8>>)
    requires Fits(blocks)
    ensures Inv(blocks, INITIAL) && INITIAL.trychar != ACK
  {
    NoRepeats(blocks, -1);
  }

  lemma {:induction false} RunInv(blocks: seq<seq<bv8>>, events: seq<Event>)
    requires Fits(blocks)
    ensures Inv(blocks, Run(blocks, INITIAL, events)) && Run(blocks, INITIAL, events).trychar != ACK
  {
    hide Inv, Next;
    if events == [] {
      InitialInv(blocks);
    } else {
      RunInv(blocks, events[..|events| - 1]);
      NextInv(blocks, Run(blocks, INITIAL, events[..|events| - 1]), events[|events| - 1]);
    }
  }

  // ---------------------------------------------------------------- what every run does to the flash

  function Contents(flash: seq<Write>): seq<bv8> {
    if flash == [] then [] else Contents(flash[..|flash| - 1]) + flash[|flash| - 1].data
  }

  /** The octets of blocks 1 to k - 1, those behind the header block. */
  function Payload(blocks: seq<seq<bv8>>, k: nat): (p: seq<bv8>)
    requires 1 <= k <= |blocks| && forall i :: 0 <= i < |blocks| ==> |blocks[i]| == BLOCK
    ensures |p| == (k - 1) * BLOCK
  {
    if k == 1 then [] else Payload(blocks, k - 1) + blocks[k - 1]
  }

  /** The writes are gapless, in order and without repetition. */
  lemma {:induction false} WritesInOrder(blocks: seq<seq<bv8>>, k: nat)
    requires Fits(blocks) && 1 <= k <= |blocks|
    ensures |Writes(blocks, k)| * BLOCK >= Min((k - 1) * BLOCK, UpgOf(blocks[0]))
    ensures |Writes(blocks, k)| <= k - 1 && ((k - 2) * BLOCK < UpgOf(blocks[0]) ==> |Writes(blocks, k)| == k - 1)
    ensures forall j :: 0 <= j < |Writes(blocks, k)| ==>
              var w := Writes(blocks, k)[j];
              w.offset == j * BLOCK && w.count == |w.data| && w.kind == KindOf(blocks[0])
  {
    hide UpgOf, KindOf;
    if k > 1 {
      WritesInOrder(blocks, k - 1);
    }
  }

  /** Together they are the payload up to the announced size. */
  lemma {:induction false} WritesAreThePayload(blocks: seq<seq<bv8>>, k: nat)
    requires Fits(blocks) && 1 <= k <= |blocks|
    ensures Contents(Writes(blocks, k)) == Payload(blocks, k)[..Min((k - 1) * BLOCK, UpgOf(blocks[0]))]
  {
    hide UpgOf, KindOf;
    if k > 1 {
      WritesAreThePayload(blocks, k - 1);
      var before := Payload(blocks, k - 1);
      TakeOfSum(before, blocks[k - 1], Min((k - 1) * BLOCK, UpgOf(blocks[0])));
      if UpgOf(blocks[0]) > (k - 2) * BLOCK {
        assert before[..(k - 2) * BLOCK] == before;
        ContentsStep(blocks, k);
      }
    }
  }

  lemma ContentsStep(blocks: seq<seq<bv8>>, k: nat)
    requires Fits(blocks) && 1 < k <= |blocks| && UpgOf(blocks[0]) > (k - 2) * BLOCK
    ensures var left := UpgOf(blocks[0]) - (k - 2) * BLOCK;
            Contents(Writes(blocks, k)) == Contents(Writes(blocks, k - 1)) + blocks[k - 1][..Min(BLOCK, left)]
  {
    hide UpgOf, KindOf;
    var ws := Writes(blocks, k);
    assert ws[..|ws| - 1] == Writes(blocks, k - 1);
  }

  /** For a stream cut into blocks the payload is the stream behind its first block. */
  lemma {:induction false} PayloadOfStream(stream: seq<bv8>, k: nat, n: nat)
    requires 1 <= k <= |Blocks(stream)| && n <= (k - 1) * BLOCK && BLOCK + n <= |stream|
    ensures Payload(Blocks(stream), k)[..n] == stream[BLOCK..BLOCK + n]
  {
    hide Blocks, Fill;
    if k > 1 {
      var before, m := Payload(Blocks(stream), k - 1), (k - 2) * BLOCK;
      TakeOfSum(before, Blocks(stream)[k - 1], n);
      if n <= m {
        PayloadOfStream(stream, k - 1, n);
      } else {
        PayloadOfStream(stream, k - 1, m);
        assert before[..m] == before;
        BlockStart(stream, k - 1, n - m);
        SplitRange(stream, BLOCK, BLOCK + m, BLOCK + n);
      }
    }
  }

  lemma BlockStart(stream: seq<bv8>, index: nat, n: nat)
    requires index < |Blocks(stream)| && n <= BLOCK && index * BLOCK + n <= |stream|
    ensures Blocks(stream)[index][..n] == stream[index * BLOCK..index * BLOCK + n]
  {
    hide Blocks, Fill;
    BlockAt(stream, index);
    var pos := index * BLOCK;
    var data := stream[pos..if pos + BLOCK < |stream| then pos + BLOCK else |stream|];
    TakeOfSum(data, Fill(BLOCK - |data|), n);
  }

  /** Safety of every run: what has been written is the payload of the accepted blocks up to the announced size. */
  lemma UploadIsSafe(stream: seq<bv8>, events: seq<Event>)
    requires Fits(Blocks(stream))
    ensures var blocks, s := Blocks(stream), Run(Blocks(stream), INITIAL, events);
            && s.accepted <= |blocks| && s.recv.flash == Writes(blocks, s.accepted)
            && (s.accepted > 0 ==>
                  var n := Min((s.accepted - 1) * BLOCK, UpgOf(blocks[0]));
                  && Contents(s.recv.flash) == Payload(blocks, s.accepted)[..n]
                  && (BLOCK + n <= |stream| ==> Contents(s.recv.flash) == stream[BLOCK..BLOCK + n]))
  {
    hide Blocks, Run, Payload, Writes, Contents, UpgOf, KindOf;
    var blocks := Blocks(stream);
    RunInv(blocks, events);
    var s := Run(blocks, INITIAL, events);
    if s.accepted > 0 {
      WritesAreThePayload(blocks, s.accepted);
      var n := Min((s.accepted - 1) * BLOCK, UpgOf(blocks[0]));
      if BLOCK + n <= |stream| {
        PayloadOfStream(stream, s.accepted, n);
      }
    }
  }

  lemma {:induction false} PayloadAt(blocks: seq<seq<bv8>>, k: nat, j: nat)
    requires 1 <= k <= |blocks| && forall i :: 0 <= i < |blocks| ==> |blocks[i]| == BLOCK
    requires j < (k - 1) * BLOCK
    ensures 1 + j / BLOCK < k && Payload(blocks, k)[j] == blocks[1 + j / BLOCK][j % BLOCK]
  {
    if j < (k - 2) * BLOCK {
      PayloadAt(blocks, k - 1, j);
    } else {
      assert j / BLOCK == k - 2 && j % BLOCK == j - (k - 2) * BLOCK;
    }
  }

  /** The octets of block `i`: those of the stream, and 0x1A behind its end. */
  lemma PaddedBlock(stream: seq<bv8>, i: nat, j: nat)
    requires i < |Blocks(stream)| && j < BLOCK
    ensures var at := i * BLOCK + j; Blocks(stream)[i][j] == if at < |stream| then stream[at] else 0x1A
  {
    hide Blocks;
    BlockAt(stream, i);
  }

  /** The four octets at `at` are those of `n`, the least significant one first. */
  ghost predicate LengthAt(s: seq<bv8>, at: nat, n: nat) {
    && at + 4 <= |s|
    && Value(s[at]) == n % 0x100 && Value(s[at + 1]) == n / 0x100 % 0x100
    && Value(s[at + 2]) == n / 0x1_0000 % 0x100 && Value(s[at + 3]) == n / 0x100_0000 % 0x100
  }

  lemma AnnouncedBlocks(stream: seq<bv8>, n: nat, t: byte)
    requires 8 <= |stream| && |Blocks(stream)| <= 0xFFFF && n < 0x8000_0000
    requires stream[..3] == [0x76, 0x81, 0xAA] && LengthAt(stream, 3, n) && Value(stream[7]) == t
    ensures Blocks(stream) != [] && Fits(Blocks(stream))
    ensures UpgOf(Blocks(stream)[0]) == n && KindOf(Blocks(stream)[0]) == t
  {
    hide Blocks, UpgOf, KindOf, Value;
    FirstOctets(stream);
    AnnouncedHeader(Blocks(stream)[0], n, t);
  }

  lemma AnnouncedHeader(first: seq<bv8>, n: nat, t: byte)
    requires |first| == BLOCK && n < 0x8000_0000 && first[..3] == [0x76, 0x81, 0xAA]
    requires LengthAt(first, 3, n) && Value(first[7]) == t
    ensures UpgOf(first) == n && KindOf(first) == t
  {
    hide Value;
    FourDigits(n);
  }

  lemma FourDigits(n: nat)
    requires n < 0x8000_0000
    ensures n == n % 0x100 + n / 0x100 % 0x100 * 0x100 + n / 0x1_0000 % 0x100 * 0x1_0000
                 + n / 0x100_0000 % 0x100 * 0x100_0000
  {
    var a := n / 0x100;
    var b := a / 0x100;
    var c := b / 0x100;
    assert n / 0x1_0000 == b && n / 0x100_0000 == c;
  }

  /** What is written for a file whose header announces `n` octets of type `t`: the length stands least significant
      octet first behind the three octets of the header's mark, the type behind the length. */
  lemma AnnouncedUpload(stream: seq<bv8>, events: seq<Event>, n: nat, t: byte)
    requires 8 <= |stream| && |Blocks(stream)| <= 0xFFFF && n < 0x8000_0000
    requires stream[..3] == [0x76, 0x81, 0xAA] && LengthAt(stream, 3, n) && Value(stream[7]) == t
    ensures var s := Run(Blocks(stream), INITIAL, events);
            var m := if s.accepted == 0 then 0 else Min((s.accepted - 1) * 128, n);
            && |Contents(s.recv.flash)| == m
            && (forall j :: 0 <= j < m ==>
                  Contents(s.recv.flash)[j] == if 128 + j < |stream| then stream[128 + j] else 0x1A)
            && (forall i :: 0 <= i < |s.recv.flash| ==>
                  var w := s.recv.flash[i]; w.kind == t && w.offset == 128 * i && w.count == |w.data|)
  {
    hide Blocks, Run, Payload, Writes, Contents, UpgOf, KindOf, Value;
    var blocks := Blocks(stream);
    AnnouncedBlocks(stream, n, t);
    RunInv(blocks, events);
    var s := Run(blocks, INITIAL, events);
    if s.accepted > 0 {
      WritesAreThePayload(blocks, s.accepted);
      WritesInOrder(blocks, s.accepted);
      var m := Min((s.accepted - 1) * BLOCK, n);
      forall j | 0 <= j < m
        ensures Contents(s.recv.flash)[j] == if 128 + j < |stream| then stream[128 + j] else 0x1A
      {
        PayloadAt(blocks, s.accepted, j);
        PaddedBlock(stream, 1 + j / BLOCK, j % BLOCK);
      }
    } else {
      NothingWritten(blocks);
    }
  }

  lemma NothingWritten(blocks: seq<seq<bv8>>)
    requires Fits(blocks)
    ensures Writes(blocks, 0) == [] && Contents([]) == []
  {
  }

  lemma FirstOctets(stream: seq<bv8>)
    requires 8 <= |stream|
    ensures Blocks(stream) != [] && forall i :: 0 <= i < 8 ==> Blocks(stream)[0][i] == stream[i]
    ensures Blocks(stream)[0][..3] == stream[..3]
  {
    hide Blocks;
    BlockAt(stream, 0);
  }

  /** When the receiver stops at the sender's own EOT, at most as many blocks are missing as duplicates were
      acknowledged, and those are no more than the NAKs the sender puts up with. */
  lemma MissingBlocks(blocks: seq<seq<bv8>>, events: seq<Event>)
    requires Fits(blocks) && Run(blocks, INITIAL, events).stop == OwnEot
    ensures var s := Run(blocks, INITIAL, events);
            |blocks| - s.accepted <= s.dups <= RETRY
  {
    hide Run;
    RunInv(blocks, events);
  }

  /** The count passed on for a block stays within the block exactly when the announced size is no negative int. */
  lemma CountWithinBlock(announced: u32, len: nat)
    requires len == 0 || len <= Int32(announced)
    ensures BlockCount(Int32(announced) - len) <= BLOCK <==> announced < 0x8000_0000
    ensures announced >= 0x8000_0000 ==> BlockCount(Int32(announced) - len) == XBUFF
  {
    var d := Int32(announced) - len;
    if announced >= 0x8000_0000 {
      assert d % 0x1_0000_0000 == d + 0x1_0000_0000;
    } else if d <= BLOCK {
      assert d % 0x1_0000_0000 == d;
    }
  }

  // ---------------------------------------------------------------- nothing missing at EOT

  /** With a single start character, or with none that the sender could take for a NAK, there is never more than one
      packet or answer under way while blocks are being sent, so no reply is taken for the answer to another packet. */
  ghost predicate OneAtATime(blocks: seq<seq<bv8>>, s: System) {
    s.solicits <= 1 || s.naks == 0 ==>
      && (s.stop == OwnEot ==> s.accepted == |blocks|)
      && (s.stop == Running ==> s.sender.index <= s.accepted)
      && (s.stop == Running && s.sender.phase in {Starting, Sending} ==>
            && |s.toR| + Acks(s.toS) + Naks(s.toS) <= 1
            && (s.solicits <= 1 ==> |s.toR| + |s.toS| <= s.solicits)
            && (s.naks == 0 && s.sender.phase == Starting ==> Naks(s.toS) == 0)
            && s.sender.index + Acks(s.toS) <= s.accepted
            && (s.toR != [] && Genuine(s.toR[0]) ==> s.toR[0].index == s.sender.index))
  }


  lemma NothingTaken(blocks: seq<seq<bv8>>, s: System)
    requires Inv(blocks, s) && s.stop == Running && s.sender.phase == Starting
    ensures s.accepted == 0
  {
  }

  /** Taking a reply while no other answer is under way. */
  ghost predicate Alone(s: System, ch: Option<bv8>, toS: seq<bv8>) {
    && s.stop == Running && Acks(toS) + Naks(toS) <= |toS|
    && ((ch == None && toS == s.toS)
        || (s.toS != [] && ch == Some(s.toS[0]) && toS == s.toS[1..]
            && Acks(s.toS) == Acks(toS) + (if ch == Some(ACK) then 1 else 0)
            && Naks(s.toS) == Naks(toS) + (if ch == Some(NAK) then 1 else 0)))
  }

  lemma EmitShape(blocks: seq<seq<bv8>>, s: Sender)
    ensures var (t, out) := Emit(blocks, s);
            && |out| == 1 && t.index == s.index && t.phase == (if s.index < |blocks| then Sending else Ending)
            && (t.phase == Sending ==> out[0].Block? && out[0].index == s.index)
  {
    hide Frame;
  }

  lemma StartingOneAtATime(blocks: seq<seq<bv8>>, s: System, ch: Option<bv8>, toS: seq<bv8>)
    requires OneAtATime(blocks, s) && Alone(s, ch, toS)
    requires s.sender.phase == Starting && s.sender.index == s.accepted == 0 && s.toR == []
    ensures var (t, out) := OnReply(blocks, s.sender, ch);
            OneAtATime(blocks, s.(sender := t, toR := s.toR + out, toS := toS))
  {
    hide Count, Genuine, Emit;
    EmitShape(blocks, s.sender.(crc := ch == Some(CRC), errors := 0, index := 0));
    var (t, out) := OnReply(blocks, s.sender, ch);
    assert s.toR + out == out;
  }

  lemma SendingOneAtATime(blocks: seq<seq<bv8>>, s: System, ch: Option<bv8>, toS: seq<bv8>)
    requires OneAtATime(blocks, s) && Alone(s, ch, toS)
    requires s.sender.phase == Sending && s.sender.index < |blocks|
    ensures var (t, out) := OnReply(blocks, s.sender, ch);
            OneAtATime(blocks, s.(sender := t, toR := s.toR + out, toS := toS))
  {
    hide Count, Genuine, Emit;
    var (t, out) := OnReply(blocks, s.sender, ch);
    if ch == Some(ACK) {
      EmitShape(blocks, s.sender.(index := s.sender.index + 1));
      assert s.toR == [] ==> s.toR + out == out;
    } else if ch == Some(NAK) && s.sender.errors + 1 < RETRY {
      EmitShape(blocks, s.sender.(errors := s.sender.errors + 1));
      assert s.toR == [] ==> s.toR + out == out;
    }
  }

  lemma SenderOneAtATime(blocks: seq<seq<bv8>>, s: System, ch: Option<bv8>, toS: seq<bv8>)
    requires Inv(blocks, s) && OneAtATime(blocks, s) && s.stop == Running
    requires (ch == None && toS == s.toS) || (s.toS != [] && ch == Some(s.toS[0]) && toS == s.toS[1..])
    ensures var (t, out) := OnReply(blocks, s.sender, ch);
            OneAtATime(blocks, s.(sender := t, toR := s.toR + out, toS := toS))
  {
    hide Count, Stored, QueueInv, CountInv, Emit, OneAtATime;
    AnswersWithin(toS);
    if ch != None {
      CountHead(s.toS, ACK);
      CountHead(s.toS, NAK);
    }
    if s.sender.phase == Starting {
      NothingTaken(blocks, s);
      StartingOneAtATime(blocks, s, ch, toS);
    } else if s.sender.phase == Sending {
      SendingOneAtATime(blocks, s, ch, toS);
    } else {
      LaterOneAtATime(blocks, s, ch, toS);
    }
  }

  lemma LaterOneAtATime(blocks: seq<seq<bv8>>, s: System, ch: Option<bv8>, toS: seq<bv8>)
    requires OneAtATime(blocks, s) && s.stop == Running && s.sender.phase !in {Starting, Sending}
    ensures var (t, out) := OnReply(blocks, s.sender, ch);
            OneAtATime(blocks, s.(sender := t, toR := s.toR + out, toS := toS))
  {
  }

  /** What taking a packet can change. */
  lemma ReceiveShape(blocks: seq<seq<bv8>>, s: System, glimpse: Glimpse)
    requires s.stop == Running && s.toR != []
    ensures var t := Receive(blocks, s, glimpse);
            && t.sender == s.sender && t.solicits == s.solicits && t.naks == s.naks
            && t.toR == s.toR[1..] && s.accepted <= t.accepted <= s.accepted + 1
            && (t.stop == OwnEot <==> s.toR[0] == Eot)
            && (t.stop == OwnEot ==> t.accepted == s.accepted)
            && (t.stop == Running ==> s.toR[0].Block?)
            && (t.stop == Running ==> t.toS == s.toS || t.toS == s.toS + [ACK] || t.toS == s.toS + [NAK])
            && (t.trychar == 0 || t.trychar == s.trychar)
  {
    hide OnBlock, Checked;
    if s.toR[0].Block? && Checked(CrcMode(s), Taken(CrcMode(s), s.toR[0].bytes)) {
      BlockShape(blocks, s, glimpse);
    }
  }

  lemma BlockShape(blocks: seq<seq<bv8>>, s: System, glimpse: Glimpse)
    requires s.stop == Running && s.toR != [] && s.toR[0].Block?
    requires Checked(CrcMode(s), Taken(CrcMode(s), s.toR[0].bytes))
    ensures var t := Receive(blocks, s, glimpse);
            && t.sender == s.sender && t.solicits == s.solicits && t.naks == s.naks
            && t.toR == s.toR[1..] && s.accepted <= t.accepted <= s.accepted + 1
            && t.stop in {Running, Stopped} && t.trychar == 0
            && (t.stop == Running ==> (t.toS == s.toS + [ACK] || t.toS == s.toS + [NAK]))
  {
    hide OnBlock, Checked, Expected;
  }

  lemma ReceiverOneAtATime(blocks: seq<seq<bv8>>, s: System, glimpse: Glimpse)
    requires Inv(blocks, s) && OneAtATime(blocks, s) && s.stop == Running && s.toR != []
    ensures OneAtATime(blocks, Receive(blocks, s, glimpse))
  {
    hide Count, Stored, CountInv, Receive, Genuine;
    ReceiveShape(blocks, s, glimpse);
    var t := Receive(blocks, s, glimpse);
    var p := s.toR[0];
    assert p in s.toR && Sound(blocks, s.sender, p);
    PacketNumber(blocks, s);
    if (s.solicits <= 1 || s.naks == 0) && s.sender.phase in {Starting, Sending} && t.stop == Running {
      CountAppend(s.toS, ACK, ACK);
      CountAppend(s.toS, ACK, NAK);
      CountAppend(s.toS, NAK, ACK);
      CountAppend(s.toS, NAK, NAK);
      if t.toS == s.toS + [ACK] {
        GenuineReply(blocks, s, glimpse);
      }
    }
  }

  /** A block that is acknowledged is the next one or the one before it. */
  lemma GenuineReply(blocks: seq<seq<bv8>>, s: System, glimpse: Glimpse)
    requires Inv(blocks, s) && s.stop == Running && s.toR != [] && s.toR[0].Block?
    requires Receive(blocks, s, glimpse).toS == s.toS + [ACK] && Receive(blocks, s, glimpse).stop == Running
    ensures Genuine(s.toR[0]) && Receive(blocks, s, glimpse).accepted == s.toR[0].index + 1
  {
    hide Count, Stored, SenderInv, CountInv, QueueInv, Store, Checked, Taken;
    var p := s.toR[0];
    var crc := CrcMode(s);
    assert (s.toS + [NAK])[|s.toS|] != (s.toS + [ACK])[|s.toS|] && |s.toS + [ACK]| == |s.toS| + 1;
    assert Checked(crc, Taken(crc, p.bytes));
    CheckedLength(crc, Taken(crc, p.bytes));
    TakenPrefix(crc, p.bytes);
    BlockRange(blocks, s);
    NewIsNext(p.index, s.accepted);
    PacketNumber(blocks, s);
    HeadSound(blocks, s);
  }

  lemma HeadSound(blocks: seq<seq<bv8>>, s: System)
    requires Inv(blocks, s) && s.stop == Running && s.toR != []
    ensures Sound(blocks, s.sender, s.toR[0])
  {
    assert s.toR[0] in s.toR;
  }

  lemma TailShape(s: System, glimpse: Glimpse)
    ensures var t := ReceiveTail(s, glimpse);
            && t.sender == s.sender && t.toR == s.toR && t.accepted == s.accepted && t.solicits == s.solicits
            && t.naks >= s.naks && (s.stop == Running ==> t.stop != OwnEot)
            && (t.stop == Running ==>
                  (t.toS == s.toS && t.naks == s.naks) || (t.toS == s.toS + [NAK] && t.naks == s.naks + 1))
  {
  }

  lemma NextOneAtATime(blocks: seq<seq<bv8>>, s: System, e: Event)
    requires Inv(blocks, s) && OneAtATime(blocks, s) && TailInv(s) && s.trychar != ACK
    ensures OneAtATime(blocks, Next(blocks, s, e))
  {
    hide Inv, Count, OnReply, Acceptable, Receive, ReceiveTail;
    if s.stop == Running {
      match e
      case Solicit =>
        CountAppend(s.toS, s.trychar, ACK);
        CountAppend(s.toS, s.trychar, NAK);
        AnswersWithin(s.toS + [s.trychar]);
      case FallBack =>
      case WaitOut =>
      case SenderRead =>
        if s.toS != [] {
          SenderOneAtATime(blocks, s, Some(s.toS[0]), s.toS[1..]);
        }
      case SenderTimeout => SenderOneAtATime(blocks, s, None, s.toS);
      case ReceiverRead(glimpse) =>
        if s.toR != [] && !s.tail {
          ReceiverOneAtATime(blocks, s, glimpse);
        }
      case TailRead(glimpse) => TailShape(s, glimpse);
      case Damage(k, junk) =>
      case DamageReply(k, other) =>
        if k < |s.toS| && other != ACK {
          CountChanged(s.toS, k, other, ACK);
          CountChanged(s.toS, k, other, NAK);
          AnswersWithin(s.toS[k := other]);
        }
      case LoseReply(k) =>
        if k < |s.toS| {
          CountChanged(s.toS, k, 0, ACK);
          CountChanged(s.toS, k, 0, NAK);
        }
    }
  }

  lemma NextTailInv(blocks: seq<seq<bv8>>, s: System, e: Event)
    requires TailInv(s)
    ensures TailInv(Next(blocks, s, e))
  {
    hide OnReply, OnBlock, Checked, Acceptable;
  }

  lemma {:induction false} RunTailInv(blocks: seq<seq<bv8>>, events: seq<Event>)
    ensures TailInv(Run(blocks, INITIAL, events))
  {
    hide TailInv, Next;
    if events == [] {
      StartTailInv();
    } else {
      RunTailInv(blocks, events[..|events| - 1]);
      NextTailInv(blocks, Run(blocks, INITIAL, events[..|events| - 1]), events[|events| - 1]);
    }
  }

  lemma StartTailInv()
    ensures TailInv(INITIAL)
  {
  }

  lemma {:induction false} RunOneAtATime(blocks: seq<seq<bv8>>, events: seq<Event>)
    requires Fits(blocks)
    ensures OneAtATime(blocks, Run(blocks, INITIAL, events))
  {
    hide Inv, OneAtATime, Next;
    if events == [] {
      StartOneAtATime(blocks);
    } else {
      var front := events[..|events| - 1];
      RunInv(blocks, front);
      RunTailInv(blocks, front);
      RunOneAtATime(blocks, front);
      NextOneAtATime(blocks, Run(blocks, INITIAL, front), events[|events| - 1]);
    }
  }

  lemma StartOneAtATime(blocks: seq<seq<bv8>>)
    ensures OneAtATime(blocks, INITIAL)
  {
  }

  /** When the receiver stops at the sender's own EOT and has sent at most one start character, or none that was a NAK
      or became one, nothing is missing. */
  lemma NothingMissing(blocks: seq<seq<bv8>>, events: seq<Event>)
    requires Fits(blocks)
    requires var s := Run(blocks, INITIAL, events); s.stop == OwnEot && (s.solicits <= 1 || s.naks == 0)
    ensures Run(blocks, INITIAL, events).accepted == |blocks|
    ensures Run(blocks, INITIAL, events).recv.flash == Writes(blocks, |blocks|)
  {
    hide Run, Writes;
    RunInv(blocks, events);
    RunOneAtATime(blocks, events);
  }
}
