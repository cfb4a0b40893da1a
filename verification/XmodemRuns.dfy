/** Particular runs of the firmware upload, and when none of them can miss a block at the sender's EOT. */
module XmodemRuns {
  import opened Octets
  import opened Prelude
  import opened Xmodem
  import opened XmodemLink

  // ---------------------------------------------------------------- a clean run and a lossy one

  /** A file the receiver goes on with after its header. */
  ghost predicate Usable(blocks: seq<seq<bv8>>) {
    Fits(blocks) && |blocks| >= 2 && (UpgOf(blocks[0]) > 0 ==> 0 < KindOf(blocks[0]) < UPG_ID_MAX)
  }

  /** Block `i` is under way, everything before it has arrived, and `spare` acknowledgements are left over. */
  ghost predicate InStep(blocks: seq<seq<bv8>>, s: System, i: nat, crc: bool, spare: nat) {
    && i < |blocks| && s.stop == Running && s.accepted == i && s.solicits == spare + 1 && s.naks == spare
    && s.trychar != ACK
    && s.sender == Sender(Sending, crc, false, spare, i) && CrcMode(s) == crc && !s.tail
    && s.toR == [Block(i, Frame(crc, (i + 1) % 0x100, blocks[i]))]
    && spare <= 1 && s.toS == (if spare == 0 then [] else [ACK])
  }

  lemma StoreSucceeds(blocks: seq<seq<bv8>>, r: Receiver, k: nat)
    requires Usable(blocks) && Stored(blocks, r, k, true) && k < |blocks|
    ensures Store(r, blocks[k]).1
  {
    hide HasHeader, HeaderLength, UpgKind, Int32, Writes;
    CounterStep(k);
  }

  /** The block under way is taken, whatever the receiver might have made of a bad one. */
  lemma TakeBlock(blocks: seq<seq<bv8>>, s: System, i: nat, crc: bool, spare: nat, glimpse: Glimpse)
    requires Usable(blocks) && Inv(blocks, s) && InStep(blocks, s, i, crc, spare)
    ensures var t := Receive(blocks, s, glimpse);
            && t.stop == Running && t.accepted == i + 1 && t.sender == s.sender && t.toR == []
            && t.solicits == s.solicits && t.naks == s.naks
            && t.toS == s.toS + [ACK] && t.trychar == 0 && t.rcrc == crc && !t.tail
  {
    hide Checked, Frame, Store, Stored, SenderInv, QueueInv, CountInv, Usable, Fits, Taken;
    assert |blocks[i]| == BLOCK && s.recv.packetno == (i + 1) % 0x100 by {
      hide *;
      InvParts(blocks, s, i);
    }
    FrameTaken(crc, (i + 1) % 0x100, blocks[i]);
    CheckedLength(crc, s.toR[0].bytes);
    StoreSucceeds(blocks, s.recv, i);
    StoreKeepsRetrans(s.recv, blocks[i]);
  }

  lemma FrameTaken(crc: bool, sequence: byte, data: seq<bv8>)
    requires |data| == BLOCK
    ensures var f := Frame(crc, sequence, data);
            Taken(crc, f) == f && Checked(crc, f) && |f| > 3 + BLOCK
            && Value(f[1]) == sequence && f[3..3 + BLOCK] == data
  {
    hide Frame, Value;
    FrameChecks(crc, sequence, data);
  }

  lemma InvParts(blocks: seq<seq<bv8>>, s: System, i: nat)
    requires Inv(blocks, s) && s.stop == Running && i < |blocks| && s.accepted == i
    ensures |blocks[i]| == BLOCK && s.recv.packetno == (i + 1) % 0x100
  {
  }

  lemma StoreKeepsRetrans(r: Receiver, data: seq<bv8>)
    requires |data| == BLOCK
    ensures Store(r, data).0.packetno == r.packetno
  {
  }

  lemma RunNext(blocks: seq<seq<bv8>>, events: seq<Event>, e: Event)
    ensures Run(blocks, INITIAL, events + [e]) == Next(blocks, Run(blocks, INITIAL, events), e)
  {
    hide Next;
    assert (events + [e])[..|events|] == events;
  }

  lemma RunNothing(blocks: seq<seq<bv8>>)
    ensures Run(blocks, INITIAL, []) == INITIAL
  {
  }

  lemma Advance(blocks: seq<seq<bv8>>, events: seq<Event>, i: nat, crc: bool, spare: nat)
    requires Usable(blocks) && InStep(blocks, Run(blocks, INITIAL, events), i, crc, spare) && i + 1 < |blocks|
    ensures InStep(blocks, Run(blocks, INITIAL, events + [ReceiverRead(Reject)] + [SenderRead]), i + 1, crc, spare)
  {
    hide Run, Frame, Receive, Inv, Fits, UpgOf, KindOf;
    RunInv(blocks, events);
    RunNext(blocks, events, ReceiverRead(Reject));
    RunNext(blocks, events + [ReceiverRead(Reject)], SenderRead);
    TakeBlock(blocks, Run(blocks, INITIAL, events), i, crc, spare, Reject);
  }

  lemma AdvanceToLast(blocks: seq<seq<bv8>>, start: seq<Event>, i: nat, crc: bool, spare: nat)
    returns (events: seq<Event>)
    requires Usable(blocks) && InStep(blocks, Run(blocks, INITIAL, start), i, crc, spare)
    ensures InStep(blocks, Run(blocks, INITIAL, events), |blocks| - 1, crc, spare)
    decreases |blocks| - i
  {
    hide Run, Frame, Usable, Fits, Inv, Next;
    if i + 1 == |blocks| {
      return start;
    }
    Advance(blocks, start, i, crc, spare);
    events := AdvanceToLast(blocks, start + [ReceiverRead(Reject)] + [SenderRead], i + 1, crc, spare);
  }

  lemma CleanStart(blocks: seq<seq<bv8>>)
    requires Usable(blocks)
    ensures InStep(blocks, Run(blocks, INITIAL, [] + [Solicit] + [SenderRead]), 0, true, 0)
  {
    hide Frame, Fits, UpgOf, KindOf, Run;
    RunNothing(blocks);
    RunNext(blocks, [], Solicit);
    RunNext(blocks, [] + [Solicit], SenderRead);
  }

  /** A run over a clean link delivers the whole file and both ends stop. */
  lemma CleanRun(blocks: seq<seq<bv8>>) returns (events: seq<Event>)
    requires Usable(blocks)
    ensures var s := Run(blocks, INITIAL, events);
            s.stop == OwnEot && s.sender.phase == Done && s.solicits == 1 && s.accepted == |blocks|
  {
    hide Frame, Fits, UpgOf, KindOf, Run, Receive, Inv;
    CleanStart(blocks);
    var before := AdvanceToLast(blocks, [] + [Solicit] + [SenderRead], 0, true, 0);
    RunInv(blocks, before);
    TakeBlock(blocks, Run(blocks, INITIAL, before), |blocks| - 1, true, 0, Reject);
    RunNext(blocks, before, ReceiverRead(Reject));
    events := before + [ReceiverRead(Reject)];
    RunNext(blocks, events, SenderRead);
    events := events + [SenderRead];
    EndOfRun(blocks, events);
    events := events + [ReceiverRead(Reject)] + [SenderRead];
  }

  lemma EndOfRun(blocks: seq<seq<bv8>>, events: seq<Event>)
    requires var s := Run(blocks, INITIAL, events);
             s.stop == Running && s.toR == [Eot] && s.toS == [] && s.sender.phase == Ending && !s.tail
    ensures var s := Run(blocks, INITIAL, events);
            var t := Run(blocks, INITIAL, events + [ReceiverRead(Reject)] + [SenderRead]);
            t.stop == OwnEot && t.sender.phase == Done && t.accepted == s.accepted
            && t.solicits == s.solicits && t.naks == s.naks
  {
    hide Run;
    RunNext(blocks, events, ReceiverRead(Reject));
    RunNext(blocks, events + [ReceiverRead(Reject)], SenderRead);
  }

  function Times<T>(x: T, n: nat): (q: seq<T>)
    ensures |q| == n
  {
    if n == 0 then [] else [x] + Times(x, n - 1)
  }

  lemma {:induction false} OneMore<T>(x: T, n: nat)
    ensures Times(x, n) + [x] == Times(x, n + 1)
  {
    if n > 0 {
      OneMore(x, n - 1);
      assert [x] + Times(x, n - 1) + [x] == [x] + (Times(x, n - 1) + [x]);
    } else {
      assert Times(x, 0) + [x] == [x] + Times(x, 0);
    }
  }

  lemma OneLess<T>(x: T, n: nat)
    requires n > 0
    ensures Times(x, n)[0] == x && Times(x, n)[1..] == Times(x, n - 1)
  {
  }

  /** The receiver has sent `k` start characters, and the link has changed all but the first into NAK. */
  lemma {:induction false} ManyStarts(blocks: seq<seq<bv8>>, k: nat) returns (events: seq<Event>)
    requires 1 <= k <= RETRY
    ensures Run(blocks, INITIAL, events) == INITIAL.(toS := [CRC] + Times(NAK, k - 1), solicits := k, naks := k - 1)
  {
    hide Run;
    if k == 1 {
      RunNothing(blocks);
      RunNext(blocks, [], Solicit);
      events := [] + [Solicit];
      assert [] + [CRC] == [CRC] + Times(NAK, 0);
    } else {
      events := ManyStarts(blocks, k - 1);
      var toS := [CRC] + Times(NAK, k - 2);
      RunNext(blocks, events, Solicit);
      RunNext(blocks, events + [Solicit], DamageReply(k - 1, NAK));
      events := events + [Solicit] + [DamageReply(k - 1, NAK)];
      OneMore(NAK, k - 2);
      assert (toS + [CRC])[k - 1 := NAK] == [CRC] + (Times(NAK, k - 2) + [NAK]);
    }
  }

  function FirstPacket(blocks: seq<seq<bv8>>): Packet
    requires blocks != []
  {
    Block(0, Frame(true, 1, blocks[0]))
  }

  /** Of `k` start characters the sender has taken `j`, and has transmitted the first block for each. */
  lemma {:induction false} ManyCopies(blocks: seq<seq<bv8>>, k: nat, j: nat) returns (events: seq<Event>)
    requires 1 <= j <= k <= RETRY && blocks != []
    ensures Run(blocks, INITIAL, events)
         == INITIAL.(sender := Sender(Sending, true, false, j - 1, 0), toR := Times(FirstPacket(blocks), j),
                     toS := Times(NAK, k - j), solicits := k, naks := k - 1)
    decreases j
  {
    hide Run, Frame, Times;
    if j == 1 {
      events := ManyStarts(blocks, k);
      assert ([CRC] + Times(NAK, k - 1))[1..] == Times(NAK, k - 1);
      NoneOf(FirstPacket(blocks));
    } else {
      events := ManyCopies(blocks, k, j - 1);
      OneLess(NAK, k - j + 1);
    }
    OneMore(FirstPacket(blocks), j - 1);
    RunNext(blocks, events, SenderRead);
    events := events + [SenderRead];
  }

  lemma NoneOf<T>(x: T)
    ensures Times(x, 0) == []
  {
  }

  /** Of `k` copies of the first block the receiver has taken `j`, and acknowledged each. */
  ghost predicate CopiesTaken(blocks: seq<seq<bv8>>, s: System, k: nat, j: nat)
    requires blocks != []
  {
    && j <= k <= RETRY && s.stop == Running && s.solicits == k && s.naks + 1 == k && !s.tail && CrcMode(s)
    && s.trychar != ACK && s.sender == Sender(Sending, true, false, k - 1, 0)
    && s.toR == Times(FirstPacket(blocks), k - j) && s.toS == Times(ACK, j)
    && s.accepted == (if j == 0 then 0 else 1) && s.recv.retrans <= PACKET_RETRY_LIMIT
    && (j > 0 ==> s.recv.retrans == PACKET_RETRY_LIMIT + 1 - j)
  }

  lemma TakeCopy(blocks: seq<seq<bv8>>, s: System, k: nat, j: nat)
    requires blocks != [] && Inv(blocks, s) && CopiesTaken(blocks, s, k, j) && j < k
    ensures s.toR != [] && CopiesTaken(blocks, Receive(blocks, s, Reject), k, j + 1)
  {
    hide Checked, Frame, Store, Stored, SenderInv, QueueInv, CountInv, UpgOf, KindOf, Taken, Times;
    TakenFacts(blocks, s);
    FrameTaken(true, 1, blocks[0]);
    OneLess(FirstPacket(blocks), k - j);
    OneMore(ACK, j);
    if j == 0 {
      FirstStored(blocks, s);
    }
  }

  lemma TakenFacts(blocks: seq<seq<bv8>>, s: System)
    requires blocks != [] && Inv(blocks, s) && s.stop == Running && s.accepted <= 1
    ensures |blocks[0]| == BLOCK && s.recv.packetno == s.accepted + 1
  {
  }

  lemma FirstStored(blocks: seq<seq<bv8>>, s: System)
    requires blocks != [] && Inv(blocks, s) && s.stop == Running && s.accepted == 0
    ensures |blocks[0]| == BLOCK && Store(s.recv, blocks[0]).1 && Store(s.recv, blocks[0]).0.packetno == 1
  {
    StoreFirst(blocks, s.recv);
  }

  lemma {:induction false} TakeCopies(blocks: seq<seq<bv8>>, k: nat, j: nat) returns (events: seq<Event>)
    requires Fits(blocks) && blocks != [] && 1 <= k <= RETRY && j <= k
    ensures CopiesTaken(blocks, Run(blocks, INITIAL, events), k, j)
    decreases j
  {
    hide Run, Frame, Receive, Inv, Times;
    if j == 0 {
      events := ManyCopies(blocks, k, k);
      NoneOf(NAK);
      NoneOf(ACK);
    } else {
      events := TakeCopies(blocks, k, j - 1);
      RunInv(blocks, events);
      TakeCopy(blocks, Run(blocks, INITIAL, events), k, j - 1);
      RunNext(blocks, events, ReceiverRead(Reject));
      events := events + [ReceiverRead(Reject)];
    }
  }

  /** With two copies an acknowledgement is left over from then on. */
  lemma SpareAck(blocks: seq<seq<bv8>>) returns (events: seq<Event>)
    requires Usable(blocks)
    ensures InStep(blocks, Run(blocks, INITIAL, events), 1, true, 1)
  {
    hide Frame, Run, UpgOf, KindOf, Times;
    events := TakeCopies(blocks, 2, 2);
    RunNext(blocks, events, SenderRead);
    events := events + [SenderRead];
    OneLess(ACK, 2);
    OneLess(ACK, 1);
    NoneOf(ACK);
    NoneOf(FirstPacket(blocks));
    assert Times(ACK, 1) == [ACK];
  }

  /** Block `i` is under way behind a header block that has been acknowledged once for every block. */
  ghost predicate Missing(blocks: seq<seq<bv8>>, s: System, i: nat) {
    && 0 < i < |blocks| && s.stop == Running && s.accepted == 1 && !s.tail
    && s.solicits == |blocks| && s.naks == |blocks| - 1
    && s.sender == Sender(Sending, true, false, |blocks| - 1, i)
    && s.toR == [Block(i, Frame(true, (i + 1) % 0x100, blocks[i]))] && s.toS == Times(ACK, |blocks| - i)
  }

  lemma LosesPacket(blocks: seq<seq<bv8>>, s: System, i: nat)
    requires s.stop == Running && |s.toR| == 1 && s.toR[0].Block? && s.toR[0].index == i
    ensures Next(blocks, s, Damage(0, [])) == s.(toR := [Block(i, [])])
  {
  }

  lemma OverlooksPacket(blocks: seq<seq<bv8>>, s: System, i: nat)
    requires s.stop == Running && !s.tail && s.toR == [Block(i, [])]
    ensures Next(blocks, s, ReceiverRead(Miss)) == s.(toR := [], last := i)
  {
  }

  lemma TakesAck(blocks: seq<seq<bv8>>, s: System)
    requires s.stop == Running && s.toS != [] && s.toS[0] == ACK && s.sender.phase == Sending && s.toR == []
    ensures var (t, out) := Emit(blocks, s.sender.(index := s.sender.index + 1));
            Next(blocks, s, SenderRead) == s.(sender := t, toR := out, toS := s.toS[1..])
  {
    hide Emit;
    var out := Emit(blocks, s.sender.(index := s.sender.index + 1)).1;
    assert [] + out == out;
  }

  /** The block is lost and the sender takes the next acknowledgement. */
  lemma MissOne(blocks: seq<seq<bv8>>, events: seq<Event>, i: nat)
    requires Missing(blocks, Run(blocks, INITIAL, events), i)
    ensures var s := Run(blocks, INITIAL, events + [Damage(0, [])] + [ReceiverRead(Miss)] + [SenderRead]);
            if i + 1 < |blocks| then Missing(blocks, s, i + 1)
            else
              && s.stop == Running && s.toR == [Eot] && s.toS == [] && s.sender.phase == Ending && s.accepted == 1
              && s.solicits == |blocks| && s.naks == |blocks| - 1 && !s.tail
  {
    hide Run, Frame, Times, Next;
    var s := Run(blocks, INITIAL, events);
    OneLess(ACK, |blocks| - i);
    NoneOf(ACK);
    RunNext(blocks, events, Damage(0, []));
    LosesPacket(blocks, s, i);
    RunNext(blocks, events + [Damage(0, [])], ReceiverRead(Miss));
    OverlooksPacket(blocks, s.(toR := [Block(i, [])]), i);
    RunNext(blocks, events + [Damage(0, [])] + [ReceiverRead(Miss)], SenderRead);
    TakesAck(blocks, s.(toR := [], last := i));
  }

  lemma MissRest(blocks: seq<seq<bv8>>, start: seq<Event>, i: nat) returns (events: seq<Event>)
    requires Missing(blocks, Run(blocks, INITIAL, start), i)
    ensures var s := Run(blocks, INITIAL, events);
            && s.stop == Running && s.toR == [Eot] && s.toS == [] && s.sender.phase == Ending && s.accepted == 1
            && s.solicits == |blocks| && s.naks == |blocks| - 1 && !s.tail
    decreases |blocks| - i
  {
    hide Run, Missing;
    events := start + [Damage(0, [])] + [ReceiverRead(Miss)] + [SenderRead];
    MissOne(blocks, start, i);
    MissingIndex(blocks, Run(blocks, INITIAL, start), i);
    if i + 1 < |blocks| {
      events := MissRest(blocks, events, i + 1);
    }
  }

  lemma MissingIndex(blocks: seq<seq<bv8>>, s: System, i: nat)
    requires Missing(blocks, s, i)
    ensures i < |blocks|
  {
  }

  /** With a start character for every block, all but the first changed into NAK, everything behind the header block is
      lost although `send` reports success; the receiver never gets to see the upgrade type. */
  lemma HeaderOnlyRun(blocks: seq<seq<bv8>>) returns (events: seq<Event>)
    requires Fits(blocks) && 2 <= |blocks| <= RETRY
    ensures var s := Run(blocks, INITIAL, events);
            && s.stop == OwnEot && s.sender.phase == Done && s.solicits == |blocks| && s.naks == |blocks| - 1
            && s.accepted == 1
  {
    hide Run, Frame, Fits, Times;
    var n := |blocks|;
    events := TakeCopies(blocks, n, n);
    RunNext(blocks, events, SenderRead);
    events := events + [SenderRead];
    OneLess(ACK, n);
    NoneOf(FirstPacket(blocks));
    events := MissRest(blocks, events, 1);
    EndOfRun(blocks, events);
    events := events + [ReceiverRead(Reject)] + [SenderRead];
  }

  /** With two start characters, one changed into NAK on the link, a damaged last block is lost although `send`
      reports success. */
  lemma LossyRun(blocks: seq<seq<bv8>>) returns (events: seq<Event>)
    requires Usable(blocks)
    ensures var s := Run(blocks, INITIAL, events);
            && s.stop == OwnEot && s.sender.phase == Done && s.solicits == 2 && s.naks == 1
            && s.accepted == |blocks| - 1
  {
    hide Frame, Fits, UpgOf, KindOf, Run, Receive, Inv;
    var start := SpareAck(blocks);
    var before := AdvanceToLast(blocks, start, 1, true, 1);
    RunNext(blocks, before, Damage(0, []));
    events := before + [Damage(0, [])];
    RunNext(blocks, events, SenderRead);
    events := events + [SenderRead];
    LastMissed(blocks, Run(blocks, INITIAL, before));
    RunNext(blocks, events, ReceiverRead(Miss));
    events := events + [ReceiverRead(Miss)];
    EndOfRun(blocks, events);
    events := events + [ReceiverRead(Reject)] + [SenderRead];
  }

  lemma LastMissed(blocks: seq<seq<bv8>>, s: System)
    requires blocks != [] && InStep(blocks, s, |blocks| - 1, true, 1)
    ensures var t := Next(blocks, Next(blocks, Next(blocks, s, Damage(0, [])), SenderRead), ReceiverRead(Miss));
            && t.stop == Running && t.toR == [Eot] && t.toS == [] && t.sender.phase == Ending && !t.tail
            && t.solicits == s.solicits && t.naks == s.naks && t.accepted == s.accepted
  {
    hide Frame;
  }

  // ---------------------------------------------------------------- a write longer than its block

  /** Some call asks for more octets than the block holds. */
  ghost predicate Overlong(flash: seq<Write>) {
    exists i :: 0 <= i < |flash| && flash[i].count > |flash[i].data|
  }

  ghost predicate ReachesOverlong(blocks: seq<seq<bv8>>) {
    exists events :: Overlong(Run(blocks, INITIAL, events).recv.flash)
  }

  /** A file whose second block the receiver writes, whatever size its header announces. */
  ghost predicate Written(blocks: seq<seq<bv8>>) {
    && 2 <= |blocks| <= 0xFFFF && (forall i :: 0 <= i < |blocks| ==> |blocks[i]| == BLOCK)
    && 0 < KindOf(blocks[0]) < UPG_ID_MAX
  }

  lemma TakenFirst(first: seq<bv8>)
    requires |first| == BLOCK && UpgOf(first) < 0
    ensures OnBlock(FRESH, true, Frame(true, 1, first))
         == (Receiver(2, 1, 0, 0, UpgOf(first), KindOf(first), PACKET_RETRY_LIMIT, []), Acked)
  {
    hide Checked, Frame, Value, HeaderLength, UpgKind, HasHeader, Int32;
    FrameChecks(true, 1, first);
    CheckedLength(true, Frame(true, 1, first));
    NoNegativeDefault(first);
  }

  lemma NoNegativeDefault(first: seq<bv8>)
    requires |first| == BLOCK && UpgOf(first) < 0
    ensures HasHeader(first)
  {
  }

  lemma TakenSecond(second: seq<bv8>, upgSize: int, kind: byte)
    requires |second| == BLOCK && -0x8000_0000 <= upgSize < 0 && 0 < kind < UPG_ID_MAX
    ensures var (r, verdict) := OnBlock(Receiver(2, 1, 0, 0, upgSize, kind, PACKET_RETRY_LIMIT, []), true,
                                        Frame(true, 2, second));
            verdict == Acked && r.flash == [Write(kind, 0, XBUFF, second)]
  {
    hide Checked, Frame, Value;
    FrameChecks(true, 2, second);
    CheckedLength(true, Frame(true, 2, second));
    CountWithinBlock(upgSize + 0x1_0000_0000, 0);
    assert second[..BLOCK] == second;
  }

  lemma TakesFrame(blocks: seq<seq<bv8>>, s: System, i: nat, n: byte, data: seq<bv8>)
    requires s.stop == Running && !s.tail && CrcMode(s) && |data| == BLOCK && s.toR == [Block(i, Frame(true, n, data))]
    requires OnBlock(s.recv, true, Frame(true, n, data)).1 == Acked
    ensures var t := Next(blocks, s, ReceiverRead(Reject));
            && t.stop == Running && !t.tail && CrcMode(t) && t.recv == OnBlock(s.recv, true, Frame(true, n, data)).0
            && t.sender == s.sender && t.toR == [] && t.toS == s.toS + [ACK]
  {
    hide Frame, Checked, OnBlock, Taken;
    FrameTaken(true, n, data);
  }

  /** Up to the first two blocks on a clean link. */
  lemma TwoBlocks(blocks: seq<seq<bv8>>) returns (events: seq<Event>)
    requires Written(blocks) && UpgOf(blocks[0]) < 0
    ensures Run(blocks, INITIAL, events).recv.flash == [Write(KindOf(blocks[0]), 0, XBUFF, blocks[1])]
  {
    hide Run, Frame, OnBlock, UpgOf, KindOf, Next;
    events := FirstBlock(blocks);
    var s := Run(blocks, INITIAL, events);
    TakenFirst(blocks[0]);
    TakesFrame(blocks, s, 0, 1, blocks[0]);
    RunNext(blocks, events, ReceiverRead(Reject));
    events := events + [ReceiverRead(Reject)];
    TakesAck(blocks, Run(blocks, INITIAL, events));
    RunNext(blocks, events, SenderRead);
    events := events + [SenderRead];
    UpgRange(blocks[0]);
    TakenSecond(blocks[1], UpgOf(blocks[0]), KindOf(blocks[0]));
    TakesFrame(blocks, Run(blocks, INITIAL, events), 1, 2, blocks[1]);
    RunNext(blocks, events, ReceiverRead(Reject));
    events := events + [ReceiverRead(Reject)];
  }

  lemma FirstBlock(blocks: seq<seq<bv8>>) returns (events: seq<Event>)
    requires blocks != []
    ensures var s := Run(blocks, INITIAL, events);
            && s.stop == Running && !s.tail && CrcMode(s) && s.recv == FRESH
            && s.sender == Sender(Sending, true, false, 0, 0) && s.toR == [FirstPacket(blocks)] && s.toS == []
  {
    hide Run, Frame;
    RunNothing(blocks);
    RunNext(blocks, [], Solicit);
    RunNext(blocks, [] + [Solicit], SenderRead);
    events := [] + [Solicit] + [SenderRead];
  }

  lemma UpgRange(first: seq<bv8>)
    requires |first| == BLOCK
    ensures UpgOf(first) >= -0x8000_0000
  {
    hide HeaderLength, HasHeader;
  }

  /** Some run passes more octets to the flash than a block holds exactly when the announced size is a negative int. */
  lemma OverlongIff(blocks: seq<seq<bv8>>)
    requires Written(blocks)
    ensures ReachesOverlong(blocks) <==> UpgOf(blocks[0]) < 0
  {
    hide Run, UpgOf, KindOf;
    if UpgOf(blocks[0]) < 0 {
      var events := TwoBlocks(blocks);
      var flash := Run(blocks, INITIAL, events).recv.flash;
      assert flash[0].count > |flash[0].data|;
    } else {
      forall events ensures !Overlong(Run(blocks, INITIAL, events).recv.flash) {
        RunInv(blocks, events);
        var k := Run(blocks, INITIAL, events).accepted;
        if k > 0 {
          WritesInOrder(blocks, k);
        }
      }
    }
  }

  // ---------------------------------------------------------------- when nothing can be missing

  /** Files whose second block the receiver refuses: there is something to write and the upgrade type is invalid. */
  ghost predicate Refused(blocks: seq<seq<bv8>>) {
    && Fits(blocks) && |blocks| >= 2
    && UpgOf(blocks[0]) > 0 && !(0 < KindOf(blocks[0]) < UPG_ID_MAX)
  }

  /** The packets that carry the first block. */
  function Firsts(blocks: seq<seq<bv8>>, q: seq<Packet>): nat {
    if q == [] then 0 else Firsts(blocks, q[..|q| - 1]) + if Number(blocks, q[|q| - 1]) == 0 then 1 else 0
  }

  lemma FirstsAppend(blocks: seq<seq<bv8>>, q: seq<Packet>, p: Packet)
    ensures Firsts(blocks, q + [p]) == Firsts(blocks, q) + if Number(blocks, p) == 0 then 1 else 0
  {
    assert (q + [p])[..|q|] == q;
  }

  lemma {:induction false} FirstsTail(blocks: seq<seq<bv8>>, q: seq<Packet>)
    requires q != []
    ensures Firsts(blocks, q) == Firsts(blocks, q[1..]) + if Number(blocks, q[0]) == 0 then 1 else 0
    decreases |q|
  {
    hide Number;
    var front := q[..|q| - 1];
    if |q| > 1 {
      assert q[1..][..|q| - 2] == front[1..];
      FirstsTail(blocks, front);
    }
  }

  lemma {:induction false} SameFirsts(blocks: seq<seq<bv8>>, q: seq<Packet>, r: seq<Packet>)
    requires |q| == |r| && forall i :: 0 <= i < |q| ==> Number(blocks, q[i]) == Number(blocks, r[i])
    ensures Firsts(blocks, q) == Firsts(blocks, r)
    decreases |q|
  {
    hide Number;
    if q != [] {
      SameFirsts(blocks, q[..|q| - 1], r[..|r| - 1]);
    }
  }

  /** No more than `n` acknowledgements ever reach the sender of a refused file: all of them answer the first block, and
      there is one for every copy of it. */
  ghost predicate Bounded(s: System, n: int) {
    n <= RETRY && n <= s.naks + 1 && (s.solicits <= TRYCHAR_RETRY_LIMIT ==> n <= s.solicits)
  }

  ghost predicate FirstsOnly(blocks: seq<seq<bv8>>, s: System) {
    && (s.stop == OwnEot ==> Bounded(s, |blocks|))
    && (s.stop == Running ==>
          && s.accepted <= 1
          && (s.sender.phase == Starting ==>
                Naks(s.toS) <= s.naks && (s.solicits <= TRYCHAR_RETRY_LIMIT ==> |s.toS| <= s.solicits))
          && (s.sender.phase == Sending && s.sender.index == 0 ==>
                && Acks(s.toS) + Firsts(blocks, s.toR) <= s.sender.errors + 1
                && |s.toR| + Acks(s.toS) + Naks(s.toS) <= s.naks + 1
                && (s.solicits <= TRYCHAR_RETRY_LIMIT ==> |s.toR| + |s.toS| <= s.solicits))
          && (s.sender.index > 0 ==> Bounded(s, s.sender.index + Acks(s.toS) + Firsts(blocks, s.toR))))
  }

  /** An event that concerns only the replies. */
  lemma RepliesFirstsOnly(blocks: seq<seq<bv8>>, s: System, t: System)
    requires FirstsOnly(blocks, s) && s.stop == t.stop == Running && s.sender == t.sender && s.toR == t.toR
    requires s.accepted == t.accepted && s.naks <= t.naks && s.solicits <= t.solicits
    requires Acks(t.toS) <= Acks(s.toS) && Naks(t.toS) + s.naks <= Naks(s.toS) + t.naks
    requires t.solicits <= TRYCHAR_RETRY_LIMIT ==> |t.toS| + s.solicits <= |s.toS| + t.solicits
    ensures FirstsOnly(blocks, t)
  {
    hide Count, Firsts;
  }

  lemma StartingFirstsOnly(blocks: seq<seq<bv8>>, s: System, ch: Option<bv8>, toS: seq<bv8>)
    requires FirstsOnly(blocks, s) && Alone(s, ch, toS) && blocks != []
    requires s.sender.phase == Starting && s.sender.index == s.accepted == 0 && s.toR == [] && Acks(s.toS) == 0
    ensures var (t, out) := OnReply(blocks, s.sender, ch);
            FirstsOnly(blocks, s.(sender := t, toR := s.toR + out, toS := toS))
  {
    hide Count, Firsts, Emit;
    var begin := s.sender.(crc := ch == Some(CRC), errors := 0, index := 0);
    EmitShape(blocks, begin);
    FirstsAppend(blocks, [], Emit(blocks, begin).1[0]);
    NoFirsts(blocks);
    var (t, out) := OnReply(blocks, s.sender, ch);
    assert out != [] ==> [] + [out[0]] == out;
    assert s.toR + out == out;
  }

  lemma NoFirsts(blocks: seq<seq<bv8>>)
    ensures Firsts(blocks, []) == 0
  {
  }

  lemma SendingFirstsOnly(blocks: seq<seq<bv8>>, s: System, ch: Option<bv8>, toS: seq<bv8>)
    requires FirstsOnly(blocks, s) && Alone(s, ch, toS)
    requires s.sender.phase == Sending && s.sender.index < |blocks| && s.sender.errors < RETRY
    ensures var (t, out) := OnReply(blocks, s.sender, ch);
            FirstsOnly(blocks, s.(sender := t, toR := s.toR + out, toS := toS))
  {
    hide Count, Firsts, OnReply, Number;
    SendingShape(blocks, s.sender, ch);
    var (t, out) := OnReply(blocks, s.sender, ch);
    if out == [] {
      assert s.toR + out == s.toR;
    } else {
      FirstsWithin(blocks, s.toR);
      assert s.toR + out == s.toR + [out[0]];
      FirstsAppend(blocks, s.toR, out[0]);
    }
  }

  lemma FirstsWithin(blocks: seq<seq<bv8>>, q: seq<Packet>)
    ensures Firsts(blocks, q) <= |q|
  {
    hide Number;
  }

  lemma SendingShape(blocks: seq<seq<bv8>>, s: Sender, ch: Option<bv8>)
    requires s.phase == Sending && s.index < |blocks|
    ensures var (t, out) := OnReply(blocks, s, ch);
            if ch != Some(ACK) && ch != Some(NAK) then
              out == [] && t.phase in {Raised, Unexpected} && t.index == s.index
            else
              && out == [out[0]] && (Number(blocks, out[0]) == t.index || Number(blocks, out[0]) == |blocks|)
              && t.index == s.index + (if ch == Some(ACK) then 1 else 0) <= |blocks|
              && t.errors == s.errors + (if ch == Some(ACK) then 0 else 1)
              && t.phase in {Sending, Ending, Failed}
  {
    hide Frame;
  }

  lemma LaterFirstsOnly(blocks: seq<seq<bv8>>, s: System, ch: Option<bv8>, toS: seq<bv8>)
    requires FirstsOnly(blocks, s) && Alone(s, ch, toS) && blocks != [] && s.sender.index <= |blocks|
    requires s.sender.phase !in {Starting, Sending} && (s.sender.phase == Ending ==> s.sender.index == |blocks|)
    ensures var (t, out) := OnReply(blocks, s.sender, ch);
            FirstsOnly(blocks, s.(sender := t, toR := s.toR + out, toS := toS))
  {
    hide Count, Firsts, Emit;
    var (t, out) := OnReply(blocks, s.sender, ch);
    if out == [] {
      assert s.toR + out == s.toR;
    } else {
      assert out == [out[0]];
      FirstsAppend(blocks, s.toR, out[0]);
    }
  }

  lemma SenderFirstsOnly(blocks: seq<seq<bv8>>, s: System, ch: Option<bv8>, toS: seq<bv8>)
    requires Inv(blocks, s) && FirstsOnly(blocks, s) && s.stop == Running && blocks != []
    requires (ch == None && toS == s.toS) || (s.toS != [] && ch == Some(s.toS[0]) && toS == s.toS[1..])
    ensures var (t, out) := OnReply(blocks, s.sender, ch);
            FirstsOnly(blocks, s.(sender := t, toR := s.toR + out, toS := toS))
  {
    hide Count, Stored, QueueInv, OnReply, FirstsOnly;
    AnswersWithin(toS);
    if ch != None {
      CountHead(s.toS, ACK);
      CountHead(s.toS, NAK);
    }
    match s.sender.phase
    case Starting =>
      NothingTaken(blocks, s);
      StartingFirstsOnly(blocks, s, ch, toS);
    case Sending => SendingFirstsOnly(blocks, s, ch, toS);
    case _ => LaterFirstsOnly(blocks, s, ch, toS);
  }

  /** The receiver refuses the second block, so it never takes more than the first. */
  lemma RefusesSecond(blocks: seq<seq<bv8>>, s: System, glimpse: Glimpse)
    requires Refused(blocks) && Inv(blocks, s) && s.stop == Running && s.toR != [] && s.accepted == 1
    ensures Receive(blocks, s, glimpse).stop == Running ==> Receive(blocks, s, glimpse).accepted == 1
  {
    hide Checked, Taken, SenderInv, QueueInv, CountInv, Value;
    var p := s.toR[0];
    if p.Block? && Checked(CrcMode(s), Taken(CrcMode(s), p.bytes)) {
      CheckedLength(CrcMode(s), Taken(CrcMode(s), p.bytes));
      StoreRefused(blocks, s.recv, Taken(CrcMode(s), p.bytes)[3..3 + BLOCK]);
    }
  }

  lemma StoreRefused(blocks: seq<seq<bv8>>, r: Receiver, data: seq<bv8>)
    requires Refused(blocks) && Stored(blocks, r, 1, true) && |data| == BLOCK
    ensures !Store(r, data).1
  {
    hide UpgOf, KindOf, Writes;
    CountOfRest(r.upgSize - r.len);
  }

  lemma ReceiverFirstsOnly(blocks: seq<seq<bv8>>, s: System, glimpse: Glimpse)
    requires Refused(blocks) && Inv(blocks, s) && FirstsOnly(blocks, s) && s.stop == Running && s.toR != []
    ensures FirstsOnly(blocks, Receive(blocks, s, glimpse))
  {
    hide Count, Stored, QueueInv, CountInv, Receive, Genuine, Firsts, Refused;
    ReceiveShape(blocks, s, glimpse);
    HeadSound(blocks, s);
    FirstsTail(blocks, s.toR);
    PacketNumber(blocks, s);
    var t := Receive(blocks, s, glimpse);
    if t.stop == Running {
      CountAppend(s.toS, ACK, ACK);
      CountAppend(s.toS, ACK, NAK);
      CountAppend(s.toS, NAK, ACK);
      CountAppend(s.toS, NAK, NAK);
      if s.accepted == 1 {
        RefusesSecond(blocks, s, glimpse);
      }
      if t.toS == s.toS + [ACK] {
        GenuineReply(blocks, s, glimpse);
      } else {
        OneAtMost(blocks, s, glimpse);
      }
    }
  }

  lemma OneAtMost(blocks: seq<seq<bv8>>, s: System, glimpse: Glimpse)
    requires s.toR != [] && s.stop == Running && Receive(blocks, s, glimpse).stop == Running
    requires Receive(blocks, s, glimpse).toS != s.toS + [ACK]
    ensures Receive(blocks, s, glimpse).accepted == s.accepted
  {
    hide Checked, Taken, Store, Expected;
  }

  lemma NextFirstsOnly(blocks: seq<seq<bv8>>, s: System, e: Event)
    requires Refused(blocks) && Inv(blocks, s) && FirstsOnly(blocks, s) && TailInv(s) && s.trychar != ACK
    ensures FirstsOnly(blocks, Next(blocks, s, e))
  {
    hide Inv, Count, OnReply, Acceptable, Receive, ReceiveTail, FirstsOnly, Refused, Firsts;
    if s.stop == Running {
      RefusedShape(blocks);
      match e
      case Solicit =>
        CountAppend(s.toS, s.trychar, ACK);
        CountAppend(s.toS, s.trychar, NAK);
        RepliesFirstsOnly(blocks, s, Next(blocks, s, e));
      case FallBack =>
        CountAppend(s.toS, NAK, ACK);
        CountAppend(s.toS, NAK, NAK);
        RepliesFirstsOnly(blocks, s, Next(blocks, s, e));
      case WaitOut => StoppedFirstsOnly(blocks, s, Next(blocks, s, e));
      case SenderRead =>
        if s.toS != [] {
          SenderFirstsOnly(blocks, s, Some(s.toS[0]), s.toS[1..]);
        }
      case SenderTimeout => SenderFirstsOnly(blocks, s, None, s.toS);
      case ReceiverRead(glimpse) =>
        if s.toR != [] && !s.tail {
          ReceiverFirstsOnly(blocks, s, glimpse);
        }
      case TailRead(glimpse) =>
        TailShape(s, glimpse);
        CountAppend(s.toS, NAK, ACK);
        CountAppend(s.toS, NAK, NAK);
        StoppedFirstsOnly(blocks, s, Next(blocks, s, e));
        if Next(blocks, s, e).stop == Running {
          RepliesFirstsOnly(blocks, s, Next(blocks, s, e));
        }
      case Damage(k, junk) =>
        if k < |s.toR| && !Acceptable(junk) {
          DamageFirstsOnly(blocks, s, k, junk);
        }
      case DamageReply(k, other) =>
        if k < |s.toS| && other != ACK {
          CountChanged(s.toS, k, other, ACK);
          CountChanged(s.toS, k, other, NAK);
          RepliesFirstsOnly(blocks, s, Next(blocks, s, e));
        }
      case LoseReply(k) =>
        if k < |s.toS| {
          CountChanged(s.toS, k, 0, ACK);
          CountChanged(s.toS, k, 0, NAK);
          RepliesFirstsOnly(blocks, s, Next(blocks, s, e));
        }
    } else {
      EndedFirstsOnly(blocks, s, Next(blocks, s, e));
    }
  }

  lemma RefusedShape(blocks: seq<seq<bv8>>)
    requires Refused(blocks)
    ensures blocks != []
  {
  }

  lemma StoppedFirstsOnly(blocks: seq<seq<bv8>>, s: System, t: System)
    requires FirstsOnly(blocks, s)
    ensures t.stop != OwnEot && t.stop != Running ==> FirstsOnly(blocks, t)
  {
  }

  lemma EndedFirstsOnly(blocks: seq<seq<bv8>>, s: System, t: System)
    requires FirstsOnly(blocks, s) && s.stop == t.stop != Running && s.solicits == t.solicits && s.naks == t.naks
    ensures FirstsOnly(blocks, t)
  {
  }

  lemma DamageFirstsOnly(blocks: seq<seq<bv8>>, s: System, k: nat, junk: seq<bv8>)
    requires FirstsOnly(blocks, s) && k < |s.toR|
    ensures FirstsOnly(blocks, s.(toR := s.toR[k := Block(Number(blocks, s.toR[k]), junk)]))
  {
    hide Count, Firsts;
    SameFirsts(blocks, s.toR, s.toR[k := Block(Number(blocks, s.toR[k]), junk)]);
  }

  lemma {:induction false} RunFirstsOnly(blocks: seq<seq<bv8>>, events: seq<Event>)
    requires Refused(blocks)
    ensures FirstsOnly(blocks, Run(blocks, INITIAL, events))
  {
    hide Inv, FirstsOnly, Next, TailInv;
    if events == [] {
      StartFirstsOnly(blocks);
    } else {
      var front := events[..|events| - 1];
      RunInv(blocks, front);
      RunTailInv(blocks, front);
      RunFirstsOnly(blocks, front);
      NextFirstsOnly(blocks, Run(blocks, INITIAL, front), events[|events| - 1]);
    }
  }

  lemma StartFirstsOnly(blocks: seq<seq<bv8>>)
    ensures FirstsOnly(blocks, INITIAL)
  {
  }

  /** The sender's own EOT reaches the receiver of a refused file only if there are as many start characters as
      blocks. */
  lemma RefusedAtEot(blocks: seq<seq<bv8>>, events: seq<Event>)
    requires Refused(blocks) && Run(blocks, INITIAL, events).stop == OwnEot
    ensures Bounded(Run(blocks, INITIAL, events), |blocks|)
  {
    hide Run;
    RunFirstsOnly(blocks, events);
  }

  /** A block is repeated only when it has been taken. */
  ghost predicate Repeated(s: System) {
    s.stop in {Running, OwnEot} && s.accepted == 0 ==> s.dups == 0
  }

  lemma ReceiverRepeated(blocks: seq<seq<bv8>>, s: System, glimpse: Glimpse)
    requires Inv(blocks, s) && Repeated(s) && s.stop == Running && s.toR != []
    ensures Repeated(Receive(blocks, s, glimpse))
  {
    hide Inv, Receive;
    var t := Receive(blocks, s, glimpse);
    ReceiveShape(blocks, s, glimpse);
    if t.stop == Running && t.toS == s.toS + [ACK] {
      GenuineReply(blocks, s, glimpse);
    } else {
      NoNewDups(blocks, s, glimpse);
    }
  }

  lemma NoNewDups(blocks: seq<seq<bv8>>, s: System, glimpse: Glimpse)
    requires s.toR != [] && s.stop == Running
    requires var t := Receive(blocks, s, glimpse); t.stop != Running || t.toS != s.toS + [ACK]
    ensures var t := Receive(blocks, s, glimpse); t.stop in {Running, OwnEot} ==> t.dups == s.dups
  {
    hide Checked, Taken, Store, Expected;
  }

  lemma NextRepeated(blocks: seq<seq<bv8>>, s: System, e: Event)
    requires Inv(blocks, s) && Repeated(s)
    ensures Repeated(Next(blocks, s, e))
  {
    hide Inv, OnReply, Receive, Acceptable;
    if s.stop == Running && e.ReceiverRead? && s.toR != [] {
      ReceiverRepeated(blocks, s, e.glimpse);
    }
  }

  lemma {:induction false} RunRepeated(blocks: seq<seq<bv8>>, events: seq<Event>)
    requires Fits(blocks)
    ensures Repeated(Run(blocks, INITIAL, events))
  {
    hide Inv, Next;
    if events != [] {
      var front := events[..|events| - 1];
      RunInv(blocks, front);
      RunRepeated(blocks, front);
      NextRepeated(blocks, Run(blocks, INITIAL, front), events[|events| - 1]);
    }
  }

  /** A file of one block at most is complete whenever the sender's own EOT arrives. */
  lemma ShortComplete(blocks: seq<seq<bv8>>, events: seq<Event>)
    requires Fits(blocks) && |blocks| <= 1 && Run(blocks, INITIAL, events).stop == OwnEot
    ensures Run(blocks, INITIAL, events).accepted == |blocks|
  {
    hide Run;
    MissingBlocks(blocks, events);
    RunRepeated(blocks, events);
    RunInv(blocks, events);
  }

  ghost predicate Complete(blocks: seq<seq<bv8>>, s: System, starts: nat, naks: nat) {
    s.stop == OwnEot && s.solicits <= starts && s.naks <= naks ==> s.accepted == |blocks|
  }

  /** The acknowledgements that must be left over before a block can be missed at the sender's EOT. */
  function Spare(blocks: seq<seq<bv8>>): nat
    requires |blocks| >= 2 && |blocks[0]| == BLOCK
  {
    if UpgOf(blocks[0]) > 0 && !(0 < KindOf(blocks[0]) < UPG_ID_MAX) then |blocks| - 1 else 1
  }

  /** Nothing can be missing at the sender's EOT exactly when the file has one block at most, or the start characters,
      or the NAKs that answer no packet, are too few for the spare acknowledgements, or those are more than the NAKs
      that the sender puts up with. */
  lemma CompleteIff(blocks: seq<seq<bv8>>, starts: nat, naks: nat)
    requires Fits(blocks)
    ensures (forall events :: Complete(blocks, Run(blocks, INITIAL, events), starts, naks))
       <==> |blocks| <= 1 || starts <= Spare(blocks) || naks < Spare(blocks) || RETRY <= Spare(blocks)
  {
    hide Run, UpgOf, KindOf, Complete;
    if |blocks| <= 1 || starts <= Spare(blocks) || naks < Spare(blocks) || RETRY <= Spare(blocks) {
      forall events ensures Complete(blocks, Run(blocks, INITIAL, events), starts, naks) {
        CompleteRun(blocks, events, starts, naks);
      }
    } else {
      var events := MissingRun(blocks);
      NotComplete(blocks, Run(blocks, INITIAL, events), starts, naks);
      assert !Complete(blocks, Run(blocks, INITIAL, events), starts, naks);
    }
  }

  lemma NotComplete(blocks: seq<seq<bv8>>, s: System, starts: nat, naks: nat)
    requires s.stop == OwnEot && s.solicits <= starts && s.naks <= naks && s.accepted < |blocks|
    ensures !Complete(blocks, s, starts, naks)
  {
  }

  lemma CompleteRun(blocks: seq<seq<bv8>>, events: seq<Event>, starts: nat, naks: nat)
    requires Fits(blocks)
    requires |blocks| <= 1 || starts <= Spare(blocks) || naks < Spare(blocks) || RETRY <= Spare(blocks)
    ensures Complete(blocks, Run(blocks, INITIAL, events), starts, naks)
  {
    hide Run, UpgOf, KindOf;
    var s := Run(blocks, INITIAL, events);
    if s.stop == OwnEot && s.solicits <= starts && s.naks <= naks {
      if |blocks| <= 1 {
        ShortComplete(blocks, events);
      } else if s.solicits <= 1 || s.naks == 0 {
        NothingMissing(blocks, events);
      } else {
        assert Refused(blocks);
        RefusedAtEot(blocks, events);
      }
    }
  }

  /** A run that misses a block with as few start characters and NAKs as any. */
  lemma MissingRun(blocks: seq<seq<bv8>>) returns (events: seq<Event>)
    requires Fits(blocks) && |blocks| >= 2 && Spare(blocks) < RETRY
    ensures var s := Run(blocks, INITIAL, events);
            && s.stop == OwnEot && s.sender.phase == Done && s.accepted < |blocks|
            && s.solicits == Spare(blocks) + 1 && s.naks == Spare(blocks)
  {
    hide Run, UpgOf, KindOf;
    if Refused(blocks) {
      events := HeaderOnlyRun(blocks);
    } else {
      events := LossyRun(blocks);
    }
  }
}
