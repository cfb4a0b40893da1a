/** The telnet stream of rfc2217.py: what the two ends print and what their read loops make of it. */
module Telnet {
  import opened Prelude

  const IAC: byte := 255
  const DONT: byte := 254
  const DO: byte := 253
  const WONT: byte := 252
  const WILL: byte := 251
  const SB: byte := 250
  const SE: byte := 240
  const COM_PORT_OPTION: byte := 44

  /** bytes(None) in Python 2: what the end of a subnegotiation that never began is taken for. */
  const NONE: seq<byte> := [0x4E, 0x6F, 0x6E, 0x65]

  predicate Negotiation(b: byte) { b == DO || b == DONT || b == WILL || b == WONT }

  // ---------------------------------------------------------------- printing

  function Escaped(data: seq<byte>): seq<byte> {
    if data == [] then []
    else Escaped(data[..|data| - 1]) + EscapedOctet(data[|data| - 1])
  }

  function EscapedOctet(b: byte): seq<byte> { if b == IAC then [IAC, IAC] else [b] }

  /** `PortManager.escape`, and the `replace` in `write` and `rfc2217SendSubnegotiation`. */
  method Escape(data: seq<byte>) returns (out: seq<byte>)
    ensures out == Escaped(data)
  {
    out := [];
    for i := 0 to |data|
      invariant out == Escaped(data[..i])
    {
      assert data[..i + 1][..i] == data[..i];
      if data[i] == IAC {
        out := out + [IAC];
        out := out + [IAC];
      } else {
        out := out + [data[i]];
      }
    }
    assert data[..|data|] == data;
  }

  /** What a side can print: data, an option command (telnetSendOption), a subnegotiation
      (rfc2217SendSubnegotiation). */
  datatype Item = Payload(data: seq<byte>) | Choice(action: byte, option: byte) | Sub(option: byte, value: seq<byte>)

  function Printed(item: Item): seq<byte> {
    match item
    case Payload(data) => Escaped(data)
    case Choice(action, option) => [IAC, action, option]
    case Sub(option, value) => [IAC, SB, COM_PORT_OPTION, option] + Escaped(value) + [IAC, SE]
  }

  function Stream(items: seq<Item>): seq<byte> {
    if items == [] then [] else Stream(items[..|items| - 1]) + Printed(items[|items| - 1])
  }

  /** Only the value of a subnegotiation is escaped. */
  predicate Printable(item: Item) {
    (item.Choice? ==> Negotiation(item.action)) && (item.Sub? ==> item.option != IAC)
  }

  /** The octets of RFC 854, and 44 for the option of RFC 2217. */
  lemma PrintedOctets(item: Item)
    requires Printable(item)
    ensures match item
            case Payload(data) => Printed(item) == Escaped(data)
            case Choice(action, option) => Printed(item) == [255, action, option] && 251 <= action <= 254
            case Sub(option, value) => Printed(item) == [255, 250, 44, option] + Escaped(value) + [255, 240]
    ensures forall b: byte :: EscapedOctet(b) == if b == 255 then [255, 255] else [b]
    ensures forall b: byte :: Negotiation(b) <==> 251 <= b <= 254
    ensures WILL == 251 && WONT == 252 && DO == 253 && DONT == 254
  {
  }

  // ---------------------------------------------------------------- reading

  datatype Mode = Normal | IacSeen | Negotiate

  datatype State = State(mode: Mode, suboption: Option<seq<byte>>, command: byte)

  const START := State(Normal, None, 0)

  /** What reading yields: data octets and the calls of the three handlers. */
  datatype Event =
    | Data(b: byte)
    | Negotiated(command: byte, option: byte)
    | Subnegotiated(body: seq<byte>)
    | Command(b: byte)

  /** A data octet goes to the open subnegotiation, if there is one. */
  function Store(s: State, b: byte): (State, seq<Event>) {
    if s.suboption.Some? then (s.(suboption := Some(s.suboption.value + [b]), mode := Normal), [])
    else (s.(mode := Normal), [Data(b)])
  }

  /** One turn of the loop over the incoming octets. */
  function Feed(s: State, b: byte): (State, seq<Event>) {
    match s.mode
    case Normal => if b == IAC then (s.(mode := IacSeen), []) else Store(s, b)
    case IacSeen =>
      if b == IAC then Store(s, b)
      else if b == SB then (s.(suboption := Some([]), mode := Normal), [])
      else if b == SE then
        (s.(suboption := None, mode := Normal),
         [Subnegotiated(if s.suboption.Some? then s.suboption.value else NONE)])
      else if Negotiation(b) then (s.(command := b, mode := Negotiate), [])
      else (s.(mode := Normal), [Command(b)])
    case Negotiate => (s.(mode := Normal), [Negotiated(s.command, b)])
  }

  function FeedAll(s: State, data: seq<byte>): (State, seq<Event>) {
    if data == [] then (s, [])
    else
      var (t, events) := FeedAll(s, data[..|data| - 1]);
      var (u, more) := Feed(t, data[|data| - 1]);
      (u, events + more)
  }

  class PortManager {
    var mode: Mode
    var suboption: Option<seq<byte>>
    var telnetCommand: byte
    var events: seq<Event>

    function View(): State
      reads this
    {
      State(mode, suboption, telnetCommand)
    }

    constructor ()
      ensures View() == START && events == []
    {
      mode, suboption, telnetCommand, events := Normal, None, 0, [];
    }

    /** `filter`, for one chunk. */
    method Filter(data: seq<byte>)
      modifies this
      ensures (View(), events) == (FeedAll(old(View()), data).0, old(events) + FeedAll(old(View()), data).1)
    {
      ghost var s0, e0 := View(), events;
      assert e0 + [] == e0;
      for i := 0 to |data|
        invariant View() == FeedAll(s0, data[..i]).0 && events == e0 + FeedAll(s0, data[..i]).1
      {
        FeedOneMore(s0, data, i);
        FilterByte(data[i]);
      }
      assert data[..|data|] == data;
    }

    method FilterByte(b: byte)
      modifies this
      ensures (View(), events) == (Feed(old(View()), b).0, old(events) + Feed(old(View()), b).1)
    {
      assert events + [] == events;
      match mode {
        case Normal =>
          if b == IAC {
            mode := IacSeen;
          } else {
            Keep(b);
          }
        case IacSeen =>
          if b == IAC {
            Keep(b);
            mode := Normal;
          } else if b == SB {
            suboption := Some([]);
            mode := Normal;
          } else if b == SE {
            events := events + [Subnegotiated(if suboption.Some? then suboption.value else NONE)];
            suboption := None;
            mode := Normal;
          } else if Negotiation(b) {
            telnetCommand := b;
            mode := Negotiate;
          } else {
            events := events + [Command(b)];
            mode := Normal;
          }
        case Negotiate =>
          events := events + [Negotiated(telnetCommand, b)];
          mode := Normal;
      }
    }

    method Keep(b: byte)
      modifies this
      ensures View() == Store(old(View()), b).0.(mode := old(mode))
      ensures events == old(events) + Store(old(View()), b).1
    {
      if suboption.Some? {
        suboption := Some(suboption.value + [b]);
        assert old(events) + [] == events;
      } else {
        events := events + [Data(b)];
      }
    }
  }

  /** The client's `_telnetReadLoop`, with the chunks that `recv` returns. */
  method TelnetReadLoop(chunks: seq<seq<byte>>) returns (events: seq<Event>)
    ensures events == FeedAll(START, Joined(chunks)).1
  {
    var s := START;
    events := [];
    assert chunks[..0] == [];
    for i := 0 to |chunks|
      invariant (s, events) == FeedAll(START, Joined(chunks[..i]))
    {
      var data := chunks[i];
      ghost var before := Joined(chunks[..i]);
      JoinedStep(chunks, i);
      assert before + data[..0] == before;
      for k := 0 to |data|
        invariant (s, events) == FeedAll(START, before + data[..k])
      {
        assert before + data[..k + 1] == before + data[..k] + [data[k]];
        FeedLast(START, before + data[..k], data[k]);
        var (t, more) := Feed(s, data[k]);
        s, events := t, events + more;
      }
      assert data[..|data|] == data;
    }
    assert chunks[..|chunks|] == chunks;
  }

  lemma FeedLast(s: State, data: seq<byte>, b: byte)
    ensures var (t, events) := FeedAll(s, data);
            var (u, more) := Feed(t, b);
            FeedAll(s, data + [b]) == (u, events + more)
  {
    hide Feed;
    assert (data + [b])[..|data|] == data;
  }

  lemma FeedOneMore(s: State, data: seq<byte>, i: nat)
    requires i < |data|
    ensures var (t, events) := FeedAll(s, data[..i]);
            var (u, more) := Feed(t, data[i]);
            FeedAll(s, data[..i + 1]) == (u, events + more)
  {
    hide Feed;
    assert data[..i + 1] == data[..i] + [data[i]];
    FeedLast(s, data[..i], data[i]);
  }

  lemma {:induction false} FeedAppend(s: State, a: seq<byte>, b: seq<byte>)
    ensures var (t, events) := FeedAll(s, a);
            var (u, more) := FeedAll(t, b);
            FeedAll(s, a + b) == (u, events + more)
    decreases |b|
  {
    hide Feed;
    if b == [] {
      assert a + b == a;
      assert FeedAll(s, a).1 + [] == FeedAll(s, a).1;
    } else {
      var front, last := b[..|b| - 1], b[|b| - 1];
      FeedAppend(s, a, front);
      assert a + b == a + front + [last];
      FeedLast(s, a + front, last);
      var (t, events) := FeedAll(s, a);
      var (u, more) := FeedAll(t, front);
      assert events + more + Feed(u, last).1 == events + (more + Feed(u, last).1);
    }
  }

  // ---------------------------------------------------------------- chunks

  /** The chunks one after the other, each from the state the one before has left. */
  function FeedChunks(s: State, chunks: seq<seq<byte>>): (State, seq<Event>) {
    if chunks == [] then (s, [])
    else
      var (t, events) := FeedChunks(s, chunks[..|chunks| - 1]);
      var (u, more) := FeedAll(t, chunks[|chunks| - 1]);
      (u, events + more)
  }

  lemma {:induction false} AnyChunks(s: State, chunks: seq<seq<byte>>)
    ensures FeedChunks(s, chunks) == FeedAll(s, Joined(chunks))
  {
    hide Feed;
    if chunks != [] {
      AnyChunks(s, chunks[..|chunks| - 1]);
      FeedAppend(s, Joined(chunks[..|chunks| - 1]), chunks[|chunks| - 1]);
    }
  }

  // ---------------------------------------------------------------- what is printed is read

  function Octets(data: seq<byte>): seq<Event> { seq(|data|, i requires 0 <= i < |data| => Data(data[i])) }

  function Meaning(item: Item): seq<Event> {
    match item
    case Payload(data) => Octets(data)
    case Choice(action, option) => [Negotiated(action, option)]
    case Sub(option, value) => [Subnegotiated([COM_PORT_OPTION, option] + value)]
  }

  function Meanings(items: seq<Item>): seq<Event> {
    if items == [] then [] else Meanings(items[..|items| - 1]) + Meaning(items[|items| - 1])
  }

  lemma FeedOne(s: State, b: byte)
    ensures FeedAll(s, [b]) == Feed(s, b) && FeedAll(s, []) == (s, [])
  {
    hide Feed;
    FeedLast(s, [], b);
    assert [] + [b] == [b] && [] + Feed(s, b).1 == Feed(s, b).1;
  }

  lemma FeedTwo(s: State, a: byte, b: byte)
    ensures var (t, e) := Feed(s, a);
            var (u, f) := Feed(t, b);
            FeedAll(s, [a, b]) == (u, e + f)
  {
    hide Feed;
    FeedOne(s, a);
    FeedLast(s, [a], b);
    assert [a] + [b] == [a, b];
  }

  lemma NoEvents(e: seq<Event>)
    ensures [] + e == e && e + [] == e
  {
  }

  lemma ReadsOctet(s: State, b: byte)
    requires s.mode == Normal
    ensures FeedAll(s, EscapedOctet(b)) == Store(s, b)
  {
    hide FeedAll;
    FeedOne(s, b);
    FeedTwo(s, IAC, IAC);
    NoEvents(Store(s, b).1);
  }

  /** Escaped data goes through unchanged, to the subnegotiation if one is open. */
  lemma {:induction false} ReadsEscaped(s: State, data: seq<byte>)
    requires s.mode == Normal
    ensures FeedAll(s, Escaped(data))
         == if s.suboption.Some? then (s.(suboption := Some(s.suboption.value + data)), []) else (s, Octets(data))
    decreases |data|
  {
    hide FeedAll, EscapedOctet;
    if data == [] {
      FeedOne(s, 0);
      if s.suboption.Some? {
        assert s.suboption.value + [] == s.suboption.value;
      }
    } else {
      var front, b := data[..|data| - 1], data[|data| - 1];
      ReadsEscaped(s, front);
      var t := FeedAll(s, Escaped(front)).0;
      ReadsOctet(t, b);
      FeedAppend(s, Escaped(front), EscapedOctet(b));
      if s.suboption.Some? {
        assert s.suboption.value + front + [b] == s.suboption.value + data;
        NoEvents([]);
      } else {
        assert Octets(front) + [Data(b)] == Octets(data);
      }
    }
  }

  lemma FeedThree(s: State, a: byte, b: byte, c: byte)
    ensures var (t, e) := Feed(s, a);
            var (u, f) := Feed(t, b);
            var (v, g) := Feed(u, c);
            FeedAll(s, [a, b, c]) == (v, e + f + g)
  {
    hide Feed;
    FeedTwo(s, a, b);
    FeedLast(s, [a, b], c);
    assert [a, b] + [c] == [a, b, c];
  }

  /** The front of a subnegotiation. */
  lemma ReadsSubStart(s: State, option: byte)
    requires s.mode == Normal && option != IAC
    ensures FeedAll(s, [IAC, SB, COM_PORT_OPTION, option]) == (s.(suboption := Some([COM_PORT_OPTION, option])), [])
  {
    hide FeedAll;
    FeedThree(s, IAC, SB, COM_PORT_OPTION);
    FeedLast(s, [IAC, SB, COM_PORT_OPTION], option);
    assert [IAC, SB, COM_PORT_OPTION] + [option] == [IAC, SB, COM_PORT_OPTION, option];
    assert [] + [COM_PORT_OPTION] + [option] == [COM_PORT_OPTION, option];
    NoEvents([]);
  }

  lemma ReadsSubEnd(s: State)
    requires s.mode == Normal && s.suboption.Some?
    ensures FeedAll(s, [IAC, SE]) == (s.(suboption := None), [Subnegotiated(s.suboption.value)])
  {
    hide FeedAll;
    FeedTwo(s, IAC, SE);
    NoEvents([Subnegotiated(s.suboption.value)]);
  }

  /** Every item is read as what it means, and the reader is back where it was but for the command it remembers. */
  lemma ReadsItem(s: State, item: Item)
    requires Printable(item) && s.mode == Normal && s.suboption == None
    ensures var (t, events) := FeedAll(s, Printed(item));
            t.mode == Normal && t.suboption == None && events == Meaning(item)
  {
    hide FeedAll, Escaped;
    match item
    case Payload(data) => ReadsEscaped(s, data);
    case Choice(action, option) =>
      FeedThree(s, IAC, action, option);
      NoEvents([Negotiated(action, option)]);
    case Sub(option, value) =>
      var front, last := [IAC, SB, COM_PORT_OPTION, option], [IAC, SE];
      ReadsSubStart(s, option);
      var t := s.(suboption := Some([COM_PORT_OPTION, option]));
      ReadsEscaped(t, value);
      FeedAppend(s, front, Escaped(value));
      var u := t.(suboption := Some([COM_PORT_OPTION, option] + value));
      ReadsSubEnd(u);
      FeedAppend(s, front + Escaped(value), last);
      NoEvents([Subnegotiated([COM_PORT_OPTION, option] + value)]);
  }

  lemma {:induction false} ReadsStream(items: seq<Item>)
    requires forall i :: 0 <= i < |items| ==> Printable(items[i])
    ensures var (s, events) := FeedAll(START, Stream(items));
            s.mode == Normal && s.suboption == None && events == Meanings(items)
  {
    hide FeedAll, Printed, Meaning;
    if items == [] {
      FeedOne(START, 0);
    } else {
      var front, item := items[..|items| - 1], items[|items| - 1];
      ReadsStream(front);
      ReadsItem(FeedAll(START, Stream(front)).0, item);
      FeedAppend(START, Stream(front), Printed(item));
    }
  }

  /** Any items, printed one after the other and cut into any chunks, are read back: the data octets in order,
      the same options, the same subnegotiations. */
  lemma ReadsEverything(items: seq<Item>, chunks: seq<seq<byte>>)
    requires (forall i :: 0 <= i < |items| ==> Printable(items[i])) && Joined(chunks) == Stream(items)
    ensures FeedChunks(START, chunks).1 == Meanings(items)
  {
    AnyChunks(START, chunks);
    ReadsStream(items);
  }

  // ---------------------------------------------------------------- an option that is IAC

  function Iacs(data: seq<byte>): nat {
    if data == [] then 0 else Iacs(data[..|data| - 1]) + if data[|data| - 1] == IAC then 1 else 0
  }

  /** How many IACs it takes at least to have an event read. */
  function Weight(e: Event): nat {
    match e
    case Data(b) => if b == IAC then 2 else 0
    case Negotiated(_, _) => 1
    case Subnegotiated(body) => 2 * Iacs(body) + if body == NONE then 1 else 2
    case Command(_) => 1
  }

  function Weights(events: seq<Event>): nat {
    if events == [] then 0 else Weights(events[..|events| - 1]) + Weight(events[|events| - 1])
  }

  function Pending(s: State): nat {
    (if s.suboption.Some? then 1 + 2 * Iacs(s.suboption.value) else 0) + if s.mode == Normal then 0 else 1
  }

  lemma IacsLast(data: seq<byte>, b: byte)
    ensures Iacs(data + [b]) == Iacs(data) + if b == IAC then 1 else 0
  {
    assert (data + [b])[..|data|] == data;
  }

  lemma WeightsLast(events: seq<Event>, more: seq<Event>)
    requires |more| <= 1
    ensures Weights(events + more) == Weights(events) + Weights(more)
  {
    if more == [] {
      assert events + more == events;
    } else {
      assert (events + more)[..|events|] == events && more[..0] == [];
    }
  }

  lemma PendingStep(s: State, b: byte)
    ensures var (t, e) := Feed(s, b);
            |e| <= 1 && Weights(e) + Pending(t) <= Pending(s) + if b == IAC then 1 else 0
  {
    if s.suboption.Some? {
      IacsLast(s.suboption.value, b);
    }
    var (t, e) := Feed(s, b);
    if e != [] {
      assert e[..0] == [] && Weights(e) == Weight(e[0]);
    }
    assert Iacs([]) == 0;
    NoneHasNoIac();
  }

  lemma NoneHasNoIac()
    ensures Iacs(NONE) == 0
  {
    assert Iacs(NONE[..3][..2][..1]) == 0;
    assert Iacs(NONE[..3][..2]) == 0;
    assert Iacs(NONE[..3]) == 0;
  }

  lemma {:induction false} IacsSpent(data: seq<byte>)
    ensures var (s, events) := FeedAll(START, data);
            Weights(events) + Pending(s) <= Iacs(data)
  {
    hide Feed, Pending;
    if data == [] {
      StartFree();
    } else {
      var front, b := data[..|data| - 1], data[|data| - 1];
      IacsSpent(front);
      var (t, events) := FeedAll(START, front);
      PendingStep(t, b);
      WeightsLast(events, Feed(t, b).1);
    }
  }

  lemma StartFree()
    ensures Pending(START) == 0
  {
  }

  lemma {:induction false} IacsConcat(a: seq<byte>, b: seq<byte>)
    ensures Iacs(a + b) == Iacs(a) + Iacs(b)
    decreases |b|
  {
    if b == [] {
      assert a + b == a;
    } else {
      assert a + b == a + b[..|b| - 1] + [b[|b| - 1]];
      IacsConcat(a, b[..|b| - 1]);
      IacsLast(a + b[..|b| - 1], b[|b| - 1]);
    }
  }

  lemma {:induction false} IacsEscaped(data: seq<byte>)
    ensures Iacs(Escaped(data)) == 2 * Iacs(data)
  {
    if data != [] {
      IacsEscaped(data[..|data| - 1]);
      IacsConcat(Escaped(data[..|data| - 1]), EscapedOctet(data[|data| - 1]));
      IacsTwo(IAC, IAC);
      IacsOne(data[|data| - 1]);
    }
  }

  /** A subnegotiation is read back exactly when its option is not IAC. */
  lemma SubReadIff(option: byte, value: seq<byte>)
    ensures FeedAll(START, Printed(Sub(option, value))).1 == Meaning(Sub(option, value)) <==> option != IAC
  {
    hide FeedAll, Iacs, Escaped;
    if option != IAC {
      ReadsItem(START, Sub(option, value));
    } else {
      var front := [IAC, SB, COM_PORT_OPTION, IAC];
      IacsSpent(front + Escaped(value) + [IAC, SE]);
      IacsConcat(front + Escaped(value), [IAC, SE]);
      IacsConcat(front, Escaped(value));
      IacsEscaped(value);
      IacsConcat([COM_PORT_OPTION, IAC], value);
      FewIacs();
      var body := [COM_PORT_OPTION, IAC] + value;
      assert body[0] == COM_PORT_OPTION;
      OneEvent(Subnegotiated(body));
    }
  }

  lemma IacsOne(b: byte)
    ensures Iacs([b]) == if b == IAC then 1 else 0
  {
    IacsLast([], b);
    assert [] + [b] == [b];
  }

  lemma IacsTwo(a: byte, b: byte)
    ensures Iacs([a, b]) == (if a == IAC then 1 else 0) + if b == IAC then 1 else 0
  {
    IacsOne(a);
    IacsLast([a], b);
    assert [a] + [b] == [a, b];
  }

  lemma FewIacs()
    ensures Iacs([IAC, SB, COM_PORT_OPTION, IAC]) == 2 && Iacs([IAC, SE]) == 1 && Iacs([COM_PORT_OPTION, IAC]) == 1
  {
    hide Iacs;
    IacsTwo(IAC, SB);
    IacsTwo(COM_PORT_OPTION, IAC);
    IacsTwo(IAC, SE);
    IacsConcat([IAC, SB], [COM_PORT_OPTION, IAC]);
    assert [IAC, SB] + [COM_PORT_OPTION, IAC] == [IAC, SB, COM_PORT_OPTION, IAC];
  }

  lemma OneEvent(e: Event)
    ensures Weights([e]) == Weight(e)
  {
    assert [e][..0] == [];
  }
}
