/** The QoS 2 receiver of MQTTClient.c: the table of packet ids and what `cycle` does with it. */
module Qos2 {
  import opened Prelude

  const TABLE := 20       // MAX_INCOMING_QOS2_MESSAGES

  /** An incoming packet; Malformed ones are those a deserializer rejects. */
  datatype Packet =
    | Publish(qos: nat, id: u16)
    | Pubrel(id: u16)
    | Pubrec(id: u16)
    | MalformedPublish
    | MalformedAck
    | Other

  /** A packet, and whether the answer to it can be serialized and sent. */
  datatype Event = Event(packet: Packet, sendOk: bool)

  datatype Answer = NoAnswer | Puback(id: u16) | PubrecFor(id: u16) | PubrelFor(id: u16) | Pubcomp(id: u16)

  /** What one call of `cycle` does: deliver the message or not, try to send an answer, and succeed or fail. */
  datatype Effect = Effect(delivered: bool, answer: Answer, ok: bool)

  // ---------------------------------------------------------------- the table

  function First(table: seq<u16>, id: u16): (i: nat)
    requires id in table
    ensures i < |table| && table[i] == id && forall j :: 0 <= j < i ==> table[j] != id
  {
    if table[0] == id then 0 else 1 + First(table[1..], id)
  }

  function Use(table: seq<u16>, id: u16): seq<u16> {
    if 0 in table then table[First(table, 0) := id] else table
  }

  function Release(table: seq<u16>, id: u16): seq<u16> {
    if id in table then table[First(table, id) := 0] else table
  }

  /** `cycle` on the table. */
  function Cycle(table: seq<u16>, e: Event): (seq<u16>, Effect) {
    match e.packet
    case Publish(qos, id) =>
      if qos == 2 then
        var taken := id !in table && 0 in table;
        (if taken then Use(table, id) else table, Effect(taken, PubrecFor(id), e.sendOk))
      else (table, Effect(true, if qos == 1 then Puback(id) else NoAnswer, qos == 0 || (qos == 1 && e.sendOk)))
    case Pubrel(id) => (if e.sendOk then Release(table, id) else table, Effect(false, Pubcomp(id), e.sendOk))
    case Pubrec(id) => (table, Effect(false, PubrelFor(id), e.sendOk))
    case MalformedPublish => (table, Effect(false, NoAnswer, true))
    case MalformedAck => (table, Effect(false, NoAnswer, false))
    case Other => (table, Effect(false, NoAnswer, true))
  }

  class Client {
    const table: array<u16>
    var log: seq<Effect>

    ghost predicate Shape() { table.Length == TABLE && table as object != this }

    /** The part of MQTTClient that sets up the table. */
    constructor ()
      ensures Shape() && fresh(table) && log == []
      ensures table[..] == Empty()
    {
      table := new u16[TABLE](_ => 0);
      log := [];
    }

    /** `isQoS2msgidFree`. */
    method IsFree(id: u16) returns (free: bool)
      ensures free == (id !in table[..])
    {
      for i := 0 to table.Length
        invariant id !in table[..i]
      {
        if table[i] == id {
          return false;
        }
      }
      assert table[..table.Length] == table[..];
      return true;
    }

    /** `useQoS2msgid`. */
    method UseId(id: u16) returns (used: bool)
      modifies table
      ensures used == (0 in old(table[..])) && table[..] == Use(old(table[..]), id)
    {
      for i := 0 to table.Length
        invariant table[..] == old(table[..]) && 0 !in table[..i]
      {
        if table[i] == 0 {
          FirstIs(table[..], 0, i);
          table[i] := id;
          return true;
        }
      }
      assert table[..table.Length] == table[..];
      return false;
    }

    /** `freeQoS2msgid`. */
    method FreeId(id: u16)
      modifies table
      ensures table[..] == Release(old(table[..]), id)
    {
      for i := 0 to table.Length
        invariant table[..] == old(table[..]) && id !in table[..i]
      {
        if table[i] == id {
          FirstIs(table[..], id, i);
          table[i] := 0;
          return;
        }
      }
      assert table[..table.Length] == table[..];
    }

    /** `cycle`, for an incoming packet; delivery and answer are logged. */
    method CycleOnce(e: Event) returns (ok: bool)
      requires Shape()
      modifies this, table
      ensures var (t, effect) := Cycle(old(table[..]), e);
              table[..] == t && log == old(log) + [effect] && ok == effect.ok
    {
      var delivered, answer := false, NoAnswer;
      ok := true;
      match e.packet {
        case Publish(qos, id) =>
          if qos != 2 {
            delivered := true;
          } else {
            var free := IsFree(id);
            if free {
              var used := UseId(id);
              if used {
                delivered := true;
              }
            }
          }
          if qos != 0 {
            if qos == 1 {
              answer := Puback(id);
            } else if qos == 2 {
              answer := PubrecFor(id);
            }
            ok := answer != NoAnswer && e.sendOk;
          }
        case Pubrel(id) =>
          answer := Pubcomp(id);
          ok := e.sendOk;
          if ok {
            FreeId(id);
          }
        case Pubrec(id) =>
          answer := PubrelFor(id);
          ok := e.sendOk;
        case MalformedPublish =>
        case MalformedAck => ok := false;
        case Other =>
      }
      log := log + [Effect(delivered, answer, ok)];
    }

    /** `cycle` for one packet after the other, from the start. */
    method CycleAll(events: seq<Event>)
      requires Shape() && table[..] == Empty() && log == []
      modifies this, table
      ensures table[..] == TableAfter(events)
      ensures |log| == |events| && forall i :: 0 <= i < |events| ==> log[i] == EffectOf(events, i)
    {
      hide Cycle;
      NothingYet(events);
      for i := 0 to |events|
        invariant Shape() && table[..] == TableAfter(events[..i]) && |log| == i
        invariant forall k :: 0 <= k < i ==> log[k] == EffectOf(events, k)
      {
        var _ := CycleOnce(events[i]);
        assert events[..i + 1][..i] == events[..i];
      }
      assert events[..|events|] == events;
    }
  }

  lemma NothingYet(events: seq<Event>)
    ensures TableAfter(events[..0]) == Empty()
  {
  }

  lemma FirstIs(table: seq<u16>, id: u16, i: nat)
    requires i < |table| && table[i] == id && id !in table[..i]
    ensures First(table, id) == i
  {
    assert forall j :: 0 <= j < i ==> table[..i][j] != id;
  }

  // ---------------------------------------------------------------- runs

  function Empty(): seq<u16> { seq(TABLE, _ => 0) }

  function TableAfter(events: seq<Event>): (t: seq<u16>) {
    if events == [] then Empty() else Cycle(TableAfter(events[..|events| - 1]), events[|events| - 1]).0
  }

  predicate Delivers(events: seq<Event>, i: nat, id: u16)
    requires i < |events|
  {
    events[i].packet == Publish(2, id) && Cycle(TableAfter(events[..i]), events[i]).1.delivered
  }

  predicate Frees(events: seq<Event>, i: nat, id: u16)
    requires i < |events|
  {
    events[i] == Event(Pubrel(id), true)
  }

  ghost predicate Distinct(table: seq<u16>) {
    forall i, j :: 0 <= i < j < |table| && table[i] != 0 ==> table[i] != table[j]
  }

  lemma {:induction false} AlwaysDistinct(events: seq<Event>)
    ensures Distinct(TableAfter(events)) && |TableAfter(events)| == TABLE
  {
    if events != [] {
      AlwaysDistinct(events[..|events| - 1]);
    }
  }

  /** What one event does to whether an id is held. */
  lemma HeldStep(table: seq<u16>, e: Event, id: u16)
    requires Distinct(table) && id != 0
    ensures var (t, effect) := Cycle(table, e);
            id in t <==>
              ((id in table && e != Event(Pubrel(id), true)) || (e.packet == Publish(2, id) && effect.delivered))
  {
    var (t, effect) := Cycle(table, e);
    if id in table {
      var i: nat :| i < |table| && table[i] == id;
      if e != Event(Pubrel(id), true) {
        assert t[i] == id;
      }
    }
    if e.packet == Publish(2, id) && effect.delivered {
      assert t[First(table, 0)] == id;
    }
  }

  /** Delivered by event `i` and not freed since. */
  ghost predicate HeldSince(events: seq<Event>, i: nat, id: u16)
    requires i < |events|
  {
    Delivers(events, i, id) && forall k :: i < k < |events| ==> !Frees(events, k, id)
  }

  /** An id is in the table exactly when it has been delivered and not been freed since. */
  lemma {:induction false} HeldIff(events: seq<Event>, id: u16)
    requires id != 0
    ensures id in TableAfter(events) <==> exists i :: 0 <= i < |events| && HeldSince(events, i, id)
  {
    hide Cycle;
    if events == [] {
      NotInEmpty(id);
    } else {
      var n := |events| - 1;
      var front := events[..n];
      AlwaysDistinct(front);
      HeldStep(TableAfter(front), events[n], id);
      HeldIff(front, id);
      Prefixes(events, id);
      if id in TableAfter(front) && !Frees(events, n, id) {
        var i :| 0 <= i < n && HeldSince(front, i, id);
        assert HeldSince(events, i, id);
      }
      if Delivers(events, n, id) {
        assert HeldSince(events, n, id);
      }
      if i :| 0 <= i < n && HeldSince(events, i, id) {
        assert HeldSince(front, i, id);
      }
    }
  }

  lemma NotInEmpty(id: u16)
    requires id != 0
    ensures id !in TableAfter([])
  {
  }

  lemma Prefixes(events: seq<Event>, id: u16)
    requires events != []
    ensures var front := events[..|events| - 1];
            forall i :: 0 <= i < |front| ==>
              Delivers(front, i, id) == Delivers(events, i, id) && Frees(front, i, id) == Frees(events, i, id)
  {
    hide Cycle;
    var front := events[..|events| - 1];
    forall i | 0 <= i < |front|
      ensures Delivers(front, i, id) == Delivers(events, i, id) && Frees(front, i, id) == Frees(events, i, id)
    {
      assert front[..i] == events[..i];
    }
  }

  /** The ids, 0 apart, that have been delivered and not been freed since. */
  ghost function HeldIds(events: seq<Event>): set<u16> {
    set i | 0 <= i < |events| && Held(events, i) :: events[i].packet.id
  }

  ghost predicate Held(events: seq<Event>, i: nat)
    requires i < |events|
  {
    events[i].packet.Publish? && events[i].packet.id != 0 && HeldSince(events, i, events[i].packet.id)
  }

  lemma HeldInTable(events: seq<Event>)
    ensures HeldIds(events) == Ids(TableAfter(events)) - {0}
  {
    hide TableAfter, HeldSince;
    forall id: u16 ensures id in HeldIds(events) <==> id in Ids(TableAfter(events)) - {0} {
      if id != 0 {
        HeldIff(events, id);
        HeldIdsHas(events, id);
      }
    }
  }

  lemma HeldIdsHas(events: seq<Event>, id: u16)
    requires id != 0
    ensures id in HeldIds(events) <==> exists i :: 0 <= i < |events| && HeldSince(events, i, id)
  {
    hide Cycle;
    if i :| 0 <= i < |events| && HeldSince(events, i, id) {
      assert Held(events, i);
    }
  }

  /** A slot is free exactly when fewer than twenty ids are held. */
  lemma FreeSlotIff(events: seq<Event>)
    ensures 0 in TableAfter(events) <==> |HeldIds(events)| < TABLE
  {
    hide TableAfter, HeldIds;
    HeldInTable(events);
    AlwaysDistinct(events);
    var ids := Ids(TableAfter(events));
    if 0 in TableAfter(events) {
      IdsWithin(TableAfter(events));
      assert 0 in ids && |ids| == |ids - {0}| + 1;
    } else {
      FullTable(events);
      assert ids - {0} == ids;
    }
  }

  lemma {:induction false} IdsWithin(t: seq<u16>)
    ensures |Ids(t)| <= |t|
  {
    if t != [] {
      var front, last := t[..|t| - 1], t[|t| - 1];
      IdsWithin(front);
      assert t == front + [last];
      assert Ids(t) == Ids(front) + {last};
    }
  }

  /** A QoS 2 message is delivered exactly when its id is not held and fewer than twenty ids are; it is acknowledged in
      any case. */
  lemma DeliveredIff(events: seq<Event>, i: nat, id: u16)
    requires i < |events| && events[i].packet == Publish(2, id)
    ensures Delivers(events, i, id) <==> id !in TableAfter(events[..i]) && 0 in TableAfter(events[..i])
    ensures id != 0 ==>
              (Delivers(events, i, id) <==>
                !(exists k :: 0 <= k < i && HeldSince(events[..i], k, id)) && |HeldIds(events[..i])| < TABLE)
    ensures Cycle(TableAfter(events[..i]), events[i]).1.answer == PubrecFor(id)
  {
    hide HeldIds, TableAfter, HeldSince;
    FreeSlotIff(events[..i]);
    if id != 0 {
      HeldIff(events[..i], id);
    }
  }

  lemma HeldWithin(events: seq<Event>, i: nat, j: nat, id: u16)
    requires i < j <= |events| && Delivers(events, i, id) && forall k :: i < k < j ==> !Frees(events, k, id)
    ensures HeldSince(events[..j], i, id)
  {
    hide Cycle;
    assert events[..j][..i] == events[..i];
    forall k | i < k < j ensures !Frees(events[..j], k, id) {
      assert !Frees(events, k, id);
    }
  }

  /** Two deliveries under one id have a PUBREL between them that frees it. */
  lemma AtMostOnce(events: seq<Event>, i: nat, j: nat, id: u16)
    requires i < j < |events| && id != 0 && Delivers(events, i, id) && Delivers(events, j, id)
    ensures exists k :: i < k < j && Frees(events, k, id)
  {
    if forall k :: i < k < j ==> !Frees(events, k, id) {
      HeldWithin(events, i, j, id);
      HeldIff(events[..j], id);
      DeliveredIff(events, j, id);
      assert false;
    }
  }

  /** A PUBLISH that finds its id not held and fewer than twenty held is delivered, and none after it until the id is
      freed. */
  lemma ExactlyOnce(events: seq<Event>, i: nat, j: nat, id: u16)
    requires i < j < |events| && id != 0 && events[i].packet == Publish(2, id)
    requires !(exists k :: 0 <= k < i && HeldSince(events[..i], k, id)) && |HeldIds(events[..i])| < TABLE
    requires forall k :: i < k < j ==> !Frees(events, k, id)
    ensures Delivers(events, i, id) && !Delivers(events, j, id)
  {
    DeliveredIff(events, i, id);
    if Delivers(events, j, id) {
      AtMostOnce(events, i, j, id);
    }
  }

  /** What `cycle` did for event `i` of a run. */
  function EffectOf(events: seq<Event>, i: nat): Effect
    requires i < |events|
  {
    Cycle(TableAfter(events[..i]), events[i]).1
  }

  /** Sections 4.3.1 to 4.3.3 of MQTT 3.1.1: a message of QoS 0 or 1 is delivered whenever it arrives, the second with a
      PUBACK; QoS 2 is answered by PUBREC, PUBREL by PUBCOMP, and as a sender PUBREC by PUBREL, always with the same id.
      The call succeeds when the answer can be sent. */
  lemma Answers(events: seq<Event>, i: nat)
    requires i < |events|
    ensures var e, effect := events[i], EffectOf(events, i);
            && (forall id :: e.packet == Publish(0, id) ==> effect == Effect(true, NoAnswer, true))
            && (forall id :: e.packet == Publish(1, id) ==> effect == Effect(true, Puback(id), e.sendOk))
            && (forall id :: e.packet == Publish(2, id) ==> effect == Effect(effect.delivered, PubrecFor(id), e.sendOk))
            && (forall id :: e.packet == Pubrel(id) ==> effect == Effect(false, Pubcomp(id), e.sendOk))
            && (forall id :: e.packet == Pubrec(id) ==> effect == Effect(false, PubrelFor(id), e.sendOk))
            && (e.packet == MalformedPublish || e.packet == Other ==> effect == Effect(false, NoAnswer, true))
            && (e.packet == MalformedAck ==> effect == Effect(false, NoAnswer, false))
  {
    hide TableAfter;
  }

  /** How often a packet has arrived, and how often it has been delivered. */
  function Arrivals(events: seq<Event>, p: Packet): nat {
    if events == [] then 0
    else Arrivals(events[..|events| - 1], p) + if events[|events| - 1].packet == p then 1 else 0
  }

  function Deliveries(events: seq<Event>, p: Packet): nat {
    if events == [] then 0
    else
      var n := |events| - 1;
      Deliveries(events[..n], p) + if events[n].packet == p && EffectOf(events, n).delivered then 1 else 0
  }

  /** In every run a message of QoS 0 or 1 is delivered as often as it arrives. */
  lemma {:induction false} DeliveredAsArrived(events: seq<Event>, p: Packet)
    requires p.Publish? && p.qos < 2
    ensures Deliveries(events, p) == Arrivals(events, p)
  {
    hide EffectOf;
    if events != [] {
      DeliveredAsArrived(events[..|events| - 1], p);
      Answers(events, |events| - 1);
    }
  }

  /** An exchange with a sender that follows the standard: it repeats its PUBLISH, then its PUBREL until a PUBCOMP
      comes. The message is delivered by the first of them and by none of the others, and the id is released at the
      end. */
  lemma Exchange(events: seq<Event>, i: nat, j: nat, id: u16)
    requires i < j < |events| && id != 0 && events[i].packet == Publish(2, id)
    requires !(exists k :: 0 <= k < i && HeldSince(events[..i], k, id)) && |HeldIds(events[..i])| < TABLE
    requires events[j] == Event(Pubrel(id), true) && forall k :: i < k < j ==> !Frees(events, k, id)
    ensures Delivers(events, i, id) && forall k :: i < k <= j ==> !Delivers(events, k, id)
    ensures forall k :: i <= k < j && events[k].packet == Publish(2, id) ==> EffectOf(events, k).answer == PubrecFor(id)
    ensures EffectOf(events, j) == Effect(false, Pubcomp(id), true)
    ensures id !in TableAfter(events[..j + 1]) && id !in HeldIds(events[..j + 1])
  {
    hide Cycle, TableAfter, HeldIds, HeldSince, EffectOf;
    forall k | i < k <= j ensures !Delivers(events, k, id) {
      ExactlyOnce(events, i, k, id);
    }
    DeliveredIff(events, i, id);
    forall k | i <= k < j && events[k].packet == Publish(2, id) ensures EffectOf(events, k).answer == PubrecFor(id) {
      Answers(events, k);
    }
    Answers(events, j);
    Released(events, j, id);
  }

  lemma Released(events: seq<Event>, j: nat, id: u16)
    requires j < |events| && id != 0 && events[j] == Event(Pubrel(id), true)
    ensures id !in TableAfter(events[..j + 1]) && id !in HeldIds(events[..j + 1])
  {
    hide Cycle, HeldIds;
    assert events[..j + 1][..j] == events[..j];
    AlwaysDistinct(events[..j]);
    HeldStep(TableAfter(events[..j]), events[j], id);
    HeldInTable(events[..j + 1]);
  }

  /** The table never holds an id twice, so it is full only when twenty different ids are being received. */
  lemma FullTable(events: seq<Event>)
    requires 0 !in TableAfter(events)
    ensures |Ids(TableAfter(events))| == TABLE
  {
    hide TableAfter;
    AlwaysDistinct(events);
    var t := TableAfter(events);
    assert forall i, j :: 0 <= i < j < |t| ==> t[i] != t[j] by {
      forall i, j | 0 <= i < j < |t| ensures t[i] != t[j] {
        assert t[i] in t;
      }
    }
    SetOfDistinct(t);
  }

  function Ids(t: seq<u16>): set<u16> { set id | id in t }

  lemma {:induction false} SetOfDistinct(t: seq<u16>)
    requires forall i, j :: 0 <= i < j < |t| ==> t[i] != t[j]
    ensures |Ids(t)| == |t|
  {
    if t != [] {
      var front, last := t[..|t| - 1], t[|t| - 1];
      SetOfDistinct(front);
      IdsOfLast(t);
    }
  }

  lemma IdsOfLast(t: seq<u16>)
    requires t != [] && forall i, j :: 0 <= i < j < |t| ==> t[i] != t[j]
    ensures var front, last := t[..|t| - 1], t[|t| - 1];
            Ids(t) == Ids(front) + {last} && last !in Ids(front)
  {
    var front, last := t[..|t| - 1], t[|t| - 1];
    assert t == front + [last];
  }

  /** QoS 2 messages with the ids 1 to `n`. */
  function Filling(n: nat): (events: seq<Event>)
    requires n < 0x1_0000
    ensures |events| == n
  {
    if n == 0 then [] else Filling(n - 1) + [Event(Publish(2, n), true)]
  }

  lemma {:induction false} FillsTable(n: nat)
    requires n <= TABLE
    ensures TableAfter(Filling(n)) == seq(TABLE, i requires 0 <= i < TABLE => if i < n then i + 1 else 0)
  {
    if n > 0 {
      FillsTable(n - 1);
      var t := TableAfter(Filling(n - 1));
      assert Filling(n)[..n - 1] == Filling(n - 1);
      assert t[n - 1] == 0;
      FirstIs(t, 0, n - 1);
    }
  }

  /** The table does get full: the twenty-first message is acknowledged and never delivered. */
  lemma MessageLost()
    ensures var events := Filling(TABLE + 1);
            && Cycle(TableAfter(events[..TABLE]), events[TABLE]).1 == Effect(false, PubrecFor(21), true)
            && forall i :: 0 <= i < |events| ==> !Delivers(events, i, 21)
  {
    var events := Filling(TABLE + 1);
    FillsTable(TABLE);
    assert events[..TABLE] == Filling(TABLE);
    forall i | 0 <= i < |events| ensures !Delivers(events, i, 21) {
      FillingAt(TABLE + 1, i);
    }
  }

  lemma {:induction false} FillingAt(n: nat, i: nat)
    requires i < n < 0x1_0000
    ensures Filling(n)[i] == Event(Publish(2, i + 1), true)
  {
    if i < n - 1 {
      FillingAt(n - 1, i);
    }
  }
}
