/** PUBLISH, its acknowledgements and SUBSCRIBE: serializers and deserializers. */
module MqttPublish {
  import opened Prelude
  import opened MqttWire

  const TOO_SHORT := -2      // MQTTPACKET_BUFFER_TOO_SHORT
  const PUBLISH := 3
  const PUBREL := 6
  const SUBSCRIBE := 8

  type bit = x: int | 0 <= x < 2

  /** The header octet: type, dup, QoS, retain. */
  function Header(kind: nat, dup: bit, qos: nat, retained: bit): byte
    requires kind < 16 && qos < 4
  {
    16 * kind + 8 * dup + 2 * qos + retained
  }

  function TypeOf(h: byte): nat { h / 16 }

  function DupOf(h: byte): bit { h / 8 % 2 }

  function QosOf(h: byte): (q: nat)
    ensures q < 4
  {
    h / 2 % 4
  }

  function RetainOf(h: byte): bit { h % 2 }

  lemma HeaderParts(kind: nat, dup: bit, qos: nat, retained: bit)
    requires kind < 16 && qos < 4
    ensures var h := Header(kind, dup, qos, retained);
            TypeOf(h) == kind && DupOf(h) == dup && QosOf(h) == qos && RetainOf(h) == retained
  {
    var h := Header(kind, dup, qos, retained);
    assert h / 8 == 2 * kind + dup;
    assert h / 2 == 8 * kind + 4 * dup + qos;
  }

  /** Header, remaining length, the rest. */
  function Packet(header: byte, body: seq<byte>): (p: seq<byte>)
    ensures |p| == 1 + |Length(|body|)| + |body|
  {
    [header] + Length(|body|) + body
  }

  /** The check and the first two fields that every serializer starts with. */
  method Begin(buf: array<byte>, buflen: nat, header: byte, remLen: nat) returns (ptr: int)
    requires buflen <= buf.Length && remLen <= MAX_LENGTH
    modifies buf
    ensures PacketLen(remLen) > buflen ==> ptr == TOO_SHORT && buf[..] == old(buf[..])
    ensures PacketLen(remLen) <= buflen ==>
              && ptr == 1 + |Length(remLen)| && ptr + remLen <= buflen
              && buf[..] == [header] + Length(remLen) + old(buf[ptr..])
  {
    hide Length, PacketLen;
    PacketLenExact(remLen);
    if PacketLen(remLen) > buflen {
      return TOO_SHORT;
    }
    ptr := Put(buf, 0, [header]);
    var n := Encode(buf, 1, remLen);
    ptr := 1 + n;
  }

  /** The remaining length of a packet in `buf`, and where the rest starts. */
  lemma PacketParts(buf: seq<byte>, header: byte, body: seq<byte>)
    requires Here(buf, 0, Packet(header, body)) && |body| <= MAX_LENGTH
    ensures Byte(buf, 0) == header && DecodeFrom(buf, 1, 0, 0, 1) == (|Length(|body|)|, |body|)
    ensures Here(buf, 1 + |Length(|body|)|, body)
  {
    hide Length, DecodeFrom;
    var l := Length(|body|);
    HereByte(buf, 0, Packet(header, body), 0);
    HereSplit(buf, 0, [header] + l, body);
    HereSplit(buf, 0, [header], l);
    LengthSize(|body|);
    DecodesLength(buf, 1, |body|, 0, 0, 1);
  }

  // ---------------------------------------------------------------- PUBLISH

  datatype Publish = Publish(dup: bit, qos: nat, retained: bit, packetId: u16, topic: seq<byte>, payload: seq<byte>)

  predicate ValidPublish(p: Publish) { p.qos < 4 && |p.topic| < 0x1_0000 && |PublishBody(p)| <= MAX_LENGTH }

  function PublishBody(p: Publish): seq<byte> {
    Str(p.topic) + ((if p.qos > 0 then Int16(p.packetId) else []) + p.payload)
  }

  function PublishPacket(p: Publish): seq<byte>
    requires ValidPublish(p)
  {
    Packet(Header(PUBLISH, p.dup, p.qos, p.retained), PublishBody(p))
  }

  /** `MQTTSerialize_publishLength`. */
  function PublishLength(qos: nat, topicName: MqttString, payloadLen: nat): nat {
    2 + StrLen(topicName) + payloadLen + if qos > 0 then 2 else 0
  }

  /** `MQTTSerialize_publish`. */
  method SerializePublish(buf: array<byte>, buflen: nat, p: Publish, topicName: MqttString) returns (rc: int)
    requires buflen <= buf.Length && ValidPublish(p)
    requires Content(topicName) == p.topic && StrLen(topicName) == |p.topic|
    modifies buf
    ensures if PacketLen(|PublishBody(p)|) > buflen then rc == TOO_SHORT && buf[..] == old(buf[..])
            else
              && rc == |PublishPacket(p)| <= buflen
              && buf[..rc] == PublishPacket(p) && buf[rc..] == old(buf[rc..])
  {
    hide Length, PacketLen, Content, StrLen, Header, Str, Int16, PublishBody, PublishPacket;
    PublishParts(p);
    var remLen := PublishLength(p.qos, topicName, |p.payload|);
    var header := Header(PUBLISH, p.dup, p.qos, p.retained);
    ghost var b0 := buf[..];
    var ptr := Begin(buf, buflen, header, remLen);
    if ptr == TOO_SHORT {
      return TOO_SHORT;
    }
    ghost var done := [header] + Length(remLen);
    ptr := Append(buf, ptr, Str(Content(topicName)), b0, done);
    done := done + Str(p.topic);
    if p.qos > 0 {
      ptr := Append(buf, ptr, Int16(p.packetId), b0, done);
      done := done + Int16(p.packetId);
    }
    ptr := Append(buf, ptr, p.payload, b0, done);
    rc := ptr;
  }

  lemma PublishParts(p: Publish)
    requires ValidPublish(p)
    ensures |PublishBody(p)| == 2 + |p.topic| + |p.payload| + if p.qos > 0 then 2 else 0
    ensures PublishPacket(p)
         == [Header(PUBLISH, p.dup, p.qos, p.retained)] + Length(|PublishBody(p)|) + Str(p.topic)
            + (if p.qos > 0 then Int16(p.packetId) else []) + p.payload
  {
    hide Length, Header, Int16;
  }

  /** The fields a deserialized PUBLISH sets. */
  datatype PublishFields = PublishFields(dup: bit, qos: nat, retained: bit, packetId: Option<nat>, topic: seq<byte>,
                                         payloadLen: int, payload: seq<byte>)

  /** The buffer holds the octets the length field speaks of. */
  predicate Complete(buf: seq<byte>) {
    var (len, value) := DecodeFrom(buf, 1, 0, 0, 1);
    1 + len + value <= |buf|
  }

  /** What MQTTDeserialize_publish returns, and the fields when it sets them all. A topic that cannot be read leaves
      the size of the length field as the return code. */
  function ParsePublish(buf: seq<byte>): (int, Option<PublishFields>)
    requires Complete(buf)
  {
    var header := Byte(buf, 0);
    if TypeOf(header) != PUBLISH then (0, None)
    else
      var (len, value) := DecodeFrom(buf, 1, 0, 0, 1);
      var end := 1 + len + value;
      match ReadString(buf, 1 + len, end)
      case None => (len, None)
      case Some((topic, pos)) =>
        var qos := QosOf(header);
        var cur := if qos > 0 then pos + 2 else pos;
        (1, Some(PublishFields(DupOf(header), qos, RetainOf(header), if qos > 0 then Some(ReadInt(buf, pos)) else None,
                               topic, end - cur, if cur <= end then buf[cur..end] else [])))
  }

  /** `MQTTDeserialize_publish`. */
  method DeserializePublish(buf: seq<byte>) returns (rc: int, fields: Option<PublishFields>)
    requires Complete(buf)
    ensures (rc, fields) == ParsePublish(buf)
  {
    hide DecodeFrom, Byte, TypeOf, DupOf, QosOf, RetainOf, ReadInt;
    var curdata: nat := 0;
    var header := Byte(buf, curdata);
    curdata := curdata + 1;
    if TypeOf(header) != PUBLISH {
      return 0, None;
    }
    var dup, qos, retained := DupOf(header), QosOf(header), RetainOf(header);
    var len, mylen := DecodeBuf(buf, curdata);
    curdata := curdata + len;
    var enddata := curdata + mylen;
    var read := ReadString(buf, curdata, enddata);
    if read == None {
      return len, None;
    }
    curdata := read.value.1;
    var packetId := None;
    if qos > 0 {
      packetId := Some(ReadInt(buf, curdata));
      curdata := curdata + 2;
    }
    var payload := if curdata <= enddata then buf[curdata..enddata] else [];
    return 1, Some(PublishFields(dup, qos, retained, packetId, read.value.0, enddata - curdata, payload));
  }

  lemma ValidIff(p: Publish)
    ensures ValidPublish(p)
       <==> p.qos < 4 && |p.topic| < 0x1_0000
            && 2 + |p.topic| + |p.payload| + (if p.qos > 0 then 2 else 0) <= 268435455
  {
  }

  /** Section 3.3 of MQTT 3.1.1, octet by octet. */
  lemma PublishOctets(p: Publish)
    requires ValidPublish(p)
    ensures var t := |p.topic|;
            var body := [t / 256, t % 256] + p.topic
                        + (if p.qos > 0 then [p.packetId / 256, p.packetId % 256] else []) + p.payload;
            && PublishPacket(p) == [0x30 + 8 * p.dup + 2 * p.qos + p.retained] + Length(|body|) + body
  {
    hide Length;
    var t := |p.topic|;
    var rest := (if p.qos > 0 then [p.packetId / 256, p.packetId % 256] else []) + p.payload;
    assert Str(p.topic) == [t / 256, t % 256] + p.topic;
    assert PublishBody(p) == [t / 256, t % 256] + p.topic + rest;
    assert PublishBody(p) == [t / 256, t % 256] + p.topic
                             + (if p.qos > 0 then [p.packetId / 256, p.packetId % 256] else []) + p.payload;
  }

  /** Every PUBLISH comes back. */
  lemma PublishRoundTrip(buf: seq<byte>, p: Publish)
    requires ValidPublish(p) && Here(buf, 0, PublishPacket(p))
    ensures Complete(buf)
    ensures var packetId := if p.qos > 0 then Some(p.packetId) else None;
            ParsePublish(buf)
              == (1, Some(PublishFields(p.dup, p.qos, p.retained, packetId, p.topic, |p.payload|, p.payload)))
  {
    hide Length, DecodeFrom, Here, ReadString, ReadInt, Byte, Header, TypeOf, DupOf, QosOf, RetainOf;
    var header, body := Header(PUBLISH, p.dup, p.qos, p.retained), PublishBody(p);
    PacketParts(buf, header, body);
    HeaderParts(PUBLISH, p.dup, p.qos, p.retained);
    var start := 1 + |Length(|body|)|;
    var rest := (if p.qos > 0 then Int16(p.packetId) else []) + p.payload;
    HereInside(buf, start, body);
    HereSplit(buf, start, Str(p.topic), rest);
    ReadsString(buf, start, p.topic, start + |body|);
    var pos := start + 2 + |p.topic|;
    if p.qos > 0 {
      HereSplit(buf, pos, Int16(p.packetId), p.payload);
      ReadsInt(buf, pos, p.packetId);
      HereInside(buf, pos + 2, p.payload);
    } else {
      assert [] + p.payload == p.payload;
      HereInside(buf, pos, p.payload);
    }
  }

  lemma HereInside(buf: seq<byte>, pos: nat, data: seq<byte>)
    requires Here(buf, pos, data)
    ensures pos + |data| <= |buf| && buf[pos..pos + |data|] == data
  {
  }

  /** A PUBLISH whose topic cannot be read is reported as success exactly when the length field is a single octet, that
      is, for these buffers. */
  lemma PublishFailure(buf: seq<byte>)
    requires Complete(buf)
    ensures ParsePublish(buf).1 == None ==>
              (ParsePublish(buf).0 == 1 <==> TypeOf(Byte(buf, 0)) == PUBLISH && Byte(buf, 1) < 128)
    ensures ParsePublish(buf) == (1, None)
       <==> && TypeOf(Byte(buf, 0)) == PUBLISH && Byte(buf, 1) < 128
            && (Byte(buf, 1) < 2 || 2 + ReadInt(buf, 2) > Byte(buf, 1))
  {
    hide TypeOf, ReadInt;
    DecodeStep(buf, 1, 0, 0, 1);
    LongerLength(buf, 2, 1, Byte(buf, 1) as int % 128, 128);
  }

  /** A PUBLISH without a topic, an acknowledgement without an id, a SUBSCRIBE without a filter's text. */
  lemma ShortPackets()
    ensures Complete([0x30, 0]) && ParsePublish([0x30, 0]) == (1, None)
    ensures ParseAck([0x40, 0]) == (1, 4, 0, None)
    ensures Complete([0x82, 3, 0, 1, 0]) && ParseSubscribe([0x82, 3, 0, 1, 0]) == (1, None)
  {
    DecodeStep([0x30, 0], 1, 0, 0, 1);
    DecodeStep([0x40, 0], 1, 0, 0, 1);
    DecodeStep([0x82, 3, 0, 1, 0], 1, 0, 0, 1);
  }

  lemma {:induction false} LongerLength(buf: seq<byte>, pos: nat, len: nat, value: nat, multiplier: nat)
    requires len <= 4
    ensures DecodeFrom(buf, pos, len, value, multiplier).0 > len
    decreases 4 - len
  {
    DecodeStep(buf, pos, len, value, multiplier);
    if len < 4 {
      LongerLength(buf, pos + 1, len + 1, value + Byte(buf, pos) as int % 128 * multiplier, multiplier * 128);
    }
  }

  // ---------------------------------------------------------------- acknowledgements

  function AckPacket(kind: nat, dup: bit, packetId: u16): seq<byte>
    requires kind < 16
  {
    Packet(Header(kind, dup, if kind == PUBREL then 1 else 0, 0), Int16(packetId))
  }

  /** Sections 3.4 to 3.7: PUBACK is 4, PUBREC 5, PUBREL 6 with the flags 2, and PUBCOMP 7. */
  lemma AckOctets(kind: nat, dup: bit, id: u16)
    requires 4 <= kind <= 7
    ensures AckPacket(kind, dup, id) == [16 * kind + 8 * dup + (if kind == 6 then 2 else 0), 2, id / 256, id % 256]
  {
    ShortLength(2);
  }

  /** `MQTTSerialize_ack`. */
  method SerializeAck(buf: array<byte>, buflen: nat, kind: nat, dup: bit, packetId: u16) returns (rc: int)
    requires buflen <= buf.Length && kind < 16
    modifies buf
    ensures if buflen < 4 then rc == TOO_SHORT && buf[..] == old(buf[..])
            else rc == 4 && buf[..4] == AckPacket(kind, dup, packetId) && buf[4..] == old(buf[4..])
  {
    hide Int16, Header;
    if buflen < 4 {
      return TOO_SHORT;
    }
    ghost var b0 := buf[..];
    var header := Header(kind, dup, if kind == PUBREL then 1 else 0, 0);
    var ptr := Put(buf, 0, [header]);
    ghost var b1 := buf[..];
    var n := Encode(buf, ptr, 2);
    ptr := ptr + n;
    assert b1[..1] == [header] && b1[ptr..] == b0[ptr..];
    assert buf[..] == [header] + Length(2) + b0[ptr..];
    ptr := Append(buf, ptr, Int16(packetId), b0, [header] + Length(2));
    rc := ptr;
  }

  /** What MQTTDeserialize_ack returns: the code, type and dup, and the id when it is set. */
  function ParseAck(buf: seq<byte>): (int, nat, bit, Option<nat>) {
    var header := Byte(buf, 0);
    var (len, value) := DecodeFrom(buf, 1, 0, 0, 1);
    if value < 2 then (len, TypeOf(header), DupOf(header), None)
    else (1, TypeOf(header), DupOf(header), Some(ReadInt(buf, 1 + len)))
  }

  /** `MQTTDeserialize_ack`. */
  method DeserializeAck(buf: seq<byte>) returns (rc: int, kind: nat, dup: bit, packetId: Option<nat>)
    ensures (rc, kind, dup, packetId) == ParseAck(buf)
  {
    hide DecodeFrom, Byte, TypeOf, DupOf, ReadInt;
    var header := Byte(buf, 0);
    dup, kind := DupOf(header), TypeOf(header);
    var len, mylen := DecodeBuf(buf, 1);
    rc := len;
    var curdata := 1 + len;
    var enddata := curdata + mylen;
    if enddata - curdata < 2 {
      return rc, kind, dup, None;
    }
    return 1, kind, dup, Some(ReadInt(buf, curdata));
  }

  /** An acknowledgement too short for its id is reported as success exactly when the length field is a single octet,
      that is, 0 or 1. */
  lemma AckFailure(buf: seq<byte>)
    ensures ParseAck(buf).3 == None ==> (ParseAck(buf).0 == 1 <==> Byte(buf, 1) < 128)
    ensures ParseAck(buf).0 == 1 && ParseAck(buf).3 == None <==> Byte(buf, 1) < 2
  {
    hide ReadInt;
    DecodeStep(buf, 1, 0, 0, 1);
    LongerLength(buf, 2, 1, Byte(buf, 1) as int % 128, 128);
  }

  /** Every acknowledgement comes back. */
  lemma AckRoundTrip(buf: seq<byte>, kind: nat, dup: bit, packetId: u16)
    requires kind < 16 && Here(buf, 0, AckPacket(kind, dup, packetId))
    ensures ParseAck(buf) == (1, kind, dup, Some(packetId))
  {
    hide DecodeFrom, Byte, TypeOf, DupOf, ReadInt, Header;
    var qos := if kind == PUBREL then 1 else 0;
    PacketParts(buf, Header(kind, dup, qos, 0), Int16(packetId));
    HeaderParts(kind, dup, qos, 0);
    ReadsInt(buf, 2, packetId);
  }

  // ---------------------------------------------------------------- SUBSCRIBE

  datatype Filter = Filter(topic: seq<byte>, qos: byte)

  function Filters(filters: seq<Filter>): seq<byte> {
    if filters == [] then []
    else Filters(filters[..|filters| - 1]) + (Str(filters[|filters| - 1].topic) + [filters[|filters| - 1].qos])
  }

  predicate ValidFilters(filters: seq<Filter>) {
    && (forall i :: 0 <= i < |filters| ==> |filters[i].topic| < 0x1_0000 && filters[i].qos < 128)
    && 2 + |Filters(filters)| <= MAX_LENGTH
  }

  function SubscribePacket(dup: bit, packetId: u16, filters: seq<Filter>): seq<byte> {
    Packet(Header(SUBSCRIBE, dup, 1, 0), Int16(packetId) + Filters(filters))
  }

  /** Section 3.8, octet by octet. */
  lemma SubscribeOctets(dup: bit, id: u16, filters: seq<Filter>)
    ensures var body := [id / 256, id % 256] + Filters(filters);
            SubscribePacket(dup, id, filters) == [0x82 + 8 * dup] + Length(|body|) + body
    ensures forall i :: 0 <= i < |filters| ==>
              var t := |filters[i].topic|;
              Filters(filters[..i + 1])
              == Filters(filters[..i]) + ([t / 256 % 256, t % 256] + filters[i].topic + [filters[i].qos])
  {
    hide Length;
    forall i | 0 <= i < |filters|
      ensures var t := |filters[i].topic|;
              Filters(filters[..i + 1])
              == Filters(filters[..i]) + ([t / 256 % 256, t % 256] + filters[i].topic + [filters[i].qos])
    {
      FiltersStep(filters, i);
    }
  }

  lemma FiltersStep(filters: seq<Filter>, i: nat)
    requires i < |filters|
    ensures Filters(filters[..i + 1]) == Filters(filters[..i]) + (Str(filters[i].topic) + [filters[i].qos])
    ensures |Filters(filters[..i + 1])| <= |Filters(filters)|
    decreases |filters| - i
  {
    assert filters[..i + 1][..i] == filters[..i];
    if i + 1 < |filters| {
      FiltersStep(filters, i + 1);
    } else {
      assert filters[..i + 1] == filters;
    }
  }

  /** The topic filter arguments hold the contents of `filters`. */
  ghost predicate Holds(topicFilters: seq<MqttString>, filters: seq<Filter>) {
    && |topicFilters| == |filters|
    && forall i :: 0 <= i < |filters| ==>
         Content(topicFilters[i]) == filters[i].topic && StrLen(topicFilters[i]) == |filters[i].topic|
  }

  /** `MQTTSerialize_subscribeLength`. */
  method SubscribeLength(topicFilters: seq<MqttString>, ghost filters: seq<Filter>) returns (len: nat)
    requires Holds(topicFilters, filters)
    ensures len == 2 + |Filters(filters)|
  {
    hide StrLen, Content;
    len := 2;
    assert filters[..0] == [];
    for i := 0 to |topicFilters|
      invariant len == 2 + |Filters(filters[..i])|
    {
      FiltersStep(filters, i);
      len := len + (2 + StrLen(topicFilters[i]) + 1);
    }
    assert filters[..|filters|] == filters;
  }

  /** `MQTTSerialize_subscribe`. */
  method SerializeSubscribe(buf: array<byte>, buflen: nat, dup: bit, packetId: u16, topicFilters: seq<MqttString>,
                            requestedQoSs: seq<byte>, ghost filters: seq<Filter>)
    returns (rc: int)
    requires buflen <= buf.Length && Holds(topicFilters, filters) && ValidFilters(filters)
    requires |requestedQoSs| == |filters| && forall i :: 0 <= i < |filters| ==> requestedQoSs[i] == filters[i].qos
    modifies buf
    ensures var p := SubscribePacket(dup, packetId, filters);
            if PacketLen(2 + |Filters(filters)|) > buflen then rc == TOO_SHORT && buf[..] == old(buf[..])
            else rc == |p| <= buflen && buf[..rc] == p && buf[rc..] == old(buf[rc..])
  {
    hide Length, PacketLen, Content, StrLen, Header, Str, Int16, Filters, SubscribePacket, Holds, ValidFilters;
    SubscribeParts(dup, packetId, filters);
    HeldCount(topicFilters, filters);
    var remLen := SubscribeLength(topicFilters, filters);
    ghost var b0 := buf[..];
    var header := Header(SUBSCRIBE, dup, 1, 0);
    var ptr := Begin(buf, buflen, header, remLen);
    if ptr == TOO_SHORT {
      return TOO_SHORT;
    }
    ghost var start := [header] + Length(remLen);
    ptr := Append(buf, ptr, Int16(packetId), b0, start);
    start := start + Int16(packetId);
    NoFilters(filters);
    assert start + [] == start;
    for i := 0 to |topicFilters|
      invariant ptr == |start| + |Filters(filters[..i])| <= |start| + |Filters(filters)| <= buflen
      invariant buf[..] == start + Filters(filters[..i]) + b0[ptr..]
    {
      FiltersStep(filters, i);
      FilterHeld(topicFilters, filters, i);
      ptr := AppendFilter(buf, ptr, topicFilters[i], requestedQoSs[i], filters[i], b0, start + Filters(filters[..i]));
      assert start + Filters(filters[..i]) + (Str(filters[i].topic) + [filters[i].qos])
          == start + Filters(filters[..i + 1]);
    }
    assert filters[..|filters|] == filters;
    rc := ptr;
  }

  lemma SubscribeParts(dup: bit, packetId: u16, filters: seq<Filter>)
    requires ValidFilters(filters)
    ensures 2 + |Filters(filters)| <= MAX_LENGTH
    ensures SubscribePacket(dup, packetId, filters)
         == [Header(SUBSCRIBE, dup, 1, 0)] + Length(2 + |Filters(filters)|) + Int16(packetId) + Filters(filters)
  {
    hide Length, Header, Int16, Filters;
  }

  lemma HeldCount(topicFilters: seq<MqttString>, filters: seq<Filter>)
    requires Holds(topicFilters, filters)
    ensures |topicFilters| == |filters|
  {
  }

  lemma FilterHeld(topicFilters: seq<MqttString>, filters: seq<Filter>, i: nat)
    requires Holds(topicFilters, filters) && ValidFilters(filters) && i < |filters|
    ensures |topicFilters| == |filters| && Content(topicFilters[i]) == filters[i].topic && |filters[i].topic| < 0x1_0000
  {
  }

  /** One turn of the loop: a filter and its QoS. */
  method AppendFilter(buf: array<byte>, ptr: nat, topicFilter: MqttString, requestedQoS: byte, ghost filter: Filter,
                      ghost b0: seq<byte>, ghost done: seq<byte>)
    returns (end: nat)
    requires Content(topicFilter) == filter.topic && |filter.topic| < 0x1_0000 && requestedQoS == filter.qos
    requires |done| == ptr && ptr + |Str(filter.topic)| + 1 <= buf.Length == |b0| && buf[..] == done + b0[ptr..]
    modifies buf
    ensures end == ptr + |Str(filter.topic)| + 1
    ensures buf[..] == done + (Str(filter.topic) + [filter.qos]) + b0[end..]
  {
    hide Content, Str;
    end := Append(buf, ptr, Str(Content(topicFilter)), b0, done);
    end := Append(buf, end, [requestedQoS], b0, done + Str(filter.topic));
    assert done + Str(filter.topic) + [filter.qos] == done + (Str(filter.topic) + [filter.qos]);
  }

  lemma NoFilters(filters: seq<Filter>)
    ensures Filters(filters[..0]) == []
  {
  }

  /** The filters from `pos` to `end`, or None if something is cut short. */
  function ParseFilters(buf: seq<byte>, pos: nat, end: nat): Option<seq<Filter>>
    requires end <= |buf|
    decreases end - pos
  {
    if pos >= end then Some([])
    else
      match ReadString(buf, pos, end)
      case None => None
      case Some((topic, next)) =>
        if next >= end then None
        else
          match ParseFilters(buf, next + 1, end)
          case None => None
          case Some(rest) => Some([Filter(topic, Byte(buf, next))] + rest)
  }

  /** What MQTTDeserialize_subscribe returns, and dup, packet id and filters when it reads them all. */
  function ParseSubscribe(buf: seq<byte>): (int, Option<(bit, nat, seq<Filter>)>)
    requires Complete(buf)
  {
    if TypeOf(Byte(buf, 0)) != SUBSCRIBE then (-1, None)
    else
      var (len, value) := DecodeFrom(buf, 1, 0, 0, 1);
      match ParseFilters(buf, 1 + len + 2, 1 + len + value)
      case None => (len, None)
      case Some(filters) => (1, Some((DupOf(Byte(buf, 0)), ReadInt(buf, 1 + len), filters)))
  }

  /** What is left to read from `pos` on completes `filters` to the filters from `start` on. */
  ghost predicate FiltersRead(buf: seq<byte>, start: nat, pos: nat, end: nat, filters: seq<Filter>)
    requires end <= |buf|
  {
    var all, rest := ParseFilters(buf, start, end), ParseFilters(buf, pos, end);
    if rest == None then all == None else all == Some(filters + rest.value)
  }

  lemma NoneRead(buf: seq<byte>, start: nat, end: nat)
    requires end <= |buf|
    ensures FiltersRead(buf, start, start, end, [])
  {
    hide ParseFilters;
    var all := ParseFilters(buf, start, end);
    assert all.Some? ==> [] + all.value == all.value;
  }

  lemma OneRead(buf: seq<byte>, start: nat, pos: nat, end: nat, filters: seq<Filter>, f: Filter, next: nat)
    requires pos < end <= |buf| && FiltersRead(buf, start, pos, end, filters)
    requires ReadString(buf, pos, end) == Some((f.topic, next)) && next < end && Byte(buf, next) == f.qos
    ensures FiltersRead(buf, start, next + 1, end, filters + [f])
  {
    hide ReadString, Byte;
    var rest := ParseFilters(buf, next + 1, end);
    assert rest.Some? ==> filters + ([f] + rest.value) == filters + [f] + rest.value;
  }

  lemma AllRead(buf: seq<byte>, start: nat, pos: nat, end: nat, filters: seq<Filter>)
    requires end <= |buf| && end <= pos && FiltersRead(buf, start, pos, end, filters)
    ensures ParseFilters(buf, start, end) == Some(filters)
  {
    assert filters + [] == filters;
  }

  lemma CutShort(buf: seq<byte>, start: nat, pos: nat, end: nat, filters: seq<Filter>)
    requires pos < end <= |buf| && FiltersRead(buf, start, pos, end, filters)
    requires var r := ReadString(buf, pos, end); r == None || r.value.1 >= end
    ensures ParseFilters(buf, start, end) == None
  {
    hide ReadString, Byte;
  }

  /** `MQTTDeserialize_subscribe`; the arrays it fills are large enough. */
  method DeserializeSubscribe(buf: seq<byte>) returns (rc: int, fields: Option<(bit, nat, seq<Filter>)>)
    requires Complete(buf)
    ensures (rc, fields) == ParseSubscribe(buf)
  {
    hide DecodeFrom, Byte, TypeOf, DupOf, ReadInt, ReadString, ParseFilters, FiltersRead;
    var header := Byte(buf, 0);
    if TypeOf(header) != SUBSCRIBE {
      return -1, None;
    }
    var len, mylen := DecodeBuf(buf, 1);
    var curdata := 1 + len;
    var enddata := curdata + mylen;
    var packetId := ReadInt(buf, curdata);
    curdata := curdata + 2;
    var filters: seq<Filter> := [];
    ghost var start := curdata;
    NoneRead(buf, start, enddata);
    while curdata < enddata
      invariant FiltersRead(buf, start, curdata, enddata, filters)
      decreases if curdata < enddata then enddata - curdata else 0
    {
      var read := ReadString(buf, curdata, enddata);
      if read == None || read.value.1 >= enddata {
        CutShort(buf, start, curdata, enddata, filters);
        return len, None;
      }
      var filter := Filter(read.value.0, Byte(buf, read.value.1));
      OneRead(buf, start, curdata, enddata, filters, filter, read.value.1);
      filters := filters + [filter];
      curdata := read.value.1 + 1;
    }
    AllRead(buf, start, curdata, enddata, filters);
    return 1, Some((DupOf(header), packetId, filters));
  }

  /** The filters in the order of the packet, first one first. */
  function FiltersFrom(filters: seq<Filter>): seq<byte> {
    if filters == [] then [] else Str(filters[0].topic) + ([filters[0].qos] + FiltersFrom(filters[1..]))
  }

  lemma {:induction false} FiltersAre(filters: seq<Filter>)
    ensures Filters(filters) == FiltersFrom(filters)
  {
    hide Str;
    if |filters| > 1 {
      var n := |filters| - 1;
      FiltersAre(filters[..n]);
      FiltersAre(filters[1..]);
      assert filters[1..][..n - 1] == filters[..n][1..];
      FiltersAre(filters[1..][..n - 1]);
    } else if |filters| == 1 {
      assert filters[..0] == [] && filters[1..] == [];
    }
  }

  lemma {:induction false} FiltersRoundTrip(buf: seq<byte>, pos: nat, filters: seq<Filter>, end: nat)
    requires Here(buf, pos, FiltersFrom(filters)) && end == pos + |FiltersFrom(filters)|
    requires forall i :: 0 <= i < |filters| ==> |filters[i].topic| < 0x1_0000
    ensures ParseFilters(buf, pos, end) == Some(filters)
    decreases |filters|
  {
    hide Here, ReadString, Byte, Str;
    HereInside(buf, pos, FiltersFrom(filters));
    if filters != [] {
      var f, rest := filters[0], FiltersFrom(filters[1..]);
      HereSplit(buf, pos, Str(f.topic), [f.qos] + rest);
      ReadsString(buf, pos, f.topic, end);
      var next := pos + 2 + |f.topic|;
      HereSplit(buf, next, [f.qos], rest);
      HereByte(buf, next, [f.qos], 0);
      FiltersRoundTrip(buf, next + 1, filters[1..], end);
      assert [f] + filters[1..] == filters;
    }
  }

  /** The octets from `pos` to `end` are not those of any filters. */
  ghost predicate NotFilters(buf: seq<byte>, pos: nat, end: nat) {
    pos < end <= |buf| && forall filters :: ShortTopics(filters) ==> FiltersFrom(filters) != buf[pos..end]
  }

  predicate ShortTopics(filters: seq<Filter>) { forall i :: 0 <= i < |filters| ==> |filters[i].topic| < 0x1_0000 }

  lemma ReadsBack(buf: seq<byte>, pos: nat, end: nat)
    requires end <= |buf| && ReadString(buf, pos, end).Some?
    ensures var (topic, next) := ReadString(buf, pos, end).value;
            |topic| < 0x1_0000 && buf[pos..next] == Str(topic)
  {
    var (topic, next) := ReadString(buf, pos, end).value;
    assert buf[pos..next] == [buf[pos], buf[pos + 1]] + buf[pos + 2..next];
  }

  lemma {:induction false} ParsedFilters(buf: seq<byte>, pos: nat, end: nat)
    requires pos <= end <= |buf| && ParseFilters(buf, pos, end).Some?
    ensures var filters := ParseFilters(buf, pos, end).value;
            ShortTopics(filters) && FiltersFrom(filters) == buf[pos..end]
    decreases end - pos
  {
    hide ReadString, Str;
    if pos < end {
      var (topic, next) := ReadString(buf, pos, end).value;
      ReadsBack(buf, pos, end);
      ParsedFilters(buf, next + 1, end);
      var rest := ParseFilters(buf, next + 1, end).value;
      assert ([Filter(topic, buf[next])] + rest)[1..] == rest;
      assert buf[pos..end] == buf[pos..next] + ([buf[next]] + buf[next + 1..end]);
    }
  }

  lemma FiltersCut(buf: seq<byte>, pos: nat, end: nat)
    requires end <= |buf|
    ensures ParseFilters(buf, pos, end) == None <==> NotFilters(buf, pos, end)
  {
    hide ParseFilters, FiltersFrom;
    if pos < end {
      if ParseFilters(buf, pos, end) == None {
        forall filters | ShortTopics(filters) ensures FiltersFrom(filters) != buf[pos..end] {
          if FiltersFrom(filters) == buf[pos..end] {
            FiltersRoundTrip(buf, pos, filters, end);
          }
        }
      } else {
        ParsedFilters(buf, pos, end);
      }
    } else {
      NothingToParse(buf, pos, end);
    }
  }

  lemma NothingToParse(buf: seq<byte>, pos: nat, end: nat)
    requires end <= |buf| && end <= pos
    ensures ParseFilters(buf, pos, end) == Some([])
  {
  }

  /** A SUBSCRIBE cut short within a filter is reported as success exactly when the length field is a single octet, that
      is, when the octets behind the packet id are not those of any filters. */
  lemma SubscribeFailure(buf: seq<byte>)
    requires Complete(buf)
    ensures ParseSubscribe(buf).1 == None ==>
              (ParseSubscribe(buf).0 == 1 <==> TypeOf(Byte(buf, 0)) == SUBSCRIBE && Byte(buf, 1) < 128)
    ensures ParseSubscribe(buf) == (1, None)
       <==> && TypeOf(Byte(buf, 0)) == SUBSCRIBE && Byte(buf, 1) < 128 && NotFilters(buf, 4, 2 + Byte(buf, 1))
  {
    hide ParseFilters, TypeOf, NotFilters;
    if 2 + Byte(buf, 1) <= |buf| {
      FiltersCut(buf, 4, 2 + Byte(buf, 1));
    }
    DecodeStep(buf, 1, 0, 0, 1);
    LongerLength(buf, 2, 1, Byte(buf, 1) as int % 128, 128);
  }

  /** Every SUBSCRIBE comes back, with any number of filters. */
  lemma SubscribeRoundTrip(buf: seq<byte>, dup: bit, packetId: u16, filters: seq<Filter>)
    requires ValidFilters(filters) && Here(buf, 0, SubscribePacket(dup, packetId, filters))
    ensures Complete(buf) && ParseSubscribe(buf) == (1, Some((dup, packetId, filters)))
  {
    hide Length, DecodeFrom, Here, ReadString, ReadInt, Byte, Header, TypeOf, DupOf, Filters, FiltersFrom, ParseFilters;
    var header, body := Header(SUBSCRIBE, dup, 1, 0), Int16(packetId) + Filters(filters);
    PacketParts(buf, header, body);
    HeaderParts(SUBSCRIBE, dup, 1, 0);
    var start := 1 + |Length(|body|)|;
    HereInside(buf, start, body);
    HereSplit(buf, start, Int16(packetId), Filters(filters));
    ReadsInt(buf, start, packetId);
    FiltersAre(filters);
    FiltersRoundTrip(buf, start + 2, filters, start + |body|);
  }
}
