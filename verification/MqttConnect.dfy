/** CONNECT (MQTTConnectClient.c and MQTTConnectServer.c). */
module MqttConnect {
  import opened Prelude
  import opened MqttWire
  import opened MqttPublish

  const CONNECT := 1
  const MQISDP: seq<byte> := [0x4D, 0x51, 0x49, 0x73, 0x64, 0x70]
  const MQTT: seq<byte> := [0x4D, 0x51, 0x54, 0x54]

  datatype Will = Will(topic: seq<byte>, message: seq<byte>, qos: nat, retained: bit)

  /** The options of a connection, by content. */
  datatype Options = Options(version: byte, clientId: seq<byte>, keepAlive: u16, clean: bit, will: Option<Will>,
                             username: Option<seq<byte>>, password: Option<seq<byte>>)

  // ---------------------------------------------------------------- the flags octet

  function Flags(clean: bit, will: Option<(nat, bit)>, password: bool, username: bool): (f: byte)
    requires will.Some? ==> will.value.0 < 4
  {
    2 * clean + (if will.Some? then 4 + 8 * will.value.0 + 32 * will.value.1 else 0)
    + (if password then 64 else 0) + (if username then 128 else 0)
  }

  function CleanOf(f: byte): bit { f / 2 % 2 }

  predicate WillOf(f: byte) { f / 4 % 2 == 1 }

  function WillQosOf(f: byte): nat { f / 8 % 4 }

  function WillRetainOf(f: byte): bit { f / 32 % 2 }

  predicate PasswordOf(f: byte) { f / 64 % 2 == 1 }

  predicate UsernameOf(f: byte) { f / 128 % 2 == 1 }

  lemma FlagParts(clean: bit, will: Option<(nat, bit)>, password: bool, username: bool)
    requires will.Some? ==> will.value.0 < 4
    ensures var f := Flags(clean, will, password, username);
            && CleanOf(f) == clean && PasswordOf(f) == password && UsernameOf(f) == username && WillOf(f) == will.Some?
            && (will.Some? ==> WillQosOf(f) == will.value.0 && WillRetainOf(f) == will.value.1)
  {
    var q, r: bit := (if will.Some? then will.value.0 else 0), (if will.Some? then will.value.1 else 0);
    var w: bit, p: bit, u: bit :=
      (if will.Some? then 1 else 0), (if password then 1 else 0), (if username then 1 else 0);
    BitFields(clean, w, q, r, p, u);
  }

  lemma BitFields(c: bit, w: bit, q: nat, r: bit, p: bit, u: bit)
    requires q < 4
    ensures var f := 2 * c + 4 * w + 8 * q + 32 * r + 64 * p + 128 * u;
            && f / 2 % 2 == c && f / 4 % 2 == w && f / 8 % 4 == q && f / 32 % 2 == r && f / 64 % 2 == p
            && f / 128 % 2 == u
  {
    var a := c + 2 * (w + 2 * (q + 4 * (r + 2 * (p + 2 * u))));
    Pair(2 * a, 2, a, 0);
    Pair(a, 2, w + 2 * (q + 4 * (r + 2 * (p + 2 * u))), c);
    Pair(w + 2 * (q + 4 * (r + 2 * (p + 2 * u))), 2, q + 4 * (r + 2 * (p + 2 * u)), w);
    Pair(q + 4 * (r + 2 * (p + 2 * u)), 4, r + 2 * (p + 2 * u), q);
    Pair(r + 2 * (p + 2 * u), 2, p + 2 * u, r);
    Pair(p + 2 * u, 2, u, p);
    Nested(2 * a);
  }

  lemma Pair(n: nat, base: nat, high: nat, low: nat)
    requires (base == 2 || base == 4) && low < base && n == base * high + low
    ensures n / base == high && n % base == low
  {
  }

  lemma Nested(n: nat)
    ensures n / 4 == n / 2 / 2 && n / 8 == n / 2 / 2 / 2 && n / 32 == n / 2 / 2 / 2 / 4
    ensures n / 64 == n / 2 / 2 / 2 / 4 / 2 && n / 128 == n / 2 / 2 / 2 / 4 / 2 / 2
  {
  }

  // ---------------------------------------------------------------- the packet

  function WillFlags(o: Options): Option<(nat, bit)> {
    if o.will.Some? then Some((o.will.value.qos, o.will.value.retained)) else None
  }

  function OptionalStr(s: Option<seq<byte>>): seq<byte> { if s.Some? then Str(s.value) else [] }

  function WillFields(o: Options): seq<byte> {
    if o.will.Some? then Str(o.will.value.topic) + Str(o.will.value.message) else []
  }

  function VariableHeader(o: Options): seq<byte>
    requires ValidWill(o)
  {
    (if o.version == 4 then Str(MQTT) + [4] else Str(MQISDP) + [3])
    + [Flags(o.clean, WillFlags(o), o.password.Some?, o.username.Some?)] + Int16(o.keepAlive)
  }

  predicate ValidWill(o: Options) { o.will.Some? ==> o.will.value.qos < 4 }

  function Payload(o: Options): seq<byte> {
    Str(o.clientId) + (WillFields(o) + (OptionalStr(o.username) + OptionalStr(o.password)))
  }

  function ConnectBody(o: Options): seq<byte>
    requires ValidWill(o)
  {
    VariableHeader(o) + Payload(o)
  }

  predicate Short(s: seq<byte>) { |s| < 0x1_0000 }

  predicate Valid(o: Options) {
    && (o.version == 3 || o.version == 4) && ValidWill(o) && Short(o.clientId)
    && (o.will.Some? ==> Short(o.will.value.topic) && Short(o.will.value.message))
    && (o.username.Some? ==> Short(o.username.value)) && (o.password.Some? ==> Short(o.password.value))
  }

  function ConnectPacket(o: Options): seq<byte>
    requires Valid(o)
  {
    Packet(Header(CONNECT, 0, 0, 0), ConnectBody(o))
  }

  /** Section 3.1 of MQTT 3.1.1, and the protocol name of MQTT 3.1, octet by octet. */
  lemma ConnectOctets(o: Options)
    requires Valid(o)
    ensures var flags := 2 * o.clean
                         + (if o.will.Some? then 4 + 8 * o.will.value.qos + 32 * o.will.value.retained else 0)
                         + (if o.password.Some? then 64 else 0) + (if o.username.Some? then 128 else 0);
            var name := if o.version == 4 then [0, 4, 0x4D, 0x51, 0x54, 0x54, 4]
                        else [0, 6, 0x4D, 0x51, 0x49, 0x73, 0x64, 0x70, 3];
            && ConnectBody(o) == name + [flags, o.keepAlive / 256, o.keepAlive % 256] + Payload(o)
            && ConnectPacket(o) == [0x10] + Length(|ConnectBody(o)|) + ConnectBody(o)
  {
    hide Length, Payload;
    assert Str(MQTT) == [0, 4, 0x4D, 0x51, 0x54, 0x54];
    assert Str(MQISDP) == [0, 6, 0x4D, 0x51, 0x49, 0x73, 0x64, 0x70];
  }

  lemma OptionalOctets(s: seq<byte>)
    requires Short(s)
    ensures OptionalStr(Some(s)) == [|s| / 256, |s| % 256] + s && OptionalStr(None) == []
  {
  }

  // ---------------------------------------------------------------- the client side

  /** The strings of MQTTPacket_connectData. */
  datatype Strings = Strings(clientId: MqttString, willTopic: MqttString, willMessage: MqttString, username: MqttString,
                             password: MqttString)

  ghost predicate Is(s: MqttString, content: seq<byte>) { Content(s) == content && StrLen(s) == |content| }

  ghost predicate IsOptional(s: MqttString, content: Option<seq<byte>>) {
    (s.cstring.Some? || s.data.Some? <==> content.Some?) && (content.Some? ==> Is(s, content.value))
  }

  lemma PresentIs(s: MqttString, content: Option<seq<byte>>)
    requires IsOptional(s, content)
    ensures Present(s) == content.Some?
  {
  }

  ghost predicate Hold(s: Strings, o: Options) {
    && Is(s.clientId, o.clientId) && IsOptional(s.username, o.username) && IsOptional(s.password, o.password)
    && (o.will.Some? ==> Is(s.willTopic, o.will.value.topic) && Is(s.willMessage, o.will.value.message))
  }

  /** `MQTTSerialize_connectLength`. */
  function ConnectLength(version: byte, willFlag: bool, s: Strings): nat {
    (if version == 3 then 12 else if version == 4 then 10 else 0)
    + StrLen(s.clientId) + 2
    + (if willFlag then StrLen(s.willTopic) + 2 + StrLen(s.willMessage) + 2 else 0)
    + (if Present(s.username) then StrLen(s.username) + 2 else 0)
    + (if Present(s.password) then StrLen(s.password) + 2 else 0)
  }

  lemma LengthIsExact(s: Strings, o: Options)
    requires Valid(o) && Hold(s, o)
    ensures ConnectLength(o.version, o.will.Some?, s) == |ConnectBody(o)|
    ensures |ConnectBody(o)| <= MAX_LENGTH
  {
    hide StrLen, Content, Str, Flags;
  }

  /** `MQTTSerialize_connect`. */
  method SerializeConnect(buf: array<byte>, buflen: nat, o: Options, s: Strings) returns (rc: int)
    requires buflen <= buf.Length && Valid(o) && Hold(s, o)
    modifies buf
    ensures if PacketLen(|ConnectBody(o)|) > buflen then rc == TOO_SHORT && buf[..] == old(buf[..])
            else
              && rc == |ConnectPacket(o)| <= buflen
              && buf[..rc] == ConnectPacket(o) && buf[rc..] == old(buf[rc..])
  {
    hide Length, PacketLen, Content, StrLen, Header, Str, Int16, Flags, ConnectLength, Present, MQTT, MQISDP,
      ConnectPacket, ConnectBody, Payload;
    LengthIsExact(s, o);
    ConnectParts(o);
    PresentIs(s.username, o.username);
    PresentIs(s.password, o.password);
    var len := ConnectLength(o.version, o.will.Some?, s);
    ghost var b0 := buf[..];
    var header := Header(CONNECT, 0, 0, 0);
    var ptr := Begin(buf, buflen, header, len);
    if ptr == TOO_SHORT {
      return TOO_SHORT;
    }
    ghost var done := [header] + Length(len);
    var name := if o.version == 4 then Str(MQTT) + [4] else Str(MQISDP) + [3];
    var flags := Flags(o.clean, if o.will.Some? then Some((o.will.value.qos, o.will.value.retained)) else None,
                       Present(s.password), Present(s.username));
    ptr := Append(buf, ptr, name + [flags] + Int16(o.keepAlive), b0, done);
    done := done + VariableHeader(o);
    ptr := WritePayload(buf, ptr, o, s, b0, done);
    rc := ptr;
  }

  lemma ConnectParts(o: Options)
    requires Valid(o)
    ensures |ConnectBody(o)| == |VariableHeader(o)| + |Payload(o)|
    ensures ConnectPacket(o) == [Header(CONNECT, 0, 0, 0)] + Length(|ConnectBody(o)|) + VariableHeader(o) + Payload(o)
  {
    hide VariableHeader, Payload, Length, Header;
  }

  /** A string field, if it is there. */
  method WriteOptional(buf: array<byte>, ptr: nat, present: bool, s: MqttString, ghost content: Option<seq<byte>>,
                       ghost b0: seq<byte>, ghost done: seq<byte>)
    returns (next: nat)
    requires present == content.Some? && (present ==> Is(s, content.value))
    requires |b0| == buf.Length && ptr == |done|
    requires ptr + |OptionalStr(content)| <= buf.Length && buf[..] == done + b0[ptr..]
    modifies buf
    ensures next == ptr + |OptionalStr(content)| && buf[..] == done + OptionalStr(content) + b0[next..]
  {
    hide Str, StrLen, Content;
    next := ptr;
    if present {
      next := Append(buf, ptr, Str(Content(s)), b0, done);
    } else {
      assert done + [] == done;
    }
  }

  /** The strings of the payload. */
  method WritePayload(buf: array<byte>, ptr: nat, o: Options, s: Strings, ghost b0: seq<byte>, ghost done0: seq<byte>)
    returns (next: nat)
    requires Hold(s, o) && |b0| == buf.Length && ptr == |done0| && ptr + |Payload(o)| <= buf.Length
    requires buf[..] == done0 + b0[ptr..]
    modifies buf
    ensures next == ptr + |Payload(o)| && buf[..] == done0 + Payload(o) + b0[next..]
  {
    hide Str, StrLen, Content, Present, OptionalStr;
    PresentIs(s.username, o.username);
    PresentIs(s.password, o.password);
    ghost var done := done0;
    next := Append(buf, ptr, Str(Content(s.clientId)), b0, done);
    done := done + Str(o.clientId);
    if o.will.Some? {
      next := Append(buf, next, Str(Content(s.willTopic)), b0, done);
      done := done + Str(o.will.value.topic);
      next := Append(buf, next, Str(Content(s.willMessage)), b0, done);
      done := done + Str(o.will.value.message);
    }
    assert done == done0 + Str(o.clientId) + WillFields(o);
    next := WriteOptional(buf, next, Present(s.username), s.username, o.username, b0, done);
    done := done + OptionalStr(o.username);
    next := WriteOptional(buf, next, Present(s.password), s.password, o.password, b0, done);
    done := done + OptionalStr(o.password);
    assert done == done0 + Payload(o);
  }

  // ---------------------------------------------------------------- the server side

  predicate StartsLike(name: seq<byte>, protocol: seq<byte>) {
    var n := if |name| < |protocol| then |name| else |protocol|;
    name[..n] == protocol[..n]
  }

  /** `MQTTPacket_checkVersion`: only as much of the name is compared as there is. */
  predicate CheckVersion(name: seq<byte>, version: byte) {
    (version == 3 && StartsLike(name, MQISDP)) || (version == 4 && StartsLike(name, MQTT))
  }

  /** What MQTTDeserialize_connect fills in; the version is not kept. */
  datatype Fields = Fields(clean: bit, keepAlive: nat, clientId: seq<byte>, will: Option<Will>,
                           username: Option<seq<byte>>, password: Option<seq<byte>>)

  /** The will, if the flag says there is one, and where the rest starts; None if it cannot be read. */
  function ReadWill(buf: seq<byte>, pos: nat, flags: byte): (r: Option<(Option<Will>, nat)>)
    requires pos <= |buf|
    ensures r.Some? ==> r.value.1 <= |buf|
  {
    if !WillOf(flags) then Some((None, pos))
    else
      match ReadString(buf, pos, |buf|)
      case None => None
      case Some((topic, next)) =>
        match ReadString(buf, next, |buf|)
        case None => None
        case Some((message, end)) => Some((Some(Will(topic, message, WillQosOf(flags), WillRetainOf(flags))), end))
  }

  /** A name or password that the flags announce needs three octets at least. */
  function ReadCredential(buf: seq<byte>, pos: nat): (r: Option<(seq<byte>, nat)>)
    requires pos <= |buf|
    ensures r.Some? ==> r.value.1 <= |buf|
  {
    if |buf| - pos < 3 then None else ReadString(buf, pos, |buf|)
  }

  function ReadCredentials(buf: seq<byte>, pos: nat, flags: byte): Option<(Option<seq<byte>>, Option<seq<byte>>)>
    requires pos <= |buf|
  {
    if !UsernameOf(flags) then (if PasswordOf(flags) then None else Some((None, None)))
    else
      match ReadCredential(buf, pos)
      case None => None
      case Some((name, next)) =>
        if !PasswordOf(flags) then Some((Some(name), None))
        else
          match ReadCredential(buf, next)
          case None => None
          case Some((word, _)) => Some((Some(name), Some(word)))
  }

  /** The fields behind the protocol version, which ends at `pos`. */
  function ReadFields(buf: seq<byte>, pos: nat): Option<Fields>
    requires pos <= |buf|
  {
    var flags := Byte(buf, pos);
    match ReadString(buf, pos + 3, |buf|)
    case None => None
    case Some((clientId, p)) =>
      match ReadWill(buf, p, flags)
      case None => None
      case Some((will, q)) =>
        match ReadCredentials(buf, q, flags)
        case None => None
        case Some((name, word)) => Some(Fields(CleanOf(flags), ReadInt(buf, pos + 1), clientId, will, name, word))
  }

  lemma VersionInside(buf: seq<byte>, name: seq<byte>, p: nat)
    requires CheckVersion(name, Byte(buf, p))
    ensures p < |buf|
  {
  }

  /** What MQTTDeserialize_connect makes of a packet: the fields, or None for the return code 0. */
  function ParseConnect(buf: seq<byte>): Option<Fields> {
    if TypeOf(Byte(buf, 0)) != CONNECT then None
    else
      var (len, _) := DecodeFrom(buf, 1, 0, 0, 1);
      match ReadString(buf, 1 + len, |buf|)
      case None => None
      case Some((protocol, p)) =>
        if !CheckVersion(protocol, Byte(buf, p)) then None
        else
          VersionInside(buf, protocol, p);
          ReadFields(buf, p + 1)
  }

  /** `MQTTDeserialize_connect`. */
  method DeserializeConnect(buf: seq<byte>) returns (rc: int, data: Option<Fields>)
    ensures data == ParseConnect(buf) && rc == if data.Some? then 1 else 0
  {
    hide DecodeFrom, ReadString, Byte, ReadInt, CheckVersion, CleanOf, WillOf, WillQosOf, WillRetainOf,
      PasswordOf, UsernameOf, TypeOf;
    var curdata: nat := 0;
    var enddata := |buf|;
    var header := Byte(buf, curdata);
    curdata := curdata + 1;
    if TypeOf(header) != CONNECT {
      return 0, None;
    }
    var len, _ := DecodeBuf(buf, curdata);
    curdata := curdata + len;
    var protocol := ReadString(buf, curdata, enddata);
    if protocol == None {
      return 0, None;
    }
    curdata := protocol.value.1;
    var version := Byte(buf, curdata);
    curdata := curdata + 1;
    if !CheckVersion(protocol.value.0, version) {
      return 0, None;
    }
    VersionInside(buf, protocol.value.0, protocol.value.1);
    var flags := Byte(buf, curdata);
    curdata := curdata + 1;
    var keepAlive := ReadInt(buf, curdata);
    curdata := curdata + 2;
    var clientId := ReadString(buf, curdata, enddata);
    if clientId == None {
      return 0, None;
    }
    curdata := clientId.value.1;
    var will: Option<Will> := None;
    if WillOf(flags) {
      var topic := ReadString(buf, curdata, enddata);
      if topic == None {
        return 0, None;
      }
      curdata := topic.value.1;
      var message := ReadString(buf, curdata, enddata);
      if message == None {
        return 0, None;
      }
      curdata := message.value.1;
      will := Some(Will(topic.value.0, message.value.0, WillQosOf(flags), WillRetainOf(flags)));
    }
    var username: Option<seq<byte>>, password: Option<seq<byte>> := None, None;
    if UsernameOf(flags) {
      var name := ReadCredential(buf, curdata);
      if name == None {
        return 0, None;
      }
      username, curdata := Some(name.value.0), name.value.1;
      if PasswordOf(flags) {
        var word := ReadCredential(buf, curdata);
        if word == None {
          return 0, None;
        }
        password := Some(word.value.0);
      }
    } else if PasswordOf(flags) {
      return 0, None;
    }
    return 1, Some(Fields(CleanOf(flags), keepAlive, clientId.value.0, will, username, password));
  }

  // ---------------------------------------------------------------- the round trip

  /** What a server can read back: no password without a name, and neither of them last and empty. */
  predicate Readable(o: Options) {
    && (o.password.Some? ==> o.username.Some? && o.password.value != [])
    && (o.username.Some? && o.username.value == [] ==> o.password.Some?)
  }

  lemma ReadsCredentials(buf: seq<byte>, pos: nat, o: Options, flags: byte)
    requires Valid(o) && UsernameOf(flags) == o.username.Some? && PasswordOf(flags) == o.password.Some?
    requires Here(buf, pos, OptionalStr(o.username) + OptionalStr(o.password))
    requires |buf| == pos + |OptionalStr(o.username) + OptionalStr(o.password)|
    ensures ReadCredentials(buf, pos, flags) == if Readable(o) then Some((o.username, o.password)) else None
  {
    hide Here, ReadString, Str, UsernameOf, PasswordOf;
    HereSplit(buf, pos, OptionalStr(o.username), OptionalStr(o.password));
    if o.username.Some? {
      ReadsString(buf, pos, o.username.value, |buf|);
      if o.password.Some? {
        ReadsString(buf, pos + 2 + |o.username.value|, o.password.value, |buf|);
      }
    }
  }

  lemma ReadsWill(buf: seq<byte>, pos: nat, o: Options, flags: byte)
    requires Valid(o) && WillOf(flags) == o.will.Some? && pos + |WillFields(o)| <= |buf|
    requires o.will.Some? ==> WillQosOf(flags) == o.will.value.qos && WillRetainOf(flags) == o.will.value.retained
    requires Here(buf, pos, WillFields(o))
    ensures ReadWill(buf, pos, flags) == Some((o.will, pos + |WillFields(o)|))
  {
    hide Here, ReadString, Str, WillOf, WillQosOf, WillRetainOf;
    if o.will.Some? {
      var w := o.will.value;
      HereSplit(buf, pos, Str(w.topic), Str(w.message));
      ReadsString(buf, pos, w.topic, |buf|);
      ReadsString(buf, pos + 2 + |w.topic|, w.message, |buf|);
    }
  }

  lemma ReadsFields(buf: seq<byte>, pos: nat, o: Options)
    requires Valid(o) && |buf| == pos + 3 + |Payload(o)|
    requires var flags := Flags(o.clean, WillFlags(o), o.password.Some?, o.username.Some?);
             Here(buf, pos, [flags] + Int16(o.keepAlive) + Payload(o))
    ensures ReadFields(buf, pos)
         == if Readable(o) then Some(Fields(o.clean, o.keepAlive, o.clientId, o.will, o.username, o.password)) else None
  {
    hide Here, ReadString, Str, Flags, Byte, ReadInt, ReadWill, ReadCredentials, Readable, WillFields, OptionalStr,
      CleanOf, WillOf, WillQosOf, WillRetainOf, PasswordOf, UsernameOf;
    var flags := Flags(o.clean, WillFlags(o), o.password.Some?, o.username.Some?);
    FlagParts(o.clean, WillFlags(o), o.password.Some?, o.username.Some?);
    HereSplit(buf, pos, [flags] + Int16(o.keepAlive), Payload(o));
    HereSplit(buf, pos, [flags], Int16(o.keepAlive));
    HereByte(buf, pos, [flags], 0);
    ReadsInt(buf, pos + 1, o.keepAlive);
    var rest := WillFields(o) + (OptionalStr(o.username) + OptionalStr(o.password));
    HereSplit(buf, pos + 3, Str(o.clientId), rest);
    ReadsString(buf, pos + 3, o.clientId, |buf|);
    var p := pos + 5 + |o.clientId|;
    HereSplit(buf, p, WillFields(o), OptionalStr(o.username) + OptionalStr(o.password));
    ReadsWill(buf, p, o, flags);
    ReadsCredentials(buf, p + |WillFields(o)|, o, flags);
  }

  lemma ProtocolChecks(o: Options)
    requires Valid(o)
    ensures CheckVersion(if o.version == 4 then MQTT else MQISDP, o.version)
  {
  }

  /** A CONNECT comes back with all its fields exactly when its name and password are readable. */
  lemma ConnectRoundTrip(o: Options)
    requires Valid(o)
    ensures ParseConnect(ConnectPacket(o))
         == if Readable(o) then Some(Fields(o.clean, o.keepAlive, o.clientId, o.will, o.username, o.password)) else None
  {
    hide Length, DecodeFrom, Here, ReadString, Str, Flags, Byte, Header, TypeOf, CheckVersion, ReadFields,
      Payload, Readable,
      MQTT, MQISDP;
    var buf, body := ConnectPacket(o), ConnectBody(o);
    BodySize(o);
    HereWhole(buf);
    PacketParts(buf, Header(CONNECT, 0, 0, 0), body);
    HeaderParts(CONNECT, 0, 0, 0);
    var start := 1 + |Length(|body|)|;
    var name := if o.version == 4 then MQTT else MQISDP;
    var flags := [Flags(o.clean, WillFlags(o), o.password.Some?, o.username.Some?)] + Int16(o.keepAlive);
    assert body == Str(name) + ([o.version] + (flags + Payload(o)));
    HereSplit(buf, start, Str(name), [o.version] + (flags + Payload(o)));
    NameShort();
    ReadsString(buf, start, name, |buf|);
    var p := start + 2 + |name|;
    HereSplit(buf, p, [o.version], flags + Payload(o));
    HereByte(buf, p, [o.version], 0);
    ProtocolChecks(o);
    ReadsFields(buf, p + 1, o);
  }

  lemma BodySize(o: Options)
    requires Valid(o)
    ensures |ConnectBody(o)| <= MAX_LENGTH
  {
    hide Str, Flags;
  }

  lemma HereWhole(buf: seq<byte>)
    ensures Here(buf, 0, buf)
  {
    assert buf[0..0 + |buf|] == buf;
  }

  lemma NameShort()
    ensures |MQTT| == 4 && |MQISDP| == 6
  {
  }
}
