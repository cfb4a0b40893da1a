/** The fields of MQTT packets (MQTTPacket.c): remaining length, integers, strings. */
module MqttWire {
  import opened Prelude

  // ---------------------------------------------------------------- remaining length (section 2.2.3 of MQTT 3.1.1)

  const MAX_LENGTH := 268435455

  /** Seven bits at a time, lowest first; the top bit says that more follow. */
  function Length(n: nat): (l: seq<byte>)
    ensures |l| >= 1
  {
    if n < 128 then [n] else [n % 128 + 128] + Length(n / 128)
  }

  lemma ShortLength(n: nat)
    requires n < 128
    ensures Length(n) == [n]
  {
  }

  /** Section 2.2.3 of MQTT 3.1.1, octet by octet. */
  lemma LengthOctets(n: nat)
    requires n <= 268435455
    ensures Length(n)
         == if n < 128 then [n]
            else if n < 16384 then [n % 128 + 128, n / 128]
            else if n < 2097152 then [n % 128 + 128, n / 128 % 128 + 128, n / 16384]
            else [n % 128 + 128, n / 128 % 128 + 128, n / 16384 % 128 + 128, n / 2097152]
  {
    hide Length;
    var a, b, c := n / 128, n / 16384, n / 2097152;
    Sevens(n);
    LengthStep(n);
    LengthStep(a);
    LengthStep(b);
    LengthStep(c);
  }

  lemma Sevens(n: nat)
    requires n <= 268435455
    ensures n / 128 / 128 == n / 16384 && n / 16384 / 128 == n / 2097152 && n / 2097152 < 128
    ensures (n / 128 < 128 <==> n < 16384) && (n / 16384 < 128 <==> n < 2097152)
  {
  }

  lemma LengthSize(n: nat)
    requires n <= MAX_LENGTH
    ensures |Length(n)| == if n < 128 then 1 else if n < 16384 then 2 else if n < 2097152 then 3 else 4
  {
    if n >= 2097152 {
      assert |Length(n / 128 / 128 / 128)| == 1;
      assert |Length(n / 128 / 128)| == 2;
      assert |Length(n / 128)| == 3;
    } else if n >= 16384 {
      assert |Length(n / 128 / 128)| == 1;
      assert |Length(n / 128)| == 2;
    }
  }

  lemma LengthStep(n: nat)
    ensures Length(n) == if n / 128 > 0 then [n % 128 + 128] + Length(n / 128) else [n % 128]
  {
  }

  /** `MQTTPacket_encode`. */
  method Encode(buf: array<byte>, start: nat, n: nat) returns (rc: nat)
    requires start + |Length(n)| <= buf.Length
    modifies buf
    ensures rc == |Length(n)|
    ensures buf[..] == old(buf[..start]) + Length(n) + old(buf[start + rc..])
  {
    hide Length;
    rc := 0;
    var length := n;
    ghost var l, b0 := Length(n), buf[..];
    var more := true;
    assert b0[..start] + l[..0] + b0[start..] == b0;
    while more
      invariant rc <= |l| && if more then l[rc..] == Length(length) else rc == |l|
      invariant buf[..] == b0[..start] + l[..rc] + b0[start + rc..]
      decreases more, length
    {
      LengthStep(length);
      var d := length % 128;
      length := length / 128;
      if length > 0 {
        d := d + 128;
      }
      OctetPlaced(b0, start, l, rc);
      assert l[rc..][0] == d && l[rc..][1..] == l[rc + 1..];
      buf[start + rc] := d;
      rc := rc + 1;
      more := length > 0;
    }
    assert l[..rc] == l;
  }

  lemma OctetPlaced(b0: seq<byte>, start: nat, l: seq<byte>, rc: nat)
    requires rc < |l| && start + |l| <= |b0|
    ensures (b0[..start] + l[..rc] + b0[start + rc..])[start + rc := l[rc]]
         == b0[..start] + l[..rc + 1] + b0[start + rc + 1..]
  {
  }

  function Byte(buf: seq<byte>, i: nat): byte { if i < |buf| then buf[i] else 0 }

  /** The loop of MQTTPacket_decode after `len` octets: what it returns and the value it stores; it gives up at
      the fifth. */
  function DecodeFrom(buf: seq<byte>, pos: nat, len: nat, value: nat, multiplier: nat): (nat, nat)
    requires len <= 4
    decreases 4 - len
  {
    if len == 4 then (5, value)
    else
      var c := Byte(buf, pos);
      if c < 128 then (len + 1, value + c * multiplier)
      else DecodeFrom(buf, pos + 1, len + 1, value + (c - 128) * multiplier, multiplier * 128)
  }

  lemma DecodeStep(buf: seq<byte>, pos: nat, len: nat, value: nat, multiplier: nat)
    requires len <= 4
    ensures len == 4 ==> DecodeFrom(buf, pos, len, value, multiplier) == (5, value)
    ensures len < 4 ==>
              var c := Byte(buf, pos) as int;
              DecodeFrom(buf, pos, len, value, multiplier)
              == if c < 128 then (len + 1, value + c % 128 * multiplier)
                 else DecodeFrom(buf, pos + 1, len + 1, value + c % 128 * multiplier, multiplier * 128)
  {
    hide Byte;
  }

  /** `MQTTPacket_decodeBuf`. */
  method DecodeBuf(buf: seq<byte>, pos: nat) returns (len: nat, value: nat)
    ensures (len, value) == DecodeFrom(buf, pos, 0, 0, 1)
  {
    hide Byte, DecodeFrom;
    len, value := 0, 0;
    var multiplier: nat := 1;
    while true
      invariant len <= 4 && DecodeFrom(buf, pos + len, len, value, multiplier) == DecodeFrom(buf, pos, 0, 0, 1)
      decreases 5 - len
    {
      DecodeStep(buf, pos + len, len, value, multiplier);
      len := len + 1;
      if len > 4 {
        return;
      }
      var c: nat := Byte(buf, pos + len - 1);
      value := value + c % 128 * multiplier;
      multiplier := multiplier * 128;
      if c < 128 {
        return;
      }
    }
  }

  lemma Spread(m: nat, c: nat, v: nat)
    ensures c * m + (m * 128) * v == m * (c + 128 * v)
  {
  }

  /** Every length up to the maximum comes back, from one to four octets. */
  lemma {:induction false} DecodesLength(buf: seq<byte>, pos: nat, n: nat, len: nat, value: nat, multiplier: nat)
    requires Here(buf, pos, Length(n)) && len + |Length(n)| <= 4
    ensures DecodeFrom(buf, pos, len, value, multiplier) == (len + |Length(n)|, value + multiplier * n)
    decreases n
  {
    HereByte(buf, pos, Length(n), 0);
    if n >= 128 {
      HereSplit(buf, pos, [n % 128 + 128], Length(n / 128));
      DecodesLength(buf, pos + 1, n / 128, len + 1, value + (n % 128) * multiplier, multiplier * 128);
      Spread(multiplier, n % 128, n / 128);
    }
  }

  /** `MQTTPacket_len`. */
  function PacketLen(remLen: nat): nat {
    var n := remLen + 1;
    if n < 128 then n + 1 else if n < 16384 then n + 2 else if n < 2097151 then n + 3 else n + 4
  }

  /** It never underestimates, and is one too large for exactly four lengths. */
  lemma PacketLenExact(remLen: nat)
    requires remLen <= MAX_LENGTH
    ensures PacketLen(remLen) == 1 + |Length(remLen)| + remLen
                                 + if remLen in {127, 16383, 2097150, 2097151} then 1 else 0
  {
    hide Length;
    LengthSize(remLen);
  }

  // ---------------------------------------------------------------- integers and strings

  /** `writeInt`: two octets, high one first. */
  function Int16(n: nat): (b: seq<byte>)
    ensures |b| == 2
  {
    [n / 256 % 256, n % 256]
  }

  function ReadInt(buf: seq<byte>, pos: nat): nat { 256 * Byte(buf, pos) as int + Byte(buf, pos + 1) as int }

  /** A string argument: a C string, a counted one, or neither. */
  datatype MqttString = MqttString(cstring: Option<seq<byte>>, data: Option<seq<byte>>)

  predicate Present(s: MqttString) { s.cstring.Some? || s.data.Some? }

  /** `MQTTstrlen` looks at the C string first, */
  function StrLen(s: MqttString): nat {
    if s.cstring.Some? then |s.cstring.value| else if s.data.Some? then |s.data.value| else 0
  }

  /** writeMQTTString at the counted one. */
  function Content(s: MqttString): seq<byte> {
    if s.data.Some? && |s.data.value| > 0 then s.data.value
    else if s.cstring.Some? then s.cstring.value
    else []
  }

  /** The two agree unless a counted string comes with a C string of another length. */
  lemma LengthsAgree(s: MqttString)
    ensures StrLen(s) == |Content(s)|
       <==> (s.cstring.Some? && s.data.Some? && |s.data.value| > 0 ==> |s.cstring.value| == |s.data.value|)
  {
  }

  function Str(content: seq<byte>): (b: seq<byte>)
    ensures |b| == 2 + |content|
  {
    Int16(|content|) + content
  }

  /** `writeChar`, `writeInt` and the memcpy of the serializers: `data` is written at `ptr`. */
  method Put(buf: array<byte>, ptr: nat, data: seq<byte>) returns (next: nat)
    requires ptr + |data| <= buf.Length
    modifies buf
    ensures next == ptr + |data|
    ensures buf[..] == old(buf[..ptr]) + data + old(buf[next..])
  {
    forall i | 0 <= i < |data| {
      buf[ptr + i] := data[i];
    }
    return ptr + |data|;
  }

  /** The same behind what has been `done` over the old contents `b0`. */
  method Append(buf: array<byte>, ptr: nat, data: seq<byte>, ghost b0: seq<byte>, ghost done: seq<byte>)
    returns (next: nat)
    requires |b0| == buf.Length && ptr == |done| && ptr + |data| <= buf.Length && buf[..] == done + b0[ptr..]
    modifies buf
    ensures next == ptr + |data| && buf[..] == done + data + b0[next..]
  {
    next := Put(buf, ptr, data);
    assert (done + b0[ptr..])[..ptr] == done && (done + b0[ptr..])[next..] == b0[next..];
  }

  /** `readMQTTLenString`: the string and where it ends. */
  function ReadString(buf: seq<byte>, pos: nat, end: nat): (r: Option<(seq<byte>, nat)>)
    requires end <= |buf|
    ensures r.Some? ==> pos + 2 <= r.value.1 <= end && r.value.1 == pos + 2 + |r.value.0|
  {
    if end > pos + 1 && pos + 2 + ReadInt(buf, pos) <= end then
      Some((buf[pos + 2..pos + 2 + ReadInt(buf, pos)], pos + 2 + ReadInt(buf, pos)))
    else None
  }

  lemma HereByte(buf: seq<byte>, pos: nat, data: seq<byte>, i: nat)
    requires Here(buf, pos, data) && i < |data|
    ensures Byte(buf, pos + i) == data[i]
  {
    HereAt(buf, pos, data, i);
  }

  lemma ReadsInt(buf: seq<byte>, pos: nat, n: nat)
    requires Here(buf, pos, Int16(n)) && n < 0x1_0000
    ensures ReadInt(buf, pos) == n
  {
    HereByte(buf, pos, Int16(n), 0);
    HereByte(buf, pos, Int16(n), 1);
  }

  lemma ReadsString(buf: seq<byte>, pos: nat, content: seq<byte>, end: nat)
    requires Here(buf, pos, Str(content)) && |content| < 0x1_0000 && pos + 2 + |content| <= end <= |buf|
    ensures ReadString(buf, pos, end) == Some((content, pos + 2 + |content|))
  {
    HereSplit(buf, pos, Int16(|content|), content);
    ReadsInt(buf, pos, |content|);
  }
}
