/**
 * PUBLISH, acknowledgement, SUBSCRIBE and UNSUBSCRIBE packets: bytes, serializers, deserializers, and their round
 * trips.
 */
module MqttPackets {
  import opened Octets
  import opened Options
  import opened MqttBytes
  import Wire = MqttWire
  import opened Sequences

  const BUFFER_TOO_SHORT := -2
  const READ_ERROR := -1

  const PUBLISH := 3
  const PUBACK := 4
  const PUBREC := 5
  const PUBREL := 6
  const PUBCOMP := 7
  const SUBSCRIBE := 8
  const UNSUBSCRIBE := 10

  type Nibble = x: int | 0 <= x < 16
  type Qos = x: int | 0 <= x < 4
  type PacketId = x: int | 0 <= x < 0x10000

  // ------------------------------------------------------------------ header and frame

  function Header(kind: Nibble, dup: bool, qos: Qos, retain: bool): Byte {
    kind * 16 + (if dup then 8 else 0) + qos * 2 + if retain then 1 else 0
  }

  function Kind(h: Byte): Nibble { h / 16 }

  function Dup(h: Byte): bool { h / 8 % 2 == 1 }

  function QosOf(h: Byte): Qos { h / 2 % 4 }

  function Retain(h: Byte): bool { h % 2 == 1 }

  lemma HeaderRead(kind: Nibble, dup: bool, qos: Qos, retain: bool)
    ensures var h := Header(kind, dup, qos, retain);
      Kind(h) == kind && Dup(h) == dup && QosOf(h) == qos && Retain(h) == retain
  {
  }

  /** A packet: the header byte, the length of the rest, and the rest. */
  function Packet(first: Byte, body: seq<Byte>): seq<Byte> { [first] + (LengthBytes(|body|) + body) }

  lemma Framed(buf: seq<Byte>, first: Byte, body: seq<Byte>)
    requires |body| <= MAX_REMAINING && Has(buf, 0, Packet(first, body))
    ensures At(buf, 0) == first && Decoded(buf, 1, 0, 1, 0) == (|body|, |LengthBytes(|body|)|)
    ensures Has(buf, 1 + |LengthBytes(|body|)|, body)
  {
    hide Has;
    hide Decoded;
    hide LengthBytes;
    HasFirst(buf, 0, Packet(first, body));
    assert Packet(first, body)[1..] == LengthBytes(|body|) + body;
    HasBoth(buf, 1, LengthBytes(|body|), body);
    LengthRoundTrip(buf, 1, |body|);
  }

  // ------------------------------------------------------------------ the layout of a packet

  lemma LengthOnWire(buf: seq<Byte>, at: nat, n: nat)
    requires n <= MAX_REMAINING && Has(buf, at, LengthBytes(n))
    ensures |LengthBytes(n)| == Wire.LengthSize(n) && Wire.LengthAt(buf, at, n)
  {
    var bytes := LengthBytes(n);
    LengthDigits(n);
    forall j | 0 <= j < |bytes| ensures buf[at + j] == bytes[j] {
      assert buf[at..at + |bytes|][j] == buf[at + j];
    }
    hide LengthBytes;
  }

  lemma LengthDigits(n: nat)
    requires n <= MAX_REMAINING
    ensures |LengthBytes(n)| == Wire.LengthSize(n)
    ensures forall j :: 0 <= j < |LengthBytes(n)| ==>
      LengthBytes(n)[j] == n / Wire.Weight(j) % 128 + if j < |LengthBytes(n)| - 1 then 128 else 0
  {
    var a, b, c := n / 128, n / 16384, n / 2097152;
    Divided(n);
    LengthStep(n);
    LengthStep(a);
    LengthStep(b);
    LengthStep(c);
    hide LengthBytes;
    assert n / Wire.Weight(0) == n && n / Wire.Weight(1) == a && n / Wire.Weight(2) == b && n / Wire.Weight(3) == c;
    if n < 128 {
      assert LengthBytes(n) == [n];
    } else if a < 128 {
      assert LengthBytes(n) == [n % 128 + 128, a];
    } else if b < 128 {
      assert LengthBytes(n) == [n % 128 + 128, a % 128 + 128, b];
    } else {
      assert LengthBytes(n) == [n % 128 + 128, a % 128 + 128, b % 128 + 128, c];
    }
  }

  lemma LengthStep(n: nat)
    ensures LengthBytes(n) == if n < 128 then [n] else [n % 128 + 128] + LengthBytes(n / 128)
  {
  }

  lemma Divided(n: nat)
    ensures n / 128 / 128 == n / 16384 && n / 16384 / 128 == n / 2097152
    ensures n <= MAX_REMAINING ==> n / 2097152 < 128
    ensures n / 128 < 128 <==> n < 16384
    ensures n / 16384 < 128 <==> n < 2097152
  {
  }

  /** Type, flags and length of a packet stand where they belong. */
  lemma FrameOnWire(kind: Nibble, dup: bool, qos: Qos, retain: bool, body: seq<Byte>)
    requires |body| <= MAX_REMAINING
    ensures var buf := Packet(Header(kind, dup, qos, retain), body);
      && Wire.Framed(buf, kind, dup, qos, retain, |body|)
      && Has(buf, 1 + Wire.LengthSize(|body|), body)
  {
    var buf := Packet(Header(kind, dup, qos, retain), body);
    HeaderOnWire(kind, dup, qos, retain);
    FrameIs(Header(kind, dup, qos, retain), body);
    HasAll(buf);
    HasFirst(buf, 0, buf);
    assert buf[1..] == LengthBytes(|body|) + body;
    HasBoth(buf, 1, LengthBytes(|body|), body);
    LengthOnWire(buf, 1, |body|);
    hide Has;
  }

  lemma HeaderOnWire(kind: Nibble, dup: bool, qos: Qos, retain: bool)
    ensures Wire.FirstByte(Header(kind, dup, qos, retain), kind, dup, qos, retain)
  {
    HeaderRead(kind, dup, qos, retain);
  }

  lemma NumberOnWire(buf: seq<Byte>, at: nat, n: nat)
    requires Has(buf, at, Int16(n))
    ensures Wire.NumberAt(buf, at, n)
  {
    assert buf[at..at + 2][0] == buf[at] && buf[at..at + 2][1] == buf[at + 1];
  }

  lemma TextOnWire(buf: seq<Byte>, at: nat, s: seq<Byte>)
    requires Has(buf, at, StringBytes(s))
    ensures Wire.TextAt(buf, at, s)
  {
    HasBoth(buf, at, Int16(|s|), s);
    NumberOnWire(buf, at, |s|);
    hide Has;
  }

  /** Header byte and length field at the start of a buffer. */
  method Begin(buf: array<Byte>, first: Byte, remaining: nat) returns (ptr: nat)
    requires 1 + |LengthBytes(remaining)| <= buf.Length
    modifies buf
    ensures ptr == 1 + |LengthBytes(remaining)|
    ensures buf[..ptr] == [first] + LengthBytes(remaining)
    ensures forall j :: ptr <= j < buf.Length ==> buf[j] == old(buf[j])
  {
    hide LengthBytes;
    ptr := Put(buf, 0, [first]);
    assert buf[..0] == [];
    var n := Encode(buf, ptr, remaining);
    ptr := ptr + n;
  }

  // ------------------------------------------------------------------ PUBLISH

  datatype Publish = Publish(dup: bool, qos: Qos, retain: bool, id: PacketId, topic: seq<Byte>, payload: seq<Byte>)

  function PublishBody(p: Publish): seq<Byte> {
    StringBytes(p.topic) + ((if p.qos > 0 then Int16(p.id) else []) + p.payload)
  }

  function PublishBytes(p: Publish): seq<Byte> { Packet(Header(PUBLISH, p.dup, p.qos, p.retain), PublishBody(p)) }

  function PublishLength(qos: Qos, topic: MqttString, payloadLen: nat): nat {
    2 + topic.StrLen() + payloadLen + if qos > 0 then 2 else 0
  }

  /** The bytes of a PUBLISH are laid out as they have to be. */
  lemma PublishLaidOut(p: Publish)
    requires |PublishBody(p)| <= MAX_REMAINING
    ensures Wire.PublishOnWire(PublishBytes(p), p.dup, p.qos, p.retain, p.id, p.topic, p.payload)
  {
    BodyLength(p);
    hide PublishBody;
    hide Packet;
    hide Header;
    hide Has;
    hide Wire.Framed;
    hide Wire.TextAt;
    hide Wire.NumberAt;
    hide Wire.LengthSize;
    var buf, at := PublishBytes(p), 1 + Wire.LengthSize(|PublishBody(p)|);
    FrameOnWire(PUBLISH, p.dup, p.qos, p.retain, PublishBody(p));
    BodyOnWire(buf, at, p);
  }

  lemma BodyOnWire(buf: seq<Byte>, at: nat, p: Publish)
    requires Has(buf, at, PublishBody(p))
    ensures Wire.TextAt(buf, at, p.topic)
    ensures p.qos > 0 ==> Wire.NumberAt(buf, at + 2 + |p.topic|, p.id)
    ensures Has(buf, at + 2 + |p.topic| + (if p.qos > 0 then 2 else 0), p.payload)
  {
    var number := if p.qos > 0 then Int16(p.id) else [];
    HasBoth(buf, at, StringBytes(p.topic), number + p.payload);
    TextOnWire(buf, at, p.topic);
    HasBoth(buf, at + 2 + |p.topic|, number, p.payload);
    if p.qos > 0 {
      NumberOnWire(buf, at + 2 + |p.topic|, p.id);
    }
    hide Has;
    hide Wire.TextAt;
    hide Wire.NumberAt;
  }

  /** MQTTSerialize_publish */
  method SerializePublish(buf: array<Byte>, buflen: nat, dup: bool, qos: Qos, retain: bool, id: PacketId,
                          topic: MqttString, payload: seq<Byte>)
    returns (rc: int)
    requires buflen <= buf.Length && topic.Valid() && topic.StrLen() == |topic.Content()|
    requires PublishLength(qos, topic, |payload|) <= MAX_REMAINING
    modifies buf
    ensures var bytes := PublishBytes(Publish(dup, qos, retain, id, topic.Content(), payload));
      var short := PacketLen(PublishLength(qos, topic, |payload|)) > buflen;
      && rc == (if short then BUFFER_TOO_SHORT else |bytes|)
      && (if short then buf[..] == old(buf[..])
          else |bytes| <= buflen && buf[..rc] == bytes && (forall j :: rc <= j < buf.Length ==> buf[j] == old(buf[j])))
    ensures rc > 0 ==>
      rc <= buf.Length && Wire.PublishOnWire(buf[..rc], dup, qos, retain, id, topic.Content(), payload)
  {
    var remaining := PublishLength(qos, topic, |payload|);
    if PacketLen(remaining) > buflen {
      return BUFFER_TOO_SHORT;
    }
    RoomForPacket(remaining);
    ghost var p := Publish(dup, qos, retain, id, topic.Content(), payload);
    BodyLength(p);
    PublishLaidOut(p);
    FrameIs(Header(PUBLISH, dup, qos, retain), PublishBody(p));
    hide PublishBody;
    hide Header;
    hide LengthBytes;
    hide PacketLen;
    hide Packet;
    var ptr := Begin(buf, Header(PUBLISH, dup, qos, retain), remaining);
    ptr := PublishRest(buf, ptr, topic, qos, id, payload, p);
    rc := ptr;
  }

  lemma BodyLength(p: Publish)
    ensures |PublishBody(p)| == 2 + |p.topic| + |p.payload| + if p.qos > 0 then 2 else 0
  {
  }

  lemma FrameIs(first: Byte, body: seq<Byte>)
    ensures [first] + LengthBytes(|body|) + body == Packet(first, body)
    ensures |Packet(first, body)| == 1 + |LengthBytes(|body|)| + |body|
  {
  }

  method PublishRest(buf: array<Byte>, at: nat, topic: MqttString, qos: Qos, id: PacketId, payload: seq<Byte>,
                     ghost p: Publish)
    returns (ptr: nat)
    requires topic.Valid() && p.topic == topic.Content() && p.qos == qos && p.id == id && p.payload == payload
    requires at + |PublishBody(p)| <= buf.Length
    modifies buf
    ensures ptr == at + |PublishBody(p)| && buf[..ptr] == old(buf[..at]) + PublishBody(p)
    ensures forall j :: ptr <= j < buf.Length ==> buf[j] == old(buf[j])
  {
    ghost var start := buf[..at];
    ghost var number := if qos > 0 then Int16(id) else [];
    ptr := WriteString(buf, at, topic);
    assert buf[..ptr] == start + StringBytes(p.topic);
    hide StringBytes;
    if qos > 0 {
      ptr := Put(buf, ptr, Int16(id));
    }
    assert buf[..ptr] == start + StringBytes(p.topic) + number;
    ptr := Put(buf, ptr, payload);
    assert buf[..ptr] == start + (StringBytes(p.topic) + (number + payload));
  }

  /**
   * The return code, the packet if it could be read, and the payload length, which an unread packet id makes negative.
   */
  datatype PublishRead = PublishRead(rc: int, value: Option<Publish>, payloadLen: int)

  /** MQTTDeserialize_publish; the packet id is left as it was for QoS 0. */
  function DeserializePublish(buf: seq<Byte>, idBefore: PacketId): PublishRead {
    var h := At(buf, 0);
    if Kind(h) != PUBLISH then PublishRead(0, None, 0)
    else
      var field := Decoded(buf, 1, 0, 1, 0);
      ReadPublish(buf, h, 1 + field.1, field.0, field.1, idBefore)
  }

  /** A PUBLISH from behind its length field on: `remaining` bytes, counted by a field of n bytes. */
  function ReadPublish(buf: seq<Byte>, h: Byte, at: nat, remaining: nat, n: nat, idBefore: PacketId): PublishRead {
    var end := at + remaining;
    match ReadString(buf, at, end)
    case None => PublishRead(n, None, 0)
    case Some((topic, cur)) =>
      var id := if QosOf(h) > 0 then ReadInt(buf, cur) else idBefore;
      var next := if QosOf(h) > 0 then cur + 2 else cur;
      var payload := if end > next then Slice(buf, next, end - next) else [];
      PublishRead(1, Some(Publish(Dup(h), QosOf(h), Retain(h), id, topic, payload)), end - next)
  }

  /** Deserialize undoes serialize, whatever stands behind the packet. */
  lemma PublishRoundTrip(buf: seq<Byte>, p: Publish, idBefore: PacketId)
    requires |p.topic| <= 0xFFFF && |PublishBody(p)| <= MAX_REMAINING && Has(buf, 0, PublishBytes(p))
    ensures DeserializePublish(buf, idBefore)
      == PublishRead(1, Some(p.(id := if p.qos > 0 then p.id else idBefore)), |p.payload|)
  {
    var h := Header(PUBLISH, p.dup, p.qos, p.retain);
    HeaderRead(PUBLISH, p.dup, p.qos, p.retain);
    hide Header;
    hide Has;
    hide PublishBody;
    Framed(buf, h, PublishBody(p));
    hide Packet;
    hide Decoded;
    hide LengthBytes;
    hide ReadPublish;
    PublishFields(buf, h, 1 + |LengthBytes(|PublishBody(p)|)|, |LengthBytes(|PublishBody(p)|)|, p, idBefore);
  }

  /** The fields of a PUBLISH are found where they were put. */
  lemma PublishFields(buf: seq<Byte>, h: Byte, at: nat, n: nat, p: Publish, idBefore: PacketId)
    requires |p.topic| <= 0xFFFF && Has(buf, at, PublishBody(p))
    requires Dup(h) == p.dup && QosOf(h) == p.qos && Retain(h) == p.retain
    ensures ReadPublish(buf, h, at, |PublishBody(p)|, n, idBefore)
      == PublishRead(1, Some(p.(id := if p.qos > 0 then p.id else idBefore)), |p.payload|)
  {
    hide Has;
    hide ReadString;
    hide ReadInt;
    hide Slice;
    hide Dup;
    hide QosOf;
    hide Retain;
    hide StringBytes;
    var number := if p.qos > 0 then Int16(p.id) else [];
    HasBoth(buf, at, StringBytes(p.topic), number + p.payload);
    StringRead(buf, at, at + |PublishBody(p)|, p.topic);
    var cur := at + 2 + |p.topic|;
    HasBoth(buf, cur, number, p.payload);
    if p.qos > 0 {
      IntRead(buf, cur, p.id);
    }
    HasSlice(buf, cur + |number|, p.payload);
  }

  /**
   * The code 1 is meant for success; a PUBLISH whose topic cannot be read gets it too when its length field is one
   * byte.
   */
  lemma PublishAccepted(buf: seq<Byte>, idBefore: PacketId)
    ensures var r := DeserializePublish(buf, idBefore);
      && (r.rc == 1 <==> r.value.Some? || (Kind(At(buf, 0)) == PUBLISH && At(buf, 1) < 128))
      && (exists b: seq<Byte> :: DeserializePublish(b, 0).rc == 1 && DeserializePublish(b, 0).value.None?)
  {
    FieldOfOne(buf);
    var b: seq<Byte> := [48, 0];
    assert Decoded(b, 1, 0, 1, 0) == (0, 1);
    assert DeserializePublish(b, 0) == PublishRead(1, None, 0);
  }

  lemma FieldOfOne(buf: seq<Byte>)
    ensures Decoded(buf, 1, 0, 1, 0).1 == 1 <==> At(buf, 1) < 128
  {
    assert forall v: nat, m: nat :: Decoded(buf, 2, 1, m, v).1 >= 2;
  }

  // ------------------------------------------------------------------ acknowledgements

  function AckBytes(kind: Nibble, dup: bool, id: PacketId): seq<Byte> {
    Packet(Header(kind, dup, if kind == PUBREL then 1 else 0, false), Int16(id))
  }

  lemma AckLaidOut(kind: Nibble, dup: bool, id: PacketId)
    ensures Wire.AckOnWire(AckBytes(kind, dup, id), kind, dup, id)
  {
    FrameOnWire(kind, dup, if kind == PUBREL then 1 else 0, false, Int16(id));
    NumberOnWire(AckBytes(kind, dup, id), 2, id);
  }

  /** MQTTSerialize_ack */
  method SerializeAck(buf: array<Byte>, buflen: nat, kind: Nibble, dup: bool, id: PacketId) returns (rc: int)
    requires buflen <= buf.Length
    modifies buf
    ensures rc == if buflen < 4 then BUFFER_TOO_SHORT else 4
    ensures if buflen < 4 then buf[..] == old(buf[..])
      else buf[..4] == AckBytes(kind, dup, id) && (forall j :: 4 <= j < buf.Length ==> buf[j] == old(buf[j]))
    ensures rc > 0 ==> Wire.AckOnWire(buf[..4], kind, dup, id)
  {
    AckLaidOut(kind, dup, id);
    if buflen < 4 {
      return BUFFER_TOO_SHORT;
    }
    var ptr := Begin(buf, Header(kind, dup, if kind == PUBREL then 1 else 0, false), 2);
    ptr := Put(buf, ptr, Int16(id));
    return ptr;
  }

  datatype AckRead = AckRead(rc: int, kind: Nibble, dup: bool, id: Option<PacketId>)

  /** MQTTDeserialize_ack */
  function DeserializeAck(buf: seq<Byte>): AckRead {
    var h := At(buf, 0);
    var (remaining, n) := Decoded(buf, 1, 0, 1, 0);
    if remaining < 2 then AckRead(n, Kind(h), Dup(h), None)
    else AckRead(1, Kind(h), Dup(h), Some(ReadInt(buf, 1 + n)))
  }

  lemma AckRoundTrip(buf: seq<Byte>, kind: Nibble, dup: bool, id: PacketId)
    requires Has(buf, 0, AckBytes(kind, dup, id))
    ensures DeserializeAck(buf) == AckRead(1, kind, dup, Some(id))
  {
    HeaderRead(kind, dup, if kind == PUBREL then 1 else 0, false);
    Framed(buf, Header(kind, dup, if kind == PUBREL then 1 else 0, false), Int16(id));
    IntRead(buf, 2, id);
  }

  /** The code 1 comes with an id, and without one when the length field is one byte, as in the packet 40 00. */
  lemma AckAccepted(buf: seq<Byte>)
    ensures DeserializeAck(buf).rc == 1 <==> DeserializeAck(buf).id.Some? || At(buf, 1) < 128
    ensures DeserializeAck([0x40, 0]) == AckRead(1, PUBACK, false, None)
  {
    FieldOfOne(buf);
    var b: seq<Byte> := [0x40, 0];
    assert Decoded(b, 1, 0, 1, 0) == (0, 1);
  }

  // ------------------------------------------------------------------ SUBSCRIBE and UNSUBSCRIBE

  /** A topic filter, with the QoS asked for it in a SUBSCRIBE (0 in an UNSUBSCRIBE, which carries none). */
  datatype Request = Request(filter: seq<Byte>, qos: int)

  /** writeChar of an int. */
  function ByteOf(v: int): Byte { v % 256 }

  /** readChar into an int; the C implementation decides whether a plain char is signed. */
  function CharOf(b: Byte, signed: bool): int { if signed && b >= 128 then b - 256 else b }

  predicate IsChar(v: int, signed: bool) { if signed then -128 <= v < 128 else 0 <= v < 256 }

  /** What a char has room for, and nothing else, is read back as it was. */
  lemma CharBack(v: int, signed: bool)
    ensures IsChar(CharOf(ByteOf(v), signed), signed) && ByteOf(CharOf(ByteOf(v), signed)) == ByteOf(v)
    ensures CharOf(ByteOf(v), signed) == v <==> IsChar(v, signed)
  {
  }

  function RequestBytes(r: Request, withQos: bool): seq<Byte> {
    StringBytes(r.filter) + if withQos then [ByteOf(r.qos)] else []
  }

  function RequestsBytes(rs: seq<Request>, withQos: bool): seq<Byte> {
    if rs == [] then [] else RequestBytes(rs[0], withQos) + RequestsBytes(rs[1..], withQos)
  }

  function RequestsBody(id: PacketId, rs: seq<Request>, withQos: bool): seq<Byte> {
    Int16(id) + RequestsBytes(rs, withQos)
  }

  function SubscribeBytes(dup: bool, id: PacketId, rs: seq<Request>): seq<Byte> {
    Packet(Header(SUBSCRIBE, dup, 1, false), RequestsBody(id, rs, true))
  }

  function UnsubscribeBytes(dup: bool, id: PacketId, rs: seq<Request>): seq<Byte> {
    Packet(Header(UNSUBSCRIBE, dup, 1, false), RequestsBody(id, rs, false))
  }

  ghost predicate Agreeing(filters: seq<MqttString>) {
    forall i :: 0 <= i < |filters| ==> filters[i].Valid() && filters[i].StrLen() == |filters[i].Content()|
  }

  /** What the callers' two arrays ask for. */
  function Requests(filters: seq<MqttString>, qoss: seq<int>): (rs: seq<Request>)
    requires Agreeing(filters) && (qoss == [] || |qoss| == |filters|)
    ensures |rs| == |filters|
  {
    seq(|filters|, i requires 0 <= i < |filters| => Request(filters[i].Content(), if qoss == [] then 0 else qoss[i]))
  }

  /** MQTTSerialize_subscribeLength and MQTTSerialize_unsubscribeLength */
  method RequestsLength(filters: seq<MqttString>, withQos: bool, ghost rs: seq<Request>) returns (len: nat)
    requires |rs| == |filters| && forall i :: 0 <= i < |rs| ==> |rs[i].filter| == filters[i].StrLen()
    ensures len == 2 + |RequestsBytes(rs, withQos)|
  {
    len := 2;
    var i := 0;
    assert rs[0..] == rs;
    while i < |filters|
      invariant 0 <= i <= |filters|
      invariant len + |RequestsBytes(rs[i..], withQos)| == 2 + |RequestsBytes(rs, withQos)|
    {
      assert rs[i..][1..] == rs[i + 1..];
      len := len + 2 + filters[i].StrLen() + if withQos then 1 else 0;
      i := i + 1;
    }
  }

  lemma CatStep(done: seq<Byte>, rs: seq<Request>, i: nat, withQos: bool)
    requires i < |rs|
    ensures Cat(done, RequestsBytes(rs[i..], withQos))
      == Cat(done + StringBytes(rs[i].filter) + (if withQos then [ByteOf(rs[i].qos)] else []),
        RequestsBytes(rs[i + 1..], withQos))
  {
    assert rs[i..][1..] == rs[i + 1..];
  }

  /** The loop of the two serializers. */
  method WriteRequests(buf: array<Byte>, at: nat, filters: seq<MqttString>, qoss: seq<int>, withQos: bool,
                       ghost rs: seq<Request>)
    returns (ptr: nat)
    requires |rs| == |filters| && (withQos ==> |qoss| == |rs|) && forall i :: 0 <= i < |rs| ==> filters[i].Valid()
    requires forall i :: 0 <= i < |rs| ==> rs[i].filter == filters[i].Content() && (withQos ==> rs[i].qos == qoss[i])
    requires at + |RequestsBytes(rs, withQos)| <= buf.Length
    modifies buf
    ensures ptr == at + |RequestsBytes(rs, withQos)| && buf[..ptr] == old(buf[..at]) + RequestsBytes(rs, withQos)
    ensures forall j :: ptr <= j < buf.Length ==> buf[j] == old(buf[j])
  {
    ghost var whole := Cat(buf[..at], RequestsBytes(rs, withQos));
    ptr := at;
    var i := 0;
    assert rs[0..] == rs;
    while i < |filters|
      invariant 0 <= i <= |filters| && at <= ptr <= |whole| <= buf.Length
      invariant Cat(buf[..ptr], RequestsBytes(rs[i..], withQos)) == whole
      invariant forall j :: |whole| <= j < buf.Length ==> buf[j] == old(buf[j])
    {
      CatStep(buf[..ptr], rs, i, withQos);
      ptr := WriteRequest(buf, ptr, filters[i], if withQos then [ByteOf(qoss[i])] else [], |whole|);
      i := i + 1;
    }
    assert buf[..ptr] == whole;
  }

  method WriteRequest(buf: array<Byte>, at: nat, filter: MqttString, qos: seq<Byte>, ghost limit: nat)
    returns (ptr: nat)
    requires filter.Valid() && at + |StringBytes(filter.Content())| + |qos| <= limit <= buf.Length
    modifies buf
    ensures ptr == at + |StringBytes(filter.Content())| + |qos|
    ensures buf[..ptr] == old(buf[..at]) + StringBytes(filter.Content()) + qos
    ensures forall j :: limit <= j < buf.Length ==> buf[j] == old(buf[j])
  {
    ptr := WriteString(buf, at, filter);
    ptr := Put(buf, ptr, qos);
  }

  /** MQTTSerialize_subscribe (withQos) and MQTTSerialize_unsubscribe */
  method SerializeRequests(buf: array<Byte>, buflen: nat, first: Byte, id: PacketId, filters: seq<MqttString>,
                           qoss: seq<int>, withQos: bool)
    returns (rc: int)
    requires buflen <= buf.Length && Agreeing(filters) && |qoss| == (if withQos then |filters| else 0)
    requires |RequestsBody(id, Requests(filters, qoss), withQos)| <= MAX_REMAINING
    modifies buf
    ensures var body := RequestsBody(id, Requests(filters, qoss), withQos);
      var bytes := Packet(first, body);
      var short := PacketLen(|body|) > buflen;
      && rc == (if short then BUFFER_TOO_SHORT else |bytes|)
      && (if short then buf[..] == old(buf[..])
          else |bytes| <= buflen && buf[..rc] == bytes && (forall j :: rc <= j < buf.Length ==> buf[j] == old(buf[j])))
  {
    ghost var rs := Requests(filters, qoss);
    var remaining := RequestsLength(filters, withQos, rs);
    assert remaining == |RequestsBody(id, rs, withQos)|;
    hide RequestsBody;
    if PacketLen(remaining) > buflen {
      return BUFFER_TOO_SHORT;
    }
    RoomForPacket(remaining);
    hide PacketLen;
    hide Agreeing;
    hide Requests;
    rc := FillRequests(buf, first, remaining, id, filters, qoss, withQos);
  }

  method FillRequests(buf: array<Byte>, first: Byte, remaining: nat, id: PacketId, filters: seq<MqttString>,
                      qoss: seq<int>, withQos: bool)
    returns (ptr: nat)
    requires Agreeing(filters) && |qoss| == (if withQos then |filters| else 0)
    requires remaining == |RequestsBody(id, Requests(filters, qoss), withQos)|
    requires |Packet(first, RequestsBody(id, Requests(filters, qoss), withQos))| <= buf.Length
    modifies buf
    ensures ptr == |Packet(first, RequestsBody(id, Requests(filters, qoss), withQos))|
    ensures buf[..ptr] == Packet(first, RequestsBody(id, Requests(filters, qoss), withQos))
    ensures forall j :: ptr <= j < buf.Length ==> buf[j] == old(buf[j])
  {
    ghost var rs := Requests(filters, qoss);
    RequestsFilled(filters, qoss);
    hide RequestsBytes;
    hide LengthBytes;
    hide Agreeing;
    hide Requests;
    FrameIs(first, RequestsBody(id, rs, withQos));
    RequestsJoin([first] + LengthBytes(remaining), id, rs, withQos);
    ptr := Begin(buf, first, remaining);
    hide Packet;
    hide Int16;
    hide RequestsBody;
    ptr := Put(buf, ptr, Int16(id));
    ptr := WriteRequests(buf, ptr, filters, qoss, withQos, rs);
  }

  lemma RequestsJoin(head: seq<Byte>, id: PacketId, rs: seq<Request>, withQos: bool)
    ensures head + Int16(id) + RequestsBytes(rs, withQos) == head + RequestsBody(id, rs, withQos)
    ensures |RequestsBody(id, rs, withQos)| == 2 + |RequestsBytes(rs, withQos)|
  {
  }

  lemma RequestsFilled(filters: seq<MqttString>, qoss: seq<int>)
    requires Agreeing(filters) && (qoss == [] || |qoss| == |filters|)
    ensures forall i :: 0 <= i < |filters| ==>
      filters[i].Valid() && Requests(filters, qoss)[i].filter == filters[i].Content()
    ensures forall i :: 0 <= i < |qoss| ==> Requests(filters, qoss)[i].qos == qoss[i]
  {
  }

  function Filters(rs: seq<Request>): (fs: seq<seq<Byte>>)
    ensures |fs| == |rs| && forall i :: 0 <= i < |rs| ==> fs[i] == rs[i].filter
  {
    seq(|rs|, i requires 0 <= i < |rs| => rs[i].filter)
  }

  function Wanted(rs: seq<Request>): (qs: seq<int>)
    ensures |qs| == |rs| && forall i :: 0 <= i < |rs| ==> qs[i] == rs[i].qos
  {
    seq(|rs|, i requires 0 <= i < |rs| => rs[i].qos)
  }

  /** The filters from number i on stand behind those before them. */
  lemma {:induction false} FiltersOnWire(buf: seq<Byte>, at: nat, rs: seq<Request>, withQos: bool, i: nat)
    requires i <= |rs| && Has(buf, at + Wire.FiltersSize(Filters(rs), i, withQos), RequestsBytes(rs[i..], withQos))
    ensures forall k :: i <= k < |rs| ==> Wire.FilterAt(buf, at, Filters(rs), Wanted(rs), k, withQos)
    ensures Wire.FiltersSize(Filters(rs), |rs|, withQos)
      == Wire.FiltersSize(Filters(rs), i, withQos) + |RequestsBytes(rs[i..], withQos)|
    decreases |rs| - i
  {
    hide Has;
    hide Filters;
    hide Wanted;
    if i < |rs| {
      var cur, r := at + Wire.FiltersSize(Filters(rs), i, withQos), rs[i];
      assert rs[i..][1..] == rs[i + 1..] && rs[i..][0] == r;
      HasBoth(buf, cur, RequestBytes(r, withQos), RequestsBytes(rs[i + 1..], withQos));
      hide RequestsBytes;
      FilterOnWire(buf, cur, r, withQos);
      hide RequestBytes;
      FiltersOnWire(buf, at, rs, withQos, i + 1);
    }
  }

  lemma FilterOnWire(buf: seq<Byte>, cur: nat, r: Request, withQos: bool)
    requires Has(buf, cur, RequestBytes(r, withQos))
    ensures |RequestBytes(r, withQos)| == 2 + |r.filter| + if withQos then 1 else 0
    ensures Wire.TextAt(buf, cur, r.filter)
    ensures withQos ==> cur + 2 + |r.filter| < |buf| && buf[cur + 2 + |r.filter|] == r.qos % 256
  {
    HasBoth(buf, cur, StringBytes(r.filter), if withQos then [ByteOf(r.qos)] else []);
    TextOnWire(buf, cur, r.filter);
    if withQos {
      HasFirst(buf, cur + 2 + |r.filter|, [ByteOf(r.qos)]);
    }
  }

  lemma RequestLaidOut(kind: Nibble, dup: bool, id: PacketId, rs: seq<Request>, withQos: bool)
    requires |RequestsBody(id, rs, withQos)| <= MAX_REMAINING
    ensures Wire.RequestOnWire(Packet(Header(kind, dup, 1, false), RequestsBody(id, rs, withQos)), kind, dup, id,
      Filters(rs), Wanted(rs), withQos)
  {
    var body := RequestsBody(id, rs, withQos);
    var buf, at := Packet(Header(kind, dup, 1, false), body), 1 + Wire.LengthSize(|body|);
    FrameOnWire(kind, dup, 1, false, body);
    HasBoth(buf, at, Int16(id), RequestsBytes(rs, withQos));
    NumberOnWire(buf, at, id);
    assert rs[0..] == rs;
    FiltersOnWire(buf, at + 2, rs, withQos, 0);
    hide Has;
    hide Packet;
    hide Header;
  }

  method SerializeSubscribe(buf: array<Byte>, buflen: nat, dup: bool, id: PacketId, filters: seq<MqttString>,
                            qoss: seq<int>)
    returns (rc: int)
    requires buflen <= buf.Length && Agreeing(filters) && |qoss| == |filters|
    requires |RequestsBody(id, Requests(filters, qoss), true)| <= MAX_REMAINING
    modifies buf
    ensures var bytes := SubscribeBytes(dup, id, Requests(filters, qoss));
      var short := PacketLen(|RequestsBody(id, Requests(filters, qoss), true)|) > buflen;
      && rc == (if short then BUFFER_TOO_SHORT else |bytes|)
      && (if short then buf[..] == old(buf[..])
          else |bytes| <= buflen && buf[..rc] == bytes && (forall j :: rc <= j < buf.Length ==> buf[j] == old(buf[j])))
    ensures rc > 0 ==> var rs := Requests(filters, qoss);
      rc <= buf.Length && Wire.RequestOnWire(buf[..rc], 8, dup, id, Filters(rs), Wanted(rs), true)
  {
    RequestLaidOut(SUBSCRIBE, dup, id, Requests(filters, qoss), true);
    rc := SerializeRequests(buf, buflen, Header(SUBSCRIBE, dup, 1, false), id, filters, qoss, true);
  }

  method SerializeUnsubscribe(buf: array<Byte>, buflen: nat, dup: bool, id: PacketId, filters: seq<MqttString>)
    returns (rc: int)
    requires buflen <= buf.Length && Agreeing(filters)
    requires |RequestsBody(id, Requests(filters, []), false)| <= MAX_REMAINING
    modifies buf
    ensures var bytes := UnsubscribeBytes(dup, id, Requests(filters, []));
      var short := PacketLen(|RequestsBody(id, Requests(filters, []), false)|) > buflen;
      && rc == (if short then BUFFER_TOO_SHORT else |bytes|)
      && (if short then buf[..] == old(buf[..])
          else |bytes| <= buflen && buf[..rc] == bytes && (forall j :: rc <= j < buf.Length ==> buf[j] == old(buf[j])))
    ensures rc > 0 ==> var rs := Requests(filters, []);
      rc <= buf.Length && Wire.RequestOnWire(buf[..rc], 10, dup, id, Filters(rs), Wanted(rs), false)
  {
    RequestLaidOut(UNSUBSCRIBE, dup, id, Requests(filters, []), false);
    rc := SerializeRequests(buf, buflen, Header(UNSUBSCRIBE, dup, 1, false), id, filters, [], false);
  }

  // ------------------------------------------------------------------ reading them

  /** One filter, its QoS when there is one, and the index behind them. */
  function ReadRequest(buf: seq<Byte>, cur: nat, end: int, withQos: bool, signed: bool): (r: Option<(Request, nat)>)
    ensures r.Some? ==> cur < r.value.1 <= end
  {
    match ReadString(buf, cur, end)
    case None => None
    case Some((filter, next)) =>
      if !withQos then Some((Request(filter, 0), next))
      else if next >= end then None
      else Some((Request(filter, CharOf(At(buf, next), signed)), next + 1))
  }

  /** All filters up to the end. */
  function ReadRequests(buf: seq<Byte>, cur: nat, end: nat, withQos: bool, signed: bool): Option<seq<Request>>
    decreases end - cur
  {
    if cur >= end then Some([])
    else match ReadRequest(buf, cur, end, withQos, signed)
    case None => None
    case Some((r, next)) => Before([r], ReadRequests(buf, next, end, withQos, signed))
  }

  /** The loop of MQTTDeserialize_subscribe and MQTTDeserialize_unsubscribe. */
  method RequestsAt(buf: seq<Byte>, at: nat, end: nat, withQos: bool, signed: bool) returns (rs: Option<seq<Request>>)
    ensures rs == ReadRequests(buf, at, end, withQos, signed)
  {
    hide Before;
    hide ReadRequest;
    var cur, found := at, [];
    BeforeLaws([], [], ReadRequests(buf, at, end, withQos, signed));
    while cur < end
      invariant Before(found, ReadRequests(buf, cur, end, withQos, signed))
        == ReadRequests(buf, at, end, withQos, signed)
      decreases end - cur
    {
      var r := ReadRequest(buf, cur, end, withQos, signed);
      if r.None? {
        NothingBefore(found);
        return None;
      }
      BeforeLaws(found, [r.value.0], ReadRequests(buf, r.value.1, end, withQos, signed));
      found := found + [r.value.0];
      cur := r.value.1;
    }
    BeforeLaws(found, [], Some([]));
    return Some(found);
  }

  datatype RequestsRead = RequestsRead(rc: int, dup: bool, id: PacketId, requests: Option<seq<Request>>)

  /**
   * What the two deserializers return; a filter list that does not end leaves the size of the length field as the code.
   */
  function ReadRequestsPacket(buf: seq<Byte>, kind: Nibble, withQos: bool, signed: bool): RequestsRead {
    var h := At(buf, 0);
    if Kind(h) != kind then RequestsRead(if withQos then READ_ERROR else 0, false, 0, None)
    else
      var field := Decoded(buf, 1, 0, 1, 0);
      ReadList(buf, Dup(h), 1 + field.1, field.0, field.1, withQos, signed)
  }

  /** Packet id and filters, from behind the length field on. */
  function ReadList(buf: seq<Byte>, dup: bool, at: nat, remaining: nat, n: nat, withQos: bool, signed: bool)
    : RequestsRead
  {
    var rs := ReadRequests(buf, at + 2, at + remaining, withQos, signed);
    RequestsRead(if rs.Some? then 1 else n, dup, ReadInt(buf, at), rs)
  }

  /** MQTTDeserialize_subscribe */
  method DeserializeSubscribe(buf: seq<Byte>, signed: bool) returns (r: RequestsRead)
    ensures r == ReadRequestsPacket(buf, SUBSCRIBE, true, signed)
  {
    var h := At(buf, 0);
    if Kind(h) != SUBSCRIBE {
      return RequestsRead(READ_ERROR, false, 0, None);
    }
    var remaining, n := Decode(buf, 1);
    var cur := 1 + n;
    var end := cur + remaining;
    var id := ReadInt(buf, cur);
    var rs := RequestsAt(buf, cur + 2, end, true, signed);
    return RequestsRead(if rs.Some? then 1 else n, Dup(h), id, rs);
  }

  /** MQTTDeserialize_unsubscribe */
  method DeserializeUnsubscribe(buf: seq<Byte>) returns (r: RequestsRead)
    ensures r == ReadRequestsPacket(buf, UNSUBSCRIBE, false, false)
  {
    var h := At(buf, 0);
    if Kind(h) != UNSUBSCRIBE {
      return RequestsRead(0, false, 0, None);
    }
    var remaining, n := Decode(buf, 1);
    var cur := 1 + n;
    var end := cur + remaining;
    var id := ReadInt(buf, cur);
    var rs := RequestsAt(buf, cur + 2, end, false, false);
    return RequestsRead(if rs.Some? then 1 else n, Dup(h), id, rs);
  }

  /**
   * The code 1 comes with the filters, and without them when the kind is right and the length field is one byte: the
   * loop leaves the size of that field as the code.
   */
  lemma RequestsAccepted(buf: seq<Byte>, kind: Nibble, withQos: bool, signed: bool)
    ensures var r := ReadRequestsPacket(buf, kind, withQos, signed);
      r.rc == 1 <==> r.requests.Some? || (Kind(At(buf, 0)) == kind && At(buf, 1) < 128)
  {
    FieldOfOne(buf);
    hide ReadRequests;
  }

  /** Such a packet: a SUBSCRIBE whose only filter has no bytes left for its length. */
  lemma CutListAccepted(signed: bool)
    ensures ReadRequestsPacket([0x82, 3, 0, 1, 9], SUBSCRIBE, true, signed) == RequestsRead(1, false, 1, None)
  {
    var buf: seq<Byte> := [0x82, 3, 0, 1, 9];
    assert Decoded(buf, 1, 0, 1, 0) == (3, 1);
    assert ReadString(buf, 4, 5) == None;
  }

  ghost predicate Sendable(rs: seq<Request>, withQos: bool) {
    forall i :: 0 <= i < |rs| ==> |rs[i].filter| <= 0xFFFF && (withQos || rs[i].qos == 0)
  }

  /** A request as it is read back. */
  function AsRead(r: Request, signed: bool): Request { r.(qos := CharOf(ByteOf(r.qos), signed)) }

  function AllAsRead(rs: seq<Request>, signed: bool): (r: seq<Request>)
    ensures |r| == |rs| && forall i :: 0 <= i < |rs| ==> r[i] == AsRead(rs[i], signed)
  {
    seq(|rs|, i requires 0 <= i < |rs| => AsRead(rs[i], signed))
  }

  lemma AllAsReadStep(rs: seq<Request>, signed: bool)
    requires rs != []
    ensures AllAsRead(rs, signed) == [AsRead(rs[0], signed)] + AllAsRead(rs[1..], signed)
  {
    hide AsRead;
  }

  lemma {:induction false} RequestsBack(buf: seq<Byte>, at: nat, rs: seq<Request>, withQos: bool, signed: bool)
    requires Sendable(rs, withQos) && Has(buf, at, RequestsBytes(rs, withQos))
    ensures ReadRequests(buf, at, at + |RequestsBytes(rs, withQos)|, withQos, signed) == Some(AllAsRead(rs, signed))
    decreases |rs|
  {
    hide Sendable;
    hide RequestsBytes;
    hide Has;
    hide RequestBytes;
    hide ReadRequest;
    hide ReadRequests;
    hide AsRead;
    if rs == [] {
      NoRequests(buf, at, withQos, signed);
      assert AllAsRead(rs, signed) == [];
    } else {
      RequestsCut(buf, at, rs, withQos);
      var next := at + |RequestBytes(rs[0], withQos)|;
      RequestBack(buf, at, rs[0], at + |RequestsBytes(rs, withQos)|, withQos, signed);
      RequestsBack(buf, next, rs[1..], withQos, signed);
      ReadMore(buf, at, AsRead(rs[0], signed), next, at + |RequestsBytes(rs, withQos)|, AllAsRead(rs[1..], signed),
        withQos, signed);
      AllAsReadStep(rs, signed);
    }
  }

  lemma NoRequests(buf: seq<Byte>, at: nat, withQos: bool, signed: bool)
    ensures ReadRequests(buf, at, at + |RequestsBytes([], withQos)|, withQos, signed) == Some([])
  {
  }

  lemma RequestsCut(buf: seq<Byte>, at: nat, rs: seq<Request>, withQos: bool)
    requires rs != [] && Sendable(rs, withQos) && Has(buf, at, RequestsBytes(rs, withQos))
    ensures |rs[0].filter| <= 0xFFFF && (withQos || rs[0].qos == 0) && Sendable(rs[1..], withQos)
    ensures var n := |RequestBytes(rs[0], withQos)|;
      && n >= 2 && |RequestsBytes(rs, withQos)| == n + |RequestsBytes(rs[1..], withQos)|
      && Has(buf, at, RequestBytes(rs[0], withQos)) && Has(buf, at + n, RequestsBytes(rs[1..], withQos))
  {
    hide Has;
    hide StringBytes;
    HasBoth(buf, at, RequestBytes(rs[0], withQos), RequestsBytes(rs[1..], withQos));
  }

  lemma ReadMore(buf: seq<Byte>, at: nat, r: Request, next: nat, end: nat, rest: seq<Request>, withQos: bool,
                 signed: bool)
    requires at < end && ReadRequest(buf, at, end, withQos, signed) == Some((r, next))
    requires ReadRequests(buf, next, end, withQos, signed) == Some(rest)
    ensures ReadRequests(buf, at, end, withQos, signed) == Some([r] + rest)
  {
    hide ReadRequest;
    hide Before;
    assert Before([r], Some(rest)) == Some([r] + rest) by { BeforeSome([r], rest); }
  }

  lemma RequestBack(buf: seq<Byte>, at: nat, r: Request, end: nat, withQos: bool, signed: bool)
    requires |r.filter| <= 0xFFFF && (withQos || r.qos == 0)
    requires Has(buf, at, RequestBytes(r, withQos)) && at + |RequestBytes(r, withQos)| <= end
    ensures ReadRequest(buf, at, end, withQos, signed) == Some((AsRead(r, signed), at + |RequestBytes(r, withQos)|))
  {
    hide Has;
    hide ReadString;
    hide At;
    hide StringBytes;
    CharBack(r.qos, signed);
    var qos := if withQos then [ByteOf(r.qos)] else [];
    HasBoth(buf, at, StringBytes(r.filter), qos);
    StringRead(buf, at, end, r.filter);
    if withQos {
      HasFirst(buf, at + |StringBytes(r.filter)|, qos);
    }
  }

  /**
   * Deserialize gives back the filters, in order, for any number of them, and each QoS as a char of it reads; the list
   * itself comes back exactly when every QoS fits into a char.
   */
  lemma RequestsRoundTrip(buf: seq<Byte>, kind: Nibble, dup: bool, id: PacketId, rs: seq<Request>, withQos: bool,
                          signed: bool)
    requires Sendable(rs, withQos) && |RequestsBody(id, rs, withQos)| <= MAX_REMAINING
    requires Has(buf, 0, Packet(Header(kind, dup, 1, false), RequestsBody(id, rs, withQos)))
    ensures ReadRequestsPacket(buf, kind, withQos, signed) == RequestsRead(1, dup, id, Some(AllAsRead(rs, signed)))
    ensures AllAsRead(rs, signed) == rs <==> forall i :: 0 <= i < |rs| ==> IsChar(rs[i].qos, signed)
  {
    var h, body := Header(kind, dup, 1, false), RequestsBody(id, rs, withQos);
    HeaderRead(kind, dup, 1, false);
    hide Header;
    hide Has;
    hide RequestsBody;
    Framed(buf, h, body);
    hide Packet;
    hide Decoded;
    hide LengthBytes;
    hide ReadList;
    ListBack(buf, dup, 1 + |LengthBytes(|body|)|, |LengthBytes(|body|)|, id, rs, withQos, signed);
    SameAsRead(rs, signed);
  }

  lemma SameAsRead(rs: seq<Request>, signed: bool)
    ensures AllAsRead(rs, signed) == rs <==> forall i :: 0 <= i < |rs| ==> IsChar(rs[i].qos, signed)
  {
    forall i | 0 <= i < |rs| ensures AllAsRead(rs, signed)[i] == rs[i] <==> IsChar(rs[i].qos, signed) {
      CharBack(rs[i].qos, signed);
    }
  }

  lemma ListBack(buf: seq<Byte>, dup: bool, at: nat, n: nat, id: PacketId, rs: seq<Request>, withQos: bool,
                 signed: bool)
    requires Sendable(rs, withQos) && Has(buf, at, RequestsBody(id, rs, withQos))
    ensures ReadList(buf, dup, at, |RequestsBody(id, rs, withQos)|, n, withQos, signed)
      == RequestsRead(1, dup, id, Some(AllAsRead(rs, signed)))
  {
    hide Has;
    hide RequestsBytes;
    hide ReadRequests;
    hide ReadInt;
    hide Sendable;
    hide Int16;
    HasBoth(buf, at, Int16(id), RequestsBytes(rs, withQos));
    IntRead(buf, at, id);
    RequestsBack(buf, at + 2, rs, withQos, signed);
  }
}
