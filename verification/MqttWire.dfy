/**
 * Where the fields of MQTT packets stand, byte by byte and bit by bit, as sections 2 and 3 of MQTT 3.1.1 lay them out.
 */
module MqttWire {
  import opened Octets
  import opened Options

  /** The first byte: type in bits 7-4, DUP in bit 3, QoS in bits 2-1, RETAIN in bit 0. */
  predicate FirstByte(b: Byte, kind: int, dup: bool, qos: int, retain: bool) {
    b / 16 == kind && (b / 8 % 2 == 1) == dup && b / 2 % 4 == qos && (b % 2 == 1) == retain
  }

  /** A 16-bit number, high byte first. */
  predicate NumberAt(buf: seq<Byte>, at: nat, n: nat) {
    at + 2 <= |buf| && buf[at] == n / 256 % 256 && buf[at + 1] == n % 256
  }

  /** A string behind the number of its bytes. */
  predicate TextAt(buf: seq<Byte>, at: nat, s: seq<Byte>) { NumberAt(buf, at, |s|) && Has(buf, at + 2, s) }

  /** The bytes that the remaining length takes. */
  function LengthSize(n: nat): nat { if n < 128 then 1 else if n < 16384 then 2 else if n < 2097152 then 3 else 4 }

  /** What the j-th byte of a length counts. */
  function Weight(j: nat): nat
    requires j < 4
  {
    match j case 0 => 1 case 1 => 128 case 2 => 16384 case 3 => 2097152
  }

  /** The remaining length: seven bits a byte, lowest first, and the top bit in all bytes but the last. */
  predicate LengthAt(buf: seq<Byte>, at: nat, n: nat) {
    && at + LengthSize(n) <= |buf|
    && forall j :: 0 <= j < LengthSize(n) ==>
      buf[at + j] == n / Weight(j) % 128 + if j < LengthSize(n) - 1 then 128 else 0
  }

  /** A packet with n bytes behind its length field: the place where they begin is 1 + LengthSize(n). */
  predicate Framed(buf: seq<Byte>, kind: int, dup: bool, qos: int, retain: bool, n: nat) {
    && |buf| == 1 + LengthSize(n) + n
    && FirstByte(buf[0], kind, dup, qos, retain) && LengthAt(buf, 1, n)
  }

  /** PUBLISH: topic, packet id for QoS 1 and 2, payload. */
  predicate PublishOnWire(buf: seq<Byte>, dup: bool, qos: nat, retain: bool, id: nat, topic: seq<Byte>,
                          payload: seq<Byte>)
  {
    var n := 2 + |topic| + (if qos > 0 then 2 else 0) + |payload|;
    var at := 1 + LengthSize(n);
    && Framed(buf, 3, dup, qos, retain, n)
    && TextAt(buf, at, topic)
    && (qos > 0 ==> NumberAt(buf, at + 2 + |topic|, id))
    && Has(buf, at + 2 + |topic| + (if qos > 0 then 2 else 0), payload)
  }

  /** An acknowledgement: the packet id alone; PUBREL, of type 6, has QoS 1. */
  predicate AckOnWire(buf: seq<Byte>, kind: int, dup: bool, id: nat) {
    Framed(buf, kind, dup, if kind == 6 then 1 else 0, false, 2) && NumberAt(buf, 2, id)
  }

  /** The bytes of the first i filters, with or without a byte for the QoS of each. */
  function FiltersSize(filters: seq<seq<Byte>>, i: nat, withQos: bool): nat
    requires i <= |filters|
  {
    if i == 0 then 0 else FiltersSize(filters, i - 1, withQos) + 2 + |filters[i - 1]| + if withQos then 1 else 0
  }

  /** Filter i and its QoS behind the filters before it. */
  predicate FilterAt(buf: seq<Byte>, at: nat, filters: seq<seq<Byte>>, qoss: seq<int>, i: nat, withQos: bool)
    requires i < |filters| && (withQos ==> |qoss| == |filters|)
  {
    var cur := at + FiltersSize(filters, i, withQos);
    TextAt(buf, cur, filters[i])
    && (withQos ==> cur + 2 + |filters[i]| < |buf| && buf[cur + 2 + |filters[i]|] == qoss[i] % 256)
  }

  predicate AllFiltersAt(buf: seq<Byte>, at: nat, filters: seq<seq<Byte>>, qoss: seq<int>, withQos: bool)
    requires withQos ==> |qoss| == |filters|
  {
    forall i :: 0 <= i < |filters| ==> FilterAt(buf, at, filters, qoss, i, withQos)
  }

  /** SUBSCRIBE (type 8) and UNSUBSCRIBE (type 10), with QoS 1 in the first byte: packet id and filters. */
  predicate RequestOnWire(buf: seq<Byte>, kind: int, dup: bool, id: nat, filters: seq<seq<Byte>>, qoss: seq<int>,
                          withQos: bool)
    requires withQos ==> |qoss| == |filters|
  {
    var n := 2 + FiltersSize(filters, |filters|, withQos);
    var at := 1 + LengthSize(n);
    && Framed(buf, kind, dup, 1, false, n) && NumberAt(buf, at, id)
    && AllFiltersAt(buf, at + 2, filters, qoss, withQos)
  }

  /** The flags of a CONNECT, from bit 7 down: user name, password, will retain, will QoS (2), will, clean, 0. */
  predicate ConnectFlags(f: Byte, clean: bool, will: bool, willQos: int, willRetain: bool, username: bool,
                         password: bool)
  {
    && (f / 128 == 1) == username && (f / 64 % 2 == 1) == password
    && (f / 32 % 2 == 1) == (will && willRetain) && f / 8 % 4 == (if will then willQos else 0)
    && (f / 4 % 2 == 1) == will && (f / 2 % 2 == 1) == clean && f % 2 == 0
  }

  /** "MQTT" or "MQIsdp" */
  function ProtocolName(version: int): seq<Byte> {
    if version == 4 then ['M' as int, 'Q' as int, 'T' as int, 'T' as int]
    else ['M' as int, 'Q' as int, 'I' as int, 's' as int, 'd' as int, 'p' as int]
  }

  function TextSize(s: Option<seq<Byte>>): nat { if s.Some? then 2 + |s.value| else 0 }

  /** A will, as topic, message, QoS and RETAIN. */
  datatype Testament = Testament(topic: seq<Byte>, message: seq<Byte>, qos: int, retain: bool)

  function WillSize(w: Option<Testament>): nat {
    if w.Some? then 4 + |w.value.topic| + |w.value.message| else 0
  }

  /** Client id, will, user name and password, in this order. */
  predicate PayloadAt(buf: seq<Byte>, at: nat, clientId: seq<Byte>, will: Option<Testament>,
                      username: Option<seq<Byte>>, password: Option<seq<Byte>>)
  {
    var cur := at + 2 + |clientId|;
    && TextAt(buf, at, clientId)
    && (will.Some? ==>
      TextAt(buf, cur, will.value.topic) && TextAt(buf, cur + 2 + |will.value.topic|, will.value.message))
    && (username.Some? ==> TextAt(buf, cur + WillSize(will), username.value))
    && (password.Some? ==> TextAt(buf, cur + WillSize(will) + TextSize(username), password.value))
  }

  /** Protocol name and level, flags and keep-alive. */
  predicate ConnectHeadAt(buf: seq<Byte>, at: nat, version: int, clean: bool, keepAlive: nat, will: Option<Testament>,
                          username: bool, password: bool)
  {
    var next := at + 2 + |ProtocolName(version)|;
    && TextAt(buf, at, ProtocolName(version))
    && next + 2 <= |buf| && buf[next] == (if version == 4 then 4 else 3)
    && ConnectFlags(buf[next + 1], clean, will.Some?, if will.Some? then will.value.qos else 0,
                    will.Some? && will.value.retain, username, password)
    && NumberAt(buf, next + 2, keepAlive)
  }

  function ConnectSize(version: int, clientId: seq<Byte>, will: Option<Testament>, username: Option<seq<Byte>>,
                       password: Option<seq<Byte>>): nat
  {
    |ProtocolName(version)| + 8 + |clientId| + WillSize(will) + TextSize(username) + TextSize(password)
  }

  /** CONNECT: the head, and the payload right behind it. */
  predicate ConnectOnWire(buf: seq<Byte>, version: int, clean: bool, keepAlive: nat, clientId: seq<Byte>,
                          will: Option<Testament>, username: Option<seq<Byte>>, password: Option<seq<Byte>>)
  {
    var n := ConnectSize(version, clientId, will, username, password);
    var at := 1 + LengthSize(n);
    && Framed(buf, 1, false, 0, false, n)
    && ConnectHeadAt(buf, at, version, clean, keepAlive, will, username.Some?, password.Some?)
    && PayloadAt(buf, at + 6 + |ProtocolName(version)|, clientId, will, username, password)
  }
}
