/**
 * CONNECT packets: the options, their bytes, the serializer and the deserializer, and exactly when the second undoes
 * the first.
 */
module MqttConnect {
  import opened Octets
  import opened Options
  import opened MqttBytes
  import opened MqttPackets
  import Wire = MqttWire

  const CONNECT := 1

  datatype Will = Will(topic: seq<Byte>, message: seq<Byte>, qos: Qos, retain: bool)

  /** What a CONNECT packet carries. */
  datatype Connect = Connect(version: Byte, clean: bool, keepAlive: PacketId, clientId: seq<Byte>,
                             will: Option<Will>, username: Option<seq<Byte>>, password: Option<seq<Byte>>)

  /** "MQTT" */
  const NAME_4: seq<Byte> := [77, 81, 84, 84]
  /** "MQIsdp" */
  const NAME_3: seq<Byte> := [77, 81, 73, 115, 100, 112]

  function Protocol(version: Byte): seq<Byte> {
    if version == 4 then StringBytes(NAME_4) + [4] else StringBytes(NAME_3) + [3]
  }

  function Bit(b: bool, weight: Byte): Byte { if b then weight else 0 }

  function Flags(c: Connect): Byte {
    Bit(c.clean, 2) + Bit(c.will.Some?, 4)
      + (if c.will.Some? then c.will.value.qos * 8 + Bit(c.will.value.retain, 32) else 0)
    + Bit(c.password.Some?, 64) + Bit(c.username.Some?, 128)
  }

  lemma FlagsRead(c: Connect)
    ensures var f := Flags(c);
      && (f / 2 % 2 == 1) == c.clean && (f / 4 % 2 == 1) == c.will.Some?
      && (c.will.Some? ==> f / 8 % 4 == c.will.value.qos && (f / 32 % 2 == 1) == c.will.value.retain)
      && (f / 64 % 2 == 1) == c.password.Some? && (f / 128 == 1) == c.username.Some?
  {
    var w := if c.will.Some? then c.will.value.qos else 0;
    var r := if c.will.Some? && c.will.value.retain then 1 else 0;
    FlagBits(if c.clean then 1 else 0, if c.will.Some? then 1 else 0, w, r,
             if c.password.Some? then 1 else 0, if c.username.Some? then 1 else 0);
  }

  type Flag = x: int | 0 <= x <= 1

  lemma FlagBits(clean: Flag, will: Flag, qos: Qos, retain: Flag, password: Flag, username: Flag)
    ensures var f := clean * 2 + will * 4 + qos * 8 + retain * 32 + password * 64 + username * 128;
      && f / 2 % 2 == clean && f / 4 % 2 == will && f / 8 % 4 == qos && f / 32 % 2 == retain
      && f / 64 % 2 == password && f / 128 == username
  {
    var f := clean * 2 + will * 4 + qos * 8 + retain * 32 + password * 64 + username * 128;
    assert f / 128 == username;
    assert f / 64 == 2 * username + password;
    assert f / 32 == 2 * (2 * username + password) + retain;
    assert f / 8 == 4 * (f / 32) + qos;
    assert f / 4 == 2 * (f / 8) + will;
    assert f / 2 == 2 * (f / 4) + clean;
  }

  function OptionalString(s: Option<seq<Byte>>): seq<Byte> { if s.Some? then StringBytes(s.value) else [] }

  function WillBytes(w: Option<Will>): seq<Byte> {
    if w.Some? then StringBytes(w.value.topic) + StringBytes(w.value.message) else []
  }

  function Credentials(c: Connect): seq<Byte> { OptionalString(c.username) + OptionalString(c.password) }

  function Payload(c: Connect): seq<Byte> { StringBytes(c.clientId) + (WillBytes(c.will) + Credentials(c)) }

  function ConnectBody(c: Connect): seq<Byte> {
    Protocol(c.version) + ([Flags(c)] + (Int16(c.keepAlive) + Payload(c)))
  }

  function ConnectBytes(c: Connect): seq<Byte> { Packet(Header(CONNECT, false, 0, false), ConnectBody(c)) }

  // ------------------------------------------------------------------ the layout

  function Testament(w: Option<Will>): Option<Wire.Testament> {
    if w.Some? then Some(Wire.Testament(w.value.topic, w.value.message, w.value.qos, w.value.retain)) else None
  }

  lemma FlagsOnWire(c: Connect)
    ensures Wire.ConnectFlags(Flags(c), c.clean, c.will.Some?, if c.will.Some? then c.will.value.qos else 0,
      c.will.Some? && c.will.value.retain, c.username.Some?, c.password.Some?)
  {
    var q := if c.will.Some? then c.will.value.qos else 0;
    var r := c.will.Some? && c.will.value.retain;
    assert Flags(c) == Num(c.clean) * 2 + Num(c.will.Some?) * 4 + q * 8 + Num(r) * 32 + Num(c.password.Some?) * 64
        + Num(c.username.Some?) * 128;
    hide Flags;
    FlagBits(Num(c.clean), Num(c.will.Some?), q, Num(r), Num(c.password.Some?), Num(c.username.Some?));
    LowestBit(Num(c.clean), Num(c.will.Some?), q, Num(r), Num(c.password.Some?), Num(c.username.Some?));
  }

  function Num(b: bool): Flag { if b then 1 else 0 }

  lemma LowestBit(clean: Flag, will: Flag, qos: Qos, retain: Flag, password: Flag, username: Flag)
    ensures (clean * 2 + will * 4 + qos * 8 + retain * 32 + password * 64 + username * 128) % 2 == 0
  {
    assert clean * 2 + will * 4 + qos * 8 + retain * 32 + password * 64 + username * 128
        == 2 * (clean + will * 2 + qos * 4 + retain * 16 + password * 32 + username * 64);
  }

  lemma PayloadOnWire(buf: seq<Byte>, at: nat, c: Connect)
    requires Has(buf, at, Payload(c))
    ensures Wire.PayloadAt(buf, at, c.clientId, Testament(c.will), c.username, c.password)
    ensures |Payload(c)| == 2 + |c.clientId| + Wire.WillSize(Testament(c.will)) + Wire.TextSize(c.username)
        + Wire.TextSize(c.password)
  {
    hide Has;
    hide StringBytes;
    hide Wire.TextAt;
    hide WillBytes;
    hide Credentials;
    hide Testament;
    hide Wire.WillSize;
    hide Wire.TextSize;
    var cur := at + 2 + |c.clientId|;
    HasBoth(buf, at, StringBytes(c.clientId), WillBytes(c.will) + Credentials(c));
    TextOnWire(buf, at, c.clientId);
    HasBoth(buf, cur, WillBytes(c.will), Credentials(c));
    WillOnWire(buf, cur, c.will);
    CredentialsOnWire(buf, cur + |WillBytes(c.will)|, c);
  }

  lemma WillOnWire(buf: seq<Byte>, at: nat, will: Option<Will>)
    requires Has(buf, at, WillBytes(will))
    ensures var w := Testament(will);
      && |WillBytes(will)| == Wire.WillSize(w)
      && (w.Some? ==>
        Wire.TextAt(buf, at, w.value.topic) && Wire.TextAt(buf, at + 2 + |w.value.topic|, w.value.message))
  {
    hide Has;
    hide StringBytes;
    hide Wire.TextAt;
    if will.Some? {
      HasBoth(buf, at, StringBytes(will.value.topic), StringBytes(will.value.message));
      TextOnWire(buf, at, will.value.topic);
      TextOnWire(buf, at + 2 + |will.value.topic|, will.value.message);
    }
  }

  lemma CredentialsOnWire(buf: seq<Byte>, at: nat, c: Connect)
    requires Has(buf, at, Credentials(c))
    ensures |Credentials(c)| == Wire.TextSize(c.username) + Wire.TextSize(c.password)
    ensures c.username.Some? ==> Wire.TextAt(buf, at, c.username.value)
    ensures c.password.Some? ==> Wire.TextAt(buf, at + Wire.TextSize(c.username), c.password.value)
  {
    hide Has;
    hide StringBytes;
    hide Wire.TextAt;
    HasBoth(buf, at, OptionalString(c.username), OptionalString(c.password));
    if c.username.Some? {
      TextOnWire(buf, at, c.username.value);
    }
    if c.password.Some? {
      TextOnWire(buf, at + |OptionalString(c.username)|, c.password.value);
    }
  }

  /** Name, level, flags and keep-alive in front of the payload. */
  lemma HeadOnWire(buf: seq<Byte>, at: nat, c: Connect)
    requires Has(buf, at, ConnectBody(c))
    ensures Wire.ConnectHeadAt(buf, at, c.version, c.clean, c.keepAlive, Testament(c.will), c.username.Some?,
      c.password.Some?)
    ensures Has(buf, at + 6 + |Wire.ProtocolName(c.version)|, Payload(c))
    ensures |ConnectBody(c)| == |Wire.ProtocolName(c.version)| + 6 + |Payload(c)|
  {
    hide Flags;
    hide Payload;
    hide StringBytes;
    hide Int16;
    hide Wire.TextAt;
    hide Wire.NumberAt;
    hide Wire.ConnectFlags;
    FlagsOnWire(c);
    var name, level := Wire.ProtocolName(c.version), if c.version == 4 then 4 else 3;
    assert Protocol(c.version) == StringBytes(name) + [level];
    hide Protocol;
    hide Wire.ProtocolName;
    hide Has;
    var next := at + 2 + |name|;
    HasBoth(buf, at, Protocol(c.version), [Flags(c)] + (Int16(c.keepAlive) + Payload(c)));
    HasBoth(buf, at, StringBytes(name), [level]);
    TextOnWire(buf, at, name);
    ByteOnWire(buf, next, level);
    HasBoth(buf, next + 1, [Flags(c)], Int16(c.keepAlive) + Payload(c));
    ByteOnWire(buf, next + 1, Flags(c));
    HasBoth(buf, next + 2, Int16(c.keepAlive), Payload(c));
    NumberOnWire(buf, next + 2, c.keepAlive);
  }

  lemma ByteOnWire(buf: seq<Byte>, at: nat, b: Byte)
    requires Has(buf, at, [b])
    ensures at < |buf| && buf[at] == b
  {
    assert buf[at..at + 1][0] == buf[at];
  }

  /** The layout of a CONNECT with these options. */
  predicate LaidOut(buf: seq<Byte>, c: Connect) {
    Wire.ConnectOnWire(buf, c.version, c.clean, c.keepAlive, c.clientId, Testament(c.will), c.username, c.password)
  }

  /** The bytes of a CONNECT are laid out as they have to be. */
  lemma ConnectLaidOut(c: Connect)
    requires |ConnectBody(c)| <= MAX_REMAINING
    ensures LaidOut(ConnectBytes(c), c)
  {
    hide ConnectBody;
    hide Payload;
    hide Packet;
    hide Header;
    hide Has;
    hide Testament;
    hide Wire.Framed;
    hide Wire.PayloadAt;
    hide Wire.ConnectHeadAt;
    hide Wire.LengthSize;
    hide Wire.ProtocolName;
    hide Wire.WillSize;
    hide Wire.TextSize;
    var buf := ConnectBytes(c);
    var at := 1 + Wire.LengthSize(|ConnectBody(c)|);
    FrameOnWire(CONNECT, false, 0, false, ConnectBody(c));
    HeadOnWire(buf, at, c);
    PayloadOnWire(buf, at + 6 + |Wire.ProtocolName(c.version)|, c);
    assert Wire.ConnectSize(c.version, c.clientId, Testament(c.will), c.username, c.password) == |ConnectBody(c)|;
  }

  // ------------------------------------------------------------------ reading

  function ReadWill(buf: seq<Byte>, cur: nat, end: nat, flags: Byte): Option<(Option<Will>, nat)> {
    if flags / 4 % 2 == 0 then Some((None, cur))
    else match ReadString(buf, cur, end)
    case None => None
    case Some((topic, next)) =>
      match ReadString(buf, next, end)
      case None => None
      case Some((message, last)) => Some((Some(Will(topic, message, flags / 8 % 4, flags / 32 % 2 == 1)), last))
  }

  /** A string of at least one byte, when the flag announces it. */
  function ReadFlagged(buf: seq<Byte>, cur: nat, end: nat, flag: bool): Option<(Option<seq<Byte>>, nat)> {
    if !flag then Some((None, cur))
    else if end < cur + 3 then None
    else match ReadString(buf, cur, end)
    case None => None
    case Some((s, next)) => Some((Some(s), next))
  }

  function ReadCredentials(buf: seq<Byte>, cur: nat, end: nat, flags: Byte): Option<(Option<seq<Byte>>,
                           Option<seq<Byte>>)> {
    if flags / 128 == 1 then
      match ReadFlagged(buf, cur, end, true)
      case None => None
      case Some((username, next)) =>
        match ReadFlagged(buf, next, end, flags / 64 % 2 == 1)
        case None => None
        case Some((password, last)) => Some((username, password))
    else if flags / 64 % 2 == 1 then None
    else Some((None, None))
  }

  function ReadPayload(buf: seq<Byte>, cur: nat, end: nat, version: Byte, flags: Byte, keepAlive: PacketId)
    : Option<Connect>
  {
    match ReadString(buf, cur, end)
    case None => None
    case Some((clientId, next)) =>
      match ReadWill(buf, next, end, flags)
      case None => None
      case Some((will, last)) =>
        match ReadCredentials(buf, last, end, flags)
        case None => None
        case Some((username, password)) =>
          Some(Connect(version, flags / 2 % 2 == 1, keepAlive, clientId, will, username, password))
  }

  /** MQTTPacket_checkVersion compares no more of the name than there is. */
  predicate VersionKnown(name: seq<Byte>, version: Byte) {
    || (version == 3 && Prefixed(name, NAME_3))
    || (version == 4 && Prefixed(name, NAME_4))
  }

  predicate Prefixed(name: seq<Byte>, wanted: seq<Byte>) {
    var n := if |name| < |wanted| then |name| else |wanted|;
    name[..n] == wanted[..n]
  }

  /** MQTTDeserialize_connect: None for the return code 0. */
  function DeserializeConnect(buf: seq<Byte>, len: nat): Option<Connect> {
    if Kind(At(buf, 0)) != CONNECT then None
    else ReadConnect(buf, 1 + Decoded(buf, 1, 0, 1, 0).1, len)
  }

  function ReadConnect(buf: seq<Byte>, at: nat, len: nat): Option<Connect> {
    match ReadString(buf, at, len)
    case None => None
    case Some((name, cur)) =>
      if !VersionKnown(name, At(buf, cur)) then None
      else ReadPayload(buf, cur + 4, len, At(buf, cur), At(buf, cur + 1), ReadInt(buf, cur + 2))
  }

  // ------------------------------------------------------------------ exactly when the round trip works

  ghost predicate Fits(s: Option<seq<Byte>>) { s.Some? ==> |s.value| <= 0xFFFF }

  ghost predicate WillFits(w: Option<Will>) { w.Some? ==> |w.value.topic| <= 0xFFFF && |w.value.message| <= 0xFFFF }

  /** Options the packet format has room for. */
  ghost predicate Valid(c: Connect) {
    && c.version in {3, 4} && |c.clientId| <= 0xFFFF && WillFits(c.will)
    && Fits(c.username) && Fits(c.password) && |ConnectBody(c)| <= MAX_REMAINING
  }

  /** A password comes with a user name and is not empty; a user name that comes alone is not empty. */
  predicate Acceptable(c: Connect) {
    && (c.password.Some? ==> c.username.Some? && |c.password.value| > 0)
    && (c.username.Some? && c.password.None? ==> |c.username.value| > 0)
  }

  lemma CredentialsBack(buf: seq<Byte>, at: nat, c: Connect, flags: Byte)
    requires Fits(c.username) && Fits(c.password) && Has(buf, at, Credentials(c))
    requires (flags / 64 % 2 == 1) == c.password.Some? && (flags / 128 == 1) == c.username.Some?
    ensures ReadCredentials(buf, at, at + |Credentials(c)|, flags)
      == if Acceptable(c) then Some((c.username, c.password)) else None
  {
    hide Has;
    hide ReadString;
    var end := at + |Credentials(c)|;
    HasBoth(buf, at, OptionalString(c.username), OptionalString(c.password));
    if c.username.Some? {
      StringRead(buf, at, end, c.username.value);
      if c.password.Some? {
        StringRead(buf, at + 2 + |c.username.value|, end, c.password.value);
      }
    }
  }

  lemma WillBack(buf: seq<Byte>, at: nat, end: nat, w: Option<Will>, flags: Byte)
    requires WillFits(w) && Has(buf, at, WillBytes(w)) && at + |WillBytes(w)| <= end
    requires (flags / 4 % 2 == 1) == w.Some?
    requires w.Some? ==> flags / 8 % 4 == w.value.qos && (flags / 32 % 2 == 1) == w.value.retain
    ensures ReadWill(buf, at, end, flags) == Some((w, at + |WillBytes(w)|))
  {
    hide Has;
    hide ReadString;
    hide StringBytes;
    if w.Some? {
      HasBoth(buf, at, StringBytes(w.value.topic), StringBytes(w.value.message));
      StringRead(buf, at, end, w.value.topic);
      StringRead(buf, at + 2 + |w.value.topic|, end, w.value.message);
    }
  }

  lemma PayloadBack(buf: seq<Byte>, at: nat, c: Connect)
    requires |c.clientId| <= 0xFFFF && WillFits(c.will) && Fits(c.username) && Fits(c.password)
    requires Has(buf, at, Payload(c))
    ensures ReadPayload(buf, at, at + |Payload(c)|, c.version, Flags(c), c.keepAlive)
      == if Acceptable(c) then Some(c) else None
  {
    hide Has;
    hide ReadString;
    hide ReadWill;
    hide ReadCredentials;
    hide WillBytes;
    hide Credentials;
    hide Acceptable;
    hide WillFits;
    hide Fits;
    FlagsRead(c);
    hide Flags;
    HasBoth(buf, at, StringBytes(c.clientId), WillBytes(c.will) + Credentials(c));
    var next := at + 2 + |c.clientId|;
    HasBoth(buf, next, WillBytes(c.will), Credentials(c));
    StringRead(buf, at, at + |Payload(c)|, c.clientId);
    WillBack(buf, next, at + |Payload(c)|, c.will, Flags(c));
    CredentialsBack(buf, next + |WillBytes(c.will)|, c, Flags(c));
  }

  lemma ProtocolBack(buf: seq<Byte>, at: nat, end: nat, version: Byte)
    requires version in {3, 4} && Has(buf, at, Protocol(version)) && at + |Protocol(version)| <= end
    ensures var name := if version == 4 then NAME_4 else NAME_3;
      && ReadString(buf, at, end) == Some((name, at + 2 + |name|))
      && |Protocol(version)| == 3 + |name| && At(buf, at + 2 + |name|) == version && VersionKnown(name, version)
  {
    hide Has;
    hide ReadString;
    hide At;
    var name := if version == 4 then NAME_4 else NAME_3;
    HasBoth(buf, at, StringBytes(name), [version]);
    StringRead(buf, at, end, name);
    HasFirst(buf, at + 2 + |name|, [version]);
  }

  lemma BodyBack(buf: seq<Byte>, at: nat, c: Connect)
    requires c.version in {3, 4} && |c.clientId| <= 0xFFFF && WillFits(c.will) && Fits(c.username) && Fits(c.password)
    requires Has(buf, at, ConnectBody(c))
    ensures ReadConnect(buf, at, at + |ConnectBody(c)|) == if Acceptable(c) then Some(c) else None
  {
    hide Has;
    hide ReadString;
    hide ReadPayload;
    hide Payload;
    hide Acceptable;
    hide WillFits;
    hide Fits;
    hide Flags;
    hide At;
    hide ReadInt;
    hide Protocol;
    hide VersionKnown;
    hide Int16;
    var end := at + |ConnectBody(c)|;
    HasBoth(buf, at, Protocol(c.version), [Flags(c)] + (Int16(c.keepAlive) + Payload(c)));
    ProtocolBack(buf, at, end, c.version);
    var cur := at + |Protocol(c.version)|;
    HasBoth(buf, cur, [Flags(c)], Int16(c.keepAlive) + Payload(c));
    HasFirst(buf, cur, [Flags(c)]);
    HasBoth(buf, cur + 1, Int16(c.keepAlive), Payload(c));
    IntRead(buf, cur + 1, c.keepAlive);
    PayloadBack(buf, cur + 3, c);
  }

  /**
   * Deserialize undoes serialize exactly for acceptable credentials; all other CONNECTs the serializer makes are
   * refused.
   */
  lemma ConnectRoundTrip(buf: seq<Byte>, c: Connect)
    requires Valid(c) && Has(buf, 0, ConnectBytes(c))
    ensures DeserializeConnect(buf, |ConnectBytes(c)|) == if Acceptable(c) then Some(c) else None
  {
    var at := ConnectFramed(buf, c);
    hide Fits;
    hide WillFits;
    hide Has;
    hide ConnectBytes;
    hide ConnectBody;
    hide Acceptable;
    hide Decoded;
    hide ReadConnect;
    hide Kind;
    hide At;
    BodyBack(buf, at, c);
  }

  /** The body stands behind the length field. */
  lemma ConnectFramed(buf: seq<Byte>, c: Connect) returns (at: nat)
    requires |ConnectBody(c)| <= MAX_REMAINING && Has(buf, 0, ConnectBytes(c))
    ensures Kind(At(buf, 0)) == CONNECT && at == 1 + Decoded(buf, 1, 0, 1, 0).1
    ensures Has(buf, at, ConnectBody(c)) && |ConnectBytes(c)| == at + |ConnectBody(c)|
  {
    hide Has;
    hide ConnectBody;
    hide Decoded;
    hide LengthBytes;
    hide At;
    HeaderRead(CONNECT, false, 0, false);
    hide Header;
    hide Kind;
    Framed(buf, Header(CONNECT, false, 0, false), ConnectBody(c));
    FrameIs(Header(CONNECT, false, 0, false), ConnectBody(c));
    hide Packet;
    at := 1 + |LengthBytes(|ConnectBody(c)|)|;
  }

  /** Such CONNECTs exist: a user name and an empty password. */
  lemma EmptyPasswordRefused(buf: seq<Byte>)
    requires var c := Connect(4, true, 60, [97], None, Some([98]), Some([])); Has(buf, 0, ConnectBytes(c))
    ensures DeserializeConnect(buf, 20) == None
  {
    var c := Connect(4, true, 60, [97], None, Some([98]), Some([]));
    assert |ConnectBody(c)| == 18;
    ConnectRoundTrip(buf, c);
  }

  // ------------------------------------------------------------------ writing

  datatype WillOptions = WillOptions(topic: MqttString, message: MqttString, qos: Qos, retained: bool)

  datatype ConnectOptions = ConnectOptions(version: Byte, clientId: MqttString, keepAlive: PacketId, clean: bool,
    willFlag: bool,
                                           will: WillOptions, username: MqttString, password: MqttString) {
    ghost predicate Valid() {
      && version in {3, 4} && Good(clientId) && Good(username) && Good(password) && Good(will.topic)
        && Good(will.message)
    }

    function Value(): Connect
      requires Valid()
    {
      Connect(version, clean, keepAlive, clientId.Content(),
              if willFlag then Some(Will(will.topic.Content(), will.message.Content(), will.qos,
                will.retained)) else None,
              Carried(username), Carried(password))
    }

    /** MQTTSerialize_connectLength */
    function Length(): nat {
      (if version == 3 then 12 else if version == 4 then 10 else 0) + clientId.StrLen() + 2
      + (if willFlag then will.topic.StrLen() + 2 + will.message.StrLen() + 2 else 0)
      + (if username.Present() then username.StrLen() + 2 else 0)
      + (if password.Present() then password.StrLen() + 2 else 0)
    }
  }

  ghost predicate Good(s: MqttString) { s.Valid() && s.StrLen() == |s.Content()| }

  function Carried(s: MqttString): Option<seq<Byte>>
    requires Good(s)
  {
    if s.Present() then Some(s.Content()) else None
  }

  /** The length computed beforehand is the length written. */
  lemma LengthExact(o: ConnectOptions)
    requires o.Valid()
    ensures o.Length() == |ConnectBody(o.Value())|
  {
  }

  method WriteOptional(buf: array<Byte>, ptr: nat, flag: bool, s: MqttString) returns (end: nat)
    requires Good(s) && ptr + |OptionalString(if flag then Some(s.Content()) else None)| <= buf.Length
    modifies buf
    ensures var bytes := OptionalString(if flag then Some(s.Content()) else None);
      end == ptr + |bytes| && buf[..end] == old(buf[..ptr]) + bytes
    ensures forall j :: end <= j < buf.Length ==> buf[j] == old(buf[j])
  {
    end := ptr;
    if flag {
      end := WriteString(buf, ptr, s);
    }
  }

  /** Client id, will, user name and password. */
  method WritePayload(buf: array<Byte>, at: nat, o: ConnectOptions) returns (ptr: nat)
    requires o.Valid() && at + |Payload(o.Value())| <= buf.Length
    modifies buf
    ensures ptr == at + |Payload(o.Value())| && buf[..ptr] == old(buf[..at]) + Payload(o.Value())
    ensures forall j :: ptr <= j < buf.Length ==> buf[j] == old(buf[j])
  {
    ghost var c := o.Value();
    PayloadJoin(buf[..at], c);
    ghost var topic := OptionalString(if o.willFlag then Some(o.will.topic.Content()) else None);
    ghost var message := OptionalString(if o.willFlag then Some(o.will.message.Content()) else None);
    WillJoin(buf[..at] + StringBytes(c.clientId), c.will, topic, message);
    hide Payload;
    hide StringBytes;
    hide Good;
    hide WillBytes;
    ptr := WriteString(buf, at, o.clientId);
    hide OptionalString;
    ptr := WriteOptional(buf, ptr, o.willFlag, o.will.topic);
    ptr := WriteOptional(buf, ptr, o.willFlag, o.will.message);
    ptr := WriteOptional(buf, ptr, o.username.Present(), o.username);
    ptr := WriteOptional(buf, ptr, o.password.Present(), o.password);
  }

  lemma PayloadJoin(start: seq<Byte>, c: Connect)
    ensures start + StringBytes(c.clientId) + WillBytes(c.will) + OptionalString(c.username)
      + OptionalString(c.password)
      == start + Payload(c)
    ensures |Payload(c)|
      == |StringBytes(c.clientId)| + |WillBytes(c.will)| + |OptionalString(c.username)| + |OptionalString(c.password)|
    ensures |StringBytes(c.clientId)| == 2 + |c.clientId|
  {
  }

  lemma WillJoin(start: seq<Byte>, w: Option<Will>, topic: seq<Byte>, message: seq<Byte>)
    requires topic == OptionalString(if w.Some? then Some(w.value.topic) else None)
    requires message == OptionalString(if w.Some? then Some(w.value.message) else None)
    ensures start + topic + message == start + WillBytes(w) && |WillBytes(w)| == |topic| + |message|
  {
  }

  /** The layout of a CONNECT, from the options as the caller sets them. */
  ghost predicate OptionsLaidOut(buf: seq<Byte>, o: ConnectOptions)
    requires o.Valid()
  {
    Wire.ConnectOnWire(buf, o.version, o.clean, o.keepAlive, o.clientId.Content(),
                       if o.willFlag then
                         Some(Wire.Testament(o.will.topic.Content(), o.will.message.Content(), o.will.qos,
                                             o.will.retained))
                       else None,
                       if o.username.Present() then Some(o.username.Content()) else None,
                       if o.password.Present() then Some(o.password.Content()) else None)
  }

  lemma OptionsAreLaidOut(o: ConnectOptions)
    requires o.Valid() && |ConnectBody(o.Value())| <= MAX_REMAINING
    ensures OptionsLaidOut(ConnectBytes(o.Value()), o)
  {
    hide Wire.ConnectOnWire;
    hide ConnectBytes;
    hide ConnectBody;
    hide Good;
    ConnectLaidOut(o.Value());
  }

  /** MQTTSerialize_connect */
  method SerializeConnect(buf: array<Byte>, buflen: nat, o: ConnectOptions) returns (rc: int)
    requires buflen <= buf.Length && o.Valid() && o.Length() <= MAX_REMAINING
    modifies buf
    ensures var bytes := ConnectBytes(o.Value());
      var short := PacketLen(o.Length()) > buflen;
      && rc == (if short then BUFFER_TOO_SHORT else |bytes|)
      && (if short then buf[..] == old(buf[..])
          else |bytes| <= buflen && buf[..rc] == bytes && (forall j :: rc <= j < buf.Length ==> buf[j] == old(buf[j])))
    ensures rc > 0 ==> rc <= buf.Length && OptionsLaidOut(buf[..rc], o)
  {
    var len := o.Length();
    LengthExact(o);
    if PacketLen(len) > buflen {
      return BUFFER_TOO_SHORT;
    }
    RoomForPacket(len);
    FrameIs(Header(CONNECT, false, 0, false), ConnectBody(o.Value()));
    OptionsAreLaidOut(o);
    hide PacketLen;
    hide LengthBytes;
    hide ConnectBody;
    hide OptionsLaidOut;
    hide Packet;
    hide Header;
    hide ConnectOptions.Valid;
    hide ConnectOptions.Length;
    rc := FillConnect(buf, len, o);
  }

  /** The packet, into a buffer that has room for it. */
  method FillConnect(buf: array<Byte>, len: nat, o: ConnectOptions) returns (ptr: nat)
    requires o.Valid() && len == |ConnectBody(o.Value())| && |ConnectBytes(o.Value())| <= buf.Length
    modifies buf
    ensures ptr == |ConnectBytes(o.Value())| && buf[..ptr] == ConnectBytes(o.Value())
    ensures forall j :: ptr <= j < buf.Length ==> buf[j] == old(buf[j])
  {
    ghost var c := o.Value();
    FrameIs(Header(CONNECT, false, 0, false), ConnectBody(c));
    ConnectJoin([Header(CONNECT, false, 0, false)] + LengthBytes(len), c);
    hide LengthBytes;
    hide ConnectBody;
    hide Packet;
    hide Header;
    hide Payload;
    hide Protocol;
    hide Int16;
    hide ConnectOptions.Valid;
    ptr := Begin(buf, Header(CONNECT, false, 0, false), len);
    ptr := Put(buf, ptr, Protocol(o.version));
    var flags := FlagsFor(o);
    ptr := Put(buf, ptr, [flags]);
    ptr := Put(buf, ptr, Int16(o.keepAlive));
    ptr := WritePayload(buf, ptr, o);
  }

  /** The flags byte, bit by bit. */
  method FlagsFor(o: ConnectOptions) returns (flags: Byte)
    requires o.Valid()
    ensures flags == Flags(o.Value())
  {
    flags := Bit(o.clean, 2) + Bit(o.willFlag, 4);
    if o.willFlag {
      flags := flags + o.will.qos * 8 + Bit(o.will.retained, 32);
    }
    if o.username.Present() {
      flags := flags + 128;
    }
    if o.password.Present() {
      flags := flags + 64;
    }
  }

  lemma ConnectJoin(start: seq<Byte>, c: Connect)
    ensures start + Protocol(c.version) + [Flags(c)] + Int16(c.keepAlive) + Payload(c) == start + ConnectBody(c)
    ensures |ConnectBody(c)| == |Protocol(c.version)| + 3 + |Payload(c)|
  {
  }
}
