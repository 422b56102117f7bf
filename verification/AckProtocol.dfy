/**
 * The QoS 1 and QoS 2 protocol of the MQTT client as a state machine: what every handler keeps, and what holds over
 * whole runs. A network send succeeds or fails as the environment likes; timers expire when it likes.
 */
module AckProtocol {
  import opened Octets
  import opened Options
  import opened MqttBytes
  import opened MqttPackets
  import opened AckTable

  const ACK_MAX := 64
  const MAX_PACKET_ID := 0xFFFE

  const NODE_EXISTS := -0x17
  const TOO_MUCH := -0x16
  const SEND_FAILED := -0x13
  const NOT_CONNECTED := -0x0E
  const SHORT_BUFFER := -0x08

  datatype ClientState = Invalid | Initialized | Connected | Disconnected | CleanSession

  /** The client, with all packets it sent and all messages it delivered. */
  datatype Client = Client(acks: seq<Node>, count: nat, packetId: PacketId, state: ClientState, bufSize: nat,
                           sent: seq<seq<Byte>>, delivered: seq<Publish>)

  datatype Event =
    | SendPublish(p: Publish, ok: bool)
    | SendRequest(kind: Nibble, packet: seq<Byte>, ok: bool, handled: bool)
    | GotPublish(p: Publish, ok: bool)
    | GotAck(kind: Nibble, id: PacketId, ok: bool)
    | Scan(timed: bool, expired: set<Key>, reachable: set<Key>)
    | SetState(to: ClientState)
    | Clean

  function NextId(id: PacketId): PacketId
    requires id <= MAX_PACKET_ID
  {
    if id == MAX_PACKET_ID then 1 else id + 1
  }

  // ------------------------------------------------------------------ the list operations

  /** mqtt_ack_list_record */
  function Record(c: Client, key: Key, payload: seq<Byte>): Client {
    if key in Table(c.acks) then c else c.(acks := c.acks + [Node(key, payload)], count := c.count + 1)
  }

  /** mqtt_ack_list_unrecord: every node of that type and id goes, and the counter with it. */
  function Unrecord(c: Client, key: Key): Client {
    c.(acks := Remove(c.acks, key), count := Less(c.count, |c.acks| - |Remove(c.acks, key)|))
  }

  function Less(count: nat, gone: int): nat { if count >= gone then count - gone else 0 }

  function Send(c: Client, packet: seq<Byte>, ok: bool): Client { if ok then c.(sent := c.sent + [packet]) else c }

  // ------------------------------------------------------------------ publishing

  /** The packet with the DUP bit set, cut to a length kept in 16 bits. */
  function Saved(bytes: seq<Byte>): seq<Byte>
    requires bytes != []
  {
    DupSet(bytes)[..|bytes| % 0x10000]
  }

  function DupSet(bytes: seq<Byte>): (r: seq<Byte>)
    requires bytes != []
    ensures |r| == |bytes|
  {
    bytes[0 := if Dup(bytes[0]) then bytes[0] else bytes[0] + 8]
  }

  /** What is saved is the sent packet with only DUP set exactly for packets up to 65535 bytes. */
  lemma SavedWhole(bytes: seq<Byte>)
    requires bytes != []
    ensures Saved(bytes) == DupSet(bytes) <==> |bytes| <= 0xFFFF
  {
    assert DupSet(bytes)[..|bytes|] == DupSet(bytes);
  }

  /** The saved packet is that of the same message with DUP set: a receiver reads the same PUBLISH from it. */
  lemma SavedReads(buf: seq<Byte>, p: Publish, idBefore: PacketId)
    requires !p.dup && |p.topic| <= 0xFFFF && |PublishBody(p)| <= MAX_REMAINING && |PublishBytes(p)| <= 0xFFFF
    requires Has(buf, 0, Saved(PublishBytes(p)))
    ensures DeserializePublish(buf, idBefore)
      == PublishRead(1, Some(p.(dup := true, id := if p.qos > 0 then p.id else idBefore)), |p.payload|)
  {
    DupWritten(p);
    hide PublishBytes;
    hide DeserializePublish;
    hide Has;
    hide Saved;
    SavedWhole(PublishBytes(p));
    PublishRoundTrip(buf, p.(dup := true), idBefore);
  }

  /** Setting DUP in the packet is writing the message with DUP set. */
  lemma DupWritten(p: Publish)
    requires !p.dup
    ensures PublishBody(p.(dup := true)) == PublishBody(p) && DupSet(PublishBytes(p)) == PublishBytes(p.(dup := true))
  {
    assert PublishBody(p.(dup := true)) == PublishBody(p);
    hide PublishBody;
  }

  /** The type of answer that a publication waits for first. */
  function Awaited(qos: Qos): Nibble { if qos == 1 then PUBACK else PUBREC }

  /** The message as mqtt_publish sends it. */
  function Outgoing(c: Client, p: Publish): Publish
    requires c.packetId <= MAX_PACKET_ID
  {
    p.(dup := false, id := if p.qos > 0 then NextId(c.packetId) else p.id)
  }

  /** mqtt_publish: the client afterwards and the return code, the packet's length on success. */
  function PublishStep(c: Client, p: Publish, ok: bool): (Client, int)
    requires c.packetId <= MAX_PACKET_ID && p.qos <= 2
  {
    if c.state != Connected then (c, NOT_CONNECTED)
    else if p.qos > 0 && c.count >= ACK_MAX then (c.(state := Disconnected), TOO_MUCH)
    else
      var q := Outgoing(c, p);
      var c1 := if p.qos > 0 then c.(packetId := q.id) else c;
      var bytes := PublishBytes(q);
      if PacketLen(|PublishBody(q)|) > c.bufSize then (c1, SHORT_BUFFER)
      else if !ok then (c1, SEND_FAILED)
      else
        var c2 := Send(c1, bytes, true);
        if p.qos == 0 then (c2, |bytes|)
        else if Key(Awaited(p.qos), q.id) in Table(c.acks) then (c2, NODE_EXISTS)
        else (Record(c2, Key(Awaited(p.qos), q.id), Saved(bytes)), |bytes|)
  }

  /**
   * mqtt_subscribe and mqtt_unsubscribe, as far as the ack list is concerned: without a message handler nothing is
   * recorded.
   */
  function RequestStep(c: Client, kind: Nibble, packet: seq<Byte>, ok: bool, handled: bool): Client
    requires c.packetId <= MAX_PACKET_ID
  {
    if c.state != Connected then c
    else
      var c1 := c.(packetId := NextId(c.packetId));
      if !ok then c1
      else if !handled then Send(c1, packet, true)
      else Record(Send(c1, packet, true), Key(kind, c1.packetId), packet[..|packet| % 0x10000])
  }

  // ------------------------------------------------------------------ handlers

  /** mqtt_publish_packet_handle; no acknowledgement exists for QoS 3, which ends the handling. */
  function GotPublishStep(c: Client, p: Publish, ok: bool): Client {
    if c.state != Connected then c
    else if p.qos == 0 then Deliver(c, p)
    else if p.qos == 3 || !ok then c
    else if p.qos == 1 then Deliver(Send(c, AckBytes(PUBACK, false, p.id), true), p)
    else
      var c1 := Send(c, AckBytes(PUBREC, false, p.id), true);
      if Key(PUBREL, p.id) in Table(c.acks) then c1
      else Deliver(Record(c1, Key(PUBREL, p.id), AckBytes(PUBREC, false, p.id)), p)
  }

  function Deliver(c: Client, p: Publish): Client { c.(delivered := c.delivered + [p]) }

  /** The handlers of PUBACK, PUBREC, PUBREL, PUBCOMP, SUBACK and UNSUBACK. */
  function GotAckStep(c: Client, kind: Nibble, id: PacketId, ok: bool): Client {
    if c.state != Connected then c
    else if kind == PUBREC then
      var c1 := if Key(PUBCOMP, id) in Table(c.acks) then c
        else Send(Record(c, Key(PUBCOMP, id), AckBytes(PUBREL, false, id)), AckBytes(PUBREL, false, id), ok);
      Unrecord(c1, Key(PUBREC, id))
    else if kind == PUBREL then Unrecord(Send(c, AckBytes(PUBCOMP, false, id), ok), Key(PUBREL, id))
    else Unrecord(c, Key(kind, id))
  }

  /** The nodes a scan looks at: all of them right after a reconnect, and those that timed out otherwise. */
  function Due(c: Client, timed: bool, expired: set<Key>): set<Key> {
    if timed then expired else Table(c.acks).Keys
  }

  /** mqtt_ack_list_scan */
  function ScanStep(c: Client, timed: bool, expired: set<Key>, reachable: set<Key>): Client {
    if c.state != Connected then c
    else
      var due := Due(c, timed, expired);
      c.(acks := Keep(c.acks, due), count := Less(c.count, |c.acks| - |Keep(c.acks, due)|),
         sent := c.sent + Resent(c.acks, due, reachable))
  }

  /** mqtt_clean_session */
  function CleanStep(c: Client): Client { c.(acks := [], count := 0, state := Invalid) }

  function Step(c: Client, e: Event): (r: Client)
    requires c.packetId <= MAX_PACKET_ID && Sensible(e)
    ensures r.packetId <= MAX_PACKET_ID
  {
    match e
    case SendPublish(p, ok) => PublishStep(c, p, ok).0
    case SendRequest(kind, packet, ok, handled) => RequestStep(c, kind, packet, ok, handled)
    case GotPublish(p, ok) => GotPublishStep(c, p, ok)
    case GotAck(kind, id, ok) => GotAckStep(c, kind, id, ok)
    case Scan(timed, expired, reachable) => ScanStep(c, timed, expired, reachable)
    case SetState(to) => c.(state := to)
    case Clean => CleanStep(c)
  }

  /** Calls and packets that exist: QoS up to 2, requests for SUBACK or UNSUBACK, acknowledgements of six types. */
  predicate Sensible(e: Event) {
    match e
    case SendPublish(p, _) => p.qos <= 2
    case SendRequest(kind, _, _, _) => kind in {SUBACK, UNSUBACK}
    case GotAck(kind, _, _) => kind in {PUBACK, PUBREC, PUBREL, PUBCOMP, SUBACK, UNSUBACK}
    case _ => true
  }

  // ------------------------------------------------------------------ the history of publications and handshakes

  datatype Stage = AwaitAck | AwaitRec | AwaitComp | Done

  datatype Publication = Publication(id: PacketId, bytes: seq<Byte>, stage: Stage)

  /** The client, everything published with QoS 1 or 2, and the QoS 2 ids received since their last PUBREL. */
  datatype World = World(c: Client, pubs: seq<Publication>, open: set<PacketId>)

  /** How an acknowledgement moves a publication on. */
  function Moved(p: Publication, kind: Nibble, id: PacketId): Publication {
    if p.id != id then p
    else if kind == PUBACK && p.stage == AwaitAck then p.(stage := Done)
    else if kind == PUBREC && p.stage == AwaitRec then p.(stage := AwaitComp)
    else if kind == PUBCOMP && p.stage == AwaitComp then p.(stage := Done)
    else p
  }

  function AllMoved(pubs: seq<Publication>, kind: Nibble, id: PacketId): (r: seq<Publication>)
    ensures |r| == |pubs| && forall i :: 0 <= i < |pubs| ==> r[i] == Moved(pubs[i], kind, id)
  {
    seq(|pubs|, i requires 0 <= i < |pubs| => Moved(pubs[i], kind, id))
  }

  function Published(w: World, p: Publish, ok: bool): seq<Publication>
    requires w.c.packetId <= MAX_PACKET_ID && p.qos <= 2
  {
    if p.qos > 0 && PublishStep(w.c, p, ok).1 > 0 then
      var q := Outgoing(w.c, p);
      w.pubs + [Publication(q.id, PublishBytes(q), if p.qos == 1 then AwaitAck else AwaitRec)]
    else w.pubs
  }

  function WorldStep(w: World, e: Event): World
    requires w.c.packetId <= MAX_PACKET_ID && Sensible(e)
  {
    var c := Step(w.c, e);
    match e
    case SendPublish(p, ok) => World(c, Published(w, p, ok), w.open)
    case GotPublish(p, ok) =>
      World(c, w.pubs, if w.c.state == Connected && p.qos == 2 && ok then w.open + {p.id} else w.open)
    case GotAck(kind, id, ok) =>
      if w.c.state != Connected then World(c, w.pubs, w.open)
      else World(c, AllMoved(w.pubs, kind, id), if kind == PUBREL then w.open - {id} else w.open)
    case Clean => World(c, [], {})
    case _ => World(c, w.pubs, w.open)
  }

  const MIN_PAYLOAD_SIZE := 2
  const MAX_PAYLOAD_SIZE := 268435455
  const DEFAULT_BUF_SIZE := 1024 * 1024

  /** The size of the write buffer when `size` is asked for. */
  function BufferSize(size: nat): nat {
    if MIN_PAYLOAD_SIZE >= size || MAX_PAYLOAD_SIZE <= size then DEFAULT_BUF_SIZE else size
  }

  /** A client as mqtt_init leaves it. */
  function Start(bufSize: nat): World { World(Client([], 0, 1, Initialized, bufSize, [], []), [], {}) }

  // ------------------------------------------------------------------ invariants

  /** The counter is the number of nodes, no two nodes share (type, id), and the packet id stays in range. */
  ghost predicate ListSound(c: Client) {
    c.count == |c.acks| && Unique(c.acks) && c.packetId <= MAX_PACKET_ID
  }

  /** The node that stands for a publication, and the packet in it. */
  function NodeKey(p: Publication): Key {
    Key(if p.stage == AwaitAck then PUBACK else if p.stage == AwaitRec then PUBREC else PUBCOMP, p.id)
  }

  function NodePacket(p: Publication): seq<Byte>
    requires p.bytes != []
  {
    if p.stage == AwaitComp then AckBytes(PUBREL, false, p.id) else Saved(p.bytes)
  }

  /** An unfinished publication has its node, with what has to be sent again. */
  ghost predicate Tracked(t: map<Key, seq<Byte>>, p: Publication) {
    p.bytes != [] && (p.stage != Done ==> NodeKey(p) in t && t[NodeKey(p)] == NodePacket(p))
  }

  ghost predicate AllTracked(t: map<Key, seq<Byte>>, pubs: seq<Publication>) {
    forall i :: 0 <= i < |pubs| ==> Tracked(t, pubs[i])
  }

  /** Every PUBACK or PUBREC node belongs to an unfinished publication. */
  ghost predicate NoStray(t: map<Key, seq<Byte>>, pubs: seq<Publication>) {
    forall key :: key in t && key.kind in {PUBACK, PUBREC} ==> Awaits(pubs, key)
  }

  ghost predicate Awaits(pubs: seq<Publication>, key: Key) {
    exists i :: 0 <= i < |pubs| && pubs[i].stage in {AwaitAck, AwaitRec} && NodeKey(pubs[i]) == key
  }

  /** PUBCOMP nodes hold the PUBREL to send again, PUBREL nodes the PUBREC. */
  ghost predicate AnswersSaved(t: map<Key, seq<Byte>>) {
    forall key :: key in t ==>
      && (key.kind == PUBCOMP ==> t[key] == AckBytes(PUBREL, false, key.id))
      && (key.kind == PUBREL ==> t[key] == AckBytes(PUBREC, false, key.id))
  }

  /** A received QoS 2 id has a PUBREL node exactly until its PUBREL is handled. */
  ghost predicate HandshakesOpen(t: map<Key, seq<Byte>>, open: set<PacketId>) {
    forall id: PacketId :: Key(PUBREL, id) in t <==> id in open
  }

  /** What is said of the nodes, the publications and the handshakes. */
  ghost predicate TableSound(t: map<Key, seq<Byte>>, pubs: seq<Publication>, open: set<PacketId>) {
    AllTracked(t, pubs) && NoStray(t, pubs) && AnswersSaved(t) && HandshakesOpen(t, open)
  }

  ghost predicate Inv(w: World) {
    ListSound(w.c) && TableSound(Table(w.c.acks), w.pubs, w.open)
  }

  // ------------------------------------------------------------------ the list stays sound

  lemma Recorded(c: Client, key: Key, payload: seq<Byte>)
    requires ListSound(c)
    ensures ListSound(Record(c, key, payload))
    ensures Table(Record(c, key, payload).acks)
      == if key in Table(c.acks) then Table(c.acks) else Table(c.acks)[key := payload]
  {
    Appended(c.acks, Node(key, payload));
    hide Table;
    hide Unique;
  }

  lemma Unrecorded(c: Client, key: Key)
    requires ListSound(c)
    ensures ListSound(Unrecord(c, key)) && Table(Unrecord(c, key).acks) == Table(c.acks) - {key}
  {
    Removed(c.acks, key);
    RemovedOne(c.acks, key);
    hide Table;
    hide Unique;
    hide Remove;
  }

  /** A step on the list is one of these changes of the table. */
  lemma Scanned(c: Client, due: set<Key>)
    requires ListSound(c)
    ensures var acks := Keep(c.acks, due);
      ListSound(c.(acks := acks, count := Less(c.count, |c.acks| - |acks|)))
  {
    Kept(c.acks, due);
    KeepShorter(c.acks, due);
    hide Table;
    hide Unique;
    hide Keep;
  }

  lemma {:induction false} KeepShorter(acks: seq<Node>, due: set<Key>)
    ensures |Keep(acks, due)| <= |acks|
  {
    if acks != [] {
      KeepShorter(Init(acks), due);
    }
  }

  // ------------------------------------------------------------------ the table stays sound

  /** A node of another type changes nothing for publications and handshakes. */
  lemma OtherAdded(t: map<Key, seq<Byte>>, pubs: seq<Publication>, open: set<PacketId>, key: Key, payload: seq<Byte>)
    requires TableSound(t, pubs, open) && key !in t && key.kind in {SUBACK, UNSUBACK}
    ensures TableSound(t[key := payload], pubs, open)
  {
  }

  lemma OtherRemoved(t: map<Key, seq<Byte>>, pubs: seq<Publication>, open: set<PacketId>, key: Key)
    requires TableSound(t, pubs, open) && key.kind in {SUBACK, UNSUBACK}
    ensures TableSound(t - {key}, AllMoved(pubs, key.kind, key.id), open)
  {
    assert AllMoved(pubs, key.kind, key.id) == pubs;
  }

  lemma PublicationAdded(t: map<Key, seq<Byte>>, pubs: seq<Publication>, open: set<PacketId>, p: Publication)
    requires TableSound(t, pubs, open) && NodeKey(p) !in t && p.stage in {AwaitAck, AwaitRec} && p.bytes != []
    ensures TableSound(t[NodeKey(p) := Saved(p.bytes)], pubs + [p], open)
  {
    var t', all := t[NodeKey(p) := Saved(p.bytes)], pubs + [p];
    forall key | key in t' && key.kind in {PUBACK, PUBREC} ensures Awaits(all, key) {
      if key == NodeKey(p) {
        assert all[|pubs|] == p;
      } else {
        var i :| 0 <= i < |pubs| && pubs[i].stage in {AwaitAck, AwaitRec} && NodeKey(pubs[i]) == key;
        assert all[i] == pubs[i];
      }
    }
  }

  lemma HandshakeOpened(t: map<Key, seq<Byte>>, pubs: seq<Publication>, open: set<PacketId>, id: PacketId)
    requires TableSound(t, pubs, open)
    ensures var key := Key(PUBREL, id);
      TableSound(if key in t then t else t[key := AckBytes(PUBREC, false, id)], pubs, open + {id})
  {
  }

  lemma HandshakeClosed(t: map<Key, seq<Byte>>, pubs: seq<Publication>, open: set<PacketId>, id: PacketId)
    requires TableSound(t, pubs, open)
    ensures TableSound(t - {Key(PUBREL, id)}, AllMoved(pubs, PUBREL, id), open - {id})
  {
    assert AllMoved(pubs, PUBREL, id) == pubs;
  }

  /** PUBACK and PUBCOMP: the node goes when its publications are done. */
  lemma PublicationDone(t: map<Key, seq<Byte>>, pubs: seq<Publication>, open: set<PacketId>, kind: Nibble, id: PacketId)
    requires TableSound(t, pubs, open) && kind in {PUBACK, PUBCOMP}
    ensures TableSound(t - {Key(kind, id)}, AllMoved(pubs, kind, id), open)
  {
    StillAwaited(t, pubs, kind, id);
  }

  lemma StillAwaited(t: map<Key, seq<Byte>>, pubs: seq<Publication>, kind: Nibble, id: PacketId)
    requires NoStray(t, pubs)
    ensures kind in {PUBACK, PUBREC, PUBCOMP} ==> NoStray(t - {Key(kind, id)}, AllMoved(pubs, kind, id))
  {
    forall key | key in t - {Key(kind, id)} && key.kind in {PUBACK, PUBREC} && kind in {PUBACK, PUBREC, PUBCOMP}
      ensures Awaits(AllMoved(pubs, kind, id), key)
    {
      var i :| 0 <= i < |pubs| && pubs[i].stage in {AwaitAck, AwaitRec} && NodeKey(pubs[i]) == key;
      assert AllMoved(pubs, kind, id)[i] == pubs[i];
    }
  }

  /** PUBREC: the PUBCOMP node takes the place of the PUBREC node. */
  lemma PublicationReceived(t: map<Key, seq<Byte>>, pubs: seq<Publication>, open: set<PacketId>, id: PacketId)
    requires TableSound(t, pubs, open)
    ensures var comp := Key(PUBCOMP, id);
      TableSound((if comp in t then t else t[comp := AckBytes(PUBREL, false, id)]) - {Key(PUBREC, id)},
        AllMoved(pubs, PUBREC, id), open)
  {
    hide AckBytes;
    hide Saved;
    var comp := Key(PUBCOMP, id);
    var t1 := if comp in t then t else t[comp := AckBytes(PUBREL, false, id)];
    StillAwaited(t1, pubs, PUBREC, id);
    TrackedOn(t, pubs, id);
    hide AllTracked;
    hide NoStray;
  }

  lemma TrackedOn(t: map<Key, seq<Byte>>, pubs: seq<Publication>, id: PacketId)
    requires AllTracked(t, pubs) && AnswersSaved(t)
    ensures var comp := Key(PUBCOMP, id);
      AllTracked((if comp in t then t else t[comp := AckBytes(PUBREL, false, id)]) - {Key(PUBREC, id)},
        AllMoved(pubs, PUBREC, id))
  {
    hide AckBytes;
    hide Saved;
  }

  lemma TableScanned(t: map<Key, seq<Byte>>, t': map<Key, seq<Byte>>, pubs: seq<Publication>, open: set<PacketId>,
                     due: set<Key>)
    requires TableSound(t, pubs, open)
    requires forall key :: key in t' <==> key in t && Stays(key, due)
    requires forall key :: key in t' ==> t'[key] == t[key]
    ensures TableSound(t', pubs, open)
  {
  }

  // ------------------------------------------------------------------ every event keeps the invariant

  lemma PublishKept(w: World, p: Publish, ok: bool)
    requires Inv(w) && p.qos <= 2
    ensures Inv(WorldStep(w, SendPublish(p, ok)))
  {
    hide Table;
    hide Unique;
    hide TableSound;
    hide PublishBytes;
    hide PublishBody;
    hide PacketLen;
    hide Saved;
    var q := Outgoing(w.c, p);
    BytesNotEmpty(q);
    var key := Key(Awaited(p.qos), q.id);
    Recorded(w.c, key, Saved(PublishBytes(q)));
    if p.qos > 0 && key !in Table(w.c.acks) {
      PublicationAdded(Table(w.c.acks), w.pubs, w.open,
                       Publication(q.id, PublishBytes(q), if p.qos == 1 then AwaitAck else AwaitRec));
    }
  }

  lemma BytesNotEmpty(p: Publish)
    ensures |PublishBytes(p)| > 0
  {
  }

  lemma RequestKept(w: World, kind: Nibble, packet: seq<Byte>, ok: bool, handled: bool)
    requires Inv(w) && kind in {SUBACK, UNSUBACK}
    ensures Inv(WorldStep(w, SendRequest(kind, packet, ok, handled)))
  {
    hide Table;
    hide Unique;
    hide TableSound;
    var key := Key(kind, NextId(w.c.packetId));
    var saved := packet[..|packet| % 0x10000];
    Recorded(w.c, key, saved);
    if key !in Table(w.c.acks) {
      OtherAdded(Table(w.c.acks), w.pubs, w.open, key, saved);
    }
  }

  lemma GotPublishKept(w: World, p: Publish, ok: bool)
    requires Inv(w)
    ensures Inv(WorldStep(w, GotPublish(p, ok)))
  {
    hide Table;
    hide Unique;
    hide TableSound;
    hide AckBytes;
    Recorded(w.c, Key(PUBREL, p.id), AckBytes(PUBREC, false, p.id));
    HandshakeOpened(Table(w.c.acks), w.pubs, w.open, p.id);
  }

  lemma GotAckKept(w: World, kind: Nibble, id: PacketId, ok: bool)
    requires Inv(w) && Sensible(GotAck(kind, id, ok))
    ensures Inv(WorldStep(w, GotAck(kind, id, ok)))
  {
    hide Table;
    hide Unique;
    hide TableSound;
    hide AckBytes;
    hide AllMoved;
    var c := w.c;
    if kind == PUBREC {
      var c1 := Record(c, Key(PUBCOMP, id), AckBytes(PUBREL, false, id));
      Recorded(c, Key(PUBCOMP, id), AckBytes(PUBREL, false, id));
      Unrecorded(c1, Key(PUBREC, id));
      PublicationReceived(Table(c.acks), w.pubs, w.open, id);
    } else {
      Unrecorded(c, Key(kind, id));
      if kind == PUBREL {
        HandshakeClosed(Table(c.acks), w.pubs, w.open, id);
      } else if kind in {PUBACK, PUBCOMP} {
        PublicationDone(Table(c.acks), w.pubs, w.open, kind, id);
      } else {
        OtherRemoved(Table(c.acks), w.pubs, w.open, Key(kind, id));
      }
    }
  }

  lemma ScanKept(w: World, timed: bool, expired: set<Key>, reachable: set<Key>)
    requires Inv(w)
    ensures Inv(WorldStep(w, Scan(timed, expired, reachable)))
  {
    hide TableSound;
    var due := Due(w.c, timed, expired);
    Kept(w.c.acks, due);
    Scanned(w.c, due);
    hide Table;
    hide Unique;
    hide Keep;
    TableScanned(Table(w.c.acks), Table(Keep(w.c.acks, due)), w.pubs, w.open, due);
  }

  /** What every event keeps. */
  lemma InvKept(w: World, e: Event)
    requires Inv(w) && Sensible(e)
    ensures Inv(WorldStep(w, e))
  {
    if e.SendPublish? {
      PublishKept(w, e.p, e.ok);
    } else if e.SendRequest? {
      RequestKept(w, e.kind, e.packet, e.ok, e.handled);
    } else if e.GotPublish? {
      GotPublishKept(w, e.p, e.ok);
    } else if e.GotAck? {
      GotAckKept(w, e.kind, e.id, e.ok);
    } else if e.Scan? {
      ScanKept(w, e.timed, e.expired, e.reachable);
    }
  }
}
