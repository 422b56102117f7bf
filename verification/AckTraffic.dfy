/**
 * What goes over the wire and to the application in a run of the QoS protocol: every message delivered and every packet
 * sent, in order, told from the events alone.
 */
module AckTraffic {
  import opened Octets
  import opened MqttBytes
  import opened MqttPackets
  import opened AckTable
  import opened AckProtocol
  import opened AckRuns
  import opened Sequences

  // ------------------------------------------------------------------ one event

  /**
   * What an event delivers: a message with QoS 0, one with QoS 1 whose PUBACK was sent, and one with QoS 2 whose PUBREC
   * was sent and whose id has no open handshake.
   */
  function Delivers(w: World, e: Event): seq<Publish> {
    if w.c.state == Connected && e.GotPublish?
      && (e.p.qos == 0 || (e.ok && (e.p.qos == 1 || (e.p.qos == 2 && !Open(w, e.p.id)))))
    then [e.p]
    else []
  }

  /** An acknowledgement of four bytes. */
  function Ack(first: Byte, id: PacketId): seq<Byte> { [first, 2, id / 256, id % 256] }

  /** mqtt_publish takes the message: there is room for its node, and for it in the write buffer, and it is sent. */
  predicate Accepted(c: Client, e: Event)
    requires e.SendPublish? && c.packetId <= MAX_PACKET_ID
  {
    c.state == Connected && (e.p.qos == 0 || c.count < 64) && PacketLen(|PublishBody(Outgoing(c, e.p))|) <= c.bufSize
      && e.ok
  }

  /** What an event sends. */
  function Sends(w: World, e: Event): seq<seq<Byte>>
    requires w.c.packetId <= MAX_PACKET_ID
  {
    if w.c.state != Connected then []
    else
      match e
      case SendPublish(p, _) => if Accepted(w.c, e) then [PublishBytes(Outgoing(w.c, p))] else []
      case SendRequest(_, packet, ok, _) => if ok then [packet] else []
      case GotPublish(p, ok) =>
        if ok && p.qos == 1 then [Ack(0x40, p.id)] else if ok && p.qos == 2 then [Ack(0x50, p.id)] else []
      case GotAck(kind, id, ok) =>
        if ok && kind == PUBREC && Key(PUBCOMP, id) !in Table(w.c.acks) then [Ack(0x62, id)]
        else if ok && kind == PUBREL then [Ack(0x70, id)]
        else []
      case Scan(timed, expired, reachable) => Resent(w.c.acks, Due(w.c, timed, expired), reachable)
      case _ => []
  }

  /** The four acknowledgements of QoS 1 and 2 as bytes. */
  lemma AcksAre(id: PacketId)
    ensures AckBytes(PUBACK, false, id) == Ack(0x40, id) && AckBytes(PUBREC, false, id) == Ack(0x50, id)
    ensures AckBytes(PUBREL, false, id) == Ack(0x62, id) && AckBytes(PUBCOMP, false, id) == Ack(0x70, id)
  {
    assert LengthBytes(2) == [2];
  }

  /** One event delivers and sends just that. */
  lemma OneEvent(w: World, e: Event)
    requires Inv(w) && Sensible(e)
    ensures WorldStep(w, e).c.delivered == w.c.delivered + Delivers(w, e)
    ensures WorldStep(w, e).c.sent == w.c.sent + Sends(w, e)
  {
    hide Table;
    hide Unique;
    hide Remove;
    hide Keep;
    hide Resent;
    hide PublishBytes;
    hide PublishBody;
    hide PacketLen;
    hide Saved;
    hide AckBytes;
    hide Ack;
    hide AllMoved;
    hide Published;
    if e.GotPublish? {
      AcksAre(e.p.id);
      assert Key(PUBREL, e.p.id) in Table(w.c.acks) <==> e.p.id in w.open;
    } else if e.GotAck? {
      AcksAre(e.id);
    }
  }

  /** What an event does to the connection, to the next packet id, and to the publications under way. */
  lemma OneEventElse(w: World, e: Event)
    requires Inv(w) && Sensible(e)
    ensures WorldStep(w, e).c.state ==
      if e.SetState? then e.to
      else if e.Clean? then Invalid
      else if e.SendPublish? && w.c.state == Connected && e.p.qos > 0 && w.c.count >= 64 then Disconnected
      else w.c.state
    ensures WorldStep(w, e).c.packetId ==
      if w.c.state == Connected && (e.SendRequest? || (e.SendPublish? && e.p.qos > 0 && w.c.count < 64)) then
        (if w.c.packetId == 65534 then 1 else w.c.packetId + 1)
      else w.c.packetId
    ensures e.SendPublish? ==>
      var id := if w.c.packetId == 65534 then 1 else w.c.packetId + 1;
      var key := Key(if e.p.qos == 1 then 4 else 5, id);
      WorldStep(w, e).pubs == w.pubs
        + if e.p.qos > 0 && Accepted(w.c, e) && key !in Table(w.c.acks) then
            [Publication(id, PublishBytes(e.p.(dup := false, id := id)), if e.p.qos == 1 then AwaitAck else AwaitRec)]
          else []
  {
    hide Table;
    hide Unique;
    hide Remove;
    hide Keep;
    hide Resent;
    hide PublishBody;
    hide PacketLen;
    hide Saved;
    hide AckBytes;
    hide AllMoved;
    if e.SendPublish? {
      BytesNotEmpty(Outgoing(w.c, e.p));
    }
    hide PublishBytes;
  }

  /** A packet saved under a key, unless there is one already. */
  function Saving(t: map<Key, seq<Byte>>, key: Key, packet: seq<Byte>): map<Key, seq<Byte>> {
    if key in t then t else t[key := packet]
  }

  /** The saved packets after an event: types are 4 PUBACK, 5 PUBREC, 6 PUBREL, 7 PUBCOMP, 9 SUBACK, 11 UNSUBACK. */
  ghost function SavedAfter(w: World, e: Event): map<Key, seq<Byte>>
    requires w.c.packetId <= MAX_PACKET_ID
  {
    var t, id := Table(w.c.acks), if w.c.packetId == 65534 then 1 else w.c.packetId + 1;
    if e.Clean? then map[]
    else if w.c.state != Connected then t
    else
      match e
      case SendPublish(p, _) =>
        if p.qos > 0 && Accepted(w.c, e) then
          var bytes := PublishBytes(p.(dup := true, id := id));
          Saving(t, Key(if p.qos == 1 then 4 else 5, id), bytes[..|bytes| % 65536])
        else t
      case SendRequest(kind, packet, ok, handled) =>
        if ok && handled then Saving(t, Key(kind, id), packet[..|packet| % 65536]) else t
      case GotPublish(p, ok) => if p.qos == 2 && ok then Saving(t, Key(6, p.id), Ack(0x50, p.id)) else t
      case GotAck(kind, id, _) => (if kind == 5 then Saving(t, Key(7, id), Ack(0x62, id)) else t) - {Key(kind, id)}
      case Scan(timed, expired, _) =>
        map key | key in t && ((timed && key !in expired) || 4 <= key.kind <= 7) :: t[key]
      case _ => t
  }

  /** One event leaves just these packets to be sent again. */
  lemma OneEventSaves(w: World, e: Event)
    requires Inv(w) && Sensible(e)
    ensures Table(WorldStep(w, e).c.acks) == SavedAfter(w, e)
  {
    match e
    case SendPublish(p, ok) => PublishSaves(w, p, ok);
    case SendRequest(kind, packet, ok, handled) => RequestSaves(w, kind, packet, ok, handled);
    case GotPublish(p, ok) => HandshakeSaves(w, p, ok);
    case GotAck(kind, id, ok) => AckSaves(w, kind, id, ok);
    case Scan(timed, expired, reachable) => ScanSaves(w, timed, expired, reachable);
    case SetState(to) => assert WorldStep(w, e).c.acks == w.c.acks;
    case Clean => assert WorldStep(w, e).c.acks == [];
  }

  lemma RequestSaves(w: World, kind: Nibble, packet: seq<Byte>, ok: bool, handled: bool)
    requires Inv(w) && kind in {SUBACK, UNSUBACK}
    ensures var e := SendRequest(kind, packet, ok, handled); Table(WorldStep(w, e).c.acks) == SavedAfter(w, e)
  {
    hide Table;
    hide Unique;
    hide TableSound;
    Recorded(w.c, Key(kind, NextId(w.c.packetId)), packet[..|packet| % 0x10000]);
  }

  lemma HandshakeSaves(w: World, p: Publish, ok: bool)
    requires Inv(w)
    ensures Table(WorldStep(w, GotPublish(p, ok)).c.acks) == SavedAfter(w, GotPublish(p, ok))
  {
    hide Table;
    hide Unique;
    hide TableSound;
    AcksAre(p.id);
    hide AckBytes;
    hide Ack;
    Recorded(w.c, Key(PUBREL, p.id), AckBytes(PUBREC, false, p.id));
  }

  lemma PublishSaves(w: World, p: Publish, ok: bool)
    requires Inv(w) && p.qos <= 2
    ensures Table(WorldStep(w, SendPublish(p, ok)).c.acks) == SavedAfter(w, SendPublish(p, ok))
  {
    hide Table;
    hide Unique;
    hide TableSound;
    hide PacketLen;
    hide DupSet;
    hide PublishBytes;
    hide PublishBody;
    var q := Outgoing(w.c, p);
    var bytes := PublishBytes(q);
    BytesNotEmpty(q);
    DupWritten(q);
    assert |PublishBytes(q.(dup := true))| == |bytes|;
    assert Saved(bytes) == PublishBytes(q.(dup := true))[..|bytes| % 65536];
    hide Saved;
    Recorded(w.c, Key(Awaited(p.qos), q.id), Saved(bytes));
  }

  lemma AckSaves(w: World, kind: Nibble, id: PacketId, ok: bool)
    requires Inv(w) && Sensible(GotAck(kind, id, ok))
    ensures Table(WorldStep(w, GotAck(kind, id, ok)).c.acks) == SavedAfter(w, GotAck(kind, id, ok))
  {
    hide Table;
    hide Unique;
    hide TableSound;
    hide AllMoved;
    AcksAre(id);
    hide AckBytes;
    hide Ack;
    var c1 := Record(w.c, Key(PUBCOMP, id), AckBytes(PUBREL, false, id));
    Recorded(w.c, Key(PUBCOMP, id), AckBytes(PUBREL, false, id));
    Unrecorded(c1, Key(kind, id));
    Unrecorded(w.c, Key(kind, id));
  }

  lemma ScanSaves(w: World, timed: bool, expired: set<Key>, reachable: set<Key>)
    requires Inv(w)
    ensures var e := Scan(timed, expired, reachable); Table(WorldStep(w, e).c.acks) == SavedAfter(w, e)
  {
    var due := Due(w.c, timed, expired);
    Kept(w.c.acks, due);
    hide Table;
    hide Keep;
    hide Resent;
    hide TableSound;
    hide Unique;
  }

  // ------------------------------------------------------------------ whole runs

  function AllDelivered(w: World, es: seq<Event>): seq<Publish>
    requires w.c.packetId <= MAX_PACKET_ID && forall e :: e in es ==> Sensible(e)
    decreases |es|
  {
    if es == [] then [] else Delivers(w, es[0]) + AllDelivered(WorldStep(w, es[0]), es[1..])
  }

  function AllSent(w: World, es: seq<Event>): seq<seq<Byte>>
    requires w.c.packetId <= MAX_PACKET_ID && forall e :: e in es ==> Sensible(e)
    decreases |es|
  {
    if es == [] then [] else Sends(w, es[0]) + AllSent(WorldStep(w, es[0]), es[1..])
  }

  /** Over any run the application gets these messages and the network these packets, in the order of the events. */
  lemma {:induction false} Traffic(w: World, es: seq<Event>)
    requires Inv(w) && forall e :: e in es ==> Sensible(e)
    ensures Run(w, es).c.delivered == w.c.delivered + AllDelivered(w, es)
    ensures Run(w, es).c.sent == w.c.sent + AllSent(w, es)
    decreases |es|
  {
    Unfolded(w, es);
    if es == [] {
      assert w.c.delivered + [] == w.c.delivered && w.c.sent + [] == w.c.sent;
    } else {
      OneEvent(w, es[0]);
      InvKept(w, es[0]);
      hide Inv;
      hide WorldStep;
      hide Delivers;
      hide Sends;
      hide Run;
      hide AllDelivered;
      hide AllSent;
      hide Sensible;
      var next := WorldStep(w, es[0]);
      Traffic(next, es[1..]);
      Assoc(w.c.delivered, Delivers(w, es[0]), AllDelivered(next, es[1..]));
      Assoc(w.c.sent, Sends(w, es[0]), AllSent(next, es[1..]));
    }
  }

  lemma Unfolded(w: World, es: seq<Event>)
    requires w.c.packetId <= MAX_PACKET_ID && forall e :: e in es ==> Sensible(e)
    ensures es == [] ==> Run(w, es) == w && AllDelivered(w, es) == [] && AllSent(w, es) == []
    ensures es != [] ==> var next := WorldStep(w, es[0]);
      && next.c.packetId <= MAX_PACKET_ID && Run(w, es) == Run(next, es[1..])
      && AllDelivered(w, es) == Delivers(w, es[0]) + AllDelivered(next, es[1..])
      && AllSent(w, es) == Sends(w, es[0]) + AllSent(next, es[1..])
  {
    hide Delivers;
    hide Sends;
    hide Step;
  }

  /** The messages with QoS 0 and 1, in order. */
  function Low(ps: seq<Publish>): seq<Publish> {
    if ps == [] then [] else (if ps[0].qos <= 1 then [ps[0]] else []) + Low(ps[1..])
  }

  lemma {:induction false} LowBoth(a: seq<Publish>, b: seq<Publish>)
    ensures Low(a + b) == Low(a) + Low(b)
    decreases |a|
  {
    if a == [] {
      assert a + b == b;
    } else {
      LowStep(a);
      LowStep(a + b);
      assert (a + b)[1..] == a[1..] + b && (a + b)[0] == a[0];
      hide Low;
      LowBoth(a[1..], b);
      Assoc(if a[0].qos <= 1 then [a[0]] else [], Low(a[1..]), Low(b));
    }
  }

  lemma LowStep(ps: seq<Publish>)
    requires ps != []
    ensures Low(ps) == (if ps[0].qos <= 1 then [ps[0]] else []) + Low(ps[1..])
  {
  }

  /** The messages that arrive with QoS 0, or with QoS 1 and are acknowledged, while the client is connected. */
  function Arrivals(w: World, es: seq<Event>): seq<Publish>
    requires w.c.packetId <= MAX_PACKET_ID && forall e :: e in es ==> Sensible(e)
    decreases |es|
  {
    if es == [] then []
    else
      var e := es[0];
      var got := w.c.state == Connected && e.GotPublish? && (e.p.qos == 0 || (e.p.qos == 1 && e.ok));
      (if got then [e.p] else []) + Arrivals(WorldStep(w, e), es[1..])
  }

  lemma {:induction false} LowArrivals(w: World, es: seq<Event>)
    requires w.c.packetId <= MAX_PACKET_ID && forall e :: e in es ==> Sensible(e)
    ensures Low(AllDelivered(w, es)) == Arrivals(w, es)
    decreases |es|
  {
    if es != [] {
      var e := es[0];
      LowBoth(Delivers(w, e), AllDelivered(WorldStep(w, e), es[1..]));
      assert e.GotPublish? ==> Low([e.p]) == if e.p.qos <= 1 then [e.p] else [];
      hide WorldStep;
      hide Low;
      hide Sensible;
      LowArrivals(WorldStep(w, e), es[1..]);
    }
  }

  /** Every message with QoS 0 or 1 is delivered as often as it arrives, and they are delivered in that order. */
  lemma LowDelivered(w: World, es: seq<Event>)
    requires Inv(w) && forall e :: e in es ==> Sensible(e)
    ensures Low(Run(w, es).c.delivered) == Low(w.c.delivered) + Arrivals(w, es)
  {
    Traffic(w, es);
    LowArrivals(w, es);
    LowBoth(w.c.delivered, AllDelivered(w, es));
  }
}
