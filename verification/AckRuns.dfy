/**
 * Whole runs of the QoS protocol: soundness of every reachable state, exactly-once delivery, and what is sent again.
 */
module AckRuns {
  import opened Octets
  import opened MqttBytes
  import opened MqttPackets
  import opened AckTable
  import opened AckProtocol

  // ------------------------------------------------------------------ whole runs

  /** The world after a run. */
  function Run(w: World, es: seq<Event>): (r: World)
    requires w.c.packetId <= MAX_PACKET_ID && forall e :: e in es ==> Sensible(e)
    ensures r.c.packetId <= MAX_PACKET_ID
    decreases |es|
  {
    if es == [] then w else Run(WorldStep(w, es[0]), es[1..])
  }

  /** In every reachable state the list, the publications and the handshakes agree. */
  lemma {:induction false} RunSound(w: World, es: seq<Event>)
    requires Inv(w) && forall e :: e in es ==> Sensible(e)
    ensures Inv(Run(w, es))
    decreases |es|
  {
    if es != [] {
      InvKept(w, es[0]);
      hide Inv;
      hide WorldStep;
      RunSound(WorldStep(w, es[0]), es[1..]);
    }
  }

  /** The same from the start, where every size but 3 leads to a write buffer that acknowledgements fit into. */
  lemma ReachableSound(size: nat, es: seq<Event>)
    requires size != 3 && forall e :: e in es ==> Sensible(e)
    ensures BufferSize(size) >= 4 && Inv(Run(Start(BufferSize(size)), es))
  {
    assert Inv(Start(BufferSize(size)));
    RunSound(Start(BufferSize(size)), es);
  }

  /** How often a message with QoS 2 and this id was delivered. */
  function Deliveries(ps: seq<Publish>, id: PacketId): nat {
    if ps == [] then 0
    else Deliveries(ps[..|ps| - 1], id) + if ps[|ps| - 1].qos == 2 && ps[|ps| - 1].id == id then 1 else 0
  }

  lemma DeliveriesGrow(ps: seq<Publish>, p: Publish, id: PacketId)
    ensures Deliveries(ps + [p], id) == Deliveries(ps, id) + if p.qos == 2 && p.id == id then 1 else 0
  {
    assert (ps + [p])[..|ps|] == ps;
  }

  predicate Open(w: World, id: PacketId) { id in w.open }

  /** A PUBREL that is handled and ends a handshake. */
  predicate Closes(w: World, e: Event, id: PacketId) {
    e.GotAck? && e.kind == PUBREL && e.id == id && w.c.state == Connected && Open(w, id)
  }

  function Closings(w: World, es: seq<Event>, id: PacketId): nat
    requires w.c.packetId <= MAX_PACKET_ID && forall e :: e in es ==> Sensible(e)
    decreases |es|
  {
    if es == [] then 0
    else (if Closes(w, es[0], id) then 1 else 0) + Closings(WorldStep(w, es[0]), es[1..], id)
  }

  function One(b: bool): nat { if b then 1 else 0 }

  lemma DeliveryStep(w: World, e: Event, id: PacketId)
    requires Inv(w) && Sensible(e) && !e.Clean?
    ensures var w' := WorldStep(w, e);
      Deliveries(w'.c.delivered, id) + One(Open(w, id))
        == Deliveries(w.c.delivered, id) + One(Open(w', id)) + One(Closes(w, e, id))
  {
    hide Table;
    hide Remove;
    hide Keep;
    hide Resent;
    hide PublishBytes;
    hide PublishBody;
    hide PacketLen;
    hide Saved;
    hide AckBytes;
    hide AllMoved;
    hide Published;
    if e.GotPublish? {
      DeliveriesGrow(w.c.delivered, e.p, id);
      assert Key(PUBREL, e.p.id) in Table(w.c.acks) <==> e.p.id in w.open;
    }
    hide Deliveries;
  }

  /**
   * Exactly once: whatever PUBLISH, duplicate, PUBREL, scan or reconnect happens and in whatever order, the deliveries
   * of a QoS 2 id are the handshakes it ended, and one more while a handshake is open.
   */
  lemma {:induction false} ExactlyOnce(w: World, es: seq<Event>, id: PacketId)
    requires Inv(w) && forall e :: e in es ==> Sensible(e) && !e.Clean?
    ensures Deliveries(Run(w, es).c.delivered, id) + One(Open(w, id))
      == Deliveries(w.c.delivered, id) + One(Open(Run(w, es), id)) + Closings(w, es, id)
    decreases |es|
  {
    if es != [] {
      InvKept(w, es[0]);
      DeliveryStep(w, es[0], id);
      hide Inv;
      hide WorldStep;
      hide Deliveries;
      hide Closes;
      hide Open;
      ExactlyOnce(WorldStep(w, es[0]), es[1..], id);
    }
  }

  /** Between two handled PUBRELs an id is delivered at most once. */
  lemma AtMostOnce(w: World, es: seq<Event>, id: PacketId)
    requires Inv(w) && forall e :: e in es ==> Sensible(e) && !e.Clean?
    requires Closings(w, es, id) == 0
    ensures Deliveries(w.c.delivered, id) <= Deliveries(Run(w, es).c.delivered, id) <= Deliveries(w.c.delivered, id) + 1
  {
    assert w.c.packetId <= MAX_PACKET_ID;
    hide Inv;
    hide Run;
    hide Closings;
    hide Deliveries;
    hide Open;
    ExactlyOnce(w, es, id);
    if Open(w, id) {
      StaysOpen(w, es, id);
    }
  }

  /** Only a PUBREL ends a handshake. */
  lemma {:induction false} StaysOpen(w: World, es: seq<Event>, id: PacketId)
    requires w.c.packetId <= MAX_PACKET_ID && forall e :: e in es ==> Sensible(e) && !e.Clean?
    requires Closings(w, es, id) == 0 && Open(w, id)
    ensures Open(Run(w, es), id)
    decreases |es|
  {
    if es != [] {
      StaysOpen(WorldStep(w, es[0]), es[1..], id);
    }
  }

  /** Right after a reconnect every unfinished publication is sent again: the packet with DUP set, or the PUBREL. */
  lemma ReconnectResends(w: World, reachable: set<Key>, i: nat)
    requires Inv(w) && w.c.state == Connected && i < |w.pubs| && w.pubs[i].stage != Done
    requires NodeKey(w.pubs[i]) in reachable
    ensures w.pubs[i].bytes != []
    ensures NodePacket(w.pubs[i]) in ScanStep(w.c, false, {}, reachable).sent[|w.c.sent|..]
  {
    var key := NodeKey(w.pubs[i]);
    assert Tracked(Table(w.c.acks), w.pubs[i]);
    SentAgain(w.c.acks, Due(w.c, false, {}), reachable, key);
    hide Table;
    hide Resent;
    hide Keep;
    hide Saved;
    hide AckBytes;
    var sent := ScanStep(w.c, false, {}, reachable).sent;
    assert sent[|w.c.sent|..] == Resent(w.c.acks, Due(w.c, false, {}), reachable);
  }

  /**
   * A scan sends nothing else than saved publications, PUBRECs of open handshakes, and the PUBRELs of PUBCOMP nodes.
   */
  lemma ScanSendsOnly(w: World, timed: bool, expired: set<Key>, reachable: set<Key>, packet: seq<Byte>)
    requires Inv(w) && packet in ScanStep(w.c, timed, expired, reachable).sent[|w.c.sent|..]
    ensures (exists i :: 0 <= i < |w.pubs| && w.pubs[i].bytes != []
               && w.pubs[i].stage in {AwaitAck, AwaitRec} && NodePacket(w.pubs[i]) == packet)
      || (exists id: PacketId :: id in w.open && packet == AckBytes(PUBREC, false, id))
      || (exists id: PacketId :: Key(PUBCOMP, id) in Table(w.c.acks) && packet == AckBytes(PUBREL, false, id))
  {
    var due := Due(w.c, timed, expired);
    hide Keep;
    hide Saved;
    hide AckBytes;
    assert w.c.state == Connected ==>
      ScanStep(w.c, timed, expired, reachable).sent[|w.c.sent|..] == Resent(w.c.acks, due, reachable);
    OnlySaved(w.c.acks, due, reachable, packet);
    hide Resent;
    var key :| key in Table(w.c.acks) && key in due && Resendable(key.kind) && Table(w.c.acks)[key] == packet;
    hide Table;
    if key.kind in {PUBACK, PUBREC} {
      var i :| 0 <= i < |w.pubs| && w.pubs[i].stage in {AwaitAck, AwaitRec} && NodeKey(w.pubs[i]) == key;
      assert Tracked(Table(w.c.acks), w.pubs[i]);
    } else if key.kind == PUBREL {
      assert key == Key(PUBREL, key.id);
    } else {
      assert key == Key(PUBCOMP, key.id);
    }
  }

  // ------------------------------------------------------------------ packet ids

  function IdAfter(id: PacketId, n: nat): PacketId
    requires id <= MAX_PACKET_ID
  {
    if n == 0 then id else NextId(IdAfter(id, n - 1))
  }

  /** Packet ids are never 0 and come back after exactly 65534 of them. */
  lemma {:induction false} IdsCycle(id: PacketId, n: nat)
    requires 1 <= id <= MAX_PACKET_ID
    ensures IdAfter(id, n) == (id - 1 + n) % MAX_PACKET_ID + 1
  {
    if n > 0 {
      IdsCycle(id, n - 1);
    }
  }
}
