/** The MQTT client's handlers as they change the client in place; every one does what its step of AckProtocol says. */
module AckClient {
  import opened Octets
  import opened MqttBytes
  import opened MqttPackets
  import opened AckTable
  import opened Sequences
  import P = AckProtocol

  class MqttClient {
    var acks: seq<Node>
    var count: nat
    var packetId: PacketId
    var state: P.ClientState
    const writeBuf: array<Byte>
    ghost var sent: seq<seq<Byte>>
    ghost var delivered: seq<Publish>

    ghost predicate Valid()
      reads this
    {
      packetId <= P.MAX_PACKET_ID && writeBuf.Length >= 4 && AllFit(acks, writeBuf.Length)
    }

    ghost function Abs(): P.Client
      reads this
    {
      P.Client(acks, count, packetId, state, writeBuf.Length, sent, delivered)
    }

    /** mqtt_init, as far as the protocol is concerned */
    constructor (size: nat)
      requires size != 3
      ensures Valid() && Abs() == P.Start(P.BufferSize(size)).c && fresh(writeBuf)
    {
      acks, count, packetId, state := [], 0, 1, P.Initialized;
      writeBuf := new Byte[P.BufferSize(size)];
      sent, delivered := [], [];
    }

    /** mqtt_get_next_packet_id */
    method NextPacketId() returns (id: PacketId)
      requires Valid()
      modifies `packetId
      ensures Valid() && id == packetId == P.NextId(old(packetId))
    {
      packetId := if packetId == P.MAX_PACKET_ID then 1 else packetId + 1;
      id := packetId;
    }

    /** mqtt_ack_list_node_is_exist */
    method NodeExists(key: Key) returns (found: bool)
      ensures found == (key in Table(acks))
    {
      var i := 0;
      while i < |acks|
        invariant 0 <= i <= |acks| && forall j :: 0 <= j < i ==> acks[j].key != key
      {
        if acks[i].key == key {
          InTable(acks, key);
          return true;
        }
        i := i + 1;
      }
      InTable(acks, key);
      return false;
    }

    /** mqtt_ack_list_record: the packet is what stands at the start of the write buffer. */
    method Record(key: Key, payloadLen: nat) returns (rc: int)
      requires Valid() && payloadLen <= writeBuf.Length
      modifies `acks, `count
      ensures Valid()
      ensures Abs() == P.Record(old(Abs()), key, writeBuf[..payloadLen])
      ensures rc == if key in Table(old(acks)) then P.NODE_EXISTS else 0
    {
      var exists' := NodeExists(key);
      if exists' {
        return P.NODE_EXISTS;
      }
      count := count + 1;
      acks := acks + [Node(key, writeBuf[..payloadLen])];
      return 0;
    }

    /** mqtt_ack_handler_destroy and mqtt_subtract_ack_handler_num */
    method Destroy(i: nat)
      requires i < |acks|
      modifies `acks, `count
      ensures acks == Without(old(acks), i) && |acks| == old(|acks|) - 1 && count == P.Less(old(count), 1)
    {
      acks := acks[..i] + acks[i + 1..];
      if count > 0 {
        count := count - 1;
      }
    }

    /** mqtt_ack_list_unrecord */
    method Unrecord(key: Key)
      requires Valid()
      modifies `acks, `count
      ensures Valid() && Abs() == P.Unrecord(old(Abs()), key)
    {
      hide Walked;
      hide LeftOf;
      hide Remove;
      hide Without;
      hide Plus;
      ghost var all, n := acks, count;
      ghost var done: seq<Node>, seen := [], 0;
      var i := 0;
      WalkStarts(all);
      while i < |acks|
        invariant 0 <= i <= |acks| && Walked(acks, done, all, seen) && i == |done| <= seen <= |all|
        invariant done == LeftOf(all, seen, key)
        invariant count == P.Less(n, seen - i)
        decreases |acks| - i
      {
        WalkOn(acks, done, all, seen);
        RemoveNode(all, seen, key);
        if acks[i].key == key {
          Destroy(i);
        } else {
          done := Plus(done, acks[i]);
          i := i + 1;
        }
        seen := seen + 1;
      }
      WalkEnds(acks, done, all, seen);
      RemovedFit(all, key, writeBuf.Length);
    }

    /** mqtt_ack_list_scan; a packet that is sent again passes through the write buffer. */
    method Scan(timed: bool, expired: set<Key>, reachable: set<Key>)
      requires Valid()
      modifies `acks, `count, `sent, writeBuf
      ensures Valid() && Abs() == P.ScanStep(old(Abs()), timed, expired, reachable)
    {
      if state != P.Connected {
        return;
      }
      ghost var due := P.Due(Abs(), timed, expired);
      AllDue(acks, due, timed, expired);
      KeptFit(acks, due, writeBuf.Length);
      ScanLoop(timed, expired, reachable, due);
    }

    /** The loop of a scan; `due` holds the nodes whose time has come. */
    method ScanLoop(timed: bool, expired: set<Key>, reachable: set<Key>, ghost due: set<Key>)
      requires AllFit(acks, writeBuf.Length) && IsDue(acks, due, timed, expired)
      modifies `acks, `count, `sent, writeBuf
      ensures acks == Keep(old(acks), due) && sent == old(sent) + Resent(old(acks), due, reachable)
      ensures count == P.Less(old(count), |old(acks)| - |Keep(old(acks), due)|)
    {
      hide Walked;
      hide KeptOf;
      hide SentBy;
      hide Again;
      hide Keep;
      hide Resent;
      hide Without;
      hide Plus;
      hide Stays;
      hide AllFit;
      hide IsDue;
      ghost var all, n, before := acks, count, sent;
      ghost var done: seq<Node>, seen := [], 0;
      WalkStarts(all);
      SentStarts(before, all, due, reachable);
      var i := 0;
      while i < |acks|
        invariant 0 <= i <= |acks| && Walked(acks, done, all, seen) && i == |done| <= seen <= |all|
        invariant done == KeptOf(all, seen, due)
        invariant count == P.Less(n, seen - i) && sent == SentBy(before, all, seen, due, reachable)
        decreases |acks| - i
      {
        WalkOn(acks, done, all, seen);
        ScanNode(all, seen, due);
        SentMore(before, all, seen, due, reachable);
        FitAt(all, seen, due, timed, expired);
        var stays := Visit(acks[i], timed, expired, reachable, due);
        if stays {
          done := Plus(done, acks[i]);
          i := i + 1;
        } else {
          Destroy(i);
        }
        seen := seen + 1;
      }
      WalkEnds(acks, done, all, seen);
      SentEnds(before, all, due, reachable);
    }

    lemma FitAt(all: seq<Node>, j: nat, due: set<Key>, timed: bool, expired: set<Key>)
      requires AllFit(all, writeBuf.Length) && IsDue(all, due, timed, expired) && j < |all|
      ensures |all[j].payload| <= writeBuf.Length && (all[j].key in due <==> !(timed && all[j].key !in expired))
    {
    }

    /** One node of a scan: left alone, sent again, or (false) to be dropped. */
    method Visit(node: Node, timed: bool, expired: set<Key>, reachable: set<Key>, ghost due: set<Key>)
      returns (stays: bool)
      requires |node.payload| <= writeBuf.Length && (node.key in due <==> !(timed && node.key !in expired))
      modifies `sent, writeBuf
      ensures stays == Stays(node.key, due) && sent == old(sent) + Again(node, due, reachable)
    {
      if timed && node.key !in expired {
        return true;
      }
      if Resendable(node.key.kind) {
        var end := Put(writeBuf, 0, node.payload);
        if node.key in reachable {
          sent := sent + [node.payload];
        }
        return true;
      }
      return false;
    }

    /** mqtt_set_publish_dup on the packet in the write buffer */
    method SetPublishDup(ghost bytes: seq<Byte>)
      requires bytes != [] && |bytes| <= writeBuf.Length && writeBuf[..|bytes|] == bytes && Kind(bytes[0]) == PUBLISH
      modifies writeBuf
      ensures writeBuf[..|bytes|] == P.DupSet(bytes)
      ensures writeBuf[0] / 8 % 2 == 1 && writeBuf[0] / 16 == old(writeBuf[0]) / 16
      ensures writeBuf[0] % 8 == old(writeBuf[0]) % 8 && forall j :: 1 <= j < writeBuf.Length ==>
        writeBuf[j] == old(writeBuf[j])
    {
      var header := writeBuf[0];
      if Kind(header) == PUBLISH {
        writeBuf[0] := if Dup(header) then header else header + 8;
      }
    }

    /** mqtt_publish */
    method Publish(topic: MqttString, qos: Qos, retain: bool, id: PacketId, payload: seq<Byte>, ok: bool)
      returns (rc: int)
      requires Valid() && qos <= 2 && topic.Valid() && topic.StrLen() == |topic.Content()|
      requires PublishLength(qos, topic, |payload|) <= MAX_REMAINING
      modifies `acks, `count, `packetId, `state, `sent, writeBuf
      ensures Valid()
      ensures (Abs(), rc)
        == P.PublishStep(old(Abs()), MqttPackets.Publish(false, qos, retain, id, topic.Content(), payload), ok)
    {
      if state != P.Connected {
        return P.NOT_CONNECTED;
      }
      ghost var p := MqttPackets.Publish(false, qos, retain, id, topic.Content(), payload);
      ghost var q := P.Outgoing(Abs(), p);
      var number := id;
      if qos != 0 {
        if count >= P.ACK_MAX {
          state := P.Disconnected;
          return P.TOO_MUCH;
        }
        number := NextPacketId();
      }
      Outgoing(q, topic);
      hide PublishBody;
      hide PublishLength;
      hide PacketLen;
      var len := SerializePublish(writeBuf, writeBuf.Length, false, qos, retain, number, topic, payload);
      if len <= 0 {
        return P.SHORT_BUFFER;
      }
      if !ok {
        return P.SEND_FAILED;
      }
      sent := sent + [writeBuf[..len]];
      if qos == 0 {
        return len;
      }
      rc := Remember(qos, number, len, PublishBytes(q));
      if rc == 0 {
        rc := len;
      }
    }

    /** The sent packet is recorded until it is answered; its length is kept in 16 bits. */
    method Remember(qos: Qos, id: PacketId, len: nat, ghost bytes: seq<Byte>) returns (rc: int)
      requires 0 < len == |bytes| <= writeBuf.Length && writeBuf[..len] == bytes && Kind(bytes[0]) == PUBLISH
      requires Valid() && 0 < qos <= 2
      modifies `acks, `count, writeBuf
      ensures Valid() && Abs() == P.Record(old(Abs()), Key(P.Awaited(qos), id), P.Saved(bytes))
      ensures rc == if Key(P.Awaited(qos), id) in Table(old(acks)) then P.NODE_EXISTS else 0
    {
      SetPublishDup(bytes);
      assert writeBuf[..len % 0x10000] == writeBuf[..len][..len % 0x10000];
      if qos == 1 {
        rc := Record(Key(PUBACK, id), len % 0x10000);
      } else {
        rc := Record(Key(PUBREC, id), len % 0x10000);
      }
    }

    /** mqtt_publish_packet_handle, for a PUBLISH that was read from the network */
    method OnPublish(p: MqttPackets.Publish, ok: bool)
      requires Valid()
      modifies `acks, `count, `sent, `delivered, writeBuf
      ensures Valid() && Abs() == P.GotPublishStep(old(Abs()), p, ok)
    {
      if state != P.Connected {
        return;
      }
      var len := 0;
      if p.qos != 0 {
        if p.qos == 1 {
          len := SerializeAck(writeBuf, writeBuf.Length, PUBACK, false, p.id);
        } else if p.qos == 2 {
          len := SerializeAck(writeBuf, writeBuf.Length, PUBREC, false, p.id);
        }
        if len <= 0 || !ok {
          return;
        }
        sent := sent + [writeBuf[..len]];
      }
      if p.qos != 2 {
        delivered := delivered + [p];
      } else {
        var rc := Record(Key(PUBREL, p.id), len);
        if rc != P.NODE_EXISTS {
          delivered := delivered + [p];
        }
      }
    }

    /** mqtt_publish_ack_packet and mqtt_pubrec_and_pubrel_packet_handle */
    method OnPubrecOrPubrel(kind: Nibble, id: PacketId, ok: bool)
      requires Valid() && kind in {PUBREC, PUBREL}
      modifies `acks, `count, `sent, writeBuf
      ensures Valid() && Abs() == P.GotAckStep(old(Abs()), kind, id, ok)
    {
      if state != P.Connected {
        return;
      }
      var rc := 0;
      var len := 0;
      if kind == PUBREC {
        len := SerializeAck(writeBuf, writeBuf.Length, PUBREL, false, id);
        rc := Record(Key(PUBCOMP, id), len);
      } else {
        len := SerializeAck(writeBuf, writeBuf.Length, PUBCOMP, false, id);
      }
      if rc == 0 && ok {
        sent := sent + [writeBuf[..len]];
      }
      Unrecord(Key(kind, id));
    }

    /** mqtt_puback_and_pubcomp_packet_handle; SUBACK and UNSUBACK treat the list in the same way */
    method OnAnswer(kind: Nibble, id: PacketId, ghost ok: bool)
      requires Valid() && kind !in {PUBREC, PUBREL}
      modifies `acks, `count
      ensures Valid() && Abs() == P.GotAckStep(old(Abs()), kind, id, ok)
    {
      if state == P.Connected {
        Unrecord(Key(kind, id));
      }
    }

    /** mqtt_subscribe and mqtt_unsubscribe; the packet is in the write buffer */
    method Request(kind: Nibble, len: nat, ok: bool, handled: bool)
      requires Valid() && len <= writeBuf.Length
      modifies `acks, `count, `packetId, `sent
      ensures Valid() && Abs() == P.RequestStep(old(Abs()), kind, writeBuf[..len], ok, handled)
    {
      if state != P.Connected {
        return;
      }
      var id := NextPacketId();
      if ok {
        sent := sent + [writeBuf[..len]];
        assert writeBuf[..len % 0x10000] == writeBuf[..len][..len % 0x10000];
        if handled {
          var rc := Record(Key(kind, id), len % 0x10000);
        }
      }
    }

    /** mqtt_clean_session, the ack list part */
    method CleanUp()
      requires Valid()
      modifies `acks, `count, `state
      ensures Valid() && Abs() == P.CleanStep(old(Abs()))
    {
      while acks != []
        decreases |acks|
      {
        acks := acks[1..];
      }
      count := 0;
      state := P.Invalid;
    }
  }

  lemma Outgoing(q: MqttPackets.Publish, topic: MqttString)
    requires topic.Valid() && topic.StrLen() == |topic.Content()| && q.topic == topic.Content()
    ensures |PublishBody(q)| == PublishLength(q.qos, topic, |q.payload|)
    ensures |PublishBytes(q)| > 0 && Kind(PublishBytes(q)[0]) == PUBLISH
  {
    HeaderRead(PUBLISH, q.dup, q.qos, q.retain);
  }

  // ------------------------------------------------------------------ walking a list while dropping nodes from it

  /** Every saved packet fits the write buffer it was copied from and will be sent through again. */
  ghost predicate AllFit(acks: seq<Node>, room: nat) { forall j :: 0 <= j < |acks| ==> |acks[j].payload| <= room }

  lemma {:induction false} RemovedFit(acks: seq<Node>, key: Key, room: nat)
    requires AllFit(acks, room)
    ensures AllFit(Remove(acks, key), room)
  {
    if acks != [] {
      RemovedFit(Init(acks), key, room);
    }
  }

  lemma {:induction false} KeptFit(acks: seq<Node>, due: set<Key>, room: nat)
    requires AllFit(acks, room)
    ensures AllFit(Keep(acks, due), room)
  {
    if acks != [] {
      KeptFit(Init(acks), due, room);
    }
  }

  /** Of `all` the first `seen` nodes have been visited, of which `done` are left. */
  ghost predicate Walked(acks: seq<Node>, done: seq<Node>, all: seq<Node>, seen: nat) {
    seen <= |all| && acks == done + all[seen..]
  }

  lemma WalkStarts(all: seq<Node>)
    ensures Walked(all, [], all, 0)
    ensures forall key :: LeftOf(all, 0, key) == []
    ensures forall due :: KeptOf(all, 0, due) == []
  {
  }

  lemma WalkOn(acks: seq<Node>, done: seq<Node>, all: seq<Node>, seen: nat)
    requires Walked(acks, done, all, seen) && |done| < |acks|
    ensures seen < |all| && acks[|done|] == all[seen]
    ensures Walked(acks, Plus(done, all[seen]), all, seen + 1)
    ensures Walked(Without(acks, |done|), done, all, seen + 1)
  {
    assert all[seen..] == [all[seen]] + all[seen + 1..];
    assert acks[|done| + 1..] == all[seen + 1..];
  }

  lemma WalkEnds(acks: seq<Node>, done: seq<Node>, all: seq<Node>, seen: nat)
    requires Walked(acks, done, all, seen) && |done| == |acks|
    ensures acks == done && seen == |all|
    ensures forall key :: LeftOf(all, seen, key) == Remove(all, key)
    ensures forall due :: KeptOf(all, seen, due) == Keep(all, due)
  {
    assert all[..seen] == all;
  }

  // What is left of, kept of, and sent for the first n nodes.

  function LeftOf(all: seq<Node>, n: nat, key: Key): seq<Node>
    requires n <= |all|
  {
    Remove(all[..n], key)
  }

  function KeptOf(all: seq<Node>, n: nat, due: set<Key>): seq<Node>
    requires n <= |all|
  {
    Keep(all[..n], due)
  }

  function SentBy(before: seq<seq<Byte>>, all: seq<Node>, n: nat, due: set<Key>, ok: set<Key>): seq<seq<Byte>>
    requires n <= |all|
  {
    before + Resent(all[..n], due, ok)
  }

  /** What a node contributes to the packets sent. */
  function Again(n: Node, due: set<Key>, ok: set<Key>): seq<seq<Byte>> {
    if n.key in due && Resendable(n.key.kind) && n.key in ok then [n.payload] else []
  }

  lemma RemoveNode(all: seq<Node>, n: nat, key: Key)
    requires n < |all|
    ensures LeftOf(all, n + 1, key) ==
      if all[n].key == key then LeftOf(all, n, key) else Plus(LeftOf(all, n, key), all[n])
  {
    assert Init(all[..n + 1]) == all[..n];
    assert LeftOf(all, n, key) + [] == LeftOf(all, n, key);
  }

  lemma ScanNode(all: seq<Node>, n: nat, due: set<Key>)
    requires n < |all|
    ensures KeptOf(all, n + 1, due)
      == if Stays(all[n].key, due) then Plus(KeptOf(all, n, due), all[n]) else KeptOf(all, n, due)
  {
    assert Init(all[..n + 1]) == all[..n];
    assert KeptOf(all, n, due) + [] == KeptOf(all, n, due);
  }

  lemma SentStarts(before: seq<seq<Byte>>, all: seq<Node>, due: set<Key>, ok: set<Key>)
    ensures SentBy(before, all, 0, due, ok) == before
  {
  }

  lemma SentMore(before: seq<seq<Byte>>, all: seq<Node>, n: nat, due: set<Key>, ok: set<Key>)
    requires n < |all|
    ensures SentBy(before, all, n + 1, due, ok) == SentBy(before, all, n, due, ok) + Again(all[n], due, ok)
  {
    assert Init(all[..n + 1]) == all[..n];
    assert Resent(all[..n + 1], due, ok) == Resent(all[..n], due, ok) + Again(all[n], due, ok);
  }

  lemma SentEnds(before: seq<seq<Byte>>, all: seq<Node>, due: set<Key>, ok: set<Key>)
    ensures SentBy(before, all, |all|, due, ok) == before + Resent(all, due, ok)
  {
    assert all[..|all|] == all;
  }

  ghost predicate IsDue(all: seq<Node>, due: set<Key>, timed: bool, expired: set<Key>) {
    forall j :: 0 <= j < |all| ==> (all[j].key in due <==> !(timed && all[j].key !in expired))
  }

  /** For the nodes of the list, being due is what the scan checks. */
  lemma AllDue(all: seq<Node>, due: set<Key>, timed: bool, expired: set<Key>)
    requires due == if timed then expired else Table(all).Keys
    ensures IsDue(all, due, timed, expired)
  {
    forall j | 0 <= j < |all| ensures all[j].key in Table(all) {
      InTable(all, all[j].key);
    }
  }
}
