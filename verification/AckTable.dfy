/** The ack list of the MQTT client, and the table of saved packets by type and packet id that it amounts to. */
module AckTable {
  import opened Octets
  import opened MqttBytes
  import opened MqttPackets

  const SUBACK := 9
  const UNSUBACK := 11

  datatype Key = Key(kind: Nibble, id: PacketId)

  datatype Node = Node(key: Key, payload: seq<Byte>)

  function Init(acks: seq<Node>): seq<Node>
    requires acks != []
  {
    acks[..|acks| - 1]
  }

  function Last(acks: seq<Node>): Node
    requires acks != []
  {
    acks[|acks| - 1]
  }

  function Table(acks: seq<Node>): map<Key, seq<Byte>> {
    if acks == [] then map[] else Table(Init(acks))[Last(acks).key := Last(acks).payload]
  }

  /** No two nodes share type and packet id. */
  predicate Unique(acks: seq<Node>) {
    acks == [] || (Unique(Init(acks)) && Last(acks).key !in Table(Init(acks)))
  }

  function Remove(acks: seq<Node>, key: Key): seq<Node> {
    if acks == [] then []
    else Remove(Init(acks), key) + if Last(acks).key == key then [] else [Last(acks)]
  }

  /** The types of the QoS handshakes; nodes of these types are sent again, others are dropped when they are due. */
  predicate Resendable(kind: Nibble) { kind in {PUBACK, PUBREC, PUBREL, PUBCOMP} }

  predicate Stays(key: Key, due: set<Key>) { key !in due || Resendable(key.kind) }

  function Keep(acks: seq<Node>, due: set<Key>): seq<Node> {
    if acks == [] then []
    else Keep(Init(acks), due) + if Stays(Last(acks).key, due) then [Last(acks)] else []
  }

  /** The packets a scan sends, in list order; `ok` says which sends succeed. */
  function Resent(acks: seq<Node>, due: set<Key>, ok: set<Key>): seq<seq<Byte>> {
    if acks == [] then []
    else
      var n := Last(acks);
      Resent(Init(acks), due, ok) + if n.key in due && Resendable(n.key.kind) && n.key in ok then [n.payload] else []
  }

  lemma Appended(acks: seq<Node>, n: Node)
    ensures Table(acks + [n]) == Table(acks)[n.key := n.payload]
    ensures Unique(acks + [n]) <==> Unique(acks) && n.key !in Table(acks)
  {
    assert Init(acks + [n]) == acks;
  }

  lemma {:induction false} TableSize(acks: seq<Node>)
    ensures |Table(acks)| <= |acks| && (Unique(acks) <==> |Table(acks)| == |acks|)
  {
    if acks != [] {
      TableSize(Init(acks));
    }
  }

  lemma {:induction false} InTable(acks: seq<Node>, key: Key)
    ensures key in Table(acks) <==> exists i :: 0 <= i < |acks| && acks[i].key == key
  {
    if acks != [] {
      InTable(Init(acks), key);
      assert key == Last(acks).key ==> acks[|acks| - 1].key == key;
    }
  }

  lemma {:induction false} Removed(acks: seq<Node>, key: Key)
    ensures Table(Remove(acks, key)) == Table(acks) - {key}
  {
    if acks == [] {
      assert Remove(acks, key) == acks;
    } else {
      Removed(Init(acks), key);
      var rest := Remove(Init(acks), key);
      Appended(rest, Last(acks));
      hide Unique;
      assert rest + [] == rest;
      assert Remove(acks, key) == if Last(acks).key == key then rest else rest + [Last(acks)];
      hide Remove;
      WithoutKey(Table(Init(acks)), key, Last(acks));
    }
  }

  lemma WithoutKey(table: map<Key, seq<Byte>>, key: Key, n: Node)
    ensures table[n.key := n.payload] - {key} ==
      if n.key == key then table - {key} else (table - {key})[n.key := n.payload]
  {
  }

  /** Only one node leaves, as there is only one. */
  lemma {:induction false} RemovedOne(acks: seq<Node>, key: Key)
    requires Unique(acks)
    ensures Unique(Remove(acks, key)) && |Remove(acks, key)| == |acks| - if key in Table(acks) then 1 else 0
  {
    if acks != [] {
      RemovedOne(Init(acks), key);
      Removed(Init(acks), key);
      var rest := Remove(Init(acks), key);
      Appended(rest, Last(acks));
      assert rest + [] == rest;
      assert Remove(acks, key) == if Last(acks).key == key then rest else rest + [Last(acks)];
      hide Remove;
    }
  }

  lemma {:induction false} Kept(acks: seq<Node>, due: set<Key>)
    requires Unique(acks)
    ensures Unique(Keep(acks, due))
    ensures forall key :: key in Table(Keep(acks, due)) <==> key in Table(acks) && Stays(key, due)
    ensures forall key :: key in Table(Keep(acks, due)) ==> Table(Keep(acks, due))[key] == Table(acks)[key]
  {
    if acks != [] {
      Kept(Init(acks), due);
      Appended(Keep(Init(acks), due), Last(acks));
      assert Keep(Init(acks), due) + [] == Keep(Init(acks), due);
    }
  }

  /** A scan sends every due packet of a handshake whose send succeeds. */
  lemma {:induction false} SentAgain(acks: seq<Node>, due: set<Key>, ok: set<Key>, key: Key)
    requires Unique(acks) && key in Table(acks) && key in due && Resendable(key.kind) && key in ok
    ensures Table(acks)[key] in Resent(acks, due, ok)
  {
    if key != Last(acks).key {
      SentAgain(Init(acks), due, ok, key);
    }
  }

  /** And nothing else. */
  lemma {:induction false} OnlySaved(acks: seq<Node>, due: set<Key>, ok: set<Key>, packet: seq<Byte>)
    requires Unique(acks) && packet in Resent(acks, due, ok)
    ensures exists key :: key in Table(acks) && key in due && Resendable(key.kind) && Table(acks)[key] == packet
  {
    var n := Last(acks);
    if packet in Resent(Init(acks), due, ok) {
      OnlySaved(Init(acks), due, ok, packet);
      var key :| key in Table(Init(acks)) && key in due && Resendable(key.kind) && Table(Init(acks))[key] == packet;
      assert Table(acks)[key] == packet;
    } else {
      assert Table(acks)[n.key] == packet;
    }
  }
}
