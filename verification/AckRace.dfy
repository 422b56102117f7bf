/**
 * The one write buffer of the MQTT client between threads: what is found in it when a packet is saved in an ack node.
 * A step writes a packet, marks it, saves it, or gives up the write lock; a serialization that is seen half done is a
 * write of the first bytes of a packet.
 */
module AckRace {
  import opened Octets
  import opened MqttBytes
  import opened MqttPackets

  datatype Thread =
    | Outside
    | Holding(packet: seq<Byte>)          // has the write lock, with its packet in the buffer
    | Late(packet: seq<Byte>, from: nat)  // has given it up, after that many writes, and is still to record its packet

  /** A node recorded: the packet it is for, the writes before the lock was given up and before it was saved. */
  datatype Saving = Saving(packet: seq<Byte>, from: nat, to: nat, payload: seq<Byte>)

  datatype State = State(buf: seq<Byte>, threads: seq<Thread>,
                         written: seq<seq<Byte>>,  // history of everything written into the buffer
                         saved: seq<Saving>)       // history of the nodes recorded

  datatype Step =
    | Write(thread: nat, packet: seq<Byte>)  // takes the lock, or has it
    | RecordInside(thread: nat)
    | Unlock(thread: nat, later: bool)       // the handler of a received PUBLISH records later
    | RecordLate(thread: nat)

  function Init(buf: seq<Byte>, threads: nat): State { State(buf, seq(threads, _ => Outside), [], []) }

  predicate LockFree(s: State) { forall i :: 0 <= i < |s.threads| ==> !s.threads[i].Holding? }

  predicate Enabled(s: State, st: Step) {
    && st.thread < |s.threads|
    && var t := s.threads[st.thread];
       match st
       case Write(_, packet) => |packet| <= |s.buf| && (t.Holding? || (t.Outside? && LockFree(s)))
       case RecordInside(_) => t.Holding?
       case Unlock(_, _) => t.Holding?
       case RecordLate(_) => t.Late?
  }

  /** A packet over the start of what was there, as far as there is room. */
  function Over(was: seq<Byte>, packet: seq<Byte>): (r: seq<Byte>)
    ensures |r| == |was|
  {
    if |packet| <= |was| then packet + was[|packet|..] else packet[..|was|]
  }

  /** One packet after another over the start of what was there. */
  function AllOver(was: seq<Byte>, packets: seq<seq<Byte>>): (r: seq<Byte>)
    ensures |r| == |was|
  {
    if packets == [] then was else Over(AllOver(was, packets[..|packets| - 1]), packets[|packets| - 1])
  }

  /** The length of a saved packet is kept in 16 bits. */
  function Cut(packet: seq<Byte>): seq<Byte> { packet[..|packet| % 0x10000] }

  /** mqtt_ack_handler_create: from the start of the write buffer, as it is now. */
  function Copied(s: State, packet: seq<Byte>, from: nat): Saving
    requires |packet| <= |s.buf|
  {
    Saving(packet, from, |s.written|, s.buf[..|packet| % 0x10000])
  }

  /** Packets in hand fit into the buffer, as they do in every run (`Inv`). */
  ghost predicate Sized(s: State) {
    forall i :: 0 <= i < |s.threads| && !s.threads[i].Outside? ==> |s.threads[i].packet| <= |s.buf|
  }

  function Apply(s: State, st: Step): State
    requires Sized(s) && Enabled(s, st)
  {
    var i := st.thread;
    match st
    case Write(_, packet) =>
      s.(buf := Over(s.buf, packet), threads := s.threads[i := Holding(packet)], written := s.written + [packet])
    case RecordInside(_) => s.(saved := s.saved + [Copied(s, s.threads[i].packet, |s.written|)])
    case Unlock(_, later) =>
      s.(threads := s.threads[i := if later then Late(s.threads[i].packet, |s.written|) else Outside])
    case RecordLate(_) =>
      s.(threads := s.threads[i := Outside], saved := s.saved + [Copied(s, s.threads[i].packet, s.threads[i].from)])
  }

  // ------------------------------------------------------------------ what every step keeps

  /** What stands where a packet was after the writes from `from` to `to`. */
  function Left(s: State, packet: seq<Byte>, from: nat, to: nat): seq<Byte>
    requires from <= to <= |s.written|
  {
    AllOver(packet, s.written[from..to])
  }

  /** The holder's packet is in the buffer, and a late recorder's is covered by what was written since. */
  ghost predicate InBuffer(s: State, t: Thread) {
    match t
    case Outside => true
    case Holding(packet) => Has(s.buf, 0, packet)
    case Late(packet, from) => from <= |s.written| && Has(s.buf, 0, Left(s, packet, from, |s.written|))
  }

  ghost predicate SavedSound(s: State, n: Saving) {
    n.from <= n.to <= |s.written| && n.payload == Left(s, n.packet, n.from, n.to)[..|n.packet| % 0x10000]
  }

  ghost predicate Inv(s: State) {
    && Sized(s)
    && (forall i, j :: 0 <= i < j < |s.threads| ==> !(s.threads[i].Holding? && s.threads[j].Holding?))
    && (forall i :: 0 <= i < |s.threads| ==> InBuffer(s, s.threads[i]))
    && (forall k :: 0 <= k < |s.saved| ==> SavedSound(s, s.saved[k]))
  }

  lemma OverPart(was: seq<Byte>, packet: seq<Byte>, n: nat)
    requires n <= |was|
    ensures Over(was, packet)[..n] == Over(was[..n], packet)
  {
  }

  /** One more write covers what stood there before it. */
  lemma LeftNext(s: State, packet: seq<Byte>, from: nat, to: nat, q: seq<Byte>)
    requires from <= to <= |s.written|
    ensures var n := s.(written := s.written + [q]);
      && Left(n, packet, from, to) == Left(s, packet, from, to)
      && (to == |s.written| ==> Left(n, packet, from, to + 1) == Over(Left(s, packet, from, to), q))
  {
    var all := s.written + [q];
    assert all[from..to] == s.written[from..to];
    if to == |s.written| {
      assert all[from..to + 1] == s.written[from..to] + [q];
      assert all[from..to + 1][..to - from] == s.written[from..to];
    }
  }

  /** A write leaves a late recorder's packet covered by one packet more. */
  lemma StillInBuffer(s: State, t: Thread, q: seq<Byte>)
    requires InBuffer(s, t) && t.Late? && |q| <= |s.buf|
    ensures InBuffer(s.(buf := Over(s.buf, q), written := s.written + [q]), t)
  {
    LeftNext(s, t.packet, t.from, |s.written|, q);
    var was := Left(s, t.packet, t.from, |s.written|);
    OverPart(s.buf, q, |was|);
    assert s.buf[..|was|] == s.buf[0..|was|] == was;
  }

  lemma WriteKept(s: State, i: nat, q: seq<Byte>)
    requires Inv(s) && Enabled(s, Write(i, q))
    ensures Inv(Apply(s, Write(i, q)))
  {
    var n := Apply(s, Write(i, q));
    forall j | 0 <= j < |n.threads| ensures InBuffer(n, n.threads[j]) {
      if j != i && n.threads[j].Late? {
        StillInBuffer(s, s.threads[j], q);
      }
      assert j == i ==> n.buf[0..|q|] == q;
    }
    forall k | 0 <= k < |n.saved| ensures SavedSound(n, n.saved[k]) {
      LeftNext(s, n.saved[k].packet, n.saved[k].from, n.saved[k].to, q);
    }
  }

  /** Nothing written since: the packet is as it was. */
  lemma LeftNone(s: State, packet: seq<Byte>, from: nat)
    requires from <= |s.written|
    ensures Left(s, packet, from, from) == packet
  {
    assert s.written[from..from] == [];
  }

  lemma CopiedSound(s: State, packet: seq<Byte>, from: nat)
    requires |packet| <= |s.buf| && InBuffer(s, Late(packet, from))
    ensures SavedSound(s, Copied(s, packet, from))
  {
    var left := Left(s, packet, from, |s.written|);
    var n := |packet| % 0x10000;
    assert s.buf[0..|left|] == left;
    assert s.buf[..n] == s.buf[0..|left|][..n];
  }

  lemma OtherKept(s: State, st: Step)
    requires Inv(s) && Enabled(s, st) && !st.Write?
    ensures Inv(Apply(s, st))
  {
    var i := st.thread;
    var t := s.threads[i];
    var n := Apply(s, st);
    LeftNone(s, t.packet, |s.written|);
    CopiedSound(s, t.packet, if t.Late? then t.from else |s.written|);
    forall k | 0 <= k < |n.saved| ensures SavedSound(n, n.saved[k]) {
      assert k < |s.saved| ==> SavedSound(s, s.saved[k]);
    }
    forall j | 0 <= j < |n.threads| ensures InBuffer(n, n.threads[j]) {
      assert InBuffer(s, s.threads[j]);
    }
  }

  /** Every step keeps the invariant. */
  lemma InvKept(s: State, st: Step)
    requires Inv(s) && Enabled(s, st)
    ensures Inv(Apply(s, st))
  {
    match st
    case Write(i, q) => WriteKept(s, i, q);
    case _ => OtherKept(s, st);
  }

  // ------------------------------------------------------------------ every run

  ghost predicate Runs(s: State, steps: seq<Step>)
    decreases |steps|
  {
    steps == [] || (Sized(s) && Enabled(s, steps[0]) && Runs(Apply(s, steps[0]), steps[1..]))
  }

  ghost function After(s: State, steps: seq<Step>): State
    requires Runs(s, steps)
    decreases |steps|
  {
    if steps == [] then s else After(Apply(s, steps[0]), steps[1..])
  }

  lemma {:induction false} InvAfter(s: State, steps: seq<Step>)
    requires Inv(s) && Runs(s, steps)
    ensures Inv(After(s, steps))
    decreases |steps|
  {
    hide Inv;
    if steps != [] {
      InvKept(s, steps[0]);
      InvAfter(Apply(s, steps[0]), steps[1..]);
    }
  }

  /**
   * In every run, by any number of threads, a node holds its packet covered by what was written between giving up the
   * lock and recording; so one recorded under the lock holds its own packet.
   */
  lemma SavedAs(buf: seq<Byte>, threads: nat, steps: seq<Step>, k: nat)
    requires Runs(Init(buf, threads), steps) && k < |After(Init(buf, threads), steps).saved|
    ensures var s := After(Init(buf, threads), steps); var n := s.saved[k];
      && n.from <= n.to <= |s.written|
      && n.payload == AllOver(n.packet, s.written[n.from..n.to])[..|n.packet| % 0x10000]
      && (n.from == n.to ==> n.payload == Cut(n.packet))
  {
    var s := After(Init(buf, threads), steps);
    InvAfter(Init(buf, threads), steps);
    var n := s.saved[k];
    assert SavedSound(s, n);
    LeftNone(s, n.packet, n.from);
  }

  /** Packets of other types, whole or only begun. */
  predicate Different(packet: seq<Byte>, others: seq<seq<Byte>>) {
    packet != [] && forall j :: 0 <= j < |others| ==> others[j] != [] && Kind(others[j][0]) != Kind(packet[0])
  }

  /** Such packets are seen. */
  lemma Covered(packet: seq<Byte>, others: seq<seq<Byte>>)
    requires Different(packet, others)
    ensures AllOver(packet, others)[..1] == packet[..1] <==> others == []
  {
    if others != [] {
      var q := others[|others| - 1];
      assert AllOver(packet, others)[..1][0] == q[0];
    }
  }

  /**
   * With no packet of the same type in between, a node holds its own packet if and only if nobody has written anything
   * since the lock was given up.
   */
  lemma OwnExactly(buf: seq<Byte>, threads: nat, steps: seq<Step>, k: nat)
    requires Runs(Init(buf, threads), steps) && k < |After(Init(buf, threads), steps).saved|
    requires var s := After(Init(buf, threads), steps); var n := s.saved[k];
      |n.packet| <= 0xFFFF && n.from <= n.to <= |s.written| && Different(n.packet, s.written[n.from..n.to])
    ensures var n := After(Init(buf, threads), steps).saved[k]; n.payload == n.packet <==> n.from == n.to
  {
    SavedAs(buf, threads, steps, k);
    var s := After(Init(buf, threads), steps);
    hide Runs;
    hide After;
    var n := s.saved[k];
    var others := s.written[n.from..n.to];
    var left := AllOver(n.packet, others);
    assert n.payload == left[..|left|] == left;
    Covered(n.packet, others);
  }

  /** What another thread writes in between is saved instead, as many bytes of it as the packet has. */
  lemma OtherSaved(buf: seq<Byte>, packet: seq<Byte>, other: seq<Byte>)
    requires |packet| <= 0xFFFF && |packet| <= |other| <= |buf|
    ensures var steps := [Write(0, packet), Unlock(0, true), Write(1, other), RecordLate(0)];
      && Runs(Init(buf, 2), steps)
      && After(Init(buf, 2), steps).saved == [Saving(packet, 1, 2, other[..|packet|])]
  {
    var a := Apply(Init(buf, 2), Write(0, packet));
    var b := Apply(a, Unlock(0, true));
    var c := Apply(b, Write(1, other));
    assert c.buf[..|packet|] == other[..|packet|];
    assert Apply(c, RecordLate(0)).saved == [Saving(packet, 1, 2, other[..|packet|])];
    hide Apply;
    FirstStep(c, RecordLate(0), []);
    FirstStep(b, Write(1, other), [RecordLate(0)]);
    FirstStep(a, Unlock(0, true), [Write(1, other), RecordLate(0)]);
    FirstStep(Init(buf, 2), Write(0, packet), [Unlock(0, true), Write(1, other), RecordLate(0)]);
  }

  lemma FirstStep(s: State, st: Step, rest: seq<Step>)
    requires Sized(s) && Enabled(s, st) && Runs(Apply(s, st), rest)
    ensures Runs(s, [st] + rest) && After(s, [st] + rest) == After(Apply(s, st), rest)
  {
    assert ([st] + rest)[1..] == rest;
  }
}
