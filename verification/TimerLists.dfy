/** The timer module over its two linked lists: ids, adding, moving, deleting, and the pass over what is due. */
module TimerLists {
  import opened Words
  import opened Sequences
  import opened RingList
  import opened Timers
  import opened TimerPass

  // ------------------------------------------------------------------ ids

  const IDS := 0x7fff_ffff

  /** The id that get_timer_id gives out after n others: past 2^31 it goes on with 1. */
  function Id(n: nat): int { if n == 0 then 0 else (n - 1) % IDS + 1 }

  /** Every id but the first is positive, and one comes back exactly after 2^31 - 1 others; the first never does. */
  lemma IdsCycle(m: nat, n: nat)
    ensures n > 0 ==> 0 < Id(n) < 0x8000_0000
    ensures Id(m) == Id(n) <==> m == n || (m > 0 && n > 0 && (m - n) % IDS == 0)
  {
    if m > 0 && n > 0 {
      SameRest(m - 1, n - 1);
    }
  }

  lemma SameRest(a: nat, b: nat)
    ensures a % IDS == b % IDS <==> (a - b) % IDS == 0
  {
    var q, r := a / IDS - b / IDS, a % IDS - b % IDS;
    assert a - b == q * IDS + r;
  }

  lemma NextIs(n: nat)
    ensures Id(n + 1) == if Id(n) + 1 >= 0x8000_0000 then 1 else Id(n) + 1
  {
    if n > 0 {
      var a := n - 1;
      assert a == a / IDS * IDS + a % IDS;
      if a % IDS == IDS - 1 {
        assert a + 1 == (a / IDS + 1) * IDS;
      } else {
        assert (a + 1) / IDS == a / IDS;
      }
    }
  }

  // ------------------------------------------------------------------ timers in a ring of nodes

  /** list_entry leads from every node behind the head to a timer. */
  ghost predicate Known(ring: seq<Node>, timers: map<Node, Timer>) { forall i :: 1 <= i < |ring| ==> ring[i] in timers }

  /** The timers of a list, in order. */
  ghost function Items(ring: seq<Node>, timers: map<Node, Timer>): (r: seq<Timer>)
    requires ring != [] && Known(ring, timers)
    ensures |r| == |ring| - 1 && forall i :: 0 <= i < |r| ==> r[i] == timers[ring[i + 1]]
  {
    seq(|ring| - 1, i requires 0 <= i < |ring| - 1 => timers[ring[i + 1]])
  }

  /** Where in the ring the timer at k stands; behind the last one is the head. */
  function Turn(n: nat, k: nat): (at: nat)
    requires k < n
    ensures at < n
  {
    if k + 1 == n then 0 else k + 1
  }

  lemma TurnAt(ring: seq<Node>, k: nat)
    requires k < |ring|
    ensures ring[Turn(|ring|, k)] == After(ring, k)
  {
  }

  lemma ItemsBefore(ring: seq<Node>, timers: map<Node, Timer>, node: Node, k: nat)
    requires k < |ring| && Known(ring, timers) && node in timers
    ensures var r, s := Before(ring, Turn(|ring|, k), node), Items(ring, timers);
      Known(r, timers) && Items(r, timers) == s[..k] + [timers[node]] + s[k..] && r[0] == ring[0]
  {
    var r := Before(ring, Turn(|ring|, k), node);
    BeforeAt(ring, node, k);
    hide Before;
    hide Turn;
    assert forall i :: 1 <= i < |r| ==> r[i] in timers;
    var s := Items(ring, timers);
    forall i | 0 <= i < |r| - 1 ensures Items(r, timers)[i] == (s[..k] + [timers[node]] + s[k..])[i] {
      assert r[i + 1] == if i < k then ring[i + 1] else if i == k then node else ring[i];
    }
  }

  lemma BeforeAt(ring: seq<Node>, node: Node, k: nat)
    requires k < |ring|
    ensures var r := Before(ring, Turn(|ring|, k), node);
      && |r| == |ring| + 1 && r[0] == ring[0]
      && forall i :: 1 <= i < |r| ==> r[i] == if i <= k then ring[i] else if i == k + 1 then node else ring[i - 1]
  {
  }

  lemma ItemsWithout(ring: seq<Node>, timers: map<Node, Timer>, k: nat)
    requires 0 < k < |ring| && Known(ring, timers)
    ensures var r := Without(ring, k);
      Known(r, timers) && Items(r, timers) == Without(Items(ring, timers), k - 1) && r[0] == ring[0]
  {
    var r := Without(ring, k);
    assert forall i :: 1 <= i < |r| ==> r[i] == ring[if i < k then i else i + 1];
  }

  /** What happens to a timer that is not in a list does not show there. */
  lemma ItemsSame(ring: seq<Node>, timers: map<Node, Timer>, timers': map<Node, Timer>)
    requires ring != [] && Known(ring, timers)
    requires forall n :: n in ring && n in timers ==> n in timers' && timers'[n] == timers[n]
    ensures Known(ring, timers') && Items(ring, timers') == Items(ring, timers)
  {
    forall i | 1 <= i < |ring| ensures ring[i] in timers' && timers'[ring[i]] == timers[ring[i]] {
      assert ring[i] in ring;
    }
  }

  lemma NotIn(ring: seq<Node>, k: nat)
    requires Distinct(ring) && k < |ring|
    ensures ring[k] !in Without(ring, k) && forall n :: n in Without(ring, k) ==> n in ring
    ensures forall n :: n in ring && n != ring[k] ==> n in Without(ring, k)
  {
    forall n | n in ring && n != ring[k] ensures n in Without(ring, k) {
      var i :| 0 <= i < |ring| && ring[i] == n;
      assert Without(ring, k)[if i < k then i else i - 1] == n;
    }
  }

  lemma InBefore(ring: seq<Node>, k: nat, node: Node)
    requires k < |ring|
    ensures forall n :: n in Before(ring, k, node) <==> n in ring || n == node
  {
    var r := Before(ring, k, node);
    forall n ensures n in r <==> n in ring || n == node {
      if n in ring {
        var i :| 0 <= i < |ring| && ring[i] == n;
        assert r[if k == 0 || i < k then i else i + 1] == n;
      }
      assert r[if k == 0 then |ring| else k] == node;
    }
  }

  /** The walk of add_timer_to_seqlist: to the first timer that is not earlier, or round to the head. */
  method WalkTo(head: Node, t: Timer, timers: map<Node, Timer>, ghost ring: seq<Node>)
    returns (entry: Node, ghost k: nat)
    requires Ring(ring) && head == ring[0] && Known(ring, timers)
    ensures k == Place(Items(ring, timers), t) && k < |ring| && entry == After(ring, k)
  {
    assert ring != [];
    hide Ring;
    hide After;
    hide Place;
    hide Items;
    hide Known;
    ghost var s := Items(ring, timers);
    entry := head.next;
    k := 0;
    NextOf(ring, 0);
    while entry != head
      invariant k < |ring| == |s| + 1 && entry == After(ring, k)
      invariant forall j :: 0 <= j < k ==> !Le(t, s[j])
      decreases |ring| - k
    {
      TimerAt(ring, timers, k);
      var e := timers[entry];
      if e.sec > t.sec {
        break;
      }
      if e.sec == t.sec && e.msec >= t.msec {
        break;
      }
      NextOf(ring, k + 1);
      entry := entry.next;
      k := k + 1;
    }
    WalkStops(ring, timers, t, k);
    PlaceUnique(s, t, k);
  }

  lemma TimerAt(ring: seq<Node>, timers: map<Node, Timer>, k: nat)
    requires Ring(ring) && Known(ring, timers) && k < |ring| && After(ring, k) != ring[0]
    ensures k + 1 < |ring| && After(ring, k) == ring[k + 1] && ring[k + 1] in timers
    ensures Items(ring, timers)[k] == timers[ring[k + 1]]
  {
    NextOf(ring, k);
  }

  /** At the head the walk has passed all timers. */
  lemma WalkStops(ring: seq<Node>, timers: map<Node, Timer>, t: Timer, k: nat)
    requires Ring(ring) && Known(ring, timers) && k < |ring|
    ensures After(ring, k) == ring[0] <==> k == |Items(ring, timers)|
  {
    NextOf(ring, k);
  }

  /** add_timer_to_seqlist: the walk to the first timer that is not earlier, and the insertion before it. */
  method AddToList(head: Node, node: Node, timers: map<Node, Timer>, ghost ring: seq<Node>)
    returns (ghost r: seq<Node>, ghost k: nat)
    requires Ring(ring) && head == ring[0] && node !in ring && Known(ring, timers) && node in timers
    modifies ring, node
    ensures k == Place(Items(ring, timers), timers[node]) && k < |ring|
    ensures r == Before(ring, Turn(|ring|, k), node) && Ring(r) && r[0] == head && Known(r, timers)
    ensures Items(r, timers) == Insert(Items(ring, timers), timers[node])
  {
    hide Ring;
    hide After;
    hide Before;
    hide Insert;
    hide Place;
    hide Items;
    hide Known;
    hide Turn;
    var entry;
    entry, k := WalkTo(head, timers[node], timers, ring);
    TurnAt(ring, k);
    ItemsBefore(ring, timers, node, k);
    InsertIs(Items(ring, timers), timers[node], k);
    r := Before(ring, Turn(|ring|, k), node);
    Append(node, entry, ring, Turn(|ring|, k));
  }

  lemma InsertIs(s: seq<Timer>, t: Timer, k: nat)
    requires k == Place(s, t)
    ensures Insert(s, t) == s[..k] + [t] + s[k..]
  {
  }

  /** list_remove, which does not touch the other list. */
  method Unlink(entry: Node, ghost r: seq<Node>, ghost k: nat, ghost other: seq<Node>)
    requires Ring(r) && 0 < k < |r| && r[k] == entry && Ring(other) && forall n :: n in r ==> n !in other
    modifies r
    ensures Ring(Without(r, k)) && Ring(other)
    ensures entry !in Without(r, k) && forall n :: n in Without(r, k) ==> n in r
  {
    NotIn(r, k);
    Remove(entry, r, k);
    RingKept(other);
  }

  /** sk_timer_find_by_id on one list: the first timer with the id. */
  method Find(head: Node, id: int, timers: map<Node, Timer>, ghost ring: seq<Node>) returns (entry: Node?, ghost k: nat)
    requires Ring(ring) && head == ring[0] && Known(ring, timers)
    ensures k < |ring| && forall j :: 0 <= j < k ==> Items(ring, timers)[j].id != id
    ensures entry == if k + 1 < |ring| then ring[k + 1] else null
    ensures k + 1 < |ring| ==> Items(ring, timers)[k].id == id
    ensures entry != null <==> Knows(Items(ring, timers), id)
    ensures entry != null ==> entry in timers && timers[entry].id == id
  {
    var e := head.next;
    k := 0;
    NextOf(ring, 0);
    while e != head
      invariant k < |ring| && e == After(ring, k) && forall j :: 0 <= j < k ==> Items(ring, timers)[j].id != id
      decreases |ring| - k
    {
      NextOf(ring, k);
      if timers[e].id == id {
        return e, k;
      }
      NextOf(ring, k + 1);
      e := e.next;
      k := k + 1;
    }
    NextOf(ring, k);
    entry := null;
  }

  // ------------------------------------------------------------------ the module

  /** The first timer with the id; ids repeat when the counter has gone round. */
  ghost predicate FirstWith(s: seq<Timer>, id: int, k: nat) {
    k < |s| && s[k].id == id && forall j :: 0 <= j < k ==> s[j].id != id
  }

  /** It was taken out and put in again, changed. */
  ghost predicate Moved(s: seq<Timer>, r: seq<Timer>, id: int, change: Timer -> Timer) {
    exists k: nat :: FirstWith(s, id, k) && r == Insert(Without(s, k), change(s[k]))
  }

  ghost predicate Dropped(s: seq<Timer>, r: seq<Timer>, id: int) {
    exists k: nat :: FirstWith(s, id, k) && r == Without(s, k)
  }

  ghost predicate Knows(s: seq<Timer>, id: int) { exists i :: 0 <= i < |s| && s[i].id == id }

  lemma DroppedIs(s: seq<Timer>, id: int, k: nat)
    requires FirstWith(s, id, k)
    ensures Dropped(s, Without(s, k), id)
  {
  }

  lemma MovedIs(s: seq<Timer>, id: int, k: nat, change: Timer -> Timer)
    requires FirstWith(s, id, k)
    ensures Moved(s, Insert(Without(s, k), change(s[k])), id, change)
  {
  }

  /** A timer that sk_timer_add has filled in. */
  function NewTimer(kind: Kind, id: int, sec: Word, msec: Word, now: Word, today: Word): (t: Timer)
    ensures if kind == Day then t.kind == Day && t.msec == 0 else t.kind == kind && t.sec == 0
  {
    if kind == Day then Timer(Day, id, sec, 0, 24 * 3600, sec < today)
    else Timer(kind, id, 0, (now + msec) % WRAP, msec, false)
  }

  function NewTime(t: Timer, now: Word, msec: Word): Timer {
    t.(sec := 0, msec := (now + msec) % WRAP, interval := msec)
  }

  function NewDayTime(t: Timer, sec: Word, today: Word): Timer {
    t.(sec := sec, msec := 0, interval := 24 * 3600, done := sec < today)
  }

  /**
   * A timer that is added or given a new time at `now` is due as soon as its delay has passed and not before, and comes
   * again at the same distance; a day timer is done for today when its second of the day is over.
   */
  lemma TimesAre(t: Timer, kind: Kind, id: int, sec: Word, msec: Word, now: Word, today: Word, later: Word)
    requires now + msec < WRAP
    ensures kind != Day ==> var n := NewTimer(kind, id, sec, msec, now, today);
      n.id == id && (n.msec <= later <==> later - now >= msec) && n.interval == msec
    ensures kind == Day ==> var n := NewTimer(kind, id, sec, msec, now, today);
      n.id == id && n.sec == sec && n.interval == 86400 && (n.done <==> today > sec)
    ensures var n := NewTime(t, now, msec);
      n.id == t.id && (n.msec <= later <==> later - now >= msec) && n.interval == msec
    ensures var n := NewDayTime(t, sec, today);
      n.id == t.id && n.sec == sec && n.interval == 86400 && (n.done <==> today > sec)
  {
  }

  /** The node behind the timer at p is where NextPlace says after that timer has left and, perhaps, come back. */
  lemma NextStays(ring: seq<Node>, p: nat)
    requires Ring(ring) && p + 1 < |ring|
    ensures p < |Without(ring, p + 1)| && After(Without(ring, p + 1), p) == After(ring, p + 1)
  {
    NextWithout(ring, p + 1);
  }

  lemma NextMoves(ring: seq<Node>, p: nat, k: nat, node: Node)
    requires p < |ring| && k < |ring|
    ensures var r := Before(ring, Turn(|ring|, k), node);
      After(r, if k <= p then p + 1 else p) == After(ring, p)
  {
  }

  class TimerModule {
    const head: Node
    const headPlan: Node
    var timers: map<Node, Timer>
    var nextId: int
    ghost var ring: seq<Node>
    ghost var planRing: seq<Node>
    ghost var nodes: set<Node>  // of both lists, and of timers that are in neither
    ghost var issued: nat
    ghost var fired: seq<Timer>

    /** Both rings are linked and have no node in common, and every node behind a head is part of a timer. */
    ghost predicate Lists()
      reads this
    {
      && ring != [] && ring[0] == head && Known(ring, timers) && planRing != [] && planRing[0] == headPlan
        && Known(planRing, timers)
      && (forall n :: n in ring ==> n in nodes && n !in planRing) && forall n :: n in planRing ==> n in nodes
    }

    ghost function Run(): seq<Timer>
      requires Lists()
      reads this
    {
      Items(ring, timers)
    }

    ghost function Plan(): seq<Timer>
      requires Lists()
      reads this
    {
      Items(planRing, timers)
    }

    /** Both lists stay in order, and each kind in its list. */
    ghost predicate Valid()
      reads this, ring, planRing
    {
      Lists() && Ring(ring) && Ring(planRing) && Ordered(Run()) && Running(Run()) && Ordered(Plan())
        && Planned(Plan()) && nextId == Id(issued)
    }

    constructor ()
      ensures Valid() && fresh(nodes) && Run() == [] && Plan() == [] && fired == [] && issued == 0
    {
      head := new Node();
      headPlan := new Node();
      timers, nextId := map[], 0;
      new;
      ring, planRing, issued, fired := [head], [headPlan], 0, [];
      nodes := {head, headPlan};
    }

    /** get_timer_id */
    method NextId() returns (id: int)
      requires nextId == Id(issued)
      modifies `nextId, `issued
      ensures id == Id(old(issued)) && issued == old(issued) + 1 && nextId == Id(issued)
    {
      NextIs(issued);
      id := nextId;
      nextId := id + 1;
      if nextId >= 0x8000_0000 {
        nextId := 1;
      }
      issued := issued + 1;
    }

    /** add_timer_to_seqlist for the running list, of a timer that is in no list. */
    method Join(node: Node) returns (ghost k: nat)
      requires Lists() && Ring(ring) && Ring(planRing) && node in nodes && node !in ring && node !in planRing
        && node in timers
      modifies `ring, nodes
      ensures Lists() && Ring(ring) && Ring(planRing) && Run() == Insert(old(Run()), timers[node])
        && Plan() == old(Plan())
      ensures k == Place(old(Run()), timers[node]) && k < |old(ring)|
        && ring == Before(old(ring), Turn(|old(ring)|, k), node)
    {
      hide Before;
      hide Known;
      hide Insert;
      hide Place;
      hide Items;
      hide Turn;
      hide Ring;
      hide Distinct;
      ghost var r;
      r, k := AddToList(head, node, timers, ring);
      InBefore(ring, Turn(|ring|, k), node);
      RingKept(planRing);
      ring := r;
    }

    method Enter(node: Node)
      requires Valid() && node in nodes && node !in ring && node !in planRing && node in timers
        && timers[node].sec == 0 && timers[node].kind != Day
      modifies `ring, nodes
      ensures Valid() && Run() == Insert(old(Run()), timers[node]) && Plan() == old(Plan())
    {
      hide Ring;
      hide Before;
      hide Known;
      hide Distinct;
      hide Insert;
      hide Items;
      InsertOrdered(Run(), timers[node]);
      InsertRuns(Run(), timers[node]);
      ghost var k := Join(node);
    }

    method EnterPlan(node: Node)
      requires Valid() && node in nodes && node !in ring && node !in planRing && node in timers
        && timers[node].msec == 0 && timers[node].kind == Day
      modifies `planRing, nodes
      ensures Valid() && Plan() == Insert(old(Plan()), timers[node]) && Run() == old(Run())
    {
      hide Ring;
      hide Before;
      hide Known;
      hide Distinct;
      hide Insert;
      hide Items;
      ghost var s, t := Plan(), timers[node];
      InsertOrdered(s, t);
      InsertPlans(s, t);
      ghost var r, k := AddToList(headPlan, node, timers, planRing);
      InBefore(planRing, Turn(|planRing|, k), node);
      RingKept(ring);
      planRing := r;
    }

    /** list_remove, whichever list the timer is in; the timer itself stays. */
    method Leave(entry: Node, ghost running: bool, ghost k: nat)
      requires Valid()
      requires var r := if running then ring else planRing; k + 1 < |r| && entry == r[k + 1]
      modifies `ring, `planRing, nodes
      ensures Valid() && entry in nodes && entry !in ring && entry !in planRing && entry in timers
      ensures Run() == if running then Without(old(Run()), k) else old(Run())
      ensures Plan() == if running then old(Plan()) else Without(old(Plan()), k)
    {
      hide Without;
      hide Items;
      hide Ring;
      ghost var r, other := if running then ring else planRing, if running then planRing else ring;
      KnownAt(r, timers, k + 1);
      assert r[k + 1] in r;
      if running {
        WithoutRuns(Run(), k);
      } else {
        WithoutPlans(Plan(), k);
      }
      ItemsWithout(r, timers, k + 1);
      hide Known;
      hide Ordered;
      hide Running;
      hide Planned;
      hide Distinct;
      Unlink(entry, r, k + 1, other);
      if running {
        ring := Without(r, k + 1);
      } else {
        planRing := Without(r, k + 1);
      }
    }

    /** A timer that is in no list is written, or freed. */
    method Write(entry: Node, t: Timer)
      requires Lists() && entry !in ring && entry !in planRing
      modifies `timers
      ensures Lists() && Run() == old(Run()) && Plan() == old(Plan()) && entry in timers && timers[entry] == t
    {
      ItemsSame(ring, timers, timers[entry := t]);
      ItemsSame(planRing, timers, timers[entry := t]);
      timers := timers[entry := t];
    }

    method Free(entry: Node)
      requires Lists() && entry !in ring && entry !in planRing
      modifies `timers
      ensures Lists() && Run() == old(Run()) && Plan() == old(Plan())
    {
      ItemsSame(ring, timers, timers - {entry});
      ItemsSame(planRing, timers, timers - {entry});
      timers := timers - {entry};
    }

    /** sk_timer_add; `today` is the time of day in seconds */
    method Add(kind: Kind, sec: Word, msec: Word, now: Word, today: Word) returns (id: int)
      requires Valid()
      modifies this, nodes
      ensures Valid() && id == Id(old(issued)) && issued == old(issued) + 1 && fired == old(fired)
        && fresh(nodes - old(nodes))
      ensures Run() == if kind == Day then old(Run()) else Insert(old(Run()), NewTimer(kind, id, sec, msec, now, today))
      ensures Plan() ==
        if kind == Day then Insert(old(Plan()), NewTimer(kind, id, sec, msec, now, today)) else old(Plan())
    {
      hide Items;
      hide Known;
      hide Ordered;
      hide Running;
      hide Planned;
      hide Insert;
      hide Ring;
      hide Id;
      hide NewTimer;
      id := NextId();
      EnterNew(NewTimer(kind, id, sec, msec, now, today));
    }

    /** A new timer enters the list of its kind. */
    method EnterNew(t: Timer)
      requires Valid() && if t.kind == Day then t.msec == 0 else t.sec == 0
      modifies `timers, `ring, `planRing, `nodes, nodes
      ensures Valid() && fresh(nodes - old(nodes))
      ensures Run() == if t.kind == Day then old(Run()) else Insert(old(Run()), t)
      ensures Plan() == if t.kind == Day then Insert(old(Plan()), t) else old(Plan())
    {
      hide Items;
      hide Known;
      hide Ordered;
      hide Running;
      hide Planned;
      hide Insert;
      hide Ring;
      hide Id;
      var node := Allocate(t);
      if t.kind != Day {
        Enter(node);
      } else {
        EnterPlan(node);
      }
    }

    /** malloc of a timer. */
    method Allocate(t: Timer) returns (node: Node)
      requires Valid()
      modifies `timers, `nodes
      ensures Valid() && fresh(node) && nodes == old(nodes) + {node} && node !in ring && node !in planRing
      ensures Run() == old(Run()) && Plan() == old(Plan()) && node in timers && timers[node] == t
    {
      hide Items;
      hide Known;
      hide Ordered;
      hide Running;
      hide Planned;
      node := new Node();
      RingKept(ring);
      RingKept(planRing);
      nodes := nodes + {node};
      hide Ring;
      Write(node, t);
    }

    /** sk_timer_find_by_id: in the running list first. */
    method FindById(id: int) returns (entry: Node?, ghost k: nat)
      requires Valid()
      ensures entry == null <==> !Knows(Run(), id) && !Knows(Plan(), id)
      ensures entry != null ==> entry in timers
      ensures Knows(Run(), id) ==> k + 1 < |ring| && entry == ring[k + 1] && FirstWith(Run(), id, k)
      ensures entry != null && !Knows(Run(), id) ==>
        k + 1 < |planRing| && entry == planRing[k + 1] && FirstWith(Plan(), id, k)
    {
      entry, k := Find(head, id, timers, ring);
      if entry == null {
        entry, k := Find(headPlan, id, timers, planRing);
      }
    }

    /** sk_timer_uptime: the timer leaves its place and enters its list again with the new time. */
    method UpdateTime(id: int, sec: Word, msec: Word, now: Word, today: Word) returns (ret: int)
      requires Valid()
      modifies `timers, `ring, `planRing, nodes
      ensures Valid() && ret == if id > 0 && (Knows(old(Run()), id) || Knows(old(Plan()), id)) then id else -1
      ensures if ret == -1 then Run() == old(Run()) && Plan() == old(Plan())
        else if Knows(old(Run()), id) then Moved(old(Run()), Run(), id, t => NewTime(t, now, msec))
          && Plan() == old(Plan())
        else Run() == old(Run()) && Moved(old(Plan()), Plan(), id, t => NewDayTime(t, sec, today))
    {
      if id <= 0 {
        return -1;
      }
      hide Items;
      hide Known;
      hide Without;
      hide Insert;
      hide Ring;
      hide Id;
      hide Knows;
      hide Ordered;
      ghost var s, p := Run(), Plan();
      var entry;
      ghost var k;
      entry, k := FindById(id);
      if entry == null {
        return -1;
      }
      var t := timers[entry];
      if t.kind != Day {
        MovedIs(s, id, k, u => NewTime(u, now, msec));
        Move(entry, NewTime(t, now, msec), k);
      } else {
        MovedIs(p, id, k, u => NewDayTime(u, sec, today));
        Move(entry, NewDayTime(t, sec, today), k);
      }
      ret := id;
    }

    /** A timer leaves its place, gets its new time, and enters its list again. */
    method Move(entry: Node, t: Timer, ghost k: nat)
      requires Valid() && if t.kind == Day then t.msec == 0 else t.sec == 0
      requires var r := if t.kind == Day then planRing else ring; k + 1 < |r| && entry == r[k + 1]
      modifies `timers, `ring, `planRing, nodes
      ensures Valid()
      ensures Run() == if t.kind == Day then old(Run()) else Insert(Without(old(Run()), k), t)
      ensures Plan() == if t.kind == Day then Insert(Without(old(Plan()), k), t) else old(Plan())
    {
      hide Items;
      hide Known;
      hide Ordered;
      hide Running;
      hide Planned;
      hide Insert;
      hide Without;
      hide Ring;
      hide Id;
      Leave(entry, t.kind != Day, k);
      Write(entry, t);
      if t.kind != Day {
        Enter(entry);
      } else {
        EnterPlan(entry);
      }
    }

    /** sk_timer_del */
    method Delete(id: int) returns (ret: int)
      requires Valid()
      modifies `timers, `ring, `planRing, nodes
      ensures Valid() && ret == if Knows(old(Run()), id) || Knows(old(Plan()), id) then 0 else -1
      ensures if ret == -1 then Run() == old(Run()) && Plan() == old(Plan())
        else if Knows(old(Run()), id) then Dropped(old(Run()), Run(), id) && Plan() == old(Plan())
        else Run() == old(Run()) && Dropped(old(Plan()), Plan(), id)
    {
      hide Items;
      hide Known;
      hide Ordered;
      hide Running;
      hide Planned;
      hide Without;
      hide Ring;
      hide Id;
      hide Knows;
      ghost var s, p := Run(), Plan();
      var entry;
      ghost var k;
      entry, k := FindById(id);
      if entry == null {
        return -1;
      }
      if Knows(s, id) {
        DroppedIs(s, id, k);
      } else {
        DroppedIs(p, id, k);
      }
      hide Dropped;
      Leave(entry, Knows(s, id), k);
      Free(entry);
      ret := 0;
    }

    /**
     * sk_timer_expire at a fixed time, with handlers that leave the list alone: which timers fire, and in which order;
     * once-timers are gone, the others stand in order at their next times.
     */
    method Expire(now: Word)
      requires Valid() && NoWrap(Run(), now)
      modifies `timers, `ring, `fired, nodes
      ensures Valid() && Plan() == old(Plan())
      ensures var s := old(Run());
        && fired == old(fired) + Fires(s, now)
        && PassedOver(Run(), s[Due(s, now)..], s[..Due(s, now)], now)
    {
      hide Known;
      hide Items;
      hide Ordered;
      hide Running;
      hide Planned;
      hide NoWrap;
      hide Ring;
      hide Id;
      hide Fires;
      hide Stage;
      hide StagePlace;
      hide Fired;
      ghost var s := Run();
      StageEnds(s, now);
      FiredNone(fired, s, now);
      Pass(now, s);
    }

    /** The loop of sk_timer_expire. */
    method Pass(now: Word, ghost s: seq<Timer>)
      requires Lists() && Ring(ring) && Ring(planRing) && Run() == s && Ordered(s) && Running(s) && NoWrap(s, now)
      modifies `timers, `ring, `fired, nodes
      ensures Lists() && Ring(ring) && Ring(planRing) && Plan() == old(Plan())
      ensures Run() == Stage(s, now, |Fires(s, now)|) && fired == Fired(old(fired), s, now, |Fires(s, now)|)
    {
      hide Known;
      hide Items;
      hide Ordered;
      hide Running;
      hide NoWrap;
      hide Ring;
      hide After;
      hide Fires;
      hide Stage;
      hide StagePlace;
      hide NextRun;
      hide NextPlace;
      hide Fired;
      hide InPass;
      ghost var was := fired;
      ghost var f: nat, p: nat := 0, 0;
      FiredNone(was, s, now);
      PassStarts(s, now);
      NextOf(ring, 0);
      var entry := head.next;
      while entry != head
        invariant Lists() && Ring(ring) && Ring(planRing) && Plan() == old(Plan())
        invariant f <= |Fires(s, now)| && Run() == Stage(s, now, f)
        invariant p < |ring| && entry == After(ring, p) && InPass(s, now, f, p) && fired == Fired(was, s, now, f)
        decreases |Fires(s, now)| - f
      {
        NextOf(ring, p);
        NextOf(ring, p + 1);
        KnownAt(ring, timers, p + 1);
        var next := entry.next;
        Round(was, s, now, f, p);
        if timers[entry].msec > now {
          break;
        }
        p := Fire(entry, p, now);
        f := f + 1;
        entry := next;
      }
      NextOf(ring, p);
      AtEnd(s, now, f, p);
    }

    /** The handler runs, and sk_timer_update; the iteration goes on with the node that was behind. */
    method Fire(entry: Node, ghost p: nat, now: Word) returns (ghost q: nat)
      requires Lists() && Ring(ring) && Ring(planRing) && p + 1 < |ring| && entry == ring[p + 1]
      modifies `timers, `ring, `fired, nodes
      ensures Lists() && Ring(ring) && Ring(planRing) && Plan() == old(Plan())
      ensures Run() == NextRun(old(Run()), p, now) && q == NextPlace(old(Run()), p, now)
      ensures q < |ring| && After(ring, q) == old(After(ring, p + 1))
      ensures fired == old(fired) + [old(Run())[p]]
    {
      hide Known;
      hide Items;
      hide Ring;
      hide After;
      hide Before;
      hide Distinct;
      hide Without;
      hide Insert;
      KnownAt(ring, timers, p + 1);
      var t := timers[entry];
      fired := fired + [t];
      ItemsWithout(ring, timers, p + 1);
      NextStays(ring, p);
      Unlink(entry, ring, p + 1, planRing);
      ring := Without(ring, p + 1);
      if t.kind == Keep {
        Write(entry, Again(t, now));
        ghost var rest := ring;
        ghost var k := Join(entry);
        NextMoves(rest, p, k, entry);
        q := if k <= p then p + 1 else p;
      } else {
        Free(entry);
        q := p;
      }
    }
  }

  /** What has fired after f timers of the pass. */
  ghost function Fired(was: seq<Timer>, s: seq<Timer>, now: Word, f: nat): seq<Timer>
    requires f <= |Fires(s, now)|
  {
    was + Fires(s, now)[..f]
  }

  lemma FiredNone(was: seq<Timer>, s: seq<Timer>, now: Word)
    ensures Fired(was, s, now, 0) == was && Fired(was, s, now, |Fires(s, now)|) == was + Fires(s, now)
  {
    hide Fires;
  }

  lemma FiredMore(was: seq<Timer>, s: seq<Timer>, now: Word, f: nat)
    requires f < |Fires(s, now)|
    ensures Fired(was, s, now, f + 1) == Fired(was, s, now, f) + [Fires(s, now)[f]]
  {
    hide Fires;
  }

  /** After f firings the iteration stands at the place that the stage says, or behind it when all have fired. */
  ghost predicate InPass(s: seq<Timer>, now: Word, f: nat, p: nat) {
    f <= |Fires(s, now)| && StagePlace(s, now, f) <= p && (f < |Fires(s, now)| ==> p == StagePlace(s, now, f))
  }

  lemma PassStarts(s: seq<Timer>, now: Word)
    ensures InPass(s, now, 0, 0) && Stage(s, now, 0) == s
  {
    StageStarts(s, now);
  }

  /** A timer is due exactly as long as some are still to fire, and its firing leads to the next stage. */
  lemma Round(was: seq<Timer>, s: seq<Timer>, now: Word, f: nat, p: nat)
    requires Ordered(s) && Running(s) && NoWrap(s, now) && InPass(s, now, f, p) && p < |Stage(s, now, f)|
    ensures var m := Stage(s, now, f);
      (m[p].msec > now ==> f == |Fires(s, now)|)
      && (m[p].msec <= now ==>
           && f < |Fires(s, now)| && NextRun(m, p, now) == Stage(s, now, f + 1)
             && InPass(s, now, f + 1, NextPlace(m, p, now))
           && Fired(was, s, now, f + 1) == Fired(was, s, now, f) + [m[p]])
  {
    hide Fires;
    hide Stage;
    hide StagePlace;
    hide Fired;
    hide PassedOver;
    hide NextRun;
    hide NextPlace;
    hide Ordered;
    hide Running;
    hide NoWrap;
    if f < |Fires(s, now)| {
      Advance(s, now, f);
      DueStill(s, now, f);
      FiredMore(was, s, now, f);
    } else {
      StageEnds(s, now);
    }
  }

  /** The iteration does not come to the end of the list before all have fired. */
  lemma AtEnd(s: seq<Timer>, now: Word, f: nat, p: nat)
    requires Ordered(s) && Running(s) && NoWrap(s, now) && InPass(s, now, f, p)
    ensures p >= |Stage(s, now, f)| ==> f == |Fires(s, now)|
  {
    hide Fires;
    hide Stage;
    hide StagePlace;
    if f < |Fires(s, now)| {
      Advance(s, now, f);
    }
  }

  /** The timers that fire are due. */
  lemma DueStill(s: seq<Timer>, now: Word, f: nat)
    requires f < |Fires(s, now)|
    ensures Fires(s, now)[f].msec <= now
  {
    FiresAt(s, now, f);
  }

  lemma KnownAt(ring: seq<Node>, timers: map<Node, Timer>, k: nat)
    requires Known(ring, timers) && 1 <= k < |ring|
    ensures ring[k] in timers
  {
  }

  lemma WithoutRuns(s: seq<Timer>, k: nat)
    requires Ordered(s) && Running(s) && k < |s|
    ensures Ordered(Without(s, k)) && Running(Without(s, k))
  {
    WithoutOrdered(s, k);
  }

  lemma WithoutPlans(s: seq<Timer>, k: nat)
    requires Ordered(s) && Planned(s) && k < |s|
    ensures Ordered(Without(s, k)) && Planned(Without(s, k))
  {
    WithoutOrdered(s, k);
  }

  lemma InsertRuns(s: seq<Timer>, t: Timer)
    requires Running(s) && t.sec == 0 && t.kind != Day
    ensures Running(Insert(s, t))
  {
    forall j | 0 <= j < |s| + 1 ensures Insert(s, t)[j].sec == 0 && Insert(s, t)[j].kind != Day {
      InsertAt(s, t, j);
    }
  }

  lemma InsertPlans(s: seq<Timer>, t: Timer)
    requires Planned(s) && t.msec == 0 && t.kind == Day
    ensures Planned(Insert(s, t))
  {
    forall j | 0 <= j < |s| + 1 ensures Insert(s, t)[j].msec == 0 && Insert(s, t)[j].kind == Day {
      InsertAt(s, t, j);
    }
  }
}
