/** The circular doubly linked lists of list.h and mqtt_list.c: a ring of nodes, the list's head among them. */
module RingList {
  import opened Sequences

  class Node {
    var prev: Node?
    var next: Node?

    constructor ()
      ensures Ring([this])
    {
      prev, next := null, null;
      new;
      prev, next := this, this;
    }
  }

  predicate Distinct<T(==)>(s: seq<T>) { forall i, j :: 0 <= i < j < |s| ==> s[i] != s[j] }

  /** The node after the one at i, round the ring. */
  ghost function After(ring: seq<Node>, i: nat): Node
    requires i < |ring|
  {
    if i == |ring| - 1 then ring[0] else ring[i + 1]
  }

  ghost predicate Linked(a: Node, b: Node)
    reads a, b
  {
    a.next == b && b.prev == a
  }

  /** The nodes in ring order: each one's `next` is the one after it, whose `prev` leads back. */
  ghost predicate Ring(ring: seq<Node>)
    reads ring
  {
    ring != [] && Distinct(ring) && forall i :: 0 <= i < |ring| ==> Linked(ring[i], After(ring, i))
  }

  lemma Neighbours(ring: seq<Node>, k: nat)
    requires Ring(ring) && k < |ring|
    ensures ring[k].next == After(ring, k) && ring[k].prev == ring[if k == 0 then |ring| - 1 else k - 1]
  {
    var j := if k == 0 then |ring| - 1 else k - 1;
    assert Linked(ring[j], After(ring, j));
    assert Linked(ring[k], After(ring, k));
  }

  function Pred(n: nat, k: nat): nat
    requires k < n
  {
    if k == 0 then n - 1 else k - 1
  }

  /** The ring with a node put before the one at k; before the head means at the end. */
  ghost function Before(ring: seq<Node>, k: nat, node: Node): (r: seq<Node>)
    requires k < |ring|
    ensures |r| == |ring| + 1
  {
    if k == 0 then ring + [node] else ring[..k] + [node] + ring[k..]
  }

  /** All links of the ring but those that start at the nodes named. */
  ghost predicate LinkedBut(ring: seq<Node>, a: nat, b: nat)
    requires ring != []
    reads ring
  {
    forall i :: 0 <= i < |ring| && i != a && i != b ==> Linked(ring[i], After(ring, i))
  }

  /** Every link of the longer ring is one of the two new ones or an old one. */
  lemma PairBefore(ring: seq<Node>, k: nat, node: Node, i: nat)
    requires k < |ring| && i <= |ring|
    ensures var r, p := Before(ring, k, node), Pred(|ring|, k); var at := if k == 0 then |ring| else k;
      if i == at then r[i] == node && After(r, i) == ring[k]
      else if i + 1 == at then r[i] == ring[p] && After(r, i) == node
      else var j := if i < at then i else i - 1;
        r[i] == ring[j] && After(r, i) == After(ring, j) && j != p
  {
  }

  lemma RingBefore(ring: seq<Node>, k: nat, node: Node)
    requires k < |ring| && Distinct(ring) && node !in ring
    requires Linked(ring[Pred(|ring|, k)], node) && Linked(node, ring[k])
    requires LinkedBut(ring, Pred(|ring|, k), Pred(|ring|, k))
    ensures Ring(Before(ring, k, node))
  {
    var r := Before(ring, k, node);
    forall i | 0 <= i < |r| ensures Linked(r[i], After(r, i)) {
      PairBefore(ring, k, node, i);
      hide Before;
      hide After;
    }
  }

  lemma PairWithout(ring: seq<Node>, k: nat, i: nat)
    requires 0 < k < |ring| && i < |ring| - 1
    ensures var r := Without(ring, k);
      if i + 1 == k then r[i] == ring[k - 1] && After(r, i) == After(ring, k)
      else var j := if i < k then i else i + 1;
        r[i] == ring[j] && After(r, i) == After(ring, j) && j != k && j != k - 1
  {
  }

  lemma RingWithout(ring: seq<Node>, k: nat)
    requires 0 < k < |ring| && Distinct(ring) && Linked(ring[k - 1], After(ring, k)) && LinkedBut(ring, k - 1, k)
    ensures Ring(Without(ring, k))
  {
    var r := Without(ring, k);
    forall i | 0 <= i < |r| ensures Linked(r[i], After(r, i)) {
      PairWithout(ring, k, i);
      hide Without;
      hide After;
    }
  }

  /** Different nodes are followed by different nodes. */
  lemma AfterDiffers(ring: seq<Node>, i: nat, j: nat)
    requires Distinct(ring) && i < |ring| && j < |ring| && i != j
    ensures After(ring, i) != After(ring, j) && ring[i] != ring[j]
  {
  }

  /** A ring whose nodes nobody touched is still one. */
  twostate lemma RingKept(ring: seq<Node>)
    requires old(Ring(ring)) && forall n :: n in ring ==> unchanged(n)
    ensures Ring(ring)
  {
    forall i | 0 <= i < |ring| ensures Linked(ring[i], After(ring, i)) {
      assert ring[i] in ring && After(ring, i) in ring;
      assert old(Linked(ring[i], After(ring, i)));
    }
  }

  /** list_append, list_insert_before, mqtt_list_add_tail */
  method Append(entry: Node, head: Node, ghost ring: seq<Node>, ghost k: nat)
    requires Ring(ring) && k < |ring| && ring[k] == head && entry !in ring
    modifies ring, entry
    ensures Ring(Before(ring, k, entry))
  {
    ghost var p := Pred(|ring|, k);
    Neighbours(ring, k);
    Neighbours(ring, p);
    entry.next := head;
    entry.prev := head.prev;
    head.prev.next := entry;
    head.prev := entry;
    forall i | 0 <= i < |ring| && i != p ensures Linked(ring[i], After(ring, i)) {
      AfterDiffers(ring, i, p);
    }
    RingBefore(ring, k, entry);
  }

  /** list_prepend, list_insert_after, mqtt_list_add */
  method Prepend(entry: Node, head: Node, ghost ring: seq<Node>, ghost k: nat)
    requires Ring(ring) && k < |ring| && ring[k] == head && entry !in ring
    modifies ring, entry
    ensures Ring(ring[..k + 1] + [entry] + ring[k + 1..])
  {
    ghost var n := if k + 1 == |ring| then 0 else k + 1;
    Neighbours(ring, k);
    Neighbours(ring, n);
    entry.next := head.next;
    entry.prev := head;
    head.next.prev := entry;
    head.next := entry;
    forall i | 0 <= i < |ring| && i != k ensures Linked(ring[i], After(ring, i)) {
      AfterDiffers(ring, i, k);
    }
    RingBefore(ring, n, entry);
    assert Before(ring, n, entry) == ring[..k + 1] + [entry] + ring[k + 1..];
  }

  /** list_remove, mqtt_list_del: of any node but the head; its own pointers stay. */
  method Remove(entry: Node, ghost ring: seq<Node>, ghost k: nat)
    requires Ring(ring) && 0 < k < |ring| && ring[k] == entry
    modifies ring[k - 1], After(ring, k)
    ensures Ring(Without(ring, k))
    ensures entry.next == old(entry.next) && entry.prev == old(entry.prev)
  {
    Neighbours(ring, k);
    entry.prev.next := entry.next;
    entry.next.prev := entry.prev;
    forall i | 0 <= i < |ring| && i != k - 1 && i != k ensures Linked(ring[i], After(ring, i)) {
      AfterDiffers(ring, i, k);
      AfterDiffers(ring, i, k - 1);
    }
    RingWithout(ring, k);
  }

  /** mqtt_list_del_init: the removed node is a list of its own again. */
  method RemoveInit(entry: Node, ghost ring: seq<Node>, ghost k: nat)
    requires Ring(ring) && 0 < k < |ring| && ring[k] == entry
    modifies ring
    ensures Ring(Without(ring, k)) && Ring([entry])
  {
    Remove(entry, ring, k);
    entry.next := entry;
    entry.prev := entry;
  }

  /** mqtt_list_move_tail: from where it is to the end of the same list. */
  method MoveTail(node: Node, list: Node, ghost ring: seq<Node>, ghost k: nat)
    requires Ring(ring) && 0 < k < |ring| && ring[k] == node && list == ring[0]
    modifies ring
    ensures Ring(Without(ring, k) + [node])
  {
    Remove(node, ring, k);
    Append(node, list, Without(ring, k), 0);
  }

  /** list_empty */
  method IsEmpty(head: Node, ghost ring: seq<Node>) returns (empty: bool)
    requires Ring(ring) && head == ring[0]
    ensures empty == (ring == [head])
  {
    empty := head.next == head;
    Neighbours(ring, 0);
  }

  /**
   * list_for_each_entry_safe with a body that may take the current node out: every node is visited once, in order. Here
   * the body takes out the nodes the caller names.
   */
  method RemoveAll(head: Node, drop: set<Node>, ghost ring: seq<Node>)
    returns (visited: seq<Node>, ghost left: seq<Node>)
    requires Ring(ring) && head == ring[0] && head !in drop
    modifies ring
    ensures visited == ring[1..] && Ring(left) && left == Kept(ring, drop)
  {
    assert ring != [];
    hide Walked;
    hide Kept;
    hide Ring;
    hide Visited;
    hide After;
    hide Without;
    hide Distinct;
    hide Plus;
    var entry := head.next;
    visited, left := [], ring;
    ghost var k, n := 0, 0;  // nodes kept and visited so far, the head not counted
    WalkStarts(ring, drop);
    NextOf(left, 0);
    while entry != head
      invariant 0 <= k <= n < |ring| && k < |left|
      invariant Ring(left) && left[0] == head && Walked(ring, left, n, k, drop) && Visited(ring, visited, n)
      invariant entry == After(left, k)
      decreases |ring| - n
    {
      NextOf(left, k);
      WalkOn(ring, left, n, k, drop, visited);
      NextOf(left, k + 1);
      var next := entry.next;
      visited := Plus(visited, entry);
      left, k := Visit(entry, drop, left, k);
      n := n + 1;
      entry := next;
    }
    NextOf(left, k);
    WalkEnds(ring, left, n, k, drop, visited);
  }

  /** The body of the iteration. */
  method Visit(entry: Node, drop: set<Node>, ghost left: seq<Node>, ghost k: nat)
    returns (ghost rest: seq<Node>, ghost m: nat)
    requires Ring(left) && k + 1 < |left| && left[k + 1] == entry
    modifies left[k], After(left, k + 1)
    ensures Ring(rest) && m < |rest| && rest[0] == left[0] && After(rest, m) == After(left, k + 1)
    ensures if entry in drop then rest == Without(left, k + 1) && m == k else rest == left && m == k + 1
  {
    NextWithout(left, k + 1);
    if entry in drop {
      Remove(entry, left, k + 1);
      rest, m := Without(left, k + 1), k;
    } else {
      rest, m := left, k + 1;
    }
  }

  lemma NextOf(ring: seq<Node>, k: nat)
    requires Ring(ring) && k < |ring|
    ensures ring[k].next == After(ring, k)
    ensures After(ring, k) == ring[0] <==> k + 1 == |ring|
    ensures k + 1 < |ring| ==> After(ring, k) == ring[k + 1]
  {
    Neighbours(ring, k);
    assert Distinct(ring);
  }

  /** Taking out the node at k does not change what is behind it. */
  lemma NextWithout(ring: seq<Node>, k: nat)
    requires Ring(ring) && 0 < k < |ring|
    ensures After(Without(ring, k), k - 1) == After(ring, k) && Without(ring, k)[0] == ring[0]
  {
  }

  /** Of the ring the nodes up to n were visited, of which the first k, and the head, were kept. */
  ghost predicate Walked(ring: seq<Node>, left: seq<Node>, n: nat, k: nat, drop: set<Node>) {
    && n < |ring| && left == Kept(ring[..n + 1], drop) + ring[n + 1..] && |Kept(ring[..n + 1], drop)| == k + 1
    && forall x :: x in left ==> x in ring
  }

  ghost predicate Visited(ring: seq<Node>, visited: seq<Node>, n: nat) {
    n < |ring| && visited == ring[1..n + 1]
  }

  lemma WalkStarts(ring: seq<Node>, drop: set<Node>)
    requires ring != [] && ring[0] !in drop
    ensures Walked(ring, ring, 0, 0, drop) && Visited(ring, [], 0)
  {
    assert ring[..1] == [ring[0]] && ring[..1][..0] == [];
    assert Kept(ring[..1], drop) == [ring[0]];
  }

  lemma WalkOn(ring: seq<Node>, left: seq<Node>, n: nat, k: nat, drop: set<Node>, visited: seq<Node>)
    requires Walked(ring, left, n, k, drop) && k + 1 < |left| && Visited(ring, visited, n)
    ensures n + 1 < |ring| && left[k + 1] == ring[n + 1] && left[k] in ring && After(left, k + 1) in ring
    ensures left[k + 1] in drop ==> Walked(ring, Without(left, k + 1), n + 1, k, drop)
    ensures left[k + 1] !in drop ==> Walked(ring, left, n + 1, k + 1, drop)
    ensures Visited(ring, Plus(visited, left[k + 1]), n + 1)
  {
    KeptStep(ring, n + 1, drop);
    assert ring[n + 1..] == [ring[n + 1]] + ring[n + 2..];
  }

  lemma WalkEnds(ring: seq<Node>, left: seq<Node>, n: nat, k: nat, drop: set<Node>, visited: seq<Node>)
    requires Walked(ring, left, n, k, drop) && k + 1 == |left| && Visited(ring, visited, n)
    ensures left == Kept(ring, drop) && visited == ring[1..]
  {
    assert ring[..n + 1] == ring && ring[n + 1..] == [];
  }

  ghost function Kept(s: seq<Node>, drop: set<Node>): seq<Node> {
    if s == [] then [] else Kept(s[..|s| - 1], drop) + if s[|s| - 1] in drop then [] else [s[|s| - 1]]
  }

  lemma KeptStep(s: seq<Node>, n: nat, drop: set<Node>)
    requires n < |s|
    ensures Kept(s[..n + 1], drop) == Kept(s[..n], drop) + if s[n] in drop then [] else [s[n]]
  {
    assert s[..n + 1][..n] == s[..n];
  }
}
