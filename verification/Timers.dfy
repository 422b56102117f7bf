/** Timers, and the order of the timer lists. */
module Timers {
  import opened Words
  import opened Sequences

  datatype Kind = Once | Keep | Day

  datatype Timer = Timer(kind: Kind, id: int, sec: Word, msec: Word, interval: Word, done: bool)

  // ------------------------------------------------------------------ order

  predicate Le(a: Timer, b: Timer) { a.sec < b.sec || (a.sec == b.sec && a.msec <= b.msec) }

  ghost predicate Ordered(s: seq<Timer>) { forall i, j :: 0 <= i < j < |s| ==> Le(s[i], s[j]) }

  /** The first timer that is not earlier than t. */
  function Place(s: seq<Timer>, t: Timer): (k: nat)
    ensures k <= |s| && (forall j :: 0 <= j < k ==> !Le(t, s[j])) && (k < |s| ==> Le(t, s[k]))
  {
    if s == [] || Le(t, s[0]) then 0 else 1 + Place(s[1..], t)
  }

  function Insert(s: seq<Timer>, t: Timer): (r: seq<Timer>)
    ensures |r| == |s| + 1
  {
    s[..Place(s, t)] + [t] + s[Place(s, t)..]
  }

  lemma InsertAt(s: seq<Timer>, t: Timer, j: nat)
    requires j <= |s|
    ensures Insert(s, t)[j] == if j < Place(s, t) then s[j] else if j == Place(s, t) then t else s[j - 1]
  {
  }

  lemma InsertOne(s: seq<Timer>, t: Timer)
    ensures multiset(Insert(s, t)) == multiset(s) + multiset{t}
  {
    assert s == s[..Place(s, t)] + s[Place(s, t)..];
  }

  /** Insertion keeps the order and adds just that timer. */
  lemma InsertOrdered(s: seq<Timer>, t: Timer)
    requires Ordered(s)
    ensures Ordered(Insert(s, t)) && multiset(Insert(s, t)) == multiset(s) + multiset{t}
  {
    InsertOne(s, t);
    var r, k := Insert(s, t), Place(s, t);
    forall i, j | 0 <= i < j < |r| ensures Le(r[i], r[j]) {
      InsertAt(s, t, i);
      InsertAt(s, t, j);
      hide Insert;
      hide Place;
      if k < j - 1 {
        assert Le(s[k], s[j - 1]);
      }
    }
  }

  /** A timer is found by walking on until one that is not earlier. */
  lemma PlaceUnique(s: seq<Timer>, t: Timer, k: nat)
    requires k <= |s| && (forall j :: 0 <= j < k ==> !Le(t, s[j])) && (k < |s| ==> Le(t, s[k]))
    ensures k == Place(s, t)
  {
  }

  lemma WithoutOrdered(s: seq<Timer>, k: nat)
    requires Ordered(s) && k < |s|
    ensures Ordered(Without(s, k)) && multiset(Without(s, k)) + multiset{s[k]} == multiset(s)
  {
    var r := Without(s, k);
    assert s == s[..k] + [s[k]] + s[k + 1..];
    forall j | 0 <= j < |r| ensures r[j] == s[if j < k then j else j + 1] {
    }
  }
}
