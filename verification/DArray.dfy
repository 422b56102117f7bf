/**
 * The dynamic array: growth, insertion, binary search, sorted insertion, and removal, over elements 0..size of a block.
 */
module DArray {
  import opened QuickSort

  /** Elements for which the comparison with ctx is not 0, in order. */
  function Unequal<T>(s: seq<T>, cmp: (T, T) -> int, ctx: T): seq<T> {
    if s == [] then []
    else Unequal(s[..|s| - 1], cmp, ctx) + if cmp(s[|s| - 1], ctx) == 0 then [] else [s[|s| - 1]]
  }

  function Equal<T>(s: seq<T>, cmp: (T, T) -> int, ctx: T): seq<T> {
    if s == [] then []
    else Equal(s[..|s| - 1], cmp, ctx) + if cmp(s[|s| - 1], ctx) == 0 then [s[|s| - 1]] else []
  }

  /** What remains and what is destroyed are together what there was. */
  lemma {:induction false} NothingLost<T>(s: seq<T>, cmp: (T, T) -> int, ctx: T)
    ensures multiset(Unequal(s, cmp, ctx)) + multiset(Equal(s, cmp, ctx)) == multiset(s)
  {
    hide *;
    if s == [] {
      NothingThere<T>(cmp, ctx);
    } else {
      var front, last := s[..|s| - 1], s[|s| - 1];
      SortedOut(s, cmp, ctx);
      NothingLost(front, cmp, ctx);
      assert s == front + [last];
      AddOne(Unequal(front, cmp, ctx), Equal(front, cmp, ctx), front, last, cmp(last, ctx) == 0);
    }
  }

  lemma NothingThere<T>(cmp: (T, T) -> int, ctx: T)
    ensures Unequal([], cmp, ctx) == Equal([], cmp, ctx) == []
  {
  }

  lemma SortedOut<T>(s: seq<T>, cmp: (T, T) -> int, ctx: T)
    requires s != []
    ensures var front, last := s[..|s| - 1], s[|s| - 1]; var hit := cmp(last, ctx) == 0;
      && Unequal(s, cmp, ctx) == Unequal(front, cmp, ctx) + (if hit then [] else [last])
      && Equal(s, cmp, ctx) == Equal(front, cmp, ctx) + (if hit then [last] else [])
  {
  }

  lemma AddOne<T>(a: seq<T>, b: seq<T>, all: seq<T>, x: T, hit: bool)
    requires multiset(a) + multiset(b) == multiset(all)
    ensures multiset(a + if hit then [] else [x]) + multiset(b + if hit then [x] else []) == multiset(all + [x])
  {
    assert a + [] == a && b + [] == b;
  }

  /** And each element is where its comparison puts it. */
  lemma {:induction false} Sorting<T>(s: seq<T>, cmp: (T, T) -> int, ctx: T)
    ensures forall x :: x in Unequal(s, cmp, ctx) ==> cmp(x, ctx) != 0
    ensures forall x :: x in Equal(s, cmp, ctx) ==> cmp(x, ctx) == 0
  {
    if s != [] {
      Sorting(s[..|s| - 1], cmp, ctx);
    }
  }

  /** Everything before k compares below ctx, everything from k on above it. */
  ghost predicate Parts<T>(s: seq<T>, cmp: (T, T) -> int, ctx: T, k: int) {
    && 0 <= k <= |s|
    && (forall i :: 0 <= i < k ==> cmp(s[i], ctx) < 0)
    && (forall i :: k <= i < |s| ==> cmp(s[i], ctx) > 0)
  }

  lemma PartsBounds<T>(s: seq<T>, cmp: (T, T) -> int, ctx: T, k: int)
    ensures Parts(s, cmp, ctx, k) ==> 0 <= k <= |s|
  {
  }

  /** Insertion of x before index k. */
  function Inserted<T>(s: seq<T>, k: nat, x: T): seq<T>
    requires k <= |s|
  {
    s[..k] + [x] + s[k..]
  }

  /** The place that a search for x names: nothing before it is larger, nothing from it on smaller. */
  lemma Around<T(!new)>(cmp: (T, T) -> int, s: seq<T>, k: nat, x: T)
    requires TotalPreorder(cmp) && Sorted(cmp, s, 0, |s| - 1) && k <= |s|
    requires Parts(s, cmp, x, k) || (k < |s| && cmp(s[k], x) == 0)
    ensures AllBelow(cmp, s, 0, k - 1, x) && AllAbove(cmp, s, k, |s| - 1, x)
  {
    forall i | 0 <= i < |s| ensures if i < k then Le(cmp, s[i], x) else Le(cmp, x, s[i]) {
      assert cmp(s[i], x) >= 0 <==> cmp(x, s[i]) <= 0;
      if !Parts(s, cmp, x, k) {
        assert i < k ==> Le(cmp, s[i], s[k]);
        assert k < i ==> Le(cmp, s[k], s[i]);
        assert cmp(s[k], x) >= 0 <==> cmp(x, s[k]) <= 0;
      }
    }
  }

  /** The array has x and what it had before, but for an equal element that x replaced. */
  ghost predicate Added<T>(cmp: (T, T) -> int, s: seq<T>, t: seq<T>, gone: seq<T>, x: T, replace: bool) {
    if replace && exists y :: y in s && cmp(y, x) == 0 then
      && |gone| == 1 && gone[0] in s && cmp(gone[0], x) == 0
      && multiset(t) + multiset(gone) == multiset(s) + multiset{x}
    else gone == [] && multiset(t) == multiset(s) + multiset{x}
  }

  /** Insertion at the place a search names keeps the order and adds just that element. */
  lemma InsertSorted<T(!new)>(cmp: (T, T) -> int, s: seq<T>, k: nat, x: T, replace: bool)
    requires TotalPreorder(cmp) && Sorted(cmp, s, 0, |s| - 1) && k <= |s|
    requires Parts(s, cmp, x, k) || (!replace && k < |s| && cmp(s[k], x) == 0)
    ensures Sorted(cmp, Inserted(s, k, x), 0, |s|)
    ensures Added(cmp, s, Inserted(s, k, x), [], x, replace)
  {
    Around(cmp, s, k, x);
    InsertOne(s, k, x);
    if Parts(s, cmp, x, k) {
      NoneEqual(cmp, s, x, k);
    }
    hide Parts;
    hide TotalPreorder;
    var r := Inserted(s, k, x);
    forall i, j | 0 <= i < j <= |s| ensures Le(cmp, r[i], r[j]) {
      At(s, k, x, i);
      At(s, k, x, j);
      hide Inserted;
      if k < j {
        assert k != i ==> Le(cmp, s[if i < k then i else i - 1], s[j - 1]);
      } else {
        assert j < k ==> Le(cmp, s[i], s[j]);
      }
    }
  }

  lemma Lengths<T>(s: seq<T>, k: nat, x: T)
    requires k <= |s|
    ensures |Inserted(s, k, x)| == |s| + 1
  {
  }

  lemma InsertOne<T>(s: seq<T>, k: nat, x: T)
    requires k <= |s|
    ensures multiset(Inserted(s, k, x)) == multiset(s) + multiset{x}
  {
    assert s == s[..k] + s[k..];
  }

  lemma At<T>(s: seq<T>, k: nat, x: T, i: nat)
    requires k <= |s| && i <= |s|
    ensures Inserted(s, k, x)[i] == if i < k then s[i] else if i == k then x else s[i - 1]
  {
  }

  /** No element is equal where a search ends without one. */
  lemma NoneEqual<T>(cmp: (T, T) -> int, s: seq<T>, x: T, k: int)
    requires Parts(s, cmp, x, k)
    ensures forall y :: y in s ==> cmp(y, x) != 0
  {
  }

  /** Putting an equal element in the place of another keeps the order. */
  lemma ReplaceSorted<T(!new)>(cmp: (T, T) -> int, s: seq<T>, k: nat, x: T)
    requires TotalPreorder(cmp) && Sorted(cmp, s, 0, |s| - 1) && k < |s| && cmp(s[k], x) == 0
    ensures Sorted(cmp, s[k := x], 0, |s| - 1)
    ensures Added(cmp, s, s[k := x], [s[k]], x, true)
  {
    assert s[k] in s;
    assert multiset(s[k := x]) == multiset(s) - multiset{s[k]} + multiset{x};
    var r := s[k := x];
    assert cmp(x, s[k]) <= 0 by { assert cmp(s[k], x) >= 0 <==> cmp(x, s[k]) <= 0; }
    forall i, j | 0 <= i < j <= |s| - 1 ensures Le(cmp, r[i], r[j]) {
      assert Le(cmp, s[i], s[j]);
    }
  }

  class DynArray<T(0, !new)> {
    var elms: array<T>
    var size: nat
    ghost var destroyed: seq<T>

    ghost predicate Valid()
      reads this
    {
      size <= elms.Length
    }

    ghost function Contents(): seq<T>
      reads this, elms
      requires Valid()
    {
      elms[..size]
    }

    constructor (capacity: nat)
      ensures Valid() && fresh(elms) && Contents() == [] && elms.Length == capacity && destroyed == []
    {
      elms := new T[capacity];
      size, destroyed := 0, [];
    }

    /** darray_extend: half as much again, and one. */
    method Extend()
      requires Valid()
      modifies `elms
      ensures Valid() && size < elms.Length && Contents() == old(Contents()) && (elms == old(elms) || fresh(elms))
      ensures if old(size < elms.Length) then elms == old(elms)
        else elms.Length == old(elms.Length / 2 + elms.Length + 1)
    {
      if size < elms.Length {
        return;
      }
      var capacity := elms.Length / 2 + elms.Length + 1;
      var block := new T[capacity];
      var i := 0;
      while i < elms.Length
        modifies block
        invariant 0 <= i <= elms.Length && block[..i] == elms[..i]
      {
        block[i] := elms[i];
        assert block[..i + 1] == block[..i] + [block[i]] && elms[..i + 1] == elms[..i] + [elms[i]];
        i := i + 1;
      }
      assert block[..size] == block[..i][..size] && elms[..size] == elms[..i][..size];
      elms := block;
    }

    /** darray_insert */
    method Insert(index: nat, data: T)
      requires Valid()
      modifies this, elms
      ensures Valid() && (elms == old(elms) || fresh(elms)) && destroyed == old(destroyed)
      ensures Contents() == Inserted(old(Contents()), if index < old(size) then index else old(size), data)
    {
      ghost var was := Contents();
      var p := if index < size then index else size;
      Extend();
      assert elms[..size] == was;
      ShiftUp(elms, p, size);
      elms[p] := data;
      size := size + 1;
      assert elms[..size] == elms[..p] + [elms[p]] + elms[p + 1..size];
      assert elms[..p] == was[..p];
    }

    /** darray_bsearch_index_impl: the index of an equal element, or -1 and where one would have to go. */
    method BinarySearch(cmp: (T, T) -> int, ctx: T) returns (index: int, low: int)
      requires Valid() && TotalPreorder(cmp) && Sorted(cmp, Contents(), 0, size - 1)
      ensures -1 <= index < size
      ensures index >= 0 ==> cmp(Contents()[index], ctx) == 0
      ensures index < 0 ==> Parts(Contents(), cmp, ctx, low)
    {
      ghost var s := Contents();
      low := 0;
      if size == 0 {
        return -1, 0;
      }
      var high := size - 1;
      while low <= high
        invariant 0 <= low <= high + 1 <= size
        invariant forall i :: 0 <= i < low ==> cmp(s[i], ctx) < 0
        invariant forall i :: high < i < size ==> cmp(s[i], ctx) > 0
        decreases high - low
      {
        var mid := low + (high - low) / 2;
        assert elms[mid] == s[mid];
        var result := cmp(elms[mid], ctx);
        if result == 0 {
          return mid, low;
        } else if result < 0 {
          LeftBelow(cmp, s, mid, ctx);
          low := mid + 1;
        } else {
          RightAbove(cmp, s, mid, ctx);
          high := mid - 1;
        }
      }
      index := -1;
    }

    /** darray_sorted_insert; an equal element is replaced, and destroyed, if the caller says so. */
    method SortedInsert(data: T, cmp: (T, T) -> int, replace: bool) returns (ghost gone: seq<T>)
      requires Valid() && TotalPreorder(cmp) && Sorted(cmp, Contents(), 0, size - 1)
      modifies this, elms
      ensures Valid() && (elms == old(elms) || fresh(elms)) && Sorted(cmp, Contents(), 0, size - 1)
      ensures destroyed == old(destroyed) + gone && Added(cmp, old(Contents()), Contents(), gone, data, replace)
    {
      ghost var s := Contents();
      hide Parts;
      hide Added;
      hide Sorted;
      hide Inserted;
      hide TotalPreorder;
      hide Permutes;
      var index, low := BinarySearch(cmp, data);
      gone := [];
      if index >= 0 && replace {
        ReplaceSorted(cmp, s, index, data);
        gone := [s[index]];
        Replace(index, data);
        assert Contents() == s[index := data] && size == |s|;
      } else {
        if index < 0 {
          index := low;
        }
        assert 0 <= index <= size by { PartsBounds(s, cmp, data, low); }
        InsertSorted(cmp, s, index, data, replace);
        Insert(index, data);
        assert Contents() == Inserted(s, index, data);
        Lengths(s, index, data);
        hide Contents;
      }
    }

    /** darray_replace */
    method Replace(index: nat, data: T)
      requires Valid() && index < size
      modifies `destroyed, elms
      ensures Contents() == old(Contents())[index := data] && destroyed == old(destroyed) + [old(Contents()[index])]
    {
      destroyed := destroyed + [elms[index]];
      elms[index] := data;
    }

    /** darray_remove_all: the elements that compare equal go, the others close up. */
    method RemoveAll(cmp: (T, T) -> int, ctx: T)
      requires Valid()
      modifies `size, `destroyed, elms
      ensures Valid() && Contents() == Unequal(old(Contents()), cmp, ctx)
      ensures destroyed == old(destroyed) + Equal(old(Contents()), cmp, ctx)
    {
      var k;
      ghost var gone;
      k, gone := Filter(elms, size, cmp, ctx);
      destroyed := destroyed + gone;
      size := k;
    }

    /** darray_remove_range */
    method RemoveRange(start: nat, end: nat) returns (ok: bool)
      requires Valid()
      modifies `size, `destroyed, elms
      ensures Valid() && ok == (start < end <= old(size))
      ensures ok ==> Contents() == old(Contents())[..start] + old(Contents())[end..]
      ensures destroyed == if ok then old(destroyed) + old(Contents())[start..end] else old(destroyed)
      ensures !ok ==> Contents() == old(Contents())
    {
      ok := start < end <= size;
      if ok {
        assert elms[start..end] == elms[..size][start..end] && elms[..start] == elms[..size][..start];
        assert elms[end..size] == elms[..size][end..];
        ghost var gone := CloseUp(elms, start, end, size);
        destroyed := destroyed + gone;
        size := size - (end - start);
      }
    }
  }

  /** The loop of a removal: what is in start..end is destroyed and what is behind it moves down. */
  method CloseUp<T(0)>(elms: array<T>, start: nat, end: nat, size: nat) returns (ghost gone: seq<T>)
    requires start < end <= size <= elms.Length
    modifies elms
    ensures elms[..size - (end - start)] == old(elms[..start]) + old(elms[end..size]) && gone == old(elms[start..end])
  {
    ghost var s, n := elms[..size], end - start;
    gone := [];
    var i, j := start, end;
    while i < size
      invariant start <= i <= size && j == i + n
      invariant forall k :: 0 <= k < start || i <= k < size ==> elms[k] == s[k]
      invariant forall k :: start <= k < i && k + n < size ==> elms[k] == s[k + n]
      invariant gone == s[start..if i < end then i else end]
    {
      if i < end {
        gone := gone + [elms[i]];
        assert s[start..i + 1] == s[start..i] + [s[i]];
      }
      if j < size {
        elms[i] := elms[j];
      }
      i, j := i + 1, j + 1;
    }
  }

  function UnequalOf<T>(s: seq<T>, n: nat, cmp: (T, T) -> int, ctx: T): (r: seq<T>)
    requires n <= |s|
  {
    Unequal(s[..n], cmp, ctx)
  }

  function EqualOf<T>(s: seq<T>, n: nat, cmp: (T, T) -> int, ctx: T): (r: seq<T>)
    requires n <= |s|
  {
    Equal(s[..n], cmp, ctx)
  }

  lemma FilterStep<T>(s: seq<T>, n: nat, cmp: (T, T) -> int, ctx: T)
    requires n < |s|
    ensures UnequalOf(s, n + 1, cmp, ctx) == UnequalOf(s, n, cmp, ctx) + if cmp(s[n], ctx) == 0 then [] else [s[n]]
    ensures EqualOf(s, n + 1, cmp, ctx) == EqualOf(s, n, cmp, ctx) + if cmp(s[n], ctx) == 0 then [s[n]] else []
  {
    assert s[..n + 1][..n] == s[..n];
  }

  /** The loop of a removal by comparison. */
  method Filter<T(0)>(elms: array<T>, size: nat, cmp: (T, T) -> int, ctx: T) returns (k: nat, ghost gone: seq<T>)
    requires size <= elms.Length
    modifies elms
    ensures k <= size && elms[..k] == Unequal(old(elms[..size]), cmp, ctx) && gone == Equal(old(elms[..size]), cmp, ctx)
  {
    ghost var s := elms[..size];
    hide Unequal;
    hide Equal;
    var i := 0;
    k, gone := 0, [];
    assert UnequalOf(s, 0, cmp, ctx) == [] && EqualOf(s, 0, cmp, ctx) == [] by { NothingYet(s, cmp, ctx); }
    while i < size
      invariant 0 <= k <= i <= size
      invariant forall j :: i <= j < size ==> elms[j] == s[j]
      invariant elms[..k] == UnequalOf(s, i, cmp, ctx) && gone == EqualOf(s, i, cmp, ctx)
    {
      FilterStep(s, i, cmp, ctx);
      hide UnequalOf;
      hide EqualOf;
      ghost var kept := elms[..k];
      var iter := elms[i];
      if cmp(iter, ctx) == 0 {
        gone := gone + [iter];
      } else {
        if k != i {
          elms[k] := elms[i];
        }
        k := k + 1;
        assert elms[..k] == kept + [iter];
      }
      i := i + 1;
    }
    assert s[..size] == s;
  }

  lemma NothingYet<T>(s: seq<T>, cmp: (T, T) -> int, ctx: T)
    ensures UnequalOf(s, 0, cmp, ctx) == [] && EqualOf(s, 0, cmp, ctx) == []
  {
  }

  /** The loop of an insertion: elements p..size move up by one. */
  method ShiftUp<T>(elms: array<T>, p: nat, size: nat)
    requires p <= size < elms.Length
    modifies elms
    ensures elms[..p] == old(elms[..p]) && elms[p + 1..size + 1] == old(elms[p..size])
  {
    var d := size;
    while d > p
      invariant p <= d <= size
      invariant elms[..d] == old(elms[..d]) && elms[d + 1..size + 1] == old(elms[d..size])
    {
      ghost var moved := elms[d + 1..size + 1];
      elms[d] := elms[d - 1];
      assert elms[d..size + 1] == [elms[d]] + moved;
      d := d - 1;
    }
  }

  lemma LeftBelow<T(!new)>(cmp: (T, T) -> int, s: seq<T>, mid: nat, ctx: T)
    requires TotalPreorder(cmp) && Sorted(cmp, s, 0, |s| - 1) && mid < |s| && cmp(s[mid], ctx) < 0
    ensures forall i :: 0 <= i <= mid ==> cmp(s[i], ctx) < 0
  {
    forall i | 0 <= i < mid ensures cmp(s[i], ctx) < 0 {
      assert Le(cmp, s[i], s[mid]);
      Strict(cmp, s[i], s[mid], ctx);
    }
  }

  lemma RightAbove<T(!new)>(cmp: (T, T) -> int, s: seq<T>, mid: nat, ctx: T)
    requires TotalPreorder(cmp) && Sorted(cmp, s, 0, |s| - 1) && mid < |s| && cmp(s[mid], ctx) > 0
    ensures forall i :: mid <= i < |s| ==> cmp(s[i], ctx) > 0
  {
    forall i | mid < i < |s| ensures cmp(s[i], ctx) > 0 {
      assert Le(cmp, s[mid], s[i]);
      Transitive(cmp, s[mid], s[i], ctx);
    }
  }

  lemma Transitive<T(!new)>(cmp: (T, T) -> int, a: T, b: T, c: T)
    requires TotalPreorder(cmp)
    ensures cmp(a, b) <= 0 && cmp(b, c) <= 0 ==> cmp(a, c) <= 0
  {
  }

  /** What is no larger than something smaller is smaller. */
  lemma Strict<T(!new)>(cmp: (T, T) -> int, a: T, b: T, c: T)
    requires TotalPreorder(cmp) && cmp(a, b) <= 0 && cmp(b, c) < 0
    ensures cmp(a, c) < 0
  {
    assert cmp(a, c) >= 0 <==> cmp(c, a) <= 0;
    assert cmp(b, c) >= 0 <==> cmp(c, b) <= 0;
    Transitive(cmp, c, a, b);
  }
}
