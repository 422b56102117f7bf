/** The hole-moving quicksort: in place, for any comparison that is a total preorder. */
module QuickSort {
  /** Comparisons that order all elements, with ties. */
  ghost predicate TotalPreorder<T(!new)>(cmp: (T, T) -> int) {
    && (forall a, b :: cmp(a, b) >= 0 <==> cmp(b, a) <= 0)
    && (forall a, b, c :: cmp(a, b) <= 0 && cmp(b, c) <= 0 ==> cmp(a, c) <= 0)
  }

  predicate Le<T>(cmp: (T, T) -> int, a: T, b: T) { cmp(a, b) <= 0 }

  /** Elements lo..hi of a sequence are in order. */
  ghost predicate Sorted<T>(cmp: (T, T) -> int, s: seq<T>, lo: int, hi: int)
    requires 0 <= lo && hi < |s|
  {
    forall i, j :: lo <= i < j <= hi ==> Le(cmp, s[i], s[j])
  }

  ghost predicate AllBelow<T>(cmp: (T, T) -> int, s: seq<T>, lo: int, hi: int, x: T)
    requires 0 <= lo && hi < |s|
  {
    forall i :: lo <= i <= hi ==> Le(cmp, s[i], x)
  }

  ghost predicate AllAbove<T>(cmp: (T, T) -> int, s: seq<T>, lo: int, hi: int, x: T)
    requires 0 <= lo && hi < |s|
  {
    forall i :: lo <= i <= hi ==> Le(cmp, x, s[i])
  }

  ghost predicate Permutes<T>(s: seq<T>, t: seq<T>) { |s| == |t| && multiset(s) == multiset(t) }

  /** Nothing outside lo..hi differs. */
  ghost predicate SameOutside<T>(s: seq<T>, t: seq<T>, lo: int, hi: int)
    requires 0 <= lo <= hi + 1
  {
    hi < |s| == |t| && s[..lo] == t[..lo] && s[hi + 1..] == t[hi + 1..]
  }

  /** The range was rearranged and nothing else touched. */
  ghost predicate Rearranged<T>(s: seq<T>, t: seq<T>, lo: int, hi: int)
    requires 0 <= lo <= hi + 1
  {
    Permutes(s, t) && SameOutside(s, t, lo, hi)
  }

  lemma Exchanged<T>(s: seq<T>, i: nat, j: nat, lo: int, hi: int)
    requires 0 <= lo <= i <= hi < |s| && lo <= j <= hi
    ensures Rearranged(s[i := s[j]][j := s[i]], s, lo, hi)
  {
  }

  lemma Chained<T>(a: seq<T>, b: seq<T>, c: seq<T>, lo: int, hi: int, lo': int, hi': int)
    requires 0 <= lo <= lo' <= hi' + 1 <= hi + 1
    requires Rearranged(a, b, lo', hi') && Rearranged(b, c, lo, hi)
    ensures Rearranged(a, c, lo, hi)
  {
    assert a[..lo] == a[..lo'][..lo] && b[..lo] == b[..lo'][..lo];
    assert a[hi + 1..] == a[hi' + 1..][hi - hi'..] && b[hi + 1..] == b[hi' + 1..][hi - hi'..];
  }

  /** A rearranged range has the elements it had. */
  lemma SameElements<T>(s: seq<T>, t: seq<T>, lo: nat, hi: int)
    requires lo <= hi + 1 && Rearranged(s, t, lo, hi)
    ensures multiset(s[lo..hi + 1]) == multiset(t[lo..hi + 1])
  {
    assert s == s[..lo] + s[lo..hi + 1] + s[hi + 1..];
    assert t == t[..lo] + t[lo..hi + 1] + t[hi + 1..];
    assert multiset(s) == multiset(s[..lo]) + multiset(s[lo..hi + 1]) + multiset(s[hi + 1..]);
    assert multiset(t) == multiset(t[..lo]) + multiset(t[lo..hi + 1]) + multiset(t[hi + 1..]);
    Cancel(multiset(s[..lo]), multiset(s[lo..hi + 1]), multiset(t[lo..hi + 1]), multiset(s[hi + 1..]));
  }

  lemma Cancel<T>(a: multiset<T>, m: multiset<T>, n: multiset<T>, b: multiset<T>)
    requires a + m + b == a + n + b
    ensures m == n
  {
    assert m == a + m + b - a - b && n == a + n + b - a - b;
  }

  lemma ElementFrom<T>(s: seq<T>, t: seq<T>, lo: nat, hi: int, i: int) returns (k: int)
    requires lo <= i <= hi && Rearranged(s, t, lo, hi)
    ensures lo <= k <= hi && s[i] == t[k]
  {
    SameElements(s, t, lo, hi);
    assert s[lo..hi + 1][i - lo] in multiset(s[lo..hi + 1]);
    assert s[i] in multiset(t[lo..hi + 1]);
    var j :| 0 <= j < hi + 1 - lo && t[lo..hi + 1][j] == s[i];
    k := lo + j;
  }

  /** Bounds on a range survive its rearrangement. */
  lemma BelowKept<T>(cmp: (T, T) -> int, s: seq<T>, t: seq<T>, lo: nat, hi: int, x: T)
    requires lo <= hi + 1 && Rearranged(s, t, lo, hi) && AllBelow(cmp, t, lo, hi, x)
    ensures AllBelow(cmp, s, lo, hi, x)
  {
    forall i | lo <= i <= hi ensures Le(cmp, s[i], x) {
      var k := ElementFrom(s, t, lo, hi, i);
    }
  }

  lemma AboveKept<T>(cmp: (T, T) -> int, s: seq<T>, t: seq<T>, lo: nat, hi: int, x: T)
    requires lo <= hi + 1 && Rearranged(s, t, lo, hi) && AllAbove(cmp, t, lo, hi, x)
    ensures AllAbove(cmp, s, lo, hi, x)
  {
    forall i | lo <= i <= hi ensures Le(cmp, x, s[i]) {
      var k := ElementFrom(s, t, lo, hi, i);
    }
  }

  /** Two sorted parts around a pivot make a sorted range. */
  lemma JoinSorted<T(!new)>(cmp: (T, T) -> int, s: seq<T>, lo: nat, p: nat, hi: nat)
    requires lo <= p <= hi < |s| && TotalPreorder(cmp)
    requires Sorted(cmp, s, lo, p - 1) && Sorted(cmp, s, p + 1, hi)
    requires AllBelow(cmp, s, lo, p - 1, s[p]) && AllAbove(cmp, s, p + 1, hi, s[p])
    ensures Sorted(cmp, s, lo, hi)
  {
    forall i, j | lo <= i < j <= hi ensures Le(cmp, s[i], s[j]) {
      if i < p && p < j {
        assert cmp(s[i], s[p]) <= 0 && cmp(s[p], s[j]) <= 0;
      }
    }
  }

  // ------------------------------------------------------------------ partitioning

  /** The first element from the right that is smaller than x, or left. */
  method ScanDown<T(!new)>(a: array<T>, left: nat, right: nat, x: T, cmp: (T, T) -> int) returns (r: nat)
    requires left <= right < a.Length && TotalPreorder(cmp)
    ensures left <= r <= right && AllAbove(cmp, a[..], r + 1, right, x)
    ensures r > left ==> Le(cmp, a[r], x)
  {
    r := right;
    while cmp(a[r], x) >= 0 && left < r
      invariant left <= r <= right && AllAbove(cmp, a[..], r + 1, right, x)
      decreases r
    {
      r := r - 1;
    }
    assert cmp(a[r], x) < 0 ==> cmp(a[r], x) <= 0;
  }

  /** The first element from the left that is larger than x, or right. */
  method ScanUp<T(!new)>(a: array<T>, left: nat, right: nat, x: T, cmp: (T, T) -> int) returns (l: nat)
    requires left <= right < a.Length && TotalPreorder(cmp)
    ensures left <= l <= right && AllBelow(cmp, a[..], left, l - 1, x)
    ensures l < right ==> Le(cmp, x, a[l])
  {
    l := left;
    while cmp(a[l], x) <= 0 && l < right
      invariant left <= l <= right && AllBelow(cmp, a[..], left, l - 1, x)
      decreases right - l
    {
      l := l + 1;
    }
    assert l < right ==> cmp(x, a[l]) <= 0 by { assert cmp(a[l], x) >= 0 <==> cmp(x, a[l]) <= 0; }
  }

  /** The array with x put into the hole. */
  ghost function Plugged<T>(a: seq<T>, hole: nat, x: T): seq<T>
    requires hole < |a|
  {
    a[hole := x]
  }

  /** Between the scans: what lies left of `left` is below x, what lies right of `right` above it. */
  ghost predicate Split<T>(cmp: (T, T) -> int, s: seq<T>, lo: nat, left: nat, right: nat, hi: nat, x: T)
    requires lo <= left <= right <= hi < |s|
  {
    AllBelow(cmp, s, lo, left - 1, x) && AllAbove(cmp, s, right + 1, hi, x)
  }

  /** An element moves from one end of the gap into the hole at the other. */
  lemma HoleMoved<T>(cmp: (T, T) -> int, before: seq<T>, after: seq<T>, from: nat, hole: nat, lo: nat, hi: nat, x: T)
    requires lo <= from <= hi < |before| && lo <= hole <= hi && from != hole && after == before[hole := before[from]]
    ensures Rearranged(Plugged(after, from, x), Plugged(before, hole, x), lo, hi)
  {
    var s := Plugged(before, hole, x);
    Exchanged(s, hole, from, lo, hi);
    assert s[hole := s[from]][from := s[hole]] == Plugged(after, from, x);
  }

  method Partition<T(!new)>(a: array<T>, lo: nat, hi: nat, cmp: (T, T) -> int) returns (p: nat)
    requires lo <= hi < a.Length && TotalPreorder(cmp)
    modifies a
    ensures lo <= p <= hi && Rearranged(a[..], old(a[..]), lo, hi)
    ensures AllBelow(cmp, a[..], lo, p - 1, a[p]) && AllAbove(cmp, a[..], p + 1, hi, a[p])
  {
    var left, right, x := lo, hi, a[lo];
    assert Plugged(a[..], left, x) == a[..];
    while left < right
      invariant lo <= left <= right <= hi
      invariant Rearranged(Plugged(a[..], left, x), old(a[..]), lo, hi)
      invariant Split(cmp, a[..], lo, left, right, hi, x)
    {
      left, right := Round(a, lo, left, right, hi, x, cmp, old(a[..]));
    }
    a[left] := x;
    p := left;
  }

  /** Both scans, each followed by a move into the hole. */
  method Round<T(!new)>(a: array<T>, lo: nat, left: nat, right: nat, hi: nat, x: T, cmp: (T, T) -> int,
                 ghost start: seq<T>)
    returns (l: nat, r: nat)
    requires lo <= left < right <= hi < a.Length == |start| && TotalPreorder(cmp)
    requires Rearranged(Plugged(a[..], left, x), start, lo, hi) && Split(cmp, a[..], lo, left, right, hi, x)
    modifies a
    ensures left <= l <= r <= right && r - l < right - left
    ensures Rearranged(Plugged(a[..], l, x), start, lo, hi) && Split(cmp, a[..], lo, l, r, hi, x)
  {
    hide Rearranged;
    hide Plugged;
    hide TotalPreorder;
    l := left;
    r := ScanDown(a, left, right, x, cmp);
    if l != r {
      ghost var before := a[..];
      a[l] := a[r];
      HoleMoved(cmp, before, a[..], r, l, lo, hi, x);
      Chained(Plugged(a[..], r, x), Plugged(before, l, x), start, lo, hi, lo, hi);
      l := l + 1;
    }
    assert Split(cmp, a[..], lo, l, r, hi, x);
    l := ScanUp(a, l, r, x, cmp);
    if l != r {
      ghost var before := a[..];
      a[r] := a[l];
      HoleMoved(cmp, before, a[..], l, r, lo, hi, x);
      Chained(Plugged(a[..], l, x), Plugged(before, r, x), start, lo, hi, lo, hi);
      r := r - 1;
    }
  }

  // ------------------------------------------------------------------ sorting

  /** quick_sort_impl */
  method SortRange<T(!new)>(a: array<T>, left: nat, right: nat, cmp: (T, T) -> int)
    requires left <= right < a.Length && TotalPreorder(cmp)
    modifies a
    ensures Sorted(cmp, a[..], left, right) && Rearranged(a[..], old(a[..]), left, right)
    decreases right - left
  {
    hide Rearranged;
    hide AllBelow;
    hide AllAbove;
    hide Sorted;
    var p := Partition(a, left, right, cmp);
    ghost var parted := a[..];
    if left < p {
      SortRange(a, left, p - 1, cmp);
    }
    ghost var half := a[..];
    if right > p {
      SortRange(a, p + 1, right, cmp);
    }
    Assemble(cmp, old(a[..]), parted, half, a[..], left, p, right);
  }

  lemma Assemble<T(!new)>(cmp: (T, T) -> int, start: seq<T>, parted: seq<T>, half: seq<T>, done: seq<T>, lo: nat,
                   p: nat, hi: nat)
    requires lo <= p <= hi < |start| && TotalPreorder(cmp) && Rearranged(parted, start, lo, hi)
    requires AllBelow(cmp, parted, lo, p - 1, parted[p]) && AllAbove(cmp, parted, p + 1, hi, parted[p])
    requires if lo < p then Rearranged(half, parted, lo, p - 1) && Sorted(cmp, half, lo, p - 1) else half == parted
    requires if p < hi then Rearranged(done, half, p + 1, hi) && Sorted(cmp, done, p + 1, hi) else done == half
    ensures Rearranged(done, start, lo, hi) && Sorted(cmp, done, lo, hi)
  {
    var x := parted[p];
    assert Rearranged(half, parted, lo, p - 1) && Rearranged(done, half, p + 1, hi);
    Chained(half, parted, start, lo, hi, lo, p - 1);
    Chained(done, half, start, lo, hi, p + 1, hi);
    BelowKept(cmp, half, parted, lo, p - 1, x);
    RightPart(half, parted, lo, p, hi);
    assert AllAbove(cmp, half, p + 1, hi, x);
    AboveKept(cmp, done, half, p + 1, hi, x);
    LeftPart(done, half, p);
    assert AllBelow(cmp, done, lo, p - 1, x) && Sorted(cmp, done, lo, p - 1);
    JoinSorted(cmp, done, lo, p, hi);
  }

  lemma RightPart<T>(half: seq<T>, parted: seq<T>, lo: nat, p: nat, hi: nat)
    requires lo <= p <= hi < |half| && Rearranged(half, parted, lo, p - 1)
    ensures forall i :: p <= i <= hi ==> half[i] == parted[i]
  {
    forall i | p <= i <= hi ensures half[i] == parted[i] {
      assert half[p..][i - p] == parted[p..][i - p];
    }
  }

  lemma LeftPart<T>(done: seq<T>, half: seq<T>, p: nat)
    requires p < |half| && |done| == |half| && done[..p + 1] == half[..p + 1]
    ensures forall i :: 0 <= i <= p ==> done[i] == half[i]
  {
    forall i | 0 <= i <= p ensures done[i] == half[i] {
      assert done[..p + 1][i] == half[..p + 1][i];
    }
  }

  /** quick_sort over the first nr elements */
  method Sort<T(!new)>(a: array<T>, nr: nat, cmp: (T, T) -> int)
    requires nr <= a.Length && TotalPreorder(cmp)
    modifies a
    ensures Sorted(cmp, a[..], 0, nr - 1) && Rearranged(a[..], old(a[..]), 0, nr - 1)
  {
    if nr > 1 {
      SortRange(a, 0, nr - 1, cmp);
    }
  }
}
