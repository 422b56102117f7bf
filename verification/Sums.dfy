/** Sums over a sequence of per-thread weights, used by the concurrent models. */
module Sums {

  function Sum<T>(s: seq<T>, f: T -> nat): nat {
    if s == [] then 0 else f(s[0]) + Sum(s[1..], f)
  }

  lemma {:induction false} SumUpdate<T>(s: seq<T>, i: nat, x: T, f: T -> nat)
    requires i < |s|
    ensures Sum(s[i := x], f) == Sum(s, f) - f(s[i]) + f(x)
  {
    if i == 0 {
      assert s[i := x][1..] == s[1..];
    } else {
      assert s[i := x][1..] == s[1..][i - 1 := x];
      SumUpdate(s[1..], i - 1, x, f);
    }
  }

  lemma {:induction false} SumAtLeast<T>(s: seq<T>, i: nat, f: T -> nat)
    requires i < |s|
    ensures f(s[i]) <= Sum(s, f)
  {
    if i > 0 {
      SumAtLeast(s[1..], i - 1, f);
    }
  }

  /** Two pointwise comparable sequences have comparable sums, up to `slack` for each place. */
  lemma {:induction false} SumPointwise<T>(s: seq<T>, t: seq<T>, f: T -> nat, slack: nat)
    requires |s| == |t|
    requires forall i :: 0 <= i < |s| ==> f(s[i]) <= f(t[i]) + slack
    ensures Sum(s, f) <= Sum(t, f) + Sum(t, _ => slack)
  {
    if s != [] {
      forall i | 0 <= i < |s[1..]| ensures f(s[1..][i]) <= f(t[1..][i]) + slack {
        assert s[1..][i] == s[i + 1] && t[1..][i] == t[i + 1];
      }
      SumPointwise(s[1..], t[1..], f, slack);
    }
  }

  lemma {:induction false} SumEqual<T>(s: seq<T>, t: seq<T>, f: T -> nat)
    requires |s| == |t|
    requires forall i :: 0 <= i < |s| ==> f(s[i]) == f(t[i])
    ensures Sum(s, f) == Sum(t, f)
  {
    if s != [] {
      forall i | 0 <= i < |s[1..]| ensures f(s[1..][i]) == f(t[1..][i]) {
        assert s[1..][i] == s[i + 1] && t[1..][i] == t[i + 1];
      }
      SumEqual(s[1..], t[1..], f);
    }
  }

  lemma {:induction false} SumZero<T>(s: seq<T>, f: T -> nat)
    requires forall i :: 0 <= i < |s| ==> f(s[i]) == 0
    ensures Sum(s, f) == 0
  {
    if s != [] {
      forall i | 0 <= i < |s[1..]| ensures f(s[1..][i]) == 0 {
        assert s[1..][i] == s[i + 1];
      }
      SumZero(s[1..], f);
    }
  }

  lemma {:induction false} SumConst<T>(s: seq<T>, c: nat)
    ensures Sum(s, _ => c) == c * |s|
  {
    if s != [] {
      SumConst(s[1..], c);
      assert c * |s| == c + c * |s[1..]|;
    }
  }
}
