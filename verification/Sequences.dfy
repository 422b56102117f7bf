/** Pieces of sequences, and copying a sequence into an array. */
module Sequences {
  /** What is done and what is still to come. */
  function Cat<T>(done: seq<T>, rest: seq<T>): (r: seq<T>)
    ensures |r| == |done| + |rest|
  {
    done + rest
  }

  function Plus<T>(s: seq<T>, x: T): (r: seq<T>)
    ensures |r| == |s| + 1
  {
    s + [x]
  }

  lemma Assoc<T>(a: seq<T>, b: seq<T>, c: seq<T>)
    ensures a + (b + c) == a + b + c
  {
  }

  /** A sequence without its element at k. */
  function Without<T>(s: seq<T>, k: nat): (r: seq<T>)
    requires k < |s|
    ensures |r| == |s| - 1
  {
    s[..k] + s[k + 1..]
  }

  /** memcpy from a sequence */
  method Store<T>(out: array<T>, at: nat, s: seq<T>)
    requires at + |s| <= out.Length
    modifies out
    ensures forall j :: 0 <= j < out.Length ==> out[j] == if at <= j < at + |s| then s[j - at] else old(out[j])
    ensures out[at..at + |s|] == s
  {
    var i := 0;
    while i < |s|
      invariant 0 <= i <= |s|
      invariant forall j :: 0 <= j < out.Length ==> out[j] == if at <= j < at + i then s[j - at] else old(out[j])
    {
      out[at + i] := s[i];
      i := i + 1;
    }
  }
}
