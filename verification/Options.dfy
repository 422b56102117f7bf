/** Values that may be missing, and lists of which a first part is known. */
module Options {
  datatype Option<T> = None | Some(value: T)

  /** What was found before in front of what is still found, if that comes to an end. */
  function Before<T>(done: seq<T>, rest: Option<seq<T>>): Option<seq<T>> {
    if rest.Some? then Some(done + rest.value) else None
  }

  lemma BeforeLaws<T>(a: seq<T>, b: seq<T>, rest: Option<seq<T>>)
    ensures Before([], rest) == rest
    ensures Before(a, Before(b, rest)) == Before(a + b, rest)
    ensures Before(a, Some([])) == Some(a)
  {
    assert a + [] == a;
    if rest.Some? {
      assert [] + rest.value == rest.value && a + (b + rest.value) == a + b + rest.value;
    }
  }

  lemma NothingBefore<T>(done: seq<T>)
    ensures Before(done, None) == None
  {
  }

  lemma BeforeSome<T>(done: seq<T>, rest: seq<T>)
    ensures Before(done, Some(rest)) == Some(done + rest)
  {
  }
}
