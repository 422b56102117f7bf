/**
 * Printing into one growing buffer: room is ensured before each write, and the end of what a child wrote is found by
 * strlen.
 */
module JsonBuffer {
  import opened JsonText
  import opened Bits

  // ------------------------------------------------------------------ printed text holds no NUL

  lemma DigitsNulFree(n: nat)
    ensures NulFree(Digits(n))
  {
  }

  lemma {:induction false} TailNulFree(s: string)
    requires NulFree(s)
    ensures NulFree(Tail(s))
  {
    if s != "" {
      TailNulFree(s[1..]);
      assert NulFree(Escape(s[0]));
    }
  }

  lemma ConcatNulFree(a: string, b: string)
    requires NulFree(a) && NulFree(b)
    ensures NulFree(a + b)
  {
  }

  lemma {:induction false} TextNulFree(v: Value, depth: nat, fmt: bool)
    requires Printable(v)
    ensures NulFree(Text(v, depth, fmt))
    decreases v, 1
  {
    hide ItemsText;
    hide MembersText;
    match v
    case Number(n) => DigitsNulFree(if n.Floor < 0 then -n.Floor else n.Floor);
    case String(s) => TailNulFree(s);
    case Array(items) => if items != [] { ItemsNulFree(items, depth + 1, fmt); }
    case Object(members) => if members != [] { MembersNulFree(members, depth + 1, fmt); }
    case _ =>
  }

  lemma {:induction false} ItemsNulFree(items: seq<Value>, depth: nat, fmt: bool)
    requires items != [] && forall x :: x in items ==> Printable(x)
    ensures NulFree(ItemsText(items, depth, fmt))
    decreases items, 0
  {
    TextNulFree(items[0], depth, fmt);
    if |items| > 1 {
      ItemsNulFree(items[1..], depth, fmt);
      ConcatNulFree(Comma(fmt), ItemsText(items[1..], depth, fmt));
    }
  }

  lemma {:induction false} MembersNulFree(members: seq<Member>, depth: nat, fmt: bool)
    requires members != [] && forall m :: m in members ==> NulFree(m.name) && Printable(m.value)
    ensures NulFree(MembersText(members, depth, fmt))
    decreases members, 3
  {
    hide Text;
    hide Quoted;
    var m := members[0];
    TextNulFree(m.value, depth, fmt);
    QuotedNulFree(m.name);
    ConcatNulFree(Colon(fmt), Text(m.value, depth, fmt));
    ConcatNulFree(Quoted(m.name), Colon(fmt) + Text(m.value, depth, fmt));
    ConcatNulFree(Tabs(if fmt then depth else 0), Quoted(m.name) + (Colon(fmt) + Text(m.value, depth, fmt)));
    hide MemberText;
    if |members| > 1 {
      MembersNulFree(members[1..], depth, fmt);
      ConcatNulFree(Separator(true, fmt), MembersText(members[1..], depth, fmt));
    }
  }

  lemma QuotedNulFree(s: string)
    requires NulFree(s)
    ensures NulFree(Quoted(s))
  {
    TailNulFree(s);
  }

  // ------------------------------------------------------------------ the buffer

  /** Largest size pow2gt can round up in 32 bits. */
  const LIMIT := 0x4000_0000

  lemma LimitIsPower()
    ensures Pow2(30) == LIMIT
  {
    assert Pow2(10) == 1024;
    assert Pow2(20) == 1024 * 1024 by {
      assert Pow2(15) == 32 * Pow2(10);
      assert Pow2(20) == 32 * Pow2(15);
    }
    assert Pow2(25) == 32 * Pow2(20);
  }

  class PrintBuffer {
    var buffer: string  // the allocated block, |buffer| == length
    var offset: nat

    constructor (block: string)
      ensures buffer == block && offset == 0
    {
      buffer, offset := block, 0;
    }

    /** Everything before the offset. */
    ghost function Done(): (r: string)
      requires offset <= |buffer|
      ensures |r| == offset
      reads this
    {
      buffer[..offset]
    }

    /** The text of a value was put at `at` (NUL included) without moving the offset past it. */
    ghost predicate Printed(before: string, text: string)
      reads this
    {
      && |before| <= offset <= |before| + |text| < |buffer|
      && buffer[..|before| + |text| + 1] == before + text + "\0"
    }

    /** The last piece of a text completes it. */
    lemma Completed(done: string, last: string, before: string, text: string)
      requires Printed(done, last) && done + last == before + text && |before| <= |done|
      ensures Printed(before, text)
    {
      assert |done + last| == |before + text|;
    }

    /** The block is replaced by one of the next power of two when `needed` bytes do not fit. */
    method Ensure(needed: nat)
      requires offset <= |buffer| && offset + needed <= LIMIT
      modifies `buffer
      ensures offset + needed <= |buffer| && old(buffer) <= buffer
    {
      var size := needed + offset;
      if size > |buffer| {
        LimitIsPower();
        var newsize, k := Pow2Gt(size);
        var fresh': string :| |fresh'| == newsize - |buffer| by { Some(newsize - |buffer|); }
        buffer := buffer + fresh';
      }
    }

    /** Writes s at the offset; the room was ensured. */
    method Write(s: string)
      requires offset + |s| <= |buffer|
      modifies `buffer
      ensures |buffer| == old(|buffer|) && buffer[..offset] == old(buffer[..offset])
      ensures buffer[offset..offset + |s|] == s
    {
      buffer := buffer[..offset] + s + buffer[offset + |s|..];
    }

    /** Ensures room for `needed` bytes, writes s and moves past it. */
    method Emit(s: string, needed: nat)
      requires offset <= |buffer| && |s| <= needed && offset + needed <= LIMIT
      modifies this
      ensures offset == old(offset) + |s| <= |buffer| && Done() == old(Done()) + s
    {
      Ensure(needed);
      Write(s);
      offset := offset + |s|;
      assert buffer[..offset] == buffer[..old(offset)] + buffer[old(offset)..offset];
    }

    /** Ensures room, writes s and its NUL, and leaves the offset where it is. */
    method Put(s: string, needed: nat)
      requires offset <= |buffer| && |s| + 1 <= needed && offset + needed <= LIMIT
      modifies `buffer
      ensures Printed(old(Done()), s)
    {
      Ensure(needed);
      Write(s + "\0");
      var end := offset + |s| + 1;
      assert buffer[..end] == buffer[..offset] + buffer[offset..end];
    }

    /** offset + strlen(buffer + offset) */
    method Update(ghost before: string, ghost text: string)
      requires Printed(before, text) && NulFree(text)
      modifies `offset
      ensures offset == |before| + |text| <= |buffer| && Done() == before + text
    {
      ghost var all := before + text + "\0";
      while buffer[offset] != '\0'
        invariant |before| <= offset <= |before| + |text|
        decreases |before| + |text| - offset
      {
        assert buffer[|before| + |text|] == all[|before| + |text|] == '\0';
        offset := offset + 1;
      }
      assert buffer[offset] == all[offset];
      assert buffer[..offset] == buffer[..offset + 1][..offset];
    }
  }

  lemma Some(n: nat)
    ensures exists s: string :: |s| == n
  {
    assert |Tabs(n)| == n;
  }
}
