/**
 * The printer into the growing buffer, and what it shares with the joining printer: string literals and the cuts of a
 * text.
 */
module JsonPrinter {
  import opened JsonText
  import opened JsonBuffer
  import opened Sequences

  lemma Four(a: string, b: string, c: string, d: string, e: string)
    ensures a + b + c + d + e == a + (b + (c + (d + e)))
    ensures |b + (c + (d + e))| == |b| + |c| + |d| + |e|
  {
  }

  /** Two pieces of what is still to come move over to what is written. */
  lemma Moved(sofar: string, a: string, b: string, c: string)
    ensures sofar + a + b + c == sofar + (a + (b + c))
    ensures |sofar + (a + (b + c))| == |sofar| + |a| + |b| + |c|
  {
  }

  predicate AllItems(items: seq<Value>) { forall x :: x in items ==> Printable(x) }

  predicate AllMembers(members: seq<Member>) { forall m :: m in members ==> NulFree(m.name) && Printable(m.value) }

  lemma CatAssoc(a: string, b: string, c: string)
    ensures Cat(a + b, c) == Cat(a, Cat(b, c))
  {
  }

  // ------------------------------------------------------------------ string literals

  predicate AllPlain(s: string) { s == "" || (Plain(s[0]) && AllPlain(s[1..])) }

  lemma {:induction false} TailPlain(s: string)
    requires AllPlain(s)
    ensures Tail(s) == s + "\""
  {
    if s == "" {
    } else {
      TailPlain(s[1..]);
      TailStep(s);
      hide Tail;
      hide AllPlain;
      assert s + "\"" == [s[0]] + (s[1..] + "\"");
    }
  }

  lemma TailStep(s: string)
    requires s != ""
    ensures Plain(s[0]) ==> Tail(s) == [s[0]] + Tail(s[1..])
    ensures |Tail(s)| == |Escape(s[0])| + |Tail(s[1..])|
  {
  }

  /** print_string_ptr: the literal, and the room asked for it, which is exactly what it and its NUL take. */
  method Literal(s: string) returns (text: string, room: nat)
    ensures text == Quoted(s) && room == |text| + 1
  {
    var flag, i := false, 0;
    while i < |s|
      invariant 0 <= i <= |s| && (AllPlain(s) <==> !flag && AllPlain(s[i..]))
    {
      assert s[i..][1..] == s[i + 1..];
      flag := flag || !Plain(s[i]);
      i := i + 1;
    }
    if !flag {
      TailPlain(s);
      return "\"" + s + "\"", |s| + 3;
    }
    room := RoomFor(s);
    text := "\"";
    i := 0;
    while i < |s|
      invariant 0 <= i <= |s| && text + Tail(s[i..]) == Quoted(s)
    {
      assert s[i..][1..] == s[i + 1..];
      Assoc(text, Escape(s[i]), Tail(s[i + 1..]));
      text := text + Escape(s[i]);
      i := i + 1;
    }
    text := text + "\"";
  }

  /** The length pass of print_string_ptr. */
  method RoomFor(s: string) returns (room: nat)
    ensures room == |Quoted(s)| + 1
  {
    hide Tail;
    var len, i := 0, 0;
    NoTail();
    assert s[0..] == s;
    while i < |s|
      invariant 0 <= i <= |s| && len + |Tail(s[i..])| == |Tail(s)|
    {
      assert s[i..][1..] == s[i + 1..];
      TailStep(s[i..]);
      len := len + 1;
      if ShortEscape(s[i]) != '\0' {
        len := len + 1;
      } else if s[i] < ' ' {
        len := len + 5;
      }
      i := i + 1;
    }
    assert s[i..] == "";
    room := len + 3;
  }

  lemma NoTail()
    ensures |Tail("")| == 1
  {
  }

  // ------------------------------------------------------------------ into the growing buffer

  /** Room the printer may ask for beyond the text itself. */
  const SLACK := 32

  method PrintLiteral(s: string, p: PrintBuffer)
    requires NulFree(s) && p.offset <= |p.buffer| && p.offset + |Quoted(s)| + SLACK <= LIMIT
    modifies p
    ensures p.Printed(old(p.Done()), Quoted(s))
  {
    var text, room := Literal(s);
    p.Put(text, room);
  }

  method PrintValue(v: Value, depth: nat, fmt: bool, p: PrintBuffer)
    requires Printable(v) && p.offset <= |p.buffer| && p.offset + |Text(v, depth, fmt)| + SLACK <= LIMIT
    modifies p
    ensures p.Printed(old(p.Done()), Text(v, depth, fmt))
    decreases v, 1
  {
    match v
    case Null => p.Put("null", 5);
    case False => p.Put("false", 6);
    case True => p.Put("true", 5);
    case Number(n) =>
      DecimalShort(n.Floor);
      if n == 0.0 {
        p.Put("0", 2);
      } else {
        p.Put(Decimal(n.Floor), 21);
      }
    case String(s) => PrintLiteral(s, p);
    case Array(items) => PrintArray(items, depth, fmt, p);
    case Object(members) => PrintObject(members, depth, fmt, p);
  }

  function Power(b: nat, k: nat): nat { if k == 0 then 1 else b * Power(b, k - 1) }

  /** Digits of a number below 10^k. */
  lemma {:induction false} DigitsLength(n: nat, k: nat)
    requires 0 < k && n < Power(10, k)
    ensures |Digits(n)| <= k
    decreases k
  {
    if n >= 10 {
      DigitsLength(n / 10, k - 1);
    }
  }

  lemma DecimalShort(n: int)
    requires -0x8000_0000 <= n < 0x8000_0000
    ensures |Decimal(n)| <= 11 && Decimal(0) == "0"
  {
    assert Power(10, 5) == 100000;
    assert Power(10, 10) == 100000 * Power(10, 5);
    DigitsLength(if n < 0 then -n else n, 10);
  }

  /** A child's text, and strlen to its end. */
  method PrintChild(v: Value, depth: nat, fmt: bool, p: PrintBuffer)
    requires Printable(v) && p.offset <= |p.buffer| && p.offset + |Text(v, depth, fmt)| + SLACK <= LIMIT
    modifies p
    ensures p.offset == old(p.offset) + |Text(v, depth, fmt)| <= |p.buffer|
    ensures p.Done() == old(p.Done()) + Text(v, depth, fmt)
    decreases v, 2
  {
    ghost var before := p.Done();
    PrintValue(v, depth, fmt, p);
    TextNulFree(v, depth, fmt);
    p.Update(before, Text(v, depth, fmt));
  }

  method PrintArray(items: seq<Value>, depth: nat, fmt: bool, p: PrintBuffer)
    requires Printable(Array(items)) && AllItems(items)
    requires p.offset <= |p.buffer| && p.offset + |Text(Array(items), depth, fmt)| + SLACK <= LIMIT
    modifies p
    ensures p.Printed(old(p.Done()), Text(Array(items), depth, fmt))
    decreases items, 5
  {
    ghost var before, whole := p.Done(), Text(Array(items), depth, fmt);
    if items == [] {
      p.Put("[]", 3);
      return;
    }
    ItemsCut(items, 0, depth, fmt);
    hide Printable;
    hide AllItems;
    hide Text;
    hide ItemsFrom;
    hide Comma;
    hide PrintBuffer.Done;
    hide PrintBuffer.Printed;
    hide Cat;
    CatAssoc(before, "[", ItemsFrom(items, 0, depth + 1, fmt));
    p.Emit("[", 1);
    var i := 0;
    while i < |items| - 1
      invariant 0 <= i < |items| && |before| <= p.offset <= |p.buffer|
      invariant Cat(p.Done(), ItemsFrom(items, i, depth + 1, fmt)) == Cat(before, whole)
    {
      PrintItem(items, i, depth, fmt, p);
      i := i + 1;
    }
    PrintLast(items, i, depth, fmt, p, before, whole);
  }

  /** The last item and the closing bracket. */
  method PrintLast(items: seq<Value>, i: nat, depth: nat, fmt: bool, p: PrintBuffer, ghost before: string,
                   ghost whole: string)
    requires i == |items| - 1 && AllItems(items)
    requires |before| <= p.offset <= |p.buffer| && p.offset + |ItemsFrom(items, i, depth + 1, fmt)| + SLACK <= LIMIT
    requires Cat(p.Done(), ItemsFrom(items, i, depth + 1, fmt)) == Cat(before, whole)
    modifies p
    ensures p.Printed(before, whole)
    decreases items, 4
  {
    ItemsCut(items, i, depth, fmt);
    hide Printable;
    hide AllItems;
    hide Text;
    hide ItemsFrom;
    hide PrintBuffer.Done;
    hide PrintBuffer.Printed;
    Assoc(p.Done(), Text(items[i], depth + 1, fmt), "]");
    PrintChild(items[i], depth + 1, fmt, p);
    ghost var done := p.Done();
    p.Put("]", 2);
    p.Completed(done, "]", before, whole);
  }

  /** An item and the comma after it. */
  method PrintItem(items: seq<Value>, i: nat, depth: nat, fmt: bool, p: PrintBuffer)
    requires i < |items| - 1 && AllItems(items)
    requires p.offset <= |p.buffer| && p.offset + |ItemsFrom(items, i, depth + 1, fmt)| + SLACK <= LIMIT
    modifies p
    ensures old(p.offset) <= p.offset <= |p.buffer|
    ensures Cat(p.Done(), ItemsFrom(items, i + 1, depth + 1, fmt))
      == Cat(old(p.Done()), ItemsFrom(items, i, depth + 1, fmt))
    decreases items, 4
  {
    ItemsCut(items, i, depth, fmt);
    hide Printable;
    hide AllItems;
    hide Text;
    hide ItemsFrom;
    hide Comma;
    hide PrintBuffer.Done;
    Moved(p.Done(), Text(items[i], depth + 1, fmt), Comma(fmt), ItemsFrom(items, i + 1, depth + 1, fmt));
    PrintChild(items[i], depth + 1, fmt, p);
    p.Emit(Comma(fmt), |Comma(fmt)| + 1);
  }

  /** The text of the items from i on, and the closing bracket. */
  function ItemsFrom(items: seq<Value>, i: nat, depth: nat, fmt: bool): string
    requires i < |items| && AllItems(items)
  {
    ItemsText(items[i..], depth, fmt)
  }

  lemma ItemsCut(items: seq<Value>, i: nat, depth: nat, fmt: bool)
    requires i < |items| && AllItems(items)
    ensures Printable(items[i])
    ensures ItemsFrom(items, i, depth + 1, fmt) == Text(items[i], depth + 1, fmt) +
      if i == |items| - 1 then "]" else Comma(fmt) + ItemsFrom(items, i + 1, depth + 1, fmt)
    ensures i == 0 ==> Cat("[", ItemsFrom(items, i, depth + 1, fmt)) == Text(Array(items), depth, fmt)
  {
    assert items[i..][1..] == items[i + 1..];
    assert items[0..] == items;
  }

  method PrintMember(m: Member, depth: nat, fmt: bool, p: PrintBuffer)
    requires NulFree(m.name) && Printable(m.value) && p.offset <= |p.buffer|
    requires p.offset + |MemberText(m, depth, fmt)| + SLACK <= LIMIT
    modifies p
    ensures p.offset == old(p.offset) + |MemberText(m, depth, fmt)| <= |p.buffer|
    ensures p.Done() == old(p.Done()) + MemberText(m, depth, fmt)
    decreases m, 3
  {
    hide Quoted;
    hide Colon;
    hide Text;
    ghost var before := p.Done();
    ghost var tabs := Tabs(if fmt then depth else 0);
    assert MemberText(m, depth, fmt) == tabs + (Quoted(m.name) + (Colon(fmt) + Text(m.value, depth, fmt)));
    Four(before, tabs, Quoted(m.name), Colon(fmt), Text(m.value, depth, fmt));
    hide MemberText;
    if fmt {
      p.Emit(Tabs(depth), depth);
    }
    hide Tabs;
    assert p.Done() == before + tabs;
    PrintLiteral(m.name, p);
    QuotedNulFree(m.name);
    p.Update(before + tabs, Quoted(m.name));
    p.Emit(Colon(fmt), |Colon(fmt)|);
    PrintChild(m.value, depth, fmt, p);
  }

  method PrintObject(members: seq<Member>, depth: nat, fmt: bool, p: PrintBuffer)
    requires Printable(Object(members)) && AllMembers(members)
    requires p.offset <= |p.buffer| && p.offset + |Text(Object(members), depth, fmt)| + SLACK <= LIMIT
    modifies p
    ensures p.Printed(old(p.Done()), Text(Object(members), depth, fmt))
    decreases members, 5
  {
    ghost var before, whole := p.Done(), Text(Object(members), depth, fmt);
    if members == [] {
      p.Put(Opening(fmt) + Closing(if fmt then depth - 1 else 0), if fmt then depth + 4 else 3);
      return;
    }
    MembersCut(members, 0, depth, fmt);
    ClosingLength(if fmt then depth else 0);
    hide Printable;
    hide AllMembers;
    hide NulFree;
    hide Text;
    hide MembersFrom;
    hide MemberText;
    hide Separator;
    hide Closing;
    hide Opening;
    hide PrintBuffer.Done;
    hide PrintBuffer.Printed;
    hide Cat;
    CatAssoc(before, Opening(fmt), MembersFrom(members, 0, depth + 1, fmt));
    p.Emit(Opening(fmt), |Opening(fmt)| + 1);
    PrintMembers(members, depth, fmt, p);
    PrintClosing(if fmt then depth else 0, p, before, whole);
  }

  method PrintClosing(tabs: nat, p: PrintBuffer, ghost before: string, ghost whole: string)
    requires |before| <= p.offset <= |p.buffer| && p.offset + tabs + 2 <= LIMIT
    requires Cat(p.Done(), Closing(tabs)) == Cat(before, whole)
    modifies p
    ensures p.Printed(before, whole)
  {
    hide PrintBuffer.Done;
    hide PrintBuffer.Printed;
    ghost var done := p.Done();
    p.Put(Closing(tabs), tabs + 2);
    p.Completed(done, Closing(tabs), before, whole);
  }

  /** All members, and what separates them. */
  method PrintMembers(members: seq<Member>, depth: nat, fmt: bool, p: PrintBuffer)
    requires members != [] && AllMembers(members)
    requires p.offset <= |p.buffer| && p.offset + |MembersFrom(members, 0, depth + 1, fmt)| + SLACK <= LIMIT
    modifies p
    ensures old(p.offset) <= p.offset <= |p.buffer|
    ensures Cat(p.Done(), Closing(if fmt then depth else 0))
      == Cat(old(p.Done()), MembersFrom(members, 0, depth + 1, fmt))
    decreases members, 4, 1
  {
    ghost var before := p.Done();
    hide AllMembers;
    hide MembersFrom;
    hide Closing;
    hide PrintBuffer.Done;
    hide Cat;
    var i := 0;
    while i < |members| - 1
      invariant 0 <= i < |members| && |before| <= p.offset <= |p.buffer|
      invariant Cat(p.Done(), MembersFrom(members, i, depth + 1, fmt))
        == Cat(before, MembersFrom(members, 0, depth + 1, fmt))
    {
      PrintSeparated(members, i, depth, fmt, p);
      i := i + 1;
    }
    PrintSeparated(members, i, depth, fmt, p);
  }

  /** A member and what separates it from the next, or from the closing brace. */
  method PrintSeparated(members: seq<Member>, i: nat, depth: nat, fmt: bool, p: PrintBuffer)
    requires i < |members| && AllMembers(members)
    requires p.offset <= |p.buffer| && p.offset + |MembersFrom(members, i, depth + 1, fmt)| + SLACK <= LIMIT
    modifies p
    ensures old(p.offset) <= p.offset <= |p.buffer|
    ensures Cat(p.Done(), MembersRest(members, i, depth, fmt))
      == Cat(old(p.Done()), MembersFrom(members, i, depth + 1, fmt))
    decreases members, 4, 0
  {
    MembersCut(members, i, depth, fmt);
    hide Printable;
    hide AllMembers;
    hide NulFree;
    hide MembersFrom;
    hide MembersRest;
    hide MemberText;
    hide Separator;
    hide PrintBuffer.Done;
    var more := i < |members| - 1;
    Moved(p.Done(), MemberText(members[i], depth + 1, fmt), Separator(more, fmt), MembersRest(members, i, depth, fmt));
    PrintMember(members[i], depth + 1, fmt, p);
    p.Emit(Separator(more, fmt), |Separator(more, fmt)| + 1);
  }

  /** What stands after member i and its separator. */
  function MembersRest(members: seq<Member>, i: nat, depth: nat, fmt: bool): string
    requires i < |members| && AllMembers(members)
  {
    if i == |members| - 1 then Closing(if fmt then depth else 0) else MembersFrom(members, i + 1, depth + 1, fmt)
  }

  lemma ClosingLength(n: nat)
    ensures |Closing(n)| == n + 1
  {
  }

  /** The text of the members from i on, and the closing brace. */
  function MembersFrom(members: seq<Member>, i: nat, depth: nat, fmt: bool): string
    requires i < |members| && AllMembers(members)
  {
    MembersText(members[i..], depth, fmt)
  }

  lemma MembersCut(members: seq<Member>, i: nat, depth: nat, fmt: bool)
    requires i < |members| && AllMembers(members)
    ensures NulFree(members[i].name) && Printable(members[i].value)
    ensures MembersFrom(members, i, depth + 1, fmt)
      == MemberText(members[i], depth + 1, fmt)
        + (Separator(i < |members| - 1, fmt) + MembersRest(members, i, depth, fmt))
    ensures i == 0 ==> Cat(Opening(fmt), MembersFrom(members, i, depth + 1, fmt)) == Text(Object(members), depth, fmt)
  {
    hide MemberText;
    hide Closing;
    hide Separator;
    assert members[i..][1..] == members[i + 1..];
    assert members[0..] == members;
  }
}
