/**
 * The printer that keeps every child's text in a block of its own, adds up the room, and joins the texts in one block.
 */
module JsonJoiner {
  import opened JsonText
  import opened JsonBuffer
  import opened JsonPrinter
  import opened Sequences

  /** The block starts with the C string `text`. */
  ghost predicate Holds(out: array<char>, text: string)
    reads out
  {
    |text| < out.Length && out[..|text| + 1] == text + "\0"
  }

  /** Writes s at ptr, which must have room for it. */
  method Append(out: array<char>, ptr: nat, s: string) returns (end: nat)
    requires ptr + |s| <= out.Length
    modifies out
    ensures end == ptr + |s| && out[..end] == old(out[..ptr]) + s
  {
    var k := 0;
    while k < |s|
      invariant 0 <= k <= |s|
      invariant out[..ptr + k] == old(out[..ptr]) + s[..k]
    {
      out[ptr + k] := s[k];
      assert out[..ptr + k + 1] == out[..ptr + k] + [s[k]];
      assert s[..k + 1] == s[..k] + [s[k]];
      k := k + 1;
    }
    assert s[..k] == s;
    end := ptr + |s|;
  }

  /** A block of the given size that starts with s. */
  method Begin(s: string, room: nat) returns (out: array<char>)
    requires |s| <= room
    ensures fresh(out) && out.Length == room && out[..|s|] == s
  {
    out := new char[room];
    var end := Append(out, 0, s);
  }

  /** A block of the given size with the text and its NUL. */
  method Filled(text: string, room: nat) returns (out: array<char>)
    requires |text| < room
    ensures fresh(out) && out.Length == room && Holds(out, text)
  {
    out := Begin(text + "\0", room);
  }

  /** The C string in a block, found by its length. */
  method CString(out: array<char>, ghost text: string) returns (s: string)
    requires Holds(out, text) && NulFree(text)
    ensures s == text
  {
    ghost var all := text + "\0";
    var n := 0;
    while out[n] != '\0'
      invariant 0 <= n <= |text|
      decreases |text| - n
    {
      assert out[..|text| + 1][|text|] == all[|text|] == '\0';
      n := n + 1;
    }
    assert out[..|text| + 1][n] == all[n];
    assert out[..n] == out[..|text| + 1][..n];
    s := out[..n];
  }

  method JoinValue(v: Value, depth: nat, fmt: bool) returns (out: array<char>)
    requires Printable(v)
    ensures fresh(out) && Holds(out, Text(v, depth, fmt))
    decreases v, 1
  {
    match v
    case Null => out := Filled("null", 5);
    case False => out := Filled("false", 6);
    case True => out := Filled("true", 5);
    case Number(n) =>
      DecimalShort(n.Floor);
      if n == 0.0 {
        out := Filled("0", 2);
      } else {
        out := Filled(Decimal(n.Floor), 21);
      }
    case String(s) =>
      var text, room := Literal(s);
      out := Filled(text, room);
    case Array(items) => out := JoinArray(items, depth, fmt);
    case Object(members) => out := JoinObject(members, depth, fmt);
  }

  /** A child's block, and the C string in it. */
  method JoinChild(v: Value, depth: nat, fmt: bool) returns (text: string)
    requires Printable(v)
    ensures text == Text(v, depth, fmt)
    decreases v, 2
  {
    var block := JoinValue(v, depth, fmt);
    TextNulFree(v, depth, fmt);
    text := CString(block, Text(v, depth, fmt));
  }

  // ------------------------------------------------------------------ arrays

  /** The room added up for the first n items. */
  function ItemsRoom(items: seq<Value>, n: nat, depth: nat, fmt: bool): (r: nat)
    requires n <= |items| && AllItems(items)
  {
    if n == 0 then 0
    else ItemsRoom(items, n - 1, depth, fmt) + |Text(items[n - 1], depth, fmt)| + 2 + if fmt then 1 else 0
  }

  lemma {:induction false} ItemsRoomGrows(items: seq<Value>, i: nat, n: nat, depth: nat, fmt: bool)
    requires i < n <= |items| && AllItems(items)
    ensures ItemsRoom(items, i + 1, depth, fmt) <= ItemsRoom(items, n, depth, fmt)
    ensures ItemsRoom(items, i + 1, depth, fmt)
      == ItemsRoom(items, i, depth, fmt) + |Text(items[i], depth, fmt)| + 2 + if fmt then 1 else 0
  {
    hide Text;
    hide Printable;
    hide AllItems;
    if i + 1 < n {
      ItemsRoomGrows(items, i, n - 1, depth, fmt);
    }
  }

  predicate Entered(items: seq<Value>, entries: seq<string>, depth: nat, fmt: bool)
    requires AllItems(items)
  {
    |entries| == |items| && forall j :: 0 <= j < |items| ==> entries[j] == Text(items[j], depth, fmt)
  }

  /** The texts of the children, and the room for all of them. */
  method Entries(items: seq<Value>, depth: nat, fmt: bool) returns (entries: seq<string>, len: nat)
    requires AllItems(items)
    ensures Entered(items, entries, depth, fmt)
    ensures len == 5 + ItemsRoom(items, |items|, depth, fmt)
    decreases items, 3
  {
    hide Printable;
    hide Text;
    entries, len := [], 5;
    var i := 0;
    while i < |items|
      invariant |entries| == i <= |items|
      invariant forall j :: 0 <= j < i ==> entries[j] == Text(items[j], depth, fmt)
      invariant len == 5 + ItemsRoom(items, i, depth, fmt)
    {
      var ret := JoinChild(items[i], depth, fmt);
      entries := entries + [ret];
      len := len + |ret| + 2 + if fmt then 1 else 0;
      i := i + 1;
    }
  }

  method JoinArray(items: seq<Value>, depth: nat, fmt: bool) returns (out: array<char>)
    requires Printable(Array(items)) && AllItems(items)
    ensures fresh(out) && Holds(out, Text(Array(items), depth, fmt))
    decreases items, 5
  {
    if items == [] {
      out := Filled("[]", 3);
    } else {
      var entries, len := Entries(items, depth + 1, fmt);
      out := ComposeArray(items, entries, len, depth, fmt);
    }
  }

  /** The children's texts joined in one block of the room added up. */
  method ComposeArray(items: seq<Value>, entries: seq<string>, len: nat, depth: nat, fmt: bool)
    returns (out: array<char>)
    requires items != [] && Printable(Array(items)) && AllItems(items)
    requires Entered(items, entries, depth + 1, fmt)
    requires len == 5 + ItemsRoom(items, |items|, depth + 1, fmt)
    ensures fresh(out) && Holds(out, Text(Array(items), depth, fmt))
  {
    ghost var whole := Text(Array(items), depth, fmt);
    ItemsCut(items, 0, depth, fmt);
    hide Printable;
    hide AllItems;
    hide Text;
    hide ItemsFrom;
    hide ItemsRoom;
    hide Holds;
    hide Cat;
    out := Begin("[", len);
    var ptr := AppendItems(out, 1, items, entries, depth, fmt, whole);
    AppendClosing(out, ptr, "]", whole);
  }

  /** All items, and the commas between them. */
  method AppendItems(out: array<char>, ptr: nat, items: seq<Value>, entries: seq<string>, depth: nat, fmt: bool,
                     ghost whole: string)
    returns (end: nat)
    requires items != [] && AllItems(items) && Entered(items, entries, depth + 1, fmt)
    requires ptr + ItemsRoom(items, |items|, depth + 1, fmt) <= out.Length
    requires Cat(out[..ptr], ItemsFrom(items, 0, depth + 1, fmt)) == whole
    modifies out
    ensures end <= ptr + ItemsRoom(items, |items|, depth + 1, fmt) && Cat(out[..end], "]") == whole
  {
    hide AllItems;
    hide Printable;
    hide ItemsFrom;
    hide Text;
    hide Cat;
    var n := |items|;
    assert ItemsRoom(items, 0, depth + 1, fmt) == 0;
    hide ItemsRoom;
    end := ptr;
    var i := 0;
    while i < n - 1
      invariant 0 <= i < n && end <= ptr + ItemsRoom(items, i, depth + 1, fmt) && end <= out.Length
      invariant Cat(out[..end], ItemsFrom(items, i, depth + 1, fmt)) == whole
    {
      ItemsRoomGrows(items, i, n, depth + 1, fmt);
      end := AppendItem(out, end, items, i, entries[i], depth, fmt);
      i := i + 1;
    }
    ItemsRoomGrows(items, i, n, depth + 1, fmt);
    LastCut(items, depth, fmt);
    CatAssoc(out[..end], entries[i], "]");
    end := Append(out, end, entries[i]);
  }

  lemma LastCut(items: seq<Value>, depth: nat, fmt: bool)
    requires items != [] && AllItems(items)
    ensures Printable(items[|items| - 1])
    ensures ItemsFrom(items, |items| - 1, depth + 1, fmt) == Cat(Text(items[|items| - 1], depth + 1, fmt), "]")
  {
    ItemsCut(items, |items| - 1, depth, fmt);
  }

  /** The closing bracket or brace, and the NUL. */
  method AppendClosing(out: array<char>, ptr: nat, close: string, ghost whole: string)
    requires ptr <= out.Length && Cat(out[..ptr], close) == whole && |whole| < out.Length
    modifies out
    ensures Holds(out, whole)
  {
    Assoc(out[..ptr], close, "\0");
    var end := Append(out, ptr, close + "\0");
  }

  /** An item of the joined text and the comma after it. */
  method AppendItem(out: array<char>, ptr: nat, ghost items: seq<Value>, ghost i: nat, entry: string, ghost depth: nat,
                    fmt: bool)
    returns (end: nat)
    requires i < |items| - 1 && AllItems(items) && entry == Text(items[i], depth + 1, fmt)
    requires ptr + |entry| + 1 + (if fmt then 1 else 0) <= out.Length
    modifies out
    ensures end == ptr + |entry| + 1 + (if fmt then 1 else 0)
    ensures Cat(out[..end], ItemsFrom(items, i + 1, depth + 1, fmt))
      == Cat(old(out[..ptr]), ItemsFrom(items, i, depth + 1, fmt))
  {
    ItemsCut(items, i, depth, fmt);
    CommaLength(fmt);
    hide Printable;
    hide AllItems;
    hide Text;
    hide ItemsFrom;
    hide Comma;
    Moved(out[..ptr], entry, Comma(fmt), ItemsFrom(items, i + 1, depth + 1, fmt));
    end := Append(out, ptr, entry);
    end := Append(out, end, Comma(fmt));
  }

  lemma CommaLength(fmt: bool)
    ensures |Comma(fmt)| == if fmt then 2 else 1
  {
  }

  // ------------------------------------------------------------------ objects

  /** The room counted for member i. */
  function SeparatedRoom(members: seq<Member>, i: nat, depth: nat, fmt: bool): nat
    requires i < |members| && AllMembers(members)
  {
    |Text(members[i].value, depth, fmt)| + |Quoted(members[i].name)| + 2 + if fmt then 2 + depth else 0
  }

  /** The room added up for the first n members. */
  function MembersRoom(members: seq<Member>, n: nat, depth: nat, fmt: bool): nat
    requires n <= |members| && AllMembers(members)
  {
    if n == 0 then 0 else MembersRoom(members, n - 1, depth, fmt) + SeparatedRoom(members, n - 1, depth, fmt)
  }

  lemma {:induction false} MembersRoomGrows(members: seq<Member>, i: nat, n: nat, depth: nat, fmt: bool)
    requires i < n <= |members| && AllMembers(members)
    ensures MembersRoom(members, i + 1, depth, fmt) <= MembersRoom(members, n, depth, fmt)
    ensures MembersRoom(members, i + 1, depth, fmt)
      == MembersRoom(members, i, depth, fmt) + SeparatedRoom(members, i, depth, fmt)
  {
    hide SeparatedRoom;
    hide AllMembers;
    if i + 1 < n {
      MembersRoomGrows(members, i, n - 1, depth, fmt);
    }
  }

  /** The literals of the names and the texts of the values. */
  predicate Gathered(members: seq<Member>, names: seq<string>, entries: seq<string>, depth: nat, fmt: bool)
    requires AllMembers(members)
  {
    && |names| == |entries| == |members|
    && forall j :: 0 <= j < |members| ==>
      names[j] == Quoted(members[j].name) && entries[j] == Text(members[j].value, depth, fmt)
  }

  /** The literals of the names, the texts of the values, and the room for all of them. */
  method NamedEntries(members: seq<Member>, depth: nat, fmt: bool)
    returns (names: seq<string>, entries: seq<string>, len: nat)
    requires AllMembers(members)
    ensures Gathered(members, names, entries, depth, fmt)
    ensures len == 7 + (if fmt then depth else 0) + MembersRoom(members, |members|, depth, fmt)
    decreases members, 3
  {
    hide Printable;
    hide Text;
    hide NulFree;
    hide Quoted;
    names, entries, len := [], [], 7 + if fmt then depth else 0;
    var i := 0;
    while i < |members|
      invariant |names| == |entries| == i <= |members|
      invariant forall j :: 0 <= j < i ==> names[j] == Quoted(members[j].name)
      invariant forall j :: 0 <= j < i ==> entries[j] == Text(members[j].value, depth, fmt)
      invariant len == 7 + (if fmt then depth else 0) + MembersRoom(members, i, depth, fmt)
    {
      var str, room := Literal(members[i].name);
      var ret := JoinChild(members[i].value, depth, fmt);
      names := names + [str];
      entries := entries + [ret];
      len := len + |ret| + |str| + 2 + if fmt then 2 + depth else 0;
      i := i + 1;
    }
  }

  /** One member of the joined text, without what separates it from the next. */
  method AppendMember(out: array<char>, ptr: nat, ghost m: Member, name: string, entry: string, depth: nat, fmt: bool)
    returns (end: nat)
    requires NulFree(m.name) && Printable(m.value) && name == Quoted(m.name) && entry == Text(m.value, depth, fmt)
    requires ptr + |MemberText(m, depth, fmt)| <= out.Length
    modifies out
    ensures end == ptr + |MemberText(m, depth, fmt)| && out[..end] == old(out[..ptr]) + MemberText(m, depth, fmt)
  {
    hide Quoted;
    hide Colon;
    hide Text;
    ghost var before := out[..ptr];
    ghost var tabs := Tabs(if fmt then depth else 0);
    assert MemberText(m, depth, fmt) == tabs + (name + (Colon(fmt) + entry));
    Four(before, tabs, name, Colon(fmt), entry);
    hide MemberText;
    end := ptr;
    if fmt {
      end := Append(out, end, Tabs(depth));
    }
    hide Tabs;
    assert out[..end] == before + tabs;
    end := Append(out, end, name);
    end := Append(out, end, Colon(fmt));
    end := Append(out, end, entry);
  }

  lemma MemberLength(m: Member, depth: nat, fmt: bool)
    requires NulFree(m.name) && Printable(m.value)
    ensures |MemberText(m, depth, fmt)|
      == |Text(m.value, depth, fmt)| + |Quoted(m.name)| + 1 + if fmt then depth + 1 else 0
  {
  }

  lemma ClosingWritten(depth: nat, fmt: bool)
    ensures |Opening(fmt)| == if fmt then 2 else 1
    ensures |Separator(true, fmt)| == if fmt then 2 else 1
    ensures |Separator(false, fmt)| == if fmt then 1 else 0
    ensures |Closing(if fmt then depth else 0)| == if fmt then depth + 1 else 1
  {
  }

  method JoinObject(members: seq<Member>, depth: nat, fmt: bool) returns (out: array<char>)
    requires Printable(Object(members)) && AllMembers(members)
    ensures fresh(out) && Holds(out, Text(Object(members), depth, fmt))
    decreases members, 5
  {
    if members == [] {
      out := Filled(Opening(fmt) + Closing(if fmt then depth - 1 else 0), if fmt then depth + 4 else 3);
    } else {
      var names, entries, len := NamedEntries(members, depth + 1, fmt);
      out := ComposeObject(members, names, entries, len, depth, fmt);
    }
  }

  /** Names and values joined in one block of the room added up. */
  method ComposeObject(members: seq<Member>, names: seq<string>, entries: seq<string>, len: nat, depth: nat, fmt: bool)
    returns (out: array<char>)
    requires members != [] && Printable(Object(members)) && AllMembers(members)
    requires Gathered(members, names, entries, depth + 1, fmt)
    requires len == 7 + (if fmt then depth + 1 else 0) + MembersRoom(members, |members|, depth + 1, fmt)
    ensures fresh(out) && Holds(out, Text(Object(members), depth, fmt))
  {
    ghost var whole := Text(Object(members), depth, fmt);
    MembersCut(members, 0, depth, fmt);
    ClosingWritten(depth, fmt);
    hide Printable;
    hide AllMembers;
    hide NulFree;
    hide Text;
    hide MembersFrom;
    hide MemberText;
    hide Separator;
    hide Closing;
    hide Opening;
    hide Quoted;
    hide MembersRoom;
    hide SeparatedRoom;
    hide Gathered;
    hide Holds;
    hide Cat;
    hide MembersRest;
    out := Begin(Opening(fmt), len);
    var ptr := AppendMembers(out, |Opening(fmt)|, members, names, entries, depth, fmt, whole);
    AppendClosing(out, ptr, Closing(if fmt then depth else 0), whole);
  }

  /** All members, and what separates them. */
  method AppendMembers(out: array<char>, ptr: nat, members: seq<Member>, names: seq<string>, entries: seq<string>,
                       depth: nat, fmt: bool, ghost whole: string)
    returns (end: nat)
    requires members != [] && AllMembers(members) && Gathered(members, names, entries, depth + 1, fmt)
    requires ptr + MembersRoom(members, |members|, depth + 1, fmt) <= out.Length
    requires Cat(out[..ptr], MembersFrom(members, 0, depth + 1, fmt)) == whole
    modifies out
    ensures end <= ptr + MembersRoom(members, |members|, depth + 1, fmt)
    ensures Cat(out[..end], Closing(if fmt then depth else 0)) == whole
  {
    hide AllMembers;
    hide MembersFrom;
    hide MembersRest;
    hide SeparatedRoom;
    hide Gathered;
    hide Closing;
    hide Cat;
    var n := |members|;
    assert MembersRoom(members, 0, depth + 1, fmt) == 0;
    hide MembersRoom;
    end := ptr;
    var i := 0;
    while i < n - 1
      invariant 0 <= i < n && end <= ptr + MembersRoom(members, i, depth + 1, fmt) && end <= out.Length
      invariant Cat(out[..end], MembersFrom(members, i, depth + 1, fmt)) == whole
    {
      MembersRoomGrows(members, i, n, depth + 1, fmt);
      end := AppendSeparated(out, end, members, names, entries, i, depth, fmt);
      RestNext(members, i, depth, fmt);
      i := i + 1;
    }
    MembersRoomGrows(members, i, n, depth + 1, fmt);
    end := AppendSeparated(out, end, members, names, entries, i, depth, fmt);
    RestLast(members, i, depth, fmt);
  }

  lemma RestNext(members: seq<Member>, i: nat, depth: nat, fmt: bool)
    requires i < |members| - 1 && AllMembers(members)
    ensures MembersRest(members, i, depth, fmt) == MembersFrom(members, i + 1, depth + 1, fmt)
  {
  }
  lemma RestLast(members: seq<Member>, i: nat, depth: nat, fmt: bool)
    requires i == |members| - 1 && AllMembers(members)
    ensures MembersRest(members, i, depth, fmt) == Closing(if fmt then depth else 0)
  {
  }

  /** A member of the joined text and what follows it. */
  method AppendSeparated(out: array<char>, ptr: nat, members: seq<Member>, names: seq<string>, entries: seq<string>,
                         i: nat, depth: nat, fmt: bool)
    returns (end: nat)
    requires i < |members| && AllMembers(members) && Gathered(members, names, entries, depth + 1, fmt)
    requires ptr + SeparatedRoom(members, i, depth + 1, fmt) <= out.Length
    modifies out
    ensures end <= ptr + SeparatedRoom(members, i, depth + 1, fmt)
    ensures Cat(out[..end], MembersRest(members, i, depth, fmt))
      == Cat(old(out[..ptr]), MembersFrom(members, i, depth + 1, fmt))
  {
    var name, entry := names[i], entries[i];
    MembersCut(members, i, depth, fmt);
    MemberLength(members[i], depth + 1, fmt);
    ClosingWritten(depth, fmt);
    hide Printable;
    hide AllMembers;
    hide NulFree;
    hide Text;
    hide Quoted;
    hide MembersFrom;
    hide MembersRest;
    hide MemberText;
    hide Separator;
    hide Closing;
    hide Opening;
    var more := i < |members| - 1;
    Moved(out[..ptr], MemberText(members[i], depth + 1, fmt), Separator(more, fmt),
      MembersRest(members, i, depth, fmt));
    end := AppendMember(out, ptr, members[i], name, entry, depth + 1, fmt);
    end := Append(out, end, Separator(more, fmt));
  }

  // ------------------------------------------------------------------ the two entry points

  /** cJSON_Print and cJSON_PrintUnformatted */
  method Print(v: Value, fmt: bool) returns (text: string)
    requires Printable(v)
    ensures text == Text(v, 0, fmt)
  {
    text := JoinChild(v, 0, fmt);
  }

  /** cJSON_PrintBuffered: the same text from any prebuffer, for texts the int sizes have room for. */
  method PrintBuffered(v: Value, prebuffer: nat, fmt: bool) returns (text: string)
    requires Printable(v) && 0 < prebuffer && |Text(v, 0, fmt)| + SLACK <= LIMIT
    ensures text == Text(v, 0, fmt)
  {
    var block: string :| |block| == prebuffer by { Some(prebuffer); }
    var p := new PrintBuffer(block);
    PrintValue(v, 0, fmt, p);
    TextNulFree(v, 0, fmt);
    p.Update("", Text(v, 0, fmt));
    text := p.buffer[..p.offset];
  }
}
