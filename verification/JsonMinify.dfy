/** Taking layout and comments out of a JSON text in place, and what it makes of the printed text of a tree. */
module JsonMinify {
  import opened JsonText
  import opened JsonSyntax
  import opened JsonRoundTrip

  predicate Blank(c: char) { c == ' ' || c == '\t' || c == '\r' || c == '\n' }

  /** Where the line ends, or the text. */
  function LineEnd(t: string, i: nat): (j: nat)
    ensures j >= i
    decreases Left(t, i)
  {
    if At(t, i) == '\0' || At(t, i) == '\n' then i else LineEnd(t, i + 1)
  }

  /** Where the star that ends a comment stands, or the end of the text. */
  function CommentEnd(t: string, i: nat): (j: nat)
    ensures j >= i && (At(t, j) == '\0' || (At(t, j) == '*' && At(t, j + 1) == '/'))
    decreases Left(t, i)
  {
    if At(t, i) == '\0' || (At(t, i) == '*' && At(t, i + 1) == '/') then i else CommentEnd(t, i + 1)
  }

  /** The rest of a literal up to its closing quote (or the end of the text), and where the text goes on. */
  function Literal(t: string, i: nat): (r: (string, nat))
    ensures r.1 == i + |r.0| > i
    decreases Left(t, i)
  {
    if At(t, i) == '\0' || At(t, i) == '\"' then ([At(t, i)], i + 1)
    else if At(t, i) == '\\' then
      var (rest, j) := Literal(t, i + 2);
      ([At(t, i), At(t, i + 1)] + rest, j)
    else
      var (rest, j) := Literal(t, i + 1);
      ([At(t, i)] + rest, j)
  }

  /** What cJSON_Minify leaves of the text from i on. */
  function Minified(t: string, i: nat): string
    decreases Left(t, i)
  {
    var c := At(t, i);
    if c == '\0' then ""
    else if Blank(c) then Minified(t, i + 1)
    else if c == '/' && At(t, i + 1) == '/' then Minified(t, LineEnd(t, i + 1))
    else if c == '/' && At(t, i + 1) == '*' then Minified(t, CommentEnd(t, i) + 2)
    else if c == '\"' then
      var (x, j) := Literal(t, i + 1);
      [c] + x + Minified(t, j)
    else [c] + Minified(t, i + 1)
  }

  // ------------------------------------------------------------------ what pieces of text leave

  /** The text between i and j leaves r. */
  ghost predicate Leaves(t: string, i: nat, j: nat, r: string) { Minified(t, i) == r + Minified(t, j) }

  lemma Then(t: string, i: nat, j: nat, k: nat, r: string, s: string)
    requires Leaves(t, i, j, r) && Leaves(t, j, k, s)
    ensures Leaves(t, i, k, r + s)
  {
    hide Minified;
    assert r + (s + Minified(t, k)) == r + s + Minified(t, k);
  }

  /** Blanks leave nothing. */
  lemma {:induction false} BlanksLeave(t: string, i: nat, w: string)
    requires Here(t, i, w) && forall k :: 0 <= k < |w| ==> Blank(w[k])
    ensures Leaves(t, i, i + |w|, "")
    decreases |w|
  {
    if w != "" {
      assert w == [w[0]] + w[1..];
      HereFirst(t, i, w);
      HereSplit(t, i, [w[0]], w[1..]);
      hide Here;
      BlanksLeave(t, i + 1, w[1..]);
    }
  }

  /** A character that is neither blank nor begins a literal or a comment. */
  predicate Solid(c: char) { c != '\0' && !Blank(c) && c != '/' && c != '\"' }

  /** Such characters stay. */
  lemma {:induction false} SolidStays(t: string, i: nat, w: string)
    requires Here(t, i, w) && forall k :: 0 <= k < |w| ==> Solid(w[k])
    ensures Leaves(t, i, i + |w|, w)
    decreases |w|
  {
    if w != "" {
      assert w == [w[0]] + w[1..];
      HereFirst(t, i, w);
      HereSplit(t, i, [w[0]], w[1..]);
      hide Here;
      SolidStays(t, i + 1, w[1..]);
      assert Leaves(t, i, i + 1, [w[0]]);
      Then(t, i, i + 1, i + |w|, [w[0]], w[1..]);
    }
  }

  /** The rest of a literal as it is printed stays, too. */
  lemma {:induction false} TailStays(t: string, i: nat, s: string)
    requires NulFree(s) && Here(t, i, Tail(s))
    ensures Literal(t, i) == (Tail(s), i + |Tail(s)|)
    decreases |s|
  {
    hide Here;
    hide Escape;
    if s == "" {
      HereFirst(t, i, "\"");
    } else {
      hide Literal;
      TailIs(s);
      hide Tail;
      HereSplit(t, i, Escape(s[0]), Tail(s[1..]));
      EscapeStays(t, i, s[0]);
      TailStays(t, i + |Escape(s[0])|, s[1..]);
    }
  }

  lemma TailIs(s: string)
    requires s != ""
    ensures Tail(s) == Escape(s[0]) + Tail(s[1..])
  {
    hide Escape;
  }

  /** One character of it. */
  lemma EscapeStays(t: string, i: nat, c: char)
    requires c != '\0' && Here(t, i, Escape(c))
    ensures var (rest, j) := Literal(t, i + |Escape(c)|); Literal(t, i) == (Escape(c) + rest, j)
  {
    var w := Escape(c);
    HereAt(t, i, w);
    assert At(t, i + 0) == w[0];
    hide Here;
    hide At;
    if !Plain(c) {
      assert At(t, i + 1) == w[1];
      assert Literal(t, i) == ([w[0], w[1]] + Literal(t, i + 2).0, Literal(t, i + 2).1);
      hide Literal;
      if ShortEscape(c) == '\0' {
        assert At(t, i + 2) == w[2] && At(t, i + 3) == w[3] && At(t, i + 4) == w[4] && At(t, i + 5) == w[5];
        FourOn(t, i + 2, w[2], w[3], w[4], w[5]);
        var rest := Literal(t, i + 6).0;
        assert [w[0], w[1]] + ([w[2], w[3], w[4], w[5]] + rest) == w + rest;
      }
    }
  }

  /** Neither quote, backslash nor the end. */
  predicate Middle(c: char) { c != '\0' && c != '\"' && c != '\\' }

  lemma FourOn(t: string, i: nat, a: char, b: char, c: char, d: char)
    requires At(t, i) == a && At(t, i + 1) == b && At(t, i + 2) == c && At(t, i + 3) == d
    requires Middle(a) && Middle(b) && Middle(c) && Middle(d)
    ensures Literal(t, i) == ([a, b, c, d] + Literal(t, i + 4).0, Literal(t, i + 4).1)
  {
    hide At;
    LiteralStep(t, i);
    LiteralStep(t, i + 1);
    LiteralStep(t, i + 2);
    LiteralStep(t, i + 3);
    hide Literal;
    var rest := Literal(t, i + 4).0;
    assert [a] + ([b] + ([c] + ([d] + rest))) == [a, b, c, d] + rest;
  }

  lemma LiteralStep(t: string, i: nat)
    ensures At(t, i) != '\0' && At(t, i) != '\"' && At(t, i) != '\\' ==>
      Literal(t, i) == ([At(t, i)] + Literal(t, i + 1).0, Literal(t, i + 1).1)
  {
  }

  lemma QuotedStays(t: string, i: nat, s: string)
    requires NulFree(s) && Here(t, i, Quoted(s))
    ensures Leaves(t, i, i + |Quoted(s)|, Quoted(s))
  {
    HereSplit(t, i, "\"", Tail(s));
    HereFirst(t, i, "\"");
    TailStays(t, i + 1, s);
    hide Here;
    hide Tail;
    hide Literal;
  }

  // ------------------------------------------------------------------ the printed text of a tree

  lemma {:induction false} DigitsSolid(n: nat)
    ensures forall k :: 0 <= k < |Digits(n)| ==> Solid(Digits(n)[k])
  {
    if n >= 10 {
      DigitsSolid(n / 10);
    }
  }

  /** A layout character or more behind a character that stays. */
  lemma LayoutLeaves(t: string, i: nat, c: char, w: string)
    requires Here(t, i, [c] + w) && Solid(c) && forall k :: 0 <= k < |w| ==> Blank(w[k])
    ensures Leaves(t, i, i + 1 + |w|, [c])
  {
    HereSplit(t, i, [c], w);
    SolidStays(t, i, [c]);
    BlanksLeave(t, i + 1, w);
    hide Here;
    hide Leaves;
    Then(t, i, i + 1, i + 1 + |w|, [c], "");
  }

  lemma CommaLeaves(t: string, i: nat, fmt: bool)
    requires Here(t, i, Comma(fmt))
    ensures Leaves(t, i, i + |Comma(fmt)|, Comma(false))
  {
    LayoutLeaves(t, i, ',', if fmt then " " else "");
  }

  lemma ColonLeaves(t: string, i: nat, fmt: bool)
    requires Here(t, i, Colon(fmt))
    ensures Leaves(t, i, i + |Colon(fmt)|, Colon(false))
  {
    LayoutLeaves(t, i, ':', if fmt then "\t" else "");
  }

  lemma OpeningLeaves(t: string, i: nat, fmt: bool)
    requires Here(t, i, Opening(fmt))
    ensures Leaves(t, i, i + |Opening(fmt)|, Opening(false))
  {
    LayoutLeaves(t, i, '{', if fmt then "\n" else "");
  }

  lemma SeparatorLeaves(t: string, i: nat, more: bool, fmt: bool)
    requires Here(t, i, Separator(more, fmt))
    ensures Leaves(t, i, i + |Separator(more, fmt)|, Separator(more, false))
  {
    if more {
      LayoutLeaves(t, i, ',', if fmt then "\n" else "");
    } else {
      BlanksLeave(t, i, if fmt then "\n" else "");
    }
  }

  lemma ClosingLeaves(t: string, i: nat, n: int)
    requires Here(t, i, Closing(n))
    ensures Leaves(t, i, i + |Closing(n)|, Closing(0))
  {
    HereSplit(t, i, Tabs(n), "}");
    BlanksLeave(t, i, Tabs(n));
    SolidStays(t, i + |Tabs(n)|, "}");
    hide Here;
    hide Leaves;
    Then(t, i, i + |Tabs(n)|, i + |Closing(n)|, "", "}");
  }

  lemma LiteralsLeave(t: string, i: nat, v: Value, depth: nat, fmt: bool)
    requires Printable(v) && (v.Null? || v.False? || v.True? || v.Number?) && Here(t, i, Text(v, depth, fmt))
    ensures Leaves(t, i, i + |Text(v, depth, fmt)|, Text(v, depth, false))
  {
    if v.Number? {
      DigitsSolid(if v.n.Floor < 0 then -v.n.Floor else v.n.Floor);
    }
    hide Here;
    SolidStays(t, i, Text(v, depth, fmt));
  }

  /** The text of a value, in any layout, leaves its unformatted text. */
  lemma {:induction false} ValueLeaves(t: string, i: nat, v: Value, depth: nat, fmt: bool)
    requires Printable(v) && Here(t, i, Text(v, depth, fmt))
    ensures Leaves(t, i, i + |Text(v, depth, fmt)|, Text(v, depth, false))
    decreases v, 4
  {
    hide Here;
    hide Leaves;
    hide ItemsText;
    hide MembersText;
    match v
    case String(s) => QuotedStays(t, i, s);
    case Array(items) =>
      var rest := if items == [] then "]" else ItemsText(items, depth + 1, fmt);
      HereSplit(t, i, "[", rest);
      SolidStays(t, i, "[");
      if items == [] {
        SolidStays(t, i + 1, "]");
      } else {
        ItemsLeave(t, i + 1, items, depth + 1, fmt);
      }
      Then(t, i, i + 1, i + 1 + |rest|, "[", if items == [] then "]" else ItemsText(items, depth + 1, false));
    case Object(members) =>
      var n := |Opening(fmt)|;
      var rest := if members == [] then Closing(if fmt then depth - 1 else 0) else MembersText(members, depth + 1, fmt);
      HereSplit(t, i, Opening(fmt), rest);
      OpeningLeaves(t, i, fmt);
      if members == [] {
        ClosingLeaves(t, i + n, if fmt then depth - 1 else 0);
      } else {
        MembersLeave(t, i + n, members, depth + 1, fmt);
      }
      Then(t, i, i + n, i + n + |rest|, Opening(false),
        if members == [] then Closing(0) else MembersText(members, depth + 1, false));
    case _ => LiteralsLeave(t, i, v, depth, fmt);
  }

  lemma {:induction false} ItemsLeave(t: string, i: nat, items: seq<Value>, depth: nat, fmt: bool)
    requires items != [] && (forall x :: x in items ==> Printable(x)) && Here(t, i, ItemsText(items, depth, fmt))
    ensures Leaves(t, i, i + |ItemsText(items, depth, fmt)|, ItemsText(items, depth, false))
    decreases items, 3
  {
    hide Here;
    hide Leaves;
    hide Text;
    hide Comma;
    var first := Text(items[0], depth, fmt);
    var more := if |items| == 1 then "]" else Comma(fmt) + ItemsText(items[1..], depth, fmt);
    var j := i + |first|;
    HereSplit(t, i, first, more);
    ValueLeaves(t, i, items[0], depth, fmt);
    if |items| == 1 {
      SolidStays(t, j, "]");
      Then(t, i, j, j + 1, Text(items[0], depth, false), "]");
    } else {
      var k := j + |Comma(fmt)|;
      HereSplit(t, j, Comma(fmt), ItemsText(items[1..], depth, fmt));
      CommaLeaves(t, j, fmt);
      ItemsLeave(t, k, items[1..], depth, fmt);
      var end := k + |ItemsText(items[1..], depth, fmt)|;
      Then(t, j, k, end, Comma(false), ItemsText(items[1..], depth, false));
      Then(t, i, j, end, Text(items[0], depth, false), Comma(false) + ItemsText(items[1..], depth, false));
    }
  }

  lemma NoTabs(m: Member, depth: nat)
    requires NulFree(m.name) && Printable(m.value)
    ensures MemberText(m, depth, false) == "" + (Quoted(m.name) + (Colon(false) + Text(m.value, depth, false)))
  {
    hide Text;
    hide Quoted;
  }

  lemma {:induction false} MemberLeaves(t: string, i: nat, m: Member, depth: nat, fmt: bool)
    requires NulFree(m.name) && Printable(m.value) && Here(t, i, MemberText(m, depth, fmt))
    ensures Leaves(t, i, i + |MemberText(m, depth, fmt)|, MemberText(m, depth, false))
    decreases m, 2
  {
    hide Here;
    hide Leaves;
    hide Text;
    hide Quoted;
    hide Colon;
    var j, k, l := MemberCut(t, i, m, depth, fmt);
    BlanksLeave(t, i, Tabs(if fmt then depth else 0));
    NoTabs(m, depth);
    hide Tabs;
    hide MemberText;
    QuotedStays(t, j, m.name);
    ColonLeaves(t, k, fmt);
    ValueLeaves(t, l, m.value, depth, fmt);
    var end, value := i + |MemberText(m, depth, fmt)|, Text(m.value, depth, false);
    Then(t, k, l, end, Colon(false), value);
    Then(t, j, k, end, Quoted(m.name), Colon(false) + value);
    Then(t, i, j, end, "", Quoted(m.name) + (Colon(false) + value));
  }

  lemma {:induction false} MembersLeave(t: string, i: nat, members: seq<Member>, depth: nat, fmt: bool)
    requires members != [] && (forall m :: m in members ==> NulFree(m.name) && Printable(m.value))
    requires Here(t, i, MembersText(members, depth, fmt))
    ensures Leaves(t, i, i + |MembersText(members, depth, fmt)|, MembersText(members, depth, false))
    decreases members, 3
  {
    hide Here;
    hide Leaves;
    hide MemberText;
    hide Separator;
    hide Closing;
    var j, k := MembersCut(t, i, members, depth, fmt);
    var end, more := i + |MembersText(members, depth, fmt)|, |members| > 1;
    MemberLeaves(t, i, members[0], depth, fmt);
    SeparatorLeaves(t, j, more, fmt);
    if |members| == 1 {
      ClosingLeaves(t, k, if fmt then depth - 1 else 0);
    } else {
      MembersLeave(t, k, members[1..], depth, fmt);
    }
    var rest := if |members| == 1 then Closing(0) else MembersText(members[1..], depth, false);
    Then(t, j, k, end, Separator(more, false), rest);
    Then(t, i, j, end, MemberText(members[0], depth, false), Separator(more, false) + rest);
  }

  /**
   * Of the text that either printer makes of a tree, formatted or not, its unformatted text is left: the two differ in
   * layout alone, and the unformatted text has none.
   */
  lemma MinifiedText(v: Value, fmt: bool)
    requires Printable(v)
    ensures Minified(Text(v, 0, fmt), 0) == Text(v, 0, false)
  {
    var t := Text(v, 0, fmt);
    assert t[0..|t|] == t;
    ValueLeaves(t, 0, v, 0, fmt);
    hide Text;
    assert Minified(t, |t|) == "";
    assert Text(v, 0, false) + "" == Text(v, 0, false);
  }

  // ------------------------------------------------------------------ in place

  /** Every literal and every comment ends before the text does. */
  predicate Closed(t: string, i: nat)
    decreases Left(t, i)
  {
    var c := At(t, i);
    if c == '\0' then true
    else if c == '/' && At(t, i + 1) == '/' then Closed(t, LineEnd(t, i + 1))
    else if c == '/' && At(t, i + 1) == '*' then CommentEnd(t, i) < |t| && Closed(t, CommentEnd(t, i) + 2)
    else if c == '\"' then Literal(t, i + 1).1 <= |t| && Closed(t, Literal(t, i + 1).1)
    else Closed(t, i + 1)
  }

  /** Where the walk over the text ends; behind the text a NUL is read. */
  function WalkEnd(t: string, i: nat): (j: nat)
    ensures j >= i && At(t, j) == '\0'
    decreases Left(t, i)
  {
    var c := At(t, i);
    if c == '\0' then i
    else if c == '/' && At(t, i + 1) == '/' then WalkEnd(t, LineEnd(t, i + 1))
    else if c == '/' && At(t, i + 1) == '*' then WalkEnd(t, CommentEnd(t, i) + 2)
    else if c == '\"' then WalkEnd(t, Literal(t, i + 1).1)
    else WalkEnd(t, i + 1)
  }

  /** It ends at the NUL of the text if and only if all literals and comments are closed, and otherwise behind it. */
  lemma {:induction false} InsideExactly(t: string, i: nat)
    requires NulFree(t) && i <= |t|
    ensures WalkEnd(t, i) >= |t|
    ensures WalkEnd(t, i) == |t| <==> Closed(t, i)
    decreases Left(t, i)
  {
    var c := At(t, i);
    if i < |t| {
      assert t[i] != '\0';
      if c == '/' && At(t, i + 1) == '/' {
        LineInside(t, i + 1);
        InsideExactly(t, LineEnd(t, i + 1));
      } else if c == '/' && At(t, i + 1) == '*' {
        var end := CommentEnd(t, i);
        if end < |t| {
          StarInside(t, end);
          InsideExactly(t, end + 2);
        }
      } else if c == '\"' {
        if Literal(t, i + 1).1 <= |t| {
          InsideExactly(t, Literal(t, i + 1).1);
        }
      } else {
        InsideExactly(t, i + 1);
      }
    }
  }

  lemma {:induction false} LineInside(t: string, i: nat)
    requires NulFree(t) && i <= |t|
    ensures LineEnd(t, i) <= |t|
    decreases Left(t, i)
  {
    if i < |t| && t[i] != '\n' {
      LineInside(t, i + 1);
    }
  }

  /** The text from i on, and its NUL, have not been written over. */
  ghost predicate Unread(json: array<char>, t: string, i: nat)
    reads json
  {
    i <= |t| < json.Length && forall k :: i <= k <= |t| ==> json[k] == At(t, k)
  }

  /** The next character behind what is kept, before or where the text is read. */
  method Keep(json: array<char>, into: nat, i: nat, ghost t: string)
    requires Unread(json, t, i) && into <= i < |t|
    modifies json
    ensures json[..into + 1] == old(json[..into]) + [At(t, i)] && Unread(json, t, i + 1)
  {
    json[into] := json[i];
    assert json[..into + 1] == json[..into] + [json[into]];
  }

  /** Within a literal a backslash takes the next character with it. */
  lemma LiteralGoesOn(t: string, i: nat)
    requires At(t, i) != '\0' && At(t, i) != '\"'
    ensures At(t, i) != '\\' ==> Literal(t, i) == ([At(t, i)] + Literal(t, i + 1).0, Literal(t, i + 1).1)
    ensures At(t, i) == '\\' ==>
      Literal(t, i) == ([At(t, i)] + ([At(t, i + 1)] + Literal(t, i + 2).0), Literal(t, i + 2).1)
  {
    if At(t, i) == '\\' {
      var rest := Literal(t, i + 2).0;
      assert [At(t, i), At(t, i + 1)] + rest == [At(t, i)] + ([At(t, i + 1)] + rest);
    }
  }

  lemma LiteralStops(t: string, i: nat)
    requires At(t, i) == '\0' || At(t, i) == '\"'
    ensures Literal(t, i) == ([At(t, i)], i + 1)
  {
  }

  /** A literal is copied up to and with its closing quote. */
  method CopyLiteral(json: array<char>, to: nat, from: nat, ghost t: string) returns (into: nat, i: nat)
    requires Unread(json, t, from) && to <= from && NulFree(t) && Literal(t, from).1 <= |t|
    modifies json
    ensures i == Literal(t, from).1 && into <= i && Unread(json, t, i)
    ensures json[..into] == old(json[..to]) + Literal(t, from).0
  {
    hide Literal;
    hide At;
    hide NulFree;
    ghost var whole := json[..to] + Literal(t, from).0;
    into, i := to, from;
    while json[i] != '\0' && json[i] != '\"'
      invariant 0 <= into <= i && Unread(json, t, i) && Literal(t, i).1 == Literal(t, from).1
      invariant json[..into] + Literal(t, i).0 == whole
      decreases |t| - i
    {
      LiteralGoesOn(t, i);
      ghost var at := i;
      if json[i] == '\\' {
        Prefixed(json[..into], At(t, i), [At(t, i + 1)] + Literal(t, i + 2).0);
        Keep(json, into, i, t);
        into, i := into + 1, i + 1;
      }
      Prefixed(json[..into], At(t, i), Literal(t, i + 1).0);
      Keep(json, into, i, t);
      into, i := into + 1, i + 1;
    }
    LiteralStops(t, i);
    Keep(json, into, i, t);
    into, i := into + 1, i + 1;
  }

  lemma Prefixed(a: string, c: char, b: string)
    ensures a + ([c] + b) == a + [c] + b
  {
  }

  /** cJSON_Minify */
  method Minify(json: array<char>, ghost t: string)
    requires |t| < json.Length && json[..|t|] == t && json[|t|] == '\0' && NulFree(t) && Closed(t, 0)
    modifies json
    ensures var r := Minified(t, 0); |r| <= |t| && json[..|r|] == r && json[|r|] == '\0'
  {
    hide Minified;
    hide Closed;
    var into, i := 0, 0;
    assert forall k :: 0 <= k < |t| ==> json[k] == json[..|t|][k];
    assert json[..0] == [] && [] + Minified(t, 0) == Minified(t, 0);
    while json[i] != '\0'
      invariant 0 <= into <= i && Unread(json, t, i) && Closed(t, i)
      invariant json[..into] + Minified(t, i) == Minified(t, 0)
      decreases |t| - i
    {
      into, i := MinifyOne(json, into, i, t);
    }
    NothingLeft(t, i);
    assert json[..into] + [] == json[..into];
    json[into] := '\0';
  }

  lemma NothingLeft(t: string, i: nat)
    requires At(t, i) == '\0'
    ensures Minified(t, i) == ""
  {
  }

  /** A piece of layout, a comment, a literal, or another character. */
  lemma OneStep(t: string, i: nat)
    requires Closed(t, i) && At(t, i) != '\0'
    ensures var c := At(t, i);
      if Blank(c) then Minified(t, i) == Minified(t, i + 1) && Closed(t, i + 1)
      else if c == '/' && At(t, i + 1) == '/' then
        Minified(t, i) == Minified(t, LineEnd(t, i + 1)) && Closed(t, LineEnd(t, i + 1))
      else if c == '/' && At(t, i + 1) == '*' then
        Minified(t, i) == Minified(t, CommentEnd(t, i) + 2) && Closed(t, CommentEnd(t, i) + 2) && CommentEnd(t, i) < |t|
      else if c == '\"' then
        var (x, j) := Literal(t, i + 1);
        Minified(t, i) == [c] + x + Minified(t, j) && Closed(t, j) && j <= |t|
      else Minified(t, i) == [c] + Minified(t, i + 1) && Closed(t, i + 1)
  {
    hide Literal;
    hide LineEnd;
    hide CommentEnd;
  }

  /** Layout or a comment begins here. */
  predicate Skipped(t: string, i: nat) {
    Blank(At(t, i)) || (At(t, i) == '/' && (At(t, i + 1) == '/' || At(t, i + 1) == '*'))
  }

  method MinifyOne(json: array<char>, to: nat, from: nat, ghost t: string) returns (into: nat, i: nat)
    requires to <= from < |t| && Unread(json, t, from) && NulFree(t) && Closed(t, from)
    modifies json
    ensures into <= i && from < i && Unread(json, t, i) && Closed(t, i)
    ensures json[..into] + Minified(t, i) == old(json[..to]) + Minified(t, from)
  {
    hide Minified;
    hide Closed;
    hide NulFree;
    var c := json[from];
    if Blank(c) || (c == '/' && (json[from + 1] == '/' || json[from + 1] == '*')) {
      into := to;
      i := SkipOne(json, from, t);
    } else {
      into, i := KeepOne(json, to, from, t);
    }
  }

  method SkipOne(json: array<char>, from: nat, ghost t: string) returns (i: nat)
    requires from < |t| && Unread(json, t, from) && NulFree(t) && Closed(t, from) && Skipped(t, from)
    ensures from < i && Unread(json, t, i) && Closed(t, i) && Minified(t, i) == Minified(t, from)
  {
    OneStep(t, from);
    hide Minified;
    hide Closed;
    hide LineEnd;
    hide CommentEnd;
    hide NulFree;
    if Blank(json[from]) {
      i := from + 1;
    } else if json[from + 1] == '/' {
      i := SkipLine(json, from + 1, t);
    } else {
      i := SkipComment(json, from, t);
      StarInside(t, i);
      i := i + 2;
    }
  }

  method KeepOne(json: array<char>, to: nat, from: nat, ghost t: string) returns (into: nat, i: nat)
    requires to <= from < |t| && Unread(json, t, from) && NulFree(t) && Closed(t, from) && !Skipped(t, from)
    modifies json
    ensures into <= i && from < i && Unread(json, t, i) && Closed(t, i)
    ensures json[..into] + Minified(t, i) == old(json[..to]) + Minified(t, from)
  {
    assert t[from] != '\0';
    OneStep(t, from);
    hide Minified;
    hide Closed;
    hide Literal;
    hide NulFree;
    if json[from] == '\"' {
      into, i := KeepLiteral(json, to, from, t);
    } else {
      Prefixed(json[..to], At(t, from), Minified(t, from + 1));
      Keep(json, to, from, t);
      into, i := to + 1, from + 1;
    }
  }

  method KeepLiteral(json: array<char>, to: nat, from: nat, ghost t: string) returns (into: nat, i: nat)
    requires to <= from < |t| && Unread(json, t, from) && NulFree(t) && Literal(t, from + 1).1 <= |t|
    modifies json
    ensures i == Literal(t, from + 1).1 && into <= i && Unread(json, t, i)
    ensures json[..into] + Minified(t, i) == old(json[..to]) + ([At(t, from)] + Literal(t, from + 1).0 + Minified(t, i))
  {
    hide Minified;
    hide Literal;
    hide NulFree;
    hide At;
    ghost var was, c := json[..to], At(t, from);
    Keep(json, to, from, t);
    into, i := CopyLiteral(json, to + 1, from + 1, t);
    ghost var x := Literal(t, from + 1).0;
    assert was + [c] + x + Minified(t, i) == was + ([c] + x + Minified(t, i));
  }

  lemma StarInside(t: string, i: nat)
    requires i < |t| && NulFree(t) && (At(t, i) == '\0' || (At(t, i) == '*' && At(t, i + 1) == '/'))
    ensures i + 2 <= |t|
  {
  }

  method SkipLine(json: array<char>, from: nat, ghost t: string) returns (i: nat)
    requires Unread(json, t, from) && NulFree(t)
    ensures i == LineEnd(t, from) <= |t|
  {
    i := from;
    while json[i] != '\0' && json[i] != '\n'
      invariant from <= i && Unread(json, t, i) && LineEnd(t, i) == LineEnd(t, from)
      decreases |t| - i
    {
      i := i + 1;
    }
  }

  method SkipComment(json: array<char>, from: nat, ghost t: string) returns (i: nat)
    requires Unread(json, t, from) && NulFree(t)
    ensures i == CommentEnd(t, from) <= |t|
  {
    i := from;
    while json[i] != '\0' && !(json[i] == '*' && json[i + 1] == '/')
      invariant from <= i && Unread(json, t, i) && CommentEnd(t, i) == CommentEnd(t, from)
      decreases |t| - i
    {
      i := i + 1;
    }
  }
}
