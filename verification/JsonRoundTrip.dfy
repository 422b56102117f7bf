/** Parsing the printed text of a tree gives the tree back and consumes all of the text. */
module JsonRoundTrip {
  import opened JsonText
  import opened JsonSyntax

  lemma HereSplit(t: string, i: nat, a: string, b: string)
    ensures Here(t, i, a + b) <==> Here(t, i, a) && Here(t, i + |a|, b)
  {
    if Here(t, i, a + b) {
      assert t[i..i + |a|] == (a + b)[..|a|] == a;
      assert t[i + |a|..i + |a| + |b|] == (a + b)[|a|..] == b;
    }
    if Here(t, i, a) && Here(t, i + |a|, b) {
      assert t[i..i + |a + b|] == t[i..i + |a|] + t[i + |a|..i + |a| + |b|];
    }
  }

  lemma HereAt(t: string, i: nat, w: string)
    requires Here(t, i, w)
    ensures forall k :: 0 <= k < |w| ==> At(t, i + k) == w[k]
  {
    forall k | 0 <= k < |w| ensures At(t, i + k) == w[k] {
      assert t[i + k] == t[i..i + |w|][k];
    }
  }

  lemma HereFirst(t: string, i: nat, w: string)
    ensures Here(t, i, w) && w != "" ==> At(t, i) == w[0]
  {
    if Here(t, i, w) && w != "" {
      assert t[i] == t[i..i + |w|][0];
    }
  }

  /** A text in front of another, and the first character of each. */
  lemma Cut(t: string, i: nat, a: string, b: string)
    requires Here(t, i, a + b)
    ensures Here(t, i, a) && Here(t, i + |a|, b)
    ensures a != "" ==> At(t, i) == a[0]
    ensures |a| > 1 ==> At(t, i + 1) == a[1]
    ensures b != "" ==> At(t, i + |a|) == b[0]
  {
    HereSplit(t, i, a, b);
    HereFirst(t, i, a);
    HereFirst(t, i + |a|, b);
    if |a| > 1 {
      assert t[i + 1] == t[i..i + |a|][1];
    }
  }

  // ------------------------------------------------------------------ strings

  lemma EscapeIsRead(t: string, i: nat, c: char)
    requires c != '\0' && Here(t, i, Escape(c))
    ensures Unit(t, i) == ([c], i + |Escape(c)|)
    ensures At(t, i) != '\"' && At(t, i) != '\0'
  {
    var w := Escape(c);
    HereAt(t, i, w);
    assert At(t, i + 0) == w[0];
    if !Plain(c) {
      assert At(t, i + 1) == w[1];
      if ShortEscape(c) == '\0' {
        assert At(t, i + 2) == w[2] && At(t, i + 3) == w[3] && At(t, i + 4) == w[4] && At(t, i + 5) == w[5];
        ControlHex(t, i + 2, c);
      }
    }
  }

  lemma ControlHex(t: string, i: nat, c: char)
    requires !Plain(c) && ShortEscape(c) == '\0' && c != '\0'
    requires At(t, i) == '0' && At(t, i + 1) == '0'
    requires At(t, i + 2) == HexDigit(c as int / 16) && At(t, i + 3) == HexDigit(c as int % 16)
    ensures Hex4(t, i) == c as int && Utf8(c as int) == [c]
  {
    var h, l := c as int / 16, c as int % 16;
    assert HexValue(HexDigit(h)) == h && HexValue(HexDigit(l)) == l;
  }

  lemma MoreChars(t: string, i: nat, x: string, j: nat, rest: string, end: nat)
    requires At(t, i) != '\"' && At(t, i) != '\0' && Unit(t, i) == (x, j) && Chars(t, j) == (rest, end)
    ensures Chars(t, i) == (x + rest, end)
  {
    hide Unit;
  }

  lemma NoChars(t: string, i: nat)
    requires Here(t, i, Tail(""))
    ensures Chars(t, i) == ("", i) && At(t, i) == '\"' && |Tail("")| == 1
  {
    HereFirst(t, i, "\"");
  }

  lemma TailLength(s: string)
    requires s != ""
    ensures |Tail(s)| == |Escape(s[0])| + |Tail(s[1..])|
  {
    hide Escape;
  }

  lemma {:induction false} CharsRoundTrip(t: string, i: nat, s: string)
    requires NulFree(s) && Here(t, i, Tail(s))
    ensures Chars(t, i) == (s, i + |Tail(s)| - 1)
    ensures At(t, i + |Tail(s)| - 1) == '\"'
    decreases |s|
  {
    hide Here;
    hide Unit;
    hide Chars;
    hide Escape;
    hide At;
    if s == "" {
      NoChars(t, i);
    } else {
      HereSplit(t, i, Escape(s[0]), Tail(s[1..]));
      TailLength(s);
      hide Tail;
      var j := i + |Escape(s[0])|;
      EscapeIsRead(t, i, s[0]);
      CharsRoundTrip(t, j, s[1..]);
      MoreChars(t, i, [s[0]], j, s[1..], j + |Tail(s[1..])| - 1);
      assert s == [s[0]] + s[1..];
    }
  }

  lemma StringRoundTrip(t: string, i: nat, s: string)
    requires NulFree(s) && Here(t, i, Quoted(s))
    ensures ParseString(t, i) == Ok(s, i + |Quoted(s)|)
    ensures At(t, i) == '\"'
  {
    hide Here;
    hide Tail;
    hide Chars;
    hide At;
    Cut(t, i, "\"", Tail(s));
    CharsRoundTrip(t, i + 1, s);
  }

  // ------------------------------------------------------------------ numbers

  predicate AllDigits(w: string) { forall i :: 0 <= i < |w| ==> IsDigit(w[i]) }

  /** `acc` continued by the digits of w. */
  function ValueOf(w: string, acc: nat): nat
    requires AllDigits(w)
  {
    if w == "" then acc else ValueOf(w[1..], acc * 10 + DigitValue(w[0]))
  }

  lemma {:induction false} ValueOfAppend(w: string, c: char, acc: nat)
    requires AllDigits(w) && IsDigit(c)
    ensures AllDigits(w + [c]) && ValueOf(w + [c], acc) == ValueOf(w, acc) * 10 + DigitValue(c)
  {
    if w == "" {
      assert ("" + [c])[1..] == "";
    } else {
      assert (w + [c])[1..] == w[1..] + [c];
      ValueOfAppend(w[1..], c, acc * 10 + DigitValue(w[0]));
    }
  }

  lemma {:induction false} DigitsValue(n: nat)
    ensures AllDigits(Digits(n)) && ValueOf(Digits(n), 0) == n
    ensures |Digits(n)| > 0 && (n > 0 ==> Digits(n)[0] != '0')
  {
    if n < 10 {
      assert Digits(n)[1..] == "";
      assert ValueOf(Digits(n), 0) == ValueOf("", n);
    } else {
      DigitsValue(n / 10);
      ValueOfAppend(Digits(n / 10), HexDigit(n % 10), 0);
    }
  }

  lemma {:induction false} DigitsAreRead(t: string, i: nat, w: string, acc: nat)
    requires AllDigits(w) && Here(t, i, w) && !IsDigit(At(t, i + |w|))
    ensures ReadDigits(t, i, acc) == (ValueOf(w, acc), i + |w|)
    decreases |w|
  {
    if w != "" {
      HereAt(t, i, w);
      assert At(t, i + 0) == w[0];
      assert w == [w[0]] + w[1..];
      HereSplit(t, i, [w[0]], w[1..]);
      DigitsAreRead(t, i + 1, w[1..], acc * 10 + DigitValue(w[0]));
    }
  }

  /** What may follow a number without being taken for a part of it. */
  predicate Ends(c: char) { !IsDigit(c) && c != '.' && c != 'e' && c != 'E' }

  lemma NumberRoundTrip(t: string, i: nat, n: int)
    requires Here(t, i, Decimal(n)) && Ends(At(t, i + |Decimal(n)|))
    ensures ParseNumber(t, i) == Ok(Number(n as real), i + |Decimal(n)|)
    ensures At(t, i) == '-' || IsDigit(At(t, i))
  {
    var m := if n < 0 then -n else n;
    var i1 := if n < 0 then i + 1 else i;
    HereAt(t, i, Decimal(n));
    DigitsValue(m);
    assert At(t, i + 0) == Decimal(n)[0];
    if n < 0 {
      HereSplit(t, i, "-", Digits(m));
    }
    HereAt(t, i1, Digits(m));
    assert At(t, i1 + 0) == Digits(m)[0];
    if m > 0 {
      DigitsAreRead(t, i1, Digits(m), 0);
    }
    assert Pow10(0) == 1.0;
  }

  // ------------------------------------------------------------------ trees

  lemma {:induction false} TabsSkipped(t: string, i: nat, k: int)
    requires Here(t, i, Tabs(k))
    ensures Skip(t, i) == Skip(t, i + |Tabs(k)|)
    decreases if k < 0 then 0 else k
  {
    if k > 0 {
      HereSplit(t, i, "\t", Tabs(k - 1));
      HereAt(t, i, "\t");
      assert At(t, i + 0) == '\t';
      TabsSkipped(t, i + 1, k - 1);
    }
  }

  predicate Begins(c: char) {
    c == 'n' || c == 'f' || c == 't' || c == '\"' || c == '-' || IsDigit(c) || c == '[' || c == '{'
  }

  lemma TextBegins(v: Value, depth: nat, fmt: bool)
    requires Printable(v)
    ensures |Text(v, depth, fmt)| > 0 && Begins(Text(v, depth, fmt)[0])
  {
    if v.Number? {
      var n := v.n.Floor;
      DigitsValue(if n < 0 then -n else n);
    }
  }

  lemma {:induction false} ValueRoundTrip(t: string, i: nat, v: Value, depth: nat, fmt: bool)
    requires Printable(v) && Here(t, i, Text(v, depth, fmt)) && Ends(At(t, i + |Text(v, depth, fmt)|))
    ensures ParseValue(t, i) == Ok(v, i + |Text(v, depth, fmt)|)
    decreases v, 1
  {
    hide ParseNumber;
    hide ParseString;
    hide Quoted;
    hide Decimal;
    var w := Text(v, depth, fmt);
    TextBegins(v, depth, fmt);
    HereAt(t, i, w);
    assert At(t, i + 0) == w[0];
    match v
    case Null =>
    case False =>
    case True =>
    case Number(n) => NumberRoundTrip(t, i, n.Floor); OnlyLiterals(t, i);
    case String(s) => StringRoundTrip(t, i, s); OnlyLiterals(t, i);
    case Array(items) => ArrayRoundTrip(t, i, items, depth, fmt);
    case Object(members) => ObjectRoundTrip(t, i, members, depth, fmt);
  }

  lemma OnlyLiterals(t: string, i: nat)
    requires At(t, i) != 'n' && At(t, i) != 'f' && At(t, i) != 't'
    ensures !Here(t, i, "null") && !Here(t, i, "false") && !Here(t, i, "true")
  {
    HereFirst(t, i, "null");
    HereFirst(t, i, "false");
    HereFirst(t, i, "true");
  }

  lemma {:induction false} ArrayRoundTrip(t: string, i: nat, items: seq<Value>, depth: nat, fmt: bool)
    requires Printable(Array(items)) && Here(t, i, Text(Array(items), depth, fmt))
    ensures ParseValue(t, i) == Ok(Array(items), i + |Text(Array(items), depth, fmt)|)
    decreases items, 4
  {
    hide ParseItems;
    hide ItemsText;
    hide Here;
    Cut(t, i, "[", if items == [] then "]" else ItemsText(items, depth + 1, fmt));
    OnlyLiterals(t, i);
    if items != [] {
      ItemsRoundTrip(t, i + 1, items, depth + 1, fmt);
    }
  }

  lemma CommaSkipped(t: string, j: nat, fmt: bool)
    requires Here(t, j, Comma(fmt)) && Begins(At(t, j + |Comma(fmt)|))
    ensures At(t, j) == ',' && Skip(t, j) == j
    ensures Skip(t, j + 1) == j + |Comma(fmt)| && Skip(t, j + |Comma(fmt)|) == j + |Comma(fmt)|
  {
    HereFirst(t, j, Comma(fmt));
    if fmt {
      assert t[j + 1] == t[j..j + 2][1];
    }
  }

  lemma MoreItems(t: string, i: nat, v: Value, j: nat, rest: seq<Value>, end: nat)
    requires ParseValue(t, i) == Ok(v, j) && At(t, Skip(t, j)) == ','
    requires ParseItems(t, Skip(t, Skip(t, j) + 1)) == Ok(rest, end)
    ensures ParseItems(t, i) == Ok([v] + rest, end)
  {
    hide ParseValue;
  }

  lemma LastItem(t: string, i: nat, v: Value, j: nat)
    requires ParseValue(t, i) == Ok(v, j) && At(t, Skip(t, j)) == ']'
    ensures ParseItems(t, i) == Ok([v], Skip(t, j) + 1)
  {
    hide ParseValue;
  }

  lemma ItemsCut(t: string, i: nat, items: seq<Value>, depth: nat, fmt: bool) returns (j: nat, k: nat)
    requires items != [] && (forall x :: x in items ==> Printable(x)) && Here(t, i, ItemsText(items, depth, fmt))
    ensures j == i + |Text(items[0], depth, fmt)| && Here(t, i, Text(items[0], depth, fmt)) && Begins(At(t, i))
    ensures |items| == 1 ==> At(t, j) == ']' && j + 1 == i + |ItemsText(items, depth, fmt)|
    ensures |items| > 1 ==>
      && k == j + |Comma(fmt)| && Here(t, j, Comma(fmt)) && Ends(At(t, j))
      && Here(t, k, ItemsText(items[1..], depth, fmt))
      && k + |ItemsText(items[1..], depth, fmt)| == i + |ItemsText(items, depth, fmt)|
  {
    hide Here;
    hide Text;
    var first := Text(items[0], depth, fmt);
    TextBegins(items[0], depth, fmt);
    j, k := i + |first|, i + |first| + |Comma(fmt)|;
    if |items| == 1 {
      Cut(t, i, first, "]");
    } else {
      var rest := ItemsText(items[1..], depth, fmt);
      Cut(t, i, first, Comma(fmt) + rest);
      Cut(t, j, Comma(fmt), rest);
    }
  }

  lemma {:induction false} ItemsRoundTrip(t: string, i: nat, items: seq<Value>, depth: nat, fmt: bool)
    requires items != [] && (forall x :: x in items ==> Printable(x))
    requires Here(t, i, ItemsText(items, depth, fmt))
    ensures ParseItems(t, i) == Ok(items, i + |ItemsText(items, depth, fmt)|)
    ensures Begins(At(t, i))
    decreases items, 3
  {
    hide ParseValue;
    hide ParseItems;
    hide Text;
    hide ItemsText;
    hide Here;
    hide Skip;
    hide Comma;
    var j, k := ItemsCut(t, i, items, depth, fmt);
    ValueRoundTrip(t, i, items[0], depth, fmt);
    if |items| == 1 {
      SkipNothing(t, j);
      LastItem(t, i, items[0], j);
      assert items == [items[0]];
    } else {
      ItemsRoundTrip(t, k, items[1..], depth, fmt);
      CommaSkipped(t, j, fmt);
      MoreItems(t, i, items[0], j, items[1..], k + |ItemsText(items[1..], depth, fmt)|);
      assert items == [items[0]] + items[1..];
    }
  }

  lemma ObjectCut(t: string, i: nat, members: seq<Member>, depth: nat, fmt: bool) returns (j: nat)
    requires Printable(Object(members)) && Here(t, i, Text(Object(members), depth, fmt))
    ensures At(t, i) == '{' && Skip(t, i + 1) == Skip(t, j)
    ensures members == [] ==> var c := Closing(if fmt then depth - 1 else 0);
      Here(t, j, c) && j + |c| == i + |Text(Object(members), depth, fmt)|
    ensures members != [] ==> var c := MembersText(members, depth + 1, fmt);
      Here(t, j, c) && j + |c| == i + |Text(Object(members), depth, fmt)|
  {
    hide Here;
    hide MembersText;
    hide Closing;
    var rest := if members == [] then Closing(if fmt then depth - 1 else 0) else MembersText(members, depth + 1, fmt);
    j := i + |Opening(fmt)|;
    Cut(t, i, Opening(fmt), rest);
  }

  lemma BracesRead(t: string, i: nat, j: nat)
    requires At(t, i) == '{' && Skip(t, i + 1) == j
    ensures At(t, j) == '}' ==> ParseValue(t, i) == Ok(Object([]), j + 1)
    ensures At(t, j) != '}' ==>
      ParseValue(t, i) == var r := ParseMembers(t, j); if r.Fail? then Fail else Ok(Object(r.value), r.end)
  {
    hide ParseMembers;
    OnlyLiterals(t, i);
  }

  lemma {:induction false} ObjectRoundTrip(t: string, i: nat, members: seq<Member>, depth: nat, fmt: bool)
    requires Printable(Object(members)) && Here(t, i, Text(Object(members), depth, fmt))
    ensures ParseValue(t, i) == Ok(Object(members), i + |Text(Object(members), depth, fmt)|)
    decreases members, 4
  {
    hide Text;
    hide MembersText;
    hide Here;
    hide Closing;
    hide ParseMembers;
    hide ParseValue;
    hide Skip;
    var j := ObjectCut(t, i, members, depth, fmt);
    BracesRead(t, i, Skip(t, j));
    if members == [] {
      ClosingSkipped(t, j, if fmt then depth - 1 else 0);
    } else {
      MembersRoundTrip(t, j, members, depth + 1, fmt);
    }
  }

  lemma ClosingSkipped(t: string, j: nat, n: int)
    requires Here(t, j, Closing(n))
    ensures At(t, Skip(t, j)) == '}' && Skip(t, j) + 1 == j + |Closing(n)|
    ensures Ends(At(t, j))
  {
    Cut(t, j, Tabs(n), "}");
    TabsSkipped(t, j, n);
  }

  lemma ColonSkipped(t: string, k: nat, fmt: bool)
    requires Here(t, k, Colon(fmt)) && Begins(At(t, k + |Colon(fmt)|))
    ensures At(t, k) == ':' && Skip(t, k) == k && Skip(t, k + 1) == k + |Colon(fmt)|
  {
    HereFirst(t, k, Colon(fmt));
    if fmt {
      assert t[k + 1] == t[k..k + 2][1];
    }
  }

  lemma MemberIsRead(t: string, i: nat, m: Member, j: nat, k: nat)
    requires ParseString(t, i) == Ok(m.name, j) && At(t, Skip(t, j)) == ':'
    requires ParseValue(t, Skip(t, Skip(t, j) + 1)) == Ok(m.value, k)
    ensures ParseMember(t, i) == Ok(m, k)
  {
    hide ParseValue;
    hide ParseString;
  }

  lemma MemberCut(t: string, i: nat, m: Member, depth: nat, fmt: bool) returns (j: nat, k: nat, l: nat)
    requires NulFree(m.name) && Printable(m.value) && Here(t, i, MemberText(m, depth, fmt))
    ensures j == i + |Tabs(if fmt then depth else 0)| && Here(t, i, Tabs(if fmt then depth else 0))
    ensures k == j + |Quoted(m.name)| && Here(t, j, Quoted(m.name))
    ensures l == k + |Colon(fmt)| && Here(t, k, Colon(fmt))
    ensures Here(t, l, Text(m.value, depth, fmt)) && l + |Text(m.value, depth, fmt)| == i + |MemberText(m, depth, fmt)|
  {
    hide Here;
    hide Text;
    hide Quoted;
    hide Tabs;
    hide Colon;
    var tabs, name := Tabs(if fmt then depth else 0), Quoted(m.name);
    var value := Text(m.value, depth, fmt);
    j, k, l := i + |tabs|, i + |tabs| + |name|, i + |tabs| + |name| + |Colon(fmt)|;
    HereSplit(t, i, tabs, name + (Colon(fmt) + value));
    HereSplit(t, j, name, Colon(fmt) + value);
    HereSplit(t, k, Colon(fmt), value);
  }

  lemma TabsEnd(t: string, i: nat, n: int)
    requires Here(t, i, Tabs(n)) && Ends(At(t, i + |Tabs(n)|))
    ensures Ends(At(t, i))
  {
    HereFirst(t, i, Tabs(n));
  }

  /** One member after any layout, up to the character behind its value. */
  lemma {:induction false} MemberRoundTrip(t: string, i: nat, m: Member, depth: nat, fmt: bool)
    requires NulFree(m.name) && Printable(m.value)
    requires Here(t, i, MemberText(m, depth, fmt)) && Ends(At(t, i + |MemberText(m, depth, fmt)|))
    ensures ParseMember(t, Skip(t, i)) == Ok(m, i + |MemberText(m, depth, fmt)|)
    ensures At(t, Skip(t, i)) == '\"' && Ends(At(t, i))
    decreases m, 2
  {
    hide ParseValue;
    hide ParseString;
    hide ParseMember;
    hide Quoted;
    hide Text;
    hide Here;
    hide Colon;
    hide Skip;
    hide Tabs;
    hide MemberText;
    var j, k, l := MemberCut(t, i, m, depth, fmt);
    TabsSkipped(t, i, if fmt then depth else 0);
    StringRoundTrip(t, j, m.name);
    TabsEnd(t, i, if fmt then depth else 0);
    SkipNothing(t, j);
    TextBegins(m.value, depth, fmt);
    HereFirst(t, l, Text(m.value, depth, fmt));
    ColonSkipped(t, k, fmt);
    ValueRoundTrip(t, l, m.value, depth, fmt);
    MemberIsRead(t, j, m, k, l + |Text(m.value, depth, fmt)|);
  }

  lemma SkipNothing(t: string, i: nat)
    requires At(t, i) > ' '
    ensures Skip(t, i) == i
  {
  }

  lemma MoreMembers(t: string, i: nat, m: Member, j: nat, rest: seq<Member>, end: nat)
    requires ParseMember(t, i) == Ok(m, j) && At(t, Skip(t, j)) == ','
    requires ParseMembers(t, Skip(t, Skip(t, j) + 1)) == Ok(rest, end)
    ensures ParseMembers(t, i) == Ok([m] + rest, end)
  {
    hide ParseMember;
  }

  lemma LastMember(t: string, i: nat, m: Member, j: nat)
    requires ParseMember(t, i) == Ok(m, j) && At(t, Skip(t, j)) == '}'
    ensures ParseMembers(t, i) == Ok([m], Skip(t, j) + 1)
  {
    hide ParseMember;
  }

  lemma SeparatorSkipped(t: string, j: nat, more: bool, fmt: bool)
    requires Here(t, j, Separator(more, fmt)) && Ends(At(t, j + |Separator(more, fmt)|))
    ensures Ends(At(t, j))
    ensures more ==> At(t, j) == ',' && Skip(t, j) == j && Skip(t, j + 1) == Skip(t, j + |Separator(more, fmt)|)
    ensures !more ==> Skip(t, j) == Skip(t, j + |Separator(more, fmt)|)
  {
    HereFirst(t, j, Separator(more, fmt));
    if more && fmt {
      assert t[j + 1] == t[j..j + 2][1];
    }
  }

  lemma MembersCut(t: string, i: nat, members: seq<Member>, depth: nat, fmt: bool) returns (j: nat, k: nat)
    requires members != [] && (forall m :: m in members ==> NulFree(m.name) && Printable(m.value))
    requires Here(t, i, MembersText(members, depth, fmt))
    ensures j == i + |MemberText(members[0], depth, fmt)| && Here(t, i, MemberText(members[0], depth, fmt))
    ensures k == j + |Separator(|members| > 1, fmt)| && Here(t, j, Separator(|members| > 1, fmt))
    ensures |members| == 1 ==> var c := Closing(if fmt then depth - 1 else 0);
      Here(t, k, c) && k + |c| == i + |MembersText(members, depth, fmt)|
    ensures |members| > 1 ==> var c := MembersText(members[1..], depth, fmt);
      Here(t, k, c) && k + |c| == i + |MembersText(members, depth, fmt)|
  {
    hide Here;
    hide MemberText;
    var first, sep := MemberText(members[0], depth, fmt), Separator(|members| > 1, fmt);
    var rest := if |members| == 1 then Closing(if fmt then depth - 1 else 0) else MembersText(members[1..], depth, fmt);
    j, k := i + |first|, i + |first| + |sep|;
    Cut(t, i, first, sep + rest);
    Cut(t, j, sep, rest);
  }

  lemma {:induction false} MembersRoundTrip(t: string, i: nat, members: seq<Member>, depth: nat, fmt: bool)
    requires members != [] && (forall m :: m in members ==> NulFree(m.name) && Printable(m.value))
    requires Here(t, i, MembersText(members, depth, fmt))
    ensures ParseMembers(t, Skip(t, i)) == Ok(members, i + |MembersText(members, depth, fmt)|)
    ensures At(t, Skip(t, i)) == '\"' && Ends(At(t, i))
    decreases members, 3
  {
    hide ParseMember;
    hide ParseMembers;
    hide MemberText;
    hide MembersText;
    hide Closing;
    hide Here;
    hide Separator;
    hide Skip;
    var j, k := MembersCut(t, i, members, depth, fmt);
    if |members| == 1 {
      ClosingSkipped(t, k, if fmt then depth - 1 else 0);
      SeparatorSkipped(t, j, false, fmt);
      MemberRoundTrip(t, i, members[0], depth, fmt);
      LastMember(t, Skip(t, i), members[0], j);
      assert members == [members[0]];
    } else {
      MembersRoundTrip(t, k, members[1..], depth, fmt);
      SeparatorSkipped(t, j, true, fmt);
      MemberRoundTrip(t, i, members[0], depth, fmt);
      MoreMembers(t, Skip(t, i), members[0], j, members[1..], k + |MembersText(members[1..], depth, fmt)|);
      assert members == [members[0]] + members[1..];
    }
  }

  /** Printing then parsing is the identity, formatted or not, and all of the text is consumed. */
  lemma RoundTrip(v: Value, fmt: bool)
    requires Printable(v)
    ensures var t := Text(v, 0, fmt); ParseValue(t, Skip(t, 0)) == Ok(v, |t|)
  {
    var t := Text(v, 0, fmt);
    TextBegins(v, 0, fmt);
    assert t[0..|t|] == t;
    ValueRoundTrip(t, 0, v, 0, fmt);
  }
}
