/** The parser's loops.  Each returns what JsonSyntax says the text means. */
module JsonParser {
  import opened JsonText
  import opened JsonSyntax

  method SkipSpace(t: string, i: nat) returns (j: nat)
    ensures j == Skip(t, i)
  {
    j := i;
    while At(t, j) != '\0' && At(t, j) <= ' '
      invariant i <= j && Skip(t, i) == Skip(t, j)
      decreases Left(t, j)
    {
      j := j + 1;
    }
  }

  method DigitLoop(t: string, i: nat, start: nat) returns (n: nat, j: nat)
    ensures (n, j) == ReadDigits(t, i, start)
  {
    n, j := start, i;
    while IsDigit(At(t, j))
      invariant i <= j && ReadDigits(t, i, start) == ReadDigits(t, j, n)
      decreases Left(t, j)
    {
      n := n * 10 + DigitValue(At(t, j));
      j := j + 1;
    }
  }

  method NumberAt(t: string, i: nat) returns (value: Value, num: nat)
    ensures ParseNumber(t, i) == Ok(value, num)
  {
    hide ReadDigits;
    hide Scaled;
    var n, neg, scale, subscale, negscale := 0, false, 0, 0, false;
    num := i;
    if At(t, num) == '-' {
      neg := true;
      num := num + 1;
    }
    if At(t, num) == '0' {
      num := num + 1;
    }
    if '1' <= At(t, num) <= '9' {
      n, num := DigitLoop(t, num, n);
    }
    if At(t, num) == '.' && IsDigit(At(t, num + 1)) {
      var point := num;
      n, num := DigitLoop(t, num + 1, n);
      scale := -(num - point - 1);
    }
    if At(t, num) == 'e' || At(t, num) == 'E' {
      num := num + 1;
      if At(t, num) == '+' {
        num := num + 1;
      } else if At(t, num) == '-' {
        negscale := true;
        num := num + 1;
      }
      subscale, num := DigitLoop(t, num, subscale);
    }
    value := Number(Scaled(neg, n, scale + if negscale then -subscale else subscale));
  }

  method StringAt(t: string, i: nat) returns (r: Parsed<string>)
    ensures r == ParseString(t, i)
  {
    if At(t, i) != '\"' {
      return Fail;
    }
    var ptr, out := i + 1, "";
    assert "" + Chars(t, ptr).0 == Chars(t, ptr).0;
    while At(t, ptr) != '\"' && At(t, ptr) != '\0'
      invariant i < ptr
      invariant Chars(t, i + 1) == (out + Chars(t, ptr).0, Chars(t, ptr).1)
      decreases Left(t, ptr)
    {
      ghost var was, rest := out, Chars(t, ptr).0;
      var (unit, next) := Unit(t, ptr);
      out := out + unit;
      assert was + rest == out + Chars(t, next).0;
      ptr := next;
    }
    assert out + "" == out;
    if At(t, ptr) == '\"' {
      ptr := ptr + 1;
    }
    return Ok(out, ptr);
  }

  method ValueAt(t: string, i: nat) returns (r: Parsed<Value>)
    ensures r == ParseValue(t, i)
    decreases Left(t, i), 2
  {
    if Here(t, i, "null") {
      return Ok(Null, i + 4);
    }
    if Here(t, i, "false") {
      return Ok(False, i + 5);
    }
    if Here(t, i, "true") {
      return Ok(True, i + 4);
    }
    if At(t, i) == '\"' {
      var s := StringAt(t, i);
      return if s.Fail? then Fail else Ok(String(s.value), s.end);
    }
    if At(t, i) == '-' || IsDigit(At(t, i)) {
      var n, end := NumberAt(t, i);
      return Ok(n, end);
    }
    if At(t, i) == '[' {
      var items := ArrayAt(t, i);
      return if items.Fail? then Fail else Ok(Array(items.value), items.end);
    }
    if At(t, i) == '{' {
      var members := ObjectAt(t, i);
      return if members.Fail? then Fail else Ok(Object(members.value), members.end);
    }
    return Fail;
  }

  /** Puts what was read before in front of what is still read. */
  function Prepend<T>(done: seq<T>, rest: Parsed<seq<T>>): Parsed<seq<T>> {
    if rest.Fail? then Fail else Ok(done + rest.value, rest.end)
  }

  lemma PrependNothing<T>(rest: Parsed<seq<T>>)
    ensures Prepend([], rest) == rest
  {
    if rest.Ok? {
      assert [] + rest.value == rest.value;
    }
  }

  lemma PrependOne<T>(done: seq<T>, x: T, rest: Parsed<seq<T>>)
    ensures Prepend(done, Prepend([x], rest)) == Prepend(done + [x], rest)
  {
    if rest.Ok? {
      assert done + ([x] + rest.value) == done + [x] + rest.value;
    }
  }

  method ArrayAt(t: string, i: nat) returns (r: Parsed<seq<Value>>)
    requires At(t, i) == '['
    ensures r == ParseArray(t, i)
    decreases Left(t, i), 1
  {
    hide ParseValue;
    var value := SkipSpace(t, i + 1);
    if At(t, value) == ']' {
      return Ok([], value + 1);
    }
    ghost var start := value;
    var items: seq<Value> := [];
    PrependNothing(ParseItems(t, value));
    while true
      invariant i < value
      invariant ParseItems(t, start) == Prepend(items, ParseItems(t, value))
      decreases Left(t, value)
    {
      var item := ValueAt(t, value);
      if item.Fail? {
        return Fail;
      }
      var next := SkipSpace(t, item.end);
      if At(t, next) == ',' {
        next := SkipSpace(t, next + 1);
        PrependOne(items, item.value, ParseItems(t, next));
        items := items + [item.value];
        value := next;
      } else if At(t, next) == ']' {
        return Ok(items + [item.value], next + 1);
      } else {
        return Fail;
      }
    }
  }

  method MemberAt(t: string, i: nat) returns (r: Parsed<Member>)
    ensures r == ParseMember(t, i)
    decreases Left(t, i), 3
  {
    hide ParseValue;
    hide ParseString;
    var name := StringAt(t, i);
    if name.Fail? {
      return Fail;
    }
    var value := SkipSpace(t, name.end);
    if At(t, value) != ':' {
      return Fail;
    }
    value := SkipSpace(t, value + 1);
    var v := ValueAt(t, value);
    return if v.Fail? then Fail else Ok(Member(name.value, v.value), v.end);
  }

  method ObjectAt(t: string, i: nat) returns (r: Parsed<seq<Member>>)
    requires At(t, i) == '{'
    ensures r == ParseObject(t, i)
    decreases Left(t, i), 1
  {
    hide ParseMember;
    var value := SkipSpace(t, i + 1);
    if At(t, value) == '}' {
      return Ok([], value + 1);
    }
    ghost var start := value;
    var members: seq<Member> := [];
    PrependNothing(ParseMembers(t, value));
    while true
      invariant i < value
      invariant ParseMembers(t, start) == Prepend(members, ParseMembers(t, value))
      decreases Left(t, value)
    {
      var member := MemberAt(t, value);
      if member.Fail? {
        return Fail;
      }
      var next := SkipSpace(t, member.end);
      if At(t, next) == ',' {
        next := SkipSpace(t, next + 1);
        PrependOne(members, member.value, ParseMembers(t, next));
        members := members + [member.value];
        value := next;
      } else if At(t, next) == '}' {
        return Ok(members + [member.value], next + 1);
      } else {
        return Fail;
      }
    }
  }

  /** cJSON_ParseWithOpts with a required terminator: only white space may follow the value. */
  method Parse(t: string) returns (r: Parsed<Value>)
    ensures r == var p := ParseValue(t, Skip(t, 0)); if p.Ok? && At(t, Skip(t, p.end)) == '\0' then p else Fail
  {
    hide ParseValue;
    var start := SkipSpace(t, 0);
    r := ValueAt(t, start);
    if r.Ok? {
      var end := SkipSpace(t, r.end);
      if At(t, end) != '\0' {
        r := Fail;
      }
    }
  }
}
