/** Which texts are arrays and objects: values or members separated by single commas, up to a closing bracket. */
module JsonLists {
  import opened JsonText
  import opened JsonSyntax

  /** White space ends at the first character that is none. */
  lemma {:induction false} SkipExactly(t: string, i: nat, j: nat)
    ensures Skip(t, i) == j <==>
      (i <= j && (At(t, j) == '\0' || At(t, j) > ' ')
       && forall k :: i <= k < j ==> At(t, k) != '\0' && At(t, k) <= ' ')
    decreases Left(t, i)
  {
    if At(t, i) != '\0' && At(t, i) <= ' ' {
      SkipExactly(t, i + 1, j);
    }
  }

  /** A value or member, and where it begins and ends. */
  datatype Piece<T> = Piece(start: nat, value: T, end: nat)

  function ValuesOf<T>(ps: seq<Piece<T>>): (vs: seq<T>)
    ensures |vs| == |ps|
  {
    if ps == [] then [] else [ps[0].value] + ValuesOf(ps[1..])
  }

  /** One comma, in any white space, leads from the end of one piece to the start of the next. */
  predicate Leads(t: string, from: nat, to: nat) { At(t, Skip(t, from)) == ',' && to == Skip(t, Skip(t, from) + 1) }

  /** Pieces from i on with a comma between any two of them, and the closing bracket in front of `end`. */
  predicate Separated<T>(t: string, i: nat, ps: seq<Piece<T>>, close: char, end: nat) {
    && ps != [] && ps[0].start == i
    && (forall k :: 1 <= k < |ps| ==> Leads(t, ps[k - 1].end, ps[k].start))
    && At(t, Skip(t, ps[|ps| - 1].end)) == close && end == Skip(t, ps[|ps| - 1].end) + 1
  }

  predicate AllValues(t: string, ps: seq<Piece<Value>>) {
    forall k :: 0 <= k < |ps| ==> ParseValue(t, ps[k].start) == Ok(ps[k].value, ps[k].end)
  }

  predicate AllMembers(t: string, ps: seq<Piece<Member>>) {
    forall k :: 0 <= k < |ps| ==> ParseMember(t, ps[k].start) == Ok(ps[k].value, ps[k].end)
  }

  lemma OneSeparated<T>(t: string, p: Piece<T>, close: char, end: nat)
    ensures Separated(t, p.start, [p], close, end) <==> At(t, Skip(t, p.end)) == close && end == Skip(t, p.end) + 1
    ensures ValuesOf([p]) == [p.value]
  {
    assert [p][1..] == [];
  }

  /** One piece more in front. */
  lemma MoreSeparated<T>(t: string, p: Piece<T>, ps: seq<Piece<T>>, close: char, end: nat)
    requires ps != []
    ensures Separated(t, p.start, [p] + ps, close, end)
      <==> Leads(t, p.end, ps[0].start) && Separated(t, ps[0].start, ps, close, end)
    ensures ValuesOf([p] + ps) == [p.value] + ValuesOf(ps)
  {
    hide Leads;
    hide Skip;
    hide At;
    var all := [p] + ps;
    assert all[1..] == ps && all[|all| - 1] == ps[|ps| - 1];
    if Separated(t, p.start, all, close, end) {
      assert Leads(t, all[0].end, all[1].start);
      forall k | 1 <= k < |ps| ensures Leads(t, ps[k - 1].end, ps[k].start) {
        assert Leads(t, all[k].end, all[k + 1].start);
      }
    }
    if Leads(t, p.end, ps[0].start) && Separated(t, ps[0].start, ps, close, end) {
      forall k | 1 <= k < |all| ensures Leads(t, all[k - 1].end, all[k].start) {
        assert k > 1 ==> Leads(t, ps[k - 2].end, ps[k - 1].start);
      }
    }
  }

  // ------------------------------------------------------------------ arrays

  lemma {:induction false} ItemsFound(t: string, i: nat, items: seq<Value>, end: nat) returns (ps: seq<Piece<Value>>)
    requires ParseItems(t, i) == Ok(items, end)
    ensures Separated(t, i, ps, ']', end) && AllValues(t, ps) && ValuesOf(ps) == items
    decreases Left(t, i)
  {
    hide ParseValue;
    hide Skip;
    hide Separated;
    var first := ParseValue(t, i);
    var p := Piece(i, first.value, first.end);
    var j := Skip(t, first.end);
    if At(t, j) == ',' {
      var rest := ItemsFound(t, Skip(t, j + 1), items[1..], end);
      ItemsStart(t, Skip(t, j + 1), rest, end);
      MoreSeparated(t, p, rest, ']', end);
      ps := [p] + rest;
      assert items == [first.value] + items[1..];
    } else {
      OneSeparated(t, p, ']', end);
      ps := [p];
    }
  }

  lemma ItemsStart<T>(t: string, i: nat, ps: seq<Piece<T>>, end: nat)
    ensures forall c :: Separated(t, i, ps, c, end) ==> ps != [] && ps[0].start == i
  {
  }

  lemma {:induction false} ItemsRead(t: string, i: nat, ps: seq<Piece<Value>>, end: nat)
    requires Separated(t, i, ps, ']', end) && AllValues(t, ps)
    ensures ParseItems(t, i) == Ok(ValuesOf(ps), end)
    decreases |ps|
  {
    hide ParseValue;
    hide Skip;
    ItemsStart(t, i, ps, end);
    assert ps == [ps[0]] + ps[1..];
    if |ps| > 1 {
      MoreSeparated(t, ps[0], ps[1..], ']', end);
      hide Separated;
      ItemsRead(t, ps[1].start, ps[1..], end);
    } else {
      OneSeparated(t, ps[0], ']', end);
    }
  }

  /** The text from i on is read as these items if and only if it is such a list of them. */
  lemma ItemsExactly(t: string, i: nat, items: seq<Value>, end: nat)
    ensures ParseItems(t, i) == Ok(items, end)
      <==> exists ps :: Separated(t, i, ps, ']', end) && AllValues(t, ps) && ValuesOf(ps) == items
  {
    hide ParseItems;
    hide Separated;
    hide AllValues;
    hide ValuesOf;
    if ParseItems(t, i) == Ok(items, end) {
      var ps := ItemsFound(t, i, items, end);
    }
    if ps :| Separated(t, i, ps, ']', end) && AllValues(t, ps) && ValuesOf(ps) == items {
      ItemsRead(t, i, ps, end);
    }
  }

  // ------------------------------------------------------------------ objects

  /** A member is a name, a colon and a value, in any white space. */
  lemma MemberExactly(t: string, i: nat, m: Member, end: nat)
    ensures ParseMember(t, i) == Ok(m, end) <==>
      (var name := ParseString(t, i);
       && name.Ok? && name.value == m.name && At(t, Skip(t, name.end)) == ':'
       && ParseValue(t, Skip(t, Skip(t, name.end) + 1)) == Ok(m.value, end))
  {
    hide ParseValue;
    hide ParseString;
    hide Skip;
  }

  lemma {:induction false} MembersFound(t: string, i: nat, members: seq<Member>, end: nat)
    returns (ps: seq<Piece<Member>>)
    requires ParseMembers(t, i) == Ok(members, end)
    ensures Separated(t, i, ps, '}', end) && AllMembers(t, ps) && ValuesOf(ps) == members
    decreases Left(t, i)
  {
    hide ParseMember;
    hide Skip;
    hide Separated;
    var first := ParseMember(t, i);
    var p := Piece(i, first.value, first.end);
    var j := Skip(t, first.end);
    if At(t, j) == ',' {
      var rest := MembersFound(t, Skip(t, j + 1), members[1..], end);
      ItemsStart(t, Skip(t, j + 1), rest, end);
      MoreSeparated(t, p, rest, '}', end);
      ps := [p] + rest;
      assert members == [first.value] + members[1..];
    } else {
      OneSeparated(t, p, '}', end);
      ps := [p];
    }
  }

  lemma {:induction false} MembersRead(t: string, i: nat, ps: seq<Piece<Member>>, end: nat)
    requires Separated(t, i, ps, '}', end) && AllMembers(t, ps)
    ensures ParseMembers(t, i) == Ok(ValuesOf(ps), end)
    decreases |ps|
  {
    hide ParseMember;
    hide Skip;
    ItemsStart(t, i, ps, end);
    assert ps == [ps[0]] + ps[1..];
    if |ps| > 1 {
      MoreSeparated(t, ps[0], ps[1..], '}', end);
      hide Separated;
      MembersRead(t, ps[1].start, ps[1..], end);
    } else {
      OneSeparated(t, ps[0], '}', end);
    }
  }

  /** The text from i on is read as these members if and only if it is such a list of them. */
  lemma MembersExactly(t: string, i: nat, members: seq<Member>, end: nat)
    ensures ParseMembers(t, i) == Ok(members, end)
      <==> exists ps :: Separated(t, i, ps, '}', end) && AllMembers(t, ps) && ValuesOf(ps) == members
  {
    hide ParseMembers;
    hide Separated;
    hide AllMembers;
    hide ValuesOf;
    if ParseMembers(t, i) == Ok(members, end) {
      var ps := MembersFound(t, i, members, end);
    }
    if ps :| Separated(t, i, ps, '}', end) && AllMembers(t, ps) && ValuesOf(ps) == members {
      MembersRead(t, i, ps, end);
    }
  }

  // ------------------------------------------------------------------ values

  /** What a value is read as goes by its first character, and brackets hold nothing or such a list. */
  lemma ValueExactly(t: string, i: nat, v: Value, end: nat)
    requires !v.Number?
    ensures ParseValue(t, i) == Ok(v, end) <==>
      (match v
       case Null => Here(t, i, "null") && end == i + 4
       case False => Here(t, i, "false") && end == i + 5
       case True => Here(t, i, "true") && end == i + 4
       case String(s) => ParseString(t, i) == Ok(s, end)
       case Array(items) =>
         var j := Skip(t, i + 1);
         At(t, i) == '['
         && if At(t, j) == ']' then items == [] && end == j + 1 else ParseItems(t, j) == Ok(items, end)
       case Object(members) =>
         var j := Skip(t, i + 1);
         At(t, i) == '{'
         && if At(t, j) == '}' then members == [] && end == j + 1 else ParseMembers(t, j) == Ok(members, end)
       case _ => false)
  {
    FirstOf(t, i, "null", 'n');
    FirstOf(t, i, "false", 'f');
    FirstOf(t, i, "true", 't');
    hide ParseItems;
    hide ParseMembers;
    hide Skip;
    hide At;
    hide Here;
    hide ParseNumber;
    assert ParseString(t, i).Ok? ==> At(t, i) == '\"';
    hide ParseString;
  }

  lemma FirstOf(t: string, i: nat, w: string, c: char)
    requires w != "" && w[0] == c
    ensures Here(t, i, w) ==> At(t, i) == c
  {
    if Here(t, i, w) {
      assert t[i..i + |w|][0] == t[i];
    }
  }
}
