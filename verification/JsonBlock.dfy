/** The block that a string is unescaped into: its size is counted in one pass, and it is filled in another. */
module JsonBlock {
  import opened JsonText
  import opened JsonSyntax
  import opened JsonRoundTrip
  import opened Sequences

  predicate Stops(c: char) { c == '\"' || c == '\0' }

  /**
   * The first pass of parse_string: every character counts, but not the one behind a backslash; and where the pass
   * stops.
   */
  function Counted(t: string, i: nat): (r: (nat, nat))
    ensures r.1 >= i && Stops(At(t, r.1))
    decreases Left(t, i)
  {
    if Stops(At(t, i)) then (0, i)
    else
      var (n, end) := Counted(t, if At(t, i) == '\\' then i + 2 else i + 1);
      (n + 1, end)
  }

  /** From i to the closing quote at e: no character or escape reaches past it. */
  predicate Uncut(t: string, i: nat, e: nat)
    decreases Left(t, i)
  {
    Stops(At(t, i)) || (Unit(t, i).1 <= e && Uncut(t, Unit(t, i).1, e))
  }

  /** All bytes written, and so their NUL too, fit into the block that was counted. */
  predicate FitsBlock(t: string, i: nat) { |Chars(t, i).0| <= Counted(t, i).0 }

  method CountAt(t: string, i: nat) returns (len: nat)
    ensures len == Counted(t, i).0
  {
    var ptr := i;
    len := 0;
    while !Stops(At(t, ptr))
      invariant i <= ptr && len + Counted(t, ptr).0 == Counted(t, i).0
      decreases Left(t, ptr)
    {
      len := len + 1;
      ptr := if At(t, ptr) == '\\' then ptr + 2 else ptr + 1;
    }
  }

  /**
   * The first pass comes to b, or, over a backslash, to the place behind it, and counts at least every other character.
   */
  lemma {:induction false} Walk(t: string, a: nat, b: nat) returns (over: bool)
    requires a <= b <= Counted(t, a).1
    ensures var to := if over then b + 1 else b;
      Counted(t, a).0 >= (b - a) / 2 + Counted(t, to).0 && Counted(t, a).1 == Counted(t, to).1
    ensures over ==> b > a && At(t, b - 1) == '\\'
    decreases b - a
  {
    if a == b {
      over := false;
    } else if At(t, a) == '\\' && b == a + 1 {
      over := true;
    } else {
      over := Walk(t, if At(t, a) == '\\' then a + 2 else a + 1, b);
    }
  }

  /**
   * What an escape stands for: three bytes only if its digits are all there, and at most four for twelve characters.
   */
  lemma EscapeSize(t: string, i: nat)
    ensures var (x, next) := UnicodeEscape(t, i);
      && (next == i + 5 || next == i + 11) && |x| <= 4 && (next == i + 5 ==> |x| <= 3)
      && (next == i + 5 && x != "" ==> At(t, i + 4) != '\\')
  {
  }

  lemma CharsStep(t: string, i: nat)
    requires !Stops(At(t, i))
    ensures var (x, next) := Unit(t, i);
      |Chars(t, i).0| == |x| + |Chars(t, next).0| && Chars(t, i).1 == Chars(t, next).1 >= next > i
  {
    hide Unit;
  }

  lemma CountedStep(t: string, i: nat)
    ensures Stops(At(t, i)) ==> Counted(t, i) == (0, i)
    ensures !Stops(At(t, i)) ==>
      var next := if At(t, i) == '\\' then i + 2 else i + 1;
      Counted(t, i).0 == 1 + Counted(t, next).0 && Counted(t, i).1 == Counted(t, next).1
  {
  }

  /**
   * What the first pass counts from i on, when it stands at i or, having counted one more already, one character ahead.
   */
  function From(t: string, i: nat, ahead: bool): nat { if ahead then Counted(t, i + 1).0 + 1 else Counted(t, i).0 }

  function End(t: string, i: nat, ahead: bool): nat { Counted(t, if ahead then i + 1 else i).1 }

  /** An escape that reaches past the end of the text has no digits there, and stands for nothing. */
  lemma BehindEnd(t: string, i: nat)
    requires At(t, i) != '\0' && Unit(t, i).1 > |t|
    ensures At(t, i) == '\\' && (At(t, i + 1) == 'u' ==> Unit(t, i).0 == "")
    ensures At(t, i + 1) != 'u' ==> i + 1 >= |t| && |Unit(t, i).0| == 1
  {
    hide Utf8;
  }

  lemma EscapeCounts(t: string, i: nat, ahead: bool) returns (over: bool)
    requires At(t, i) == '\\' && At(t, i + 1) == 'u' && UnicodeEscape(t, i + 1).1 <= End(t, i, ahead)
    ensures var (x, next) := UnicodeEscape(t, i + 1);
      From(t, i, ahead) >= |x| + From(t, next, over) && End(t, i, ahead) == End(t, next, over)
  {
    CountedStep(t, i);
    hide Counted;
    EscapeSize(t, i + 1);
    hide UnicodeEscape;
    var (x, next) := UnicodeEscape(t, i + 1);
    over := Walk(t, if ahead then i + 1 else i + 2, next);
    assert (next - (if ahead then i + 1 else i + 2)) / 2 >= if next == i + 6 then 2 else 5;
  }

  lemma PlainCounts(t: string, i: nat, ahead: bool) returns (over: bool)
    requires !Stops(At(t, i)) && !(At(t, i) == '\\' && At(t, i + 1) == 'u') && Unit(t, i).1 <= End(t, i, ahead)
    ensures var (x, next) := Unit(t, i);
      From(t, i, ahead) >= |x| + From(t, next, over) && End(t, i, ahead) == End(t, next, over)
  {
    CountedStep(t, i);
    CountedStep(t, i + 1);
    hide Counted;
    var (x, next) := Unit(t, i);
    assert |x| == 1 && next == if At(t, i) == '\\' then i + 2 else i + 1;
    over := ahead && At(t, i) == '\\' && At(t, i + 1) == '\\';
  }

  /** The bytes written from i on are no more than the first pass counts. */
  lemma {:induction false} WrittenFits(t: string, i: nat, ahead: bool)
    requires Chars(t, i).1 <= End(t, i, ahead)
    ensures |Chars(t, i).0| <= From(t, i, ahead)
    decreases Left(t, i)
  {
    if !Stops(At(t, i)) {
      CharsStep(t, i);
      hide Chars;
      hide Counted;
      hide From;
      hide End;
      var over;
      if At(t, i) == '\\' && At(t, i + 1) == 'u' {
        assert Unit(t, i) == UnicodeEscape(t, i + 1);
        over := EscapeCounts(t, i, ahead);
      } else {
        over := PlainCounts(t, i, ahead);
      }
      WrittenFits(t, Unit(t, i).1, over);
    }
  }

  /** Then, and only then, the second pass does not come to stand behind that quote. */
  lemma {:induction false} UncutEnds(t: string, i: nat, e: nat)
    requires i <= e
    ensures Uncut(t, i, e) <==> Chars(t, i).1 <= e
    decreases Left(t, i)
  {
    if !Stops(At(t, i)) {
      CharsStep(t, i);
      hide Chars;
      hide Unit;
      var next := Unit(t, i).1;
      if next <= e {
        UncutEnds(t, next, e);
      }
    }
  }

  /** As long as no escape reaches past the closing quote, all bytes and the NUL fit into the block. */
  lemma StaysInBlock(t: string, i: nat)
    requires Uncut(t, i, Counted(t, i).1)
    ensures FitsBlock(t, i)
  {
    UncutEnds(t, i, Counted(t, i).1);
    WrittenFits(t, i, false);
  }

  // ------------------------------------------------------------------ exactly when, whatever follows the literal

  /** Two texts that are the same up to the character at e. */
  predicate Agree(t: string, u: string, e: nat) { e < |t| && e < |u| && t[..e + 1] == u[..e + 1] }

  lemma AgreeAt(t: string, u: string, e: nat, j: nat)
    requires Agree(t, u, e) && j <= e
    ensures At(t, j) == At(u, j)
  {
    assert t[..e + 1][j] == u[..e + 1][j];
  }

  /** The first pass does not look behind the quote it ends at. */
  lemma {:induction false} CountedSame(t: string, u: string, i: nat, e: nat)
    requires Agree(t, u, e) && Counted(t, i).1 == e
    ensures Counted(u, i) == Counted(t, i)
    decreases Left(t, i)
  {
    AgreeAt(t, u, e, i);
    CountedStep(t, i);
    CountedStep(u, i);
    if !Stops(At(t, i)) {
      var next := if At(t, i) == '\\' then i + 2 else i + 1;
      hide Counted;
      CountedSame(t, u, next, e);
    }
  }

  /** Nor does the second, as long as it stays in front of it. */
  lemma UnitSame(t: string, u: string, i: nat, e: nat)
    requires Agree(t, u, e) && At(t, e) == '\"' && Unit(t, i).1 <= e
    ensures Unit(u, i) == Unit(t, i)
  {
    AllAgree(t, u, e);
    hide Agree;
    hide At;
    hide UnicodeEscape;
    assert At(u, i) == At(t, i);
    if At(t, i) == '\\' {
      if At(t, i + 1) == 'u' {
        EscapeSame(t, u, i + 1, e);
      }
      assert At(u, i + 1) == At(t, i + 1);
    }
  }

  lemma EscapeSame(t: string, u: string, i: nat, e: nat)
    requires (forall j :: 0 <= j <= e ==> At(t, j) == At(u, j)) && At(t, e) == '\"' && UnicodeEscape(t, i).1 <= e
    ensures UnicodeEscape(u, i) == UnicodeEscape(t, i) && i + 5 <= e
  {
    hide At;
    hide Hex4;
    hide Utf8;
    EscapeSize(t, i);
    HexSame(t, u, i + 1, e);
    HexSame(t, u, i + 7, e);
    assert At(u, i + 5) == At(t, i + 5);
    assert i + 5 < e ==> At(u, i + 6) == At(t, i + 6);
  }

  lemma AllAgree(t: string, u: string, e: nat)
    requires Agree(t, u, e)
    ensures forall j :: 0 <= j <= e ==> At(t, j) == At(u, j)
  {
    forall j | 0 <= j <= e ensures At(t, j) == At(u, j) {
      AgreeAt(t, u, e, j);
    }
  }

  lemma HexSame(t: string, u: string, i: nat, e: nat)
    requires forall j :: 0 <= j <= e ==> At(t, j) == At(u, j)
    ensures i + 3 <= e ==> Hex4(t, i) == Hex4(u, i)
  {
    hide HexValue;
  }

  lemma {:induction false} UncutSame(t: string, u: string, i: nat, e: nat)
    requires Agree(t, u, e) && At(t, e) == '\"' && i <= e && Uncut(t, i, e)
    ensures Uncut(u, i, e)
    decreases Left(t, i)
  {
    AgreeAt(t, u, e, i);
    if !Stops(At(t, i)) {
      UnitSame(t, u, i, e);
      hide Unit;
      UncutSame(t, u, Unit(t, i).1, e);
    }
  }

  lemma {:induction false} PlainWritten(u: string, i: nat)
    requires i <= |u| && forall j :: i <= j < |u| ==> u[j] == 'x'
    ensures |Chars(u, i).0| == |u| - i
    decreases |u| - i
  {
    if i < |u| {
      CharsStep(u, i);
      hide Chars;
      PlainWritten(u, i + 1);
    }
  }

  /**
   * Past the quote by an escape, at most eleven characters behind it, the second pass writes all plain characters that
   * follow.
   */
  lemma {:induction false} CutWrites(u: string, i: nat, e: nat)
    requires i <= e && At(u, e) == '\"' && e + 12 <= |u| && !Uncut(u, i, e) && forall j :: e < j < |u| ==> u[j] == 'x'
    ensures |Chars(u, i).0| >= |u| - e - 12
    decreases Left(u, i)
  {
    CharsStep(u, i);
    UnitReach(u, i);
    hide Chars;
    hide Unit;
    var next := Unit(u, i).1;
    if next <= e {
      CutWrites(u, next, e);
    } else {
      PlainWritten(u, next);
    }
  }

  lemma UnitReach(t: string, i: nat)
    ensures Unit(t, i).1 <= i + 12
  {
  }

  /** A literal with an escape that reaches past its quote, continued so that too many bytes are written. */
  lemma CutOverflows(t: string, i: nat, e: nat) returns (u: string)
    requires e < |t| && t[e] == '\"' && Counted(t, i).1 == e && !Uncut(t, i, e)
    ensures Agree(t, u, e) && !FitsBlock(u, i)
  {
    hide Chars;
    hide Unit;
    var more := Counted(t, i).0 + 13;
    u := t[..e + 1] + seq(more, j => 'x');
    assert u[..e + 1] == t[..e + 1];
    CountedSame(t, u, i, e);
    AgreeAt(t, u, e, e);
    if Uncut(u, i, e) {
      UncutSame(u, t, i, e);
    }
    hide Uncut;
    CutWrites(u, i, e);
  }

  /**
   * The bytes of a literal fit its block whatever follows the closing quote, if and only if no escape reaches past that
   * quote.
   */
  lemma UncutExactly(t: string, i: nat)
    requires var e := Counted(t, i).1; e < |t| && t[e] == '\"'
    ensures var e := Counted(t, i).1; Uncut(t, i, e) <==> forall u :: Agree(t, u, e) ==> FitsBlock(u, i)
  {
    var e := Counted(t, i).1;
    if Uncut(t, i, e) {
      forall u | Agree(t, u, e) ensures FitsBlock(u, i) {
        CountedSame(t, u, i, e);
        UncutSame(t, u, i, e);
        StaysInBlock(u, i);
      }
    } else {
      var u := CutOverflows(t, i, e);
    }
  }

  /** Behind the end of the text nothing is written. */
  lemma {:induction false} WrittenAtEnd(t: string, i: nat, ahead: bool)
    requires End(t, i, ahead) >= |t|
    ensures |Chars(t, i).0| <= From(t, i, ahead)
    decreases Left(t, i)
  {
    if !Stops(At(t, i)) {
      CharsStep(t, i);
      var (x, next) := Unit(t, i);
      if next > End(t, i, ahead) {
        BehindEnd(t, i);
        assert Chars(t, next).0 == "";
      } else {
        hide Chars;
        hide Counted;
        hide From;
        hide End;
        var over;
        if At(t, i) == '\\' && At(t, i + 1) == 'u' {
          assert Unit(t, i) == UnicodeEscape(t, i + 1);
          over := EscapeCounts(t, i, ahead);
        } else {
          over := PlainCounts(t, i, ahead);
        }
        WrittenAtEnd(t, next, over);
      }
    }
  }

  /** A literal without a closing quote always fits. */
  lemma OpenFits(t: string, i: nat)
    requires Counted(t, i).1 >= |t|
    ensures FitsBlock(t, i)
  {
    WrittenAtEnd(t, i, false);
  }

  // ------------------------------------------------------------------ the block

  /** parse_string with its block, for all texts whose bytes and NUL stay inside it. */
  method StringInBlock(t: string, i: nat) returns (block: array<char>, n: nat, end: nat)
    requires At(t, i) == '\"' && FitsBlock(t, i + 1)
    ensures fresh(block) && n < block.Length == Counted(t, i + 1).0 + 1 && block[n] == '\0'
    ensures ParseString(t, i) == Ok(block[..n], end)
  {
    hide Unit;
    var len := CountAt(t, i + 1);
    block := new char[len + 1];
    ghost var all := Chars(t, i + 1).0;
    var ptr := i + 1;
    n := 0;
    assert [] + all == all;
    while !Stops(At(t, ptr))
      invariant i < ptr && n <= |all| < block.Length && Chars(t, i + 1).1 == Chars(t, ptr).1
      invariant block[..n] + Chars(t, ptr).0 == all
      decreases Left(t, ptr)
    {
      var (unit, next) := Unit(t, ptr);
      ghost var done, rest := block[..n], Chars(t, next).0;
      assert done + (unit + rest) == all;
      Store(block, n, unit);
      n := n + |unit|;
      assert block[..n] == done + unit;
      ptr := next;
    }
    assert block[..n] + [] == block[..n];
    block[n] := '\0';
    end := if At(t, ptr) == '\"' then ptr + 1 else ptr;
  }

  /**
   * An escape cut off by the closing quote: the second pass goes on behind the quote, and writes more than was counted,
   * or no more, as it finds what follows.
   */
  lemma CutEscape()
    ensures var t := "\"\\u1\"abcdef\""; !Uncut(t, 1, 4) && Counted(t, 1).1 == 4 && !FitsBlock(t, 1)
    ensures var t := "\"\\u1\"abc"; !Uncut(t, 1, 4) && Counted(t, 1).1 == 4 && FitsBlock(t, 1)
  {
    var t := "\"\\u1\"abcdef\"";
    assert t[1] == '\\' && t[2] == 'u' && t[3] == '1' && t[4] == '\"' && t[11] == '\"';
    assert t[7] == 'c' && t[8] == 'd' && t[9] == 'e' && t[10] == 'f';
    CountedStep(t, 1);
    CountedStep(t, 3);
    CountedStep(t, 4);
    assert Unit(t, 1) == ("", 7);
    CharsStep(t, 1);
    CharsStep(t, 7);
    CharsStep(t, 8);
    CharsStep(t, 9);
    CutHarmless();
  }

  lemma CutHarmless()
    ensures var t := "\"\\u1\"abc"; !Uncut(t, 1, 4) && Counted(t, 1).1 == 4 && FitsBlock(t, 1)
  {
    var t := "\"\\u1\"abc";
    assert t[1] == '\\' && t[2] == 'u' && t[3] == '1' && t[4] == '\"' && t[7] == 'c' && |t| == 8;
    CountedStep(t, 1);
    CountedStep(t, 3);
    CountedStep(t, 4);
    assert Unit(t, 1) == ("", 7);
    CharsStep(t, 1);
    CharsStep(t, 7);
    assert Chars(t, 8).0 == "";
  }

  // ------------------------------------------------------------------ texts whose escapes are whole

  /** Four hexadecimal digits. */
  predicate Digits4(t: string, i: nat) {
    HexValue(At(t, i)) >= 0 && HexValue(At(t, i + 1)) >= 0 && HexValue(At(t, i + 2)) >= 0 && HexValue(At(t, i + 3)) >= 0
  }

  /** Every escape with a number has its four digits, the second half of a pair included. */
  predicate WholeEscapes(t: string, i: nat)
    decreases Left(t, i)
  {
    Stops(At(t, i)) ||
    (var next := Unit(t, i).1;
     && (At(t, i) == '\\' && At(t, i + 1) == 'u' ==> Digits4(t, i + 2) && (next == i + 12 ==> Digits4(t, i + 8)))
     && WholeEscapes(t, next))
  }

  lemma FourCounted(t: string, i: nat)
    requires Digits4(t, i)
    ensures Counted(t, i).1 == Counted(t, i + 4).1
  {
    CountedStep(t, i);
    CountedStep(t, i + 1);
    CountedStep(t, i + 2);
    CountedStep(t, i + 3);
    hide Counted;
  }

  /** In such a text both passes end at the same quote. */
  lemma {:induction false} WholeContained(t: string, i: nat)
    requires WholeEscapes(t, i)
    ensures Chars(t, i).1 == Counted(t, i).1
    decreases Left(t, i)
  {
    if !Stops(At(t, i)) {
      hide Chars;
      hide Counted;
      hide Unit;
      hide At;
      hide Digits4;
      CharsStep(t, i);
      CountedStep(t, i);
      NextAt(t, i);
      var next := Unit(t, i).1;
      WholeContained(t, next);
      if At(t, i) == '\\' && At(t, i + 1) == 'u' {
        FourCounted(t, i + 2);
        if next != i + 6 {
          CountedStep(t, i + 6);
          FourCounted(t, i + 8);
        }
      }
    }
  }

  lemma NextAt(t: string, i: nat)
    ensures var next := Unit(t, i).1;
      if At(t, i) == '\\' && At(t, i + 1) == 'u' then next == i + 6 || (next == i + 12 && At(t, i + 6) == '\\')
      else next == if At(t, i) == '\\' then i + 2 else i + 1
  {
  }

  /** So no escape of it reaches past its quote. */
  lemma WholeUncut(t: string, i: nat)
    requires WholeEscapes(t, i)
    ensures Uncut(t, i, Counted(t, i).1) && FitsBlock(t, i)
  {
    WholeContained(t, i);
    UncutEnds(t, i, Counted(t, i).1);
    StaysInBlock(t, i);
  }

  /** What the printer writes is such a text. */
  lemma {:induction false} PrintedWhole(t: string, i: nat, s: string)
    requires NulFree(s) && Here(t, i, Tail(s))
    ensures WholeEscapes(t, i)
    decreases |s|
  {
    hide Here;
    hide Unit;
    hide Escape;
    hide At;
    hide Digits4;
    if s == "" {
      NoChars(t, i);
    } else {
      HereSplit(t, i, Escape(s[0]), Tail(s[1..]));
      TailLength(s);
      hide Tail;
      EscapeIsRead(t, i, s[0]);
      PrintedWhole(t, i + |Escape(s[0])|, s[1..]);
      EscapeWhole(t, i, s[0]);
    }
  }

  lemma EscapeWhole(t: string, i: nat, c: char)
    requires Here(t, i, Escape(c)) && c != '\0'
    ensures At(t, i) == '\\' && At(t, i + 1) == 'u' ==> Digits4(t, i + 2) && |Escape(c)| == 6
  {
    HereAt(t, i, Escape(c));
  }
}
