/** UTF-16 or UTF-32 code units to UTF-8 and back, and cutting off an unfinished character. */
module Utf16 {
  import opened Octets
  import opened Options
  import opened Words
  import opened Sequences
  import opened Utf8

  predicate High(c: Word) { 0xD800 <= c < 0xDC00 }

  predicate Low(c: Word) { 0xDC00 <= c < 0xE000 }

  function SurrogateValue(h: Word, l: Word): Word
    requires High(h) && Low(l)
  {
    (h - 0xD800) * 0x400 + (l - 0xDC00) + 0x1_0000
  }

  /** The characters of the units from i on, up to the end or a NUL; `high` is a pending high surrogate, or 0. */
  function Points(s: seq<Word>, i: nat, high: Word): Option<seq<Word>>
    requires i <= |s| && (high == 0 || High(high))
    decreases |s| - i
  {
    if i == |s| || s[i] == 0 then (if high == 0 then Some([]) else None)
    else if Low(s[i]) then
      if high != 0 then Before([SurrogateValue(high, s[i])], Points(s, i + 1, 0)) else None
    else if high != 0 then None
    else if High(s[i]) then Points(s, i + 1, s[i])
    else Before([s[i]], Points(s, i + 1, 0))
  }

  function Encode(cs: seq<Word>): seq<Byte> {
    if cs == [] then [] else Bytes(cs[0]) + Encode(cs[1..])
  }

  lemma {:induction false} EncodeBoth(a: seq<Word>, b: seq<Word>)
    ensures Encode(a + b) == Encode(a) + Encode(b)
  {
    if a == [] {
      assert a + b == b;
    } else {
      assert (a + b)[1..] == a[1..] + b;
      EncodeBoth(a[1..], b);
    }
  }

  lemma EncodeMore(a: seq<Word>, c: Word)
    ensures |Encode(a + [c])| == |Encode(a)| + Length(c)
  {
    EncodeBoth(a, [c]);
    assert Encode([c][1..]) == [];
  }

  /** The first pass: the bytes needed, or -1 when the units are not well-formed. */
  method Measure(s: seq<Word>) returns (bytes: int)
    ensures bytes == if Points(s, 0, 0).Some? then |Encode(Points(s, 0, 0).value)| else -1
  {
    hide Before;
    hide Encode;
    ghost var done: seq<Word> := [];
    BeforeLaws([], [], Points(s, 0, 0));
    NoBytes();
    bytes := 0;
    var high: Word := 0;
    var i := 0;
    while i < |s| && s[i] != 0
      invariant 0 <= i <= |s| && (high == 0 || High(high))
      invariant Before(done, Points(s, i, high)) == Points(s, 0, 0) && bytes == |Encode(done)|
    {
      var c := s[i];
      var wc := c;
      if Low(c) {
        if high == 0 {
          NothingBefore(done);
          return -1;
        }
        wc := SurrogateValue(high, c);
        high := 0;
      } else {
        if high != 0 {
          NothingBefore(done);
          return -1;
        }
        if High(c) {
          high := c;
        }
      }
      if high == 0 {
        bytes := bytes + Length(wc);
        EncodeMore(done, wc);
        BeforeLaws(done, [wc], Points(s, i + 1, 0));
        done := done + [wc];
      }
      i := i + 1;
    }
    if high != 0 {
      NothingBefore(done);
      return -1;
    }
    BeforeLaws(done, [], Some([]));
  }

  lemma NoBytes()
    ensures Encode([]) == []
  {
  }

  /** utf16_to_utf8: the second pass writes exactly the bytes that the first one counted. */
  method ToUtf8(s: seq<Word>, out: array<Byte>, outLen: nat) returns (ok: bool)
    requires outLen <= out.Length
    modifies out
    ensures ok <==> Points(s, 0, 0).Some? && |Encode(Points(s, 0, 0).value)| < outLen
    ensures ok ==> var text := Encode(Points(s, 0, 0).value); out[..|text| + 1] == text + [0]
    ensures !ok ==> out[..] == old(out[..])
  {
    var bytes := Measure(s);
    if bytes < 0 || outLen <= bytes {
      return false;
    }
    ghost var all := Points(s, 0, 0).value;
    var end := WriteAll(s, bytes, out, all);
    out[end] := 0;
    assert out[..end + 1] == out[..end] + [0];
    return true;
  }

  method WriteAll(s: seq<Word>, bytes: nat, out: array<Byte>, ghost all: seq<Word>) returns (end: nat)
    requires Points(s, 0, 0) == Some(all) && bytes == |Encode(all)| < out.Length
    modifies out
    ensures end == bytes && out[..end] == Encode(all)
  {
    hide Cat;
    hide Encode;
    hide Before;
    ghost var rest := all;
    var high: Word := 0;
    var i := 0;
    end := 0;
    CatStarts(out[..0], Encode(all));
    while end < bytes
      invariant 0 <= i <= |s| && 0 <= end <= bytes && (high == 0 || High(high))
      invariant Points(s, i, high) == Some(rest)
      invariant Cat(out[..end], Encode(rest)) == Encode(all)
      decreases |s| - i
    {
      NoBytes();
      var c := s[i];
      if !Low(c) && High(c) {
        high := c;
      } else {
        var wc := if Low(c) then SurrogateValue(high, c) else c;
        high := 0;
        FirstOf(wc, Points(s, i + 1, 0), rest);
        rest := rest[1..];
        end := Append(wc, out, end, rest);
      }
      i := i + 1;
    }
    CatEnds(out[..end], Encode(rest));
  }

  lemma CatStarts(none: seq<Byte>, all: seq<Byte>)
    requires none == []
    ensures Cat(none, all) == all
  {
  }

  lemma CatEnds(done: seq<Byte>, rest: seq<Byte>)
    ensures |rest| == 0 ==> Cat(done, rest) == done
  {
  }

  lemma FirstOf(c: Word, more: Option<seq<Word>>, rest: seq<Word>)
    requires Before([c], more) == Some(rest)
    ensures rest != [] && rest == [c] + rest[1..] && more == Some(rest[1..])
    ensures |Encode(rest)| == Length(c) + |Encode(rest[1..])|
  {
    assert ([c] + more.value)[1..] == more.value;
  }

  /** One character behind what is written. */
  method Append(c: Word, out: array<Byte>, at: nat, ghost rest: seq<Word>) returns (end: nat)
    requires at + Length(c) <= out.Length
    modifies out
    ensures end == at + Length(c) && Cat(out[..end], Encode(rest)) == Cat(old(out[..at]), Encode([c] + rest))
  {
    ghost var done := out[..at];
    assert ([c] + rest)[1..] == rest;
    assert done + (Bytes(c) + Encode(rest)) == done + Bytes(c) + Encode(rest);
    hide Bytes;
    hide Encode;
    var len := PutChar(c, out, at);
    end := at + len;
    assert out[..end] == out[..at] + out[at..end];
  }

  // ------------------------------------------------------------------ back

  /** The units of a character; with 16-bit units a large one takes two. */
  function UnitsOf(c: nat, wide: bool): (r: seq<Word>)
    requires c < 0x8000_0000
    ensures 1 <= |r| <= 2
  {
    if wide || c < 0x1_0000 then [c]
    else [(0xD800 + (c - 0x1_0000) / 0x400) % 0x1_0000, 0xDC00 + (c - 0x1_0000) % 0x400]
  }

  /** utf8_to_utf16_ex from index p on, with room for `room` units, the closing NUL included. */
  function Decoded(s: seq<Byte>, p: nat, size: nat, wide: bool, room: int): Option<seq<Word>>
    decreases size - p
  {
    if p >= size || room <= 1 then Some([])
    else match GetChar(s, p)
    case None => None
    case Some((c, next)) =>
      if |UnitsOf(c, wide)| == 2 && room <= 2 then None
      else Before(UnitsOf(c, wide), Decoded(s, next, size, wide, room - |UnitsOf(c, wide)|))
  }

  /** utf8_to_utf16_ex */
  method FromUtf8(s: seq<Byte>, size: nat, out: array<Word>, outSize: nat, wide: bool) returns (ok: bool)
    requires 0 < outSize <= out.Length
    modifies out
    ensures ok <==> Decoded(s, 0, size, wide, outSize).Some?
    ensures ok ==> var r := Decoded(s, 0, size, wide, outSize).value;
      |r| < outSize && out[..|r|] == r && out[|r|] == 0
  {
    hide Before;
    hide UnitsOf;
    var p, i := 0, 0;
    BeforeLaws([], [], Decoded(s, 0, size, wide, outSize));
    assert out[..0] == [];
    while p < size && i + 1 < outSize
      invariant 0 <= i < outSize && 0 <= p
      invariant Before(out[..i], Decoded(s, p, size, wide, outSize - i)) == Decoded(s, 0, size, wide, outSize)
      decreases size - p
    {
      ghost var done := out[..i];
      NothingBefore(done);
      var r := ReadChar(s, p);
      if r.None? {
        return false;
      }
      var us := UnitsOf(r.value.0, wide);
      BeforeLaws(done, us, Decoded(s, r.value.1, size, wide, outSize - i - |us|));
      out[i] := us[0];
      i := i + 1;
      assert out[..i] == done + [us[0]];
      if |us| == 2 {
        if i + 1 >= outSize {
          return false;
        }
        out[i] := us[1];
        i := i + 1;
        assert out[..i] == done + [us[0], us[1]];
      }
      assert done + us == out[..i];
      p := r.value.1;
    }
    BeforeLaws(out[..i], [], Some([]));
    out[i] := 0;
    return true;
  }

  predicate Encodable(cs: seq<Word>) { forall i :: 0 <= i < |cs| ==> cs[i] < 0x8000_0000 }

  function Units(cs: seq<Word>, wide: bool): seq<Word>
    requires Encodable(cs)
  {
    if cs == [] then [] else UnitsOf(cs[0], wide) + Units(cs[1..], wide)
  }

  lemma {:induction false} DecodeEncode(s: seq<Byte>, at: nat, cs: seq<Word>, wide: bool, room: int)
    requires Encodable(cs) && Has(s, at, Encode(cs)) && |Units(cs, wide)| < room
    ensures Decoded(s, at, at + |Encode(cs)|, wide, room) == Some(Units(cs, wide))
    decreases |cs|
  {
    hide Encodable;
    hide Encode;
    hide Units;
    hide UnitsOf;
    hide Has;
    hide GetChar;
    hide Decoded;
    hide Length;
    hide Bytes;
    if cs == [] {
      NothingEncoded(s, at, wide, room);
    } else {
      var c, rest := cs[0], cs[1..];
      FirstEncoded(cs, wide);
      HasBoth(s, at, Bytes(c), Encode(rest));
      CharRoundTrip(s, at, c);
      var next, more := at + Length(c), room - |UnitsOf(c, wide)|;
      DecodeEncode(s, next, rest, wide, more);
      DecodeMore(s, at, next + |Encode(rest)|, wide, room, c, next, Units(rest, wide));
    }
  }

  lemma NothingEncoded(s: seq<Byte>, at: nat, wide: bool, room: int)
    ensures Encodable([]) && Decoded(s, at, at + |Encode([])|, wide, room) == Some(Units([], wide))
  {
  }

  lemma FirstEncoded(cs: seq<Word>, wide: bool)
    requires cs != [] && Encodable(cs)
    ensures cs[0] < 0x8000_0000 && Encodable(cs[1..]) && Encode(cs) == Bytes(cs[0]) + Encode(cs[1..])
    ensures Units(cs, wide) == UnitsOf(cs[0], wide) + Units(cs[1..], wide)
  {
  }

  lemma DecodeMore(s: seq<Byte>, at: nat, size: nat, wide: bool, room: int, c: Word, next: nat, rest: seq<Word>)
    requires c < 0x8000_0000 && at < size && |UnitsOf(c, wide)| + |rest| < room
    requires GetChar(s, at) == Some((c as nat, next))
    requires Decoded(s, next, size, wide, room - |UnitsOf(c, wide)|) == Some(rest)
    ensures Decoded(s, at, size, wide, room) == Some(UnitsOf(c, wide) + rest)
  {
    hide GetChar;
    hide UnitsOf;
  }

  predicate Short(s: seq<Word>) { forall i :: 0 <= i < |s| ==> 0 < s[i] < 0x1_0000 }

  /** With 16-bit units: the characters of a well-formed text give its units back. */
  lemma {:induction false} UnitsOfPoints(s: seq<Word>, i: nat, high: Word)
    requires i <= |s| && (high == 0 || High(high)) && Short(s) && Points(s, i, high).Some?
    ensures Encodable(Points(s, i, high).value)
    ensures Units(Points(s, i, high).value, false) == (if high == 0 then [] else [high]) + s[i..]
    decreases |s| - i
  {
    if i < |s| {
      var cs := Points(s, i, high).value;
      assert s[i..] == [s[i]] + s[i + 1..];
      if Low(s[i]) {
        UnitsOfPoints(s, i + 1, 0);
        var c := SurrogateValue(high, s[i]);
        assert cs[1..] == Points(s, i + 1, 0).value && cs[0] == c;
        assert UnitsOf(c, false) == [high, s[i]];
      } else if High(s[i]) {
        UnitsOfPoints(s, i + 1, s[i]);
      } else {
        UnitsOfPoints(s, i + 1, 0);
        assert cs[1..] == Points(s, i + 1, 0).value && cs[0] == s[i];
      }
    }
  }

  /**
   * Converting well-formed NUL-free UTF-16 to UTF-8 and back gives the same units, for any buffer with room for them.
   */
  lemma Utf16RoundTrip(s: seq<Word>, room: int)
    requires Short(s) && Points(s, 0, 0).Some? && room > |s|
    ensures var text := Encode(Points(s, 0, 0).value); Decoded(text, 0, |text|, false, room) == Some(s)
  {
    var cs := Points(s, 0, 0).value;
    hide Points;
    hide Units;
    hide Encode;
    hide Decoded;
    hide Encodable;
    UnitsBack(s);
    HasAll(Encode(cs));
    DecodeEncode(Encode(cs), 0, cs, false, room);
  }

  lemma UnitsBack(s: seq<Word>)
    requires Short(s) && Points(s, 0, 0).Some?
    ensures Encodable(Points(s, 0, 0).value) && Units(Points(s, 0, 0).value, false) == s
  {
    hide Points;
    hide Units;
    hide Encodable;
    UnitsOfPoints(s, 0, 0);
    assert [] + s[0..] == s;
  }

  predicate Scalars(s: seq<Word>) { forall i :: 0 <= i < |s| ==> 0 < s[i] < 0x8000_0000 && !High(s[i]) && !Low(s[i]) }

  lemma {:induction false} PointsOfScalars(s: seq<Word>, i: nat)
    requires i <= |s| && Scalars(s)
    ensures Points(s, i, 0) == Some(s[i..])
    decreases |s| - i
  {
    if i == |s| {
      assert s[i..] == [];
    } else {
      PointsOfScalars(s, i + 1);
      assert s[i..] == [s[i]] + s[i + 1..];
      assert Points(s, i, 0) == Before([s[i]], Some(s[i + 1..]));
    }
  }

  lemma {:induction false} WideUnits(cs: seq<Word>)
    requires Encodable(cs)
    ensures Units(cs, true) == cs
    decreases |cs|
  {
    if cs != [] {
      WideUnits(cs[1..]);
    }
  }

  /** With 32-bit units the same holds for all characters below 2^31 that are not surrogates. */
  lemma Utf32RoundTrip(s: seq<Word>, room: int)
    requires Scalars(s) && room > |s|
    ensures Points(s, 0, 0) == Some(s) && Decoded(Encode(s), 0, |Encode(s)|, true, room) == Some(s)
  {
    PointsOfScalars(s, 0);
    assert s[0..] == s;
    WideUnits(s);
    HasAll(Encode(s));
    DecodeEncode(Encode(s), 0, s, true, room);
  }

  // ------------------------------------------------------------------ trimming

  /** A text without the character its end cuts in two. */
  function Trimmed(s: seq<Byte>): (r: seq<Byte>)
    ensures |r| <= |s| && r == s[..|r|]
  {
    if s == [] then []
    else if Skip(s[0]) > |s| then []
    else s[..Skip(s[0])] + Trimmed(s[Skip(s[0])..])
  }

  /** utf8_trim_invalid_char: in place, on a text that ends with a NUL. */
  method Trim(str: array<Byte>, ghost len: nat)
    requires len < str.Length && str[len] == 0 && forall j :: 0 <= j < len ==> str[j] != 0
    modifies str
    ensures var r := Trimmed(old(str[..len])); str[..|r|] == r && str[|r|] == 0
    ensures forall j :: 0 <= j < str.Length && j != |Trimmed(old(str[..len]))| ==> str[j] == old(str[j])
  {
    ghost var text := str[..len];
    var p := 0;
    assert text[0..] == text;
    hide Trimmed;
    hide Left;
    while str[p] != 0
      invariant 0 <= p <= len && str[..] == old(str[..])
      invariant p + Left(text, p) == Left(text, 0)
      decreases len - p
    {
      var n := Skip(str[p]);
      LeftStep(text, p);
      var i := 0;
      while i < n
        invariant 0 <= i <= n && p + i <= len && str[..] == old(str[..])
        decreases n - i
      {
        if str[p + i] == 0 {
          str[p] := 0;
          return;
        }
        i := i + 1;
      }
      p := p + n;
    }
    LeftStep(text, p);
  }

  /** The bytes that trimming leaves from p on. */
  function Left(text: seq<Byte>, p: nat): nat
    requires p <= |text|
  {
    |Trimmed(text[p..])|
  }

  lemma LeftStep(text: seq<Byte>, p: nat)
    requires p <= |text|
    ensures Left(text, 0) == |Trimmed(text)|
    ensures p == |text| ==> Left(text, p) == 0
    ensures p < |text| ==> var n := Skip(text[p]);
      if p + n > |text| then Left(text, p) == 0 else Left(text, p) == n + Left(text, p + n)
  {
    assert text[0..] == text;
    if p < |text| && p + Skip(text[p]) <= |text| {
      assert text[p..][Skip(text[p])..] == text[p + Skip(text[p])..];
    }
  }

  /** The most characters that fit into k bytes. */
  function Fitting(cs: seq<Word>, k: nat): (m: nat)
    ensures m <= |cs|
  {
    if cs == [] || Length(cs[0]) > k then 0 else 1 + Fitting(cs[1..], k - Length(cs[0]))
  }

  lemma {:induction false} FittingIsLongest(cs: seq<Word>, k: nat, m: nat)
    requires m <= |cs|
    ensures |Encode(cs[..m])| <= k <==> m <= Fitting(cs, k)
    decreases |cs|
  {
    if m > 0 {
      assert cs[..m][1..] == cs[1..][..m - 1] && cs[..m][0] == cs[0];
      if Length(cs[0]) <= k {
        FittingIsLongest(cs[1..], k - Length(cs[0]), m - 1);
      }
    }
  }

  /** Of a text cut anywhere, trimming leaves the longest prefix of whole characters. */
  lemma {:induction false} TrimLeavesWholeCharacters(cs: seq<Word>, k: nat)
    requires Encodable(cs) && k <= |Encode(cs)|
    ensures Trimmed(Encode(cs)[..k]) == Encode(cs[..Fitting(cs, k)])
    decreases |cs|
  {
    if cs != [] && k > 0 {
      var n := Length(cs[0]);
      TrimFirst(cs[0], Encode(cs[1..]), k);
      if n <= k {
        var m := Fitting(cs[1..], k - n);
        hide Trimmed;
        TrimLeavesWholeCharacters(cs[1..], k - n);
        assert cs[..m + 1][1..] == cs[1..][..m] && cs[..m + 1][0] == cs[0];
      }
    }
  }

  /** Trimming keeps the first character if all of it is there, and nothing otherwise. */
  lemma TrimFirst(c: Word, rest: seq<Byte>, k: nat)
    requires c < 0x8000_0000 && 0 < k <= |Bytes(c) + rest|
    ensures Trimmed((Bytes(c) + rest)[..k])
      == if Length(c) > k then [] else Bytes(c) + Trimmed(rest[..k - Length(c)])
  {
    var text, n := Bytes(c) + rest, Length(c);
    LeadRead(c);
    hide Bytes;
    hide Skip;
    hide Announced;
    assert text[..k][0] == Bytes(c)[0];
    if n <= k {
      assert text[..k][n..] == rest[..k - n] && text[..k][..n] == Bytes(c);
    }
  }
}
