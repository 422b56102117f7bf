/**
 * What the escapes and numbers of a JSON text stand for: UTF-8 as section 3 of RFC 3629 lays it out, the one-letter
 * escapes, and decimal numbers with fraction and exponent.
 */
module JsonEscapes {
  import opened JsonText
  import opened JsonSyntax
  import opened JsonRoundTrip

  // ------------------------------------------------------------------ code points

  /** The six bits that a byte behind the first one carries. */
  predicate Continues(c: char, payload: int) { c as int == 0x80 + payload && 0 <= payload < 0x40 }

  /** The bytes of a code point: the first byte says how many follow, and each of these carries six more bits. */
  predicate Layout(u: int, s: string) {
    if u <= 0x7F then |s| == 1 && s[0] as int == u
    else if u <= 0x7FF then
      && |s| == 2 && 0xC0 <= s[0] as int <= 0xDF
      && Continues(s[1], u - (s[0] as int - 0xC0) * 0x40)
    else if u <= 0xFFFF then
      && |s| == 3 && 0xE0 <= s[0] as int <= 0xEF && 0x80 <= s[1] as int <= 0xBF
      && Continues(s[2], u - (s[0] as int - 0xE0) * 0x1000 - (s[1] as int - 0x80) * 0x40)
    else
      && |s| == 4 && 0xF0 <= s[0] as int <= 0xF4 && 0x80 <= s[1] as int <= 0xBF && 0x80 <= s[2] as int <= 0xBF
      && Continues(s[3], u - (s[0] as int - 0xF0) * 0x40000 - (s[1] as int - 0x80) * 0x1000
                   - (s[2] as int - 0x80) * 0x40)
  }

  /** A number in groups of six bits has only one first group. */
  lemma GroupsOnly(u: int, a: int, b: int)
    requires u == a * 64 + b && 0 <= b < 64
    ensures a == u / 64 && b == u % 64
  {
  }

  /** Only one string is laid out so. */
  lemma LayoutOnly(u: int, s: string, r: string)
    requires 0 < u <= 0x10FFFF && Layout(u, s) && Layout(u, r)
    ensures s == r
  {
    LastOnly(u, s);
    LastOnly(u, r);
    hide Layout;
  }

  /** The characters that the layout leaves. */
  lemma LastOnly(u: int, s: string)
    requires 0 < u <= 0x10FFFF && Layout(u, s)
    ensures s == Utf8(u)
  {
    Quotients(u);
    if 0x80 <= u < 0x800 {
      GroupsOnly(u, s[0] as int - 0xC0, s[1] as int - 0x80);
      assert s[0] == Byte(0xC0 + u / 64) && s[1] == Byte(0x80 + u % 64);
    } else if 0x800 <= u < 0x10000 {
      ThreeOnly(u, s);
    } else if u >= 0x10000 {
      FourOnly(u, s);
    }
  }

  lemma Quotients(u: int)
    ensures u / 64 / 64 == u / 4096 && u / 4096 / 64 == u / 262144
  {
  }

  lemma ThreeOnly(u: int, s: string)
    requires 0x800 <= u < 0x10000 && Layout(u, s)
    ensures s == Utf8(u)
  {
    Quotients(u);
    var a, b, c := s[0] as int - 0xE0, s[1] as int - 0x80, s[2] as int - 0x80;
    GroupsOnly(u, a * 64 + b, c);
    GroupsOnly(u / 64, a, b);
  }

  lemma FourOnly(u: int, s: string)
    requires 0x10000 <= u <= 0x10FFFF && Layout(u, s)
    ensures s == Utf8(u)
  {
    Quotients(u);
    var a, b, c, d := s[0] as int - 0xF0, s[1] as int - 0x80, s[2] as int - 0x80, s[3] as int - 0x80;
    GroupsOnly(u, (a * 64 + b) * 64 + c, d);
    GroupsOnly(u / 64, a * 64 + b, c);
    GroupsOnly(u / 4096, a, b);
  }

  lemma Groups(u: nat)
    ensures u == u / 64 * 64 + u % 64 && u / 64 == u / 4096 * 64 + u / 64 % 64
    ensures u / 4096 == u / 262144 * 64 + u / 4096 % 64
  {
  }

  lemma Utf8LaidOut(u: nat)
    requires u <= 0x10FFFF
    ensures Layout(u, Utf8(u))
  {
    Groups(u);
    var a, b, c, d := u / 262144, u / 4096, u / 64, u % 64;
    var e, f := u / 4096 % 64, u / 64 % 64;
    assert 0 <= d < 64 && 0 <= e < 64 && 0 <= f < 64;
    assert u < 0x10000 ==> b < 16;
    assert u >= 0x10000 ==> 0 <= a <= 4;
  }

  /** A hexadecimal digit of either case. */
  predicate IsHex(c: char, v: nat) { v < 16 && (c == "0123456789abcdef"[v] || c == "0123456789ABCDEF"[v]) }

  /** Four hexadecimal digits, the highest first. */
  ghost predicate FourDigits(t: string, i: nat, u: int) {
    exists a: nat, b: nat, c: nat, d: nat :: FourAre(t, i, a, b, c, d) && u == a * 0x1000 + b * 0x100 + c * 0x10 + d
  }

  predicate FourAre(t: string, i: nat, a: nat, b: nat, c: nat, d: nat) {
    IsHex(At(t, i), a) && IsHex(At(t, i + 1), b) && IsHex(At(t, i + 2), c) && IsHex(At(t, i + 3), d)
  }

  lemma HexRead(c: char, v: nat)
    requires IsHex(c, v)
    ensures HexValue(c) == v
  {
    if v < 10 {
      assert "0123456789abcdef"[v] as int == '0' as int + v && "0123456789ABCDEF"[v] as int == '0' as int + v;
    } else {
      assert "0123456789abcdef"[v] as int == 'a' as int + v - 10;
      assert "0123456789ABCDEF"[v] as int == 'A' as int + v - 10;
    }
  }

  lemma FourRead(t: string, i: nat, u: int)
    requires FourDigits(t, i, u)
    ensures Hex4(t, i) == u
  {
    hide IsHex;
    hide HexValue;
    var a: nat, b: nat, c: nat, d: nat :|
      FourAre(t, i, a, b, c, d) && u == a * 0x1000 + b * 0x100 + c * 0x10 + d;
    HexRead(At(t, i), a);
    HexRead(At(t, i + 1), b);
    HexRead(At(t, i + 2), c);
    HexRead(At(t, i + 3), d);
  }

  /** "\u" and four digits. */
  ghost predicate EscapeAt(t: string, i: nat, u: int) {
    At(t, i) == '\\' && At(t, i + 1) == 'u' && FourDigits(t, i + 2, u)
  }

  /** A code point of up to 16 bits that is no surrogate, as one escape, or a larger one, as a pair of them. */
  ghost predicate Escaped(t: string, i: nat, u: int) {
    if u <= 0xFFFF then EscapeAt(t, i, u) && !(0xD800 <= u <= 0xDFFF)
    else
      exists h, l :: PairAt(t, i, h, l) && u == 0x10000 + (h - 0xD800) * 0x400 + (l - 0xDC00)
  }

  /** A high and a low surrogate. */
  ghost predicate PairAt(t: string, i: nat, h: int, l: int) {
    0xD800 <= h <= 0xDBFF && 0xDC00 <= l <= 0xDFFF && EscapeAt(t, i, h) && EscapeAt(t, i + 6, l)
  }

  /** The parser reads the escape of every code point but 0 as its bytes, and goes on right behind it. */
  lemma EscapeStandsFor(t: string, i: nat, u: int)
    requires 0 < u <= 0x10FFFF && Escaped(t, i, u)
    ensures Unit(t, i).1 == i + if u <= 0xFFFF then 6 else 12
    ensures Layout(u, Unit(t, i).0)
  {
    hide FourDigits;
    hide Hex4;
    hide Utf8;
    hide Layout;
    Utf8LaidOut(u);
    if u <= 0xFFFF {
      FourRead(t, i + 2, u);
    } else {
      var h, l :| PairAt(t, i, h, l) && u == 0x10000 + (h - 0xD800) * 0x400 + (l - 0xDC00);
      FourRead(t, i + 2, h);
      FourRead(t, i + 8, l);
      assert h % 0x400 == h - 0xD800 && l % 0x400 == l - 0xDC00;
    }
  }

  /** So a literal of one such escape is the string of these bytes. */
  lemma LiteralStandsFor(t: string, i: nat, u: int)
    requires 0 < u <= 0x10FFFF && At(t, i) == '\"' && Escaped(t, i + 1, u)
    requires At(t, i + if u <= 0xFFFF then 7 else 13) == '\"'
    ensures var r := ParseString(t, i);
      r.Ok? && Layout(u, r.value) && r.end == i + if u <= 0xFFFF then 8 else 14
  {
    var end := i + if u <= 0xFFFF then 7 else 13;
    EscapeStandsFor(t, i + 1, u);
    assert At(t, i + 1) == '\\';
    hide Escaped;
    hide Unit;
    hide Layout;
    assert Chars(t, end) == ("", end);
    var x := Unit(t, i + 1).0;
    assert Chars(t, i + 1) == (x + "", end);
    assert x + "" == x;
  }

  function Hex(u: nat): (r: string)
    requires u <= 0xFFFF
    ensures |r| == 4
  {
    [HexDigit(u / 0x1000), HexDigit(u / 0x100 % 16), HexDigit(u / 16 % 16), HexDigit(u % 16)]
  }

  function EscapeText(u: nat): string
    requires u <= 0xFFFF
  {
    "\\u" + Hex(u)
  }

  lemma TextStands(t: string, i: nat, u: nat)
    requires u <= 0xFFFF && Here(t, i, EscapeText(u))
    ensures EscapeAt(t, i, u)
  {
    var w := EscapeText(u);
    HereAt(t, i, w);
    assert At(t, i + 0) == w[0] && At(t, i + 1) == w[1] && At(t, i + 2) == w[2] && At(t, i + 3) == w[3];
    assert At(t, i + 4) == w[4] && At(t, i + 5) == w[5];
    hide FourDigits;
    hide HexDigit;
    HexStands(t, i + 2, u);
  }

  lemma HexStands(t: string, i: nat, u: nat)
    requires u <= 0xFFFF && At(t, i) == HexDigit(u / 0x1000) && At(t, i + 1) == HexDigit(u / 0x100 % 16)
    requires At(t, i + 2) == HexDigit(u / 16 % 16) && At(t, i + 3) == HexDigit(u % 16)
    ensures FourDigits(t, i, u)
  {
    var a, b, c, d := u / 0x1000, u / 0x100 % 16, u / 16 % 16, u % 16;
    DigitIs(a);
    DigitIs(b);
    DigitIs(c);
    DigitIs(d);
    hide IsHex;
    hide HexDigit;
    hide At;
    Nibbles(u);
    assert FourAre(t, i, a, b, c, d);
  }

  /** Every code point has such an escape. */
  lemma EscapeExists(u: int)
    requires 0 < u <= 0x10FFFF && !(0xD800 <= u <= 0xDFFF)
    ensures exists t: string :: Escaped(t, 0, u)
  {
    hide FourDigits;
    hide EscapeText;
    if u <= 0xFFFF {
      var t := EscapeText(u);
      assert t[0..|t|] == t;
      TextStands(t, 0, u);
      assert Escaped(t, 0, u);
    } else {
      var h, l := 0xD800 + (u - 0x10000) / 0x400, 0xDC00 + (u - 0x10000) % 0x400;
      var t := EscapeText(h) + EscapeText(l);
      assert t[0..|t|] == t;
      HereSplit(t, 0, EscapeText(h), EscapeText(l));
      TextStands(t, 0, h);
      SixLong(h);
      TextStands(t, 6, l);
      hide EscapeAt;
      assert PairAt(t, 0, h, l);
      assert Escaped(t, 0, u);
    }
  }

  lemma SixLong(u: nat)
    requires u <= 0xFFFF
    ensures |EscapeText(u)| == 6
  {
  }

  lemma Nibbles(u: nat)
    ensures u == u / 0x1000 * 0x1000 + u / 0x100 % 16 * 0x100 + u / 16 % 16 * 0x10 + u % 16
  {
    assert u / 0x1000 == u / 0x100 / 16 && u / 0x100 == u / 16 / 16;
  }

  lemma DigitIs(v: nat)
    requires v < 16
    ensures IsHex(HexDigit(v), v)
  {
    if v < 10 {
      assert "0123456789abcdef"[v] as int == '0' as int + v;
    } else {
      assert "0123456789abcdef"[v] as int == 'a' as int + v - 10;
    }
  }

  /** The escapes of one letter, and the characters that stand for themselves behind a backslash. */
  lemma ShortEscapes(t: string, i: nat)
    requires At(t, i) == '\\' && At(t, i + 1) != 'u'
    ensures Unit(t, i).1 == i + 2 && |Unit(t, i).0| == 1
    ensures Unit(t, i).0[0] as int ==
      if At(t, i + 1) == 'b' then 8
      else if At(t, i + 1) == 't' then 9
      else if At(t, i + 1) == 'n' then 10
      else if At(t, i + 1) == 'f' then 12
      else if At(t, i + 1) == 'r' then 13
      else At(t, i + 1) as int
  {
  }
}
