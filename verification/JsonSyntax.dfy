/** What the parser accepts and what tree it builds, as functions of the text and a position. */
module JsonSyntax {
  import opened JsonText

  /** A parse that succeeded gives what it read and where it stopped. */
  datatype Parsed<+T> = Fail | Ok(value: T, end: nat)

  /** Reading at or past the end finds the terminating NUL. */
  function At(t: string, i: nat): char { if i < |t| then t[i] else '\0' }

  function Left(t: string, i: nat): nat { if i < |t| then |t| - i else 0 }

  /** The characters from i on begin with w. */
  predicate Here(t: string, i: nat, w: string) { i + |w| <= |t| && t[i..i + |w|] == w }

  function Skip(t: string, i: nat): (j: nat)
    ensures i <= j && (At(t, j) == '\0' || At(t, j) > ' ')
    ensures At(t, i) > ' ' ==> j == i
    decreases Left(t, i)
  {
    if At(t, i) != '\0' && At(t, i) <= ' ' then Skip(t, i + 1) else i
  }

  predicate IsDigit(c: char) { '0' <= c <= '9' }

  function DigitValue(c: char): nat
    requires IsDigit(c)
  {
    c as int - '0' as int
  }

  /** The number `acc` continued by the digits at i, and where they end. */
  function ReadDigits(t: string, i: nat, acc: nat): (r: (nat, nat))
    ensures r.1 >= i
    decreases Left(t, i)
  {
    if IsDigit(At(t, i)) then ReadDigits(t, i + 1, acc * 10 + DigitValue(At(t, i))) else (acc, i)
  }

  function Pow10(e: int): real
    decreases if e < 0 then -e else e
  {
    if e == 0 then 1.0 else if e > 0 then 10.0 * Pow10(e - 1) else Pow10(e + 1) / 10.0
  }

  /** n with its sign and power of ten. */
  function Scaled(neg: bool, n: nat, exponent: int): real {
    (if neg then -1.0 else 1.0) * n as real * Pow10(exponent)
  }

  /** parse_number on exact reals: sign, leading zero, digits, fraction, exponent. */
  function ParseNumber(t: string, i: nat): (r: Parsed<Value>)
    ensures r.Ok? && r.end >= i && r.value.Number?
    ensures At(t, i) == '-' || IsDigit(At(t, i)) ==> r.end > i
  {
    var neg := At(t, i) == '-';
    var i1 := if neg then i + 1 else i;
    var i2 := if At(t, i1) == '0' then i1 + 1 else i1;
    var (n3, i3) := if '1' <= At(t, i2) <= '9' then ReadDigits(t, i2, 0) else (0, i2);
    var (n4, i4) := if At(t, i3) == '.' && IsDigit(At(t, i3 + 1)) then ReadDigits(t, i3 + 1, n3) else (n3, i3);
    var scale := if i4 > i3 then i4 - i3 - 1 else 0;
    var exp := At(t, i4) == 'e' || At(t, i4) == 'E';
    var signed := exp && (At(t, i4 + 1) == '+' || At(t, i4 + 1) == '-');
    var negExp := signed && At(t, i4 + 1) == '-';
    var i5 := if signed then i4 + 2 else if exp then i4 + 1 else i4;
    var (sub, i6) := if exp then ReadDigits(t, i5, 0) else (0, i5);
    Ok(Number(Scaled(neg, n4, -scale + (if negExp then -sub else sub))), i6)
  }

  function HexValue(c: char): int {
    if IsDigit(c) then c as int - '0' as int
    else if 'A' <= c <= 'F' then 10 + c as int - 'A' as int
    else if 'a' <= c <= 'f' then 10 + c as int - 'a' as int
    else -1
  }

  /** parse_hex4: four hexadecimal digits, or 0 when one of them is not. */
  function Hex4(t: string, i: nat): (r: nat)
    ensures r < 0x10000
  {
    var a, b, c, d := HexValue(At(t, i)), HexValue(At(t, i + 1)), HexValue(At(t, i + 2)), HexValue(At(t, i + 3));
    if a < 0 || b < 0 || c < 0 || d < 0 then 0 else ((a * 16 + b) * 16 + c) * 16 + d
  }

  function Byte(n: nat): char
    requires n < 256
  {
    n as char
  }

  /** UTF-8 of a code point below 0x110000. */
  function Utf8(u: nat): string
    requires u < 0x110000
  {
    if u < 0x80 then [Byte(u)]
    else if u < 0x800 then [Byte(0xC0 + u / 64), Byte(0x80 + u % 64)]
    else if u < 0x10000 then [Byte(0xE0 + u / 4096), Byte(0x80 + u / 64 % 64), Byte(0x80 + u % 64)]
    else [Byte(0xF0 + u / 262144), Byte(0x80 + u / 4096 % 64), Byte(0x80 + u / 64 % 64), Byte(0x80 + u % 64)]
  }

  /** The escape whose 'u' is at i: the bytes it stands for and where the text goes on. */
  function UnicodeEscape(t: string, i: nat): (r: (string, nat))
    ensures r.1 > i
  {
    var u := Hex4(t, i + 1);
    if 0xDC00 <= u <= 0xDFFF || u == 0 then ("", i + 5)
    else if 0xD800 <= u <= 0xDBFF then
      if At(t, i + 5) != '\\' || At(t, i + 6) != 'u' then ("", i + 5)
      else
        var v := Hex4(t, i + 7);
        if v < 0xDC00 || v > 0xDFFF then ("", i + 11)
        else (Utf8(0x10000 + (u % 0x400) * 0x400 + v % 0x400), i + 11)
    else (Utf8(u), i + 5)
  }

  /** What one character or escape at i stands for and where the text goes on. */
  function Unit(t: string, i: nat): (r: (string, nat))
    ensures r.1 > i
  {
    if At(t, i) != '\\' then ([At(t, i)], i + 1)
    else
      match At(t, i + 1)
      case 'b' => ("\U{08}", i + 2)
      case 'f' => ("\U{0C}", i + 2)
      case 'n' => ("\n", i + 2)
      case 'r' => ("\r", i + 2)
      case 't' => ("\t", i + 2)
      case 'u' => UnicodeEscape(t, i + 1)
      case c => ([c], i + 2)
  }

  /** The characters of a string from i to its closing quote (or the end of the text), and where that is. */
  function Chars(t: string, i: nat): (r: (string, nat))
    ensures r.1 >= i
    decreases Left(t, i)
  {
    if At(t, i) == '\"' || At(t, i) == '\0' then ("", i)
    else
      var (x, j) := Unit(t, i);
      var (rest, end) := Chars(t, j);
      (x + rest, end)
  }

  function ParseString(t: string, i: nat): (r: Parsed<string>)
    ensures r.Ok? ==> r.end > i
  {
    if At(t, i) != '\"' then Fail
    else
      var (s, j) := Chars(t, i + 1);
      Ok(s, if At(t, j) == '\"' then j + 1 else j)
  }

  function ParseValue(t: string, i: nat): (r: Parsed<Value>)
    ensures r.Ok? ==> r.end > i
    decreases Left(t, i), 2
  {
    if Here(t, i, "null") then Ok(Null, i + 4)
    else if Here(t, i, "false") then Ok(False, i + 5)
    else if Here(t, i, "true") then Ok(True, i + 4)
    else if At(t, i) == '\"' then
      var r := ParseString(t, i);
      if r.Fail? then Fail else Ok(String(r.value), r.end)
    else if At(t, i) == '-' || IsDigit(At(t, i)) then ParseNumber(t, i)
    else if At(t, i) == '[' then
      var r := ParseArray(t, i);
      if r.Fail? then Fail else Ok(Array(r.value), r.end)
    else if At(t, i) == '{' then
      var r := ParseObject(t, i);
      if r.Fail? then Fail else Ok(Object(r.value), r.end)
    else Fail
  }

  function ParseArray(t: string, i: nat): (r: Parsed<seq<Value>>)
    requires At(t, i) == '['
    ensures r.Ok? ==> r.end > i
    decreases Left(t, i), 1
  {
    var j := Skip(t, i + 1);
    if At(t, j) == ']' then Ok([], j + 1) else ParseItems(t, j)
  }

  function ParseObject(t: string, i: nat): (r: Parsed<seq<Member>>)
    requires At(t, i) == '{'
    ensures r.Ok? ==> r.end > i
    decreases Left(t, i), 1
  {
    var j := Skip(t, i + 1);
    if At(t, j) == '}' then Ok([], j + 1) else ParseMembers(t, j)
  }

  /** Values separated by commas up to and including the closing bracket. */
  function ParseItems(t: string, i: nat): (r: Parsed<seq<Value>>)
    ensures r.Ok? ==> r.end > i
    decreases Left(t, i), 3
  {
    var first := ParseValue(t, i);
    if first.Fail? then Fail
    else
      var j := Skip(t, first.end);
      if At(t, j) == ',' then
        var rest := ParseItems(t, Skip(t, j + 1));
        if rest.Fail? then Fail else Ok([first.value] + rest.value, rest.end)
      else if At(t, j) == ']' then Ok([first.value], j + 1)
      else Fail
  }

  function ParseMember(t: string, i: nat): (r: Parsed<Member>)
    ensures r.Ok? ==> r.end > i
    decreases Left(t, i), 3
  {
    var name := ParseString(t, i);
    if name.Fail? then Fail
    else
      var j := Skip(t, name.end);
      if At(t, j) != ':' then Fail
      else
        var value := ParseValue(t, Skip(t, j + 1));
        if value.Fail? then Fail else Ok(Member(name.value, value.value), value.end)
  }

  function ParseMembers(t: string, i: nat): (r: Parsed<seq<Member>>)
    ensures r.Ok? ==> r.end > i
    decreases Left(t, i), 4
  {
    var first := ParseMember(t, i);
    if first.Fail? then Fail
    else
      var j := Skip(t, first.end);
      if At(t, j) == ',' then
        var rest := ParseMembers(t, Skip(t, j + 1));
        if rest.Fail? then Fail else Ok([first.value] + rest.value, rest.end)
      else if At(t, j) == '}' then Ok([first.value], j + 1)
      else Fail
  }
}
