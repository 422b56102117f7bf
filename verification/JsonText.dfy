/** JSON trees and the text the printer gives them.  A byte is a char with the same code; texts end at NUL. */
module JsonText {
  datatype Value =
    | Null
    | False
    | True
    | Number(n: real)
    | String(s: string)
    | Array(items: seq<Value>)
    | Object(members: seq<Member>)

  datatype Member = Member(name: string, value: Value)

  /** Characters with an escape of their own. */
  function ShortEscape(c: char): char {
    match c
    case '\"' => '\"'
    case '\\' => '\\'
    case '\U{08}' => 'b'
    case '\U{0C}' => 'f'
    case '\n' => 'n'
    case '\r' => 'r'
    case '\t' => 't'
    case _ => '\0'
  }

  function HexDigit(d: nat): char
    requires d < 16
  {
    if d < 10 then ('0' as int + d) as char else ('a' as int + d - 10) as char
  }

  predicate Plain(c: char) { c > '\U{1F}' && c != '\"' && c != '\\' }

  function Escape(c: char): string {
    if Plain(c) then [c]
    else if ShortEscape(c) != '\0' then ['\\', ShortEscape(c)]
    else ['\\', 'u', '0', '0', HexDigit(c as int / 16), HexDigit(c as int % 16)]
  }

  /** The rest of a string literal: the characters, escaped, and the closing quote. */
  function Tail(s: string): (r: string)
    ensures |r| > 0
  {
    if s == "" then "\"" else Escape(s[0]) + Tail(s[1..])
  }

  function Quoted(s: string): string { "\"" + Tail(s) }

  function Digits(n: nat): string {
    if n < 10 then [HexDigit(n)] else Digits(n / 10) + [HexDigit(n % 10)]
  }

  function Decimal(n: int): string {
    if n < 0 then "-" + Digits(-n) else Digits(n)
  }

  predicate Int32(n: real) { n == n.Floor as real && -0x8000_0000 <= n.Floor < 0x8000_0000 }

  predicate NulFree(s: string) { forall i :: 0 <= i < |s| ==> s[i] != '\0' }

  /** Trees whose printed form is modelled: 32-bit integers, and strings as C has them. */
  predicate Printable(v: Value) {
    match v
    case Number(n) => Int32(n)
    case String(s) => NulFree(s)
    case Array(items) => forall x :: x in items ==> Printable(x)
    case Object(members) => forall m :: m in members ==> NulFree(m.name) && Printable(m.value)
    case _ => true
  }

  function Tabs(n: int): (r: string)
    ensures |r| == if n > 0 then n else 0
    ensures forall i :: 0 <= i < |r| ==> r[i] == '\t'
  {
    if n <= 0 then "" else "\t" + Tabs(n - 1)
  }

  function Comma(fmt: bool): string { if fmt then ", " else "," }

  function Colon(fmt: bool): string { if fmt then ":\t" else ":" }

  function Opening(fmt: bool): string { if fmt then "{\n" else "{" }

  function Closing(tabs: int): string { Tabs(tabs) + "}" }

  /** What follows a member: a comma unless it is the last, and a line break in formatted text. */
  function Separator(more: bool, fmt: bool): string { (if more then "," else "") + (if fmt then "\n" else "") }

  /** The text of a tree at a depth, with (fmt) or without layout. */
  function Text(v: Value, depth: nat, fmt: bool): string
    requires Printable(v)
    decreases v, 1
  {
    match v
    case Null => "null"
    case False => "false"
    case True => "true"
    case Number(n) => Decimal(n.Floor)
    case String(s) => Quoted(s)
    case Array(items) => "[" + if items == [] then "]" else ItemsText(items, depth + 1, fmt)
    case Object(members) =>
      Opening(fmt)
      + if members == [] then Closing(if fmt then depth - 1 else 0) else MembersText(members, depth + 1, fmt)
  }

  /** The items of an array and its closing bracket. */
  function ItemsText(items: seq<Value>, depth: nat, fmt: bool): string
    requires items != [] && forall x :: x in items ==> Printable(x)
    decreases items, 0
  {
    Text(items[0], depth, fmt) + if |items| == 1 then "]" else Comma(fmt) + ItemsText(items[1..], depth, fmt)
  }

  function MemberText(m: Member, depth: nat, fmt: bool): string
    requires NulFree(m.name) && Printable(m.value)
    decreases m, 2
  {
    Tabs(if fmt then depth else 0) + (Quoted(m.name) + (Colon(fmt) + Text(m.value, depth, fmt)))
  }

  /** The members of an object and its closing brace, which stands one tab to the left of them. */
  function MembersText(members: seq<Member>, depth: nat, fmt: bool): string
    requires members != [] && forall m :: m in members ==> NulFree(m.name) && Printable(m.value)
    decreases members, 3
  {
    MemberText(members[0], depth, fmt)
    + (Separator(|members| > 1, fmt)
       + if |members| == 1 then Closing(if fmt then depth - 1 else 0) else MembersText(members[1..], depth, fmt))
  }
}
