/** Characters as UTF-8 bytes and back. */
module Utf8 {
  import opened Octets
  import opened Options
  import opened Words

  function Pow64(k: nat): (r: nat)
    ensures r >= 1
  {
    if k == 0 then 1 else 64 * Pow64(k - 1)
  }

  lemma Powers()
    ensures Pow64(1) == 0x40 && Pow64(2) == 0x1000 && Pow64(3) == 0x4_0000 && Pow64(4) == 0x100_0000
    ensures Pow64(5) == 0x4000_0000
  {
  }

  // ------------------------------------------------------------------ writing a character

  /** UTF8_LENGTH */
  function Length(c: Word): (n: nat)
    ensures 1 <= n <= 6
  {
    if c < 0x80 then 1 else if c < 0x800 then 2 else if c < 0x1_0000 then 3 else if c < 0x20_0000 then 4
    else if c < 0x400_0000 then 5 else 6
  }

  /** The marker bits of a leading byte. */
  function Lead(n: nat): Byte
    requires 1 <= n <= 6
  {
    match n case 1 => 0 case 2 => 0xC0 case 3 => 0xE0 case 4 => 0xF0 case 5 => 0xF8 case 6 => 0xFC
  }

  /** The last k bytes of a character, six bits each. */
  function Tail(c: nat, k: nat): (r: seq<Byte>)
    ensures |r| == k
  {
    if k == 0 then [] else Tail(c / 64, k - 1) + [c % 64 + 128]
  }

  function Head(c: nat, k: nat): nat { if k == 0 then c else Head(c / 64, k - 1) }

  /** What is left of a character for its leading byte fits beside the marker. */
  lemma HeadFits(c: Word)
    ensures Head(c, Length(c) - 1) + Lead(Length(c)) < 256
    ensures c < 0x8000_0000 ==> Head(c, Length(c) - 1) < Room(Length(c))
  {
    Powers();
    HeadIs(c, Length(c) - 1);
  }

  /** Values a leading byte has room for. */
  function Room(n: nat): nat
    requires 1 <= n <= 6
  {
    match n case 1 => 128 case 2 => 32 case 3 => 16 case 4 => 8 case 5 => 4 case 6 => 2
  }

  lemma {:induction false} HeadIs(c: nat, k: nat)
    ensures Head(c, k) * Pow64(k) <= c < (Head(c, k) + 1) * Pow64(k)
  {
    if k > 0 {
      HeadIs(c / 64, k - 1);
      var h, p := Head(c, k), Pow64(k - 1);
      assert 64 * (h * p) <= 64 * (c / 64) <= c;
      assert c / 64 + 1 <= (h + 1) * p;
      assert c < 64 * (c / 64 + 1) <= 64 * ((h + 1) * p);
      Scaled(h, p);
      Scaled(h + 1, p);
    }
  }

  lemma Scaled(h: nat, p: nat)
    ensures h * (64 * p) == 64 * (h * p)
  {
  }

  function Bytes(c: Word): (r: seq<Byte>)
    ensures |r| == Length(c)
  {
    HeadFits(c);
    [Lead(Length(c)) + Head(c, Length(c) - 1)] + Tail(c, Length(c) - 1)
  }

  /** unichar_to_utf8: written from the last byte to the first. */
  method PutChar(c: Word, out: array<Byte>, at: nat) returns (len: nat)
    requires at + Length(c) <= out.Length
    modifies out
    ensures len == Length(c) && out[at..at + len] == Bytes(c)
    ensures forall j :: 0 <= j < at || at + len <= j < out.Length ==> out[j] == old(out[j])
  {
    len := Length(c);
    HeadFits(c);
    BytesAre(c);
    hide Length;
    hide Lead;
    hide Bytes;
    hide Head;
    hide Tail;
    var rest: nat := c;
    var i := len - 1;
    assert out[at + i + 1..at + len] == [];
    while i > 0
      invariant 0 <= i < len && 0 <= rest
      invariant Tail(rest, i) + out[at + i + 1..at + len] == Tail(c, len - 1)
      invariant Head(rest, i) == Head(c, len - 1)
      invariant forall j :: 0 <= j < at || at + len <= j < out.Length ==> out[j] == old(out[j])
    {
      ghost var done := out[at + i + 1..at + len];
      out[at + i] := rest % 64 + 128;
      assert out[at + i..at + len] == [rest % 64 + 128] + done;
      TailStep(rest, i, done);
      rest := rest / 64;
      i := i - 1;
    }
    TailStep(rest, 0, out[at + 1..at + len]);
    out[at] := Lead(len) + rest;
    assert out[at..at + len] == [out[at]] + out[at + 1..at + len];
  }

  lemma BytesAre(c: Word)
    ensures Head(c, Length(c) - 1) + Lead(Length(c)) < 256
    ensures Bytes(c) == [Lead(Length(c)) + Head(c, Length(c) - 1)] + Tail(c, Length(c) - 1)
  {
    HeadFits(c);
  }

  lemma TailStep(c: nat, k: nat, done: seq<Byte>)
    ensures k > 0 ==>
      Tail(c, k) + done == Tail(c / 64, k - 1) + ([c % 64 + 128] + done) && Head(c, k) == Head(c / 64, k - 1)
    ensures k == 0 ==> Tail(c, k) + done == done && Head(c, k) == c
  {
  }

  // ------------------------------------------------------------------ reading a character

  /** utf8_get_bytes_of_leading */
  function Skip(lead: Byte): (n: nat)
    ensures 1 <= n <= 6
  {
    if lead < 0xC0 then 1 else if lead < 0xE0 then 2 else if lead < 0xF0 then 3 else if lead < 0xF8 then 4
    else if lead < 0xFC then 5 else if lead < 0xFE then 6 else 1
  }

  /** UTF8_COMPUTE: 0 for a byte that leads nothing. */
  function Announced(lead: Byte): nat { if 0x80 <= lead < 0xC0 || lead >= 0xFE then 0 else Skip(lead) }

  /** The value of a leading byte and k bytes behind it, unless one of them does not continue. */
  function Gathered(s: seq<Byte>, at: nat, v: nat, k: nat): Option<nat> {
    if k == 0 then Some(v)
    else match Gathered(s, at, v, k - 1)
    case None => None
    case Some(w) => if At(s, at + k) / 64 == 2 then Some(w * 64 + At(s, at + k) % 64) else None
  }

  /** Every byte read makes the bound 64 times as large. */
  lemma {:induction false} GatherBound(s: seq<Byte>, at: nat, v: nat, k: nat)
    requires Gathered(s, at, v, k).Some?
    ensures Gathered(s, at, v, k).value < (v + 1) * Pow64(k)
  {
    if k > 0 {
      GatherBound(s, at, v, k - 1);
      Scaled(v + 1, Pow64(k - 1));
    }
  }

  lemma CharBound(s: seq<Byte>, at: nat, lead: Byte, n: nat)
    requires 1 <= n <= 6 && Gathered(s, at, lead % Room(n), n - 1).Some?
    ensures Gathered(s, at, lead % Room(n), n - 1).value < 0x8000_0000
  {
    Powers();
    GatherBound(s, at, lead % Room(n), n - 1);
    hide Gathered;
    assert lead % Room(n) + 1 <= Room(n);
    assert (lead % Room(n) + 1) * Pow64(n - 1) <= Room(n) * Pow64(n - 1) <= 0x8000_0000;
  }

  /** utf8_get_char: the character and the index of the next, or None for the value -1. */
  function GetChar(s: seq<Byte>, at: nat): (r: Option<(nat, nat)>)
    ensures r.Some? ==> r.value.0 < 0x8000_0000 && at < r.value.1 <= at + 6
  {
    var lead := At(s, at);
    var n := Announced(lead);
    if n == 0 then None
    else match Gathered(s, at, lead % Room(n), n - 1)
    case None => None
    case Some(v) => CharBound(s, at, lead, n); Some((v, at + Skip(lead)))
  }

  method ReadChar(s: seq<Byte>, at: nat) returns (r: Option<(nat, nat)>)
    ensures r == GetChar(s, at)
  {
    var lead := At(s, at);
    var n := Announced(lead);
    if n == 0 {
      return None;
    }
    var result := lead % Room(n);
    var i := 1;
    while i < n
      invariant 1 <= i <= n && 0 <= result && Gathered(s, at, lead % Room(n), i - 1) == Some(result)
    {
      if At(s, at + i) / 64 != 2 {
        NoneStays(s, at, lead % Room(n), i, n - 1);
        return None;
      }
      result := result * 64 + At(s, at + i) % 64;
      i := i + 1;
    }
    return Some((result, at + Skip(lead)));
  }

  lemma {:induction false} NoneStays(s: seq<Byte>, at: nat, v: nat, i: nat, k: nat)
    requires i <= k && Gathered(s, at, v, i) == None
    ensures Gathered(s, at, v, k) == None
  {
    if i < k {
      NoneStays(s, at, v, i, k - 1);
    }
  }

  lemma {:induction false} GatherTail(s: seq<Byte>, at: nat, c: nat, k: nat)
    requires Has(s, at + 1, Tail(c, k))
    ensures Gathered(s, at, Head(c, k), k) == Some(c)
  {
    if k > 0 {
      var bytes := Tail(c, k);
      assert s[at + 1..at + 1 + k][..k - 1] == s[at + 1..at + k] && bytes[..k - 1] == Tail(c / 64, k - 1);
      assert s[at + k] == s[at + 1..at + 1 + k][k - 1] == bytes[k - 1];
      GatherTail(s, at, c / 64, k - 1);
    }
  }

  /** The leading byte tells the length of the character and gives its first bits back. */
  lemma LeadRead(c: Word)
    requires c < 0x8000_0000
    ensures var n := Length(c); var lead := Bytes(c)[0];
      Skip(lead) == n && Announced(lead) == n && lead % Room(n) == Head(c, n - 1)
  {
    HeadFits(c);
    hide Tail;
    hide Head;
  }

  /** Reading undoes writing for every character below 2^31. */
  lemma CharRoundTrip(s: seq<Byte>, at: nat, c: Word)
    requires c < 0x8000_0000 && Has(s, at, Bytes(c))
    ensures GetChar(s, at) == Some((c as nat, at + Length(c)))
  {
    var n := Length(c);
    var lead := Bytes(c)[0];
    LeadRead(c);
    assert s[at] == s[at..at + n][0] == lead;
    assert s[at + 1..at + n] == s[at..at + n][1..] == Tail(c, n - 1);
    hide Skip;
    hide Announced;
    hide Room;
    hide Length;
    hide Bytes;
    GatherTail(s, at, c, n - 1);
    hide Gathered;
    hide Tail;
    hide Head;
  }
}
