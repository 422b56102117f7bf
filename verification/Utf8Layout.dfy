/**
 * How characters look as bytes and as 16-bit units, written out from section 2 of RFC 2279 (which goes up to six bytes)
 * and section 2.1 of RFC 2781.
 */
module Utf8Layout {
  import opened Octets
  import opened Options
  import opened Words
  import opened Utf8
  import opened Utf16

  /** The bytes of a character, by its size. */
  function Size(c: nat): nat {
    if c <= 0x7F then 1 else if c <= 0x7FF then 2 else if c <= 0xFFFF then 3 else if c <= 0x1F_FFFF then 4
    else if c <= 0x3FF_FFFF then 5 else 6
  }

  /** How many bytes a first byte announces, itself included; 0 for one that begins nothing. */
  function AnnouncedBy(b: Byte): nat {
    if b <= 0x7F then 1 else if b <= 0xBF then 0 else if b <= 0xDF then 2 else if b <= 0xEF then 3
    else if b <= 0xF7 then 4 else if b <= 0xFB then 5 else if b <= 0xFD then 6 else 0
  }

  /** The first byte of so many, with all of its bits for the character clear. */
  function Mark(n: nat): nat {
    if n == 2 then 0xC0 else if n == 3 then 0xE0 else if n == 4 then 0xF0 else if n == 5 then 0xF8
    else if n == 6 then 0xFC else 0
  }

  /** The first k bytes behind `at` all carry six bits each. */
  predicate Continue(s: seq<Byte>, at: nat, k: nat) {
    k == 0 || (Continue(s, at, k - 1) && 0x80 <= At(s, at + k) <= 0xBF)
  }

  /** What the first byte carries, and six bits more for each of the k bytes behind it. */
  function Carried(s: seq<Byte>, at: nat, k: nat, first: int): int {
    if k == 0 then first else Carried(s, at, k - 1, first) * 64 + (At(s, at + k) - 0x80)
  }

  /** The n bytes at `at` are those of c. */
  predicate LaidOut(s: seq<Byte>, at: nat, n: nat, c: nat) {
    && n > 0 && AnnouncedBy(At(s, at)) == n && Continue(s, at, n - 1)
    && Carried(s, at, n - 1, At(s, at) - Mark(n)) == c
  }

  // ------------------------------------------------------------------ written

  lemma {:induction false} TailCarried(s: seq<Byte>, at: nat, c: nat, k: nat)
    requires Has(s, at + 1, Tail(c, k))
    ensures Continue(s, at, k) && Carried(s, at, k, Head(c, k)) == c
    decreases k
  {
    if k > 0 {
      var bytes := Tail(c, k);
      assert bytes[..k - 1] == Tail(c / 64, k - 1);
      HasBoth(s, at + 1, Tail(c / 64, k - 1), [c % 64 + 128]);
      assert s[at + k..at + k + 1][0] == s[at + k];
      hide Has;
      TailCarried(s, at, c / 64, k - 1);
    }
  }

  /** Every character below 2^31 is written in the least number of bytes, laid out so. */
  lemma BytesLaidOut(s: seq<Byte>, at: nat, c: Word)
    requires c < 0x8000_0000 && Has(s, at, Bytes(c))
    ensures |Bytes(c)| == Size(c) && LaidOut(s, at, Size(c), c)
  {
    var n := Length(c);
    HeadFits(c);
    HasBoth(s, at, [Lead(n) + Head(c, n - 1)], Tail(c, n - 1));
    assert s[at..at + 1][0] == s[at];
    TailCarried(s, at, c, n - 1);
    hide Tail;
    hide Head;
    hide Has;
    hide Continue;
    hide Carried;
  }

  // ------------------------------------------------------------------ read

  lemma {:induction false} GatheredIs(s: seq<Byte>, at: nat, v: nat, k: nat)
    ensures Gathered(s, at, v, k).Some? <==> Continue(s, at, k)
    ensures Gathered(s, at, v, k).Some? ==> Gathered(s, at, v, k).value == Carried(s, at, k, v)
  {
    if k > 0 {
      GatheredIs(s, at, v, k - 1);
      SixBits(At(s, at + k));
    }
  }

  lemma SixBits(b: Byte)
    ensures b / 64 == 2 <==> 0x80 <= b <= 0xBF
    ensures 0x80 <= b <= 0xBF ==> b % 64 == b - 0x80
  {
  }

  lemma FirstBits(lead: Byte)
    ensures Announced(lead) == AnnouncedBy(lead)
    ensures AnnouncedBy(lead) > 0 ==>
      Skip(lead) == AnnouncedBy(lead) && lead % Room(AnnouncedBy(lead)) == lead - Mark(AnnouncedBy(lead))
  {
  }

  /** A character is read if and only if bytes are laid out so, in the least number or in more, and it is theirs. */
  lemma ReadLaidOut(s: seq<Byte>, at: nat, c: nat, n: nat)
    ensures GetChar(s, at) == Some((c, at + n)) <==> LaidOut(s, at, n, c)
  {
    var lead := At(s, at);
    FirstBits(lead);
    hide Skip;
    hide Announced;
    hide Room;
    hide Mark;
    hide AnnouncedBy;
    hide At;
    if AnnouncedBy(lead) > 0 {
      GatheredIs(s, at, lead - Mark(AnnouncedBy(lead)), AnnouncedBy(lead) - 1);
    }
    hide Gathered;
    hide Carried;
    hide Continue;
  }

  // ------------------------------------------------------------------ units

  /** A character as 16-bit units: itself, or above 0xFFFF a high and a low surrogate with ten bits each. */
  lemma UnitsAre(c: nat)
    requires c <= 0x10_FFFF
    ensures c <= 0xFFFF ==> UnitsOf(c, false) == [c]
    ensures c > 0xFFFF ==> var u := UnitsOf(c, false);
      && |u| == 2 && 0xD800 <= u[0] <= 0xDBFF && 0xDC00 <= u[1] <= 0xDFFF
      && 0x1_0000 + (u[0] - 0xD800) * 0x400 + (u[1] - 0xDC00) == c
  {
  }

  /** A pair of surrogates is read as that character. */
  lemma PairIs(h: Word, l: Word)
    requires 0xD800 <= h <= 0xDBFF && 0xDC00 <= l <= 0xDFFF
    ensures High(h) && Low(l) && UnitsOf(SurrogateValue(h, l), false) == [h, l]
    ensures Points([h, l], 0, 0) == Some([SurrogateValue(h, l)])
  {
    var s := [h, l];
    assert Points(s, 2, 0) == Some([]);
    BeforeLaws([SurrogateValue(h, l)], [], Some([]));
    assert Points(s, 1, h) == Before([SurrogateValue(h, l)], Some([]));
  }
}
