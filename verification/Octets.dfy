/** Bytes, and what stands where in a buffer of bytes. */
module Octets {
  type Byte = x: int | 0 <= x < 256

  /** What a read at i finds; memory behind the data reads as 0 here. */
  function At(buf: seq<Byte>, i: nat): Byte { if i < |buf| then buf[i] else 0 }

  /** The bytes stand at this place of the buffer. */
  predicate Has(buf: seq<Byte>, at: nat, bytes: seq<Byte>) {
    at + |bytes| <= |buf| && buf[at..at + |bytes|] == bytes
  }

  lemma HasAll(buf: seq<Byte>)
    ensures Has(buf, 0, buf)
  {
    assert buf[0..|buf|] == buf;
  }

  lemma HasBoth(buf: seq<Byte>, at: nat, a: seq<Byte>, b: seq<Byte>)
    requires Has(buf, at, a + b)
    ensures Has(buf, at, a) && Has(buf, at + |a|, b)
  {
    var all := buf[at..at + |a + b|];
    assert all[..|a|] == a && all[|a|..] == b;
    assert buf[at..at + |a|] == all[..|a|] && buf[at + |a|..at + |a| + |b|] == all[|a|..];
  }
}
