/** The byte FIFO of the log: a power-of-two buffer under two 32-bit counters that are never reduced. */
module Fifo {
  import opened Bits
  import opened Octets
  import opened Words
  import opened Sequences

  // ------------------------------------------------------------------ the size

  function And(x: nat, y: nat): nat {
    if x == 0 || y == 0 then 0 else (if x % 2 == 1 && y % 2 == 1 then 1 else 0) + 2 * And(x / 2, y / 2)
  }

  ghost predicate PowerOfTwo(x: nat) { exists k: nat :: x == Pow2(k) }

  lemma {:induction false} AndSelf(x: nat)
    ensures And(x, x) == x
  {
    if x > 0 {
      AndSelf(x / 2);
    }
  }

  /** x & (x - 1) drops the lowest bit, so only powers of two are left with nothing. */
  lemma {:induction false} AndPredecessor(x: nat)
    requires x > 0
    ensures And(x, x - 1) == 0 <==> PowerOfTwo(x)
  {
    if x % 2 == 1 {
      AndSelf(x / 2);
      if x == 1 {
        assert Pow2(0) == 1;
      } else {
        assert And(x, x - 1) == 2 * And(x / 2, x / 2);
        OddPower(x);
      }
    } else {
      AndPredecessor(x / 2);
      assert (x - 1) / 2 == x / 2 - 1;
      if PowerOfTwo(x) {
        var k: nat :| x == Pow2(k);
        assert x / 2 == Pow2(k - 1);
      }
      if PowerOfTwo(x / 2) {
        var k: nat :| x / 2 == Pow2(k);
        assert x == Pow2(k + 1);
      }
    }
  }

  lemma OddPower(x: nat)
    ensures x % 2 == 1 && PowerOfTwo(x) ==> x == 1
  {
    if PowerOfTwo(x) {
      var k: nat :| x == Pow2(k);
    }
  }

  /** The low k bits. */
  function Low(x: nat, k: nat): (r: nat)
    ensures r < Pow2(k)
  {
    if k == 0 then 0 else x % 2 + 2 * Low(x / 2, k - 1)
  }

  /** Masking with a power of two less one leaves the low bits. */
  lemma {:induction false} AndMask(x: nat, k: nat)
    ensures And(x, Pow2(k) - 1) == Low(x, k)
  {
    if x == 0 {
      LowZero(k);
    } else if k > 0 {
      AndMask(x / 2, k - 1);
      assert (2 * Pow2(k - 1) - 1) / 2 == Pow2(k - 1) - 1;
    }
  }

  lemma {:induction false} LowZero(k: nat)
    ensures Low(0, k) == 0
  {
    if k > 0 {
      LowZero(k - 1);
    }
  }

  lemma {:induction false} LowNext(x: nat, k: nat)
    ensures Low(x + 1, k) == if Low(x, k) + 1 == Pow2(k) then 0 else Low(x, k) + 1
  {
    if k > 0 {
      LowNext(x / 2, k - 1);
      assert x % 2 == 1 ==> (x + 1) / 2 == x / 2 + 1;
      assert x % 2 == 0 ==> (x + 1) / 2 == x / 2;
    }
  }

  /** Going on by t wraps at most once. */
  lemma {:induction false} LowAdd(x: nat, t: nat, k: nat)
    requires t <= Pow2(k)
    ensures Low(x + t, k) == if Low(x, k) + t < Pow2(k) then Low(x, k) + t else Low(x, k) + t - Pow2(k)
    decreases t
  {
    hide Low;
    if t > 0 {
      LowAdd(x, t - 1, k);
      LowNext(x + t - 1, k);
    }
  }

  /** The low bits of a counter do not depend on where it wraps. */
  lemma {:induction false} LowLow(x: nat, k: nat, n: nat)
    requires k <= n
    ensures Low(Low(x, n), k) == Low(x, k)
  {
    if k > 0 {
      LowLow(x / 2, k - 1, n - 1);
      assert Low(x, n) % 2 == x % 2 && Low(x, n) / 2 == Low(x / 2, n - 1);
    }
  }

  lemma Pow32()
    ensures Pow2(32) == WRAP
  {
    assert Pow2(8) == 256;
    assert Pow2(16) == 256 * Pow2(8) by {
      assert Pow2(12) == 16 * Pow2(8);
    }
    assert Pow2(24) == 256 * Pow2(16) by {
      assert Pow2(20) == 16 * Pow2(16);
    }
    assert Pow2(28) == 16 * Pow2(24);
  }

  /** A 32-bit counter is the remainder of the bytes counted. */
  lemma {:induction false} LowIsRemainder(x: nat)
    ensures Low(x, 32) == x % WRAP
  {
    hide Low;
    Pow32();
    hide Pow2;
    if x == 0 {
      LowZero(32);
    } else {
      LowIsRemainder(x - 1);
      LowNext(x - 1, 32);
    }
  }

  /** x with n zero bits behind it. */
  function Scale(x: nat, n: nat): nat { if n == 0 then x else 2 * Scale(x, n - 1) }

  lemma {:induction false} ScaleBoth(x: nat, a: nat, b: nat)
    ensures Scale(Scale(x, a), b) == Scale(x, a + b)
  {
    if b > 0 {
      ScaleBoth(x, a, b - 1);
    }
  }

  lemma {:induction false} ScaleBounds(x: nat, n: nat, r: nat)
    ensures Scale(x, n) < Pow2(n + r) <==> x < Pow2(r)
  {
    if n > 0 {
      ScaleBounds(x, n - 1, r);
    }
  }

  lemma ScaleFour(x: nat)
    ensures Scale(x, 1) == 2 * x && Scale(x, 2) == 4 * x && Scale(x, 4) == 16 * x
  {
    assert Scale(x, 2) == 2 * Scale(x, 1);
    assert Scale(x, 4) == 2 * Scale(x, 3);
  }

  lemma Shifts(x: nat)
    ensures Scale(x, 1) == 2 * x && Scale(x, 2) == 4 * x && Scale(x, 4) == 16 * x && Scale(x, 8) == 256 * x
    ensures Scale(x, 16) == 65536 * x
  {
    ScaleFour(x);
    ScaleBoth(x, 4, 4);
    ScaleFour(Scale(x, 4));
    ScaleBoth(x, 8, 4);
    ScaleFour(Scale(x, 8));
    ScaleBoth(x, 12, 4);
    ScaleFour(Scale(x, 12));
  }

  /** One test of _flbs: a number without its top n bits is shifted up by n. */
  method Test(x: Word, r: nat, n: nat, limit: nat, factor: nat, ghost start: Word) returns (y: Word, q: nat)
    requires (n, limit, factor) in [(16, 0x1_0000, 0x1_0000), (8, 0x100_0000, 0x100), (4, 0x1000_0000, 16),
      (2, 0x4000_0000, 4), (1, 0x8000_0000, 2)]
    requires n < r <= 32 && x == Scale(start, 32 - r) && limit <= x * factor
    ensures r - n <= q <= r && y == Scale(start, 32 - q) && y >= limit
  {
    y, q := x, r;
    if x < limit {
      Shifts(x);
      ScaleBoth(start, 32 - r, n);
      y := x * factor % WRAP;
      q := r - n;
    }
  }

  /** _flbs: the number of bits of x. */
  method Flbs(x: Word) returns (r: nat)
    ensures x == 0 ==> r == 0
    ensures x > 0 ==> 1 <= r <= 32 && Pow2(r - 1) <= x < Pow2(r)
  {
    hide Scale;
    hide Pow2;
    if x == 0 {
      return 0;
    }
    var y := x;
    r := 32;
    assert Scale(x, 0) == x by { ScaleNothing(x); }
    y, r := Test(y, r, 16, 0x1_0000, 0x1_0000, x);
    y, r := Test(y, r, 8, 0x100_0000, 0x100, x);
    y, r := Test(y, r, 4, 0x1000_0000, 16, x);
    y, r := Test(y, r, 2, 0x4000_0000, 4, x);
    y, r := Test(y, r, 1, 0x8000_0000, 2, x);
    Pow32();
    Pow31();
    ScaleBounds(x, 32 - r, r);
    ScaleBounds(x, 32 - r, r - 1);
  }

  lemma ScaleNothing(x: nat)
    ensures Scale(x, 0) == x
  {
  }

  lemma Pow31()
    ensures Pow2(31) == 0x8000_0000
  {
    Pow32();
    assert Pow2(32) == 2 * Pow2(31);
  }

  /** The size asked for, rounded down to a power of two; 0 when none was asked for. */
  method CreatedSize(size: Word) returns (r: Word, ghost k: nat)
    ensures size == 0 ==> r == 0
    ensures size > 0 ==> r == Pow2(k) && r <= size < 2 * r
  {
    if size == 0 {
      return 0, 0;
    }
    AndPredecessor(size);
    if And(size, size - 1) != 0 {
      var bits := Flbs(size - 1);
      k := bits - 1;
      NotPower(size, bits);
      r := PowerBelow(bits - 1);
    } else {
      k :| size == Pow2(k);
      r := size;
    }
  }

  /** 1 << n */
  method PowerBelow(n: nat) returns (r: Word)
    requires n < 32
    ensures r == Pow2(n)
  {
    var i, p := 0, 1;
    while i < n
      invariant 0 <= i <= n && p == Pow2(i)
    {
      p := 2 * p;
      i := i + 1;
    }
    Pow31();
    Pow2Grows(n, 31);
    r := p;
  }

  lemma {:induction false} Pow2Grows(a: nat, b: nat)
    requires a <= b
    ensures Pow2(a) <= Pow2(b)
  {
    if a < b {
      Pow2Grows(a, b - 1);
    }
  }

  lemma NotPower(size: nat, bits: nat)
    requires size > 0 && !PowerOfTwo(size) && bits > 0 && Pow2(bits - 1) <= size - 1 < Pow2(bits)
    ensures Pow2(bits - 1) <= size < Pow2(bits) == 2 * Pow2(bits - 1)
  {
    assert size != Pow2(bits);
  }

  // ------------------------------------------------------------------ the FIFO

  /** A buffer after s was laid into it from `at` on, the rest of s from the start. */
  function Ringed(ring: seq<Byte>, at: nat, s: seq<Byte>): (r: seq<Byte>)
    requires at < |ring| && |s| <= |ring|
    ensures |r| == |ring|
  {
    seq(|ring|, i requires 0 <= i < |ring| => RingedAt(ring, at, s, i))
  }

  function RingedAt(ring: seq<Byte>, at: nat, s: seq<Byte>, i: nat): Byte
    requires at < |ring| && |s| <= |ring| && i < |ring|
  {
    if at <= i < at + |s| then s[i - at]
    else if i + |ring| - at < |s| then s[i + |ring| - at]
    else ring[i]
  }

  /** Two copies: up to the end of the buffer, and from its start. */
  method CopyIn(buff: array<Byte>, at: nat, s: seq<Byte>)
    requires at < buff.Length && |s| <= buff.Length
    modifies buff
    ensures buff[..] == Ringed(old(buff[..]), at, s)
  {
    var l := if |s| < buff.Length - at then |s| else buff.Length - at;
    Store(buff, at, s[..l]);
    Store(buff, 0, s[l..]);
  }

  /** s is what stands in the ring from `at` on. */
  ghost predicate CopiedOut(ring: seq<Byte>, at: nat, s: seq<Byte>)
    requires at < |ring| && |s| <= |ring|
  {
    forall i :: 0 <= i < |s| ==> s[i] == ring[if at + i < |ring| then at + i else at + i - |ring|]
  }

  method CopyOut(buff: array<Byte>, at: nat, n: nat) returns (s: seq<Byte>)
    requires at < buff.Length && n <= buff.Length
    ensures |s| == n && CopiedOut(buff[..], at, s)
  {
    var l := if n < buff.Length - at then n else buff.Length - at;
    s := buff[at..at + l] + buff[0..n - l];
  }

  /** The ring holds every byte of the history from `taken` on, each at its number modulo the size. */
  ghost predicate Holds(ring: seq<Byte>, written: seq<Byte>, taken: nat, bits: nat)
    requires |ring| == Pow2(bits)
  {
    forall j :: taken <= j < |written| ==> ring[Low(j, bits)] == written[j]
  }

  lemma HoldsMore(ring: seq<Byte>, written: seq<Byte>, taken: nat, bits: nat, s: seq<Byte>)
    requires |ring| == Pow2(bits) && Holds(ring, written, taken, bits)
    requires taken <= |written| && |written| + |s| <= taken + |ring|
    ensures Holds(Ringed(ring, Low(|written|, bits), s), written + s, taken, bits)
  {
    var after := Ringed(ring, Low(|written|, bits), s);
    forall j | taken <= j < |written + s| ensures after[Low(j, bits)] == (written + s)[j] {
      Place(ring, written, taken, bits, s, j);
    }
  }

  lemma Place(ring: seq<Byte>, written: seq<Byte>, taken: nat, bits: nat, s: seq<Byte>, j: nat)
    requires |ring| == Pow2(bits) && Holds(ring, written, taken, bits)
    requires taken <= |written| && |written| + |s| <= taken + |ring| && taken <= j < |written| + |s|
    ensures RingedAt(ring, Low(|written|, bits), s, Low(j, bits)) == (written + s)[j]
  {
    var w := |written|;
    if j >= w {
      LowAdd(w, j - w, bits);
    } else {
      LowAdd(j, w - j, bits);
      assert ring[Low(j, bits)] == written[j];
    }
    hide Low;
    hide Holds;
  }

  lemma HoldsLess(ring: seq<Byte>, written: seq<Byte>, taken: nat, bits: nat, n: nat)
    requires |ring| == Pow2(bits) && Holds(ring, written, taken, bits)
    ensures Holds(ring, written, taken + n, bits)
  {
  }

  lemma ReadsHistory(ring: seq<Byte>, written: seq<Byte>, taken: nat, bits: nat, s: seq<Byte>)
    requires |ring| == Pow2(bits) && Holds(ring, written, taken, bits) && taken + |s| <= |written| && |s| <= |ring|
    requires CopiedOut(ring, Low(taken, bits), s)
    ensures s == written[taken..taken + |s|]
  {
    forall i | 0 <= i < |s| ensures s[i] == written[taken + i] {
      LowAdd(taken, i, bits);
      assert ring[Low(taken + i, bits)] == written[taken + i];
    }
  }

  /** A ring of 2^bits bytes under two 32-bit counters holds a history of which `taken` bytes were handed out. */
  ghost predicate Sound(ring: seq<Byte>, bits: nat, written: seq<Byte>, taken: nat, in_: Word, out_: Word) {
    && |ring| == Pow2(bits) && bits <= 31
    && taken <= |written| <= taken + |ring|
    && in_ == Low(|written|, 32) && out_ == Low(taken, 32)
    && Holds(ring, written, taken, bits)
  }

  lemma AcceptedSound(ring: seq<Byte>, bits: nat, written: seq<Byte>, taken: nat, in_: Word, out_: Word, s: seq<Byte>)
    requires Sound(ring, bits, written, taken, in_, out_) && |written| + |s| <= taken + |ring|
    ensures |ring| > 0 && And(in_, |ring| - 1) < |ring| && |s| <= |ring|
    ensures Sound(Ringed(ring, And(in_, |ring| - 1), s), bits, written + s, taken, (in_ + |s|) % WRAP, out_)
  {
    SizeFits(bits);
    hide Low;
    hide Pow2;
    hide Holds;
    hide Ringed;
    hide And;
    IndexOf(|written|, bits);
    HoldsMore(ring, written, taken, bits, s);
    Advance(|written|, |s|);
  }

  lemma OutIndex(ring: seq<Byte>, bits: nat, written: seq<Byte>, taken: nat, in_: Word, out_: Word, n: nat)
    requires Sound(ring, bits, written, taken, in_, out_) && taken + n <= |written|
    ensures |ring| > 0 && And(out_, |ring| - 1) < |ring| && n <= |ring|
  {
    SizeFits(bits);
    IndexOf(taken, bits);
  }

  lemma HandedOutSound(ring: seq<Byte>, bits: nat, written: seq<Byte>, taken: nat, in_: Word, out_: Word, s: seq<Byte>)
    requires Sound(ring, bits, written, taken, in_, out_) && taken + |s| <= |written|
    requires |ring| > 0 && And(out_, |ring| - 1) < |ring| && |s| <= |ring| && CopiedOut(ring, And(out_, |ring| - 1), s)
    ensures s == written[taken..taken + |s|]
    ensures Sound(ring, bits, written, taken + |s|, in_, (out_ + |s|) % WRAP)
  {
    SizeFits(bits);
    hide Low;
    hide Pow2;
    hide Holds;
    hide And;
    hide CopiedOut;
    IndexOf(taken, bits);
    ReadsHistory(ring, written, taken, bits, s);
    HoldsLess(ring, written, taken, bits, |s|);
    Advance(taken, |s|);
  }

  function Min(a: int, b: int): int { if a < b then a else b }

  /**
   * A state in which the input counter has wrapped past the output counter: one byte is held, and byte 2^32 was the
   * last one.
   */
  lemma WrappedState()
    ensures Sound([0], 0, seq(WRAP, i => 0), WRAP - 1, 0, WRAP - 1)
  {
    hide Low;
    hide And;
    LowIsRemainder(WRAP);
    LowIsRemainder(WRAP - 1);
    var written: seq<Byte> := seq(WRAP, i => 0);
    assert Pow2(0) == 1;
    hide Pow2;
    forall j | WRAP - 1 <= j < |written| ensures Low(j, 0) < 1 {
      IndexOf(j, 0);
    }
  }

  class ByteFifo {
    const size: nat
    const buff: array<Byte>
    var in_: Word
    var out_: Word
    ghost const bits: nat         // size is 2^bits
    ghost var written: seq<Byte>  // every byte ever accepted
    ghost var taken: nat          // how many of them were handed out

    /** The counters are those of the history, and the buffer holds what was accepted and not yet handed out. */
    ghost predicate Valid()
      reads this, buff
    {
      size == buff.Length > 0 && Sound(buff[..], bits, written, taken, in_, out_)
    }

    constructor (size: nat, ghost bits: nat)
      requires size == Pow2(bits) && bits <= 31
      ensures Valid() && written == [] && taken == 0 && this.size == size && fresh(buff)
    {
      this.size, this.bits, in_, out_ := size, bits, 0, 0;
      buff := new Byte[size];
      written, taken := [], 0;
      new;
      LowZero(32);
    }

    /** Bytes accepted and not yet handed out. */
    ghost function Used(): int
      reads this
    {
      |written| - taken
    }

    /** in - out, in 32 bits; it also tells which of the counters is ahead. */
    method Difference() returns (d: Word)
      requires Valid()
      ensures d == Used() && in_ == if out_ + d < WRAP then out_ + d else out_ + d - WRAP
    {
      d := (in_ - out_) % WRAP;
      SizeFits(bits);
      Pow32();
      hide Pow2;
      hide Low;
      hide Holds;
      LowAdd(taken, |written| - taken, 32);
    }

    /** The first of the two copies of n bytes from or to index i; the C code keeps its length in an int. */
    function FirstCopy(n: int, i: nat): int { Min(n, size - i) }

    /** salof_fifo_write: what fits is accepted, in at most two pieces. */
    method Write(data: seq<Byte>) returns (n: nat)
      requires Valid() && |data| < WRAP
      requires FirstCopy(Min(|data|, size - Used()), Low(in_, bits)) < 0x8000_0000
      modifies `in_, `written, buff
      ensures Valid() && n == Min(|data|, size - old(Used()))
      ensures written == old(written) + data[..n]
    {
      var used := Difference();
      SizeFits(bits);
      hide Low;
      hide Pow2;
      hide Holds;
      hide Ringed;
      hide And;
      n := Min(|data|, size - used);
      Accept(data[..n]);
    }

    /** Bytes that fit are laid into the ring. */
    method Accept(s: seq<Byte>)
      requires Valid() && |s| <= size - Used()
      modifies `in_, `written, buff
      ensures Valid() && written == old(written) + s
    {
      hide Sound;
      hide Ringed;
      hide And;
      AcceptedSound(buff[..], bits, written, taken, in_, out_, s);
      CopyIn(buff, And(in_, size - 1), s);
      in_ := (in_ + |s|) % WRAP;
      written := written + s;
    }

    /** salof_fifo_read: the oldest bytes, in at most two pieces. */
    method Read(len: nat) returns (data: seq<Byte>)
      requires Valid() && len < WRAP && FirstCopy(Min(len, Used()), Low(out_, bits)) < 0x8000_0000
      modifies `out_, `taken
      ensures Valid() && |data| == Min(len, old(Used()))
      ensures taken == old(taken) + |data| && data == written[old(taken)..taken]
    {
      var used := Difference();
      SizeFits(bits);
      hide Low;
      hide Pow2;
      hide Holds;
      hide And;
      data := HandOut(Min(len, used));
    }

    method HandOut(n: nat) returns (data: seq<Byte>)
      requires Valid() && n <= Used()
      modifies `out_, `taken
      ensures Valid() && |data| == n && taken == old(taken) + n && data == written[old(taken)..taken]
    {
      hide Sound;
      hide And;
      hide CopiedOut;
      OutIndex(buff[..], bits, written, taken, in_, out_, n);
      data := CopyOut(buff, And(out_, size - 1), n);
      HandedOutSound(buff[..], bits, written, taken, in_, out_, data);
      out_ := (out_ + n) % WRAP;
      taken := taken + n;
    }

    /** salof_fifo_read_able: right only while the input counter has not wrapped past the output counter. */
    method ReadAble() returns (n: Word)
      requires Valid()
      ensures n == (Used() + if in_ < out_ then size else 0) % WRAP
      ensures n == Used() <==> in_ >= out_
    {
      hide Low;
      hide Pow2;
      hide Holds;
      SizeFits(bits);
      var d := Difference();
      CountOf(in_, out_, d, size);
      hide Sound;
      if in_ == out_ {
        n := 0;
      } else if in_ > out_ {
        n := in_ - out_;
      } else {
        n := (size - (out_ - in_)) % WRAP;
      }
    }
  }

  /** The three ways to count what is between the counters. */
  lemma CountOf(in_: Word, out_: Word, used: nat, size: nat)
    requires used <= size && 1 <= size <= 0x8000_0000
      && in_ == if out_ + used < WRAP then out_ + used else out_ + used - WRAP
    ensures in_ == out_ ==> used == 0
    ensures in_ > out_ ==> in_ - out_ == used
    ensures in_ < out_ ==> (size - (out_ - in_)) % WRAP == (used + size) % WRAP != used
    ensures used % WRAP == used
  {
    assert in_ < out_ ==> size - (out_ - in_) == used + size - WRAP;
  }

  /** salof_fifo_create: the largest FIFO that is no larger than asked for. */
  method Create(size: Word) returns (fifo: ByteFifo?)
    ensures fifo == null <==> size == 0
    ensures fifo != null ==>
      fresh(fifo) && fifo.Valid() && fifo.written == [] && fifo.taken == 0 && fifo.size <= size < 2 * fifo.size
  {
    fifo := null;
    if size != 0 {
      var aligned, k := CreatedSize(size);
      Pow32();
      if k > 31 {
        Pow2Grows(32, k);
      }
      fifo := new ByteFifo(aligned, k);
    }
  }

  /** Where the byte with number x stands. */
  lemma IndexOf(x: nat, bits: nat)
    requires bits <= 31
    ensures And(Low(x, 32), Pow2(bits) - 1) == Low(x, bits) < Pow2(bits)
  {
    AndMask(Low(x, 32), bits);
    LowLow(x, bits, 32);
  }

  lemma Advance(x: nat, n: nat)
    requires n <= 0x8000_0000
    ensures (Low(x, 32) + n) % WRAP == Low(x + n, 32)
  {
    Pow32();
    hide Pow2;
    hide Low;
    LowAdd(x, n, 32);
  }

  lemma SizeFits(bits: nat)
    requires bits <= 31
    ensures 1 <= Pow2(bits) <= 0x8000_0000
  {
    Pow31();
    Pow2Grows(bits, 31);
  }
}
