/** AES-XTS over an abstract block cipher: tweaks, whole blocks, and ciphertext stealing for the odd tail. */
module Xts {
  import opened Sequences

  type Block = b: seq<bv8> | |b| == 16 witness seq(16, i => 0)

  datatype Mode = Encrypt | Decrypt

  /** The block functions of one key; nothing is assumed of them but what a lemma asks for. */
  datatype Cipher = Cipher(encrypt: Block -> Block, decrypt: Block -> Block) {
    function Ecb(mode: Mode): Block -> Block { if mode == Encrypt then encrypt else decrypt }
  }

  function Other(mode: Mode): Mode { if mode == Encrypt then Decrypt else Encrypt }

  /** The other mode's block function undoes this one's. */
  ghost predicate Undoes(c: Cipher, mode: Mode) {
    forall b: Block :: c.Ecb(Other(mode))(c.Ecb(mode)(b)) == b
  }

  function Xor(a: Block, b: Block): Block { seq(16, i requires 0 <= i < 16 => a[i] ^ b[i]) }

  lemma XorTwice(a: Block, b: Block)
    ensures Xor(Xor(a, b), b) == a
  {
    forall i | 0 <= i < 16 ensures Xor(Xor(a, b), b)[i] == a[i] {
      XorByte(a[i], b[i]);
    }
  }

  lemma XorByte(x: bv8, y: bv8)
    ensures (x ^ y) ^ y == x
  {
  }

  // ------------------------------------------------------------------ the tweak

  /** A byte shifted up by one bit, with the top bit of the byte below it. */
  function Up(x: bv8, below: bv8): bv8 { (x << 1) ^ (below >> 7) }

  /**
   * Byte k of a tweak multiplied by x: every byte shifts up by one bit, and the bit lost at the top comes back as 0x87.
   */
  function Shifted(t: Block, k: nat): bv8
    requires k < 16
  {
    if k == 0 then (t[0] << 1) ^ (if t[15] >= 0x80 then 0x87 else 0) else Up(t[k], t[k - 1])
  }

  function MulX(t: Block): Block { seq(16, k requires 0 <= k < 16 => Shifted(t, k)) }

  /** Byte k of a tweak divided by x; an odd low byte says that the reduction took place. */
  function Lowered(t: Block, k: nat): bv8
    requires k < 16
  {
    var odd := t[0] & 1 == 1;
    ((if k == 0 && odd then t[0] ^ 0x87 else t[k]) >> 1)
    | (if k == 15 then (if odd then 0x80 else 0) else (t[k + 1] & 1) << 7)
  }

  function DivX(t: Block): Block { seq(16, k requires 0 <= k < 16 => Lowered(t, k)) }

  /** No tweak is reached from two: along a data unit the tweaks do not merge. */
  lemma MulXInverts(t: Block)
    ensures DivX(MulX(t)) == t
  {
    hide Lowered;
    hide Shifted;
    forall k | 0 <= k < 16 ensures Lowered(MulX(t), k) == t[k] {
      LoweredShifted(t, k);
    }
  }

  lemma LoweredShifted(t: Block, k: nat)
    requires k < 16
    ensures Lowered(MulX(t), k) == t[k]
  {
    var r := MulX(t);
    assert r[0] == Shifted(t, 0) && r[k] == Shifted(t, k) && (k < 15 ==> r[k + 1] == Shifted(t, k + 1));
    hide MulX;
    LowByte(t[0], t[15]);
    if k < 15 {
      NextBits(t[k], t[k + 1], if k == 0 then 0 else t[k - 1]);
    } else {
      TopBits(t[15], t[14]);
    }
  }

  lemma LowByte(low: bv8, high: bv8)
    ensures var r := (low << 1) ^ (if high >= 0x80 then 0x87 else 0);
      && (r & 1 == 1) == (high >= 0x80) && (if high >= 0x80 then r ^ 0x87 else r) == low << 1
  {
  }

  lemma NextBits(x: bv8, next: bv8, below: bv8)
    ensures ((x << 1) >> 1) | ((((next << 1) ^ (x >> 7)) & 1) << 7) == x
    ensures (((x << 1) ^ (below >> 7)) >> 1) | ((((next << 1) ^ (x >> 7)) & 1) << 7) == x
  {
  }

  lemma TopBits(x: bv8, below: bv8)
    ensures (((x << 1) ^ (below >> 7)) >> 1) | (if x >= 0x80 then 0x80 else 0) == x
  {
  }

  function Word(b0: bv8, b1: bv8, b2: bv8, b3: bv8, b4: bv8, b5: bv8, b6: bv8, b7: bv8): bv64 {
    (b7 as bv64 << 56) | (b6 as bv64 << 48) | (b5 as bv64 << 40) | (b4 as bv64 << 32)
    | (b3 as bv64 << 24) | (b2 as bv64 << 16) | (b1 as bv64 << 8) | b0 as bv64
  }

  function GetWord(b: seq<bv8>): bv64
    requires |b| == 8
  {
    Word(b[0], b[1], b[2], b[3], b[4], b[5], b[6], b[7])
  }

  function Low(n: bv64): bv8 { (n & 0xFF) as bv8 }

  /** Byte k of a word, least significant first. */
  function Byte(n: bv64, k: nat): bv8
    requires k < 8
  {
    match k
    case 0 => Low(n)
    case 1 => Low(n >> 8)
    case 2 => Low(n >> 16)
    case 3 => Low(n >> 24)
    case 4 => Low(n >> 32)
    case 5 => Low(n >> 40)
    case 6 => Low(n >> 48)
    case 7 => Low(n >> 56)
  }

  function PutWord(n: bv64): seq<bv8> { seq(8, k requires 0 <= k < 8 => Byte(n, k)) }

  lemma BytesLow(b0: bv8, b1: bv8, b2: bv8, b3: bv8, b4: bv8, b5: bv8, b6: bv8, b7: bv8)
    ensures var n := Word(b0, b1, b2, b3, b4, b5, b6, b7);
      Byte(n, 0) == b0 && Byte(n, 1) == b1 && Byte(n, 2) == b2 && Byte(n, 3) == b3
  {
  }

  lemma BytesHigh(b0: bv8, b1: bv8, b2: bv8, b3: bv8, b4: bv8, b5: bv8, b6: bv8, b7: bv8)
    ensures var n := Word(b0, b1, b2, b3, b4, b5, b6, b7);
      Byte(n, 4) == b4 && Byte(n, 5) == b5 && Byte(n, 6) == b6 && Byte(n, 7) == b7
  {
  }

  /** Taking a word apart gives the bytes it was put together from. */
  lemma BytesOfWord(b: seq<bv8>, k: nat)
    requires |b| == 8 && k < 8
    ensures Byte(GetWord(b), k) == b[k]
  {
    hide Byte;
    hide Word;
    BytesLow(b[0], b[1], b[2], b[3], b[4], b[5], b[6], b[7]);
    BytesHigh(b[0], b[1], b[2], b[3], b[4], b[5], b[6], b[7]);
  }

  /** A word shifted up by one, with something small put in at the bottom. */
  function Shl(n: bv64, low: bv64): bv64 { (n << 1) ^ low }

  /** 0x87 moved out of the way unless the top bit is set. */
  function Reduction(b: bv64): bv64 { 0x0087 >> (8 - ((b >> 63) << 3)) as bv4 }

  lemma ShlLow(n: bv64, low: bv64)
    requires low < 0x100
    ensures Low(Shl(n, low) >> 8) == Up(Low(n >> 8), Low(n))
    ensures Low(Shl(n, low) >> 16) == Up(Low(n >> 16), Low(n >> 8))
    ensures Low(Shl(n, low) >> 24) == Up(Low(n >> 24), Low(n >> 16))
    ensures Low(Shl(n, low) >> 32) == Up(Low(n >> 32), Low(n >> 24))
  {
  }

  lemma ShlHigh(n: bv64, low: bv64)
    requires low < 0x100
    ensures Low(Shl(n, low) >> 40) == Up(Low(n >> 40), Low(n >> 32))
    ensures Low(Shl(n, low) >> 48) == Up(Low(n >> 48), Low(n >> 40))
    ensures Low(Shl(n, low) >> 56) == Up(Low(n >> 56), Low(n >> 48))
  {
  }

  /** Shifting a word is shifting its bytes, each taking the top bit of the one below. */
  lemma ShlByte(n: bv64, low: bv64, k: nat)
    requires 0 < k < 8 && low < 0x100
    ensures Byte(Shl(n, low), k) == Up(Byte(n, k), Byte(n, k - 1))
  {
    hide Low;
    hide Shl;
    hide Up;
    if k <= 4 {
      ShlLow(n, low);
    } else {
      ShlHigh(n, low);
    }
  }

  lemma ShlReduced(a: bv64, b: bv64)
    ensures Reduction(b) < 0x100
    ensures Byte(Shl(a, Reduction(b)), 0) == (Byte(a, 0) << 1) ^ (if Byte(b, 7) >= 0x80 then 0x87 else 0)
  {
  }

  lemma ShlCarried(a: bv64, b: bv64)
    ensures a >> 63 < 0x100 && (a >> 63) | (b << 1) == Shl(b, a >> 63)
    ensures Byte(Shl(b, a >> 63), 0) == Up(Byte(b, 0), Byte(a, 7))
  {
  }

  /** mbedtls_gf128mul_x_ble: two 64-bit words do the work of the sixteen bytes. */
  method GfMulX(x: Block) returns (r: Block)
    ensures r == MulX(x)
  {
    var a, b := GetWord(x[..8]), GetWord(x[8..]);
    var ra := Shl(a, Reduction(b));
    var rb := (a >> 63) | (b << 1);
    r := PutWord(ra) + PutWord(rb);
    ShlCarried(a, b);
    ghost var top := a >> 63;
    WordsShifted(x, a, b, top);
  }

  lemma WordsShifted(x: Block, a: bv64, b: bv64, top: bv64)
    requires a == GetWord(x[..8]) && b == GetWord(x[8..]) && top == a >> 63
    ensures PutWord(Shl(a, Reduction(b))) + PutWord(Shl(b, top)) == MulX(x)
  {
    hide Byte;
    hide Up;
    hide GetWord;
    ShlCarried(a, b);
    ShlReduced(a, b);
    hide Shl;
    hide Reduction;
    forall k | 0 <= k < 8 ensures Byte(a, k) == x[k] && Byte(b, k) == x[k + 8] {
      BytesOfWord(x[..8], k);
      BytesOfWord(x[8..], k);
    }
    forall k | 0 < k < 8
      ensures Byte(Shl(a, Reduction(b)), k) == Up(x[k], x[k - 1])
      ensures Byte(Shl(b, top), k) == Up(x[k + 8], x[k + 7])
    {
      ShlByte(a, Reduction(b), k);
      ShlByte(b, top, k);
    }
  }

  // ------------------------------------------------------------------ the tweak in the field

  /** Bit b of a byte. */
  function ByteBit(x: bv8, b: nat): bool
    requires b < 8
  {
    match b
    case 0 => x & 1 != 0
    case 1 => x & 2 != 0
    case 2 => x & 4 != 0
    case 3 => x & 8 != 0
    case 4 => x & 16 != 0
    case 5 => x & 32 != 0
    case 6 => x & 64 != 0
    case 7 => x & 128 != 0
  }

  /** The coefficient of x to the power i. */
  function Bit(t: Block, i: nat): bool
    requires i < 128
  {
    ByteBit(t[i / 8], i % 8)
  }

  /** Multiplication by x modulo x^128 + x^7 + x^2 + x + 1, coefficient by coefficient. */
  lemma MulXInField(t: Block, i: nat)
    requires i < 128
    ensures Bit(MulX(t), i) == ((i > 0 && Bit(t, i - 1)) != (Bit(t, 127) && i in {0, 1, 2, 7}))
  {
    var k, b := i / 8, i % 8;
    assert MulX(t)[k] == Shifted(t, k);
    hide MulX;
    assert i > 0 ==> (i - 1) / 8 == (if b > 0 then k else k - 1) && (i - 1) % 8 == (if b > 0 then b - 1 else 7);
    hide ByteBit;
    if k == 0 {
      LowBits(t[0], t[15], b);
    } else {
      UpBits(t[k], t[k - 1], b);
    }
  }

  lemma LowBits(x: bv8, top: bv8, b: nat)
    requires b < 8
    ensures ByteBit((x << 1) ^ (if top >= 0x80 then 0x87 else 0), b)
      == ((b > 0 && ByteBit(x, b - 1)) != (ByteBit(top, 7) && b in {0, 1, 2, 7}))
  {
  }

  lemma UpBits(x: bv8, below: bv8, b: nat)
    requires b < 8
    ensures ByteBit(Up(x, below), b) == if b > 0 then ByteBit(x, b - 1) else ByteBit(below, 7)
  {
  }

  // ------------------------------------------------------------------ a data unit

  /** One block between two masks with the tweak. */
  function Masked(f: Block -> Block, t: Block, b: Block): Block { Xor(f(Xor(b, t)), t) }

  lemma MaskedUndone(f: Block -> Block, g: Block -> Block, t: Block, b: Block)
    requires g(f(Xor(b, t))) == Xor(b, t)
    ensures Masked(g, t, Masked(f, t, b)) == b
  {
    XorTwice(f(Xor(b, t)), t);
    XorTwice(b, t);
  }

  /** The last whole block of a unit with an odd tail uses this tweak; decryption takes the next one first. */
  function First(mode: Mode, t: Block): Block { if mode == Encrypt then t else MulX(t) }

  /**
   * A data unit from tweak t on.  Of the last whole block the head is moved behind it and the rest is encrypted again
   * with the tail.  With `inPlace` the tail has been overwritten by that head before it is read.
   */
  function Unit(c: Cipher, mode: Mode, inPlace: bool, t: Block, p: seq<bv8>): (r: seq<bv8>)
    requires |p| >= 16
    ensures |r| == |p|
    decreases |p|
  {
    if |p| == 16 then Masked(c.Ecb(mode), t, p)
    else if |p| < 32 then
      var head := Masked(c.Ecb(mode), First(mode, t), p[..16]);
      Stolen(c, mode, t, head, if inPlace then head[..|p| - 16] else p[16..])
    else Masked(c.Ecb(mode), t, p[..16]) + Unit(c, mode, inPlace, MulX(t), p[16..])
  }

  /** The last whole block again, its end taken from the block before, and the head moved behind it. */
  function Stolen(c: Cipher, mode: Mode, t: Block, head: Block, tail: seq<bv8>): (r: seq<bv8>)
    requires |tail| < 16
    ensures |r| == 16 + |tail|
  {
    Masked(c.Ecb(mode), First(Other(mode), t), tail + head[|tail|..]) + head[..|tail|]
  }

  /** Decryption undoes encryption, and encryption decryption, tail included. */
  lemma {:induction false} RoundTrip(c: Cipher, mode: Mode, t: Block, p: seq<bv8>)
    requires |p| >= 16 && Undoes(c, mode)
    ensures Unit(c, Other(mode), false, t, Unit(c, mode, false, t, p)) == p
    decreases |p|
  {
    var f, g := c.Ecb(mode), c.Ecb(Other(mode));
    var r := Unit(c, mode, false, t, p);
    hide Masked;
    hide MulX;
    hide Xor;
    if |p| == 16 {
      MaskedUndone(f, g, t, p);
    } else if |p| < 32 {
      StolenBack(c, mode, t, p);
    } else {
      MaskedUndone(f, g, t, p[..16]);
      RoundTrip(c, mode, MulX(t), p[16..]);
      assert r[..16] == Masked(f, t, p[..16]) && r[16..] == Unit(c, mode, false, MulX(t), p[16..]);
      assert p == p[..16] + p[16..];
    }
  }

  lemma StolenBack(c: Cipher, mode: Mode, t: Block, p: seq<bv8>)
    requires 16 < |p| < 32 && Undoes(c, mode)
    ensures Unit(c, Other(mode), false, t, Unit(c, mode, false, t, p)) == p
  {
    hide Masked;
    hide MulX;
    hide Xor;
    var f, g := c.Ecb(mode), c.Ecb(Other(mode));
    var n := |p| - 16;
    var head: Block := Masked(f, First(mode, t), p[..16]);
    var mixed: Block := p[16..] + head[n..];
    var r := Unit(c, mode, false, t, p);
    assert r[..16] == Masked(f, First(Other(mode), t), mixed) && r[16..] == head[..n];
    MaskedUndone(f, g, First(Other(mode), t), mixed);
    MaskedUndone(f, g, First(mode, t), p[..16]);
    assert head[..n] + mixed[n..] == head;
    assert p == p[..16] + p[16..];
  }

  /** In place nothing changes for whole blocks. */
  lemma {:induction false} InPlaceWhole(c: Cipher, mode: Mode, t: Block, p: seq<bv8>)
    requires |p| >= 16 && |p| % 16 == 0
    ensures Unit(c, mode, true, t, p) == Unit(c, mode, false, t, p)
    decreases |p|
  {
    if |p| > 16 {
      InPlaceWhole(c, mode, MulX(t), p[16..]);
    }
  }

  /** In place the tail of a unit has no influence on the result. */
  lemma {:induction false} InPlaceDropsTail(c: Cipher, mode: Mode, t: Block, p: seq<bv8>, q: seq<bv8>)
    requires 16 <= |p| == |q| && p[..|p| - |p| % 16] == q[..|p| - |p| % 16]
    ensures Unit(c, mode, true, t, p) == Unit(c, mode, true, t, q)
    decreases |p|
  {
    var n := |p| - |p| % 16;
    assert p[..n][..16] == p[..16] && q[..n][..16] == q[..16];
    if |p| >= 32 {
      assert p[..n][16..] == p[16..][..n - 16] && q[..n][16..] == q[16..][..n - 16];
      InPlaceDropsTail(c, mode, MulX(t), p[16..], q[16..]);
    } else if |p| == 16 {
      assert p == p[..n] && q == q[..n];
    }
  }

  /** Units of a given length survive encryption in place exactly when they are whole blocks. */
  lemma InPlaceReversible(c: Cipher, mode: Mode, t: Block, n: nat)
    requires 16 <= n && Undoes(c, mode)
    ensures (forall p: seq<bv8> | |p| == n :: Unit(c, Other(mode), false, t, Unit(c, mode, true, t, p)) == p)
      <==> n % 16 == 0
  {
    hide Unit;
    hide Undoes;
    if n % 16 == 0 {
      forall p: seq<bv8> | |p| == n ensures Unit(c, Other(mode), false, t, Unit(c, mode, true, t, p)) == p {
        InPlaceWhole(c, mode, t, p);
        RoundTrip(c, mode, t, p);
      }
    } else {
      var p, q := seq(n, i => 0 as bv8), seq(n, i requires 0 <= i < n => if i == n - 1 then 1 as bv8 else 0);
      InPlaceDropsTail(c, mode, t, p, q);
      assert p[n - 1] != q[n - 1];
    }
  }

  // ------------------------------------------------------------------ the standard

  /** The masks of a block: its bytes and those of the tweak, exclusive-or, on both sides of the block function. */
  lemma MaskedIs(f: Block -> Block, t: Block, b: Block, y: Block, i: nat)
    requires i < 16 && forall k :: 0 <= k < 16 ==> y[k] == b[k] ^ t[k]
    ensures Masked(f, t, b)[i] == f(y)[i] ^ t[i]
  {
    assert Xor(b, t) == y;
  }

  /** The tweak after j blocks. */
  function TweakAt(t: Block, j: nat): Block { if j == 0 then t else MulX(TweakAt(t, j - 1)) }

  lemma {:induction false} TweakLater(t: Block, j: nat)
    ensures TweakAt(MulX(t), j) == TweakAt(t, j + 1)
  {
    hide MulX;
    if j > 0 {
      TweakLater(t, j - 1);
    }
  }

  function BlockOf(s: seq<bv8>, j: nat): Block
    requires 16 * j + 16 <= |s|
  {
    s[16 * j..16 * j + 16]
  }

  /** All blocks up to number n, each under the tweak of its place. */
  ghost predicate BlocksMasked(f: Block -> Block, t: Block, p: seq<bv8>, r: seq<bv8>, n: nat)
    requires 16 * n <= |p| == |r|
  {
    forall j :: 0 <= j < n ==> BlockOf(r, j) == Masked(f, TweakAt(t, j), BlockOf(p, j))
  }

  /**
   * The last whole block, and the tail taken from it: `t` is the tweak of that block, and `later` the one behind it.
   */
  ghost predicate TailStolen(f: Block -> Block, mode: Mode, t: Block, later: Block, last: Block, tail: seq<bv8>,
                             block: Block, end: seq<bv8>)
  {
    var cc := Masked(f, if mode == Encrypt then t else later, last);
    && |tail| < 16 && end == cc[..|tail|]
    && block == Masked(f, if mode == Encrypt then later else t, tail + cc[|tail|..])
  }

  /**
   * Sections 5.3 and 5.4 of IEEE 1619: the last whole block of a unit with a tail is encrypted under its own tweak, and
   * then the tail, filled up from it, under the next one; decryption takes these two tweaks the other way round.
   * `tail` is the tail as it is read.
   */
  ghost predicate Standard(c: Cipher, mode: Mode, t: Block, p: seq<bv8>, r: seq<bv8>, tail: seq<bv8>)
    requires |p| >= 16
  {
    var m, n, f := |p| / 16, |p| % 16, c.Ecb(mode);
    && |r| == |p|
    && BlocksMasked(f, t, p, r, if n == 0 then m else m - 1)
    && (n > 0 ==> |tail| == n && TailStolen(f, mode, TweakAt(t, m - 1), TweakAt(t, m), BlockOf(p, m - 1), tail,
                                            BlockOf(r, m - 1), r[16 * m..]))
  }

  /** The tail as it is read: in place it has been overwritten by the head of the block before. */
  function TailRead(c: Cipher, mode: Mode, inPlace: bool, t: Block, p: seq<bv8>): seq<bv8>
    requires |p| >= 16
  {
    var m, n := |p| / 16, |p| % 16;
    if inPlace then
      Masked(c.Ecb(mode), TweakAt(t, if mode == Encrypt then m - 1 else m), BlockOf(p, m - 1))[..n]
    else p[16 * m..]
  }

  /** A unit is what the standard says, for every length. */
  lemma {:induction false} UnitIsStandard(c: Cipher, mode: Mode, inPlace: bool, t: Block, p: seq<bv8>)
    requires |p| >= 16
    ensures Standard(c, mode, t, p, Unit(c, mode, inPlace, t, p), TailRead(c, mode, inPlace, t, p))
    decreases |p|
  {
    if |p| < 32 {
      ShortIsStandard(c, mode, inPlace, t, p);
    } else {
      hide Standard;
      UnitIsStandard(c, mode, inPlace, MulX(t), p[16..]);
      OneMoreBlock(c, mode, inPlace, t, p);
    }
  }

  lemma ShortIsStandard(c: Cipher, mode: Mode, inPlace: bool, t: Block, p: seq<bv8>)
    requires 16 <= |p| < 32
    ensures Standard(c, mode, t, p, Unit(c, mode, inPlace, t, p), TailRead(c, mode, inPlace, t, p))
  {
    hide Masked;
    hide MulX;
    var f, r := c.Ecb(mode), Unit(c, mode, inPlace, t, p);
    assert TweakAt(t, 0) == t && TweakAt(t, 1) == MulX(t);
    hide TweakAt;
    assert BlockOf(p, 0) == p[..16] && BlockOf(r, 0) == r[..16];
    if |p| == 16 {
      assert p[..16] == p && r[..16] == r;
    } else {
      var n := |p| - 16;
      var cc := Masked(f, if mode == Encrypt then t else MulX(t), p[..16]);
      var tail := TailRead(c, mode, inPlace, t, p);
      var block := Masked(f, if mode == Encrypt then MulX(t) else t, tail + cc[n..]);
      assert r == block + cc[..n];
      assert r[..16] == block && r[16 * 1..] == cc[..n];
    }
  }

  lemma Behind(head: seq<bv8>, s: seq<bv8>, j: nat)
    requires |head| == 16 && 16 * j <= |s|
    ensures (head + s)[16 * (j + 1)..] == s[16 * j..]
    ensures 16 * j + 16 <= |s| ==> BlockOf(head + s, j + 1) == BlockOf(s, j)
  {
  }

  lemma OneMoreBlock(c: Cipher, mode: Mode, inPlace: bool, t: Block, p: seq<bv8>)
    requires |p| >= 32
    requires Standard(c, mode, MulX(t), p[16..], Unit(c, mode, inPlace, MulX(t), p[16..]),
      TailRead(c, mode, inPlace, MulX(t), p[16..]))
    ensures Standard(c, mode, t, p, Unit(c, mode, inPlace, t, p), TailRead(c, mode, inPlace, t, p))
  {
    hide Masked;
    hide MulX;
    hide TweakAt;
    var m, f, q := |p| / 16, c.Ecb(mode), p[16..];
    var head, rest := Masked(f, t, p[..16]), Unit(c, mode, inPlace, MulX(t), q);
    assert Unit(c, mode, inPlace, t, p) == head + rest && p == p[..16] + q;
    hide Unit;
    assert |q| / 16 == m - 1 && |q| % 16 == |p| % 16;
    if |p| % 16 == 0 {
      MaskedLater(f, t, p[..16], q, rest, m - 1);
    } else {
      MaskedLater(f, t, p[..16], q, rest, m - 2);
      StolenLater(t, p[..16], q, head, rest, m);
      TailLater(c, mode, inPlace, t, p[..16], q);
      hide TailStolen;
      hide BlocksMasked;
      hide BlockOf;
      hide TailRead;
    }
  }

  /** The last blocks, the tail and their tweaks are those of the unit without its first block. */
  lemma StolenLater(t: Block, first: Block, q: seq<bv8>, head: Block, rest: seq<bv8>, m: nat)
    requires m >= 2 && |rest| == |q| && 16 * (m - 1) <= |q|
    ensures TweakAt(MulX(t), m - 2) == TweakAt(t, m - 1) && TweakAt(MulX(t), m - 1) == TweakAt(t, m)
    ensures BlockOf(first + q, m - 1) == BlockOf(q, m - 2) && BlockOf(head + rest, m - 1) == BlockOf(rest, m - 2)
    ensures (head + rest)[16 * m..] == rest[16 * (m - 1)..] && (first + q)[16 * m..] == q[16 * (m - 1)..]
  {
    hide MulX;
    TweakLater(t, m - 1);
    TweakLater(t, m - 2);
    Behind(first, q, m - 1);
    Behind(first, q, m - 2);
    Behind(head, rest, m - 1);
    Behind(head, rest, m - 2);
  }

  lemma TailLater(c: Cipher, mode: Mode, inPlace: bool, t: Block, first: Block, q: seq<bv8>)
    requires |q| >= 16
    ensures TailRead(c, mode, inPlace, t, first + q) == TailRead(c, mode, inPlace, MulX(t), q)
  {
    hide Masked;
    hide MulX;
    StolenLater(t, first, q, first, q, |q| / 16 + 1);
    hide TweakAt;
    hide BlockOf;
  }

  lemma MaskedLater(f: Block -> Block, t: Block, first: Block, q: seq<bv8>, rest: seq<bv8>, n: nat)
    requires 16 * n <= |q| == |rest| && BlocksMasked(f, MulX(t), q, rest, n)
    ensures BlocksMasked(f, t, first + q, Masked(f, t, first) + rest, n + 1)
  {
    hide Masked;
    hide MulX;
    var p, r := first + q, Masked(f, t, first) + rest;
    forall j | 0 <= j < n + 1 ensures BlockOf(r, j) == Masked(f, TweakAt(t, j), BlockOf(p, j)) {
      if j == 0 {
        assert BlockOf(r, 0) == Masked(f, t, first) && BlockOf(p, 0) == first;
      } else {
        Behind(first, q, j - 1);
        Behind(Masked(f, t, first), rest, j - 1);
        TweakLater(t, j - 1);
        assert BlockOf(rest, j - 1) == Masked(f, TweakAt(MulX(t), j - 1), BlockOf(q, j - 1));
      }
    }
  }

  // ------------------------------------------------------------------ over arrays

  const INVALID_INPUT_LENGTH := -0x0022
  const MAX_LENGTH := 0x10_0000 * 16

  /** The whole blocks are done and only the tail, if any, is left; `last` is the tweak of the last whole block. */
  ghost predicate BlocksDone(c: Cipher, mode: Mode, inPlace: bool, last: Block, data: seq<bv8>, out: seq<bv8>,
                             whole: seq<bv8>)
    requires 16 <= |data| == |out|
  {
    var n := |data| % 16;
    var s := |data| - n - 16;
    if n == 0 then out == whole
    else
      && Cat(out[..s], Unit(c, mode, inPlace, last, data[s..])) == whole
      && out[s..s + 16] == Masked(c.Ecb(mode), First(mode, last), data[s..s + 16])
  }

  /** A whole block that is not the last. */
  lemma BlockStep(c: Cipher, mode: Mode, inPlace: bool, t: Block, data: seq<bv8>, out: seq<bv8>, next: seq<bv8>, k: nat,
                  whole: seq<bv8>)
    requires 16 * k + 32 <= |data| == |out| == |next|
    requires Cat(out[..16 * k], Unit(c, mode, inPlace, t, data[16 * k..])) == whole
    requires next[..16 * k] == out[..16 * k]
    requires next[16 * k..16 * k + 16] == Masked(c.Ecb(mode), t, data[16 * k..16 * k + 16])
    ensures Cat(next[..16 * (k + 1)], Unit(c, mode, inPlace, MulX(t), data[16 * (k + 1)..])) == whole
  {
    hide Masked;
    hide MulX;
    var s := 16 * k;
    assert data[s..][..16] == data[s..s + 16] && data[s..][16..] == data[s + 16..];
    assert next[..s + 16] == next[..s] + next[s..s + 16];
  }

  /** The last whole block. */
  lemma LastStep(c: Cipher, mode: Mode, inPlace: bool, t: Block, data: seq<bv8>, out: seq<bv8>, next: seq<bv8>,
                 whole: seq<bv8>)
    requires 16 <= |data| == |out| == |next|
    requires var s := |data| - |data| % 16 - 16;
      && Cat(out[..s], Unit(c, mode, inPlace, t, data[s..])) == whole
      && next[..s] == out[..s]
      && next[s..s + 16] == Masked(c.Ecb(mode), if |data| % 16 == 0 then t else First(mode, t), data[s..s + 16])
    ensures BlocksDone(c, mode, inPlace, t, data, next, whole)
  {
    hide Masked;
    hide MulX;
    var s := |data| - |data| % 16 - 16;
    if |data| % 16 == 0 {
      assert data[s..s + 16] == data[s..];
      assert next == next[..s] + next[s..s + 16];
    }
  }

  /** The unread input still is what it was. */
  ghost predicate Unread(input: array<bv8>, data: seq<bv8>, from: nat)
    reads input
  {
    |data| <= input.Length && forall j :: from <= j < |data| ==> input[j] == data[j]
  }

  /** One block of the input, masked and stored at its place in the output. */
  method BlockAt(c: Cipher, mode: Mode, t: Block, at: nat, input: array<bv8>, output: array<bv8>, ghost data: seq<bv8>)
    requires at + 16 <= |data| <= output.Length && Unread(input, data, at)
    modifies output
    ensures output[..|data|][..at] == old(output[..|data|])[..at]
    ensures output[..|data|][at..at + 16] == Masked(c.Ecb(mode), t, data[at..at + 16])
    ensures Unread(input, data, at + 16)
    ensures output[|data|..] == old(output[|data|..])
  {
    assert input[at..at + 16] == data[at..at + 16];
    Store(output, at, Masked(c.Ecb(mode), t, input[at..at + 16]));
    assert output[..|data|][at..at + 16] == output[at..at + 16];
  }

  /** The loop over the whole blocks. */
  method Blocks(c: Cipher, mode: Mode, length: nat, first: Block, input: array<bv8>, output: array<bv8>)
    returns (tweak: Block, prevTweak: Block, ghost last: Block)
    requires 16 <= length <= input.Length && length <= output.Length
    modifies output
    ensures BlocksDone(c, mode, input == output, last, old(input[..length]), output[..length],
                       Unit(c, mode, input == output, first, old(input[..length])))
    ensures length % 16 > 0 ==> First(Other(mode), last) == if mode == Decrypt then prevTweak else tweak
    ensures Unread(input, old(input[..length]), length - length % 16)
    ensures output[length..] == old(output[length..])
  {
    hide Unit;
    hide Masked;
    hide MulX;
    hide Cat;
    hide BlocksDone;
    hide Unread;
    var blocks, leftover := length / 16, length % 16;
    ghost var inPlace, data := input == output, input[..length];
    ghost var whole := Unit(c, mode, inPlace, first, data);
    tweak, prevTweak, last := first, first, first;
    StartOfUnit(c, mode, inPlace, first, data, output[..length]);
    AllUnread(input, data);
    var k := 0;
    while k < blocks
      invariant 0 <= k <= blocks && Unread(input, data, 16 * k) && output[length..] == old(output[length..])
      invariant k < blocks ==> Cat(output[..length][..16 * k], Unit(c, mode, inPlace, tweak, data[16 * k..])) == whole
      invariant k == blocks ==> BlocksDone(c, mode, inPlace, last, data, output[..length], whole)
      invariant k == blocks && leftover > 0 ==> First(Other(mode), last) == if mode == Decrypt then prevTweak else tweak
    {
      last := tweak;
      ghost var out := output[..length];
      if leftover > 0 && mode == Decrypt && k == blocks - 1 {
        prevTweak := tweak;
        tweak := GfMulX(tweak);
      }
      BlockAt(c, mode, tweak, 16 * k, input, output, data);
      if k < blocks - 1 {
        BlockStep(c, mode, inPlace, last, data, out, output[..length], k, whole);
      } else {
        LastStep(c, mode, inPlace, last, data, out, output[..length], whole);
      }
      tweak := GfMulX(tweak);
      k := k + 1;
    }
  }

  lemma AllUnread(input: array<bv8>, data: seq<bv8>)
    requires |data| <= input.Length && data == input[..|data|]
    ensures Unread(input, data, 0)
  {
  }

  lemma StartOfUnit(c: Cipher, mode: Mode, inPlace: bool, first: Block, data: seq<bv8>, out: seq<bv8>)
    requires |data| >= 16
    ensures Cat(out[..16 * 0], Unit(c, mode, inPlace, first, data[16 * 0..])) == Unit(c, mode, inPlace, first, data)
  {
    assert data[0..] == data;
  }

  lemma HeadCopied(was: seq<bv8>, now: seq<bv8>, at: nat, n: nat, head: seq<bv8>)
    requires |now| == |was| && at + n <= |was| && |head| == n
    requires forall j :: 0 <= j < at || at + n <= j < |was| ==> now[j] == was[j]
    requires forall j :: at <= j < at + n ==> now[j] == head[j - at]
    ensures now[..at] == was[..at] && now[at..at + n] == head && now[at + n..] == was[at + n..]
  {
  }

  /** The head of the block before is copied behind it, and the tail read on the way. */
  method CopyHead(length: nat, input: array<bv8>, output: array<bv8>, ghost data: seq<bv8>) returns (tmp: array<bv8>)
    requires 16 < length == |data| <= output.Length && length % 16 > 0 && Unread(input, data, length - length % 16)
    modifies output
    ensures fresh(tmp) && tmp.Length == 16
    ensures var n := length % 16; var at := length - n; var head := old(output[at - 16..at - 16 + n]);
      && tmp[..n] == (if input == output then head else data[at..])
      && output[..at] == old(output[..at]) && output[at..length] == head && output[length..] == old(output[length..])
  {
    var leftover := length % 16;
    var at := length - leftover;
    ghost var was := output[..];
    ghost var head := output[at - 16..at - 16 + leftover];
    ghost var tail := if input == output then head else data[at..];
    tmp := new bv8[16];
    CopyBytes(at, leftover, input, output, tmp, head, tail);
    ghost var now := output[..];
    HeadCopied(was, now, at, leftover, head);
    assert output[..at] == now[..at] && output[at..length] == now[at..length] && output[length..] == now[length..];
    assert was[..at] == old(output[..at]) && was[length..] == old(output[length..]);
    assert tmp[..leftover] == tail;
  }

  /** The loop over the tail. */
  method CopyBytes(at: nat, n: nat, input: array<bv8>, output: array<bv8>, tmp: array<bv8>, ghost head: seq<bv8>,
                   ghost tail: seq<bv8>)
    requires 16 <= at && n < 16 == tmp.Length && at + n <= output.Length && at + n <= input.Length
    requires tmp != input && tmp != output && |head| == |tail| == n && head == output[at - 16..at - 16 + n]
    requires if input == output then tail == head else tail == input[at..at + n]
    modifies output, tmp
    ensures forall j :: 0 <= j < at || at + n <= j < output.Length ==> output[j] == old(output[j])
    ensures forall j :: at <= j < at + n ==> output[j] == head[j - at]
    ensures forall j :: 0 <= j < n ==> tmp[j] == tail[j]
  {
    var i := 0;
    while i < n
      invariant 0 <= i <= n
      invariant forall j :: 0 <= j < at || at + i <= j < output.Length ==> output[j] == old(output[j])
      invariant forall j :: at <= j < at + i ==> output[j] == head[j - at]
      invariant forall j :: 0 <= j < i ==> tmp[j] == tail[j]
    {
      assert output[at - 16 + i] == head[i];
      assert input != output ==> input[at + i] == tail[i];
      output[at + i] := output[at - 16 + i];
      tmp[i] := input[at + i];
      i := i + 1;
    }
  }

  /** The input of the last round: the tail, and the end of the block before. */
  method Mix(length: nat, input: array<bv8>, output: array<bv8>, ghost data: seq<bv8>) returns (mixed: Block)
    requires 16 < length == |data| <= output.Length && length % 16 > 0 && Unread(input, data, length - length % 16)
    modifies output
    ensures var n := length % 16; var s := length - n - 16; var head := old(output[s..s + n]);
      && mixed == (if input == output then head else data[s + 16..]) + old(output[s + n..s + 16])
      && output[..s + 16] == old(output[..s + 16]) && output[s + 16..length] == head
    ensures output[length..] == old(output[length..])
  {
    var leftover := length % 16;
    var prev := length - leftover - 16;
    ghost var before := output[..prev + 16];
    assert output[prev..prev + leftover] == before[prev..prev + leftover];
    assert output[prev + leftover..prev + 16] == before[prev + leftover..];
    var tmp := CopyHead(length, input, output, data);
    hide Unread;
    assert output[prev + leftover..prev + 16] == output[..prev + 16][prev + leftover..];
    CopyEnding(tmp, leftover, output, prev);
    mixed := tmp[..];
  }

  /** The rest of the last round's bytes: the end of the block before. */
  method CopyEnding(tmp: array<bv8>, leftover: nat, output: array<bv8>, prev: nat)
    requires tmp != output && tmp.Length == 16 && leftover <= 16 && prev + 16 <= output.Length
    modifies tmp
    ensures tmp[..] == old(tmp[..leftover]) + output[prev + leftover..prev + 16]
  {
    var i := leftover;
    while i < 16
      invariant leftover <= i <= 16
      invariant forall j :: 0 <= j < leftover ==> tmp[j] == old(tmp[j])
      invariant forall j :: leftover <= j < i ==> tmp[j] == output[prev + j]
    {
      tmp[i] := output[prev + i];
      i := i + 1;
    }
  }

  /**
   * The odd tail: its ciphertext is the head of the block before, which is made again from the tail and its own end.
   */
  method Steal(c: Cipher, mode: Mode, length: nat, t: Block, input: array<bv8>, output: array<bv8>, ghost last: Block,
               ghost data: seq<bv8>, ghost whole: seq<bv8>)
    requires 16 < length == |data| <= output.Length && length % 16 > 0
    requires BlocksDone(c, mode, input == output, last, data, output[..length], whole) && t == First(Other(mode), last)
    requires Unread(input, data, length - length % 16)
    modifies output
    ensures output[..length] == whole
    ensures output[length..] == old(output[length..])
  {
    hide MulX;
    hide Masked;
    hide BlocksDone;
    hide Unread;
    ghost var out := output[..length];
    var prev := length - length % 16 - 16;
    assert out[prev..prev + length % 16] == output[prev..prev + length % 16];
    assert out[prev + length % 16..prev + 16] == output[prev + length % 16..prev + 16];
    assert out[..prev] == output[..prev + 16][..prev];
    var mixed := Mix(length, input, output, data);
    ghost var shifted := output[..length];
    ghost var block := Masked(c.Ecb(mode), t, mixed);
    Store(output, prev, Masked(c.Ecb(mode), t, mixed));
    ghost var next := output[..length];
    assert forall j :: 0 <= j < length ==> next[j] == if prev <= j < prev + 16 then block[j - prev] else shifted[j];
    StoredBetween(shifted, next, prev, block);
    TailStep(c, mode, input == output, last, data, out, next, mixed, whole);
  }

  lemma StoredBetween(was: seq<bv8>, now: seq<bv8>, at: nat, s: seq<bv8>)
    requires |was| == |now| && at + |s| <= |was|
    requires forall j :: 0 <= j < |was| ==> now[j] == if at <= j < at + |s| then s[j - at] else was[j]
    ensures now[..at] == was[..at] && now[at..at + |s|] == s && now[at + |s|..] == was[at + |s|..]
  {
  }

  lemma TailStep(c: Cipher, mode: Mode, inPlace: bool, last: Block, data: seq<bv8>, out: seq<bv8>, next: seq<bv8>,
                 mixed: Block, whole: seq<bv8>)
    requires 16 < |data| == |out| == |next| && |data| % 16 > 0
    requires BlocksDone(c, mode, inPlace, last, data, out, whole)
    requires var n := |data| % 16; var s := |data| - n - 16;
      && mixed == (if inPlace then out[s..s + n] else data[s + 16..]) + out[s + n..s + 16]
      && next[..s] == out[..s]
      && next[s..s + 16] == Masked(c.Ecb(mode), First(Other(mode), last), mixed)
      && next[s + 16..] == out[s..s + n]
    ensures next == whole
  {
    hide Masked;
    hide MulX;
    var n := |data| % 16;
    var s := |data| - n - 16;
    var head: Block := out[s..s + 16];
    assert data[s..][..16] == data[s..s + 16] && data[s..][16..] == data[s + 16..];
    assert head[..n] == out[s..s + n] && head[n..] == out[s + n..s + 16];
    assert next == next[..s] + (next[s..s + 16] + next[s + 16..]);
  }

  /** mbedtls_aes_crypt_xts */
  method Crypt(c: Cipher, tweakEncrypt: Block -> Block, mode: Mode, length: nat, dataUnit: Block, input: array<bv8>,
               output: array<bv8>)
    returns (ret: int)
    requires length <= input.Length && length <= output.Length
    modifies output
    ensures ret == if 16 <= length <= MAX_LENGTH then 0 else INVALID_INPUT_LENGTH
    ensures ret == 0 ==>
      output[..length] == Unit(c, mode, input == output, tweakEncrypt(dataUnit), old(input[..length]))
    ensures ret == 0 ==> var t, data := tweakEncrypt(dataUnit), old(input[..length]);
      Standard(c, mode, t, data, output[..length], TailRead(c, mode, input == output, t, data))
    ensures if ret == 0 then output[length..] == old(output[length..]) else output[..] == old(output[..])
  {
    if length < 16 || length > MAX_LENGTH {
      return INVALID_INPUT_LENGTH;
    }
    var tweak := tweakEncrypt(dataUnit);
    ghost var data := input[..length];
    ghost var whole := Unit(c, mode, input == output, tweak, data);
    UnitIsStandard(c, mode, input == output, tweak, data);
    hide Standard;
    var next, prevTweak, last := Blocks(c, mode, length, tweak, input, output);
    if length % 16 > 0 {
      Steal(c, mode, length, if mode == Decrypt then prevTweak else next, input, output, last, data, whole);
    }
    return 0;
  }
}
