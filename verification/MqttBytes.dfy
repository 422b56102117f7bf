/**
 * Bytes of MQTT packets: 16-bit numbers, the remaining-length field, and strings, written and read through a moving
 * index.
 */
module MqttBytes {
  import opened Octets
  import opened Options

  function Slice(buf: seq<Byte>, at: nat, n: nat): (r: seq<Byte>)
    ensures |r| == n
  {
    seq<Byte>(n, i requires 0 <= i < n => At(buf, at + i))
  }

  lemma HasSlice(buf: seq<Byte>, at: nat, a: seq<Byte>)
    requires Has(buf, at, a)
    ensures Slice(buf, at, |a|) == a
  {
    forall i | 0 <= i < |a| ensures At(buf, at + i) == a[i] {
      assert buf[at..at + |a|][i] == a[i];
    }
  }

  lemma HasFirst(buf: seq<Byte>, at: nat, a: seq<Byte>)
    requires Has(buf, at, a) && |a| > 0
    ensures At(buf, at) == a[0] && Has(buf, at + 1, a[1..])
  {
    assert a == a[..1] + a[1..];
    HasBoth(buf, at, a[..1], a[1..]);
    assert buf[at..at + |a|][0] == a[0];
  }

  // ------------------------------------------------------------------ 16-bit numbers

  function Int16(n: nat): (r: seq<Byte>)
    ensures |r| == 2
  {
    [n / 256 % 256, n % 256]
  }

  function ReadInt(buf: seq<Byte>, at: nat): nat { 256 * At(buf, at) + At(buf, at + 1) }

  lemma IntRead(buf: seq<Byte>, at: nat, n: nat)
    requires Has(buf, at, Int16(n))
    ensures ReadInt(buf, at) == n % 0x10000
  {
    HasFirst(buf, at, Int16(n));
    HasFirst(buf, at + 1, Int16(n)[1..]);
  }

  // ------------------------------------------------------------------ the remaining-length field

  const MAX_REMAINING := 268435455

  /** Seven bits a byte, least significant first; the top bit says that more follow. */
  function LengthBytes(n: nat): (r: seq<Byte>)
    ensures |r| >= 1
  {
    if n < 128 then [n] else [n % 128 + 128] + LengthBytes(n / 128)
  }

  /** MQTTPacket_encode */
  method Encode(buf: array<Byte>, at: nat, length: nat) returns (rc: nat)
    requires at + |LengthBytes(length)| <= buf.Length
    modifies buf
    ensures rc == |LengthBytes(length)| && buf[..at + rc] == old(buf[..at]) + LengthBytes(length)
    ensures forall j :: at + rc <= j < buf.Length ==> buf[j] == old(buf[j])
  {
    var rest := length;
    rc := 0;
    ghost var all := LengthBytes(length);
    while true
      invariant 0 <= rc && rc + |LengthBytes(rest)| == |all| && all == all[..rc] + LengthBytes(rest)
      invariant buf[..at + rc] == old(buf[..at]) + all[..rc]
      invariant forall j :: at + rc <= j < buf.Length ==> buf[j] == old(buf[j])
      decreases rest
    {
      EncodeStep(all, rc, rest);
      var d := rest % 128;
      rest := rest / 128;
      if rest > 0 {
        d := d + 128;
      }
      buf[at + rc] := d;
      assert buf[..at + rc + 1] == buf[..at + rc] + [d];
      rc := rc + 1;
      if rest == 0 {
        assert all[..rc] == all;
        break;
      }
    }
  }

  lemma EncodeStep(all: seq<Byte>, rc: nat, rest: nat)
    requires rc <= |all| && all == all[..rc] + LengthBytes(rest)
    ensures rc < |all| && all[..rc + 1] == all[..rc] + [rest % 128 + if rest >= 128 then 128 else 0]
    ensures rest >= 128 ==> all == all[..rc + 1] + LengthBytes(rest / 128)
    ensures rest < 128 ==> rc + 1 == |all|
  {
    assert all[rc] == LengthBytes(rest)[0];
  }

  /** The low seven bits of a byte, at their weight. */
  function Weighted(c: Byte, multiplier: nat): nat { c % 128 * multiplier }

  /** Where the decoder stands after a byte: the value and the number of bytes so far. */
  function Decoded(buf: seq<Byte>, at: nat, len: nat, multiplier: nat, value: nat): (nat, nat)
    decreases 5 - len
  {
    if len >= 4 then (value, len + 1)
    else
      var c := At(buf, at);
      var v := value + Weighted(c, multiplier);
      if c >= 128 then Decoded(buf, at + 1, len + 1, multiplier * 128, v) else (v, len + 1)
  }

  /** MQTTPacket_decode over a buffer: the value, and the length counted, 5 when the field does not end. */
  method Decode(buf: seq<Byte>, at: nat) returns (value: nat, len: nat)
    ensures (value, len) == Decoded(buf, at, 0, 1, 0)
  {
    hide Weighted;
    hide At;
    var multiplier, i := 1, at;
    value, len := 0, 0;
    while true
      invariant 0 <= len <= 4 && 0 <= multiplier && at <= i
      invariant Decoded(buf, i, len, multiplier, value) == Decoded(buf, at, 0, 1, 0)
      decreases 5 - len
    {
      len := len + 1;
      if len > 4 {
        break;
      }
      var c := At(buf, i);
      i := i + 1;
      value := value + Weighted(c, multiplier);
      multiplier := multiplier * 128;
      if c < 128 {
        break;
      }
    }
  }

  function Power128(k: nat): (r: nat)
    ensures r >= 1
  {
    if k == 0 then 1 else 128 * Power128(k - 1)
  }

  lemma Powers()
    ensures Power128(1) == 128 && Power128(2) == 16384 && Power128(3) == 2097152 && Power128(4) == MAX_REMAINING + 1
  {
  }

  /** The number of bytes of a length field, by its value. */
  lemma {:induction false} FieldSize(n: nat, k: nat)
    requires n < Power128(k) && k >= 1
    ensures |LengthBytes(n)| <= k
    ensures k >= 2 && n >= Power128(k - 1) ==> |LengthBytes(n)| == k
    decreases k
  {
    if n >= 128 {
      assert k >= 2;
      FieldSize(n / 128, k - 1);
    }
  }

  /** Decoding undoes encoding for every length the protocol has. */
  lemma LengthRoundTrip(buf: seq<Byte>, at: nat, n: nat)
    requires n <= MAX_REMAINING && Has(buf, at, LengthBytes(n))
    ensures Decoded(buf, at, 0, 1, 0) == (n, |LengthBytes(n)|)
  {
    Powers();
    DecodeRest(buf, at, n, 0, 0);
  }

  lemma {:induction false} DecodeRest(buf: seq<Byte>, at: nat, n: nat, len: nat, value: nat)
    requires len < 4 && n < Power128(4 - len) && Has(buf, at, LengthBytes(n))
    ensures Decoded(buf, at, len, Power128(len), value) == (value + n * Power128(len), len + |LengthBytes(n)|)
    decreases n
  {
    HasFirst(buf, at, LengthBytes(n));
    hide Has;
    if n >= 128 {
      assert Power128(4 - len) == 128 * Power128(3 - len);
      assert len < 3 by { assert Power128(0) == 1 && Power128(1) == 128; }
      DecodeRest(buf, at + 1, n / 128, len + 1, value + n % 128 * Power128(len));
      Regroup(n, Power128(len));
      assert (n % 128 + 128) % 128 == n % 128;
      assert LengthBytes(n)[1..] == LengthBytes(n / 128);
    }
  }

  lemma Regroup(n: nat, p: nat)
    ensures n % 128 * p + n / 128 * (128 * p) == n * p
  {
    assert n == 128 * (n / 128) + n % 128;
    calc {
      n * p;
      (128 * (n / 128) + n % 128) * p;
      128 * (n / 128) * p + n % 128 * p;
    }
  }

  /** No other field for the same length is shorter. */
  lemma LengthMinimal(buf: seq<Byte>, at: nat, n: nat, k: nat)
    requires Decoded(buf, at, 0, 1, 0) == (n, k) && k <= 4
    ensures n <= MAX_REMAINING && |LengthBytes(n)| <= k
  {
    Powers();
    DecodeBound(buf, at, 0, 0, k);
    FieldSize(n, k);
  }

  lemma {:induction false} DecodeBound(buf: seq<Byte>, at: nat, len: nat, value: nat, k: nat)
    requires len < 4 && value < Power128(len) && Decoded(buf, at, len, Power128(len), value).1 == k <= 4
    ensures k >= 1 && Decoded(buf, at, len, Power128(len), value).0 < Power128(k) <= Power128(4)
    decreases 4 - len
  {
    var c := At(buf, at);
    Bound(c % 128, Power128(len), value);
    PowerGrows(len + 1, 4);
    if c >= 128 && len < 3 {
      DecodeBound(buf, at + 1, len + 1, value + c % 128 * Power128(len), k);
    }
  }

  lemma Bound(d: nat, p: nat, v: nat)
    requires d < 128 && v < p
    ensures v + d * p < 128 * p
  {
    assert d * p <= 127 * p;
  }

  lemma {:induction false} PowerGrows(a: nat, b: nat)
    requires a <= b
    ensures Power128(a) <= Power128(b)
  {
    if a < b {
      PowerGrows(a, b - 1);
    }
  }

  /** MQTTPacket_len: the room asked for a packet. */
  function PacketLen(remaining: nat): nat {
    var n := remaining + 1;
    if n < 128 then n + 1 else if n < 16384 then n + 2 else if n < 2097151 then n + 3 else n + 4
  }

  /** The room is never short of the packet, and one too many at exactly four lengths. */
  lemma RoomForPacket(n: nat)
    requires n <= MAX_REMAINING
    ensures var size := 1 + |LengthBytes(n)| + n;
      PacketLen(n) == size + if n in {127, 16383, 2097150, 2097151} then 1 else 0
  {
    Powers();
    if n < 128 {
    } else if n < 16384 {
      FieldSize(n, 2);
    } else if n < 2097152 {
      FieldSize(n, 3);
    } else {
      FieldSize(n, 4);
    }
  }

  // ------------------------------------------------------------------ writing through an index

  /** Appends bytes at ptr; what follows them is left alone. */
  method Put(buf: array<Byte>, ptr: nat, s: seq<Byte>) returns (end: nat)
    requires ptr + |s| <= buf.Length
    modifies buf
    ensures end == ptr + |s| && buf[..end] == old(buf[..ptr]) + s
    ensures forall j :: end <= j < buf.Length ==> buf[j] == old(buf[j])
  {
    var k := 0;
    while k < |s|
      invariant 0 <= k <= |s|
      invariant buf[..ptr + k] == old(buf[..ptr]) + s[..k]
      invariant forall j :: ptr + k <= j < buf.Length ==> buf[j] == old(buf[j])
    {
      buf[ptr + k] := s[k];
      assert buf[..ptr + k + 1] == buf[..ptr + k] + [s[k]];
      assert s[..k + 1] == s[..k] + [s[k]];
      k := k + 1;
    }
    assert s[..k] == s;
    end := ptr + |s|;
  }

  // ------------------------------------------------------------------ strings

  /** A string with two forms: a C string, or a counted one when len is positive or there is no C string. */
  datatype MqttString = MqttString(cstring: Option<seq<Byte>>, len: nat, data: Option<seq<Byte>>) {
    ghost predicate Valid() {
      && (cstring.Some? ==> 0 !in cstring.value)
      && (len > 0 ==> data.Some? && len <= |data.value|)
    }

    /** What writeMQTTString writes behind the count. */
    function Content(): seq<Byte>
      requires Valid()
    {
      if len > 0 then data.value[..len] else if cstring.Some? then cstring.value else []
    }

    /** MQTTstrlen */
    function StrLen(): nat { if cstring.Some? then |cstring.value| else len }

    predicate Present() { cstring.Some? || data.Some? }
  }

  function StringBytes(content: seq<Byte>): (r: seq<Byte>)
    ensures |r| == 2 + |content|
  {
    Int16(|content|) + content
  }

  /** The length used for sizes is the length written exactly when the two forms do not contradict each other. */
  lemma LengthsAgree(s: MqttString)
    requires s.Valid()
    ensures s.StrLen() == |s.Content()| <==> s.cstring.None? || s.len == 0 || s.len == |s.cstring.value|
  {
  }

  /** writeMQTTString */
  method WriteString(buf: array<Byte>, ptr: nat, s: MqttString) returns (end: nat)
    requires s.Valid() && ptr + 2 + |s.Content()| <= buf.Length
    modifies buf
    ensures end == ptr + 2 + |s.Content()|
    ensures buf[..end] == old(buf[..ptr]) + StringBytes(s.Content())
    ensures forall j :: end <= j < buf.Length ==> buf[j] == old(buf[j])
  {
    end := Put(buf, ptr, Int16(|s.Content()|));
    end := Put(buf, end, s.Content());
  }

  /** readMQTTLenString: the string and the index behind it, if both end by `end`. */
  function ReadString(buf: seq<Byte>, cur: nat, end: int): Option<(seq<Byte>, nat)> {
    var len := ReadInt(buf, cur);
    if end - cur > 1 && cur + 2 + len <= end then Some((Slice(buf, cur + 2, len), cur + 2 + len)) else None
  }

  lemma StringRead(buf: seq<Byte>, cur: nat, end: int, content: seq<Byte>)
    requires |content| <= 0xFFFF && Has(buf, cur, StringBytes(content)) && cur + 2 + |content| <= end
    ensures ReadString(buf, cur, end) == Some((content, cur + 2 + |content|))
  {
    HasBoth(buf, cur, Int16(|content|), content);
    IntRead(buf, cur, |content|);
    HasSlice(buf, cur + 2, content);
  }
}
