/** Reading one packet from a stream: at once, and in as many calls as the transport needs. */
module MqttReader {
  import opened Octets
  import opened Options
  import opened MqttBytes
  import opened MqttPackets

  /**
   * The length that the field at the start of a stream holds, and the bytes the field takes; 5 when it does not end in
   * time.
   */
  function Remaining(stream: seq<Byte>): nat { Decoded(stream, 1, 0, 1, 0).0 }

  function FieldLength(stream: seq<Byte>): nat { Decoded(stream, 1, 0, 1, 0).1 }

  /** Bytes of a field taken from a stream that may end before it. */
  function Taken(field: nat, left: nat): nat {
    if field < 4 && field < left then field else if left < 4 then left else 4
  }

  /** Where the body starts in the stream, and in the buffer, where the length field is always the shortest one. */
  function BodyStart(stream: seq<Byte>): (r: nat)
    requires stream != []
    ensures r <= |stream|
  {
    1 + Taken(FieldLength(stream), |stream| - 1)
  }

  function HeadLength(stream: seq<Byte>): nat { 1 + |LengthBytes(Remaining(stream))| }

  predicate Fits(stream: seq<Byte>, buflen: nat) { HeadLength(stream) + Remaining(stream) <= buflen }

  /** All of the body is in the stream. */
  predicate Whole(stream: seq<Byte>) { stream != [] && BodyStart(stream) + Remaining(stream) <= |stream| }

  /**
   * The buffer has room for the header byte and the length field, which are put into it before the length is looked at.
   */
  predicate HeadFits(stream: seq<Byte>, size: nat) { stream != [] ==> HeadLength(stream) <= size }

  /** All of the length field is in the stream. */
  predicate FieldWhole(stream: seq<Byte>) { FieldLength(stream) <= 4 && FieldLength(stream) < |stream| }

  /** The length field ends in time and the packet fits the buffer. */
  predicate Readable(stream: seq<Byte>, buflen: nat) { FieldLength(stream) <= 4 && Fits(stream, buflen) }

  /** What the buffer holds when n bytes of the body have been read. */
  function Filled(stream: seq<Byte>, n: nat): seq<Byte>
    requires stream != [] && BodyStart(stream) + n <= |stream|
  {
    [stream[0]] + LengthBytes(Remaining(stream)) + stream[BodyStart(stream)..BodyStart(stream) + n]
  }

  // ------------------------------------------------------------------ at once

  /** MQTTPacket_decode over a stream that may end; what was read by then is the value. */
  method DecodeStream(stream: seq<Byte>, at: nat) returns (value: nat, len: nat, i: nat)
    requires at <= |stream|
    ensures (value, len) == Decoded(stream, at, 0, 1, 0) && i == at + Taken(len, |stream| - at)
    ensures value <= MAX_REMAINING
  {
    hide Weighted;
    hide Power128;
    var multiplier := 1;
    value, len, i := 0, 0, at;
    Weights(0, 0, 0);
    while true
      invariant 0 <= len <= 4 && i == at + len <= |stream|
      invariant multiplier == Power128(len) && 0 <= value < multiplier <= MAX_REMAINING + 1
      invariant Decoded(stream, i, len, multiplier, value) == Decoded(stream, at, 0, 1, 0)
      decreases 5 - len
    {
      len := len + 1;
      if len > 4 {
        break;
      }
      if i >= |stream| {
        NoByte(stream, i, len - 1, multiplier, value);
        break;
      }
      var c := stream[i];
      i := i + 1;
      Weights(c, len - 1, value);
      value := value + Weighted(c, multiplier);
      multiplier := multiplier * 128;
      if c < 128 {
        break;
      }
    }
  }

  /** Where the stream has ended a field ends too, and adds nothing. */
  lemma NoByte(buf: seq<Byte>, at: nat, len: nat, multiplier: nat, value: nat)
    requires len < 4 && at >= |buf|
    ensures Decoded(buf, at, len, multiplier, value) == (value, len + 1)
  {
    assert Weighted(0, multiplier) == 0;
  }

  /** A byte of the field keeps the value below the next weight, which the fourth byte brings to the limit. */
  lemma Weights(c: Byte, n: nat, value: nat)
    requires n < 4
    ensures Power128(0) == 1 && Power128(n + 1) == 128 * Power128(n) <= MAX_REMAINING + 1
    ensures value < Power128(n) ==> value + Weighted(c, Power128(n)) < Power128(n + 1)
  {
    Powers();
    PowerGrows(n + 1, 4);
    if value < Power128(n) {
      Bound(c % 128, Power128(n), value);
    }
  }

  lemma {:induction false} DecodedLonger(buf: seq<Byte>, at: nat, len: nat, multiplier: nat, value: nat)
    ensures Decoded(buf, at, len, multiplier, value).1 > len
    decreases 5 - len
  {
    if len < 4 && At(buf, at) >= 128 {
      DecodedLonger(buf, at + 1, len + 1, multiplier * 128, value + Weighted(At(buf, at), multiplier));
    }
  }

  lemma FieldFits(n: nat)
    requires n <= MAX_REMAINING
    ensures |LengthBytes(n)| <= 4
  {
    Powers();
    FieldSize(n, 4);
  }

  /**
   * MQTTPacket_read: the type of the packet now in the buffer, or -1.  It does not ask how the length field ended: a
   * field that is cut off counts as what was read of it, and a fifth byte that should end the field is taken for the
   * body.
   */
  method Read(stream: seq<Byte>, buf: array<Byte>, buflen: nat) returns (rc: int)
    requires buflen <= buf.Length && HeadFits(stream, buf.Length)
    modifies buf
    ensures rc == if Whole(stream) && Fits(stream, buflen) then Kind(stream[0]) else -1
    ensures rc >= 0 ==> buf[..HeadLength(stream) + Remaining(stream)] == Filled(stream, Remaining(stream))
  {
    if |stream| < 1 {
      return -1;
    }
    var first := stream[0];
    var remaining, used, at := DecodeStream(stream, 1);
    FieldFits(remaining);
    var len := Begin(buf, first, remaining);
    if remaining + len > buflen {
      return -1;
    }
    if at + remaining > |stream| {
      return -1;
    }
    len := Put(buf, len, stream[at..at + remaining]);
    rc := Kind(first);
  }

  /**
   * So a lone header byte is a packet to the reader at once, and so is a field whose every byte says that more follow.
   */
  lemma CutFieldsAccepted(buflen: nat)
    requires buflen >= 2
    ensures Whole([48]) && Fits([48], buflen) && !FieldWhole([48])
    ensures var s: seq<Byte> := [48, 128, 128, 128, 128]; Whole(s) && Fits(s, buflen) && !FieldWhole(s)
  {
    NoByte([48], 1, 0, 1, 0);
    var s: seq<Byte> := [48, 128, 128, 128, 128];
    assert Decoded(s, 3, 2, 16384, 0) == (0, 5);
    assert Decoded(s, 1, 0, 1, 0) == (0, 5);
  }

  /** What the reader call by call accepts. */
  predicate Accepted(stream: seq<Byte>, buflen: nat) { FieldWhole(stream) && Whole(stream) && Fits(stream, buflen) }

  /**
   * The reader at once accepts all that the other one does, and these streams more: those that end in the length field,
   * when the bytes of it come to 0, and those whose length field does not end after four bytes.
   */
  lemma DifferExactly(stream: seq<Byte>, buflen: nat)
    ensures Accepted(stream, buflen) ==> Whole(stream) && Fits(stream, buflen)
    ensures stream != [] ==>
      (Whole(stream) && Fits(stream, buflen) && !Accepted(stream, buflen)
       <==> Fits(stream, buflen)
            && if |stream| <= FieldLength(stream) then Remaining(stream) == 0
               else FieldLength(stream) > 4 && 5 + Remaining(stream) <= |stream|)
  {
    DecodedShort(stream, 1, 0, 1, 0);
    assert FieldLength(stream) <= 5;
    hide Remaining;
    hide FieldLength;
    hide LengthBytes;
  }

  lemma {:induction false} DecodedShort(buf: seq<Byte>, at: nat, len: nat, multiplier: nat, value: nat)
    requires len <= 4
    ensures Decoded(buf, at, len, multiplier, value).1 <= 5
    decreases 5 - len
  {
    if len < 4 && At(buf, at) >= 128 {
      DecodedShort(buf, at + 1, len + 1, multiplier * 128, value + Weighted(At(buf, at), multiplier));
    }
  }

  // ------------------------------------------------------------------ call by call

  /** How many calls of a script bring bytes. */
  function Positives(script: seq<int>): nat {
    if script == [] then 0 else (if script[0] > 0 then 1 else 0) + Positives(script[1..])
  }

  /** The value of the first n bytes of the length field. */
  function LengthSoFar(stream: seq<Byte>, n: nat): nat {
    if n == 0 then 0 else LengthSoFar(stream, n - 1) + Weighted(At(stream, n), Power128(n - 1))
  }

  /** Decoding may go on from any byte of the field; all before it say that more follow. */
  lemma {:induction false} ResumeDecoding(stream: seq<Byte>, n: nat)
    requires n < FieldLength(stream) && n <= 4
    ensures Decoded(stream, 1 + n, n, Power128(n), LengthSoFar(stream, n)) == Decoded(stream, 1, 0, 1, 0)
    ensures n > 0 ==> At(stream, n) >= 128
  {
    if n > 0 {
      ResumeDecoding(stream, n - 1);
    }
  }

  /** The last byte of the field is the first below 128, and completes the value. */
  lemma FieldEnds(stream: seq<Byte>, n: nat)
    requires n < FieldLength(stream) && n < 4
    ensures At(stream, 1 + n) < 128 <==> n + 1 == FieldLength(stream)
    ensures n + 1 == FieldLength(stream) ==> LengthSoFar(stream, n + 1) == Remaining(stream)
    ensures LengthSoFar(stream, n + 1) == LengthSoFar(stream, n) + Weighted(At(stream, 1 + n), Power128(n))
    ensures Power128(n + 1) == Power128(n) * 128
  {
    ResumeDecoding(stream, n);
    if At(stream, 1 + n) >= 128 {
      DecodedLonger(stream, 2 + n, n + 1, Power128(n) * 128, LengthSoFar(stream, n)
        + Weighted(At(stream, 1 + n), Power128(n)));
    }
  }

  /** No field holds more than the limit. */
  lemma RemainingBound(stream: seq<Byte>)
    ensures Remaining(stream) <= MAX_REMAINING
  {
    Powers();
    assert Power128(0) == 1;
    DecodedBound(stream, 1, 0, 0);
  }

  lemma {:induction false} DecodedBound(buf: seq<Byte>, at: nat, len: nat, value: nat)
    requires len <= 4 && value < Power128(len)
    ensures Decoded(buf, at, len, Power128(len), value).0 < Power128(4)
    decreases 4 - len
  {
    PowerGrows(len, 4);
    if len < 4 {
      var c := At(buf, at);
      Weights(c, len, value);
      PowerGrows(len + 1, 4);
      if c >= 128 {
        DecodedBound(buf, at + 1, len + 1, value + Weighted(c, Power128(len)));
      }
    }
  }

  /** So many bytes of the length field were read, and all say that more follow. */
  ghost predicate FieldSoFar(stream: seq<Byte>, taken: nat, len: nat, multiplier: nat, remLen: nat) {
    && taken == 1 + len <= |stream| && len < FieldLength(stream) && len <= 4
    && multiplier == Power128(len) && remLen == LengthSoFar(stream, len)
  }

  lemma FieldStarts(stream: seq<Byte>)
    requires stream != []
    ensures FieldSoFar(stream, 1, 0, 1, 0)
  {
    DecodedLonger(stream, 1, 0, 1, 0);
  }

  lemma FieldPlace(stream: seq<Byte>, taken: nat, len: nat, multiplier: nat, remLen: nat)
    requires FieldSoFar(stream, taken, len, multiplier, remLen)
    ensures stream != [] && taken <= |stream| && len <= 4 && (len == 4 ==> FieldLength(stream) > 4)
    ensures len == 0 ==> multiplier == 1 && remLen == 0
  {
  }

  /** The next byte of the field completes it or goes on with it. */
  lemma FieldByte(stream: seq<Byte>, taken: nat, len: nat, multiplier: nat, remLen: nat)
    requires FieldSoFar(stream, taken, len, multiplier, remLen) && len < 4 && taken < |stream|
    ensures var c := stream[taken]; var value := remLen + Weighted(c, multiplier);
      if c < 128 then FieldLength(stream) == len + 1 && taken + 1 == BodyStart(stream) && value == Remaining(stream)
      else FieldSoFar(stream, taken + 1, len + 1, multiplier * 128, value)
  {
    FieldEnds(stream, len);
    hide Remaining;
    hide Weighted;
    hide LengthSoFar;
    hide Power128;
    assert stream[taken] == At(stream, taken);
  }

  /**
   * A transport: the stream behind it from the start of a packet on, how much of it was taken, and what its next calls
   * will come to.
   */
  class Transport {
    var stream: seq<Byte>
    var taken: nat
    var script: seq<int>
    var multiplier: nat
    var remLen: nat
    var len: nat
    var state: nat

    constructor (stream: seq<Byte>, script: seq<int>)
      ensures this.stream == stream && this.script == script && taken == 0 && state == 0
    {
      this.stream, this.script := stream, script;
      taken, multiplier, remLen, len, state := 0, 0, 0, 0, 0;
    }

    /** The calls to come bring the rest of the stream. */
    predicate Enough()
      reads this
    {
      taken < |stream| ==> taken + Positives(script) >= |stream|
    }

    /** Another packet starts where the last one ended. */
    method Next()
      requires state == 0 && taken <= |stream|
      modifies `stream, `taken
      ensures stream == old(stream)[old(taken)..] && taken == 0 && (old(Enough()) ==> Enough())
    {
      stream := stream[taken..];
      taken := 0;
    }

    /** getfn: -1 for an error, 0 for "call again", or the number of bytes taken, at most count. */
    method Get(count: nat) returns (r: int)
      requires taken <= |stream| && count > 0
      modifies `taken, `script
      ensures -1 <= r <= count && taken == old(taken) + (if r > 0 then r else 0) <= |stream|
      ensures script == if old(script) == [] then [] else old(script)[1..]
      ensures r != 0 ==> old(script) != []
      ensures r == -1 ==> old(script)[0] == -1
      ensures old(Enough()) ==> Enough()
    {
      r := 0;
      if script != [] {
        r := script[0];
        script := script[1..];
        if r < -1 {
          r := 0;
        } else if r > count {
          r := count;
        }
        if r > |stream| - taken {
          r := |stream| - taken;
        }
        if r > 0 {
          taken := taken + r;
        }
      }
    }

    /** The fields and the buffer are those of the bytes taken so far. */
    ghost predicate Consistent(buf: array<Byte>, buflen: nat)
      reads this, buf
    {
      && buflen <= buf.Length && match state
         case 0 => taken == 0
         case 1 => buf.Length > 0 && InField(buf[0])
         case 2 => BodyAt(buf) && remLen > 0 && Readable(stream, buflen) && FieldWhole(stream)
         case _ => false
    }

    /** Some bytes of the length field were read, and all say that more follow. */
    ghost predicate InField(first: Byte)
      reads this
    {
      FieldSoFar(stream, taken, len, multiplier, remLen) && len < 4 && first == stream[0]
    }

    /** Part of the body is in the buffer, and remLen bytes of it are still to come. */
    ghost predicate BodyAt(buf: array<Byte>)
      reads this, buf
    {
      len <= buf.Length && BodySoFar(stream, taken, remLen, buf[..len])
    }

    /** The whole packet is in the buffer. */
    ghost predicate Complete(buf: array<Byte>)
      reads this, buf
    {
      && stream != [] && taken == BodyStart(stream) + Remaining(stream) <= |stream|
      && HeadLength(stream) + Remaining(stream) <= buf.Length
      && buf[..HeadLength(stream) + Remaining(stream)] == Filled(stream, Remaining(stream))
    }

    /** A packet of the reserved type 0 is read to its end, but its type looks like "call again". */
    ghost predicate Lost(buf: array<Byte>)
      reads this, buf
    {
      state == 0 && stream != [] && Kind(stream[0]) == 0 && Complete(buf)
    }

    /** MQTTPacket_decodenb: the field length once the field is complete, 0 to be called again, -1 on an error. */
    method DecodeNb() returns (rc: int)
      requires FieldSoFar(stream, taken, len, if len == 0 then 1 else multiplier, if len == 0 then 0 else remLen)
        && len < 4
      modifies `taken, `script, `multiplier, `remLen, `len
      ensures rc == 0 ==> stream != [] && InField(stream[0])
      ensures rc > 0 ==> FieldWhole(stream) && stream != [] && taken == BodyStart(stream) && remLen == Remaining(stream)
      ensures old(Enough()) ==> Enough()
      ensures rc < 0 ==> rc == -1 && (-1 in old(script) || FieldLength(stream) > 4)
      ensures |script| < |old(script)| || (rc == 0 && script == [])
      ensures -1 in script ==> -1 in old(script)
    {
      if len == 0 {
        multiplier := 1;
        remLen := 0;
      }
      FieldPlace(stream, taken, len, multiplier, remLen);
      hide Positives;
      hide LengthBytes;
      hide FieldSoFar;
      hide Weighted;
      hide FieldLength;
      hide Remaining;
      hide BodyStart;
      rc := -1;
      while true
        invariant FieldSoFar(stream, taken, len, multiplier, remLen) && len <= 4 && taken <= |stream| && rc == -1
        invariant script == old(script) || |script| < |old(script)|
        invariant len == 4 ==> |script| < |old(script)| && FieldLength(stream) > 4
        invariant -1 in script ==> -1 in old(script)
        invariant old(Enough()) ==> Enough()
        decreases 5 - len
      {
        if len >= 4 {
          return -1;
        }
        var frc := Get(1);
        if frc == -1 {
          return -1;
        }
        if frc == 0 {
          return 0;
        }
        FieldByte(stream, taken - 1, len, multiplier, remLen);
        var c := stream[taken - 1];
        len := len + 1;
        remLen := remLen + Weighted(c, multiplier);
        multiplier := multiplier * 128;
        if c < 128 {
          return len;
        }
        FieldPlace(stream, taken, len, multiplier, remLen);
      }
    }

    /** MQTTPacket_readnb: the packet type once all of it is there, 0 to be called again, -1 on an error. */
    method ReadNb(buf: array<Byte>, buflen: nat) returns (rc: int)
      requires Consistent(buf, buflen) && HeadFits(stream, buf.Length)
      modifies `taken, `script, `multiplier, `remLen, `len, `state, buf
      ensures rc == 0 ==> Lost(buf) || (Consistent(buf, buflen) && (|script| < |old(script)| || script == []))
      ensures rc > 0 ==> stream != [] && rc == Kind(stream[0]) && Complete(buf) && Accepted(stream, buflen)
      ensures old(Enough()) ==> Enough()
      ensures rc < 0 ==> rc == -1 && (-1 in old(script) || !Readable(stream, buflen))
      ensures rc != 0 ==> state == 0
      ensures -1 in script ==> -1 in old(script)
    {
      hide Positives;
      hide LengthBytes;
      hide Decoded;
      if state == 0 {
        var frc := Get(1);
        if frc == -1 {
          return -1;
        }
        if frc == 0 {
          return 0;
        }
        buf[0] := stream[0];
        len := 0;
        state := 1;
        FieldStarts(stream);
      }
      if state == 1 {
        assert FieldSoFar(stream, taken, len, if len == 0 then 1 else multiplier, if len == 0 then 0 else remLen);
        var frc := DecodeNb();
        if frc == -1 {
          state := 0;
          return -1;
        }
        if frc == 0 {
          return 0;
        }
        EncodeHead(buf);
        if remLen + len > buflen {
          state := 0;
          return -1;
        }
        state := 2;
      }
      rc := ReadBody(buf, buflen);
    }

    /** The original length is put back into the buffer, in its shortest form. */
    method EncodeHead(buf: array<Byte>)
      requires stream != [] && HeadFits(stream, buf.Length) && buf[0] == stream[0]
      requires taken == BodyStart(stream) && remLen == Remaining(stream)
      modifies `len, buf
      ensures len == HeadLength(stream) && BodyAt(buf)
    {
      RemainingBound(stream);
      FieldFits(remLen);
      hide Remaining;
      hide FieldLength;
      var n := Encode(buf, 1, remLen);
      len := 1 + n;
      assert buf[..1] == [stream[0]];
    }

    /** The last step: what is left of the body. */
    method ReadBody(buf: array<Byte>, buflen: nat) returns (rc: int)
      requires state == 2 && buflen <= buf.Length && Readable(stream, buflen) && FieldWhole(stream) && BodyAt(buf)
      modifies `taken, `script, `multiplier, `remLen, `len, `state, buf
      ensures rc == 0 ==> Lost(buf) || (Consistent(buf, buflen) && (|script| < |old(script)| || script == []))
      ensures rc > 0 ==> stream != [] && rc == Kind(stream[0]) && Complete(buf) && Accepted(stream, buflen)
      ensures old(Enough()) ==> Enough()
      ensures rc < 0 ==> rc == -1 && -1 in old(script)
      ensures rc != 0 ==> state == 0
      ensures -1 in script ==> -1 in old(script)
    {
      hide BodyAt;
      hide Kind;
      if remLen > 0 {
        var frc := TakeBody(buf, buflen);
        if frc == -1 {
          state := 0;
          return -1;
        }
        if frc == 0 || remLen > 0 {
          return 0;
        }
      }
      BodyComplete(buf);
      hide Readable;
      hide Complete;
      state := 0;
      rc := Kind(buf[0]);
    }

    /** One call of the transport for the body. */
    method TakeBody(buf: array<Byte>, buflen: nat) returns (frc: int)
      requires buflen <= buf.Length && Fits(stream, buflen) && BodyAt(buf) && remLen > 0
      modifies `taken, `script, `remLen, `len, buf
      ensures frc >= -1 && BodyAt(buf) && (frc <= 0 ==> remLen > 0)
      ensures frc == -1 ==> -1 in old(script)
      ensures |script| < |old(script)| || (frc == 0 && script == [])
      ensures -1 in script ==> -1 in old(script)
      ensures old(Enough()) ==> Enough()
    {
      hide BodySoFar;
      hide Fits;
      BodyLeft(stream, taken, remLen, buf[..len], buflen);
      frc := Get(remLen);
      if frc > 0 {
        More(stream, taken - frc, remLen, buf[..len], frc);
        var end := Put(buf, len, stream[taken - frc..taken]);
        remLen := remLen - frc;
        len := len + frc;
      }
    }

    lemma BodyComplete(buf: array<Byte>)
      requires BodyAt(buf) && remLen == 0
      ensures Complete(buf) && buf.Length > 0 && buf[0] == stream[0]
    {
      FilledFirst(stream, taken, buf[..len]);
    }
  }

  /**
   * What a buffer holds when the stream has been taken up to an index in the body, and `left` bytes are still to come.
   */
  ghost predicate BodySoFar(stream: seq<Byte>, taken: nat, left: nat, held: seq<Byte>) {
    && stream != [] && BodyStart(stream) <= taken <= |stream|
    && taken - BodyStart(stream) + left == Remaining(stream)
    && held == Filled(stream, taken - BodyStart(stream))
  }

  lemma BodyLeft(stream: seq<Byte>, taken: nat, left: nat, held: seq<Byte>, buflen: nat)
    requires BodySoFar(stream, taken, left, held) && Fits(stream, buflen)
    ensures |held| + left <= buflen && taken <= |stream|
  {
  }

  lemma FilledFirst(stream: seq<Byte>, taken: nat, held: seq<Byte>)
    requires BodySoFar(stream, taken, 0, held)
    ensures |held| == HeadLength(stream) + Remaining(stream) > 0 && held[0] == stream[0]
  {
  }

  lemma More(stream: seq<Byte>, taken: nat, left: nat, held: seq<Byte>, k: nat)
    requires BodySoFar(stream, taken, left, held) && k <= left && taken + k <= |stream|
    ensures BodySoFar(stream, taken + k, left - k, held + stream[taken..taken + k])
  {
    hide LengthBytes;
    hide FieldLength;
    hide Remaining;
    var at := BodyStart(stream);
    assert stream[at..taken] + stream[taken..taken + k] == stream[at..taken + k];
  }

  /** When all of the stream was taken and the packet is not complete, the stream does not hold an acceptable one. */
  lemma StillWaiting(t: Transport, buf: array<Byte>, buflen: nat)
    requires t.Consistent(buf, buflen) && t.taken >= |t.stream|
    ensures !Accepted(t.stream, buflen)
  {
    hide Remaining;
    hide FieldLength;
    hide LengthBytes;
    hide Weighted;
  }

  /**
   * However the transport chops the stream and however often it says "call again": once the packet is there, buffer and
   * type are those of reading at once; until then nothing but an error of the transport, or a packet that is too long
   * or has a length field that does not end, ends the reading.  From a transport without errors that brings all of the
   * stream a packet is got exactly when the stream starts with an acceptable one.
   */
  method ReadAll(t: Transport, buf: array<Byte>, buflen: nat) returns (rc: int)
    requires t.Consistent(buf, buflen) && HeadFits(t.stream, buf.Length) && (t.stream != [] ==> Kind(t.stream[0]) != 0)
    modifies t`taken, t`script, t`multiplier, t`remLen, t`len, t`state, buf
    ensures rc == 0 ==> t.script == [] && t.Consistent(buf, buflen)
    ensures rc > 0 ==> t.stream != [] && rc == Kind(t.stream[0]) && t.Complete(buf) && Accepted(t.stream, buflen)
    ensures rc < 0 ==> -1 in old(t.script) || !Readable(t.stream, buflen)
    ensures old(t.Enough()) && -1 !in old(t.script) ==> (rc > 0 <==> Accepted(t.stream, buflen))
    ensures (old(t.Enough()) ==> t.Enough()) && (-1 in t.script ==> -1 in old(t.script)) && (rc != 0 ==> t.state == 0)
  {
    hide Transport.Consistent;
    hide Transport.Complete;
    hide Kind;
    hide Readable;
    hide Accepted;
    rc := 0;
    while rc == 0 && t.script != []
      invariant rc == 0 ==> t.Consistent(buf, buflen)
      invariant rc != 0 ==> t.state == 0
      invariant rc > 0 ==> t.stream != [] && rc == Kind(t.stream[0]) && t.Complete(buf) && Accepted(t.stream, buflen)
      invariant rc < 0 ==> -1 in old(t.script) || !Readable(t.stream, buflen)
      invariant -1 in t.script ==> -1 in old(t.script)
      invariant old(t.Enough()) ==> t.Enough()
      decreases rc == 0, |t.script|
    {
      rc := t.ReadNb(buf, buflen);
    }
    AcceptedReads(t.stream, buflen);
    if rc == 0 && t.taken >= |t.stream| {
      StillWaiting(t, buf, buflen);
    }
  }

  lemma AcceptedReads(stream: seq<Byte>, buflen: nat)
    ensures Accepted(stream, buflen) ==> Readable(stream, buflen) && stream != []
  {
  }

  // ------------------------------------------------------------------ one packet after another

  /** Where the packet at the start of a stream ends. */
  function PacketEnd(stream: seq<Byte>): (n: nat)
    requires Whole(stream)
    ensures 0 < n <= |stream|
  {
    BodyStart(stream) + Remaining(stream)
  }

  /** The packets of a stream, as the buffer holds them, up to the first that is not acceptable. */
  function Packets(stream: seq<Byte>, buflen: nat): seq<seq<Byte>>
    decreases |stream|
  {
    if !Accepted(stream, buflen) then []
    else [Filled(stream, Remaining(stream))] + Packets(stream[PacketEnd(stream)..], buflen)
  }

  /** The head of every packet up to that one has room in the buffer, and none of them has the reserved type 0. */
  predicate Receivable(stream: seq<Byte>, buflen: nat, size: nat)
    decreases |stream|
  {
    && HeadFits(stream, size) && (stream != [] ==> Kind(stream[0]) != 0)
    && (Accepted(stream, buflen) ==> Receivable(stream[PacketEnd(stream)..], buflen, size))
  }

  lemma PacketsStep(stream: seq<Byte>, buflen: nat, size: nat)
    requires Accepted(stream, buflen) && Receivable(stream, buflen, size)
    ensures var rest := stream[PacketEnd(stream)..];
      && Packets(stream, buflen) == [Filled(stream, Remaining(stream))] + Packets(rest, buflen)
      && Receivable(rest, buflen, size)
  {
  }

  lemma NoPackets(stream: seq<Byte>, buflen: nat)
    requires !Accepted(stream, buflen)
    ensures Packets(stream, buflen) == []
  {
  }

  /** What is taken and what is in the buffer when a packet has been read. */
  lemma PacketRead(t: Transport, buf: array<Byte>, buflen: nat)
    requires t.Complete(buf) && Accepted(t.stream, buflen)
    ensures Whole(t.stream) && t.taken == PacketEnd(t.stream) <= |t.stream|
    ensures HeadLength(t.stream) + Remaining(t.stream) <= buf.Length
    ensures buf[..HeadLength(t.stream) + Remaining(t.stream)] == Filled(t.stream, Remaining(t.stream))
  {
  }

  lemma AtStart(t: Transport, buf: array<Byte>, buflen: nat)
    requires t.state == 0 && t.taken == 0 && buflen <= buf.Length
    ensures t.Consistent(buf, buflen)
  {
  }

  /**
   * Reading again and again: the packets come one after another, each from where the one before ended, and from a
   * transport without errors that brings the whole stream all of them come.
   */
  method ReadPackets(t: Transport, buf: array<Byte>, buflen: nat) returns (packets: seq<seq<Byte>>)
    requires t.state == 0 && t.taken == 0 && buflen <= buf.Length && Receivable(t.stream, buflen, buf.Length)
    modifies t, buf
    ensures packets <= Packets(old(t.stream), buflen)
    ensures old(t.Enough()) && -1 !in old(t.script) ==> packets == Packets(old(t.stream), buflen)
  {
    hide Packets;
    hide Accepted;
    hide Transport.Consistent;
    hide Transport.Complete;
    hide Transport.Enough;
    hide Kind;
    ghost var all := Packets(t.stream, buflen);
    packets := [];
    assert [] + all == all;
    AtStart(t, buf, buflen);
    assert HeadFits(t.stream, buf.Length);
    var rc := ReadAll(t, buf, buflen);
    while rc > 0
      invariant packets + Packets(t.stream, buflen) == all && Receivable(t.stream, buflen, buf.Length)
      invariant rc > 0 ==> t.Complete(buf) && Accepted(t.stream, buflen) && t.state == 0
      invariant old(t.Enough()) ==> t.Enough()
      invariant -1 in t.script ==> -1 in old(t.script)
      invariant old(t.Enough()) && -1 !in old(t.script) ==> (rc > 0 <==> Accepted(t.stream, buflen))
      decreases |t.stream|, rc > 0
    {
      PacketRead(t, buf, buflen);
      PacketsStep(t.stream, buflen, buf.Length);
      ghost var was, rest := packets, Packets(t.stream[PacketEnd(t.stream)..], buflen);
      packets := packets + [buf[..HeadLength(t.stream) + Remaining(t.stream)]];
      assert was + (Packets(t.stream, buflen)) == packets + rest;
      t.Next();
      AtStart(t, buf, buflen);
      assert HeadFits(t.stream, buf.Length) && (t.stream != [] ==> Kind(t.stream[0]) != 0);
      rc := ReadAll(t, buf, buflen);
    }
    if old(t.Enough()) && -1 !in old(t.script) {
      NoPackets(t.stream, buflen);
      assert packets + [] == packets;
    }
  }

  /** The bytes of packets sent one after another. */
  function Sent(packets: seq<seq<Byte>>): seq<Byte> {
    if packets == [] then [] else packets[0] + Sent(packets[1..])
  }

  /** A packet with its length field in the shortest form, as the serializers write it. */
  ghost predicate Shortest(packet: seq<Byte>, buflen: nat) {
    && |packet| <= buflen
    && exists first: Byte, body: seq<Byte> :: |body| <= MAX_REMAINING && packet == Packet(first, body)
  }

  /** At the start of a stream such a packet is read as it is, whatever follows. */
  lemma FirstRead(first: Byte, body: seq<Byte>, rest: seq<Byte>, buflen: nat)
    requires |body| <= MAX_REMAINING && |Packet(first, body)| <= buflen
    ensures var s := Packet(first, body) + rest;
      && Accepted(s, buflen) && Filled(s, Remaining(s)) == Packet(first, body) && s[PacketEnd(s)..] == rest
  {
    var p := Packet(first, body);
    var s := p + rest;
    assert s[0..0 + |p|] == p;
    Framed(s, first, body);
    FieldFits(|body|);
    FrameIs(first, body);
    hide Decoded;
    hide LengthBytes;
    hide Packet;
    var at := 1 + |LengthBytes(|body|)|;
    assert s[at..at + |body|] == body;
    assert s[|p|..] == rest;
  }

  lemma OneRead(packet: seq<Byte>, rest: seq<Byte>, buflen: nat)
    requires Shortest(packet, buflen)
    ensures Packets(packet + rest, buflen) == [packet] + Packets(rest, buflen)
  {
    hide Accepted;
    hide Filled;
    hide Packet;
    hide PacketEnd;
    var first: Byte, body: seq<Byte> :| |body| <= MAX_REMAINING && packet == Packet(first, body);
    FirstRead(first, body, rest, buflen);
  }

  lemma SentStep(packets: seq<seq<Byte>>, rest: seq<Byte>)
    ensures packets == [] ==> Sent(packets) + rest == rest
    ensures packets != [] ==> Sent(packets) + rest == packets[0] + (Sent(packets[1..]) + rest)
  {
  }

  /** What was sent as packets comes as these packets. */
  lemma {:induction false} SentRead(packets: seq<seq<Byte>>, rest: seq<Byte>, buflen: nat)
    requires forall p :: p in packets ==> Shortest(p, buflen)
    ensures Packets(Sent(packets) + rest, buflen) == packets + Packets(rest, buflen)
    decreases |packets|
  {
    hide *;
    SentStep(packets, rest);
    if packets == [] {
      assert packets + Packets(rest, buflen) == Packets(rest, buflen);
    } else {
      OneRead(packets[0], Sent(packets[1..]) + rest, buflen);
      SentRead(packets[1..], rest, buflen);
      assert packets + Packets(rest, buflen) == [packets[0]] + (packets[1..] + Packets(rest, buflen));
    }
  }
}
