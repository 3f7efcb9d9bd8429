/** Writing and reading one frame header or payload through the buffers. */
module FrameIO {
  import opened Octets
  import opened Masking
  import opened FrameHeader
  import opened BufferedIO
  import opened Frames

  /** Accounts for octets that were due to be written after a failure. */
  method GiveUp(w: BufWriter, ghost lost: seq<byte>)
    requires w.Valid() && w.failed
    modifies w
    ensures w.Valid() && w.failed && w.written == old(w.written) + lost && w.n == old(w.n)
  {
    w.written := w.written + lost;
  }

  method WriteExtendedLength(length: nat, w: BufWriter, scratch: array<byte>) returns (ok: bool)
    requires w.Valid() && scratch.Length == 8 && scratch != w.buf && !w.failed
    modifies w, w.buf, w.sink, scratch
    ensures w.Valid() && ok == !w.failed
    ensures w.written == old(w.written) + ExtendedLength(length)
  {
    hide BigEndian;
    if length > 0xffff {
      Store(scratch, 0, BigEndian(length, 8));
      assert scratch[..] == ExtendedLength(length);
      ok := w.Write(scratch[..]);
    } else if length > 125 {
      Store(scratch, 0, BigEndian(length, 2));
      assert scratch[..2] == ExtendedLength(length);
      ok := w.Write(scratch[..2]);
    } else {
      assert ExtendedLength(length) == [];
      ok := true;
    }
  }

  method WriteKey(h: Header, w: BufWriter, scratch: array<byte>) returns (ok: bool)
    requires w.Valid() && scratch.Length == 8 && scratch != w.buf && !w.failed
    modifies w, w.buf, w.sink, scratch
    ensures w.Valid() && ok == !w.failed
    ensures w.written == old(w.written) + KeyBytes(h)
  {
    hide KeyOctets;
    ok := true;
    if h.masked {
      Store(scratch, 0, KeyOctets(h.maskKey));
      assert scratch[..4] == KeyOctets(h.maskKey);
      ok := w.Write(scratch[..4]);
    }
  }

  /** Writes a header with a scratch buffer of 8 octets. After a failure the connection holds a prefix of it. */
  method WriteFrameHeader(h: Header, w: BufWriter, scratch: array<byte>) returns (ok: bool)
    requires w.Valid() && scratch.Length == 8 && scratch != w.buf
    modifies w, w.buf, w.sink, scratch
    ensures w.Valid() && ok == !w.failed
    ensures w.written == old(w.written) + EncodeHeader(h)
  {
    hide FirstByte, LengthByte, KeyBytes, ExtendedLength, BufWriter.Valid;
    ok := w.WriteByte(FirstByte(h));
    if ok {
      ok := w.WriteByte(LengthByte(h));
    } else {
      GiveUp(w, [LengthByte(h)]);
    }
    assert w.written == old(w.written) + [FirstByte(h), LengthByte(h)];
    if ok {
      ok := WriteExtendedLength(h.payloadLength, w, scratch);
    } else {
      GiveUp(w, ExtendedLength(h.payloadLength));
    }
    if ok {
      ok := WriteKey(h, w, scratch);
    } else {
      GiveUp(w, KeyBytes(h));
    }
  }

  /** One round of the masking loop: make room, copy as much of p as fits behind the buffered octets, and mask that
      part of the buffer in place. The octets buffered before it keep their values (w.Valid) and no plain octet of p
      is ever handed to the connection. */
  method MaskIntoBuffer(w: BufWriter, key0: bv32, p: seq<byte>) returns (ok: bool, key: bv32, j: nat)
    requires w.Valid() && p != []
    modifies w, w.buf, w.sink
    ensures w.Valid() && ok == !w.failed && j <= |p|
    ensures w.written == old(w.written) + Masked(key0, p[..j])
    ensures ok ==> j > 0 && key == KeyAfter(key0, j)
    ensures old(w.failed) ==> w.failed && w.sink.accepted == old(w.sink.accepted)
  {
    hide Masked, Rotated, KeyAfter;
    key, j := key0, 0;
    assert Masked(key0, p[..0]) == [];
    if w.Available() == 0 {
      ok := w.Flush();
      if !ok {
        return;
      }
    }
    ghost var start := w.written;
    var i := w.n;
    var k := if |p| > w.Available() then w.Available() else |p|;
    ok := w.Write(p[..k]);
    if !ok {
      w.written := start;
      return;
    }
    j := k;
    assert w.buf[i..w.n] == p[..j];
    key := MaskBuffered(w, key0, i, start);
  }

  lemma CancelRight<T>(a: seq<T>, b: seq<T>, c: seq<T>)
    requires a + c == b + c
    ensures a == b
  {
    assert a == (a + c)[..|a|] && b == (b + c)[..|b|];
  }

  /** Masks the last part of the buffer in place, for octets that were written plain. */
  method MaskBuffered(w: BufWriter, key0: bv32, i: nat, ghost start: seq<byte>) returns (key: bv32)
    requires w.Valid() && !w.failed && i <= w.n && w.written == start + w.buf[i..w.n]
    modifies w`written, w.buf
    ensures w.Valid() && w.written == start + Masked(key0, old(w.buf[i..w.n]))
    ensures key == KeyAfter(key0, w.n - i)
    ensures w.buf[..i] == old(w.buf[..i])
  {
    hide Masked, KeyAfter;
    ghost var before, plain := w.buf[..i], w.buf[i..w.n];
    assert w.buf[..w.n] == before + plain;
    CancelRight(start, w.sink.accepted + before, plain);
    key := Mask(key0, w.buf, i, w.n);
    w.written := start + Masked(key0, plain);
    assert w.buf[..w.n] == before + Masked(key0, plain);
  }

  lemma MaskedSplit(key: bv32, p: seq<byte>, j: nat, before: seq<byte>)
    requires j <= |p|
    ensures before + Masked(key, p) == (before + Masked(key, p[..j])) + Masked(KeyAfter(key, j), p[j..])
  {
    hide Masked, KeyAfter;
    MaskedAppend(key, p[..j], p[j..]);
    assert p == p[..j] + p[j..];
  }

  method WriteMasked(w: BufWriter, key0: bv32, p: seq<byte>) returns (ok: bool)
    requires w.Valid()
    modifies w, w.buf, w.sink
    ensures w.Valid()
    ensures if p == [] then ok && w.failed == old(w.failed) else ok == !w.failed
    ensures w.written == old(w.written) + Masked(key0, p)
    ensures old(w.failed) ==> w.failed && w.sink.accepted == old(w.sink.accepted)
  {
    hide Masked, KeyAfter, BufWriter.Valid;
    ghost var target := w.written + Masked(key0, p);
    var key, rest := key0, p;
    ok := true;
    while rest != []
      invariant w.Valid() && ok
      invariant w.written + Masked(key, rest) == target
      invariant if rest == p then w.failed == old(w.failed) else !w.failed
      invariant old(w.failed) ==> w.failed && w.sink.accepted == old(w.sink.accepted)
      decreases |rest|
    {
      ghost var before, written := key, w.written;
      var j;
      ok, key, j := MaskIntoBuffer(w, key, rest);
      MaskedSplit(before, rest, j, written);
      if !ok {
        GiveUp(w, Masked(KeyAfter(before, j), rest[j..]));
        return;
      }
      rest := rest[j..];
    }
    assert Masked(key, rest) == [];
  }

  /** Writes a payload; after a failure the connection holds a prefix of what was due. */
  method WriteFramePayload(h: Header, w: BufWriter, p: seq<byte>) returns (ok: bool)
    requires w.Valid()
    modifies w, w.buf, w.sink
    ensures w.Valid()
    ensures if h.masked && p == [] then ok && w.failed == old(w.failed) else ok == !w.failed
    ensures w.written == old(w.written) + WirePayload(h, p)
    ensures old(w.failed) ==> w.failed && w.sink.accepted == old(w.sink.accepted)
  {
    if !h.masked {
      ok := w.Write(p);
    } else {
      ok := WriteMasked(w, h.maskKey, p);
    }
  }

  // ----- reading -----

  function DecodedOf(r: BufReader, ok: bool, h: Header, e: HeaderError): Decoded
    reads r
  {
    if ok then Ok(h, r.rest) else Fail(e)
  }

  /** Reads the extended length into the scratch buffer. */
  method ReadExtendedLength(
    r: BufReader, code: nat, scratch: array<byte>) returns (ok: bool, length: nat, e: HeaderError)
    requires scratch.Length == 8
    modifies r, scratch
    ensures var k := ExtendedSize(code);
            && ok == (|old(r.rest)| >= k)
            && (ok ==> length == LengthOf(code, old(r.rest)[..k]) && r.rest == old(r.rest)[k..])
            && (!ok ==> e == ShortRead(old(r.rest)))
  {
    hide FromBigEndian;
    ghost var start := r.rest;
    var k := ExtendedSize(code);
    e := ShortRead(r.rest);
    ok, length := true, code;
    if k > 0 {
      ok := r.ReadFull(scratch, 0, k);
      if ok {
        assert scratch[..k] == start[..k];
      }
      length := FromBigEndian(scratch[..k]);
    }
  }

  /** The parser over a buffered reader. */
  method ReadFrameHeader(r: BufReader, scratch: array<byte>) returns (ok: bool, h: Header, e: HeaderError)
    requires scratch.Length == 8
    modifies r, scratch
    ensures DecodedOf(r, ok, h, e) == DecodeHeader(old(r.rest))
  {
    hide CodeOf, IsSet, OpcodeOf, LengthOf, Word32, ExtendedSize;
    ghost var start := r.rest;
    h := HeaderOf(0, 0, false, 0);
    var first, second;
    first, ok := r.ReadByte();
    if !ok {
      return false, h, Eof;
    }
    second, ok := r.ReadByte();
    if !ok {
      return false, h, Eof;
    }
    assert r.rest == start[2..];
    var length;
    ok, length, e := ReadExtendedLength(r, CodeOf(second), scratch);
    if !ok {
      return;
    }
    if length >= INT64_LIMIT {
      return false, h, NegativeLength;
    }
    if !IsSet(second, 0x80) {
      return true, HeaderOf(first, length, false, 0), Eof;
    }
    ghost var tail := r.rest;
    e := ShortRead(r.rest);
    ok := r.ReadFull(scratch, 0, 4);
    if ok {
      assert scratch[..4] == tail[..4];
      h := HeaderOf(first, length, true, Word32(scratch[..4]));
    }
  }
}
