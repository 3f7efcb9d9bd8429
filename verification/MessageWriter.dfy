/** The write path of one connection: frames through the buffer, and messages as sequences of frames. */
module MessageWriter {
  import opened Octets
  import opened FrameHeader
  import opened Frames
  import opened BufferedIO
  import opened FrameIO
  import opened Compression

  /** The part of Conn that writes frames. Masking keys, which the source draws at random, are parameters. */
  class FrameWriter {
    const client: bool
    const w: BufWriter
    const scratch: array<byte>
    var closed: bool
    ghost var frames: seq<Frame>

    /** Every octet that reached the connection belongs to the encodings of the frames, in order. */
    ghost predicate Valid()
      reads this, w, w.buf, w.sink, scratch
    {
      && w.Valid() && scratch.Length == 8 && scratch != w.buf
      && w.written == EncodeAll(frames)
      && (w.failed <==> closed)
    }

    constructor (client: bool, w: BufWriter)
      requires w.Valid() && w.written == [] && !w.failed
      ensures Valid() && frames == [] && !closed && this.client == client && this.w == w
      ensures fresh(scratch)
    {
      this.client, this.w := client, w;
      scratch := new byte[8];
      closed, frames := false, [];
    }

    /** RSV1 marks the first frame of a compressed message. */
    function FrameFor(fin: bool, flate: bool, op: Opcode, p: seq<byte>, key: bv32): Frame {
      Frame(fin, flate && IsMessageStart(op), op, client, key, p)
    }

    /** Header and payload of a frame, into the buffer. */
    method WriteEncoded(f: Frame) returns (ok: bool)
      requires w.Valid() && scratch.Length == 8 && scratch != w.buf && !w.failed
      modifies w, w.buf, w.sink, scratch
      ensures w.Valid() && ok == !w.failed
      ensures w.written == old(w.written) + EncodeFrame(f)
    {
      hide EncodeHeader, BufWriter.Valid, WirePayload;
      ok := WriteFrameHeader(HeaderFor(f), w, scratch);
      if ok {
        ok := WriteFramePayload(HeaderFor(f), w, f.payload);
      } else {
        GiveUp(w, WirePayload(HeaderFor(f), f.payload));
      }
    }

    /** Writes one frame, flushing after a final one. An error closes the connection. */
    method WriteFrame(fin: bool, flate: bool, op: Opcode, p: seq<byte>, key: bv32) returns (ok: bool)
      requires Valid()
      modifies this, w, w.buf, w.sink, scratch
      ensures Valid() && ok == !closed
      ensures old(closed) ==> closed && frames == old(frames) && w.sink.accepted == old(w.sink.accepted)
      ensures !old(closed) ==> frames == old(frames) + [FrameFor(fin, flate, op, p, key)]
      ensures ok && fin ==> w.sink.accepted == EncodeAll(frames)
    {
      hide EncodeFrame, EncodeAll;
      if closed {
        return false;
      }
      ghost var f := FrameFor(fin, flate, op, p, key);
      EncodeAllSnoc(frames, f);
      ok := WriteEncoded(FrameFor(fin, flate, op, p, key));
      frames := frames + [f];
      if ok && fin {
        ok := w.Flush();
      }
      closed := !ok;
    }
  }

  /** The msgWriter of a connection. It is shared by all messages; locked stands for its mutex, held from the Writer
      call that opens a message to the Close that ends it. */
  class MsgWriter {
    const fw: FrameWriter
    const trim: TrimWriter
    const compress: bool
    const threshold: nat
    var locked: bool
    var opcode: Opcode
    var flate: bool
    var closed: bool
    ghost var typ: Opcode
    ghost var first: nat          // the index, among the frames of the connection, of the first frame of the message
    ghost var given: seq<byte>    // the octets of the message, as given to Write or as made by the deflater

    ghost predicate Shape()
      reads this, fw, fw.w, fw.w.buf, fw.w.sink, fw.scratch, trim, trim.tail
    {
      && fw.Valid() && trim.Valid()
      && trim.tail != fw.w.buf && trim.tail != fw.scratch
    }

    /** While a message is open and the connection is up: its frames so far are its fragments, and they carry what was
        given, less what the trimmer holds back. */
    ghost predicate Valid()
      reads this, fw, fw.w, fw.w.buf, fw.w.sink, fw.scratch, trim, trim.tail
    {
      && Shape()
      && (locked && !closed && !fw.closed ==>
            && IsMessageStart(typ)
            && first <= |fw.frames|
            && opcode == NextOpcode(typ, |fw.frames| - first)
            && Fragments(fw.client, typ, flate, fw.frames[first..])
            && Concat(Payloads(fw.frames[first..])) == (if flate then trim.passed else given)
            && trim.written == (if flate then given else []))
    }

    constructor (fw: FrameWriter, compress: bool, threshold: nat)
      requires fw.Valid()
      ensures Valid() && this.fw == fw && !locked && this.compress == compress
      ensures fresh(trim) && fresh(trim.tail)
    {
      this.fw, this.compress, this.threshold := fw, compress, threshold;
      trim := new TrimWriter();
      locked, opcode, flate, closed := false, CONTINUATION, false, true;
      typ, first, given := CONTINUATION, 0, [];
    }

    /** Writer: opens a message, unless the connection is closed. */
    method Reset(t: Opcode) returns (ok: bool)
      requires Valid() && !locked && IsMessageStart(t)
      modifies this, trim
      ensures Valid() && ok == locked == !fw.closed
      ensures ok ==> !closed && !flate && typ == t && given == [] && first == |fw.frames| && opcode == t
    {
      hide FrameWriter.Valid, TrimWriter.Valid, Payloads, Concat;
      if fw.closed {
        return false;
      }
      ok := true;
      NoPayloads();
      locked, opcode, flate, closed := true, t, false, false;
      trim.Reset();
      typ, first, given := t, |fw.frames|, [];
      assert fw.frames[first..] == [];
    }

    /** One frame of the open message. */
    method WriteFragment(p: seq<byte>, key: bv32) returns (ok: bool)
      requires Shape() && !fw.closed
      requires IsMessageStart(typ) && first <= |fw.frames| && opcode == NextOpcode(typ, |fw.frames| - first)
      requires Fragments(fw.client, typ, flate, fw.frames[first..])
      modifies this`opcode, fw, fw.w, fw.w.buf, fw.w.sink, fw.scratch
      ensures Shape() && ok == !fw.closed
      ensures fw.frames == old(fw.frames) + [fw.FrameFor(false, flate, old(opcode), p, key)]
      ensures ok ==> opcode == CONTINUATION
      ensures Fragments(fw.client, typ, flate, fw.frames[first..])
      ensures Concat(Payloads(fw.frames[first..])) == old(Concat(Payloads(fw.frames[first..]))) + p
    {
      hide FrameWriter.Valid, TrimWriter.Valid, Concat, Payloads, Fragments;
      ghost var before := fw.frames[first..];
      ghost var f := fw.FrameFor(false, flate, opcode, p, key);
      ok := fw.WriteFrame(false, flate, opcode, p, key);
      if ok {
        opcode := CONTINUATION;
      }
      assert fw.frames[first..] == before + [f];
      FragmentsSnoc(fw.client, typ, flate, before, f);
      PayloadsSnoc(before, f);
    }

    /** What flateWriter hands down, chunk by chunk, through the trimmer. keys gives the key of each frame of each
        chunk. */
    method WriteDeflated(chunks: seq<seq<byte>>, keys: nat -> nat -> bv32) returns (ok: bool)
      requires Valid() && locked && !closed && flate && !fw.closed
      modifies this`opcode, this`given, fw, fw.w, fw.w.buf, fw.w.sink, fw.scratch, trim, trim.tail
      ensures Valid() && ok == !fw.closed
      ensures given == old(given) + Concat(chunks) && old(fw.frames) <= fw.frames
    {
      hide FrameWriter.Valid, TrimWriter.Valid, Concat, Payloads, Fragments;
      var i := 0;
      ok := true;
      assert chunks[..0] == [];
      ConcatNone<byte>();
      while i < |chunks| && ok
        invariant 0 <= i <= |chunks| && Valid() && ok == !fw.closed
        invariant given == old(given) + Concat(chunks[..i]) && old(fw.frames) <= fw.frames
      {
        ConcatSnoc(chunks[..i], chunks[i]);
        assert chunks[..i + 1] == chunks[..i] + [chunks[i]];
        ok := WriteChunk(chunks[i], keys(i));
        i := i + 1;
      }
      assert i == |chunks| ==> chunks[..i] == chunks;
      given := old(given) + Concat(chunks);
    }

    lemma ConcatNone<T>()
      ensures Concat<T>([]) == []
    {
    }

    method WriteChunk(chunk: seq<byte>, keys: nat -> bv32) returns (ok: bool)
      requires Valid() && locked && !closed && flate && !fw.closed
      modifies this`opcode, this`given, fw, fw.w, fw.w.buf, fw.w.sink, fw.scratch, trim, trim.tail
      ensures Valid() && ok == !fw.closed
      ensures given == old(given) + chunk && old(fw.frames) <= fw.frames
    {
      hide FrameWriter.Valid, TrimWriter.Valid, Payloads, Concat;
      ghost var passed := trim.passed;
      var pieces := trim.Write(chunk);
      given := given + chunk;
      ok := true;
      var i := 0;
      assert pieces[..0] == [];
      ConcatNone<byte>();
      while i < |pieces| && ok
        invariant 0 <= i <= |pieces| && Shape() && ok == !fw.closed
        invariant given == old(given) + chunk && trim.written == given && old(fw.frames) <= fw.frames
        invariant trim.passed == passed + Concat(pieces)
        invariant ok ==>
            && first <= |fw.frames| && opcode == NextOpcode(typ, |fw.frames| - first)
            && Fragments(fw.client, typ, flate, fw.frames[first..])
            && Concat(Payloads(fw.frames[first..])) == passed + Concat(pieces[..i])
      {
        ConcatSnoc(pieces[..i], pieces[i]);
        assert pieces[..i + 1] == pieces[..i] + [pieces[i]];
        ok := WriteFragment(pieces[i], keys(i));
        i := i + 1;
      }
      assert ok ==> pieces[..i] == pieces;
    }

    /** Write: p goes out as one frame, or into the deflater, which hands down chunks. Compression starts only with a
        first Write that reaches the threshold. */
    method Write(p: seq<byte>, chunks: seq<seq<byte>>, keys: nat -> nat -> bv32) returns (ok: bool)
      requires Valid() && locked
      modifies this, fw, fw.w, fw.w.buf, fw.w.sink, fw.scratch, trim, trim.tail
      ensures Valid() && locked && typ == old(typ) && first == old(first) && closed == old(closed)
      ensures old(fw.frames) <= fw.frames && (!old(closed) ==> ok == !fw.closed)
      ensures old(closed) || old(fw.closed) ==> !ok && fw.frames == old(fw.frames)
      ensures !old(closed) && ok ==>
                && !fw.closed
                && flate == (old(flate) || (compress && old(opcode) != CONTINUATION && |p| >= threshold))
                && given == old(given) + (if flate then Concat(chunks) else p)
    {
      hide FrameWriter.Valid, TrimWriter.Valid, Payloads, Concat;
      if closed || fw.closed {
        return false;
      }
      if compress && opcode != CONTINUATION && |p| >= threshold {
        StartFlate();
        flate := true;
      }
      if flate {
        ok := WriteDeflated(chunks, keys);
        return;
      }
      given := given + p;
      ok := WriteFragment(p, keys(0)(0));
    }

    /** Before the first frame nothing has been given, so compression can start. */
    lemma StartFlate()
      requires Valid() && locked && !closed && !fw.closed && opcode != CONTINUATION
      ensures fw.frames[first..] == [] && (!flate ==> given == [] && trim.written == [] && trim.passed == [])
    {
      assert |fw.frames| == first;
      assert fw.frames[first..] == [];
      assert Concat(Payloads([])) == [];
    }

    /** Close: drains the deflater, writes the final frame and gives the writer back. */
    method Close(chunks: seq<seq<byte>>, keys: nat -> nat -> bv32, key: bv32) returns (ok: bool)
      requires Valid() && locked
      modifies this, fw, fw.w, fw.w.buf, fw.w.sink, fw.scratch, trim, trim.tail
      ensures Valid() && typ == old(typ) && first == old(first) && flate == old(flate)
      ensures old(fw.frames) <= fw.frames && (!old(closed) ==> ok == !fw.closed)
      ensures old(closed) ==> !ok && fw.frames == old(fw.frames)
      ensures ok ==> first <= |fw.frames|
      ensures ok ==>
                && !locked && closed
                && given == old(given) + (if flate then Concat(chunks) else [])
                && fw.w.sink.accepted == EncodeAll(fw.frames)
                && CompleteMessage(fw.client, typ, flate, fw.frames[first..],
                                   if flate then AllButLast(given, 4) else given)
    {
      hide FrameWriter.Valid, TrimWriter.Valid, Payloads, Concat, EncodeAll;
      if closed {
        return false;
      }
      if fw.closed {
        closed := true;
        return false;
      }
      if flate {
        ok := WriteDeflated(chunks, keys);
        if !ok {
          closed := true;
          return;
        }
      }
      ok := WriteFinal(key);
      closed := true;
      if ok {
        locked := false;
      }
    }

    /** The empty final frame of the open message. */
    method WriteFinal(key: bv32) returns (ok: bool)
      requires Valid() && locked && !closed && !fw.closed
      modifies fw, fw.w, fw.w.buf, fw.w.sink, fw.scratch
      ensures Shape() && ok == !fw.closed && first <= |fw.frames| && old(fw.frames) <= fw.frames
      ensures ok ==> fw.w.sink.accepted == EncodeAll(fw.frames)
      ensures CompleteMessage(fw.client, typ, flate, fw.frames[first..], if flate then AllButLast(given, 4) else given)
    {
      hide FrameWriter.Valid, TrimWriter.Valid, Payloads, Concat, EncodeAll, AllButLast;
      ghost var before := fw.frames[first..];
      ghost var f := fw.FrameFor(true, flate, opcode, [], key);
      PayloadsSnoc(before, f);
      trim.Holds();
      ok := fw.WriteFrame(true, flate, opcode, [], key);
      ghost var fs := fw.frames[first..];
      assert fs == before + [f];
      assert fs[..|fs| - 1] == before && fs[|fs| - 1] == f;
    }

    /** Conn.Write without compression: one final frame, and the writer is given back whatever happens. */
    method WriteWhole(t: Opcode, p: seq<byte>, key: bv32) returns (ok: bool)
      requires Valid() && !locked && IsMessageStart(t)
      modifies this, fw, fw.w, fw.w.buf, fw.w.sink, fw.scratch, trim
      ensures Valid() && !locked && ok == !fw.closed
      ensures ok ==>
                && fw.w.sink.accepted == EncodeAll(fw.frames)
                && first <= |fw.frames| && first == old(|fw.frames|)
                && fw.frames[..first] == old(fw.frames)
                && CompleteMessage(fw.client, t, false, fw.frames[first..], p)
    {
      hide FrameWriter.Valid, TrimWriter.Valid, Payloads, Concat, EncodeAll, CompleteMessage, Fragments;
      ok := Reset(t);
      if !ok {
        return;
      }
      ghost var f := fw.FrameFor(true, false, opcode, p, key);
      ok := fw.WriteFrame(true, false, opcode, p, key);
      locked := false;
      if ok {
        assert fw.frames[first..] == [f];
        WholeMessage(f, t);
      }
    }

    lemma WholeMessage(f: Frame, t: Opcode)
      requires f.fin && f.opcode == t && !f.rsv1
      ensures CompleteMessage(f.masked, t, false, [f], f.payload)
    {
      hide Payloads, Concat;
      PayloadsSnoc([], f);
      NoPayloads();
      assert [] + [f] == [f];
    }

    lemma NoPayloads()
      ensures Concat(Payloads([])) == []
    {
    }
  }
}
