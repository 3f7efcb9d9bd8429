/** Frames, the octets that carry them, and the messages that a sequence of frames carries. */
module Frames {
  import opened Octets
  import opened Masking
  import opened FrameHeader
  import opened CloseFrame

  datatype Frame = Frame(fin: bool, rsv1: bool, opcode: Opcode, masked: bool, key: bv32, payload: seq<byte>)

  datatype Message = Message(typ: Opcode, data: seq<byte>)

  function HeaderFor(f: Frame): Header {
    Header(f.fin, f.rsv1, false, false, f.opcode, |f.payload|, f.masked, if f.masked then f.key else 0)
  }

  /** What a frame carries for a payload. */
  function WirePayload(h: Header, p: seq<byte>): (r: seq<byte>)
    ensures |r| == |p|
  {
    if h.masked then Masked(h.maskKey, p) else p
  }

  function EncodeFrame(f: Frame): seq<byte> {
    EncodeHeader(HeaderFor(f)) + WirePayload(HeaderFor(f), f.payload)
  }

  function EncodeAll(frames: seq<Frame>): seq<byte> {
    if frames == [] then [] else EncodeFrame(frames[0]) + EncodeAll(frames[1..])
  }

  lemma {:induction false} EncodeAllAppend(a: seq<Frame>, b: seq<Frame>)
    ensures EncodeAll(a + b) == EncodeAll(a) + EncodeAll(b)
  {
    hide EncodeFrame;
    if a == [] {
      assert a + b == b;
    } else {
      calc {
        EncodeAll(a + b);
        { assert (a + b)[0] == a[0] && (a + b)[1..] == a[1..] + b; }
        EncodeFrame(a[0]) + EncodeAll(a[1..] + b);
        { EncodeAllAppend(a[1..], b); }
        EncodeFrame(a[0]) + (EncodeAll(a[1..]) + EncodeAll(b));
        EncodeAll(a) + EncodeAll(b);
      }
    }
  }

  lemma EncodeAllSnoc(a: seq<Frame>, f: Frame)
    ensures EncodeAll(a + [f]) == EncodeAll(a) + EncodeFrame(f)
  {
    hide EncodeFrame;
    EncodeAllAppend(a, [f]);
    assert EncodeAll([f]) == EncodeFrame(f) + EncodeAll([]);
  }

  predicate IsControl(op: Opcode) {
    op == CLOSE || op == PING || op == PONG
  }

  predicate IsMessageStart(op: Opcode) {
    op == TEXT || op == BINARY
  }

  predicate IsData(op: Opcode) {
    op == CONTINUATION || IsMessageStart(op)
  }

  // ----- sequences of frames -----

  /** Section 5.4 of RFC 6455: what may stand next in a sequence of frames, inside a fragmented message or between
      messages. Control frames may stand anywhere, whole and short. */
  predicate MayFollow(inside: bool, f: Frame) {
    if IsControl(f.opcode) then f.fin && !f.rsv1 && |f.payload| <= MAX_CONTROL_PAYLOAD
    else if inside then f.opcode == CONTINUATION && !f.rsv1
    else IsMessageStart(f.opcode)
  }

  function InsideAfter(inside: bool, f: Frame): bool {
    if IsControl(f.opcode) then inside else !f.fin
  }

  /** frames is a prefix of a well-formed sequence, starting inside a message or between messages. */
  predicate WellFormed(inside: bool, frames: seq<Frame>)
    decreases frames
  {
    frames == [] || (MayFollow(inside, frames[0]) && WellFormed(InsideAfter(inside, frames[0]), frames[1..]))
  }

  /** Whether the sequence ends inside a message. */
  function EndsInside(inside: bool, frames: seq<Frame>): bool
    decreases frames
  {
    if frames == [] then inside else EndsInside(InsideAfter(inside, frames[0]), frames[1..])
  }

  lemma {:induction false} WellFormedAppend(inside: bool, a: seq<Frame>, b: seq<Frame>)
    ensures EndsInside(inside, a + b) == EndsInside(EndsInside(inside, a), b)
    ensures WellFormed(inside, a + b) <==> WellFormed(inside, a) && WellFormed(EndsInside(inside, a), b)
    decreases a
  {
    if a == [] {
      assert a + b == b;
    } else {
      WellFormedAppend(InsideAfter(inside, a[0]), a[1..], b);
      assert (a + b)[0] == a[0] && (a + b)[1..] == a[1..] + b;
    }
  }

  lemma WellFormedSnoc(inside: bool, a: seq<Frame>, f: Frame)
    ensures EndsInside(inside, a + [f]) == InsideAfter(EndsInside(inside, a), f)
    ensures WellFormed(inside, a + [f]) <==> WellFormed(inside, a) && MayFollow(EndsInside(inside, a), f)
  {
    WellFormedAppend(inside, a, [f]);
  }

  /** The octets that the open message still receives from these frames. */
  function RestOfMessage(frames: seq<Frame>): seq<byte> {
    if frames == [] then []
    else if IsControl(frames[0].opcode) then RestOfMessage(frames[1..])
    else frames[0].payload + (if frames[0].fin then [] else RestOfMessage(frames[1..]))
  }

  /** The frames after the one that finishes the open message. */
  function AfterMessage(frames: seq<Frame>): (rest: seq<Frame>)
    ensures |rest| <= |frames|
  {
    if frames == [] then []
    else if IsControl(frames[0].opcode) then AfterMessage(frames[1..])
    else if frames[0].fin then frames[1..]
    else AfterMessage(frames[1..])
  }

  /** The messages that a sequence of frames, starting between messages, carries. */
  function Messages(frames: seq<Frame>): seq<Message>
    decreases |frames|
  {
    if frames == [] then []
    else if IsControl(frames[0].opcode) then Messages(frames[1..])
    else [Message(frames[0].opcode, RestOfMessage(frames))] + Messages(AfterMessage(frames))
  }

  lemma {:induction false} AfterMessageWellFormed(inside: bool, frames: seq<Frame>)
    requires WellFormed(inside, frames) && !EndsInside(inside, frames)
    requires inside || exists i :: 0 <= i < |frames| && !IsControl(frames[i].opcode)
    ensures WellFormed(false, AfterMessage(frames)) && !EndsInside(false, AfterMessage(frames))
    decreases |frames|
  {
    if frames == [] {
    } else if IsControl(frames[0].opcode) {
      assert !inside ==> exists i :: 0 <= i < |frames[1..]| && !IsControl(frames[1..][i].opcode) by {
        if !inside {
          var i :| 0 <= i < |frames| && !IsControl(frames[i].opcode);
          assert frames[1..][i - 1] == frames[i];
        }
      }
      AfterMessageWellFormed(inside, frames[1..]);
    } else if !frames[0].fin {
      AfterMessageWellFormed(true, frames[1..]);
    }
  }

  // ----- the frames of one message -----

  function Payloads(frames: seq<Frame>): seq<seq<byte>> {
    seq(|frames|, i requires 0 <= i < |frames| => frames[i].payload)
  }

  /** The opcode of the next frame of a message of which n frames have been sent. */
  function NextOpcode(typ: Opcode, n: nat): Opcode {
    if n == 0 then typ else CONTINUATION
  }

  /** Frame i of a message: the type on the first, continuations after it, and RSV1 on the first frame of a compressed
      message only (section 6.1 of RFC 7692). */
  predicate IsFragment(client: bool, typ: Opcode, flate: bool, i: nat, f: Frame) {
    f.opcode == NextOpcode(typ, i) && f.rsv1 == (flate && i == 0) && f.masked == client
  }

  /** The frames of a message that is not finished. */
  predicate Fragments(client: bool, typ: Opcode, flate: bool, fs: seq<Frame>) {
    forall i | 0 <= i < |fs| :: IsFragment(client, typ, flate, i, fs[i]) && !fs[i].fin
  }

  lemma FragmentsSnoc(client: bool, typ: Opcode, flate: bool, fs: seq<Frame>, f: Frame)
    requires Fragments(client, typ, flate, fs) && IsFragment(client, typ, flate, |fs|, f) && !f.fin
    ensures Fragments(client, typ, flate, fs + [f])
  {
  }

  /** The frames of a whole message with these octets. */
  predicate CompleteMessage(client: bool, typ: Opcode, flate: bool, fs: seq<Frame>, data: seq<byte>) {
    && |fs| > 0
    && Fragments(client, typ, flate, fs[..|fs| - 1])
    && IsFragment(client, typ, flate, |fs| - 1, fs[|fs| - 1]) && fs[|fs| - 1].fin
    && Concat(Payloads(fs)) == data
  }

  lemma PayloadsSnoc(fs: seq<Frame>, f: Frame)
    ensures Concat(Payloads(fs + [f])) == Concat(Payloads(fs)) + f.payload
  {
    assert Payloads(fs + [f]) == Payloads(fs) + [f.payload];
    ConcatSnoc(Payloads(fs), f.payload);
  }
}
