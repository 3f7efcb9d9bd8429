/** What the reader makes of a stream of frames that is cut off anywhere, or that ends with a close frame. */
module CutStreams {
  import opened Octets
  import opened Masking
  import opened FrameHeader
  import opened CloseFrame
  import opened Frames
  import opened MessageFrames
  import opened ReadModel
  import opened RoundTrip
  import opened Sessions

  // ----- a frame that was cut off -----

  function HeaderSize(f: Frame): nat {
    |EncodeHeader(HeaderFor(f))|
  }

  /** The octets of f up to the cut, as a frame: a control frame counts only when it is whole, a data frame counts from
      its header on. */
  function Arrived(f: Frame, c: nat): seq<Frame>
    requires c < |EncodeFrame(f)|
  {
    if IsControl(f.opcode) || c < HeaderSize(f) then []
    else [f.(fin := false, payload := f.payload[..c - HeaderSize(f)])]
  }

  /** Whether the reader sees nothing wrong with the cut, so that an open message ends there: in a header, a cut between
      two fields; in a control frame, a cut between header and payload; in a data frame, a cut where read number j or a
      later one ends. */
  predicate CutUnseen(f: Frame, c: nat, sizes: nat -> nat, j: nat)
    requires Positive(sizes)
  {
    if c < HeaderSize(f) then FieldEnds(HeaderFor(f), c)
    else if IsControl(f.opcode) then c == HeaderSize(f)
    else Lands(sizes, j, c - HeaderSize(f))
  }

  function ErrorOfCut(f: Frame, c: nat): ReadError {
    if c < HeaderSize(f) then BadHeader(if FieldEnds(HeaderFor(f), c) then Eof else UnexpectedEof)
    else if IsControl(f.opcode) then ShortPayload(if c == HeaderSize(f) then Eof else UnexpectedEof)
    else ShortPayload(UnexpectedEof)
  }

  predicate Sendable(cfg: Config, f: Frame) {
    f.masked == !cfg.client && |f.payload| < INT64_LIMIT && !f.rsv1
  }

  /** The same for a frame of a message that may be compressed. */
  predicate SendableEither(cfg: Config, f: Frame) {
    f.masked == !cfg.client && |f.payload| < INT64_LIMIT && (f.rsv1 ==> cfg.flate && IsMessageStart(f.opcode))
  }

  lemma PrefixOfSum<T>(a: seq<T>, b: seq<T>, n: nat)
    requires n <= |a| + |b|
    ensures n <= |a| ==> (a + b)[..n] == a[..n]
    ensures |a| <= n ==> (a + b)[..n] == a + b[..n - |a|]
  {
  }

  /** readLoop on the first c octets of a frame. */
  lemma LoopOnCut(cfg: Config, inside: bool, f: Frame, c: nat)
    requires SendableEither(cfg, f) && MayFollow(inside, f) && c < |EncodeFrame(f)|
    ensures var h, l := HeaderFor(f), ReadLoop(cfg, EncodeFrame(f)[..c]);
            if c < HeaderSize(f) || IsControl(f.opcode) then l == Stopped(ErrorOfCut(f, c), [], [])
            else l == Got(h, OnWire(cfg, h.maskKey, f.payload)[..c - HeaderSize(f)], [])
  {
    hide EncodeHeader, DecodeHeader, WirePayload, FieldEnds, OnWire;
    var h := HeaderFor(f);
    var wire := WirePayload(h, f.payload);
    PrefixOfSum(EncodeHeader(h), wire, c);
    if c < HeaderSize(f) {
      TruncatedHeader(h, c);
    } else {
      var part := wire[..c - HeaderSize(f)];
      HeaderRoundTrip(h, part);
      Role(cfg, f);
      if IsControl(f.opcode) {
        hide ReadLoop;
        CutControl(h, part);
        assert ReadRound(cfg, EncodeFrame(f)[..c]) == Halted(Stopped(ErrorOfCut(f, c), [], []));
        LoopHalted(cfg, EncodeFrame(f)[..c]);
      }
    }
  }

  lemma LoopHalted(cfg: Config, s: seq<byte>)
    ensures ReadRound(cfg, s).Halted? ==> ReadLoop(cfg, s) == ReadRound(cfg, s).stop
  {
    hide ReadRound;
  }

  lemma CutControl(h: Header, part: seq<byte>)
    requires |part| < h.payloadLength <= MAX_CONTROL_PAYLOAD && h.fin
    ensures HandleControl(h, part) == Stopped(ShortPayload(if |part| == 0 then Eof else UnexpectedEof), [], [])
  {
  }

  lemma Role(cfg: Config, f: Frame)
    requires f.masked == !cfg.client
    ensures WirePayload(HeaderFor(f), f.payload) == OnWire(cfg, HeaderFor(f).maskKey, f.payload)
  {
  }

  lemma UnmaskedPart(cfg: Config, key: bv32, p: seq<byte>, n: nat)
    requires n <= |p|
    ensures OnWire(cfg, key, OnWire(cfg, key, p)[..n]) == p[..n]
  {
    hide Masked;
    if !cfg.client {
      assert p == p[..n] + p[n..];
      MaskedAppend(key, p[..n], p[n..]);
      assert Masked(key, p)[..n] == Masked(key, p[..n]);
      MaskedTwice(key, p[..n]);
    }
  }

  /** What such a tail is to a session. */
  lemma TailOfCut(cfg: Config, inside: bool, f: Frame, c: nat, sizes: nat -> nat, j: nat)
    requires Sendable(cfg, f) && MayFollow(inside, f) && c < |EncodeFrame(f)| && Positive(sizes)
    ensures var tail := EncodeFrame(f)[..c];
            && CutTail(cfg, inside, tail) && TailLoop(cfg, inside, tail).events == []
            && |CutFrame(cfg, inside, tail)| == |Arrived(f, c)|
            && (Arrived(f, c) != [] ==>
                  CutFrame(cfg, inside, tail)[0].opcode == Arrived(f, c)[0].opcode &&
                    CutFrame(cfg, inside, tail)[0].payload == Arrived(f, c)[0].payload)
            && (Unseen(cfg, inside, tail, sizes, j) <==> CutUnseen(f, c, sizes, j))
            && CutError(cfg, inside, tail) == ErrorOfCut(f, c)
  {
    hide EncodeHeader, EncodeFrame, ReadLoop, OnWire, Lands, FieldEnds;
    LoopOnCut(cfg, inside, f, c);
    if !(c < HeaderSize(f) || IsControl(f.opcode)) {
      SizeOfFrame(f);
      UnmaskedPart(cfg, HeaderFor(f).maskKey, f.payload, c - HeaderSize(f));
    }
  }

  lemma SizeOfFrame(f: Frame)
    ensures |EncodeFrame(f)| == HeaderSize(f) + |f.payload|
  {
    hide EncodeHeader, WirePayload;
  }

  // ----- a stream that was cut off -----

  lemma AtStart(cfg: Config, frames: seq<Frame>, tail: seq<byte>)
    requires AllFromPeer(cfg, frames) && WellFormed(false, frames)
    ensures At(cfg, Start(Wire(frames, tail)), [], frames, tail)
  {
    hide Wire, WellFormed;
    assert OnWire(cfg, 0, []) == [];
    assert [] + Wire(frames, tail) == Wire(frames, tail);
  }

  /** Every place in a stream of frames is in one of them. */
  lemma {:induction false} CutPosition(frames: seq<Frame>, n: nat) returns (k: nat, c: nat)
    requires n < |EncodeAll(frames)|
    ensures k < |frames| && c < |EncodeFrame(frames[k])|
    ensures EncodeAll(frames)[..n] == Wire(frames[..k], EncodeFrame(frames[k])[..c])
    decreases frames
  {
    hide EncodeFrame;
    var first, rest := EncodeFrame(frames[0]), EncodeAll(frames[1..]);
    PrefixOfSum(first, rest, n);
    if n < |first| {
      k, c := 0, n;
      WireOfNone(first[..c]);
    } else {
      k, c := CutPosition(frames[1..], n - |first|);
      k := k + 1;
      assert frames[..k][0] == frames[0] && frames[..k][1..] == frames[1..][..k - 1];
      WireFirst(frames[..k], EncodeFrame(frames[k])[..c]);
    }
  }

  /** What comes out of k whole frames and c octets of the next. */
  ghost predicate CutReads(cfg: Config, frames: seq<Frame>, k: nat, c: nat, sizes: nat -> nat -> nat, s: Session)
    requires k < |frames| && c < |EncodeFrame(frames[k])| && forall j :: Positive(sizes(j))
  {
    var f, whole, last := frames[k], WholeMessages(frames[..k]), LastPart(frames[..k]);
    var open := Messages(last + Arrived(f, c));
    if Fitting(cfg.limit, whole) != whole then s.messages == Fitting(cfg.limit, whole) && s.error == TooBig
    else if open == [] then s.messages == whole && s.error == ErrorOfCut(f, c)
    else if !Within(cfg.limit, open[0].data) then s.messages == whole && s.error == TooBig
    else if CutUnseen(f, c, sizes(|whole|), ReadsUsed(sizes(|whole|), 0, [], last)) then
      s.messages == whole + open && s.error == ConnClosed
    else s.messages == whole && s.error == ErrorOfCut(f, c)
  }

  /** Only the type and the octets of a frame that is added matter. */
  lemma SameMessages(last: seq<Frame>, a: seq<Frame>, b: seq<Frame>)
    requires WellFormed(false, last) && |a| == |b| <= 1
    requires a != [] ==> a[0].opcode == b[0].opcode && a[0].payload == b[0].payload
    requires a != [] ==> MayFollow(EndsInside(false, last), a[0]) && MayFollow(EndsInside(false, last), b[0])
    ensures Messages(last + a) == Messages(last + b)
  {
    hide WellFormed, EndsInside, Messages;
    if a != [] {
      assert a == [a[0]] && b == [b[0]];
      MessagesSnoc(last, a[0]);
      MessagesSnoc(last, b[0]);
    }
  }

  /** The theorem for k whole frames and c octets of the next: the messages that the whole frames finish come out, and
      the message that is open at the cut comes out, as far as it arrived, exactly when the cut goes unseen. */
  lemma CutStreamDelivers(cfg: Config, frames: seq<Frame>, k: nat, c: nat, sizes: nat -> nat -> nat)
    requires k < |frames| && c < |EncodeFrame(frames[k])| && forall j :: Positive(sizes(j))
    requires WellFormed(false, frames) && AllFromPeer(cfg, frames[..k]) && Plain(frames[..k])
    requires Sendable(cfg, frames[k])
    ensures CutReads(cfg, frames, k, c, sizes,
                     ReadMessages(cfg, Start(Wire(frames[..k], EncodeFrame(frames[k])[..c])), sizes, 0))
  {
    hide EncodeFrame, ReadMessages, At, AllFromPeer, Plain, Wire;
    hide Messages, WholeMessages, LastPart, WellFormed, EndsInside, ReadsUsed;
    hide CutTail, CutFrame, Arrived, CutUnseen, ErrorOfCut, Unseen;
    hide CutError, ReadLoop, Sendable, Replies, Within, AllUnfinished;
    var f, front := frames[k], frames[..k];
    var inside := EndsInside(false, front);
    assert WellFormed(false, front) && MayFollow(inside, f) by { SplitWellFormed(frames, k); }
    var tail := EncodeFrame(f)[..c];
    var st := Start(Wire(front, tail));
    AtStart(cfg, front, tail);
    var n := |WholeMessages(front)|;
    TailOfCut(cfg, inside, f, c, sizes(n), ReadsUsed(sizes(n), 0, [], LastPart(front)));
    SessionDelivers(cfg, st, front, tail, sizes, 0);
    LastPartWellFormed(front);
    assert Messages(LastPart(front) + CutFrame(cfg, inside, tail)) == Messages(LastPart(front) + Arrived(f, c)) by {
      FollowingCut(cfg, inside, f, c, tail);
      SameMessages(LastPart(front), CutFrame(cfg, inside, tail), Arrived(f, c));
    }
    assert 0 + n == n;
    assert WholeMessages(front) + [] == WholeMessages(front);
  }

  lemma FollowingCut(cfg: Config, inside: bool, f: Frame, c: nat, tail: seq<byte>)
    requires MayFollow(inside, f) && c < |EncodeFrame(f)| && CutTail(cfg, inside, tail) && Sendable(cfg, f)
    ensures |Arrived(f, c)| <= 1 && (Arrived(f, c) != [] ==> MayFollow(inside, Arrived(f, c)[0]))
    ensures |CutFrame(cfg, inside, tail)| <= 1 &&
            (CutFrame(cfg, inside, tail) != [] ==> MayFollow(inside, CutFrame(cfg, inside, tail)[0]))
  {
    hide EncodeHeader, EncodeFrame, ReadLoop, OnWire;
  }

  lemma SplitWellFormed(frames: seq<Frame>, k: nat)
    requires k < |frames| && WellFormed(false, frames)
    ensures WellFormed(false, frames[..k]) && MayFollow(EndsInside(false, frames[..k]), frames[k])
  {
    assert frames == frames[..k] + frames[k..];
    WellFormedAppend(false, frames[..k], frames[k..]);
  }

  /** For every prefix of the octets of well-formed frames, and for all read sizes. */
  lemma PrefixDelivers(cfg: Config, frames: seq<Frame>, n: nat, sizes: nat -> nat -> nat) returns (k: nat, c: nat)
    requires AllFromPeer(cfg, frames) && Plain(frames) && WellFormed(false, frames)
    requires n < |EncodeAll(frames)| && forall j :: Positive(sizes(j))
    ensures k < |frames| && c < |EncodeFrame(frames[k])|
    ensures EncodeAll(frames)[..n] == EncodeAll(frames[..k]) + EncodeFrame(frames[k])[..c]
    ensures CutReads(cfg, frames, k, c, sizes, ReadMessages(cfg, Start(EncodeAll(frames)[..n]), sizes, 0))
  {
    hide EncodeFrame, EncodeAll, ReadMessages, CutReads, WellFormed;
    k, c := CutPosition(frames, n);
    assert frames[k] in frames && forall f | f in frames[..k] :: f in frames;
    CutStreamDelivers(cfg, frames, k, c, sizes);
  }

  /** The cut inside a frame: of a message in one final frame only the first a octets arrive. Read with buffers of a
      octets, they come out as a whole message without an error. */
  lemma CutPayloadLooksWhole(cfg: Config, f: Frame, a: nat)
    requires FromPeer(cfg, f) && !f.rsv1 && IsMessageStart(f.opcode) && f.fin && 0 < a < |f.payload| && cfg.limit < 0
    ensures var sizes := (m: nat) => (i: nat) => a;
            a < |EncodeFrame(f)| - HeaderSize(f) &&
            var s := ReadMessages(cfg, Start(EncodeFrame(f)[..HeaderSize(f) + a]), sizes, 0);
            s.messages == [Message(f.opcode, f.payload[..a])] && s.error == ConnClosed
  {
    hide EncodeFrame, ReadMessages, HeaderSize;
    var sizes := (m: nat) => (i: nat) => a;
    var c := HeaderSize(f) + a;
    SizeOfFrame(f);
    assert [f][..0] == [];
    CutStreamDelivers(cfg, [f], 0, c, sizes);
    WireOfNone(EncodeFrame(f)[..c]);
    assert Lands(sizes(0), 1, 0) && Lands(sizes(0), 0, a);
    CutOpen(f, a);
  }

  lemma CutOpen(f: Frame, a: nat)
    requires IsMessageStart(f.opcode) && a < |f.payload|
    ensures |EncodeFrame(f)| == HeaderSize(f) + |f.payload|
    ensures WholeMessages([]) == [] && LastPart([]) == []
    ensures Messages([] + Arrived(f, HeaderSize(f) + a)) == [Message(f.opcode, f.payload[..a])]
  {
    hide EncodeFrame, HeaderSize;
    SizeOfFrame(f);
    var g := f.(fin := false, payload := f.payload[..a]);
    MessagesSnoc([], g);
  }

  // ----- the end of the input, and a close frame -----

  lemma NothingLeft(cfg: Config)
    ensures ReadLoop(cfg, []) == Stopped(BadHeader(Eof), [], [])
  {
  }

  /** readLoop on a close frame: it stops, and the peer's payload is sent back. */
  lemma LoopOnClose(cfg: Config, f: Frame, ce: CloseError, suffix: seq<byte>)
    requires Sendable(cfg, f) && MayFollow(false, f) && f.opcode == CLOSE && f.payload == SentPayload(ce)
    ensures var seen := ParseClosePayload(SentPayload(ce));
            && seen.Some?
            && ReadLoop(cfg, EncodeFrame(f) + suffix) == Stopped(PeerClosed(seen.value), [], [CloseEcho(f.payload)])
  {
    hide EncodeFrame, DecodeHeader, WirePayload, ParseClosePayload, SentPayload;
    DecodeFrame(f, suffix);
    SentPayloadParses(ce);
    EchoIsIdentical(f.payload);
    var h := HeaderFor(f);
    var wire := WirePayload(h, f.payload);
    assert (wire + suffix)[..h.payloadLength] == wire;
    WirePayloadTwice(h, f.payload);
  }

  lemma {:induction false} AllFit(limit: int, messages: seq<Message>)
    requires forall m | m in messages :: Within(limit, m.data)
    ensures Fitting(limit, messages) == messages
  {
    if messages != [] {
      assert messages[0] in messages;
      AllFit(limit, messages[1..]);
    }
  }

  /** A stream that ends with a close frame: the peer reads all the messages that are finished, stops with the code and
      the reason that its endpoint was asked to send, as SentPayloadParses gives them, and sends the same octets
      back. */
  lemma CloseArrives(
    cfg: Config, frames: seq<Frame>, f: Frame, ce: CloseError, suffix: seq<byte>, sizes: nat -> nat -> nat)
    requires AllFromPeer(cfg, frames) && Plain(frames) && WellFormed(false, frames)
    requires Sendable(cfg, f) && MayFollow(false, f) && f.opcode == CLOSE && f.payload == SentPayload(ce)
    requires (forall m | m in Messages(frames) :: Within(cfg.limit, m.data)) && forall j :: Positive(sizes(j))
    ensures var s := ReadMessages(cfg, Start(EncodeAll(frames) + (EncodeFrame(f) + suffix)), sizes, 0);
            && s.messages == WholeMessages(frames)
            && ParseClosePayload(SentPayload(ce)).Some?
            && s.error == PeerClosed(ParseClosePayload(SentPayload(ce)).value)
            && s.st.events == Replies(frames) + [CloseEcho(SentPayload(ce))]
  {
    hide EncodeFrame, EncodeAll, ReadMessages, At, AllFromPeer, Plain;
    hide Messages, WholeMessages, LastPart, WellFormed, EndsInside;
    hide ReadsUsed, ReadLoop, Sendable, Replies, ParseClosePayload, SentPayload;
    var tail := EncodeFrame(f) + suffix;
    LoopOnClose(cfg, f, ce, suffix);
    AtStart(cfg, frames, tail);
    SessionDelivers(cfg, Start(Wire(frames, tail)), frames, tail, sizes, 0);
    LastPartWellFormed(frames);
    AllFit(cfg.limit, WholeMessages(frames));
    assert LastPart(frames) + [] == LastPart(frames);
    assert WholeMessages(frames) + [] == WholeMessages(frames);
    assert [] + Replies(frames) == Replies(frames);
  }

  // ----- frames that may not follow -----

  lemma LoopOnData(cfg: Config, f: Frame, suffix: seq<byte>)
    requires Sendable(cfg, f) && IsData(f.opcode)
    ensures var l := ReadLoop(cfg, EncodeFrame(f) + suffix); l.Got? && l.h.opcode == f.opcode && l.events == []
  {
    hide EncodeFrame, DecodeHeader, WirePayload;
    DecodeFrame(f, suffix);
    assert ReadRound(cfg, EncodeFrame(f) + suffix) ==
      Found(HeaderFor(f), WirePayload(HeaderFor(f), f.payload) + suffix);
  }

  /** A continuation between messages, or a new message inside one, whatever follows it: the finished messages come out,
      the open one does not, and the last thing sent is a close frame with code 1002. */
  lemma ViolationEnds(cfg: Config, frames: seq<Frame>, f: Frame, suffix: seq<byte>, sizes: nat -> nat -> nat)
    requires AllFromPeer(cfg, frames) && Plain(frames) && WellFormed(false, frames)
    requires Sendable(cfg, f) && IsData(f.opcode) && !MayFollow(EndsInside(false, frames), f)
    requires (forall m | m in Messages(frames) :: Within(cfg.limit, m.data)) && forall j :: Positive(sizes(j))
    ensures var s := ReadMessages(cfg, Start(EncodeAll(frames) + (EncodeFrame(f) + suffix)), sizes, 0);
            && s.messages == WholeMessages(frames)
            && s.error == (if EndsInside(false, frames) then InterruptedMessage else OrphanContinuation)
            && s.st.events == Replies(frames) + [ErrorClose(1002)]
  {
    hide EncodeFrame, EncodeAll, ReadMessages, At, AllFromPeer, Plain;
    hide Messages, WholeMessages, LastPart, WellFormed, EndsInside;
    hide ReadsUsed, ReadLoop, Replies;
    var tail := EncodeFrame(f) + suffix;
    LoopOnData(cfg, f, suffix);
    AtStart(cfg, frames, tail);
    SessionDelivers(cfg, Start(Wire(frames, tail)), frames, tail, sizes, 0);
    LastPartWellFormed(frames);
    AllFit(cfg.limit, WholeMessages(frames));
    assert [] + VIOLATION == VIOLATION;
    assert LastPart(frames) + [] == LastPart(frames);
    assert WholeMessages(frames) + [] == WholeMessages(frames);
    assert [] + Replies(frames) == Replies(frames);
  }
}
