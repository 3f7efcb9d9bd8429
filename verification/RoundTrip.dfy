/** What the reader makes of a sequence of frames: every message comes out as it went in. */
module RoundTrip {
  import opened Octets
  import opened Masking
  import opened FrameHeader
  import opened CloseFrame
  import opened Frames
  import opened MessageFrames
  import opened ReadModel

  /** A frame as the peer of this endpoint writes it, not a close frame. */
  predicate FromPeer(cfg: Config, f: Frame) {
    && f.masked == !cfg.client && |f.payload| < INT64_LIMIT && f.opcode != CLOSE
    && (f.rsv1 ==> cfg.flate && IsMessageStart(f.opcode))
  }

  predicate AllFromPeer(cfg: Config, frames: seq<Frame>) {
    forall f | f in frames :: FromPeer(cfg, f)
  }

  /** The frames from the first data frame on. */
  function SkipControls(frames: seq<Frame>): (rest: seq<Frame>)
    ensures |rest| <= |frames|
    ensures rest == frames[|frames| - |rest|..]
    ensures rest != [] ==> !IsControl(rest[0].opcode)
  {
    if frames == [] || !IsControl(frames[0].opcode) then frames else SkipControls(frames[1..])
  }

  /** A ping is answered by a pong with the same data; a pong is noted. */
  function ReplyTo(f: Frame): seq<Event> {
    if f.opcode == PING then [PongSent(f.payload)] else if f.opcode == PONG then [PongSeen(f.payload)] else []
  }

  function Replies(frames: seq<Frame>): seq<Event> {
    if frames == [] then [] else ReplyTo(frames[0]) + Replies(frames[1..])
  }

  lemma DecodeFrame(f: Frame, suffix: seq<byte>)
    requires |f.payload| < INT64_LIMIT
    ensures DecodeHeader(EncodeFrame(f) + suffix) == Ok(HeaderFor(f), WirePayload(HeaderFor(f), f.payload) + suffix)
  {
    hide EncodeHeader, DecodeHeader, WirePayload;
    HeaderRoundTrip(HeaderFor(f), WirePayload(HeaderFor(f), f.payload) + suffix);
    assert EncodeFrame(f) + suffix == EncodeHeader(HeaderFor(f)) + (WirePayload(HeaderFor(f), f.payload) + suffix);
  }

  /** Whole frames, and octets of any kind behind them. */
  function Wire(frames: seq<Frame>, tail: seq<byte>): seq<byte> {
    EncodeAll(frames) + tail
  }

  lemma WireFirst(frames: seq<Frame>, tail: seq<byte>)
    requires frames != []
    ensures Wire(frames, tail) == EncodeFrame(frames[0]) + Wire(frames[1..], tail)
  {
    hide EncodeFrame;
    SeqAssociative(EncodeFrame(frames[0]), EncodeAll(frames[1..]), tail);
  }

  lemma WireOfNone(tail: seq<byte>)
    ensures Wire([], tail) == tail
  {
    assert [] + tail == tail;
  }

  lemma WirePayloadTwice(h: Header, p: seq<byte>)
    ensures WirePayload(h, WirePayload(h, p)) == p
  {
    MaskedTwice(h.maskKey, p);
  }

  lemma ControlOnFrame(f: Frame, suffix: seq<byte>)
    requires IsControl(f.opcode) && f.opcode != CLOSE && f.fin && |f.payload| <= MAX_CONTROL_PAYLOAD
    ensures HandleControl(HeaderFor(f), WirePayload(HeaderFor(f), f.payload) + suffix)
         == Got(HeaderFor(f), suffix, ReplyTo(f))
  {
    hide WirePayload;
    var h := HeaderFor(f);
    var s := WirePayload(h, f.payload) + suffix;
    assert s[..h.payloadLength] == WirePayload(h, f.payload) && s[h.payloadLength..] == suffix;
    WirePayloadTwice(h, f.payload);
  }

  /** One round of readLoop on a frame of the peer. */
  lemma RoundOnFrame(cfg: Config, inside: bool, f: Frame, suffix: seq<byte>)
    requires FromPeer(cfg, f) && MayFollow(inside, f)
    ensures ReadRound(cfg, EncodeFrame(f) + suffix) ==
            if IsControl(f.opcode) then Handled(suffix, ReplyTo(f))
            else Found(HeaderFor(f), WirePayload(HeaderFor(f), f.payload) + suffix)
  {
    hide EncodeFrame, DecodeHeader, HandleControl, WirePayload, ReplyTo;
    DecodeFrame(f, suffix);
    if IsControl(f.opcode) {
      ControlOnFrame(f, suffix);
    }
  }

  /** What readLoop has to find in a sequence of frames: the first data frame or, if there is none, what it finds in the
      octets behind them. */
  ghost predicate Finds(cfg: Config, l: Loop, frames: seq<Frame>, tail: seq<byte>) {
    var rest := SkipControls(frames);
    && (rest == [] ==> l == After(Replies(frames), ReadLoop(cfg, tail)))
    && (rest != [] ==>
          && l == Got(HeaderFor(rest[0]),
                      WirePayload(HeaderFor(rest[0]), rest[0].payload) + Wire(rest[1..], tail), l.events)
          && l.events + Replies(rest) == Replies(frames))
  }

  lemma BehindControl(frames: seq<Frame>)
    requires frames != [] && IsControl(frames[0].opcode)
    ensures SkipControls(frames) == SkipControls(frames[1..])
    ensures Replies(frames) == ReplyTo(frames[0]) + Replies(frames[1..])
  {
  }

  lemma FindsBehindControl(cfg: Config, l: Loop, frames: seq<Frame>, tail: seq<byte>)
    requires frames != [] && IsControl(frames[0].opcode) && Finds(cfg, l, frames[1..], tail)
    ensures Finds(cfg, After(ReplyTo(frames[0]), l), frames, tail)
  {
    hide ReplyTo, WirePayload, Wire, SkipControls, Replies, HeaderFor, ReadLoop;
    BehindControl(frames);
    SeqAssociative(ReplyTo(frames[0]), l.events, Replies(SkipControls(frames)));
    AfterAfter(ReplyTo(frames[0]), Replies(frames[1..]), ReadLoop(cfg, tail));
  }

  lemma FindsFirst(cfg: Config, frames: seq<Frame>, tail: seq<byte>)
    requires frames != [] && !IsControl(frames[0].opcode)
    ensures var f := frames[0];
            Finds(cfg, Got(HeaderFor(f), WirePayload(HeaderFor(f), f.payload) + Wire(frames[1..], tail), []),
                  frames, tail)
  {
    hide WirePayload, Wire, Replies;
    assert [] + Replies(frames) == Replies(frames);
  }

  lemma FindsNothing(cfg: Config, tail: seq<byte>)
    ensures Finds(cfg, ReadLoop(cfg, tail), [], tail)
  {
    hide ReadLoop;
    assert [] + ReadLoop(cfg, tail).events == ReadLoop(cfg, tail).events;
  }

  lemma FirstFrame(cfg: Config, inside: bool, frames: seq<Frame>, tail: seq<byte>)
    requires frames != [] && AllFromPeer(cfg, frames) && WellFormed(inside, frames)
    ensures FromPeer(cfg, frames[0]) && MayFollow(inside, frames[0]) && AllFromPeer(cfg, frames[1..])
    ensures WellFormed(InsideAfter(inside, frames[0]), frames[1..])
    ensures Wire(frames, tail) == EncodeFrame(frames[0]) + Wire(frames[1..], tail)
  {
    WireFirst(frames, tail);
    FromPeerTail(cfg, frames, 0);
  }

  /** readLoop answers the control frames it meets and stops at the first data frame; with none, it goes on behind
      them. */
  lemma {:induction false} LoopOnFrames(cfg: Config, inside: bool, frames: seq<Frame>, tail: seq<byte>)
    requires AllFromPeer(cfg, frames) && WellFormed(inside, frames)
    ensures Finds(cfg, ReadLoop(cfg, Wire(frames, tail)), frames, tail)
    decreases frames
  {
    hide EncodeFrame, Wire, ReadRound, WirePayload, FromPeer, ReplyTo, Finds, WellFormed, AllFromPeer;
    if frames == [] {
      WireOfNone(tail);
      FindsNothing(cfg, tail);
    } else {
      FirstFrame(cfg, inside, frames, tail);
      var suffix := Wire(frames[1..], tail);
      RoundOnFrame(cfg, inside, frames[0], suffix);
      if IsControl(frames[0].opcode) {
        LoopOnFrames(cfg, inside, frames[1..], tail);
        FindsBehindControl(cfg, ReadLoop(cfg, suffix), frames, tail);
      } else {
        FindsFirst(cfg, frames, tail);
      }
    }
  }

  lemma {:induction false} SkipWellFormed(inside: bool, frames: seq<Frame>)
    requires WellFormed(inside, frames)
    ensures WellFormed(inside, SkipControls(frames))
    decreases frames
  {
    if frames != [] && IsControl(frames[0].opcode) {
      SkipWellFormed(inside, frames[1..]);
    }
  }

  // ----- one message -----

  /** st is in the middle of a frame of which cur is still to be read, with frames behind it, and the tail behind
      those. */
  ghost predicate At(cfg: Config, st: State, cur: seq<byte>, frames: seq<Frame>, tail: seq<byte>)
  {
    && !st.closed
    && st.payloadLength == |cur|
    && st.input == OnWire(cfg, st.maskKey, cur) + Wire(frames, tail)
    && AllFromPeer(cfg, frames)
    && WellFormed(!st.fin, frames)
  }

  function OnWire(cfg: Config, key: bv32, p: seq<byte>): (r: seq<byte>)
    ensures |r| == |p|
  {
    if cfg.client then p else Masked(key, p)
  }

  /** What the message at hand still has to deliver. */
  function Due(fin: bool, cur: seq<byte>, frames: seq<Frame>): seq<byte> {
    cur + (if fin then [] else RestOfMessage(frames))
  }

  /** The frames behind the message at hand. */
  function Behind(fin: bool, frames: seq<Frame>): seq<Frame> {
    if fin then frames else AfterMessage(frames)
  }

  /** Whether the message at hand is finished by these frames. */
  predicate Finished(fin: bool, frames: seq<Frame>) {
    fin || !AllUnfinished(frames)
  }

  lemma {:induction false} SkipKeepsMessage(frames: seq<Frame>)
    ensures var rest := SkipControls(frames);
            && RestOfMessage(rest) == RestOfMessage(frames)
            && AfterMessage(rest) == AfterMessage(frames)
            && AllUnfinished(rest) == AllUnfinished(frames)
    decreases frames
  {
    if frames != [] && IsControl(frames[0].opcode) {
      SkipKeepsMessage(frames[1..]);
      assert forall f :: f in frames <==> f == frames[0] || f in frames[1..];
    }
  }

  /** What one read of k octets leaves of the frame at hand and the frames behind it: it never crosses a frame's end. */
  function AfterRead(k: nat, cur: seq<byte>, frames: seq<Frame>): (seq<byte>, seq<Frame>)
    decreases frames, |cur| == 0
  {
    if cur != [] then (cur[Min(k, |cur|)..], frames)
    else if frames == [] then ([], [])
    else if IsControl(frames[0].opcode) then AfterRead(k, [], frames[1..])
    else AfterRead(k, frames[0].payload, frames[1..])
  }

  lemma {:induction false} AfterReadSkips(k: nat, frames: seq<Frame>)
    requires SkipControls(frames) != []
    ensures AfterRead(k, [], frames) == AfterRead(k, SkipControls(frames)[0].payload, SkipControls(frames)[1..])
    decreases frames
  {
    if IsControl(frames[0].opcode) {
      AfterReadSkips(k, frames[1..]);
    }
  }

  /** A read in the middle of a frame. */
  lemma ReadInsideFrame(cfg: Config, st: State, cur: seq<byte>, frames: seq<Frame>, tail: seq<byte>, k: nat)
    requires At(cfg, st, cur, frames, tail) && k > 0 && cur != []
    ensures var r := RawRead(cfg, st, k);
            var cur' := cur[Min(k, |cur|)..];
            && r.Data? && 0 < |r.data| <= k && r.data + cur' == cur
            && At(cfg, r.st, cur', frames, tail)
            && r.st.fin == st.fin && r.st.n == st.n && r.st.events == st.events && r.st.flate == st.flate
  {
    hide Wire, Masked, KeyAfter, WellFormed, ReadLoop;
    var n := Min(k, |cur|);
    assert cur == cur[..n] + cur[n..];
    MaskedAppend(st.maskKey, cur[..n], cur[n..]);
    var wire := OnWire(cfg, st.maskKey, cur);
    assert st.input[..n] == wire[..n];
    assert st.input[n..] == wire[n..] + Wire(frames, tail);
    if !cfg.client {
      assert wire[..n] == Masked(st.maskKey, cur[..n]);
      assert wire[n..] == Masked(KeyAfter(st.maskKey, n), cur[n..]);
      MaskedTwice(st.maskKey, cur[..n]);
    }
  }

  lemma FromPeerTail(cfg: Config, frames: seq<Frame>, i: nat)
    requires AllFromPeer(cfg, frames) && i < |frames|
    ensures FromPeer(cfg, frames[i]) && AllFromPeer(cfg, frames[i + 1..])
  {
    assert forall f | f in frames[i + 1..] :: f in frames;
  }

  /** The parts of a sequence that begins, inside a message, with a data frame. */
  lemma ContinuationAhead(frames: seq<Frame>)
    requires frames != [] && !IsControl(frames[0].opcode) && WellFormed(true, frames)
    ensures frames[0].opcode == CONTINUATION
    ensures WellFormed(!frames[0].fin, frames[1..])
    ensures Replies(frames) == Replies(frames[1..])
    ensures RestOfMessage(frames) == Due(frames[0].fin, frames[0].payload, frames[1..])
    ensures AfterMessage(frames) == Behind(frames[0].fin, frames[1..])
    ensures AllUnfinished(frames) == !Finished(frames[0].fin, frames[1..])
  {
    AllUnfinishedStep(frames);
  }

  /** The state in which the reader is after taking the header of the next frame. */
  function NextState(st: State, l: Loop): State
    requires l.Got?
  {
    SetFrame(st.(input := l.rest, events := st.events + l.events), l.h)
  }

  /** readLoop at the end of a frame, with a data frame ahead. */
  lemma LoopFinds(cfg: Config, st: State, frames: seq<Frame>, tail: seq<byte>)
    requires At(cfg, st, [], frames, tail) && SkipControls(frames) != []
    ensures var rest := SkipControls(frames);
            var l := ReadLoop(cfg, st.input);
            && FromPeer(cfg, rest[0]) && AllFromPeer(cfg, rest[1..]) && WellFormed(!st.fin, rest)
            && l == Got(HeaderFor(rest[0]),
                        OnWire(cfg, HeaderFor(rest[0]).maskKey, rest[0].payload) + Wire(rest[1..], tail), l.events)
            && l.events + Replies(rest) == Replies(frames)
  {
    hide Wire, OnWire, ReadLoop, AllFromPeer, FromPeer, WellFormed, Replies, HeaderFor, Finds;
    var rest := SkipControls(frames);
    NothingOnWire(cfg, st.maskKey);
    assert st.input == Wire(frames, tail);
    LoopOnFrames(cfg, !st.fin, frames, tail);
    SkipWellFormed(!st.fin, frames);
    FromPeerTail(cfg, frames, |frames| - |rest|);
    assert rest[1..] == frames[|frames| - |rest| + 1..];
    FindsData(cfg, ReadLoop(cfg, st.input), frames, tail);
  }

  lemma NothingOnWire(cfg: Config, key: bv32)
    ensures OnWire(cfg, key, []) == []
  {
  }

  lemma FindsData(cfg: Config, l: Loop, frames: seq<Frame>, tail: seq<byte>)
    requires Finds(cfg, l, frames, tail) && SkipControls(frames) != [] && FromPeer(cfg, SkipControls(frames)[0])
    ensures var rest := SkipControls(frames);
            && l == Got(HeaderFor(rest[0]),
                        OnWire(cfg, HeaderFor(rest[0]).maskKey, rest[0].payload) + Wire(rest[1..], tail), l.events)
            && l.events + Replies(rest) == Replies(frames)
  {
    hide Wire, OnWire, FromPeer, Replies, SkipControls, WirePayload, HeaderFor, ReadLoop;
    RoleOfFrame(cfg, SkipControls(frames)[0]);
  }

  lemma RoleOfFrame(cfg: Config, f: Frame)
    requires FromPeer(cfg, f)
    ensures WirePayload(HeaderFor(f), f.payload) == OnWire(cfg, HeaderFor(f).maskKey, f.payload)
  {
  }

  /** At the end of a frame that does not end the message, with another data frame ahead. */
  lemma NextFrame(cfg: Config, st: State, frames: seq<Frame>, tail: seq<byte>)
    requires At(cfg, st, [], frames, tail) && !st.fin && SkipControls(frames) != []
    ensures var rest := SkipControls(frames);
            var l := ReadLoop(cfg, st.input);
            && l.Got? && l.h.opcode == CONTINUATION && |l.rest| < |st.input|
            && l.events + Replies(rest[1..]) == Replies(frames)
            && At(cfg, NextState(st, l), rest[0].payload, rest[1..], tail)
            && NextState(st, l).fin == rest[0].fin
  {
    hide Wire, OnWire, ReadLoop, AllFromPeer, FromPeer, WellFormed, Replies, Due, Behind, Finished, SkipControls;
    LoopFinds(cfg, st, frames, tail);
    ContinuationAhead(SkipControls(frames));
  }

  /** At the end of a frame, with no data frame ahead: what comes out of the tail comes out, after the replies. */
  lemma LoopFindsTail(cfg: Config, st: State, frames: seq<Frame>, tail: seq<byte>)
    requires At(cfg, st, [], frames, tail) && SkipControls(frames) == []
    ensures ReadLoop(cfg, st.input) == After(Replies(frames), ReadLoop(cfg, tail))
  {
    hide Wire, OnWire, ReadLoop, AllFromPeer, WellFormed, Replies, SkipControls, ReadLoop;
    NothingOnWire(cfg, st.maskKey);
    assert st.input == Wire(frames, tail);
    LoopOnFrames(cfg, !st.fin, frames, tail);
  }

  /** What one read leaves of a message: due octets before it, the frames behind the message, whether the frames
      finish it, and the log of control frames that it will have when all frames are read. */
  datatype Outlook = Outlook(due: seq<byte>, behind: seq<Frame>, finished: bool, log: seq<Event>, n: int)

  function OutlookOf(st: State, cur: seq<byte>, frames: seq<Frame>): Outlook {
    Outlook(Due(st.fin, cur, frames), Behind(st.fin, frames), Finished(st.fin, frames),
            st.events + Replies(frames), st.n)
  }

  /** z is inside a message that the frames did not finish, with the tail ahead. */
  predicate AtTail(z: State, o: Outlook, tail: seq<byte>) {
    && !z.closed && !z.fin && !z.flate && z.payloadLength == 0
    && z.input == tail && z.n == o.n && z.events == o.log
  }

  /** A read that delivers a non-empty piece of what is due, or reports the end when nothing is, or goes on with the
      tail. */
  ghost predicate Delivers(
    cfg: Config, o: Outlook, tail: seq<byte>, k: nat, r: Read, cur': seq<byte>, frames': seq<Frame>, z: State)
  {
    if o.due != [] then
      && r.Data? && 0 < |r.data| <= k && r.data <= o.due && !r.st.flate
      && At(cfg, r.st, cur', frames', tail)
      && OutlookOf(r.st, cur', frames') == o.(due := o.due[|r.data|..])
    else if o.finished then
      && r.End? && r.st.fin && !r.st.flate && r.st.events + Replies(o.behind) == o.log
      && At(cfg, r.st, [], o.behind, tail)
    else
      AtTail(z, o, tail) && r == RawRead(cfg, z, k)
  }

  lemma DeliversInsideFrame(cfg: Config, st: State, cur: seq<byte>, frames: seq<Frame>, tail: seq<byte>, k: nat)
    requires At(cfg, st, cur, frames, tail) && k > 0 && cur != [] && !st.flate
    ensures Delivers(cfg, OutlookOf(st, cur, frames), tail, k, RawRead(cfg, st, k), cur[Min(k, |cur|)..], frames, st)
  {
    hide At, RawRead, RestOfMessage, AfterMessage, AllUnfinished, Replies;
    ReadInsideFrame(cfg, st, cur, frames, tail, k);
    var r, cur' := RawRead(cfg, st, k), cur[Min(k, |cur|)..];
    assert Due(st.fin, cur, frames) == r.data + Due(st.fin, cur', frames);
  }

  lemma DeliversEnd(cfg: Config, st: State, frames: seq<Frame>, tail: seq<byte>, k: nat)
    requires At(cfg, st, [], frames, tail) && st.fin && !st.flate
    ensures Delivers(cfg, OutlookOf(st, [], frames), tail, k, RawRead(cfg, st, k), [], frames, st)
  {
    hide Wire, Masked, WellFormed, ReadLoop, RestOfMessage, AfterMessage, AllUnfinished, Replies;
  }

  function TailState(st: State, frames: seq<Frame>, tail: seq<byte>): State {
    st.(input := tail, events := st.events + Replies(frames))
  }

  /** Control frames that were answered change what a read of the tail leaves behind in the log only. */
  lemma RawReadOfTail(cfg: Config, st: State, replies: seq<Event>, tail: seq<byte>, k: nat)
    requires !st.closed && st.payloadLength == 0 && !st.fin
    requires ReadLoop(cfg, st.input) == After(replies, ReadLoop(cfg, tail))
    ensures RawRead(cfg, st, k) == RawRead(cfg, st.(input := tail, events := st.events + replies), k)
  {
    hide ReadLoop, InFrameRead;
    var l, z := ReadLoop(cfg, tail), st.(input := tail, events := st.events + replies);
    SeqAssociative(st.events, replies, l.events);
    if l.Stopped? {
      assert RawRead(cfg, st, k) == Failed(l.error, [], StoppedAt(st, After(replies, l)));
      assert StoppedAt(st, After(replies, l)) == StoppedAt(z, l);
    } else if l.h.opcode == CONTINUATION {
      hide RawRead;
      assert NextState(st, After(replies, l)) == NextState(z, l);
      RawReadSkips(cfg, st, k);
      RawReadSkips(cfg, z, k);
    } else {
      var last := [ErrorClose(PROTOCOL_ERROR)];
      SeqAssociative(st.events, replies + l.events, last);
      SeqAssociative(st.events + replies, l.events, last);
      assert Closed(st, replies + l.events + last) == Closed(z, l.events + last);
    }
  }

  lemma DeliversTail(cfg: Config, st: State, frames: seq<Frame>, tail: seq<byte>, k: nat)
    requires At(cfg, st, [], frames, tail) && !st.fin && SkipControls(frames) == [] && !st.flate
    ensures Delivers(cfg, OutlookOf(st, [], frames), tail, k, RawRead(cfg, st, k), [], [], TailState(st, frames, tail))
  {
    hide At, ReadLoop, RawRead, Replies, OutlookOf, SkipControls, Closed, StoppedAt;
    LoopFindsTail(cfg, st, frames, tail);
    AtFields(cfg, st, [], frames, tail);
    RawReadOfTail(cfg, st, Replies(frames), tail, k);
    TailOutlook(st, frames);
  }

  lemma TailOutlook(st: State, frames: seq<Frame>)
    requires !st.fin && SkipControls(frames) == []
    ensures var o := OutlookOf(st, [], frames);
            o.due == [] && !o.finished && o.log == st.events + Replies(frames) && o.n == st.n
  {
    hide Replies, AfterMessage, RestOfMessage, AllUnfinished, SkipControls;
    SkipKeepsMessage(frames);
    NothingRests();
  }

  lemma NothingRests()
    ensures RestOfMessage([]) == [] && AllUnfinished([])
  {
  }

  lemma RawReadSkips(cfg: Config, st: State, k: nat)
    requires !st.closed && st.payloadLength == 0 && !st.fin
    requires var l := ReadLoop(cfg, st.input); l.Got? && l.h.opcode == CONTINUATION
    ensures RawRead(cfg, st, k) == RawRead(cfg, NextState(st, ReadLoop(cfg, st.input)), k)
  {
    hide ReadLoop, Masked, KeyAfter;
  }

  /** Taking the next header changes neither the answer of the read nor the outlook. */
  lemma NextFrameKeeps(cfg: Config, st: State, frames: seq<Frame>, tail: seq<byte>, k: nat)
    requires At(cfg, st, [], frames, tail) && !st.fin && SkipControls(frames) != []
    ensures var rest := SkipControls(frames);
            && ReadLoop(cfg, st.input).Got?
            && RawRead(cfg, st, k) == RawRead(cfg, NextState(st, ReadLoop(cfg, st.input)), k)
            && OutlookOf(st, [], frames) ==
               OutlookOf(NextState(st, ReadLoop(cfg, st.input)), rest[0].payload, rest[1..])
  {
    hide At, RawRead, ReadLoop, RestOfMessage, AfterMessage, AllUnfinished, Replies, SkipControls;
    NextFrame(cfg, st, frames, tail);
    AtFields(cfg, st, [], frames, tail);
    RawReadSkips(cfg, st, k);
    SkipKeepsMessage(frames);
    AheadInside(cfg, st, frames, tail);
    var l := ReadLoop(cfg, st.input);
    var rest := SkipControls(frames);
    assert st.events + l.events + Replies(rest[1..]) == st.events + (l.events + Replies(rest[1..]));
  }

  /** One call of the raw reader, whatever the frames ahead. */
  lemma {:induction false} RawReadDelivers(
    cfg: Config, st: State, cur: seq<byte>, frames: seq<Frame>, tail: seq<byte>, k: nat)
      returns (z: State)
    requires At(cfg, st, cur, frames, tail) && k > 0 && !st.flate
    ensures var (cur', frames') := AfterRead(k, cur, frames);
            Delivers(cfg, OutlookOf(st, cur, frames), tail, k, RawRead(cfg, st, k), cur', frames', z)
    decreases |st.input|
  {
    hide At, OutlookOf, RawRead, ReadLoop, SkipControls;
    z := st;
    if cur != [] {
      hide Delivers;
      DeliversInsideFrame(cfg, st, cur, frames, tail, k);
    } else if st.fin {
      DeliversEnd(cfg, st, frames, tail, k);
      assert OutlookOf(st, [], frames).due == [] && OutlookOf(st, [], frames).finished by { DueAtEnd(st, frames); }
    } else if SkipControls(frames) == [] {
      DeliversTail(cfg, st, frames, tail, k);
      z := TailState(st, frames, tail);
      assert OutlookOf(st, [], frames).due == [] by { DueAtTail(st, frames); }
    } else {
      hide Delivers;
      var rest := SkipControls(frames);
      NextFrame(cfg, st, frames, tail);
      NextFrameKeeps(cfg, st, frames, tail, k);
      AfterReadSkips(k, frames);
      z := RawReadDelivers(cfg, NextState(st, ReadLoop(cfg, st.input)), rest[0].payload, rest[1..], tail, k);
    }
  }

  lemma DueAtEnd(st: State, frames: seq<Frame>)
    requires st.fin
    ensures OutlookOf(st, [], frames).due == [] && OutlookOf(st, [], frames).finished
  {
  }

  lemma DueAtTail(st: State, frames: seq<Frame>)
    requires SkipControls(frames) == []
    ensures OutlookOf(st, [], frames).due == []
  {
    SkipKeepsMessage(frames);
  }

  lemma AtFields(cfg: Config, st: State, cur: seq<byte>, frames: seq<Frame>, tail: seq<byte>)
    requires At(cfg, st, cur, frames, tail)
    ensures st.payloadLength == |cur| && !st.closed
  {
  }

  lemma AheadInside(cfg: Config, st: State, frames: seq<Frame>, tail: seq<byte>)
    requires At(cfg, st, [], frames, tail) && !st.fin && SkipControls(frames) != []
    ensures var rest := SkipControls(frames);
            && RestOfMessage(rest) == Due(rest[0].fin, rest[0].payload, rest[1..])
            && AfterMessage(rest) == Behind(rest[0].fin, rest[1..])
            && AllUnfinished(rest) == !Finished(rest[0].fin, rest[1..])
  {
    hide Wire;
    SkipWellFormed(true, frames);
    ContinuationAhead(SkipControls(frames));
  }

  // ----- reading a message to its end -----

  /** The message at hand does not reach the limit. */
  predicate Within(n: int, due: seq<byte>) {
    Fits(n, |due|)
  }

  /** What is left of a limit. */
  function Less(n: int, d: nat): int {
    if n < 0 then n else n - d
  }

  lemma LimitDoesNotMatter(cfg: Config, st: State, n: int, cur: seq<byte>, frames: seq<Frame>, tail: seq<byte>)
    requires At(cfg, st, cur, frames, tail)
    ensures At(cfg, st.(n := n), cur, frames, tail)
    ensures OutlookOf(st.(n := n), cur, frames) == OutlookOf(st, cur, frames).(n := n)
  {
  }

  /** One Read of the message, with its limit, when the limit is not reached yet. */
  ghost predicate ReadDelivers(
    cfg: Config, o: Outlook, tail: seq<byte>, k: nat, r: Read, cur': seq<byte>, frames': seq<Frame>, z: State)
  {
    if o.due != [] then
      && r.Data? && 0 < |r.data| && r.data <= o.due && (o.n >= 0 ==> |r.data| <= o.n) && !r.st.flate
      && At(cfg, r.st, cur', frames', tail)
      && OutlookOf(r.st, cur', frames') == o.(due := o.due[|r.data|..], n := Less(o.n, |r.data|))
    else if o.finished then
      && r.End? && r.st.fin && !r.st.flate && r.st.events + Replies(o.behind) == o.log
      && At(cfg, r.st, [], o.behind, tail)
    else
      AtTail(z, o, tail) && r == MessageRead(cfg, z, k)
  }

  /** The size that the limit leaves of a read. */
  function Capped(k: nat, n: int): nat
    requires n != 0
  {
    if n < 0 then k else Min(k, n)
  }

  lemma MessageReadDelivers(cfg: Config, st: State, cur: seq<byte>, frames: seq<Frame>, tail: seq<byte>, k: nat)
      returns (z: State)
    requires At(cfg, st, cur, frames, tail) && k > 0 && st.n != 0 && !st.flate
    ensures var (cur', frames') := AfterRead(Capped(k, st.n), cur, frames);
            ReadDelivers(cfg, OutlookOf(st, cur, frames), tail, k, MessageRead(cfg, st, k), cur', frames', z)
  {
    hide At, RawRead, Due, Behind, Finished, Replies, AfterRead;
    AtFields(cfg, st, cur, frames, tail);
    var k' := Capped(k, st.n);
    z := RawReadDelivers(cfg, st, cur, frames, tail, k');
    var (cur', frames') := AfterRead(k', cur, frames);
    var o := OutlookOf(st, cur, frames);
    var r := RawRead(cfg, st, k');
    if o.due != [] && st.n > 0 {
      LimitDoesNotMatter(cfg, r.st, st.n - |r.data|, cur', frames', tail);
    } else if o.due == [] && o.finished && st.n > 0 {
      LimitDoesNotMatter(cfg, r.st, st.n, [], o.behind, tail);
    }
  }

  // ----- how many reads a part of a message takes -----

  /** The octets of the frame at hand and of the data frames behind it. */
  function Left(cur: seq<byte>, frames: seq<Frame>): nat
    decreases frames
  {
    |cur| + if frames == [] then 0 else Left(if IsControl(frames[0].opcode) then [] else frames[0].payload, frames[1..])
  }

  lemma {:induction false} AfterReadLess(k: nat, cur: seq<byte>, frames: seq<Frame>)
    requires k > 0
    ensures var (cur', frames') := AfterRead(k, cur, frames);
            Left(cur, frames) == 0 || Left(cur', frames') < Left(cur, frames)
    decreases frames, |cur| == 0
  {
    if cur == [] && frames != [] {
      if IsControl(frames[0].opcode) {
        AfterReadLess(k, [], frames[1..]);
      } else {
        AfterReadLess(k, frames[0].payload, frames[1..]);
      }
    }
  }

  /** The number of the read that comes next when reads from number i on have taken these octets, frame by frame. */
  function ReadsUsed(sizes: nat -> nat, i: nat, cur: seq<byte>, frames: seq<Frame>): nat
    requires Positive(sizes)
    decreases Left(cur, frames)
  {
    if Left(cur, frames) == 0 then i
    else
      AfterReadLess(sizes(i), cur, frames);
      var (cur', frames') := AfterRead(sizes(i), cur, frames);
      ReadsUsed(sizes, i + 1, cur', frames')
  }

  lemma {:induction false} LeftIsDue(cur: seq<byte>, frames: seq<Frame>)
    requires AllUnfinished(frames)
    ensures Left(cur, frames) == |Due(false, cur, frames)|
    decreases frames
  {
    if frames != [] {
      assert forall f :: f in frames <==> f == frames[0] || f in frames[1..];
      LeftIsDue(if IsControl(frames[0].opcode) then [] else frames[0].payload, frames[1..]);
    }
  }

  /** A limit that is beyond the message does not cut a read. */
  lemma {:induction false} CapBeyond(k: nat, k': nat, cur: seq<byte>, frames: seq<Frame>)
    requires k' == k || (k' < k && Left(cur, frames) < k')
    ensures AfterRead(k', cur, frames) == AfterRead(k, cur, frames)
    decreases frames, |cur| == 0
  {
    if cur == [] && frames != [] {
      if IsControl(frames[0].opcode) {
        CapBeyond(k, k', [], frames[1..]);
      } else {
        CapBeyond(k, k', frames[0].payload, frames[1..]);
      }
    }
  }

  // ----- reading to the end -----

  /** Reading to the end returns exactly what is due, for any buffer sizes; when the frames do not finish the message,
      reading goes on with the tail. */
  lemma {:induction false} ReadAllDelivers(
    cfg: Config, st: State, cur: seq<byte>, frames: seq<Frame>, tail: seq<byte>, sizes: nat -> nat, i: nat)
    returns (z: State)
    requires At(cfg, st, cur, frames, tail) && Positive(sizes) && !st.flate
    requires Within(st.n, Due(st.fin, cur, frames))
    ensures var w := ReadAll(cfg, st, sizes, i);
            var o := OutlookOf(st, cur, frames);
            if o.finished then
              && w.data == o.due && w.error == None && w.st.fin && !w.st.flate
              && w.st.events + Replies(o.behind) == o.log && At(cfg, w.st, [], o.behind, tail)
            else
              && AtTail(z, o.(n := Less(o.n, |o.due|)), tail)
              && w == Delivered(o.due, ReadAll(cfg, z, sizes, ReadsUsed(sizes, i, cur, frames)))
    decreases Fuel(st)
  {
    hide At, Due, Behind, Finished, Replies, MessageRead, AfterRead;
    var o := OutlookOf(st, cur, frames);
    var k := Capped(sizes(i), st.n);
    z := MessageReadDelivers(cfg, st, cur, frames, tail, sizes(i));
    var (cur', frames') := AfterRead(k, cur, frames);
    MessageReadConsumes(cfg, st, sizes(i));
    var r := MessageRead(cfg, st, sizes(i));
    if !o.finished {
      assert Left(cur, frames) == |o.due| by { UnfinishedLeft(st, cur, frames); }
      CapBeyond(sizes(i), k, cur, frames);
    }
    if o.due != [] {
      z := ReadAllDelivers(cfg, r.st, cur', frames', tail, sizes, i + 1);
      assert o.due == r.data + o.due[|r.data|..];
      if !o.finished {
        DeliveredTwice(r.data, o.due[|r.data|..], ReadAll(cfg, z, sizes, ReadsUsed(sizes, i + 1, cur', frames')));
      }
    } else if !o.finished {
      MessageReadConsumes(cfg, z, sizes(i));
      DeliveredNothing(ReadAll(cfg, z, sizes, i));
    }
  }

  lemma UnfinishedLeft(st: State, cur: seq<byte>, frames: seq<Frame>)
    requires !OutlookOf(st, cur, frames).finished
    ensures Left(cur, frames) == |OutlookOf(st, cur, frames).due|
  {
    LeftIsDue(cur, frames);
  }

  lemma DeliveredNothing(w: Whole)
    ensures Delivered([], w) == w
  {
    assert [] + w.data == w.data;
  }

  /** A message that reaches the limit delivers exactly the limit's worth of octets, then the error. */
  lemma {:induction false} ReadAllTooBig(
    cfg: Config, st: State, cur: seq<byte>, frames: seq<Frame>, tail: seq<byte>, sizes: nat -> nat, i: nat)
    requires At(cfg, st, cur, frames, tail) && Positive(sizes) && !st.flate
    requires !Within(st.n, Due(st.fin, cur, frames))
    ensures var w := ReadAll(cfg, st, sizes, i);
            && w.data == Due(st.fin, cur, frames)[..st.n] && w.error == Some(TooBig) && w.st.closed
    decreases Fuel(st)
  {
    hide At, Due, Behind, Finished, Replies, MessageRead, AfterRead;
    if st.n == 0 {
      LimitReached(cfg, st, cur, frames, tail, sizes(i));
    } else {
      var o := OutlookOf(st, cur, frames);
      var z := MessageReadDelivers(cfg, st, cur, frames, tail, sizes(i));
      var (cur', frames') := AfterRead(Capped(sizes(i), st.n), cur, frames);
      MessageReadConsumes(cfg, st, sizes(i));
      var r := MessageRead(cfg, st, sizes(i));
      ReadAllTooBig(cfg, r.st, cur', frames', tail, sizes, i + 1);
      assert o.due[..st.n] == r.data + o.due[|r.data|..][..st.n - |r.data|];
    }
  }

  lemma LimitReached(cfg: Config, st: State, cur: seq<byte>, frames: seq<Frame>, tail: seq<byte>, k: nat)
    requires At(cfg, st, cur, frames, tail) && st.n == 0
    ensures MessageRead(cfg, st, k) == Failed(TooBig, [], Closed(st, [ErrorClose(1009)]))
  {
  }

  // ----- the tail -----

  /** Inside a message, with octets ahead on which readLoop stops: an error that wraps io.EOF is the end of the message,
      without an error; any other is returned. The connection is closed either way. */
  lemma ReadAllStopped(cfg: Config, z: State, sizes: nat -> nat, i: nat)
    requires !z.closed && !z.fin && !z.flate && z.payloadLength == 0 && z.n != 0 && Positive(sizes)
    requires ReadLoop(cfg, z.input).Stopped?
    ensures var l, w := ReadLoop(cfg, z.input), ReadAll(cfg, z, sizes, i);
            && w.data == [] && w.error == (if IsEof(l.error) then None else Some(l.error))
            && w.st.closed && w.st.events == z.events + l.events
  {
    hide ReadLoop, InFrameRead;
    MessageReadConsumes(cfg, z, sizes(i));
    var l := ReadLoop(cfg, z.input);
    var k := Capped(sizes(i), z.n);
    assert RawRead(cfg, z, k) == Failed(l.error, [], StoppedAt(z, l));
    assert (z.events + l.events) + [] == z.events + l.events;
  }

  /** Reads of these sizes, from number i on, end exactly after a octets. */
  predicate Lands(sizes: nat -> nat, i: nat, a: nat)
    requires Positive(sizes)
    decreases a
  {
    a == 0 || (sizes(i) <= a && Lands(sizes, i + 1, a - sizes(i)))
  }

  /** In a frame whose payload was cut off: the message ends without an error exactly when a read ends where the input
      ends, because the next read then gets io.EOF; otherwise the read that meets the end fails. */
  lemma {:induction false} ReadAllCut(cfg: Config, y: State, sizes: nat -> nat, i: nat)
    requires !y.closed && !y.flate && |y.input| < y.payloadLength && Positive(sizes)
    ensures var w := ReadAll(cfg, y, sizes, i);
            var part := OnWire(cfg, y.maskKey, y.input);
            && w.st.closed
            && if !Within(y.n, y.input) then w.error == Some(TooBig) && w.data == part[..y.n]
               else
                 && w.st.events == y.events
                 && w.error == (if Lands(sizes, i, |y.input|) then None else Some(ShortPayload(UnexpectedEof)))
                 && (w.error == None ==> w.data == part)
    decreases Fuel(y)
  {
    hide Masked, KeyAfter, RawRead, MessageRead;
    MessageReadConsumes(cfg, y, sizes(i));
    CutRead(cfg, y, sizes(i));
    if y.n != 0 && Capped(sizes(i), y.n) <= |y.input| {
      ReadAllCut(cfg, MessageRead(cfg, y, sizes(i)).st, sizes, i + 1);
      CutSplit(cfg, y.maskKey, y.input, Capped(sizes(i), y.n));
    }
  }

  /** One read in such a frame. */
  lemma CutRead(cfg: Config, y: State, size: nat)
    requires !y.closed && |y.input| < y.payloadLength && size > 0
    ensures var r := MessageRead(cfg, y, size);
            if y.n == 0 then r.Failed? && r.error == TooBig && r.partial == [] && r.st.closed
            else
              var k := Capped(size, y.n);
              if k <= |y.input| then
                r == Data(OnWire(cfg, y.maskKey, y.input[..k]),
                          y.(input := y.input[k..], payloadLength := y.payloadLength - k, n := Less(y.n, k),
                             maskKey := if cfg.client then y.maskKey else KeyAfter(y.maskKey, k)))
              else
                && (r.End? <==> y.input == []) && r.st.closed && r.st.events == y.events
                && (y.input != [] ==> r.Failed? && r.error == ShortPayload(UnexpectedEof))
  {
    hide Masked, KeyAfter, RawRead;
    assert y.events + [] == y.events;
    if y.n != 0 {
      RawReadInFrame(cfg, y, Capped(size, y.n));
    }
  }

  lemma CutSplit(cfg: Config, key: bv32, s: seq<byte>, k: nat)
    requires k <= |s|
    ensures OnWire(cfg, key, s) ==
            OnWire(cfg, key, s[..k]) + OnWire(cfg, if cfg.client then key else KeyAfter(key, k), s[k..])
  {
    hide Masked, KeyAfter;
    assert s == s[..k] + s[k..];
    MaskedAppend(key, s[..k], s[k..]);
  }
}
