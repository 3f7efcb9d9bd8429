/** What reading message after message returns, when well-formed frames are followed by octets of any kind: nothing, a
    frame that was cut off anywhere, a close frame, or a violation of the protocol. */
module Sessions {
  import opened Octets
  import opened FrameHeader
  import opened CloseFrame
  import opened Frames
  import opened MessageFrames
  import opened ReadModel
  import opened RoundTrip

  /** No compressed messages. */
  predicate Plain(frames: seq<Frame>) {
    forall f | f in frames :: !f.rsv1
  }

  /** The messages before the first one that reaches the limit. */
  function Fitting(limit: int, messages: seq<Message>): seq<Message> {
    if messages == [] || !Within(limit, messages[0].data) then []
    else [messages[0]] + Fitting(limit, messages[1..])
  }

  // ----- opening a message -----

  function OpenedState(cfg: Config, st: State, l: Loop): State
    requires l.Got?
  {
    NextState(st.(flate := l.h.rsv1, n := cfg.limit, tail := if l.h.rsv1 then DEFLATE_TAIL else st.tail), l)
  }

  lemma OpenGot(cfg: Config, st: State)
    requires !st.closed && st.fin
    requires var l := ReadLoop(cfg, st.input); l.Got? && IsMessageStart(l.h.opcode)
    ensures var l := ReadLoop(cfg, st.input); OpenMessage(cfg, st) == Opened(l.h.opcode, OpenedState(cfg, st, l))
  {
    hide ReadLoop;
  }

  lemma StartAhead(frames: seq<Frame>)
    requires frames != [] && !IsControl(frames[0].opcode) && WellFormed(false, frames)
    ensures IsMessageStart(frames[0].opcode) && WellFormed(!frames[0].fin, frames[1..])
    ensures Replies(frames) == Replies(frames[1..])
  {
  }

  /** Between messages, with another one ahead, Reader opens it. */
  lemma OpenDelivers(cfg: Config, st: State, frames: seq<Frame>, tail: seq<byte>)
    requires At(cfg, st, [], frames, tail) && st.fin && SkipControls(frames) != []
    ensures var rest := SkipControls(frames);
            var o := OpenMessage(cfg, st);
            && o.Opened? && o.typ == rest[0].opcode
            && At(cfg, o.st, rest[0].payload, rest[1..], tail) && o.st.fin == rest[0].fin && o.st.n == cfg.limit
            && o.st.flate == rest[0].rsv1 && (rest[0].rsv1 ==> o.st.tail == DEFLATE_TAIL)
            && o.st.events + Replies(rest[1..]) == st.events + Replies(frames)
  {
    hide Wire, OnWire, ReadLoop, AllFromPeer, FromPeer, WellFormed, Replies, OpenMessage, SkipControls;
    LoopFinds(cfg, st, frames, tail);
    var rest := SkipControls(frames);
    StartAhead(rest);
    OpenGot(cfg, st);
    var l := ReadLoop(cfg, st.input);
    assert (st.events + l.events) + Replies(rest[1..]) == st.events + (l.events + Replies(rest[1..]));
  }

  /** Between messages, with none ahead, Reader goes on with the tail. */
  lemma OpenAtTail(cfg: Config, st: State, frames: seq<Frame>, tail: seq<byte>)
    requires At(cfg, st, [], frames, tail) && st.fin && SkipControls(frames) == []
    ensures var l := TailLoop(cfg, false, tail);
            var z := TailState(st, frames, tail);
            OpenMessage(cfg, st) ==
              if l.Stopped? then NotOpened(l.error, StoppedAt(z, l)) else Opened(l.h.opcode, OpenedState(cfg, z, l))
  {
    hide At, ReadLoop, Replies;
    LoopFindsTail(cfg, st, frames, tail);
    AtFields(cfg, st, [], frames, tail);
    var l := ReadLoop(cfg, tail);
    SeqAssociative(st.events, Replies(frames), l.events);
    if l.Got? && l.h.opcode == CONTINUATION {
      SeqAssociative(st.events, Replies(frames) + l.events, VIOLATION);
      SeqAssociative(st.events + Replies(frames), l.events, VIOLATION);
    } else if l.Got? {
      OpenGot(cfg, st);
    }
  }

  // ----- the octets behind the frames -----

  const VIOLATION: seq<Event> := [ErrorClose(PROTOCOL_ERROR)]

  /** What readLoop finds in the octets behind the frames; a continuation between messages, and a new message inside
      one, is a violation that ends the session with close code 1002. */
  function TailLoop(cfg: Config, inside: bool, tail: seq<byte>): Loop {
    var l := ReadLoop(cfg, tail);
    if l.Got? && inside && l.h.opcode != CONTINUATION then Stopped(InterruptedMessage, [], l.events + VIOLATION)
    else if l.Got? && !inside && l.h.opcode == CONTINUATION then Stopped(OrphanContinuation, [], l.events + VIOLATION)
    else l
  }

  /** The octets behind the frames end the session: readLoop stops on them, they violate the protocol, or they are a
      data frame that may follow and whose payload was cut off. */
  ghost predicate CutTail(cfg: Config, inside: bool, tail: seq<byte>) {
    var l := TailLoop(cfg, inside, tail);
    l.Got? ==> |l.rest| < l.h.payloadLength && !l.h.rsv1
  }

  /** What arrived of the payload of such a frame. */
  function Part(cfg: Config, inside: bool, tail: seq<byte>): seq<byte> {
    match TailLoop(cfg, inside, tail)
    case Got(h, rest, _) => OnWire(cfg, h.maskKey, rest)
    case Stopped(_, _, _) => []
  }

  /** The end of the input is taken for the end of the message: readLoop stopped with an error that wraps io.EOF, or
      read number j and those after it end exactly where the payload was cut off. */
  predicate Unseen(cfg: Config, inside: bool, tail: seq<byte>, sizes: nat -> nat, j: nat)
    requires Positive(sizes)
  {
    match TailLoop(cfg, inside, tail)
    case Got(_, rest, _) => Lands(sizes, j, |rest|)
    case Stopped(e, _, _) => IsEof(e)
  }

  function CutError(cfg: Config, inside: bool, tail: seq<byte>): ReadError {
    match TailLoop(cfg, inside, tail)
    case Got(_, _, _) => ShortPayload(UnexpectedEof)
    case Stopped(e, _, _) => e
  }

  /** Inside a message, at the start of another. */
  lemma ReadAllInterrupted(cfg: Config, z: State, sizes: nat -> nat, i: nat)
    requires !z.closed && !z.fin && !z.flate && z.payloadLength == 0 && z.n != 0 && Positive(sizes)
    requires var l := ReadLoop(cfg, z.input); l.Got? && l.h.opcode != CONTINUATION
    ensures var l, w := ReadLoop(cfg, z.input), ReadAll(cfg, z, sizes, i);
            && w.data == [] && w.error == Some(InterruptedMessage)
            && w.st.closed && w.st.events == z.events + (l.events + VIOLATION)
  {
    hide ReadLoop, InFrameRead;
    MessageReadConsumes(cfg, z, sizes(i));
    var l := ReadLoop(cfg, z.input);
    var k := Capped(sizes(i), z.n);
    assert RawRead(cfg, z, k) == Failed(InterruptedMessage, [], Closed(z, l.events + VIOLATION));
    assert (z.events + (l.events + VIOLATION)) + [] == z.events + (l.events + VIOLATION);
  }

  /** Inside a message, at a data frame with its payload cut off. */
  lemma ReadAllIntoCut(cfg: Config, z: State, sizes: nat -> nat, j: nat)
    requires !z.closed && !z.fin && z.payloadLength == 0 && Positive(sizes)
    requires var l := ReadLoop(cfg, z.input); l.Got? && l.h.opcode == CONTINUATION
    ensures ReadAll(cfg, z, sizes, j) == ReadAll(cfg, NextState(z, ReadLoop(cfg, z.input)), sizes, j) || z.n == 0
  {
    hide ReadLoop, RawRead;
    var y := NextState(z, ReadLoop(cfg, z.input));
    MessageReadConsumes(cfg, z, sizes(j));
    MessageReadConsumes(cfg, y, sizes(j));
    if z.n != 0 {
      RawReadSkips(cfg, z, Capped(sizes(j), z.n));
      assert MessageRead(cfg, z, sizes(j)) == MessageRead(cfg, y, sizes(j));
    }
  }

  ghost predicate TailReads(cfg: Config, z: State, tail: seq<byte>, sizes: nat -> nat, j: nat, w: Whole)
    requires Positive(sizes)
  {
    var part := Part(cfg, true, tail);
    && w.st.closed
    && if !Within(z.n, part) then w.error == Some(TooBig)
       else
         && w.st.events == z.events + TailLoop(cfg, true, tail).events
         && w.error == (if Unseen(cfg, true, tail, sizes, j) then None else Some(CutError(cfg, true, tail)))
         && (w.error == None ==> w.data == part)
  }

  lemma ReadAllOfTail(cfg: Config, z: State, o: Outlook, tail: seq<byte>, sizes: nat -> nat, j: nat)
    requires AtTail(z, o, tail) && CutTail(cfg, true, tail) && Positive(sizes) && z.n != 0
    ensures TailReads(cfg, z, tail, sizes, j, ReadAll(cfg, z, sizes, j))
  {
    hide ReadLoop, ReadAll, OnWire, Lands;
    var l := ReadLoop(cfg, tail);
    if l.Stopped? {
      ReadAllStopped(cfg, z, sizes, j);
    } else if l.h.opcode != CONTINUATION {
      ReadAllInterrupted(cfg, z, sizes, j);
    } else {
      ReadAllIntoCut(cfg, z, sizes, j);
      ReadAllCut(cfg, NextState(z, l), sizes, j);
    }
  }

  ghost predicate OpenReads(cfg: Config, o: Outlook, tail: seq<byte>, sizes: nat -> nat, j: nat, w: Whole)
    requires Positive(sizes)
  {
    var d := o.due + Part(cfg, true, tail);
    && w.st.closed
    && if !Within(o.n, d) then w.error == Some(TooBig)
       else
         && w.st.events == o.log + TailLoop(cfg, true, tail).events
         && w.error == (if Unseen(cfg, true, tail, sizes, j) then None else Some(CutError(cfg, true, tail)))
         && (w.error == None ==> w.data == d)
  }

  /** Reading an open message to the end of the input. */
  lemma OpenReadsOut(cfg: Config, st: State, cur: seq<byte>, frames: seq<Frame>, tail: seq<byte>, sizes: nat -> nat)
    requires At(cfg, st, cur, frames, tail) && !st.fin && !st.flate && AllUnfinished(frames)
    requires CutTail(cfg, true, tail) && Positive(sizes)
    ensures OpenReads(cfg, OutlookOf(st, cur, frames), tail, sizes,
                      ReadsUsed(sizes, 0, cur, frames), ReadAll(cfg, st, sizes, 0))
  {
    hide At, ReadAll, Part, Unseen, CutError, Due, AllUnfinished, ReadLoop, CutTail, ReadsUsed;
    var o := OutlookOf(st, cur, frames);
    assert !o.finished by { UnfinishedOutlook(st, cur, frames); }
    if !Within(st.n, o.due) {
      ReadAllTooBig(cfg, st, cur, frames, tail, sizes, 0);
    } else {
      var z := ReadAllDelivers(cfg, st, cur, frames, tail, sizes, 0);
      ReadAllOfTail(cfg, z, o.(n := Less(o.n, |o.due|)), tail, sizes, ReadsUsed(sizes, 0, cur, frames));
    }
  }

  lemma UnfinishedOutlook(st: State, cur: seq<byte>, frames: seq<Frame>)
    requires !st.fin && AllUnfinished(frames)
    ensures !OutlookOf(st, cur, frames).finished
  {
  }

  // ----- the last part of a session -----

  /** The frame that was cut off, as far as it arrived. */
  function CutFrame(cfg: Config, inside: bool, tail: seq<byte>): seq<Frame> {
    match TailLoop(cfg, inside, tail)
    case Got(h, _, _) => [Frame(false, false, h.opcode, h.masked, h.maskKey, Part(cfg, inside, tail))]
    case Stopped(_, _, _) => []
  }

  /** The messages that come out at the end, and the error after them. */
  datatype Ending = Ending(messages: seq<Message>, error: ReadError)

  /** How a session ends whose last frames finish no message. An open message comes out only when the end of the input
      goes unseen; the next call then finds the connection closed. */
  function EndingOf(cfg: Config, last: seq<Frame>, tail: seq<byte>, sizes: nat -> nat): Ending
    requires Positive(sizes)
  {
    var inside := EndsInside(false, last);
    var open := Messages(last + CutFrame(cfg, inside, tail));
    if open == [] then Ending([], CutError(cfg, inside, tail))
    else if !Within(cfg.limit, open[0].data) then Ending([], TooBig)
    else if Unseen(cfg, inside, tail, sizes, ReadsUsed(sizes, 0, [], last)) then Ending(open, ConnClosed)
    else Ending([], CutError(cfg, inside, tail))
  }

  /** What a sequence without a whole message carries. */
  lemma OpenOf(last: seq<Frame>)
    requires WellFormed(false, last) && AllUnfinished(last)
    ensures var rest := SkipControls(last);
            if rest == [] then Messages(last) == [] && !EndsInside(false, last)
            else
              && EndsInside(false, last) && !rest[0].fin && AllUnfinished(rest[1..]) && IsMessageStart(rest[0].opcode)
              && Messages(last) == [Message(rest[0].opcode, Due(false, rest[0].payload, rest[1..]))]
  {
    var rest := SkipControls(last);
    SkipWellFormed(false, last);
    SkipKeepsMessages(false, last);
    if rest != [] {
      assert rest[0] in last && forall f | f in rest[1..] :: f in last;
      EndOfMessage(rest[1..]);
      MessagesStep(rest);
    }
  }

  lemma {:induction false} SkipKeepsMessages(inside: bool, frames: seq<Frame>)
    ensures var rest := SkipControls(frames);
            Messages(rest) == Messages(frames) && EndsInside(inside, rest) == EndsInside(inside, frames)
    decreases frames
  {
    if frames != [] && IsControl(frames[0].opcode) {
      SkipKeepsMessages(inside, frames[1..]);
    }
  }

  lemma OpenWithCut(cfg: Config, last: seq<Frame>, tail: seq<byte>)
    requires WellFormed(false, last) && AllUnfinished(last) && CutTail(cfg, EndsInside(false, last), tail)
    ensures var inside := EndsInside(false, last);
            var open := Messages(last + CutFrame(cfg, inside, tail));
            var rest := SkipControls(last);
            if rest != [] then
              open == [Message(rest[0].opcode, Due(false, rest[0].payload, rest[1..]) + Part(cfg, inside, tail))]
            else match TailLoop(cfg, inside, tail)
              case Got(h, _, _) => open == [Message(h.opcode, Part(cfg, inside, tail))]
              case Stopped(_, _, _) => open == []
  {
    hide ReadLoop, Messages, WellFormed, EndsInside, AllUnfinished, Due, SkipControls, OnWire;
    OpenOf(last);
    var inside := EndsInside(false, last);
    if TailLoop(cfg, inside, tail).Got? {
      MessagesSnoc(last, CutFrame(cfg, inside, tail)[0]);
    } else {
      assert last + [] == last;
      var rest := SkipControls(last);
      if rest != [] {
        var d := Due(false, rest[0].payload, rest[1..]);
        assert d + [] == d;
      }
    }
  }

  ghost predicate EndsAs(cfg: Config, st: State, last: seq<Frame>, tail: seq<byte>, sizes: nat -> nat, s: Session)
    requires Positive(sizes)
  {
    var end := EndingOf(cfg, last, tail, sizes);
    && s.messages == end.messages && s.error == end.error
    && (s.error != TooBig ==>
          s.st.events == st.events + Replies(last) + TailLoop(cfg, EndsInside(false, last), tail).events)
  }

  lemma {:induction false} OnlyControls(last: seq<Frame>)
    requires SkipControls(last) == []
    ensures Left([], last) == 0
    decreases last
  {
    if last != [] {
      OnlyControls(last[1..]);
    }
  }

  lemma {:induction false} LeftSkips(frames: seq<Frame>)
    requires SkipControls(frames) != []
    ensures Left([], frames) == Left(SkipControls(frames)[0].payload, SkipControls(frames)[1..])
    decreases frames
  {
    if IsControl(frames[0].opcode) {
      LeftSkips(frames[1..]);
    }
  }

  lemma ReadsUsedSkips(sizes: nat -> nat, frames: seq<Frame>)
    requires SkipControls(frames) != [] && Positive(sizes)
    ensures ReadsUsed(sizes, 0, [], frames) ==
            ReadsUsed(sizes, 0, SkipControls(frames)[0].payload, SkipControls(frames)[1..])
  {
    LeftSkips(frames);
    AfterReadSkips(sizes(0), frames);
  }

  lemma OpenClosed(cfg: Config, st: State)
    requires st.closed
    ensures OpenMessage(cfg, st) == NotOpened(ConnClosed, st)
  {
  }

  /** A session of which one message was opened. */
  lemma AfterOne(cfg: Config, st: State, sizes: nat -> nat -> nat, m: nat)
    requires (forall j :: Positive(sizes(j))) && OpenMessage(cfg, st).Opened?
    requires ReadAll(cfg, OpenMessage(cfg, st).st, sizes(m), 0).st.closed
    ensures var o := OpenMessage(cfg, st);
            var w := ReadAll(cfg, o.st, sizes(m), 0);
            ReadMessages(cfg, st, sizes, m) ==
              if w.error.Some? then Session([], w.error.value, w.st)
              else Session([Message(o.typ, w.data)], ConnClosed, w.st)
  {
    hide OpenMessage, ReadAll;
    var o := OpenMessage(cfg, st);
    ReadAllInput(cfg, o.st, sizes(m), 0);
    var w := ReadAll(cfg, o.st, sizes(m), 0);
    OpenClosed(cfg, w.st);
  }

  lemma LastWithoutMessage(cfg: Config, st: State, last: seq<Frame>, tail: seq<byte>, sizes: nat -> nat -> nat, m: nat)
    requires At(cfg, st, [], last, tail) && st.fin && AllUnfinished(last) && SkipControls(last) == []
    requires WellFormed(false, last) && CutTail(cfg, false, tail) && forall j :: Positive(sizes(j))
    ensures EndsAs(cfg, st, last, tail, sizes(m), ReadMessages(cfg, st, sizes, m))
  {
    hide At, OpenMessage, ReadAll, Messages, ReadLoop, Replies, Lands, AllUnfinished, WellFormed, OnWire;
    OpenAtTail(cfg, st, last, tail);
    AtFields(cfg, st, [], last, tail);
    OpenOf(last);
    OpenWithCut(cfg, last, tail);
    OnlyControls(last);
    var l, z := TailLoop(cfg, false, tail), TailState(st, last, tail);
    if l.Got? {
      ReadAllCut(cfg, OpenedState(cfg, z, l), sizes(m), 0);
      AfterOne(cfg, st, sizes, m);
    }
  }

  lemma LastWithMessage(cfg: Config, st: State, last: seq<Frame>, tail: seq<byte>, sizes: nat -> nat -> nat, m: nat)
    requires At(cfg, st, [], last, tail) && st.fin && AllUnfinished(last) && SkipControls(last) != []
    requires WellFormed(false, last) && Plain(last) && CutTail(cfg, true, tail) && forall j :: Positive(sizes(j))
    ensures EndsAs(cfg, st, last, tail, sizes(m), ReadMessages(cfg, st, sizes, m))
  {
    hide At, OpenMessage, ReadAll, Messages, ReadLoop, Replies, AllUnfinished;
    hide WellFormed, Due, ReadsUsed, Part, Unseen, SkipControls;
    hide CutTail, CutFrame, CutError;
    OpenDelivers(cfg, st, last, tail);
    var rest := SkipControls(last);
    assert rest[0] in last;
    OpenOf(last);
    OpenWithCut(cfg, last, tail);
    ReadsUsedSkips(sizes(m), last);
    var o := OpenMessage(cfg, st);
    OpenReadsOut(cfg, o.st, rest[0].payload, rest[1..], tail, sizes(m));
    AfterOne(cfg, st, sizes, m);
  }

  // ----- whole sessions -----

  /** A sequence with a whole message: the first one, and what is behind it. */
  lemma {:induction false} FirstWhole(frames: seq<Frame>)
    requires WellFormed(false, frames) && !AllUnfinished(frames)
    ensures var rest := SkipControls(frames);
            && rest != [] && IsMessageStart(rest[0].opcode) && Finished(rest[0].fin, rest[1..])
            && var behind := Behind(rest[0].fin, rest[1..]);
               && WholeMessages(frames) ==
                    [Message(rest[0].opcode, Due(rest[0].fin, rest[0].payload, rest[1..]))] + WholeMessages(behind)
               && LastPart(frames) == LastPart(behind)
               && WellFormed(false, behind) && EndsInside(false, behind) == EndsInside(false, frames)
               && forall f | f in behind :: f in frames
    decreases frames
  {
    if IsControl(frames[0].opcode) {
      assert forall f :: f in frames <==> f == frames[0] || f in frames[1..];
      FirstWhole(frames[1..]);
    } else {
      AfterFirst(frames);
      AllUnfinishedStep(frames);
    }
  }

  /** What a session returns: the whole messages up to the first that reaches the limit and, if they all fit, how it
      ends. */
  ghost predicate SessionReads(
    cfg: Config, st: State, frames: seq<Frame>, tail: seq<byte>, sizes: nat -> nat -> nat, m: nat, s: Session)
    requires forall j :: Positive(sizes(j))
  {
    var whole := WholeMessages(frames);
    if Fitting(cfg.limit, whole) != whole then s.messages == Fitting(cfg.limit, whole) && s.error == TooBig
    else
      var last := LastPart(frames);
      var end := EndingOf(cfg, last, tail, sizes(m + |whole|));
      && s.messages == whole + end.messages && s.error == end.error
      && (s.error != TooBig ==>
            s.st.events == st.events + Replies(frames) + TailLoop(cfg, EndsInside(false, last), tail).events)
  }

  lemma ReadsOneMore(
    cfg: Config, st: State, frames: seq<Frame>, tail: seq<byte>, sizes: nat -> nat -> nat, m: nat,
    first: Message, w: State,
    behind: seq<Frame>, s: Session)
    requires forall j :: Positive(sizes(j))
    requires WholeMessages(frames) == [first] + WholeMessages(behind) && LastPart(frames) == LastPart(behind)
    requires Within(cfg.limit, first.data)
    requires w.events + Replies(behind) == st.events + Replies(frames)
    requires SessionReads(cfg, w, behind, tail, sizes, m + 1, s)
    ensures SessionReads(cfg, st, frames, tail, sizes, m, s.(messages := [first] + s.messages))
  {
    hide WholeMessages, LastPart, Replies, Within, EndingOf, ReadLoop;
    assert WholeMessages(frames)[1..] == WholeMessages(behind);
    assert m + |WholeMessages(frames)| == m + 1 + |WholeMessages(behind)|;
  }

  lemma StoppedByLimit(
    cfg: Config, st: State, frames: seq<Frame>, tail: seq<byte>, sizes: nat -> nat -> nat, m: nat, first: Message,
    behind: seq<Frame>, s: Session)
    requires forall j :: Positive(sizes(j))
    requires WholeMessages(frames) == [first] + WholeMessages(behind) && !Within(cfg.limit, first.data)
    requires s.messages == [] && s.error == TooBig
    ensures SessionReads(cfg, st, frames, tail, sizes, m, s)
  {
    hide EndingOf, ReadLoop;
  }

  lemma NoneWhole(
    cfg: Config, st: State, frames: seq<Frame>, tail: seq<byte>, sizes: nat -> nat -> nat, m: nat, s: Session)
    requires (forall j :: Positive(sizes(j))) && AllUnfinished(frames) && EndsAs(cfg, st, frames, tail, sizes(m), s)
    ensures SessionReads(cfg, st, frames, tail, sizes, m, s)
  {
    hide EndingOf, ReadLoop, Replies;
    var end := EndingOf(cfg, frames, tail, sizes(m));
    assert WholeMessages(frames) == [] && LastPart(frames) == frames && m + 0 == m;
    assert [] + end.messages == end.messages;
  }

  /** Whatever the frames, the masks, the fragmentation, the interleaved pings and pongs, the sizes of the buffers and
      the octets behind the frames: reading returns the messages that the frames finish, in order, up to the first that
      exceeds the limit; every ping is answered with its own data; and the end of the session is as EndingOf says. */
  lemma {:induction false} SessionDelivers(
    cfg: Config, st: State, frames: seq<Frame>, tail: seq<byte>, sizes: nat -> nat -> nat, m: nat)
    requires At(cfg, st, [], frames, tail) && st.fin && Plain(frames)
    requires CutTail(cfg, EndsInside(false, frames), tail) && forall j :: Positive(sizes(j))
    ensures SessionReads(cfg, st, frames, tail, sizes, m, ReadMessages(cfg, st, sizes, m))
    decreases |st.input|
  {
    hide At, OpenMessage, ReadAll, EndsInside, Replies, Due, Behind;
    hide Finished, SessionReads, CutTail, EndsAs, WholeMessages, LastPart;
    hide AllUnfinished, WellFormed;
    SessionFrames(cfg, st, frames, tail);
    if AllUnfinished(frames) {
      OpenOf(frames);
      if SkipControls(frames) == [] {
        LastWithoutMessage(cfg, st, frames, tail, sizes, m);
      } else {
        LastWithMessage(cfg, st, frames, tail, sizes, m);
      }
      NoneWhole(cfg, st, frames, tail, sizes, m, ReadMessages(cfg, st, sizes, m));
    } else {
      FirstWhole(frames);
      OpenDelivers(cfg, st, frames, tail);
      var rest := SkipControls(frames);
      assert rest[0] in frames;
      var o := OpenMessage(cfg, st);
      var first := Message(o.typ, Due(o.st.fin, rest[0].payload, rest[1..]));
      var behind := Behind(o.st.fin, rest[1..]);
      var w := ReadAll(cfg, o.st, sizes(m), 0);
      ReadAllInput(cfg, o.st, sizes(m), 0);
      if !Within(cfg.limit, first.data) {
        ReadAllTooBig(cfg, o.st, rest[0].payload, rest[1..], tail, sizes(m), 0);
        StoppedByLimit(cfg, st, frames, tail, sizes, m, first, behind, ReadMessages(cfg, st, sizes, m));
      } else {
        var z := ReadAllDelivers(cfg, o.st, rest[0].payload, rest[1..], tail, sizes(m), 0);
        SessionDelivers(cfg, w.st, behind, tail, sizes, m + 1);
        ReadsOneMore(cfg, st, frames, tail, sizes, m, first, w.st, behind, ReadMessages(cfg, w.st, sizes, m + 1));
      }
    }
  }

  lemma SessionFrames(cfg: Config, st: State, frames: seq<Frame>, tail: seq<byte>)
    requires At(cfg, st, [], frames, tail) && st.fin
    ensures WellFormed(false, frames)
  {
  }
}
