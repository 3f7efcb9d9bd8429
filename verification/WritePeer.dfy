/** What the peer of an endpoint without compression reads, in every state of every run of the write protocol. */
module WritePeer {
  import opened Octets
  import opened FrameHeader
  import opened CloseFrame
  import opened Frames
  import opened MessageFrames
  import opened CutStreams
  import opened PrefixReads
  import opened WriteProtocol
  import opened WriteInvariant
  import opened WriteSteps
  import opened WriteSafety
  import opened WriteContent
  import opened WriteCalls
  import opened WriteHeard
  import R = ReadModel
  import RoundTrip
  import Sessions

  // ----- the frame under way -----

  /** Frame f may be the next frame: it is as this endpoint writes frames, and a close frame has a payload that can be
      sent. */
  ghost predicate NextFrame(e: Endpoint, g: Shared, f: Frame) {
    && f.masked == e.client && |f.payload| < INT64_LIMIT && !f.rsv1
    && MayFollow(PlaceOf(g.log).Inside?, f)
    && (f.opcode == CLOSE ==> exists ce :: f.payload == SentPayload(ce))
  }

  /** The octets after the last whole frame begin a frame with which the messages will be the expected ones. */
  ghost predicate Begun(e: Endpoint, g: Shared, h: History, f: Frame) {
    g.torn <= EncodeFrame(f) && NextFrame(e, g, f) && h.expected == Messages(FramesOf(g.log) + [f])
  }

  /** Whoever is emitting a frame emits the expected one, and so are the octets that are there of a frame. */
  ghost predicate Expecting(e: Endpoint, s: State, h: History) {
    && (forall t | 0 <= t < |s.threads| && s.threads[t].pc.Emitting? ::
          h.expected == Messages(FramesOf(s.g.log) + [s.threads[t].pc.frame]))
    && (s.g.torn != [] ==> exists f :: Begun(e, s.g, h, f))
  }

  lemma SameTorn(e: Endpoint, g: Shared, h: History, g': Shared, h': History)
    requires g.torn != [] ==> exists f :: Begun(e, g, h, f)
    requires g'.torn == g.torn && g'.log == g.log && h'.expected == h.expected
    ensures g'.torn != [] ==> exists f :: Begun(e, g', h', f)
  {
    hide EncodeFrame, PlaceOf, Messages, FramesOf, SentPayload;
    if g.torn != [] {
      var f :| Begun(e, g, h, f);
      assert Begun(e, g', h', f);
    }
  }

  /** The frame that a thread is emitting may be the next one. */
  lemma EmittingIsNext(e: Endpoint, t: nat, g: Shared, l: Local)
    requires Of(e, g, t, l) && l.pc.Emitting? && PlainLocal(l) && ContentOf(e, g.log, t, l)
    ensures NextFrame(e, g, l.pc.frame) && Allowed(PlaceOf(g.log), Sent(l.pc.frame, l.pc.job.deflated, t))
    ensures g.torn <= EncodeFrame(l.pc.frame) && CloseFree(g.log)
  {
    hide EncodeFrame, PlaceOf, OwnFrame, NoneSince, SentPayload, CloseFree, LocksOf;
  }

  /** When a thread begins a frame, the expected messages are those that the log will carry with that frame. */
  lemma BeginExpects(e: Endpoint, t: nat, g: Shared, l: Local, h: History)
    requires Of(e, g, t, l) && l.pc.Emitting? && PlainLocal(l) && ContentOf(e, g.log, t, l) && TypeOf(h, l)
    requires LogRecorded(g.log, h) && Good(g.log)
    ensures Carried(Committed(h, l.call)) == Messages(FramesOf(g.log) + [l.pc.frame])
  {
    hide LocksOf, FlateOf, StreamOf, CloseOf, MessageOf, ContentOf;
    hide TypeOf, PlainLocal, Messages, Good, Committed, PlaceOf;
    EmittingIsNext(e, t, g, l);
    var x := Sent(l.pc.frame, l.pc.job.deflated, t);
    SentOne(g.log, x);
    hide ShapeOf;
    FrameRecords(e, t, g, l, h);
    assert FramesOf(g.log + [x]) == FramesOf(g.log) + [l.pc.frame];
  }

  /** At most one thread is emitting. */
  lemma OneEmits(e: Endpoint, s: State, t: nat, u: nat)
    requires Inv(e, s) && t < |s.threads| && u < |s.threads| && s.threads[t].pc.Emitting? && HoldsFrame(s.threads[u].pc)
    ensures t == u
  {
    hide SharedOk, ShapeOf, FlateOf, StreamOf, CloseOf, MessageOf;
    assert Of(e, s.g, t, s.threads[t]) && Of(e, s.g, u, s.threads[u]);
  }

  /** What a step of writeFrame does to the thread that takes it. */
  lemma FramePcs(e: Endpoint, t: nat, g: Shared, l: Local, a: FrameAction)
    requires CanFrame(g, l, a) && StreamOf(g, t, l)
    ensures var x := DoFrame(e, t, g, l, a);
            && (a.Begin? ==> x.l.pc.Emitting? && g.torn == [] && HoldsFrame(l.pc))
            && (a.Complete? ==> !x.l.pc.Emitting? && HoldsFrame(l.pc))
            && (a.Emit? ==> x.l.pc.Emitting?)
            && (!a.Begin? && x.l.pc.Emitting? ==> l.pc.Emitting? && x.l.pc.frame == l.pc.frame)
            && x.l.call == l.call
  {
    hide EncodeFrame;
  }

  lemma CallPcs(e: Endpoint, t: nat, g: Shared, l: Local, a: CallAction)
    requires CanCall(e, g, l, a)
    ensures !DoCall(e, t, g, l, a).l.pc.Emitting?
  {
    hide SentPayload;
  }

  lemma ExpectStep(e: Endpoint, s: State, s': State, step: Step, h: History)
    requires Inv(e, s) && Inv(e, s') && Content(e, s') && Plain(e, s') && WireOk(s.g) && Expecting(e, s, h)
    requires Recording(s, h) && Recording(s', Recorded(h, s, step)) && Next(e, s, s', step)
    ensures Expecting(e, s', Recorded(h, s, step))
  {
    hide TokensOk, LocksOf, ShapeOf, FlateOf, StreamOf, CloseOf;
    hide MessageOf, DoFrame, DoCall, ContentOf, CanFrame, CanCall;
    hide PlainLocal, FinalFlushed, CloseFree, Begun, TypeOf, Carried;
    hide Committed, Messages, EncodeAll, FramesOf, Good, HoldsFrame;
    match step
    case FrameStep(t, a) => ExpectFrame(e, s, s', t, a, h);
    case CallStep(t, a) =>
      CallSendsNothing(e, t, s.g, s.threads[t], a);
      CallPcs(e, t, s.g, s.threads[t], a);
      SameTorn(e, s.g, h, s'.g, Recorded(h, s, step));
    case _ => SameTorn(e, s.g, h, s'.g, Recorded(h, s, step));
  }

  lemma ExpectFrame(e: Endpoint, s: State, s': State, t: nat, a: FrameAction, h: History)
    requires Inv(e, s) && Inv(e, s') && Content(e, s') && Plain(e, s') && WireOk(s.g) && Expecting(e, s, h)
    requires Recording(s, h) && Recording(s', Recorded(h, s, FrameStep(t, a))) && Next(e, s, s', FrameStep(t, a))
    ensures Expecting(e, s', Recorded(h, s, FrameStep(t, a)))
  {
    hide TokensOk, LocksOf, ShapeOf, FlateOf, StreamOf, CloseOf;
    hide MessageOf, DoFrame, DoCall, ContentOf, CanFrame, CanCall;
    hide PlainLocal, FinalFlushed, CloseFree, Begun, TypeOf, Carried, Messages, EncodeAll, FramesOf, Good, HoldsFrame;
    var h' := Recorded(h, s, FrameStep(t, a));
    var l, l' := s.threads[t], s'.threads[t];
    assert Of(e, s.g, t, l) && Of(e, s'.g, t, l');
    FrameSends(e, t, s.g, l, a);
    FramePcs(e, t, s.g, l, a);
    if a.Begin? || a.Complete? {
      forall u | 0 <= u < |s'.threads| && u != t
        ensures !s'.threads[u].pc.Emitting?
      {
        if s'.threads[u].pc.Emitting? {
          OneEmits(e, s, u, t);
        }
      }
    }
    if a.Begin? {
      assert TypeOf(h, l') && LogRecorded(s'.g.log, h) by { BeginKeeps(s.g.log, h, h'.expected, l'); }
      BeginExpects(e, t, s'.g, l', h);
    } else if a.Emit? {
      EmittingIsNext(e, t, s'.g, l');
      assert Begun(e, s'.g, h', l'.pc.frame) by { EmitBegun(e, s'.g, h', l'.pc.frame); }
    } else if !a.Complete? {
      SameTorn(e, s.g, h, s'.g, h');
    }
  }

  lemma BeginKeeps(log: seq<Sent>, h: History, expected: seq<Message>, l: Local)
    requires LogRecorded(log, h) && TypeOf(h.(expected := expected), l)
    ensures LogRecorded(log, h) && TypeOf(h, l)
  {
  }

  lemma EmitBegun(e: Endpoint, g: Shared, h: History, f: Frame)
    requires NextFrame(e, g, f) && g.torn <= EncodeFrame(f) && h.expected == Messages(FramesOf(g.log) + [f])
    ensures Begun(e, g, h, f)
  {
  }

  lemma {:induction false} RunExpecting(e: Endpoint, run: seq<State>, steps: seq<Step>, i: nat)
    requires !e.compress && Run(e, run, steps) && i < |run|
    ensures Expecting(e, run[i], HistoryOf(run, steps, i))
  {
    hide Inv, Next, WireOk, Content, Plain, Recording, Recorded, Init, Expecting;
    if i == 0 {
      assert Expecting(e, run[0], HistoryOf(run, steps, 0)) by { StartExpecting(e, run[0], HistoryOf(run, steps, 0)); }
    } else {
      RunExpecting(e, run, steps, i - 1);
      RunKeepsInv(e, run, steps, i - 1);
      RunKeepsInv(e, run, steps, i);
      RunWireOk(e, run, steps, i - 1);
      RunContent(e, run, steps, i);
      RunIsPlain(e, run, steps, i);
      RunRecorded(e, run, steps, i - 1);
      RunRecorded(e, run, steps, i);
      ExpectStep(e, run[i - 1], run[i], steps[i - 1], HistoryOf(run, steps, i - 1));
    }
  }

  lemma StartExpecting(e: Endpoint, s: State, h: History)
    requires Init(s)
    ensures Expecting(e, s, h)
  {
  }

  // ----- the peer -----

  /** The messages that calls completed are those that the frames finish. */
  lemma ToldIsWhole(log: seq<Sent>, h: History)
    requires Good(log) && LogRecorded(log, h)
    ensures h.told == WholeMessages(FramesOf(log))
  {
    hide Good, Messages, WholeMessages, LastPart, EndsInside;
    hide WellFormed, PlaceOf, FramesOf, AllUnfinished, CloseRecorded;
    var frames := FramesOf(log);
    GoodIsWellFormed(log);
    LastPartWellFormed(frames);
    Sessions.OpenOf(LastPart(frames));
    assert |Messages(LastPart(frames))| == if h.open.Some? then 1 else 0;
    assert |h.told| == |WholeMessages(frames)|;
    assert h.told == Messages(frames)[..|h.told|] && WholeMessages(frames) == Messages(frames)[..|h.told|];
  }

  lemma FramesFromPeer(e: Endpoint, s: State, cfg: R.Config, n: nat)
    requires Plain(e, s) && cfg.client == !e.client && n <= |s.g.log|
    requires forall i | 0 <= i < n :: s.g.log[i].frame.opcode != CLOSE
    ensures RoundTrip.AllFromPeer(cfg, FramesOf(s.g.log)[..n]) && Sessions.Plain(FramesOf(s.g.log)[..n])
  {
    var frames := FramesOf(s.g.log)[..n];
    forall f | f in frames
      ensures RoundTrip.FromPeer(cfg, f) && !f.rsv1
    {
      var k :| 0 <= k < |frames| && frames[k] == f;
      assert s.g.log[k] in s.g.log;
    }
  }

  lemma FlushedFrames(g: Shared)
    requires FinalFlushed(g)
    ensures FinalWithin(FramesOf(g.log), g.flushed)
  {
    hide EncodeAll;
    var frames := FramesOf(g.log);
    forall k | 0 <= k < |frames| && frames[k].fin
      ensures |EncodeAll(frames[..k + 1])| <= g.flushed
    {
      assert FramesOf(g.log[..k + 1]) == frames[..k + 1];
    }
  }

  /** The wire is a prefix of the frames that were written and the frame under way. */
  lemma WireIsPrefix(g: Shared, f: Frame)
    requires LogOk(g) && g.flushed <= |g.stream| && g.torn <= EncodeFrame(f)
    ensures var all := EncodeAll(FramesOf(g.log) + [f]); g.flushed <= |all| && WireOf(g) == all[..g.flushed]
    ensures g.torn == [] && g.flushed == |g.stream| ==> g.flushed == |EncodeAll(FramesOf(g.log))|
  {
    hide EncodeAll, EncodeFrame, FramesOf, Good, PartOfFrame, CloseLast;
    EncodeAllSnoc(FramesOf(g.log), f);
    assert g.stream <= EncodeAll(FramesOf(g.log)) + EncodeFrame(f);
  }

  lemma OneMore(frames: seq<Frame>, f: Frame)
    requires WellFormed(false, frames) && MayFollow(EndsInside(false, frames), f)
    ensures |Messages(frames + [f])| <= |WholeMessages(frames)| + 1
  {
    hide EndsInside, Messages, WholeMessages, LastPart, WellFormed, AllUnfinished;
    WholeAndOpen(frames, [f]);
    LastPartWellFormed(frames);
    Sessions.OpenOf(LastPart(frames));
    MessagesSnoc(LastPart(frames), f);
  }

  /** What the peer has when it has read all that was given to the connection. */
  ghost predicate PeerHas(g: Shared, h: History, s: R.Session) {
    && h.told <= s.messages && |s.messages| <= |h.told| + 1
    && Begins(s.messages, if g.torn == [] then Carried(h) else h.expected)
    && (h.closing == None && g.torn == [] && g.flushed == |g.stream| ==> s.messages == Carried(h))
    && (h.closing.Some? ==>
          var ce := h.closing.value;
          && s.messages == h.told
          && ParseClosePayload(SentPayload(ce)).Some?
          && s.error == R.PeerClosed(ParseClosePayload(SentPayload(ce)).value)
          && s.st.events != [] && s.st.events[|s.st.events| - 1] == R.CloseEcho(SentPayload(ce)))
  }

  lemma PeerOfOpen(e: Endpoint, s: State, h: History, f: Frame, cfg: R.Config, sizes: nat -> nat -> nat)
    requires Inv(e, s) && Plain(e, s) && WireOk(s.g) && LogRecorded(s.g.log, h) && h.closing == None
    requires NextFrame(e, s.g, f) && s.g.torn <= EncodeFrame(f)
    requires Messages(FramesOf(s.g.log) + [f]) == if s.g.torn == [] then Carried(h) else h.expected
    requires cfg.client == !e.client && cfg.limit < 0 && forall j :: R.Positive(sizes(j))
    ensures PeerHas(s.g, h, R.ReadMessages(cfg, R.Start(WireOf(s.g)), sizes, 0))
  {
    hide EncodeAll, EncodeFrame, Messages, WholeMessages, WellFormed, EndsInside;
    hide Good, PlaceOf, TokensOk, Of, R.ReadMessages, Begins;
    hide FramesOf, FinalFlushed, FinalWithin, Plain, Carried, PartOfFrame, CloseLast, SentPayload;
    var g := s.g;
    var frames := FramesOf(g.log);
    ToldIsWhole(g.log, h);
    GoodIsWellFormed(g.log);
    WellFormedSnoc(false, frames, f);
    WireIsPrefix(g, f);
    FlushedFrames(g);
    OneMore(frames, f);
    assert RoundTrip.AllFromPeer(cfg, frames) && Sessions.Plain(frames) by {
      FramesFromPeer(e, s, cfg, |g.log|);
      assert |frames| == |g.log| by { SizeOfFrames(g.log); }
      assert frames[..|frames|] == frames;
    }
    PrefixIsRead(cfg, frames, f, g.flushed, sizes);
    var messages := R.ReadMessages(cfg, R.Start(WireOf(g)), sizes, 0).messages;
    assert |messages| <= |Messages(frames + [f])| by { BeginsSize(messages, Messages(frames + [f])); }
  }

  /** With nothing torn any control frame will do for the frame under way. */
  lemma PingIsNext(e: Endpoint, g: Shared, h: History) returns (f: Frame)
    requires g.torn == [] && LogRecorded(g.log, h) && Good(g.log)
    ensures NextFrame(e, g, f) && g.torn <= EncodeFrame(f) && Messages(FramesOf(g.log) + [f]) == Carried(h)
  {
    hide EncodeFrame, PlaceOf, Messages, Good, WellFormed, EndsInside, CloseRecorded;
    f := Frame(true, false, PING, e.client, 0, []);
    GoodIsWellFormed(g.log);
    MessagesSnoc(FramesOf(g.log), f);
  }

  lemma SizeOfFrames(log: seq<Sent>)
    ensures |FramesOf(log)| == |log|
  {
  }

  lemma BeginsSize(a: seq<Message>, b: seq<Message>)
    requires Begins(a, b)
    ensures |a| <= |b|
  {
  }

  lemma PeerOfClosed(e: Endpoint, s: State, h: History, cfg: R.Config, sizes: nat -> nat -> nat)
    requires Inv(e, s) && Plain(e, s) && WireOk(s.g) && LogRecorded(s.g.log, h) && h.closing.Some?
    requires cfg.client == !e.client && cfg.limit < 0 && forall j :: R.Positive(sizes(j))
    ensures PeerHas(s.g, h, R.ReadMessages(cfg, R.Start(WireOf(s.g)), sizes, 0))
  {
    hide EncodeAll, EncodeFrame, Messages, WholeMessages, WellFormed, EndsInside;
    hide Good, PlaceOf, TokensOk, Of, R.ReadMessages, Begins;
    hide FramesOf, FinalFlushed, Carried, PartOfFrame, Serves, SentPayload, ParseClosePayload, RoundTrip.Replies;
    var g := s.g;
    var n := |g.log| - 1;
    var x := g.log[n];
    assert x in g.log;
    CloseIsFlushed(e, s, x);
    SizeOfFrames(g.log);
    var front, frames := FramesOf(g.log)[..n], FramesOf(g.log);
    assert frames == front + [x.frame] by { LastOfFrames(g.log); }
    FramesFromPeer(e, s, cfg, n);
    ToldIsWhole(g.log, h);
    GoodIsWellFormed(g.log);
    WellFormedSnoc(false, front, x.frame);
    WholeStays(front, [x.frame]);
    EncodeAllSnoc(front, x.frame);
    assert EncodeFrame(x.frame) + [] == EncodeFrame(x.frame);
    assert WireOf(g) == EncodeAll(front) + (EncodeFrame(x.frame) + []);
    CloseArrives(cfg, front, x.frame, h.closing.value, [], sizes);
    ToldIsFirst(h);
    PrefixBegins(h.told, Carried(h)[|h.told|..]);
  }

  lemma LastOfFrames(log: seq<Sent>)
    requires log != []
    ensures |FramesOf(log)| == |log| && FramesOf(log) == FramesOf(log)[..|log| - 1] + [log[|log| - 1].frame]
  {
  }

  lemma ToldIsFirst(h: History)
    ensures |h.told| <= |Carried(h)| && h.told + Carried(h)[|h.told|..] == Carried(h)
  {
  }

  /** In every state of every run, for any interleaving of the calls and any sizes of the read buffers: the peer that
      reads what was given to the connection gets every message that calls have completed, whole and in order, and at
      most one more, the beginning of what calls were asked to send of the message under way; exactly what was asked for
      when nothing is in the buffer; and when a close frame was written, all completed messages, the code and the reason
      that Close was asked to send, as SentPayloadParses gives them, and it sends the same octets back. */
  lemma PeerReadsTheCalls(
    e: Endpoint, run: seq<State>, steps: seq<Step>, i: nat, cfg: R.Config, sizes: nat -> nat -> nat)
    requires !e.compress && Run(e, run, steps) && i < |run|
    requires cfg.client == !e.client && cfg.limit < 0 && forall j :: R.Positive(sizes(j))
    ensures var g := run[i].g;
            && g.flushed <= |g.stream|
            && PeerHas(g, HistoryOf(run, steps, i), R.ReadMessages(cfg, R.Start(WireOf(g)), sizes, 0))
            && SameHistory(HistoryOf(run, steps, i), Heard(Order(DiaryOf(run, steps, i))))
  {
    hide DiaryOf, Order, Heard, ControlsIn, ControlsFor;
    RunHearing(e, run, steps, i);
    hide HistoryOf, PeerHas, R.ReadMessages, Inv, Plain, Next, LogRecorded;
    hide NextFrame, Messages, FramesOf, EncodeFrame, Carried, Good;
    RunKeepsInv(e, run, steps, i);
    RunIsPlain(e, run, steps, i);
    RunWireOk(e, run, steps, i);
    RunExpecting(e, run, steps, i);
    RunRecorded(e, run, steps, i);
    var g, h := run[i].g, HistoryOf(run, steps, i);
    if h.closing.Some? {
      PeerOfClosed(e, run[i], h, cfg, sizes);
    } else {
      var f: Frame;
      if g.torn == [] {
        assert Good(g.log) by { InvIsGood(e, run[i]); }
        f := PingIsNext(e, g, h);
      } else {
        f :| Begun(e, g, h, f);
      }
      PeerOfOpen(e, run[i], h, f, cfg, sizes);
    }
  }

  lemma InvIsGood(e: Endpoint, s: State)
    requires Inv(e, s)
    ensures Good(s.g.log)
  {
  }

  /** Nothing is torn between calls. */
  lemma NothingTorn(e: Endpoint, s: State)
    requires Inv(e, s) && !s.g.closed && forall t | 0 <= t < |s.threads| :: s.threads[t].call.Idle?
    ensures s.g.torn == []
  {
    hide LogOk, FlateOf, StreamOf, CloseOf, MessageOf, PlaceOf, CloseFree;
    forall t | 0 <= t < |s.threads|
      ensures s.g.frameMu != Some(Thread(t))
    {
      assert Of(e, s.g, t, s.threads[t]);
    }
  }

  lemma AllTold(told: seq<Message>, read: seq<Message>)
    requires told <= read && Begins(read, told)
    ensures read == told
  {
  }

  /** When every call is back with its caller, on a connection on which no close was asked for: the peer that reads what
      was given to the connection gets all the messages that were called for, whole and in an order that is the order of
      every single thread's calls, and of a message that is not closed a beginning of its Writes; all of them when
      nothing is in the buffer. */
  lemma PeerReadsEveryCall(
    e: Endpoint, run: seq<State>, steps: seq<Step>, i: nat, cfg: R.Config, sizes: nat -> nat -> nat)
    requires !e.compress && Run(e, run, steps) && i < |run| && !run[i].g.closed && run[i].g.wroteClose == None
    requires forall t | 0 <= t < |run[i].threads| :: run[i].threads[t].call.Idle?
    requires cfg.client == !e.client && cfg.limit < 0 && forall j :: R.Positive(sizes(j))
    ensures var g, order := run[i].g, Order(DiaryOf(run, steps, i));
            && g.flushed <= |g.stream|
            && var read := R.ReadMessages(cfg, R.Start(WireOf(g)), sizes, 0).messages;
               && Heard(order).told <= read && Begins(read, Carried(Heard(order)))
               && (Heard(order).open == None || g.flushed == |g.stream| ==> read == Carried(Heard(order)))
               && forall t | 0 <= t < |run[i].threads| :: AnsweredTo(order, t) == MadeBy(steps[..i], t)
  {
    hide DiaryOf, Order, Heard, HistoryOf, R.ReadMessages, Begins, Inv, Next, AnsweredTo, MadeBy;
    PeerReadsTheCalls(e, run, steps, i, cfg, sizes);
    RunKeepsInv(e, run, steps, i);
    NothingTorn(e, run[i]);
    var h, k := HistoryOf(run, steps, i), Heard(Order(DiaryOf(run, steps, i)));
    var read := R.ReadMessages(cfg, R.Start(WireOf(run[i].g)), sizes, 0).messages;
    assert h.closing == None by { NotClosing(e, run, steps, i); }
    assert Carried(h) == Carried(k);
    if k.open == None {
      assert Carried(k) == k.told + [] == k.told;
      AllTold(k.told, read);
    }
    forall t | 0 <= t < |run[i].threads|
      ensures AnsweredTo(Order(DiaryOf(run, steps, i)), t) == MadeBy(steps[..i], t)
    {
      EveryCallIsAnswered(e, run, steps, i, t);
    }
  }

  lemma NotClosing(e: Endpoint, run: seq<State>, steps: seq<Step>, i: nat)
    requires Run(e, run, steps) && i < |run| && run[i].g.wroteClose == None
    ensures HistoryOf(run, steps, i).closing == None
  {
    hide HistoryOf, Of, LogOk, PlaceOf, Next, Carried, Messages, FramesOf;
    RunKeepsInv(e, run, steps, i);
    FramesCarryTheCalls(e, run, steps, i);
    assert CloseFree(run[i].g.log);
  }
}
