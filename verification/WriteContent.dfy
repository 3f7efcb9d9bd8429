/** What the calls were asked to send is what is sent. */
module WriteContent {
  import opened Octets
  import opened FrameHeader
  import opened CloseFrame
  import opened Frames
  import opened WriteProtocol
  import opened WriteInvariant
  import opened WriteSteps
  import opened WriteSafety
  import MF = MessageFrames

  /** A frame does what a call was asked to do. */
  predicate Serves(c: Call, fin: bool, opcode: Opcode, payload: seq<byte>) {
    match c
    case Control(op, p) => fin && opcode == op && payload == p
    case CloseSend(ce) => fin && opcode == CLOSE && payload == SentPayload(ce)
    case Whole(msg) => fin && msg.WholeTask? && opcode == msg.typ && payload == msg.p
    case Direct(p) => !fin && IsData(opcode) && payload == p
    case ChunkFrame(_, p) => !fin && IsData(opcode) && payload == p
    case Final => fin && IsData(opcode) && payload == []
    case _ => false
  }

  /** Frame number at is the one frame that thread t wrote since it was given the job, and it is the frame of the
      job. */
  predicate OwnFrame(e: Endpoint, log: seq<Sent>, t: nat, j: Job, at: nat) {
    && j.since <= at < |log| && log[at].writer == t && log[at].frame == FrameOf(e, j, log[at].frame.key)
    && forall k | j.since <= k < |log| && log[k].writer == t :: k == at
  }

  predicate NoneSince(log: seq<Sent>, t: nat, since: nat) {
    forall k | since <= k < |log| :: log[k].writer != t
  }

  ghost predicate ContentOf(e: Endpoint, log: seq<Sent>, t: nat, l: Local) {
    && (l.pc != Out ==>
          Serves(l.call, l.pc.job.fin, l.pc.job.opcode, l.pc.job.payload) && l.pc.job.since <= |log|)
    && (BeforeSend(l.pc) ==> NoneSince(log, t, l.pc.job.since))
    && (AfterSend(l.pc) ==> exists at :: OwnFrame(e, log, t, l.pc.job, at))
    && (l.call.Reset? || l.call.HaveMsg? || l.call.WantMsg? ==> IsMessageStart(l.call.msg.typ))
  }

  ghost predicate Content(e: Endpoint, s: State) {
    forall t | 0 <= t < |s.threads| :: ContentOf(e, s.g.log, t, s.threads[t])
  }

  /** A frame of another thread changes nothing. */
  lemma OtherSent(e: Endpoint, log: seq<Sent>, x: Sent, t: nat, l: Local)
    requires ContentOf(e, log, t, l) && x.writer != t
    ensures ContentOf(e, log + [x], t, l)
  {
    hide Serves, FrameOf;
    if AfterSend(l.pc) {
      var at :| OwnFrame(e, log, t, l.pc.job, at);
      assert OwnFrame(e, log + [x], t, l.pc.job, at);
    }
  }

  lemma CompleteOwns(e: Endpoint, log: seq<Sent>, t: nat, l: Local)
    requires ContentOf(e, log, t, l) && ShapeOf(e, l) && l.pc.Emitting?
    ensures OwnFrame(e, log + [Sent(l.pc.frame, l.pc.job.deflated, t)], t, l.pc.job, |log|)
  {
    hide JobFits, Serves, FrameOf;
  }

  lemma ContentFrame(e: Endpoint, t: nat, g: Shared, l: Local, a: FrameAction)
    requires CanFrame(g, l, a) && ShapeOf(e, l) && ContentOf(e, g.log, t, l)
    ensures var x := DoFrame(e, t, g, l, a); ContentOf(e, x.g.log, t, x.l)
  {
    hide EncodeFrame, JobFits, Serves, FrameOf, OwnFrame, NoneSince;
    if a.Complete? {
      CompleteOwns(e, g.log, t, l);
    }
  }

  lemma ContentCall(e: Endpoint, t: nat, g: Shared, l: Local, a: CallAction)
    requires CanCall(e, g, l, a) && ContentOf(e, g.log, t, l) && IsData(g.opcode)
    ensures var x := DoCall(e, t, g, l, a); ContentOf(e, g.log, t, x.l)
  {
    hide SentPayload, OwnFrame;
  }

  lemma ContentStep(e: Endpoint, s: State, s': State, step: Step)
    requires Inv(e, s) && Content(e, s) && Next(e, s, s', step)
    ensures Content(e, s')
  {
    hide LogOk, LocksOf, FlateOf, StreamOf, CloseOf, MessageOf, ShapeOf, DoFrame, DoCall, ContentOf, CanFrame, CanCall;
    forall u | 0 <= u < |s'.threads|
      ensures ContentOf(e, s'.g.log, u, s'.threads[u])
    {
      match step
      case FrameStep(t, a) =>
        assert Of(e, s.g, t, s.threads[t]);
        if u == t {
          ContentFrame(e, t, s.g, s.threads[t], a);
        } else {
          LogOfFrame(e, t, s.g, s.threads[t], a);
          if a.Complete? {
            OtherSent(e, s.g.log, s'.g.log[|s.g.log|], u, s.threads[u]);
          }
        }
      case CallStep(t, a) =>
        CallSendsNothing(e, t, s.g, s.threads[t], a);
        ContentCall(e, t, s.g, s.threads[t], a);
      case _ =>
    }
  }

  lemma LogOfFrame(e: Endpoint, t: nat, g: Shared, l: Local, a: FrameAction)
    requires CanFrame(g, l, a)
    ensures var log := DoFrame(e, t, g, l, a).g.log;
            if a.Complete? then log == g.log + [Sent(l.pc.frame, l.pc.job.deflated, t)] else log == g.log
  {
    hide EncodeFrame;
  }

  lemma InitContent(e: Endpoint, s: State)
    requires Init(s)
    ensures Content(e, s)
  {
  }

  lemma {:induction false} RunContent(e: Endpoint, run: seq<State>, steps: seq<Step>, i: nat)
    requires Run(e, run, steps) && i < |run|
    ensures Content(e, run[i])
  {
    hide Inv, Init, Next, Content;
    if i == 0 {
      InitContent(e, run[0]);
    } else {
      RunContent(e, run, steps, i - 1);
      RunKeepsInv(e, run, steps, i - 1);
      ContentStep(e, run[i - 1], run[i], steps[i - 1]);
    }
  }

  /** A call that succeeds has written one frame, its own, with the type and the octets that it was given, whatever the
      other threads did; and if the frame is final, it and all frames before it have been given to the connection. The
      frame of a call that is not final may still be in the buffer. */
  lemma SuccessMeansSent(e: Endpoint, run: seq<State>, steps: seq<Step>, i: nat, t: nat) returns (at: nat)
    requires Run(e, run, steps) && i < |run| && t < |run[i].threads|
    requires var pc := run[i].threads[t].pc; pc.Done? && pc.ok
    ensures var g, l := run[i].g, run[i].threads[t];
            && OwnFrame(e, g.log, t, l.pc.job, at)
            && var f := g.log[at].frame;
               && Serves(l.call, f.fin, f.opcode, f.payload) && f.masked == e.client
               && g.flushed <= |g.stream|
               && (f.fin ==> EncodeAll(FramesOf(g.log[..at + 1])) <= WireOf(g))
  {
    hide Next, Content, Inv, WireOk, ContentOf, OwnFrame, Serves, EncodeAll, FramesOf;
    RunContent(e, run, steps, i);
    RunKeepsInv(e, run, steps, i);
    RunWireOk(e, run, steps, i);
    at := OwnIsFlushed(e, run[i], t);
  }

  lemma OwnIsFlushed(e: Endpoint, s: State, t: nat) returns (at: nat)
    requires Inv(e, s) && Content(e, s) && WireOk(s.g) && t < |s.threads| && s.threads[t].pc.Done? && s.threads[t].pc.ok
    ensures var g, l := s.g, s.threads[t];
            && OwnFrame(e, g.log, t, l.pc.job, at)
            && var f := g.log[at].frame;
               && Serves(l.call, f.fin, f.opcode, f.payload) && f.masked == e.client
               && g.flushed <= |g.stream|
               && (f.fin ==> EncodeAll(FramesOf(g.log[..at + 1])) <= WireOf(g))
  {
    hide Inv, Serves, EncodeAll, FramesOf;
    var g, l := s.g, s.threads[t];
    assert ContentOf(e, g.log, t, l);
    at :| OwnFrame(e, g.log, t, l.pc.job, at);
    WholeFramesFirst(e, s, at + 1);
  }

  /** The first k frames are the beginning of the stream. */
  lemma WholeFramesFirst(e: Endpoint, s: State, k: nat)
    requires Inv(e, s) && k <= |s.g.log|
    ensures EncodeAll(FramesOf(s.g.log[..k])) <= s.g.stream
  {
    hide EncodeAll, Of, TokensOk, PartOfFrame, Good, CloseLast;
    var log := s.g.log;
    assert FramesOf(log) == FramesOf(log[..k]) + FramesOf(log[k..]);
    EncodeAllAppend(FramesOf(log[..k]), FramesOf(log[k..]));
  }

  // ----- the messages on the wire are the messages that were asked for -----

  /** The messages that calls have completed, the message under way, the type that Writer or Write set last, the code
      and reason of the close frame that was written, and what all the messages will be when the frame that was begun
      last has gone out. All of it comes from the arguments of the calls. */
  datatype History =
    History(typ: Opcode, told: seq<Message>, open: Option<Message>, closing: Option<CloseError>, expected: seq<Message>)

  function WithMore(h: History, p: seq<byte>): Message {
    match h.open
    case None => Message(h.typ, p)
    case Some(m) => Message(m.typ, m.data + p)
  }

  /** A call whose frame goes out. */
  function Committed(h: History, c: Call): History {
    match c
    case Whole(msg) => if msg.WholeTask? then h.(told := h.told + [Message(msg.typ, msg.p)]) else h
    case Direct(p) => h.(open := Some(WithMore(h, p)))
    case ChunkFrame(_, p) => h.(open := Some(WithMore(h, p)))
    case Final => h.(told := h.told + [WithMore(h, [])], open := None)
    case CloseSend(ce) => h.(closing := Some(ce))
    case _ => h
  }

  function Recorded(h: History, s: State, step: Step): History {
    match step
    case FrameStep(t, a) =>
      if a.Complete? && t < |s.threads| then Committed(h, s.threads[t].call)
      else if a.Begin? && t < |s.threads| then h.(expected := Carried(Committed(h, s.threads[t].call)))
      else h
    case CallStep(t, a) =>
      if a.DoReset? && t < |s.threads| && s.threads[t].call.Reset? then h.(typ := s.threads[t].call.msg.typ) else h
    case _ => h
  }

  function HistoryOf(run: seq<State>, steps: seq<Step>, i: nat): History
    requires i <= |steps| < |run|
  {
    if i == 0 then History(TEXT, [], None, None, [])
    else Recorded(HistoryOf(run, steps, i - 1), run[i - 1], steps[i - 1])
  }

  function Carried(h: History): seq<Message> {
    h.told + match h.open case None => [] case Some(m) => [m]
  }

  predicate InMessage(c: Call) {
    c.Direct? || c.ChunkFrame? || c.Final?
  }

  /** The first frame of a message has the type that was set for it. */
  predicate TypeOf(h: History, l: Local) {
    InMessage(l.call) && l.pc != Out && IsMessageStart(l.pc.job.opcode) ==> l.pc.job.opcode == h.typ
  }

  ghost predicate LogRecorded(log: seq<Sent>, h: History) {
    && Messages(FramesOf(log)) == Carried(h) && (h.open.Some? <==> PlaceOf(log).Inside?)
    && CloseRecorded(log, h.closing)
  }

  predicate CloseRecorded(log: seq<Sent>, closing: Option<CloseError>) {
    match closing
    case None => CloseFree(log)
    case Some(ce) => log != [] && var f := log[|log| - 1].frame; f.opcode == CLOSE && f.payload == SentPayload(ce)
  }

  ghost predicate Recording(s: State, h: History) {
    && LogRecorded(s.g.log, h)
    && (IsMessageStart(s.g.opcode) ==> s.g.opcode == h.typ)
    && forall t | 0 <= t < |s.threads| :: TypeOf(h, s.threads[t])
  }

  /** What one more frame in the log carries. */
  lemma LogSnoc(log: seq<Sent>, x: Sent)
    requires Good(log + [x])
    ensures var inside := PlaceOf(log).Inside?;
            && MayFollow(inside, x.frame)
            && PlaceOf(log + [x]) == PlaceAfter(PlaceOf(log), x)
            && (inside ==> Messages(FramesOf(log)) != [])
            && Messages(FramesOf(log + [x])) ==
               if IsControl(x.frame.opcode) then Messages(FramesOf(log))
               else if inside then MF.Extended(Messages(FramesOf(log)), x.frame.payload)
               else Messages(FramesOf(log)) + [Message(x.frame.opcode, x.frame.payload)]
  {
    hide Messages, WellFormed, EndsInside, Good;
    SentOne(log, x);
    GoodIsWellFormed(log);
    GoodIsWellFormed(log + [x]);
    assert FramesOf(log + [x]) == FramesOf(log) + [x.frame];
    WellFormedSnoc(false, FramesOf(log), x.frame);
    MF.MessagesSnoc(FramesOf(log), x.frame);
  }

  lemma ExtendedLast(told: seq<Message>, m: Message, p: seq<byte>)
    ensures MF.Extended(told + [m], p) == told + [Message(m.typ, m.data + p)]
  {
  }

  /** When the frame that a thread is emitting is written, the log carries what the call was asked to send. */
  lemma FrameRecords(e: Endpoint, t: nat, g: Shared, l: Local, h: History)
    requires l.pc.Emitting? && ShapeOf(e, l) && ContentOf(e, g.log, t, l) && TypeOf(h, l) && LogRecorded(g.log, h)
    requires Good(g.log + [Sent(l.pc.frame, l.pc.job.deflated, t)]) && CloseFree(g.log)
    ensures LogRecorded(g.log + [Sent(l.pc.frame, l.pc.job.deflated, t)], Committed(h, l.call))
  {
    hide EncodeFrame, SentPayload, OwnFrame, FramesOf, Messages, PlaceOf, Good, MF.Extended, CloseRecorded;
    var x := Sent(l.pc.frame, l.pc.job.deflated, t);
    LogSnoc(g.log, x);
    if h.open.Some? {
      ExtendedLast(h.told, h.open.value, x.frame.payload);
    }
    CloseFrameRecorded(e, g.log, t, l, h);
  }

  lemma CompleteRecords(e: Endpoint, t: nat, g: Shared, l: Local, h: History)
    requires CanFrame(g, l, Complete) && ShapeOf(e, l) && ContentOf(e, g.log, t, l)
    requires TypeOf(h, l) && LogRecorded(g.log, h)
    requires Good(DoFrame(e, t, g, l, Complete).g.log) && CloseFree(g.log)
    ensures LogRecorded(DoFrame(e, t, g, l, Complete).g.log, Committed(h, l.call))
  {
    hide EncodeFrame, ShapeOf, ContentOf, TypeOf, LogRecorded, Good, Committed, CloseFree;
    FrameRecords(e, t, g, l, h);
  }

  lemma CloseFrameRecorded(e: Endpoint, log: seq<Sent>, t: nat, l: Local, h: History)
    requires ShapeOf(e, l) && ContentOf(e, log, t, l) && l.pc.Emitting?
    requires CloseFree(log) && CloseRecorded(log, h.closing)
    ensures CloseRecorded(log + [Sent(l.pc.frame, l.pc.job.deflated, t)], Committed(h, l.call).closing)
  {
    hide SentPayload, OwnFrame, NoneSince;
    var all := log + [Sent(l.pc.frame, l.pc.job.deflated, t)];
    assert h.closing == None;
    assert forall i | 0 <= i < |log| :: all[i] == log[i];
  }

  /** The other steps of writeFrame. */
  lemma FrameKeepsType(e: Endpoint, t: nat, g: Shared, l: Local, a: FrameAction, h: History)
    requires CanFrame(g, l, a) && TypeOf(h, l)
    ensures var x := DoFrame(e, t, g, l, a);
            x.g.opcode == g.opcode && TypeOf(h, x.l) && (!a.Complete? ==> x.g.log == g.log)
  {
    hide EncodeFrame;
  }

  /** The steps outside writeFrame. */
  lemma CallKeepsType(e: Endpoint, t: nat, g: Shared, l: Local, a: CallAction, h: History)
    requires CanCall(e, g, l, a) && TypeOf(h, l) && (IsMessageStart(g.opcode) ==> g.opcode == h.typ)
    ensures var x := DoCall(e, t, g, l, a);
            var h' := if a.DoReset? then h.(typ := l.call.msg.typ) else h;
            (IsMessageStart(x.g.opcode) ==> x.g.opcode == h'.typ) && TypeOf(h', x.l) && (a.DoReset? ==> l.call.Reset?)
  {
    hide SentPayload, DoCheck, DoReturn;
    if a.CheckWriter? {
      CheckKeepsType(g, l.call.task, a.big, h);
    } else if a.Return? {
      ReturnKeepsType(g, l.call, l.pc.ok, h);
    }
  }

  lemma CheckKeepsType(g: Shared, task: HandleTask, big: bool, h: History)
    requires IsMessageStart(g.opcode) ==> g.opcode == h.typ
    ensures var x := DoCheck(g, task, big); x.g.opcode == g.opcode && TypeOf(h, x.l)
  {
  }

  lemma ReturnKeepsType(g: Shared, call: Call, ok: bool, h: History)
    ensures var x := DoReturn(g, call, ok); (IsMessageStart(x.g.opcode) ==> x.g.opcode == g.opcode) && TypeOf(h, x.l)
  {
  }

  /** While a thread opens a message, no other is inside one. */
  lemma OneMessage(g: Shared, t: nat, l: Local, u: nat, m: Local, h: History)
    requires TokensOk(g) && LocksOf(g, t, l) && LocksOf(g, u, m) && l.call.Reset?
    ensures TypeOf(h, m)
  {
    hide PlaceOf, CloseFree;
  }

  lemma EmittingIsFree(g: Shared, t: nat, l: Local)
    requires CloseOf(g, t, l) && CanFrame(g, l, Complete)
    ensures CloseFree(g.log)
  {
  }

  lemma TypeIsAhead(log: seq<Sent>, h: History, typ: Opcode)
    requires LogRecorded(log, h)
    ensures LogRecorded(log, h.(typ := typ))
  {
  }

  lemma RecordStep(e: Endpoint, s: State, s': State, step: Step, h: History)
    requires Inv(e, s) && Inv(e, s') && Content(e, s) && Recording(s, h) && Next(e, s, s', step)
    ensures Recording(s', Recorded(h, s, step))
  {
    hide DoFrame, DoCall, ContentOf, CanFrame, CanCall, LogRecorded, ShapeOf, LocksOf, TypeOf, TokensOk, Good;
    hide FlateOf, StreamOf, CloseOf, MessageOf, Committed;
    match step
    case FrameStep(t, a) =>
      var l := s.threads[t];
      assert Of(e, s.g, t, l);
      FrameKeepsType(e, t, s.g, l, a, h);
      CommittedType(h, l.call, l);
      if a.Complete? {
        assert CloseFree(s.g.log) by { EmittingIsFree(s.g, t, l); }
        CompleteRecords(e, t, s.g, l, h);
      } else {
        ExpectedIsApart(s.g.log, h, Recorded(h, s, step).expected);
      }
      forall u | 0 <= u < |s'.threads|
        ensures TypeOf(Recorded(h, s, step), s'.threads[u])
      {
        CommittedType(h, l.call, s'.threads[u]);
        TypeApart(h, Recorded(h, s, step).expected, s'.threads[u]);
      }
    case CallStep(t, a) =>
      var l := s.threads[t];
      assert Of(e, s.g, t, l);
      CallKeepsType(e, t, s.g, l, a, h);
      CallSendsNothing(e, t, s.g, l, a);
      if a.DoReset? {
        TypeIsAhead(s.g.log, h, l.call.msg.typ);
      }
      forall u | 0 <= u < |s'.threads|
        ensures TypeOf(Recorded(h, s, step), s'.threads[u])
      {
        assert Of(e, s.g, u, s.threads[u]);
        if u != t && a.DoReset? {
          OneMessage(s.g, t, l, u, s.threads[u], Recorded(h, s, step));
        }
      }
    case _ =>
  }

  lemma ExpectedIsApart(log: seq<Sent>, h: History, expected: seq<Message>)
    requires LogRecorded(log, h)
    ensures LogRecorded(log, h.(expected := expected))
  {
  }

  lemma TypeApart(h: History, expected: seq<Message>, l: Local)
    ensures TypeOf(h.(expected := expected), l) == TypeOf(h, l)
  {
  }

  lemma CommittedType(h: History, c: Call, l: Local)
    ensures TypeOf(Committed(h, c), l) == TypeOf(h, l)
    ensures Committed(h, c).typ == h.typ
  {
  }

  lemma {:induction false} RunRecorded(e: Endpoint, run: seq<State>, steps: seq<Step>, i: nat)
    requires Run(e, run, steps) && i < |run|
    ensures Recording(run[i], HistoryOf(run, steps, i))
  {
    hide Inv, Init, Next, Content, Recording, Recorded;
    if i == 0 {
      InitRecorded(run[0]);
    } else {
      RunRecorded(e, run, steps, i - 1);
      RunKeepsInv(e, run, steps, i - 1);
      RunKeepsInv(e, run, steps, i);
      RunContent(e, run, steps, i - 1);
      RecordStep(e, run[i - 1], run[i], steps[i - 1], HistoryOf(run, steps, i - 1));
    }
  }

  lemma InitRecorded(s: State)
    requires Init(s)
    ensures Recording(s, History(TEXT, [], None, None, []))
  {
    assert FramesOf([]) == [] && PlaceOf([]) == Between;
  }

  /** In every reachable state the frames that were written carry the messages that the calls were asked to send:
      message by message and octet by octet, in the order in which their last frames went out, and then what there is of
      the message under way. Calls of different threads never mix. */
  lemma FramesCarryTheCalls(e: Endpoint, run: seq<State>, steps: seq<Step>, i: nat)
    requires Run(e, run, steps) && i < |run|
    ensures var h := HistoryOf(run, steps, i);
            && Messages(FramesOf(run[i].g.log)) == Carried(h)
            && (h.closing.Some? <==> exists x | x in run[i].g.log :: x.frame.opcode == CLOSE)
  {
    hide HistoryOf, Carried, Messages, PlaceOf, Next;
    RunRecorded(e, run, steps, i);
    var g := run[i].g;
    if HistoryOf(run, steps, i).closing.Some? {
      assert g.log[|g.log| - 1] in g.log;
    }
  }
}
