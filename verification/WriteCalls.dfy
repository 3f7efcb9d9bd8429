/** Every call that was made is a call that was answered: nothing that a caller asked for is lost. */
module WriteCalls {
  import opened Octets
  import opened FrameHeader
  import opened CloseFrame
  import opened Frames
  import opened WriteProtocol
  import opened WriteInvariant
  import opened WriteSafety
  import opened WriteContent

  // ----- the diary of a run -----

  /** The calls with their arguments. */
  predicate IsCall(a: CallAction) {
    a.StartControl? || a.StartClose? || a.StartMsg? || a.StartWrite?
  }

  /** Thread t made a call, or what it last called for was done: the one frame of the call was written, the message was
      opened, or the deflater took the octets. */
  datatype Entry = Made(t: nat, call: CallAction) | Answered(t: nat, call: CallAction)

  function LastOf(diary: seq<Entry>, t: nat): Option<Entry> {
    if diary == [] then None
    else if diary[|diary| - 1].t == t then Some(diary[|diary| - 1])
    else LastOf(diary[..|diary| - 1], t)
  }

  function CallEntry(last: Option<Entry>, t: nat, a: CallAction): seq<Entry> {
    if IsCall(a) then [Made(t, a)]
    else if last.None? then []
    else
      var call := last.value.call;
      var opens := a.DoReset? && call.StartMsg? && call.msg.OpenTask?;
      var deflated := a.ChunksEnd? && call.StartWrite? && call.task.WriteTask?;
      if opens || deflated then [Answered(t, call)] else []
  }

  function FrameEntry(last: Option<Entry>, t: nat, c: Call, a: FrameAction): seq<Entry> {
    if a.Complete? && !c.ChunkFrame? && last.Some? then [Answered(t, last.value.call)] else []
  }

  function EntryOf(diary: seq<Entry>, s: State, step: Step): seq<Entry> {
    match step
    case FrameStep(t, a) =>
      if t < |s.threads| then FrameEntry(LastOf(diary, t), t, s.threads[t].call, a) else []
    case CallStep(t, a) => CallEntry(LastOf(diary, t), t, a)
    case _ => []
  }

  function DiaryOf(run: seq<State>, steps: seq<Step>, i: nat): seq<Entry>
    requires i <= |steps| < |run|
  {
    if i == 0 then []
    else
      var before := DiaryOf(run, steps, i - 1);
      before + EntryOf(before, run[i - 1], steps[i - 1])
  }

  function LastAfter(last: Option<Entry>, more: seq<Entry>): Option<Entry> {
    if more == [] then last else Some(more[|more| - 1])
  }

  lemma LastSnoc(diary: seq<Entry>, more: seq<Entry>, t: nat, u: nat)
    requires |more| <= 1 && (more != [] ==> more[0].t == t)
    ensures LastOf(diary + more, u) == if u == t then LastAfter(LastOf(diary, u), more) else LastOf(diary, u)
  {
    if more == [] {
      assert diary + more == diary;
    } else {
      assert (diary + more)[..|diary + more| - 1] == diary;
    }
  }

  // ----- what a thread was asked to do -----

  predicate OnHandle(a: CallAction, closing: bool) {
    a.StartWrite? && a.task.CloseTask? == closing
  }

  /** What a thread does is what it was asked to do. */
  predicate AskedFor(c: Call, a: CallAction) {
    match c
    case Idle => true
    case Control(op, p) => a == StartControl(op, p)
    case CloseTest(ce) => a == StartClose(ce)
    case CloseSend(ce) => a == StartClose(ce)
    case CloseEnd => a.StartClose?
    case WantMsg(msg) => a == StartMsg(msg)
    case HaveMsg(msg) => a == StartMsg(msg)
    case Reset(msg) => a == StartMsg(msg)
    case Whole(msg) => a == StartMsg(msg)
    case WantWrite(task) => a == StartWrite(task)
    case HaveWrite(task) => a == StartWrite(task)
    case Check(task) => a == StartWrite(task)
    case Direct(p) => a == StartWrite(WriteTask(p))
    case Chunks(closing) => OnHandle(a, closing)
    case ChunkFrame(closing, _) => OnHandle(a, closing)
    case Final => OnHandle(a, true)
    case FreeMsg => OnHandle(a, true)
    case WriteFail => OnHandle(a, false)
    case FreeWrite(closing) => OnHandle(a, closing)
  }

  /** A call may come back unanswered only on a connection that is closed or, unless it is a Write on a handle, that is
      about to be closed by a close frame. */
  predicate Excused(g: Shared, a: CallAction) {
    g.closed || (g.wroteClose.Some? && !OnHandle(a, false))
  }

  /** A frame that is not written has a reason. */
  predicate Stopped(g: Shared, pc: FramePc) {
    && (pc.Waiting? ==> g.wroteClose.Some? && pc.job.opcode != CLOSE)
    && (pc.Leaving? && !pc.ok ==> g.closed)
    && (pc.Done? && !pc.ok ==> g.closed || (g.wroteClose.Some? && pc.job.opcode != CLOSE))
  }

  /** Whether the call of a thread has been answered. */
  predicate Progress(g: Shared, l: Local, last: Entry) {
    match l.call
    case Idle => last.Made? ==> Excused(g, last.call)
    case CloseEnd => g.wroteClose.Some?
    case WriteFail => true
    case FreeWrite(_) => last.Made? ==> Excused(g, last.call)
    case FreeMsg => last.Answered?
    case _ =>
      if InFrame(l.call) && !l.call.ChunkFrame? then
        (BeforeSend(l.pc) || l.pc.Waiting? || l.pc.Failing? ==> last.Made?) && (AfterSend(l.pc) ==> last.Answered?)
      else last.Made?
  }

  predicate ClosesFirst(c: Call) {
    (c.WantWrite? || c.HaveWrite? || c.Check?) && c.task.CloseTask?
  }

  predicate ClosedWith(log: seq<Sent>, a: CallAction) {
    && log != [] && a.StartClose?
    && var f := log[|log| - 1].frame; f.fin && f.opcode == CLOSE && f.payload == SentPayload(a.ce)
  }

  /** The thread that is to send the close frame is sending it, or has sent it and waits for the peer. */
  predicate SendsClose(g: Shared, t: nat, l: Local, last: Option<Entry>) {
    g.wroteClose == Some(t) && !g.closed ==>
      && (l.call.CloseSend? || l.call.CloseEnd?)
      && (l.call.CloseEnd? ==> last.Some? && last.value.Answered? && ClosedWith(g.log, last.value.call))
  }

  predicate NotedOf(g: Shared, t: nat, l: Local, last: Option<Entry>) {
    && (l.call != Idle ==> last.Some?)
    && (last.Some? ==> last.value.t == t && AskedFor(l.call, last.value.call) && Progress(g, l, last.value))
    && Stopped(g, l.pc) && (ClosesFirst(l.call) ==> !g.mwClosed) && SendsClose(g, t, l, last)
  }

  predicate NotedShared(g: Shared, n: nat) {
    (g.handle == Open ==> !g.mwClosed) && (g.wroteClose.Some? ==> g.wroteClose.value < n)
  }

  ghost predicate Noting(s: State, diary: seq<Entry>) {
    && NotedShared(s.g, |s.threads|)
    && forall t | 0 <= t < |s.threads| :: NotedOf(s.g, t, s.threads[t], LastOf(diary, t))
  }

  // ----- the thread that takes a step -----

  /** When writeFrame has sent the close frame, it is the last one in the log. */
  lemma CloseIsLast(e: Endpoint, g: Shared, t: nat, l: Local, last: Option<Entry>)
    requires ContentOf(e, g.log, t, l) && CloseLast(g.log) && AfterSend(l.pc) && l.call.CloseSend?
    requires last.Some? && AskedFor(l.call, last.value.call)
    ensures ClosedWith(g.log, last.value.call)
  {
    hide SentPayload;
    var at :| OwnFrame(e, g.log, t, l.pc.job, at);
    assert at == |g.log| - 1;
  }

  lemma OwnFrameStep(e: Endpoint, t: nat, g: Shared, l: Local, a: FrameAction, last: Option<Entry>)
    requires CanFrame(g, l, a) && ShapeOf(e, l) && NotedOf(g, t, l, last)
    ensures var x := DoFrame(e, t, g, l, a); NotedOf(x.g, t, x.l, LastAfter(last, FrameEntry(last, t, l.call, a)))
  {
    hide EncodeFrame, SentPayload;
  }

  lemma OwnReturnClose(e: Endpoint, t: nat, g: Shared, l: Local, last: Option<Entry>)
    requires l.pc.Done? && l.call.CloseSend? && ShapeOf(e, l) && NotedOf(g, t, l, last)
    requires ContentOf(e, g.log, t, l) && CloseLast(g.log) && g.wroteClose == Some(t)
    ensures NotedOf(g, t, Local(CloseEnd, Out), last)
  {
    hide SentPayload, ContentOf, ClosedWith, CloseLast;
    if l.pc.ok {
      CloseIsLast(e, g, t, l, last);
    }
  }

  lemma OwnReturn(e: Endpoint, t: nat, g: Shared, l: Local, last: Option<Entry>)
    requires l.pc.Done? && ShapeOf(e, l) && NotedOf(g, t, l, last) && ContentOf(e, g.log, t, l) && CloseLast(g.log)
    requires l.call.CloseSend? ==> g.wroteClose == Some(t)
    ensures var x := DoReturn(g, l.call, l.pc.ok); NotedOf(x.g, t, x.l, last)
  {
    hide SentPayload, ContentOf, ClosedWith, JobFits, CloseLast;
    if l.call.CloseSend? {
      OwnReturnClose(e, t, g, l, last);
    } else if l.call.Direct? || l.call.ChunkFrame? || l.call.Final? {
      OwnReturnHandle(e, t, g, l, last);
    }
  }

  lemma OwnReturnHandle(e: Endpoint, t: nat, g: Shared, l: Local, last: Option<Entry>)
    requires l.pc.Done? && NotedOf(g, t, l, last) && (l.call.Direct? || l.call.ChunkFrame? || l.call.Final?)
    ensures var x := DoReturn(g, l.call, l.pc.ok); NotedOf(x.g, t, x.l, last)
  {
    hide ClosedWith;
  }

  lemma OwnCheck(t: nat, g: Shared, l: Local, big: bool, last: Option<Entry>)
    requires l.call.Check? && LocksOf(g, t, l) && NotedOf(g, t, l, last) && (g.handle == Open ==> !g.mwClosed)
    ensures var x := DoCheck(g, l.call.task, big); NotedOf(x.g, t, x.l, last)
  {
    hide SentPayload, ClosedWith;
  }

  lemma OwnStart(e: Endpoint, t: nat, g: Shared, l: Local, a: CallAction, last: Option<Entry>)
    requires CanCall(e, g, l, a) && IsCall(a) && NotedOf(g, t, l, last) && (g.handle == Open ==> !g.mwClosed)
    ensures var x := DoCall(e, t, g, l, a); NotedOf(x.g, t, x.l, Some(Made(t, a)))
  {
    hide SentPayload, ClosedWith, DoReturn, DoCheck;
  }

  lemma OwnMessage(e: Endpoint, t: nat, g: Shared, l: Local, a: CallAction, last: Option<Entry>)
    requires CanCall(e, g, l, a) && NotedOf(g, t, l, last)
    requires a.TakeMsgMu? || a.RecheckMsgMu? || a.DoReset? || a.ReleaseMsgMu? || a.TestAndSet? || a.CloseNow?
    ensures var x := DoCall(e, t, g, l, a); NotedOf(x.g, t, x.l, LastAfter(last, CallEntry(last, t, a)))
  {
    hide SentPayload, ClosedWith, DoReturn, DoCheck;
  }

  lemma OwnHandle(e: Endpoint, t: nat, g: Shared, l: Local, a: CallAction, last: Option<Entry>)
    requires CanCall(e, g, l, a) && NotedOf(g, t, l, last) && !IsCall(a) && !a.Return? && !a.CheckWriter?
    requires !a.TakeMsgMu? && !a.RecheckMsgMu? && !a.DoReset? && !a.ReleaseMsgMu? && !a.TestAndSet? && !a.CloseNow?
    ensures var x := DoCall(e, t, g, l, a); NotedOf(x.g, t, x.l, LastAfter(last, CallEntry(last, t, a)))
  {
    hide SentPayload, ClosedWith, DoReturn, DoCheck;
  }

  lemma OwnCallStep(e: Endpoint, t: nat, g: Shared, l: Local, a: CallAction, last: Option<Entry>)
    requires CanCall(e, g, l, a) && ShapeOf(e, l) && LocksOf(g, t, l) && NotedOf(g, t, l, last)
    requires ContentOf(e, g.log, t, l) && CloseLast(g.log) && (g.handle == Open ==> !g.mwClosed)
    requires l.call.CloseSend? ==> g.wroteClose == Some(t)
    ensures var x := DoCall(e, t, g, l, a); NotedOf(x.g, t, x.l, LastAfter(last, CallEntry(last, t, a)))
  {
    hide SentPayload, ContentOf, ClosedWith, DoReturn, DoCheck, NotedOf;
    if IsCall(a) {
      OwnStart(e, t, g, l, a, last);
    } else if a.Return? {
      OwnReturn(e, t, g, l, last);
    } else if a.CheckWriter? {
      OwnCheck(t, g, l, a.big, last);
    } else if a.TakeMsgMu? || a.RecheckMsgMu? || a.DoReset? || a.ReleaseMsgMu? || a.TestAndSet? || a.CloseNow? {
      OwnMessage(e, t, g, l, a, last);
    } else {
      OwnHandle(e, t, g, l, a, last);
    }
  }

  // ----- the other threads -----

  /** What the others can rely on when thread t takes a step. */
  predicate RelyNoted(g: Shared, g': Shared, t: nat) {
    && (g.closed ==> g'.closed) && (g.wroteClose.Some? ==> g'.wroteClose == g.wroteClose)
    && g'.wroteClose in {g.wroteClose, Some(t)} && (g'.mwClosed ==> g.mwClosed || g.handle == Closing(t))
    && (g'.log == g.log || CloseFree(g.log))
  }

  lemma OtherNoted(g: Shared, g': Shared, t: nat, u: nat, m: Local, last: Option<Entry>)
    requires RelyNoted(g, g', t) && t != u && LocksOf(g, u, m) && NotedOf(g, u, m, last)
    ensures NotedOf(g', u, m, last)
  {
    hide SentPayload;
  }

  lemma FrameReliedOn(e: Endpoint, t: nat, g: Shared, l: Local, a: FrameAction)
    requires CanFrame(g, l, a) && CloseOf(g, t, l)
    ensures var g' := DoFrame(e, t, g, l, a).g;
            RelyNoted(g, g', t) && g'.mwClosed == g.mwClosed && g'.handle == g.handle && g'.wroteClose == g.wroteClose
  {
    hide EncodeFrame, CloseFree;
  }

  lemma CallReliedOnNoted(e: Endpoint, t: nat, g: Shared, l: Local, a: CallAction)
    requires CanCall(e, g, l, a) && LocksOf(g, t, l) && (g.handle == Open ==> !g.mwClosed)
    ensures var g' := DoCall(e, t, g, l, a).g; RelyNoted(g, g', t) && (g'.handle == Open ==> !g'.mwClosed)
  {
    hide SentPayload, CloseFree, DoReturn, DoCheck, LocksOf;
    if a.CheckWriter? {
      CheckReliedOn(t, g, l, a.big);
    } else if a.Return? {
      ReturnReliedOn(t, g, l.call, l.pc.ok);
    }
  }

  lemma CheckReliedOn(t: nat, g: Shared, l: Local, big: bool)
    requires l.call.Check? && LocksOf(g, t, l) && (g.handle == Open ==> !g.mwClosed)
    ensures var g' := DoCheck(g, l.call.task, big).g; RelyNoted(g, g', t) && (g'.handle == Open ==> !g'.mwClosed)
  {
    hide CloseFree;
  }

  lemma ReturnReliedOn(t: nat, g: Shared, call: Call, ok: bool)
    requires g.handle == Open ==> !g.mwClosed
    ensures var g' := DoReturn(g, call, ok).g; RelyNoted(g, g', t) && (g'.handle == Open ==> !g'.mwClosed)
  {
    hide CloseFree;
  }

  lemma NoteStep(e: Endpoint, s: State, s': State, step: Step, diary: seq<Entry>)
    requires Inv(e, s) && Content(e, s) && Noting(s, diary) && Next(e, s, s', step)
    ensures Noting(s', diary + EntryOf(diary, s, step))
  {
    hide TokensOk, LocksOf, ShapeOf, FlateOf, StreamOf, CloseOf, MessageOf;
    hide DoFrame, DoCall, ContentOf, CanFrame, CanCall, NotedOf, RelyNoted, CallEntry, FrameEntry, LastOf;
    var more := EntryOf(diary, s, step);
    match step
    case FrameStep(t, a) =>
      var l := s.threads[t];
      assert Of(e, s.g, t, l);
      FrameReliedOn(e, t, s.g, l, a);
      EntryIsOwn(diary, s, step);
      forall u | 0 <= u < |s'.threads|
        ensures NotedOf(s'.g, u, s'.threads[u], LastOf(diary + more, u))
      {
        LastSnoc(diary, more, t, u);
        assert Of(e, s.g, u, s.threads[u]);
        if u == t {
          OwnFrameStep(e, t, s.g, l, a, LastOf(diary, t));
        } else {
          OtherNoted(s.g, s'.g, t, u, s.threads[u], LastOf(diary, u));
        }
      }
    case CallStep(t, a) =>
      var l := s.threads[t];
      assert Of(e, s.g, t, l);
      CallReliedOnNoted(e, t, s.g, l, a);
      EntryIsOwn(diary, s, step);
      InRangeAfter(s.g, s'.g, t, |s.threads|);
      forall u | 0 <= u < |s'.threads|
        ensures NotedOf(s'.g, u, s'.threads[u], LastOf(diary + more, u))
      {
        LastSnoc(diary, more, t, u);
        assert Of(e, s.g, u, s.threads[u]);
        if u == t {
          CloserIs(s.g, t, l);
          OwnCallStep(e, t, s.g, l, a, LastOf(diary, t));
        } else {
          OtherNoted(s.g, s'.g, t, u, s.threads[u], LastOf(diary, u));
        }
      }
    case _ =>
      assert diary + more == diary;
      forall u | 0 <= u < |s'.threads|
        ensures NotedOf(s'.g, u, s'.threads[u], LastOf(diary, u))
      {
        CleanNoted(s.g, s'.g, u, s.threads[u], LastOf(diary, u));
      }
  }

  lemma EntryIsOwn(diary: seq<Entry>, s: State, step: Step)
    requires step.FrameStep? || step.CallStep?
    ensures var more := EntryOf(diary, s, step); |more| <= 1 && (more != [] ==> more[0].t == step.t)
  {
  }

  lemma CloserIs(g: Shared, t: nat, l: Local)
    requires CloseOf(g, t, l)
    ensures l.call.CloseSend? ==> g.wroteClose == Some(t)
  {
  }

  lemma InRangeAfter(g: Shared, g': Shared, t: nat, n: nat)
    requires RelyNoted(g, g', t) && t < n && (g.wroteClose.Some? ==> g.wroteClose.value < n)
    ensures g'.wroteClose.Some? ==> g'.wroteClose.value < n
  {
  }

  lemma CleanNoted(g: Shared, g': Shared, u: nat, m: Local, last: Option<Entry>)
    requires g' == g.(frameMu := g'.frameMu, writeMu := g'.writeMu, recycled := g'.recycled)
    requires NotedOf(g, u, m, last)
    ensures NotedOf(g', u, m, last)
  {
    hide SentPayload;
  }

  lemma {:induction false} RunNoting(e: Endpoint, run: seq<State>, steps: seq<Step>, i: nat)
    requires Run(e, run, steps) && i < |run|
    ensures Noting(run[i], DiaryOf(run, steps, i))
  {
    hide Inv, Next, Content, Noting, EntryOf;
    if i == 0 {
      assert Noting(run[0], []) by { StartNoting(run[0]); }
    } else {
      RunNoting(e, run, steps, i - 1);
      RunKeepsInv(e, run, steps, i - 1);
      RunContent(e, run, steps, i - 1);
      NoteStep(e, run[i - 1], run[i], steps[i - 1], DiaryOf(run, steps, i - 1));
    }
  }

  lemma StartNoting(s: State)
    requires Init(s)
    ensures Noting(s, [])
  {
  }

  // ----- every call is answered -----

  /** The calls that thread t made, in order. */
  function MadeBy(steps: seq<Step>, t: nat): seq<CallAction> {
    if steps == [] then []
    else
      var step := steps[|steps| - 1];
      MadeBy(steps[..|steps| - 1], t) + if step.CallStep? && step.t == t && IsCall(step.call) then [step.call] else []
  }

  /** What was answered, in the order of the answers. */
  function Order(diary: seq<Entry>): seq<Entry> {
    if diary == [] then []
    else
      var x := diary[|diary| - 1];
      Order(diary[..|diary| - 1]) + if x.Answered? then [x] else []
  }

  /** What was answered to thread t. */
  function AnsweredTo(order: seq<Entry>, t: nat): seq<CallAction> {
    if order == [] then []
    else
      var x := order[|order| - 1];
      AnsweredTo(order[..|order| - 1], t) + if x.t == t then [x.call] else []
  }

  /** The call of thread t that has no answer yet. */
  function Due(last: Option<Entry>): seq<CallAction> {
    if last.Some? && last.value.Made? then [last.value.call] else []
  }

  lemma OrderSnoc(diary: seq<Entry>, more: seq<Entry>)
    requires |more| <= 1
    ensures Order(diary + more) == Order(diary) + if more != [] && more[0].Answered? then more else []
  {
    if more == [] {
      assert diary + more == diary;
    } else {
      assert (diary + more)[..|diary + more| - 1] == diary;
    }
  }

  lemma AnsweredSnoc(order: seq<Entry>, x: Entry, t: nat)
    ensures AnsweredTo(order + [x], t) == AnsweredTo(order, t) + if x.t == t then [x.call] else []
  {
    assert (order + [x])[..|order + [x]| - 1] == order;
  }

  /** An answer is to the call that was made last, and has none yet; and no call is made before the last one is answered
      or excused. */
  lemma EntryFits(e: Endpoint, s: State, s': State, step: Step, diary: seq<Entry>)
    requires Inv(e, s) && Noting(s, diary) && Next(e, s, s', step) && EntryOf(diary, s, step) != []
    ensures var x := EntryOf(diary, s, step)[0];
            && (x.Answered? ==> LastOf(diary, x.t) == Some(Made(x.t, x.call)))
            && (x.Made? && !s.g.closed && s.g.wroteClose == None ==> Due(LastOf(diary, x.t)) == [])
  {
    hide LogOk, TokensOk, LocksOf, FlateOf, StreamOf, CloseOf, MessageOf, LastOf, EncodeFrame, DoFrame, DoCall;
    var t := step.t;
    assert Of(e, s.g, t, s.threads[t]);
    assert NotedOf(s.g, t, s.threads[t], LastOf(diary, t));
  }

  lemma StaysOpen(e: Endpoint, s: State, s': State, step: Step, diary: seq<Entry>)
    requires Inv(e, s) && Noting(s, diary) && Next(e, s, s', step) && !s'.g.closed && s'.g.wroteClose == None
    ensures !s.g.closed && s.g.wroteClose == None
  {
    hide TokensOk, LogOk, LocksOf, ShapeOf, FlateOf, StreamOf, CloseOf, MessageOf, NotedOf;
    hide DoFrame, DoCall, CanFrame, CanCall, LastOf;
    match step
    case FrameStep(t, a) =>
      assert Of(e, s.g, t, s.threads[t]);
      FrameReliedOn(e, t, s.g, s.threads[t], a);
    case CallStep(t, a) =>
      assert Of(e, s.g, t, s.threads[t]);
      CallReliedOnNoted(e, t, s.g, s.threads[t], a);
    case _ =>
  }

  lemma {:induction false} RunAnswers(e: Endpoint, run: seq<State>, steps: seq<Step>, i: nat, t: nat)
    requires Run(e, run, steps) && i < |run| && !run[i].g.closed && run[i].g.wroteClose == None
    ensures var diary := DiaryOf(run, steps, i);
            MadeBy(steps[..i], t) == AnsweredTo(Order(diary), t) + Due(LastOf(diary, t))
  {
    hide Inv, Next, Noting, EntryOf, LastOf, Order, AnsweredTo;
    if i == 0 {
      assert LastOf([], t) == None && AnsweredTo(Order([]), t) == [] by { NothingYet(t); }
    } else {
      var s, s', step, diary := run[i - 1], run[i], steps[i - 1], DiaryOf(run, steps, i - 1);
      RunKeepsInv(e, run, steps, i - 1);
      RunNoting(e, run, steps, i - 1);
      StaysOpen(e, s, s', step, diary);
      RunAnswers(e, run, steps, i - 1, t);
      assert steps[..i][..i - 1] == steps[..i - 1] && steps[..i][i - 1] == step;
      AnswersStep(e, s, s', step, diary, t);
    }
  }

  lemma NothingYet(t: nat)
    ensures LastOf([], t) == None && AnsweredTo(Order([]), t) == []
  {
  }

  lemma AnswersStep(e: Endpoint, s: State, s': State, step: Step, diary: seq<Entry>, t: nat)
    requires Inv(e, s) && Noting(s, diary) && Next(e, s, s', step) && !s.g.closed && s.g.wroteClose == None
    ensures var diary' := diary + EntryOf(diary, s, step);
            var call := if step.CallStep? && step.t == t && IsCall(step.call) then [step.call] else [];
            AnsweredTo(Order(diary), t) + Due(LastOf(diary, t)) + call ==
            AnsweredTo(Order(diary'), t) + Due(LastOf(diary', t))
  {
    hide Inv, Noting, Next, LastOf, Order, AnsweredTo;
    var more := EntryOf(diary, s, step);
    if more == [] {
      assert diary + more == diary;
    } else {
      EntryIsOwn(diary, s, step);
      EntryFits(e, s, s', step, diary);
      OrderSnoc(diary, more);
      LastSnoc(diary, more, step.t, t);
      var had := AnsweredTo(Order(diary), t);
      if more[0].Answered? {
        AnsweredSnoc(Order(diary), more[0], t);
        assert more == [more[0]];
        assert step.t == t ==> had + [more[0].call] + [] == (had + [more[0].call]) + [];
      } else {
        assert Order(diary) + [] == Order(diary);
        assert step.t == t ==> had + [] + [more[0].call] == had + [more[0].call];
      }
    }
  }

  lemma {:induction false} DiaryHasTheCalls(run: seq<State>, steps: seq<Step>, i: nat, t: nat)
    requires i <= |steps| < |run|
    ensures var last := LastOf(DiaryOf(run, steps, i), t);
            var made := MadeBy(steps[..i], t);
            if last == None then made == [] else made != [] && made[|made| - 1] == last.value.call
  {
    hide LastOf;
    if i == 0 {
      NothingYet(t);
    } else {
      DiaryHasTheCalls(run, steps, i - 1, t);
      var diary := DiaryOf(run, steps, i - 1);
      assert steps[..i][..i - 1] == steps[..i - 1];
      if steps[i - 1].FrameStep? || steps[i - 1].CallStep? {
        EntryIsOwn(diary, run[i - 1], steps[i - 1]);
        LastSnoc(diary, EntryOf(diary, run[i - 1], steps[i - 1]), steps[i - 1].t, t);
      } else {
        assert diary + [] == diary;
      }
    }
  }

  /** In every state of every run, for any interleaving: a call that is back with its caller has been answered, unless
      the connection is closed or, for a call other than a Write on a handle, a close frame is being sent or was sent.
      While neither is the case, what was answered to a thread is all that it called for, in order and each once, but
      for the call it is in. */
  lemma EveryCallIsAnswered(e: Endpoint, run: seq<State>, steps: seq<Step>, i: nat, t: nat)
    requires Run(e, run, steps) && i < |run| && t < |run[i].threads|
    ensures var g, diary, made := run[i].g, DiaryOf(run, steps, i), MadeBy(steps[..i], t);
            var idle := run[i].threads[t].call.Idle?;
            && (idle && made != [] ==>
                  var last := made[|made| - 1];
                  Excused(g, last) || LastOf(diary, t) == Some(Answered(t, last)))
            && (!g.closed && g.wroteClose == None ==>
                  var answered := AnsweredTo(Order(diary), t);
                  answered == made || (!idle && made != [] && answered == made[..|made| - 1]))
  {
    hide Inv, Next, LastOf, Order, AnsweredTo, DiaryOf, MadeBy;
    RunNoting(e, run, steps, i);
    DiaryHasTheCalls(run, steps, i, t);
    var last := LastOf(DiaryOf(run, steps, i), t);
    assert NotedOf(run[i].g, t, run[i].threads[t], last);
    if !run[i].g.closed && run[i].g.wroteClose == None {
      RunAnswers(e, run, steps, i, t);
    }
  }

  /** In every state of every run: a Close that waits for the peer finds that a close frame was asked for; and on a
      connection that is not closed, the thread that is to send it is sending it or has written it, with the code and
      reason of its own call, as the last frame. */
  lemma CloseIsSent(e: Endpoint, run: seq<State>, steps: seq<Step>, i: nat, t: nat)
    requires Run(e, run, steps) && i < |run| && t < |run[i].threads|
    ensures var g, c, made := run[i].g, run[i].threads[t].call, MadeBy(steps[..i], t);
            && (c.CloseEnd? ==> g.wroteClose.Some?)
            && (g.wroteClose.Some? ==> g.wroteClose.value < |run[i].threads|)
            && (g.wroteClose == Some(t) && !g.closed ==>
                  && made != [] && made[|made| - 1].StartClose?
                  && var ce := made[|made| - 1].ce;
                     c == CloseSend(ce) ||
                     (c.CloseEnd? && g.log != [] &&
                      var f := g.log[|g.log| - 1].frame; f.fin && f.opcode == CLOSE && f.payload == SentPayload(ce)))
  {
    hide Inv, Next, LastOf, DiaryOf, MadeBy, SentPayload;
    RunNoting(e, run, steps, i);
    DiaryHasTheCalls(run, steps, i, t);
    assert NotedOf(run[i].g, t, run[i].threads[t], LastOf(DiaryOf(run, steps, i), t));
  }
}
