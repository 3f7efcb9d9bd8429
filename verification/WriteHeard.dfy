/** The frames that were written carry what was called for: message by message, by the arguments of the calls alone. */
module WriteHeard {
  import opened Octets
  import opened FrameHeader
  import opened CloseFrame
  import opened Frames
  import opened WriteProtocol
  import opened WriteInvariant
  import opened WriteSteps
  import opened WriteSafety
  import opened WriteContent
  import opened WriteCalls

  /** What a call adds. A message has the type of the last Writer call before it and all the octets of the Writes up to
      its Close. */
  function Added(h: History, a: CallAction): History {
    match a
    case StartMsg(msg) =>
      (match msg
       case WholeTask(typ, p) => h.(told := h.told + [Message(typ, p)])
       case OpenTask(typ) => h.(typ := typ))
    case StartWrite(task) =>
      (match task
       case WriteTask(p) => h.(open := Some(WithMore(h, p)))
       case CloseTask => h.(told := h.told + [WithMore(h, [])], open := None))
    case StartClose(ce) => h.(closing := Some(ce))
    case _ => h
  }

  /** What calls ask for, taken one after the other. */
  function Heard(order: seq<Entry>): History {
    if order == [] then History(TEXT, [], None, None, [])
    else Added(Heard(order[..|order| - 1]), order[|order| - 1].call)
  }

  lemma HeardSnoc(order: seq<Entry>, x: Entry)
    ensures Heard(order + [x]) == Added(Heard(order), x.call)
  {
    assert (order + [x])[..|order + [x]| - 1] == order;
  }

  /** The pings, pongs and close frames that calls ask for. */
  function ControlsFor(order: seq<Entry>): seq<Message> {
    if order == [] then []
    else ControlsFor(order[..|order| - 1]) + ControlOf(order[|order| - 1].call)
  }

  function ControlOf(a: CallAction): seq<Message> {
    match a
    case StartControl(op, p) => [Message(op, p)]
    case StartClose(ce) => [Message(CLOSE, SentPayload(ce))]
    case _ => []
  }

  lemma ControlsSnoc(order: seq<Entry>, x: Entry)
    ensures ControlsFor(order + [x]) == ControlsFor(order) + ControlOf(x.call)
  {
    assert (order + [x])[..|order + [x]| - 1] == order;
  }

  /** The control frames among the frames that were written. */
  function ControlsIn(log: seq<Sent>): seq<Message> {
    if log == [] then []
    else
      var f := log[|log| - 1].frame;
      ControlsIn(log[..|log| - 1]) + if IsControl(f.opcode) then [Message(f.opcode, f.payload)] else []
  }

  // ----- the history by arguments is the history by frames -----

  predicate SameHistory(h: History, k: History) {
    h.told == k.told && h.open == k.open && h.closing == k.closing
  }

  ghost predicate Hearing(g: Shared, h: History, order: seq<Entry>) {
    && SameHistory(h, Heard(order)) && (g.msgMu == Some(ByHandle) ==> h.typ == Heard(order).typ)
    && ControlsIn(g.log) == ControlsFor(order)
  }

  lemma CommittedIsAdded(g: Shared, t: nat, l: Local, a: CallAction, h: History, k: History)
    requires AskedFor(l.call, a) && InFrame(l.call) && !l.call.ChunkFrame? && TokensOk(g) && LocksOf(g, t, l)
    requires l.call.Whole? ==> l.call.msg.WholeTask?
    requires SameHistory(h, k) && (g.msgMu == Some(ByHandle) ==> h.typ == k.typ)
    ensures SameHistory(Committed(h, l.call), Added(k, a))
    ensures g.msgMu == Some(ByHandle) ==> Committed(h, l.call).typ == Added(k, a).typ
  {
    hide PlaceOf, CloseFree, SentPayload;
  }

  lemma ControlWritten(e: Endpoint, log: seq<Sent>, t: nat, l: Local, a: CallAction)
    requires l.pc.Emitting? && ShapeOf(e, l) && ContentOf(e, log, t, l) && AskedFor(l.call, a) && !l.call.ChunkFrame?
    ensures InFrame(l.call)
    ensures ControlsIn(log + [Sent(l.pc.frame, l.pc.job.deflated, t)]) == ControlsIn(log) + ControlOf(a)
    ensures l.call.Whole? ==> l.call.msg.WholeTask?
  {
    hide SentPayload, OwnFrame, NoneSince;
    var all := log + [Sent(l.pc.frame, l.pc.job.deflated, t)];
    assert all[..|all| - 1] == log;
    if l.call.Whole? {
      assert IsMessageStart(l.pc.job.opcode);
    }
  }

  lemma CallMoves(e: Endpoint, t: nat, g: Shared, l: Local, a: CallAction, last: Entry, h: History, k: History)
    requires CanCall(e, g, l, a) && AskedFor(l.call, last.call) && !l.call.Chunks? && !IsCall(a) && LocksOf(g, t, l)
    requires SameHistory(h, k) && (g.msgMu == Some(ByHandle) ==> h.typ == k.typ)
    ensures var g' := DoCall(e, t, g, l, a).g;
            var h' := if a.DoReset? then h.(typ := l.call.msg.typ) else h;
            var more := CallEntry(Some(last), t, a);
            var k' := if more == [] then k else Added(k, more[0].call);
            && SameHistory(h', k') && (g'.msgMu == Some(ByHandle) ==> h'.typ == k'.typ)
            && (more != [] ==> more[0].Answered? && ControlOf(more[0].call) == [])
  {
    hide SentPayload, DoCheck, DoReturn;
    if a.CheckWriter? {
      CheckMoves(g, l.call.task, a.big);
    } else if a.Return? {
      ReturnMoves(g, l.call, l.pc.ok);
    }
  }

  lemma CheckMoves(g: Shared, task: HandleTask, big: bool)
    ensures DoCheck(g, task, big).g.msgMu == g.msgMu
  {
  }

  lemma ReturnMoves(g: Shared, call: Call, ok: bool)
    ensures DoReturn(g, call, ok).g.msgMu in {g.msgMu, None}
  {
  }

  lemma HearFrame(
    e: Endpoint, t: nat, g: Shared, l: Local, a: FrameAction, last: Option<Entry>, h: History, order: seq<Entry>)
    requires CanFrame(g, l, a) && Of(e, g, t, l) && TokensOk(g) && ContentOf(e, g.log, t, l) && PlainLocal(l)
    requires !g.flate
    requires NotedOf(g, t, l, last) && Hearing(g, h, order)
    ensures var g', more := DoFrame(e, t, g, l, a).g, FrameEntry(last, t, l.call, a);
            && |more| <= 1 && (more != [] ==> more[0].Answered?)
            && Hearing(g', if a.Complete? then Committed(h, l.call) else h, order + more)
  {
    hide EncodeFrame, Heard, ControlsIn, ControlsFor, StreamOf, CloseOf, MessageOf, ContentOf, NotedOf;
    hide Committed, TokensOk, LocksOf, SentPayload, Progress;
    var more := FrameEntry(last, t, l.call, a);
    if a.Complete? {
      assert last.Some? && AskedFor(l.call, last.value.call) by { AtWork(g, t, l, last); }
      assert !l.call.ChunkFrame?;
      ControlWritten(e, g.log, t, l, last.value.call);
      CommittedIsAdded(g, t, l, last.value.call, h, Heard(order));
      HeardSnoc(order, more[0]);
      ControlsSnoc(order, more[0]);
      assert more == [more[0]];
    } else {
      assert order + more == order;
    }
  }

  lemma AtWork(g: Shared, t: nat, l: Local, last: Option<Entry>)
    requires NotedOf(g, t, l, last) && l.call != Idle
    ensures last.Some? && AskedFor(l.call, last.value.call)
  {
  }

  lemma HearCall(
    e: Endpoint, t: nat, g: Shared, l: Local, a: CallAction, last: Option<Entry>, h: History, order: seq<Entry>)
    requires CanCall(e, g, l, a) && Of(e, g, t, l) && !g.flate && NotedOf(g, t, l, last) && Hearing(g, h, order)
    ensures var g', more := DoCall(e, t, g, l, a).g, CallEntry(last, t, a);
            var answer := if more != [] && more[0].Answered? then more else [];
            Hearing(g', if a.DoReset? then h.(typ := l.call.msg.typ) else h, order + answer)
  {
    hide Heard, ControlsIn, ControlsFor, StreamOf, CloseOf, MessageOf, NotedOf, ShapeOf, LocksOf, SentPayload;
    CallSendsNothing(e, t, g, l, a);
    var more := CallEntry(last, t, a);
    if IsCall(a) {
      StartMoves(e, t, g, l, a);
      assert order + [] == order;
    } else if a.CloseNow? {
      assert order + [] == order;
    } else {
      assert last.Some? && AskedFor(l.call, last.value.call) by {
        NotIdle(e, g, l, a);
        AtWork(g, t, l, last);
      }
      CallMoves(e, t, g, l, a, last.value, h, Heard(order));
      if more == [] {
        assert order + more == order;
      } else {
        HeardSnoc(order, more[0]);
        ControlsSnoc(order, more[0]);
        assert more == [more[0]];
      }
    }
  }

  lemma NotIdle(e: Endpoint, g: Shared, l: Local, a: CallAction)
    requires CanCall(e, g, l, a) && ShapeOf(e, l) && !IsCall(a) && !a.CloseNow?
    ensures l.call != Idle
  {
  }

  lemma StartMoves(e: Endpoint, t: nat, g: Shared, l: Local, a: CallAction)
    requires CanCall(e, g, l, a) && IsCall(a)
    ensures DoCall(e, t, g, l, a).g.msgMu == g.msgMu
  {
  }

  lemma HearStep(e: Endpoint, s: State, s': State, step: Step, h: History, diary: seq<Entry>)
    requires Inv(e, s) && Content(e, s) && Plain(e, s) && Noting(s, diary) && Hearing(s.g, h, Order(diary))
    requires Next(e, s, s', step)
    ensures Hearing(s'.g, Recorded(h, s, step), Order(diary + EntryOf(diary, s, step)))
  {
    hide LogOk, TokensOk, LocksOf, ShapeOf, FlateOf, StreamOf, CloseOf, MessageOf, CloseFree;
    hide DoFrame, DoCall, ContentOf, CanFrame, CanCall, NotedOf, LastOf, Order, Heard, ControlsFor, ControlsIn;
    hide CallEntry, FrameEntry, PlainLocal, Committed, Carried;
    var more := EntryOf(diary, s, step);
    match step
    case FrameStep(t, a) =>
      EntryIsOwn(diary, s, step);
      OrderSnoc(diary, more);
      assert Of(e, s.g, t, s.threads[t]);
      HearFrame(e, t, s.g, s.threads[t], a, LastOf(diary, t), h, Order(diary));
      assert Order(diary) + [] == Order(diary);
    case CallStep(t, a) =>
      EntryIsOwn(diary, s, step);
      OrderSnoc(diary, more);
      assert Of(e, s.g, t, s.threads[t]);
      HearCall(e, t, s.g, s.threads[t], a, LastOf(diary, t), h, Order(diary));
      assert a.DoReset? ==> s.threads[t].call.Reset? by { ResetIs(e, s.g, s.threads[t], a); }
    case _ =>
      assert diary + more == diary;
  }

  lemma ResetIs(e: Endpoint, g: Shared, l: Local, a: CallAction)
    requires CanCall(e, g, l, a)
    ensures a.DoReset? ==> l.call.Reset?
  {
  }

  lemma {:induction false} RunHearing(e: Endpoint, run: seq<State>, steps: seq<Step>, i: nat)
    requires !e.compress && Run(e, run, steps) && i < |run|
    ensures Hearing(run[i].g, HistoryOf(run, steps, i), Order(DiaryOf(run, steps, i)))
  {
    hide Inv, Next, Content, Plain, Noting, Hearing, Recorded, EntryOf, Order;
    if i == 0 {
      assert Hearing(START, History(TEXT, [], None, None, []), Order([])) by { StartHearing(); }
    } else {
      RunHearing(e, run, steps, i - 1);
      RunKeepsInv(e, run, steps, i - 1);
      RunContent(e, run, steps, i - 1);
      RunIsPlain(e, run, steps, i - 1);
      RunNoting(e, run, steps, i - 1);
      HearStep(e, run[i - 1], run[i], steps[i - 1], HistoryOf(run, steps, i - 1), DiaryOf(run, steps, i - 1));
    }
  }

  lemma StartHearing()
    ensures Hearing(START, History(TEXT, [], None, None, []), Order([]))
  {
  }

  /** In every state of every run without compression, for any interleaving: the frames that were written carry exactly
      what the calls asked for, taken in the order of their answers. Every message is the octets of all Writes between
      its Writer call and its Close; the one under way is those of all Writes so far; and the control frames are those
      asked for. */
  lemma FramesCarryEveryCall(e: Endpoint, run: seq<State>, steps: seq<Step>, i: nat)
    requires !e.compress && Run(e, run, steps) && i < |run|
    ensures var log, order := run[i].g.log, Order(DiaryOf(run, steps, i));
            Messages(FramesOf(log)) == Carried(Heard(order)) && ControlsIn(log) == ControlsFor(order)
  {
    hide HistoryOf, DiaryOf, Order, Heard, Messages, Next, ControlsIn, ControlsFor;
    RunHearing(e, run, steps, i);
    FramesCarryTheCalls(e, run, steps, i);
  }
}
