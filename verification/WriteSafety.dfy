/** What holds in every state of every run of the write protocol. */
module WriteSafety {
  import opened Octets
  import opened FrameHeader
  import opened CloseFrame
  import opened Frames
  import opened WriteProtocol
  import opened WriteInvariant
  import opened WriteSteps
  import opened CutStreams

  lemma {:induction false} RunKeepsInv(e: Endpoint, run: seq<State>, steps: seq<Step>, i: nat)
    requires Run(e, run, steps) && i < |run|
    ensures Inv(e, run[i])
  {
    hide Inv, Init, Next;
    if i == 0 {
      InitInv(e, run[0]);
    } else {
      RunKeepsInv(e, run, steps, i - 1);
      StepKeepsInv(e, run[i - 1], run[i], steps[i - 1]);
    }
  }

  lemma {:induction false} GoodIsWellFormed(log: seq<Sent>)
    requires Good(log)
    ensures WellFormed(false, FramesOf(log))
    ensures EndsInside(false, FramesOf(log)) <==> PlaceOf(log).Inside?
  {
    if log != [] {
      var init, last := log[..|log| - 1], log[|log| - 1];
      GoodIsWellFormed(init);
      WellFormedSnoc(false, FramesOf(init), last.frame);
      assert FramesOf(log) == FramesOf(init) + [last.frame];
    }
  }

  /** At most one thread is between taking and releasing writeFrameMu, and none once the buffer is back in the pool. */
  lemma MutualExclusion(e: Endpoint, run: seq<State>, steps: seq<Step>, i: nat, t: nat, u: nat)
    requires Run(e, run, steps) && i < |run| && t < |run[i].threads| && u < |run[i].threads|
    requires HoldsFrame(run[i].threads[t].pc)
    ensures !run[i].g.recycled
    ensures HoldsFrame(run[i].threads[u].pc) ==> t == u
  {
    RunKeepsInv(e, run, steps, i);
    hide Run, SharedOk, StreamOf, CloseOf, MessageOf, ShapeOf, FlateOf;
    assert Of(e, run[i].g, t, run[i].threads[t]) && Of(e, run[i].g, u, run[i].threads[u]);
    assert run[i].g.frameMu == Some(Thread(t));
    assert !run[i].g.recycled by { NotRecycled(run[i].g, t); }
  }

  lemma NotRecycled(g: Shared, t: nat)
    requires SharedOk(g) && g.frameMu == Some(Thread(t))
    ensures !g.recycled
  {
  }

  // ----- what reaches the connection -----

  /** Final frames are flushed: all octets up to the end of a final frame have been given to the connection. */
  ghost predicate FinalFlushed(g: Shared) {
    forall k | 0 <= k < |g.log| && g.log[k].frame.fin :: |EncodeAll(FramesOf(g.log[..k + 1]))| <= g.flushed
  }

  ghost predicate WireOk(g: Shared) {
    g.flushed <= |g.stream| && FinalFlushed(g) && (!CloseFree(g.log) ==> g.torn == [])
  }

  /** What a step of writeFrame does to the stream and the log. */
  lemma FrameSends(e: Endpoint, t: nat, g: Shared, l: Local, a: FrameAction)
    requires CanFrame(g, l, a) && CloseOf(g, t, l) && g.flushed <= |g.stream|
    ensures var g' := DoFrame(e, t, g, l, a).g;
            && g.log <= g'.log && g.stream <= g'.stream && g.flushed <= g'.flushed <= |g'.stream|
            && (a.Complete? ==>
                  g'.log == g.log + [Sent(l.pc.frame, l.pc.job.deflated, t)] && g'.torn == [] && l.pc.Emitting?)
            && (a.Complete? ==> (l.pc.frame.fin ==> g'.flushed == |g'.stream|))
            && (!a.Complete? ==> g'.log == g.log)
            && (!a.Complete? && !a.Emit? ==> g'.torn == g.torn)
            && (!CloseFree(g.log) ==>
                  !a.Emit? && !a.Complete? && !a.Flush? && g'.stream == g.stream && g'.flushed == g.flushed)
  {
    hide EncodeFrame, CloseFree;
  }

  lemma CompleteFlushed(g: Shared, g': Shared, x: Sent)
    requires FinalFlushed(g) && g.flushed <= g'.flushed && g'.log == g.log + [x]
    requires x.frame.fin ==> |EncodeAll(FramesOf(g'.log))| <= g'.flushed
    ensures FinalFlushed(g')
  {
    hide EncodeAll, FramesOf;
    forall k | 0 <= k < |g'.log| && g'.log[k].frame.fin
      ensures |EncodeAll(FramesOf(g'.log[..k + 1]))| <= g'.flushed
    {
      if k < |g.log| {
        assert g'.log[..k + 1] == g.log[..k + 1] && g'.log[k] == g.log[k];
      } else {
        assert g'.log[..k + 1] == g'.log;
      }
    }
  }

  lemma WholeStream(g: Shared)
    requires LogOk(g) && g.torn == []
    ensures |g.stream| == |EncodeAll(FramesOf(g.log))|
  {
    hide EncodeAll, FramesOf, Good, PartOfFrame, CloseLast;
  }

  /** A step adds to what was written and to what was flushed; behind a close frame it does neither. */
  lemma StepSends(e: Endpoint, s: State, s': State, step: Step)
    requires Inv(e, s) && Inv(e, s') && WireOk(s.g) && Next(e, s, s', step)
    ensures WireOk(s'.g) && s.g.log <= s'.g.log && s.g.stream <= s'.g.stream && s.g.flushed <= s'.g.flushed
    ensures !CloseFree(s.g.log) ==> s'.g.log == s.g.log && s'.g.stream == s.g.stream && s'.g.flushed == s.g.flushed
  {
    hide LogOk, TokensOk, LocksOf, ShapeOf, FlateOf, StreamOf, CloseOf;
    hide MessageOf, DoFrame, DoCall, CloseFree, CanFrame, CanCall;
    hide FinalFlushed;
    match step
    case FrameStep(t, a) =>
      assert Of(e, s.g, t, s.threads[t]);
      FrameSends(e, t, s.g, s.threads[t], a);
      if a.Complete? {
        WholeStream(s'.g);
        CompleteFlushed(s.g, s'.g, Sent(s.threads[t].pc.frame, s.threads[t].pc.job.deflated, t));
      } else {
        FlushedMore(s.g, s'.g);
      }
    case CallStep(t, a) =>
      CallSendsNothing(e, t, s.g, s.threads[t], a);
      FlushedMore(s.g, s'.g);
    case _ => FlushedMore(s.g, s'.g);
  }

  lemma FlushedMore(g: Shared, g': Shared)
    requires FinalFlushed(g) && g'.log == g.log && g.flushed <= g'.flushed
    ensures FinalFlushed(g')
  {
  }

  lemma StartWireOk()
    ensures WireOk(START)
  {
  }

  lemma {:induction false} RunWireOk(e: Endpoint, run: seq<State>, steps: seq<Step>, i: nat)
    requires Run(e, run, steps) && i < |run|
    ensures WireOk(run[i].g)
  {
    hide Inv, Next, WireOk;
    if i == 0 {
      StartWireOk();
    } else {
      RunWireOk(e, run, steps, i - 1);
      RunKeepsInv(e, run, steps, i - 1);
      RunKeepsInv(e, run, steps, i);
      StepSends(e, run[i - 1], run[i], steps[i - 1]);
    }
  }

  /** What has been given to the connection is never taken back, and once a close frame has been written everything has
      been given to the connection, and not one more octet is written. */
  lemma {:induction false} NothingAfterClose(e: Endpoint, run: seq<State>, steps: seq<Step>, i: nat, j: nat)
    requires Run(e, run, steps) && i <= j < |run|
    ensures run[i].g.flushed <= |run[i].g.stream| && run[j].g.flushed <= |run[j].g.stream|
    ensures run[i].g.log <= run[j].g.log && WireOf(run[i].g) <= WireOf(run[j].g)
    ensures (exists x | x in run[i].g.log :: x.frame.opcode == CLOSE) ==>
              run[j].g.log == run[i].g.log && WireOf(run[j].g) == WireOf(run[i].g) == run[i].g.stream
    decreases j - i
  {
    hide Inv, Init, Next, WireOk;
    RunWireOk(e, run, steps, i);
    RunWireOk(e, run, steps, j);
    WireIsPart(run[i].g);
    WireIsPart(run[j].g);
    if i == j {
      if x :| x in run[i].g.log && x.frame.opcode == CLOSE {
        RunKeepsInv(e, run, steps, i);
        CloseIsFlushed(e, run[i], x);
      }
    } else {
      NothingAfterClose(e, run, steps, i, j - 1);
      RunKeepsInv(e, run, steps, j - 1);
      RunKeepsInv(e, run, steps, j);
      RunWireOk(e, run, steps, j - 1);
      StepSends(e, run[j - 1], run[j], steps[j - 1]);
    }
  }

  lemma WireIsPart(g: Shared)
    requires WireOk(g)
    ensures g.flushed <= |g.stream|
  {
  }

  /** A close frame is the last frame, and final. */
  lemma CloseIsFlushed(e: Endpoint, s: State, x: Sent)
    requires Inv(e, s) && WireOk(s.g) && x in s.g.log && x.frame.opcode == CLOSE
    ensures s.g.flushed == |s.g.stream| && s.g.torn == [] && s.g.log[|s.g.log| - 1] == x && x.frame.fin
  {
    hide EncodeAll, FramesOf, Of, TokensOk, PartOfFrame;
    var g := s.g;
    var k :| 0 <= k < |g.log| && g.log[k] == x;
    assert k == |g.log| - 1;
    assert g.log[..k + 1] == g.log;
    assert x.frame.fin by { assert Good(g.log) && Allowed(PlaceOf(g.log[..k]), g.log[k]); }
    WholeStream(g);
  }

  lemma {:induction false} GoodPrefix(log: seq<Sent>, k: nat)
    requires Good(log) && k <= |log|
    ensures Good(log[..k])
  {
    if k < |log| {
      assert log[..|log| - 1][..k] == log[..k];
      GoodPrefix(log[..|log| - 1], k);
    } else {
      assert log[..k] == log;
    }
  }

  /** The wire holds the first k frames of the log, and then at most the beginning of one more. */
  ghost predicate WireHolds(g: Shared, k: nat)
    requires g.flushed <= |g.stream|
  {
    && k <= |g.log|
    && var whole := EncodeAll(FramesOf(g.log[..k]));
       && |whole| <= g.flushed
       && WireOf(g) == whole + WireOf(g)[|whole|..] && PartOfFrame(WireOf(g)[|whole|..])
  }

  lemma WireCut(e: Endpoint, s: State) returns (k: nat)
    requires Inv(e, s) && WireOk(s.g)
    ensures WireHolds(s.g, k) && (k < |s.g.log| ==> s.g.flushed < |EncodeAll(FramesOf(s.g.log[..k + 1]))|)
  {
    hide EncodeAll, EncodeFrame, Good, CloseLast, CloseFree, TokensOk, Of, FinalFlushed;
    var g, frames := s.g, FramesOf(s.g.log);
    PrefixOfSum(EncodeAll(frames), g.torn, g.flushed);
    if g.flushed < |EncodeAll(frames)| {
      var c: nat;
      k, c := CutPosition(frames, g.flushed);
      assert FramesOf(g.log[..k]) == frames[..k] && FramesOf(g.log[..k + 1]) == frames[..k] + [frames[k]];
      EncodeAllSnoc(frames[..k], frames[k]);
      var part := EncodeFrame(frames[k])[..c];
      assert g.flushed == |EncodeAll(frames)[..g.flushed]|;
      assert WireOf(g)[|EncodeAll(frames[..k])|..] == part;
      FirstOctets(frames[k], c);
    } else {
      k := |g.log|;
      assert g.log[..k] == g.log;
      var n := g.flushed - |EncodeAll(frames)|;
      assert WireOf(g)[|EncodeAll(frames)|..] == g.torn[..n];
      var f :| g.torn <= EncodeFrame(f);
      assert g.torn[..n] == EncodeFrame(f)[..n];
      FirstOctets(f, n);
    }
  }

  lemma PrefixSize(log: seq<Sent>, a: nat, b: nat)
    requires a <= b <= |log|
    ensures |EncodeAll(FramesOf(log[..a]))| <= |EncodeAll(FramesOf(log[..b]))|
  {
    hide EncodeAll;
    assert FramesOf(log[..b]) == FramesOf(log[..a]) + FramesOf(log[a..b]);
    EncodeAllAppend(FramesOf(log[..a]), FramesOf(log[a..b]));
  }

  lemma FinalBefore(g: Shared, k: nat)
    requires FinalFlushed(g) && k <= |g.log| && (k < |g.log| ==> g.flushed < |EncodeAll(FramesOf(g.log[..k + 1]))|)
    ensures forall j | 0 <= j < |g.log| && g.log[j].frame.fin :: j < k
  {
    hide EncodeAll, FramesOf;
    forall j | 0 <= j < |g.log| && g.log[j].frame.fin
      ensures j < k
    {
      if k <= j {
        PrefixSize(g.log, k + 1, j + 1);
      }
    }
  }

  /** In every reachable state, for any number of threads and any interleaving of their steps: the octets given to the
      connection are whole frames one after the other, followed by at most the beginning of one more; among them are all
      final frames that were written; the data frames are a prefix of a well-formed sequence of messages, with RSV1
      where section 6.1 of RFC 7692 puts it; a close frame is the last frame. */
  lemma Safety(e: Endpoint, run: seq<State>, steps: seq<Step>, i: nat) returns (k: nat)
    requires Run(e, run, steps) && i < |run|
    ensures var g := run[i].g;
            && g.flushed <= |g.stream| && WireHolds(g, k)
            && (forall j | 0 <= j < |g.log| && g.log[j].frame.fin :: j < k)
            && Good(g.log[..k]) && WellFormed(false, FramesOf(g.log[..k])) && CloseLast(g.log[..k])
  {
    hide Run, Good, WellFormed;
    RunKeepsInv(e, run, steps, i);
    RunWireOk(e, run, steps, i);
    k := WireCut(e, run[i]);
    GoodPrefix(run[i].g.log, k);
    GoodIsWellFormed(run[i].g.log[..k]);
    FinalBefore(run[i].g, k);
  }

  // ----- without compression -----

  /** Without compression no job asks for RSV1 and no frame has it. */
  predicate PlainLocal(l: Local) {
    (l.pc != Out ==> !l.pc.job.flate) && (l.pc.Emitting? ==> !l.pc.frame.rsv1)
  }

  ghost predicate Plain(e: Endpoint, s: State) {
    && !s.g.flate
    && (forall x | x in s.g.log :: !x.frame.rsv1 && x.frame.masked == e.client && |x.frame.payload| < INT64_LIMIT)
    && (forall t | 0 <= t < |s.threads| :: PlainLocal(s.threads[t]))
  }

  lemma PlainFrame(e: Endpoint, t: nat, g: Shared, l: Local, a: FrameAction)
    requires CanFrame(g, l, a) && PlainLocal(l) && ShapeOf(e, l)
    ensures var x := DoFrame(e, t, g, l, a);
            && x.g.flate == g.flate && PlainLocal(x.l)
            && (x.g.log == g.log || (l.pc.Emitting? && x.g.log == g.log + [Sent(l.pc.frame, l.pc.job.deflated, t)]))
  {
    hide EncodeFrame, JobFits;
  }

  lemma PlainCheck(g: Shared, task: HandleTask)
    requires !g.flate
    ensures var x := DoCheck(g, task, false); !x.g.flate && PlainLocal(x.l)
  {
  }

  lemma PlainReturn(g: Shared, call: Call, ok: bool)
    requires !g.flate
    ensures var x := DoReturn(g, call, ok); !x.g.flate && PlainLocal(x.l)
  {
  }

  lemma PlainCall(e: Endpoint, t: nat, g: Shared, l: Local, a: CallAction)
    requires CanCall(e, g, l, a) && PlainLocal(l) && !g.flate && !e.compress
    ensures var x := DoCall(e, t, g, l, a); !x.g.flate && PlainLocal(x.l)
  {
    hide SentPayload, DoCheck, DoReturn;
    if a.CheckWriter? {
      PlainCheck(g, l.call.task);
    } else if a.Return? {
      PlainReturn(g, l.call, l.pc.ok);
    }
  }

  lemma PlainStep(e: Endpoint, s: State, s': State, step: Step)
    requires !e.compress && Inv(e, s) && Plain(e, s) && Next(e, s, s', step)
    ensures Plain(e, s')
  {
    hide LogOk, TokensOk, LocksOf, FlateOf, StreamOf, CloseOf, MessageOf;
    hide DoFrame, DoCall, PlainLocal, JobFits, CanFrame, CanCall;
    match step
    case FrameStep(t, a) =>
      assert Of(e, s.g, t, s.threads[t]) && PlainLocal(s.threads[t]);
      PlainFrame(e, t, s.g, s.threads[t], a);
      assert forall u | 0 <= u < |s'.threads| && u != t :: s'.threads[u] == s.threads[u];
      if s.threads[t].pc.Emitting? {
        PlainEmitting(s.threads[t]);
      }
    case CallStep(t, a) =>
      assert PlainLocal(s.threads[t]);
      PlainCall(e, t, s.g, s.threads[t], a);
      CallSendsNothing(e, t, s.g, s.threads[t], a);
      assert forall u | 0 <= u < |s'.threads| && u != t :: s'.threads[u] == s.threads[u];
    case _ =>
  }

  lemma PlainEmitting(l: Local)
    requires PlainLocal(l) && l.pc.Emitting?
    ensures !l.pc.frame.rsv1
  {
  }

  lemma {:induction false} RunIsPlain(e: Endpoint, run: seq<State>, steps: seq<Step>, i: nat)
    requires !e.compress && Run(e, run, steps) && i < |run|
    ensures Plain(e, run[i])
  {
    hide Inv, Next;
    if i > 0 {
      RunIsPlain(e, run, steps, i - 1);
      RunKeepsInv(e, run, steps, i - 1);
      PlainStep(e, run[i - 1], run[i], steps[i - 1]);
    }
  }
}
