/** Every step keeps the invariant. */
module WriteSteps {
  import opened Octets
  import opened FrameHeader
  import opened CloseFrame
  import opened Frames
  import opened WriteProtocol
  import opened WriteInvariant

  /** The steps up to the permission to write. */
  lemma SelfLock(e: Endpoint, t: nat, g: Shared, l: Local, a: FrameAction)
    requires l.pc.WantFrame? || l.pc.HaveFrame?
    requires SharedOk(g) && Of(e, g, t, l) && CanFrame(g, l, a)
    ensures var x := DoFrame(e, t, g, l, a); SharedOk(x.g) && Of(e, x.g, t, x.l)
  {
    hide EncodeFrame, EncodeAll, FramesOf, Good, PlaceOf, PartOfFrame;
    hide CloseFree, CloseLast, JobFits, JobAllowed, HoldsWrite, HoldsMsg;
    hide InWrite, InClose, InFrame;
  }

  lemma SelfEnter(e: Endpoint, t: nat, g: Shared, l: Local, a: FrameAction)
    requires l.pc.Checking? || l.pc.Waiting?
    requires SharedOk(g) && Of(e, g, t, l) && CanFrame(g, l, a)
    ensures var x := DoFrame(e, t, g, l, a); SharedOk(x.g) && Of(e, x.g, t, x.l)
  {
    hide EncodeFrame, EncodeAll, FramesOf, Good, PlaceOf, PartOfFrame;
    hide CloseFree, CloseLast, JobFits, JobAllowed, HoldsWrite, HoldsMsg;
    hide InWrite, InClose, InFrame;
  }

  /** The steps from there on that put nothing into the stream. */
  lemma SelfLeave(e: Endpoint, t: nat, g: Shared, l: Local, a: FrameAction)
    requires !l.pc.WantFrame? && !l.pc.HaveFrame? && !l.pc.Checking? && !l.pc.Waiting? && !a.Emit? && !a.Complete?
    requires SharedOk(g) && Of(e, g, t, l) && CanFrame(g, l, a)
    ensures var x := DoFrame(e, t, g, l, a); SharedOk(x.g) && Of(e, x.g, t, x.l)
  {
    hide EncodeFrame, EncodeAll, FramesOf, Good, PlaceOf, PartOfFrame;
    hide CloseFree, CloseLast, JobFits, JobAllowed, HoldsWrite, HoldsMsg;
    hide InWrite, InClose, InFrame;
  }

  lemma FirstOctets(f: Frame, n: nat)
    requires n <= |EncodeFrame(f)|
    ensures PartOfFrame(EncodeFrame(f)[..n])
    ensures PartOfFrame([])
  {
    hide EncodeFrame;
    assert EncodeFrame(f)[..n] <= EncodeFrame(f);
    assert [] <= EncodeFrame(f);
  }

  lemma SelfEmit(e: Endpoint, t: nat, g: Shared, l: Local, n: nat)
    requires SharedOk(g) && Of(e, g, t, l) && CanFrame(g, l, Emit(n))
    ensures var x := DoFrame(e, t, g, l, Emit(n)); SharedOk(x.g) && Of(e, x.g, t, x.l)
  {
    hide EncodeFrame, EncodeAll, FramesOf, Good, PlaceOf, PartOfFrame, CloseFree, CloseLast;
    var b := EncodeFrame(l.pc.frame);
    assert b[..l.pc.sent] + b[l.pc.sent..n] == b[..n];
    FirstOctets(l.pc.frame, n);
    SeqAssociative(EncodeAll(FramesOf(g.log)), g.torn, b[l.pc.sent..n]);
  }

  lemma SelfComplete(e: Endpoint, t: nat, g: Shared, l: Local)
    requires SharedOk(g) && Of(e, g, t, l) && CanFrame(g, l, Complete)
    ensures var x := DoFrame(e, t, g, l, Complete); SharedOk(x.g) && Of(e, x.g, t, x.l)
  {
    hide EncodeFrame, EncodeAll, FramesOf, Good, PlaceOf, PartOfFrame, CloseFree, CloseLast;
    var b := EncodeFrame(l.pc.frame);
    assert b[..l.pc.sent] == b;
    FirstOctets(l.pc.frame, 0);
    SentOne(g.log, Sent(l.pc.frame, l.pc.job.deflated, t));
  }

  /** The threads that do not take the step. */
  lemma OtherFrame(e: Endpoint, t: nat, g: Shared, l: Local, a: FrameAction, u: nat, m: Local)
    requires SharedOk(g) && Of(e, g, t, l) && Of(e, g, u, m) && u != t && CanFrame(g, l, a) && !a.Complete?
    ensures Of(e, DoFrame(e, t, g, l, a).g, u, m)
  {
    hide EncodeFrame, EncodeAll, FramesOf, Good, PlaceOf, PartOfFrame, CloseFree, CloseLast, JobFits;
  }

  lemma OtherComplete(e: Endpoint, t: nat, g: Shared, l: Local, u: nat, m: Local)
    requires SharedOk(g) && Of(e, g, t, l) && Of(e, g, u, m) && u != t && CanFrame(g, l, Complete)
    ensures Of(e, DoFrame(e, t, g, l, Complete).g, u, m)
  {
    hide EncodeFrame, EncodeAll, FramesOf, Good, PlaceOf, PartOfFrame, CloseFree, CloseLast;
    SentOne(g.log, Sent(l.pc.frame, l.pc.job.deflated, t));
  }

  lemma SelfStartControl(e: Endpoint, t: nat, g: Shared, l: Local, a: CallAction)
    requires a.StartControl? || a.StartClose?
    requires TokensOk(g) && Of(e, g, t, l) && CanCall(e, g, l, a)
    ensures var x := DoCall(e, t, g, l, a); TokensOk(x.g) && Of(e, x.g, t, x.l)
  {
    hide EncodeFrame, PlaceOf, CloseFree, SentPayload, DoCheck, DoReturn;
  }

  lemma SelfStartTask(e: Endpoint, t: nat, g: Shared, l: Local, a: CallAction)
    requires a.StartMsg? || a.StartWrite?
    requires TokensOk(g) && Of(e, g, t, l) && CanCall(e, g, l, a)
    ensures var x := DoCall(e, t, g, l, a); TokensOk(x.g) && Of(e, x.g, t, x.l)
  {
    hide EncodeFrame, PlaceOf, CloseFree, SentPayload, DoCheck, DoReturn;
  }

  lemma SelfTestAndSet(e: Endpoint, t: nat, g: Shared, l: Local, a: CallAction)
    requires a.TestAndSet?
    requires TokensOk(g) && Of(e, g, t, l) && CanCall(e, g, l, a)
    ensures var x := DoCall(e, t, g, l, a); TokensOk(x.g) && Of(e, x.g, t, x.l)
  {
    hide EncodeFrame, PlaceOf, CloseFree, SentPayload, DoCheck, DoReturn;
    SentPayloadFits(l.call.ce);
  }

  lemma SelfLockFails(e: Endpoint, t: nat, g: Shared, l: Local, a: CallAction)
    requires a.LockFails?
    requires TokensOk(g) && Of(e, g, t, l) && CanCall(e, g, l, a)
    ensures var x := DoCall(e, t, g, l, a); TokensOk(x.g) && Of(e, x.g, t, x.l)
  {
    hide EncodeFrame, PlaceOf, CloseFree, SentPayload, DoCheck, DoReturn, JobFits, JobAllowed;
  }

  lemma SelfCloseNow(e: Endpoint, t: nat, g: Shared, l: Local, a: CallAction)
    requires a.CloseNow?
    requires TokensOk(g) && Of(e, g, t, l) && CanCall(e, g, l, a)
    ensures var x := DoCall(e, t, g, l, a); TokensOk(x.g) && Of(e, x.g, t, x.l)
  {
    hide EncodeFrame, PlaceOf, CloseFree, SentPayload, DoCheck, DoReturn, JobFits, JobAllowed;
  }

  lemma SelfCloseAfterFail(e: Endpoint, t: nat, g: Shared, l: Local, a: CallAction)
    requires a.CloseAfterFail?
    requires TokensOk(g) && Of(e, g, t, l) && CanCall(e, g, l, a)
    ensures var x := DoCall(e, t, g, l, a); TokensOk(x.g) && Of(e, x.g, t, x.l)
  {
    hide EncodeFrame, PlaceOf, CloseFree, SentPayload, DoCheck, DoReturn, JobFits, JobAllowed;
  }

  lemma SelfTakeMsg(e: Endpoint, t: nat, g: Shared, l: Local, a: CallAction)
    requires a.TakeMsgMu? || a.RecheckMsgMu?
    requires TokensOk(g) && Of(e, g, t, l) && CanCall(e, g, l, a)
    ensures var x := DoCall(e, t, g, l, a); TokensOk(x.g) && Of(e, x.g, t, x.l)
  {
    hide EncodeFrame, PlaceOf, CloseFree, SentPayload, DoCheck, DoReturn, JobFits, JobAllowed;
  }

  lemma SelfReset(e: Endpoint, t: nat, g: Shared, l: Local, a: CallAction)
    requires a.DoReset?
    requires TokensOk(g) && Of(e, g, t, l) && CanCall(e, g, l, a)
    ensures var x := DoCall(e, t, g, l, a); TokensOk(x.g) && Of(e, x.g, t, x.l)
  {
    hide EncodeFrame, PlaceOf, CloseFree, SentPayload, DoCheck, DoReturn;
  }

  lemma SelfTakeWriteMu(e: Endpoint, t: nat, g: Shared, l: Local, a: CallAction)
    requires a.TakeWriteMu?
    requires TokensOk(g) && Of(e, g, t, l) && CanCall(e, g, l, a)
    ensures var x := DoCall(e, t, g, l, a); TokensOk(x.g) && Of(e, x.g, t, x.l)
  {
    hide EncodeFrame, PlaceOf, CloseFree, SentPayload, DoCheck, DoReturn, JobFits, JobAllowed;
  }

  lemma SelfRecheckWriteMu(e: Endpoint, t: nat, g: Shared, l: Local, a: CallAction)
    requires a.RecheckWriteMu?
    requires TokensOk(g) && Of(e, g, t, l) && CanCall(e, g, l, a)
    ensures var x := DoCall(e, t, g, l, a); TokensOk(x.g) && Of(e, x.g, t, x.l)
  {
    hide EncodeFrame, PlaceOf, CloseFree, SentPayload, DoCheck, DoReturn, JobFits, JobAllowed;
  }

  lemma SelfReleaseWriteMu(e: Endpoint, t: nat, g: Shared, l: Local, a: CallAction)
    requires a.ReleaseWriteMu?
    requires TokensOk(g) && Of(e, g, t, l) && CanCall(e, g, l, a)
    ensures var x := DoCall(e, t, g, l, a); TokensOk(x.g) && Of(e, x.g, t, x.l)
  {
    hide EncodeFrame, PlaceOf, CloseFree, SentPayload, DoCheck, DoReturn, JobFits, JobAllowed;
  }

  lemma SelfReleaseMsgMu(e: Endpoint, t: nat, g: Shared, l: Local, a: CallAction)
    requires a.ReleaseMsgMu?
    requires TokensOk(g) && Of(e, g, t, l) && CanCall(e, g, l, a)
    ensures var x := DoCall(e, t, g, l, a); TokensOk(x.g) && Of(e, x.g, t, x.l)
  {
    hide EncodeFrame, PlaceOf, CloseFree, SentPayload, DoCheck, DoReturn, JobFits, JobAllowed;
  }

  lemma SelfCheckClosed(e: Endpoint, t: nat, g: Shared, l: Local, a: CallAction)
    requires a.CheckWriter? && l.call.Check? && l.call.task.CloseTask? && g.mwClosed
    requires TokensOk(g) && Of(e, g, t, l) && CanCall(e, g, l, a)
    ensures var x := DoCall(e, t, g, l, a); TokensOk(x.g) && Of(e, x.g, t, x.l)
  {
    hide EncodeFrame, PlaceOf, CloseFree, SentPayload, DoReturn;
  }

  lemma SelfCheckClose(e: Endpoint, t: nat, g: Shared, l: Local, a: CallAction)
    requires a.CheckWriter? && l.call.Check? && l.call.task.CloseTask? && !g.mwClosed
    requires TokensOk(g) && Of(e, g, t, l) && CanCall(e, g, l, a)
    ensures var x := DoCall(e, t, g, l, a); TokensOk(x.g) && Of(e, x.g, t, x.l)
  {
    hide EncodeFrame, PlaceOf, CloseFree, SentPayload, DoReturn;
  }

  lemma SelfCheckWrite(e: Endpoint, t: nat, g: Shared, l: Local, a: CallAction)
    requires a.CheckWriter? && l.call.Check? && l.call.task.WriteTask?
    requires TokensOk(g) && Of(e, g, t, l) && CanCall(e, g, l, a)
    ensures var x := DoCall(e, t, g, l, a); TokensOk(x.g) && Of(e, x.g, t, x.l)
  {
    hide EncodeFrame, PlaceOf, CloseFree, SentPayload, DoReturn;
  }

  lemma SelfChunksEnd(e: Endpoint, t: nat, g: Shared, l: Local, a: CallAction)
    requires a.ChunksEnd?
    requires TokensOk(g) && Of(e, g, t, l) && CanCall(e, g, l, a)
    ensures var x := DoCall(e, t, g, l, a); TokensOk(x.g) && Of(e, x.g, t, x.l)
  {
    hide EncodeFrame, PlaceOf, CloseFree, SentPayload, DoReturn;
  }

  lemma SelfChunk(e: Endpoint, t: nat, g: Shared, l: Local, a: CallAction)
    requires a.Chunk?
    requires TokensOk(g) && Of(e, g, t, l) && CanCall(e, g, l, a)
    ensures var x := DoCall(e, t, g, l, a); TokensOk(x.g) && Of(e, x.g, t, x.l)
  {
    hide EncodeFrame, PlaceOf, CloseFree, SentPayload, DoReturn;
  }

  lemma SelfReturnDirect(e: Endpoint, t: nat, g: Shared, l: Local, a: CallAction)
    requires a.Return? && l.call.Direct?
    requires TokensOk(g) && Of(e, g, t, l) && CanCall(e, g, l, a)
    ensures var x := DoCall(e, t, g, l, a); TokensOk(x.g) && Of(e, x.g, t, x.l)
  {
    hide EncodeFrame, PlaceOf, CloseFree, SentPayload, DoCheck;
  }

  lemma SelfReturnChunk(e: Endpoint, t: nat, g: Shared, l: Local, a: CallAction)
    requires a.Return? && l.call.ChunkFrame?
    requires TokensOk(g) && Of(e, g, t, l) && CanCall(e, g, l, a)
    ensures var x := DoCall(e, t, g, l, a); TokensOk(x.g) && Of(e, x.g, t, x.l)
  {
    hide EncodeFrame, PlaceOf, CloseFree, SentPayload, DoCheck;
  }

  lemma SelfReturnFinal(e: Endpoint, t: nat, g: Shared, l: Local, a: CallAction)
    requires a.Return? && l.call.Final?
    requires TokensOk(g) && Of(e, g, t, l) && CanCall(e, g, l, a)
    ensures var x := DoCall(e, t, g, l, a); TokensOk(x.g) && Of(e, x.g, t, x.l)
  {
    hide EncodeFrame, PlaceOf, CloseFree, SentPayload, DoCheck;
  }

  lemma SelfReturnWhole(e: Endpoint, t: nat, g: Shared, l: Local, a: CallAction)
    requires a.Return? && !l.call.Direct? && !l.call.ChunkFrame? && !l.call.Final?
    requires TokensOk(g) && Of(e, g, t, l) && CanCall(e, g, l, a)
    ensures var x := DoCall(e, t, g, l, a); TokensOk(x.g) && Of(e, x.g, t, x.l)
  {
    hide EncodeFrame, PlaceOf, CloseFree, SentPayload, DoCheck;
  }

  lemma CheckSendsNothing(g: Shared, task: HandleTask, big: bool)
    ensures var g' := DoCheck(g, task, big).g;
            g'.log == g.log && g'.stream == g.stream && g'.torn == g.torn && g'.flushed == g.flushed
  {
  }

  lemma ReturnSendsNothing(g: Shared, call: Call, ok: bool)
    ensures var g' := DoReturn(g, call, ok).g;
            g'.log == g.log && g'.stream == g.stream && g'.torn == g.torn && g'.flushed == g.flushed
  {
  }

  lemma CallSendsNothing(e: Endpoint, t: nat, g: Shared, l: Local, a: CallAction)
    requires CanCall(e, g, l, a)
    ensures var g' := DoCall(e, t, g, l, a).g;
            g'.log == g.log && g'.stream == g.stream && g'.torn == g.torn && g'.flushed == g.flushed
  {
    hide SentPayload, DoCheck, DoReturn;
    if a.CheckWriter? {
      CheckSendsNothing(g, l.call.task, a.big);
    } else if a.Return? {
      ReturnSendsNothing(g, l.call, l.pc.ok);
    }
  }

  lemma LogUnchanged(g: Shared, g': Shared)
    requires LogOk(g) && g'.log == g.log && g'.stream == g.stream && g'.torn == g.torn && g'.flushed == g.flushed
    ensures LogOk(g')
  {
    hide EncodeAll, FramesOf, Good, PartOfFrame, CloseLast;
  }

  /** The thread that takes a step outside writeFrame. */
  lemma SelfCall(e: Endpoint, t: nat, g: Shared, l: Local, a: CallAction)
    requires SharedOk(g) && Of(e, g, t, l) && CanCall(e, g, l, a)
    ensures var x := DoCall(e, t, g, l, a); SharedOk(x.g) && Of(e, x.g, t, x.l)
  {
    hide LogOk, TokensOk, Of, DoCall;
    CallSendsNothing(e, t, g, l, a);
    LogUnchanged(g, DoCall(e, t, g, l, a).g);
    if a.StartControl? || a.StartClose? {
      SelfStartControl(e, t, g, l, a);
    } else if a.StartMsg? || a.StartWrite? {
      SelfStartTask(e, t, g, l, a);
    } else if a.TestAndSet? {
      SelfTestAndSet(e, t, g, l, a);
    } else if a.LockFails? {
      SelfLockFails(e, t, g, l, a);
    } else if a.CloseNow? {
      SelfCloseNow(e, t, g, l, a);
    } else if a.CloseAfterFail? {
      SelfCloseAfterFail(e, t, g, l, a);
    } else if a.TakeMsgMu? || a.RecheckMsgMu? {
      SelfTakeMsg(e, t, g, l, a);
    } else if a.DoReset? {
      SelfReset(e, t, g, l, a);
    } else if a.TakeWriteMu? {
      SelfTakeWriteMu(e, t, g, l, a);
    } else if a.RecheckWriteMu? {
      SelfRecheckWriteMu(e, t, g, l, a);
    } else if a.ReleaseWriteMu? {
      SelfReleaseWriteMu(e, t, g, l, a);
    } else if a.ReleaseMsgMu? {
      SelfReleaseMsgMu(e, t, g, l, a);
    } else if a.CheckWriter? && l.call.Check? && l.call.task.CloseTask? && g.mwClosed {
      SelfCheckClosed(e, t, g, l, a);
    } else if a.CheckWriter? && l.call.Check? && l.call.task.CloseTask? {
      SelfCheckClose(e, t, g, l, a);
    } else if a.CheckWriter? && l.call.Check? && l.call.task.WriteTask? {
      SelfCheckWrite(e, t, g, l, a);
    } else if a.Chunk? {
      SelfChunk(e, t, g, l, a);
    } else if a.ChunksEnd? {
      SelfChunksEnd(e, t, g, l, a);
    } else if a.Return? && l.call.Direct? {
      SelfReturnDirect(e, t, g, l, a);
    } else if a.Return? && l.call.ChunkFrame? {
      SelfReturnChunk(e, t, g, l, a);
    } else if a.Return? && l.call.Final? {
      SelfReturnFinal(e, t, g, l, a);
    } else if a.Return? && !l.call.Direct? && !l.call.ChunkFrame? && !l.call.Final? {
      SelfReturnWhole(e, t, g, l, a);
    }
  }

  predicate OwnOrFree(h: Option<Holder>, t: nat) {
    h == None || h == Some(Thread(t))
  }

  predicate MsgOwnOrFree(h: Option<MsgHolder>, t: nat) {
    h == None || h == Some(ByThread(t)) || h == Some(ByHandle)
  }

  /** What the other threads can rely on when thread t takes a step outside writeFrame: it moves no token but its
      own... */
  predicate RelyTokens(g: Shared, g': Shared, t: nat) {
    && g'.frameMu == g.frameMu
    && (g'.writeMu == g.writeMu || (OwnOrFree(g.writeMu, t) && OwnOrFree(g'.writeMu, t)))
    && (g'.msgMu == g.msgMu || (MsgOwnOrFree(g.msgMu, t) && MsgOwnOrFree(g'.msgMu, t)))
    && (g'.handle == g.handle || g.handle == Closing(t) || g.handle == NoHandle ||
       (g.handle == Open && g'.handle == Closing(t)))
    && (g'.msgMu != g.msgMu && g.msgMu == Some(ByHandle) ==> g.writeMu == Some(Thread(t)))
  }

  /** ... and changes the fields of the message writer only under the mutex that guards them. */
  predicate RelyFields(g: Shared, g': Shared, t: nat) {
    && g'.log == g.log && g'.torn == g.torn && (g.closed ==> g'.closed)
    && (g'.wroteClose == g.wroteClose || g.wroteClose == None)
    && ((g'.opcode == g.opcode && g'.flate == g.flate) || g.writeMu == Some(Thread(t)) || g.msgMu == Some(ByThread(t)))
    && (g'.msgMu != g.msgMu && g'.msgMu == Some(ByHandle) ==> g.msgMu == Some(ByThread(t)) && IsMessageStart(g'.opcode))
  }

  lemma TokensRelied(e: Endpoint, t: nat, g: Shared, l: Local, a: CallAction)
    requires LocksOf(g, t, l) && CanCall(e, g, l, a) && (g.handle != NoHandle <==> g.msgMu == Some(ByHandle))
    ensures var g' := DoCall(e, t, g, l, a).g;
            RelyTokens(g, g', t) && (g.handle == Open && g'.handle != Open ==> a == StartWrite(CloseTask))
  {
    hide SentPayload, DoReturn, DoCheck, HoldsFrame;
    if a.Return? {
      ReturnTokens(t, g, l, l.pc.ok);
    } else if a.CheckWriter? {
      CheckTokens(t, g, l.call.task, a.big);
    }
  }

  lemma CheckTokens(t: nat, g: Shared, task: HandleTask, big: bool)
    requires task.CloseTask? ==> g.handle == Closing(t)
    ensures var g' := DoCheck(g, task, big).g; RelyTokens(g, g', t) && (g.handle == Open ==> g'.handle == Open)
  {
  }

  lemma ReturnTokens(t: nat, g: Shared, l: Local, ok: bool)
    requires LocksOf(g, t, l) && (g.handle != NoHandle <==> g.msgMu == Some(ByHandle))
    ensures var g' := DoReturn(g, l.call, ok).g; RelyTokens(g, g', t) && (g.handle == Open ==> g'.handle == Open)
  {
    hide HoldsFrame;
  }

  lemma FieldsRelied(e: Endpoint, t: nat, g: Shared, l: Local, a: CallAction)
    requires LocksOf(g, t, l) && ShapeOf(e, l) && CanCall(e, g, l, a) && !a.Return?
    ensures RelyFields(g, DoCall(e, t, g, l, a).g, t)
  {
    hide SentPayload, JobFits, InWrite, InClose, HoldsFrame, DoReturn, DoCheck;
    if a.CheckWriter? {
      CheckFields(t, g, l.call.task, a.big);
    }
  }

  lemma CheckFields(t: nat, g: Shared, task: HandleTask, big: bool)
    requires g.writeMu == Some(Thread(t))
    ensures RelyFields(g, DoCheck(g, task, big).g, t)
  {
  }

  lemma ReturnRelied(e: Endpoint, t: nat, g: Shared, l: Local)
    requires LocksOf(g, t, l) && CanCall(e, g, l, Return)
    ensures RelyFields(g, DoCall(e, t, g, l, Return).g, t)
  {
    hide RelyFields, DoReturn, LocksOf;
    ReturnFields(t, g, l, l.pc.ok);
  }

  lemma ReturnFields(t: nat, g: Shared, l: Local, ok: bool)
    requires LocksOf(g, t, l)
    ensures RelyFields(g, DoReturn(g, l.call, ok).g, t)
  {
    hide InWrite, InClose, HoldsFrame, HoldsMsg;
    if l.call.Direct? || l.call.ChunkFrame? {
      assert g.writeMu == Some(Thread(t));
    } else {
      hide LocksOf;
      assert DoReturn(g, l.call, ok).g in {g, g.(msgMu := None), g.(handle := Lost)};
    }
  }

  lemma OtherCall(e: Endpoint, g: Shared, g': Shared, t: nat, u: nat, m: Local)
    requires TokensOk(g) && TokensOk(g') && Of(e, g, u, m) && u != t && RelyTokens(g, g', t) && RelyFields(g, g', t)
    requires g.handle == Open && g'.handle != Open ==> !InWrite(m.call)
    ensures Of(e, g', u, m)
  {
    hide EncodeFrame, PlaceOf, CloseFree;
  }

  /** Every step of every thread keeps the invariant. */
  lemma StepKeepsInv(e: Endpoint, s: State, s': State, step: Step)
    requires Inv(e, s) && Next(e, s, s', step)
    ensures Inv(e, s')
  {
    hide LogOk, TokensOk, Of, DoFrame, DoCall;
    match step
    case FrameStep(t, a) =>
      assert Of(e, s.g, t, s.threads[t]);
      if a.Emit? {
        SelfEmit(e, t, s.g, s.threads[t], a.upTo);
      } else if a.Complete? {
        SelfComplete(e, t, s.g, s.threads[t]);
      } else if s.threads[t].pc.WantFrame? || s.threads[t].pc.HaveFrame? {
        SelfLock(e, t, s.g, s.threads[t], a);
      } else if s.threads[t].pc.Checking? || s.threads[t].pc.Waiting? {
        SelfEnter(e, t, s.g, s.threads[t], a);
      } else {
        SelfLeave(e, t, s.g, s.threads[t], a);
      }
      assert InRange(|s.threads|, s'.g.frameMu) && InRange(|s.threads|, s'.g.writeMu) by {
        TokensOfFrame(e, t, s.g, s.threads[t], a);
      }
      forall u | 0 <= u < |s'.threads|
        ensures Of(e, s'.g, u, s'.threads[u])
      {
        if u != t {
          assert Of(e, s.g, u, s.threads[u]);
          if a.Complete? {
            OtherComplete(e, t, s.g, s.threads[t], u, s.threads[u]);
          } else {
            OtherFrame(e, t, s.g, s.threads[t], a, u, s.threads[u]);
          }
        }
      }
    case CallStep(t, a) =>
      assert Of(e, s.g, t, s.threads[t]);
      SelfCall(e, t, s.g, s.threads[t], a);
      assert RelyTokens(s.g, s'.g, t) && RelyFields(s.g, s'.g, t) &&
        (s.g.handle == Open && s'.g.handle != Open ==> a == StartWrite(CloseTask)) by {
        CallReliedOn(e, t, s.g, s.threads[t], a);
      }
      assert InRange(|s.threads|, s'.g.frameMu) && InRange(|s.threads|, s'.g.writeMu);
      forall u | 0 <= u < |s'.threads|
        ensures Of(e, s'.g, u, s'.threads[u])
      {
        if u != t {
          assert Of(e, s.g, u, s.threads[u]);
          OtherCall(e, s.g, s'.g, t, u, s.threads[u]);
        }
      }
    case CleanFrameMu => CleanupKeepsInv(e, s, s', step);
    case CleanWriteMu => CleanupKeepsInv(e, s, s', step);
  }

  lemma TokensOfFrame(e: Endpoint, t: nat, g: Shared, l: Local, a: FrameAction)
    requires CanFrame(g, l, a)
    ensures DoFrame(e, t, g, l, a).g.frameMu in {g.frameMu, None, Some(Thread(t))}
    ensures DoFrame(e, t, g, l, a).g.writeMu == g.writeMu
  {
    hide EncodeFrame;
  }

  lemma CallReliedOn(e: Endpoint, t: nat, g: Shared, l: Local, a: CallAction)
    requires TokensOk(g) && Of(e, g, t, l) && CanCall(e, g, l, a)
    ensures var g' := DoCall(e, t, g, l, a).g;
            && RelyTokens(g, g', t) && RelyFields(g, g', t)
            && (g.handle == Open && g'.handle != Open ==> a == StartWrite(CloseTask))
  {
    hide DoCall, CanCall, LocksOf, ShapeOf, RelyTokens, RelyFields;
    TokensRelied(e, t, g, l, a);
    if a.Return? {
      ReturnRelied(e, t, g, l);
    } else {
      FieldsRelied(e, t, g, l, a);
    }
  }

  lemma CleanupKeepsInv(e: Endpoint, s: State, s': State, step: Step)
    requires Inv(e, s) && Next(e, s, s', step) && (step.CleanFrameMu? || step.CleanWriteMu?)
    ensures Inv(e, s')
  {
    hide EncodeFrame, EncodeAll, FramesOf, Good, PlaceOf, PartOfFrame, CloseFree, CloseLast;
    forall u | 0 <= u < |s'.threads|
      ensures Of(e, s'.g, u, s'.threads[u])
    {
      assert Of(e, s.g, u, s.threads[u]);
    }
  }

  lemma InitInv(e: Endpoint, s: State)
    requires Init(s)
    ensures Inv(e, s)
  {
    StartLog();
    hide LogOk;
    assert PlaceOf([]) == Between && CloseFree([]);
  }

  lemma StartLog()
    ensures LogOk(START)
  {
    hide EncodeFrame, PartOfFrame;
    FirstOctets(Frame(true, false, PING, false, 0, []), 0);
    assert FramesOf([]) == [];
  }
}
