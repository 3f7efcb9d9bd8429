/** A run in which a Write succeeds and its frame stays in the buffer. */
module WriteBuffered {
  import opened Octets
  import opened FrameHeader
  import opened Frames
  import opened WriteProtocol
  import opened WriteInvariant

  const JOB := Job(false, false, TEXT, [0], false, 0)

  function TheFrame(e: Endpoint): Frame {
    FrameOf(e, JOB, 0)
  }

  /** One thread, alone. */
  function Alone(g: Shared, call: Call, pc: FramePc): State {
    State(g, [Local(call, pc)])
  }

  // The shared state: at the start, with a message being opened, with a handle, while it is written to,
  // while a frame is.
  const OPENING := START.(msgMu := Some(ByThread(0)))
  const OPENED := START.(opcode := TEXT, msgMu := Some(ByHandle), handle := Open)
  const WRITING := OPENED.(writeMu := Some(Thread(0)))
  const FRAMING := WRITING.(frameMu := Some(Thread(0)))

  function Emitted(e: Endpoint): Shared {
    FRAMING.(stream := EncodeFrame(TheFrame(e)), torn := EncodeFrame(TheFrame(e)))
  }

  function Written(e: Endpoint): Shared {
    Emitted(e).(torn := [], log := [Sent(TheFrame(e), false, 0)])
  }

  function States(e: Endpoint): seq<State> {
    [ Alone(START, Idle, Out),
      Alone(START, WantMsg(OpenTask(TEXT)), Out),
      Alone(OPENING, HaveMsg(OpenTask(TEXT)), Out),
      Alone(OPENING, Reset(OpenTask(TEXT)), Out),
      Alone(OPENED, Idle, Out),
      Alone(OPENED, WantWrite(WriteTask([0])), Out),
      Alone(WRITING, HaveWrite(WriteTask([0])), Out),
      Alone(WRITING, Check(WriteTask([0])), Out),
      Alone(WRITING, Direct([0]), WantFrame(JOB)),
      Alone(FRAMING, Direct([0]), HaveFrame(JOB)),
      Alone(FRAMING, Direct([0]), Checking(JOB)),
      Alone(FRAMING, Direct([0]), Ready(JOB)),
      Alone(FRAMING, Direct([0]), Emitting(JOB, TheFrame(e), 0)),
      Alone(Emitted(e), Direct([0]), Emitting(JOB, TheFrame(e), |EncodeFrame(TheFrame(e))|)),
      Alone(Written(e), Direct([0]), FramePc.Emitted(JOB)),
      Alone(Written(e), Direct([0]), Leaving(JOB, true)),
      Alone(Written(e).(frameMu := None), Direct([0]), Done(JOB, true)) ]
  }

  function Steps(e: Endpoint): seq<Step> {
    [ CallStep(0, StartMsg(OpenTask(TEXT))), CallStep(0, TakeMsgMu), CallStep(0, RecheckMsgMu), CallStep(0, DoReset),
      CallStep(0, StartWrite(WriteTask([0]))), CallStep(0, TakeWriteMu), CallStep(0, RecheckWriteMu),
      CallStep(0, CheckWriter(false)),
      FrameStep(0, TakeFrameMu), FrameStep(0, RecheckOpen), FrameStep(0, SeeNoClose), FrameStep(0, Begin(0)),
      FrameStep(0, Emit(|EncodeFrame(TheFrame(e))|)), FrameStep(0, Complete), FrameStep(0, FinishOk),
      FrameStep(0, ReleaseFrameMu) ]
  }

  lemma CallTakes(e: Endpoint, g: Shared, l: Local, a: CallAction, g': Shared, l': Local)
    requires CanCall(e, g, l, a) && a != StartWrite(CloseTask) && DoCall(e, 0, g, l, a) == Effect(g', l')
    ensures Next(e, State(g, [l]), State(g', [l']), CallStep(0, a))
  {
    hide DoCall, CanCall;
    assert [l][0 := l'] == [l'];
  }

  lemma FrameTakes(e: Endpoint, g: Shared, l: Local, a: FrameAction, g': Shared, l': Local)
    requires CanFrame(g, l, a) && DoFrame(e, 0, g, l, a) == Effect(g', l')
    ensures Next(e, State(g, [l]), State(g', [l']), FrameStep(0, a))
  {
    hide DoFrame, CanFrame;
    assert [l][0 := l'] == [l'];
  }

  lemma FrameHasOctets(f: Frame)
    ensures |EncodeFrame(f)| > 0
  {
  }

  lemma OpensMessage(e: Endpoint, i: nat)
    requires i < 4
    ensures Next(e, States(e)[i], States(e)[i + 1], Steps(e)[i])
  {
    hide Next, EncodeFrame;
    CallTakes(e, States(e)[i].g, States(e)[i].threads[0], Steps(e)[i].call,
      States(e)[i + 1].g, States(e)[i + 1].threads[0]);
  }

  lemma EntersWrite(e: Endpoint, i: nat)
    requires 4 <= i < 8
    ensures Next(e, States(e)[i], States(e)[i + 1], Steps(e)[i])
  {
    hide Next, EncodeFrame;
    CallTakes(e, States(e)[i].g, States(e)[i].threads[0], Steps(e)[i].call,
      States(e)[i + 1].g, States(e)[i + 1].threads[0]);
  }

  lemma EntersFrame(e: Endpoint, i: nat)
    requires 8 <= i < 12
    ensures Next(e, States(e)[i], States(e)[i + 1], Steps(e)[i])
  {
    hide Next, EncodeFrame;
    FrameTakes(e, States(e)[i].g, States(e)[i].threads[0], Steps(e)[i].frame,
      States(e)[i + 1].g, States(e)[i + 1].threads[0]);
  }

  lemma EmitsFrame(e: Endpoint)
    ensures Next(e, States(e)[12], States(e)[13], Steps(e)[12])
  {
    hide Next, EncodeFrame, TheFrame;
    var all := EncodeFrame(TheFrame(e));
    assert |all| > 0 by { FrameHasOctets(TheFrame(e)); }
    assert all[0..|all|] == all && [] + all == all;
    var l, l' := Local(Direct([0]), Emitting(JOB, TheFrame(e), 0)),
      Local(Direct([0]), Emitting(JOB, TheFrame(e), |all|));
    assert DoFrame(e, 0, FRAMING, l, Emit(|all|)) == Effect(Emitted(e), l');
    hide DoFrame, CanFrame;
    FrameTakes(e, FRAMING, l, Emit(|all|), Emitted(e), l');
  }

  lemma LeavesFrame(e: Endpoint, i: nat)
    requires 13 <= i < 16
    ensures Next(e, States(e)[i], States(e)[i + 1], Steps(e)[i])
  {
    hide Next, EncodeFrame;
    FrameTakes(e, States(e)[i].g, States(e)[i].threads[0], Steps(e)[i].frame,
      States(e)[i + 1].g, States(e)[i + 1].threads[0]);
  }

  /** For either role, with compression or without: a handle is opened and written to. The Write reports success, its
      frame has been written, and not one octet of it has been given to the connection. */
  lemma SuccessMayBeBuffered(e: Endpoint)
    ensures Run(e, States(e), Steps(e))
    ensures var s := States(e)[16];
            && s.threads[0].pc == Done(JOB, true) && s.threads[0].call == Direct([0])
            && s.g.log == [Sent(TheFrame(e), false, 0)] && !TheFrame(e).fin && TheFrame(e).payload == [0]
            && s.g.flushed == 0 < |EncodeAll(FramesOf(s.g.log[..1]))|
  {
    hide Next, EncodeFrame;
    FrameHasOctets(TheFrame(e));
    forall i | 0 <= i < 16
      ensures Next(e, States(e)[i], States(e)[i + 1], Steps(e)[i])
    {
      if i < 4 {
        OpensMessage(e, i);
      } else if i < 8 {
        EntersWrite(e, i);
      } else if i < 12 {
        EntersFrame(e, i);
      } else if i == 12 {
        EmitsFrame(e);
      } else {
        LeavesFrame(e, i);
      }
    }
    var g := States(e)[16].g;
    assert FramesOf(g.log[..1]) == [TheFrame(e)];
    assert EncodeAll([TheFrame(e)]) == EncodeFrame(TheFrame(e)) + EncodeAll([]);
  }
}
