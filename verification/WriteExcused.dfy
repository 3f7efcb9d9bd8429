/** A run in which a Ping comes back without its frame, on a connection that is not closed. */
module WriteExcused {
  import opened Octets
  import opened FrameHeader
  import opened CloseFrame
  import opened WriteProtocol
  import opened WriteCalls

  const PINGING := Job(true, false, PING, [], false, 0)

  function Closing(ce: CloseError): Job {
    SentPayloadFits(ce);
    Job(true, false, CLOSE, SentPayload(ce), false, 0)
  }

  const ASKED := START.(wroteClose := Some(0))
  const HELD := ASKED.(frameMu := Some(Thread(1)))

  /** Two threads: the first in a Close, the second in a Ping. */
  function Both(ce: CloseError, g: Shared, pc: FramePc): State {
    State(g, [Local(CloseSend(ce), WantFrame(Closing(ce))), Local(Control(PING, []), pc)])
  }

  function States(ce: CloseError): seq<State> {
    [ State(START, [Local(Idle, Out), Local(Idle, Out)]),
      State(START, [Local(CloseTest(ce), Out), Local(Idle, Out)]),
      State(ASKED, [Local(CloseSend(ce), WantFrame(Closing(ce))), Local(Idle, Out)]),
      Both(ce, ASKED, WantFrame(PINGING)),
      Both(ce, HELD, HaveFrame(PINGING)),
      Both(ce, HELD, Checking(PINGING)),
      Both(ce, ASKED, Waiting(PINGING)),
      Both(ce, ASKED, Done(PINGING, false)),
      State(ASKED, [Local(CloseSend(ce), WantFrame(Closing(ce))), Local(Idle, Out)]) ]
  }

  function Steps(ce: CloseError): seq<Step> {
    [ CallStep(0, StartClose(ce)), CallStep(0, TestAndSet), CallStep(1, StartControl(PING, [])),
      FrameStep(1, TakeFrameMu), FrameStep(1, RecheckOpen), FrameStep(1, SeeClose), FrameStep(1, StopWaiting),
      CallStep(1, Return) ]
  }

  lemma CallTaken(e: Endpoint, ce: CloseError, i: nat)
    requires i in {0, 1, 2, 7}
    ensures Next(e, States(ce)[i], States(ce)[i + 1], Steps(ce)[i])
  {
    hide SentPayload, DoCheck;
    assert States(ce)[i + 1].threads ==
           States(ce)[i].threads[Steps(ce)[i].t := States(ce)[i + 1].threads[Steps(ce)[i].t]];
  }

  lemma FrameTaken(e: Endpoint, ce: CloseError, i: nat)
    requires 3 <= i < 7
    ensures Next(e, States(ce)[i], States(ce)[i + 1], Steps(ce)[i])
  {
    hide SentPayload;
    assert States(ce)[i + 1].threads == States(ce)[i].threads[1 := States(ce)[i + 1].threads[1]];
  }

  /** Whatever the code and reason, for either role: after a Close has set wroteClose, before its frame is sent, a Ping
      sees it, gives up when its context expires, and is back with its caller unanswered. The connection is open. */
  lemma PingGivesUp(e: Endpoint, ce: CloseError)
    ensures Run(e, States(ce), Steps(ce))
    ensures var s := States(ce)[8];
            && !s.g.closed && s.threads[1].call == Idle && s.g.log == []
            && MadeBy(Steps(ce), 1) == [StartControl(PING, [])]
            && AnsweredTo(Order(DiaryOf(States(ce), Steps(ce), 8)), 1) == []
  {
    hide Next, SentPayload;
    forall i | 0 <= i < 8
      ensures Next(e, States(ce)[i], States(ce)[i + 1], Steps(ce)[i])
    {
      if 3 <= i < 7 {
        FrameTaken(e, ce, i);
      } else {
        CallTaken(e, ce, i);
      }
    }
    CallsOfThePing(ce, 8);
    NothingAnswered(ce, 8);
    assert Steps(ce)[..8] == Steps(ce);
  }

  lemma {:induction false} CallsOfThePing(ce: CloseError, i: nat)
    requires i <= 8
    ensures MadeBy(Steps(ce)[..i], 1) == if i < 3 then [] else [StartControl(PING, [])]
  {
    if i > 0 {
      assert Steps(ce)[..i][..i - 1] == Steps(ce)[..i - 1];
      CallsOfThePing(ce, i - 1);
    }
  }

  /** A step that answers no call. */
  predicate Quiet(step: Step) {
    match step
    case FrameStep(_, a) => !a.Complete?
    case CallStep(_, a) => !a.DoReset? && !a.ChunksEnd?
    case _ => true
  }

  lemma QuietEntry(diary: seq<Entry>, s: State, step: Step)
    requires Quiet(step)
    ensures var more := EntryOf(diary, s, step); |more| <= 1 && (more != [] ==> more[0].Made?)
  {
  }

  lemma AllQuiet(ce: CloseError)
    ensures forall i | 0 <= i < 8 :: Quiet(Steps(ce)[i])
  {
  }

  lemma {:induction false} NothingAnswered(ce: CloseError, i: nat)
    requires i <= 8
    ensures Order(DiaryOf(States(ce), Steps(ce), i)) == []
  {
    hide LastOf, EntryOf, Quiet;
    if i > 0 {
      NothingAnswered(ce, i - 1);
      AllQuiet(ce);
      var run, steps := States(ce), Steps(ce);
      hide States, Steps;
      var diary := DiaryOf(run, steps, i - 1);
      QuietEntry(diary, run[i - 1], steps[i - 1]);
      OrderSnoc(diary, EntryOf(diary, run[i - 1], steps[i - 1]));
    }
  }
}
