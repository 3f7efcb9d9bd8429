/** The write and close paths of a connection under concurrency: any number of threads, any interleaving of their steps.

    A thread runs one of the calls Write, Writer, msgWriter.Write, msgWriter.Close, Ping (or the pong answered to one),
    and Close. Every step is one access to shared state: a send or receive on a mutex channel, a critical section of
    closeMu, a poll of the closed channel, a field of the shared msgWriter, or a piece of a frame put into the buffer.
    Contexts may expire at any wait. The token in a mutex channel carries, for the proof, the name of its sender. */
module WriteProtocol {
  import opened Octets
  import opened FrameHeader
  import opened CloseFrame
  import opened Frames

  // ----- state -----

  datatype Endpoint = Endpoint(client: bool, compress: bool)

  /** The octets of a slice: no slice is longer. */
  type Slice = p: seq<byte> | |p| < INT64_LIMIT

  /** The arguments of a writeFrame call; deflated tells whether the payload came out of the deflater, and since how
      many frames had been written when the call was made. */
  datatype Job = Job(fin: bool, flate: bool, opcode: Opcode, payload: Slice, deflated: bool, since: nat)

  /** Where a thread is inside writeFrame. */
  datatype FramePc =
    | Out
    | WantFrame(job: Job)
    | HaveFrame(job: Job)
    | Checking(job: Job)
    | Waiting(job: Job)
    | Ready(job: Job)
    | Emitting(job: Job, frame: Frame, sent: nat)
    | Failing(job: Job)
    | Emitted(job: Job)
    | Leaving(job: Job, ok: bool)
    | Done(job: Job, ok: bool)

  datatype MsgTask = WholeTask(typ: Opcode, p: Slice) | OpenTask(typ: Opcode)
  datatype HandleTask = WriteTask(p: Slice) | CloseTask

  /** Where a thread is outside writeFrame. */
  datatype Call =
    | Idle
    | Control(op: Opcode, p: Slice)
    | CloseTest(ce: CloseError)
    | CloseSend(ce: CloseError)
    | CloseEnd
    | WantMsg(msg: MsgTask)
    | HaveMsg(msg: MsgTask)
    | Reset(msg: MsgTask)
    | Whole(msg: MsgTask)
    | WantWrite(task: HandleTask)
    | HaveWrite(task: HandleTask)
    | Check(task: HandleTask)
    | Direct(p: Slice)
    | Chunks(closing: bool)
    | ChunkFrame(closing: bool, p: Slice)
    | Final
    | FreeMsg
    | WriteFail
    | FreeWrite(closing: bool)

  datatype Local = Local(call: Call, pc: FramePc)

  datatype Holder = Thread(t: nat) | Cleanup
  datatype MsgHolder = ByThread(t: nat) | ByHandle

  /** The writer handle that Writer returned last. */
  datatype Handle = NoHandle | Open | Closing(t: nat) | Lost

  /** A frame that was written, and by which thread. */
  datatype Sent = Sent(frame: Frame, deflated: bool, writer: nat)

  /** What the threads share. stream is what was put into the buffered writer: the first flushed octets of it have been
      given to the connection, the others are in the buffer. torn is the part of stream after the last whole frame. */
  datatype Shared = Shared(
    frameMu: Option<Holder>,
    writeMu: Option<Holder>,
    msgMu: Option<MsgHolder>,
    wroteClose: Option<nat>,
    closed: bool,
    recycled: bool,
    opcode: Opcode,
    flate: bool,
    mwClosed: bool,
    handle: Handle,
    stream: seq<byte>,
    torn: seq<byte>,
    flushed: nat,
    log: seq<Sent>)

  datatype State = State(g: Shared, threads: seq<Local>)

  const START: Shared := Shared(None, None, None, None, false, false, CONTINUATION, false, false, NoHandle,
    [], [], 0, [])

  predicate Init(s: State) {
    s.g == START && forall t | 0 <= t < |s.threads| :: s.threads[t] == Local(Idle, Out)
  }

  /** What a step leaves: the shared state and the state of the thread that took it. */
  datatype Effect = Effect(g: Shared, l: Local)

  // ----- writeFrame -----

  function FrameOf(e: Endpoint, j: Job, key: bv32): Frame {
    Frame(j.fin, j.flate && IsMessageStart(j.opcode), j.opcode, e.client, key, j.payload)
  }

  datatype FrameAction =
    | TakeFrameMu
    | LockClosed
    | LockExpired
    | RecheckClosed
    | RecheckOpen
    | SeeClose
    | SeeNoClose
    | StopWaiting
    | ReadyClosed
    | Begin(key: bv32)
    | Emit(upTo: nat)
    | Flush(upTo: nat)
    | EmitError
    | Complete
    | CloseOnError
    | FinishOk
    | FinishClosed
    | ReleaseFrameMu

  /** The steps of writeFrame that a thread can take. */
  predicate CanFrame(g: Shared, l: Local, a: FrameAction) {
    var pc := l.pc;
    match a
    case TakeFrameMu => pc.WantFrame? && g.frameMu == None
    case LockClosed => pc.WantFrame? && g.closed
    case LockExpired => pc.WantFrame?
    case RecheckClosed => pc.HaveFrame? && g.closed
    case RecheckOpen => pc.HaveFrame? && !g.closed
    case SeeClose => pc.Checking? && g.wroteClose.Some? && pc.job.opcode != CLOSE
    case SeeNoClose => pc.Checking? && (g.wroteClose == None || pc.job.opcode == CLOSE)
    case StopWaiting => pc.Waiting?
    case ReadyClosed => pc.Ready? && g.closed
    case Begin(_) => pc.Ready?
    case Emit(n) => pc.Emitting? && pc.sent < n <= |EncodeFrame(pc.frame)|
    // The buffer is flushed whenever it is full, as far as the connection takes it, and behind a final frame.
    case Flush(n) => pc.Emitting? && g.flushed <= n <= |g.stream|
    case EmitError => pc.Emitting?
    case Complete => pc.Emitting? && pc.sent == |EncodeFrame(pc.frame)| && (pc.frame.fin ==> g.flushed == |g.stream|)
    case CloseOnError => pc.Failing?
    case FinishOk => pc.Emitted?
    case FinishClosed => pc.Emitted? && g.closed && pc.job.opcode != CLOSE
    case ReleaseFrameMu => pc.Leaving?
  }

  function DoFrame(e: Endpoint, t: nat, g: Shared, l: Local, a: FrameAction): Effect
    requires CanFrame(g, l, a)
  {
    var pc := l.pc;
    var j := pc.job;
    match a
    case TakeFrameMu => Effect(g.(frameMu := Some(Thread(t))), l.(pc := HaveFrame(j)))
    case LockClosed => Effect(g, l.(pc := Done(j, false)))
    case LockExpired => Effect(g.(closed := true), l.(pc := Done(j, false)))
    case RecheckClosed => Effect(g.(frameMu := None), l.(pc := Done(j, false)))
    case RecheckOpen => Effect(g, l.(pc := Checking(j)))
    case SeeClose => Effect(g.(frameMu := None), l.(pc := Waiting(j)))
    case SeeNoClose => Effect(g, l.(pc := Ready(j)))
    case StopWaiting => Effect(g, l.(pc := Done(j, false)))
    case ReadyClosed => Effect(g, l.(pc := Leaving(j, false)))
    case Begin(key) => Effect(g, l.(pc := Emitting(j, FrameOf(e, j, key), 0)))
    case Emit(n) =>
      var piece := EncodeFrame(pc.frame)[pc.sent..n];
      Effect(g.(stream := g.stream + piece, torn := g.torn + piece), l.(pc := Emitting(j, pc.frame, n)))
    case Flush(n) => Effect(g.(flushed := n), l)
    case EmitError => Effect(g, l.(pc := Failing(j)))
    case Complete => Effect(g.(log := g.log + [Sent(pc.frame, j.deflated, t)], torn := []), l.(pc := Emitted(j)))
    case CloseOnError => Effect(g.(closed := true), l.(pc := Leaving(j, false)))
    case FinishOk => Effect(g, l.(pc := Leaving(j, true)))
    case FinishClosed => Effect(g, l.(pc := Leaving(j, false)))
    case ReleaseFrameMu => Effect(g.(frameMu := None), l.(pc := Done(j, pc.ok)))
  }

  // ----- the calls -----

  datatype CallAction =
    | StartControl(op: Opcode, p: Slice)
    | StartClose(ce: CloseError)
    | TestAndSet
    | CloseNow
    | StartMsg(msg: MsgTask)
    | TakeMsgMu
    | RecheckMsgMu
    | DoReset
    | StartWrite(task: HandleTask)
    | TakeWriteMu
    | RecheckWriteMu
    | LockFails(expired: bool)
    | CheckWriter(big: bool)
    | Chunk(p: Slice)
    | ChunksEnd
    | Return
    | ReleaseMsgMu
    | CloseAfterFail
    | ReleaseWriteMu

  predicate InWrite(c: Call) {
    match c
    case WantWrite(task) => task.WriteTask?
    case HaveWrite(task) => task.WriteTask?
    case Check(task) => task.WriteTask?
    case Direct(_) => true
    case Chunks(closing) => !closing
    case ChunkFrame(closing, _) => !closing
    case WriteFail => true
    case FreeWrite(closing) => !closing
    case _ => false
  }

  predicate CanCall(e: Endpoint, g: Shared, l: Local, a: CallAction) {
    var call := l.call;
    match a
    case StartControl(op, p) => call.Idle? && (op == PING || op == PONG) && |p| <= MAX_CONTROL_PAYLOAD
    case StartClose(_) => call.Idle?
    case TestAndSet => call.CloseTest?
    case CloseNow => call.Idle? || call.CloseEnd?
    case StartMsg(msg) => call.Idle? && IsMessageStart(msg.typ) && (msg.WholeTask? ==> !e.compress)
    case TakeMsgMu => call.WantMsg? && g.msgMu == None
    case RecheckMsgMu => call.HaveMsg?
    case DoReset => call.Reset?
    case StartWrite(_) => call.Idle? && g.handle == Open
    case TakeWriteMu => call.WantWrite? && g.writeMu == None
    case RecheckWriteMu => call.HaveWrite?
    case LockFails(expired) => (call.WantMsg? || call.WantWrite?) && (expired || g.closed)
    case CheckWriter(big) => call.Check? && (big ==> e.compress)
    case Chunk(_) => call.Chunks?
    case ChunksEnd => call.Chunks?
    case Return => l.pc.Done?
    case ReleaseMsgMu => call.FreeMsg?
    case CloseAfterFail => call.WriteFail?
    case ReleaseWriteMu => call.FreeWrite?
  }

  /** Back to the caller. */
  function Ret(g: Shared): Effect {
    Effect(g, Local(Idle, Out))
  }

  function Goto(g: Shared, call: Call): Effect {
    Effect(g, Local(call, Out))
  }

  /** A Close of the handle that gives up before it releases the message mutex loses the handle. */
  function LoseHandle(g: Shared, task: HandleTask): Shared {
    if task.CloseTask? then g.(handle := Lost) else g
  }

  /** msgWriter.Write and msgWriter.Close, once they hold writeMu. */
  function DoCheck(g: Shared, task: HandleTask, big: bool): Effect {
    if g.mwClosed then Goto(LoseHandle(g, task), FreeWrite(task.CloseTask?))
    else if task.CloseTask? then
      var g1 := g.(mwClosed := true);
      if g.flate then Goto(g1, Chunks(true))
      else Effect(g1, Local(Final, WantFrame(Job(true, false, g.opcode, [], false, |g.log|))))
    // Compression starts only before the first frame, with a Write that reaches the threshold.
    else if g.flate || (big && g.opcode != CONTINUATION) then Goto(g.(flate := true), Chunks(false))
    else Effect(g, Local(Direct(task.p), WantFrame(Job(false, false, g.opcode, task.p, false, |g.log|))))
  }

  /** What a call does when its writeFrame returns. */
  function DoReturn(g: Shared, call: Call, ok: bool): Effect {
    match call
    case CloseSend(_) => Goto(g, CloseEnd)
    case Whole(_) => Ret(g.(msgMu := None))
    case Direct(_) => if ok then Goto(g.(opcode := CONTINUATION), FreeWrite(false)) else Goto(g, WriteFail)
    case ChunkFrame(closing, _) =>
      if ok then Goto(g.(opcode := CONTINUATION), Chunks(closing))
      else if closing then Goto(g.(handle := Lost), FreeWrite(true))
      else Goto(g, WriteFail)
    case Final => if ok then Goto(g, FreeMsg) else Goto(g.(handle := Lost), FreeWrite(true))
    case _ => Ret(g)
  }

  function DoCall(e: Endpoint, t: nat, g: Shared, l: Local, a: CallAction): Effect
    requires CanCall(e, g, l, a)
  {
    var call := l.call;
    match a
    case StartControl(op, p) => Effect(g, Local(Control(op, p), WantFrame(Job(true, false, op, p, false, |g.log|))))
    case StartClose(ce) => Goto(g, CloseTest(ce))
    case TestAndSet =>
      SentPayloadFits(call.ce);
      if g.wroteClose.Some? then Goto(g, CloseEnd)
      else Effect(g.(wroteClose := Some(t)),
        Local(CloseSend(call.ce), WantFrame(Job(true, false, CLOSE, SentPayload(call.ce), false, |g.log|))))
    case CloseNow => Ret(g.(closed := true))
    case StartMsg(msg) => Goto(g, WantMsg(msg))
    case TakeMsgMu => Goto(g.(msgMu := Some(ByThread(t))), HaveMsg(call.msg))
    case RecheckMsgMu => if g.closed then Ret(g.(msgMu := None)) else Goto(g, Reset(call.msg))
    case DoReset =>
      var g1 := g.(opcode := call.msg.typ, flate := false, mwClosed := false);
      if call.msg.WholeTask? then
        Effect(g1, Local(Whole(call.msg), WantFrame(Job(true, false, g1.opcode, call.msg.p, false, |g.log|))))
      else Ret(g1.(msgMu := Some(ByHandle), handle := Open))
    case StartWrite(task) => Goto(if task.CloseTask? then g.(handle := Closing(t)) else g, WantWrite(task))
    case TakeWriteMu => Goto(g.(writeMu := Some(Thread(t))), HaveWrite(call.task))
    case RecheckWriteMu =>
      if g.closed then Ret(LoseHandle(g, call.task).(writeMu := None)) else Goto(g, Check(call.task))
    case LockFails(expired) =>
      var g1 := g.(closed := g.closed || expired);
      if call.WantMsg? then Ret(g1) else Ret(LoseHandle(g1, call.task))
    case CheckWriter(big) => DoCheck(g, call.task, big)
    case Chunk(p) =>
      Effect(g, Local(ChunkFrame(call.closing, p), WantFrame(Job(false, g.flate, g.opcode, p, true, |g.log|))))
    case ChunksEnd =>
      if call.closing then Effect(g, Local(Final, WantFrame(Job(true, g.flate, g.opcode, [], g.flate, |g.log|))))
      else Goto(g, FreeWrite(false))
    case Return => DoReturn(g, call, l.pc.ok)
    case ReleaseMsgMu => Goto(g.(msgMu := None, handle := NoHandle), FreeWrite(true))
    case CloseAfterFail => Goto(g.(closed := true), FreeWrite(false))
    case ReleaseWriteMu => Ret(g.(writeMu := None))
  }

  // ----- runs -----

  datatype Step =
    | FrameStep(t: nat, frame: FrameAction)
    | CallStep(t: nat, call: CallAction)
    | CleanFrameMu
    | CleanWriteMu

  /** A handle is used only between its Writer call and its Close: Close starts when no Write on it is in progress. */
  predicate HandleDiscipline(s: State, a: CallAction) {
    a == StartWrite(CloseTask) ==> forall u | 0 <= u < |s.threads| :: !InWrite(s.threads[u].call)
  }

  predicate Next(e: Endpoint, s: State, s': State, step: Step) {
    match step
    case FrameStep(t, a) =>
      t < |s.threads| && CanFrame(s.g, s.threads[t], a) &&
      var x := DoFrame(e, t, s.g, s.threads[t], a); s' == State(x.g, s.threads[t := x.l])
    case CallStep(t, a) =>
      t < |s.threads| && CanCall(e, s.g, s.threads[t], a) && HandleDiscipline(s, a) &&
      var x := DoCall(e, t, s.g, s.threads[t], a); s' == State(x.g, s.threads[t := x.l])
    // The goroutine that close starts: a client takes writeFrameMu for good, then gives its buffer back to the pool.
    case CleanFrameMu =>
      s.g.closed && e.client && !s.g.recycled && s.g.frameMu == None &&
        s' == s.(g := s.g.(frameMu := Some(Cleanup), recycled := true))
    case CleanWriteMu =>
      s.g.closed && (e.client ==> s.g.recycled) && s.g.writeMu == None && s' == s.(g := s.g.(writeMu := Some(Cleanup)))
  }

  /** What has been given to the connection. */
  function WireOf(g: Shared): seq<byte>
    requires g.flushed <= |g.stream|
  {
    g.stream[..g.flushed]
  }

  /** A run: states joined by steps, one step of some thread at a time. */
  ghost predicate Run(e: Endpoint, run: seq<State>, steps: seq<Step>) {
    && |run| == |steps| + 1 && Init(run[0])
    && forall i | 0 <= i < |steps| :: Next(e, run[i], run[i + 1], steps[i])
  }
}
