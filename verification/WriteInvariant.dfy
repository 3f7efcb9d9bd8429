/** What every step of the write protocol keeps. */
module WriteInvariant {
  import opened Octets
  import opened FrameHeader
  import opened CloseFrame
  import opened Frames
  import opened WriteProtocol

  // ----- what has been sent -----

  /** Where the data frames sent so far leave the peer: between messages, or inside one that is or is not compressed. */
  datatype Place = Between | Inside(deflated: bool)

  /** What may be sent next: sections 5.4 and 5.5 of RFC 6455, and RSV1 exactly on the first frame of a message whose
      payload came out of the deflater (section 6.1 of RFC 7692). */
  predicate Allowed(p: Place, x: Sent) {
    if IsControl(x.frame.opcode) then x.frame.fin && !x.frame.rsv1 && |x.frame.payload| <= MAX_CONTROL_PAYLOAD
    else match p
      case Between => IsMessageStart(x.frame.opcode) && x.frame.rsv1 == x.deflated
      case Inside(deflated) => x.frame.opcode == CONTINUATION && !x.frame.rsv1 && x.deflated == deflated
  }

  function PlaceAfter(p: Place, x: Sent): Place {
    if IsControl(x.frame.opcode) then p else if x.frame.fin then Between else Inside(x.deflated)
  }

  function PlaceOf(log: seq<Sent>): Place {
    if log == [] then Between else PlaceAfter(PlaceOf(log[..|log| - 1]), log[|log| - 1])
  }

  /** A prefix of a well-formed sequence of frames. */
  predicate Good(log: seq<Sent>) {
    log == [] || (Good(log[..|log| - 1]) && Allowed(PlaceOf(log[..|log| - 1]), log[|log| - 1]))
  }

  predicate CloseFree(log: seq<Sent>) {
    forall i | 0 <= i < |log| :: log[i].frame.opcode != CLOSE
  }

  /** At most one close frame, and nothing after it. */
  predicate CloseLast(log: seq<Sent>) {
    forall i | 0 <= i < |log| - 1 :: log[i].frame.opcode != CLOSE
  }

  function FramesOf(log: seq<Sent>): seq<Frame> {
    seq(|log|, i requires 0 <= i < |log| => log[i].frame)
  }

  lemma SentOne(log: seq<Sent>, x: Sent)
    ensures PlaceOf(log + [x]) == PlaceAfter(PlaceOf(log), x)
    ensures Good(log + [x]) <==> Good(log) && Allowed(PlaceOf(log), x)
    ensures CloseFree(log + [x]) <==> CloseFree(log) && x.frame.opcode != CLOSE
    ensures CloseFree(log) ==> CloseLast(log + [x])
    ensures EncodeAll(FramesOf(log + [x])) == EncodeAll(FramesOf(log)) + EncodeFrame(x.frame)
  {
    hide EncodeFrame, EncodeAll;
    var all := log + [x];
    assert all[..|all| - 1] == log && all[|all| - 1] == x;
    assert FramesOf(all) == FramesOf(log) + [x.frame];
    EncodeAllSnoc(FramesOf(log), x.frame);
    assert CloseFree(all) ==> CloseFree(log) && x.frame.opcode != CLOSE by {
      assert forall i | 0 <= i < |log| :: all[i] == log[i];
    }
  }

  // ----- the mutexes and the writer handle -----

  predicate HoldsFrame(pc: FramePc) {
    pc.HaveFrame? || pc.Checking? || pc.Ready? || pc.Emitting? || pc.Failing? || pc.Emitted? || pc.Leaving?
  }

  predicate HoldsMsg(c: Call) {
    c.HaveMsg? || c.Reset? || c.Whole?
  }

  predicate HoldsWrite(c: Call) {
    || c.HaveWrite? || c.Check? || c.Direct? || c.Chunks? || c.ChunkFrame? || c.Final? || c.FreeMsg? || c.WriteFail?
    || c.FreeWrite?
  }

  /** The Close of a handle, up to the release of the message mutex. */
  predicate InClose(c: Call) {
    match c
    case WantWrite(task) => task.CloseTask?
    case HaveWrite(task) => task.CloseTask?
    case Check(task) => task.CloseTask?
    case Chunks(closing) => closing
    case ChunkFrame(closing, _) => closing
    case Final => true
    case FreeMsg => true
    case _ => false
  }

  /** A thread is in a critical section exactly when the token in the channel is its own, and uses a handle only while
      that is open or being closed by it. */
  predicate LocksOf(g: Shared, t: nat, l: Local) {
    && (HoldsFrame(l.pc) <==> g.frameMu == Some(Thread(t)))
    && (HoldsWrite(l.call) <==> g.writeMu == Some(Thread(t)))
    && (HoldsMsg(l.call) <==> g.msgMu == Some(ByThread(t)))
    && (InWrite(l.call) ==> g.handle == Open)
    && (InClose(l.call) ==> g.handle == Closing(t))
  }

  // ----- the jobs of the calls -----

  predicate InFrame(c: Call) {
    c.Control? || c.CloseSend? || c.Whole? || c.Direct? || c.ChunkFrame? || c.Final?
  }

  /** The jobs that a call can have. */
  predicate JobFits(c: Call, j: Job) {
    match c
    case Control(_, _) =>
      (j.opcode == PING || j.opcode == PONG) && j.fin && !j.flate && |j.payload| <= MAX_CONTROL_PAYLOAD
    case CloseSend(_) => j.opcode == CLOSE && j.fin && !j.flate && |j.payload| <= MAX_CONTROL_PAYLOAD
    case Whole(_) => IsMessageStart(j.opcode) && j.fin && !j.flate && !j.deflated
    case Direct(_) => IsData(j.opcode) && !j.fin && !j.flate && !j.deflated
    case ChunkFrame(_, _) => IsData(j.opcode) && !j.fin && j.flate && j.deflated
    case Final => IsData(j.opcode) && j.fin && j.flate == j.deflated
    case _ => false
  }

  predicate ShapeOf(e: Endpoint, l: Local) {
    && (l.pc == Out <==> !InFrame(l.call))
    && (l.pc != Out ==> JobFits(l.call, l.pc.job))
    && (l.pc.Emitting? ==> l.pc.frame == FrameOf(e, l.pc.job, l.pc.frame.key))
    && (l.call.WantMsg? || l.call.HaveMsg? || l.call.Reset? ==> IsMessageStart(l.call.msg.typ))
  }

  /** Compression does not change while a call that depends on it is under way. */
  predicate FlateOf(flate: bool, l: Local) {
    && (l.call.Direct? ==> !flate)
    && (l.call.Chunks? || l.call.ChunkFrame? ==> flate)
    && (l.call.Final? && l.pc != Out ==> l.pc.job.flate == flate)
  }

  // ----- the octets -----

  /** The octets after the last whole frame are the first octets of the frame that the holder of writeFrameMu is
      emitting; only a closed connection keeps some of a frame that failed. */
  ghost predicate StreamOf(g: Shared, t: nat, l: Local) {
    && (l.pc.Emitting? ==> l.pc.sent <= |EncodeFrame(l.pc.frame)| && g.torn == EncodeFrame(l.pc.frame)[..l.pc.sent])
    && (l.pc.Checking? || l.pc.Ready? ==> g.torn == [])
    && (g.frameMu == Some(Thread(t)) && !l.pc.Emitting? && !l.pc.Failing? ==> g.torn == [] || g.closed)
  }

  // ----- the close frame -----

  predicate BeforeSend(pc: FramePc) {
    pc.WantFrame? || pc.HaveFrame? || pc.Checking? || pc.Ready? || pc.Emitting?
  }

  ghost predicate CloseOf(g: Shared, t: nat, l: Local) {
    && (l.call.CloseSend? ==> g.wroteClose == Some(t))
    && (BeforeSend(l.pc) && l.pc.job.opcode == CLOSE ==> CloseFree(g.log))
    && (l.pc.Ready? || l.pc.Emitting? ==> CloseFree(g.log))
  }

  // ----- the messages -----

  predicate JobAllowed(p: Place, j: Job) {
    && j.flate == j.deflated
    && match p
       case Between => IsMessageStart(j.opcode)
       case Inside(deflated) => j.opcode == CONTINUATION && j.deflated == deflated
  }

  predicate AfterSend(pc: FramePc) {
    pc.Emitted? || (pc.Leaving? && pc.ok) || (pc.Done? && pc.ok)
  }

  function ByOpcode(g: Shared): Place {
    if g.opcode == CONTINUATION then Inside(g.flate) else Between
  }

  /** Where the frames sent must leave the peer, given what the holder of writeMu is doing. */
  function Expected(g: Shared, l: Local): Place {
    if g.msgMu != Some(ByHandle) then Between
    else if (l.call.Direct? || l.call.ChunkFrame?) && AfterSend(l.pc) then Inside(g.flate)
    else if (l.call.Final? && AfterSend(l.pc)) || l.call.FreeMsg? then Between
    else ByOpcode(g)
  }

  ghost predicate MessageOf(g: Shared, t: nat, l: Local) {
    && (BeforeSend(l.pc) && IsData(l.pc.job.opcode) ==>
          JobAllowed(PlaceOf(g.log), l.pc.job) || (g.closed && (l.pc.WantFrame? || l.pc.HaveFrame?)))
    && (g.writeMu == Some(Thread(t)) ==> g.closed || PlaceOf(g.log) == Expected(g, l))
  }

  // ----- the invariant -----

  ghost predicate Of(e: Endpoint, g: Shared, t: nat, l: Local) {
    && LocksOf(g, t, l) && ShapeOf(e, l) && FlateOf(g.flate, l)
    && StreamOf(g, t, l) && CloseOf(g, t, l) && MessageOf(g, t, l)
  }

  /** The octets after the last whole frame are the first octets of one frame. */
  ghost predicate PartOfFrame(torn: seq<byte>) {
    exists f :: torn <= EncodeFrame(f)
  }

  predicate HeldByThread(h: Option<Holder>) {
    h.Some? && h.value.Thread?
  }

  /** What was sent. */
  ghost predicate LogOk(g: Shared) {
    && g.stream == EncodeAll(FramesOf(g.log)) + g.torn && PartOfFrame(g.torn)
    && Good(g.log) && CloseLast(g.log)
  }

  /** The mutexes, the writer handle and where the frames sent leave the peer. */
  ghost predicate TokensOk(g: Shared) {
    && IsData(g.opcode)
    && (g.writeMu == Some(Cleanup) ==> g.closed)
    && (g.frameMu == Some(Cleanup) <==> g.recycled) && (g.recycled ==> g.closed)
    && (g.handle != NoHandle <==> g.msgMu == Some(ByHandle))
    && (!HeldByThread(g.frameMu) ==> g.torn == [] || g.closed)
    && (g.wroteClose == None ==> CloseFree(g.log))
    && (g.msgMu != Some(ByHandle) ==> g.closed || PlaceOf(g.log) == Between)
    && (!HeldByThread(g.writeMu) ==> g.closed || PlaceOf(g.log) == Expected(g, Local(Idle, Out)))
  }

  ghost predicate SharedOk(g: Shared) {
    LogOk(g) && TokensOk(g)
  }

  predicate InRange(n: nat, h: Option<Holder>) {
    HeldByThread(h) ==> h.value.t < n
  }

  ghost predicate Inv(e: Endpoint, s: State) {
    && SharedOk(s.g) && InRange(|s.threads|, s.g.frameMu) && InRange(|s.threads|, s.g.writeMu)
    && forall t | 0 <= t < |s.threads| :: Of(e, s.g, t, s.threads[t])
  }
}
