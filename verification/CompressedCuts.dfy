/** Which cuts of a compressed message go unseen, for any calls, any raw reads and any inflater. */
module CompressedCuts {
  import opened Octets
  import opened Masking
  import opened FrameHeader
  import opened Frames
  import opened MessageFrames
  import opened ReadModel
  import opened RoundTrip
  import opened ReadSafety
  import opened InflatedReads
  import opened CompressedEnds
  import EndToEnd
  import Sessions
  import CutStreams

  // ----- raw reads -----

  /** The sizes of raw reads i to m. */
  function Sizes(sizes: nat -> nat, i: nat, m: nat): seq<nat>
    requires i <= m
  {
    seq(m - i, t requires 0 <= t < m - i => sizes(i + t))
  }

  lemma SizesStep(sizes: nat -> nat, i: nat, m: nat)
    requires i < m
    ensures Sizes(sizes, i, m) != [] && Sizes(sizes, i, m)[0] == sizes(i) &&
            Sizes(sizes, i, m)[1..] == Sizes(sizes, i + 1, m)
  {
  }

  /** The number of the first of raw reads j and on that needs more than a octets from there. */
  function ReadBeyond(sizes: nat -> nat, j: nat, a: nat): nat
    requires Positive(sizes)
    decreases a
  {
    if sizes(j) > a then j else ReadBeyond(sizes, j + 1, a - sizes(j))
  }

  /** Raw reads in a frame whose payload was cut off: which read fails, and with which error, depends on where they
      end. */
  lemma {:induction false} PullIntoCut(cfg: Config, y: State, sizes: nat -> nat, j: nat, m: nat)
    requires !y.closed && |y.input| < y.payloadLength && Positive(sizes) && j <= m
    ensures var x := Pull(cfg, Source(y, None), Sizes(sizes, j, m));
            if m <= ReadBeyond(sizes, j, |y.input|) then x.stuck == None
            else
              && x.stuck == Some(ShortPayload(if Lands(sizes, j, |y.input|) then Eof else UnexpectedEof))
              && x.st.fin == y.fin && x.st.closed
    decreases |y.input|
  {
    hide RawRead, Masked, KeyAfter;
    BeyondGrows(sizes, j, |y.input|);
    if j < m {
      SizesStep(sizes, j, m);
      RawReadInFrame(cfg, y, sizes(j));
      var r := RawRead(cfg, y, sizes(j));
      if sizes(j) <= |y.input| {
        PullIntoCut(cfg, r.st, sizes, j + 1, m);
      }
    }
  }

  lemma {:induction false} BeyondGrows(sizes: nat -> nat, j: nat, a: nat)
    requires Positive(sizes)
    ensures j <= ReadBeyond(sizes, j, a)
    decreases a
  {
    if sizes(j) <= a {
      BeyondGrows(sizes, j + 1, a - sizes(j));
    }
  }

  /** A raw read of a compressed message is one of an uncompressed one, as long as it does not come to the end. */
  lemma SameRead(cfg: Config, a: State, b: State, k: nat)
    requires !a.closed && a.flate && !b.closed && b.flate
    requires RawRead(cfg, a.(flate := false), k) == RawRead(cfg, b.(flate := false), k)
    requires !RawRead(cfg, a.(flate := false), k).End?
    ensures RawRead(cfg, a, k) == RawRead(cfg, b, k)
  {
    hide RawRead;
    EndToEnd.RawReadOfFlate(cfg, a, k);
    EndToEnd.RawReadOfFlate(cfg, b, k);
  }

  /** Octets in which the reader does not come to the end of a message. */
  ghost predicate NoEnd(cfg: Config, tail: seq<byte>) {
    var l := ReadLoop(cfg, tail);
    l.Got? ==> |l.rest| < l.h.payloadLength
  }

  lemma TailIsNoEnd(cfg: Config, z: State, k: nat)
    requires !z.closed && !z.fin && !z.flate && z.payloadLength == 0 && NoEnd(cfg, z.input)
    ensures !RawRead(cfg, z, k).End?
  {
    hide ReadLoop, Masked, KeyAfter;
    var l := ReadLoop(cfg, z.input);
    if l.Got? && l.h.opcode == CONTINUATION {
      RawReadSkips(cfg, z, k);
      hide RawRead;
      RawReadInFrame(cfg, NextState(z, l), k);
    }
  }

  /** Raw reads up to the octets behind the frames do not fail, and the first read that needs those octets sees them as
      if nothing had been before. */
  lemma {:induction false} PullDelivers(
    cfg: Config, st: State, cur: seq<byte>, frames: seq<Frame>, tail: seq<byte>, sizes: nat -> nat, i: nat, m: nat)
    returns (z: State)
    requires At(cfg, st, cur, frames, tail) && st.flate && !st.fin && AllUnfinished(frames) && NoEnd(cfg, tail)
    requires Positive(sizes) && i <= m
    ensures !z.closed && !z.fin && z.flate && z.payloadLength == 0 && z.input == tail && z.n == st.n
    ensures var j := ReadsUsed(sizes, i, cur, frames);
            && i <= j
            && if m <= j then Pull(cfg, Source(st, None), Sizes(sizes, i, m)).stuck == None
               else Pull(cfg, Source(st, None), Sizes(sizes, i, m)) == Pull(cfg, Source(z, None), Sizes(sizes, j, m))
    decreases Left(cur, frames)
  {
    hide At, RawRead, AfterRead, Due, AllUnfinished, Replies, NoEnd;
    ReadsUsedGrows(sizes, i, cur, frames);
    z := st.(input := tail, payloadLength := 0);
    AtFields(cfg, st, cur, frames, tail);
    if i == m {
      return;
    }
    SizesStep(sizes, i, m);
    var k := sizes(i);
    var st0 := st.(flate := false);
    FlateIsApart(cfg, st, cur, frames, tail);
    var z0 := RawReadDelivers(cfg, st0, cur, frames, tail, k);
    Sessions.UnfinishedOutlook(st0, cur, frames);
    UnfinishedLeft(st0, cur, frames);
    var r0 := RawRead(cfg, st0, k);
    if Left(cur, frames) == 0 {
      z := z0.(flate := true);
      TailIsNoEnd(cfg, z0, k);
      assert z.(flate := false) == z0;
      SameRead(cfg, st, z, k);
    } else {
      var (cur', frames') := AfterRead(k, cur, frames);
      EndToEnd.RawReadOfFlate(cfg, st, k);
      AfterReadLess(k, cur, frames);
      var r := RawRead(cfg, st, k);
      UnfinishedAfter(k, cur, frames);
      FlateIsApart(cfg, r.st, cur', frames', tail);
      assert r.st.fin == false by { StillUnfinished(cfg, st0, cur, frames, r0.st, cur', frames'); }
      z := PullDelivers(cfg, r.st, cur', frames', tail, sizes, i + 1, m);
    }
  }

  lemma FlateIsApart(cfg: Config, st: State, cur: seq<byte>, frames: seq<Frame>, tail: seq<byte>)
    ensures At(cfg, st, cur, frames, tail) == At(cfg, st.(flate := false), cur, frames, tail)
  {
    hide Wire, OnWire, WellFormed;
  }

  lemma {:induction false} ReadsUsedGrows(sizes: nat -> nat, i: nat, cur: seq<byte>, frames: seq<Frame>)
    requires Positive(sizes)
    ensures i <= ReadsUsed(sizes, i, cur, frames)
    ensures Left(cur, frames) == 0 ==> ReadsUsed(sizes, i, cur, frames) == i
    decreases Left(cur, frames)
  {
    if Left(cur, frames) != 0 {
      AfterReadLess(sizes(i), cur, frames);
      var (cur', frames') := AfterRead(sizes(i), cur, frames);
      ReadsUsedGrows(sizes, i + 1, cur', frames');
    }
  }

  lemma {:induction false} UnfinishedAfter(k: nat, cur: seq<byte>, frames: seq<Frame>)
    requires AllUnfinished(frames)
    ensures var (cur', frames') := AfterRead(k, cur, frames); AllUnfinished(frames')
    decreases frames, |cur| == 0
  {
    if cur == [] && frames != [] {
      assert forall f | f in frames[1..] :: f in frames;
      if IsControl(frames[0].opcode) {
        UnfinishedAfter(k, [], frames[1..]);
      } else {
        UnfinishedAfter(k, frames[0].payload, frames[1..]);
      }
    }
  }

  lemma StillUnfinished(
    cfg: Config, st: State, cur: seq<byte>, frames: seq<Frame>, st': State, cur': seq<byte>, frames': seq<Frame>)
    requires !st.fin && AllUnfinished(frames)
    requires OutlookOf(st', cur', frames').finished == OutlookOf(st, cur, frames).finished
    ensures !st'.fin
  {
  }

  /** The cut is behind the header of the final frame of a message. */
  predicate InLastPayload(f: Frame, c: nat) {
    f.fin && !IsControl(f.opcode) && CutStreams.HeaderSize(f) <= c
  }

  /** The message at the cut is compressed. */
  predicate CompressedAt(last: seq<Frame>, f: Frame, c: nat) {
    var rest := SkipControls(last);
    if rest != [] then rest[0].rsv1 else f.rsv1 && CutStreams.HeaderSize(f) <= c
  }

  /** The number of the raw read that runs into the cut, when read j is the first that needs octets of the frame. */
  function FailingRead(f: Frame, c: nat, sizes: nat -> nat, j: nat): nat
    requires Positive(sizes)
  {
    var hs := CutStreams.HeaderSize(f);
    if IsControl(f.opcode) || c < hs then j else ReadBeyond(sizes, j, c - hs)
  }

  /** The source after raw reads that ran into the cut: closed, and stuck on the error of the cut, or on io.EOF where a
      read of a payload ends exactly at the cut. */
  ghost predicate RanIntoCut(x: Source, f: Frame, c: nat, sizes: nat -> nat, j: nat)
    requires Positive(sizes)
  {
    var hs := CutStreams.HeaderSize(f);
    var payload := !IsControl(f.opcode) && hs <= c;
    && x.st.closed && x.st.fin == (payload && f.fin)
    && x.stuck == Some(if payload && Lands(sizes, j, c - hs) then ShortPayload(Eof) else CutStreams.ErrorOfCut(f, c))
  }

  /** Inside a message, with c octets of a frame ahead. */
  lemma PullAtCut(cfg: Config, z: State, f: Frame, c: nat, sizes: nat -> nat, j: nat, m: nat)
    requires CutStreams.SendableEither(cfg, f) && MayFollow(true, f) && c < |EncodeFrame(f)| && Positive(sizes) && j < m
    requires !z.closed && !z.fin && z.payloadLength == 0 && z.input == EncodeFrame(f)[..c]
    ensures var x := Pull(cfg, Source(z, None), Sizes(sizes, j, m));
            if m <= FailingRead(f, c, sizes, j) then x.stuck == None else RanIntoCut(x, f, c, sizes, j)
  {
    hide EncodeFrame, ReadLoop, OnWire, Lands, FieldEnds, Masked, KeyAfter, ReadBeyond;
    CutStreams.LoopOnCut(cfg, true, f, c);
    CutStreams.SizeOfFrame(f);
    SizesStep(sizes, j, m);
    var l := ReadLoop(cfg, z.input);
    if l.Got? {
      hide RawRead;
      RawReadSkips(cfg, z, sizes(j));
      SameFirstRead(cfg, z, NextState(z, l), Sizes(sizes, j, m));
      PayloadError(f, c);
      hide CutStreams.ErrorOfCut, Pull;
      PullIntoCut(cfg, NextState(z, l), sizes, j, m);
    } else {
      StoppedRead(cfg, z, sizes(j));
    }
  }

  lemma SameFirstRead(cfg: Config, z: State, y: State, pulls: seq<nat>)
    requires pulls != [] && RawRead(cfg, z, pulls[0]) == RawRead(cfg, y, pulls[0])
    ensures Pull(cfg, Source(z, None), pulls) == Pull(cfg, Source(y, None), pulls)
  {
    hide RawRead;
  }

  lemma StoppedRead(cfg: Config, z: State, k: nat)
    requires !z.closed && !z.fin && z.payloadLength == 0 && ReadLoop(cfg, z.input).Stopped?
    ensures var l := ReadLoop(cfg, z.input); RawRead(cfg, z, k) == Failed(l.error, [], StoppedAt(z, l))
  {
    hide ReadLoop, InFrameRead;
  }

  /** The state that a compressed message is opened in, and m raw reads from there. */
  lemma PullFromOpen(cfg: Config, st: State, last: seq<Frame>, f: Frame, c: nat, sizes: nat -> nat, m: nat)
    requires c < |EncodeFrame(f)| && At(cfg, st, [], last, EncodeFrame(f)[..c]) && st.fin && AllUnfinished(last)
    requires CutStreams.SendableEither(cfg, f) && MayFollow(EndsInside(false, last), f) && CompressedAt(last, f, c)
    requires Positive(sizes)
    ensures var o, j := OpenMessage(cfg, st), ReadsUsed(sizes, 0, [], last);
            && o.Opened? && o.st.flate && !o.st.closed && o.st.n == cfg.limit
            && var x := Pull(cfg, Source(o.st, None), Sizes(sizes, 0, m));
               if m <= FailingRead(f, c, sizes, j) then x.stuck == None else RanIntoCut(x, f, c, sizes, j)
  {
    hide EncodeFrame, ReadLoop, OnWire, Lands, OpenMessage;
    hide ReadsUsed, Pull, CutStreams.ErrorOfCut, CutStreams.HeaderSize, ReadBeyond;
    var tail := EncodeFrame(f)[..c];
    assert WellFormed(false, last);
    Sessions.OpenOf(last);
    CutStreams.SizeOfFrame(f);
    hide At, WellFormed, EndsInside, AllUnfinished;
    var rest := SkipControls(last);
    var j := ReadsUsed(sizes, 0, [], last);
    if rest != [] {
      Sessions.OpenDelivers(cfg, st, last, tail);
      Sessions.ReadsUsedSkips(sizes, last);
      var o := OpenMessage(cfg, st);
      CutIsNoEnd(cfg, true, f, c);
      AtFields(cfg, o.st, rest[0].payload, rest[1..], tail);
      var z := PullDelivers(cfg, o.st, rest[0].payload, rest[1..], tail, sizes, 0, m);
      assert j <= FailingRead(f, c, sizes, j) by { FailingGrows(f, c, sizes, j); }
      if j < m {
        PullAtCut(cfg, z, f, c, sizes, j, m);
      }
    } else {
      OpenIntoCut(cfg, st, last, f, c);
      Sessions.OnlyControls(last);
      ReadsUsedGrows(sizes, 0, [], last);
      PullIntoCut(cfg, OpenMessage(cfg, st).st, sizes, 0, m);
      PayloadError(f, c);
    }
  }

  lemma FailingGrows(f: Frame, c: nat, sizes: nat -> nat, j: nat)
    requires Positive(sizes)
    ensures j <= FailingRead(f, c, sizes, j)
  {
    if !IsControl(f.opcode) && CutStreams.HeaderSize(f) <= c {
      BeyondGrows(sizes, j, c - CutStreams.HeaderSize(f));
    }
  }

  lemma PayloadError(f: Frame, c: nat)
    requires CutStreams.HeaderSize(f) <= c && !IsControl(f.opcode)
    ensures CutStreams.ErrorOfCut(f, c) == ShortPayload(UnexpectedEof)
  {
  }

  lemma CutIsNoEnd(cfg: Config, inside: bool, f: Frame, c: nat)
    requires CutStreams.SendableEither(cfg, f) && MayFollow(inside, f) && c < |EncodeFrame(f)|
    ensures NoEnd(cfg, EncodeFrame(f)[..c])
  {
    hide EncodeFrame, ReadLoop, OnWire;
    CutStreams.LoopOnCut(cfg, inside, f, c);
    CutStreams.SizeOfFrame(f);
  }

  lemma OpenIntoCut(cfg: Config, st: State, last: seq<Frame>, f: Frame, c: nat)
    requires c < |EncodeFrame(f)| && At(cfg, st, [], last, EncodeFrame(f)[..c]) && st.fin && SkipControls(last) == []
    requires CutStreams.SendableEither(cfg, f) && MayFollow(false, f) && f.rsv1 && CutStreams.HeaderSize(f) <= c
    ensures var o := OpenMessage(cfg, st);
            && o.Opened? && o.st.flate && !o.st.closed && o.st.n == cfg.limit && o.st.fin == f.fin
            && o.st.payloadLength == |f.payload| && |o.st.input| == c - CutStreams.HeaderSize(f) < |f.payload|
  {
    hide EncodeFrame, ReadLoop, OnWire, OpenMessage, At, CutStreams.HeaderSize;
    CutStreams.LoopOnCut(cfg, false, f, c);
    CutStreams.SizeOfFrame(f);
    Sessions.OpenAtTail(cfg, st, last, EncodeFrame(f)[..c]);
    AtFields(cfg, st, [], last, EncodeFrame(f)[..c]);
  }

  // ----- calls -----

  /** The calls of a run that goes on from w. */
  function RunFrom(cfg: Config, w: World, actions: seq<Action>): World {
    if actions == [] then w else Step(cfg, RunFrom(cfg, w, actions[..|actions| - 1]), actions[|actions| - 1])
  }

  /** Every state of a run is one that such calls may start from. */
  lemma {:induction false} RunContinues(cfg: Config, input: seq<byte>, a: seq<Action>, b: seq<Action>)
    ensures Run(cfg, input, a + b) == RunFrom(cfg, Run(cfg, input, a), b)
  {
    hide Step;
    if b == [] {
      assert a + b == a;
    } else {
      assert (a + b)[..|a + b| - 1] == a + b[..|b| - 1];
      RunContinues(cfg, input, a, b[..|b| - 1]);
    }
  }

  lemma {:induction false} RunFromAppend(cfg: Config, w: World, a: seq<Action>, b: seq<Action>)
    ensures RunFrom(cfg, w, a + b) == RunFrom(cfg, RunFrom(cfg, w, a), b)
  {
    hide Step;
    if b == [] {
      assert a + b == a;
    } else {
      assert (a + b)[..|a + b| - 1] == a + b[..|b| - 1];
      RunFromAppend(cfg, w, a, b[..|b| - 1]);
    }
  }

  /** The raw reads of a sequence of calls. */
  function Pulls(actions: seq<Action>): seq<nat> {
    if actions == [] then []
    else
      var a := actions[|actions| - 1];
      Pulls(actions[..|actions| - 1]) + if a.ReadNext? then a.choice.pulls else []
  }

  lemma {:induction false} PullAppend(cfg: Config, x: Source, a: seq<nat>, b: seq<nat>)
    ensures Pull(cfg, x, a + b) == Pull(cfg, Pull(cfg, x, a), b)
    decreases |a|
  {
    hide RawRead;
    if a == [] {
      assert a + b == b;
    } else if x.stuck == None {
      assert (a + b)[0] == a[0] && (a + b)[1..] == a[1..] + b;
      var r := RawRead(cfg, x.st, a[0]);
      if r.Data? {
        PullAppend(cfg, Source(r.st, None), a[1..], b);
      }
    }
  }

  function WithLimit(r: Read, n: int): Read {
    match r
    case Data(d, st) => Data(d, st.(n := n))
    case End(st) => End(st.(n := n))
    case Failed(e, p, st) => Failed(e, p, st.(n := n))
  }

  lemma {:induction false} RawReadWithLimit(cfg: Config, st: State, n: int, k: nat)
    ensures RawRead(cfg, st.(n := n), k) == WithLimit(RawRead(cfg, st, k), n)
    decreases |st.input|
  {
    hide ReadLoop, Masked, KeyAfter;
    if !st.closed && st.payloadLength == 0 && !st.fin {
      var l := ReadLoop(cfg, st.input);
      if l.Got? && l.h.opcode == CONTINUATION {
        RawReadWithLimit(cfg, NextState(st, l), n, k);
        assert NextState(st.(n := n), l) == NextState(st, l).(n := n);
      }
    }
  }

  function Limited(x: Source, n: int): Source {
    Source(x.st.(n := n), x.stuck)
  }

  lemma {:induction false} PullWithLimit(cfg: Config, x: Source, n: int, pulls: seq<nat>)
    ensures Pull(cfg, Limited(x, n), pulls) == Limited(Pull(cfg, x, pulls), n)
    decreases |pulls|
  {
    hide RawRead;
    if pulls != [] && x.stuck == None {
      RawReadWithLimit(cfg, x.st, n, pulls[0]);
      var r := RawRead(cfg, x.st, pulls[0]);
      if r.Data? {
        PullWithLimit(cfg, Source(r.st, None), n, pulls[1..]);
      }
    }
  }

  /** Inside a compressed message, in which nothing has gone wrong. */
  predicate Inside(w: World) {
    w.error == None && w.reading && w.x.st.flate && !w.x.st.closed && w.x.stuck == None
  }

  /** Reads in which the inflater does not end its stream. */
  predicate GoingOn(calls: seq<Action>) {
    forall a | a in calls :: a.ReadNext? && a.choice.verdict != Finish
  }

  lemma OneCall(cfg: Config, w: World, a: Action)
    requires Inside(w) && a.ReadNext? && a.choice.verdict != Finish
    requires Pull(cfg, w.x, a.choice.pulls).stuck == None
    ensures var w' := Step(cfg, w, a);
            if w'.error.Some? then GivesUp(w'.error.value)
            else w'.reading && w'.ending == NotYet && w'.x == Limited(Pull(cfg, w.x, a.choice.pulls), w'.x.st.n)
  {
    hide Pull;
  }

  /** The errors that a call can end with without a failure of the raw reader. */
  predicate GivesUp(e: ReadError) {
    e == CorruptStream || e == TooBig
  }

  /** Calls before the raw reader fails: they leave the source that their raw reads lead to, but for the limit. */
  lemma {:induction false} EarlierCalls(cfg: Config, w: World, calls: seq<Action>)
    requires Inside(w) && GoingOn(calls)
    requires Pull(cfg, w.x, Pulls(calls)).stuck == None
    ensures var w' := RunFrom(cfg, w, calls);
            if w'.error.Some? then GivesUp(w'.error.value)
            else Inside(w') && w'.x == Limited(Pull(cfg, w.x, Pulls(calls)), w'.x.st.n)
  {
    hide Step, Pull, GivesUp;
    if calls == [] {
      assert Pull(cfg, w.x, []) == w.x by { PullNothing(cfg, w.x); }
    } else {
      var front, a := calls[..|calls| - 1], calls[|calls| - 1];
      assert a in calls && forall b | b in front :: b in calls;
      PullAppend(cfg, w.x, Pulls(front), a.choice.pulls);
      var p := Pull(cfg, w.x, Pulls(front));
      assert p.stuck == None by { StuckStays(cfg, p, a.choice.pulls); }
      EarlierCalls(cfg, w, front);
      var before := RunFrom(cfg, w, front);
      ErrorsStay(cfg, before, a);
      if before.error == None {
        PullWithLimit(cfg, p, before.x.st.n, a.choice.pulls);
        OneCall(cfg, before, a);
        PullStaysOpen(cfg, before.x, a.choice.pulls);
      }
    }
  }

  lemma PullNothing(cfg: Config, x: Source)
    ensures Pull(cfg, x, []) == x
  {
  }

  lemma ErrorsStay(cfg: Config, w: World, a: Action)
    ensures w.error.Some? ==> Step(cfg, w, a) == w
  {
  }

  lemma StuckStays(cfg: Config, x: Source, pulls: seq<nat>)
    ensures x.stuck.Some? ==> Pull(cfg, x, pulls) == x
  {
  }

  lemma PullStaysOpen(cfg: Config, x: Source, pulls: seq<nat>)
    requires !x.st.closed && x.stuck == None && Pull(cfg, x, pulls).stuck == None
    ensures !Pull(cfg, x, pulls).st.closed && Pull(cfg, x, pulls).st.flate == x.st.flate
  {
    PullEndsWell(cfg, x, pulls);
    PullKeeps(cfg, x, pulls);
  }

  /** What the call does in which the raw reader runs into the end of the input, by the verdict of the inflater. */
  ghost predicate EndsByVerdict(cfg: Config, w: World, verdict: Verdict, unseen: bool, e: ReadError) {
    && w.x.st.closed && !Complete(w.x.st)
    && match verdict
       case Report => if unseen then w.error == None && w.ending == AtEof else w.error == Some(e)
       case Finish => w.error == None && w.ending == AtFinish
       case Corrupt => w.error == Some(CorruptStream)
       case More => w.error == None && w.ending == NotYet && NextIsClosed(cfg, w)
  }

  /** The next call gets the error of a closed connection, whatever it reads. */
  ghost predicate NextIsClosed(cfg: Config, w: World) {
    forall k, c :: Step(cfg, w, ReadNext(k, c)).error == Some(ConnClosed)
  }

  lemma LastRead(cfg: Config, x: Source, k: nat, c: Choice, e: ReadError)
    requires !x.st.closed && x.st.n != 0 && (e.BadHeader? || e.ShortPayload?)
    requires var y := Pull(cfg, x, c.pulls); y.stuck == Some(e) && y.st.closed && !Complete(y.st)
    ensures var i, fin := MessageInflate(cfg, x, k, c), Pull(cfg, x, c.pulls).st.fin;
            && i.x.st.closed && !Complete(i.x.st)
            && match c.verdict
               case Report =>
                 if IsEof(e) || (IsUnexpectedEof(e) && fin) then i.r.End? else i.r.Failed? && i.r.error == e
               case Finish => i.r.End?
               case Corrupt => i.r.Failed? && i.r.error == CorruptStream
               case More => i.r.Data?
  {
    hide Pull;
  }

  lemma LastCall(cfg: Config, w: World, a: Action, e: ReadError)
    requires Inside(w) && w.x.st.n != 0 && a.ReadNext? && (e.BadHeader? || e.ShortPayload?)
    requires Pull(cfg, w.x, a.choice.pulls).stuck == Some(e)
    ensures var fin := Pull(cfg, w.x, a.choice.pulls).st.fin;
            EndsByVerdict(cfg, Step(cfg, w, a), a.choice.verdict, IsEof(e) || (IsUnexpectedEof(e) && fin), e)
  {
    PullEndsWell(cfg, w.x, a.choice.pulls);
    LastRead(cfg, w.x, a.k, a.choice, e);
    hide Pull, NextIsClosed, MessageInflate, Complete, IsEof, IsUnexpectedEof;
    if a.choice.verdict == More {
      ClosedIsSeen(cfg, Step(cfg, w, a));
    }
  }

  lemma ClosedIsSeen(cfg: Config, w: World)
    requires w.error == None && w.reading && w.x.st.closed
    ensures NextIsClosed(cfg, w)
  {
  }

  /** The cut goes unseen when the inflater reports it. */
  predicate UnseenReport(f: Frame, c: nat, sizes: nat -> nat, j: nat)
    requires Positive(sizes)
  {
    CutStreams.CutUnseen(f, c, sizes, j) || InLastPayload(f, c)
  }

  lemma CutVerdict(x: Source, f: Frame, c: nat, sizes: nat -> nat, j: nat)
    requires Positive(sizes) && RanIntoCut(x, f, c, sizes, j)
    ensures x.stuck.Some?
    ensures var e := x.stuck.value;
            && (e.BadHeader? || e.ShortPayload?)
            && (IsEof(e) || (IsUnexpectedEof(e) && x.st.fin) <==> UnseenReport(f, c, sizes, j))
            && (!UnseenReport(f, c, sizes, j) ==> e == CutStreams.ErrorOfCut(f, c))
  {
    hide Lands, FieldEnds, CutStreams.HeaderSize;
  }

  /** A compressed message that is cut off anywhere, at any place of a connection, read with any calls, any buffers, any
      raw reads and any inflater. Raw read number FailingRead runs into the cut. What happens is decided by the verdict
      of the call that makes it: an early end of the stream is the end of the message without an error; a corrupt stream
      is an error; with more octets to give, the next call gets the error of a closed connection; and when the inflater
      reports what it ran into, the message ends without an error if and only if the cut is one that goes unseen in an
      uncompressed message too, or is behind the header of the message's final frame. An error before that call, and the
      limit when it is used up before that call, comes first. */
  lemma CompressedCut(
    cfg: Config, w: World, last: seq<Frame>, f: Frame, c: nat, sizes: nat -> nat, calls: seq<Action>, read: Action)
    requires c < |EncodeFrame(f)| && At(cfg, w.x.st, [], last, EncodeFrame(f)[..c]) && w.x.st.fin && w.error == None
    requires AllUnfinished(last)
    requires CutStreams.SendableEither(cfg, f) && MayFollow(EndsInside(false, last), f) && CompressedAt(last, f, c)
    requires Positive(sizes) && GoingOn(calls) && read.ReadNext?
    requires Pulls(calls) + read.choice.pulls == Sizes(sizes, 0, |Pulls(calls)| + |read.choice.pulls|)
    requires |Pulls(calls)| <= FailingRead(f, c, sizes, ReadsUsed(sizes, 0, [], last)) <
             |Pulls(calls)| + |read.choice.pulls|
    ensures var before, after := RunFrom(cfg, w, [OpenNext] + calls), RunFrom(cfg, w, [OpenNext] + calls + [read]);
            var unseen := UnseenReport(f, c, sizes, ReadsUsed(sizes, 0, [], last));
            if before.error.Some? then after == before && GivesUp(before.error.value)
            else if before.x.st.n == 0 then after.error == Some(TooBig)
            else EndsByVerdict(cfg, after, read.choice.verdict, unseen, CutStreams.ErrorOfCut(f, c))
  {
    hide EncodeFrame, OpenMessage, ReadsUsed, Pull, At, AllUnfinished;
    hide Lands, EndsInside, CompressedAt, Step, FailingRead, RanIntoCut;
    hide GivesUp, UnseenReport, CutStreams.ErrorOfCut, EndsByVerdict;
    var j := ReadsUsed(sizes, 0, [], last);
    var a, b := Pulls(calls), read.choice.pulls;
    PullFromOpen(cfg, w.x.st, last, f, c, sizes, |a|);
    PullFromOpen(cfg, w.x.st, last, f, c, sizes, |a| + |b|);
    var x := Source(OpenMessage(cfg, w.x.st).st, None);
    assert Sizes(sizes, 0, |a|) == a by { SizesPrefix(sizes, a, b); }
    PullAppend(cfg, x, a, b);
    RunFromAppend(cfg, w, [OpenNext], calls);
    RunFromAppend(cfg, w, [OpenNext] + calls, [read]);
    var first := RunFrom(cfg, w, [OpenNext]);
    assert first == World(x, true, [], NotYet, None) by { OpensFirst(cfg, w); }
    EarlierCalls(cfg, first, calls);
    var before := RunFrom(cfg, first, calls);
    assert RunFrom(cfg, before, [read]) == Step(cfg, before, read) by { OneAction(cfg, before, read); }
    if before.error.Some? {
      ErrorsStay(cfg, before, read);
      return;
    }
    if before.x.st.n == 0 {
      NothingLeft(cfg, before, read);
      return;
    }
    PullWithLimit(cfg, Pull(cfg, x, a), before.x.st.n, b);
    CutVerdict(Pull(cfg, x, a + b), f, c, sizes, j);
    LastCall(cfg, before, read, Pull(cfg, x, a + b).stuck.value);
    SameVerdict(cfg, Step(cfg, before, read), read.choice.verdict, UnseenReport(f, c, sizes, j),
                Pull(cfg, x, a + b).stuck.value, CutStreams.ErrorOfCut(f, c));
  }

  lemma NothingLeft(cfg: Config, w: World, a: Action)
    requires Inside(w) && w.x.st.n == 0 && a.ReadNext?
    ensures Step(cfg, w, a).error == Some(TooBig)
  {
    hide Inflate;
  }

  lemma SameVerdict(cfg: Config, w: World, verdict: Verdict, unseen: bool, e: ReadError, e': ReadError)
    requires EndsByVerdict(cfg, w, verdict, unseen, e) && (!unseen ==> e == e')
    ensures EndsByVerdict(cfg, w, verdict, unseen, e')
  {
    hide Step, Complete;
  }

  lemma SizesPrefix(sizes: nat -> nat, a: seq<nat>, b: seq<nat>)
    requires a + b == Sizes(sizes, 0, |a| + |b|)
    ensures Sizes(sizes, 0, |a|) == a
  {
    assert a == (a + b)[..|a|];
  }

  lemma OneAction(cfg: Config, w: World, a: Action)
    ensures RunFrom(cfg, w, [a]) == Step(cfg, w, a)
  {
    hide Step;
    assert [a][..0] == [];
  }

  lemma OpensFirst(cfg: Config, w: World)
    requires w.error == None && OpenMessage(cfg, w.x.st).Opened?
    ensures RunFrom(cfg, w, [OpenNext]) == World(Source(OpenMessage(cfg, w.x.st).st, None), true, [], NotYet, None)
  {
    hide OpenMessage;
    OneAction(cfg, w, OpenNext);
  }

  // ----- failing inputs -----

  /** Of a compressed message in one frame, final or not, only a octets of the payload arrive, and one call of the
      inflater reads them, with raw reads of any size. */
  lemma CutFrameEnds(cfg: Config, f: Frame, a: nat, pull: nat, k: nat, data: seq<byte>, verdict: Verdict)
    requires FromPeer(cfg, f) && f.rsv1 && a < |f.payload| && pull > 0 && cfg.limit != 0
    ensures CutStreams.HeaderSize(f) + a < |EncodeFrame(f)|
    ensures var c := CutStreams.HeaderSize(f) + a;
            var read := ReadNext(k, Choice(Sizes(i => pull, 0, c + 1), data, verdict));
            var w := Run(cfg, EncodeFrame(f)[..c], [OpenNext, read]);
            EndsByVerdict(cfg, w, verdict, f.fin || a % pull == 0, ShortPayload(UnexpectedEof))
  {
    hide EncodeFrame, OpenMessage, ReadsUsed, Lands, CutStreams.HeaderSize, Step;
    hide At, EndsByVerdict, Pull, CutStreams.ErrorOfCut, FromPeer;
    CutStreams.SizeOfFrame(f);
    var c := CutStreams.HeaderSize(f) + a;
    var sizes: nat -> nat := i => pull;
    var input := EncodeFrame(f)[..c];
    var read := ReadNext(k, Choice(Sizes(sizes, 0, c + 1), data, verdict));
    var w := Run(cfg, input, []);
    assert At(cfg, Start(input), [], [], input) by {
      CutStreams.AtStart(cfg, [], input);
      WireOfNone(input);
    }
    assert ReadsUsed(sizes, 0, [], []) == 0 by { ReadsUsedGrows(sizes, 0, [], []); }
    assert FailingRead(f, c, sizes, 0) <= a by { PeerIsData(cfg, f); BeyondBound(sizes, 0, a); }
    assert CutStreams.SendableEither(cfg, f) && MayFollow(false, f) by { PeerIsData(cfg, f); }
    assert [OpenNext] + [] == [OpenNext];
    PullFromOpen(cfg, Start(input), [], f, c, sizes, 0);
    OpensFirst(cfg, w);
    assert Pulls([]) + read.choice.pulls == Sizes(sizes, 0, c + 1);
    CompressedCut(cfg, w, [], f, c, sizes, [], read);
    assert [OpenNext] + [] + [read] == [OpenNext, read];
    assert [] + [OpenNext, read] == [OpenNext, read];
    RunContinues(cfg, input, [], [OpenNext, read]);
    LandsEvenly(pull, 0, a);
    PayloadUnseen(f, c, sizes);
    PayloadError(f, c);
  }

  lemma PeerIsData(cfg: Config, f: Frame)
    requires FromPeer(cfg, f) && f.rsv1
    ensures IsMessageStart(f.opcode) && CutStreams.SendableEither(cfg, f) && MayFollow(false, f)
  {
  }

  lemma {:induction false} BeyondBound(sizes: nat -> nat, j: nat, a: nat)
    requires Positive(sizes)
    ensures ReadBeyond(sizes, j, a) <= j + a
    decreases a
  {
    if sizes(j) <= a {
      BeyondBound(sizes, j + 1, a - sizes(j));
    }
  }

  lemma {:induction false} LandsEvenly(pull: nat, j: nat, a: nat)
    requires pull > 0
    ensures Lands(i => pull, j, a) <==> a % pull == 0
    decreases a
  {
    if pull <= a {
      LandsEvenly(pull, j + 1, a - pull);
      assert Lands(i => pull, j, a) == (a == 0 || Lands(i => pull, j + 1, a - pull));
      SameRemainder(pull, a);
    } else if a > 0 {
      SmallRemainder(pull, a);
    }
  }

  lemma SameRemainder(pull: nat, a: nat)
    requires 0 < pull <= a
    ensures (a - pull) % pull == a % pull
  {
    hide *;
    var q, r := (a - pull) / pull, (a - pull) % pull;
    assert a == (q + 1) * pull + r;
    RemainderOf(q + 1, pull, r);
  }

  lemma RemainderOf(q: nat, pull: nat, r: nat)
    requires r < pull
    ensures (q * pull + r) % pull == r
  {
    var a := q * pull + r;
    assert a == (a / pull) * pull + a % pull;
    var d := q - a / pull;
    assert d * pull == a % pull - r;
    MultipleOf(d, pull);
  }

  lemma MultipleOf(d: int, pull: nat)
    ensures d >= 1 ==> d * pull >= pull
    ensures d <= -1 ==> d * pull <= 0 - pull
  {
  }

  lemma SmallRemainder(pull: nat, a: nat)
    requires a < pull
    ensures a % pull == a
  {
    RemainderOf(0, pull, a);
  }

  lemma PayloadUnseen(f: Frame, c: nat, sizes: nat -> nat)
    requires Positive(sizes) && CutStreams.HeaderSize(f) <= c && !IsControl(f.opcode)
    ensures UnseenReport(f, c, sizes, 0) <==> f.fin || Lands(sizes, 0, c - CutStreams.HeaderSize(f))
  {
    hide Lands, CutStreams.HeaderSize;
  }

  /** The inflater reports the cut, in a final frame: the end of the message, without an error, for every length. */
  lemma CompressedCutLooksWhole(cfg: Config, f: Frame, a: nat, pull: nat, k: nat, data: seq<byte>)
    requires FromPeer(cfg, f) && f.rsv1 && f.fin && a < |f.payload| && pull > 0 && cfg.limit != 0
    ensures CutStreams.HeaderSize(f) + a < |EncodeFrame(f)|
    ensures var c := CutStreams.HeaderSize(f) + a;
            var read := ReadNext(k, Choice(Sizes(i => pull, 0, c + 1), data, Report));
            var w := Run(cfg, EncodeFrame(f)[..c], [OpenNext, read]);
            w.error == None && w.ending == AtEof && w.x.st.closed && !Complete(w.x.st)
  {
    hide EncodeFrame, Run, FromPeer, Complete, Step;
    CutFrameEnds(cfg, f, a, pull, k, data, Report);
  }

  /** The inflater ends its stream in what arrived, in a frame that need not be final: the end of the message, without
      an error, on a closed connection and not at the end of the message. */
  lemma EarlyEndLooksWhole(cfg: Config, f: Frame, a: nat, pull: nat, k: nat, data: seq<byte>)
    requires FromPeer(cfg, f) && f.rsv1 && a < |f.payload| && pull > 0 && cfg.limit != 0
    ensures CutStreams.HeaderSize(f) + a < |EncodeFrame(f)|
    ensures var c := CutStreams.HeaderSize(f) + a;
            var read := ReadNext(k, Choice(Sizes(i => pull, 0, c + 1), data, Finish));
            var w := Run(cfg, EncodeFrame(f)[..c], [OpenNext, read]);
            w.error == None && w.ending == AtFinish && w.x.st.closed && !Complete(w.x.st)
  {
    hide EncodeFrame, Run, FromPeer, Complete, Step;
    CutFrameEnds(cfg, f, a, pull, k, data, Finish);
  }

  /** A message is opened and read once. */
  lemma TwoActions(cfg: Config, input: seq<byte>, read: Action)
    requires read.ReadNext? && OpenMessage(cfg, Start(input)).Opened?
    ensures Run(cfg, input, [OpenNext, read]) ==
            Step(cfg, World(Source(OpenMessage(cfg, Start(input)).st, None), true, [], NotYet, None), read)
  {
    hide OpenMessage, ReadOf;
    var actions := [OpenNext, read];
    assert actions[..1] == [OpenNext] && [OpenNext][..0] == [];
    assert Run(cfg, input, []) == World(Source(Start(input), None), false, [], NotYet, None);
    assert Run(cfg, input, [OpenNext]) ==
      World(Source(OpenMessage(cfg, Start(input)).st, None), true, [], NotYet, None);
  }

  /** An inflater that ends its stream before it has read the message leaves a connection that is open and not at the
      end of the message, on whole and well-formed input. */
  lemma FinishLeavesTheRest(cfg: Config, f: Frame, k: nat, data: seq<byte>)
    requires FromPeer(cfg, f) && f.rsv1 && f.fin && f.payload != [] && cfg.limit != 0
    ensures var w := Run(cfg, EncodeFrame(f), [OpenNext, ReadNext(k, Choice([], data, Finish))]);
            w.error == None && w.ending == AtFinish && !w.x.st.closed && !Complete(w.x.st)
  {
    hide EncodeFrame, OpenMessage, At, Run, ReadOf, FromPeer;
    var input := EncodeFrame(f);
    OpenWhole(cfg, f);
    var st := OpenMessage(cfg, Start(input)).st;
    var choice := Choice([], data, Finish);
    TwoActions(cfg, input, ReadNext(k, choice));
    FinishAtOnce(cfg, st, k, data);
  }

  lemma OpenWhole(cfg: Config, f: Frame)
    requires FromPeer(cfg, f) && f.rsv1
    ensures var o := OpenMessage(cfg, Start(EncodeFrame(f)));
            o.Opened? && o.st.flate && !o.st.closed && o.st.payloadLength == |f.payload| && o.st.n == cfg.limit
  {
    hide EncodeFrame, OpenMessage, At, Wire;
    var input := EncodeFrame(f);
    assert Wire([f], []) == input by {
      WireFirst([f], []);
      WireOfNone([]);
      assert [f][1..] == [] && input + [] == input;
    }
    CutStreams.AtStart(cfg, [f], []);
    Sessions.OpenDelivers(cfg, Start(input), [f], []);
    AtFields(cfg, OpenMessage(cfg, Start(input)).st, f.payload, [], []);
  }

  lemma FinishAtOnce(cfg: Config, st: State, k: nat, data: seq<byte>)
    requires !st.closed && st.flate && st.n != 0
    ensures var i := ReadOf(cfg, Source(st, None), k, Choice([], data, Finish));
            i.r.End? && i.x.stuck == None && !i.x.st.closed && i.x.st.payloadLength == st.payloadLength
  {
    assert Pull(cfg, Source(st, None), []) == Source(st, None);
  }
}
