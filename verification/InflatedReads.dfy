/** Reading with an inflater between the raw reader and the limit, for every inflater: it may read ahead as much as it
    likes, make any octets of what it reads, end the stream, or find it corrupt. */
module InflatedReads {
  import opened Octets
  import opened Masking
  import opened FrameHeader
  import opened CloseFrame
  import opened Frames
  import opened ReadModel
  import opened ReadSafety

  // ----- an inflater -----

  /** What an inflater says after the octets it gives: there may be more, its stream has ended (a final block), its
      stream is corrupt, or the error that the raw reader gave it. */
  datatype Verdict = More | Finish | Corrupt | Report

  /** What one call of an inflater does: raw reads of these sizes, octets, and then a verdict. */
  datatype Choice = Choice(pulls: seq<nat>, data: seq<byte>, verdict: Verdict)

  /** The raw reader behind an inflater, and the error after which the inflater reads no more. */
  datatype Source = Source(st: State, stuck: Option<ReadError>)

  /** Raw reads up to the first that gives no octets. The end of the raw octets is an unexpected end to the inflater. */
  function Pull(cfg: Config, x: Source, pulls: seq<nat>): Source
    decreases |pulls|
  {
    if pulls == [] || x.stuck.Some? then x
    else match RawRead(cfg, x.st, pulls[0])
      case Data(_, s) => Pull(cfg, Source(s, None), pulls[1..])
      case End(s) => Source(s, Some(StreamCut))
      case Failed(e, _, s) => Source(s, Some(e))
  }

  /** The result of a call, the source after it, and the octets that came along with the end. */
  datatype Inflated = Inflated(r: Read, x: Source, last: seq<byte>)

  /** One call of the inflater for at most k octets. It may still have octets to give, end its stream or find it corrupt
      after the raw reader has given it an error, because the octets that came before the error are with it. */
  function Inflate(cfg: Config, x: Source, k: nat, c: Choice): Inflated {
    var y, d := Pull(cfg, x, c.pulls), c.data[..Min(k, |c.data|)];
    match c.verdict
    case More => Inflated(Data(d, y.st), y, [])
    case Finish => Inflated(End(y.st), y, d)
    case Corrupt =>
      Inflated(Failed(CorruptStream, d, y.st), if y.stuck.Some? then y else Source(y.st, Some(CorruptStream)), [])
    case Report =>
      match y.stuck
      case Some(e) => Inflated(Failed(e, d, y.st), y, [])
      case None => Inflated(Data(d, y.st), y, [])
  }

  /** The octets that a call gave. */
  function GivenBy(i: Inflated): seq<byte> {
    match i.r
    case Data(d, _) => d
    case End(_) => i.last
    case Failed(_, p, _) => p
  }

  function WithState(i: Inflated, st: State): Inflated {
    i.(x := i.x.(st := st), r := match i.r
                                 case Data(d, _) => Data(d, st)
                                 case End(_) => End(st)
                                 case Failed(e, p, _) => Failed(e, p, st))
  }

  /** limitReader.Read over the inflater: the limit counts what the inflater gives. */
  function LimitedInflate(cfg: Config, x: Source, k: nat, c: Choice): Inflated {
    if x.st.n < 0 then Inflate(cfg, x, k, c)
    else if x.st.n == 0 then
      var st := Closed(x.st, [ErrorClose(MESSAGE_TOO_BIG)]);
      Inflated(Failed(TooBig, [], st), x.(st := st), [])
    else
      var i := Inflate(cfg, x, Min(k, x.st.n), c);
      WithState(i, i.x.st.(n := x.st.n - |GivenBy(i)|))
  }

  /** The errors that wrap io.ErrUnexpectedEOF. */
  predicate IsUnexpectedEof(e: ReadError) {
    e == StreamCut || e == BadHeader(UnexpectedEof) || e == ShortPayload(UnexpectedEof)
  }

  /** msgReader.Read of a compressed message: an unexpected end behind the last frame's header is the end too. */
  function MessageInflate(cfg: Config, x: Source, k: nat, c: Choice): Inflated {
    if x.st.closed then Inflated(Failed(ConnClosed, [], x.st), x, [])
    else
      var i := LimitedInflate(cfg, x, k, c);
      match i.r
      case Failed(e, d, st) =>
        if IsEof(e) || (IsUnexpectedEof(e) && st.fin) then Inflated(End(st), i.x, d)
        else WithState(i, Closed(st, []))
      case _ => i
  }

  // ----- runs -----

  datatype Action = OpenNext | ReadNext(k: nat, choice: Choice)

  /** How the last read ended: with octets, with the end of the message, or with the end of the inflater's stream. */
  datatype Ending = NotYet | AtEof | AtFinish

  /** A connection: the source, whether a message was opened, its octets that were given to the caller, how the last
      read of it ended, and the error that ended the session. */
  datatype World = World(x: Source, reading: bool, given: seq<byte>, ending: Ending, error: Option<ReadError>)

  function ReadOf(cfg: Config, x: Source, k: nat, c: Choice): Inflated {
    if x.st.flate then MessageInflate(cfg, x, k, c)
    else var r := MessageRead(cfg, x.st, k); Inflated(r, Source(r.st, None), [])
  }

  /** One call of Reader, or of Read on the message at hand, unless a call failed before. */
  function Step(cfg: Config, w: World, a: Action): World {
    if w.error.Some? then w
    else match a
      case OpenNext =>
        (match OpenMessage(cfg, w.x.st)
         case Opened(_, st) => World(Source(st, None), true, [], NotYet, None)
         case NotOpened(e, st) => w.(x := w.x.(st := st), error := Some(e)))
      case ReadNext(k, c) =>
        if !w.reading then w
        else
          var i := ReadOf(cfg, w.x, k, c);
          var given := w.given + GivenBy(i);
          (match i.r
           case Data(_, _) => World(i.x, true, given, NotYet, None)
           case End(_) => World(i.x, true, given, if w.x.st.flate && c.verdict == Finish then AtFinish else AtEof, None)
           case Failed(e, _, _) => World(i.x, true, given, NotYet, Some(e)))
  }

  function Run(cfg: Config, input: seq<byte>, actions: seq<Action>): World {
    if actions == [] then World(Source(Start(input), None), false, [], NotYet, None)
    else Step(cfg, Run(cfg, input, actions[..|actions| - 1]), actions[|actions| - 1])
  }

  // ----- goodbye -----

  /** The source has sent no close frame but the one for the error that the inflater is stuck on. */
  predicate SourceOk(x: Source) {
    match x.stuck
    case None => OnlyPongs(x.st.events)
    case Some(e) => EndsWith(x.st.events, e) && (x.st.closed || Farewell(e) == [])
  }

  lemma {:induction false} PullEnds(cfg: Config, x: Source, pulls: seq<nat>)
    requires SourceOk(x)
    ensures SourceOk(Pull(cfg, x, pulls))
    decreases |pulls|
  {
    hide RawRead, EndsWith, OnlyPongs;
    if pulls != [] && x.stuck == None {
      RawReadEnds(cfg, x.st, pulls[0]);
      match RawRead(cfg, x.st, pulls[0])
      case Data(_, s) => PullEnds(cfg, Source(s, None), pulls[1..]);
      case End(s) => PongsAndFarewell(s.events, StreamCut);
      case Failed(_, _, _) =>
    }
  }

  /** The error that ended a session called for the last thing that was sent; or an error that the raw reader had run
      into did, and the inflater then found its stream corrupt, or still had octets to give and the next call found the
      connection closed. */
  predicate Goodbye(x: Source, e: ReadError) {
    || EndsWith(x.st.events, e)
    || ((e == ConnClosed || e == CorruptStream) && x.stuck.Some? && EndsWith(x.st.events, x.stuck.value))
  }

  predicate InflatedOk(i: Inflated) {
    i.x.st == i.r.st && if i.r.Failed? then Goodbye(i.x, i.r.error) else SourceOk(i.x)
  }

  lemma InflateEnds(cfg: Config, x: Source, k: nat, c: Choice)
    requires SourceOk(x)
    ensures InflatedOk(Inflate(cfg, x, k, c))
    ensures var i := Inflate(cfg, x, k, c);
            i.r.Failed? ==>
              SourceOk(i.x) && i.x.stuck.Some? && (i.r.error == CorruptStream || i.x.stuck == Some(i.r.error))
  {
    hide EndsWith, OnlyPongs, Pull;
    PullEnds(cfg, x, c.pulls);
    var y := Pull(cfg, x, c.pulls);
    if y.stuck == None {
      PongsAndFarewell(y.st.events, CorruptStream);
    }
  }

  lemma LimitedEnds(cfg: Config, x: Source, k: nat, c: Choice)
    requires SourceOk(x) && !x.st.closed
    ensures var i := LimitedInflate(cfg, x, k, c);
            && InflatedOk(i)
            && (i.r.Failed? && i.r.error != TooBig ==> SourceOk(i.x))
  {
    hide EndsWith, OnlyPongs, Inflate;
    if x.st.n == 0 {
      SourceIsQuiet(x);
      PongsAndFarewell(x.st.events, TooBig);
    } else {
      InflateEnds(cfg, x, if x.st.n < 0 then k else Min(k, x.st.n), c);
    }
  }

  lemma SourceIsQuiet(x: Source)
    requires SourceOk(x) && !x.st.closed
    ensures OnlyPongs(x.st.events)
  {
    if x.stuck.Some? {
      NoFarewell(x.st.events, x.stuck.value);
    }
  }

  lemma MessageInflateEnds(cfg: Config, x: Source, k: nat, c: Choice)
    requires SourceOk(x)
    ensures InflatedOk(MessageInflate(cfg, x, k, c))
    ensures var i := MessageInflate(cfg, x, k, c); i.r.Failed? ==> i.r.st.closed
  {
    hide EndsWith, OnlyPongs, LimitedInflate;
    if x.st.closed {
      if x.stuck == None {
        PongsAndFarewell(x.st.events, ConnClosed);
      }
    } else {
      LimitedEnds(cfg, x, k, c);
      var i := LimitedInflate(cfg, x, k, c);
      assert i.r.st.events + [] == i.r.st.events;
    }
  }

  predicate WorldOk(w: World) {
    && (w.error == None ==> SourceOk(w.x) && (!w.x.st.flate ==> w.x.stuck == None) && w.x.stuck != Some(TooBig))
    && (w.error.Some? ==> Goodbye(w.x, w.error.value) && (w.x.st.closed || w.error == Some(UnmaskedFrame)))
  }

  lemma ReadOfEnds(cfg: Config, x: Source, k: nat, c: Choice)
    requires SourceOk(x) && (!x.st.flate ==> x.stuck == None)
    ensures var i := ReadOf(cfg, x, k, c); InflatedOk(i) && (i.r.Failed? ==> i.r.st.closed)
  {
    hide EndsWith, OnlyPongs, MessageInflate, MessageRead;
    if x.st.flate {
      MessageInflateEnds(cfg, x, k, c);
    } else {
      MessageReadEnds(cfg, x.st, k);
    }
  }

  /** Whatever octets arrive, whatever calls are made and whatever the inflater does: no close frame is sent before an
      error, and with an error at most one, as the last thing, the one that the error calls for. After an error the
      connection is closed, unless the error is an unmasked frame. */
  lemma {:induction false} RunEnds(cfg: Config, input: seq<byte>, actions: seq<Action>)
    ensures WorldOk(Run(cfg, input, actions))
  {
    hide Step, SourceOk, Goodbye;
    if actions == [] {
      assert SourceOk(Source(Start(input), None)) by { StartIsQuiet(input); }
    } else {
      RunEnds(cfg, input, actions[..|actions| - 1]);
      StepEnds(cfg, Run(cfg, input, actions[..|actions| - 1]), actions[|actions| - 1]);
    }
  }

  lemma StartIsQuiet(input: seq<byte>)
    ensures SourceOk(Source(Start(input), None))
  {
  }

  lemma StepEnds(cfg: Config, w: World, a: Action)
    requires WorldOk(w)
    ensures WorldOk(Step(cfg, w, a))
  {
    hide OpenMessage, ReadOf, EndsWith, OnlyPongs, UnmaskedAhead;
    if w.error == None {
      if a.ReadNext? {
        ReadOfEnds(cfg, w.x, a.k, a.choice);
        ReadOfCounts(cfg, w.x, a.k, a.choice);
      } else if w.x.st.closed {
        OpenOfClosed(cfg, w.x.st);
        if w.x.stuck == None {
          PongsAndFarewell(w.x.st.events, ConnClosed);
        }
      } else {
        SourceIsQuiet(w.x);
        OpenEnds(cfg, w.x.st);
      }
    }
  }

  lemma OpenOfClosed(cfg: Config, st: State)
    requires st.closed
    ensures OpenMessage(cfg, st) == NotOpened(ConnClosed, st)
  {
  }

  // ----- the limit -----

  lemma {:induction false} LoopErrors(cfg: Config, s: seq<byte>)
    ensures var l := ReadLoop(cfg, s);
            l.Stopped? ==> l.error != TooBig && l.error != StreamCut && l.error != CorruptStream
    decreases |s|
  {
    hide DecodeHeader, WirePayload, ParseClosePayload, SentPayload;
    var r := ReadRound(cfg, s);
    if r.Handled? {
      LoopErrors(cfg, r.rest);
    }
  }

  /** A raw read that fails gives less than it was asked for, and nothing at the end of the input. */
  lemma {:induction false} RawReadFails(cfg: Config, st: State, k: nat)
    ensures var r := RawRead(cfg, st, k);
            r.Failed? ==>
              && r.error != TooBig && r.error != StreamCut && r.error != CorruptStream
              && |r.partial| <= k && (IsEof(r.error) ==> r.partial == [])
    decreases |st.input|
  {
    hide ReadLoop, Masked, KeyAfter;
    if !st.closed && st.payloadLength == 0 && !st.fin {
      LoopErrors(cfg, st.input);
      var l := ReadLoop(cfg, st.input);
      if l.Got? && l.h.opcode == CONTINUATION {
        RawReadFails(cfg, SetFrame(st.(input := l.rest, events := st.events + l.events), l.h), k);
      }
    }
  }

  lemma {:induction false} PullKeeps(cfg: Config, x: Source, pulls: seq<nat>)
    ensures var y := Pull(cfg, x, pulls);
            y.st.n == x.st.n && y.st.flate == x.st.flate && (y.stuck == Some(TooBig) ==> x.stuck == Some(TooBig))
    decreases |pulls|
  {
    hide RawRead;
    if pulls != [] && x.stuck == None {
      RawReadKeepsLimit(cfg, x.st, pulls[0]);
      RawReadFails(cfg, x.st, pulls[0]);
      var r := RawRead(cfg, x.st, pulls[0]);
      if r.Data? {
        PullKeeps(cfg, Source(r.st, None), pulls[1..]);
      }
    }
  }

  /** A call takes off the limit exactly what it gives, and finds a message too big only when the limit is used up. */
  predicate Counted(n: int, i: Inflated) {
    match i.r
    case Failed(e, p, _) => n >= 0 ==> |p| <= n && (e == TooBig ==> n == 0 && p == [])
    case _ => if n < 0 then i.x.st.n == n else |GivenBy(i)| <= n && i.x.st.n == n - |GivenBy(i)|
  }

  lemma InflateKeeps(cfg: Config, x: Source, k: nat, c: Choice)
    requires x.stuck != Some(TooBig)
    ensures var i := Inflate(cfg, x, k, c);
            && i.x.st == i.r.st && i.x.st.n == x.st.n && i.x.st.flate == x.st.flate && i.x.stuck != Some(TooBig)
            && |GivenBy(i)| <= k && (i.r.Failed? ==> i.r.error != TooBig)
  {
    hide Pull;
    PullKeeps(cfg, x, c.pulls);
  }

  lemma LimitedCounts(cfg: Config, x: Source, k: nat, c: Choice)
    requires x.stuck != Some(TooBig)
    ensures var i := LimitedInflate(cfg, x, k, c);
            && Counted(x.st.n, i) && i.x.st == i.r.st && i.x.st.flate == x.st.flate && i.x.stuck != Some(TooBig)
            && (x.st.n < 0 ==> i.x.st.n == x.st.n)
            && (x.st.n > 0 ==> |GivenBy(i)| <= x.st.n && i.x.st.n == x.st.n - |GivenBy(i)|)
            && (x.st.n == 0 ==> i.r.Failed? && i.r.error == TooBig)
  {
    hide Inflate;
    if x.st.n != 0 {
      InflateKeeps(cfg, x, if x.st.n < 0 then k else Min(k, x.st.n), c);
    }
  }

  lemma InflateCounts(cfg: Config, x: Source, k: nat, c: Choice)
    requires x.stuck != Some(TooBig)
    ensures var i := MessageInflate(cfg, x, k, c);
            Counted(x.st.n, i) && i.x.st.flate == x.st.flate && i.x.stuck != Some(TooBig)
  {
    hide LimitedInflate;
    LimitedCounts(cfg, x, k, c);
  }

  lemma PlainCounts(cfg: Config, st: State, k: nat)
    ensures var r := MessageRead(cfg, st, k); Counted(st.n, Inflated(r, Source(r.st, None), []))
  {
    hide RawRead;
    var k' := if st.n < 0 then k else Min(k, st.n);
    RawReadKeepsLimit(cfg, st, k');
    RawReadFails(cfg, st, k');
  }

  lemma ReadOfCounts(cfg: Config, x: Source, k: nat, c: Choice)
    requires x.stuck != Some(TooBig)
    ensures var i := ReadOf(cfg, x, k, c);
            && Counted(x.st.n, i) && (!i.r.Failed? ==> i.x.stuck != Some(TooBig))
            && (i.x.stuck.Some? ==> i.x.st.flate)
  {
    hide MessageInflate, MessageRead, Counted;
    if x.st.flate {
      InflateCounts(cfg, x, k, c);
    } else {
      PlainCounts(cfg, x.st, k);
    }
  }

  /** With a stored limit: what was given of the message at hand, and what is left of the limit. */
  predicate LimitOk(cfg: Config, w: World) {
    cfg.limit >= 0 && w.reading ==>
      && |w.given| <= cfg.limit
      && (w.error == None ==> |w.given| + w.x.st.n == cfg.limit)
      && (w.error == Some(TooBig) ==> |w.given| == cfg.limit)
  }

  /** However the octets are compressed and whatever the inflater makes of them, a message gives its reader at most as
      many octets as the stored limit, one more than the limit that was set; a reader that was given so many gets the
      error. */
  lemma {:induction false} RunWithinLimit(cfg: Config, input: seq<byte>, actions: seq<Action>)
    ensures LimitOk(cfg, Run(cfg, input, actions))
  {
    hide Step;
    if actions != [] {
      var front, a := actions[..|actions| - 1], actions[|actions| - 1];
      RunWithinLimit(cfg, input, front);
      RunEnds(cfg, input, front);
      StepWithinLimit(cfg, Run(cfg, input, front), a);
    }
  }

  lemma StepWithinLimit(cfg: Config, w: World, a: Action)
    requires LimitOk(cfg, w) && WorldOk(w)
    ensures LimitOk(cfg, Step(cfg, w, a))
  {
    hide ReadOf, SourceOk, Goodbye, ReadLoop;
    if w.error == None {
      if a.ReadNext? {
        ReadOfCounts(cfg, w.x, a.k, a.choice);
      } else {
        LoopErrors(cfg, w.x.st.input);
      }
    }
  }

  /** In every run, a reader that was given all that the limit allows gets the error next, and nothing else. */
  lemma LimitIsFinal(cfg: Config, input: seq<byte>, actions: seq<Action>, k: nat, c: Choice)
    requires var w := Run(cfg, input, actions);
             cfg.limit >= 0 && w.reading && w.error == None && |w.given| == cfg.limit && !w.x.st.closed
    ensures var w := Run(cfg, input, actions + [ReadNext(k, c)]);
            w.error == Some(TooBig) && w.given == Run(cfg, input, actions).given
  {
    hide LimitedRead, Inflate;
    RunWithinLimit(cfg, input, actions);
    var all := actions + [ReadNext(k, c)];
    assert all[..|all| - 1] == actions;
    var x := Run(cfg, input, actions).x;
    LimitUsedUp(cfg, x, k, c);
  }

  lemma LimitUsedUp(cfg: Config, x: Source, k: nat, c: Choice)
    requires x.st.n == 0 && !x.st.closed
    ensures var i := ReadOf(cfg, x, k, c); i.r.Failed? && i.r.error == TooBig && GivenBy(i) == []
  {
  }
}
