/** How messages end when an inflater reads them: when the end was a real one, and what the dictionary then holds. */
module CompressedEnds {
  import opened Octets
  import opened ReadModel
  import opened ReadSafety
  import opened InflatedReads
  import opened Compression

  // ----- whole if and only if open -----

  /** A raw reader that ran into the end of the message is open and at its end; one that ran into an error is not at its
      end, and closed if it ran into the end of the input; one that ran into neither is open. */
  predicate SourceEnd(x: Source) {
    match x.stuck
    case None => !x.st.closed
    case Some(e) =>
      && (e == StreamCut ==> !x.st.closed && Complete(x.st))
      && (e != StreamCut ==> !Complete(x.st))
      && (e.BadHeader? || e.ShortPayload? ==> x.st.closed)
  }

  lemma {:induction false} PullEndsWell(cfg: Config, x: Source, pulls: seq<nat>)
    requires SourceEnd(x)
    ensures SourceEnd(Pull(cfg, x, pulls))
    decreases |pulls|
  {
    hide RawRead, Complete;
    if pulls != [] && x.stuck == None {
      RawReadCompletes(cfg, x.st, pulls[0]);
      RawReadFails(cfg, x.st, pulls[0]);
      var r := RawRead(cfg, x.st, pulls[0]);
      if r.Data? {
        PullEndsWell(cfg, Source(r.st, None), pulls[1..]);
      }
    }
  }

  lemma InflateEndsWell(cfg: Config, x: Source, k: nat, c: Choice)
    requires SourceEnd(x)
    ensures var i := Inflate(cfg, x, k, c);
            && i.x.st == i.r.st && ((i.r.Failed? && i.r.error == CorruptStream) || SourceEnd(i.x))
            && (i.r.Failed? && i.r.error != CorruptStream ==> i.x.stuck == Some(i.r.error))
            && (i.r.End? <==> c.verdict == Finish)
  {
    hide Pull, Complete;
    PullEndsWell(cfg, x, c.pulls);
  }

  lemma LimitIsApart(x: Source, n: int)
    ensures SourceEnd(Source(x.st.(n := n), x.stuck)) == SourceEnd(x)
  {
  }

  /** One read of a compressed message that ends without an error: by the inflater's own end, or whole if and only if
      the connection is still open. */
  lemma MessageInflateEndsWell(cfg: Config, x: Source, k: nat, c: Choice)
    requires SourceEnd(x)
    ensures var i := MessageInflate(cfg, x, k, c);
            && (!i.r.Failed? ==> SourceEnd(i.x))
            && (i.r.End? ==> (i.x.st.closed ==> !Complete(i.x.st)))
            && (i.r.End? && c.verdict != Finish ==> (!i.x.st.closed <==> Complete(i.x.st)))
  {
    hide Inflate, Complete;
    if !x.st.closed && x.st.n != 0 {
      InflateEndsWell(cfg, x, if x.st.n < 0 then k else Min(k, x.st.n), c);
      var i := Inflate(cfg, x, if x.st.n < 0 then k else Min(k, x.st.n), c);
      LimitIsApart(i.x, x.st.n - |GivenBy(i)|);
      LimitApart(i.x.st);
    }
  }

  ghost predicate EndOk(w: World) {
    w.error == None ==>
      && (w.x.st.flate ==> SourceEnd(w.x))
      && (w.ending == AtEof ==> (!w.x.st.closed <==> Complete(w.x.st)))
      && (w.ending == AtFinish ==> (w.x.st.closed ==> !Complete(w.x.st)))
  }

  lemma PlainEndsWell(cfg: Config, st: State, k: nat)
    requires !st.flate
    ensures var r := MessageRead(cfg, st, k); (r.End? ==> (!r.st.closed <==> Complete(r.st))) && !r.st.flate
  {
    hide RawRead, Complete;
    if !st.closed && st.n != 0 {
      var k' := if st.n < 0 then k else Min(k, st.n);
      RawReadCompletes(cfg, st, k');
      RawReadKeepsLimit(cfg, st, k');
      LimitApart(RawRead(cfg, st, k').st);
    }
  }

  lemma StepEndsWell(cfg: Config, w: World, a: Action)
    requires EndOk(w) && WorldOk(w)
    ensures EndOk(Step(cfg, w, a))
  {
    hide OpenMessage, MessageInflate, MessageRead, SourceEnd, Complete;
    hide SourceOk, Goodbye, EndsWith, OnlyPongs, UnmaskedAhead;
    if w.error == None {
      if a.OpenNext? {
        OpenIsOpen(cfg, w.x.st);
      } else if w.x.st.flate {
        MessageInflateEndsWell(cfg, w.x, a.k, a.choice);
      } else {
        PlainEndsWell(cfg, w.x.st, a.k);
      }
    }
  }

  lemma OpenIsOpen(cfg: Config, st: State)
    ensures var o := OpenMessage(cfg, st); o.Opened? ==> SourceEnd(Source(o.st, None))
  {
    hide ReadLoop;
  }

  /** In every run, for every input, every sequence of calls and every inflater: when a read reports the end of a
      message without an error, and it was not the inflater that ended its stream, then the message was whole if and
      only if the connection is still open. When the inflater ended its stream, a closed connection still says that the
      message was not whole, and an open one says nothing. */
  lemma {:induction false} RunWholeIfOpen(cfg: Config, input: seq<byte>, actions: seq<Action>)
    ensures EndOk(Run(cfg, input, actions))
  {
    hide Step, SourceEnd;
    if actions != [] {
      var front := actions[..|actions| - 1];
      RunWholeIfOpen(cfg, input, front);
      RunEnds(cfg, input, front);
      StepEndsWell(cfg, Run(cfg, input, front), actions[|actions| - 1]);
    }
  }

  /** What is left of a message when the inflater ends its stream early is not skipped. If its last header was read, the
      next Reader call on an open connection reads the rest of the payload as frames, as if it were all the input; if
      not, or if the connection is closed, the call fails. */
  lemma AfterFinish(cfg: Config, st: State)
    ensures st.closed ==> OpenMessage(cfg, st) == NotOpened(ConnClosed, st)
    ensures !st.closed && st.fin ==>
              var o, o' := OpenMessage(cfg, st), OpenMessage(cfg, Start(st.input));
              && o.Opened? == o'.Opened?
              && (o.Opened? ==>
                    o.typ == o'.typ && o.st.input == o'.st.input && o.st.payloadLength == o'.st.payloadLength)
              && (o.NotOpened? ==> o.error == o'.error)
    ensures !st.closed && !st.fin ==> OpenMessage(cfg, st) == NotOpened(PreviousUnfinished, Closed(st, []))
  {
    hide ReadLoop;
  }

  // ----- the dictionary -----

  const WINDOW := 32768

  /** What the dictionary is after a call: with context takeover, what a read of a compressed message gave is written to
      the sliding window, error or not. The window is as SlidingWindow.Write leaves it. */
  function WindowAfter(cfg: Config, window: seq<byte>, w: World, a: Action): seq<byte> {
    if w.error == None && w.reading && a.ReadNext? && w.x.st.flate then
      Last(window + GivenBy(ReadOf(cfg, w.x, a.k, a.choice)), WINDOW)
    else window
  }

  function Window(cfg: Config, input: seq<byte>, actions: seq<Action>): seq<byte> {
    if actions == [] then []
    else
      var front := actions[..|actions| - 1];
      WindowAfter(cfg, Window(cfg, input, front), Run(cfg, input, front), actions[|actions| - 1])
  }

  /** All octets of compressed messages that were given to the caller. */
  function AllInflated(cfg: Config, input: seq<byte>, actions: seq<Action>): seq<byte> {
    if actions == [] then []
    else
      var front, a := actions[..|actions| - 1], actions[|actions| - 1];
      var w := Run(cfg, input, front);
      AllInflated(cfg, input, front) +
      if w.error == None && w.reading && a.ReadNext? && w.x.st.flate then GivenBy(ReadOf(cfg, w.x, a.k, a.choice))
      else []
  }

  /** In every run, across messages and errors: the dictionary is the last 32768 octets of all compressed messages so
      far. */
  lemma {:induction false} WindowIsLast(cfg: Config, input: seq<byte>, actions: seq<Action>)
    ensures Window(cfg, input, actions) == Last(AllInflated(cfg, input, actions), 32768)
  {
    hide Run, ReadOf, Last;
    if actions == [] {
      LastOfNone(WINDOW);
    } else {
      var front, a := actions[..|actions| - 1], actions[|actions| - 1];
      var w := Run(cfg, input, front);
      WindowIsLast(cfg, input, front);
      var all := AllInflated(cfg, input, front);
      assert all + [] == all;
      if a.ReadNext? {
        LastOfLast(all, GivenBy(ReadOf(cfg, w.x, a.k, a.choice)), WINDOW);
      }
    }
  }

  /** The calls of a run, with the sliding window behind the reader: every read of a compressed message writes what it
      gave. */
  method RunWithWindow(cfg: Config, input: seq<byte>, actions: seq<Action>) returns (w: World, dictionary: seq<byte>)
    ensures w == Run(cfg, input, actions)
    ensures dictionary == Last(AllInflated(cfg, input, actions), 32768)
  {
    hide Step, ReadOf, Last;
    w := World(Source(Start(input), None), false, [], NotYet, None);
    var window := new SlidingWindow(WINDOW);
    assert window.buf[..window.n] == [] by { LastOfNone(WINDOW); }
    for i := 0 to |actions|
      invariant fresh(window) && fresh(window.buf) && window.buf.Length == WINDOW && window.Valid()
      invariant w == Run(cfg, input, actions[..i]) && window.buf[..window.n] == Window(cfg, input, actions[..i])
    {
      var a := actions[i];
      ghost var now := actions[..i + 1];
      assert now[..|now| - 1] == actions[..i];
      if w.error == None && w.reading && a.ReadNext? && w.x.st.flate {
        window.Write(GivenBy(ReadOf(cfg, w.x, a.k, a.choice)));
      }
      w := Step(cfg, w, a);
    }
    assert actions[..|actions|] == actions;
    dictionary := window.buf[..window.n];
    WindowIsLast(cfg, input, actions);
  }

  lemma LastOfNone(n: nat)
    ensures Last<byte>([], n) == []
  {
  }
}
