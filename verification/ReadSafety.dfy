/** What the reader does with every input, well-formed or not: which headers it lets through, and how it says
    goodbye. */
module ReadSafety {
  import opened Octets
  import opened Masking
  import opened FrameHeader
  import opened CloseFrame
  import opened Frames
  import opened ReadModel

  /** The headers that may start or continue a message: no reserved bits but RSV1 on the first frame of a compressed
      message, and masked when they come from a client (sections 5.1 and 5.2 of RFC 6455, section 6 of RFC 7692). */
  predicate Legal(cfg: Config, h: Header) {
    && IsData(h.opcode) && !h.rsv2 && !h.rsv3
    && (h.rsv1 ==> cfg.flate && IsMessageStart(h.opcode))
    && (h.masked || cfg.client)
  }

  /** The close frame that an error calls for: the peer's own payload in answer to a close frame, 1009 for a message
      over the limit, 1002 for a violation of the protocol; none where the connection is gone. */
  function Farewell(e: ReadError): seq<Event> {
    match e
    case PeerClosed(ce) => [CloseEcho(SentPayload(ce))]
    case TooBig => [ErrorClose(1009)]
    case ConnClosed => []
    case BadHeader(_) => []
    case ShortPayload(_) => []
    case UnmaskedFrame => []
    case PreviousUnfinished => []
    case CorruptStream => []
    case StreamCut => []
    case _ => [ErrorClose(1002)]
  }

  /** Pongs sent and seen, and no close frame. */
  predicate OnlyPongs(events: seq<Event>) {
    forall x | x in events :: x.PongSent? || x.PongSeen?
  }

  /** No close frame but the one that the error calls for, and nothing after it. */
  predicate EndsWith(events: seq<Event>, e: ReadError) {
    var n := |events| - |Farewell(e)|;
    n >= 0 && events[n..] == Farewell(e) && OnlyPongs(events[..n])
  }

  lemma PongsThen(a: seq<Event>, b: seq<Event>, e: ReadError)
    requires OnlyPongs(a) && EndsWith(b, e)
    ensures EndsWith(a + b, e)
  {
    hide Farewell;
    var n := |b| - |Farewell(e)|;
    assert (a + b)[|a| + n..] == b[n..] && (a + b)[..|a| + n] == a + b[..n];
  }

  lemma PongsAndFarewell(a: seq<Event>, e: ReadError)
    requires OnlyPongs(a)
    ensures EndsWith(a + Farewell(e), e)
    ensures Farewell(e) == [] ==> EndsWith(a, e)
  {
    hide Farewell;
    assert (a + Farewell(e))[|a|..] == Farewell(e) && (a + Farewell(e))[..|a|] == a;
    assert a[|a|..] == [] && a[..|a|] == a;
  }

  lemma FarewellAlone(e: ReadError)
    ensures EndsWith(Farewell(e), e)
  {
    hide Farewell;
    PongsAndFarewell([], e);
    assert [] + Farewell(e) == Farewell(e);
  }

  lemma NoFarewell(events: seq<Event>, e: ReadError)
    requires EndsWith(events, e) && Farewell(e) == []
    ensures OnlyPongs(events)
  {
    assert events[..|events|] == events;
  }

  lemma ControlEnds(h: Header, s: seq<byte>)
    requires IsControl(h.opcode)
    ensures match HandleControl(h, s) case Got(_, _, ev) => OnlyPongs(ev) case Stopped(e, _, ev) => EndsWith(ev, e)
  {
    hide WirePayload, ParseClosePayload, SentPayload;
  }

  lemma RoundEnds(cfg: Config, s: seq<byte>)
    ensures match ReadRound(cfg, s)
            case Found(h, _) => Legal(cfg, h)
            case Handled(_, ev) => OnlyPongs(ev)
            case Halted(stop) => EndsWith(stop.events, stop.error)
  {
    hide DecodeHeader, HandleControl, EndsWith;
    if ReadRound(cfg, s).Halted? {
      FarewellAlone(ReadRound(cfg, s).stop.error);
    }
    if DecodeHeader(s).Ok? && IsControl(DecodeHeader(s).header.opcode) {
      ControlEnds(DecodeHeader(s).header, DecodeHeader(s).rest);
    }
  }

  lemma {:induction false} LoopEnds(cfg: Config, s: seq<byte>)
    ensures match ReadLoop(cfg, s)
            case Got(h, _, ev) => Legal(cfg, h) && OnlyPongs(ev)
            case Stopped(e, _, ev) => EndsWith(ev, e)
    decreases |s|
  {
    hide ReadRound, EndsWith;
    RoundEnds(cfg, s);
    var r := ReadRound(cfg, s);
    if r.Handled? {
      LoopEnds(cfg, r.rest);
      var l := ReadLoop(cfg, r.rest);
      if l.Stopped? {
        PongsThen(r.events, l.events, l.error);
      }
    }
  }

  /** Octets on which a server's readLoop gives up without closing: control frames that it answers, and then a header
      with the MASK bit clear and nothing wrong with its reserved bits. */
  predicate UnmaskedAhead(cfg: Config, s: seq<byte>)
    decreases |s|
  {
    DecodeConsumes(s);
    !cfg.client &&
    match DecodeHeader(s)
    case Fail(_) => false
    case Ok(h, rest) =>
      && !h.rsv2 && !h.rsv3 && (h.rsv1 ==> cfg.flate && IsMessageStart(h.opcode))
      && (h.masked ==>
            && (h.opcode == PING || h.opcode == PONG) && h.fin && h.payloadLength <= 125
            && h.payloadLength <= |rest| && UnmaskedAhead(cfg, rest[h.payloadLength..]))
  }

  lemma {:induction false} StaysOpen(cfg: Config, s: seq<byte>)
    ensures var l := ReadLoop(cfg, s); l.Stopped? && KeepsOpen(l.error) <==> UnmaskedAhead(cfg, s)
    decreases |s|
  {
    hide DecodeHeader, WirePayload, ParseClosePayload, SentPayload;
    DecodeConsumes(s);
    var r := ReadRound(cfg, s);
    if r.Handled? {
      StaysOpen(cfg, r.rest);
    }
  }

  /** An opened message has a legal first header; a failed Reader call closes the connection, unless an unmasked frame
      is the first thing in the input that is not an answered control frame. */
  lemma OpenEnds(cfg: Config, st: State)
    requires OnlyPongs(st.events)
    ensures match OpenMessage(cfg, st)
            case Opened(typ, s) => IsMessageStart(typ) && OnlyPongs(s.events) && !s.closed && (s.flate ==> cfg.flate)
            case NotOpened(e, s) =>
              && EndsWith(s.events, e) && (!s.closed <==> e == UnmaskedFrame)
              && (!s.closed <==> !st.closed && st.fin && UnmaskedAhead(cfg, st.input))
  {
    hide ReadLoop, EndsWith, UnmaskedAhead;
    StaysOpen(cfg, st.input);
    LoopEnds(cfg, st.input);
    assert st.events + [] == st.events;
    if st.closed || !st.fin {
      PongsAndFarewell(st.events, if st.closed then ConnClosed else PreviousUnfinished);
    } else {
      var l := ReadLoop(cfg, st.input);
      if l.Stopped? {
        PongsThen(st.events, l.events, l.error);
      } else if l.h.opcode == CONTINUATION {
        PongsAndFarewell(st.events + l.events, OrphanContinuation);
        SeqAssociative(st.events, l.events, Farewell(OrphanContinuation));
      }
    }
  }

  // ----- reads -----

  /** A read that gives octets or the end sends no close frame; one that fails sends what its error calls for, and then
      closes. */
  predicate ReadEnds(r: Read) {
    if r.Failed? then EndsWith(r.st.events, r.error) && (r.st.closed || Farewell(r.error) == [])
    else OnlyPongs(r.st.events)
  }

  lemma {:induction false} RawReadEnds(cfg: Config, st: State, k: nat)
    requires OnlyPongs(st.events)
    ensures ReadEnds(RawRead(cfg, st, k))
    decreases |st.input|
  {
    hide ReadLoop, EndsWith, Masked, KeyAfter;
    assert st.events + [] == st.events;
    if st.closed {
      PongsAndFarewell(st.events, ConnClosed);
    } else if st.payloadLength > 0 {
      PongsAndFarewell(st.events, ShortPayload(ShortRead(st.input)));
    } else if !st.fin {
      LoopEnds(cfg, st.input);
      var l := ReadLoop(cfg, st.input);
      if l.Stopped? {
        PongsThen(st.events, l.events, l.error);
      } else if l.h.opcode == CONTINUATION {
        RawReadEnds(cfg, SetFrame(st.(input := l.rest, events := st.events + l.events), l.h), k);
      } else {
        PongsAndFarewell(st.events + l.events, InterruptedMessage);
        SeqAssociative(st.events, l.events, Farewell(InterruptedMessage));
      }
    }
  }

  /** One read of an uncompressed message; a failed read always leaves the connection closed. */
  lemma MessageReadEnds(cfg: Config, st: State, k: nat)
    requires OnlyPongs(st.events) && !st.flate
    ensures var r := MessageRead(cfg, st, k); ReadEnds(r) && (r.Failed? ==> r.st.closed)
  {
    hide RawRead, EndsWith, OnlyPongs;
    if st.closed {
      PongsAndFarewell(st.events, ConnClosed);
    } else if st.n == 0 {
      PongsAndFarewell(st.events, TooBig);
    } else {
      RawReadEnds(cfg, st, if st.n < 0 then k else Min(k, st.n));
      var r := LimitedRead(cfg, st, k);
      if r.Failed? && IsEof(r.error) {
        NoFarewell(r.st.events, r.error);
      }
    }
    var r := LimitedRead(cfg, st, k);
    assert r.st.events + [] == r.st.events;
  }

  // ----- a message that came to its end -----

  /** The state is at the end of a message's last frame. */
  predicate Complete(st: State) {
    st.fin && st.payloadLength == 0
  }

  lemma {:induction false} RawReadCompletes(cfg: Config, st: State, k: nat)
    requires !st.closed
    ensures match RawRead(cfg, st, k)
            case Data(_, s) => !s.closed && s.flate == st.flate
            case End(s) => !s.closed && Complete(s)
            case Failed(e, _, s) => !Complete(s) && (e.BadHeader? || e.ShortPayload? ==> s.closed)
    decreases |st.input|
  {
    hide ReadLoop, Masked, KeyAfter;
    if st.payloadLength == 0 && !st.fin {
      var l := ReadLoop(cfg, st.input);
      if l.Got? && l.h.opcode == CONTINUATION {
        RawReadCompletes(cfg, SetFrame(st.(input := l.rest, events := st.events + l.events), l.h), k);
      }
    }
  }

  /** For every state, input and buffer sizes: an uncompressed message that was read to its end without an error was
      whole if and only if the connection is still open. */
  lemma {:induction false} WholeIfOpen(cfg: Config, st: State, sizes: nat -> nat, i: nat)
    requires !st.closed && !st.flate && Positive(sizes)
    ensures var w := ReadAll(cfg, st, sizes, i); w.error == None ==> (!w.st.closed <==> Complete(w.st))
    decreases Fuel(st)
  {
    hide RawRead, Complete;
    MessageReadConsumes(cfg, st, sizes(i));
    RawReadCompletes(cfg, st, sizes(i));
    if st.n > 0 {
      RawReadCompletes(cfg, st, Min(sizes(i), st.n));
      LimitApart(RawRead(cfg, st, Min(sizes(i), st.n)).st);
    }
    var r := MessageRead(cfg, st, sizes(i));
    if r.Data? {
      WholeIfOpen(cfg, r.st, sizes, i + 1);
    }
  }

  lemma LimitApart(st: State)
    ensures forall n :: Complete(st.(n := n)) == Complete(st)
  {
  }
}
