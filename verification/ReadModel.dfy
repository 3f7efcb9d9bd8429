/** The reading side of a connection as a function of the octets received: what each call returns and leaves behind. */
module ReadModel {
  import opened Octets
  import opened Masking
  import opened FrameHeader
  import opened CloseFrame
  import opened Frames

  /** The role of this endpoint, whether compression was negotiated, and the stored read limit. */
  datatype Config = Config(client: bool, flate: bool, limit: int)

  /** CorruptStream and StreamCut are errors of the inflater; the second is its io.ErrUnexpectedEOF. */
  datatype ReadError =
    | ConnClosed
    | BadHeader(cause: HeaderError)
    | UnexpectedRsv
    | UnmaskedFrame
    | UnknownOpcode
    | ControlTooLong
    | ControlFragmented
    | ShortPayload(cause: HeaderError)
    | BadClosePayload
    | PeerClosed(ce: CloseError)
    | PreviousUnfinished
    | OrphanContinuation
    | InterruptedMessage
    | TooBig
    | CorruptStream
    | StreamCut

  /** What the reader does besides reading: pongs it answers, pongs it sees, and close frames it sends. */
  datatype Event = PongSent(data: seq<byte>) | PongSeen(data: seq<byte>) | CloseEcho(payload: seq<byte>)
    | ErrorClose(code: int)

  datatype Loop = Got(h: Header, rest: seq<byte>, events: seq<Event>)
    | Stopped(error: ReadError, rest: seq<byte>, events: seq<Event>)

  /** The errors that wrap io.EOF. */
  predicate IsEof(e: ReadError) {
    e == BadHeader(Eof) || e == ShortPayload(Eof)
  }

  predicate Rsv1Illegal(cfg: Config, h: Header) {
    !cfg.flate || !IsMessageStart(h.opcode)
  }

  /** Which errors leave the connection open. */
  predicate KeepsOpen(e: ReadError) {
    e == UnmaskedFrame
  }

  /** One control frame whose header has been read: reading goes on behind it, or stops. */
  function HandleControl(h: Header, s: seq<byte>): (l: Loop)
    ensures l.Got? ==> |l.rest| <= |s|
    ensures l.Stopped? ==> !KeepsOpen(l.error)
  {
    if h.payloadLength > MAX_CONTROL_PAYLOAD then Stopped(ControlTooLong, [], [ErrorClose(PROTOCOL_ERROR)])
    else if !h.fin then Stopped(ControlFragmented, [], [ErrorClose(PROTOCOL_ERROR)])
    else if |s| < h.payloadLength then Stopped(ShortPayload(ShortRead(s)), [], [])
    else
      var b := WirePayload(h, s[..h.payloadLength]);
      var rest := s[h.payloadLength..];
      if h.opcode == PING then Got(h, rest, [PongSent(b)])
      else if h.opcode == PONG then Got(h, rest, [PongSeen(b)])
      else match ParseClosePayload(b)
        case None => Stopped(BadClosePayload, [], [ErrorClose(PROTOCOL_ERROR)])
        case Some(ce) => Stopped(PeerClosed(ce), [], [CloseEcho(SentPayload(ce))])
  }

  lemma DecodeConsumes(s: seq<byte>)
    ensures DecodeHeader(s).Ok? ==> |DecodeHeader(s).rest| < |s|
  {
  }

  function After(events: seq<Event>, l: Loop): Loop {
    l.(events := events + l.events)
  }

  lemma AfterAfter(a: seq<Event>, b: seq<Event>, l: Loop)
    ensures After(a, After(b, l)) == After(a + b, l)
  {
  }

  /** One round of readLoop: a data frame is found, a control frame is handled, or reading stops. */
  datatype Round = Found(h: Header, rest: seq<byte>) | Handled(rest: seq<byte>, events: seq<Event>) | Halted(stop: Loop)

  function ReadRound(cfg: Config, s: seq<byte>): (r: Round)
    ensures r.Found? ==> |r.rest| < |s| && IsData(r.h.opcode)
    ensures r.Handled? ==> |r.rest| < |s|
    ensures r.Halted? ==> r.stop.Stopped? && |r.stop.rest| <= |s|
  {
    DecodeConsumes(s);
    match DecodeHeader(s)
    case Fail(e) => Halted(Stopped(BadHeader(e), [], []))
    case Ok(h, rest) =>
      if (h.rsv1 && Rsv1Illegal(cfg, h)) || h.rsv2 || h.rsv3 then
        Halted(Stopped(UnexpectedRsv, [], [ErrorClose(PROTOCOL_ERROR)]))
      else if !cfg.client && !h.masked then Halted(Stopped(UnmaskedFrame, rest, []))
      else if IsControl(h.opcode) then
        match HandleControl(h, rest)
        case Stopped(e, _, ev) => Halted(Stopped(e, [], ev))
        case Got(_, r, ev) => Handled(r, ev)
      else if IsData(h.opcode) then Found(h, rest)
      else Halted(Stopped(UnknownOpcode, [], [ErrorClose(PROTOCOL_ERROR)]))
  }

  /** Reads frames, handling control frames on the way, up to the header of the next data frame. */
  function ReadLoop(cfg: Config, s: seq<byte>): (l: Loop)
    ensures |l.rest| <= |s|
    ensures l.Got? ==> |l.rest| < |s| && IsData(l.h.opcode)
    decreases |s|
  {
    match ReadRound(cfg, s)
    case Found(h, rest) => Got(h, rest, [])
    case Handled(rest, ev) => After(ev, ReadLoop(cfg, rest))
    case Halted(stop) => stop
  }

  // ----- the read limit -----

  /** A message of this length does not reach a stored limit. */
  predicate Fits(stored: int, length: nat) {
    stored < 0 || length < stored
  }

  /** What SetReadLimit stores for n: the length from which on a message is too big. A negative n means no limit, and so
      does the largest int64, because one more than that wraps around. */
  function StoredLimit(n: int): (stored: int)
    requires -(INT64_LIMIT as int) <= n < INT64_LIMIT
    ensures -(INT64_LIMIT as int) <= stored < INT64_LIMIT
    ensures forall length: nat :: Fits(stored, length) <==> (0 <= n < INT64_LIMIT - 1 ==> length <= n)
  {
    if n < 0 then n else if n + 1 == INT64_LIMIT then -(INT64_LIMIT as int) else n + 1
  }

  // ----- messages -----

  const DEFLATE_TAIL: seq<byte> := [0x00, 0x00, 0xff, 0xff]

  /** The state that calls on the reader share. Once closed, no more input is looked at. */
  datatype State = State(
    input: seq<byte>,
    closed: bool,
    fin: bool,
    payloadLength: nat,
    maskKey: bv32,
    flate: bool,
    tail: seq<byte>,
    n: int,
    events: seq<Event>)

  function Start(input: seq<byte>): State {
    State(input, false, true, 0, 0, false, [], 0, [])
  }

  datatype Opened = Opened(typ: Opcode, st: State) | NotOpened(error: ReadError, st: State)

  function Closed(st: State, events: seq<Event>): State {
    st.(closed := true, input := [], events := st.events + events)
  }

  function StoppedAt(st: State, l: Loop): State
    requires l.Stopped?
  {
    if KeepsOpen(l.error) then st.(input := l.rest, events := st.events + l.events) else Closed(st, l.events)
  }

  function SetFrame(st: State, h: Header): State {
    st.(fin := h.fin, payloadLength := h.payloadLength, maskKey := h.maskKey)
  }

  /** Reader: finds the next message. */
  function OpenMessage(cfg: Config, st: State): (o: Opened)
    ensures o.Opened? ==> |o.st.input| < |st.input|
  {
    if st.closed then NotOpened(ConnClosed, st)
    else if !st.fin then NotOpened(PreviousUnfinished, Closed(st, []))
    else match ReadLoop(cfg, st.input)
      case Stopped(e, r, ev) => NotOpened(e, StoppedAt(st, Stopped(e, r, ev)))
      case Got(h, rest, ev) =>
        if h.opcode == CONTINUATION then NotOpened(OrphanContinuation, Closed(st, ev + [ErrorClose(PROTOCOL_ERROR)]))
        else
          var st1 := st.(input := rest, events := st.events + ev, flate := h.rsv1, n := cfg.limit,
                         tail := if h.rsv1 then DEFLATE_TAIL else st.tail);
          Opened(h.opcode, SetFrame(st1, h))
  }

  datatype Read = Data(data: seq<byte>, st: State) | End(st: State)
    | Failed(error: ReadError, partial: seq<byte>, st: State)

  function Min(a: int, b: int): int {
    if a <= b then a else b
  }

  /** A read in the middle of a frame: octets from a client are unmasked. */
  function InFrameRead(cfg: Config, st: State, k: nat): (r: Read)
    ensures r.Data? ==> |r.data| <= k
  {
    var n := Min(k, st.payloadLength);
    if |st.input| < n then Failed(ShortPayload(ShortRead(st.input)), st.input, Closed(st, []))
    else
      var wire, st1 := st.input[..n], st.(input := st.input[n..], payloadLength := st.payloadLength - n);
      if cfg.client then Data(wire, st1)
      else Data(Masked(st.maskKey, wire), st1.(maskKey := KeyAfter(st.maskKey, n)))
  }

  /** msgReader.read: the raw octets of the message, with the deflate tail after a compressed one. */
  function RawRead(cfg: Config, st: State, k: nat): (r: Read)
    ensures r.Data? ==> |r.data| <= k
    decreases |st.input|
  {
    if st.closed then Failed(ConnClosed, [], st)
    else if st.payloadLength > 0 then InFrameRead(cfg, st, k)
    else if st.fin then
      if st.flate && st.tail != [] then
        var n := Min(k, |st.tail|);
        Data(st.tail[..n], st.(tail := st.tail[n..]))
      else End(st)
    else match ReadLoop(cfg, st.input)
      case Stopped(e, r, ev) => Failed(e, [], StoppedAt(st, Stopped(e, r, ev)))
      case Got(h, rest, ev) =>
        if h.opcode != CONTINUATION then Failed(InterruptedMessage, [], Closed(st, ev + [ErrorClose(PROTOCOL_ERROR)]))
        else RawRead(cfg, SetFrame(st.(input := rest, events := st.events + ev), h), k)
  }

  lemma RawReadInFrame(cfg: Config, st: State, k: nat)
    requires !st.closed && st.payloadLength > 0
    ensures RawRead(cfg, st, k) == InFrameRead(cfg, st, k)
  {
    hide InFrameRead;
  }

  /** The raw reader leaves the limit alone, and what kind of message it reads. */
  lemma {:induction false} RawReadKeepsLimit(cfg: Config, st: State, k: nat)
    ensures RawRead(cfg, st, k).st.n == st.n && RawRead(cfg, st, k).st.flate == st.flate
    decreases |st.input|
  {
    hide Masked, KeyAfter;
    if !st.closed && st.payloadLength == 0 && !st.fin {
      var l := ReadLoop(cfg, st.input);
      if l.Got? && l.h.opcode == CONTINUATION {
        RawReadKeepsLimit(cfg, SetFrame(st.(input := l.rest, events := st.events + l.events), l.h), k);
      }
    }
  }

  /** limitReader.Read over the raw reader; a negative n means no limit. */
  function LimitedRead(cfg: Config, st: State, k: nat): Read {
    if st.n < 0 then RawRead(cfg, st, k)
    else if st.n == 0 then Failed(TooBig, [], Closed(st, [ErrorClose(MESSAGE_TOO_BIG)]))
    else match RawRead(cfg, st, Min(k, st.n))
      case Data(d, s) => Data(d, s.(n := st.n - |d|))
      case End(s) => End(s)
      case Failed(e, p, s) => Failed(e, p, s.(n := Max0(st.n - |p|)))
  }

  function Max0(x: int): int {
    if x < 0 then 0 else x
  }

  /** msgReader.Read of an uncompressed message: every error that wraps io.EOF is the end of the message, any other
      error closes the connection. */
  function MessageRead(cfg: Config, st: State, k: nat): Read {
    if st.closed then Failed(ConnClosed, [], st)
    else match LimitedRead(cfg, st, k)
      case Failed(e, p, s) => if IsEof(e) then End(s) else Failed(e, p, Closed(s, []))
      case r => r
  }

  /** The sizes of the buffers that successive reads are given. */
  ghost predicate Positive(sizes: nat -> nat) {
    forall i :: sizes(i) > 0
  }

  /** io.ReadAll with any buffers: the octets delivered, the error if there was one, and the state left. */
  datatype Whole = Whole(data: seq<byte>, error: Option<ReadError>, st: State)

  /** How much there is left to do: it goes down with every read that delivers something. */
  function Fuel(st: State): nat {
    |st.input| + |st.tail|
  }

  lemma {:induction false} RawReadConsumes(cfg: Config, st: State, k: nat)
    requires k > 0
    ensures var r := RawRead(cfg, st, k); r.Data? ==> r.data != [] && Fuel(r.st) < Fuel(st)
    decreases |st.input|
  {
    if !st.closed && st.payloadLength == 0 && !st.fin {
      var l := ReadLoop(cfg, st.input);
      if l.Got? && l.h.opcode == CONTINUATION {
        RawReadConsumes(cfg, SetFrame(st.(input := l.rest, events := st.events + l.events), l.h), k);
      }
    }
  }

  lemma MessageReadConsumes(cfg: Config, st: State, k: nat)
    requires k > 0
    ensures var r := MessageRead(cfg, st, k); r.Data? ==> r.data != [] && Fuel(r.st) < Fuel(st)
  {
    hide RawRead;
    RawReadConsumes(cfg, st, k);
    if st.n > 0 {
      RawReadConsumes(cfg, st, Min(k, st.n));
    }
  }

  /** Octets delivered before the rest. */
  function Delivered(data: seq<byte>, w: Whole): Whole {
    w.(data := data + w.data)
  }

  lemma DeliveredTwice(a: seq<byte>, b: seq<byte>, w: Whole)
    ensures Delivered(a, Delivered(b, w)) == Delivered(a + b, w)
  {
    assert a + (b + w.data) == a + b + w.data;
  }

  function ReadAll(cfg: Config, st: State, sizes: nat -> nat, i: nat): Whole
    requires Positive(sizes)
    decreases Fuel(st)
  {
    MessageReadConsumes(cfg, st, sizes(i));
    match MessageRead(cfg, st, sizes(i))
    case Data(d, s) => Delivered(d, ReadAll(cfg, s, sizes, i + 1))
    case End(s) => Whole([], None, s)
    case Failed(e, p, s) => Whole(p, Some(e), s)
  }

  lemma {:induction false} RawReadInput(cfg: Config, st: State, k: nat)
    ensures |RawRead(cfg, st, k).st.input| <= |st.input|
    decreases |st.input|
  {
    if !st.closed && st.payloadLength == 0 && !st.fin {
      var l := ReadLoop(cfg, st.input);
      if l.Got? && l.h.opcode == CONTINUATION {
        RawReadInput(cfg, SetFrame(st.(input := l.rest, events := st.events + l.events), l.h), k);
      }
    }
  }

  lemma {:induction false} ReadAllInput(cfg: Config, st: State, sizes: nat -> nat, i: nat)
    requires Positive(sizes)
    ensures |ReadAll(cfg, st, sizes, i).st.input| <= |st.input|
    decreases Fuel(st)
  {
    hide RawRead;
    MessageReadConsumes(cfg, st, sizes(i));
    RawReadInput(cfg, st, sizes(i));
    if st.n > 0 {
      RawReadInput(cfg, st, Min(sizes(i), st.n));
    }
    var r := MessageRead(cfg, st, sizes(i));
    if r.Data? {
      ReadAllInput(cfg, r.st, sizes, i + 1);
    }
  }

  /** Conn.Read, over and over until it fails: the messages returned before that. */
  datatype Session = Session(messages: seq<Message>, error: ReadError, st: State)

  /** sizes gives, for each message, the buffers that its reads are given. */
  function ReadMessages(cfg: Config, st: State, sizes: nat -> nat -> nat, m: nat): Session
    requires forall j :: Positive(sizes(j))
    decreases |st.input|
  {
    match OpenMessage(cfg, st)
    case NotOpened(e, s) => Session([], e, s)
    case Opened(typ, s) =>
      ReadAllInput(cfg, s, sizes(m), 0);
      var w := ReadAll(cfg, s, sizes(m), 0);
      if w.error.Some? then Session([], w.error.value, w.st)
      else
        var rest := ReadMessages(cfg, w.st, sizes, m + 1);
        rest.(messages := [Message(typ, w.data)] + rest.messages)
  }
}
