/** The reading side of a connection as the program runs it: buffers, loops and fields updated in place. Every method is
    proved to do what the functions of ReadModel say. */
module MessageReader {
  import opened Octets
  import opened Masking
  import opened FrameHeader
  import opened CloseFrame
  import opened Frames
  import opened BufferedIO
  import opened FrameIO
  import M = ReadModel

  class MsgReader {
    const client: bool
    const compress: bool
    const r: BufReader
    const scratch: array<byte>
    const control: array<byte>
    var limit: int
    var closed: bool
    var fin: bool
    var payloadLength: nat
    var maskKey: bv32
    var flate: bool
    var tail: seq<byte>
    var n: int
    var events: seq<M.Event>

    constructor (client: bool, compress: bool, limit: int, input: BufReader)
      ensures Valid() && View() == M.Start(input.rest) && r == input
      ensures Config() == M.Config(client, compress, limit)
      ensures fresh(scratch) && fresh(control)
    {
      this.client, this.compress, this.limit, r := client, compress, limit, input;
      scratch, control := new byte[8], new byte[MAX_CONTROL_PAYLOAD];
      closed, fin, payloadLength, maskKey, flate, tail, n, events := false, true, 0, 0, false, [], 0, [];
    }

    ghost predicate Valid()
      reads this
    {
      scratch.Length == 8 && control.Length == MAX_CONTROL_PAYLOAD && scratch != control
    }

    function Config(): M.Config
      reads this
    {
      M.Config(client, compress, limit)
    }

    /** What the calls share; the input of a closed connection is not looked at any more. */
    ghost function View(): M.State
      reads this, r
    {
      M.State(if closed then [] else r.rest, closed, fin, payloadLength, maskKey, flate, tail, n, events)
    }

    /** SetReadLimit, in int64 arithmetic: from the next message on, a message of more than limit octets is too big. No
        message is if limit is negative or the largest int64. */
    method SetReadLimit(limit: int)
      requires -(INT64_LIMIT as int) <= limit < INT64_LIMIT
      modifies this`limit
      ensures forall length: nat :: M.Fits(this.limit, length) <==> (0 <= limit < INT64_LIMIT - 1 ==> length <= limit)
      ensures this.limit == M.StoredLimit(limit)
    {
      this.limit := limit;
      if limit >= 0 {
        this.limit := if limit + 1 == INT64_LIMIT then -(INT64_LIMIT as int) else limit + 1;
      }
    }

    /** writeError: sends a close frame with the code, whatever its reason, and closes. */
    method WriteError(code: int)
      modifies this`closed, this`events
      ensures closed && events == old(events) + [M.ErrorClose(code)]
    {
      events, closed := events + [M.ErrorClose(code)], true;
    }

    /** Reads the payload of a control frame into the control buffer and unmasks it there. */
    method ReadControlPayload(h: Header) returns (ok: bool, b: seq<byte>)
      requires Valid() && h.payloadLength <= MAX_CONTROL_PAYLOAD
      modifies r, control
      ensures ok == (|old(r.rest)| >= h.payloadLength)
      ensures ok ==> b == WirePayload(h, old(r.rest)[..h.payloadLength]) && r.rest == old(r.rest)[h.payloadLength..]
    {
      hide Masked;
      ghost var start := r.rest;
      ok := r.ReadFull(control, 0, h.payloadLength);
      if !ok {
        return false, [];
      }
      assert control[..h.payloadLength] == start[..h.payloadLength];
      if h.masked {
        var key := Mask(h.maskKey, control, 0, h.payloadLength);
      }
      b := control[..h.payloadLength];
    }

    method HandleControl(h: Header) returns (error: Option<M.ReadError>)
      requires Valid() && !closed && IsControl(h.opcode)
      modifies this`closed, this`events, r, control
      ensures match M.HandleControl(h, old(r.rest))
              case Got(_, rest, ev) => error == None && !closed && r.rest == rest && events == old(events) + ev
              case Stopped(e, _, ev) => error == Some(e) && closed && events == old(events) + ev
    {
      hide WirePayload, ParseClosePayload, SentPayload;
      if h.payloadLength > MAX_CONTROL_PAYLOAD {
        WriteError(PROTOCOL_ERROR);
        return Some(M.ControlTooLong);
      }
      if !h.fin {
        WriteError(PROTOCOL_ERROR);
        return Some(M.ControlFragmented);
      }
      var short := ShortRead(r.rest);
      var ok, b := ReadControlPayload(h);
      if !ok {
        closed := true;
        return Some(M.ShortPayload(short));
      }
      if h.opcode == PING {
        events := events + [M.PongSent(b)];
        return None;
      }
      if h.opcode == PONG {
        events := events + [M.PongSeen(b)];
        return None;
      }
      var parsed := ParseClosePayload(b);
      if parsed == None {
        WriteError(PROTOCOL_ERROR);
        return Some(M.BadClosePayload);
      }
      events := events + [M.CloseEcho(SentPayload(parsed.value))];
      closed := true;
      return Some(M.PeerClosed(parsed.value));
    }

    /** One round of readLoop. */
    method ReadRound() returns (found: bool, h: Header, error: Option<M.ReadError>)
      requires Valid() && !closed
      modifies this`closed, this`events, r, scratch, control
      ensures match M.ReadRound(Config(), old(r.rest))
              case Found(g, rest) =>
                found && h == g && error == None && !closed && r.rest == rest && events == old(events)
              case Handled(rest, ev) =>
                !found && error == None && !closed && r.rest == rest && events == old(events) + ev
              case Halted(stop) =>
                && !found && error == Some(stop.error) && events == old(events) + stop.events
                && closed == !M.KeepsOpen(stop.error) && (!closed ==> r.rest == stop.rest)
    {
      hide DecodeHeader, M.HandleControl;
      var ok, cause;
      ok, h, cause := ReadFrameHeader(r, scratch);
      if !ok {
        closed := true;
        return false, h, Some(M.BadHeader(cause));
      }
      if (h.rsv1 && M.Rsv1Illegal(Config(), h)) || h.rsv2 || h.rsv3 {
        WriteError(PROTOCOL_ERROR);
        return false, h, Some(M.UnexpectedRsv);
      }
      if !client && !h.masked {
        return false, h, Some(M.UnmaskedFrame);
      }
      if IsControl(h.opcode) {
        error := HandleControl(h);
        return false, h, error;
      }
      if IsData(h.opcode) {
        return true, h, None;
      }
      WriteError(PROTOCOL_ERROR);
      return false, h, Some(M.UnknownOpcode);
    }

    /** Reads headers, handling control frames, until a data frame or an error. */
    method ReadLoop() returns (h: Header, error: Option<M.ReadError>)
      requires Valid() && !closed
      modifies this`closed, this`events, r, scratch, control
      ensures match M.ReadLoop(Config(), old(r.rest))
              case Got(g, rest, ev) =>
                error == None && h == g && !closed && r.rest == rest && events == old(events) + ev
              case Stopped(e, rest, ev) =>
                && error == Some(e) && events == old(events) + ev
                && closed == !M.KeepsOpen(e) && (!closed ==> r.rest == rest)
    {
      hide M.ReadRound;
      ghost var start, done: seq<M.Event> := r.rest, [];
      var found := false;
      error := None;
      while true
        invariant Valid() && !closed
        invariant events == old(events) + done
        invariant M.ReadLoop(Config(), start) == M.After(done, M.ReadLoop(Config(), r.rest))
        decreases |r.rest|
      {
        ghost var here, round := r.rest, M.ReadRound(Config(), r.rest);
        found, h, error := ReadRound();
        if found || error.Some? {
          return;
        }
        M.AfterAfter(done, round.events, M.ReadLoop(Config(), r.rest));
        done := done + round.events;
      }
    }

    method SetFrame(h: Header)
      modifies this`fin, this`payloadLength, this`maskKey
      ensures fin == h.fin && payloadLength == h.payloadLength && maskKey == h.maskKey
    {
      fin, payloadLength, maskKey := h.fin, h.payloadLength, h.maskKey;
    }

    /** Reader: finds the next message and makes it the current one. */
    method Open() returns (typ: Opcode, error: Option<M.ReadError>)
      requires Valid()
      modifies this, r, scratch, control
      ensures limit == old(limit)
      ensures match M.OpenMessage(old(Config()), old(View()))
              case Opened(t, st) => error == None && typ == t && View() == st
              case NotOpened(e, st) => error == Some(e) && View() == st
    {
      hide M.ReadLoop;
      typ := CONTINUATION;
      if closed {
        return typ, Some(M.ConnClosed);
      }
      if !fin {
        closed := true;
        return typ, Some(M.PreviousUnfinished);
      }
      var h;
      h, error := ReadLoop();
      if error.Some? {
        return;
      }
      if h.opcode == CONTINUATION {
        WriteError(PROTOCOL_ERROR);
        return typ, Some(M.OrphanContinuation);
      }
      flate, n := h.rsv1, limit;
      if flate {
        tail := M.DEFLATE_TAIL;
      }
      SetFrame(h);
      return h.opcode, None;
    }

    /** The result of a read into p[lo..], as ReadModel describes it. */
    ghost predicate Returns(p: array<byte>, lo: nat, result: M.Read, count: nat, eof: bool, error: Option<M.ReadError>)
      reads this, r, p
    {
      lo + count <= p.Length &&
      match result
      case Data(d, st) => error == None && !eof && p[lo..lo + count] == d && View() == st
      case End(st) => error == None && eof && count == 0 && View() == st
      case Failed(e, d, st) => error == Some(e) && !eof && p[lo..lo + count] == d && View() == st
    }

    /** Reads k octets of the current frame into the caller's buffer, unmasking in place what a client sent. */
    method Fill(p: array<byte>, lo: nat, k: nat) returns (ok: bool)
      requires lo + k <= p.Length && k <= payloadLength
      modifies this`maskKey, r, p
      ensures ok == (|old(r.rest)| >= k)
      ensures !ok ==> p[lo..lo + |old(r.rest)|] == old(r.rest) && maskKey == old(maskKey)
      ensures ok ==> r.rest == old(r.rest)[k..]
      ensures ok && client ==> p[lo..lo + k] == old(r.rest)[..k] && maskKey == old(maskKey)
      ensures ok && !client ==>
                p[lo..lo + k] == Masked(old(maskKey), old(r.rest)[..k]) && maskKey == KeyAfter(old(maskKey), k)
    {
      hide Masked, KeyAfter;
      ok := r.ReadFull(p, lo, lo + k);
      if ok && !client {
        maskKey := Mask(maskKey, p, lo, lo + k);
      }
    }

    /** A read inside a frame. */
    method ReadPayload(p: array<byte>, lo: nat, hi: nat) returns (count: nat, error: Option<M.ReadError>)
      requires Valid() && !closed && payloadLength > 0 && lo <= hi <= p.Length
      modifies this`closed, this`payloadLength, this`maskKey, r, p
      ensures Returns(p, lo, M.InFrameRead(old(Config()), old(View()), hi - lo), count, false, error)
    {
      hide Masked, KeyAfter;
      var k := if hi - lo > payloadLength then payloadLength else hi - lo;
      var short, available := ShortRead(r.rest), |r.rest|;
      var ok := Fill(p, lo, k);
      if !ok {
        closed := true;
        return available, Some(M.ShortPayload(short));
      }
      payloadLength := payloadLength - k;
      return k, None;
    }

    /** At the end of a frame that does not end the message: takes the header of the next one. */
    method FetchFrame(ghost k: nat) returns (error: Option<M.ReadError>)
      requires Valid() && !closed && payloadLength == 0 && !fin
      modifies this, r, scratch, control
      ensures limit == old(limit)
      ensures error == None ==>
                && !closed && |r.rest| < |old(r.rest)|
                && M.RawRead(old(Config()), old(View()), k) == M.RawRead(Config(), View(), k)
      ensures error.Some? ==> M.RawRead(old(Config()), old(View()), k) == M.Failed(error.value, [], View())
    {
      hide M.ReadLoop, Masked, KeyAfter;
      var h;
      h, error := ReadLoop();
      if error.Some? {
        return;
      }
      if h.opcode != CONTINUATION {
        WriteError(PROTOCOL_ERROR);
        return Some(M.InterruptedMessage);
      }
      SetFrame(h);
    }

    /** At the end of the message: the deflate tail of a compressed one, then the end. */
    method ReadTail(p: array<byte>, lo: nat, hi: nat) returns (count: nat, eof: bool)
      requires Valid() && !closed && payloadLength == 0 && fin && lo <= hi <= p.Length
      modifies this`tail, p
      ensures Returns(p, lo, M.RawRead(old(Config()), old(View()), hi - lo), count, eof, None)
    {
      hide M.ReadLoop, Masked, KeyAfter;
      if !flate || tail == [] {
        return 0, true;
      }
      count := if hi - lo > |tail| then |tail| else hi - lo;
      Store(p, lo, tail[..count]);
      tail := tail[count..];
      return count, false;
    }

    /** msgReader.read. */
    method RawRead(p: array<byte>, lo: nat, hi: nat) returns (count: nat, eof: bool, error: Option<M.ReadError>)
      requires Valid() && !closed && lo <= hi <= p.Length && p != scratch && p != control
      modifies this, r, scratch, control, p
      ensures limit == old(limit)
      ensures Returns(p, lo, M.RawRead(old(Config()), old(View()), hi - lo), count, eof, error)
    {
      hide M.RawRead;
      ghost var start := View();
      while payloadLength == 0 && !fin
        invariant Valid() && !closed && limit == old(limit)
        invariant M.RawRead(Config(), start, hi - lo) == M.RawRead(Config(), View(), hi - lo)
        decreases |r.rest|
      {
        error := FetchFrame(hi - lo);
        if error.Some? {
          return 0, false, error;
        }
      }
      eof, error := false, None;
      if payloadLength > 0 {
        assert M.RawRead(Config(), View(), hi - lo) == M.InFrameRead(Config(), View(), hi - lo) by {
          M.RawReadInFrame(Config(), View(), hi - lo);
        }
        count, error := ReadPayload(p, lo, hi);
      } else {
        count, eof := ReadTail(p, lo, hi);
      }
    }

    /** limitReader.Read over the raw reader. */
    method LimitedRead(p: array<byte>, lo: nat, hi: nat) returns (count: nat, eof: bool, error: Option<M.ReadError>)
      requires Valid() && !closed && lo <= hi <= p.Length && p != scratch && p != control
      modifies this, r, scratch, control, p
      ensures limit == old(limit)
      ensures Returns(p, lo, M.LimitedRead(old(Config()), old(View()), hi - lo), count, eof, error)
    {
      hide M.RawRead;
      if n < 0 {
        count, eof, error := RawRead(p, lo, hi);
        return;
      }
      if n == 0 {
        WriteError(MESSAGE_TOO_BIG);
        return 0, false, Some(M.TooBig);
      }
      var end := if hi - lo > n then lo + n else hi;
      ghost var result := M.RawRead(Config(), View(), end - lo);
      M.RawReadKeepsLimit(Config(), View(), end - lo);
      count, eof, error := RawRead(p, lo, end);
      n := n - count;
      if n < 0 {
        n := 0;
      }
    }

    /** msgReader.Read of an uncompressed message. */
    method Read(p: array<byte>, lo: nat, hi: nat) returns (count: nat, eof: bool, error: Option<M.ReadError>)
      requires Valid() && lo <= hi <= p.Length && p != scratch && p != control
      modifies this, r, scratch, control, p
      ensures limit == old(limit)
      ensures Returns(p, lo, M.MessageRead(old(Config()), old(View()), hi - lo), count, eof, error)
    {
      hide M.LimitedRead;
      if closed {
        return 0, false, Some(M.ConnClosed);
      }
      count, eof, error := LimitedRead(p, lo, hi);
      if error.Some? && M.IsEof(error.value) {
        return 0, true, None;
      }
      if error.Some? {
        closed := true;
      }
    }

    /** io.ReadAll over the current message, with buffers of the given sizes. */
    method ReadAll(sizes: nat -> nat) returns (data: seq<byte>, error: Option<M.ReadError>)
      requires Valid() && M.Positive(sizes)
      modifies this, r, scratch, control
      ensures limit == old(limit)
      ensures M.Whole(data, error, View()) == M.ReadAll(old(Config()), old(View()), sizes, 0)
    {
      hide M.MessageRead;
      ghost var start := View();
      data := [];
      var i: nat := 0;
      while true
        invariant Valid() && limit == old(limit)
        invariant M.ReadAll(Config(), start, sizes, 0) == M.Delivered(data, M.ReadAll(Config(), View(), sizes, i))
        decreases M.Fuel(View())
      {
        var k := sizes(i);
        var p := new byte[k];
        ghost var here := View();
        M.MessageReadConsumes(Config(), here, k);
        var count, eof, e := Read(p, 0, k);
        ghost var result := M.MessageRead(Config(), here, k);
        M.DeliveredTwice(data, p[0..count], M.ReadAll(Config(), View(), sizes, i + 1));
        data := data + p[0..count];
        if eof || e.Some? {
          return data, e;
        }
        i := i + 1;
      }
    }
  }
}
