/** One endpoint writes a list of messages through its message writer, and the other reads them. */
module Exchange {
  import opened Octets
  import opened FrameHeader
  import opened Frames
  import opened BufferedIO
  import opened MessageWriter
  import opened MessageReader
  import opened EndToEnd
  import M = ReadModel
  import RoundTrip
  import Sessions

  /** A message as its writer gives it: a type, and the octets of each Write. */
  datatype Outgoing = Outgoing(typ: Opcode, pieces: seq<seq<byte>>)

  function MessageOf(o: Outgoing): Message {
    Message(o.typ, Concat(o.pieces))
  }

  /** The keys that the frames of a message are masked with. */
  type Keys = nat -> bv32

  /** Writer, a Write for each piece, and Close. */
  method SendMessage(mw: MsgWriter, o: Outgoing, keys: Keys) returns (ok: bool)
    requires mw.Valid() && !mw.locked && !mw.compress && IsMessageStart(o.typ)
    modifies mw, mw.fw, mw.fw.w, mw.fw.w.buf, mw.fw.w.sink, mw.fw.scratch, mw.trim, mw.trim.tail
    ensures mw.Valid() && old(mw.fw.frames) <= mw.fw.frames && ok == !mw.fw.closed
    ensures ok ==>
              && !mw.locked && mw.fw.w.sink.accepted == EncodeAll(mw.fw.frames)
              && SentBy(mw.fw.client, Sent(MessageOf(o), mw.fw.frames[|old(mw.fw.frames)|..]))
  {
    hide FrameWriter.Valid, Concat, EncodeAll, CompleteMessage, MsgWriter.Valid;
    ok := mw.Reset(o.typ);
    if !ok {
      return;
    }
    var i := 0;
    assert o.pieces[..0] == [];
    assert Concat(o.pieces[..0]) == [] by { mw.ConcatNone<byte>(); }
    while i < |o.pieces| && ok
      invariant 0 <= i <= |o.pieces| && mw.Valid() && mw.locked && mw.typ == o.typ && mw.first == |old(mw.fw.frames)|
      invariant old(mw.fw.frames) <= mw.fw.frames && !mw.closed && ok == !mw.fw.closed
      invariant ok ==> !mw.flate && mw.given == Concat(o.pieces[..i])
    {
      ConcatSnoc(o.pieces[..i], o.pieces[i]);
      assert o.pieces[..i + 1] == o.pieces[..i] + [o.pieces[i]];
      ok := mw.Write(o.pieces[i], [], (a: nat) => (b: nat) => keys(i));
      i := i + 1;
    }
    if ok {
      assert o.pieces[..i] == o.pieces;
      ghost var data := mw.given;
      ok := mw.Close([], (a: nat) => (b: nat) => 0, keys(i));
      assert data + [] == data;
    }
  }

  lemma {:induction false} AllFramesSnoc(sent: seq<Sent>, x: Sent)
    ensures AllFrames(sent + [x]) == AllFrames(sent) + x.frames
    ensures AllMessages(sent + [x]) == AllMessages(sent) + [x.message]
  {
    if sent != [] {
      assert (sent + [x])[0] == sent[0] && (sent + [x])[1..] == sent[1..] + [x];
      AllFramesSnoc(sent[1..], x);
      SeqAssociative(sent[0].frames, AllFrames(sent[1..]), x.frames);
    }
  }

  lemma NoFrames()
    ensures EncodeAll([]) == []
  {
  }

  /** One message after the other; what was sent is the premise of the round trip. */
  method SendAll(mw: MsgWriter, out: seq<Outgoing>, keys: nat -> Keys) returns (ok: bool, ghost sent: seq<Sent>)
    requires mw.Valid() && !mw.locked && !mw.compress && mw.fw.frames == [] && mw.fw.w.sink.accepted == []
    requires forall o | o in out :: IsMessageStart(o.typ)
    modifies mw, mw.fw, mw.fw.w, mw.fw.w.buf, mw.fw.w.sink, mw.fw.scratch, mw.trim, mw.trim.tail
    ensures mw.Valid() && (!ok ==> mw.fw.closed)
    ensures ok ==> mw.fw.w.sink.accepted == EncodeAll(mw.fw.frames)
    ensures ok ==>
              && mw.fw.frames == AllFrames(sent) && (forall s | s in sent :: SentBy(mw.fw.client, s))
              && |sent| == |out| && forall i | 0 <= i < |out| :: sent[i].message == MessageOf(out[i])
  {
    hide FrameWriter.Valid, MsgWriter.Valid, Concat, EncodeAll, CompleteMessage, SentBy;
    ok, sent := true, [];
    assert EncodeAll([]) == [] by { NoFrames(); }
    var i := 0;
    while i < |out| && ok
      invariant 0 <= i <= |out| && mw.Valid() && (!ok ==> mw.fw.closed)
      invariant ok ==> mw.fw.w.sink.accepted == EncodeAll(mw.fw.frames)
      invariant ok ==>
          && !mw.locked && mw.fw.frames == AllFrames(sent) && (forall s | s in sent :: SentBy(mw.fw.client, s))
          && |sent| == i && forall k | 0 <= k < i :: sent[k].message == MessageOf(out[k])
    {
      ghost var before := mw.fw.frames;
      assert out[i] in out;
      ok := SendMessage(mw, out[i], keys(i));
      if ok {
        ghost var x := Sent(MessageOf(out[i]), mw.fw.frames[|before|..]);
        assert mw.fw.frames == before + x.frames;
        AllFramesSnoc(sent, x);
        sent := sent + [x];
      }
      i := i + 1;
    }
  }

  /** Conn.Read, over and over until it fails. */
  method ReceiveAll(mr: MsgReader, sizes: nat -> nat -> nat) returns (messages: seq<Message>, error: M.ReadError)
    requires mr.Valid() && forall j :: M.Positive(sizes(j))
    modifies mr, mr.r, mr.scratch, mr.control
    ensures var s := M.ReadMessages(old(mr.Config()), old(mr.View()), sizes, 0);
            messages == s.messages && error == s.error
  {
    hide M.OpenMessage, M.ReadAll;
    ghost var cfg, start := mr.Config(), mr.View();
    messages := [];
    var m: nat := 0;
    while true
      invariant mr.Valid() && mr.Config() == cfg
      invariant M.ReadMessages(cfg, start, sizes, 0) == Before(messages, M.ReadMessages(cfg, mr.View(), sizes, m))
      decreases |mr.View().input|
    {
      ghost var here := mr.View();
      var typ, e := mr.Open();
      if e.Some? {
        return messages, e.value;
      }
      ghost var inside := mr.View();
      M.ReadAllInput(cfg, inside, sizes(m), 0);
      var data, e' := mr.ReadAll(sizes(m));
      if e'.Some? {
        return messages, e'.value;
      }
      BeforeOne(messages, Message(typ, data), M.ReadMessages(cfg, mr.View(), sizes, m + 1));
      messages := messages + [Message(typ, data)];
      m := m + 1;
    }
  }

  function Before(messages: seq<Message>, s: M.Session): M.Session {
    s.(messages := messages + s.messages)
  }

  lemma BeforeOne(messages: seq<Message>, x: Message, s: M.Session)
    ensures Before(messages, Before([x], s)) == Before(messages + [x], s)
  {
  }

  // ----- both ends -----

  lemma {:induction false} PayloadBound(fs: seq<Frame>, f: Frame)
    requires f in fs
    ensures |f.payload| <= |Concat(Payloads(fs))|
    decreases fs
  {
    FirstPayload(fs);
    if f != fs[0] {
      PayloadBound(fs[1..], f);
    }
  }

  /** The frames of a message are data frames as the reader expects them from its peer. */
  lemma SentFrames(cfg: M.Config, s: Sent, f: Frame)
    requires SentBy(!cfg.client, s) && f in s.frames && |s.message.data| < INT64_LIMIT
    ensures RoundTrip.FromPeer(cfg, f) && !f.rsv1 && !IsControl(f.opcode)
  {
    var fs := s.frames;
    PayloadBound(fs, f);
    var i :| 0 <= i < |fs| && fs[i] == f;
    if i < |fs| - 1 {
      assert fs[..|fs| - 1][i] == f;
    }
    assert IsFragment(!cfg.client, s.message.typ, false, i, f);
  }

  lemma {:induction false} AllSentFrames(cfg: M.Config, sent: seq<Sent>)
    requires forall s | s in sent :: SentBy(!cfg.client, s) && |s.message.data| < INT64_LIMIT
    ensures forall f | f in AllFrames(sent) :: RoundTrip.FromPeer(cfg, f) && !f.rsv1 && !IsControl(f.opcode)
    decreases sent
  {
    hide RoundTrip.FromPeer, SentBy;
    if sent != [] {
      assert sent[0] in sent && forall s | s in sent[1..] :: s in sent;
      AllSentFrames(cfg, sent[1..]);
      forall f | f in sent[0].frames
        ensures RoundTrip.FromPeer(cfg, f) && !f.rsv1 && !IsControl(f.opcode)
      {
        SentFrames(cfg, sent[0], f);
      }
    }
  }

  lemma {:induction false} OnlyData(frames: seq<Frame>)
    requires forall f | f in frames :: !IsControl(f.opcode)
    ensures DataOnly(frames) == frames && ControlsAllowed(frames)
  {
    if frames != [] {
      OnlyData(frames[1..]);
      assert frames == [frames[0]] + frames[1..];
    }
  }

  lemma {:induction false} MessagesSent(sent: seq<Sent>, out: seq<Outgoing>)
    requires |sent| == |out| && forall i | 0 <= i < |out| :: sent[i].message == MessageOf(out[i])
    ensures |AllMessages(sent)| == |out| && forall i | 0 <= i < |out| :: AllMessages(sent)[i] == MessageOf(out[i])
  {
    hide MessageOf;
    if sent != [] {
      MessagesSent(sent[1..], out[1..]);
    }
  }

  lemma NoRoom(mw: MsgWriter)
    requires mw.Valid() && mw.fw.closed
    ensures |mw.fw.w.sink.accepted| == mw.fw.w.sink.capacity
  {
  }

  lemma SentArrives(cfg: M.Config, sent: seq<Sent>, sizes: nat -> nat -> nat)
    requires forall s | s in sent ::
             SentBy(!cfg.client, s) && RoundTrip.Within(cfg.limit, s.message.data) && |s.message.data| < INT64_LIMIT
    requires forall j :: M.Positive(sizes(j))
    ensures var s := M.ReadMessages(cfg, M.Start(EncodeAll(AllFrames(sent))), sizes, 0);
            s.messages == AllMessages(sent) && s.error == M.BadHeader(Eof)
  {
    hide SentBy, EncodeAll, M.ReadMessages;
    var frames := AllFrames(sent);
    AllSentFrames(cfg, sent);
    OnlyData(frames);
    MessagesArrive(cfg, sent, frames, sizes);
    AllFits(cfg, sent);
  }

  lemma {:induction false} AllFits(cfg: M.Config, sent: seq<Sent>)
    requires forall s | s in sent :: RoundTrip.Within(cfg.limit, s.message.data)
    ensures Sessions.Fitting(cfg.limit, AllMessages(sent)) == AllMessages(sent)
  {
    if sent != [] {
      assert sent[0] in sent;
      AllFits(cfg, sent[1..]);
      assert AllMessages(sent)[1..] == AllMessages(sent[1..]);
    }
  }

  /** The whole way: a writer over a buffer of any size, a connection that takes a certain number of octets, and a
      reader with any buffers, for either role. Every message is received as it was given, unless the connection had no
      room. */
  method SendAndReceive(
    client: bool, bufferSize: nat, room: nat, out: seq<Outgoing>, keys: nat -> Keys, limit: int,
    sizes: nat -> nat -> nat)
    returns (ok: bool, received: seq<Message>, taken: seq<byte>)
    requires bufferSize > 0 && (forall j :: M.Positive(sizes(j))) && -(INT64_LIMIT as int) <= limit < INT64_LIMIT
    requires forall o | o in out ::
             IsMessageStart(o.typ) && |Concat(o.pieces)| < INT64_LIMIT && (0 <= limit ==> |Concat(o.pieces)| <= limit)
    ensures !ok ==> |taken| == room
    ensures ok ==> |received| == |out| && forall i | 0 <= i < |out| :: received[i] == MessageOf(out[i])
  {
    hide EncodeAll, Concat, SentBy, M.ReadMessages, FrameWriter.Valid, MsgWriter.Valid;
    var sink := new Sink(room);
    var w := new BufWriter(bufferSize, sink);
    var fw := new FrameWriter(client, w);
    var mw := new MsgWriter(fw, false, 0);
    assert mw.Valid() && mw.fw.frames == [];
    ghost var sent;
    ok, sent := SendAll(mw, out, keys);
    taken := sink.accepted;
    if !ok {
      assert |taken| == room by { NoRoom(mw); }
      return false, [], taken;
    }
    var r := new BufReader(sink.accepted);
    var mr := new MsgReader(!client, false, 0, r);
    mr.SetReadLimit(limit);
    ghost var cfg := mr.Config();
    forall s | s in sent
      ensures RoundTrip.Within(cfg.limit, s.message.data) && |s.message.data| < INT64_LIMIT
    {
      var i :| 0 <= i < |sent| && sent[i] == s;
      assert out[i] in out;
    }
    SentArrives(cfg, sent, sizes);
    MessagesSent(sent, out);
    var error;
    received, error := ReceiveAll(mr, sizes);
  }
}
