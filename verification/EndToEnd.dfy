/** From the messages given to one endpoint to the messages read by the other. */
module EndToEnd {
  import opened Octets
  import opened Masking
  import opened FrameHeader
  import opened Frames
  import opened MessageFrames
  import opened ReadModel
  import opened RoundTrip
  import opened Sessions
  import opened CutStreams
  import opened Compression

  // ----- control frames do not disturb messages -----

  function DataOnly(frames: seq<Frame>): seq<Frame> {
    if frames == [] then []
    else (if IsControl(frames[0].opcode) then [] else [frames[0]]) + DataOnly(frames[1..])
  }

  predicate ControlsAllowed(frames: seq<Frame>) {
    forall f | f in frames && IsControl(f.opcode) :: MayFollow(false, f)
  }

  lemma {:induction false} ControlsDoNotDisturb(inside: bool, frames: seq<Frame>)
    ensures EndsInside(inside, frames) == EndsInside(inside, DataOnly(frames))
    ensures RestOfMessage(frames) == RestOfMessage(DataOnly(frames))
    ensures WellFormed(inside, frames) <==> WellFormed(inside, DataOnly(frames)) && ControlsAllowed(frames)
    decreases frames
  {
    if frames != [] {
      var f, rest := frames[0], frames[1..];
      assert forall g :: g in frames <==> g == f || g in rest;
      ControlsDoNotDisturb(InsideAfter(inside, f), rest);
      assert !IsControl(f.opcode) ==> DataOnly(frames)[1..] == DataOnly(rest);
      assert IsControl(f.opcode) ==> DataOnly(frames) == DataOnly(rest);
    }
  }

  lemma {:induction false} DataOnlyAfter(frames: seq<Frame>)
    ensures DataOnly(AfterMessage(frames)) == AfterMessage(DataOnly(frames))
    decreases frames
  {
    if frames != [] {
      DataOnlyAfter(frames[1..]);
      assert !IsControl(frames[0].opcode) ==> DataOnly(frames)[1..] == DataOnly(frames[1..]);
      assert IsControl(frames[0].opcode) ==> DataOnly(frames) == DataOnly(frames[1..]);
    }
  }

  lemma {:induction false} MessagesOfData(frames: seq<Frame>)
    ensures Messages(frames) == Messages(DataOnly(frames))
    decreases |frames|
  {
    if frames != [] {
      if IsControl(frames[0].opcode) {
        MessagesOfData(frames[1..]);
        assert DataOnly(frames) == DataOnly(frames[1..]);
      } else {
        ControlsDoNotDisturb(false, frames);
        DataOnlyAfter(frames);
        MessagesOfData(AfterMessage(frames));
        assert DataOnly(frames)[0] == frames[0];
      }
    }
  }

  // ----- the frames of a message carry that message -----

  /** The frames of a message from its second one on. */
  lemma {:induction false} ContinuationsCarry(
    client: bool, typ: Opcode, flate: bool, fs: seq<Frame>, data: seq<byte>, i: nat)
    requires CompleteMessage(client, typ, flate, fs, data) && 0 < i < |fs|
    ensures WellFormed(true, fs[i..]) && !EndsInside(true, fs[i..])
    ensures RestOfMessage(fs[i..]) == Concat(Payloads(fs[i..])) && AfterMessage(fs[i..]) == []
    decreases |fs| - i
  {
    var f := fs[i..][0];
    assert f == fs[i] && IsFragment(client, typ, flate, i, fs[i]);
    assert fs[i..][1..] == fs[i + 1..];
    assert Payloads(fs[i..])[0] == f.payload && Payloads(fs[i..])[1..] == Payloads(fs[i + 1..]);
    if i + 1 < |fs| {
      assert fs[i] == fs[..|fs| - 1][i];
      ContinuationsCarry(client, typ, flate, fs, data, i + 1);
    }
  }

  lemma FirstPayload(fs: seq<Frame>)
    requires fs != []
    ensures Concat(Payloads(fs)) == fs[0].payload + Concat(Payloads(fs[1..]))
    ensures |fs| == 1 ==> Concat(Payloads(fs)) == fs[0].payload
  {
    assert Payloads(fs)[0] == fs[0].payload && Payloads(fs)[1..] == Payloads(fs[1..]);
  }

  lemma CompleteMessageCarries(client: bool, typ: Opcode, flate: bool, fs: seq<Frame>, data: seq<byte>)
    requires IsMessageStart(typ) && CompleteMessage(client, typ, flate, fs, data)
    ensures WellFormed(false, fs) && !EndsInside(false, fs)
    ensures Messages(fs) == [Message(typ, data)]
  {
    assert IsFragment(client, typ, flate, 0, fs[0]) by {
      if |fs| > 1 {
        assert fs[0] == fs[..|fs| - 1][0];
      }
    }
    FirstPayload(fs);
    if |fs| > 1 {
      assert fs[0] == fs[..|fs| - 1][0];
      ContinuationsCarry(client, typ, flate, fs, data, 1);
    }
  }

  // ----- the end-to-end theorem -----

  /** A message and the frames that carried it. */
  datatype Sent = Sent(message: Message, frames: seq<Frame>)

  predicate SentBy(client: bool, s: Sent) {
    IsMessageStart(s.message.typ) && CompleteMessage(client, s.message.typ, false, s.frames, s.message.data)
  }

  function AllFrames(sent: seq<Sent>): seq<Frame> {
    if sent == [] then [] else sent[0].frames + AllFrames(sent[1..])
  }

  function AllMessages(sent: seq<Sent>): seq<Message> {
    seq(|sent|, i requires 0 <= i < |sent| => sent[i].message)
  }

  lemma {:induction false} AllFramesCarry(client: bool, sent: seq<Sent>)
    requires forall s | s in sent :: SentBy(client, s)
    ensures WellFormed(false, AllFrames(sent)) && !EndsInside(false, AllFrames(sent))
    ensures Messages(AllFrames(sent)) == AllMessages(sent)
    decreases sent
  {
    if sent != [] {
      hide Messages, WellFormed, EndsInside, CompleteMessage;
      var s := sent[0];
      assert SentBy(client, s);
      CompleteMessageCarries(client, s.message.typ, false, s.frames, s.message.data);
      AllFramesCarry(client, sent[1..]);
      WellFormedAppend(false, s.frames, AllFrames(sent[1..]));
      MessagesAppend(s.frames, AllFrames(sent[1..]));
      assert AllMessages(sent) == [s.message] + AllMessages(sent[1..]);
    }
  }

  /** For every list of messages, however each was split into frames, whatever the masking keys, with any pings and
      pongs interleaved, and for any sizes of the read buffers, the reader at the other end returns exactly the messages
      sent, type and octets, up to the first that exceeds its limit, and answers every ping with the data of the
      ping. */
  lemma MessagesArrive(cfg: Config, sent: seq<Sent>, frames: seq<Frame>, sizes: nat -> nat -> nat)
    requires forall s | s in sent :: SentBy(!cfg.client, s)
    requires DataOnly(frames) == AllFrames(sent) && ControlsAllowed(frames) && AllFromPeer(cfg, frames) && Plain(frames)
    requires forall j :: Positive(sizes(j))
    ensures var s := ReadMessages(cfg, Start(EncodeAll(frames)), sizes, 0);
            && s.messages == Fitting(cfg.limit, AllMessages(sent))
            && (s.messages == AllMessages(sent) ==> s.error == BadHeader(Eof) && s.st.events == Replies(frames))
            && (s.messages != AllMessages(sent) ==> s.error == TooBig)
  {
    hide ReadMessages, AllFromPeer, Messages, WellFormed, EndsInside, AllFrames, DataOnly, Replies, Fitting, Plain;
    hide EncodeAll, WholeMessages, LastPart;
    AllFramesCarry(!cfg.client, sent);
    ControlsDoNotDisturb(false, frames);
    MessagesOfData(frames);
    SessionOfWhole(cfg, frames, sizes);
  }

  /** A session over frames that end between messages. */
  lemma SessionOfWhole(cfg: Config, frames: seq<Frame>, sizes: nat -> nat -> nat)
    requires AllFromPeer(cfg, frames) && Plain(frames) && WellFormed(false, frames) && !EndsInside(false, frames)
    requires forall j :: Positive(sizes(j))
    ensures var s := ReadMessages(cfg, Start(EncodeAll(frames)), sizes, 0);
            && s.messages == Fitting(cfg.limit, Messages(frames))
            && s.error == (if s.messages == Messages(frames) then BadHeader(Eof) else TooBig)
            && (s.messages == Messages(frames) ==> s.st.events == Replies(frames))
  {
    hide ReadMessages, AllFromPeer, Plain, Replies, Fitting, At, ReadLoop, WholeMessages, LastPart, EncodeAll;
    AtStart(cfg, frames, []);
    assert Wire(frames, []) == EncodeAll(frames);
    NothingLeft(cfg);
    SessionDelivers(cfg, Start(Wire(frames, [])), frames, [], sizes, 0);
    LastPartWellFormed(frames);
    OpenOf(LastPart(frames));
    hide Messages, EndsInside, WellFormed;
    var last := LastPart(frames);
    assert last + [] == last;
    assert WholeMessages(frames) + [] == WholeMessages(frames);
    assert [] + Replies(frames) + [] == Replies(frames);
  }

  // ----- the read limit -----

  /** With read limit n, a message of length L that is read to its end, over any fragmentation and any buffer sizes, is
      returned whole if and only if L <= n; otherwise its first n + 1 octets are delivered before the error. A negative
      n means no limit, and so does the largest int64, for which the stored limit wraps around. */
  lemma ReadLimitIsExact(
    cfg: Config, n: int, st: State, cur: seq<byte>, frames: seq<Frame>, tail: seq<byte>, sizes: nat -> nat)
    requires -(INT64_LIMIT as int) <= n < INT64_LIMIT
    requires At(cfg, st, cur, frames, tail) && !st.flate && st.n == StoredLimit(n)
    requires Finished(st.fin, frames) && Positive(sizes)
    ensures var due := Due(st.fin, cur, frames);
            var w := ReadAll(cfg, st, sizes, 0);
            var limited := 0 <= n < INT64_LIMIT - 1;
            && (w.error == None <==> limited ==> |due| <= n)
            && (w.error == None ==> w.data == due)
            && (w.error != None ==> w.error == Some(TooBig) && w.data == due[..n + 1])
  {
    hide At, Due, Finished, ReadAll;
    if Within(st.n, Due(st.fin, cur, frames)) {
      var z := ReadAllDelivers(cfg, st, cur, frames, tail, sizes, 0);
    } else {
      ReadAllTooBig(cfg, st, cur, frames, tail, sizes, 0);
    }
  }

  // ----- a connection that ends inside a message -----

  /** The empty final frame that would finish an open message. */
  function FinalFrame(cfg: Config, key: bv32): Frame {
    Frame(true, false, CONTINUATION, !cfg.client, key, [])
  }

  /** A connection that ends between two frames of a message is not distinguished from one that finished the message:
      the reader returns the same messages, the last of them cut, without an error. Only the next call tells. */
  lemma CutMessageLooksWhole(cfg: Config, frames: seq<Frame>, key: bv32, sizes: nat -> nat -> nat)
    requires AllFromPeer(cfg, frames) && Plain(frames) && WellFormed(false, frames) && EndsInside(false, frames)
    requires (forall m | m in Messages(frames) :: Within(cfg.limit, m.data)) && forall j :: Positive(sizes(j))
    ensures var cut := ReadMessages(cfg, Start(EncodeAll(frames)), sizes, 0);
            var whole := ReadMessages(cfg, Start(EncodeAll(frames + [FinalFrame(cfg, key)])), sizes, 0);
            && cut.messages == whole.messages == Messages(frames)
            && cut.error == ConnClosed && whole.error == BadHeader(Eof)
  {
    hide ReadMessages, AllFromPeer, Replies, Fitting, WellFormed, EndsInside, EncodeAll, Messages, Plain;
    var f := FinalFrame(cfg, key);
    MessagesSnoc(frames, f);
    ExtendedByNothing(Messages(frames));
    AllFit(cfg.limit, Messages(frames));
    WellFormedSnoc(false, frames, f);
    FinalFromPeer(cfg, frames, key);
    SessionOfWhole(cfg, frames + [f], sizes);
    SessionOfCut(cfg, frames, sizes);
  }

  lemma FinalFromPeer(cfg: Config, frames: seq<Frame>, key: bv32)
    requires AllFromPeer(cfg, frames) && Plain(frames)
    ensures AllFromPeer(cfg, frames + [FinalFrame(cfg, key)]) && Plain(frames + [FinalFrame(cfg, key)])
  {
  }

  /** A session over frames that end inside a message. */
  lemma SessionOfCut(cfg: Config, frames: seq<Frame>, sizes: nat -> nat -> nat)
    requires AllFromPeer(cfg, frames) && Plain(frames) && WellFormed(false, frames) && EndsInside(false, frames)
    requires (forall m | m in Messages(frames) :: Within(cfg.limit, m.data)) && forall j :: Positive(sizes(j))
    ensures var s := ReadMessages(cfg, Start(EncodeAll(frames)), sizes, 0);
            s.messages == Messages(frames) && s.error == ConnClosed
  {
    hide ReadMessages, AllFromPeer, Plain, Replies, Fitting, At;
    hide ReadLoop, WholeMessages, LastPart, EncodeAll, ReadsUsed;
    AtStart(cfg, frames, []);
    assert Wire(frames, []) == EncodeAll(frames);
    NothingLeft(cfg);
    SessionDelivers(cfg, Start(Wire(frames, [])), frames, [], sizes, 0);
    LastPartWellFormed(frames);
    OpenOf(LastPart(frames));
    AllFit(cfg.limit, WholeMessages(frames));
    hide Messages, EndsInside, WellFormed;
    var last := LastPart(frames);
    assert last + [] == last;
    assert Messages(last)[0] in Messages(frames);
  }

  // ----- a frame that was rejected -----

  /** A server that meets an unmasked frame returns an error and leaves the connection open. It has taken the header and
      not the payload. */
  lemma RejectedFrameStays(cfg: Config, f: Frame)
    requires !cfg.client && !f.masked && !f.rsv1 && |f.payload| < INT64_LIMIT
    ensures OpenMessage(cfg, Start(EncodeFrame(f))) == NotOpened(UnmaskedFrame, Start(f.payload))
  {
    hide EncodeFrame, DecodeHeader;
    DecodeFrame(f, []);
    assert EncodeFrame(f) + [] == EncodeFrame(f);
    assert WirePayload(HeaderFor(f), f.payload) + [] == f.payload;
  }

  /** So the next call reads the payload as frames, and the messages that those carry come out. */
  lemma RejectedFrameIsRead(cfg: Config, f: Frame, frames: seq<Frame>, sizes: nat -> nat -> nat)
    requires !cfg.client && !f.masked && !f.rsv1 && |f.payload| < INT64_LIMIT && f.payload == EncodeAll(frames)
    requires AllFromPeer(cfg, frames) && Plain(frames) && WellFormed(false, frames) && !EndsInside(false, frames)
    requires forall j :: Positive(sizes(j))
    ensures var o := OpenMessage(cfg, Start(EncodeFrame(f)));
            && o.NotOpened? && o.error == UnmaskedFrame && !o.st.closed
            && ReadMessages(cfg, o.st, sizes, 0).messages == Fitting(cfg.limit, Messages(frames))
  {
    hide EncodeFrame, EncodeAll, OpenMessage, ReadMessages, Messages, WellFormed, EndsInside, Fitting;
    RejectedFrameStays(cfg, f);
    SessionOfWhole(cfg, frames, sizes);
  }

  // ----- compressed messages -----

  /** The raw reader of a compressed message delivers what the frames carry and then the deflate tail. */
  lemma {:induction false} RawReadOfFlate(cfg: Config, st: State, k: nat)
    requires !st.closed && st.flate
    ensures var plain := RawRead(cfg, st.(flate := false), k);
            var r := RawRead(cfg, st, k);
            && (plain.Data? ==> r == Data(plain.data, plain.st.(flate := true)))
            && (plain.End? ==> r == if st.tail == [] then End(plain.st.(flate := true))
                                    else Data(st.tail[..Min(k, |st.tail|)],
                                              plain.st.(flate := true, tail := st.tail[Min(k, |st.tail|)..])))
            && (plain.Failed? ==> r == Failed(plain.error, plain.partial, plain.st.(flate := true)))
    decreases |st.input|
  {
    hide ReadLoop, Masked, KeyAfter;
    if st.payloadLength == 0 && !st.fin {
      var l := ReadLoop(cfg, st.input);
      if l.Got? && l.h.opcode == CONTINUATION {
        RawReadOfFlate(cfg, NextState(st, l), k);
      }
    }
  }

  /** Reading the raw octets of a message to their end, as the inflater does. */
  function RawAll(cfg: Config, st: State, sizes: nat -> nat, i: nat): Whole
    requires Positive(sizes)
    decreases Fuel(st)
  {
    RawReadConsumes(cfg, st, sizes(i));
    match RawRead(cfg, st, sizes(i))
    case Data(d, s) => Delivered(d, RawAll(cfg, s, sizes, i + 1))
    case End(s) => Whole([], None, s)
    case Failed(e, p, s) => Whole(p, Some(e), s)
  }

  /** One read of a finished compressed message. */
  lemma FlateReadDelivers(cfg: Config, st: State, cur: seq<byte>, frames: seq<Frame>, tail: seq<byte>, k: nat)
    requires st.flate && At(cfg, st, cur, frames, tail) && Finished(st.fin, frames) && k > 0
    ensures var r := RawRead(cfg, st, k);
            var due := Due(st.fin, cur, frames);
            var (cur', frames') := AfterRead(k, cur, frames);
            if due != [] then
              && r.Data? && r.data <= due && r.st.flate && r.st.tail == st.tail
              && At(cfg, r.st, cur', frames', tail) && Finished(r.st.fin, frames')
              && Due(r.st.fin, cur', frames') == due[|r.data|..] && Behind(r.st.fin, frames') == Behind(st.fin, frames)
            else
              && r.st.flate && r.st.fin && At(cfg, r.st, [], Behind(st.fin, frames), tail)
              && (if st.tail == [] then r.End? else r.Data? && r.data + r.st.tail == st.tail)
  {
    hide Due, Behind, Replies, RawRead, AllUnfinished, AfterRead, Wire, WellFormed, AllFromPeer, OnWire;
    var st0 := st.(flate := false);
    var z := RawReadDelivers(cfg, st0, cur, frames, tail, k);
    RawReadOfFlate(cfg, st, k);
    RawReadTail(cfg, st0, k);
    assert RawRead(cfg, st0, k).Data? ==> RawRead(cfg, st, k).st.(flate := false) == RawRead(cfg, st0, k).st;
  }

  lemma {:induction false} RawAllDelivers(
    cfg: Config, st: State, cur: seq<byte>, frames: seq<Frame>, tail: seq<byte>, sizes: nat -> nat, i: nat)
    requires st.flate && At(cfg, st, cur, frames, tail) && Finished(st.fin, frames) && Positive(sizes)
    ensures var w := RawAll(cfg, st, sizes, i);
            && w.data == Due(st.fin, cur, frames) + st.tail && w.error == None
            && w.st.fin && At(cfg, w.st, [], Behind(st.fin, frames), tail)
    decreases Fuel(st)
  {
    hide At, Due, Finished, RawRead, Behind, AfterRead;
    FlateReadDelivers(cfg, st, cur, frames, tail, sizes(i));
    RawReadConsumes(cfg, st, sizes(i));
    var due := Due(st.fin, cur, frames);
    var r := RawRead(cfg, st, sizes(i));
    if due != [] {
      var (cur', frames') := AfterRead(sizes(i), cur, frames);
      RawAllDelivers(cfg, r.st, cur', frames', tail, sizes, i + 1);
      assert due + st.tail == r.data + (due[|r.data|..] + st.tail);
    } else if st.tail != [] {
      RestIsTail(cfg, r.st, Behind(st.fin, frames), tail);
      RawAllDelivers(cfg, r.st, [], Behind(st.fin, frames), tail, sizes, i + 1);
    }
  }

  lemma RestIsTail(cfg: Config, st: State, frames: seq<Frame>, tail: seq<byte>)
    requires st.fin
    ensures Finished(st.fin, frames) && Due(st.fin, [], frames) == [] && Behind(st.fin, frames) == frames
  {
  }

  lemma {:induction false} RawReadTail(cfg: Config, st: State, k: nat)
    requires !st.flate
    ensures RawRead(cfg, st, k).st.tail == st.tail
    ensures !RawRead(cfg, st, k).st.flate
    decreases |st.input|
  {
    hide ReadLoop, Masked, KeyAfter;
    if !st.closed && st.payloadLength == 0 && !st.fin {
      var l := ReadLoop(cfg, st.input);
      if l.Got? && l.h.opcode == CONTINUATION {
        RawReadTail(cfg, NextState(st, l), k);
      }
    }
  }

  /** The inflater at one end reads exactly the octets that the deflater at the other end made, whatever came before on
      the connection, the fragmentation, the pings and pongs between the fragments and the read sizes: the trimmer drops
      the four octets of the flush marker (section 7.2.1 of RFC 7692) and the reader appends them again (section 7.2.2).
      The reader is then at the frames behind the message. */
  lemma InflaterReadsDeflaterOutput(
    cfg: Config, st: State, frames: seq<Frame>, tail: seq<byte>, raw: seq<byte>, sizes: nat -> nat)
    requires At(cfg, st, [], frames, tail) && st.fin && !AllUnfinished(frames) && Positive(sizes)
    requires SkipControls(frames) != [] && SkipControls(frames)[0].rsv1
    requires |raw| >= 4 && raw[|raw| - 4..] == [0x00, 0x00, 0xff, 0xff]
    requires RestOfMessage(frames) == AllButLast(raw, 4)
    ensures var o := OpenMessage(cfg, st);
            && o.Opened? && o.typ == SkipControls(frames)[0].opcode
            && var w := RawAll(cfg, o.st, sizes, 0);
               w.data == raw && w.error == None && w.st.fin && At(cfg, w.st, [], AfterMessage(frames), tail)
  {
    hide At, OpenMessage, RawAll, AllButLast, RestOfMessage, AfterMessage, AllUnfinished, SkipControls;
    OpenDelivers(cfg, st, frames, tail);
    var o := OpenMessage(cfg, st);
    var rest := SkipControls(frames);
    SkipKeepsMessage(frames);
    AheadOfAny(rest);
    RawAllDelivers(cfg, o.st, rest[0].payload, rest[1..], tail, sizes, 0);
    TailRestores(raw, DEFLATE_TAIL);
  }

  lemma AheadOfAny(frames: seq<Frame>)
    requires frames != [] && !IsControl(frames[0].opcode)
    ensures RestOfMessage(frames) == Due(frames[0].fin, frames[0].payload, frames[1..])
    ensures AfterMessage(frames) == Behind(frames[0].fin, frames[1..])
    ensures AllUnfinished(frames) == !Finished(frames[0].fin, frames[1..])
  {
    AllUnfinishedStep(frames);
  }

  /** The octets that the writer of a compressed message puts into its frames are all that its deflater made but the
      last four, so that the theorem above applies to them, with any control frames in between. */
  lemma CompressedMessageOnWire(
    client: bool, typ: Opcode, fs: seq<Frame>, data: seq<byte>, frames: seq<Frame>, more: seq<Frame>)
    requires IsMessageStart(typ) && CompleteMessage(client, typ, true, fs, data) && DataOnly(frames) == fs + more
    ensures SkipControls(frames) != [] && SkipControls(frames)[0].rsv1 && SkipControls(frames)[0].opcode == typ
    ensures !AllUnfinished(frames) && RestOfMessage(frames) == data
  {
    hide CompleteMessage, WellFormed, EndsInside, RestOfMessage, AfterMessage, SkipControls, AllUnfinished, DataOnly;
    CompleteParts(client, typ, fs, data);
    RestOfComplete(client, typ, fs, data);
    MessageAppend(fs, more);
    ControlsDoNotDisturb(false, frames);
    FirstData(frames);
    assert fs[|fs| - 1] in DataOnly(frames);
    UnfinishedData(frames, fs[|fs| - 1]);
  }

  lemma RestOfComplete(client: bool, typ: Opcode, fs: seq<Frame>, data: seq<byte>)
    requires fs != [] && IsMessageStart(fs[0].opcode) && IsMessageStart(typ)
    requires CompleteMessage(client, typ, true, fs, data)
    ensures RestOfMessage(fs) == data && WellFormed(false, fs) && !EndsInside(false, fs)
  {
    hide WellFormed, EndsInside, RestOfMessage, AfterMessage, Messages, CompleteMessage;
    CompleteMessageCarries(client, typ, true, fs, data);
    MessagesStep(fs);
    assert Messages(fs)[0] == Message(fs[0].opcode, RestOfMessage(fs));
  }

  lemma CompleteParts(client: bool, typ: Opcode, fs: seq<Frame>, data: seq<byte>)
    requires IsMessageStart(typ) && CompleteMessage(client, typ, true, fs, data)
    ensures fs != [] && fs[0].rsv1 && fs[0].opcode == typ && fs[|fs| - 1].fin && !IsControl(fs[|fs| - 1].opcode)
  {
    if |fs| > 1 {
      assert fs[0] == fs[..|fs| - 1][0];
    }
  }

  lemma UnfinishedData(frames: seq<Frame>, f: Frame)
    requires f in DataOnly(frames) && f.fin
    ensures !AllUnfinished(frames)
  {
    DataOnlyIn(frames, f);
  }

  lemma {:induction false} FirstData(frames: seq<Frame>)
    requires DataOnly(frames) != []
    ensures SkipControls(frames) != [] && SkipControls(frames)[0] == DataOnly(frames)[0]
    decreases frames
  {
    if IsControl(frames[0].opcode) {
      FirstData(frames[1..]);
    }
  }

  lemma {:induction false} DataOnlyIn(frames: seq<Frame>, f: Frame)
    requires f in DataOnly(frames)
    ensures f in frames && !IsControl(f.opcode)
    decreases frames
  {
    if f != frames[0] || IsControl(frames[0].opcode) {
      DataOnlyIn(frames[1..], f);
    }
  }
}
