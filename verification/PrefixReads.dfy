/** What comes out of the beginning of a stream of frames, compared with what the whole stream carries. */
module PrefixReads {
  import opened Octets
  import opened FrameHeader
  import opened CloseFrame
  import opened Frames
  import opened MessageFrames
  import opened ReadModel
  import opened RoundTrip
  import opened Sessions
  import opened CutStreams
  import opened EndToEnd

  /** Messages a are the first of messages b, the last of them as far as it goes. */
  predicate Begins(a: seq<Message>, b: seq<Message>) {
    && |a| <= |b|
    && (forall i | 0 <= i < |a| - 1 :: a[i] == b[i])
    && (a != [] ==> a[|a| - 1].typ == b[|a| - 1].typ && a[|a| - 1].data <= b[|a| - 1].data)
  }

  lemma BeginsTransitive(a: seq<Message>, b: seq<Message>, c: seq<Message>)
    requires Begins(a, b) && Begins(b, c)
    ensures Begins(a, c)
  {
  }

  lemma PrefixBegins(a: seq<Message>, b: seq<Message>)
    ensures Begins(a, a + b)
  {
  }

  lemma ExtendedBegins(a: seq<Message>, p: seq<byte>, q: seq<byte>)
    requires a != [] && p <= q
    ensures Begins(a, Extended(a, q)) && Begins(Extended(a, p), Extended(a, q))
  {
    var last := a[|a| - 1];
    assert last.data <= last.data + q && last.data + p <= last.data + q;
  }

  /** One more frame. */
  lemma SnocBegins(frames: seq<Frame>, f: Frame)
    requires WellFormed(false, frames) && MayFollow(EndsInside(false, frames), f)
    ensures Begins(Messages(frames), Messages(frames + [f]))
  {
    hide WellFormed, EndsInside, Messages;
    MessagesSnoc(frames, f);
    if EndsInside(false, frames) {
      ExtendedBegins(Messages(frames), f.payload, f.payload);
    }
    PrefixBegins(Messages(frames), []);
    assert Messages(frames) + [] == Messages(frames);
    PrefixBegins(Messages(frames), [Message(f.opcode, f.payload)]);
  }

  lemma {:induction false} AppendBegins(a: seq<Frame>, b: seq<Frame>)
    requires WellFormed(false, a + b)
    ensures Begins(Messages(a), Messages(a + b))
    decreases |b|
  {
    hide Messages;
    if b == [] {
      assert a + b == a;
    } else {
      var front, f := b[..|b| - 1], b[|b| - 1];
      assert a + b == (a + front) + [f];
      WellFormedSnoc(false, a + front, f);
      AppendBegins(a, front);
      SnocBegins(a + front, f);
      BeginsTransitive(Messages(a), Messages(a + front), Messages(a + b));
    }
  }

  /** A data frame that was cut off. */
  lemma CutBegins(frames: seq<Frame>, f: Frame, c: nat)
    requires WellFormed(false, frames) && MayFollow(EndsInside(false, frames), f) && c < |EncodeFrame(f)| && !f.rsv1
    ensures |Arrived(f, c)| <= 1 && Begins(Messages(frames + Arrived(f, c)), Messages(frames + [f]))
  {
    hide WellFormed, EndsInside, Messages, EncodeFrame, EncodeHeader;
    SnocBegins(frames, f);
    if Arrived(f, c) == [] {
      assert frames + [] == frames;
    } else {
      var g := Arrived(f, c)[0];
      SizeOfFrame(f);
      assert g.payload <= f.payload && Arrived(f, c) == [g];
      MessagesSnoc(frames, f);
      MessagesSnoc(frames, g);
      if EndsInside(false, frames) {
        ExtendedBegins(Messages(frames), g.payload, f.payload);
      }
    }
  }

  /** The whole messages and the open one are all the messages. */
  lemma WholeAndOpen(frames: seq<Frame>, more: seq<Frame>)
    requires WellFormed(false, frames) && |more| <= 1
    requires more != [] ==> MayFollow(EndsInside(false, frames), more[0])
    ensures Messages(frames + more) == WholeMessages(frames) + Messages(LastPart(frames) + more)
  {
    hide WellFormed, EndsInside, Messages, WholeMessages, LastPart;
    var whole, last := WholeMessages(frames), LastPart(frames);
    LastPartWellFormed(frames);
    if more == [] {
      assert frames + more == frames && last + more == last;
    } else {
      var f := more[0];
      assert more == [f];
      MessagesSnoc(frames, f);
      MessagesSnoc(last, f);
      if EndsInside(false, frames) {
        ExtendedAfter(whole, Messages(last), f.payload);
      }
      SeqAssociative(whole, Messages(last), [Message(f.opcode, f.payload)]);
    }
  }

  lemma ExtendedAfter(a: seq<Message>, b: seq<Message>, p: seq<byte>)
    requires b != []
    ensures Extended(a + b, p) == a + Extended(b, p)
  {
  }

  /** Frames that finish nothing add no whole message. */
  lemma {:induction false} WholeStays(a: seq<Frame>, b: seq<Frame>)
    requires WellFormed(false, a) && AllUnfinished(b)
    ensures WholeMessages(a + b) == WholeMessages(a)
    decreases |a|
  {
    if AllUnfinished(a) {
      assert AllUnfinished(a + b);
    } else {
      assert (a + b)[0] == a[0] && (a + b)[1..] == a[1..] + b;
      assert !AllUnfinished(a + b) by {
        var f :| f in a && !IsControl(f.opcode) && f.fin;
        assert f in a + b;
      }
      if IsControl(a[0].opcode) {
        assert forall f :: f in a <==> f == a[0] || f in a[1..];
        WholeStays(a[1..], b);
      } else {
        AfterFirst(a);
        FinishedAppend(a, b);
        WholeStays(AfterMessage(a), b);
      }
    }
  }

  lemma {:induction false} FinishedAppend(a: seq<Frame>, b: seq<Frame>)
    requires !AllUnfinished(a)
    ensures RestOfMessage(a + b) == RestOfMessage(a) && AfterMessage(a + b) == AfterMessage(a) + b
    decreases a
  {
    assert (a + b)[0] == a[0] && (a + b)[1..] == a[1..] + b;
    if IsControl(a[0].opcode) || !a[0].fin {
      assert forall f :: f in a <==> f == a[0] || f in a[1..];
      FinishedAppend(a[1..], b);
    }
  }

  // ----- the theorem -----

  /** All final frames among these are within the first n octets. */
  ghost predicate FinalWithin(frames: seq<Frame>, n: nat) {
    forall k | 0 <= k < |frames| && frames[k].fin :: |EncodeAll(frames[..k + 1])| <= n
  }

  /** What a peer without a limit reads of n octets: the messages of the frames from the first on, the last of them
      perhaps cut off; among them every message that was finished, if the final frames are within the n octets; and all
      the messages of the whole frames if the octets end with one. */
  ghost predicate PrefixRead(frames: seq<Frame>, f: Frame, n: nat, messages: seq<Message>) {
    && Begins(messages, Messages(frames + [f]))
    && (FinalWithin(frames, n) ==> WholeMessages(frames) <= messages)
    && (n == |EncodeAll(frames)| ==> messages == Messages(frames))
  }

  lemma PrefixSizes(frames: seq<Frame>, a: nat, b: nat)
    requires a <= b <= |frames|
    ensures |EncodeAll(frames[..a])| <= |EncodeAll(frames[..b])|
  {
    hide EncodeAll;
    assert frames[..b] == frames[..a] + frames[a..b];
    EncodeAllAppend(frames[..a], frames[a..b]);
  }

  /** A cut behind all final frames is among frames that finish nothing. */
  lemma BehindFinal(frames: seq<Frame>, k: nat, n: nat)
    requires FinalWithin(frames, n) && k < |frames| && n < |EncodeAll(frames[..k + 1])|
    ensures AllUnfinished(frames[k..])
  {
    hide EncodeAll;
    forall f | f in frames[k..]
      ensures !f.fin
    {
      var j :| 0 <= j < |frames[k..]| && frames[k..][j] == f;
      if f.fin {
        PrefixSizes(frames, k + 1, k + j + 1);
      }
    }
  }

  /** A cut inside one of the frames: the messages that come out. */
  lemma CutRead(cfg: Config, all: seq<Frame>, k: nat, c: nat, sizes: nat -> nat -> nat)
    requires k < |all| && c < |EncodeFrame(all[k])| && forall j :: Positive(sizes(j))
    requires WellFormed(false, all) && AllFromPeer(cfg, all[..k]) && Plain(all[..k])
    requires Sendable(cfg, all[k]) && cfg.limit < 0
    ensures var messages := ReadMessages(cfg, Start(Wire(all[..k], EncodeFrame(all[k])[..c])), sizes, 0).messages;
            var cut := all[..k] + Arrived(all[k], c);
            WholeMessages(all[..k]) <= messages && (messages == WholeMessages(all[..k]) || messages == Messages(cut))
  {
    hide EncodeFrame, ReadMessages, WellFormed, EndsInside, Messages, WholeMessages;
    hide LastPart, Arrived, CutUnseen, ErrorOfCut, ReadsUsed;
    var front, cut := all[..k], Arrived(all[k], c);
    CutStreamDelivers(cfg, all, k, c, sizes);
    AllFit(cfg.limit, WholeMessages(front));
    SplitWellFormed(all, k);
    CutIsOpen(front, all[k], c);
    WholeAndOpen(front, cut);
  }

  /** ... and they are the first messages of all the frames. */
  lemma CutReadBegins(cfg: Config, all: seq<Frame>, k: nat, c: nat, sizes: nat -> nat -> nat)
    requires k < |all| && c < |EncodeFrame(all[k])| && forall j :: Positive(sizes(j))
    requires WellFormed(false, all) && AllFromPeer(cfg, all[..k]) && Plain(all[..k])
    requires Sendable(cfg, all[k]) && cfg.limit < 0
    ensures Begins(ReadMessages(cfg, Start(Wire(all[..k], EncodeFrame(all[k])[..c])), sizes, 0).messages, Messages(all))
  {
    hide EncodeFrame, ReadMessages, WellFormed, EndsInside, Messages, WholeMessages, LastPart, Arrived, Begins, Wire;
    var front, f := all[..k], all[k];
    var cut, whole := Arrived(f, c), WholeMessages(front);
    CutRead(cfg, all, k, c, sizes);
    SplitWellFormed(all, k);
    CutBegins(front, f, c);
    assert all == (front + [f]) + all[k + 1..];
    AppendBegins(front + [f], all[k + 1..]);
    BeginsTransitive(Messages(front + cut), Messages(front + [f]), Messages(all));
    CutIsOpen(front, f, c);
    WholeAndOpen(front, cut);
    PrefixBegins(whole, Messages(LastPart(front) + cut));
    BeginsTransitive(whole, Messages(front + cut), Messages(all));
  }

  /** A stream of whole frames. */
  lemma WholeFramesRead(cfg: Config, frames: seq<Frame>, sizes: nat -> nat -> nat)
    requires AllFromPeer(cfg, frames) && Plain(frames) && WellFormed(false, frames)
    requires cfg.limit < 0 && forall j :: Positive(sizes(j))
    ensures ReadMessages(cfg, Start(EncodeAll(frames)), sizes, 0).messages == Messages(frames)
  {
    hide EncodeAll, ReadMessages, WellFormed, EndsInside, Messages;
    AllFit(cfg.limit, Messages(frames));
    if EndsInside(false, frames) {
      SessionOfCut(cfg, frames, sizes);
    } else {
      SessionOfWhole(cfg, frames, sizes);
    }
  }

  /** Every prefix of frames and one frame more. */
  lemma PrefixIsRead(cfg: Config, frames: seq<Frame>, f: Frame, n: nat, sizes: nat -> nat -> nat)
    requires AllFromPeer(cfg, frames) && Plain(frames) && Sendable(cfg, f) && WellFormed(false, frames + [f])
    requires f.opcode == CLOSE ==> exists ce :: f.payload == SentPayload(ce)
    requires cfg.limit < 0 && n <= |EncodeAll(frames + [f])| && forall j :: Positive(sizes(j))
    ensures PrefixRead(frames, f, n, ReadMessages(cfg, Start(EncodeAll(frames + [f])[..n]), sizes, 0).messages)
  {
    hide EncodeFrame, EncodeAll, ReadMessages, WellFormed, EndsInside;
    hide Messages, WholeMessages, FinalWithin, Begins, AllUnfinished;
    hide AllFromPeer, Plain, Sendable, SentPayload;
    var all := frames + [f];
    var input := EncodeAll(all)[..n];
    EncodeAllSnoc(frames, f);
    WellFormedSnoc(false, frames, f);
    if n == |EncodeAll(frames)| {
      assert input == EncodeAll(frames);
      WholeFramesRead(cfg, frames, sizes);
      SnocBegins(frames, f);
      LastPartWellFormed(frames);
    } else if n == |EncodeAll(all)| {
      assert input == EncodeAll(all);
      AllOfItRead(cfg, frames, f, sizes);
    } else {
      var k, c := CutPosition(all, n);
      PeerParts(cfg, frames, f, k);
      CutReadBegins(cfg, all, k, c, sizes);
      CutRead(cfg, all, k, c, sizes);
      if FinalWithin(frames, n) {
        assert all[..k] == frames[..k];
        CutWhole(frames, f, k, c, n);
      }
    }
  }

  lemma PeerParts(cfg: Config, frames: seq<Frame>, f: Frame, k: nat)
    requires AllFromPeer(cfg, frames) && Plain(frames) && Sendable(cfg, f) && k <= |frames|
    ensures var all := frames + [f]; AllFromPeer(cfg, all[..k]) && Plain(all[..k]) && Sendable(cfg, all[k])
  {
    var all := frames + [f];
    assert all[..k] == frames[..k];
    assert forall x | x in all[..k] :: x in frames;
    assert k < |frames| ==> all[k] in frames;
  }

  /** All the octets, with a close frame or a frame of another kind at the end. */
  lemma AllOfItRead(cfg: Config, frames: seq<Frame>, f: Frame, sizes: nat -> nat -> nat)
    requires AllFromPeer(cfg, frames) && Plain(frames) && Sendable(cfg, f) && WellFormed(false, frames + [f])
    requires f.opcode == CLOSE ==> exists ce :: f.payload == SentPayload(ce)
    requires cfg.limit < 0 && forall j :: Positive(sizes(j))
    ensures var messages := ReadMessages(cfg, Start(EncodeAll(frames + [f])), sizes, 0).messages;
            Begins(messages, Messages(frames + [f])) && WholeMessages(frames) <= messages
  {
    hide EncodeFrame, EncodeAll, ReadMessages, EndsInside, Messages, WholeMessages, Begins, SentPayload, WellFormed;
    WellFormedSnoc(false, frames, f);
    LastPartWellFormed(frames);
    SnocBegins(frames, f);
    if f.opcode == CLOSE {
      var ce :| f.payload == SentPayload(ce);
      EncodeAllSnoc(frames, f);
      assert EncodeFrame(f) + [] == EncodeFrame(f);
      CloseArrives(cfg, frames, f, ce, [], sizes);
      PrefixBegins(WholeMessages(frames), Messages(LastPart(frames)));
      BeginsTransitive(WholeMessages(frames), Messages(frames), Messages(frames + [f]));
    } else {
      assert AllFromPeer(cfg, frames + [f]) && Plain(frames + [f]);
      WholeFramesRead(cfg, frames + [f], sizes);
      PrefixBegins(Messages(frames + [f]), []);
      assert Messages(frames + [f]) + [] == Messages(frames + [f]);
      WholeIsPrefix(frames, f);
    }
  }

  lemma WholeIsPrefix(frames: seq<Frame>, f: Frame)
    requires WellFormed(false, frames) && MayFollow(EndsInside(false, frames), f)
    ensures WholeMessages(frames) <= Messages(frames + [f])
  {
    hide EndsInside, Messages, WholeMessages, LastPart, WellFormed;
    WholeAndOpen(frames, [f]);
  }

  lemma CutIsOpen(front: seq<Frame>, f: Frame, c: nat)
    requires MayFollow(EndsInside(false, front), f) && c < |EncodeFrame(f)| && !f.rsv1
    ensures |Arrived(f, c)| <= 1 && (Arrived(f, c) != [] ==> MayFollow(EndsInside(false, front), Arrived(f, c)[0]))
  {
    hide EncodeFrame, EncodeHeader, EndsInside;
  }

  lemma CutWhole(frames: seq<Frame>, f: Frame, k: nat, c: nat, n: nat)
    requires FinalWithin(frames, n) && WellFormed(false, frames + [f]) && k <= |frames|
    requires c < |EncodeFrame((frames + [f])[k])|
    requires n <= |EncodeAll(frames + [f])|
    requires EncodeAll(frames + [f])[..n] == Wire(frames[..k], EncodeFrame((frames + [f])[k])[..c])
    ensures WholeMessages(frames) == WholeMessages(frames[..k])
  {
    hide EncodeFrame, EncodeAll, WellFormed, WholeMessages, FinalWithin;
    WellFormedSnoc(false, frames, f);
    if k == |frames| {
      assert frames[..k] == frames;
    } else {
      var x := frames[k];
      assert (frames + [f])[k] == x;
      assert n == |EncodeAll(frames[..k])| + c by { SizeOfCut(frames, f, k, c, n); }
      assert frames[..k + 1] == frames[..k] + [x];
      EncodeAllSnoc(frames[..k], x);
      BehindFinal(frames, k, n);
      assert frames == frames[..k] + frames[k..];
      WellFormedAppend(false, frames[..k], frames[k..]);
      WholeStays(frames[..k], frames[k..]);
    }
  }

  lemma SizeOfCut(frames: seq<Frame>, f: Frame, k: nat, c: nat, n: nat)
    requires k <= |frames| && c < |EncodeFrame((frames + [f])[k])| && n <= |EncodeAll(frames + [f])|
    requires EncodeAll(frames + [f])[..n] == Wire(frames[..k], EncodeFrame((frames + [f])[k])[..c])
    ensures n == |EncodeAll(frames[..k])| + c
  {
    hide EncodeFrame, EncodeAll;
    assert |EncodeAll(frames + [f])[..n]| == n;
  }
}
