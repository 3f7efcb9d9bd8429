/** What happens to the messages that a sequence of frames carries when frames are added or taken away. */
module MessageFrames {
  import opened Octets
  import opened Frames

  predicate AllUnfinished(frames: seq<Frame>) {
    forall f | f in frames :: IsControl(f.opcode) || !f.fin
  }

  lemma AllUnfinishedStep(frames: seq<Frame>)
    requires frames != [] && !IsControl(frames[0].opcode)
    ensures AllUnfinished(frames) <==> !frames[0].fin && AllUnfinished(frames[1..])
  {
    assert forall f :: f in frames <==> f == frames[0] || f in frames[1..];
  }

  lemma {:induction false} EndOfMessage(frames: seq<Frame>)
    requires WellFormed(true, frames)
    ensures AllUnfinished(frames) ==> EndsInside(true, frames) && AfterMessage(frames) == []
    ensures !AllUnfinished(frames) ==> EndsInside(true, frames) == EndsInside(false, AfterMessage(frames))
    decreases frames
  {
    if frames != [] {
      assert forall f :: f in frames <==> f == frames[0] || f in frames[1..];
      if IsControl(frames[0].opcode) || !frames[0].fin {
        EndOfMessage(frames[1..]);
      }
    }
  }

  lemma {:induction false} AfterMessageWellFormedCut(frames: seq<Frame>)
    requires WellFormed(true, frames)
    ensures WellFormed(false, AfterMessage(frames))
    decreases frames
  {
    if frames != [] && (IsControl(frames[0].opcode) || !frames[0].fin) {
      AfterMessageWellFormedCut(frames[1..]);
    }
  }

  // ----- concatenation -----

  lemma {:induction false} RestAppend(a: seq<Frame>, b: seq<Frame>)
    requires WellFormed(true, a) && !EndsInside(true, a)
    ensures RestOfMessage(a + b) == RestOfMessage(a) && AfterMessage(a + b) == AfterMessage(a) + b
    decreases a
  {
    var f := a[0];
    assert (a + b)[0] == f && (a + b)[1..] == a[1..] + b;
    if IsControl(f.opcode) || !f.fin {
      RestAppend(a[1..], b);
    }
  }

  lemma MessageAppend(a: seq<Frame>, b: seq<Frame>)
    requires a != [] && !IsControl(a[0].opcode) && WellFormed(false, a) && !EndsInside(false, a)
    ensures RestOfMessage(a + b) == RestOfMessage(a) && AfterMessage(a + b) == AfterMessage(a) + b
    ensures |AfterMessage(a)| < |a| && WellFormed(false, AfterMessage(a)) && !EndsInside(false, AfterMessage(a))
  {
    assert (a + b)[0] == a[0] && (a + b)[1..] == a[1..] + b;
    if !a[0].fin {
      RestAppend(a[1..], b);
      AfterMessageWellFormed(true, a[1..]);
    }
  }

  lemma MessagesStep(frames: seq<Frame>)
    requires frames != []
    ensures Messages(frames) ==
            if IsControl(frames[0].opcode) then Messages(frames[1..])
            else [Message(frames[0].opcode, RestOfMessage(frames))] + Messages(AfterMessage(frames))
  {
  }

  lemma {:induction false} MessagesAppend(a: seq<Frame>, b: seq<Frame>)
    requires WellFormed(false, a) && !EndsInside(false, a)
    ensures Messages(a + b) == Messages(a) + Messages(b)
    decreases |a|
  {
    if a == [] {
      assert a + b == b;
    } else {
      hide RestOfMessage, AfterMessage, Messages;
      MessagesStep(a);
      MessagesStep(a + b);
      assert (a + b)[0] == a[0] && (a + b)[1..] == a[1..] + b;
      if IsControl(a[0].opcode) {
        MessagesAppend(a[1..], b);
      } else {
        MessageAppend(a, b);
        MessagesAppend(AfterMessage(a), b);
        SeqAssociative([Message(a[0].opcode, RestOfMessage(a))], Messages(AfterMessage(a)), Messages(b));
      }
    }
  }

  // ----- one more frame -----

  /** What a frame that does not start a message adds to the open message. */
  function Added(f: Frame): seq<byte> {
    if IsControl(f.opcode) then [] else f.payload
  }

  /** The last message with more data. */
  function Extended(messages: seq<Message>, data: seq<byte>): seq<Message>
    requires messages != []
  {
    var last := messages[|messages| - 1];
    messages[..|messages| - 1] + [Message(last.typ, last.data + data)]
  }

  lemma {:induction false} RestExtended(inside: bool, frames: seq<Frame>, f: Frame)
    requires WellFormed(inside, frames) && EndsInside(inside, frames) && !IsMessageStart(f.opcode)
    ensures inside && AllUnfinished(frames) ==>
              RestOfMessage(frames + [f]) == RestOfMessage(frames) + Added(f) &&
                AfterMessage(frames + [f]) == AfterMessage(frames) == []
    ensures inside && !AllUnfinished(frames) ==>
              RestOfMessage(frames + [f]) == RestOfMessage(frames) &&
                AfterMessage(frames + [f]) == AfterMessage(frames) + [f]
    decreases frames
  {
    if frames != [] {
      var g, rest := frames[0], frames[1..];
      assert (frames + [f])[0] == g && (frames + [f])[1..] == rest + [f];
      assert forall x :: x in frames <==> x == g || x in rest;
      RestExtended(InsideAfter(inside, g), rest, f);
      SeqAssociative(g.payload, RestOfMessage(rest), Added(f));
    } else {
      assert frames + [f] == [f];
    }
  }

  lemma ExtendedTail(first: Message, rest: seq<Message>, data: seq<byte>)
    requires rest != []
    ensures Extended([first] + rest, data) == [first] + Extended(rest, data)
  {
  }

  lemma ExtendedByNothing(messages: seq<Message>)
    requires messages != []
    ensures Extended(messages, []) == messages
  {
    var last := messages[|messages| - 1];
    assert last.data + [] == last.data;
  }

  /** A frame inside a message extends the last message. */
  lemma {:induction false} MessagesExtended(frames: seq<Frame>, f: Frame)
    requires WellFormed(false, frames) && EndsInside(false, frames) && !IsMessageStart(f.opcode)
    ensures Messages(frames) != [] && Messages(frames + [f]) == Extended(Messages(frames), Added(f))
    decreases |frames|
  {
    var g, rest := frames[0], frames[1..];
    assert (frames + [f])[0] == g && (frames + [f])[1..] == rest + [f];
    MessagesStep(frames);
    MessagesStep(frames + [f]);
    if IsControl(g.opcode) {
      MessagesExtended(rest, f);
    } else if g.fin {
      MessagesExtended(rest, f);
      ExtendedTail(Message(g.opcode, g.payload), Messages(rest), Added(f));
    } else {
      RestExtended(true, rest, f);
      EndOfMessage(rest);
      if AllUnfinished(rest) {
        SeqAssociative(g.payload, RestOfMessage(rest), Added(f));
      } else {
        AfterMessageWellFormedCut(rest);
        MessagesExtended(AfterMessage(rest), f);
        ExtendedTail(Message(g.opcode, RestOfMessage(frames)), Messages(AfterMessage(rest)), Added(f));
      }
    }
  }

  /** What one more frame does to the messages that the frames before it carry. */
  lemma MessagesSnoc(frames: seq<Frame>, f: Frame)
    requires WellFormed(false, frames) && MayFollow(EndsInside(false, frames), f)
    ensures EndsInside(false, frames) ==> Messages(frames) != []
    ensures Messages(frames + [f]) ==
            if IsControl(f.opcode) then Messages(frames)
            else if EndsInside(false, frames) then Extended(Messages(frames), f.payload)
            else Messages(frames) + [Message(f.opcode, f.payload)]
  {
    if EndsInside(false, frames) {
      MessagesExtended(frames, f);
      ExtendedByNothing(Messages(frames));
    } else {
      MessagesAppend(frames, [f]);
      assert [f][1..] == [] && Messages([]) == [] && AfterMessage([f]) == [];
      assert !IsControl(f.opcode) ==> RestOfMessage([f]) == f.payload;
    }
  }

  // ----- whole messages and the rest -----

  /** The messages that the frames finish. */
  function WholeMessages(frames: seq<Frame>): seq<Message>
    decreases |frames|
  {
    if AllUnfinished(frames) then []
    else if IsControl(frames[0].opcode) then WholeMessages(frames[1..])
    else [Message(frames[0].opcode, RestOfMessage(frames))] + WholeMessages(AfterMessage(frames))
  }

  /** The frames behind those messages: control frames, and the frames of a message that is not finished. */
  function LastPart(frames: seq<Frame>): seq<Frame>
    decreases |frames|
  {
    if AllUnfinished(frames) then frames
    else if IsControl(frames[0].opcode) then LastPart(frames[1..])
    else LastPart(AfterMessage(frames))
  }

  lemma {:induction false} LastPartWellFormed(frames: seq<Frame>)
    requires WellFormed(false, frames)
    ensures WellFormed(false, LastPart(frames)) && AllUnfinished(LastPart(frames))
    ensures EndsInside(false, LastPart(frames)) == EndsInside(false, frames)
    ensures Messages(frames) == WholeMessages(frames) + Messages(LastPart(frames))
    ensures forall f | f in LastPart(frames) :: f in frames
    decreases |frames|
  {
    if AllUnfinished(frames) {
    } else if IsControl(frames[0].opcode) {
      LastPartWellFormed(frames[1..]);
    } else {
      AfterFirst(frames);
      LastPartWellFormed(AfterMessage(frames));
      MessagesStep(frames);
      SeqAssociative([Message(frames[0].opcode, RestOfMessage(frames))], WholeMessages(AfterMessage(frames)),
                     Messages(LastPart(frames)));
    }
  }

  /** A message is taken off the front. */
  lemma AfterFirst(frames: seq<Frame>)
    requires WellFormed(false, frames) && !AllUnfinished(frames) && !IsControl(frames[0].opcode)
    ensures |AfterMessage(frames)| < |frames| && WellFormed(false, AfterMessage(frames))
    ensures EndsInside(false, AfterMessage(frames)) == EndsInside(false, frames)
    ensures forall f | f in AfterMessage(frames) :: f in frames
  {
    AfterMessageIn(frames);
    if !frames[0].fin {
      AllUnfinishedStep(frames);
      EndOfMessage(frames[1..]);
      AfterMessageWellFormedCut(frames[1..]);
    }
  }

  lemma {:induction false} AfterMessageIn(frames: seq<Frame>)
    ensures forall f | f in AfterMessage(frames) :: f in frames
  {
    if frames != [] {
      AfterMessageIn(frames[1..]);
    }
  }
}
