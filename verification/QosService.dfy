/** The loop of serviceQOS: it takes a message off the queue after every message it puts in, so the queue never holds
    two. */
module QosService {
  import opened Octets
  import opened QosItems
  import opened QosHeap
  import opened QosSpec
  import opened QosPolicy
  import opened QosRuns
  import opened QosQueue

  /** What becomes of a message that has the queue to itself. */
  function Served(cfg: Config, m: Message): Message {
    var a := Admitted(cfg, m);
    if |a.payload| > cfg.maxQueueBytes then a.(payload := [], rdr := Some(HIGHER_PRIORITY_TOOK_THE_SPOT)) else a
  }

  /** Its payload is lost if and only if it alone is over the limit for messages or the limit for the queue; what is
      delivered then has no payload and code 4, or 102 when it was the limit for the queue. */
  lemma LosesPayload(cfg: Config, m: Message)
    ensures Served(cfg, m).payload != m.payload <==>
            m.payload != [] && ((cfg.maxMessageBytes != 0 && |m.payload| > cfg.maxMessageBytes) ||
              |m.payload| > cfg.maxQueueBytes)
    ensures var big := cfg.maxMessageBytes != 0 && |m.payload| > cfg.maxMessageBytes;
            var size := if big then 0 else |m.payload|;
            Served(cfg, m) ==
              if size > cfg.maxQueueBytes then Message(m.qos, [], Some(102), m.rest)
              else if big then Message(m.qos, [], Some(4), m.rest)
              else m
  {
  }

  /** With a limit for messages, which may not be over the limit for the queue, the queue's limit never has an
      effect. */
  lemma QueueLimitIsIdle(cfg: Config, m: Message)
    requires 0 < cfg.maxMessageBytes <= cfg.maxQueueBytes
    ensures Served(cfg, m) == Admitted(cfg, m)
  {
  }

  lemma OneItem(items: seq<Item>, x: Item)
    requires multiset(items) == multiset{x}
    ensures items == [x]
  {
    assert |items| == |multiset(items)| == 1;
    assert items[0] in multiset(items);
  }

  /** An Enqueue on an empty queue leaves one item, whatever the clock and the other settings. */
  lemma EnqueueAlone(cfg: Config, q: Queue, m: Message, pushTime: int, trimTime: int, q': Queue)
    requires Valid(cfg, q) && q.items == [] && Enqueued(cfg, q, m, pushTime, trimTime, q')
    ensures |q'.items| == 1 && q'.items[0].msg == Served(cfg, m) && q'.items[0].id == q.next && q'.next == q.next + 1
  {
    var a := Admitted(cfg, m);
    var mid :| Pushed(cfg, q, a, pushTime, mid) && Trimmed(cfg, mid, trimTime, q');
    var x := NewItem(cfg, q, a, pushTime);
    OneItem(mid.items, x);
    var order: seq<nat>, k: nat :| TrimmedBy(cfg, mid, trimTime, q', order, k);
    if mid.sizeBytes > cfg.maxQueueBytes {
      if Candidate(x, trimTime) {
        TakesTheOne(cfg, mid, x, trimTime, q', order, k);
      } else {
        assert Expired(mid.items[0], trimTime);
      }
    }
  }

  lemma TakesTheOne(cfg: Config, mid: Queue, x: Item, now: int, q': Queue, order: seq<nat>, k: nat)
    requires mid.items == [x] && Candidate(x, now) && mid.sizeBytes > cfg.maxQueueBytes
    requires TrimmedBy(cfg, mid, now, q', order, k)
    ensures q'.items == [Disposed(x)]
  {
    hide Size, Heap;
    assert 0 in order;
    assert k == 0 ==> q'.items == mid.items;
    assert order[..k][0] in order;
    assert 0 in order[..k];
  }

  lemma DequeueAlone(cfg: Config, q: Queue, x: Item, q': Queue)
    requires |q.items| == 1 && Dequeued(cfg, q, x, q')
    ensures x == q.items[0] && q'.items == [] && q'.next == q.next
  {
    assert q.items == [x];
    assert multiset(q'.items) == multiset{};
    assert |q'.items| == |multiset(q'.items)|;
  }

  lemma EnqueueKeepsValid(cfg: Config, q: Queue, m: Message, pushTime: int, trimTime: int, q': Queue)
    requires Valid(cfg, q) && Enqueued(cfg, q, m, pushTime, trimTime, q')
    ensures Valid(cfg, q')
  {
    hide Valid, Pushed, Trimmed;
    var mid :| Pushed(cfg, q, Admitted(cfg, m), pushTime, mid) && Trimmed(cfg, mid, trimTime, q');
    PushKeepsValid(cfg, q, Admitted(cfg, m), pushTime, mid);
    TrimKeepsValid(cfg, mid, trimTime, q');
  }

  // ----- runs of the loop -----

  /** The calls that the loop makes: every Enqueue is followed by a Dequeue. */
  predicate Loops(ops: seq<Op>) {
    forall i | 0 <= i < |ops| - 1 && ops[i].Enq? :: ops[i + 1] == Deq
  }

  /** The message given as number j, as it is delivered. */
  predicate DeliveredAs(cfg: Config, w: World, x: Item, j: nat)
    requires j < |w.given|
  {
    x.id == j && x.msg == Served(cfg, w.given[j])
  }

  /** What was given has been taken in the order in which it was given, but for the last message between the two
      calls. */
  predicate InTurn(cfg: Config, w: World, full: bool) {
    && w.q.next == |w.given|
    && (if full then |w.q.items| == 1 && |w.taken| + 1 == |w.given| && DeliveredAs(cfg, w, w.q.items[0], |w.taken|)
        else w.q.items == [] && |w.taken| == |w.given|)
    && forall j | 0 <= j < |w.taken| :: DeliveredAs(cfg, w, w.taken[j], j)
  }

  /** In every run of the loop: the queue is empty before every Enqueue and holds one item after it; messages leave it
      in the order in which they were given, whatever their quality of service, the tie breaker, the priority, the
      expiries and the clock; and each is what Served says. */
  lemma {:induction false} LeavesInTurn(cfg: Config, ws: seq<World>, ops: seq<Op>, i: nat)
    requires Run(cfg, ws, ops) && Loops(ops) && i < |ws|
    ensures InTurn(cfg, ws[i], i > 0 && ops[i - 1].Enq?)
  {
    hide Valid, InTurn, Step;
    if i == 0 {
      assert InTurn(cfg, ws[0], false) by { StartsEmpty(cfg, ws[0]); }
    } else {
      LeavesInTurn(cfg, ws, ops, i - 1);
      RunKeepsInv(cfg, ws, ops, i - 1);
      InvValid(cfg, ws[i - 1]);
      TurnStep(cfg, ws[i - 1], ops[i - 1], ws[i], i > 1 && ops[i - 2].Enq?);
    }
  }

  lemma StartsEmpty(cfg: Config, w: World)
    requires Init(w)
    ensures InTurn(cfg, w, false)
  {
  }

  lemma TurnStep(cfg: Config, w: World, op: Op, w': World, full: bool)
    requires Valid(cfg, w.q) && InTurn(cfg, w, full) && Step(cfg, w, op, w') && (full ==> op == Deq)
    ensures InTurn(cfg, w', op.Enq?)
  {
    hide Valid, Served, Enqueued, Dequeued;
    match op
    case Enq(m, pushTime, trimTime) => EnqueueAlone(cfg, w.q, m, pushTime, trimTime, w'.q);
    case Deq =>
      if full {
        var x :| Takes(cfg, w, w', x);
        DequeueAlone(cfg, w.q, x, w'.q);
      }
  }

  // ----- the loop -----

  /** What the select of the loop can receive: a message, or the end of the delivery that was started last. */
  datatype Event = Arrives(msg: Message, pushTime: int, trimTime: int)
    | Finished(failed: bool, pushTime: int, trimTime: int)

  /** The messages whose delivery is started. A failed delivery is tried again only when nothing was delivered since,
      because the loop watches the last delivery only. */
  function Deliveries(cfg: Config, events: seq<Event>): seq<Message> {
    if events == [] then []
    else
      var before, last := Deliveries(cfg, events[..|events| - 1]), events[|events| - 1];
      match last
      case Arrives(m, _, _) => before + [Served(cfg, m)]
      case Finished(failed, _, _) =>
        if failed && Watching(events[..|events| - 1]) && before != [] then before + [Served(cfg, before[|before| - 1])]
        else before
  }

  /** A delivery was started and its end has not been received. */
  predicate Watching(events: seq<Event>) {
    events != [] &&
    match events[|events| - 1]
    case Arrives(_, _, _) => true
    case Finished(failed, _, _) => failed && Watching(events[..|events| - 1])
  }

  lemma {:induction false} WatchedIsDelivered(cfg: Config, events: seq<Event>)
    requires Watching(events)
    ensures Deliveries(cfg, events) != []
  {
    if events[|events| - 1].Finished? {
      WatchedIsDelivered(cfg, events[..|events| - 1]);
    }
  }

  /** The loop, event by event. */
  method Service(pq: PriorityQueue, events: seq<Event>) returns (delivered: seq<Message>)
    requires Valid(pq.cfg, pq.View()) && pq.queue == []
    modifies pq
    ensures Valid(pq.cfg, pq.View()) && pq.queue == []
    ensures delivered == Deliveries(pq.cfg, events)
  {
    hide Valid, Enqueued, Dequeued, Served;
    delivered := [];
    var watched: Option<Message> := None;
    for i := 0 to |events|
      invariant Valid(pq.cfg, pq.View()) && pq.queue == []
      invariant delivered == Deliveries(pq.cfg, events[..i]) && watched.Some? == Watching(events[..i])
      invariant watched.Some? ==> delivered != [] && watched.value == delivered[|delivered| - 1]
    {
      ghost var now := events[..i + 1];
      assert now[|now| - 1] == events[i] && now[..|now| - 1] == events[..i];
      var input: Option<Message> := None;
      match events[i] {
        case Arrives(m, _, _) => input := Some(m);
        case Finished(failed, _, _) =>
          input := if failed then watched else None;
          watched := None;
      }
      if input.Some? {
        ghost var before := pq.View();
        var tooLarge := pq.Enqueue(input.value, events[i].pushTime, events[i].trimTime);
        EnqueueAlone(pq.cfg, before, input.value, events[i].pushTime, events[i].trimTime, pq.View());
        EnqueueKeepsValid(pq.cfg, before, input.value, events[i].pushTime, events[i].trimTime, pq.View());
      }
      ghost var full := pq.View();
      var ok, top, x := pq.Dequeue();
      if ok {
        DequeueAlone(pq.cfg, full, x, pq.View());
        DequeueKeepsValid(pq.cfg, full, x, pq.View());
        delivered := delivered + [top];
        watched := Some(top);
      }
    }
    assert events[..|events|] == events;
  }

  predicate SameLimits(a: Config, b: Config) {
    a.maxQueueBytes == b.maxQueueBytes && a.maxMessageBytes == b.maxMessageBytes
  }

  /** Nothing but the two limits has an effect on what the loop delivers, and in which order: not the tie breaker, not
      the priority, not the expiries, not the levels of quality of service, and not the clock. */
  lemma {:induction false} OnlyLimitsMatter(a: Config, b: Config, events: seq<Event>, events': seq<Event>)
    requires SameLimits(a, b) && |events| == |events'|
    requires forall i | 0 <= i < |events| :: SameEvent(events[i], events'[i])
    ensures Deliveries(a, events) == Deliveries(b, events') && Watching(events) == Watching(events')
  {
    if events != [] {
      OnlyLimitsMatter(a, b, events[..|events| - 1], events'[..|events| - 1]);
    }
  }

  /** The same, at any other time. */
  predicate SameEvent(x: Event, y: Event) {
    match x
    case Arrives(m, _, _) => y.Arrives? && y.msg == m
    case Finished(failed, _, _) => y.Finished? && y.failed == failed
  }

  /** Without failures: exactly the messages that arrived, in the order of their arrival. */
  lemma {:induction false} ArrivalOrder(cfg: Config, events: seq<Event>)
    requires forall x | x in events :: x.Arrives?
    ensures |Deliveries(cfg, events)| == |events|
    ensures forall i | 0 <= i < |events| :: Deliveries(cfg, events)[i] == Served(cfg, events[i].msg)
  {
    hide Served;
    if events != [] {
      var front := events[..|events| - 1];
      assert forall x | x in front :: x in events;
      assert events[|events| - 1] in events;
      ArrivalOrder(cfg, front);
    }
  }

  // ----- failed deliveries -----

  /** How many events from i on are failures of the delivery that was started last, one after the other. */
  function FailuresAt(events: seq<Event>, i: nat): nat
    decreases |events| - i
  {
    if i < |events| && events[i].Finished? && events[i].failed then 1 + FailuresAt(events, i + 1) else 0
  }

  /** The deliveries that are started for the message that arrives with event i: the first, and one more for every
      failure that is received before anything else. */
  function Attempts(cfg: Config, events: seq<Event>, i: nat): seq<Message>
    requires i < |events|
  {
    if events[i].Arrives? then Copies(Served(cfg, events[i].msg), 1 + FailuresAt(events, i + 1)) else []
  }

  function Copies(m: Message, k: nat): seq<Message> {
    seq(k, i => m)
  }

  /** The attempts of the first k events. */
  function AttemptsUpTo(cfg: Config, events: seq<Event>, k: nat): seq<Message>
    requires k <= |events|
  {
    if k == 0 then [] else AttemptsUpTo(cfg, events, k - 1) + Attempts(cfg, events, k - 1)
  }

  /** A message that failed is put in as it was taken out: the limits have no further effect on it. */
  lemma ServedTwice(cfg: Config, m: Message)
    ensures Served(cfg, Served(cfg, m)) == Served(cfg, m)
  {
  }

  predicate IsFailure(e: Event) {
    e.Finished? && e.failed
  }

  predicate AllFailures(events: seq<Event>, i: nat) {
    forall j | i <= j < |events| :: IsFailure(events[j])
  }

  /** One of the first k messages was the last to arrive, and nothing but failures has been received since. */
  predicate FailingSince(events: seq<Event>, k: nat)
    requires k <= |events|
  {
    exists i :: 0 <= i < k && events[i].Arrives? && AllFailures(events, i + 1)
  }

  lemma {:induction false} WatchingMeans(events: seq<Event>)
    ensures Watching(events) <==> FailingSince(events, |events|)
  {
    if events != [] {
      var front, e := events[..|events| - 1], events[|events| - 1];
      WatchingMeans(front);
      if IsFailure(e) {
        FailingSinceSnoc(front, e);
        assert front + [e] == events;
      } else if e.Arrives? {
        assert AllFailures(events, |events| - 1 + 1);
      }
    }
  }

  lemma FailingSinceSnoc(front: seq<Event>, e: Event)
    requires IsFailure(e)
    ensures FailingSince(front + [e], |front| + 1) <==> FailingSince(front, |front|)
  {
    var events := front + [e];
    if FailingSince(front, |front|) {
      var i :| 0 <= i < |front| && front[i].Arrives? && AllFailures(front, i + 1);
      assert events[i] == front[i] && AllFailures(events, i + 1);
    }
    if FailingSince(events, |events|) {
      var i :| 0 <= i < |events| && events[i].Arrives? && AllFailures(events, i + 1);
      assert forall j | 0 <= j < |front| :: front[j] == events[j];
      assert AllFailures(front, i + 1);
    }
  }

  lemma {:induction false} FailuresSnoc(events: seq<Event>, e: Event, i: nat)
    requires i <= |events|
    ensures FailuresAt(events + [e], i) ==
            FailuresAt(events, i) + if IsFailure(e) && AllFailures(events, i) then 1 else 0
    decreases |events| - i
  {
    if i < |events| && IsFailure(events[i]) {
      FailuresSnoc(events, e, i + 1);
    }
  }

  /** A failure received while nothing else has been is one more delivery of the last message; no other event changes
      what is delivered of the messages before it. */
  lemma {:induction false} AttemptsSnoc(cfg: Config, events: seq<Event>, e: Event, k: nat)
    requires k <= |events|
    ensures var had := AttemptsUpTo(cfg, events, k);
            && (FailingSince(events, k) ==> had != [] && Served(cfg, had[|had| - 1]) == had[|had| - 1])
            && AttemptsUpTo(cfg, events + [e], k) ==
               had + if IsFailure(e) && FailingSince(events, k) then [had[|had| - 1]] else []
  {
    hide Served;
    if k > 0 {
      AttemptsSnoc(cfg, events, e, k - 1);
      FailuresSnoc(events, e, k);
      var x := events[k - 1];
      assert (events + [e])[k - 1] == x;
      if x.Arrives? {
        ServedTwice(cfg, x.msg);
        assert !FailingSince(events, k - 1);
        assert FailingSince(events, k) <==> AllFailures(events, k - 1 + 1);
      } else {
        assert FailingSince(events, k) <==> FailingSince(events, k - 1);
      }
    }
  }

  /** Exactly what the loop delivers: the messages in the order of their arrival, each once and then once more for every
      failure that is received before any other event. Once another message has arrived, its delivery is the one that is
      watched: a failure of the delivery before is not received, and never made up for. */
  lemma {:induction false} RetriedWhileLast(cfg: Config, events: seq<Event>)
    ensures Deliveries(cfg, events) == AttemptsUpTo(cfg, events, |events|)
  {
    hide Served;
    if events != [] {
      var front, e := events[..|events| - 1], events[|events| - 1];
      RetriedWhileLast(cfg, front);
      WatchingMeans(front);
      AttemptsSnoc(cfg, front, e, |front|);
      assert front + [e] == events;
      assert e.Arrives? ==> Attempts(cfg, events, |front|) == [Served(cfg, e.msg)];
    }
  }

  /** A second message arrives before the end of the first one's delivery is received: the first is delivered once,
      whether its delivery failed or not, and only the second is tried again. */
  lemma FailureIsForgotten(cfg: Config, a: Event, b: Event, ends: seq<Event>)
    requires a.Arrives? && b.Arrives? && forall e | e in ends :: e.Finished?
    ensures Deliveries(cfg, [a, b] + ends) == [Served(cfg, a.msg)] + Copies(Served(cfg, b.msg), 1 + FailuresAt(ends, 0))
  {
    hide Served, Deliveries;
    var events := [a, b] + ends;
    RetriedWhileLast(cfg, events);
    NoMoreAttempts(cfg, events, |events|);
    FailuresBehind(events, ends, 2);
    assert AttemptsUpTo(cfg, events, 2) == Attempts(cfg, events, 0) + Attempts(cfg, events, 1) by {
      assert AttemptsUpTo(cfg, events, 1) == AttemptsUpTo(cfg, events, 0) + Attempts(cfg, events, 0);
    }
  }

  lemma {:induction false} NoMoreAttempts(cfg: Config, events: seq<Event>, k: nat)
    requires 2 <= k <= |events| && forall j | 2 <= j < |events| :: events[j].Finished?
    ensures AttemptsUpTo(cfg, events, k) == AttemptsUpTo(cfg, events, 2)
  {
    if k > 2 {
      NoMoreAttempts(cfg, events, k - 1);
    }
  }

  lemma {:induction false} FailuresBehind(events: seq<Event>, ends: seq<Event>, i: nat)
    requires |events| == |ends| + 2 && events[2..] == ends && 2 <= i <= |events|
    ensures FailuresAt(events, i) == FailuresAt(ends, i - 2)
    decreases |events| - i
  {
    if i < |events| {
      FailuresBehind(events, ends, i + 1);
      assert events[i] == events[2..][i - 2];
    }
  }
}
