/** Any sequence of Enqueue and Dequeue calls on one queue, under a clock that never goes back. */
module QosRuns {
  import opened Octets
  import opened QosItems
  import opened QosSpec
  import opened QosPolicy

  datatype Op = Enq(msg: Message, pushTime: int, trimTime: int) | Deq

  /** The queue, the messages given so far and when, the items dequeued so far, and the clock. */
  datatype World = World(q: Queue, given: seq<Message>, times: seq<int>, taken: seq<Item>, clock: int)

  predicate Init(w: World) {
    w.q == Queue([], 0, 0) && w.given == [] && w.times == [] && w.taken == []
  }

  ghost predicate Takes(cfg: Config, w: World, w': World, x: Item) {
    Dequeued(cfg, w.q, x, w'.q) && w' == w.(q := w'.q, taken := w.taken + [x])
  }

  ghost predicate Step(cfg: Config, w: World, op: Op, w': World) {
    match op
    case Enq(m, pushTime, trimTime) =>
      && w.clock <= pushTime <= trimTime
      && Enqueued(cfg, w.q, m, pushTime, trimTime, w'.q)
      && w' == World(w'.q, w.given + [m], w.times + [pushTime], w.taken, trimTime)
    case Deq => if w.q.items == [] then w' == w else exists x :: Takes(cfg, w, w', x)
  }

  ghost predicate Run(cfg: Config, ws: seq<World>, ops: seq<Op>) {
    && |ws| == |ops| + 1 && Init(ws[0])
    && forall i | 0 <= i < |ops| :: Step(cfg, ws[i], ops[i], ws[i + 1])
  }

  /** What becomes of a message given: it loses its payload with code 102 when a trim discards it, and with code 4 when
      it alone is over the limit for messages; otherwise it stays as it was. */
  predicate CameFrom(cfg: Config, m: Message, x: Item) {
    x.msg ==
      if x.discard then Message(m.qos, [], Some(102), m.rest)
      else if cfg.maxMessageBytes != 0 && |m.payload| > cfg.maxMessageBytes then Message(m.qos, [], Some(4), m.rest)
      else m
  }

  predicate Traced(cfg: Config, w: World, x: Item)
    requires |w.times| == |w.given|
  {
    && x.id < |w.given|
    && CameFrom(cfg, w.given[x.id], x)
    && x.expires - w.times[x.id] ==
       match cfg.level(w.given[x.id].qos)
       case Low => cfg.lowExpires
       case Medium => cfg.mediumExpires
       case High => cfg.highExpires
       case Critical => cfg.criticalExpires
  }

  /** The number of places, in the queue and among the dequeued, that hold message object id. */
  function Places(w: World, id: nat): int {
    Count(w.q.items, id) + Count(w.taken, id)
  }

  ghost predicate Conserved(cfg: Config, w: World) {
    && w.q.next == |w.given| == |w.times|
    && (forall id: nat :: Places(w, id) == if id < |w.given| then 1 else 0)
    && (forall x | x in w.q.items || x in w.taken :: Traced(cfg, w, x))
  }

  ghost predicate Clocked(w: World) {
    && (forall i, j | 0 <= i <= j < |w.times| :: w.times[i] <= w.times[j])
    && (forall i | 0 <= i < |w.times| :: w.times[i] <= w.clock)
  }

  ghost predicate Inv(cfg: Config, w: World) {
    && Valid(cfg, w.q) && Conserved(cfg, w) && Clocked(w)
    && (cfg.maxQueueBytes >= 0 ==> w.q.sizeBytes <= cfg.maxQueueBytes)
  }

  lemma {:induction false} TotalPointwise(a: seq<Item>, b: seq<Item>, f: Item -> int)
    requires |a| == |b| && forall i | 0 <= i < |a| :: f(a[i]) == f(b[i])
    ensures Total(a, f) == Total(b, f)
  {
    if a != [] {
      TotalPointwise(a[1..], b[1..], f);
    }
  }

  lemma {:induction false} SizeNotNegative(items: seq<Item>)
    ensures Size(items) >= 0
  {
    if items != [] {
      SizeNotNegative(items[1..]);
    }
  }

  // ----- Enqueue -----

  lemma CountPushed(cfg: Config, q: Queue, m: Message, now: int, q': Queue, id: nat)
    requires Pushed(cfg, q, m, now, q')
    ensures Count(q'.items, id) == Count(q.items, id) + if id == q.next then 1 else 0
  {
    var x, f := NewItem(cfg, q, m, now), PointsTo(id);
    assert multiset(q'.items) == multiset(q.items + [x]);
    TotalPermuted(q'.items, q.items + [x], f);
    TotalAppend(q.items, [x], f);
    assert Total([x], f) == f(x) + Total([], f);
  }

  /** Trimming changes items in place only as Disposed does. */
  lemma TrimTraces(cfg: Config, q: Queue, now: int, q': Queue)
    requires Trimmed(cfg, q, now, q')
    ensures q'.next == q.next && |q'.items| == |q.items|
    ensures forall i | 0 <= i < |q.items| :: q'.items[i] == q.items[i] || q'.items[i] == Disposed(q.items[i])
    ensures forall id :: Count(q'.items, id) == Count(q.items, id)
  {
    var order: seq<nat>, k: nat :| TrimmedBy(cfg, q, now, q', order, k);
    forall id
      ensures Count(q'.items, id) == Count(q.items, id)
    {
      TotalPointwise(q'.items, q.items, PointsTo(id));
    }
  }

  lemma DisposedTraced(cfg: Config, w: World, x: Item)
    requires |w.times| == |w.given| && Traced(cfg, w, x)
    ensures Traced(cfg, w, Disposed(x))
  {
  }

  lemma GivenMore(cfg: Config, w: World, w': World, x: Item)
    requires |w.times| == |w.given| && |w'.times| == |w'.given| && w.given <= w'.given && w.times <= w'.times
    requires Traced(cfg, w, x)
    ensures Traced(cfg, w', x)
  {
  }

  lemma AddedTraced(cfg: Config, w: World, m: Message, now: int, w': World)
    requires w.q.next == |w.given| == |w.times| && w'.given == w.given + [m] && w'.times == w.times + [now]
    ensures Traced(cfg, w', NewItem(cfg, w.q, Admitted(cfg, m), now))
  {
  }

  lemma EnqueuePlaces(cfg: Config, w: World, m: Message, pushTime: int, mid: Queue, w': World, trimTime: int)
    requires Conserved(cfg, w) && Pushed(cfg, w.q, m, pushTime, mid) && Trimmed(cfg, mid, trimTime, w'.q)
    requires w'.taken == w.taken && |w'.given| == |w.given| + 1
    ensures forall id: nat :: Places(w', id) == if id < |w'.given| then 1 else 0
    ensures w'.q.next == |w'.given|
  {
    TrimTraces(cfg, mid, trimTime, w'.q);
    CountPushedNext(cfg, w.q, m, pushTime, mid);
    hide Count, Trimmed, Traced;
    forall id: nat
      ensures Places(w', id) == if id < |w'.given| then 1 else 0
    {
      CountPushed(cfg, w.q, m, pushTime, mid, id);
      assert Places(w, id) == if id < |w.given| then 1 else 0;
    }
  }

  lemma EnqueueConserves(cfg: Config, w: World, m: Message, pushTime: int, trimTime: int, w': World)
    requires Valid(cfg, w.q) && Conserved(cfg, w) && Step(cfg, w, Enq(m, pushTime, trimTime), w')
    ensures Conserved(cfg, w')
  {
    var mid :| Pushed(cfg, w.q, Admitted(cfg, m), pushTime, mid) && Trimmed(cfg, mid, trimTime, w'.q);
    var added := NewItem(cfg, w.q, Admitted(cfg, m), pushTime);
    PushKeepsValid(cfg, w.q, Admitted(cfg, m), pushTime, mid);
    EnqueuePlaces(cfg, w, Admitted(cfg, m), pushTime, mid, w', trimTime);
    TrimTraces(cfg, mid, trimTime, w'.q);
    AddedTraced(cfg, w, m, pushTime, w');
    hide Count, Places, Pushed, Trimmed, Valid, Enqueued, Traced, Admitted;
    forall x | x in w'.q.items || x in w'.taken
      ensures Traced(cfg, w', x)
    {
      if x in w.taken {
        GivenMore(cfg, w, w', x);
      } else {
        var i :| 0 <= i < |w'.q.items| && w'.q.items[i] == x;
        var y := mid.items[i];
        assert y in mid.items;
        if y != added {
          GivenMore(cfg, w, w', y);
        }
        DisposedTraced(cfg, w', y);
      }
    }
  }

  lemma CountPushedNext(cfg: Config, q: Queue, m: Message, now: int, q': Queue)
    requires Pushed(cfg, q, m, now, q')
    ensures q'.next == q.next + 1
  {
  }

  lemma EnqueueKeepsInv(cfg: Config, w: World, m: Message, pushTime: int, trimTime: int, w': World)
    requires Inv(cfg, w) && Step(cfg, w, Enq(m, pushTime, trimTime), w')
    ensures Inv(cfg, w')
  {
    EnqueueConserves(cfg, w, m, pushTime, trimTime, w');
    var mid :| Pushed(cfg, w.q, Admitted(cfg, m), pushTime, mid) && Trimmed(cfg, mid, trimTime, w'.q);
    PushKeepsValid(cfg, w.q, Admitted(cfg, m), pushTime, mid);
    TrimKeepsValid(cfg, mid, trimTime, w'.q);
    if cfg.maxQueueBytes >= 0 {
      TrimRestoresLimit(cfg, mid, trimTime, w'.q);
    }
  }

  // ----- Dequeue -----

  lemma TakeKeepsInv(cfg: Config, w: World, w': World, x: Item)
    requires Inv(cfg, w) && Takes(cfg, w, w', x)
    ensures Inv(cfg, w')
  {
    DequeueKeepsValid(cfg, w.q, x, w'.q);
    assert multiset(w.q.items) == multiset(w'.q.items + [x]);
    forall id: nat
      ensures Places(w', id) == Places(w, id)
    {
      var f := PointsTo(id);
      TotalPermuted(w.q.items, w'.q.items + [x], f);
      TotalAppend(w'.q.items, [x], f);
      TotalAppend(w.taken, [x], f);
    }
    assert forall y | y in w'.q.items || y in w'.taken :: Traced(cfg, w, y);
  }

  /** In every state of every run: the heap order, the byte count, the limit, and every message given in exactly one
      place, with the payload, the delivery code and the time of expiry that its arguments and the limits give it. */
  lemma {:induction false} RunKeepsInv(cfg: Config, ws: seq<World>, ops: seq<Op>, i: nat)
    requires Run(cfg, ws, ops) && i < |ws|
    ensures Inv(cfg, ws[i])
  {
    if i == 0 {
    } else {
      hide Inv, Step;
      RunKeepsInv(cfg, ws, ops, i - 1);
      assert Step(cfg, ws[i - 1], ops[i - 1], ws[i]);
      StepKeepsInv(cfg, ws[i - 1], ops[i - 1], ws[i]);
    }
  }

  lemma StepKeepsInv(cfg: Config, w: World, op: Op, w': World)
    requires Inv(cfg, w) && Step(cfg, w, op, w')
    ensures Inv(cfg, w')
  {
    hide Inv;
    match op
    case Enq(m, pushTime, trimTime) => EnqueueKeepsInv(cfg, w, m, pushTime, trimTime, w');
    case Deq =>
      if w.q.items != [] {
        var x :| Takes(cfg, w, w', x);
        TakeKeepsInv(cfg, w, w', x);
      }
  }

  // ----- the order of delivery -----

  /** Successive Dequeues take only items that were in the queue, and none that the order puts before an earlier one. */
  lemma {:induction false} DrainInOrder(cfg: Config, ws: seq<World>, ops: seq<Op>, i: nat, j: nat)
    requires Run(cfg, ws, ops) && i <= j < |ws| && forall k | i <= k < j :: ops[k] == Deq
    ensures ws[i].taken <= ws[j].taken && ws[j].given == ws[i].given && ws[j].times == ws[i].times
    ensures forall a | |ws[i].taken| <= a < |ws[j].taken| :: ws[j].taken[a] in ws[i].q.items
    ensures forall a, b | |ws[i].taken| <= a < b < |ws[j].taken| ::
            !Precedes(cfg.tieBreaker, ws[j].taken[b], ws[j].taken[a])
    decreases j - i
  {
    if i < j {
      hide Inv;
      RunKeepsInv(cfg, ws, ops, i);
      DrainInOrder(cfg, ws, ops, i + 1, j);
      assert Step(cfg, ws[i], ops[i], ws[i + 1]);
      if ws[i].q.items != [] {
        var x :| Takes(cfg, ws[i], ws[i + 1], x);
        assert Valid(cfg, ws[i].q) by { InvValid(cfg, ws[i]); }
        DequeueKeepsValid(cfg, ws[i].q, x, ws[i + 1].q);
        assert ws[j].taken[|ws[i].taken|] == x;
      }
    }
  }

  lemma InvValid(cfg: Config, w: World)
    requires Inv(cfg, w)
    ensures Valid(cfg, w.q)
  {
  }

  /** One message is delivered before another when its quality of service is higher or, when they are equal, it was
      given no earlier (newest first) or no later (oldest first). */
  predicate DeliveredInOrder(cfg: Config, times: seq<int>, a: Item, b: Item)
    requires a.id < |times| && b.id < |times|
  {
    || a.msg.qos > b.msg.qos
    || (a.msg.qos == b.msg.qos &&
        match cfg.tieBreaker
        case PriorityNewestMsg => times[a.id] >= times[b.id]
        case PriorityOldestMsg => times[a.id] <= times[b.id])
  }

  /** Draining the queue yields messages by falling quality of service and, for equal ones, by time of arrival; two that
      arrived at different times come out in the order, or the reverse order, in which they were given. */
  lemma DrainByPriority(cfg: Config, ws: seq<World>, ops: seq<Op>, i: nat, j: nat, a: nat, b: nat)
    requires Run(cfg, ws, ops) && i <= j < |ws| && forall k | i <= k < j :: ops[k] == Deq
    requires |ws[i].taken| <= a < b < |ws[j].taken|
    ensures var x, y, times := ws[j].taken[a], ws[j].taken[b], ws[j].times;
            && x.id < |times| && y.id < |times|
            && DeliveredInOrder(cfg, times, x, y)
            && (x.msg.qos == y.msg.qos && times[x.id] != times[y.id] ==>
                  (x.id > y.id <==> cfg.tieBreaker == PriorityNewestMsg))
  {
    hide Run, Valid, Places;
    DrainInOrder(cfg, ws, ops, i, j);
    RunKeepsInv(cfg, ws, ops, j);
    var w := ws[j];
    var x, y := w.taken[a], w.taken[b];
    assert x in w.taken && y in w.taken;
    assert Traced(cfg, w, x) && Traced(cfg, w, y);
    assert !Precedes(cfg.tieBreaker, y, x);
    if x.msg.qos == y.msg.qos {
      assert x.id <= y.id ==> w.times[x.id] <= w.times[y.id];
      assert y.id <= x.id ==> w.times[y.id] <= w.times[x.id];
    }
  }
}
