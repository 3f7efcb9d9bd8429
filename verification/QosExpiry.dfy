/** Expiry against rank: when an overfull queue loses a message that ranks above one it keeps. */
module QosExpiry {
  import opened Octets
  import opened QosItems
  import opened QosHeap
  import opened QosSpec
  import opened QosPolicy
  import opened QosRuns

  // ----- what a trim loses and keeps -----

  /** Item i had a payload and has lost it. */
  predicate Lost(q: Queue, q': Queue, i: nat)
    requires i < |q.items| == |q'.items|
  {
    q.items[i].msg.payload != [] && q'.items[i].msg.payload == []
  }

  predicate Kept(q: Queue, q': Queue, i: nat)
    requires i < |q.items| == |q'.items|
  {
    q'.items[i].msg.payload != []
  }

  /** No item that loses its payload ranks above one that keeps it. */
  ghost predicate RankRespected(p: PriorityType, q: Queue, q': Queue)
    requires |q.items| == |q'.items|
  {
    forall v, w | 0 <= v < |q.items| && 0 <= w < |q.items| && Lost(q, q', v) && Kept(q, q', w) ::
      TrimCompare(p, q.items[v], q.items[w]) <= 0
  }

  /** The payload octets of the unexpired items from place a of a rank order on. */
  function BytesFrom(items: seq<Item>, order: seq<nat>, a: nat): nat
    requires a <= |order| && forall i | i in order :: i < |items|
    decreases |order| - a
  {
    if a == |order| then 0
    else
      assert order[a] in order;
      |items[order[a]].msg.payload| + BytesFrom(items, order, a + 1)
  }

  /** When the expired items and the first j of the order are gone, the rest of the order is what is left. */
  lemma {:induction false} BytesLeft(p: PriorityType, q: Queue, now: int, order: seq<nat>, j: nat)
    requires (forall x | x in q.items :: x.discard ==> x.msg.payload == []) && RankOrder(p, q.items, now, order)
    requires j <= |order|
    ensures forall i | i in order :: i < |q.items|
    ensures Size(TrimmedTo(q.items, now, order, j)) == BytesFrom(q.items, order, j)
    decreases |order| - j
  {
    hide Size, TrimCompare, DisposeAll, ExpiredIn, Elements;
    if j == |order| {
      AllTrimmed(q, now, order, p, TrimmedTo(q.items, now, order, j));
    } else {
      BytesLeft(p, q, now, order, j + 1);
      LastVictim(p, q.items, now, order, j + 1);
    }
  }

  lemma {:induction false} BytesFall(items: seq<Item>, order: seq<nat>, a: nat, b: nat)
    requires a <= b <= |order| && forall i | i in order :: i < |items|
    ensures BytesFrom(items, order, b) <= BytesFrom(items, order, a)
    decreases b - a
  {
    if a < b {
      BytesFall(items, order, a + 1, b);
    }
  }

  /** Which unexpired items survive can be told before the trim: those from whose place in the rank order on the
      payloads are within the limit. */
  lemma SurvivesIfFits(cfg: Config, q: Queue, now: int, q': Queue, order: seq<nat>, k: nat, a: nat)
    requires Valid(cfg, q) && q.sizeBytes > cfg.maxQueueBytes >= 0 && TrimmedBy(cfg, q, now, q', order, k)
    requires a < |order|
    ensures forall i | i in order :: i < |q.items|
    ensures k <= a <==> BytesFrom(q.items, order, a) <= cfg.maxQueueBytes
  {
    hide Size, TrimCompare, TrimmedTo, Heap;
    BytesLeft(cfg.priority, q, now, order, a);
    BytesLeft(cfg.priority, q, now, order, k);
    if k <= a {
      BytesFall(q.items, order, k, a);
    }
  }

  /** An expired item that has a payload, and one at place a of the rank order that ranks below it and yet fits. */
  predicate Inverts(cfg: Config, q: Queue, now: int, order: seq<nat>, v: nat, a: nat)
    requires v < |q.items| && a < |order| && forall i | i in order :: i < |q.items|
  {
    assert order[a] in order;
    && Expired(q.items[v], now) && q.items[v].msg.payload != []
    && q.items[order[a]].msg.payload != [] && BytesFrom(q.items, order, a) <= cfg.maxQueueBytes
    && TrimCompare(cfg.priority, q.items[v], q.items[order[a]]) > 0
  }

  lemma KeptFits(cfg: Config, q: Queue, now: int, q': Queue, order: seq<nat>, k: nat, w: nat) returns (a: nat)
    requires Valid(cfg, q) && q.sizeBytes > cfg.maxQueueBytes >= 0 && TrimmedBy(cfg, q, now, q', order, k)
    requires w < |q.items| == |q'.items| && Kept(q, q', w)
    ensures forall i | i in order :: i < |q.items|
    ensures a < |order| && order[a] == w && q.items[w].msg.payload != [] &&
            BytesFrom(q.items, order, a) <= cfg.maxQueueBytes
    ensures Survivor(q, now, q', w)
  {
    hide Size, TrimCompare, Heap, BytesFrom;
    assert Trimmed(cfg, q, now, q');
    assert q.items[w] in q.items;
    TrimPolicy(cfg, q, now, q');
    a := VictimInPrefix(cfg, q, now, q', order, k, w);
    SurvivesIfFits(cfg, q, now, q', order, k, a);
  }

  lemma FittingIsKept(cfg: Config, q: Queue, now: int, q': Queue, order: seq<nat>, k: nat, a: nat)
    requires Valid(cfg, q) && q.sizeBytes > cfg.maxQueueBytes >= 0 && TrimmedBy(cfg, q, now, q', order, k)
    requires a < |order|
    requires forall i | i in order :: i < |q.items|
    requires order[a] < |q.items| && q.items[order[a]].msg.payload != []
    requires BytesFrom(q.items, order, a) <= cfg.maxQueueBytes
    ensures |q.items| == |q'.items| && order[a] < |q.items| && Kept(q, q', order[a])
  {
    hide Size, TrimCompare, Heap, BytesFrom;
    SurvivesIfFits(cfg, q, now, q', order, k, a);
    assert order[a] in order;
    assert order[a] !in order[..k];
  }

  /** The exact condition, which can be checked before the trim: an overfull queue loses no message that ranks above one
      it keeps if and only if no expired message ranks above an unexpired one that fits. */
  lemma RankRespectedIff(cfg: Config, q: Queue, now: int, q': Queue, order: seq<nat>, k: nat)
    requires Valid(cfg, q) && q.sizeBytes > cfg.maxQueueBytes >= 0 && TrimmedBy(cfg, q, now, q', order, k)
    ensures |q.items| == |q'.items| && forall i | i in order :: i < |q.items|
    ensures RankRespected(cfg.priority, q, q') <==>
            forall v, a | 0 <= v < |q.items| && 0 <= a < |order| :: !Inverts(cfg, q, now, order, v, a)
  {
    hide Size, TrimCompare, Heap, BytesFrom, Valid, TrimmedBy;
    assert Trimmed(cfg, q, now, q');
    TrimPolicy(cfg, q, now, q');
    OrderInRange(cfg, q, now, q', order, k);
    if v, a :| 0 <= v < |q.items| && 0 <= a < |order| && Inverts(cfg, q, now, order, v, a) {
      assert order[a] in order;
      FittingIsKept(cfg, q, now, q', order, k, a);
      assert Lost(q, q', v) && Kept(q, q', order[a]);
    } else {
      forall v, w | 0 <= v < |q.items| && 0 <= w < |q.items| && Lost(q, q', v) && Kept(q, q', w)
        ensures TrimCompare(cfg.priority, q.items[v], q.items[w]) <= 0
      {
        var a := KeptFits(cfg, q, now, q', order, k, w);
        if Expired(q.items[v], now) {
          assert !Inverts(cfg, q, now, order, v, a);
        } else {
          assert Victim(q, now, q', v);
        }
      }
    }
  }

  lemma OrderInRange(cfg: Config, q: Queue, now: int, q': Queue, order: seq<nat>, k: nat)
    requires q.sizeBytes > cfg.maxQueueBytes && TrimmedBy(cfg, q, now, q', order, k)
    ensures forall i | i in order :: i < |q.items|
  {
  }

  // ----- runs -----

  /** An Enqueue that makes the queue overfull, so that it trims. */
  predicate Overfills(cfg: Config, q: Queue, op: Op) {
    op.Enq? && q.sizeBytes + |Admitted(cfg, op.msg).payload| > cfg.maxQueueBytes
  }

  /** The queue between the push and the trim of an Enqueue. */
  ghost predicate Between(cfg: Config, w: World, op: Op, mid: Queue, w': World)
    requires op.Enq?
  {
    Pushed(cfg, w.q, Admitted(cfg, op.msg), op.pushTime, mid) && Trimmed(cfg, mid, op.trimTime, w'.q)
  }

  /** In every run: every item of the queue before a trim expires when the time that its level gives it is over, counted
      from when its message was given. */
  lemma ExpiresAfterItsTime(cfg: Config, ws: seq<World>, ops: seq<Op>, i: nat, mid: Queue)
    requires Run(cfg, ws, ops) && i < |ops| && Overfills(cfg, ws[i].q, ops[i])
    requires Between(cfg, ws[i], ops[i], mid, ws[i + 1])
    ensures Valid(cfg, mid) && mid.sizeBytes > cfg.maxQueueBytes
    ensures forall x | x in mid.items ::
              && x.id < |ws[i + 1].times|
              && (Expired(x, ops[i].trimTime) <==>
                    !x.discard && ws[i + 1].times[x.id] + QosExpires(cfg, x.msg.qos) < ops[i].trimTime)
  {
    hide Valid, Trimmed, Places;
    RunKeepsInv(cfg, ws, ops, i);
    assert Step(cfg, ws[i], ops[i], ws[i + 1]);
    PushKeepsValid(cfg, ws[i].q, Admitted(cfg, ops[i].msg), ops[i].pushTime, mid);
  }

  /** So in every run, when all messages that have not been trimmed yet are within their times, rank is respected. */
  lemma WithinTimesRespectsRank(cfg: Config, ws: seq<World>, ops: seq<Op>, i: nat, mid: Queue)
    requires Run(cfg, ws, ops) && i < |ops| && Overfills(cfg, ws[i].q, ops[i])
    requires Between(cfg, ws[i], ops[i], mid, ws[i + 1])
    requires cfg.maxQueueBytes >= 0
    requires forall x | x in mid.items && !x.discard && x.id < |ws[i + 1].times| ::
               ops[i].trimTime <= ws[i + 1].times[x.id] + QosExpires(cfg, x.msg.qos)
    ensures |mid.items| == |ws[i + 1].q.items| && RankRespected(cfg.priority, mid, ws[i + 1].q)
  {
    ExpiresAfterItsTime(cfg, ws, ops, i, mid);
    hide Run, Valid, Pushed, RankRespected, QosExpires, TrimmedBy, BytesFrom, TrimCompare;
    var now, after := ops[i].trimTime, ws[i + 1].q;
    var order: seq<nat>, k: nat :| TrimmedBy(cfg, mid, now, after, order, k);
    RankRespectedIff(cfg, mid, now, after, order, k);
    forall v, a | 0 <= v < |mid.items| && 0 <= a < |order|
      ensures !Inverts(cfg, mid, now, order, v, a)
    {
      assert mid.items[v] in mid.items;
    }
  }

  // ----- a run that does not respect rank -----

  const TOP := Message(99, [0], None, [])
  const BOTTOM := Message(0, [0], None, [])

  function TopItem(cfg: Config): Item {
    Item(0, TOP, QosExpires(cfg, TOP.qos), false)
  }

  /** The time when the first message has just expired. */
  function Late(cfg: Config): int {
    if QosExpires(cfg, TOP.qos) < 0 then 0 else QosExpires(cfg, TOP.qos) + 1
  }

  function BottomItem(cfg: Config): Item {
    Item(1, BOTTOM, Late(cfg) + QosExpires(cfg, BOTTOM.qos), false)
  }

  function First(): World {
    World(Queue([], 0, 0), [], [], [], 0)
  }

  function Second(cfg: Config): World {
    World(Queue([TopItem(cfg)], 1, 1), [TOP], [0], [], 0)
  }

  function Third(cfg: Config): World {
    World(Queue([Disposed(TopItem(cfg)), BottomItem(cfg)], 1, 2), [TOP, BOTTOM], [0, Late(cfg)], [], Late(cfg))
  }

  /** Whatever the times that the levels give: in a queue with room for one octet, a message of the highest quality of
      service that has expired is lost to one of the lowest, which is kept. */
  lemma LowerIsKept(cfg: Config)
    requires cfg.maxQueueBytes == 1 && cfg.maxMessageBytes == 0 && QosExpires(cfg, BOTTOM.qos) >= 0
    ensures Run(cfg, [First(), Second(cfg), Third(cfg)], [Enq(TOP, 0, 0), Enq(BOTTOM, Late(cfg), Late(cfg))])
    ensures var mid := Queue([TopItem(cfg), BottomItem(cfg)], 2, 2);
            && Between(cfg, Second(cfg), Enq(BOTTOM, Late(cfg), Late(cfg)), mid, Third(cfg))
            && Lost(mid, Third(cfg).q, 0) && Kept(mid, Third(cfg).q, 1)
            && TrimCompare(cfg.priority, mid.items[0], mid.items[1]) > 0
  {
    hide Step, QosExpires, Between;
    FirstIsQueued(cfg);
    SecondOverfills(cfg);
    var ws, ops := [First(), Second(cfg), Third(cfg)], [Enq(TOP, 0, 0), Enq(BOTTOM, Late(cfg), Late(cfg))];
    assert forall i | 0 <= i < 2 :: Step(cfg, ws[i], ops[i], ws[i + 1]);
  }

  lemma FirstIsQueued(cfg: Config)
    requires cfg.maxQueueBytes == 1 && cfg.maxMessageBytes == 0
    ensures Step(cfg, First(), Enq(TOP, 0, 0), Second(cfg))
  {
    hide QosExpires;
    assert [] + [TopItem(cfg)] == [TopItem(cfg)];
    assert Pushed(cfg, First().q, Admitted(cfg, TOP), 0, Second(cfg).q);
    assert TrimmedBy(cfg, Second(cfg).q, 0, Second(cfg).q, [], 0);
    assert Trimmed(cfg, Second(cfg).q, 0, Second(cfg).q);
  }

  lemma SizeOfTwo(a: Item, b: Item)
    ensures Size([a, b]) == |a.msg.payload| + |b.msg.payload|
  {
    assert [a, b] == [a] + [b];
    TotalAppend([a], [b], PayloadSize);
    assert [a][1..] == [] && [b][1..] == [];
    assert Total([a], PayloadSize) == PayloadSize(a) && Total([b], PayloadSize) == PayloadSize(b);
  }

  lemma SecondOverfills(cfg: Config)
    requires cfg.maxQueueBytes == 1 && cfg.maxMessageBytes == 0 && QosExpires(cfg, BOTTOM.qos) >= 0
    ensures Step(cfg, Second(cfg), Enq(BOTTOM, Late(cfg), Late(cfg)), Third(cfg))
    ensures Between(cfg, Second(cfg), Enq(BOTTOM, Late(cfg), Late(cfg)),
                    Queue([TopItem(cfg), BottomItem(cfg)], 2, 2), Third(cfg))
  {
    hide QosExpires, Trimmed;
    var a, b := TopItem(cfg), BottomItem(cfg);
    var mid := Queue([a, b], 2, 2);
    assert mid.items == Second(cfg).q.items + [b];
    assert Pushed(cfg, Second(cfg).q, Admitted(cfg, BOTTOM), Late(cfg), mid);
    OnlyTopGoes(cfg, a, b, Late(cfg));
  }

  lemma OnlyTopGoes(cfg: Config, a: Item, b: Item, now: int)
    requires cfg.maxQueueBytes == 1 && Expired(a, now) && Candidate(b, now) && |a.msg.payload| == |b.msg.payload| == 1
    ensures Trimmed(cfg, Queue([a, b], 2, 2), now, Queue([Disposed(a), b], 1, 2))
  {
    var q, q' := Queue([a, b], 2, 2), Queue([Disposed(a), b], 1, 2);
    var order: seq<nat> := [1];
    assert order[..0] == [];
    assert TrimmedTo(q.items, now, order, 0) == q'.items;
    SizeOfTwo(a, b);
    SizeOfTwo(Disposed(a), b);
    assert RankOrder(cfg.priority, q.items, now, order);
    assert TrimmedBy(cfg, q, now, q', order, 0);
  }
}
