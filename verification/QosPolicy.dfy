/** The trim policy, and the limit it restores. */
module QosPolicy {
  import opened QosItems
  import opened QosHeap
  import opened QosSpec

  lemma {:induction false} EmptyPayloads(items: seq<Item>)
    requires forall x | x in items :: x.msg.payload == []
    ensures Size(items) == 0
  {
    if items != [] {
      EmptyPayloads(items[1..]);
    }
  }

  /** Discarding keeps the heap: it touches nothing that the order looks at. */
  lemma DisposeKeepsHeap(tb: TieBreaker, items: seq<Item>, victims: set<nat>)
    requires Heap(tb, items)
    ensures Heap(tb, DisposeAll(items, victims))
  {
    var r := DisposeAll(items, victims);
    forall i | 0 < i < |r|
      ensures !Precedes(tb, r[i], r[Parent(i)])
    {
      assert !Precedes(tb, items[i], items[Parent(i)]);
    }
  }

  lemma TrimKeepsValid(cfg: Config, q: Queue, now: int, q': Queue)
    requires Valid(cfg, q) && Trimmed(cfg, q, now, q')
    ensures Valid(cfg, q')
  {
    var order: seq<nat>, k: nat :| TrimmedBy(cfg, q, now, q', order, k);
    if q.sizeBytes > cfg.maxQueueBytes {
      DisposeKeepsHeap(cfg.tieBreaker, q.items, ExpiredIn(q.items, now) + Elements(order[..k]));
      forall x | x in q'.items
        ensures x.id < q'.next && (x.discard ==> x.msg.payload == [])
      {
        var i :| 0 <= i < |q'.items| && q'.items[i] == x;
        assert q.items[i] in q.items;
      }
    }
  }

  /** When the whole rank order is discarded, no payload is left. */
  lemma AllTrimmed(q: Queue, now: int, order: seq<nat>, p: PriorityType, items: seq<Item>)
    requires forall x | x in q.items :: x.discard ==> x.msg.payload == []
    requires RankOrder(p, q.items, now, order) && items == TrimmedTo(q.items, now, order, |order|)
    ensures Size(items) == 0
  {
    assert order[..|order|] == order;
    forall x | x in items
      ensures x.msg.payload == []
    {
      var i: nat :| i < |items| && items[i] == x;
      assert q.items[i] in q.items;
      assert q.items[i].discard || Expired(q.items[i], now) || Candidate(q.items[i], now);
    }
    EmptyPayloads(items);
  }

  /** After trim the queue is within any limit that is not negative. */
  lemma TrimRestoresLimit(cfg: Config, q: Queue, now: int, q': Queue)
    requires Valid(cfg, q) && Trimmed(cfg, q, now, q') && cfg.maxQueueBytes >= 0
    ensures q'.sizeBytes <= cfg.maxQueueBytes
  {
    var order: seq<nat>, k: nat :| TrimmedBy(cfg, q, now, q', order, k);
    if q.sizeBytes > cfg.maxQueueBytes && k == |order| {
      AllTrimmed(q, now, order, cfg.priority, q'.items);
    }
  }

  /** Item i was unexpired and trim discarded it. */
  predicate Victim(q: Queue, now: int, q': Queue, i: nat)
    requires i < |q.items| == |q'.items|
  {
    Candidate(q.items[i], now) && q'.items[i].discard
  }

  predicate Survivor(q: Queue, now: int, q': Queue, i: nat)
    requires i < |q.items| == |q'.items|
  {
    Candidate(q.items[i], now) && !q'.items[i].discard
  }

  lemma VictimInPrefix(cfg: Config, q: Queue, now: int, q': Queue, order: seq<nat>, k: nat, i: nat) returns (a: nat)
    requires q.sizeBytes > cfg.maxQueueBytes && TrimmedBy(cfg, q, now, q', order, k)
    requires i < |q.items| == |q'.items| && Candidate(q.items[i], now)
    ensures a < |order| && order[a] == i && (q'.items[i].discard <==> a < k)
  {
    assert i in order;
    a :| 0 <= a < |order| && order[a] == i;
    if a < k {
      assert order[..k][a] == i;
    } else {
      assert i !in order[..k];
    }
  }

  /** The policy: an overfull queue discards every expired item and, of the others, no item that ranks above one it
      keeps. What was already discarded, and what survives, is left as it was. */
  lemma TrimPolicy(cfg: Config, q: Queue, now: int, q': Queue)
    requires q.sizeBytes > cfg.maxQueueBytes && Trimmed(cfg, q, now, q')
    ensures |q'.items| == |q.items|
    ensures forall i | 0 <= i < |q.items| :: Expired(q.items[i], now) ==> q'.items[i] == Disposed(q.items[i])
    ensures forall i | 0 <= i < |q.items| :: q.items[i].discard ==> q'.items[i] == q.items[i]
    ensures forall i | 0 <= i < |q.items| :: q'.items[i] == q.items[i] || q'.items[i] == Disposed(q.items[i])
    ensures forall v, w | 0 <= v < |q.items| && 0 <= w < |q.items| && Victim(q, now, q', v) &&
            Survivor(q, now, q', w) ::
              TrimCompare(cfg.priority, q.items[v], q.items[w]) <= 0
  {
    var order: seq<nat>, k: nat :| TrimmedBy(cfg, q, now, q', order, k);
    forall i | 0 <= i < |q.items| && q.items[i].discard
      ensures q'.items[i] == q.items[i]
    {
      assert i !in order;
      assert i !in order[..k];
    }
    forall v, w | 0 <= v < |q.items| && 0 <= w < |q.items| && Victim(q, now, q', v) && Survivor(q, now, q', w)
      ensures TrimCompare(cfg.priority, q.items[v], q.items[w]) <= 0
    {
      var a := VictimInPrefix(cfg, q, now, q', order, k, v);
      var b := VictimInPrefix(cfg, q, now, q', order, k, w);
      assert a < k <= b;
    }
  }

  /** When the two settings agree, a message that is trimmed would not have been delivered before one that is kept. */
  lemma TrimSparesTheFirst(cfg: Config, q: Queue, now: int, q': Queue, v: nat, w: nat)
    requires Agree(cfg.priority, cfg.tieBreaker)
    requires q.sizeBytes > cfg.maxQueueBytes && Trimmed(cfg, q, now, q')
    requires v < |q.items| == |q'.items| && w < |q.items| && Victim(q, now, q', v) && Survivor(q, now, q', w)
    ensures !Precedes(cfg.tieBreaker, q.items[v], q.items[w])
  {
    TrimPolicy(cfg, q, now, q');
    TrimReversesDelivery(cfg.priority, cfg.tieBreaker);
  }

  /** No more than needed is trimmed: if unexpired items were discarded, there is one that ranks no lower than any other
      of them, and keeping that one would have left the queue over its limit. */
  lemma TrimIsMinimal(cfg: Config, q: Queue, now: int, q': Queue, i: nat) returns (v: nat)
    requires Valid(cfg, q) && q.sizeBytes > cfg.maxQueueBytes && Trimmed(cfg, q, now, q')
    requires i < |q.items| == |q'.items| && Victim(q, now, q', i)
    ensures v < |q.items| && Victim(q, now, q', v)
    ensures forall u | 0 <= u < |q.items| && Victim(q, now, q', u) ::
            TrimCompare(cfg.priority, q.items[u], q.items[v]) <= 0
    ensures q'.sizeBytes + |q.items[v].msg.payload| > cfg.maxQueueBytes
  {
    hide Size, DisposeAll, Heap, TrimCompare;
    var order: seq<nat>, k: nat :| TrimmedBy(cfg, q, now, q', order, k);
    var a := VictimInPrefix(cfg, q, now, q', order, k, i);
    LastVictim(cfg.priority, q.items, now, order, k);
    v := order[k - 1];
    assert v in order;
    assert Victim(q, now, q', v) by {
      var b := VictimInPrefix(cfg, q, now, q', order, k, v);
      assert b == k - 1;
    }
    forall u | 0 <= u < |q.items| && Victim(q, now, q', u)
      ensures TrimCompare(cfg.priority, q.items[u], q.items[v]) <= 0
    {
      LastRanksHighest(cfg, q, now, q', order, k, u);
    }
  }

  lemma LastRanksHighest(cfg: Config, q: Queue, now: int, q': Queue, order: seq<nat>, k: nat, u: nat)
    requires q.sizeBytes > cfg.maxQueueBytes && TrimmedBy(cfg, q, now, q', order, k) && 0 < k
    requires u < |q.items| == |q'.items| && Victim(q, now, q', u) && order[k - 1] < |q.items|
    ensures TrimCompare(cfg.priority, q.items[u], q.items[order[k - 1]]) <= 0
  {
    var c := VictimInPrefix(cfg, q, now, q', order, k, u);
    assert c == k - 1 || TrimCompare(cfg.priority, q.items[order[c]], q.items[order[k - 1]]) <= 0;
  }

  /** Discarding one more item of the order. */
  lemma LastVictim(p: PriorityType, items: seq<Item>, now: int, order: seq<nat>, k: nat)
    requires RankOrder(p, items, now, order) && 0 < k <= |order|
    ensures order[k - 1] < |items|
    ensures Size(TrimmedTo(items, now, order, k)) ==
            Size(TrimmedTo(items, now, order, k - 1)) - |items[order[k - 1]].msg.payload|
  {
    var v := order[k - 1];
    assert v in order;
    var before, after := TrimmedTo(items, now, order, k - 1), TrimmedTo(items, now, order, k);
    assert order[..k] == order[..k - 1] + [v];
    assert v !in order[..k - 1];
    assert before[v] == items[v];
    assert after == before[v := Disposed(items[v])];
    TotalUpdate(before, v, Disposed(items[v]), PayloadSize);
  }
}
