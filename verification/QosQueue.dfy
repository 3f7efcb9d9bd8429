/** The priority queue of the quality-of-service handler, as the program runs it. */
module QosQueue {
  import opened Octets
  import opened QosItems
  import opened QosHeap
  import opened QosSpec

  class PriorityQueue {
    const cfg: Config
    var queue: seq<Item>
    var sizeBytes: int
    var next: nat

    constructor (cfg: Config)
      ensures this.cfg == cfg && View() == Queue([], 0, 0) && QosSpec.Valid(cfg, View())
    {
      this.cfg := cfg;
      queue, sizeBytes, next := [], 0, 0;
    }

    function View(): Queue
      reads this
    {
      Queue(queue, sizeBytes, next)
    }

    predicate Less(i: nat, j: nat)
      requires i < |queue| && j < |queue|
      reads this
    {
      Precedes(cfg.tieBreaker, queue[i], queue[j])
    }

    method Swap(i: nat, j: nat)
      requires i < |queue| && j < |queue|
      modifies this`queue
      ensures queue == Swapped(old(queue), i, j)
      ensures multiset(queue) == multiset(old(queue))
    {
      SwapPermutes(queue, i, j);
      queue := queue[i := queue[j]][j := queue[i]];
    }

    /** Moves item j up until it does not precede its parent. */
    method Up(j0: nat)
      requires j0 < |queue| && HeapButUp(cfg.tieBreaker, queue, j0)
      modifies this`queue
      ensures multiset(queue) == multiset(old(queue)) && Heap(cfg.tieBreaker, queue)
    {
      var j: nat := j0;
      while true
        invariant j < |queue| && HeapButUp(cfg.tieBreaker, queue, j)
        invariant multiset(queue) == multiset(old(queue))
        decreases j
      {
        var i: nat := if j == 0 then 0 else (j - 1) / 2;
        if i == j || !Less(j, i) {
          return;
        }
        UpStep(cfg.tieBreaker, queue, j);
        Swap(i, j);
        j := i;
      }
    }

    /** The child of i that the other does not precede. */
    method FirstChild(n: nat, i: nat) returns (j: nat)
      requires 2 * i + 1 < n <= |queue|
      ensures 0 < j < n && Parent(j) == i && i < j
      ensures forall k | 0 < k < n && Parent(k) == i :: !Precedes(cfg.tieBreaker, queue[k], queue[j])
    {
      var j1 := 2 * i + 1;
      j := j1;
      var j2 := j1 + 1;
      if j2 < n && Less(j2, j1) {
        j := j2;
      }
      assert forall k | 0 < k < n && Parent(k) == i :: k == j1 || k == j2;
    }

    /** Moves the first item down, within the first n, until no child precedes it. */
    method Down(n: nat)
      requires n <= |queue| && HeapButDown(cfg.tieBreaker, queue, n, 0)
      modifies this`queue
      ensures |queue| == |old(queue)| && multiset(queue) == multiset(old(queue)) && queue[n..] == old(queue[n..])
      ensures HeapTo(cfg.tieBreaker, queue, n)
    {
      var i: nat := 0;
      while 2 * i + 1 < n
        invariant |queue| == |old(queue)| && HeapButDown(cfg.tieBreaker, queue, n, i)
        invariant multiset(queue) == multiset(old(queue)) && queue[n..] == old(queue[n..])
        decreases n - i
      {
        var j := FirstChild(n, i);
        if !Less(j, i) {
          LeafOrOrdered(cfg.tieBreaker, queue, n, i, j);
          return;
        }
        DownStep(cfg.tieBreaker, queue, n, i, j);
        Swap(i, j);
        i := j;
      }
      assert forall k | 0 < k < n :: Parent(k) != i;
    }

    lemma LeafOrOrdered(tb: TieBreaker, q: seq<Item>, n: nat, i: nat, c: nat)
      requires n <= |q| && HeapButDown(tb, q, n, i) && i < c < n && !Precedes(tb, q[c], q[i])
      requires forall k | 0 < k < n && Parent(k) == i :: !Precedes(tb, q[k], q[c])
      ensures HeapTo(tb, q, n)
    {
      forall k | 0 < k < n
        ensures !Precedes(tb, q[k], q[Parent(k)])
      {
        if Parent(k) == i {
          PrecedesTransitive(tb, q[k], q[c], q[i]);
        }
      }
    }

    /** heap.Push: appends the item of a message and sifts it up. */
    method Push(m: Message, now: int)
      requires Valid(cfg, View())
      modifies this
      ensures Pushed(cfg, old(View()), m, now, View())
    {
      sizeBytes := sizeBytes + |m.payload|;
      ghost var x := NewItem(cfg, old(View()), m, now);
      queue := queue + [Item(next, m, now + QosExpires(cfg, m.qos), false)];
      next := next + 1;
      AppendToHeap(cfg.tieBreaker, old(queue), x);
      Up(|queue| - 1);
    }

    lemma AppendToHeap(tb: TieBreaker, q: seq<Item>, x: Item)
      requires Heap(tb, q)
      ensures HeapButUp(tb, q + [x], |q|)
    {
      forall i | 0 < i < |q|
        ensures !Precedes(tb, (q + [x])[i], (q + [x])[Parent(i)])
      {
      }
    }

    /** Dequeue: heap.Pop of the first item, whose message is returned. */
    method Dequeue() returns (ok: bool, msg: Message, ghost x: Item)
      requires Valid(cfg, View())
      modifies this
      ensures ok == (old(queue) != [])
      ensures !ok ==> View() == old(View())
      ensures ok ==> Dequeued(cfg, old(View()), x, View()) && msg == x.msg
    {
      if |queue| == 0 {
        msg := Message(0, [], None, []);
        return false, msg, Item(0, msg, 0, false);
      }
      var n := |queue| - 1;
      RootToLast();
      var last := queue[n];
      sizeBytes := sizeBytes - |last.msg.payload|;
      assert queue == queue[..n] + [last];
      queue := queue[..n];
      return true, last.msg, last;
    }

    /** The part of heap.Pop before Pop: the first item changes place with the last, which is sifted down. */
    method RootToLast()
      requires queue != [] && Heap(cfg.tieBreaker, queue)
      modifies this`queue
      ensures |queue| == |old(queue)| && multiset(queue) == multiset(old(queue))
      ensures queue[|queue| - 1] == old(queue)[0] && HeapTo(cfg.tieBreaker, queue, |queue| - 1)
    {
      var n := |queue| - 1;
      LastToRoot(cfg.tieBreaker, queue);
      Swap(0, n);
      Down(n);
      assert queue[n..][0] == queue[n];
    }

    lemma LastToRoot(tb: TieBreaker, q: seq<Item>)
      requires q != [] && Heap(tb, q)
      ensures HeapButDown(tb, Swapped(q, 0, |q| - 1), |q| - 1, 0)
    {
    }

    // ----- trim -----

    /** item.dispose, for the item at i. */
    method Dispose(i: nat)
      requires i < |queue|
      modifies this`queue, this`sizeBytes
      ensures queue == old(queue)[i := Disposed(old(queue)[i])]
      ensures sizeBytes == old(sizeBytes) - Size(old(queue)) + Size(queue)
    {
      var x := queue[i];
      TotalUpdate(queue, i, Disposed(x), PayloadSize);
      sizeBytes := sizeBytes - |x.msg.payload|;
      queue := queue[i := Disposed(x)];
    }

    /** The first loop of trim: discards the expired items and collects the others that are not discarded. */
    method DisposeExpired(now: int) returns (cache: seq<nat>)
      modifies this`queue, this`sizeBytes
      ensures queue == DisposeAll(old(queue), ExpiredIn(old(queue), now))
      ensures sizeBytes == old(sizeBytes) - Size(old(queue)) + Size(queue)
      ensures forall i: nat :: i in cache <==> i < |old(queue)| && Candidate(old(queue)[i], now)
      ensures forall a, b | 0 <= a < b < |cache| :: cache[a] != cache[b]
    {
      cache := [];
      var i: nat := 0;
      while i < |queue|
        invariant i <= |queue| == |old(queue)|
        invariant queue == DisposeAll(old(queue), ExpiredBefore(old(queue), now, i))
        invariant sizeBytes == old(sizeBytes) - Size(old(queue)) + Size(queue)
        invariant forall j: nat :: j in cache <==> j < i && Candidate(old(queue)[j], now)
        invariant forall a, b | 0 <= a < b < |cache| :: cache[a] != cache[b]
      {
        assert queue[i] == old(queue)[i];
        if !queue[i].discard {
          if now > queue[i].expires {
            Dispose(i);
          } else {
            cache := cache + [i];
          }
        }
        i := i + 1;
      }
      assert ExpiredBefore(old(queue), now, i) == ExpiredIn(old(queue), now);
    }

    function ExpiredBefore(items: seq<Item>, now: int, n: nat): set<nat> {
      set i: nat | i < n && i < |items| && Expired(items[i], now)
    }

    /** The last loop of trim: discards from the lowest rank on until the queue is within its limit. */
    method DisposeLowest(ghost items: seq<Item>, now: int, order: seq<nat>) returns (ghost k: nat)
      requires RankOrder(cfg.priority, items, now, order)
      requires queue == DisposeAll(items, ExpiredIn(items, now))
      modifies this`queue, this`sizeBytes
      ensures k <= |order| && queue == TrimmedTo(items, now, order, k)
      ensures sizeBytes == old(sizeBytes) - Size(old(queue)) + Size(queue)
      ensures forall j | 0 <= j < k ::
              old(sizeBytes) - Size(old(queue)) + Size(TrimmedTo(items, now, order, j)) > cfg.maxQueueBytes
      ensures k < |order| ==> sizeBytes <= cfg.maxQueueBytes
    {
      k := 0;
      var i: nat := 0;
      assert order[..0] == [];
      assert queue == TrimmedTo(items, now, order, 0);
      while i < |order| && sizeBytes > cfg.maxQueueBytes
        invariant i == k <= |order| && queue == TrimmedTo(items, now, order, k)
        invariant sizeBytes == old(sizeBytes) - Size(old(queue)) + Size(queue)
        invariant forall j | 0 <= j < k ::
                  old(sizeBytes) - Size(old(queue)) + Size(TrimmedTo(items, now, order, j)) > cfg.maxQueueBytes
      {
        TrimmedOneMore(cfg.priority, items, now, order, k);
        Dispose(order[i]);
        i, k := i + 1, k + 1;
      }
    }

    lemma TrimmedOneMore(p: PriorityType, items: seq<Item>, now: int, order: seq<nat>, k: nat)
      requires RankOrder(p, items, now, order) && k < |order|
      ensures order[k] < |items|
      ensures var before := TrimmedTo(items, now, order, k);
              TrimmedTo(items, now, order, k + 1) == before[order[k] := Disposed(before[order[k]])]
    {
      var v := order[k];
      assert v in order;
      assert order[..k + 1] == order[..k] + [v];
      assert v !in order[..k];
    }

    lemma ExpiredAreNotCandidates(items: seq<Item>, now: int)
      ensures var left := DisposeAll(items, ExpiredIn(items, now));
              forall i | 0 <= i < |items| :: Candidate(left[i], now) <==> Candidate(items[i], now)
    {
    }

    /** Ranking what is left after the expired items are discarded is ranking the unexpired items. */
    lemma RankOrderUndisposed(p: PriorityType, items: seq<Item>, now: int, order: seq<nat>)
      requires RankOrder(p, DisposeAll(items, ExpiredIn(items, now)), now, order)
      ensures RankOrder(p, items, now, order)
    {
      var left := DisposeAll(items, ExpiredIn(items, now));
      forall a, b | 0 <= a < b < |order| && order[a] < |items| && order[b] < |items|
        ensures TrimCompare(p, items[order[a]], items[order[b]]) <= 0
      {
        assert TrimCompare(p, left[order[a]], left[order[b]]) <= 0;
      }
    }

    /** trim; order and k tell what was trimmed. */
    method Trim(now: int) returns (ghost order: seq<nat>, ghost k: nat)
      modifies this`queue, this`sizeBytes
      ensures TrimmedBy(cfg, old(View()), now, View(), order, k)
    {
      hide DisposeAll, Size;
      order, k := [], 0;
      if sizeBytes <= cfg.maxQueueBytes {
        return;
      }
      var cache := DisposeExpired(now);
      ExpiredAreNotCandidates(old(queue), now);
      var sorted := SortByRank(cfg.priority, queue, now, cache);
      RankOrderUndisposed(cfg.priority, old(queue), now, sorted);
      k := DisposeLowest(old(queue), now, sorted);
      order := sorted;
    }

    /** Enqueue; returns whether the message was too large. */
    method Enqueue(m: Message, pushTime: int, trimTime: int) returns (tooLarge: bool)
      requires Valid(cfg, View())
      modifies this
      ensures tooLarge == TooLarge(cfg, m)
      ensures Enqueued(cfg, old(View()), m, pushTime, trimTime, View())
    {
      hide Pushed, TrimmedBy;
      tooLarge := cfg.maxMessageBytes != 0 && |m.payload| > cfg.maxMessageBytes;
      var admitted := if tooLarge then m.(payload := [], rdr := Some(MESSAGE_TOO_LARGE)) else m;
      Push(admitted, pushTime);
      ghost var mid := View();
      ghost var order, k := Trim(trimTime);
      assert Trimmed(cfg, mid, trimTime, View());
    }
  }

  /** slices.SortFunc by the rank of the items, as an insertion sort; where ranks are equal any order may come out. */
  method SortByRank(p: PriorityType, items: seq<Item>, now: int, cache: seq<nat>) returns (order: seq<nat>)
    requires forall i: nat :: i in cache <==> i < |items| && Candidate(items[i], now)
    requires forall a, b | 0 <= a < b < |cache| :: cache[a] != cache[b]
    ensures RankOrder(p, items, now, order)
  {
    hide TrimCompare;
    order := [];
    for n := 0 to |cache|
      invariant forall i :: i in order <==> i in cache[..n]
      invariant Distinct(order)
      invariant Ascending(p, items, order)
    {
      var c := cache[n];
      assert c in cache && c !in cache[..n];
      var at := |order|;
      while at > 0 && TrimCompare(p, items[c], items[order[at - 1]]) < 0
        invariant 0 <= at <= |order|
        invariant forall b | at <= b < |order| :: order[b] < |items| && TrimCompare(p, items[c], items[order[b]]) < 0
      {
        at := at - 1;
      }
      InsertAscending(p, items, order, c, at);
      InsertDistinct(order, c, at);
      order := order[..at] + [c] + order[at..];
      assert cache[..n + 1] == cache[..n] + [c];
    }
    assert cache[..|cache|] == cache;
  }

  ghost predicate Ascending(p: PriorityType, items: seq<Item>, order: seq<nat>) {
    && (forall a | 0 <= a < |order| :: order[a] < |items|)
    && (forall a, b | 0 <= a < b < |order| && order[a] < |items| && order[b] < |items| ::
          TrimCompare(p, items[order[a]], items[order[b]]) <= 0)
  }

  predicate Distinct(order: seq<nat>) {
    forall a, b | 0 <= a < b < |order| :: order[a] != order[b]
  }

  lemma InsertDistinct(order: seq<nat>, c: nat, at: nat)
    requires Distinct(order) && c !in order && at <= |order|
    ensures Distinct(order[..at] + [c] + order[at..])
    ensures forall i :: i in order[..at] + [c] + order[at..] <==> i in order || i == c
  {
    assert order == order[..at] + order[at..];
  }

  lemma InsertAscending(p: PriorityType, items: seq<Item>, order: seq<nat>, c: nat, at: nat)
    requires Ascending(p, items, order) && c < |items| && at <= |order|
    requires at > 0 ==> TrimCompare(p, items[c], items[order[at - 1]]) >= 0
    requires forall b | at <= b < |order| :: TrimCompare(p, items[c], items[order[b]]) < 0
    ensures Ascending(p, items, order[..at] + [c] + order[at..])
  {
    var r := order[..at] + [c] + order[at..];
    forall a, b | 0 <= a < b < |r| && r[a] < |items| && r[b] < |items|
      ensures TrimCompare(p, items[r[a]], items[r[b]]) <= 0
    {
      if b == at && a < at - 1 {
        assert TrimCompare(p, items[order[a]], items[order[at - 1]]) <= 0;
      }
    }
  }
}
