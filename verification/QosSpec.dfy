/** What the operations of the priority queue do to it, as relations between its states before and after. */
module QosSpec {
  import opened Octets
  import opened QosItems
  import opened QosHeap

  /** next is the identity that the next message object will get. */
  datatype Queue = Queue(items: seq<Item>, sizeBytes: int, next: nat)

  /** What every operation keeps: the heap order, the byte count, empty payloads of discarded items. */
  ghost predicate Valid(cfg: Config, q: Queue) {
    && Heap(cfg.tieBreaker, q.items)
    && q.sizeBytes == Size(q.items)
    && (forall x | x in q.items :: x.discard ==> x.msg.payload == [])
    && (forall x | x in q.items :: x.id < q.next)
  }

  // ----- Enqueue -----

  predicate TooLarge(cfg: Config, m: Message) {
    cfg.maxMessageBytes != 0 && |m.payload| > cfg.maxMessageBytes
  }

  /** The message that is queued for a message given: one over the message limit loses its payload. */
  function Admitted(cfg: Config, m: Message): Message {
    if TooLarge(cfg, m) then m.(payload := [], rdr := Some(MESSAGE_TOO_LARGE)) else m
  }

  function NewItem(cfg: Config, q: Queue, m: Message, now: int): Item {
    Item(q.next, m, now + QosExpires(cfg, m.qos), false)
  }

  /** heap.Push of an admitted message. */
  ghost predicate Pushed(cfg: Config, q: Queue, m: Message, now: int, q': Queue) {
    && multiset(q'.items) == multiset(q.items) + multiset{NewItem(cfg, q, m, now)}
    && Heap(cfg.tieBreaker, q'.items)
    && q'.sizeBytes == q.sizeBytes + |m.payload|
    && q'.next == q.next + 1
  }

  // ----- trim -----

  function Disposed(x: Item): Item {
    x.(discard := true, msg := x.msg.(payload := [], rdr := Some(HIGHER_PRIORITY_TOOK_THE_SPOT)))
  }

  /** Not discarded yet, and past its time. */
  predicate Expired(x: Item, now: int) {
    !x.discard && now > x.expires
  }

  predicate Candidate(x: Item, now: int) {
    !x.discard && now <= x.expires
  }

  /** The queue with the items of a set of indices discarded. */
  function DisposeAll(items: seq<Item>, victims: set<nat>): (r: seq<Item>)
    ensures |r| == |items|
    ensures forall i | 0 <= i < |items| :: r[i] == if i in victims then Disposed(items[i]) else items[i]
  {
    seq(|items|, i requires 0 <= i < |items| => if i in victims then Disposed(items[i]) else items[i])
  }

  function ExpiredIn(items: seq<Item>, now: int): set<nat> {
    set i: nat | i < |items| && Expired(items[i], now)
  }

  function Elements(order: seq<nat>): set<nat> {
    set i | i in order
  }

  /** order lists the unexpired items, each once, from the lowest rank to the highest. */
  ghost predicate RankOrder(p: PriorityType, items: seq<Item>, now: int, order: seq<nat>) {
    && (forall i: nat :: i in order <==> i < |items| && Candidate(items[i], now))
    && (forall a, b | 0 <= a < b < |order| :: order[a] != order[b])
    && (forall a, b | 0 <= a < b < |order| && order[a] < |items| && order[b] < |items| ::
          TrimCompare(p, items[order[a]], items[order[b]]) <= 0)
  }

  /** The queue after the expired items and the first k of the order have been discarded. */
  function TrimmedTo(items: seq<Item>, now: int, order: seq<nat>, k: nat): seq<Item>
    requires k <= |order|
  {
    DisposeAll(items, ExpiredIn(items, now) + Elements(order[..k]))
  }

  /** trim: nothing when the queue is within its limit; otherwise all expired items go, and then the shortest prefix of
      the rank order that brings the queue within its limit. */
  ghost predicate TrimmedBy(cfg: Config, q: Queue, now: int, q': Queue, order: seq<nat>, k: nat) {
    if q.sizeBytes <= cfg.maxQueueBytes then q' == q
    else
      && RankOrder(cfg.priority, q.items, now, order)
      && k <= |order|
      && q'.items == TrimmedTo(q.items, now, order, k)
      && q'.next == q.next
      && q'.sizeBytes == q.sizeBytes - Size(q.items) + Size(q'.items)
      && (forall j | 0 <= j < k ::
            q.sizeBytes - Size(q.items) + Size(TrimmedTo(q.items, now, order, j)) > cfg.maxQueueBytes)
      && (k < |order| ==> q'.sizeBytes <= cfg.maxQueueBytes)
  }

  ghost predicate Trimmed(cfg: Config, q: Queue, now: int, q': Queue) {
    exists order, k :: TrimmedBy(cfg, q, now, q', order, k)
  }

  ghost predicate Enqueued(cfg: Config, q: Queue, m: Message, pushTime: int, trimTime: int, q': Queue) {
    exists mid :: Pushed(cfg, q, Admitted(cfg, m), pushTime, mid) && Trimmed(cfg, mid, trimTime, q')
  }

  // ----- Dequeue -----

  ghost predicate Dequeued(cfg: Config, q: Queue, x: Item, q': Queue) {
    && q.items != [] && x == q.items[0]
    && multiset(q.items) == multiset(q'.items) + multiset{x}
    && Heap(cfg.tieBreaker, q'.items)
    && q'.sizeBytes == q.sizeBytes - |x.msg.payload|
    && q'.next == q.next
  }

  // ----- every operation keeps Valid -----

  lemma InMultiset(items: seq<Item>, x: Item)
    ensures x in items <==> x in multiset(items)
  {
  }

  lemma PushKeepsValid(cfg: Config, q: Queue, m: Message, now: int, q': Queue)
    requires Valid(cfg, q) && Pushed(cfg, q, m, now, q')
    ensures Valid(cfg, q')
    ensures forall y :: y in q'.items <==> y in q.items || y == NewItem(cfg, q, m, now)
  {
    var x := NewItem(cfg, q, m, now);
    assert multiset(q'.items) == multiset(q.items + [x]);
    TotalPermuted(q'.items, q.items + [x], PayloadSize);
    TotalAppend(q.items, [x], PayloadSize);
    forall y
      ensures y in q'.items <==> y in q.items || y == x
    {
      InMultiset(q'.items, y);
      InMultiset(q.items, y);
    }
  }

  lemma DequeueKeepsValid(cfg: Config, q: Queue, x: Item, q': Queue)
    requires Valid(cfg, q) && Dequeued(cfg, q, x, q')
    ensures Valid(cfg, q')
    ensures forall y :: y in q.items <==> y in q'.items || y == x
    ensures forall y | y in q.items :: !Precedes(cfg.tieBreaker, y, x)
  {
    assert multiset(q.items) == multiset(q'.items + [x]);
    TotalPermuted(q.items, q'.items + [x], PayloadSize);
    TotalAppend(q'.items, [x], PayloadSize);
    forall y
      ensures y in q.items <==> y in q'.items || y == x
    {
      InMultiset(q'.items, y);
      InMultiset(q.items, y);
    }
    forall y | y in q.items
      ensures !Precedes(cfg.tieBreaker, y, x)
    {
      var i :| 0 <= i < |q.items| && q.items[i] == y;
      RootFirst(cfg.tieBreaker, q.items, |q.items|, i);
    }
  }
}
