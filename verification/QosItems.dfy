/** Messages waiting for delivery, their order, and sums over them. */
module QosItems {
  import opened Octets

  /** A message: what the queue looks at, and every other field. */
  datatype Message = Message(qos: int, payload: seq<byte>, rdr: Option<int>, rest: seq<byte>)

  /** An item of the queue. id is the identity of the message object that the item points to. */
  datatype Item = Item(id: nat, msg: Message, expires: int, discard: bool)

  const MESSAGE_TOO_LARGE := 4
  const HIGHER_PRIORITY_TOOK_THE_SPOT := 102

  datatype Level = Low | Medium | High | Critical

  /** Which of two messages of the same quality of service goes first. */
  datatype TieBreaker = PriorityNewestMsg | PriorityOldestMsg

  datatype PriorityType = UnknownType | OldestType | NewestType

  /** level stands for QualityOfService.Level. */
  datatype Config = Config(
    priority: PriorityType,
    tieBreaker: TieBreaker,
    maxQueueBytes: int,
    maxMessageBytes: int,
    lowExpires: int,
    mediumExpires: int,
    highExpires: int,
    criticalExpires: int,
    level: int -> Level)

  function QosExpires(cfg: Config, qos: int): int {
    match cfg.level(qos)
    case Low => cfg.lowExpires
    case Medium => cfg.mediumExpires
    case High => cfg.highExpires
    case Critical => cfg.criticalExpires
  }

  // ----- the order of delivery -----

  predicate Breaks(tb: TieBreaker, a: Item, b: Item) {
    match tb
    case PriorityNewestMsg => a.expires > b.expires
    case PriorityOldestMsg => a.expires < b.expires
  }

  /** Less: a is delivered before b. */
  predicate Precedes(tb: TieBreaker, a: Item, b: Item) {
    if a.msg.qos != b.msg.qos then a.msg.qos > b.msg.qos else Breaks(tb, a, b)
  }

  /** The order is a strict weak order: what does not precede is transitive. */
  lemma PrecedesTransitive(tb: TieBreaker, a: Item, b: Item, c: Item)
    requires !Precedes(tb, a, b) && !Precedes(tb, b, c)
    ensures !Precedes(tb, a, c)
  {
  }

  // ----- the order of trimming -----

  function Compare(x: int, y: int): int {
    if x < y then -1 else if x > y then 1 else 0
  }

  /** The comparison that trim sorts by, least first. */
  function TrimCompare(p: PriorityType, a: Item, b: Item): int {
    if a.msg.qos < b.msg.qos then -1
    else if a.msg.qos > b.msg.qos then 1
    else if p == NewestType then Compare(a.expires, b.expires)
    else Compare(b.expires, a.expires)
  }

  /** The settings that Priority makes together. */
  predicate Agree(p: PriorityType, tb: TieBreaker) {
    p == NewestType <==> tb == PriorityNewestMsg
  }

  /** Trimming goes against the order of delivery, for all items, exactly when the two settings agree. */
  lemma TrimReversesDelivery(p: PriorityType, tb: TieBreaker)
    ensures Agree(p, tb) <==> forall a, b :: TrimCompare(p, a, b) < 0 <==> Precedes(tb, b, a)
  {
    if !Agree(p, tb) {
      var m := Message(0, [], None, []);
      var a, b := Item(0, m, 0, false), Item(1, m, 1, false);
      assert TrimCompare(p, a, b) < 0 <==> !Precedes(tb, b, a);
    }
  }

  // ----- sums over items -----

  function Total(items: seq<Item>, f: Item -> int): int {
    if items == [] then 0 else f(items[0]) + Total(items[1..], f)
  }

  lemma {:induction false} TotalAppend(a: seq<Item>, b: seq<Item>, f: Item -> int)
    ensures Total(a + b, f) == Total(a, f) + Total(b, f)
  {
    if a == [] {
      assert a + b == b;
    } else {
      TotalAppend(a[1..], b, f);
      assert (a + b)[0] == a[0] && (a + b)[1..] == a[1..] + b;
    }
  }

  lemma TotalSplit(items: seq<Item>, i: nat, f: Item -> int)
    requires i < |items|
    ensures Total(items, f) == Total(items[..i], f) + f(items[i]) + Total(items[i + 1..], f)
  {
    TotalAppend(items[..i], items[i..], f);
    assert items == items[..i] + items[i..];
  }

  lemma TotalUpdate(items: seq<Item>, i: nat, x: Item, f: Item -> int)
    requires i < |items|
    ensures Total(items[i := x], f) == Total(items, f) - f(items[i]) + f(x)
  {
    TotalSplit(items, i, f);
    TotalSplit(items[i := x], i, f);
    assert items[i := x][..i] == items[..i] && items[i := x][i + 1..] == items[i + 1..];
  }

  lemma MultisetSplit(items: seq<Item>, i: nat)
    requires i < |items|
    ensures multiset(items) == multiset(items[..i] + items[i + 1..]) + multiset{items[i]}
  {
    assert items == items[..i] + [items[i]] + items[i + 1..];
  }

  lemma PermutedTail(a: seq<Item>, b: seq<Item>) returns (i: nat)
    requires multiset(a) == multiset(b) && a != []
    ensures i < |b| && b[i] == a[0] && multiset(a[1..]) == multiset(b[..i] + b[i + 1..])
  {
    assert a[0] in multiset(b);
    i :| 0 <= i < |b| && b[i] == a[0];
    MultisetSplit(a, 0);
    MultisetSplit(b, i);
    assert a[..0] + a[1..] == a[1..];
    assert multiset(a[1..]) == multiset(a) - multiset{a[0]};
    assert multiset(b[..i] + b[i + 1..]) == multiset(b) - multiset{a[0]};
  }

  /** A sum does not depend on the order of the items. */
  lemma {:induction false} TotalPermuted(a: seq<Item>, b: seq<Item>, f: Item -> int)
    requires multiset(a) == multiset(b)
    ensures Total(a, f) == Total(b, f)
    decreases a
  {
    assert |a| == |multiset(a)| == |b|;
    if a != [] {
      var i := PermutedTail(a, b);
      TotalPermuted(a[1..], b[..i] + b[i + 1..], f);
      TotalSplit(b, i, f);
      TotalAppend(b[..i], b[i + 1..], f);
    }
  }

  function PayloadSize(x: Item): int {
    |x.msg.payload|
  }

  /** The octets of payload in the queue. */
  function Size(items: seq<Item>): int {
    Total(items, PayloadSize)
  }

  function PointsTo(id: nat): Item -> int {
    (x: Item) => if x.id == id then 1 else 0
  }

  /** How many items point to message object id. */
  function Count(items: seq<Item>, id: nat): int {
    Total(items, PointsTo(id))
  }
}
