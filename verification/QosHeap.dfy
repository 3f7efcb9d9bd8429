/** A binary heap of items in a sequence, with the sifts of container/heap. */
module QosHeap {
  import opened QosItems

  function Parent(i: nat): nat
    requires i > 0
  {
    (i - 1) / 2
  }

  /** No item of the first n precedes its parent. */
  ghost predicate HeapTo(tb: TieBreaker, q: seq<Item>, n: nat)
    requires n <= |q|
  {
    forall i | 0 < i < n :: !Precedes(tb, q[i], q[Parent(i)])
  }

  ghost predicate Heap(tb: TieBreaker, q: seq<Item>) {
    HeapTo(tb, q, |q|)
  }

  /** The order of a heap reaches from the root to every item. */
  lemma {:induction false} RootFirst(tb: TieBreaker, q: seq<Item>, n: nat, i: nat)
    requires n <= |q| && HeapTo(tb, q, n) && i < n
    ensures !Precedes(tb, q[i], q[0])
    decreases i
  {
    if i > 0 {
      RootFirst(tb, q, n, Parent(i));
      PrecedesTransitive(tb, q[i], q[Parent(i)], q[0]);
    }
  }

  function Swapped(q: seq<Item>, i: nat, j: nat): seq<Item>
    requires i < |q| && j < |q|
  {
    q[i := q[j]][j := q[i]]
  }

  lemma SwapPermutes(q: seq<Item>, i: nat, j: nat)
    requires i < |q| && j < |q|
    ensures multiset(Swapped(q, i, j)) == multiset(q)
  {
  }

  /** A heap but for item j, which may precede its parent; its children do not precede that parent. */
  ghost predicate HeapButUp(tb: TieBreaker, q: seq<Item>, j: nat)
    requires j < |q|
  {
    && (forall i | 0 < i < |q| && i != j :: !Precedes(tb, q[i], q[Parent(i)]))
    && (j > 0 ==> forall i | 0 < i < |q| && Parent(i) == j :: !Precedes(tb, q[i], q[Parent(j)]))
  }

  /** One round of sifting up. */
  lemma UpStep(tb: TieBreaker, q: seq<Item>, j: nat)
    requires 0 < j < |q| && HeapButUp(tb, q, j) && Precedes(tb, q[j], q[Parent(j)])
    ensures HeapButUp(tb, Swapped(q, Parent(j), j), Parent(j))
  {
    var p := Parent(j);
    var r := Swapped(q, p, j);
    forall i | 0 < i < |r| && i != p
      ensures !Precedes(tb, r[i], r[Parent(i)])
    {
      if Parent(i) == p && i != j {
        assert !Precedes(tb, q[i], q[p]);
      }
    }
    if p > 0 {
      forall i | 0 < i < |r| && Parent(i) == p
        ensures !Precedes(tb, r[i], r[Parent(p)])
      {
        assert !Precedes(tb, q[p], q[Parent(p)]);
        if i != j {
          PrecedesTransitive(tb, q[i], q[p], q[Parent(p)]);
        }
      }
    }
  }

  /** A heap of the first n but for item i, which its children may precede; they do not precede its parent. */
  ghost predicate HeapButDown(tb: TieBreaker, q: seq<Item>, n: nat, i: nat)
    requires n <= |q|
  {
    && (forall k | 0 < k < n && Parent(k) != i :: !Precedes(tb, q[k], q[Parent(k)]))
    && (i > 0 ==> forall k | 0 < k < n && Parent(k) == i :: !Precedes(tb, q[k], q[Parent(i)]))
  }

  /** One round of sifting down, to the child c that no other child precedes. */
  lemma DownStep(tb: TieBreaker, q: seq<Item>, n: nat, i: nat, c: nat)
    requires n <= |q| && HeapButDown(tb, q, n, i) && 0 < c < n && Parent(c) == i
    requires Precedes(tb, q[c], q[i])
    requires forall k | 0 < k < n && Parent(k) == i :: !Precedes(tb, q[k], q[c])
    ensures HeapButDown(tb, Swapped(q, i, c), n, c)
  {
    var r := Swapped(q, i, c);
    forall k | 0 < k < n && Parent(k) != c
      ensures !Precedes(tb, r[k], r[Parent(k)])
    {
      if k == i {
        assert !Precedes(tb, q[c], q[Parent(i)]);
      } else if Parent(k) == i && k != c {
        assert !Precedes(tb, q[k], q[c]);
      }
    }
    forall k | 0 < k < n && Parent(k) == c
      ensures !Precedes(tb, r[k], r[Parent(c)])
    {
      assert !Precedes(tb, q[k], q[Parent(k)]);
    }
  }
}
