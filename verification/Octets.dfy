/** Octets as numbers. */
module ByteNumbers {
  lemma ByteOfNat(x: int)
    requires 0 <= x < 256
    ensures (x as bv8) as int == x
  {
  }

  lemma NatOfByte(b: bv8)
    ensures 0 <= b as int < 256
    ensures (b as int) as bv8 == b
  {
  }

  lemma NibbleOfNat(x: int)
    requires 0 <= x < 16
    ensures (x as bv4) as int == x
  {
  }

  lemma NatOfNibble(b: bv4)
    ensures 0 <= b as int < 16
    ensures (b as int) as bv4 == b
  {
  }

  lemma SmallByte(x: int)
    requires 0 <= x < 128
    ensures x as bv8 < 0x80
  {
  }
}

/** Octets as they travel on the connection. */
module Octets {
  type byte = bv8

  datatype Option<+T> = None | Some(value: T)

  /** Concatenation of a list of chunks. */
  function Concat<T>(chunks: seq<seq<T>>): seq<T> {
    if chunks == [] then [] else chunks[0] + Concat(chunks[1..])
  }

  lemma {:induction false} ConcatAppend<T>(a: seq<seq<T>>, b: seq<seq<T>>)
    ensures Concat(a + b) == Concat(a) + Concat(b)
  {
    if a == [] {
      assert a + b == b;
    } else {
      ConcatAppend(a[1..], b);
      var ab := a + b;
      assert ab[0] == a[0];
      assert ab[1..] == a[1..] + b;
      SeqAssociative(a[0], Concat(a[1..]), Concat(b));
    }
  }

  lemma SeqAssociative<T>(a: seq<T>, b: seq<T>, c: seq<T>)
    ensures a + (b + c) == (a + b) + c
  {
  }

  lemma ConcatSnoc<T>(a: seq<seq<T>>, c: seq<T>)
    ensures Concat(a + [c]) == Concat(a) + c
  {
    ConcatAppend(a, [c]);
    assert Concat([c]) == c + Concat<T>([]);
  }
}
