/** The two helpers of permessage-deflate (RFC 7692): the four-byte trimmer and the sliding window. */
module Compression {
  import opened Octets
  import opened Masking

  function Last<T>(s: seq<T>, n: nat): (r: seq<T>)
    ensures |r| == if |s| < n then |s| else n
  {
    if |s| < n then s else s[|s| - n..]
  }

  function AllButLast<T>(s: seq<T>, n: nat): seq<T> {
    if |s| < n then [] else s[..|s| - n]
  }

  /** The inflater gets back every octet the deflater made: a stream that ends in the tail is restored by appending the
      tail to what the trimmer lets through. */
  lemma TailRestores(s: seq<byte>, tail: seq<byte>)
    requires |tail| == 4 && |s| >= 4 && s[|s| - 4..] == tail
    ensures AllButLast(s, 4) + tail == s
  {
  }

  /** Holds back the last four octets written. */
  class TrimWriter {
    const tail: array<byte>
    var n: nat
    ghost var written: seq<byte>   // every octet given since the last reset
    ghost var passed: seq<byte>    // every octet passed on since the last reset

    ghost predicate Valid()
      reads this, tail
    {
      && tail.Length == 4
      && n == (if |written| < 4 then |written| else 4)
      && passed + tail[..n] == written
    }

    constructor ()
      ensures Valid() && written == [] && fresh(tail)
    {
      tail := new byte[4];
      n, written, passed := 0, [], [];
    }

    method Reset()
      requires Valid()
      modifies this
      ensures Valid() && written == []
    {
      n, written, passed := 0, [], [];
    }

    /** All but the last four octets have been passed on; those four are held. */
    lemma Holds()
      requires Valid()
      ensures passed == AllButLast(written, 4) && tail[..n] == Last(written, 4)
    {
    }

    /** Gives the pieces to pass on, in order. */
    method Write(p: seq<byte>) returns (pieces: seq<seq<byte>>)
      requires Valid()
      modifies this, tail
      ensures Valid() && written == old(written) + p
      ensures passed == old(passed) + Concat(pieces)
      ensures |pieces| <= 2
    {
      hide Concat;
      var extra := n + |p| - 4;
      ghost var held := tail[..n];
      written := written + p;
      if extra <= 0 {
        AppendTail(p);
        pieces := [];
        ConcatNothing<byte>();
        assert passed + [] == passed;
        SeqAssociative(passed, held, p);
        return;
      }
      if extra > n {
        extra := n;
      }
      var first := Shift(extra);
      ghost var kept := tail[..n];
      pieces := if extra > 0 then [first] else [];
      ConcatMaybe(first, pieces);
      if |p| <= 4 {
        AppendTail(p);
        Regroup(passed, first, kept, p);
        passed := passed + first;
        return;
      }
      var rest, last := p[..|p| - 4], p[|p| - 4..];
      AppendTail(last);
      ConcatSnoc(pieces, rest);
      pieces := pieces + [rest];
      assert kept == [];
      PassOn(passed, first, rest, last);
      passed := passed + (first + rest);
    }

    /** Takes the first octets of the tail out of it. */
    method Shift(extra: nat) returns (first: seq<byte>)
      requires tail.Length == 4 && extra <= n <= 4
      modifies this`n, tail
      ensures n == old(n) - extra && |first| == extra && first + tail[..n] == old(tail[..n])
    {
      first := tail[..extra];
      Store(tail, 0, tail[extra..n]);
      n := n - extra;
    }

    method AppendTail(p: seq<byte>)
      requires tail.Length == 4 && n + |p| <= 4
      modifies this`n, tail
      ensures n == old(n) + |p| && tail[..n] == old(tail[..n]) + p
    {
      Store(tail, n, p);
      n := n + |p|;
    }
  }

  lemma ConcatNothing<T>()
    ensures Concat<T>([]) == []
  {
  }

  lemma ConcatMaybe<T>(a: seq<T>, pieces: seq<seq<T>>)
    requires pieces == [a] || (a == [] && pieces == [])
    ensures Concat(pieces) == a
  {
    if pieces == [a] {
      assert pieces[1..] == [] && a + [] == a;
    }
  }

  /** All that was held is passed on, and then all but the last of what is new. */
  lemma PassOn<T>(passed: seq<T>, held: seq<T>, rest: seq<T>, last: seq<T>)
    ensures (passed + (held + rest)) + ([] + last) == (passed + (held + [])) + (rest + last)
  {
  }

  lemma Regroup<T>(a: seq<T>, b: seq<T>, c: seq<T>, d: seq<T>)
    ensures (a + b) + (c + d) == (a + (b + c)) + d
  {
  }

  lemma LastOfLast<T>(s: seq<T>, p: seq<T>, n: nat)
    ensures Last(Last(s, n) + p, n) == Last(s + p, n)
  {
    if |p| < n && |s| >= n {
      assert s + p == s[..|s| - n] + (s[|s| - n..] + p);
    }
  }

  /** The three cases of writing p behind a window. */
  lemma LastParts<T>(window: seq<T>, p: seq<T>, n: nat)
    requires |window| <= n
    ensures |p| >= n ==> Last(window + p, n) == p[|p| - n..]
    ensures |p| < n < |window| + |p| ==> Last(window + p, n) == window[|window| + |p| - n..] + p
    ensures |window| + |p| <= n ==> Last(window + p, n) == window + p
  {
  }

  /** The last octets of everything written, in a buffer of fixed capacity. */
  class SlidingWindow {
    const buf: array<byte>
    var n: nat
    ghost var written: seq<byte>

    ghost predicate Valid()
      reads this, buf
    {
      && n <= buf.Length
      && buf[..n] == Last(written, buf.Length)
    }

    constructor (capacity: nat)
      ensures Valid() && written == [] && fresh(buf) && buf.Length == capacity
    {
      buf := new byte[capacity];
      n, written := 0, [];
    }

    method Write(p: seq<byte>)
      requires Valid()
      modifies this, buf
      ensures Valid() && written == old(written) + p
      ensures buf[..n] == Last(old(buf[..n]) + p, buf.Length)
    {
      hide Last;
      LastOfLast(written, p, buf.Length);
      ghost var window := buf[..n];
      written := written + p;
      LastParts(window, p, buf.Length);
      if |p| >= buf.Length {
        n := buf.Length;
        Store(buf, 0, p[|p| - buf.Length..]);
        assert buf[..n] == p[|p| - buf.Length..];
        return;
      }
      var left := buf.Length - n;
      if left < |p| {
        ShiftDown(|p| - left);
      }
      Append(p);
    }

    /** Drops the first k octets. */
    method ShiftDown(k: nat)
      requires k <= n <= buf.Length
      modifies this`n, buf
      ensures n == old(n) - k && buf[..n] == old(buf[k..n])
    {
      Store(buf, 0, buf[k..n]);
      n := n - k;
    }

    method Append(p: seq<byte>)
      requires n + |p| <= buf.Length
      modifies this`n, buf
      ensures n == old(n) + |p| && buf[..n] == old(buf[..n]) + p
    {
      Store(buf, n, p);
      n := n + |p|;
    }
  }
}
