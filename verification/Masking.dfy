/** The masking algorithm of section 5.3 of RFC 6455, and the unrolled routine that implements it. */
module Masking {
  import opened Octets

  /** Octet j of a masking key; keys are held in little endian order. */
  function Octet0(key: bv32): byte { (key & 0xff) as byte }
  function Octet1(key: bv32): byte { ((key >> 8) & 0xff) as byte }
  function Octet2(key: bv32): byte { ((key >> 16) & 0xff) as byte }
  function Octet3(key: bv32): byte { ((key >> 24) & 0xff) as byte }

  /** The four octets of a masking key, in the order in which they go on the wire. */
  function KeyOctets(key: bv32): (ks: seq<byte>)
    ensures |ks| == 4
  {
    [Octet0(key), Octet1(key), Octet2(key), Octet3(key)]
  }

  /** Octet i is XORed with octet i mod 4 of the given four. */
  function XorCyclic(ks: seq<byte>, p: seq<byte>): (r: seq<byte>)
    requires |ks| == 4
    ensures |r| == |p|
  {
    seq(|p|, i requires 0 <= i < |p| => p[i] ^ ks[i % 4])
  }

  /** The octet formula of the RFC: octet i of the payload is XORed with key octet i mod 4. */
  function Masked(key: bv32, p: seq<byte>): (r: seq<byte>)
    ensures |r| == |p|
  {
    XorCyclic(KeyOctets(key), p)
  }

  /** One rotation to the right by an octet. */
  function Rotated(key: bv32): bv32 {
    (key >> 8) | (key << 24)
  }

  /** The key that continues the masking after n octets. */
  function KeyAfter(key: bv32, n: nat): bv32 {
    if n == 0 then key else Rotated(KeyAfter(key, n - 1))
  }

  function Rotate<T>(ks: seq<T>, n: nat): (r: seq<T>)
    requires |ks| == 4
    ensures |r| == 4
    ensures forall j | 0 <= j < 4 :: r[j] == ks[(n + j) % 4]
  {
    ks[n % 4..] + ks[..n % 4]
  }

  lemma RotatedOctets(key: bv32)
    ensures KeyOctets(Rotated(key)) == Rotate(KeyOctets(key), 1)
  {
  }

  lemma FourRotations(key: bv32)
    ensures Rotated(Rotated(Rotated(Rotated(key)))) == key
  {
  }

  /** Whole words leave the key as it was. */
  lemma {:induction false} KeyAfterWords(key: bv32, n: nat)
    requires n % 4 == 0
    ensures KeyAfter(key, n) == key
  {
    if n > 0 {
      KeyAfterWords(key, n - 4);
      assert KeyAfter(key, n - 3) == Rotated(key);
      assert KeyAfter(key, n - 2) == Rotated(Rotated(key));
      assert KeyAfter(key, n - 1) == Rotated(Rotated(Rotated(key)));
      FourRotations(key);
    }
  }

  lemma RotateZero<T>(ks: seq<T>)
    requires |ks| == 4
    ensures Rotate(ks, 0) == ks
  {
  }

  lemma RotateStep<T>(ks: seq<T>, m: nat)
    requires |ks| == 4
    ensures Rotate(Rotate(ks, m), 1) == Rotate(ks, m + 1)
  {
    var k := m % 4;
    assert (m + 1) % 4 == if k == 3 then 0 else k + 1;
    assert Rotate(ks, m) == [ks[k]] + (ks[k + 1..] + ks[..k]);
    assert Rotate(Rotate(ks, m), 1) == ks[k + 1..] + ks[..k] + [ks[k]];
    assert ks[..k] + [ks[k]] == ks[..k + 1];
  }

  lemma {:induction false} KeyAfterOctets(key: bv32, n: nat)
    ensures KeyOctets(KeyAfter(key, n)) == Rotate(KeyOctets(key), n)
  {
    hide KeyOctets, Rotated, Rotate;
    if n == 0 {
      RotateZero(KeyOctets(key));
    } else {
      KeyAfterOctets(key, n - 1);
      var before := KeyAfter(key, n - 1);
      RotatedOctets(before);
      RotateStep(KeyOctets(key), n - 1);
    }
  }

  lemma {:induction false} KeyAfterSum(key: bv32, m: nat, n: nat)
    ensures KeyAfter(KeyAfter(key, m), n) == KeyAfter(key, m + n)
  {
    if n > 0 {
      KeyAfterSum(key, m, n - 1);
      assert m + (n - 1) + 1 == m + n;
    }
  }

  lemma XorCyclicAppend(ks: seq<byte>, a: seq<byte>, b: seq<byte>)
    requires |ks| == 4
    ensures XorCyclic(ks, a + b) == XorCyclic(ks, a) + XorCyclic(Rotate(ks, |a|), b)
  {
    hide Rotate;
    forall i | 0 <= i < |b|
      ensures XorCyclic(ks, a + b)[|a| + i] == XorCyclic(Rotate(ks, |a|), b)[i]
    {
      ModShift(|a|, i);
      assert Rotate(ks, |a|)[i % 4] == ks[(|a| + i) % 4];
    }
  }

  lemma ModShift(m: nat, i: nat)
    ensures (m + i % 4) % 4 == (m + i) % 4
  {
  }

  /** Masking a then b, with the key that the first call returned, is masking a + b. */
  lemma MaskedAppend(key: bv32, a: seq<byte>, b: seq<byte>)
    ensures Masked(key, a + b) == Masked(key, a) + Masked(KeyAfter(key, |a|), b)
  {
    KeyAfterOctets(key, |a|);
    XorCyclicAppend(KeyOctets(key), a, b);
  }

  lemma XorTwice(x: byte, k: byte)
    ensures (x ^ k) ^ k == x
  {
  }

  /** Masking twice with the same key is the identity. */
  lemma MaskedTwice(key: bv32, p: seq<byte>)
    ensures Masked(key, Masked(key, p)) == p
  {
    forall i | 0 <= i < |p|
      ensures Masked(key, Masked(key, p))[i] == p[i]
    {
      XorTwice(p[i], KeyOctets(key)[i % 4]);
    }
  }

  // ----- the unrolled routine -----

  function LittleEndian32(b0: byte, b1: byte, b2: byte, b3: byte): bv32 {
    (b0 as bv32) | ((b1 as bv32) << 8) | ((b2 as bv32) << 16) | ((b3 as bv32) << 24)
  }

  function LittleEndian64(lo: bv32, hi: bv32): bv64 {
    (lo as bv64) | ((hi as bv64) << 32)
  }

  function LowHalf(v: bv64): bv32 {
    (v & 0xffff_ffff) as bv32
  }

  function HighHalf(v: bv64): bv32 {
    (v >> 32) as bv32
  }

  lemma HalvesXor(lo: bv32, hi: bv32, key: bv32)
    ensures LowHalf(LittleEndian64(lo, hi) ^ LittleEndian64(key, key)) == lo ^ key
    ensures HighHalf(LittleEndian64(lo, hi) ^ LittleEndian64(key, key)) == hi ^ key
  {
  }

  lemma OctetsOfWord(b0: byte, b1: byte, b2: byte, b3: byte)
    ensures KeyOctets(LittleEndian32(b0, b1, b2, b3)) == [b0, b1, b2, b3]
  {
  }

  lemma OctetsOfXor(x: bv32, y: bv32)
    ensures Octet0(x ^ y) == Octet0(x) ^ Octet0(y)
    ensures Octet1(x ^ y) == Octet1(x) ^ Octet1(y)
    ensures Octet2(x ^ y) == Octet2(x) ^ Octet2(y)
    ensures Octet3(x ^ y) == Octet3(x) ^ Octet3(y)
  {
  }

  lemma XorCyclicFour(ks: seq<byte>, p: seq<byte>)
    requires |ks| == |p| == 4
    ensures XorCyclic(ks, p) == [p[0] ^ ks[0], p[1] ^ ks[1], p[2] ^ ks[2], p[3] ^ ks[3]]
  {
    hide XorCyclic;
    XorCyclicAt(ks, p, 0);
    XorCyclicAt(ks, p, 1);
    XorCyclicAt(ks, p, 2);
    XorCyclicAt(ks, p, 3);
    FourElements(XorCyclic(ks, p), p[0] ^ ks[0], p[1] ^ ks[1], p[2] ^ ks[2], p[3] ^ ks[3]);
  }

  lemma XorCyclicAt(ks: seq<byte>, p: seq<byte>, i: nat)
    requires |ks| == 4 && i < |p|
    ensures XorCyclic(ks, p)[i] == p[i] ^ ks[i % 4]
  {
  }

  lemma FourElements<T>(s: seq<T>, a: T, b: T, c: T, d: T)
    requires |s| == 4 && s[0] == a && s[1] == b && s[2] == c && s[3] == d
    ensures s == [a, b, c, d]
  {
  }

  lemma KeyOctetsXor(x: bv32, key: bv32)
    ensures KeyOctets(x ^ key) == XorCyclic(KeyOctets(key), KeyOctets(x))
  {
    hide Octet0, Octet1, Octet2, Octet3, XorCyclic;
    OctetsOfXor(x, key);
    XorCyclicFour(KeyOctets(key), KeyOctets(x));
  }

  /** Little endian word of four octets. */
  function Word32(b: seq<byte>): (w: bv32)
    requires |b| == 4
    ensures KeyOctets(w) == b
  {
    OctetsOfWord(b[0], b[1], b[2], b[3]);
    LittleEndian32(b[0], b[1], b[2], b[3])
  }

  /** Load, XOR with the doubled key and store, for a 64-bit word given by its two halves. */
  lemma XorEight(lo: bv32, hi: bv32, key: bv32)
    ensures var v := LittleEndian64(lo, hi) ^ LittleEndian64(key, key);
            KeyOctets(LowHalf(v)) + KeyOctets(HighHalf(v)) == XorCyclic(KeyOctets(key), KeyOctets(lo) + KeyOctets(hi))
  {
    hide KeyOctets, XorCyclic, LittleEndian64, LowHalf, HighHalf;
    HalvesXor(lo, hi, key);
    KeyOctetsXor(lo, key);
    KeyOctetsXor(hi, key);
    XorCyclicWords(KeyOctets(key), KeyOctets(lo), KeyOctets(hi));
  }

  lemma XorCyclicWords(ks: seq<byte>, a: seq<byte>, b: seq<byte>)
    requires |ks| == |a| == |b| == 4
    ensures XorCyclic(ks, a + b) == XorCyclic(ks, a) + XorCyclic(ks, b)
  {
  }

  /** after is before with the octets of [lo, hi) masked, counting from lo, and nothing else changed. */
  ghost predicate MaskedRange(before: seq<byte>, after: seq<byte>, key: bv32, lo: nat, hi: nat)
  {
    && lo <= hi <= |before|
    && after == before[..lo] + Masked(key, before[lo..hi]) + before[hi..]
  }

  lemma MaskedRangeJoin(a: seq<byte>, b: seq<byte>, c: seq<byte>, key: bv32, lo: nat, mid: nat, hi: nat)
    requires lo <= mid && (mid - lo) % 4 == 0
    requires MaskedRange(a, b, key, lo, mid)
    requires MaskedRange(b, c, key, mid, hi)
    ensures MaskedRange(a, c, key, lo, hi)
  {
    hide Masked, Rotated;
    KeyAfterWords(key, mid - lo);
    MaskedAppend(key, a[lo..mid], a[mid..hi]);
    assert a[lo..hi] == a[lo..mid] + a[mid..hi];
    assert b[mid..hi] == a[mid..hi];
  }

  /** XORs one 32-bit word in place. */
  method XorWord32(b: array<byte>, off: nat, key: bv32)
    requires off + 4 <= b.Length
    modifies b
    ensures MaskedRange(old(b[..]), b[..], key, off, off + 4)
  {
    hide KeyOctets, XorCyclic, LittleEndian32;
    var v := Word32(b[off..off + 4]);
    KeyOctetsXor(v, key);
    Store(b, off, KeyOctets(v ^ key));
  }

  /** XORs one 64-bit word in place with the doubled key. */
  method XorWord64(b: array<byte>, off: nat, key: bv32)
    requires off + 8 <= b.Length
    modifies b
    ensures MaskedRange(old(b[..]), b[..], key, off, off + 8)
  {
    hide KeyOctets, XorCyclic, LittleEndian32, LittleEndian64, LowHalf, HighHalf;
    var lo, hi := Word32(b[off..off + 4]), Word32(b[off + 4..off + 8]);
    var v := LittleEndian64(lo, hi) ^ LittleEndian64(key, key);
    XorEight(lo, hi, key);
    assert b[off..off + 4] + b[off + 4..off + 8] == b[off..off + 8];
    Store(b, off, KeyOctets(LowHalf(v)) + KeyOctets(HighHalf(v)));
  }

  method Store(b: array<byte>, off: nat, word: seq<byte>)
    requires off + |word| <= b.Length
    modifies b
    ensures b[..] == old(b[..off]) + word + old(b[off + |word|..])
  {
    forall i | 0 <= i < |word| {
      b[off + i] := word[i];
    }
  }

  // The unrolled bodies of the source: 2, 4, 8 and 16 word operations in increasing address order.

  method Xor16(b: array<byte>, off: nat, key: bv32)
    requires off + 16 <= b.Length
    modifies b
    ensures MaskedRange(old(b[..]), b[..], key, off, off + 16)
  {
    hide Masked;
    ghost var before := b[..];
    XorWord64(b, off, key);
    ghost var middle := b[..];
    XorWord64(b, off + 8, key);
    MaskedRangeJoin(before, middle, b[..], key, off, off + 8, off + 16);
  }

  method Xor32(b: array<byte>, off: nat, key: bv32)
    requires off + 32 <= b.Length
    modifies b
    ensures MaskedRange(old(b[..]), b[..], key, off, off + 32)
  {
    hide Masked;
    ghost var before := b[..];
    Xor16(b, off, key);
    ghost var middle := b[..];
    Xor16(b, off + 16, key);
    MaskedRangeJoin(before, middle, b[..], key, off, off + 16, off + 32);
  }

  method Xor64(b: array<byte>, off: nat, key: bv32)
    requires off + 64 <= b.Length
    modifies b
    ensures MaskedRange(old(b[..]), b[..], key, off, off + 64)
  {
    hide Masked;
    ghost var before := b[..];
    Xor32(b, off, key);
    ghost var middle := b[..];
    Xor32(b, off + 32, key);
    MaskedRangeJoin(before, middle, b[..], key, off, off + 32, off + 64);
  }

  method Xor128(b: array<byte>, off: nat, key: bv32)
    requires off + 128 <= b.Length
    modifies b
    ensures MaskedRange(old(b[..]), b[..], key, off, off + 128)
  {
    hide Masked;
    ghost var before := b[..];
    Xor64(b, off, key);
    ghost var middle := b[..];
    Xor64(b, off + 64, key);
    MaskedRangeJoin(before, middle, b[..], key, off, off + 64, off + 128);
  }

  // The word loops of the source, widest first. Each returns the first octet it left alone.

  method Loop128(b: array<byte>, lo: nat, hi: nat, key: bv32) returns (off: nat)
    requires lo <= hi <= b.Length
    modifies b
    ensures lo <= off <= hi && hi - off < 128 && (off - lo) % 4 == 0
    ensures MaskedRange(old(b[..]), b[..], key, lo, off)
  {
    hide Masked;
    ghost var start := b[..];
    off := lo;
    while hi - off >= 128
      invariant lo <= off <= hi && (off - lo) % 4 == 0
      invariant MaskedRange(start, b[..], key, lo, off)
    {
      ghost var before := b[..];
      Xor128(b, off, key);
      MaskedRangeJoin(start, before, b[..], key, lo, off, off + 128);
      off := off + 128;
    }
  }

  method Loop64(b: array<byte>, lo: nat, hi: nat, key: bv32) returns (off: nat)
    requires lo <= hi <= b.Length
    modifies b
    ensures lo <= off <= hi && hi - off < 64 && (off - lo) % 4 == 0
    ensures MaskedRange(old(b[..]), b[..], key, lo, off)
  {
    hide Masked;
    ghost var start := b[..];
    off := lo;
    while hi - off >= 64
      invariant lo <= off <= hi && (off - lo) % 4 == 0
      invariant MaskedRange(start, b[..], key, lo, off)
    {
      ghost var before := b[..];
      Xor64(b, off, key);
      MaskedRangeJoin(start, before, b[..], key, lo, off, off + 64);
      off := off + 64;
    }
  }

  method Loop32(b: array<byte>, lo: nat, hi: nat, key: bv32) returns (off: nat)
    requires lo <= hi <= b.Length
    modifies b
    ensures lo <= off <= hi && hi - off < 32 && (off - lo) % 4 == 0
    ensures MaskedRange(old(b[..]), b[..], key, lo, off)
  {
    hide Masked;
    ghost var start := b[..];
    off := lo;
    while hi - off >= 32
      invariant lo <= off <= hi && (off - lo) % 4 == 0
      invariant MaskedRange(start, b[..], key, lo, off)
    {
      ghost var before := b[..];
      Xor32(b, off, key);
      MaskedRangeJoin(start, before, b[..], key, lo, off, off + 32);
      off := off + 32;
    }
  }

  method Loop16(b: array<byte>, lo: nat, hi: nat, key: bv32) returns (off: nat)
    requires lo <= hi <= b.Length
    modifies b
    ensures lo <= off <= hi && hi - off < 16 && (off - lo) % 4 == 0
    ensures MaskedRange(old(b[..]), b[..], key, lo, off)
  {
    hide Masked;
    ghost var start := b[..];
    off := lo;
    while hi - off >= 16
      invariant lo <= off <= hi && (off - lo) % 4 == 0
      invariant MaskedRange(start, b[..], key, lo, off)
    {
      ghost var before := b[..];
      Xor16(b, off, key);
      MaskedRangeJoin(start, before, b[..], key, lo, off, off + 16);
      off := off + 16;
    }
  }

  method Loop8(b: array<byte>, lo: nat, hi: nat, key: bv32) returns (off: nat)
    requires lo <= hi <= b.Length
    modifies b
    ensures lo <= off <= hi && hi - off < 8 && (off - lo) % 4 == 0
    ensures MaskedRange(old(b[..]), b[..], key, lo, off)
  {
    hide Masked;
    ghost var start := b[..];
    off := lo;
    while hi - off >= 8
      invariant lo <= off <= hi && (off - lo) % 4 == 0
      invariant MaskedRange(start, b[..], key, lo, off)
    {
      ghost var before := b[..];
      XorWord64(b, off, key);
      MaskedRangeJoin(start, before, b[..], key, lo, off, off + 8);
      off := off + 8;
    }
  }

  method Loop4(b: array<byte>, lo: nat, hi: nat, key: bv32) returns (off: nat)
    requires lo <= hi <= b.Length
    modifies b
    ensures lo <= off <= hi && hi - off < 4 && (off - lo) % 4 == 0
    ensures MaskedRange(old(b[..]), b[..], key, lo, off)
  {
    hide Masked;
    ghost var start := b[..];
    off := lo;
    while hi - off >= 4
      invariant lo <= off <= hi && (off - lo) % 4 == 0
      invariant MaskedRange(start, b[..], key, lo, off)
    {
      ghost var before := b[..];
      XorWord32(b, off, key);
      MaskedRangeJoin(start, before, b[..], key, lo, off, off + 4);
      off := off + 4;
    }
  }

  /** The first three of the five word loops. */
  method XorBlocks(b: array<byte>, lo: nat, hi: nat, key: bv32) returns (off: nat)
    requires lo <= hi <= b.Length
    modifies b
    ensures lo <= off <= hi && hi - off < 32 && (off - lo) % 4 == 0
    ensures MaskedRange(old(b[..]), b[..], key, lo, off)
  {
    hide MaskedRange;
    ghost var s0 := b[..];
    var off1 := Loop128(b, lo, hi, key);
    ghost var s1 := b[..];
    var off2 := Loop64(b, off1, hi, key);
    MaskedRangeJoin(s0, s1, b[..], key, lo, off1, off2);
    ghost var s2 := b[..];
    off := Loop32(b, off2, hi, key);
    MaskedRangeJoin(s0, s2, b[..], key, lo, off2, off);
  }

  /** The five word loops, run when at least 8 octets are given. */
  method XorWords(b: array<byte>, lo: nat, hi: nat, key: bv32) returns (off: nat)
    requires lo <= hi <= b.Length
    modifies b
    ensures lo <= off <= hi && hi - off < 8 && (off - lo) % 4 == 0
    ensures MaskedRange(old(b[..]), b[..], key, lo, off)
  {
    hide MaskedRange;
    ghost var s0 := b[..];
    var off3 := XorBlocks(b, lo, hi, key);
    ghost var s3 := b[..];
    var off4 := Loop16(b, off3, hi, key);
    MaskedRangeJoin(s0, s3, b[..], key, lo, off3, off4);
    ghost var s4 := b[..];
    off := Loop8(b, off4, hi, key);
    MaskedRangeJoin(s0, s4, b[..], key, lo, off4, off);
  }

  lemma MaskedOne(key: bv32, x: byte)
    ensures Masked(key, [x]) == [x ^ Octet0(key)]
  {
  }

  lemma MaskedRangeSnoc(before: seq<byte>, now: seq<byte>, key: bv32, lo: nat, i: nat)
    requires MaskedRange(before, now, key, lo, i) && i < |before|
    ensures |now| == |before|
    ensures MaskedRange(before, now[i := now[i] ^ Octet0(KeyAfter(key, i - lo))], key, lo, i + 1)
  {
    hide Masked, KeyAfter, Octet0;
    var k := KeyAfter(key, i - lo);
    var x := before[i];
    MaskedAppend(key, before[lo..i], [x]);
    MaskedOne(k, x);
    assert before[lo..i + 1] == before[lo..i] + [x];
    assert now[i] == x;
    var after := now[i := x ^ Octet0(k)];
    assert after == before[..lo] + (Masked(key, before[lo..i]) + [x ^ Octet0(k)]) + before[i + 1..];
  }

  method Put(b: array<byte>, i: nat, x: byte)
    requires i < b.Length
    modifies b
    ensures b[..] == old(b[..])[i := x]
  {
    b[i] := x;
  }

  /** The last loop: one octet at a time, rotating the key. */
  method XorOctets(key0: bv32, b: array<byte>, lo: nat, hi: nat) returns (key: bv32)
    requires lo <= hi <= b.Length
    modifies b
    ensures MaskedRange(old(b[..]), b[..], key0, lo, hi)
    ensures key == KeyAfter(key0, hi - lo)
  {
    hide MaskedRange, Rotated, Octet0;
    ghost var start := b[..];
    key := key0;
    var i := lo;
    MaskedRangeNone(start, key0, lo);
    while i < hi
      invariant lo <= i <= hi
      invariant key == KeyAfter(key0, i - lo)
      invariant MaskedRange(start, b[..], key0, lo, i)
    {
      ghost var now := b[..];
      MaskedRangeSnoc(start, now, key0, lo, i);
      Put(b, i, b[i] ^ Octet0(key));
      key := Rotated(key);
      i := i + 1;
    }
  }

  lemma MaskedRangeNone(s: seq<byte>, key: bv32, lo: nat)
    requires lo <= |s|
    ensures MaskedRange(s, s, key, lo, lo)
  {
  }

  /** Masks the slice b[lo..hi] in place and returns the key that continues the message. */
  method Mask(key0: bv32, b: array<byte>, lo: nat, hi: nat) returns (key: bv32)
    requires lo <= hi <= b.Length
    modifies b
    ensures b[..] == old(b[..lo]) + Masked(key0, old(b[lo..hi])) + old(b[hi..])
    ensures b[lo..hi] == Masked(key0, old(b[lo..hi]))
    ensures key == KeyAfter(key0, hi - lo)
  {
    hide Masked, Rotated, KeyAfter;
    ghost var s0 := b[..];
    var off := lo;
    if hi - lo >= 8 {
      off := XorWords(b, lo, hi, key0);
    }
    assert MaskedRange(s0, b[..], key0, lo, off);
    ghost var s1 := b[..];
    var end := Loop4(b, off, hi, key0);
    MaskedRangeJoin(s0, s1, b[..], key0, lo, off, end);
    ghost var s2 := b[..];
    key := XorOctets(key0, b, end, hi);
    MaskedRangeJoin(s0, s2, b[..], key0, lo, end, hi);
    KeyAfterSum(key0, end - lo, hi - end);
    KeyAfterWords(key0, end - lo);
  }
}
