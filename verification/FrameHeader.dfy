/** The frame header of section 5.2 of RFC 6455: the bytes written and the parser. */
module FrameHeader {
  import opened ByteNumbers
  import opened Octets
  import opened Masking

  newtype Opcode = x: int | 0 <= x < 16

  const CONTINUATION: Opcode := 0
  const TEXT: Opcode := 1
  const BINARY: Opcode := 2
  const CLOSE: Opcode := 8
  const PING: Opcode := 9
  const PONG: Opcode := 10

  const INT64_LIMIT: nat := 0x8000_0000_0000_0000

  datatype Header = Header(
    fin: bool,
    rsv1: bool,
    rsv2: bool,
    rsv3: bool,
    opcode: Opcode,
    payloadLength: nat,
    masked: bool,
    maskKey: bv32)

  /** What the header of a frame can hold: a non-negative int64 length, and a key only when masked. */
  predicate Representable(h: Header) {
    h.payloadLength < INT64_LIMIT && (!h.masked ==> h.maskKey == 0)
  }

  // ----- big endian numbers -----

  function Pow256(k: nat): (p: nat)
    ensures p > 0
  {
    if k == 0 then 1 else 256 * Pow256(k - 1)
  }

  /** The last k octets of n, most significant first. */
  function BigEndian(n: nat, k: nat): (s: seq<byte>)
    ensures |s| == k
  {
    if k == 0 then [] else BigEndian(n / 256, k - 1) + [(n % 256) as byte]
  }

  function FromBigEndian(s: seq<byte>): nat {
    if s == [] then 0 else FromBigEndian(s[..|s| - 1]) * 256 + s[|s| - 1] as nat
  }

  lemma {:induction false} FromBigEndianBound(s: seq<byte>)
    ensures FromBigEndian(s) < Pow256(|s|)
  {
    if s != [] {
      FromBigEndianBound(s[..|s| - 1]);
      assert s[|s| - 1] as nat < 256;
    }
  }

  lemma {:induction false} BigEndianRoundTrip(n: nat, k: nat)
    requires n < Pow256(k)
    ensures FromBigEndian(BigEndian(n, k)) == n
  {
    if k > 0 {
      BigEndianRoundTrip(n / 256, k - 1);
      assert BigEndian(n, k)[..k - 1] == BigEndian(n / 256, k - 1);
      ByteOfNat(n % 256);
    }
  }

  lemma {:induction false} BigEndianInverse(s: seq<byte>)
    ensures BigEndian(FromBigEndian(s), |s|) == s
  {
    if s != [] {
      BigEndianInverse(s[..|s| - 1]);
      var last := s[|s| - 1] as nat;
      assert (FromBigEndian(s[..|s| - 1]) * 256 + last) / 256 == FromBigEndian(s[..|s| - 1]);
      assert (FromBigEndian(s[..|s| - 1]) * 256 + last) % 256 == last;
      NatOfByte(s[|s| - 1]);
      assert s == s[..|s| - 1] + [s[|s| - 1]];
    }
  }

  // ----- writing -----

  function Bit(on: bool, weight: byte): byte {
    if on then weight else 0
  }

  /** The low four bits of the first byte. */
  function Nibble(op: Opcode): byte {
    (op as bv4) as byte
  }

  function FirstByte(h: Header): byte {
    Bit(h.fin, 0x80) | Bit(h.rsv1, 0x40) | Bit(h.rsv2, 0x20) | Bit(h.rsv3, 0x10) | Nibble(h.opcode)
  }

  /** The 7-bit length field. */
  function LengthCode(n: nat): (c: nat)
    ensures c < 128
  {
    if n > 0xffff then 127 else if n > 125 then 126 else n
  }

  function LengthByte(h: Header): byte {
    Bit(h.masked, 0x80) | (LengthCode(h.payloadLength) as byte)
  }

  /** How many octets of extended length follow a 7-bit length field. */
  function ExtendedSize(code: nat): nat {
    if code == 127 then 8 else if code == 126 then 2 else 0
  }

  function ExtendedLength(n: nat): seq<byte> {
    BigEndian(n, ExtendedSize(LengthCode(n)))
  }

  function KeyBytes(h: Header): seq<byte> {
    if h.masked then KeyOctets(h.maskKey) else []
  }

  function EncodeHeader(h: Header): seq<byte> {
    [FirstByte(h), LengthByte(h)] + ExtendedLength(h.payloadLength) + KeyBytes(h)
  }

  // ----- reading -----

  datatype HeaderError = Eof | UnexpectedEof | NegativeLength

  datatype Decoded = Ok(header: Header, rest: seq<byte>) | Fail(error: HeaderError)

  /** The error of a read of n > 0 octets from a source that holds fewer. */
  function ShortRead(s: seq<byte>): HeaderError {
    if s == [] then Eof else UnexpectedEof
  }

  function IsSet(b: byte, weight: byte): bool {
    b & weight != 0
  }

  function OpcodeOf(b: byte): Opcode {
    ((b & 0xf) as bv4) as Opcode
  }

  function CodeOf(b: byte): nat {
    (b & 0x7f) as nat
  }

  function LengthOf(code: nat, extended: seq<byte>): nat {
    if extended == [] then code else FromBigEndian(extended)
  }

  /** What the parser makes of an input: the first header in it, and the octets after it. */
  function DecodeHeader(s: seq<byte>): Decoded {
    if |s| < 2 then Fail(Eof)
    else
      var code := CodeOf(s[1]);
      var body := s[2..];
      var k := ExtendedSize(code);
      if |body| < k then Fail(ShortRead(body))
      else
        var length := LengthOf(code, body[..k]);
        if length >= INT64_LIMIT then Fail(NegativeLength)
        else DecodeKey(s[0], IsSet(s[1], 0x80), length, body[k..])
  }

  function DecodeKey(first: byte, masked: bool, length: nat, s: seq<byte>): Decoded {
    if !masked then Ok(HeaderOf(first, length, false, 0), s)
    else if |s| < 4 then Fail(ShortRead(s))
    else Ok(HeaderOf(first, length, true, Word32(s[..4])), s[4..])
  }

  function HeaderOf(first: byte, length: nat, masked: bool, key: bv32): Header {
    Header(IsSet(first, 0x80), IsSet(first, 0x40), IsSet(first, 0x20), IsSet(first, 0x10), OpcodeOf(first),
           length, masked, key)
  }

  // ----- round trip -----

  lemma ByteBits(fin: bool, rsv1: bool, rsv2: bool, rsv3: bool, op: bv4)
    ensures var b := Bit(fin, 0x80) | Bit(rsv1, 0x40) | Bit(rsv2, 0x20) | Bit(rsv3, 0x10) | (op as byte);
            && IsSet(b, 0x80) == fin && IsSet(b, 0x40) == rsv1 && IsSet(b, 0x20) == rsv2 && IsSet(b, 0x10) == rsv3
            && (b & 0xf) as bv4 == op
  {
  }

  lemma OpcodeOfNibble(b: byte, op: Opcode)
    requires (b & 0xf) as bv4 == op as bv4
    ensures OpcodeOf(b) == op
  {
    NibbleOfNat(op as int);
  }

  lemma FirstByteBits(h: Header)
    ensures IsSet(FirstByte(h), 0x80) == h.fin
    ensures IsSet(FirstByte(h), 0x40) == h.rsv1
    ensures IsSet(FirstByte(h), 0x20) == h.rsv2
    ensures IsSet(FirstByte(h), 0x10) == h.rsv3
    ensures OpcodeOf(FirstByte(h)) == h.opcode
  {
    hide Bit, IsSet, OpcodeOf;
    ByteBits(h.fin, h.rsv1, h.rsv2, h.rsv3, h.opcode as bv4);
    OpcodeOfNibble(FirstByte(h), h.opcode);
  }

  lemma BitsByte(b: byte)
    ensures Bit(IsSet(b, 0x80), 0x80) | Bit(IsSet(b, 0x40), 0x40) | Bit(IsSet(b, 0x20), 0x20)
            | Bit(IsSet(b, 0x10), 0x10)
              | (((b & 0xf) as bv4) as byte) == b
  {
  }

  /** The first byte is determined by the fields read from it. */
  lemma FirstByteInverse(b: byte, length: nat, masked: bool, key: bv32)
    ensures FirstByte(HeaderOf(b, length, masked, key)) == b
  {
    hide Bit, IsSet;
    BitsByte(b);
    NatOfNibble((b & 0xf) as bv4);
  }

  lemma CodeByte(masked: bool, c: byte)
    requires c < 0x80
    ensures IsSet(Bit(masked, 0x80) | c, 0x80) == masked
    ensures (Bit(masked, 0x80) | c) & 0x7f == c
  {
  }

  lemma LengthByteFields(h: Header)
    ensures IsSet(LengthByte(h), 0x80) == h.masked
    ensures CodeOf(LengthByte(h)) == LengthCode(h.payloadLength)
  {
    hide Bit, IsSet, LengthCode;
    SmallByte(LengthCode(h.payloadLength));
    ByteOfNat(LengthCode(h.payloadLength));
    CodeByte(h.masked, LengthCode(h.payloadLength) as byte);
  }

  lemma LengthByteInverse(b: byte)
    ensures Bit(IsSet(b, 0x80), 0x80) | (CodeOf(b) as byte) == b
    ensures CodeOf(b) < 128
  {
    NatOfByte(b & 0x7f);
    assert b & 0x7f < 0x80;
  }

  lemma ExtendedLengthValue(n: nat)
    requires n < INT64_LIMIT
    ensures LengthOf(LengthCode(n), ExtendedLength(n)) == n
  {
    var k := ExtendedSize(LengthCode(n));
    assert Pow256(2) == 0x1_0000;
    assert Pow256(4) == 0x1_0000_0000;
    assert Pow256(6) == 0x1_0000_0000_0000;
    assert Pow256(8) == 0x1_0000_0000_0000_0000;
    if k > 0 {
      BigEndianRoundTrip(n, k);
    }
  }

  lemma WordOfOctets(key: bv32)
    ensures Word32(KeyOctets(key)) == key
  {
  }

  /** Reading the bytes of a header, whatever follows them, gives that header back and leaves what follows. */
  lemma HeaderRoundTrip(h: Header, suffix: seq<byte>)
    requires Representable(h)
    ensures DecodeHeader(EncodeHeader(h) + suffix) == Ok(h, suffix)
  {
    hide FirstByte, LengthByte, CodeOf, IsSet, OpcodeOf, Word32, KeyOctets, LengthCode, LengthOf, BigEndian;
    FirstByteBits(h);
    LengthByteFields(h);
    ExtendedLengthValue(h.payloadLength);
    WordOfOctets(h.maskKey);
    var s := EncodeHeader(h) + suffix;
    var tail := KeyBytes(h) + suffix;
    var extended := ExtendedLength(h.payloadLength);
    assert s[0] == FirstByte(h) && s[1] == LengthByte(h);
    assert s[2..] == extended + tail;
    assert (extended + tail)[..|extended|] == extended && (extended + tail)[|extended|..] == tail;
    if h.masked {
      assert tail[..4] == KeyOctets(h.maskKey) && tail[4..] == suffix;
    }
  }

  /** How the parser cuts an accepted input. */
  lemma DecodedParts(s: seq<byte>, h: Header, rest: seq<byte>)
    requires DecodeHeader(s) == Ok(h, rest)
    ensures Representable(h)
    ensures var k := ExtendedSize(CodeOf(s[1]));
            && |s| == 2 + k + |KeyBytes(h)| + |rest|
            && s == [s[0], s[1]] + s[2..2 + k] + KeyBytes(h) + rest
            && h == HeaderOf(s[0], LengthOf(CodeOf(s[1]), s[2..2 + k]), IsSet(s[1], 0x80), h.maskKey)
  {
    hide CodeOf, IsSet, OpcodeOf, KeyOctets, LittleEndian32, LengthOf;
    var k := ExtendedSize(CodeOf(s[1]));
    var body := s[2..];
    assert body[..k] == s[2..2 + k];
    if h.masked {
      assert KeyOctets(Word32(body[k..][..4])) == body[k..][..4];
      assert body[k..] == body[k..][..4] + rest;
    }
  }

  lemma FromTwoOctets(s: seq<byte>)
    requires |s| == 2
    ensures FromBigEndian(s) <= 0xffff
  {
    FromBigEndianBound(s);
    assert Pow256(2) == 0x1_0000;
  }

  /** The code written for a length is never longer than the code it was read with. */
  lemma ShortestCode(code: nat, extended: seq<byte>)
    requires code < 128 && |extended| == ExtendedSize(code)
    ensures var n := LengthOf(code, extended);
            && ExtendedSize(LengthCode(n)) <= ExtendedSize(code)
            && (ExtendedSize(LengthCode(n)) == ExtendedSize(code) ==>
                  LengthCode(n) == code && ExtendedLength(n) == extended)
  {
    hide FromBigEndian, BigEndian;
    if code == 126 {
      FromTwoOctets(extended);
    }
    BigEndianInverse(extended);
  }

  /** The first two bytes written for a header that was read from these two. */
  lemma FirstBytesAgain(b0: byte, b1: byte, h: Header, extended: seq<byte>)
    requires h == HeaderOf(b0, LengthOf(CodeOf(b1), extended), IsSet(b1, 0x80), h.maskKey)
    ensures FirstByte(h) == b0
    ensures LengthCode(h.payloadLength) == CodeOf(b1) ==> LengthByte(h) == b1
  {
    hide IsSet, OpcodeOf, FirstByte, LengthOf, LengthCode, CodeOf, Bit;
    LengthByteInverse(b1);
    FirstByteInverse(b0, h.payloadLength, h.masked, h.maskKey);
  }

  /** No input that decodes to h is shorter than the bytes written for h, and none of that size differs from them. */
  lemma ShortestForm(s: seq<byte>, h: Header, rest: seq<byte>)
    requires DecodeHeader(s) == Ok(h, rest)
    ensures |s| - |rest| >= |EncodeHeader(h)|
    ensures |s| - |rest| == |EncodeHeader(h)| <==> s == EncodeHeader(h) + rest
  {
    hide IsSet, OpcodeOf, FirstByte, LengthByte, KeyBytes, LengthOf, LengthCode, BigEndian, CodeOf, DecodeHeader;
    DecodedParts(s, h, rest);
    var code := CodeOf(s[1]);
    var extended := s[2..2 + ExtendedSize(code)];
    assert code < 128 by { LengthByteInverse(s[1]); }
    ShortestCode(code, extended);
    FirstBytesAgain(s[0], s[1], h, extended);
    if |s| - |rest| == |EncodeHeader(h)| {
      assert ExtendedLength(h.payloadLength) == extended;
    } else {
      assert |s| != |EncodeHeader(h) + rest|;
    }
  }

  lemma SliceOfParts<T>(a: seq<T>, b: seq<T>, c: seq<T>, n: nat)
    requires |a| + |b| <= n <= |a| + |b| + |c|
    ensures (a + b + c)[..n][|a|..][..|b|] == b
  {
  }

  /** The octets after which the parser has just taken a field of a header: a cut there is reported as io.EOF. */
  predicate FieldEnds(h: Header, n: nat) {
    n <= 2 || n == 2 + |ExtendedLength(h.payloadLength)|
  }

  /** A header cut short anywhere is reported as an end of input, never as another header: as io.EOF between two fields,
      and as io.ErrUnexpectedEOF inside one. */
  lemma TruncatedHeader(h: Header, n: nat)
    requires Representable(h) && n < |EncodeHeader(h)|
    ensures DecodeHeader(EncodeHeader(h)[..n]) == Fail(if FieldEnds(h, n) then Eof else UnexpectedEof)
  {
    hide FirstByte, LengthByte, CodeOf, IsSet, OpcodeOf, Word32, KeyOctets, LengthCode, LengthOf, BigEndian;
    LengthByteFields(h);
    ExtendedLengthValue(h.payloadLength);
    var s := EncodeHeader(h)[..n];
    var extended := ExtendedLength(h.payloadLength);
    if n >= 2 + |extended| {
      SliceOfParts([FirstByte(h), LengthByte(h)], extended, KeyBytes(h), n);
      assert s[2..][..|extended|] == extended;
    }
  }
}
