/** Frames octet by octet: sections 5.2 and 5.3 of RFC 6455 as arithmetic on the octets themselves. */
module WireFormat {
  import opened ByteNumbers
  import opened Octets
  import opened Masking
  import opened FrameHeader
  import opened CloseFrame
  import opened Frames
  import R = ReadModel

  /** The number that two octets give from position i on, the first the most significant. */
  function Two(o: seq<byte>, i: nat): nat
    requires i + 2 <= |o|
  {
    256 * o[i] as nat + o[i + 1] as nat
  }

  /** The number that eight octets give. */
  function Eight(o: seq<byte>, i: nat): nat
    requires i + 8 <= |o|
  {
    0x1_0000_0000_0000 * Two(o, i) + 0x1_0000_0000 * Two(o, i + 2) + 0x1_0000 * Two(o, i + 4) + Two(o, i + 6)
  }

  /** The word that four octets give, the first the least significant. */
  function Four(o: seq<byte>, i: nat): bv32
    requires i + 4 <= |o|
  {
    (o[i] as bv32) | ((o[i + 1] as bv32) << 8) | ((o[i + 2] as bv32) << 16) | ((o[i + 3] as bv32) << 24)
  }

  lemma TakeOne(s: seq<byte>, k: nat)
    requires k < |s|
    ensures FromBigEndian(s[..k + 1]) == FromBigEndian(s[..k]) * 256 + s[k] as nat
  {
    assert s[..k + 1][..k] == s[..k];
  }

  lemma TakeTwo(s: seq<byte>, k: nat)
    requires k + 2 <= |s|
    ensures FromBigEndian(s[..k + 2]) == FromBigEndian(s[..k]) * 0x1_0000 + Two(s, k)
  {
    hide FromBigEndian;
    TakeOne(s, k);
    TakeOne(s, k + 1);
  }

  lemma NoOctets()
    ensures FromBigEndian([]) == 0
  {
  }

  lemma TwoOctets(s: seq<byte>)
    requires |s| == 2
    ensures FromBigEndian(s) == Two(s, 0)
  {
    hide FromBigEndian;
    NoOctets();
    TakeTwo(s, 0);
    assert s[..0] == [] && s[..2] == s;
  }

  lemma EightOctets(s: seq<byte>)
    requires |s| == 8
    ensures FromBigEndian(s) == Eight(s, 0)
  {
    hide FromBigEndian, Two;
    NoOctets();
    TakeTwo(s, 0);
    TakeTwo(s, 2);
    TakeTwo(s, 4);
    TakeTwo(s, 6);
    assert s[..0] == [] && s[..8] == s;
  }

  // ----- writing -----

  /** Where the payload of a frame begins. */
  function HeaderLength(f: Frame): nat {
    2 + (if |f.payload| <= 125 then 0 else if |f.payload| <= 65535 then 2 else 8) + (if f.masked then 4 else 0)
  }

  /** The length field of a frame with n octets of payload. */
  predicate LengthField(o: seq<byte>, n: nat)
    requires |o| >= 2
  {
    if n <= 125 then (o[1] & 0x7f) as nat == n
    else if n <= 65535 then o[1] & 0x7f == 126 && |o| >= 4 && Two(o, 2) == n
    else o[1] & 0x7f == 127 && |o| >= 10 && Eight(o, 2) == n
  }

  /** The octets of a frame. */
  predicate OnTheWire(o: seq<byte>, f: Frame) {
    var n, p := HeaderLength(f), f.payload;
    && |o| == n + |p|
    && (o[0] & 0x80 != 0 <==> f.fin) && (o[0] & 0x40 != 0 <==> f.rsv1) && o[0] & 0x30 == 0
    && (o[0] & 0x0f) as int == f.opcode as int
    && (o[1] & 0x80 != 0 <==> f.masked) && LengthField(o, |p|)
    && (f.masked ==> Four(o, n - 4) == f.key)
    && forall i | 0 <= i < |p| :: o[n + i] == if f.masked then p[i] ^ o[n - 4 + i % 4] else p[i]
  }

  lemma FirstOctet(h: Header)
    requires !h.rsv2 && !h.rsv3
    ensures var b := FirstByte(h);
            && (b & 0x80 != 0 <==> h.fin) && (b & 0x40 != 0 <==> h.rsv1) && b & 0x30 == 0
            && (b & 0x0f) as int == h.opcode as int
  {
    hide FirstByte;
    FirstByteBits(h);
    NoReserved(FirstByte(h));
    NibbleValue(FirstByte(h));
  }

  lemma NoReserved(b: byte)
    requires b & 0x20 == 0 && b & 0x10 == 0
    ensures b & 0x30 == 0
  {
  }

  lemma NibbleValue(b: byte)
    ensures (b & 0xf) as int == OpcodeOf(b) as int
  {
    var nibble := (b & 0xf) as bv4;
    assert nibble as bv8 == b & 0xf;
    NibbleAsInt(nibble);
  }

  lemma NibbleAsInt(x: bv4)
    ensures (x as bv8) as int == x as int
  {
  }

  lemma SecondOctet(h: Header)
    ensures var b := LengthByte(h);
            && (b & 0x80 != 0 <==> h.masked)
            && (b & 0x7f) as int == (if h.payloadLength > 65535 then 127 else if h.payloadLength > 125 then 126
                                     else h.payloadLength)
  {
    hide LengthByte;
    LengthByteFields(h);
  }

  lemma KeyWord(key: bv32)
    ensures Four(KeyOctets(key), 0) == key
  {
  }

  lemma CodeValue(b: byte)
    ensures (b & 0x7f) as int == 126 <==> b & 0x7f == 126
    ensures (b & 0x7f) as int == 127 <==> b & 0x7f == 127
  {
    NatOfByte(b & 0x7f);
    assert (126 as bv8) == 126 && (127 as bv8) == 127;
  }

  /** The parts of the octets of a frame. */
  lemma FrameParts(f: Frame)
    ensures var o, h, n, k := EncodeFrame(f), HeaderFor(f), HeaderLength(f), |ExtendedLength(|f.payload|)|;
            && k == (if |f.payload| <= 125 then 0 else if |f.payload| <= 65535 then 2 else 8)
            && |o| == n + |f.payload| && o[0] == FirstByte(h) && o[1] == LengthByte(h)
            && o[2..2 + k] == ExtendedLength(|f.payload|) && o[2 + k..n] == KeyBytes(h)
            && o[n..] == WirePayload(h, f.payload)
  {
    hide FirstByte, LengthByte, KeyOctets, BigEndian, Masked;
  }

  lemma LengthOnWire(f: Frame)
    requires |f.payload| < 0x8000_0000_0000_0000
    ensures LengthField(EncodeFrame(f), |f.payload|)
  {
    hide LengthByte, BigEndian, FromBigEndian, Two, EncodeFrame, Eight;
    var o, n := EncodeFrame(f), |f.payload|;
    FrameParts(f);
    SecondOctet(HeaderFor(f));
    CodeValue(o[1]);
    ExtendedLengthValue(n);
    if 125 < n <= 65535 {
      TwoOctets(ExtendedLength(n));
      TwoShift(o, 2, ExtendedLength(n));
    } else if n > 65535 {
      EightOctets(ExtendedLength(n));
      EightShift(o, 2, ExtendedLength(n));
    }
  }

  lemma KeyOnWire(o: seq<byte>, n: nat, key: bv32)
    requires 4 <= n <= |o| && o[n - 4..n] == KeyOctets(key)
    ensures Four(o, n - 4) == key && forall i | 0 <= i < 4 :: o[n - 4 + i] == KeyOctets(key)[i]
  {
    KeyWord(key);
    hide KeyOctets, Four;
    var ks := KeyOctets(key);
    forall i | 0 <= i < 4
      ensures o[n - 4 + i] == ks[i]
    {
      assert o[n - 4..n][i] == o[n - 4 + i];
    }
    SameFour(o, n - 4, ks);
  }

  lemma SameFour(o: seq<byte>, i: nat, s: seq<byte>)
    requires |s| == 4 && i + 4 <= |o| && o[i..i + 4] == s
    ensures Four(o, i) == Four(s, 0)
  {
    assert o[i] == s[0] && o[i + 1] == s[1] && o[i + 2] == s[2] && o[i + 3] == s[3];
  }

  lemma PayloadOnWire(f: Frame, i: nat)
    requires i < |f.payload|
    ensures var o, n := EncodeFrame(f), HeaderLength(f);
            n + i < |o| && o[n + i] == if f.masked then f.payload[i] ^ o[n - 4 + i % 4] else f.payload[i]
  {
    FrameParts(f);
    hide EncodeFrame, KeyOctets;
    var o, n := EncodeFrame(f), HeaderLength(f);
    assert o[n..][i] == o[n + i];
    if f.masked {
      KeyOnWire(o, n, f.key);
    }
  }

  /** The octets of a frame, for every frame that can be written, by the octets alone: the bits of the first, the length
      in the second and the two or eight behind it, the key as it is written, and the payload under the key octets that
      stand in front of it. */
  lemma FrameOnWire(f: Frame)
    requires |f.payload| < 0x8000_0000_0000_0000
    ensures OnTheWire(EncodeFrame(f), f)
  {
    hide EncodeFrame, FirstByte, LengthByte, KeyOctets, LengthField, Four;
    FrameParts(f);
    FirstOctet(HeaderFor(f));
    SecondOctet(HeaderFor(f));
    LengthOnWire(f);
    if f.masked {
      KeyOnWire(EncodeFrame(f), HeaderLength(f), f.key);
    }
    forall i | 0 <= i < |f.payload|
      ensures var o, n := EncodeFrame(f), HeaderLength(f);
              n + i < |o| && o[n + i] == if f.masked then f.payload[i] ^ o[n - 4 + i % 4] else f.payload[i]
    {
      PayloadOnWire(f, i);
    }
  }

  lemma TwoShift(o: seq<byte>, i: nat, s: seq<byte>)
    requires |s| == 2 && i + 2 <= |o| && o[i..i + 2] == s
    ensures Two(o, i) == Two(s, 0)
  {
    assert o[i] == s[0] && o[i + 1] == s[1];
  }

  lemma EightShift(o: seq<byte>, i: nat, s: seq<byte>)
    requires |s| == 8 && i + 8 <= |o| && o[i..i + 8] == s
    ensures Eight(o, i) == Eight(s, 0)
  {
    assert o[i + 2] == s[2] && o[i + 3] == s[3] && o[i + 4] == s[4] && o[i + 5] == s[5] && o[i + 6] == s[6];
    assert o[i] == s[0] && o[i + 1] == s[1] && o[i + 7] == s[7];
  }

  /** The first octet of the frames that are sent: 0x81 for a whole text message, 0x82 for a binary one, and so on. */
  lemma FirstOctets(f: Frame)
    ensures var b := EncodeFrame(f)[0];
            && (f.opcode == TEXT ==> b == (if f.fin then 0x81 else 0x01) | (if f.rsv1 then 0x40 else 0))
            && (f.opcode == BINARY ==> b == (if f.fin then 0x82 else 0x02) | (if f.rsv1 then 0x40 else 0))
            && (f.opcode == CONTINUATION ==> b == (if f.fin then 0x80 else 0x00) | (if f.rsv1 then 0x40 else 0))
            && (f.fin && !f.rsv1 && f.opcode == CLOSE ==> b == 0x88)
            && (f.fin && !f.rsv1 && f.opcode == PING ==> b == 0x89)
            && (f.fin && !f.rsv1 && f.opcode == PONG ==> b == 0x8a)
  {
    FrameParts(f);
    hide EncodeFrame, LengthByte;
    assert Nibble(TEXT) == 1 && Nibble(BINARY) == 2 && Nibble(CONTINUATION) == 0;
    assert Nibble(CLOSE) == 8 && Nibble(PING) == 9 && Nibble(PONG) == 10;
  }

  // ----- reading -----

  /** How many octets of length and of key the second octet announces. */
  function LengthOctets(b: byte): nat {
    if b & 0x7f == 127 then 8 else if b & 0x7f == 126 then 2 else 0
  }

  function KeySize(b: byte): nat {
    if b & 0x80 != 0 then 4 else 0
  }

  /** The length that the header at the start of s gives. */
  function LengthGiven(s: seq<byte>): nat
    requires |s| >= 2 && |s| >= 2 + LengthOctets(s[1])
  {
    if s[1] & 0x7f == 127 then Eight(s, 2) else if s[1] & 0x7f == 126 then Two(s, 2) else (s[1] & 0x7f) as nat
  }

  /** A header is in the octets. */
  predicate HasHeader(s: seq<byte>) {
    && |s| >= 2 && |s| >= 2 + LengthOctets(s[1]) + KeySize(s[1])
    && LengthGiven(s) < 0x8000_0000_0000_0000
  }

  lemma GivenLength(s: seq<byte>)
    requires |s| >= 2 && |s| >= 2 + LengthOctets(s[1])
    ensures LengthOctets(s[1]) == ExtendedSize(CodeOf(s[1]))
    ensures LengthOf(CodeOf(s[1]), s[2..][..LengthOctets(s[1])]) == LengthGiven(s)
  {
    hide FromBigEndian, Two, Eight;
    CodeValue(s[1]);
    var extended := s[2..][..LengthOctets(s[1])];
    assert extended == s[2..2 + LengthOctets(s[1])];
    if s[1] & 0x7f == 126 {
      TwoOctets(extended);
      TwoShift(s, 2, extended);
    } else if s[1] & 0x7f == 127 {
      EightOctets(extended);
      EightShift(s, 2, extended);
    }
  }

  /** What the parser reads, for all octets, by the octets alone: it accepts exactly the inputs that hold a header with
      a length that is not negative, and gives each field from its own octets. */
  lemma HeaderIsRead(s: seq<byte>)
    ensures DecodeHeader(s).Ok? <==> HasHeader(s)
    ensures HasHeader(s) ==>
              var h, k := DecodeHeader(s).header, 2 + LengthOctets(s[1]);
              && h.fin == (s[0] & 0x80 != 0) && h.rsv1 == (s[0] & 0x40 != 0) && h.rsv2 == (s[0] & 0x20 != 0)
              && h.rsv3 == (s[0] & 0x10 != 0) && h.opcode as int == (s[0] & 0x0f) as int
              && h.payloadLength == LengthGiven(s)
              && h.masked == (s[1] & 0x80 != 0) && h.maskKey == (if h.masked then Four(s, k) else 0)
              && DecodeHeader(s).rest == s[k + KeySize(s[1])..]
  {
    hide LengthOf, CodeOf, OpcodeOf, ExtendedSize, LengthGiven, DecodeKey, Four, LengthOctets;
    if |s| >= 2 {
      CodeSize(s[1]);
      var k := LengthOctets(s[1]);
      if |s| >= 2 + k {
        GivenLength(s);
        assert s[2..][k..] == s[2 + k..];
        KeyIsRead(s, 2 + k, IsSet(s[1], 0x80), LengthGiven(s));
      }
    }
  }

  lemma KeyIsRead(s: seq<byte>, k: nat, masked: bool, length: nat)
    requires 2 <= k <= |s|
    ensures var d, size := DecodeKey(s[0], masked, length, s[k..]), if masked then 4 else 0;
            && (d.Ok? <==> |s| >= k + size)
            && (d.Ok? ==>
                  && d.header.fin == (s[0] & 0x80 != 0) && d.header.rsv1 == (s[0] & 0x40 != 0)
                  && d.header.rsv2 == (s[0] & 0x20 != 0) && d.header.rsv3 == (s[0] & 0x10 != 0)
                  && d.header.opcode as int == (s[0] & 0x0f) as int && d.header.payloadLength == length
                  && d.header.masked == masked && d.header.maskKey == (if masked then Four(s, k) else 0)
                  && d.rest == s[k + size..])
  {
    hide OpcodeOf, Four, Word32;
    NibbleValue(s[0]);
    if masked && |s| >= k + 4 {
      KeyGiven(s, k);
      assert s[k..][4..] == s[k + 4..];
    }
  }

  lemma CodeSize(b: byte)
    ensures LengthOctets(b) == ExtendedSize(CodeOf(b))
  {
    CodeValue(b);
  }

  lemma KeyGiven(s: seq<byte>, k: nat)
    requires k + 4 <= |s|
    ensures Word32(s[k..][..4]) == Four(s, k)
  {
    assert s[k..][..4] == [s[k], s[k + 1], s[k + 2], s[k + 3]];
  }

  /** The octets that a read in the middle of a frame gives: a server XORs each with the key octet of its place, and a
      client takes them as they are, whatever the header said. */
  lemma PayloadIsRead(cfg: R.Config, st: R.State, k: nat, i: nat)
    requires !st.closed && st.payloadLength > 0 && k > 0
    requires var n := if k <= st.payloadLength then k else st.payloadLength; i < n <= |st.input|
    ensures var r, n := R.RawRead(cfg, st, k), if k <= st.payloadLength then k else st.payloadLength;
            && r.Data? && |r.data| == n && r.st.input == st.input[n..] && r.st.payloadLength == st.payloadLength - n
            && r.data[i] == if cfg.client then st.input[i] else st.input[i] ^ KeyOctets(st.maskKey)[i % 4]
  {
    hide KeyOctets, KeyAfter;
  }

  // ----- close frames -----

  /** The codes that may stand in a close frame. */
  predicate SendableCode(code: int) {
    1000 <= code <= 1003 || 1007 <= code <= 1014 || 3000 <= code <= 4999
  }

  /** The payload of a close frame for any code and reason, octet by octet: nothing for 1005; the code in two octets and
      the reason, if the code may be sent and the reason has at most 123 octets; and 1011 alone for all others. */
  lemma CloseOnWire(ce: CloseError)
    ensures var p := SentPayload(ce);
            if ce.code == 1005 then p == []
            else if SendableCode(ce.code) && |ce.reason| <= 123 then
              |p| == 2 + |ce.reason| && Two(p, 0) == ce.code && p[2..] == ce.reason
            else |p| == 2 && Two(p, 0) == 1011
  {
    hide BigEndian, FromBigEndian, Two;
    if ce.code != 1005 {
      var fits := SendableCode(ce.code) && |ce.reason| <= 123;
      var code := if fits then ce.code else 1011;
      assert Pow256(2) == 0x1_0000;
      BigEndianRoundTrip(code, 2);
      TwoOctets(BigEndian(code, 2));
      var p := SentPayload(ce);
      assert p == BigEndian(code, 2) + if fits then ce.reason else [];
      TwoShift(p, 0, BigEndian(code, 2));
    }
  }

  /** What is read of a close payload, for all octets. */
  lemma CloseIsRead(p: seq<byte>)
    ensures ParseClosePayload(p) ==
            if p == [] then Some(CloseError(1005, []))
            else if |p| >= 2 && SendableCode(Two(p, 0)) then Some(CloseError(Two(p, 0), p[2..]))
            else None
  {
    hide FromBigEndian, Two;
    if |p| >= 2 {
      TwoOctets(p[..2]);
      TwoShift(p, 0, p[..2]);
    }
  }
}
