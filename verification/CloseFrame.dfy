/** Close frame payloads: sections 5.5.1 and 7.4 of RFC 6455. */
module CloseFrame {
  import opened Octets
  import opened FrameHeader

  const MAX_CONTROL_PAYLOAD := 125
  const MAX_CLOSE_REASON := MAX_CONTROL_PAYLOAD - 2

  const NORMAL_CLOSURE := 1000
  const PROTOCOL_ERROR := 1002
  const RESERVED := 1004
  const NO_STATUS_RECEIVED := 1005
  const ABNORMAL_CLOSURE := 1006
  const MESSAGE_TOO_BIG := 1009
  const INTERNAL_ERROR := 1011
  const BAD_GATEWAY := 1014
  const TLS_HANDSHAKE := 1015

  /** A status code and a reason; the reason is a string of octets. */
  datatype CloseError = CloseError(code: int, reason: seq<byte>)

  predicate ValidWireCloseCode(code: int) {
    && code !in {RESERVED, NO_STATUS_RECEIVED, ABNORMAL_CLOSURE, TLS_HANDSHAKE}
    && (NORMAL_CLOSURE <= code <= BAD_GATEWAY || 3000 <= code <= 4999)
  }

  function ParseClosePayload(p: seq<byte>): Option<CloseError> {
    if p == [] then Some(CloseError(NO_STATUS_RECEIVED, []))
    else if |p| < 2 then None
    else
      var code := FromBigEndian(p[..2]);
      if ValidWireCloseCode(code) then Some(CloseError(code, p[2..])) else None
  }

  /** The payload of a close error, or None when the reason is too long or the code cannot be sent. */
  function BytesErr(ce: CloseError): Option<seq<byte>> {
    if |ce.reason| > MAX_CLOSE_REASON || !ValidWireCloseCode(ce.code) then None
    else Some(BigEndian(ce.code, 2) + ce.reason)
  }

  /** The payload that writeClose sends for a requested code and reason. */
  function SentPayload(ce: CloseError): seq<byte> {
    if ce.code == NO_STATUS_RECEIVED then []
    else match BytesErr(ce)
      case Some(p) => p
      case None => BytesErr(CloseError(INTERNAL_ERROR, [])).value
  }

  /** Parsing undoes encoding, for every code and reason that can be encoded. */
  lemma ParseUndoesBytes(ce: CloseError)
    requires BytesErr(ce).Some?
    ensures ParseClosePayload(BytesErr(ce).value) == Some(ce)
  {
    hide BigEndian, FromBigEndian;
    var p := BytesErr(ce).value;
    assert Pow256(2) == 0x1_0000;
    BigEndianRoundTrip(ce.code, 2);
    assert p[..2] == BigEndian(ce.code, 2) && p[2..] == ce.reason;
  }

  /** What the peer is told for any request: the request itself when it can be sent, no status for 1005, and
      otherwise 1011 without a reason. Always at most 125 octets and always acceptable to a parser. */
  lemma SentPayloadParses(ce: CloseError)
    ensures |SentPayload(ce)| <= MAX_CONTROL_PAYLOAD
    ensures ParseClosePayload(SentPayload(ce)) ==
            Some(if ce.code == NO_STATUS_RECEIVED then CloseError(NO_STATUS_RECEIVED, [])
                 else if ValidWireCloseCode(ce.code) && |ce.reason| <= MAX_CLOSE_REASON then ce
                 else CloseError(INTERNAL_ERROR, []))
  {
    if ce.code != NO_STATUS_RECEIVED {
      ParseUndoesBytes(if BytesErr(ce).Some? then ce else CloseError(INTERNAL_ERROR, []));
    }
  }

  lemma SentPayloadFits(ce: CloseError)
    ensures |SentPayload(ce)| <= MAX_CONTROL_PAYLOAD
  {
    SentPayloadParses(ce);
  }

  /** A request reaches the peer unchanged exactly when it is encodable, or asks for no status and gives no reason. */
  lemma RequestReachesPeer(ce: CloseError)
    ensures ParseClosePayload(SentPayload(ce)) == Some(ce) <==>
            || (ValidWireCloseCode(ce.code) && |ce.reason| <= MAX_CLOSE_REASON)
            || ce == CloseError(NO_STATUS_RECEIVED, [])
  {
    SentPayloadParses(ce);
  }

  /** The close frame sent in answer to an accepted payload carries the same octets, exactly when that payload fits a
      control frame. */
  lemma EchoIsIdentical(p: seq<byte>)
    requires ParseClosePayload(p).Some?
    ensures SentPayload(ParseClosePayload(p).value) == p <==> |p| <= MAX_CONTROL_PAYLOAD
  {
    hide BigEndian, FromBigEndian;
    var ce := ParseClosePayload(p).value;
    SentPayloadParses(ce);
    if |p| >= 2 {
      BigEndianInverse(p[..2]);
      assert p == p[..2] + p[2..];
    }
  }
}
