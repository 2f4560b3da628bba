/**
  Close payloads (sections 5.5 and 5.5.1 of RFC 6455): `build_close_payload`
  (include/websocket/ws_helpers.h) and the parsing in `handle_close_frame`.
 */
module ClosePayloads {
  import opened Bytes
  import opened Frames

  const REASON_ROOM: nat := 125 - 2

  datatype CloseInfo = CloseInfo(code: bv16, reason: bytes)

  function Truncated(reason: bytes): bytes {
    if |reason| <= REASON_ROOM then reason else reason[..REASON_ROOM]
  }

  function ClosePayload(code: bv16, reason: bytes): bytes {
    [((code >> 8) & 0xFF) as byte, (code & 0xFF) as byte] + Truncated(reason)
  }

  /** `build_close_payload`. */
  method BuildClosePayload(code: bv16, reason: bytes) returns (out: bytes)
    ensures out == ClosePayload(code, reason)
  {
    out := [0, 0];
    out := out[0 := ((code >> 8) & 0xFF) as byte];
    out := out[1 := (code & 0xFF) as byte];
    var room := 125 - 2;
    if reason != [] {
      var take := if room < |reason| then room else |reason|;
      out := out + reason[..take];
    }
  }

  /** The status code and reason `handle_close_frame` reads; 1000 and nothing when the payload is too short. */
  function ParseClose(payload: bytes): CloseInfo {
    if |payload| >= 2 then CloseInfo((payload[0] as bv16 << 8) | payload[1] as bv16, payload[2..])
    else CloseInfo(1000, [])
  }

  lemma CodeOctets(code: bv16)
    ensures ((((code >> 8) & 0xFF) as byte) as bv16 << 8) | ((code & 0xFF) as byte) as bv16 == code
  {
  }

  lemma OctetsCode(a: byte, b: byte)
    ensures var code := (a as bv16 << 8) | b as bv16;
            ((code >> 8) & 0xFF) as byte == a && (code & 0xFF) as byte == b
  {
  }

  /** What is built parses back to the code and the part of the reason that fits in a control frame. */
  lemma BuiltParsesBack(code: bv16, reason: bytes)
    ensures 2 <= |ClosePayload(code, reason)| <= 125
    ensures ParseClose(ClosePayload(code, reason)) == CloseInfo(code, Truncated(reason))
  {
    CodeOctets(code);
    assert ClosePayload(code, reason)[2..] == Truncated(reason);
  }

  lemma CodeValue(code: bv16)
    ensures (((code >> 8) & 0xFF) as byte) as bv16 == code >> 8 && ((code & 0xFF) as byte) as bv16 == code & 0xFF
  {
  }

  /** The payload octet by octet: the code, most significant octet first, then at most 123 octets of the reason. */
  lemma ClosePayloadForm(code: bv16, reason: bytes)
    ensures var p, n := ClosePayload(code, reason), if |reason| < 123 then |reason| else 123;
            && |p| == 2 + n
            && p[0] as bv16 == code >> 8 && p[1] as bv16 == code & 0xFF
            && forall i :: 0 <= i < n ==> p[2 + i] == reason[i]
  {
    CodeValue(code);
  }

  /**
    Echoing a received payload reproduces it exactly when it is a payload a Close frame may carry
    with a code: 2 to 125 octets.  An empty one is answered with code 1000, a longer one is cut.
   */
  lemma EchoExactly(payload: bytes)
    ensures var info := ParseClose(payload);
            ClosePayload(info.code, info.reason) == payload <==> 2 <= |payload| <= 125
  {
    if |payload| >= 2 {
      OctetsCode(payload[0], payload[1]);
      assert payload == [payload[0], payload[1]] + payload[2..];
      var info := ParseClose(payload);
      if |payload| > 125 {
        assert |ClosePayload(info.code, info.reason)| == 125;
      }
    }
  }

  /** A Close frame is always sent in the one-octet length form. */
  lemma CloseFrameIsShort(code: bv16, reason: bytes)
    ensures var payload := ClosePayload(code, reason);
            Encode(ServerFrame(WS_CLOSE, payload)) == [0x88, Octet(|payload|)] + payload
  {
    hide Octet;
    var payload := ClosePayload(code, reason);
    BuiltParsesBack(code, reason);
    assert Byte0(ServerFrame(WS_CLOSE, payload)) == 0x88;
    assert Byte1(false, |payload|) == Octet(|payload|);
  }
}
