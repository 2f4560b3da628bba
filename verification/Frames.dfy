/**
  The frame record and `write_frame` (include/websocket/WsFrame.h).

  `Encode` is the wire form of section 5.2 of RFC 6455; `WriteFrame` is the program's loop,
  proved to produce it.
 */
module Frames {
  import opened Bytes

  const WS_CONT: byte := 0x0
  const WS_TEXT: byte := 0x1
  const WS_BINARY: byte := 0x2
  const WS_CLOSE: byte := 0x8
  const WS_PING: byte := 0x9
  const WS_PONG: byte := 0xA

  datatype WsFrame = WsFrame(
    fin: bool,
    rsv1: bool,
    rsv2: bool,
    rsv3: bool,
    opcode: byte,
    mask: bool,
    masking_key: bv32,
    payload_data: bytes)
  {
    /** What the C++ types guarantee (a size_t length) and a 4-bit opcode. */
    ghost predicate Encodable() {
      |payload_data| < U64_LIMIT && opcode < 16
    }

    ghost predicate NoRsv() {
      !rsv1 && !rsv2 && !rsv3
    }
  }

  /** An unmasked FIN frame, the only kind the server sends. */
  function ServerFrame(opcode: byte, payload: bytes): WsFrame {
    WsFrame(true, false, false, false, opcode, false, 0, payload)
  }

  function Bit(b: bool): byte {
    if b then 1 else 0
  }

  // ---------- Masking (section 5.3 of RFC 6455) ----------

  /** The octets of a 32-bit key, most significant first. */
  function KeyOctets(key: bv32): (k: bytes)
    ensures |k| == 4
  {
    [((key >> 24) & 0xFF) as byte, ((key >> 16) & 0xFF) as byte, ((key >> 8) & 0xFF) as byte, (key & 0xFF) as byte]
  }

  function KeyFromOctets(k: bytes): bv32
    requires |k| == 4
  {
    (k[0] as bv32 << 24) | (k[1] as bv32 << 16) | (k[2] as bv32 << 8) | k[3] as bv32
  }

  /** Octet i of the payload is combined with octet i mod 4 of the key. */
  function MaskWith(k: bytes, data: bytes): (r: bytes)
    requires |k| == 4
    ensures |r| == |data|
  {
    seq(|data|, i requires 0 <= i < |data| => data[i] ^ k[i % 4])
  }

  function ApplyMask(key: bv32, data: bytes): (r: bytes)
    ensures |r| == |data|
  {
    MaskWith(KeyOctets(key), data)
  }

  lemma XorTwice(a: byte, k: byte)
    ensures (a ^ k) ^ k == a
  {
  }

  lemma MaskTwice(k: bytes, data: bytes)
    requires |k| == 4
    ensures MaskWith(k, MaskWith(k, data)) == data
  {
    forall i | 0 <= i < |data| ensures MaskWith(k, MaskWith(k, data))[i] == data[i] {
      XorTwice(data[i], k[i % 4]);
    }
  }

  lemma KeyRoundTrip(key: bv32)
    ensures KeyFromOctets(KeyOctets(key)) == key
  {
    KeyRoundTripBits(key);
  }

  lemma KeyRoundTripBits(key: bv32)
    ensures ((((key >> 24) & 0xFF) as byte) as bv32 << 24) | ((((key >> 16) & 0xFF) as byte) as bv32 << 16)
            | ((((key >> 8) & 0xFF) as byte) as bv32 << 8) | ((key & 0xFF) as byte) as bv32 == key
  {
  }

  lemma KeyOctetsRoundTrip(k: bytes)
    requires |k| == 4
    ensures KeyOctets(KeyFromOctets(k)) == k
  {
    KeyOctetsBits(k[0], k[1], k[2], k[3]);
  }

  lemma KeyOctetsBits(a: byte, b: byte, c: byte, d: byte)
    ensures var key := (a as bv32 << 24) | (b as bv32 << 16) | (c as bv32 << 8) | d as bv32;
            && ((key >> 24) & 0xFF) as byte == a && ((key >> 16) & 0xFF) as byte == b
            && ((key >> 8) & 0xFF) as byte == c && (key & 0xFF) as byte == d
  {
  }

  /** The octet `(key >> ((3 - m) * 8)) & 0xFF` for the slot m = i mod 4 of payload index i. */
  function ShiftedOctet(key: bv32, m: bv32): byte
    requires m <= 3
  {
    ((key >> ((3 - m) * 8)) & 0xFF) as byte
  }

  function Slot(i: nat): (m: bv32)
    ensures m <= 3
  {
    (i % 4) as bv32
  }

  lemma ShiftedOctets(key: bv32)
    ensures KeyOctets(key) == [ShiftedOctet(key, 0), ShiftedOctet(key, 1), ShiftedOctet(key, 2), ShiftedOctet(key, 3)]
  {
  }

  /** Shifting the 32-bit key selects the same octet as indexing its four octets. */
  lemma ShiftIsIndex(key: bv32, i: nat)
    ensures ShiftedOctet(key, Slot(i)) == KeyOctets(key)[i % 4]
  {
    ShiftedOctets(key);
    var m := i % 4;
    assert m == 0 || m == 1 || m == 2 || m == 3;
  }

  // ---------- The wire form ----------

  function Byte0(f: WsFrame): byte {
    (Bit(f.fin) << 7) | (Bit(f.rsv1) << 6) | (Bit(f.rsv2) << 5) | (Bit(f.rsv3) << 4) | (f.opcode & 0x0F)
  }

  /** The 7-bit length code of a payload: its length, 126 or 127. */
  function LengthCode(len: nat): nat {
    if len <= 125 then len else if len <= 0xFFFF then 126 else 127
  }

  /** The extended length that follows a length code. */
  function ExtendedLength(len: nat): bytes {
    if len <= 125 then [] else if len <= 0xFFFF then BigEndian(len, 2) else BigEndian(len, 8)
  }

  function Byte1(mask: bool, len: nat): byte {
    (Bit(mask) << 7) | Octet(LengthCode(len))
  }

  function Header(f: WsFrame): (h: bytes) {
    [Byte0(f), Byte1(f.mask, |f.payload_data|)] + ExtendedLength(|f.payload_data|)
    + (if f.mask then KeyOctets(f.masking_key) else [])
  }

  function WirePayload(f: WsFrame): bytes {
    if f.mask then ApplyMask(f.masking_key, f.payload_data) else f.payload_data
  }

  function Encode(f: WsFrame): bytes {
    Header(f) + WirePayload(f)
  }

  function EncodeAll(fs: seq<WsFrame>): bytes {
    if fs == [] then [] else Encode(fs[0]) + EncodeAll(fs[1..])
  }

  lemma TwoOctets(n: nat)
    ensures BigEndian(n, 2) == [Octet(ShiftRight(n, 1) % 256)] + [Octet(n % 256)]
  {
    hide Octet;
    BigEndianPush(n, 0, 1);
    BigEndianPush(n, 1, 0);
  }

  /** The length part of `write_frame`: the second octet and the extended length. */
  method PushLength(start: bytes, mask: bool, payload_len: nat) returns (out: bytes)
    requires payload_len < U64_LIMIT
    ensures out == start + [Byte1(mask, payload_len)] + ExtendedLength(payload_len)
  {
    hide Octet;
    var byte1: byte := Bit(mask) << 7;
    if payload_len <= 125 {
      byte1 := byte1 | Octet(payload_len);
      out := start + [byte1];
    } else if payload_len <= 0xFFFF {
      byte1 := byte1 | Octet(126);
      out := start + [byte1];
      out := out + [Octet(ShiftRight(payload_len, 1) % 256)];
      out := out + [Octet(payload_len % 256)];
      TwoOctets(payload_len);
    } else {
      byte1 := byte1 | Octet(127);
      out := PushEightOctets(start + [byte1], payload_len);
    }
  }

  /** The loop `for (int i = 7; i >= 0; --i)` of both frame writers. */
  method PushEightOctets(start: bytes, payload_len: nat) returns (out: bytes)
    ensures out == start + BigEndian(payload_len, 8)
  {
    hide Octet;
    out := start;
    var i := 7;
    while i >= 0
      invariant -1 <= i <= 7
      invariant out == start + BigEndian(ShiftRight(payload_len, i + 1), 7 - i)
    {
      BigEndianPush(payload_len, i, 7 - i);
      out := out + [Octet(ShiftRight(payload_len, i) % 256)];
      i := i - 1;
    }
  }

  /** The masking-key part of `write_frame`. */
  method PushKey(start: bytes, key: bv32) returns (out: bytes)
    ensures out == start + KeyOctets(key)
  {
    out := start;
    out := out + [((key >> 24) & 0xFF) as byte];
    out := out + [((key >> 16) & 0xFF) as byte];
    out := out + [((key >> 8) & 0xFF) as byte];
    out := out + [(key & 0xFF) as byte];
  }

  /** The payload loop of `write_frame`. */
  method PushPayload(start: bytes, frame: WsFrame) returns (out: bytes)
    ensures out == start + WirePayload(frame)
  {
    hide KeyOctets, ShiftedOctet, Slot;
    out := start;
    for i := 0 to |frame.payload_data|
      invariant out == start + WirePayload(frame)[..i]
    {
      var b := frame.payload_data[i];
      if frame.mask {
        ShiftIsIndex(frame.masking_key, i);
        b := b ^ ShiftedOctet(frame.masking_key, Slot(i));
      }
      assert b == WirePayload(frame)[i];
      out := out + [b];
    }
  }

  /** `write_frame`. */
  method WriteFrame(frame: WsFrame) returns (out: bytes)
    requires |frame.payload_data| < U64_LIMIT
    ensures out == Encode(frame)
  {
    hide Byte1, KeyOctets, WirePayload, ExtendedLength;
    out := [(Bit(frame.fin) << 7) | (Bit(frame.rsv1) << 6) | (Bit(frame.rsv2) << 5) | (Bit(frame.rsv3) << 4)
            | (frame.opcode & 0x0F)];
    out := PushLength(out, frame.mask, |frame.payload_data|);
    if frame.mask {
      out := PushKey(out, frame.masking_key);
    }
    out := PushPayload(out, frame);
  }
}
