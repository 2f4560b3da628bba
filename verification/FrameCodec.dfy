/**
  The frame writer and the server's frame parser are inverse to each other
  (sections 5.2 and 5.3 of RFC 6455).
 */
module FrameCodec {
  import opened Bytes
  import opened Frames
  import opened FrameReader

  /** What a receiver keeps of a frame: the RSV bits are dropped, and the key when there is no mask. */
  function Received(f: WsFrame): WsFrame {
    WsFrame(f.fin, false, false, false, f.opcode, f.mask, if f.mask then f.masking_key else 0, f.payload_data)
  }

  // ---------- Single octets ----------

  lemma Byte0Bits(f: WsFrame)
    requires f.opcode < 16
    ensures (Byte0(f) & 0x80 != 0) == f.fin && Byte0(f) & 0x0F == f.opcode
    ensures Byte0(f) & 0x70 == 0 <==> f.NoRsv()
  {
  }

  lemma Byte0Inverse(f: WsFrame, b0: byte)
    requires f.fin == (b0 & 0x80 != 0) && f.opcode == b0 & 0x0F && f.NoRsv()
    ensures Byte0(f) == b0 <==> b0 & 0x70 == 0
  {
  }

  lemma CodeBits(mask: bool, code: byte)
    requires code & 0x80 == 0
    ensures ((Bit(mask) << 7) | code) & 0x7F == code
    ensures (((Bit(mask) << 7) | code) & 0x80 != 0) == mask
  {
  }

  lemma SmallOctet(n: nat)
    requires n < 128
    ensures Octet(n) & 0x80 == 0
  {
    LowOctet(Octet(n));
  }

  lemma LowOctet(b: byte)
    requires b as nat < 128
    ensures b & 0x80 == 0
  {
    assert b < 128;
  }

  lemma Byte1Bits(mask: bool, len: nat)
    ensures (Byte1(mask, len) & 0x7F) as nat == LengthCode(len)
    ensures IsMasked(Byte1(mask, len)) == mask
    ensures ExtensionSize(Byte1(mask, len)) == |ExtendedLength(len)|
  {
    hide Octet;
    SmallOctet(LengthCode(len));
    CodeBits(mask, Octet(LengthCode(len)));
  }

  lemma Byte1Inverse(b1: byte)
    ensures (Bit(IsMasked(b1)) << 7) | (b1 & 0x7F) == b1
  {
  }

  // ---------- One frame ----------

  lemma ExtendedLengthDecodes(len: nat)
    requires len < U64_LIMIT
    ensures len > 125 ==> FromBigEndian(ExtendedLength(len)) == len
  {
    Pow256Values();
    if len > 0xFFFF {
      BigEndianDecodes(len, 8);
    } else {
      BigEndianDecodes(len, 2);
    }
  }

  /** The header the parser sees is the header that was written. */
  lemma HeaderDecodes(f: WsFrame, s: bytes)
    requires f.Encodable() && Header(f) <= s
    ensures HasHeader(s) && s[0] == Byte0(f) && s[1] == Byte1(f.mask, |f.payload_data|)
    ensures HeaderSize(s[1]) == |Header(f)|
    ensures AnnouncedLength(s) == |f.payload_data|
    ensures HeaderKey(s) == Received(f).masking_key
  {
    hide Byte0, Byte1, KeyFromOctets, KeyOctets;
    var len := |f.payload_data|;
    Byte1Bits(f.mask, len);
    ExtendedLengthDecodes(len);
    KeyRoundTrip(f.masking_key);
    var h := Header(f);
    var e := |ExtendedLength(len)|;
    assert s[0] == h[0] && s[1] == h[1];
    assert h[2..2 + e] == ExtendedLength(len) && s[2..2 + e] == h[2..2 + e];
    if f.mask {
      assert h[2 + e..] == KeyOctets(f.masking_key) && s[2 + e..|h|] == h[2 + e..];
    }
  }

  /** Decoding inverts encoding, whatever octets follow. */
  lemma DecodeEncode(f: WsFrame, rest: bytes)
    requires f.Encodable()
    ensures ParseFrame(Encode(f) + rest) == Parsed(Received(f), |Encode(f)|)
  {
    hide Byte0, Byte1, Header, KeyOctets, HeaderSize, AnnouncedLength, HeaderKey;
    var s := Encode(f) + rest;
    var h, len := |Header(f)|, |f.payload_data|;
    assert Header(f) <= s;
    HeaderDecodes(f, s);
    Byte0Bits(f);
    Byte1Bits(f.mask, len);
    assert s[h..h + len] == WirePayload(f);
    MaskTwice(KeyOctets(f.masking_key), f.payload_data);
  }

  /** No encoding is a proper prefix of another, and equal encodings carry equal frames. */
  lemma PrefixFree(f: WsFrame, g: WsFrame)
    requires f.Encodable() && g.Encodable() && Encode(f) <= Encode(g)
    ensures Encode(f) == Encode(g) && Received(f) == Received(g)
  {
    hide Encode, ParseFrame;
    var rest := Encode(g)[|Encode(f)|..];
    DecodeEncode(f, rest);
    DecodeEncode(g, []);
    assert Encode(f) + rest == Encode(g) == Encode(g) + [];
  }

  // ---------- The wire form, octet by octet (sections 5.2 and 5.3 of RFC 6455) ----------

  lemma Byte0Spelled(f: WsFrame)
    requires f.opcode < 16
    ensures (Byte0(f) & 0x80 != 0) == f.fin && (Byte0(f) & 0x40 != 0) == f.rsv1
    ensures (Byte0(f) & 0x20 != 0) == f.rsv2 && (Byte0(f) & 0x10 != 0) == f.rsv3
    ensures Byte0(f) & 0x0F == f.opcode
  {
  }

  /** How long the header is. */
  function HeaderOctets(f: WsFrame): nat {
    var n := |f.payload_data|;
    2 + (if n <= 125 then 0 else if n <= 65535 then 2 else 8) + if f.mask then 4 else 0
  }

  /** The first octet holds FIN, the three RSV bits and the opcode, the second the mask bit and the length code. */
  lemma WireFlags(f: WsFrame)
    requires f.Encodable()
    ensures var e, n := Encode(f), |f.payload_data|;
            && |e| == HeaderOctets(f) + n
            && (e[0] & 0x80 != 0) == f.fin && (e[0] & 0x40 != 0) == f.rsv1
            && (e[0] & 0x20 != 0) == f.rsv2 && (e[0] & 0x10 != 0) == f.rsv3
            && e[0] & 0x0F == f.opcode
            && (e[1] & 0x80 != 0) == f.mask
            && (e[1] & 0x7F) as nat == (if n <= 125 then n else if n <= 65535 then 126 else 127)
  {
    hide Byte0, Byte1, KeyOctets, WirePayload, BigEndian;
    Byte0Spelled(f);
    Byte1Bits(f.mask, |f.payload_data|);
    assert Encode(f)[0] == Byte0(f) && Encode(f)[1] == Byte1(f.mask, |f.payload_data|);
    assert |WirePayload(f)| == |f.payload_data| by { PayloadLength(f); }
  }

  lemma PayloadLength(f: WsFrame)
    ensures |WirePayload(f)| == |f.payload_data|
  {
  }

  /** An extended length is the number its two or eight octets spell, most significant first. */
  lemma WireLength(f: WsFrame)
    requires f.Encodable()
    ensures var e, n := Encode(f), |f.payload_data|;
            && |e| == HeaderOctets(f) + n
            && (125 < n <= 65535 ==> e[2] as nat * 256 + e[3] as nat == n)
            && (n > 65535 ==> EightOctets(e[2..10]) == n)
  {
    hide Byte0, Byte1, KeyOctets, WirePayload, FromBigEndian, BigEndian, ExtendedLength, EightOctets;
    var e, n := Encode(f), |f.payload_data|;
    WireFlags(f);
    ExtendedLengthDecodes(n);
    var k := |ExtendedLength(n)|;
    assert e[2..2 + k] == ExtendedLength(n);
    ExtendedSize(n);
    if k == 2 {
      TwoOctetValue(e[2], e[3]);
      assert e[2..4] == [e[2], e[3]];
    } else if k == 8 {
      EightOctetValue(e[2..10]);
    }
  }

  lemma ExtendedSize(n: nat)
    ensures |ExtendedLength(n)| == if n <= 125 then 0 else if n <= 65535 then 2 else 8
  {
  }

  /** Where key and payload lie on the wire. */
  lemma WireSlices(f: WsFrame)
    ensures |Encode(f)| == HeaderOctets(f) + |f.payload_data| && |WirePayload(f)| == |f.payload_data|
    ensures f.mask ==> forall j :: 0 <= j < 4 ==> Encode(f)[HeaderOctets(f) - 4 + j] == KeyOctets(f.masking_key)[j]
    ensures forall i :: 0 <= i < |f.payload_data| ==> Encode(f)[HeaderOctets(f) + i] == WirePayload(f)[i]
  {
    hide Byte0, Byte1, KeyOctets, WirePayload, BigEndian, ExtendedLength;
    ExtendedSize(|f.payload_data|);
    PayloadLength(f);
  }

  /** The octet of the key that octet j of every four is combined with: `key >> ((3 - j) * 8)`. */
  function KeyOctetFor(key: bv32, j: nat): byte
    requires j < 4
  {
    if j == 0 then ((key >> 24) & 0xFF) as byte
    else if j == 1 then ((key >> 16) & 0xFF) as byte
    else if j == 2 then ((key >> 8) & 0xFF) as byte
    else (key & 0xFF) as byte
  }

  lemma KeySpelled(key: bv32)
    ensures forall j :: 0 <= j < 4 ==> KeyOctets(key)[j] == KeyOctetFor(key, j)
  {
  }

  /** The last four header octets of a masked frame are those of the key, most significant first. */
  lemma WireKey(f: WsFrame, j: nat)
    requires f.mask && j < 4
    ensures |Encode(f)| == HeaderOctets(f) + |f.payload_data|
    ensures Encode(f)[HeaderOctets(f) - 4 + j] == KeyOctetFor(f.masking_key, j)
  {
    hide Encode, KeyOctets, KeyOctetFor;
    WireSlices(f);
    KeySpelled(f.masking_key);
  }

  /** Payload octet i follows the header as it is, or combined with the key octet for i mod 4. */
  lemma WirePayloadOctets(f: WsFrame, i: nat)
    requires i < |f.payload_data|
    ensures |Encode(f)| == HeaderOctets(f) + |f.payload_data|
    ensures Encode(f)[HeaderOctets(f) + i]
            == if f.mask then f.payload_data[i] ^ KeyOctetFor(f.masking_key, i % 4) else f.payload_data[i]
  {
    hide Encode, KeyOctets, WirePayload, KeyOctetFor;
    WireSlices(f);
    MaskedOctet(f, i);
    KeySpelled(f.masking_key);
  }

  lemma MaskedOctet(f: WsFrame, i: nat)
    requires i < |f.payload_data|
    ensures |WirePayload(f)| == |f.payload_data|
    ensures WirePayload(f)[i]
            == if f.mask then f.payload_data[i] ^ KeyOctets(f.masking_key)[i % 4] else f.payload_data[i]
  {
    hide KeyOctets;
  }

  // ---------- Any octets, read ----------

  /** The payload length a header spells, non-minimal forms included. */
  function SpelledLength(s: bytes): nat
    requires HasHeader(s)
  {
    var code := s[1] & 0x7F;
    if code == 126 then s[2] as nat * 256 + s[3] as nat
    else if code == 127 then EightOctets(s[2..10])
    else code as nat
  }

  lemma SpelledIsAnnounced(s: bytes)
    requires HasHeader(s)
    ensures AnnouncedLength(s) == SpelledLength(s)
  {
    hide FromBigEndian, EightOctets;
    if ExtensionSize(s[1]) == 2 {
      TwoOctetValue(s[2], s[3]);
      assert s[2..4] == [s[2], s[3]];
    } else if ExtensionSize(s[1]) == 8 {
      EightOctetValue(s[2..10]);
    }
  }

  /** The size of the header that begins with s. */
  function SpelledHeader(s: bytes): nat {
    if |s| < 2 then 2
    else 2 + (if s[1] & 0x7F == 126 then 2 else if s[1] & 0x7F == 127 then 8 else 0) + if s[1] & 0x80 != 0 then 4 else 0
  }

  /**
    What the server's parser makes of any octets: it waits for 2 octets, then for the extended length
    and the key the second one announces, then for the payload.
   */
  lemma ReadForm(s: bytes)
    ensures var h, r := SpelledHeader(s), ParseFrame(s);
            && (HasHeader(s) <==> |s| >= 2 && |s| >= h)
            && (r.Parsed? <==> HasHeader(s) && |s| >= h + SpelledLength(s))
            && (r.Parsed? ==>
                  && r.consumed == h + SpelledLength(s) && |r.frame.payload_data| == SpelledLength(s)
                  && r.frame.fin == (s[0] & 0x80 != 0) && r.frame.opcode == s[0] & 0x0F
                  && r.frame.mask == (s[1] & 0x80 != 0) && r.frame.NoRsv())
  {
    hide ApplyMask, HeaderKey, FromBigEndian, AnnouncedLength, SpelledLength;
    if HasHeader(s) {
      SpelledIsAnnounced(s);
    }
  }

  lemma HeaderIsSpelled(s: bytes)
    requires |s| >= 2
    ensures HeaderSize(s[1]) == SpelledHeader(s) && IsMasked(s[1]) == (s[1] & 0x80 != 0)
  {
  }

  lemma MaskWithAt(k: bytes, data: bytes, i: nat)
    requires |k| == 4 && i < |data|
    ensures MaskWith(k, data)[i] == data[i] ^ k[i % 4]
  {
  }

  /** Each payload octet of a masked frame is combined with one of the last four header octets. */
  lemma ReadPayload(s: bytes, i: nat)
    requires ParseFrame(s).Parsed? && i < |ParseFrame(s).frame.payload_data|
    ensures var h, f := SpelledHeader(s), ParseFrame(s).frame;
            && 2 <= h && h + i < |s| && (f.mask ==> h >= 6)
            && f.payload_data[i] == if f.mask then s[h + i] ^ s[h - 4 + i % 4] else s[h + i]
  {
    hide KeyFromOctets, KeyOctets, AnnouncedLength, MaskWith, ExtensionSize, IsMasked, SpelledHeader;
    HeaderIsSpelled(s);
    var h, n := HeaderSize(s[1]), AnnouncedLength(s);
    var data := s[h..h + n];
    assert data[i] == s[h + i];
    if IsMasked(s[1]) {
      var k := s[h - 4..h];
      KeyOctetsRoundTrip(k);
      MaskWithAt(k, data, i);
      assert k[i % 4] == s[h - 4 + i % 4];
    }
  }

  // ---------- Re-encoding ----------

  /** The shortest of the three length forms is the one in use. */
  predicate MinimalLength(s: bytes)
    requires HasHeader(s)
  {
    (s[1] & 0x7F) as nat == LengthCode(AnnouncedLength(s))
  }

  lemma ExtendedLengthInverse(s: bytes)
    requires HasHeader(s) && MinimalLength(s)
    ensures ExtendedLength(AnnouncedLength(s)) == s[2..2 + ExtensionSize(s[1])]
    ensures Byte1(IsMasked(s[1]), AnnouncedLength(s)) == s[1]
  {
    hide Octet, IsMasked;
    var e := ExtensionSize(s[1]);
    if e == 0 {
      assert s[2..2] == [];
    } else {
      FromBigEndianEncodes(s[2..2 + e]);
    }
    OctetValue(s[1] & 0x7F);
    Byte1Inverse(s[1]);
  }

  /** The length form written back is the form read exactly when that form was minimal. */
  lemma Byte1Minimal(s: bytes)
    requires HasHeader(s) && Byte1(IsMasked(s[1]), AnnouncedLength(s)) == s[1]
    ensures MinimalLength(s)
  {
    hide Byte1, ExtensionSize, AnnouncedLength;
    Byte1Bits(IsMasked(s[1]), AnnouncedLength(s));
  }

  lemma HeaderInverse(s: bytes, f: WsFrame, n: nat)
    requires ParseFrame(s) == Parsed(f, n) && MinimalLength(s) && s[0] & 0x70 == 0
    ensures Header(f) == s[..HeaderSize(s[1])]
  {
    hide Byte0, Byte1, KeyOctets, KeyFromOctets, ExtendedLength, AnnouncedLength, LengthCode, ApplyMask, MinimalLength;
    Byte0Inverse(f, s[0]);
    ExtendedLengthInverse(s);
    var h, e := HeaderSize(s[1]), ExtensionSize(s[1]);
    assert [s[0], s[1]] + s[2..2 + e] == s[..2 + e];
    if f.mask {
      KeyOctetsRoundTrip(s[h - 4..h]);
      TakeTake(s, 2 + e, h);
    }
  }

  lemma ReencodesMinimal(s: bytes, f: WsFrame, n: nat)
    requires ParseFrame(s) == Parsed(f, n) && MinimalLength(s) && s[0] & 0x70 == 0
    ensures Encode(f) == s[..n]
  {
    hide Header, KeyOctets, AnnouncedLength, HeaderSize, MinimalLength, HeaderKey, MaskWith;
    var h := HeaderSize(s[1]);
    HeaderInverse(s, f, n);
    MaskTwice(KeyOctets(f.masking_key), s[h..n]);
    assert s[..h] + s[h..n] == s[..n];
  }

  lemma OnlyMinimalReencodes(s: bytes, f: WsFrame, n: nat)
    requires ParseFrame(s) == Parsed(f, n) && Encode(f) == s[..n]
    ensures MinimalLength(s) && s[0] & 0x70 == 0
  {
    hide Byte0, Byte1, KeyOctets, ExtendedLength, WirePayload, AnnouncedLength, HeaderSize, MinimalLength, HeaderKey,
         ApplyMask;
    assert Encode(f)[0] == Byte0(f) && Encode(f)[1] == Byte1(f.mask, |f.payload_data|);
    assert s[..n][0] == s[0] && s[..n][1] == s[1];
    Byte0Inverse(f, s[0]);
    Byte1Minimal(s);
  }

  /** Writing a parsed frame reproduces its octets exactly when the RSV bits were zero and the length form minimal. */
  lemma ReencodeExactly(s: bytes, f: WsFrame, n: nat)
    requires ParseFrame(s) == Parsed(f, n)
    ensures Encode(f) == s[..n] <==> MinimalLength(s) && s[0] & 0x70 == 0
  {
    hide Encode, MinimalLength, HasHeader, FrameOf, HeaderKey, AnnouncedLength;
    if Encode(f) == s[..n] {
      OnlyMinimalReencodes(s, f, n);
    }
    if MinimalLength(s) && s[0] & 0x70 == 0 {
      ReencodesMinimal(s, f, n);
    }
  }

  // ---------- Streams of frames ----------

  /** Every frame the parser finds in s, in order. */
  function ParseAll(s: bytes): seq<WsFrame>
    decreases |s|
  {
    match ParseFrame(s)
    case Incomplete => []
    case Parsed(f, n) => [f] + ParseAll(s[n..])
  }

  function ReceivedAll(fs: seq<WsFrame>): (r: seq<WsFrame>)
    ensures |r| == |fs|
  {
    seq(|fs|, i requires 0 <= i < |fs| => Received(fs[i]))
  }

  ghost predicate AllEncodable(fs: seq<WsFrame>) {
    forall f :: f in fs ==> f.Encodable()
  }

  lemma ParseStep(f: WsFrame, rest: bytes)
    requires f.Encodable()
    ensures ParseAll(Encode(f) + rest) == [Received(f)] + ParseAll(rest)
  {
    hide Encode, ParseFrame, Received;
    DecodeEncode(f, rest);
    assert (Encode(f) + rest)[|Encode(f)|..] == rest;
  }

  /** A stream of frames is decoded to those frames, followed by whatever its tail holds. */
  lemma {:induction false} DecodeStream(fs: seq<WsFrame>, tail: bytes)
    requires AllEncodable(fs)
    ensures ParseAll(EncodeAll(fs) + tail) == ReceivedAll(fs) + ParseAll(tail)
  {
    hide Encode, ParseAll, Received;
    if fs == [] {
      assert EncodeAll(fs) + tail == tail;
    } else {
      assert EncodeAll(fs) + tail == Encode(fs[0]) + (EncodeAll(fs[1..]) + tail);
      ParseStep(fs[0], EncodeAll(fs[1..]) + tail);
      DecodeStream(fs[1..], tail);
      assert ReceivedAll(fs) == [Received(fs[0])] + ReceivedAll(fs[1..]);
    }
  }

  /** Two frame lists with the same wire form carry the same frames. */
  lemma UniqueDecodability(fs: seq<WsFrame>, gs: seq<WsFrame>)
    requires AllEncodable(fs) && AllEncodable(gs)
    requires EncodeAll(fs) == EncodeAll(gs)
    ensures ReceivedAll(fs) == ReceivedAll(gs)
  {
    hide EncodeAll, Received;
    DecodeStream(fs, []);
    DecodeStream(gs, []);
    assert EncodeAll(fs) + [] == EncodeAll(fs);
    assert ParseAll([]) == [];
    assert ReceivedAll(fs) + [] == ReceivedAll(fs) && ReceivedAll(gs) + [] == ReceivedAll(gs);
  }
}
