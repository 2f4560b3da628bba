/**
  The client's own frame codec (src/websocket_client.cpp): `read_frame`, which masks with a
  four-octet array and refuses what the server tolerates, and `make_frame_text`.
 */
module ClientFrames {
  import opened Bytes
  import opened Frames
  import opened FrameReader
  import opened FrameCodec

  const MAX_FRAME_PAYLOAD: nat := 8 * 1024 * 1024

  datatype InFrame = InFrame(opcode: byte, fin: bool, payload: bytes)

  /** The exceptions `read_frame` throws. */
  datatype Failure = EndOfStream | RsvBitsSet | InvalidOpcode | FrameTooLarge | CloseReceived

  datatype ReadResult = Threw(failure: Failure) | Read(frame: InFrame, consumed: nat)

  predicate KnownOpcode(op: byte) {
    op == WS_CONT || op == WS_TEXT || op == WS_BINARY || op == WS_CLOSE || op == WS_PING || op == WS_PONG
  }

  /** What `read_frame` returns or throws when s is all that ever arrives. */
  function ClientParse(s: bytes): (r: ReadResult)
    ensures r.Read? ==> 2 <= r.consumed <= |s|
  {
    if |s| < 2 then Threw(EndOfStream)
    else if s[0] & 0x70 != 0 then Threw(RsvBitsSet)
    else if !KnownOpcode(s[0] & 0x0F) then Threw(InvalidOpcode)
    else if !HasHeader(s) then Threw(EndOfStream)
    else
      var h, n := HeaderSize(s[1]), AnnouncedLength(s);
      if n > MAX_FRAME_PAYLOAD then Threw(FrameTooLarge)
      else if |s| < h + n then Threw(EndOfStream)
      else if s[0] & 0x0F == WS_CLOSE then Threw(CloseReceived)
      else
        Read(InFrame(s[0] & 0x0F, s[0] & 0x80 != 0, ClientPayload(s, h, n)), h + n)
  }

  /** The n payload octets after a header of h octets, unmasked with the four octets that end the header. */
  function ClientPayload(s: bytes, h: nat, n: nat): bytes
    requires HasHeader(s) && h == HeaderSize(s[1]) && h + n <= |s|
  {
    if IsMasked(s[1]) then MaskWith(s[h - 4..h], s[h..h + n]) else s[h..h + n]
  }

  /** The client's unmasking loop, indexing a four-octet key array. */
  method UnmaskWith(mask_key: array<byte>, payload: array<byte>)
    requires mask_key.Length == 4 && mask_key != payload
    modifies payload
    ensures payload[..] == MaskWith(mask_key[..], old(payload[..]))
  {
    for i := 0 to payload.Length
      invariant mask_key[..] == old(mask_key[..])
      invariant forall k :: i <= k < payload.Length ==> payload[k] == old(payload[k])
      invariant forall k :: 0 <= k < i ==> payload[k] == old(payload[k]) ^ mask_key[k % 4]
    {
      payload[i] := payload[i] ^ mask_key[i % 4];
    }
  }

  /** The `len == 126` and `len == 127` branches of `read_frame`. */
  method ReadLength(sock: Socket, b1: byte) returns (ok: bool, len: nat)
    modifies sock
    ensures var e := ExtensionSize(b1);
            && ok == (e <= |old(sock.unread)|)
            && (ok ==> sock.unread == old(sock.unread)[e..])
            && (ok ==> len == if e == 0 then (b1 & 0x7F) as nat else FromBigEndian(old(sock.unread)[..e]))
  {
    ok, len := true, (b1 & 0x7F) as nat;
    assert sock.unread == sock.unread[0..];
    var ext;
    if b1 & 0x7F == 126 {
      ok, ext := sock.ReadExactly(2);
      if ok {
        len := ext[0] as nat * 256 + ext[1] as nat;
        TwoOctetValue(ext[0], ext[1]);
        assert ext == [ext[0], ext[1]];
      }
    } else if b1 & 0x7F == 127 {
      ok, ext := sock.ReadExactly(8);
      if ok {
        len := 0;
        for i := 0 to 8
          invariant sock.unread == old(sock.unread)[8..]
          invariant len == FromBigEndian(ext[..i])
        {
          assert ext[..i] + [ext[i]] == ext[..i + 1];
          FromBigEndianSnoc(ext[..i], ext[i]);
          len := len * 256 + ext[i] as nat;
        }
        assert ext[..8] == ext;
      }
    }
  }

  /** The payload part of `read_frame`: read, then unmask in place. */
  method ReadPayload(sock: Socket, masked: bool, mask_key: array<byte>, len: nat) returns (ok: bool, payload: bytes)
    requires mask_key.Length == 4
    modifies sock
    ensures ok == (len <= |old(sock.unread)|)
    ensures ok ==> sock.unread == old(sock.unread)[len..]
    ensures ok ==> var raw := old(sock.unread)[..len];
                   payload == if masked then MaskWith(mask_key[..], raw) else raw
  {
    var data;
    ok, data := sock.ReadExactly(len);
    payload := [];
    if ok {
      var buf := new byte[len](i requires 0 <= i < len => data[i]);
      assert buf[..] == data;
      if masked {
        UnmaskWith(mask_key, buf);
      }
      payload := buf[..];
    }
  }

  /** The mask-key part of `read_frame`. */
  method ReadKey(sock: Socket, masked: bool) returns (ok: bool, mask_key: array<byte>)
    modifies sock
    ensures fresh(mask_key) && mask_key.Length == 4
    ensures ok == (masked ==> 4 <= |old(sock.unread)|)
    ensures ok && masked ==> mask_key[..] == old(sock.unread)[..4] && sock.unread == old(sock.unread)[4..]
    ensures !masked ==> sock.unread == old(sock.unread)
  {
    ok := true;
    mask_key := new byte[4](i => 0);
    if masked {
      var k;
      ok, k := sock.ReadExactly(4);
      if ok {
        forall i | 0 <= i < 4 { mask_key[i] := k[i]; }
        assert mask_key[..] == k;
      }
    }
  }

  /** The size limit, the payload and the Close test that end `read_frame`. */
  method ReadBody(sock: Socket, b0: byte, b1: byte, mask_key: array<byte>, len: nat, ghost s: bytes)
    returns (r: ReadResult)
    requires HasHeader(s) && s[0] == b0 && s[1] == b1 && len == AnnouncedLength(s)
    requires b0 & 0x70 == 0 && KnownOpcode(b0 & 0x0F)
    requires sock.unread == s[HeaderSize(b1)..]
    requires mask_key.Length == 4 && (IsMasked(b1) ==> mask_key[..] == s[HeaderSize(b1) - 4..HeaderSize(b1)])
    modifies sock
    ensures r == ClientParse(s)
    ensures r.Read? ==> r.consumed <= |s| && sock.unread == s[r.consumed..]
  {
    hide MaskWith, KnownOpcode, AnnouncedLength, ExtensionSize;
    if len > MAX_FRAME_PAYLOAD { return Threw(FrameTooLarge); }
    ghost var h := HeaderSize(b1);
    var ok, payload := ReadPayload(sock, IsMasked(b1), mask_key, len);
    if !ok { return Threw(EndOfStream); }
    assert s[h..][..len] == s[h..h + len] && s[h..][len..] == s[h + len..];
    if b0 & 0x0F == WS_CLOSE { return Threw(CloseReceived); }
    r := Read(InFrame(b0 & 0x0F, b0 & 0x80 != 0, payload), HeaderSize(b1) + len);
  }

  /** Everything `read_frame` reads after its first two octets were accepted. */
  method ReadRest(sock: Socket, b0: byte, b1: byte, ghost s: bytes) returns (r: ReadResult)
    requires b0 & 0x70 == 0 && KnownOpcode(b0 & 0x0F)
    requires s == [b0, b1] + sock.unread
    modifies sock
    ensures r == ClientParse(s)
    ensures r.Read? ==> r.consumed <= |s| && sock.unread == s[r.consumed..]
  {
    hide MaskWith, KnownOpcode, AnnouncedLength, ExtensionSize, ClientPayload;
    ghost var t := sock.unread;
    var ok, len := ReadLength(sock, b1);
    if !ok { return Threw(EndOfStream); }
    var mask_key;
    ok, mask_key := ReadKey(sock, IsMasked(b1));
    if !ok { return Threw(EndOfStream); }
    Layout(b0, b1, t);
    r := ReadBody(sock, b0, b1, mask_key, len, s);
  }

  /** Where the parts of a header lie in the octets after the first two. */
  lemma Layout(b0: byte, b1: byte, t: bytes)
    requires |t| + 2 >= HeaderSize(b1)
    ensures var s, e, h := [b0, b1] + t, ExtensionSize(b1), HeaderSize(b1);
            && AnnouncedLength(s) == (if e == 0 then (b1 & 0x7F) as nat else FromBigEndian(t[..e]))
            && t[e..][h - 2 - e..] == s[h..] && t[e..] == s[2 + e..]
            && (IsMasked(b1) ==> t[e..][..4] == s[h - 4..h])
  {
    hide ExtensionSize, IsMasked, FromBigEndian;
    var s, e, h := [b0, b1] + t, ExtensionSize(b1), HeaderSize(b1);
    assert s[2..2 + e] == t[..e];
    DropPast(b0, b1, t, e);
    DropPast(b0, b1, t, h - 2);
    DropDrop(t, e, h - 2 - e);
    if IsMasked(b1) {
      assert t[e..][..4] == t[e..e + 4] == s[h - 4..h];
    }
  }

  /** `read_frame`. */
  method ReadFrame(sock: Socket) returns (r: ReadResult)
    modifies sock
    ensures r == ClientParse(old(sock.unread))
    ensures r.Read? ==> r.consumed <= |old(sock.unread)| && sock.unread == old(sock.unread)[r.consumed..]
  {
    ghost var s := sock.unread;
    var ok, header := sock.ReadExactly(2);
    if !ok { return Threw(EndOfStream); }
    var b0, b1 := header[0], header[1];
    if b0 & 0x70 != 0 { return Threw(RsvBitsSet); }
    if !KnownOpcode(b0 & 0x0F) { return Threw(InvalidOpcode); }
    assert s == [b0, b1] + s[2..];
    r := ReadRest(sock, b0, b1, s);
  }

  // ---------- Agreement with the server's parser ----------

  /** What the client sees of a frame the server's parser produced. */
  function ClientView(f: WsFrame): InFrame {
    InFrame(f.opcode, f.fin, f.payload_data)
  }

  /** The frames the client lets through. */
  ghost predicate Acceptable(b0: byte, f: WsFrame) {
    b0 & 0x70 == 0 && KnownOpcode(f.opcode) && f.opcode != WS_CLOSE && |f.payload_data| <= MAX_FRAME_PAYLOAD
  }

  /**
    On arbitrary octets, the client reads a frame exactly when the server's parser reads an
    acceptable one, and then both consume the same octets and see the same frame.
   */
  lemma DecoderAgreement(s: bytes)
    ensures ClientParse(s).Read? <==> ParseFrame(s).Parsed? && Acceptable(s[0], ParseFrame(s).frame)
    ensures ClientParse(s).Read? ==>
              && ClientParse(s).consumed == ParseFrame(s).consumed
              && ClientParse(s).frame == ClientView(ParseFrame(s).frame)
  {
    hide KeyFromOctets, KeyOctets, MaskWith, AnnouncedLength, ExtensionSize;
    if HasHeader(s) && IsMasked(s[1]) {
      KeyOctetsRoundTrip(s[HeaderSize(s[1]) - 4..HeaderSize(s[1])]);
    }
  }

  /**
    What makes `read_frame` throw, in the order of its tests: the end of the stream, an RSV bit, an
    opcode other than the six, a length above 8 MiB as soon as the header is there, and a Close once
    it was read.
   */
  lemma ClientThrows(s: bytes)
    ensures var h, r := SpelledHeader(s), ClientParse(s);
            && (|s| < 2 ==> r == Threw(EndOfStream))
            && (|s| >= 2 && s[0] & 0x70 != 0 ==> r == Threw(RsvBitsSet))
            && (|s| >= 2 && s[0] & 0x70 == 0 ==>
                  var known := s[0] & 0x0F in {0x0, 0x1, 0x2, 0x8, 0x9, 0xA};
                  && (!known ==> r == Threw(InvalidOpcode))
                  && (known && |s| < h ==> r == Threw(EndOfStream))
                  && (known && |s| >= h && SpelledLength(s) > 8388608 ==> r == Threw(FrameTooLarge))
                  && (known && |s| >= h && SpelledLength(s) <= 8388608 && |s| < h + SpelledLength(s) ==>
                        r == Threw(EndOfStream))
                  && (known && |s| >= h && SpelledLength(s) <= 8388608 && |s| >= h + SpelledLength(s) ==>
                        if s[0] & 0x0F == 0x8 then r == Threw(CloseReceived)
                        else r.Read? && r.consumed == h + SpelledLength(s)
                             && r.frame.opcode == s[0] & 0x0F && r.frame.fin == (s[0] & 0x80 != 0)))
  {
    hide ClientPayload, FromBigEndian, AnnouncedLength, SpelledLength;
    if HasHeader(s) {
      SpelledIsAnnounced(s);
    }
  }

  /** The client reads back any acceptable frame as written, whatever octets follow. */
  lemma ClientDecodes(f: WsFrame, rest: bytes)
    requires f.Encodable() && f.NoRsv() && KnownOpcode(f.opcode) && f.opcode != WS_CLOSE
    requires |f.payload_data| <= MAX_FRAME_PAYLOAD
    ensures ClientParse(Encode(f) + rest) == Read(ClientView(f), |Encode(f)|)
  {
    hide ParseFrame, ClientParse, Header, WirePayload, Byte0, Byte1;
    DecodeEncode(f, rest);
    Byte0Bits(f);
    assert (Encode(f) + rest)[0] == Byte0(f) by { EncodeHead(f); }
    DecoderAgreement(Encode(f) + rest);
  }

  lemma EncodeHead(f: WsFrame)
    ensures |Encode(f)| >= 2 && Encode(f)[0] == Byte0(f)
  {
    hide Byte0, Byte1, ExtendedLength, WirePayload;
  }

  // ---------- The client's writers ----------

  /** A masked FIN frame, the only kind the client sends. */
  function MaskedFrame(opcode: byte, key: bv32, payload: bytes): WsFrame {
    WsFrame(true, false, false, false, opcode, true, key, payload)
  }

  /**
    `make_frame_text`, for the four octets the random device supplied: octet for octet what
    `write_frame` produces for the FIN text frame whose 32-bit key spells them big-endian.
   */
  method MakeFrameText(msg: bytes, mask_bytes: bytes) returns (out: bytes)
    requires |msg| < U64_LIMIT && |mask_bytes| == 4
    ensures out == Encode(MaskedFrame(WS_TEXT, KeyFromOctets(mask_bytes), msg))
  {
    hide Encode, Byte1, ExtendedLength, KeyOctets, KeyFromOctets;
    out := [0x81];
    out := PushTextLength(out, |msg|);
    out := out + mask_bytes;
    ghost var header := out;
    for i := 0 to |msg|
      invariant out == header + MaskWith(mask_bytes, msg)[..i]
    {
      var b := msg[i];
      b := b ^ mask_bytes[i % 4];
      out := out + [b];
    }
    TextFrameLayout(msg, mask_bytes);
  }

  /** The length part of `make_frame_text`. */
  method PushTextLength(start: bytes, len: nat) returns (out: bytes)
    requires len < U64_LIMIT
    ensures out == start + [Byte1(true, len)] + ExtendedLength(len)
  {
    var maskbit: byte := 0x80;
    if len < 126 {
      out := start + [maskbit | Octet(len)];
    } else if len <= 0xFFFF {
      out := start + [maskbit | Octet(126)];
      out := out + [Octet(ShiftRight(len, 1) % 256)];
      out := out + [Octet(len % 256)];
      TwoOctets(len);
    } else {
      out := PushEightOctets(start + [maskbit | Octet(127)], len);
    }
  }

  lemma TextFrameLayout(msg: bytes, mask_bytes: bytes)
    requires |mask_bytes| == 4
    ensures Encode(MaskedFrame(WS_TEXT, KeyFromOctets(mask_bytes), msg))
            == [0x81] + [Byte1(true, |msg|)] + ExtendedLength(|msg|) + mask_bytes + MaskWith(mask_bytes, msg)
  {
    hide KeyOctets, KeyFromOctets, Byte1, ExtendedLength, MaskWith;
    KeyOctetsRoundTrip(mask_bytes);
    assert Byte0(MaskedFrame(WS_TEXT, KeyFromOctets(mask_bytes), msg)) == 0x81;
  }
}
