/**
  The parsing half of the server's `do_read_loop` (include/websocket/WebSocket.h).

  `ParseFrame` says what one iteration reads off the front of the unread octets; `ReadFrame` is the
  loop body over a socket and the 14-octet header buffer that lives across iterations.
 */
module FrameReader {
  import opened Bytes
  import opened Frames

  /** A connected socket: the octets that have arrived or will arrive before end of stream. */
  class Socket {
    var unread: bytes

    constructor (arriving: bytes)
      ensures unread == arriving
    {
      unread := arriving;
    }

    /** `asio::async_read` of exactly n octets: all of them, or an exception at end of stream. */
    method ReadExactly(n: nat) returns (ok: bool, data: bytes)
      modifies this
      ensures ok == (n <= |old(unread)|)
      ensures ok ==> data == old(unread)[..n] && unread == old(unread)[n..]
    {
      ok := n <= |unread|;
      if ok {
        data, unread := unread[..n], unread[n..];
      } else {
        data, unread := unread, [];
      }
    }
  }

  const HEADER_CAPACITY: nat := 14

  datatype Parse = Incomplete | Parsed(frame: WsFrame, consumed: nat)

  function ExtensionSize(b1: byte): (e: nat)
    ensures e == 0 || e == 2 || e == 8
  {
    var code := b1 & 0x7F;
    if code == 126 then 2 else if code == 127 then 8 else 0
  }

  predicate IsMasked(b1: byte) {
    b1 & 0x80 != 0
  }

  function HeaderSize(b1: byte): (n: nat)
    ensures 2 <= n <= HEADER_CAPACITY
  {
    2 + ExtensionSize(b1) + if IsMasked(b1) then 4 else 0
  }

  predicate HasHeader(s: bytes) {
    |s| >= 2 && |s| >= HeaderSize(s[1])
  }

  /** The payload length a complete header announces; the extension counts whatever it spells. */
  function AnnouncedLength(s: bytes): nat
    requires HasHeader(s)
  {
    var e := ExtensionSize(s[1]);
    if e == 0 then (s[1] & 0x7F) as nat else FromBigEndian(s[2..2 + e])
  }

  function HeaderKey(s: bytes): bv32
    requires HasHeader(s)
  {
    if IsMasked(s[1]) then KeyFromOctets(s[HeaderSize(s[1]) - 4..HeaderSize(s[1])]) else 0
  }

  predicate HasFrame(s: bytes) {
    HasHeader(s) && |s| >= HeaderSize(s[1]) + AnnouncedLength(s)
  }

  function FrameOf(b0: byte, b1: byte, key: bv32, raw: bytes): WsFrame {
    WsFrame(b0 & 0x80 != 0, false, false, false, b0 & 0x0F, IsMasked(b1), key,
            if IsMasked(b1) then ApplyMask(key, raw) else raw)
  }

  /** The frame at the front of s, RSV bits dropped and payload unmasked, and its size on the wire. */
  function ParseFrame(s: bytes): (r: Parse)
    ensures r.Parsed? ==> 2 <= r.consumed <= |s|
  {
    if !HasFrame(s) then Incomplete else
    var h := HeaderSize(s[1]);
    var n := AnnouncedLength(s);
    Parsed(FrameOf(s[0], s[1], HeaderKey(s), s[h..h + n]), h + n)
  }

  /** A complete header reads the same whatever follows it. */
  lemma HeaderIsLocal(r: bytes, s: bytes)
    requires r <= s && HasHeader(r)
    ensures HasHeader(s) && AnnouncedLength(s) == AnnouncedLength(r)
  {
    hide FromBigEndian;
    PrefixSlice(r, s, 2, 2 + ExtensionSize(r[1]));
  }

  /** Reads n octets into the header buffer at `lo`. */
  method ReadHeader(sock: Socket, header: array<byte>, lo: nat, n: nat) returns (ok: bool)
    requires lo + n <= header.Length
    modifies sock, header
    ensures ok == (n <= |old(sock.unread)|)
    ensures ok ==> sock.unread == old(sock.unread)[n..]
    ensures ok ==> header[..lo + n] == old(header[..lo]) + old(sock.unread)[..n]
  {
    var data;
    ok, data := sock.ReadExactly(n);
    if ok {
      forall i | 0 <= i < n {
        header[lo + i] := data[i];
      }
      assert header[..lo] == old(header[..lo]);
      assert header[lo..lo + n] == data;
      assert header[..lo + n] == header[..lo] + header[lo..lo + n];
    }
  }

  /** The in-place unmasking loop. */
  method Unmask(key: bv32, buf: array<byte>)
    modifies buf
    ensures buf[..] == ApplyMask(key, old(buf[..]))
  {
    hide KeyOctets, ShiftedOctet, Slot;
    for i := 0 to buf.Length
      invariant forall k :: i <= k < buf.Length ==> buf[k] == old(buf[k])
      invariant forall k :: 0 <= k < i ==> buf[k] == ApplyMask(key, old(buf[..]))[k]
    {
      ShiftIsIndex(key, i);
      var m := ShiftedOctet(key, Slot(i));
      buf[i] := buf[i] ^ m;
    }
  }

  /** The extended length, read big-endian out of the header buffer from index 2. */
  method ExtendedLengthOf(header: array<byte>, ext_len_bytes: nat) returns (payload_len: nat)
    requires header.Length == HEADER_CAPACITY
    requires ext_len_bytes == 2 || ext_len_bytes == 8
    ensures payload_len == FromBigEndian(header[2..2 + ext_len_bytes])
  {
    if ext_len_bytes == 2 {
      payload_len := header[2] as nat * 256 + header[3] as nat;
      TwoOctetValue(header[2], header[3]);
      assert header[2..4] == [header[2], header[3]];
    } else {
      payload_len := 0;
      for i := 0 to 8
        invariant payload_len == FromBigEndian(header[2..2 + i])
      {
        assert header[2..2 + i] + [header[2 + i]] == header[2..2 + i + 1];
        FromBigEndianSnoc(header[2..2 + i], header[2 + i]);
        payload_len := payload_len * 256 + header[2 + i] as nat;
      }
    }
  }

  /** Fills the header buffer: two octets, then as many as the second one announces. */
  method FillHeader(sock: Socket, header: array<byte>) returns (ok: bool)
    requires header.Length == HEADER_CAPACITY
    modifies sock, header
    ensures ok == HasHeader(old(sock.unread))
    ensures ok ==> var s := old(sock.unread);
                   && header[..HeaderSize(s[1])] == s[..HeaderSize(s[1])]
                   && sock.unread == s[HeaderSize(s[1])..]
  {
    hide ExtensionSize, IsMasked;
    ghost var s := sock.unread;
    ok := ReadHeader(sock, header, 0, 2);
    if !ok { return; }
    assert header[1] == header[..2][1];
    var total_header_bytes := HeaderSize(header[1]);
    if total_header_bytes > 2 {
      ok := ReadHeader(sock, header, 2, total_header_bytes - 2);
      if !ok { return; }
      assert s[..2] + s[2..][..total_header_bytes - 2] == s[..total_header_bytes];
    }
  }

  /** The length and the key in a full header buffer. */
  method DecodeHeader(header: array<byte>, ghost s: bytes) returns (payload_len: nat, key: bv32)
    requires header.Length == HEADER_CAPACITY
    requires HasHeader(s) && header[..HeaderSize(s[1])] == s[..HeaderSize(s[1])]
    ensures payload_len == AnnouncedLength(s) && key == HeaderKey(s)
  {
    hide KeyFromOctets, FromBigEndian, IsMasked;
    assert header[1] == header[..HeaderSize(s[1])][1];
    var b1 := header[1];
    var ext_len_bytes, total_header_bytes := ExtensionSize(b1), HeaderSize(b1);
    if ext_len_bytes == 0 {
      payload_len := (b1 & 0x7F) as nat;
    } else {
      SubHeader(header, total_header_bytes, s, 2, 2 + ext_len_bytes);
      payload_len := ExtendedLengthOf(header, ext_len_bytes);
    }
    key := 0;
    if IsMasked(b1) {
      SubHeader(header, total_header_bytes, s, total_header_bytes - 4, total_header_bytes);
      key := KeyFromOctets(header[total_header_bytes - 4..total_header_bytes]);
    }
  }

  lemma SubHeader(header: array<byte>, n: nat, s: bytes, i: nat, j: nat)
    requires n <= header.Length && n <= |s| && header[..n] == s[..n] && i <= j <= n
    ensures header[i..j] == s[i..j]
  {
    assert header[i..j] == header[..n][i..j] && s[i..j] == s[..n][i..j];
  }

  /** One iteration of `do_read_loop` up to the call of `handle_parsed_frame`. */
  method ReadFrame(sock: Socket, header: array<byte>) returns (ok: bool, f: WsFrame)
    requires header.Length == HEADER_CAPACITY
    modifies sock, header
    ensures match ParseFrame(old(sock.unread))
            case Incomplete => !ok
            case Parsed(frame, consumed) => ok && f == frame && sock.unread == old(sock.unread)[consumed..]
  {
    hide ApplyMask, AnnouncedLength, HeaderKey, HeaderSize;
    ghost var s := sock.unread;
    f := ServerFrame(0, []);
    ok := FillHeader(sock, header);
    if !ok { return; }
    var payload_len, key := DecodeHeader(header, s);
    var b0, b1 := header[0], header[1];
    assert b0 == header[..HeaderSize(s[1])][0] && b1 == header[..HeaderSize(s[1])][1];
    var data;
    ok, data := sock.ReadExactly(payload_len);
    if !ok { return; }
    ghost var h := HeaderSize(s[1]);
    assert data == s[h..h + payload_len];
    var buf := new byte[payload_len](i requires 0 <= i < payload_len => data[i]);
    assert buf[..] == data;
    if IsMasked(b1) {
      Unmask(key, buf);
    }
    f := WsFrame(b0 & 0x80 != 0, false, false, false, b0 & 0x0F, IsMasked(b1), key, buf[..]);
  }
}
