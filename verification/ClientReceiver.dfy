/**
  The client object: message assembly in `read_message` and `receive_loop`, and the senders
  (src/websocket_client.cpp).
 */
module ClientReceiver {
  import opened Bytes
  import opened Frames
  import opened FrameReader
  import opened FrameCodec
  import opened ClientFrames
  import opened ClosePayloads

  datatype WsMessage = WsMessage(opcode: byte, payload: bytes)

  /** `assembling_`, `assembling_opcode_` and `assembling_buf_`. */
  datatype Assembler = Assembler(assembling: bool, opcode: byte, buf: bytes)

  const IDLE := Assembler(false, 0, [])

  datatype Step =
    | Silent(next: Assembler)
    | Complete(next: Assembler, message: WsMessage)
    | ProtocolError(next: Assembler)

  /** What `read_message` does with one frame.  The buffer is moved out of a finished message. */
  function Feed(a: Assembler, f: InFrame): Step {
    if f.opcode == WS_CLOSE then ProtocolError(a)
    else if f.opcode == WS_PING || f.opcode == WS_PONG then Silent(a)
    else if !a.assembling then
      if f.opcode == WS_CONT then Silent(a)
      else if f.opcode != WS_TEXT && f.opcode != WS_BINARY then ProtocolError(a)
      else if f.fin then Complete(Assembler(false, f.opcode, []), WsMessage(f.opcode, f.payload))
      else Silent(Assembler(true, f.opcode, f.payload))
    else if f.opcode != WS_CONT then ProtocolError(Assembler(false, a.opcode, []))
    else if f.fin then Complete(Assembler(false, a.opcode, []), WsMessage(a.opcode, a.buf + f.payload))
    else Silent(a.(buf := a.buf + f.payload))
  }

  /** What `read_message` does with one frame, case by case. */
  lemma FeedForm(a: Assembler, f: InFrame)
    requires f.opcode in {0x0, 0x1, 0x2, 0x9, 0xA}
    ensures f.opcode in {0x9, 0xA} ==> Feed(a, f) == Silent(a)
    ensures f.opcode == 0x0 && !a.assembling ==> Feed(a, f) == Silent(a)
    ensures f.opcode in {0x1, 0x2} && a.assembling ==>
              Feed(a, f).ProtocolError? && !Feed(a, f).next.assembling && Feed(a, f).next.buf == []
    ensures (f.opcode == 0x0) == a.assembling && f.opcode in {0x0, 0x1, 0x2} ==>
              var msg := if a.assembling then a.buf + f.payload else f.payload;
              var op := if a.assembling then a.opcode else f.opcode;
              Feed(a, f) == if f.fin then Complete(Assembler(false, op, []), WsMessage(op, msg))
                            else Silent(Assembler(true, op, msg))
  {
  }

  // ---------- Frame lists ----------

  datatype ClientOutcome = ClientOutcome(last: Assembler, messages: seq<WsMessage>, failed: bool)

  function FeedAll(a: Assembler, fs: seq<InFrame>): ClientOutcome
    decreases fs
  {
    if fs == [] then ClientOutcome(a, [], false) else
    match Feed(a, fs[0])
    case ProtocolError(next) => ClientOutcome(next, [], true)
    case Silent(next) => FeedAll(next, fs[1..])
    case Complete(next, m) =>
      var o := FeedAll(next, fs[1..]);
      o.(messages := [m] + o.messages)
  }

  /** Messages already returned are not changed by frames that arrive later. */
  lemma {:induction false} MoreFramesMoreMessages(a: Assembler, fs: seq<InFrame>, gs: seq<InFrame>)
    requires fs <= gs
    ensures FeedAll(a, fs).messages <= FeedAll(a, gs).messages
    decreases fs
  {
    if fs != [] {
      assert fs[1..] <= gs[1..];
      match Feed(a, fs[0])
      case ProtocolError(next) =>
      case Silent(next) => MoreFramesMoreMessages(next, fs[1..], gs[1..]);
      case Complete(next, m) => MoreFramesMoreMessages(next, fs[1..], gs[1..]);
    }
  }

  // ---------- Octet streams ----------

  /** The frames `read_frame` returns before it first throws. */
  function ClientParseAll(s: bytes): seq<InFrame>
    decreases |s|
  {
    match ClientParse(s)
    case Threw(_) => []
    case Read(f, n) => [f] + ClientParseAll(s[n..])
  }

  datatype MessageResult = Failed(last: Assembler) | Got(last: Assembler, message: WsMessage, rest: bytes)

  /** What `read_message` returns or throws when s is all that ever arrives. */
  function NextMessage(a: Assembler, s: bytes): (r: MessageResult)
    ensures r.Got? ==> |r.rest| < |s|
    decreases |s|
  {
    match ClientParse(s)
    case Threw(_) => Failed(a)
    case Read(f, n) =>
      match Feed(a, f)
      case ProtocolError(next) => Failed(next)
      case Silent(next) => NextMessage(next, s[n..])
      case Complete(next, m) => Got(next, m, s[n..])
  }

  /** The messages `receive_loop` sees before an exception stops it. */
  function AllMessages(a: Assembler, s: bytes): seq<WsMessage>
    decreases |s|
  {
    match NextMessage(a, s)
    case Failed(_) => []
    case Got(next, m, rest) => [m] + AllMessages(next, rest)
  }

  lemma {:induction false} NextMessageIsFeed(a: Assembler, s: bytes)
    ensures var o := FeedAll(a, ClientParseAll(s));
            match NextMessage(a, s)
            case Failed(last) => o.messages == []
            case Got(next, m, rest) =>
              o.messages == [m] + FeedAll(next, ClientParseAll(rest)).messages
    decreases |s|
  {
    hide ClientParse;
    match ClientParse(s)
    case Threw(_) =>
    case Read(f, n) =>
      assert ClientParseAll(s)[1..] == ClientParseAll(s[n..]);
      match Feed(a, f)
      case ProtocolError(next) =>
      case Silent(next) => NextMessageIsFeed(next, s[n..]);
      case Complete(next, m) =>
  }

  /** Receiving a stream is feeding the assembler the frames it parses to. */
  lemma {:induction false} AllMessagesIsFeed(a: Assembler, s: bytes)
    ensures AllMessages(a, s) == FeedAll(a, ClientParseAll(s)).messages
    decreases |s|
  {
    hide ClientParseAll, FeedAll, NextMessage;
    NextMessageIsFeed(a, s);
    match NextMessage(a, s)
    case Failed(_) =>
    case Got(next, m, rest) => AllMessagesIsFeed(next, rest);
  }

  // ---------- Partial arrival ----------

  lemma PayloadIsLocal(r: bytes, s: bytes, h: nat, n: nat)
    requires r <= s && HasHeader(r) && h == HeaderSize(r[1]) && h + n <= |r|
    ensures ClientPayload(s, h, n) == ClientPayload(r, h, n)
  {
    hide MaskWith, ExtensionSize;
    if IsMasked(r[1]) {
      assert s[h - 4..h] == r[h - 4..h];
    }
    assert s[h..h + n] == r[h..h + n];
  }

  /** A frame that has fully arrived is read the same whatever follows it. */
  lemma ReadIsLocal(r: bytes, s: bytes)
    requires r <= s && ClientParse(r).Read?
    ensures ClientParse(s) == ClientParse(r)
  {
    hide KnownOpcode, ClientPayload, AnnouncedLength, HeaderSize;
    HeaderIsLocal(r, s);
    PayloadIsLocal(r, s, HeaderSize(r[1]), AnnouncedLength(r));
  }

  lemma {:induction false} ArrivedFramesArePrefix(r: bytes, s: bytes)
    requires r <= s
    ensures ClientParseAll(r) <= ClientParseAll(s)
    decreases |r|
  {
    hide ClientParse;
    match ClientParse(r)
    case Threw(_) =>
    case Read(f, n) =>
      ReadIsLocal(r, s);
      assert r[n..] <= s[n..];
      ArrivedFramesArePrefix(r[n..], s[n..]);
  }

  /** On arbitrary octets: what has been received is a prefix of what the whole stream yields. */
  lemma ArrivedMessagesArePrefix(a: Assembler, r: bytes, s: bytes)
    requires r <= s
    ensures AllMessages(a, r) <= AllMessages(a, s)
  {
    hide AllMessages, FeedAll, ClientParseAll;
    ArrivedFramesArePrefix(r, s);
    MoreFramesMoreMessages(a, ClientParseAll(r), ClientParseAll(s));
    AllMessagesIsFeed(a, r);
    AllMessagesIsFeed(a, s);
  }

  // ---------- The program's object ----------

  datatype Reply = Message(message: WsMessage) | Exception

  class Client {
    var assembling_: bool
    var assembling_opcode_: byte
    var assembling_buf_: bytes
    var stopped: bool
    var sent: bytes               // what the client wrote to the socket
    const sock: Socket

    ghost function Value(): Assembler
      reads this
    {
      Assembler(assembling_, assembling_opcode_, assembling_buf_)
    }

    constructor (sock: Socket)
      ensures Value() == IDLE && !stopped && sent == [] && this.sock == sock
    {
      assembling_, assembling_opcode_, assembling_buf_, stopped, sent := false, 0, [], false, [];
      this.sock := sock;
    }

    /** The body of `read_message`'s loop after `read_frame` returned f. */
    method TakeFrame(f: InFrame) returns (done: bool, r: Reply)
      modifies this
      ensures stopped == old(stopped)
      ensures match Feed(old(Value()), f)
              case ProtocolError(next) => done && r == Exception && Value() == next
              case Silent(next) => !done && Value() == next
              case Complete(next, m) => done && r == Message(m) && Value() == next
    {
      done, r := true, Exception;
      if f.opcode == WS_CLOSE { return; }
      if f.opcode == WS_PING { return false, Exception; }
      if f.opcode == WS_PONG { return false, Exception; }
      if !assembling_ {
        if f.opcode == WS_CONT { return false, Exception; }
        if f.opcode != WS_TEXT && f.opcode != WS_BINARY { return; }
        assembling_ := true;
        assembling_opcode_ := f.opcode;
        assembling_buf_ := [];
        assembling_buf_ := assembling_buf_ + f.payload;
        if f.fin {
          assembling_ := false;
          r := Message(WsMessage(assembling_opcode_, assembling_buf_));
          assembling_buf_ := [];
          return;
        }
        return false, Exception;
      }
      if f.opcode != WS_CONT {
        assembling_ := false;
        assembling_buf_ := [];
        return;
      }
      assembling_buf_ := assembling_buf_ + f.payload;
      if f.fin {
        assembling_ := false;
        r := Message(WsMessage(assembling_opcode_, assembling_buf_));
        assembling_buf_ := [];
        return;
      }
      done := false;
    }

    /** `read_message`. */
    method ReadMessage() returns (r: Reply)
      modifies this, sock
      ensures stopped == old(stopped)
      ensures match NextMessage(old(Value()), old(sock.unread))
              case Failed(last) => r == Exception && Value() == last
              case Got(next, m, rest) => r == Message(m) && Value() == next && sock.unread == rest
    {
      hide ClientParse, Feed;
      ghost var total := NextMessage(Value(), sock.unread);
      while true
        invariant NextMessage(Value(), sock.unread) == total && stopped == old(stopped)
        decreases |sock.unread|
      {
        var f := ClientFrames.ReadFrame(sock);
        if f.Threw? { return Exception; }
        var done;
        done, r := TakeFrame(f.frame);
        if done { return; }
      }
    }

    /** `receive_loop`; `received` collects what it is handed. */
    method ReceiveLoop() returns (received: seq<WsMessage>)
      modifies this, sock
      ensures received == AllMessages(old(Value()), old(sock.unread)) && stopped
    {
      hide NextMessage;
      received := [];
      ghost var total := AllMessages(Value(), sock.unread);
      while true
        invariant received + AllMessages(Value(), sock.unread) == total
        decreases |sock.unread|
      {
        var m := ReadMessage();
        if m.Exception? {
          stopped := true;
          break;
        }
        received := received + [m.message];
      }
      stopped := true;
    }

    /** `send_text`, for the four octets the random device supplied. */
    method SendText(msg: bytes, mask_bytes: bytes)
      requires |msg| < U64_LIMIT && |mask_bytes| == 4
      modifies this`sent
      ensures sent == old(sent) + if stopped then [] else Encode(MaskedFrame(WS_TEXT, KeyFromOctets(mask_bytes), msg))
    {
      hide Encode;
      if stopped { return; }
      var frame := MakeFrameText(msg, mask_bytes);
      sent := sent + frame;
    }

    /** `send_binary`, for the key the random device supplied. */
    method SendBinary(data: bytes, key: bv32)
      requires |data| < U64_LIMIT
      modifies this`sent
      ensures sent == old(sent) + if stopped then [] else Encode(MaskedFrame(WS_BINARY, key, data))
    {
      hide Encode;
      if stopped { return; }
      var frame := WriteFrame(WsFrame(true, false, false, false, 0x2, true, key, data));
      sent := sent + frame;
    }

    /** `send_close`. */
    method SendClose(code: bv16, key: bv32)
      modifies this`sent
      ensures sent == old(sent) + if stopped then [] else Encode(MaskedFrame(WS_CLOSE, key, ClosePayload(code, [])))
    {
      hide Encode;
      if stopped { return; }
      var payload: bytes := [0, 0];
      payload := payload[0 := ((code >> 8) & 0xFF) as byte];
      payload := payload[1 := (code & 0xFF) as byte];
      assert payload == ClosePayload(code, []);
      var frame := WriteFrame(WsFrame(true, false, false, false, 0x8, true, key, payload));
      sent := sent + frame;
    }
  }
}
