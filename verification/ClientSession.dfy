/**
  The other direction: everything the client's senders write (src/websocket_client.cpp), as the
  server's read loop takes it (include/websocket/WebSocket.h).
 */
module ClientSession {
  import opened Bytes
  import opened Frames
  import opened FrameCodec
  import opened ClosePayloads
  import opened ClientFrames
  import opened Receiver

  datatype ClientSend = Text(msg: bytes) | Binary(data: bytes) | Close(code: bv16)
  {
    function Payload(): bytes {
      match this
      case Text(msg) => msg
      case Binary(data) => data
      case Close(code) => ClosePayload(code, [])
    }
  }

  /** The frame `send_text`, `send_binary` or `send_close` writes. */
  function FrameFor(s: ClientSend, key: bv32): WsFrame {
    MaskedFrame(if s.Text? then WS_TEXT else if s.Binary? then WS_BINARY else WS_CLOSE, key, s.Payload())
  }

  function FramesFor(ss: seq<ClientSend>, keys: seq<bv32>): (fs: seq<WsFrame>)
    requires |keys| == |ss|
    ensures |fs| == |ss|
  {
    seq(|ss|, i requires 0 <= i < |ss| => FrameFor(ss[i], keys[i]))
  }

  /** What the server does about one send. */
  function Effects(s: ClientSend): seq<Event> {
    match s
    case Close(code) => [Queued(CloseFrame(code, [])), SocketClosed, CloseHandler(code, []), CleanedUp]
    case _ => if |s.Payload()| <= MAX_MSG_SIZE then [Delivered(s.Payload())] else Report(1009, "Message too big")
  }

  /** The sends up to and including the first Close. */
  function UpToClose(ss: seq<ClientSend>): seq<ClientSend> {
    if ss == [] then [] else [ss[0]] + if ss[0].Close? then [] else UpToClose(ss[1..])
  }

  function AllEffects(ss: seq<ClientSend>): seq<Event> {
    if ss == [] then [] else Effects(ss[0]) + AllEffects(ss[1..])
  }

  lemma HandleSend(s: ClientSend, key: bv32)
    ensures Handle(MAX_MSG_SIZE, EMPTY_BODY, FrameFor(s, key)) == Outcome(EMPTY_BODY, Effects(s), s.Close?)
  {
    hide Report, CloseFrame, ClosePayload, ParseClose;
    if s.Close? {
      BuiltParsesBack(s.code, []);
    } else {
      assert [] + s.Payload() == s.Payload();
    }
  }

  lemma {:induction false} RunSends(ss: seq<ClientSend>, keys: seq<bv32>)
    requires |keys| == |ss|
    ensures Run(EMPTY_BODY, FramesFor(ss, keys))
            == Outcome(EMPTY_BODY, AllEffects(UpToClose(ss)), exists s :: s in ss && s.Close?)
  {
    hide Run, Handle, Effects, FrameFor;
    var fs := FramesFor(ss, keys);
    if ss == [] {
      RunNothing(EMPTY_BODY);
    } else {
      HandleSend(ss[0], keys[0]);
      RunStep(EMPTY_BODY, fs);
      assert fs[1..] == FramesFor(ss[1..], keys[1..]);
      if ss[0].Close? {
        assert UpToClose(ss) == [ss[0]] && Effects(ss[0]) + [] == Effects(ss[0]);
      } else {
        RunSends(ss[1..], keys[1..]);
        assert UpToClose(ss)[1..] == UpToClose(ss[1..]);
        assert (exists s :: s in ss && s.Close?) <==> exists s :: s in ss[1..] && s.Close?;
      }
    }
  }

  /**
    A whole client session.  For every list of sends, of any size and with any keys, the server
    delivers each text and binary message of at most 10 MiB in order, reports each larger one,
    answers the first Close with an equal Close, closes once with its code, and takes no notice of
    what follows; after every session its body is reset.
   */
  lemma SessionIsReceived(ss: seq<ClientSend>, keys: seq<bv32>)
    requires |keys| == |ss| && forall s :: s in ss ==> |s.Payload()| < U64_LIMIT
    ensures RunBytes(EMPTY_BODY, EncodeAll(FramesFor(ss, keys)))
            == Outcome(EMPTY_BODY, AllEffects(UpToClose(ss)), exists s :: s in ss && s.Close?)
  {
    hide Run, RunBytes, EncodeAll, AllEffects;
    RunSends(ss, keys);
    RunEncoded(EMPTY_BODY, FramesFor(ss, keys));
  }
}
