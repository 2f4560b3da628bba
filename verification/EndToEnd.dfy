/**
  From the server's senders to the client's `read_message`: the write queue, the frame codec and the
  client's assembler put together.
 */
module EndToEnd {
  import opened Bytes
  import opened Frames
  import opened FrameCodec
  import opened ClosePayloads
  import opened ClientFrames
  import opened ClientReceiver
  import opened Agreement
  import opened WriteQueue

  function FramesOf(ss: seq<Send>): (fs: seq<WsFrame>)
    ensures |fs| == |ss|
  {
    seq(|ss|, i requires 0 <= i < |ss| => FrameOf(ss[i]))
  }

  /** The message a send carries, if any. */
  function MessageOf(s: Send): seq<WsMessage> {
    match s
    case Text(p) => [WsMessage(WS_TEXT, p)]
    case Binary(p) => [WsMessage(WS_BINARY, p)]
    case _ => []
  }

  /** The messages among the sends. */
  function MessagesOf(ss: seq<Send>): seq<WsMessage> {
    if ss == [] then [] else MessageOf(ss[0]) + MessagesOf(ss[1..])
  }

  /** The client reads on after a Text, Binary or Pong of at most 8 MiB. */
  predicate Passes(s: Send) {
    !s.Close? && |s.payload| <= MAX_FRAME_PAYLOAD
  }

  /** The sends before the first one that stops the client, and those from it on. */
  function BeforeStop(ss: seq<Send>): (b: seq<Send>)
    ensures b <= ss
  {
    if ss == [] || !Passes(ss[0]) then [] else [ss[0]] + BeforeStop(ss[1..])
  }

  function FromStop(ss: seq<Send>): seq<Send> {
    ss[|BeforeStop(ss)|..]
  }

  lemma {:induction false} MessagesAppend(a: seq<Send>, b: seq<Send>)
    ensures MessagesOf(a + b) == MessagesOf(a) + MessagesOf(b)
  {
    hide MessageOf;
    if a == [] {
      assert a + b == b;
    } else {
      var ab := a + b;
      assert ab[0] == a[0] && ab[1..] == a[1..] + b;
      MessagesAppend(a[1..], b);
      calc {
        MessagesOf(ab);
        MessageOf(a[0]) + MessagesOf(a[1..] + b);
        MessageOf(a[0]) + (MessagesOf(a[1..]) + MessagesOf(b));
        (MessageOf(a[0]) + MessagesOf(a[1..])) + MessagesOf(b);
        MessagesOf(a) + MessagesOf(b);
      }
    }
  }

  lemma SplitAtStop(ss: seq<Send>)
    ensures MessagesOf(ss) == MessagesOf(BeforeStop(ss)) + MessagesOf(FromStop(ss))
  {
    assert ss == BeforeStop(ss) + FromStop(ss);
    MessagesAppend(BeforeStop(ss), FromStop(ss));
  }

  // ---------- One send after the other ----------

  lemma SendIsWellMade(s: Send)
    requires s.Sized()
    ensures WellMade(FrameOf(s)) && (Readable(FrameOf(s)) <==> Passes(s))
  {
    if s.Close? {
      BuiltParsesBack(s.code, s.reason);
    }
  }

  lemma {:induction false} WiresAreEncodings(ss: seq<Send>)
    ensures Concat(Wires(ss)) == EncodeAll(FramesOf(ss))
  {
    hide Encode, FrameOf;
    if ss != [] {
      WiresAreEncodings(ss[1..]);
      assert Wires(ss)[1..] == Wires(ss[1..]) && FramesOf(ss)[1..] == FramesOf(ss[1..]);
    }
  }

  lemma {:induction false} VisibleSends(ss: seq<Send>)
    requires forall s :: s in ss ==> s.Sized()
    ensures Visible(FramesOf(ss)) == FramesOf(BeforeStop(ss))
  {
    hide FrameOf, Readable, Passes;
    if ss != [] {
      SendIsWellMade(ss[0]);
      VisibleSends(ss[1..]);
      assert FramesOf(ss)[1..] == FramesOf(ss[1..]);
      if Passes(ss[0]) {
        assert FramesOf(BeforeStop(ss)) == [FrameOf(ss[0])] + FramesOf(BeforeStop(ss[1..]));
      }
    }
  }

  /** An idle client turns sends it reads into their messages and stays idle. */
  lemma {:induction false} SendsAreFed(a: Assembler, ss: seq<Send>)
    requires !a.assembling && forall s :: s in ss ==> !s.Close?
    ensures FeedAll(a, Views(FramesOf(ss))).messages == MessagesOf(ss)
    decreases ss
  {
    if ss != [] {
      var f := ClientView(FrameOf(ss[0]));
      assert Views(FramesOf(ss))[0] == f && Views(FramesOf(ss))[1..] == Views(FramesOf(ss[1..]));
      assert ss[0] in ss;
      SendsAreFed(Feed(a, f).next, ss[1..]);
    }
  }

  lemma {:induction false} BeforeStopPasses(ss: seq<Send>)
    ensures forall s :: s in BeforeStop(ss) ==> s in ss && Passes(s)
  {
    if ss != [] {
      BeforeStopPasses(ss[1..]);
    }
  }

  /** What the client gets out of all octets enqueued. */
  lemma WholeStream(ss: seq<Send>)
    requires forall s :: s in ss ==> s.Sized()
    ensures AllMessages(IDLE, Concat(Wires(ss))) == MessagesOf(BeforeStop(ss))
  {
    hide Concat, EncodeAll, FrameOf, FeedAll, AllMessages, MessagesOf, Visible, BeforeStop, WellMade;
    WiresAreEncodings(ss);
    forall f | f in FramesOf(ss) ensures WellMade(f) {
      var i :| 0 <= i < |ss| && f == FrameOf(ss[i]);
      SendIsWellMade(ss[i]);
    }
    ClientDecodesStream(FramesOf(ss));
    VisibleSends(ss);
    AllMessagesIsFeed(IDLE, EncodeAll(FramesOf(ss)));
    BeforeStopPasses(ss);
    SendsAreFed(IDLE, BeforeStop(ss));
  }

  // ---------- The theorems ----------

  lemma ReachedBy(run: seq<Action>)
    requires ValidRun(INIT, run)
    ensures Reachable(Final(INIT, run))
  {
  }

  /**
    End-to-end order.  On every run of any number of concurrent senders, with partial writes, failures
    and closing, and for every part of the wire that has arrived, the messages the client has returned
    are a prefix of those of the senders admitted, in the order in which they started.
   */
  lemma EndToEndOrder(run: seq<Action>, arrived: bytes)
    requires ValidRun(INIT, run) && arrived <= Final(INIT, run).wire
    ensures var sent := Admitted(true, Spawns(run), run);
            AllMessages(IDLE, arrived) <= MessagesOf(BeforeStop(sent)) <= MessagesOf(sent)
    ensures Shut !in run ==> AllMessages(IDLE, arrived) <= MessagesOf(Started(Spawns(run), run))
  {
    hide Reachable, AllMessages, MessagesOf, Wires, Concat, BeforeStop, FromStop, ValidRun, Final, Admitted, Started,
         Spawns;
    var s := Final(INIT, run);
    ReachedBy(run);
    PushedAreStarted(run);
    WireNeverInterleaves(s);
    ReachableSound(s);
    assert arrived <= Enqueued(s);
    ArrivedMessagesArePrefix(IDLE, arrived, Enqueued(s));
    WholeStream(s.pushed);
    SplitAtStop(s.pushed);
  }

  /**
    Once the queue has drained and its octets have arrived, the client has returned the messages of all
    senders admitted if and only if none of them started from the first Close or oversized frame on;
    and when nothing closed the connection, every sender that started was admitted.
   */
  lemma EndToEndComplete(run: seq<Action>)
    requires ValidRun(INIT, run) && !Final(INIT, run).channel.writing
    ensures var sent, wire := Admitted(true, Spawns(run), run), Final(INIT, run).wire;
            && AllMessages(IDLE, wire) == MessagesOf(BeforeStop(sent))
            && (AllMessages(IDLE, wire) == MessagesOf(sent) <==> MessagesOf(FromStop(sent)) == [])
    ensures Shut !in run ==> Admitted(true, Spawns(run), run) == Started(Spawns(run), run)
  {
    hide Reachable, AllMessages, MessagesOf, Wires, Concat, BeforeStop, FromStop, ValidRun, Final, Admitted, Started,
         Spawns;
    var s := Final(INIT, run);
    ReachedBy(run);
    PushedAreStarted(run);
    IdleMeansSent(s);
    ReachableSound(s);
    WholeStream(s.pushed);
    SplitAtStop(s.pushed);
  }
}
