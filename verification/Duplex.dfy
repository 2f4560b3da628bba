/**
  Both directions at once (include/websocket/WebSocket.h): the read loop, whose replies are sent one
  after the other through the same `do_write` as everything else, and the client at the other end.
 */
module Duplex {
  import opened Bytes
  import opened Frames
  import opened FrameCodec
  import opened ClosePayloads
  import opened ClientFrames
  import opened ClientReceiver
  import opened Receiver
  import opened Reception
  import opened Agreement
  import opened WriteQueue
  import opened EndToEnd

  // ---------- Pongs ----------

  function PongSends(ss: seq<Send>): seq<Send> {
    if ss == [] then [] else (if ss[0].Pong? then [ss[0]] else []) + PongSends(ss[1..])
  }

  function PongFrames(fs: seq<WsFrame>): seq<WsFrame> {
    if fs == [] then [] else (if fs[0].opcode == WS_PONG then [fs[0]] else []) + PongFrames(fs[1..])
  }

  /** The Pongs among the frames the client's `read_frame` returned. */
  function PongsRead(vs: seq<InFrame>): seq<InFrame> {
    if vs == [] then [] else (if vs[0].opcode == WS_PONG then [vs[0]] else []) + PongsRead(vs[1..])
  }

  /** The Pongs due for a list of frames: one for each FIN Ping, with its payload. */
  function PongsDue(fs: seq<WsFrame>): seq<InFrame> {
    if fs == [] then []
    else (if fs[0].opcode == WS_PING && fs[0].fin then [InFrame(WS_PONG, true, fs[0].payload_data)] else [])
         + PongsDue(fs[1..])
  }

  lemma {:induction false} PongSendsAppend(a: seq<Send>, b: seq<Send>)
    ensures PongSends(a + b) == PongSends(a) + PongSends(b)
  {
    if a == [] {
      assert a + b == b;
    } else {
      var ab := a + b;
      assert ab[0] == a[0] && ab[1..] == a[1..] + b;
      PongSendsAppend(a[1..], b);
    }
  }

  lemma {:induction false} PongFramesAppend(a: seq<WsFrame>, b: seq<WsFrame>)
    ensures PongFrames(a + b) == PongFrames(a) + PongFrames(b)
  {
    if a == [] {
      assert a + b == b;
    } else {
      var ab := a + b;
      assert ab[0] == a[0] && ab[1..] == a[1..] + b;
      PongFramesAppend(a[1..], b);
    }
  }

  lemma {:induction false} PongsReadPrefix(us: seq<InFrame>, vs: seq<InFrame>)
    requires us <= vs
    ensures PongsRead(us) <= PongsRead(vs)
  {
    if us != [] {
      PongsReadPrefix(us[1..], vs[1..]);
    }
  }

  lemma {:induction false} PongsOfFrames(fs: seq<WsFrame>)
    ensures PongsRead(Views(fs)) == Views(PongFrames(fs))
  {
    if fs != [] {
      PongsOfFrames(fs[1..]);
      assert Views(fs)[1..] == Views(fs[1..]);
      if fs[0].opcode == WS_PONG {
        assert Views(PongFrames(fs)) == [ClientView(fs[0])] + Views(PongFrames(fs[1..]));
      }
    }
  }

  lemma {:induction false} PongsOfSends(ss: seq<Send>)
    ensures PongFrames(FramesOf(ss)) == FramesOf(PongSends(ss))
  {
    if ss != [] {
      PongsOfSends(ss[1..]);
      assert FramesOf(ss)[1..] == FramesOf(ss[1..]);
      if ss[0].Pong? {
        assert FramesOf(PongSends(ss)) == [FrameOf(ss[0])] + FramesOf(PongSends(ss[1..]));
      }
    }
  }

  lemma PongAt(b: Body, f: WsFrame)
    ensures Views(PongFrames(QueuedFrames(Handle(MAX_MSG_SIZE, b, f).events))) == PongsDue([f])
  {
    hide ClosePayload, Ascii;
    var o := Handle(MAX_MSG_SIZE, b, f);
    assert [f][1..] == [];
    if f.opcode == WS_PING && f.fin {
      var pong := ServerFrame(WS_PONG, f.payload_data);
      assert o.events == [Queued(pong)] && o.events[1..] == [];
      assert QueuedFrames(o.events) == [pong] && [pong][1..] == [];
    } else {
      NoPong(o.events);
    }
  }

  /** Events that queue no Pong. */
  lemma {:induction false} NoPong(es: seq<Event>)
    requires forall e :: e in es && e.Queued? ==> e.frame.opcode != WS_PONG
    ensures PongFrames(QueuedFrames(es)) == []
  {
    if es != [] {
      assert es[0] in es;
      NoPong(es[1..]);
      if es[0].Queued? {
        assert QueuedFrames(es)[0] == es[0].frame && QueuedFrames(es)[1..] == QueuedFrames(es[1..]);
      } else {
        assert QueuedFrames(es) == QueuedFrames(es[1..]);
      }
    }
  }

  /** The Pongs the read loop queues are the first of those due for the frames it reads. */
  lemma {:induction false} PongsQueuedAreDue(b: Body, fs: seq<WsFrame>)
    ensures Views(PongFrames(QueuedFrames(Run(b, fs).events))) <= PongsDue(fs)
    decreases fs
  {
    hide Handle, Run, PongFrames, QueuedFrames, Views;
    if fs == [] {
      RunNothing(b);
      NoPong([]);
      NoViews();
    } else {
      var o := Handle(MAX_MSG_SIZE, b, fs[0]);
      RunStep(b, fs);
      PongAt(b, fs[0]);
      DueStep(fs);
      if !o.closed {
        var r := Run(o.body, fs[1..]);
        PongsQueuedAreDue(o.body, fs[1..]);
        QueuedFramesAppend(o.events, r.events);
        PongFramesAppend(QueuedFrames(o.events), QueuedFrames(r.events));
        ViewsAppend(PongFrames(QueuedFrames(o.events)), PongFrames(QueuedFrames(r.events)));
      }
    }
  }

  lemma NoViews()
    ensures Views([]) == []
  {
  }

  lemma ViewsAppend(a: seq<WsFrame>, b: seq<WsFrame>)
    ensures Views(a + b) == Views(a) + Views(b)
  {
  }

  lemma DueStep(fs: seq<WsFrame>)
    requires fs != []
    ensures PongsDue(fs) == PongsDue([fs[0]]) + PongsDue(fs[1..])
  {
    assert [fs[0]][1..] == [];
  }

  // ---------- The read loop among the senders ----------

  /**
    The senders and the wire, the replies the read loop has started, and the coroutine of the last
    one, for which the loop waits.
   */
  datatype Both = Both(senders: State, replies: seq<Send>, current: Option<nat>)

  datatype Move =
    | Act(action: Action)      // an application's sender is started, or any coroutine or the socket moves
    | Reply(send: Send)        // the read loop starts its next reply

  /** The loop does not wait: it has sent nothing yet, or its last reply returned. */
  predicate Free(d: Both) {
    d.current.None? ||
    (d.current.value < |d.senders.coroutines| && d.senders.coroutines[d.current.value] == Returned)
  }

  /** `due` are the frames the read loop queues, in order. */
  ghost predicate Allowed(due: seq<WsFrame>, d: Both, m: Move) {
    match m
    case Act(a) => Enabled(d.senders, a) && !(a.Spawn? && a.send.Pong?)
    case Reply(send) =>
      && Free(d) && |d.replies| < |due| && FrameOf(send) == due[|d.replies|]
      && Enabled(d.senders, Spawn(send))
  }

  function After(due: seq<WsFrame>, d: Both, m: Move): Both
    requires Allowed(due, d, m)
  {
    match m
    case Act(a) => d.(senders := Apply(d.senders, a))
    case Reply(send) =>
      Both(Apply(d.senders, Spawn(send)), d.replies + [send], Some(|d.senders.coroutines|))
  }

  ghost predicate Possible(due: seq<WsFrame>, d: Both, run: seq<Move>)
    decreases run
  {
    run != [] ==> Allowed(due, d, run[0]) && Possible(due, After(due, d, run[0]), run[1..])
  }

  ghost function End(due: seq<WsFrame>, d: Both, run: seq<Move>): Both
    requires Possible(due, d, run)
    decreases run
  {
    if run == [] then d else End(due, After(due, d, run[0]), run[1..])
  }

  const START := Both(INIT, [], None)

  /** The reply that is started and not yet in the queue. */
  function Unqueued(d: Both): seq<Send> {
    if d.current.Some? && d.current.value < |d.senders.coroutines| && d.senders.coroutines[d.current.value].Waiting?
    then [d.senders.coroutines[d.current.value].send] else []
  }

  ghost predicate Orderly(due: seq<WsFrame>, d: Both) {
    && Sound(d.senders)
    && |d.replies| <= |due| && FramesOf(d.replies) == due[..|d.replies|]
    && PongSends(d.senders.pushed) + PongSends(Unqueued(d)) == PongSends(d.replies)
    && (d.current.Some? ==> d.current.value < |d.senders.coroutines|)
    && (forall i :: (0 <= i < |d.senders.coroutines| && d.senders.coroutines[i].Waiting?
                     && d.senders.coroutines[i].send.Pong?) ==> d.current == Some(i))
  }

  lemma NoPongSends()
    ensures PongSends([]) == []
  {
  }

  lemma OnePongSend(s: Send)
    ensures PongSends([s]) == if s.Pong? then [s] else []
  {
    assert [s][1..] == [];
  }

  lemma ReplyKeeps(due: seq<WsFrame>, d: Both, send: Send)
    requires Orderly(due, d) && Allowed(due, d, Reply(send))
    ensures Orderly(due, After(due, d, Reply(send)))
  {
    hide Sound, PongSends, FrameOf;
    var e := After(due, d, Reply(send));
    SpawnKeeps(d.senders, send);
    PongSendsAppend(d.replies, [send]);
    NoPongSends();
    assert Unqueued(d) == [] && Unqueued(e) == [send];
    assert FramesOf(e.replies) == FramesOf(d.replies) + [FrameOf(send)];
    assert due[..|e.replies|] == due[..|d.replies|] + [due[|d.replies|]];
    assert PongSends(d.senders.pushed) + [] == PongSends(d.senders.pushed);
  }

  lemma StartKeepsOrder(due: seq<WsFrame>, d: Both, i: nat)
    requires Orderly(due, d) && Allowed(due, d, Act(Start(i)))
    ensures Orderly(due, After(due, d, Act(Start(i))))
  {
    hide Sound, PongSends, FrameOf, Wire;
    var e := After(due, d, Act(Start(i)));
    var send := d.senders.coroutines[i].send;
    StepKeeps(d.senders, Start(i));
    PongSendsAppend(d.senders.pushed, [send]);
    NoPongSends();
    OnePongSend(send);
    if d.current == Some(i) {
      assert Unqueued(d) == [send] && Unqueued(e) == [];
      assert PongSends(e.senders.pushed) + [] == PongSends(e.senders.pushed);
    } else {
      assert Unqueued(e) == Unqueued(d);
      assert PongSends(d.senders.pushed) + [] == PongSends(d.senders.pushed);
    }
  }

  lemma ActKeeps(due: seq<WsFrame>, d: Both, a: Action)
    requires Orderly(due, d) && Allowed(due, d, Act(a))
    ensures Orderly(due, After(due, d, Act(a)))
  {
    hide Sound, PongSends, FrameOf, Wire;
    if a.Start? {
      StartKeepsOrder(due, d, a.i);
    } else {
      StepKeeps(d.senders, a);
      assert Unqueued(After(due, d, Act(a))) == Unqueued(d);
    }
  }

  lemma {:induction false} RunOrderly(due: seq<WsFrame>, d: Both, run: seq<Move>)
    requires Orderly(due, d) && Possible(due, d, run)
    ensures Orderly(due, End(due, d, run))
    decreases run
  {
    hide Orderly, Allowed, After;
    if run != [] {
      match run[0] {
        case Act(a) => ActKeeps(due, d, a);
        case Reply(send) => ReplyKeeps(due, d, send);
      }
      RunOrderly(due, After(due, d, run[0]), run[1..]);
    }
  }

  /** The loop starts a reply as soon as the last one has returned; nothing else about the senders matters. */
  lemma LoopIsFree(due: seq<WsFrame>, d: Both, send: Send)
    requires |d.replies| < |due| && FrameOf(send) == due[|d.replies|] && send.Sized()
    requires d.current == None
             || (d.current.value < |d.senders.coroutines| && d.senders.coroutines[d.current.value] == Returned)
    ensures Allowed(due, d, Reply(send))
  {
  }

  /** A run seen by the senders alone. */
  function Actions(run: seq<Move>): (r: seq<Action>)
    ensures |r| == |run|
  {
    seq(|run|, i requires 0 <= i < |run| => if run[i].Act? then run[i].action else Spawn(run[i].send))
  }

  lemma {:induction false} SendersRun(due: seq<WsFrame>, d: Both, run: seq<Move>)
    requires Possible(due, d, run)
    ensures ValidRun(d.senders, Actions(run)) && Final(d.senders, Actions(run)) == End(due, d, run).senders
    decreases run
  {
    hide Enabled, Apply;
    if run != [] {
      SendersRun(due, After(due, d, run[0]), run[1..]);
      assert Actions(run)[1..] == Actions(run[1..]);
    }
  }

  // ---------- The theorem ----------

  /** The client reads the Pongs among the sends before the first it refuses. */
  lemma PongsOfStream(ss: seq<Send>)
    requires forall s :: s in ss ==> s.Sized()
    ensures PongsRead(ClientParseAll(Concat(Wires(ss)))) <= Views(FramesOf(PongSends(ss)))
  {
    hide Concat, EncodeAll, FrameOf, Visible, WellMade, PongsRead, PongSends, PongFrames, Views, ClientParseAll;
    WiresAreEncodings(ss);
    forall f | f in FramesOf(ss) ensures WellMade(f) {
      var i :| 0 <= i < |ss| && f == FrameOf(ss[i]);
      SendIsWellMade(ss[i]);
    }
    ClientDecodesStream(FramesOf(ss));
    VisibleIsFront(FramesOf(ss));
    ViewsPrefix(Visible(FramesOf(ss)), FramesOf(ss));
    PongsReadPrefix(Views(Visible(FramesOf(ss))), Views(FramesOf(ss)));
    PongsOfFrames(FramesOf(ss));
    PongsOfSends(ss);
  }

  lemma ViewsPrefix(a: seq<WsFrame>, b: seq<WsFrame>)
    requires a <= b
    ensures Views(a) <= Views(b)
  {
  }

  /** The Pongs pushed so far are the first of those the read loop queues. */
  lemma PushedAreQueued(due: seq<WsFrame>, d: Both)
    requires Orderly(due, d)
    ensures Views(FramesOf(PongSends(d.senders.pushed))) <= Views(PongFrames(due))
  {
    hide Sound, PongSends, PongFrames, FrameOf;
    var k := |d.replies|;
    assert due == due[..k] + due[k..];
    PongFramesAppend(due[..k], due[k..]);
    PongsOfSends(d.replies);
    assert PongSends(d.senders.pushed) <= PongSends(d.replies);
    assert FramesOf(PongSends(d.senders.pushed)) <= FramesOf(PongSends(d.replies));
  }

  /**
    Full duplex.  Whatever octets the server has read, on every run of its read loop and any number of
    senders, with partial writes, failures and closing, and for every part of the wire that has arrived:
    the Pongs the client read are the first of those due for the Pings in what the server read, in
    order and with their payloads, and the messages it returned are the first of those of the senders
    admitted, in the order in which they started.
   */
  lemma FullDuplex(received: bytes, run: seq<Move>, arrived: bytes)
    requires var due := QueuedFrames(RunBytes(EMPTY_BODY, received).events);
             Possible(due, START, run) && arrived <= End(due, START, run).senders.wire
    ensures PongsRead(ClientParseAll(arrived)) <= PongsDue(ParseAll(received))
    ensures AllMessages(IDLE, arrived) <= MessagesOf(Admitted(true, Spawns(Actions(run)), Actions(run)))
  {
    hide RunBytes, Run, Possible, End, QueuedFrames, PongsRead, PongsDue, ParseAll, ClientParseAll, Enqueued,
         PongSends, PongFrames, Views, Concat, Wires, AllMessages, MessagesOf, BeforeStop, FromStop, ValidRun, Final,
         Admitted, Spawns, Started, Actions;
    var due := QueuedFrames(RunBytes(EMPTY_BODY, received).events);
    var d := End(due, START, run);
    StartIsOrderly(due);
    RunOrderly(due, START, run);
    var all := Concat(Wires(d.senders.pushed));
    WirePrefix(d.senders);
    EnqueuedIs(d.senders);
    assert arrived <= all;
    ArrivedFramesArePrefix(arrived, all);
    PongsReadPrefix(ClientParseAll(arrived), ClientParseAll(all));
    PongsOfStream(d.senders.pushed);
    PushedAreQueued(due, d);
    RunBytesIsRun(EMPTY_BODY, received);
    PongsQueuedAreDue(EMPTY_BODY, ParseAll(received));
    SendersRun(due, START, run);
    EndToEndOrder(Actions(run), arrived);
  }

  lemma EnqueuedIs(s: State)
    ensures Enqueued(s) == Concat(Wires(s.pushed))
  {
  }

  lemma StartIsOrderly(due: seq<WsFrame>)
    ensures Orderly(due, START)
  {
    InitSound();
    assert FramesOf([]) == due[..0];
  }
}
