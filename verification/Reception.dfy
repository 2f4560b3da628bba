/**
  What the server's receiving side guarantees (sections 5.4 and 5.5 of RFC 6455): well-formed
  streams are reassembled exactly, and the limits hold on every stream.
 */
module Reception {
  import opened Bytes
  import opened Frames
  import opened FrameReader
  import opened FrameCodec
  import opened ClosePayloads
  import opened Receiver

  // ---------- Observing events ----------

  function Deliveries(es: seq<Event>): seq<bytes> {
    if es == [] then [] else (if es[0].Delivered? then [es[0].payload] else []) + Deliveries(es[1..])
  }

  function QueuedFrames(es: seq<Event>): seq<WsFrame> {
    if es == [] then [] else (if es[0].Queued? then [es[0].frame] else []) + QueuedFrames(es[1..])
  }

  lemma {:induction false} DeliveriesAppend(a: seq<Event>, b: seq<Event>)
    ensures Deliveries(a + b) == Deliveries(a) + Deliveries(b)
  {
    if a == [] {
      assert a + b == b;
    } else {
      var ab := a + b;
      assert ab[0] == a[0] && ab[1..] == a[1..] + b;
      DeliveriesAppend(a[1..], b);
    }
  }

  lemma {:induction false} QueuedFramesAppend(a: seq<Event>, b: seq<Event>)
    ensures QueuedFrames(a + b) == QueuedFrames(a) + QueuedFrames(b)
  {
    if a == [] {
      assert a + b == b;
    } else {
      var ab := a + b;
      assert ab[0] == a[0] && ab[1..] == a[1..] + b;
      QueuedFramesAppend(a[1..], b);
    }
  }

  lemma ObserveAppend(a: seq<Event>, b: seq<Event>)
    ensures Deliveries(a + b) == Deliveries(a) + Deliveries(b)
    ensures QueuedFrames(a + b) == QueuedFrames(a) + QueuedFrames(b)
  {
    DeliveriesAppend(a, b);
    QueuedFramesAppend(a, b);
  }

  lemma {:induction false} NothingDelivered(es: seq<Event>)
    requires forall e :: e in es ==> !e.Delivered?
    ensures Deliveries(es) == []
  {
    if es != [] {
      assert es[0] in es;
      NothingDelivered(es[1..]);
    }
  }

  // ---------- Control frames are transparent ----------

  /** The frames that are neither Ping nor Pong. */
  function Data(fs: seq<WsFrame>): seq<WsFrame> {
    if fs == [] then [] else (if IsPingPong(fs[0]) then [] else [fs[0]]) + Data(fs[1..])
  }

  lemma {:induction false} DataAppend(a: seq<WsFrame>, b: seq<WsFrame>)
    ensures Data(a + b) == Data(a) + Data(b)
  {
    if a == [] {
      assert a + b == b;
    } else {
      var ab := a + b;
      assert ab[0] == a[0] && ab[1..] == a[1..] + b;
      DataAppend(a[1..], b);
    }
  }

  /** A Ping or Pong, fragmented or not, leaves the body alone and delivers nothing. */
  lemma PingPongStep(max: nat, b: Body, f: WsFrame)
    requires IsPingPong(f)
    ensures var o := Handle(max, b, f);
            o.body == b && !o.closed && Deliveries(o.events) == []
  {
    hide ClosePayload, Ascii;
  }

  /** On every frame list, malformed ones included, removing all Pings and Pongs changes no delivery. */
  lemma {:induction false} PingPongTransparent(b: Body, fs: seq<WsFrame>)
    ensures var o, p := Run(b, fs), Run(b, Data(fs));
            o.body == p.body && o.closed == p.closed && Deliveries(o.events) == Deliveries(p.events)
    decreases fs
  {
    if fs != [] {
      hide Handle;
      var o := Handle(MAX_MSG_SIZE, b, fs[0]);
      if IsPingPong(fs[0]) {
        PingPongStep(MAX_MSG_SIZE, b, fs[0]);
        PingPongTransparent(b, fs[1..]);
        ObserveAppend(o.events, Run(b, fs[1..]).events);
        assert Data(fs) == Data(fs[1..]);
      } else {
        assert Data(fs) == [fs[0]] + Data(fs[1..]);
        if !o.closed {
          PingPongTransparent(o.body, fs[1..]);
          assert Data(fs)[1..] == Data(fs[1..]);
          ObserveAppend(o.events, Run(o.body, fs[1..]).events);
          ObserveAppend(o.events, Run(o.body, Data(fs[1..])).events);
        }
      }
    }
  }

  /** Inserting or deleting a Ping or Pong anywhere never changes the deliveries. */
  lemma InsertPingPong(b: Body, before: seq<WsFrame>, f: WsFrame, after: seq<WsFrame>)
    requires IsPingPong(f)
    ensures Deliveries(Run(b, before + [f] + after).events) == Deliveries(Run(b, before + after).events)
    ensures Run(b, before + [f] + after).body == Run(b, before + after).body
  {
    hide Run, Deliveries;
    PingPongTransparent(b, before + [f] + after);
    PingPongTransparent(b, before + after);
    DataAppend(before + [f], after);
    DataAppend(before, [f]);
    DataAppend(before, after);
    assert Data([f]) == [];
    assert Data(before) + [] == Data(before);
  }

  // ---------- Limits on arbitrary streams ----------

  predicate Bounded(max: nat, ms: seq<bytes>) {
    forall m :: m in ms ==> |m| <= max
  }

  lemma AcceptBounded(b: Body, f: WsFrame)
    requires |b.msg| <= MAX_MSG_SIZE
    ensures var o := Accept(MAX_MSG_SIZE, b, f);
            |o.body.msg| <= MAX_MSG_SIZE && Bounded(MAX_MSG_SIZE, Deliveries(o.events))
  {
    hide CloseFrame, Ascii;
    var o := Accept(MAX_MSG_SIZE, b, f);
    if !f.fin || Exceeds(MAX_MSG_SIZE, b, |f.payload_data|) {
      NothingDelivered(o.events);
    } else {
      assert o.events[1..] == [];
      assert Deliveries(o.events) == [o.events[0].payload];
    }
  }

  lemma HandleBounded(b: Body, f: WsFrame)
    requires |b.msg| <= MAX_MSG_SIZE
    ensures var o := Handle(MAX_MSG_SIZE, b, f);
            |o.body.msg| <= MAX_MSG_SIZE && Bounded(MAX_MSG_SIZE, Deliveries(o.events))
  {
    hide CloseFrame, Ascii, ParseClose, Accept, Deliveries;
    var o := Handle(MAX_MSG_SIZE, b, f);
    AcceptBounded(b, f);
    AcceptBounded(Body(true, f.opcode, []), f);
    if f.opcode == WS_CONT && !b.assembling {
      var report := Report(1002, "Continuation without initial frame");
      NothingDelivered(report);
      ObserveAppend(report, Accept(MAX_MSG_SIZE, b, f).events);
    } else if f.opcode != WS_CONT && (!IsData(f) || b.assembling) {
      NothingDelivered(o.events);
    }
  }

  /** On every frame list neither the buffer nor a delivered message ever exceeds the limit. */
  lemma {:induction false} AlwaysBounded(b: Body, fs: seq<WsFrame>)
    requires |b.msg| <= MAX_MSG_SIZE
    ensures |Run(b, fs).body.msg| <= MAX_MSG_SIZE
    ensures Bounded(MAX_MSG_SIZE, Deliveries(Run(b, fs).events))
    decreases fs
  {
    if fs != [] {
      hide Handle;
      HandleBounded(b, fs[0]);
      var o := Handle(MAX_MSG_SIZE, b, fs[0]);
      if !o.closed {
        AlwaysBounded(o.body, fs[1..]);
        ObserveAppend(o.events, Run(o.body, fs[1..]).events);
      }
    }
  }

  /** A data frame that arrives in the middle of a message is reported and otherwise has no effect. */
  lemma DataMidMessage(b: Body, f: WsFrame, rest: seq<WsFrame>)
    requires b.assembling && IsData(f)
    ensures Run(b, [f] + rest).body == Run(b, rest).body
    ensures Deliveries(Run(b, [f] + rest).events) == Deliveries(Run(b, rest).events)
    ensures QueuedFrames(Run(b, [f] + rest).events)
            == [CloseFrame(1002, Ascii("New data while assembling"))] + QueuedFrames(Run(b, rest).events)
  {
    hide ClosePayload, Ascii, Accept;
    var es := Report(1002, "New data while assembling");
    assert ([f] + rest)[1..] == rest;
    assert Handle(MAX_MSG_SIZE, b, f) == Outcome(b, es, false);
    ObserveAppend(es, Run(b, rest).events);
    assert Deliveries(es) == Deliveries(es[1..]) == [];
    assert QueuedFrames(es[1..]) == QueuedFrames(es[1..][1..]);
  }

  // ---------- Closing ----------

  predicate IsFinClose(f: WsFrame) {
    f.opcode == WS_CLOSE && f.fin
  }

  lemma OnlyCloseCloses(b: Body, f: WsFrame)
    ensures Handle(MAX_MSG_SIZE, b, f).closed <==> IsFinClose(f)
    ensures IsFinClose(f) ==> Handle(MAX_MSG_SIZE, b, f) == HandleClose(b, f.payload_data)
  {
    hide CloseFrame, Ascii, ParseClose;
  }

  /**
    On every frame list, malformed ones included, the first FIN Close is answered and closes the
    connection, whatever came before; nothing else closes it and nothing after it is handled.
   */
  lemma {:induction false} RunStopsAtClose(b: Body, before: seq<WsFrame>, f: WsFrame, after: seq<WsFrame>)
    requires IsFinClose(f) && forall g :: g in before ==> !IsFinClose(g)
    ensures var r := Run(b, before);
            !r.closed && Run(b, before + [f] + after)
            == Outcome(r.body, r.events + HandleClose(r.body, f.payload_data).events, true)
    decreases before
  {
    hide Handle, Run, HandleClose, IsFinClose;
    var fs := before + [f] + after;
    RunStep(b, fs);
    OnlyCloseCloses(b, fs[0]);
    if before == [] {
      RunNothing(b);
      HandleCloseShape(b, f.payload_data);
      assert [] + HandleClose(b, f.payload_data).events == HandleClose(b, f.payload_data).events;
    } else {
      var o := Handle(MAX_MSG_SIZE, b, before[0]);
      assert fs[0] == before[0] && fs[1..] == before[1..] + [f] + after;
      RunStep(b, before);
      RunStopsAtClose(o.body, before[1..], f, after);
      var r := Run(o.body, before[1..]);
      assert o.events + (r.events + HandleClose(r.body, f.payload_data).events)
          == (o.events + r.events) + HandleClose(r.body, f.payload_data).events;
    }
  }

  lemma HandleCloseShape(b: Body, payload: bytes)
    ensures HandleClose(b, payload).body == b && HandleClose(b, payload).closed
  {
  }

  // ---------- What one frame does, spelled out ----------

  /** The first 125 octets of a payload. */
  function Shortened(payload: bytes): bytes {
    if |payload| <= 125 then payload else payload[..125]
  }

  /** What a protocol error does: a Close frame with its code and text, and the handler with the same. */
  function Reported(high: byte, low: byte, code: bv16, text: string): seq<Event> {
    [Queued(ServerFrame(0x8, Shortened([high, low] + Ascii(text)))), CloseHandler(code, Ascii(text))]
  }

  lemma EchoIs(high: byte, low: byte, reason: bytes)
    ensures ParseClose([high, low] + reason) == CloseInfo((high as bv16 << 8) | low as bv16, reason)
    ensures CloseFrame((high as bv16 << 8) | low as bv16, reason) == ServerFrame(0x8, Shortened([high, low] + reason))
  {
    OctetsCode(high, low);
    var p := [high, low] + reason;
    assert p[2..] == reason;
    if |p| > 125 {
      assert p[..125] == [high, low] + reason[..123];
    }
  }

  /**
    A FIN Close that carries a code and a reason is answered with its first 125 octets; then the socket
    is closed, the handler gets that code and the whole reason, and the cleanup runs.
   */
  lemma FinCloseEffects(max: nat, b: Body, f: WsFrame, high: byte, low: byte, reason: bytes)
    requires f.opcode == 0x8 && f.fin && f.payload_data == [high, low] + reason
    ensures Handle(max, b, f)
            == Outcome(b, [Queued(ServerFrame(0x8, Shortened([high, low] + reason))), SocketClosed,
                           CloseHandler((high as bv16 << 8) | low as bv16, reason), CleanedUp], true)
  {
    hide ParseClose, CloseFrame, Shortened;
    EchoIs(high, low, reason);
  }

  /** A FIN Close too short for a code counts as 1000 without a reason. */
  lemma ShortCloseEffects(max: nat, b: Body, f: WsFrame)
    requires f.opcode == 0x8 && f.fin && |f.payload_data| < 2
    ensures Handle(max, b, f)
            == Outcome(b, [Queued(ServerFrame(0x8, [0x03, 0xE8])), SocketClosed, CloseHandler(1000, []), CleanedUp],
                       true)
  {
    hide CloseFrame;
    EchoIs(0x03, 0xE8, []);
    assert [0x03 as byte, 0xE8] + [] == [0x03, 0xE8];
  }

  lemma ReportIs(high: byte, low: byte, text: string)
    ensures var code := (high as bv16 << 8) | low as bv16;
            Report(code, text) == Reported(high, low, code, text)
  {
    hide CloseFrame, Shortened, Ascii;
    EchoIs(high, low, Ascii(text));
  }

  lemma ErrorCodes()
    ensures (0x03 as bv16 << 8) | 0xEA == 1002 && (0x03 as bv16 << 8) | 0xF1 == 1009
  {
  }

  /** A fragmented Ping, Pong or Close is reported with 1002 and has no other effect. */
  lemma FragmentedControl(max: nat, b: Body, f: WsFrame)
    requires (f.opcode == 0x8 || f.opcode == 0x9 || f.opcode == 0xA) && !f.fin
    ensures Handle(max, b, f) == Outcome(b, Reported(0x03, 0xEA, 1002, "Fragmented control"), false)
  {
    hide Report, Reported;
    ErrorCodes();
    ReportIs(0x03, 0xEA, "Fragmented control");
  }

  /** A data frame inside a message is reported with 1002 and has no other effect. */
  lemma DataInsideMessage(max: nat, b: Body, f: WsFrame)
    requires (f.opcode == 0x1 || f.opcode == 0x2) && b.assembling
    ensures Handle(max, b, f) == Outcome(b, Reported(0x03, 0xEA, 1002, "New data while assembling"), false)
  {
    hide Report, Reported;
    ErrorCodes();
    ReportIs(0x03, 0xEA, "New data while assembling");
  }

  /** An opcode that is none of the six has no effect. */
  lemma UnknownOpcode(max: nat, b: Body, f: WsFrame)
    requires f.opcode !in {0x0, 0x1, 0x2, 0x8, 0x9, 0xA}
    ensures Handle(max, b, f) == Outcome(b, [], false)
  {
  }

  /**
    A data frame outside a message, or a continuation inside one, extends what is buffered: beyond a
    limit other than 0 it is reported with 1009 and the buffer emptied; otherwise a FIN frame delivers.
   */
  lemma DataEffects(max: nat, b: Body, f: WsFrame)
    requires if b.assembling then f.opcode == 0x0 else f.opcode == 0x1 || f.opcode == 0x2
    ensures var msg := if b.assembling then b.msg + f.payload_data else f.payload_data;
            Handle(max, b, f)
            == if max != 0 && |msg| > max then
                 Outcome(Body(false, 0, []), Reported(0x03, 0xF1, 1009, "Message too big"), false)
               else if f.fin then Outcome(Body(false, 0, []), [Delivered(msg)], false)
               else Outcome(Body(true, if b.assembling then b.opcode else f.opcode, msg), [], false)
  {
    hide Report, Reported;
    ErrorCodes();
    ReportIs(0x03, 0xF1, "Message too big");
    assert [] + f.payload_data == f.payload_data;
  }

  /** A continuation outside a message is reported with 1002, and then treated as if it continued one. */
  lemma StrayContinuation(max: nat, b: Body, f: WsFrame)
    requires f.opcode == 0x0 && !b.assembling
    ensures var o := Handle(max, b.(assembling := true), f);
            && Handle(max, b, f).events
               == Reported(0x03, 0xEA, 1002, "Continuation without initial frame") + o.events
            && Handle(max, b, f).body == o.body.(assembling := false) && !Handle(max, b, f).closed
  {
    hide Report, Reported;
    ErrorCodes();
    ReportIs(0x03, 0xEA, "Continuation without initial frame");
  }

  // ---------- Stopping early ----------

  lemma {:induction false} RepliesAreQueued(es: seq<Event>)
    ensures Replies(es) == |QueuedFrames(es)|
  {
    if es != [] {
      RepliesAreQueued(es[1..]);
    }
  }

  lemma {:induction false} ThrowsAt(es: seq<Event>, n: nat, fails: nat -> bool)
    ensures Throws(es, n, fails) <==> exists i :: n <= i < n + |QueuedFrames(es)| && fails(i)
    decreases es
  {
    if es != [] {
      ThrowsAt(es[1..], if es[0].Queued? then n + 1 else n, fails);
    }
  }

  /** When the writes of all replies in `a` succeed and that of f throws, just `a` and the queueing of f happen. */
  lemma CutAtFailure(a: seq<Event>, f: WsFrame, b: seq<Event>, n: nat, fails: nat -> bool)
    requires forall i :: n <= i < n + |QueuedFrames(a)| ==> !fails(i)
    requires fails(n + |QueuedFrames(a)|)
    ensures Cut(a + [Queued(f)] + b, n, fails) == a + [Queued(f)] && Throws(a + [Queued(f)] + b, n, fails)
  {
    hide Cut, Throws, Replies, QueuedFrames;
    ThrowsAt(a, n, fails);
    RepliesAreQueued(a);
    var es := [Queued(f)] + b;
    assert a + [Queued(f)] + b == a + es;
    CutAppend(a, es, n, fails);
    CutStep(es, n + Replies(a), fails);
    assert es[..1] == [Queued(f)];
  }

  /** When no reply's write throws everything happens. */
  lemma UncutWithoutFailure(es: seq<Event>, n: nat, fails: nat -> bool)
    requires forall i :: n <= i < n + |QueuedFrames(es)| ==> !fails(i)
    ensures Cut(es, n, fails) == es && !Throws(es, n, fails)
  {
    hide Cut, Throws, Replies, QueuedFrames;
    ThrowsAt(es, n, fails);
    CutAppend(es, [], n, fails);
  }

  /** A close seen between two frames leaves the effects of the frames before it. */
  lemma {:induction false} RunUntilFront(b: Body, fs: seq<WsFrame>, rounds: nat, midway: bool)
    requires rounds <= |fs|
    requires midway ==> forall f :: f in fs[..rounds] ==> !IsFinClose(f)
    ensures RunUntil(b, fs, rounds, midway) == Run(b, fs[..rounds])
    decreases fs
  {
    hide Run, RunUntil, Handle, HandleWhen, IsFinClose;
    var front := fs[..rounds];
    if rounds == 0 {
      RunUntilNothing(b, fs, rounds, midway);
      RunNothing(b);
    } else {
      assert front[0] == fs[0] && front[1..] == fs[1..][..rounds - 1];
      RunUntilStep(b, fs, rounds, midway);
      RunStep(b, front);
      HandleMeanwhile(b, fs[0]);
      RunUntilFront(Handle(MAX_MSG_SIZE, b, fs[0]).body, fs[1..], rounds - 1, midway);
    }
  }

  lemma HandleMeanwhile(b: Body, f: WsFrame)
    ensures HandleWhen(true, MAX_MSG_SIZE, b, f) == Handle(MAX_MSG_SIZE, b, f)
    ensures !IsFinClose(f) ==> HandleWhen(false, MAX_MSG_SIZE, b, f) == Handle(MAX_MSG_SIZE, b, f)
  {
    OnlyCloseCloses(b, f);
  }

  /** A Close in whose handling another coroutine closes is still answered, and that is all. */
  lemma {:induction false} CloseMeanwhile(b: Body, before: seq<WsFrame>, f: WsFrame, after: seq<WsFrame>,
                                          high: byte, low: byte, reason: bytes)
    requires IsFinClose(f) && f.payload_data == [high, low] + reason
    requires forall g :: g in before ==> !IsFinClose(g)
    ensures var r := Run(b, before);
            RunUntil(b, before + [f] + after, |before| + 1, true)
            == Outcome(r.body, r.events + [Queued(ServerFrame(0x8, Shortened([high, low] + reason)))], true)
    decreases before
  {
    hide Run, RunUntil, Handle, HandleWhen, IsFinClose, Shortened;
    var fs := before + [f] + after;
    RunUntilStep(b, fs, |before| + 1, true);
    if before == [] {
      RunNothing(b);
      AnsweredOnly(b, f, high, low, reason);
      var reply := [Queued(ServerFrame(0x8, Shortened([high, low] + reason)))];
      assert [] + reply == reply && fs[0] == f;
    } else {
      assert fs[0] == before[0] && fs[1..] == before[1..] + [f] + after;
      RunStep(b, before);
      HandleMeanwhile(b, fs[0]);
      OnlyCloseCloses(b, fs[0]);
      var o := Handle(MAX_MSG_SIZE, b, fs[0]);
      CloseMeanwhile(o.body, before[1..], f, after, high, low, reason);
      var r, reply := Run(o.body, before[1..]), [Queued(ServerFrame(0x8, Shortened([high, low] + reason)))];
      assert o.events + (r.events + reply) == (o.events + r.events) + reply;
    }
  }

  lemma AnsweredOnly(b: Body, f: WsFrame, high: byte, low: byte, reason: bytes)
    requires IsFinClose(f) && f.payload_data == [high, low] + reason
    ensures HandleWhen(false, MAX_MSG_SIZE, b, f)
            == Outcome(b, [Queued(ServerFrame(0x8, Shortened([high, low] + reason)))], true)
  {
    hide Handle, CloseFrame, Shortened, ParseClose;
    FinCloseEffects(MAX_MSG_SIZE, b, f, high, low, reason);
    EchoIs(high, low, reason);
  }
  // ---------- Stopping early ----------

  lemma HandlePrefix(open: bool, b: Body, f: WsFrame)
    ensures var o, w := Handle(MAX_MSG_SIZE, b, f), HandleWhen(open, MAX_MSG_SIZE, b, f);
            w.body == o.body && w.closed == o.closed && w.events <= o.events && (!o.closed ==> w == o)
  {
    OnlyCloseCloses(b, f);
  }

  lemma {:induction false} RunUntilPrefix(b: Body, fs: seq<WsFrame>, rounds: nat, midway: bool)
    ensures RunUntil(b, fs, rounds, midway).events <= Run(b, fs).events
    decreases fs
  {
    hide Run, RunUntil, Handle, HandleWhen;
    if fs == [] || rounds == 0 {
      RunUntilNothing(b, fs, rounds, midway);
    } else {
      RunStep(b, fs);
      RunUntilStep(b, fs, rounds, midway);
      HandlePrefix(!(midway && rounds == 1), b, fs[0]);
      RunUntilPrefix(Handle(MAX_MSG_SIZE, b, fs[0]).body, fs[1..], rounds - 1, midway);
    }
  }

  /**
    Whatever stops the read loop early, the write of a reply that throws or a close by another
    coroutine, what it delivered is a prefix of what the whole stream delivers, and the same for what
    it queued.
   */
  lemma EarlyStop(b: Body, fs: seq<WsFrame>, rounds: nat, midway: bool, n: nat, fails: nat -> bool)
    ensures var cut, all := Cut(RunUntil(b, fs, rounds, midway).events, n, fails), Run(b, fs).events;
            Deliveries(cut) <= Deliveries(all) && QueuedFrames(cut) <= QueuedFrames(all)
  {
    hide Run, RunUntil, Cut, Deliveries, QueuedFrames;
    RunUntilPrefix(b, fs, rounds, midway);
    var cut, all := Cut(RunUntil(b, fs, rounds, midway).events, n, fails), Run(b, fs).events;
    assert all == cut + all[|cut|..];
    ObserveAppend(cut, all[|cut|..]);
  }

  // ---------- Well-formed streams ----------

  /** A message as its sender split it. */
  datatype Transmission = Transmission(opcode: byte, parts: seq<bytes>)
  {
    function Payload(): bytes {
      Concat(parts)
    }

    ghost predicate Valid() {
      (opcode == WS_TEXT || opcode == WS_BINARY) && parts != []
    }

    /** The server's size limit allows the message. */
    ghost predicate WithinLimit() {
      |Payload()| <= MAX_MSG_SIZE
    }
  }

  /** Continuation frames for the parts, the last one FIN; masks and keys are arbitrary. */
  ghost predicate Continues(fs: seq<WsFrame>, parts: seq<bytes>) {
    && |fs| == |parts|
    && forall i :: 0 <= i < |fs| ==>
         fs[i].opcode == WS_CONT && fs[i].payload_data == parts[i] && fs[i].fin == (i == |fs| - 1)
  }

  /** The frames of one message. */
  ghost predicate Fragments(fs: seq<WsFrame>, t: Transmission) {
    && |fs| == |t.parts| > 0
    && fs[0].opcode == t.opcode && fs[0].payload_data == t.parts[0] && fs[0].fin == (|fs| == 1)
    && Continues(fs[1..], t.parts[1..])
  }

  /** The frames of a list of messages, one after the other. */
  ghost predicate Carries(fs: seq<WsFrame>, ts: seq<Transmission>)
    decreases ts
  {
    if ts == [] then fs == []
    else ts[0].Valid() && |ts[0].parts| <= |fs|
         && Fragments(fs[..|ts[0].parts|], ts[0]) && Carries(fs[|ts[0].parts|..], ts[1..])
  }

  ghost predicate AllWithinLimit(ts: seq<Transmission>) {
    forall t :: t in ts ==> t.WithinLimit()
  }

  function Payloads(ts: seq<Transmission>): seq<bytes> {
    if ts == [] then [] else [ts[0].Payload()] + Payloads(ts[1..])
  }

  function DeliveredEvents(ms: seq<bytes>): (es: seq<Event>)
    ensures |es| == |ms| && forall i :: 0 <= i < |es| ==> es[i] == Delivered(ms[i])
  {
    if ms == [] then [] else [Delivered(ms[0])] + DeliveredEvents(ms[1..])
  }

  lemma ContinuationStep(b: Body, f: WsFrame)
    requires b.assembling && f.opcode == WS_CONT && |b.msg| + |f.payload_data| <= MAX_MSG_SIZE
    ensures var msg := b.msg + f.payload_data;
            Handle(MAX_MSG_SIZE, b, f)
            == if f.fin then Outcome(EMPTY_BODY, [Delivered(msg)], false) else Outcome(b.(msg := msg), [], false)
  {
  }

  /** The continuation frames of a message deliver what was buffered plus all their parts. */
  lemma {:induction false} RunContinuation(b: Body, fs: seq<WsFrame>, parts: seq<bytes>, rest: seq<WsFrame>)
    requires b.assembling && parts != [] && Continues(fs, parts)
    requires |b.msg| + |Concat(parts)| <= MAX_MSG_SIZE
    ensures var r := Run(EMPTY_BODY, rest);
            Run(b, fs + rest) == Outcome(r.body, [Delivered(b.msg + Concat(parts))] + r.events, r.closed)
    decreases parts
  {
    hide Handle, Run, Concat;
    var o, all := Handle(MAX_MSG_SIZE, b, fs[0]), fs + rest;
    ConcatHead(parts);
    ContinuationStep(b, fs[0]);
    RunStep(b, all);
    assert all[0] == fs[0] && all[1..] == fs[1..] + rest;
    if |parts| == 1 {
      assert fs[1..] + rest == rest;
      assert parts[1..] == [] && Concat(parts) == parts[0];
    } else {
      RunContinuation(o.body, fs[1..], parts[1..], rest);
      assert (b.msg + parts[0]) + Concat(parts[1..]) == b.msg + Concat(parts);
      var r := Run(o.body, fs[1..] + rest);
      assert [] + r.events == r.events;
    }
  }

  lemma RunTransmission(fs: seq<WsFrame>, t: Transmission, rest: seq<WsFrame>)
    requires t.Valid() && t.WithinLimit() && Fragments(fs, t)
    ensures var r := Run(EMPTY_BODY, rest);
            Run(EMPTY_BODY, fs + rest) == Outcome(r.body, [Delivered(t.Payload())] + r.events, r.closed)
  {
    var all := fs + rest;
    assert all[0] == fs[0] && all[1..] == fs[1..] + rest;
    assert t.Payload() == t.parts[0] + Concat(t.parts[1..]);
    var start := Body(true, t.opcode, []);
    var o := Handle(MAX_MSG_SIZE, EMPTY_BODY, fs[0]);
    assert o == Accept(MAX_MSG_SIZE, start, fs[0]);
    assert start.msg + t.parts[0] == t.parts[0];
    if |t.parts| == 1 {
      assert fs[1..] + rest == rest;
      assert t.parts[1..] == [] && t.Payload() == t.parts[0];
    } else {
      assert o == Outcome(start.(msg := t.parts[0]), [], false);
      RunContinuation(o.body, fs[1..], t.parts[1..], rest);
      assert Run(EMPTY_BODY, all).events == [] + Run(o.body, fs[1..] + rest).events;
    }
  }

  /** Every fragmentation of every message list within the limit is delivered exactly, and the body ends reset. */
  lemma {:induction false} RunTransmissions(fs: seq<WsFrame>, ts: seq<Transmission>)
    requires Carries(fs, ts) && AllWithinLimit(ts)
    ensures Run(EMPTY_BODY, fs) == Outcome(EMPTY_BODY, DeliveredEvents(Payloads(ts)), false)
    decreases ts
  {
    hide Handle;
    if ts != [] {
      var k := |ts[0].parts|;
      assert fs == fs[..k] + fs[k..];
      RunTransmission(fs[..k], ts[0], fs[k..]);
      RunTransmissions(fs[k..], ts[1..]);
      assert Payloads(ts)[1..] == Payloads(ts[1..]);
    }
  }

  // ---------- With Pings and Pongs interleaved ----------

  /** One Pong per Ping, in order, with the same payload. */
  function Pongs(fs: seq<WsFrame>): seq<WsFrame> {
    if fs == [] then []
    else (if fs[0].opcode == WS_PING then [ServerFrame(WS_PONG, fs[0].payload_data)] else []) + Pongs(fs[1..])
  }

  ghost predicate OnlyDeliveries(es: seq<Event>) {
    forall e :: e in es ==> e.Delivered?
  }

  /** Adding FIN Pings and Pongs to a stream that only delivers adds exactly the Pongs. */
  lemma {:induction false} PongsQueued(b: Body, fs: seq<WsFrame>)
    requires forall f :: f in fs && IsPingPong(f) ==> f.fin
    requires OnlyDeliveries(Run(b, Data(fs)).events) && !Run(b, Data(fs)).closed
    ensures QueuedFrames(Run(b, fs).events) == Pongs(fs)
    ensures forall e :: e in Run(b, fs).events ==> e.Delivered? || e.Queued?
    decreases fs
  {
    if fs != [] {
      var f := fs[0];
      var o := Handle(MAX_MSG_SIZE, b, f);
      if IsPingPong(f) {
        assert Data(fs) == Data(fs[1..]);
        PongsQueued(b, fs[1..]);
        var reply := [Queued(ServerFrame(WS_PONG, f.payload_data))];
        assert o == Outcome(b, if f.opcode == WS_PING then reply else [], false);
        ObserveAppend(o.events, Run(b, fs[1..]).events);
        if f.opcode == WS_PING {
          assert o.events[1..] == [];
        }
      } else {
        hide Handle;
        assert Data(fs) == [f] + Data(fs[1..]) && Data(fs)[1..] == Data(fs[1..]);
        var r := Run(o.body, Data(fs[1..]));
        assert Run(b, Data(fs)).events == o.events + r.events;
        assert forall e :: e in r.events ==> e in o.events + r.events;
        assert forall e :: e in o.events ==> e in o.events + r.events;
        PongsQueued(o.body, fs[1..]);
        ObserveAppend(o.events, Run(o.body, fs[1..]).events);
        NothingQueued(o.events);
      }
    }
  }

  lemma {:induction false} NothingQueued(es: seq<Event>)
    requires OnlyDeliveries(es)
    ensures QueuedFrames(es) == []
  {
    if es != [] {
      assert es[0].Delivered?;
      NothingQueued(es[1..]);
    }
  }

  lemma {:induction false} DeliveriesOf(ms: seq<bytes>)
    ensures Deliveries(DeliveredEvents(ms)) == ms
  {
    if ms != [] {
      DeliveriesOf(ms[1..]);
      assert DeliveredEvents(ms)[1..] == DeliveredEvents(ms[1..]);
    }
  }

  /** Nothing happened but deliveries of `messages` and queueing of `replies`, each in order. */
  ghost predicate ExactlyReceived(o: Outcome, messages: seq<bytes>, replies: seq<WsFrame>) {
    && o.body == EMPTY_BODY && !o.closed
    && Deliveries(o.events) == messages && QueuedFrames(o.events) == replies
    && forall e :: e in o.events ==> e.Delivered? || e.Queued?
  }

  lemma RunRefinement(fs: seq<WsFrame>, ts: seq<Transmission>)
    requires Carries(Data(fs), ts) && AllWithinLimit(ts)
    requires forall f :: f in fs && IsPingPong(f) ==> f.fin
    ensures ExactlyReceived(Run(EMPTY_BODY, fs), Payloads(ts), Pongs(fs))
  {
    hide Run, Carries;
    PingPongTransparent(EMPTY_BODY, fs);
    RunTransmissions(Data(fs), ts);
    DeliveriesOf(Payloads(ts));
    PongsQueued(EMPTY_BODY, fs);
  }

  /**
    Receive refinement: for every list of messages within the limit, every fragmentation, every choice of masks and
    keys and every interleaving of FIN Pings and Pongs, reading the concatenated encodings delivers
    exactly those messages in order, answers each Ping with one equal Pong in order, does nothing
    else, and leaves the body reset.
   */
  lemma ReceiveRefinement(fs: seq<WsFrame>, ts: seq<Transmission>)
    requires AllEncodable(fs) && Carries(Data(fs), ts) && AllWithinLimit(ts)
    requires forall f :: f in fs && IsPingPong(f) ==> f.fin
    ensures ExactlyReceived(RunBytes(EMPTY_BODY, EncodeAll(fs)), Payloads(ts), Pongs(fs))
  {
    hide Run, RunBytes, Carries, Data, EncodeAll;
    RunEncoded(EMPTY_BODY, fs);
    RunRefinement(fs, ts);
  }
}
