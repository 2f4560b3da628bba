/**
  The client's assembler and the server's `FrameBody` run side by side
  (src/websocket_client.cpp, include/websocket/WebSocket.h).
 */
module Agreement {
  import opened Bytes
  import opened Frames
  import opened FrameReader
  import opened FrameCodec
  import opened ClientFrames
  import opened ClientReceiver
  import opened Receiver
  import opened Reception
  import opened Oversize

  // ---------- What the client sees of a frame stream ----------

  function Views(fs: seq<WsFrame>): (v: seq<InFrame>)
    ensures |v| == |fs|
  {
    seq(|fs|, i requires 0 <= i < |fs| => ClientView(fs[i]))
  }

  /** A frame as the library's own writers produce it. */
  ghost predicate WellMade(f: WsFrame) {
    f.Encodable() && f.NoRsv() && KnownOpcode(f.opcode)
  }

  /** The client reads on after this frame. */
  predicate Readable(f: WsFrame) {
    f.opcode != WS_CLOSE && |f.payload_data| <= MAX_FRAME_PAYLOAD
  }

  /** The frames before the first one that makes `read_frame` throw. */
  function Visible(fs: seq<WsFrame>): seq<WsFrame> {
    if fs == [] || !Readable(fs[0]) then [] else [fs[0]] + Visible(fs[1..])
  }

  /** A Close or an oversized frame makes `read_frame` throw. */
  lemma ClientRefuses(f: WsFrame, rest: bytes)
    requires WellMade(f) && !Readable(f)
    ensures ClientParse(Encode(f) + rest).Threw?
  {
    hide Encode, ParseFrame, ClientParse, KnownOpcode;
    DecodeEncode(f, rest);
    DecoderAgreement(Encode(f) + rest);
  }

  /** On a stream of encodings the client reads exactly the frames before the first unreadable one. */
  lemma {:induction false} ClientDecodesStream(fs: seq<WsFrame>)
    requires forall f :: f in fs ==> WellMade(f)
    ensures ClientParseAll(EncodeAll(fs)) == Views(Visible(fs))
  {
    hide Encode, ClientParse, ClientView, KnownOpcode;
    if fs == [] {
      assert ClientParse([]).Threw? by { EmptyThrows(); }
    } else {
      var rest := EncodeAll(fs[1..]);
      if Readable(fs[0]) {
        ClientDecodes(fs[0], rest);
        assert (Encode(fs[0]) + rest)[|Encode(fs[0])|..] == rest;
        ClientDecodesStream(fs[1..]);
        assert Views(Visible(fs)) == [ClientView(fs[0])] + Views(Visible(fs[1..]));
      } else {
        ClientRefuses(fs[0], rest);
      }
    }
  }

  lemma EmptyThrows()
    ensures ClientParse([]).Threw?
  {
  }

  // ---------- The client, frame by frame ----------

  lemma FeedStep(a: Assembler, fs: seq<WsFrame>)
    requires fs != []
    ensures var s := Feed(a, ClientView(fs[0]));
            var c := FeedAll(s.next, Views(fs[1..]));
            FeedAll(a, Views(fs)) == if s.ProtocolError? then ClientOutcome(s.next, [], true)
                                     else if s.Silent? then c
                                     else c.(messages := [s.message] + c.messages)
  {
    hide Feed, ClientView;
    assert Views(fs)[0] == ClientView(fs[0]) && Views(fs)[1..] == Views(fs[1..]);
  }

  // ---------- The two machines ----------

  /** Text, Binary, Continuation, Ping or Pong. */
  predicate NonClose(f: WsFrame) {
    IsData(f) || f.opcode == WS_CONT || IsPingPong(f)
  }

  /**
    Inside a client's message n octets of it have arrived, and while the limit was not exceeded the
    server holds the same; outside one the server is idle too, with n stray octets buffered.
   */
  ghost predicate InTouch(b: Body, a: Assembler, n: nat) {
    if a.assembling then n == |a.buf| && (n <= MAX_MSG_SIZE ==> b == Body(true, a.opcode, a.buf))
    else !b.assembling && |b.msg| == n
  }

  predicate NextAssembling(assembling: bool, f: WsFrame) {
    if IsPingPong(f) then assembling else (IsData(f) || assembling) && !f.fin
  }

  function NextLength(n: nat, assembling: bool, f: WsFrame): nat {
    if IsPingPong(f) then n
    else if f.fin then 0
    else if IsData(f) then |f.payload_data|
    else if !assembling && Refused(n, f.payload_data) then 0
    else n + |f.payload_data|
  }

  /**
    A data frame comes only outside a message, a frame that ends a message does not exceed the limit,
    and one that ends none does.
   */
  predicate Legal(n: nat, assembling: bool, f: WsFrame) {
    && (IsData(f) ==> !assembling && (f.fin ==> |f.payload_data| <= MAX_MSG_SIZE))
    && (f.opcode == WS_CONT && f.fin ==> assembling == !Refused(n, f.payload_data))
  }

  /**
    No data frame inside a message, every finished message within the limit, and every FIN
    continuation outside a message refused; n octets of a message, or stray ones, have come before.
   */
  predicate InStep(n: nat, assembling: bool, fs: seq<WsFrame>)
    decreases fs
  {
    fs != [] ==>
      && Legal(n, assembling, fs[0])
      && InStep(NextLength(n, assembling, fs[0]), NextAssembling(assembling, fs[0]), fs[1..])
  }

  function MessagePayloads(ms: seq<WsMessage>): (p: seq<bytes>)
    ensures |p| == |ms|
  {
    seq(|ms|, i requires 0 <= i < |ms| => ms[i].payload)
  }

  /** What a step of the client's assembler returns. */
  function Returned(s: Step): seq<bytes> {
    if s.Complete? then [s.message.payload] else []
  }

  lemma DataStartsAfresh(b: Body, f: WsFrame)
    requires IsData(f) && !b.assembling
    ensures Handle(MAX_MSG_SIZE, b, f) == Handle(MAX_MSG_SIZE, EMPTY_BODY, f)
  {
  }

  lemma BodiesInTouch(b: Body, a: Assembler, n: nat, f: WsFrame)
    requires InTouch(b, a, n) && NonClose(f) && !(IsData(f) && a.assembling)
    ensures var o, s := Handle(MAX_MSG_SIZE, b, f), Feed(a, ClientView(f));
            && !s.ProtocolError? && s.next.assembling == NextAssembling(a.assembling, f)
            && InTouch(o.body, s.next, NextLength(n, a.assembling, f))
  {
    hide CloseFrame, Ascii;
    assert [] + f.payload_data == f.payload_data;
  }

  /** What the server delivers at one frame. */
  lemma DeliveredAt(b: Body, a: Assembler, n: nat, f: WsFrame)
    requires InTouch(b, a, n) && NonClose(f) && !(IsData(f) && a.assembling)
    ensures var ds := Deliveries(Handle(MAX_MSG_SIZE, b, f).events);
            && (IsPingPong(f) || !f.fin ==> ds == [])
            && (f.fin && IsData(f) ==> ds == if Refused(0, f.payload_data) then [] else [f.payload_data])
            && (f.fin && f.opcode == WS_CONT && (a.assembling ==> n <= MAX_MSG_SIZE) ==>
                  ds == if Refused(n, f.payload_data) then [] else [b.msg + f.payload_data])
  {
    hide Handle, Deliveries;
    if IsPingPong(f) {
      PingPongStep(MAX_MSG_SIZE, b, f);
    } else if IsData(f) {
      DataStartsAfresh(b, f);
      ExtendStep(EMPTY_BODY, f);
      assert [] + f.payload_data == f.payload_data;
    } else {
      ExtendStep(b, f);
    }
  }

  /**
    One frame keeps the machines in touch.  A legal one makes both deliver the same; any other ends a
    client's message beyond the limit, or makes the server deliver what the client does not.
   */
  lemma StepAgreement(b: Body, a: Assembler, n: nat, f: WsFrame)
    requires InTouch(b, a, n) && NonClose(f)
    ensures var o, s := Handle(MAX_MSG_SIZE, b, f), Feed(a, ClientView(f));
            && !o.closed && (s.ProtocolError? <==> IsData(f) && a.assembling)
            && (!s.ProtocolError? ==>
                  && s.next.assembling == NextAssembling(a.assembling, f)
                  && InTouch(o.body, s.next, NextLength(n, a.assembling, f))
                  && (Legal(n, a.assembling, f) ==> Deliveries(o.events) == Returned(s))
                  && (!Legal(n, a.assembling, f) ==>
                        || (s.Complete? && |s.message.payload| > MAX_MSG_SIZE)
                        || (s.Silent? && |Deliveries(o.events)| == 1)))
  {
    hide Deliveries, Handle;
    OnlyCloseCloses(b, f);
    if !(IsData(f) && a.assembling) {
      BodiesInTouch(b, a, n, f);
      DeliveredAt(b, a, n, f);
    }
  }

  /** Some message the client returned is beyond the server's limit. */
  ghost predicate TooBig(ms: seq<WsMessage>) {
    exists i :: 0 <= i < |ms| && |ms[i].payload| > MAX_MSG_SIZE
  }

  ghost predicate Agreeing(inStep: bool, o: Outcome, c: ClientOutcome) {
    && (inStep ==> !c.failed && Deliveries(o.events) == MessagePayloads(c.messages)
                   && exists n: nat :: InTouch(o.body, c.last, n))
    && (!inStep && !c.failed ==> TooBig(c.messages) || |Deliveries(o.events)| > |c.messages|)
  }

  lemma NothingArrived(b: Body, a: Assembler, n: nat)
    requires InTouch(b, a, n)
    ensures InStep(n, a.assembling, []) && Agreeing(true, Run(b, []), FeedAll(a, Views([])))
  {
  }

  /** The step in front of a run. */
  lemma AgreeingStep(legal: bool, ds: seq<bytes>, s: Step, rest: bool, o: Outcome, c: ClientOutcome,
                     total: Outcome, all: ClientOutcome)
    requires !s.ProtocolError? && Agreeing(rest, o, c)
    requires total.body == o.body && Deliveries(total.events) == ds + Deliveries(o.events)
    requires all == if s.Silent? then c else c.(messages := [s.message] + c.messages)
    requires legal ==> ds == Returned(s)
    requires !legal ==> (s.Complete? && |s.message.payload| > MAX_MSG_SIZE) || (s.Silent? && |ds| == 1)
    ensures Agreeing(legal && rest, total, all)
  {
    hide Deliveries, InTouch;
    if s.Complete? {
      assert MessagePayloads(all.messages) == [s.message.payload] + MessagePayloads(c.messages);
      if |s.message.payload| > MAX_MSG_SIZE {
        assert |all.messages[0].payload| > MAX_MSG_SIZE;
      }
      if TooBig(c.messages) {
        var i :| 0 <= i < |c.messages| && |c.messages[i].payload| > MAX_MSG_SIZE;
        assert all.messages[i + 1] == c.messages[i];
      }
    }
  }

  lemma {:induction false} RunAgreement(b: Body, a: Assembler, n: nat, fs: seq<WsFrame>)
    requires InTouch(b, a, n) && forall f :: f in fs ==> NonClose(f)
    ensures Agreeing(InStep(n, a.assembling, fs), Run(b, fs), FeedAll(a, Views(fs)))
    decreases fs
  {
    hide Run, FeedAll, InStep, Handle, Feed, Deliveries, ClientView, NonClose, InTouch, Legal, Agreeing, Views;
    if fs == [] {
      NothingArrived(b, a, n);
    } else {
      var f, rest := fs[0], fs[1..];
      var o, s := Handle(MAX_MSG_SIZE, b, f), Feed(a, ClientView(f));
      StepAgreement(b, a, n, f);
      RunStep(b, fs);
      FeedStep(a, fs);
      InStepStep(n, a.assembling, fs);
      if s.ProtocolError? {
        Failing(Run(b, fs), FeedAll(a, Views(fs)));
        IllegalData(n, a.assembling, f);
      } else {
        var m, asm := NextLength(n, a.assembling, f), s.next.assembling;
        RunAgreement(o.body, s.next, m, rest);
        var r := Run(o.body, rest);
        DeliveriesAppend(o.events, r.events);
        AgreeingStep(Legal(n, a.assembling, f), Deliveries(o.events), s, InStep(m, asm, rest), r,
                     FeedAll(s.next, Views(rest)), Run(b, fs), FeedAll(a, Views(fs)));
      }
    }
  }

  lemma InStepStep(n: nat, assembling: bool, fs: seq<WsFrame>)
    requires fs != []
    ensures InStep(n, assembling, fs) == (Legal(n, assembling, fs[0])
            && InStep(NextLength(n, assembling, fs[0]), NextAssembling(assembling, fs[0]), fs[1..]))
  {
    hide Legal;
  }

  lemma IllegalData(n: nat, assembling: bool, f: WsFrame)
    requires IsData(f) && assembling
    ensures !Legal(n, assembling, f)
  {
  }

  lemma Failing(o: Outcome, c: ClientOutcome)
    requires c.failed
    ensures Agreeing(false, o, c)
  {
  }

  /**
    Assembler agreement.  On every list of frames that are not Close, malformed and oversized ones
    included, the client reads to the end and delivers exactly the server's messages if and only if
    no data frame comes inside a message, every finished message is within the limit, and every FIN
    continuation outside a message is refused; the machines then stay in touch.
   */
  lemma AssemblersAgreeExactly(fs: seq<WsFrame>)
    requires forall f :: f in fs ==> NonClose(f)
    ensures var o, c := Run(EMPTY_BODY, fs), FeedAll(IDLE, Views(fs));
            && (!c.failed && Deliveries(o.events) == MessagePayloads(c.messages) <==> InStep(0, false, fs))
            && (InStep(0, false, fs) ==> exists n: nat :: InTouch(o.body, c.last, n))
  {
    hide Run, FeedAll, Deliveries, InStep, NonClose, Views;
    RunAgreement(EMPTY_BODY, IDLE, 0, fs);
    AlwaysBounded(EMPTY_BODY, fs);
    var o, c := Run(EMPTY_BODY, fs), FeedAll(IDLE, Views(fs));
    if Deliveries(o.events) == MessagePayloads(c.messages) {
      NoneTooBig(c.messages);
    }
  }

  lemma NoneTooBig(ms: seq<WsMessage>)
    requires Bounded(MAX_MSG_SIZE, MessagePayloads(ms))
    ensures !TooBig(ms)
  {
    forall i | 0 <= i < |ms| ensures |ms[i].payload| <= MAX_MSG_SIZE {
      assert MessagePayloads(ms)[i] in MessagePayloads(ms);
    }
  }

  /** The same, on the octets of a stream of frames the client does not refuse, both reading from its start. */
  lemma ReceiversAgree(fs: seq<WsFrame>)
    requires forall f :: f in fs ==> WellMade(f) && NonClose(f) && Readable(f)
    ensures var s := EncodeAll(fs);
            var c, o := FeedAll(IDLE, ClientParseAll(s)), RunBytes(EMPTY_BODY, s);
            && AllMessages(IDLE, s) == c.messages
            && (!c.failed && Deliveries(o.events) == MessagePayloads(AllMessages(IDLE, s)) <==> InStep(0, false, fs))
  {
    hide Run, RunBytes, FeedAll, Deliveries, InStep, AllMessages, EncodeAll, ClientParseAll;
    RunEncoded(EMPTY_BODY, fs);
    AllMessagesIsFeed(IDLE, EncodeAll(fs));
    ClientDecodesStream(fs);
    AllVisible(fs);
    AssemblersAgreeExactly(fs);
  }

  lemma {:induction false} AllVisible(fs: seq<WsFrame>)
    requires forall f :: f in fs ==> Readable(f)
    ensures Visible(fs) == fs
  {
    if fs != [] {
      AllVisible(fs[1..]);
    }
  }

  // ---------- Where the two differ ----------

  /** A continuation that continues nothing is reported, and delivered all the same. */
  lemma StrayContinuationIsDelivered()
    ensures var f := WsFrame(true, false, false, false, WS_CONT, false, 0, [0x41]);
            Deliveries(Run(EMPTY_BODY, [f]).events) == [[0x41]] && FeedAll(IDLE, Views([f])).messages == []
  {
    hide Handle, Run, Deliveries, FeedAll, Views;
    var f := WsFrame(true, false, false, false, WS_CONT, false, 0, [0x41]);
    var o := Handle(MAX_MSG_SIZE, EMPTY_BODY, f);
    ExtendStep(EMPTY_BODY, f);
    assert EMPTY_BODY.msg + f.payload_data == [0x41];
    assert [f][1..] == [];
    RunStep(EMPTY_BODY, [f]);
    RunNothing(o.body);
    assert o.events + [] == o.events;
    FeedStep(IDLE, [f]);
    FeedNothing(IDLE);
  }

  lemma FeedNothing(a: Assembler)
    ensures FeedAll(a, Views([])) == ClientOutcome(a, [], false)
  {
  }

  /** A message of 9 MiB in one frame: the server delivers it, the client's reader refuses the frame. */
  lemma NineMebibytes()
    ensures var p := seq(9 * 1024 * 1024, _ => 0 as byte);
            var s := EncodeAll([ServerFrame(WS_TEXT, p)]);
            Deliveries(RunBytes(EMPTY_BODY, s).events) == [p] && AllMessages(IDLE, s) == []
  {
    hide RunBytes, EncodeAll, Deliveries, AllMessages;
    BetweenTheLimits(seq(9 * 1024 * 1024, _ => 0 as byte));
  }

  /** The same for every message between the two limits. */
  lemma BetweenTheLimits(p: bytes)
    requires MAX_FRAME_PAYLOAD < |p| <= MAX_MSG_SIZE
    ensures var s := EncodeAll([ServerFrame(WS_TEXT, p)]);
            Deliveries(RunBytes(EMPTY_BODY, s).events) == [p] && AllMessages(IDLE, s) == []
  {
    hide RunBytes, EncodeAll, Deliveries, AllMessages, FeedAll, ClientParseAll, Kept, KeptAll, Views;
    var f, t := ServerFrame(WS_TEXT, p), Transmission(WS_TEXT, [p]);
    assert [f][1..] == [] && t.parts[1..] == [];
    NoPings([f]);
    OneMessage([f], t);
    AnySizeReception([f], [t]);
    KeptExactly([], t.parts);
    ConcatHead(t.parts);
    assert [] + p == p;
    ClientDecodesStream([f]);
    assert Visible([f]) == [];
    AllMessagesIsFeed(IDLE, EncodeAll([f]));
    FeedNothing(IDLE);
  }

  // ---------- Messages of any size ----------

  /** The client passes over Pings and Pongs. */
  lemma {:induction false} ClientSkipsPings(a: Assembler, fs: seq<WsFrame>)
    ensures FeedAll(a, Views(fs)) == FeedAll(a, Views(Data(fs)))
    decreases fs
  {
    hide FeedAll, Views, ClientView, Feed;
    if fs != [] {
      FeedStep(a, fs);
      var s := Feed(a, ClientView(fs[0]));
      ClientSkipsPings(s.next, fs[1..]);
      if IsPingPong(fs[0]) {
        PingIsSilent(a, fs[0]);
        assert Data(fs) == Data(fs[1..]);
      } else {
        assert Data(fs)[0] == fs[0] && Data(fs)[1..] == Data(fs[1..]);
        FeedStep(a, Data(fs));
      }
    }
  }

  lemma PingIsSilent(a: Assembler, f: WsFrame)
    requires IsPingPong(f)
    ensures Feed(a, ClientView(f)) == Silent(a)
  {
  }

  lemma {:induction false} ClientContinuation(a: Assembler, fs: seq<WsFrame>, parts: seq<bytes>, rest: seq<WsFrame>)
    requires a.assembling && parts != [] && Continues(fs, parts)
    ensures var c := FeedAll(Assembler(false, a.opcode, []), Views(rest));
            FeedAll(a, Views(fs + rest))
            == c.(messages := [WsMessage(a.opcode, a.buf + Concat(parts))] + c.messages)
    decreases parts
  {
    hide FeedAll, Views, Concat;
    var all := fs + rest;
    assert all[0] == fs[0] && all[1..] == fs[1..] + rest;
    FeedStep(a, all);
    ConcatHead(parts);
    if |parts| == 1 {
      assert fs[1..] + rest == rest;
    } else {
      ClientContinuation(a.(buf := a.buf + parts[0]), fs[1..], parts[1..], rest);
      assert (a.buf + parts[0]) + Concat(parts[1..]) == a.buf + Concat(parts);
    }
  }

  lemma ClientTransmission(a: Assembler, fs: seq<WsFrame>, t: Transmission, rest: seq<WsFrame>)
    requires !a.assembling && t.Valid() && Fragments(fs, t)
    ensures var c := FeedAll(Assembler(false, t.opcode, []), Views(rest));
            FeedAll(a, Views(fs + rest)) == c.(messages := [WsMessage(t.opcode, t.Payload())] + c.messages)
  {
    hide FeedAll, Views, Concat;
    var all := fs + rest;
    assert all[0] == fs[0] && all[1..] == fs[1..] + rest;
    FeedStep(a, all);
    ConcatHead(t.parts);
    if |t.parts| == 1 {
      assert fs[1..] + rest == rest;
    } else {
      ClientContinuation(Assembler(true, t.opcode, t.parts[0]), fs[1..], t.parts[1..], rest);
    }
  }

  lemma {:induction false} PartOfContinuation(a: Assembler, fs: seq<WsFrame>)
    requires a.assembling && forall f :: f in fs ==> f.opcode == WS_CONT && !f.fin
    ensures FeedAll(a, Views(fs)).messages == [] && !FeedAll(a, Views(fs)).failed
    decreases fs
  {
    hide FeedAll, Views;
    if fs == [] {
      FeedNothing(a);
    } else {
      FeedStep(a, fs);
      PartOfContinuation(Feed(a, ClientView(fs[0])).next, fs[1..]);
    }
  }

  /** Some but not all frames of a message. */
  lemma PartOfTransmission(a: Assembler, fs: seq<WsFrame>, t: Transmission, n: nat)
    requires !a.assembling && t.Valid() && Fragments(fs, t) && n < |fs|
    ensures FeedAll(a, Views(fs[..n])).messages == [] && !FeedAll(a, Views(fs[..n])).failed
  {
    hide FeedAll, Views;
    if n == 0 {
      assert fs[..0] == [];
      FeedNothing(a);
    } else {
      var part := fs[..n];
      FeedStep(a, part);
      forall f | f in part[1..] ensures f.opcode == WS_CONT && !f.fin {
        var i :| 0 <= i < |part[1..]| && f == part[1..][i];
        assert f == fs[1..][i];
      }
      PartOfContinuation(Feed(a, ClientView(fs[0])).next, part[1..]);
    }
  }

  function WholeMessages(ts: seq<Transmission>): seq<WsMessage> {
    if ts == [] then [] else [WsMessage(ts[0].opcode, ts[0].Payload())] + WholeMessages(ts[1..])
  }

  /** How many messages are complete after n of the frames that carry them. */
  function Completed(n: nat, ts: seq<Transmission>): (k: nat)
    ensures k <= |ts|
    decreases ts
  {
    if ts == [] || n < |ts[0].parts| then 0 else 1 + Completed(n - |ts[0].parts|, ts[1..])
  }

  /** Of messages of any size the client assembles those whose frames it got. */
  lemma {:induction false} ClientTransmissions(a: Assembler, fs: seq<WsFrame>, ts: seq<Transmission>, n: nat)
    requires !a.assembling && Carries(fs, ts) && n <= |fs|
    ensures var c := FeedAll(a, Views(fs[..n]));
            c.messages == WholeMessages(ts[..Completed(n, ts)]) && !c.failed
    decreases ts
  {
    hide FeedAll, Views, Fragments;
    if ts == [] {
      assert fs[..n] == [];
      FeedNothing(a);
    } else {
      var k := |ts[0].parts|;
      var first := fs[..k];
      if n < k {
        assert fs[..n] == first[..n];
        PartOfTransmission(a, first, ts[0], n);
      } else {
        var rest, j := fs[k..], Completed(n - k, ts[1..]);
        assert fs[..n] == first + rest[..n - k];
        ClientTransmission(a, first, ts[0], rest[..n - k]);
        ClientTransmissions(Assembler(false, ts[0].opcode, []), rest, ts[1..], n - k);
        assert ts[..j + 1][0] == ts[0] && ts[..j + 1][1..] == ts[1..][..j];
      }
    }
  }

  lemma {:induction false} WholePayloads(ts: seq<Transmission>)
    ensures MessagePayloads(WholeMessages(ts)) == Payloads(ts)
  {
    if ts != [] {
      WholePayloads(ts[1..]);
      assert WholeMessages(ts)[1..] == WholeMessages(ts[1..]);
    }
  }

  lemma {:induction false} CarriedAreValid(fs: seq<WsFrame>, ts: seq<Transmission>)
    requires Carries(fs, ts)
    ensures forall t :: t in ts ==> t.Valid()
    decreases ts
  {
    if ts != [] {
      CarriedAreValid(fs[|ts[0].parts|..], ts[1..]);
    }
  }

  lemma {:induction false} VisibleIsFront(fs: seq<WsFrame>)
    ensures Visible(fs) <= fs
  {
    if fs != [] {
      VisibleIsFront(fs[1..]);
    }
  }

  /** The data frames the client reads are the first of all data frames. */
  lemma VisibleData(fs: seq<WsFrame>)
    ensures Data(Visible(fs)) <= Data(fs)
  {
    hide Data, Visible;
    VisibleIsFront(fs);
    assert fs == Visible(fs) + fs[|Visible(fs)|..];
    DataAppend(Visible(fs), fs[|Visible(fs)|..]);
  }

  /** What the client returns out of the octets of messages of any size. */
  lemma ClientReceives(fs: seq<WsFrame>, ts: seq<Transmission>)
    requires (forall f :: f in fs ==> WellMade(f)) && Carries(Data(fs), ts)
    ensures AllMessages(IDLE, EncodeAll(fs)) == WholeMessages(ts[..Completed(|Data(Visible(fs))|, ts)])
  {
    hide FeedAll, AllMessages, EncodeAll, ClientParseAll, Carries, Data, Visible, WholeMessages, Views, Completed;
    var n := |Data(Visible(fs))|;
    AllMessagesIsFeed(IDLE, EncodeAll(fs));
    ClientDecodesStream(fs);
    ClientSkipsPings(IDLE, Visible(fs));
    VisibleData(fs);
    assert Data(fs)[..n] == Data(Visible(fs));
    ClientTransmissions(IDLE, Data(fs), ts, n);
  }

  /**
    Messages of any size, in any fragmentation, with any masks and keys and any Pings and Pongs in
    between, as octets.  Where every frame comes before the first one above 8 MiB, or else up to
    there, the client returns every message completed, whole; the server delivers the same if and
    only if those are within its limit and of all others it refuses the last part.
   */
  lemma SameMessagesExactly(fs: seq<WsFrame>, ts: seq<Transmission>)
    requires (forall f :: f in fs ==> WellMade(f)) && Carries(Data(fs), ts)
    ensures var s, k := EncodeAll(fs), Completed(|Data(Visible(fs))|, ts);
            && AllMessages(IDLE, s) == WholeMessages(ts[..k])
            && (Deliveries(RunBytes(EMPTY_BODY, s).events) == MessagePayloads(AllMessages(IDLE, s)) <==>
                  AllWithinLimit(ts[..k]) && forall t :: t in ts[k..] ==> LastRefused(0, t.parts))
  {
    hide RunBytes, AllMessages, EncodeAll, Deliveries, Carries, Data, Visible, KeptAll, Payloads, WholeMessages,
         AllWithinLimit, Completed, LastRefused;
    var k := Completed(|Data(Visible(fs))|, ts);
    ClientReceives(fs, ts);
    WholePayloads(ts[..k]);
    AnySizeReception(fs, ts);
    CarriedAreValid(Data(fs), ts);
    KeptIsFront(ts, k);
  }

  /** Where the client refuses no frame: all messages, and the same from the server if and only if none is too big. */
  lemma SameReadableMessages(fs: seq<WsFrame>, ts: seq<Transmission>)
    requires (forall f :: f in fs ==> WellMade(f) && Readable(f)) && Carries(Data(fs), ts)
    ensures var s := EncodeAll(fs);
            && AllMessages(IDLE, s) == WholeMessages(ts)
            && (Deliveries(RunBytes(EMPTY_BODY, s).events) == MessagePayloads(AllMessages(IDLE, s)) <==>
                  AllWithinLimit(ts))
  {
    hide RunBytes, AllMessages, EncodeAll, Deliveries, Carries, Data, WholeMessages, Completed, LastRefused;
    AllVisible(fs);
    AllCompleted(Data(fs), ts);
    assert ts[..|ts|] == ts && ts[|ts|..] == [];
    SameMessagesExactly(fs, ts);
  }

  lemma {:induction false} AllCompleted(fs: seq<WsFrame>, ts: seq<Transmission>)
    requires Carries(fs, ts)
    ensures Completed(|fs|, ts) == |ts|
    decreases ts
  {
    if ts != [] {
      AllCompleted(fs[|ts[0].parts|..], ts[1..]);
    }
  }
}
