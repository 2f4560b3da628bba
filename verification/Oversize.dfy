/**
  What becomes of messages beyond the size limit (include/websocket/ws_helpers.h,
  `too_big` and the continuation branch in include/websocket/WebSocket.h): the frame that would
  exceed the limit is refused and the buffer emptied, and the frames behind it are buffered anew.
 */
module Oversize {
  import opened Bytes
  import opened Frames
  import opened FrameCodec
  import opened Receiver
  import opened Reception

  predicate Refused(n: nat, part: bytes) {
    n + |part| > MAX_MSG_SIZE
  }

  /** What is left of a message whose parts arrive behind `acc`; nothing when its last part is refused. */
  function Kept(acc: bytes, parts: seq<bytes>): Option<bytes>
    decreases parts
  {
    if parts == [] then None
    else if Refused(|acc|, parts[0]) then Kept([], parts[1..])
    else if |parts| == 1 then Some(acc + parts[0])
    else Kept(acc + parts[0], parts[1..])
  }

  function AsList(m: Option<bytes>): seq<bytes> {
    if m.None? then [] else [m.value]
  }

  // ---------- The server keeps exactly that ----------

  /** A continuation, or a data frame outside a message. */
  predicate Extends(b: Body, f: WsFrame) {
    f.opcode == WS_CONT || (IsData(f) && !b.assembling && b.msg == [])
  }

  lemma ExtendStep(b: Body, f: WsFrame)
    requires Extends(b, f)
    ensures var o := Handle(MAX_MSG_SIZE, b, f);
            && !o.closed
            && (Refused(|b.msg|, f.payload_data) ==> o.body == EMPTY_BODY && Deliveries(o.events) == [])
            && (!Refused(|b.msg|, f.payload_data) && f.fin ==>
                  o.body == EMPTY_BODY && Deliveries(o.events) == [b.msg + f.payload_data])
            && (!Refused(|b.msg|, f.payload_data) && !f.fin ==>
                  o.body.msg == b.msg + f.payload_data && Deliveries(o.events) == [])
  {
    hide CloseFrame, Ascii, Deliveries;
    var o := Handle(MAX_MSG_SIZE, b, f);
    if !Refused(|b.msg|, f.payload_data) && f.fin {
      assert [] + f.payload_data == f.payload_data;
      var k := |o.events| - 1;
      NothingDelivered(o.events[..k]);
      assert o.events == o.events[..k] + [Delivered(b.msg + f.payload_data)];
      DeliveriesAppend(o.events[..k], [Delivered(b.msg + f.payload_data)]);
      OneDelivery(b.msg + f.payload_data);
    } else {
      NothingDelivered(o.events);
    }
  }

  lemma OneDelivery(m: bytes)
    ensures Deliveries([Delivered(m)]) == [m]
  {
    assert [Delivered(m)][1..] == [];
  }

  /** `r` is what `rest` alone does, behind one more delivery if `m` is one. */
  ghost predicate OneMore(o: Outcome, m: Option<bytes>, r: Outcome) {
    o.body == r.body && o.closed == r.closed && Deliveries(o.events) == AsList(m) + Deliveries(r.events)
  }

  lemma {:induction false} RunParts(b: Body, fs: seq<WsFrame>, parts: seq<bytes>, rest: seq<WsFrame>)
    requires |fs| == |parts| > 0 && Extends(b, fs[0])
    requires fs[0].payload_data == parts[0] && fs[0].fin == (|fs| == 1) && Continues(fs[1..], parts[1..])
    ensures OneMore(Run(b, fs + rest), Kept(b.msg, parts), Run(EMPTY_BODY, rest))
    decreases parts
  {
    hide Handle, Run, Deliveries;
    var o, all := Handle(MAX_MSG_SIZE, b, fs[0]), fs + rest;
    assert all[0] == fs[0] && all[1..] == fs[1..] + rest;
    ExtendStep(b, fs[0]);
    RunStep(b, all);
    DeliveriesAppend(o.events, Run(o.body, all[1..]).events);
    if |fs| == 1 {
      assert fs[1..] + rest == rest;
    } else {
      assert Continues(fs[1..][1..], parts[1..][1..]);
      RunParts(o.body, fs[1..], parts[1..], rest);
    }
  }

  /** What is left of each message of a list. */
  function KeptAll(ts: seq<Transmission>): seq<bytes> {
    if ts == [] then [] else AsList(Kept([], ts[0].parts)) + KeptAll(ts[1..])
  }

  lemma {:induction false} RunAnySize(fs: seq<WsFrame>, ts: seq<Transmission>)
    requires Carries(fs, ts)
    ensures var o := Run(EMPTY_BODY, fs);
            o.body == EMPTY_BODY && !o.closed && Deliveries(o.events) == KeptAll(ts)
    decreases ts
  {
    hide Handle, Run, Kept, Deliveries;
    if ts == [] {
      RunNothing(EMPTY_BODY);
      NothingDelivered([]);
    } else {
      var k := |ts[0].parts|;
      assert fs == fs[..k] + fs[k..];
      RunParts(EMPTY_BODY, fs[..k], ts[0].parts, fs[k..]);
      RunAnySize(fs[k..], ts[1..]);
    }
  }

  /**
    Messages of any size, in any fragmentation, with any masks and keys and any Pings and Pongs in
    between: the octet stream delivers, in order, exactly what is left of each message, and leaves
    the body reset and the connection open.
   */
  lemma AnySizeReception(fs: seq<WsFrame>, ts: seq<Transmission>)
    requires AllEncodable(fs) && Carries(Data(fs), ts)
    ensures var o := RunBytes(EMPTY_BODY, EncodeAll(fs));
            o.body == EMPTY_BODY && !o.closed && Deliveries(o.events) == KeptAll(ts)
  {
    hide Run, RunBytes, Carries, Data, EncodeAll, Deliveries;
    RunEncoded(EMPTY_BODY, fs);
    PingPongTransparent(EMPTY_BODY, fs);
    RunAnySize(Data(fs), ts);
  }

  // ---------- What that is, in terms of lengths ----------

  /** The octets buffered after some parts, `n` having been there before. */
  function Buffered(n: nat, parts: seq<bytes>): nat
    decreases parts
  {
    if parts == [] then n
    else Buffered(if Refused(n, parts[0]) then 0 else n + |parts[0]|, parts[1..])
  }

  /** The part a sender marks FIN is itself refused. */
  predicate LastRefused(n: nat, parts: seq<bytes>) {
    parts != [] && Refused(Buffered(n, parts[..|parts| - 1]), parts[|parts| - 1])
  }

  lemma LastRefusedStep(n: nat, parts: seq<bytes>)
    requires |parts| > 1
    ensures LastRefused(n, parts)
            == LastRefused(if Refused(n, parts[0]) then 0 else n + |parts[0]|, parts[1..])
  {
    assert parts[1..][..|parts| - 2] == parts[..|parts| - 1][1..];
  }

  /** m is what the parts from k on hold, and less than what all of them hold. */
  ghost predicate TailFrom(parts: seq<bytes>, k: nat, m: bytes) {
    0 < k < |parts| && m == Concat(parts[k..]) && |m| < |Concat(parts)|
  }

  /**
    Nothing is left if and only if the last part is refused; everything if and only if all of it is
    within the limit; in every other case a proper tail.
   */
  lemma {:induction false} KeptExactly(acc: bytes, parts: seq<bytes>)
    requires parts != [] && |acc| <= MAX_MSG_SIZE
    ensures Kept(acc, parts).None? <==> LastRefused(|acc|, parts)
    ensures Kept(acc, parts) == Some(acc + Concat(parts)) <==> |acc + Concat(parts)| <= MAX_MSG_SIZE
    ensures |acc + Concat(parts)| > MAX_MSG_SIZE && !LastRefused(|acc|, parts) ==>
              exists k: nat :: TailFrom(parts, k, Kept(acc, parts).value)
    decreases parts
  {
    hide Concat;
    ConcatHead(parts);
    var p, rest := parts[0], parts[1..];
    if |parts| == 1 {
      assert parts[..0] == [];
    } else {
      LastRefusedStep(|acc|, parts);
      var next := if Refused(|acc|, p) then [] else acc + p;
      KeptExactly(next, rest);
      assert (acc + p) + Concat(rest) == acc + Concat(parts);
      if !LastRefused(|acc|, parts) {
        var m := Kept(acc, parts).value;
        if |next + Concat(rest)| > MAX_MSG_SIZE {
          var k: nat :| TailFrom(rest, k, m);
          assert rest[k..] == parts[k + 1..];
          assert TailFrom(parts, k + 1, m);
        } else if Refused(|acc|, p) {
          assert [] + Concat(rest) == Concat(rest);
          assert TailFrom(parts, 1, m);
        }
      }
    }
  }

  /**
    One message of any size, on the wire in any fragmentation with Pings and Pongs in between: it is
    delivered whole if and only if it is within the limit, not at all if and only if its last part is
    refused, and cut down to a proper tail if and only if it is too big and its last part is not.
   */
  lemma MessageOfAnySize(fs: seq<WsFrame>, t: Transmission)
    requires AllEncodable(fs) && t.Valid() && Fragments(Data(fs), t)
    ensures var ds := Deliveries(RunBytes(EMPTY_BODY, EncodeAll(fs)).events);
            && (ds == [t.Payload()] <==> t.WithinLimit())
            && (ds == [] <==> LastRefused(0, t.parts))
            && ((exists k: nat, m :: TailFrom(t.parts, k, m) && ds == [m]) <==>
                  !t.WithinLimit() && !LastRefused(0, t.parts))
  {
    hide RunBytes, EncodeAll, Deliveries, Fragments, Data, Kept, LastRefused, Concat;
    var m := Kept([], t.parts);
    OneMessage(Data(fs), t);
    AnySizeReception(fs, [t]);
    KeptExactly([], t.parts);
    assert [] + t.Payload() == t.Payload();
    if !t.WithinLimit() && !LastRefused(0, t.parts) {
      var k: nat :| TailFrom(t.parts, k, m.value);
      assert AsList(m) == [m.value];
    }
  }

  lemma {:induction false} KeptAppend(a: seq<Transmission>, b: seq<Transmission>)
    ensures KeptAll(a + b) == KeptAll(a) + KeptAll(b)
  {
    hide Kept;
    if a == [] {
      assert a + b == b;
    } else {
      var ab := a + b;
      assert ab[0] == a[0] && ab[1..] == a[1..] + b;
      KeptAppend(a[1..], b);
      assert AsList(Kept([], a[0].parts)) + (KeptAll(a[1..]) + KeptAll(b))
          == (AsList(Kept([], a[0].parts)) + KeptAll(a[1..])) + KeptAll(b);
    }
  }

  lemma {:induction false} KeptBounded(acc: bytes, parts: seq<bytes>)
    ensures Kept(acc, parts).Some? ==> |Kept(acc, parts).value| <= MAX_MSG_SIZE
    decreases parts
  {
    if parts != [] {
      KeptBounded(if Refused(|acc|, parts[0]) then [] else acc + parts[0], parts[1..]);
    }
  }

  /** Messages within the limit are kept whole. */
  lemma {:induction false} KeptWhole(ts: seq<Transmission>)
    requires (forall t :: t in ts ==> t.Valid()) && AllWithinLimit(ts)
    ensures KeptAll(ts) == Payloads(ts)
  {
    hide Kept, Concat;
    if ts != [] {
      assert ts[0] in ts;
      KeptExactly([], ts[0].parts);
      assert [] + ts[0].Payload() == ts[0].Payload();
      KeptWhole(ts[1..]);
    }
  }

  /** Nothing is left of a list of messages if and only if the last part of each is refused. */
  lemma {:induction false} KeptNothing(ts: seq<Transmission>)
    requires forall t :: t in ts ==> t.Valid()
    ensures KeptAll(ts) == [] <==> forall t :: t in ts ==> LastRefused(0, t.parts)
  {
    hide Kept, Concat, LastRefused;
    if ts != [] {
      assert ts[0] in ts;
      KeptExactly([], ts[0].parts);
      KeptNothing(ts[1..]);
      assert forall t :: t in ts <==> t == ts[0] || t in ts[1..];
    }
  }

  lemma {:induction false} KeptAllBounded(ts: seq<Transmission>)
    ensures Bounded(MAX_MSG_SIZE, KeptAll(ts))
  {
    hide Kept;
    if ts != [] {
      KeptBounded([], ts[0].parts);
      KeptAllBounded(ts[1..]);
    }
  }

  lemma {:induction false} PayloadsHold(ts: seq<Transmission>)
    ensures forall t :: t in ts ==> t.Payload() in Payloads(ts)
  {
    if ts != [] {
      PayloadsHold(ts[1..]);
    }
  }

  /**
    What is left of all messages is the first k of them, whole, if and only if those are within the
    limit and of all others the last part is refused.
   */
  lemma KeptIsFront(ts: seq<Transmission>, k: nat)
    requires k <= |ts| && forall t :: t in ts ==> t.Valid()
    ensures KeptAll(ts) == Payloads(ts[..k]) <==>
              AllWithinLimit(ts[..k]) && forall t :: t in ts[k..] ==> LastRefused(0, t.parts)
  {
    hide KeptAll, Payloads, LastRefused, Concat;
    assert ts == ts[..k] + ts[k..];
    KeptAppend(ts[..k], ts[k..]);
    KeptNothing(ts[k..]);
    if AllWithinLimit(ts[..k]) {
      KeptWhole(ts[..k]);
      assert Payloads(ts[..k]) + [] == Payloads(ts[..k]);
    } else {
      var t :| t in ts[..k] && !t.WithinLimit();
      PayloadsHold(ts[..k]);
      KeptAllBounded(ts);
    }
  }

  lemma OneMessage(fs: seq<WsFrame>, t: Transmission)
    requires t.Valid() && Fragments(fs, t)
    ensures Carries(fs, [t]) && KeptAll([t]) == AsList(Kept([], t.parts))
  {
    hide Kept, Continues;
    assert fs[..|t.parts|] == fs && fs[|t.parts|..] == [] && [t][1..] == [];
  }

  lemma {:induction false} NoPings(fs: seq<WsFrame>)
    requires forall f :: f in fs ==> !IsPingPong(f)
    ensures Data(fs) == fs
  {
    if fs != [] {
      NoPings(fs[1..]);
    }
  }

  /** A message in one frame: delivered up to 10 MiB, refused beyond. */
  lemma OneFrame(p: bytes)
    requires |p| < U64_LIMIT
    ensures Deliveries(RunBytes(EMPTY_BODY, EncodeAll([ServerFrame(WS_TEXT, p)])).events)
            == if |p| <= 10485760 then [p] else []
  {
    hide RunBytes, EncodeAll, Deliveries;
    var fs, t := [ServerFrame(WS_TEXT, p)], Transmission(WS_TEXT, [p]);
    assert fs[1..] == [] && t.parts[1..] == [];
    NoPings(fs);
    OneMessage(fs, t);
    AnySizeReception(fs, [t]);
    assert [] + p == p;
  }

  /** Two frames after which the server delivers a single octet of a message it has just refused. */
  lemma TailIsDelivered()
    ensures var big := seq(MAX_MSG_SIZE + 1, _ => 0 as byte);
            var fs := [WsFrame(false, false, false, false, WS_TEXT, false, 0, big),
                       WsFrame(true, false, false, false, WS_CONT, false, 0, [0x41])];
            Deliveries(RunBytes(EMPTY_BODY, EncodeAll(fs)).events) == [[0x41]]
  {
    hide RunBytes, EncodeAll, Deliveries;
    var big := seq(MAX_MSG_SIZE + 1, _ => 0 as byte);
    var fs := [WsFrame(false, false, false, false, WS_TEXT, false, 0, big),
               WsFrame(true, false, false, false, WS_CONT, false, 0, [0x41])];
    var t := Transmission(WS_TEXT, [big, [0x41]]);
    assert fs[1..] == [fs[1]] && t.parts[1..] == [[0x41]];
    NoPings(fs);
    OneMessage(fs, t);
    AnySizeReception(fs, [t]);
    var last: bytes := [0x41];
    assert [] + last == last;
    assert Kept([], [last]) == Some(last);
  }
}
