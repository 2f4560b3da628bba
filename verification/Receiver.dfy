/**
  The server's receiving side: `FrameBody` (include/websocket/ws_helpers.h) and
  `handle_parsed_frame`, `handle_close_frame`, `close` and `do_read_loop`
  (include/websocket/WebSocket.h).

  `Handle`, `Run` and `RunBytes` say what a frame, a list of frames and an octet stream do;
  `FrameBody` and `Connection` are the program's objects, proved to do exactly that.
 */
module Receiver {
  import opened Bytes
  import opened Frames
  import opened FrameReader
  import opened FrameCodec
  import opened ClosePayloads

  const MAX_MSG_SIZE: nat := 10 * 1024 * 1024

  /** The abstract value of a `FrameBody`. */
  datatype Body = Body(assembling: bool, opcode: byte, msg: bytes)

  const EMPTY_BODY := Body(false, 0, [])

  /** The effects a connection has on its surroundings, in the order they happen. */
  datatype Event =
    | Delivered(payload: bytes)                       // on_message
    | Queued(frame: WsFrame)                          // a frame handed to do_write
    | CloseHandler(code: bv16, reason: bytes)         // on_close
    | SocketClosed                                    // shutdown and close of the socket
    | CleanedUp                                       // server_cleanup_

  /** What handling leads to: the body, the effects, and whether the connection was closed. */
  datatype Outcome = Outcome(body: Body, events: seq<Event>, closed: bool)

  // ---------- One frame ----------

  function CloseFrame(code: bv16, reason: bytes): WsFrame {
    ServerFrame(WS_CLOSE, ClosePayload(code, reason))
  }

  /** Reporting an error: a Close frame and the handler, but no `close()`. */
  function Report(code: bv16, reason: string): seq<Event> {
    [Queued(CloseFrame(code, Ascii(reason))), CloseHandler(code, Ascii(reason))]
  }

  predicate Exceeds(max: nat, b: Body, extra: nat) {
    max != 0 && |b.msg| + extra > max
  }

  /** Appending a data frame's payload and delivering the message if the frame ends it. */
  function Accept(max: nat, b: Body, f: WsFrame): Outcome {
    if Exceeds(max, b, |f.payload_data|) then Outcome(EMPTY_BODY, Report(1009, "Message too big"), false)
    else
      var msg := b.msg + f.payload_data;
      if f.fin then Outcome(EMPTY_BODY, [Delivered(msg)], false)
      else Outcome(b.(msg := msg), [], false)
  }

  function HandleClose(b: Body, payload: bytes): Outcome {
    var info := ParseClose(payload);
    Outcome(b,
            [Queued(CloseFrame(info.code, info.reason)), SocketClosed, CloseHandler(info.code, info.reason), CleanedUp],
            true)
  }

  predicate IsPingPong(f: WsFrame) {
    f.opcode == WS_PING || f.opcode == WS_PONG
  }

  predicate IsData(f: WsFrame) {
    f.opcode == WS_TEXT || f.opcode == WS_BINARY
  }

  function Handle(max: nat, b: Body, f: WsFrame): Outcome {
    if (IsPingPong(f) || f.opcode == WS_CLOSE) && !f.fin then
      Outcome(b, Report(1002, "Fragmented control"), false)
    else if f.opcode == WS_PING then Outcome(b, [Queued(ServerFrame(WS_PONG, f.payload_data))], false)
    else if f.opcode == WS_PONG then Outcome(b, [], false)
    else if f.opcode == WS_CLOSE then HandleClose(b, f.payload_data)
    else if IsData(f) then
      if b.assembling then Outcome(b, Report(1002, "New data while assembling"), false)
      else Accept(max, Body(true, f.opcode, []), f)
    else if f.opcode == WS_CONT then
      var o := Accept(max, b, f);
      if b.assembling then o else o.(events := Report(1002, "Continuation without initial frame") + o.events)
    else Outcome(b, [], false)
  }

  // ---------- Frame lists and octet streams ----------

  function Run(b: Body, fs: seq<WsFrame>): Outcome
    decreases fs
  {
    if fs == [] then Outcome(b, [], false) else
    var o := Handle(MAX_MSG_SIZE, b, fs[0]);
    if o.closed then o else
    var r := Run(o.body, fs[1..]);
    Outcome(r.body, o.events + r.events, r.closed)
  }

  function RunBytes(b: Body, s: bytes): Outcome
    decreases |s|
  {
    match ParseFrame(s)
    case Incomplete => Outcome(b, [], false)
    case Parsed(f, n) =>
      var o := Handle(MAX_MSG_SIZE, b, f);
      if o.closed then o else
      var r := RunBytes(o.body, s[n..]);
      Outcome(r.body, o.events + r.events, r.closed)
  }

  lemma RunNothing(b: Body)
    ensures Run(b, []) == Outcome(b, [], false)
  {
  }

  lemma RunStep(b: Body, fs: seq<WsFrame>)
    requires fs != []
    ensures var o := Handle(MAX_MSG_SIZE, b, fs[0]);
            var r := Run(o.body, fs[1..]);
            Run(b, fs) == if o.closed then o else Outcome(r.body, o.events + r.events, r.closed)
  {
    hide Handle;
  }

  /** Reading a stream is handling the frames it parses to. */
  lemma {:induction false} RunBytesIsRun(b: Body, s: bytes)
    ensures RunBytes(b, s) == Run(b, ParseAll(s))
    decreases |s|
  {
    hide Handle, ParseFrame;
    match ParseFrame(s)
    case Incomplete =>
    case Parsed(f, n) =>
      RunBytesIsRun(Handle(MAX_MSG_SIZE, b, f).body, s[n..]);
      assert ParseAll(s)[1..] == ParseAll(s[n..]);
  }

  /** RSV bits and keys play no part in handling. */
  lemma {:induction false} RunReceived(b: Body, fs: seq<WsFrame>)
    ensures Run(b, ReceivedAll(fs)) == Run(b, fs)
    decreases fs
  {
    if fs != [] {
      assert Handle(MAX_MSG_SIZE, b, Received(fs[0])) == Handle(MAX_MSG_SIZE, b, fs[0]);
      RunReceived(Handle(MAX_MSG_SIZE, b, fs[0]).body, fs[1..]);
      assert ReceivedAll(fs)[1..] == ReceivedAll(fs[1..]);
    }
  }

  lemma RunEncoded(b: Body, fs: seq<WsFrame>)
    requires AllEncodable(fs)
    ensures RunBytes(b, EncodeAll(fs)) == Run(b, fs)
  {
    hide EncodeAll, Run, RunBytes, ReceivedAll;
    RunBytesIsRun(b, EncodeAll(fs));
    DecodeStream(fs, []);
    assert EncodeAll(fs) + [] == EncodeAll(fs);
    assert ParseAll([]) == [];
    assert ReceivedAll(fs) + [] == ReceivedAll(fs);
    RunReceived(b, fs);
  }

  // ---------- Stopping early ----------

  /**
    What handling a frame leads to when the connection may have been closed by another coroutine: a
    Close is still answered, but `close` then does nothing.
   */
  function HandleWhen(open: bool, max: nat, b: Body, f: WsFrame): Outcome {
    var o, info := Handle(max, b, f), ParseClose(f.payload_data);
    if open || !o.closed then o else Outcome(b, [Queued(CloseFrame(info.code, info.reason))], true)
  }

  /**
    What the read loop does when it passes its test `rounds` times before it sees that another
    coroutine closed; `midway`, when that close came while the last of those frames was handled.
   */
  function RunUntil(b: Body, fs: seq<WsFrame>, rounds: nat, midway: bool): Outcome
    decreases fs
  {
    if fs == [] || rounds == 0 then Outcome(b, [], false) else
    var o := HandleWhen(!(midway && rounds == 1), MAX_MSG_SIZE, b, fs[0]);
    if o.closed then o else
    var r := RunUntil(o.body, fs[1..], rounds - 1, midway);
    Outcome(r.body, o.events + r.events, r.closed)
  }

  lemma RunUntilStep(b: Body, fs: seq<WsFrame>, rounds: nat, midway: bool)
    requires fs != [] && rounds > 0
    ensures var o := HandleWhen(!(midway && rounds == 1), MAX_MSG_SIZE, b, fs[0]);
            var r := RunUntil(o.body, fs[1..], rounds - 1, midway);
            RunUntil(b, fs, rounds, midway)
            == if o.closed then o else Outcome(r.body, o.events + r.events, r.closed)
  {
    hide HandleWhen;
  }

  lemma RunUntilNothing(b: Body, fs: seq<WsFrame>, rounds: nat, midway: bool)
    requires fs == [] || rounds == 0
    ensures RunUntil(b, fs, rounds, midway) == Outcome(b, [], false)
  {
  }

  /** A close seen only after the last frame was handled changes nothing. */
  lemma {:induction false} RunUntilTheEnd(b: Body, fs: seq<WsFrame>, rounds: nat, midway: bool)
    requires |fs| < rounds || (|fs| == rounds && !midway)
    ensures RunUntil(b, fs, rounds, midway) == Run(b, fs)
    decreases fs
  {
    hide Run, RunUntil, Handle;
    if fs == [] {
      RunNothing(b);
      RunUntilNothing(b, fs, rounds, midway);
    } else {
      RunStep(b, fs);
      RunUntilStep(b, fs, rounds, midway);
      RunUntilTheEnd(Handle(MAX_MSG_SIZE, b, fs[0]).body, fs[1..], rounds - 1, midway);
    }
  }

  /** How many replies the events queue. */
  function Replies(es: seq<Event>): nat {
    if es == [] then 0 else (if es[0].Queued? then 1 else 0) + Replies(es[1..])
  }

  /** Some reply of es, numbered from n, is one whose write fails. */
  predicate Throws(es: seq<Event>, n: nat, fails: nat -> bool) {
    es != [] && ((es[0].Queued? && fails(n)) || Throws(es[1..], if es[0].Queued? then n + 1 else n, fails))
  }

  /** The events up to and including the first reply whose write fails. */
  function Cut(es: seq<Event>, n: nat, fails: nat -> bool): (r: seq<Event>)
    ensures r <= es
  {
    if es == [] then []
    else if es[0].Queued? && fails(n) then es[..1]
    else [es[0]] + Cut(es[1..], if es[0].Queued? then n + 1 else n, fails)
  }

  lemma {:induction false} CutAppend(a: seq<Event>, b: seq<Event>, n: nat, fails: nat -> bool)
    ensures Throws(a, n, fails) ==> Throws(a + b, n, fails) && Cut(a + b, n, fails) == Cut(a, n, fails)
    ensures !Throws(a, n, fails) ==>
              && Cut(a, n, fails) == a
              && Cut(a + b, n, fails) == a + Cut(b, n + Replies(a), fails)
              && Throws(a + b, n, fails) == Throws(b, n + Replies(a), fails)
    ensures Replies(a + b) == Replies(a) + Replies(b)
    decreases a
  {
    hide Cut, Throws, Replies;
    if a == [] {
      NothingHappened(n, fails);
      assert a + b == b && [] + Cut(b, n, fails) == Cut(b, n, fails);
    } else {
      var ab, m := a + b, if a[0].Queued? then n + 1 else n;
      assert ab[0] == a[0] && ab[1..] == a[1..] + b && ab[..1] == a[..1];
      CutStep(a, n, fails);
      CutStep(ab, n, fails);
      CutAppend(a[1..], b, m, fails);
      var tail := Cut(b, m + Replies(a[1..]), fails);
      assert [a[0]] + (a[1..] + tail) == a + tail;
    }
  }

  lemma CutStep(es: seq<Event>, n: nat, fails: nat -> bool)
    requires es != []
    ensures var m := if es[0].Queued? then n + 1 else n;
            && Throws(es, n, fails) == ((es[0].Queued? && fails(n)) || Throws(es[1..], m, fails))
            && Cut(es, n, fails) == (if es[0].Queued? && fails(n) then es[..1] else [es[0]] + Cut(es[1..], m, fails))
            && n + Replies(es) == m + Replies(es[1..])
  {
  }

  lemma {:induction false} NothingFails(es: seq<Event>, n: nat, fails: nat -> bool)
    requires forall i :: !fails(i)
    ensures !Throws(es, n, fails)
    decreases es
  {
    if es != [] {
      NothingFails(es[1..], if es[0].Queued? then n + 1 else n, fails);
    }
  }

  // ---------- The program's objects ----------

  class FrameBody {
    var assembling: bool
    var opcode: byte
    var msg: bytes
    var max_size: nat

    ghost function Value(): Body
      reads this
    {
      Body(assembling, opcode, msg)
    }

    constructor (max_sz: nat)
      ensures Value() == EMPTY_BODY && max_size == max_sz
    {
      assembling, opcode, msg, max_size := false, 0, [], max_sz;
    }

    method Reset()
      modifies this
      ensures Value() == EMPTY_BODY && max_size == old(max_size)
    {
      assembling := false;
      opcode := 0;
      msg := [];
    }

    method Start(op: byte)
      modifies this
      ensures Value() == Body(true, op, []) && max_size == old(max_size)
    {
      assembling := true;
      opcode := op;
      msg := [];
    }

    predicate WouldExceed(extra: nat)
      reads this
    {
      max_size != 0 && |msg| + extra > max_size
    }

    /** Appends unless the limit forbids it, and says which. */
    method Append(data: bytes) returns (ok: bool)
      modifies this
      ensures ok == !Exceeds(max_size, old(Value()), |data|) && max_size == old(max_size)
      ensures Value() == if ok then old(Value()).(msg := old(msg) + data) else old(Value())
    {
      if WouldExceed(|data|) {
        return false;
      }
      msg := msg + data;
      ok := true;
    }
  }

  /** The connection.  `fails(n)` tells whether the write of its n-th reply throws. */
  class Connection {
    var open: bool
    var events: seq<Event>
    var replies: nat
    const fails: nat -> bool
    const fb: FrameBody

    constructor (fails: nat -> bool)
      ensures open && events == [] && replies == 0 && this.fails == fails
      ensures fresh(fb) && fb.Value() == EMPTY_BODY && fb.max_size == MAX_MSG_SIZE
    {
      open, events, replies := true, [], 0;
      this.fails := fails;
      fb := new FrameBody(MAX_MSG_SIZE);
    }

    /**
      The effects of `o` have happened behind the events `was`, of which n were replies, on a connection
      that was open or not; `ok` unless the write of a reply threw, and then nothing behind that reply
      happened.
     */
    ghost predicate Performed(o: Outcome, wasOpen: bool, was: seq<Event>, n: nat, ok: bool)
      reads this, fb
    {
      && events == was + Cut(o.events, n, fails) && ok == !Throws(o.events, n, fails)
      && (ok ==> fb.Value() == o.body && open == (wasOpen && !o.closed) && replies == n + Replies(o.events))
      && (!ok ==> open == wasOpen)
    }

    /** `close`: the compare-and-swap lets one call through. */
    method Close(code: bv16, reason: bytes)
      modifies this`open, this`events
      ensures !open
      ensures events == old(events) + if old(open) then [SocketClosed, CloseHandler(code, reason), CleanedUp] else []
    {
      if !open { return; }
      open := false;
      events := events + [SocketClosed];
      events := events + [CloseHandler(code, reason)];
      events := events + [CleanedUp];
    }

    /** `do_write` of a reply, as far as the read loop can tell: it returns or throws. */
    method Reply(f: WsFrame) returns (ok: bool)
      modifies this`events, this`replies
      ensures events == old(events) + [Queued(f)] && ok == !fails(old(replies)) && replies == old(replies) + 1
    {
      events := events + [Queued(f)];
      ok := !fails(replies);
      replies := replies + 1;
    }

    /** `send_close_with_reason`. */
    method SendCloseWithReason(code: bv16, reason: bytes) returns (ok: bool)
      modifies this`events, this`replies
      ensures events == old(events) + [Queued(CloseFrame(code, reason))]
      ensures ok == !fails(old(replies)) && replies == old(replies) + 1
    {
      var payload := BuildClosePayload(code, reason);
      ok := Reply(ServerFrame(WS_CLOSE, payload));
    }

    /** A protocol error is reported and the handler called directly. */
    method ReportError(code: bv16, reason: string) returns (ok: bool)
      modifies this`events, this`replies
      ensures events == old(events) + Cut(Report(code, reason), old(replies), fails)
      ensures ok == !Throws(Report(code, reason), old(replies), fails) && replies == old(replies) + 1
      ensures Replies(Report(code, reason)) == 1
    {
      ReplyFirst(CloseFrame(code, Ascii(reason)), [CloseHandler(code, Ascii(reason))], replies, fails);
      ok := SendCloseWithReason(code, Ascii(reason));
      if ok {
        events := events + [CloseHandler(code, Ascii(reason))];
      }
    }

    method HandleCloseFrame(payload: bytes) returns (ok: bool)
      modifies this`open, this`events, this`replies
      ensures var o, info := HandleClose(old(fb.Value()), payload), ParseClose(payload);
              var seen := if old(open) then o
                          else Outcome(o.body, [Queued(CloseFrame(info.code, info.reason))], true);
              Performed(seen, old(open), old(events), old(replies), ok)
    {
      var code: bv16, reason: bytes := 1000, [];
      if |payload| >= 2 {
        code := (payload[0] as bv16 << 8) | payload[1] as bv16;
        reason := payload[2..];
      }
      ReplyFirst(CloseFrame(code, reason), [SocketClosed, CloseHandler(code, reason), CleanedUp], replies, fails);
      ReplyFirst(CloseFrame(code, reason), [], replies, fails);
      assert [Queued(CloseFrame(code, reason))] + [] == [Queued(CloseFrame(code, reason))];
      ok := SendCloseWithReason(code, reason);
      if ok {
        Close(code, reason);
      }
    }

    /** The append-and-deliver tail shared by data and continuation frames. */
    method AcceptPayload(f: WsFrame) returns (ok: bool)
      modifies this`events, this`replies, fb
      ensures Performed(Accept(fb.max_size, old(fb.Value()), f), old(open), old(events), old(replies), ok)
      ensures fb.max_size == old(fb.max_size)
    {
      hide Report;
      ok := fb.Append(f.payload_data);
      if !ok {
        ok := ReportError(1009, "Message too big");
        if ok {
          fb.Reset();
        }
        return;
      }
      NoReply(fb.msg, replies, fails);
      ok := true;
      if f.fin {
        events := events + [Delivered(fb.msg)];
        fb.Reset();
      }
    }

    /** `handle_parsed_frame`. */
    method HandleParsedFrame(f: WsFrame) returns (ok: bool)
      modifies this, fb
      ensures Performed(HandleWhen(old(open), fb.max_size, old(fb.Value()), f), old(open), old(events), old(replies),
                        ok)
      ensures fb.max_size == old(fb.max_size)
    {
      hide Accept, Report, ParseClose, CloseFrame, Cut, Throws, Replies;
      NothingHappened(replies, fails);
      if f.opcode == WS_PING {
        if !f.fin {
          ok := ReportError(1002, "Fragmented control");
          return;
        }
        ReplyFirst(ServerFrame(WS_PONG, f.payload_data), [], replies, fails);
        assert [Queued(ServerFrame(WS_PONG, f.payload_data))] + [] == [Queued(ServerFrame(WS_PONG, f.payload_data))];
        ok := Reply(ServerFrame(WS_PONG, f.payload_data));
        return;
      }
      if f.opcode == WS_PONG {
        ok := true;
        if !f.fin {
          ok := ReportError(1002, "Fragmented control");
        }
        return;
      }
      if f.opcode == WS_CLOSE {
        if !f.fin {
          ok := ReportError(1002, "Fragmented control");
          return;
        }
        ok := HandleCloseFrame(f.payload_data);
        return;
      }
      if f.opcode == WS_TEXT || f.opcode == WS_BINARY {
        if fb.assembling {
          ok := ReportError(1002, "New data while assembling");
          return;
        }
        fb.Start(f.opcode);
        assert !Accept(fb.max_size, fb.Value(), f).closed by { AcceptStaysOpen(fb.max_size, fb.Value(), f); }
        ok := AcceptPayload(f);
        return;
      }
      if f.opcode == WS_CONT {
        ghost var o := Accept(fb.max_size, fb.Value(), f);
        assert !o.closed by { AcceptStaysOpen(fb.max_size, fb.Value(), f); }
        if !fb.assembling {
          ghost var report := Report(1002, "Continuation without initial frame");
          CutAppend(report, o.events, replies, fails);
          ok := ReportError(1002, "Continuation without initial frame");
          if !ok { return; }
        }
        ok := AcceptPayload(f);
        return;
      }
      ok := true;
    }

    /** One iteration of `do_read_loop`; `closing`, when another coroutine closes while it handles the frame. */
    method HandleNext(sock: Socket, header: array<byte>, closing: bool) returns (got: bool, ok: bool)
      requires open && header.Length == HEADER_CAPACITY && fb.max_size == MAX_MSG_SIZE
      modifies this, fb, sock, header
      ensures fb.max_size == MAX_MSG_SIZE
      ensures var p := ParseFrame(old(sock.unread));
              && got == p.Parsed?
              && (got ==> sock.unread == old(sock.unread)[p.consumed..])
              && (got ==> Performed(HandleWhen(!closing, MAX_MSG_SIZE, old(fb.Value()), p.frame), !closing,
                                    old(events), old(replies), ok))
              && (!got ==> fb.Value() == old(fb.Value()) && open && events == old(events) && replies == old(replies))
    {
      hide HandleWhen, ParseFrame, Cut, Throws, Replies;
      var f;
      got, f := ReadFrame(sock, header);
      ok := true;
      if got {
        open := !closing;
        ok := HandleParsedFrame(f);
      }
    }

    /** The loop of `do_read_loop`, whose header buffer is made before it. */
    method Iterate(sock: Socket, header: array<byte>, rounds: nat, midway: bool) returns (ok: bool)
      requires open && fb.max_size == MAX_MSG_SIZE && header.Length == HEADER_CAPACITY
      modifies this, fb, sock, header
      ensures var o := RunUntil(old(fb.Value()), ParseAll(old(sock.unread)), rounds, midway);
              && events == old(events) + Cut(o.events, old(replies), fails)
              && ok == !Throws(o.events, old(replies), fails)
              && (ok ==> fb.Value() == o.body)
              && (ok && |ParseAll(old(sock.unread))| < rounds ==> open == !o.closed)
    {
      hide HandleWhen, ParseFrame, RunUntil, ParseAll, Cut, Throws, Replies, Remaining;
      ghost var n, was, fs := replies, events, ParseAll(sock.unread);
      ghost var count, total := |fs|, RunUntil(fb.Value(), fs, rounds, midway);
      ghost var happened: seq<Event> := [];
      var k := 0;
      ok := true;
      NothingHappened(n, fails);
      EverythingRemains(fb.Value(), fs, rounds, midway);
      assert was + [] == was;
      while true
        invariant open && fb.max_size == MAX_MSG_SIZE && k <= rounds && ok
        invariant fs == ParseAll(sock.unread) && count == k + |fs|
        invariant events == was + happened && replies == n + Replies(happened) && !Throws(happened, n, fails)
        invariant Remaining(total, happened, fb.Value(), fs, rounds - k, midway)
        decreases |sock.unread|
      {
        if k == rounds {
          open := false;
        }
        ParseAllStep(sock.unread);
        if !open {
          NothingRemains(total, happened, fb.Value(), fs, 0, midway, n, fails);
          return;
        }
        ghost var b := fb.Value();
        var got;
        got, ok := HandleNext(sock, header, midway && k + 1 == rounds);
        if !got {
          ok := true;
          NothingRemains(total, happened, b, fs, rounds - k, midway, n, fails);
          return;
        }
        RemainingStep(total, happened, b, fs, rounds - k, midway, n, fails);
        if !ok { return; }
        ghost var o := HandleWhen(!(midway && k + 1 == rounds), MAX_MSG_SIZE, b, fs[0]);
        happened := happened + o.events;
        fs := fs[1..];
        k := k + 1;
        if !open {
          if !o.closed {
            NothingRemains(total, happened, o.body, fs, rounds - k, midway, n, fails);
          }
          return;
        }
      }
    }

    /**
      `do_read_loop`, until the stream ends (an exception), the write of a reply throws, or the loop
      sees that the connection is closed, by its own Close or by another coroutine: that one closes
      when the test was passed `rounds` times, `midway` or not in the handling of the last frame.
     */
    method DoReadLoop(sock: Socket, rounds: nat, midway: bool) returns (ok: bool)
      requires open && fb.max_size == MAX_MSG_SIZE
      modifies this, fb, sock
      ensures var o := RunUntil(old(fb.Value()), ParseAll(old(sock.unread)), rounds, midway);
              && events == old(events) + Cut(o.events, old(replies), fails)
              && ok == !Throws(o.events, old(replies), fails)
              && (ok ==> fb.Value() == o.body)
              && (ok && |ParseAll(old(sock.unread))| < rounds ==> open == !o.closed)
      ensures (forall n :: !fails(n)) && |ParseAll(old(sock.unread))| < rounds ==>
                events == old(events) + RunBytes(old(fb.Value()), old(sock.unread)).events
    {
      hide RunUntil, RunBytes, ParseAll, Cut, Throws;
      WholeRun(fb.Value(), sock.unread, rounds, midway, replies, fails);
      var header := new byte[HEADER_CAPACITY](i => 0);
      ok := Iterate(sock, header, rounds, midway);
    }
  }

  lemma AcceptStaysOpen(max: nat, b: Body, f: WsFrame)
    ensures !Accept(max, b, f).closed
  {
  }

  /** What a run does altogether: what happened so far and what the frames fs still do. */
  ghost predicate Remaining(total: Outcome, happened: seq<Event>, b: Body, fs: seq<WsFrame>, left: nat, midway: bool) {
    var r := RunUntil(b, fs, left, midway);
    total == Outcome(r.body, happened + r.events, r.closed)
  }

  lemma EverythingRemains(b: Body, fs: seq<WsFrame>, left: nat, midway: bool)
    ensures Remaining(RunUntil(b, fs, left, midway), [], b, fs, left, midway)
  {
    hide RunUntil;
    assert [] + RunUntil(b, fs, left, midway).events == RunUntil(b, fs, left, midway).events;
  }

  lemma NothingRemains(total: Outcome, happened: seq<Event>, b: Body, fs: seq<WsFrame>, left: nat, midway: bool,
                       n: nat, fails: nat -> bool)
    requires Remaining(total, happened, b, fs, left, midway) && !Throws(happened, n, fails)
    requires fs == [] || left == 0
    ensures total == Outcome(b, happened, false) && Cut(total.events, n, fails) == happened
  {
    hide RunUntil, Cut, Throws, Replies;
    RunUntilNothing(b, fs, left, midway);
    assert happened + [] == happened;
    CutAppend(happened, [], n, fails);
  }

  lemma RemainingStep(total: Outcome, happened: seq<Event>, b: Body, fs: seq<WsFrame>, left: nat, midway: bool,
                      n: nat, fails: nat -> bool)
    requires fs != [] && left > 0 && Remaining(total, happened, b, fs, left, midway) && !Throws(happened, n, fails)
    ensures var o, m := HandleWhen(!(midway && left == 1), MAX_MSG_SIZE, b, fs[0]), n + Replies(happened);
            && (Throws(o.events, m, fails) ==>
                  Throws(total.events, n, fails) && Cut(total.events, n, fails) == happened + Cut(o.events, m, fails))
            && (!Throws(o.events, m, fails) ==>
                  && Cut(o.events, m, fails) == o.events
                  && !Throws(happened + o.events, n, fails)
                  && Replies(happened + o.events) == Replies(happened) + Replies(o.events))
            && (!Throws(o.events, m, fails) && o.closed ==>
                  && total == Outcome(o.body, happened + o.events, true)
                  && !Throws(total.events, n, fails) && Cut(total.events, n, fails) == total.events)
            && (!o.closed ==> Remaining(total, happened + o.events, o.body, fs[1..], left - 1, midway))
  {
    hide RunUntil, HandleWhen, Cut, Throws, Replies;
    var o := HandleWhen(!(midway && left == 1), MAX_MSG_SIZE, b, fs[0]);
    var r := RunUntil(o.body, fs[1..], left - 1, midway);
    var m := n + Replies(happened);
    RunUntilStep(b, fs, left, midway);
    CutAppend(happened, RunUntil(b, fs, left, midway).events, n, fails);
    CutAppend(happened, o.events, n, fails);
    CutAppend(o.events, [], m, fails);
    assert o.events + [] == o.events;
    if !o.closed {
      CutAppend(o.events, r.events, m, fails);
      assert happened + (o.events + r.events) == (happened + o.events) + r.events;
    }
  }

  lemma WholeRun(b: Body, s: bytes, rounds: nat, midway: bool, n: nat, fails: nat -> bool)
    ensures |ParseAll(s)| < rounds ==> RunUntil(b, ParseAll(s), rounds, midway) == RunBytes(b, s)
    ensures (forall i :: !fails(i)) ==>
              var es := RunUntil(b, ParseAll(s), rounds, midway).events; Cut(es, n, fails) == es
  {
    hide Run, RunUntil, RunBytes, ParseAll, Cut;
    RunBytesIsRun(b, s);
    if |ParseAll(s)| < rounds {
      RunUntilTheEnd(b, ParseAll(s), rounds, midway);
    }
    UncutIfNothingFails(RunUntil(b, ParseAll(s), rounds, midway).events, n, fails);
  }

  lemma ReplyFirst(f: WsFrame, after: seq<Event>, n: nat, fails: nat -> bool)
    requires forall e :: e in after ==> !e.Queued?
    ensures var es := [Queued(f)] + after;
            && Throws(es, n, fails) == fails(n) && Replies(es) == 1
            && Cut(es, n, fails) == if fails(n) then [Queued(f)] else es
  {
    var es := [Queued(f)] + after;
    assert es[1..] == after && es[..1] == [Queued(f)];
    NoReplies(after, n + 1, fails);
  }

  lemma {:induction false} NoReplies(es: seq<Event>, n: nat, fails: nat -> bool)
    requires forall e :: e in es ==> !e.Queued?
    ensures !Throws(es, n, fails) && Cut(es, n, fails) == es && Replies(es) == 0
    decreases es
  {
    if es != [] {
      assert !es[0].Queued?;
      NoReplies(es[1..], n, fails);
    }
  }

  lemma NoReply(m: bytes, n: nat, fails: nat -> bool)
    ensures !Throws([], n, fails) && Cut([], n, fails) == [] && Replies([]) == 0
    ensures !Throws([Delivered(m)], n, fails) && Cut([Delivered(m)], n, fails) == [Delivered(m)]
    ensures Replies([Delivered(m)]) == 0
  {
    NoReplies([], n, fails);
    NoReplies([Delivered(m)], n, fails);
  }

  lemma NothingHappened(n: nat, fails: nat -> bool)
    ensures !Throws([], n, fails) && Cut([], n, fails) == [] && Replies([]) == 0
  {
  }

  lemma UncutIfNothingFails(es: seq<Event>, n: nat, fails: nat -> bool)
    ensures (forall i :: !fails(i)) ==> Cut(es, n, fails) == es
  {
    hide Cut, Throws, Replies;
    if forall i :: !fails(i) {
      NothingFails(es, n, fails);
      CutAppend(es, [], n, fails);
    }
  }

  lemma ParseAllStep(s: bytes)
    ensures var p := ParseFrame(s);
            ParseAll(s) == if p.Incomplete? then [] else [p.frame] + ParseAll(s[p.consumed..])
  {
    hide ParseFrame;
  }
}
