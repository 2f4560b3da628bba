/**
  The server's sending side (include/websocket/WebSocket.h): `do_write`, its queue and its single
  drainer, run by any number of coroutines.

  Each step is the code between two suspension points, taken as atomic: that is what the write
  strand provides to the `*_async` senders.  A socket write moves any number of octets at a time and
  may fail.
 */
module WriteQueue {
  import opened Bytes
  import opened Frames
  import opened ClosePayloads

  // ---------- What is sent ----------

  datatype Send =
    | Text(payload: bytes)
    | Binary(payload: bytes)
    | Pong(payload: bytes)
    | Close(code: bv16, reason: bytes)
  {
    /** C++ strings and vectors have a 64-bit length. */
    ghost predicate Sized() {
      Close? || |payload| < U64_LIMIT
    }
  }

  function FrameOf(s: Send): WsFrame {
    match s
    case Text(p) => ServerFrame(WS_TEXT, p)
    case Binary(p) => ServerFrame(WS_BINARY, p)
    case Pong(p) => ServerFrame(WS_PONG, p)
    case Close(c, r) => ServerFrame(WS_CLOSE, ClosePayload(c, r))
  }

  function Wire(s: Send): bytes {
    Encode(FrameOf(s))
  }

  function Wires(ss: seq<Send>): (w: seq<bytes>)
    ensures |w| == |ss|
  {
    seq(|ss|, i requires 0 <= i < |ss| => Wire(ss[i]))
  }

  /** The frame construction of `send_text`, `send_binary`, `send_pong` and `send_close_with_reason`. */
  method Serialize(s: Send) returns (out: bytes)
    requires s.Sized()
    ensures out == Wire(s)
  {
    hide Encode;
    var f;
    match s {
      case Text(p) => f := WsFrame(true, false, false, false, WS_TEXT, false, 0, p);
      case Binary(p) => f := WsFrame(true, false, false, false, WS_BINARY, false, 0, p);
      case Pong(p) => f := WsFrame(true, false, false, false, WS_PONG, false, 0, p);
      case Close(c, r) =>
        BuiltParsesBack(c, r);
        var payload := BuildClosePayload(c, r);
        f := WsFrame(true, false, false, false, WS_CLOSE, false, 0, payload);
    }
    out := WriteFrame(f);
  }

  // ---------- The segments of do_write ----------

  /** `write_queue_` and `is_writing_`. */
  datatype Channel = Channel(queue: seq<bytes>, writing: bool)

  /** Up to the first suspension: enqueue, and become the drainer unless there is one. */
  function Enter(c: Channel, data: bytes): Channel {
    Channel(c.queue + [data], true)
  }

  /** From the end of one socket write to the next suspension or the return. */
  function Resume(c: Channel): Channel
    requires c.queue != []
  {
    Channel(c.queue[1..], c.queue[1..] != [])
  }

  class WriteChannel {
    var write_queue_: seq<bytes>
    var is_writing_: bool

    ghost function Value(): Channel
      reads this
    {
      Channel(write_queue_, is_writing_)
    }

    constructor ()
      ensures Value() == Channel([], false)
    {
      write_queue_, is_writing_ := [], false;
    }

    /** Entry of `do_write` up to its first `co_await`; `drain` tells whether it gets there. */
    method Begin(data: bytes) returns (drain: bool)
      requires !is_writing_ ==> write_queue_ == []
      modifies this
      ensures Value() == Enter(old(Value()), data) && drain == !old(is_writing_)
      ensures drain ==> write_queue_ == [data]
    {
      write_queue_ := write_queue_ + [data];
      if is_writing_ { return false; }
      is_writing_ := true;
      drain := write_queue_ != [];
    }

    /** The rest of the loop body after a write and the next loop test. */
    method Continue() returns (again: bool)
      requires is_writing_ && write_queue_ != []
      modifies this
      ensures Value() == Resume(old(Value())) && again == is_writing_
    {
      write_queue_ := write_queue_[1..];
      if write_queue_ != [] { return true; }
      is_writing_ := false;
      again := false;
    }

    /** Other senders enter `do_write` while this one waits for the socket. */
    method Interfere(others: seq<bytes>)
      requires is_writing_
      modifies this
      ensures is_writing_ && write_queue_ == old(write_queue_) + others
    {
      for k := 0 to |others|
        invariant is_writing_ && write_queue_ == old(write_queue_) + others[..k]
      {
        var drain := Begin(others[k]);
        assert others[..k + 1] == others[..k] + [others[k]];
      }
    }

    /**
      The drainer's loop.  While it waits for its k-th socket write others enqueue what
      `script[k].arrivals` holds; that write succeeds, or throws after some octets.
     */
    method Drain(script: seq<Write>) returns (wire: bytes, threw: bool, ghost rounds: nat, ghost writes: nat)
      requires is_writing_ && write_queue_ != []
      modifies this
      ensures is_writing_ == threw == (write_queue_ != []) && Followed(script, rounds, writes, threw)
      ensures Drained(old(write_queue_) + Concat(Arrivals(script, rounds)), writes, wire, write_queue_,
                      if threw then Part(script[writes], write_queue_[0]) else [])
    {
      hide Arrivals, Concat, Drained;
      NothingArrived(script);
      wire, threw, rounds, writes := [], false, 0, 0;
      var k, again := 0, true;
      assert write_queue_ + [] == write_queue_;
      ghost var all := write_queue_;
      NothingDrained(all);
      while again
        invariant again == is_writing_ == (write_queue_ != []) && !threw
        invariant all == old(write_queue_) + Concat(Arrivals(script, k))
        invariant writes == k && Drained(all, k, wire, write_queue_, [])
        invariant forall j :: 0 <= j < k && j < |script| ==> script[j].broken.None?
        decreases if k < |script| then |script| - k else 0, if k < |script| then 0 else |write_queue_|
      {
        var w := if k < |script| then script[k] else Write([], None);
        DrainedMore(all, k, wire, write_queue_, w.arrivals);
        ArrivalsSnoc(script, k, w.arrivals);
        assert all + w.arrivals == old(write_queue_) + (Concat(Arrivals(script, k)) + w.arrivals);
        all := all + w.arrivals;
        var msg := write_queue_[0];
        Interfere(w.arrivals);
        rounds := k + 1;
        if w.broken.Some? {
          DrainedPart(all, k, wire, write_queue_, Part(w, msg));
          wire := wire + Part(w, msg);
          threw := true;
          return;
        }
        DrainedFront(all, k, wire, write_queue_);
        wire := wire + msg;
        again := Continue();
        k := k + 1;
        writes := k;
      }
      rounds := k;
    }

    /**
      `do_write` from one sender's point of view.  A sender that finds a drainer returns at once; one
      that becomes the drainer writes its own frame and everything that arrives meanwhile, in order,
      until the queue is empty or a write throws.
     */
    method DoWrite(data: bytes, script: seq<Write>)
      returns (wire: bytes, threw: bool, ghost rounds: nat, ghost writes: nat)
      requires !is_writing_ ==> write_queue_ == []
      modifies this
      ensures old(is_writing_) ==> wire == [] && !threw && Value() == Enter(old(Value()), data)
      ensures !old(is_writing_) ==>
                && is_writing_ == threw == (write_queue_ != []) && Followed(script, rounds, writes, threw)
                && Drained([data] + Concat(Arrivals(script, rounds)), writes, wire, write_queue_,
                           if threw then Part(script[writes], write_queue_[0]) else [])
    {
      wire, threw, rounds, writes := [], false, 0, 0;
      var drain := Begin(data);
      if drain {
        wire, threw, rounds, writes := Drain(script);
      }
    }
  }

  /** What happens during one socket write: others enqueue, and it may throw after some octets. */
  datatype Write = Write(arrivals: seq<bytes>, broken: Option<nat>)

  /** What a write that throws has taken of its message. */
  function Part(w: Write, msg: bytes): bytes {
    match w.broken
    case None => msg
    case Some(n) => msg[..Min(n, |msg|)]
  }

  /** Every write went as the script says: the first `writes` did not throw, and the next did if one threw. */
  ghost predicate Followed(script: seq<Write>, rounds: nat, writes: nat, threw: bool) {
    && rounds == (if threw then writes + 1 else writes)
    && (threw ==> writes < |script| && script[writes].broken.Some?)
    && forall j :: 0 <= j < writes && j < |script| ==> script[j].broken.None?
  }

  /** What others enqueued during the first k writes. */
  function Arrivals(script: seq<Write>, k: nat): seq<seq<bytes>> {
    if k == 0 || script == [] then [] else [script[0].arrivals] + Arrivals(script[1..], k - 1)
  }

  /**
    Out of all messages the first `writes` are on the wire, in order, followed by a part of the next
    one, and all others are in the queue.
   */
  ghost predicate Drained(all: seq<bytes>, writes: nat, wire: bytes, queue: seq<bytes>, part: bytes) {
    writes <= |all| && queue == all[writes..] && wire == Concat(all[..writes]) + part
  }

  lemma NothingDrained(all: seq<bytes>)
    ensures Drained(all, 0, [], all, [])
  {
  }

  lemma DrainedMore(all: seq<bytes>, k: nat, wire: bytes, queue: seq<bytes>, others: seq<bytes>)
    requires Drained(all, k, wire, queue, [])
    ensures Drained(all + others, k, wire, queue + others, [])
  {
    hide Concat;
    assert (all + others)[..k] == all[..k] && (all + others)[k..] == all[k..] + others;
  }

  lemma DrainedPart(all: seq<bytes>, k: nat, wire: bytes, queue: seq<bytes>, part: bytes)
    requires Drained(all, k, wire, queue, [])
    ensures Drained(all, k, wire + part, queue, part)
  {
    hide Concat;
    assert Concat(all[..k]) + [] == Concat(all[..k]);
  }

  lemma DrainedFront(all: seq<bytes>, k: nat, wire: bytes, queue: seq<bytes>)
    requires Drained(all, k, wire, queue, []) && queue != []
    ensures Drained(all, k + 1, wire + queue[0], queue[1..], [])
  {
    hide Concat;
    assert all[..k + 1] == all[..k] + [queue[0]];
    ConcatSnoc(all[..k], queue[0]);
    assert Concat(all[..k]) + [] == Concat(all[..k]) && Concat(all[..k + 1]) + [] == Concat(all[..k + 1]);
  }

  lemma NothingArrived(script: seq<Write>)
    ensures Concat(Arrivals(script, 0)) == []
  {
  }

  lemma {:induction false} ArrivalsSnoc(script: seq<Write>, k: nat, others: seq<bytes>)
    requires others == if k < |script| then script[k].arrivals else []
    ensures Concat(Arrivals(script, k + 1)) == Concat(Arrivals(script, k)) + others
    decreases k
  {
    if k > 0 && script != [] {
      ArrivalsSnoc(script[1..], k - 1, others);
      var x, y := script[0].arrivals, Concat(Arrivals(script[1..], k - 1));
      assert x + (y + others) == (x + y) + others;
    }
  }

  // ---------- All coroutines together ----------

  datatype Coroutine = Waiting(send: Send) | Draining(sent: nat) | Returned | Threw

  /** The connection, its coroutines, the octets on the wire, and everything enqueued so far in order. */
  datatype State = State(
    channel: Channel,
    open: bool,
    coroutines: seq<Coroutine>,
    wire: bytes,
    pushed: seq<Send>)

  const INIT := State(Channel([], false), true, [], [], [])

  datatype Action =
    | Spawn(send: Send)            // a sender is started
    | Start(i: nat)                // coroutine i runs up to its first suspension
    | Transfer(i: nat, n: nat)     // the socket takes n more octets of the drainer's buffer
    | Finish(i: nat)               // the write is complete and the drainer runs on
    | Fail(i: nat)                 // the write fails and do_write throws
    | Shut                         // some close() closed the socket

  predicate Drains(s: State, i: nat) {
    i < |s.coroutines| && s.coroutines[i].Draining? && s.channel.queue != []
  }

  ghost predicate Enabled(s: State, a: Action) {
    match a
    case Spawn(send) => send.Sized()
    case Start(i) => i < |s.coroutines| && s.coroutines[i].Waiting?
    case Transfer(i, n) => s.open && n > 0 && Drains(s, i) && s.coroutines[i].sent + n <= |s.channel.queue[0]|
    case Finish(i) => Drains(s, i) && s.coroutines[i].sent == |s.channel.queue[0]|
    case Fail(i) => i < |s.coroutines| && s.coroutines[i].Draining?
    case Shut => true
  }

  /** Text and Binary senders test `state_` first; Pong and Close do not. */
  predicate Refused(open: bool, send: Send) {
    !open && (send.Text? || send.Binary?)
  }

  function Apply(s: State, a: Action): State
    requires Enabled(s, a)
  {
    match a
    case Spawn(send) => s.(coroutines := s.coroutines + [Waiting(send)])
    case Start(i) =>
      var send := s.coroutines[i].send;
      if Refused(s.open, send) then s.(coroutines := s.coroutines[i := Returned])
      else s.(channel := Enter(s.channel, Wire(send)),
              coroutines := s.coroutines[i := if s.channel.writing then Returned else Draining(0)],
              pushed := s.pushed + [send])
    case Transfer(i, n) =>
      var k := s.coroutines[i].sent;
      s.(coroutines := s.coroutines[i := Draining(k + n)], wire := s.wire + s.channel.queue[0][k..k + n])
    case Finish(i) =>
      var c := Resume(s.channel);
      s.(channel := c, coroutines := s.coroutines[i := if c.writing then Draining(0) else Returned])
    case Fail(i) => s.(coroutines := s.coroutines[i := Threw])
    case Shut => s.(open := false)
  }

  ghost predicate ValidRun(s: State, run: seq<Action>)
    decreases run
  {
    run != [] ==> Enabled(s, run[0]) && ValidRun(Apply(s, run[0]), run[1..])
  }

  ghost function Final(s: State, run: seq<Action>): State
    requires ValidRun(s, run)
    decreases run
  {
    if run == [] then s else Final(Apply(s, run[0]), run[1..])
  }

  // ---------- The invariant ----------

  /** A coroutine that set `is_writing_` and has not cleared it. */
  predicate Holds(c: Coroutine) {
    c.Draining? || c.Threw?
  }

  /** The sends whose octets are all on the wire. */
  function Written(s: State): seq<Send>
    requires |s.channel.queue| <= |s.pushed|
  {
    s.pushed[..|s.pushed| - |s.channel.queue|]
  }

  /** How far the front of the queue has been written. */
  ghost predicate WireIs(s: State, offset: nat)
    requires |s.channel.queue| <= |s.pushed|
  {
    if s.channel.queue == [] then offset == 0 && s.wire == Concat(Wires(Written(s)))
    else offset <= |s.channel.queue[0]| && s.wire == Concat(Wires(Written(s))) + s.channel.queue[0][..offset]
  }

  ghost predicate QueueIsSuffix(s: State) {
    && |s.channel.queue| <= |s.pushed|
    && s.channel.queue == Wires(s.pushed)[|s.pushed| - |s.channel.queue|..]
    && forall send :: send in s.pushed ==> send.Sized()
  }

  ghost predicate Sound(s: State) {
    && QueueIsSuffix(s)
    && (exists offset: nat :: WireIs(s, offset))
    && (forall i :: 0 <= i < |s.coroutines| && s.coroutines[i].Draining? ==> WireIs(s, s.coroutines[i].sent))
    && (forall i, j :: (0 <= i < |s.coroutines| && 0 <= j < |s.coroutines|
                        && Holds(s.coroutines[i]) && Holds(s.coroutines[j])) ==> i == j)
    && (s.channel.writing <==> exists i :: 0 <= i < |s.coroutines| && Holds(s.coroutines[i]))
    && (s.channel.writing <==> s.channel.queue != [])
    && (forall i :: 0 <= i < |s.coroutines| && s.coroutines[i].Waiting? ==> s.coroutines[i].send.Sized())
  }

  lemma WiresSnoc(ss: seq<Send>, x: Send)
    ensures Wires(ss + [x]) == Wires(ss) + [Wire(x)]
  {
  }

  /** What a coroutine update does to the holders of the queue. */
  lemma OneHolder(cs: seq<Coroutine>, i: nat, c: Coroutine)
    requires i < |cs|
    requires forall j, k :: 0 <= j < |cs| && 0 <= k < |cs| && Holds(cs[j]) && Holds(cs[k]) ==> j == k
    requires Holds(c) ==> Holds(cs[i]) || forall j :: 0 <= j < |cs| ==> !Holds(cs[j])
    ensures var ds := cs[i := c];
            forall j, k :: 0 <= j < |ds| && 0 <= k < |ds| && Holds(ds[j]) && Holds(ds[k]) ==> j == k
  {
  }

  lemma RefusedKeeps(s: State, i: nat)
    requires Sound(s) && Enabled(s, Start(i)) && Refused(s.open, s.coroutines[i].send)
    ensures Sound(Apply(s, Start(i)))
  {
    hide Wire, Wires, Concat;
    var t := Apply(s, Start(i));
    OneHolder(s.coroutines, i, t.coroutines[i]);
    assert forall o: nat :: WireIs(s, o) ==> WireIs(t, o);
    if s.channel.writing {
      var j :| 0 <= j < |s.coroutines| && Holds(s.coroutines[j]);
      assert Holds(t.coroutines[j]);
    }
  }

  /** Enqueueing leaves what was written, and how far the front has been written, as it was. */
  lemma EnterKeepsWire(s: State, t: State, send: Send)
    requires QueueIsSuffix(s) && send.Sized() && t.wire == s.wire
    requires t.channel.queue == s.channel.queue + [Wire(send)] && t.pushed == s.pushed + [send]
    ensures QueueIsSuffix(t) && Written(t) == Written(s)
    ensures forall o: nat :: WireIs(s, o) ==> WireIs(t, o)
  {
    hide Wire, Concat;
    WiresSnoc(s.pushed, send);
    assert Written(t) == Written(s);
    if s.channel.queue == [] {
      assert s.wire + t.channel.queue[0][..0] == s.wire;
    }
  }

  lemma StartKeeps(s: State, i: nat)
    requires Sound(s) && Enabled(s, Start(i))
    ensures Sound(Apply(s, Start(i)))
  {
    hide Wire, Wires, Concat, WireIs;
    var t := Apply(s, Start(i));
    if Refused(s.open, s.coroutines[i].send) {
      RefusedKeeps(s, i);
    } else {
      OneHolder(s.coroutines, i, t.coroutines[i]);
      EnterKeepsWire(s, t, s.coroutines[i].send);
      var offset: nat :| WireIs(s, offset);
      if s.channel.writing {
        var j :| 0 <= j < |s.coroutines| && Holds(s.coroutines[j]);
        assert Holds(t.coroutines[j]);
      } else {
        IdleOffset(s, offset);
        assert Holds(t.coroutines[i]);
      }
    }
  }

  lemma IdleOffset(s: State, offset: nat)
    requires QueueIsSuffix(s) && s.channel.queue == [] && WireIs(s, offset)
    ensures offset == 0
  {
  }

  lemma TransferKeeps(s: State, i: nat, n: nat)
    requires Sound(s) && Enabled(s, Transfer(i, n))
    ensures Sound(Apply(s, Transfer(i, n)))
  {
    hide Wire, Concat;
    var t := Apply(s, Transfer(i, n));
    var k, front := s.coroutines[i].sent, s.channel.queue[0];
    OneHolder(s.coroutines, i, t.coroutines[i]);
    assert Written(t) == Written(s);
    assert front[..k] + front[k..k + n] == front[..k + n];
    assert (Concat(Wires(Written(s))) + front[..k]) + front[k..k + n] == Concat(Wires(Written(s))) + front[..k + n];
    assert WireIs(t, k + n);
    assert Holds(t.coroutines[i]);
  }

  lemma FinishKeeps(s: State, i: nat)
    requires Sound(s) && Enabled(s, Finish(i))
    ensures Sound(Apply(s, Finish(i)))
  {
    hide Wire, Concat;
    var t := Apply(s, Finish(i));
    var front := s.channel.queue[0];
    OneHolder(s.coroutines, i, t.coroutines[i]);
    var k := |s.pushed| - |s.channel.queue|;
    assert Written(t) == Written(s) + [s.pushed[k]] && front == Wire(s.pushed[k]);
    WiresSnoc(Written(s), s.pushed[k]);
    ConcatSnoc(Wires(Written(s)), front);
    assert front[..|front|] == front;
    assert s.wire == Concat(Wires(Written(t)));
    if t.channel.queue != [] {
      assert t.wire + t.channel.queue[0][..0] == t.wire;
    }
    assert WireIs(t, 0);
    assert Holds(t.coroutines[i]) || !t.channel.writing;
  }

  lemma FailKeeps(s: State, i: nat)
    requires Sound(s) && Enabled(s, Fail(i))
    ensures Sound(Apply(s, Fail(i)))
  {
    hide Wire, Concat, Wires;
    var t := Apply(s, Fail(i));
    OneHolder(s.coroutines, i, Threw);
    assert WireIs(t, s.coroutines[i].sent);
    assert Holds(t.coroutines[i]);
  }

  lemma SpawnKeeps(s: State, send: Send)
    requires Sound(s) && send.Sized()
    ensures Sound(Apply(s, Spawn(send)))
  {
    hide Wire, Concat, Wires;
    var t := Apply(s, Spawn(send));
    assert forall o: nat :: WireIs(s, o) ==> WireIs(t, o);
    if s.channel.writing {
      var j :| 0 <= j < |s.coroutines| && Holds(s.coroutines[j]);
      assert Holds(t.coroutines[j]);
    }
  }

  lemma StepKeeps(s: State, a: Action)
    requires Sound(s) && Enabled(s, a)
    ensures Sound(Apply(s, a))
  {
    match a
    case Spawn(send) => SpawnKeeps(s, send);
    case Start(i) => StartKeeps(s, i);
    case Transfer(i, n) => TransferKeeps(s, i, n);
    case Finish(i) => FinishKeeps(s, i);
    case Fail(i) => FailKeeps(s, i);
    case Shut => ShutKeeps(s);
  }

  lemma ShutKeeps(s: State)
    requires Sound(s)
    ensures Sound(s.(open := false))
  {
    hide Wire, Concat, Wires;
    assert forall o: nat :: WireIs(s, o) ==> WireIs(s.(open := false), o);
  }

  lemma {:induction false} RunKeeps(s: State, run: seq<Action>)
    requires Sound(s) && ValidRun(s, run)
    ensures Sound(Final(s, run))
    decreases run
  {
    hide Sound, Enabled, Apply;
    if run != [] {
      StepKeeps(s, run[0]);
      RunKeeps(Apply(s, run[0]), run[1..]);
    }
  }

  lemma InitSound()
    ensures Sound(INIT)
  {
    assert Wires([]) == [] && Concat(Wires([])) == [];
    assert WireIs(INIT, 0);
  }

  // ---------- Safety ----------

  ghost predicate Reachable(s: State) {
    exists run :: ValidRun(INIT, run) && s == Final(INIT, run)
  }

  lemma ReachableSound(s: State)
    requires Reachable(s)
    ensures Sound(s)
  {
    hide Sound;
    InitSound();
    var run :| ValidRun(INIT, run) && s == Final(INIT, run);
    RunKeeps(INIT, run);
  }

  /** The octets of everything enqueued, in the order it was enqueued. */
  function Enqueued(s: State): bytes {
    Concat(Wires(s.pushed))
  }

  lemma SplitEnqueued(s: State)
    requires QueueIsSuffix(s)
    ensures Enqueued(s) == Concat(Wires(Written(s))) + Concat(s.channel.queue)
  {
    hide Wire, Concat;
    assert Wires(s.pushed) == Wires(Written(s)) + s.channel.queue;
    ConcatAppend(Wires(Written(s)), s.channel.queue);
  }

  /**
    In every run, write failures and closing included: there is at most one drainer, a drainer
    always has a front to write, and the wire is a prefix of all frames in the order enqueued, never
    interleaved.
   */
  lemma WireNeverInterleaves(s: State)
    requires Reachable(s)
    ensures s.wire <= Enqueued(s)
    ensures forall i, j :: (0 <= i < |s.coroutines| && 0 <= j < |s.coroutines|
                            && s.coroutines[i].Draining? && s.coroutines[j].Draining?) ==> i == j
    ensures forall i :: 0 <= i < |s.coroutines| && s.coroutines[i].Draining? ==>
              s.channel.queue != [] && s.coroutines[i].sent <= |s.channel.queue[0]|
  {
    hide Wire, Wires;
    ReachableSound(s);
    WirePrefix(s);
  }

  lemma WirePrefix(s: State)
    requires Sound(s)
    ensures s.wire <= Enqueued(s)
  {
    hide Wire, Wires;
    SplitEnqueued(s);
    var offset: nat :| WireIs(s, offset);
    if s.channel.queue != [] {
      var front := s.channel.queue[0];
      assert Concat(s.channel.queue) == front + Concat(s.channel.queue[1..]);
    }
  }

  /** `is_writing_` false means an empty queue and everything on the wire. */
  lemma IdleMeansSent(s: State)
    requires Reachable(s) && !s.channel.writing
    ensures s.channel.queue == [] && s.wire == Enqueued(s)
  {
    hide Wire, Wires;
    ReachableSound(s);
    EmptyMeansSent(s);
  }

  // ---------- Who gets into the queue ----------

  /** The sends of the senders started, in the order they were spawned. */
  function Spawns(run: seq<Action>): seq<Send> {
    if run == [] then [] else (if run[0].Spawn? then [run[0].send] else []) + Spawns(run[1..])
  }

  /** The sends of the senders that ran up to their first suspension, in that order. */
  function Started(all: seq<Send>, run: seq<Action>): seq<Send> {
    if run == [] then []
    else (if run[0].Start? && run[0].i < |all| then [all[run[0].i]] else []) + Started(all, run[1..])
  }

  /** Those among them that were texts or binaries before the connection was closed, or replies at any time. */
  function Admitted(open: bool, all: seq<Send>, run: seq<Action>): seq<Send>
    decreases run
  {
    if run == [] then []
    else if run[0].Shut? then Admitted(false, all, run[1..])
    else if run[0].Start? && run[0].i < |all| && (open || all[run[0].i].Pong? || all[run[0].i].Close?)
      then [all[run[0].i]] + Admitted(open, all, run[1..])
    else Admitted(open, all, run[1..])
  }

  /**
    A sender that starts enqueues exactly its own send, behind everything enqueued before, unless it is
    a text or binary on a closed connection; and it drains exactly when it enqueued and nobody else does.
   */
  lemma StartEnqueues(s: State, i: nat)
    requires i < |s.coroutines| && s.coroutines[i].Waiting?
    ensures Enabled(s, Start(i))
    ensures var t, send := Apply(s, Start(i)), s.coroutines[i].send;
            var admitted := s.open || send.Pong? || send.Close?;
            && t.pushed == (if admitted then s.pushed + [send] else s.pushed)
            && t.channel.queue == (if admitted then s.channel.queue + [Wire(send)] else s.channel.queue)
            && t.coroutines == s.coroutines[i := if admitted && !s.channel.writing then Draining(0) else Returned]
            && t.channel.writing == (s.channel.writing || admitted)
            && t.open == s.open && t.wire == s.wire
  {
  }

  /** Any sized send can be handed to a sender at any time, and its coroutine waits with just that send. */
  lemma SpawnIsFree(s: State, send: Send)
    requires send.Sized()
    ensures Enabled(s, Spawn(send)) && Apply(s, Spawn(send)) == s.(coroutines := s.coroutines + [Waiting(send)])
  {
  }

  /** The socket may take any part of what is left of the front, a written front be finished, and any write fail. */
  lemma SocketIsFree(s: State, i: nat, n: nat)
    requires i < |s.coroutines| && s.coroutines[i].Draining? && s.channel.queue != []
    ensures var left := |s.channel.queue[0]| - s.coroutines[i].sent;
            && (s.open && 0 < n <= left ==> Enabled(s, Transfer(i, n)))
            && (left == 0 ==> Enabled(s, Finish(i)))
            && Enabled(s, Fail(i)) && Enabled(s, Shut)
  {
  }

  lemma {:induction false} PushedFrom(s: State, before: seq<Send>, all: seq<Send>, run: seq<Action>)
    requires ValidRun(s, run) && all == before + Spawns(run) && |s.coroutines| == |before|
    requires forall i :: 0 <= i < |before| && s.coroutines[i].Waiting? ==> s.coroutines[i].send == before[i]
    ensures Final(s, run).pushed == s.pushed + Admitted(s.open, all, run)
    decreases run
  {
    hide Wire;
    if run == [] {
      assert s.pushed + [] == s.pushed;
    } else {
      var a, t := run[0], Apply(s, run[0]);
      var next := if a.Spawn? then before + [a.send] else before;
      assert all == next + Spawns(run[1..]);
      PushedFrom(t, next, all, run[1..]);
      if a.Start? {
        StartEnqueues(s, a.i);
        assert all[a.i] == before[a.i];
        assert (s.pushed + [all[a.i]]) + Admitted(t.open, all, run[1..])
            == s.pushed + ([all[a.i]] + Admitted(t.open, all, run[1..]));
      }
    }
  }

  lemma {:induction false} AllAdmitted(all: seq<Send>, run: seq<Action>)
    requires Shut !in run
    ensures Admitted(true, all, run) == Started(all, run)
  {
    if run != [] {
      assert run[0] in run;
      AllAdmitted(all, run[1..]);
    }
  }

  /**
    On every run what is enqueued is what the senders started were spawned with, in start order, less
    the texts and binaries started after the connection was closed; on a run without closing, all of it.
   */
  lemma PushedAreStarted(run: seq<Action>)
    requires ValidRun(INIT, run)
    ensures Final(INIT, run).pushed == Admitted(true, Spawns(run), run)
    ensures Shut !in run ==> Final(INIT, run).pushed == Started(Spawns(run), run)
  {
    hide ValidRun, Final, Admitted, Started, Spawns;
    assert [] + Spawns(run) == Spawns(run);
    PushedFrom(INIT, [], Spawns(run), run);
    assert [] + Admitted(true, Spawns(run), run) == Admitted(true, Spawns(run), run);
    if Shut !in run {
      AllAdmitted(Spawns(run), run);
    }
  }

  /** What each sender writes: an unmasked FIN frame of its opcode, a Close with code and reason. */
  lemma SendForm(s: Send)
    ensures match s
            case Text(p) => FrameOf(s) == WsFrame(true, false, false, false, 0x1, false, 0, p)
            case Binary(p) => FrameOf(s) == WsFrame(true, false, false, false, 0x2, false, 0, p)
            case Pong(p) => FrameOf(s) == WsFrame(true, false, false, false, 0xA, false, 0, p)
            case Close(c, r) =>
              && Wire(s)[0] == 0x88 && |Wire(s)| == 4 + Min(123, |r|) && Wire(s)[1] as nat == 2 + Min(123, |r|)
              && Wire(s)[2] as bv16 == c >> 8 && Wire(s)[3] as bv16 == c & 0xFF
              && forall i :: 0 <= i < Min(123, |r|) ==> Wire(s)[4 + i] == r[i]
  {
    if s.Close? {
      hide Encode, ClosePayload, Octet;
      ClosePayloadForm(s.code, s.reason);
      CloseFrameIsShort(s.code, s.reason);
    }
  }

  // ---------- Progress ----------
  // ---------- Progress ----------

  ghost predicate Failed(s: State) {
    exists i :: 0 <= i < |s.coroutines| && s.coroutines[i].Threw?
  }

  predicate IsDrainStep(a: Action) {
    a.Transfer? || a.Finish?
  }

  /** Octets not yet written, plus one for every frame still in the queue. */
  ghost function Pending(s: State): int {
    |Enqueued(s)| - |s.wire| + |s.channel.queue|
  }

  /** While nothing failed and the socket is open, a non-empty queue can always move. */
  lemma DrainIsEnabled(s: State)
    requires Reachable(s) && !Failed(s) && s.open && s.channel.queue != []
    ensures exists a :: IsDrainStep(a) && Enabled(s, a)
  {
    hide Wire, Wires, Concat;
    ReachableSound(s);
    var i :| 0 <= i < |s.coroutines| && Holds(s.coroutines[i]);
    assert s.coroutines[i].Draining?;
    var k := s.coroutines[i].sent;
    if k == |s.channel.queue[0]| {
      assert Enabled(s, Finish(i));
      assert IsDrainStep(Finish(i));
    } else {
      assert Enabled(s, Transfer(i, 1));
      assert IsDrainStep(Transfer(i, 1));
    }
  }

  /** Every drain step brings the end nearer. */
  lemma DrainStepDecreases(s: State, a: Action)
    requires Sound(s) && Enabled(s, a) && IsDrainStep(a)
    ensures 0 <= Pending(Apply(s, a)) < Pending(s)
  {
    hide Wire, Wires, Concat;
    var t := Apply(s, a);
    StepKeeps(s, a);
    SplitEnqueued(t);
    PendingNonnegative(t);
  }

  lemma PendingNonnegative(s: State)
    requires Sound(s)
    ensures |s.wire| <= |Enqueued(s)|
  {
    hide Sound, Enqueued;
    WirePrefix(s);
  }

  /** Draining takes at most `Pending` steps, whatever the socket takes at a time. */
  lemma {:induction false} DrainTerminates(s: State, run: seq<Action>)
    requires Sound(s) && ValidRun(s, run) && forall a :: a in run ==> IsDrainStep(a)
    ensures |run| <= Pending(s) - Pending(Final(s, run)) && 0 <= Pending(Final(s, run))
    decreases run
  {
    hide Sound, Enabled, Apply, Enqueued, IsDrainStep;
    if run == [] {
      PendingNonnegative(s);
    } else {
      StepKeeps(s, run[0]);
      DrainStepDecreases(s, run[0]);
      DrainTerminates(Apply(s, run[0]), run[1..]);
    }
  }

  /** When no drain step is left, everything enqueued is on the wire. */
  lemma QuiescentMeansSent(s: State)
    requires Reachable(s) && !Failed(s) && s.open
    requires forall a :: IsDrainStep(a) ==> !Enabled(s, a)
    ensures !s.channel.writing && s.channel.queue == [] && s.wire == Enqueued(s)
  {
    hide Enabled, Enqueued;
    ReachableSound(s);
    if s.channel.queue != [] {
      DrainIsEnabled(s);
    } else {
      IdleMeansSent(s);
    }
  }

  /**
    A coroutine that enqueued its frame returns from `do_write` with everything enqueued, its own
    frame included, on the wire exactly when it found no drainer.  So `close_async` closes behind
    a flushed Close frame only then.
   */
  lemma ReturnMeansFlushed(s: State, i: nat, a: Action)
    requires Reachable(s) && (a == Start(i) || a == Finish(i)) && Enabled(s, a)
    requires a.Start? ==> !Refused(s.open, s.coroutines[i].send)
    requires Apply(s, a).coroutines[i] == Returned
    ensures Apply(s, a).wire == Enqueued(Apply(s, a)) <==> a.Finish?
    ensures a.Start? <==> s.coroutines[i].Waiting? && s.channel.writing
  {
    hide Wires, Concat, ValidRun, Final, WireIs;
    ReachableSound(s);
    StepKeeps(s, a);
    var t := Apply(s, a);
    if a.Finish? {
      assert !t.channel.writing;
      EmptyMeansSent(t);
    } else {
      StartAddsOctets(s, s.coroutines[i].send);
      WirePrefix(s);
    }
  }

  /** Once the socket is closed no octet is written. */
  lemma {:induction false} NothingAfterShut(s: State, run: seq<Action>)
    requires !s.open && ValidRun(s, run)
    ensures Final(s, run).wire == s.wire && !Final(s, run).open
    decreases run
  {
    if run != [] {
      NothingAfterShut(Apply(s, run[0]), run[1..]);
    }
  }

  /** A text and a `close_async` that finds the text's sender draining and closes at once. */
  function OvertakenClose(text: bytes, reason: bytes): seq<Action> {
    [Spawn(Text(text)), Spawn(Close(1000, reason)), Start(0), Start(1), Shut]
  }

  lemma OvertakenCloseRuns(text: bytes, reason: bytes)
    requires |text| < U64_LIMIT
    ensures ValidRun(INIT, OvertakenClose(text, reason))
    ensures var s := Final(INIT, OvertakenClose(text, reason));
            && s.coroutines == [Draining(0), Returned] && s.pushed == [Text(text), Close(1000, reason)]
            && s.wire == [] && !s.open
  {
    hide Wire;
    var run := OvertakenClose(text, reason);
    var s1 := Apply(INIT, run[0]);
    var s2 := Apply(s1, run[1]);
    assert s2.coroutines == [Waiting(Text(text)), Waiting(Close(1000, reason))];
    var s3 := Apply(s2, run[2]);
    assert s3.coroutines == [Draining(0), Waiting(Close(1000, reason))];
    var s4 := Apply(s3, run[3]);
    var s5 := Apply(s4, run[4]);
    assert s4.coroutines == [Draining(0), Returned];
    assert run[1..][0] == run[1] && run[1..][1..][0] == run[2] && run[1..][1..][1..][0] == run[3];
    assert run[1..][1..][1..][1..] == [Shut] && [Shut][1..] == [];
    assert ValidRun(s4, [Shut]) && Final(s4, [Shut]) == s5;
    assert ValidRun(s3, run[1..][1..][1..]) && Final(s3, run[1..][1..][1..]) == s5;
    assert ValidRun(s2, run[1..][1..]) && Final(s2, run[1..][1..]) == s5;
    assert ValidRun(s1, run[1..]) && Final(s1, run[1..]) == s5;
  }

  /**
    For every text and reason there is a run in which `close_async` returns from sending its Close
    frame and closes the socket, and however that run goes on, not one octet of it is ever sent.
   */
  lemma CloseFrameIsLost(text: bytes, reason: bytes, more: seq<Action>)
    requires |text| < U64_LIMIT
    requires ValidRun(INIT, OvertakenClose(text, reason))
    requires ValidRun(Final(INIT, OvertakenClose(text, reason)), more)
    ensures var s := Final(INIT, OvertakenClose(text, reason));
            && Reachable(s) && s.pushed == [Text(text), Close(1000, reason)]
            && s.coroutines == [Draining(0), Returned]
            && Final(s, more).wire == [] && s.wire != Enqueued(s)
  {
    hide ValidRun, Final, OvertakenClose, Wire;
    OvertakenCloseRuns(text, reason);
    var s := Final(INIT, OvertakenClose(text, reason));
    NothingAfterShut(s, more);
    StartAddsOctets(s.(pushed := [Text(text)]), Close(1000, reason));
    assert [Text(text)] + [Close(1000, reason)] == s.pushed;
  }

  lemma EmptyMeansSent(s: State)
    requires Sound(s) && s.channel.queue == []
    ensures s.wire == Enqueued(s)
  {
    hide Wire, Wires;
    SplitEnqueued(s);
    assert Concat<byte>([]) == [];
  }

  lemma StartAddsOctets(s: State, send: Send)
    ensures Concat(Wires(s.pushed + [send])) == Enqueued(s) + Wire(send) && |Wire(send)| >= 2
  {
    hide FrameOf, WirePayload, Byte0, Byte1, ExtendedLength, KeyOctets, Concat;
    WiresSnoc(s.pushed, send);
    ConcatSnoc(Wires(s.pushed), Wire(send));
  }

  /** After a failed write `is_writing_` stays set: frames are still enqueued but none is ever written. */
  lemma {:induction false} FailureIsFinal(s: State, run: seq<Action>)
    requires Sound(s) && Failed(s) && ValidRun(s, run)
    ensures var t := Final(s, run); t.wire == s.wire && t.channel.writing && Failed(t) && s.pushed <= t.pushed
    decreases run
  {
    if run == [] {
      FailedHolds(s);
    } else {
      StepKeeps(s, run[0]);
      FailedStep(s, run[0]);
      FailureIsFinal(Apply(s, run[0]), run[1..]);
    }
  }

  lemma FailedHolds(s: State)
    requires Sound(s) && Failed(s)
    ensures s.channel.writing
  {
    hide WireIs, Wires, QueueIsSuffix;
    var i :| 0 <= i < |s.coroutines| && s.coroutines[i].Threw?;
    assert Holds(s.coroutines[i]);
  }

  lemma FailedStep(s: State, a: Action)
    requires Sound(s) && Failed(s) && Enabled(s, a)
    ensures var t := Apply(s, a); t.wire == s.wire && Failed(t) && s.pushed <= t.pushed
  {
    hide WireIs, Wires, QueueIsSuffix, Wire;
    var i :| 0 <= i < |s.coroutines| && s.coroutines[i].Threw?;
    assert Holds(s.coroutines[i]);
    FailedHolds(s);
    assert Apply(s, a).coroutines[i].Threw?;
  }
}
