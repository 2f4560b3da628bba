/**
  Closing: `close` (include/websocket/WebSocket.h) called by any number of threads on any number of
  connections, the accept counter `do_accept`, the registry of the server
  (include/server.h, src/server.cpp) and `close_websockets`.

  Each step is one atomic effect of `close`, or one critical section of the registry.
 */
module CloseRace {
  import opened Bytes

  /** How far a call of `close` has come.  `Lost` is the early return of a failed compare-and-swap. */
  datatype Pc = Called | Lost | Won | Stopped | Notified | Finished
  {
    /** The calls that won the compare-and-swap. */
    predicate Winning() {
      Won? || Stopped? || Notified? || Finished?
    }

    predicate Returned() {
      Lost? || Finished?
    }
  }

  datatype Caller = Caller(conn: nat, pc: Pc)

  /** A connection, and how often each effect of `close` has happened to it. */
  datatype Conn = Conn(
    id: nat,
    registered: bool,          // register_websocket has run
    open: bool,                // state_ == WS_OPEN
    socketClosed: bool,
    shutdowns: nat,
    notifications: nat,        // on_close called by close()
    cleanups: nat,
    winner: Option<nat>)       // who won the compare-and-swap

  datatype State = State(nextId: nat, conns: seq<Conn>, callers: seq<Caller>, registry: map<nat, nat>)

  const INIT := State(0, [], [], map[])

  datatype Action =
    | Accept                   // do_accept hands out the next id
    | Register(k: nat)         // connection k enters websockets_
    | Call(k: nat)             // some thread calls close() on connection k
    | Advance(i: nat)          // caller i makes its next step

  predicate Enabled(s: State, a: Action) {
    match a
    case Accept => true
    case Register(k) => k < |s.conns| && !s.conns[k].registered
    case Call(k) => k < |s.conns| && s.conns[k].registered
    case Advance(i) => i < |s.callers| && s.callers[i].conn < |s.conns| && !s.callers[i].pc.Returned()
  }

  function AdvanceCaller(s: State, i: nat): State
    requires Enabled(s, Advance(i))
  {
    var k := s.callers[i].conn;
    var c := s.conns[k];
    match s.callers[i].pc
    case Called =>
      if c.open then
        s.(conns := s.conns[k := c.(open := false, winner := Some(i))], callers := s.callers[i := Caller(k, Won)])
      else s.(callers := s.callers[i := Caller(k, Lost)])
    case Won =>
      s.(conns := s.conns[k := c.(socketClosed := true, shutdowns := c.shutdowns + 1)],
         callers := s.callers[i := Caller(k, Stopped)])
    case Stopped =>
      s.(conns := s.conns[k := c.(notifications := c.notifications + 1)],
         callers := s.callers[i := Caller(k, Notified)])
    case Notified =>
      s.(conns := s.conns[k := c.(cleanups := c.cleanups + 1)],
         callers := s.callers[i := Caller(k, Finished)],
         registry := s.registry - {c.id})
    case _ => s
  }

  function Apply(s: State, a: Action): State
    requires Enabled(s, a)
  {
    match a
    case Accept =>
      s.(nextId := s.nextId + 1,
         conns := s.conns + [Conn(s.nextId + 1, false, true, false, 0, 0, 0, None)])
    case Register(k) =>
      s.(conns := s.conns[k := s.conns[k].(registered := true)], registry := s.registry[s.conns[k].id := k])
    case Call(k) => s.(callers := s.callers + [Caller(k, Called)])
    case Advance(i) => AdvanceCaller(s, i)
  }

  /** No step waits for anything but its own turn. */
  lemma StepsAreFree(s: State)
    ensures Enabled(s, Accept)
    ensures forall k :: 0 <= k < |s.conns| ==> Enabled(s, Register(k)) == !s.conns[k].registered
    ensures forall k :: 0 <= k < |s.conns| && s.conns[k].registered ==> Enabled(s, Call(k))
    ensures forall i :: 0 <= i < |s.callers| && s.callers[i].conn < |s.conns| ==>
              Enabled(s, Advance(i)) == (s.callers[i].pc != Lost && s.callers[i].pc != Finished)
  {
  }

  ghost predicate ValidRun(s: State, run: seq<Action>)
    decreases run
  {
    run != [] ==> Enabled(s, run[0]) && ValidRun(Apply(s, run[0]), run[1..])
  }

  ghost function Final(s: State, run: seq<Action>): State
    requires ValidRun(s, run)
    decreases run
  {
    if run == [] then s else Final(Apply(s, run[0]), run[1..])
  }

  // ---------- The invariant ----------

  /** The effects on a connection are those its winner has reached. */
  ghost predicate EffectsMatch(c: Conn, callers: seq<Caller>, k: nat) {
    match c.winner
    case None => c.open && !c.socketClosed && c.shutdowns == c.notifications == c.cleanups == 0
    case Some(i) =>
      && !c.open && i < |callers| && callers[i].conn == k && callers[i].pc.Winning()
      && var pc := callers[i].pc;
      && c.socketClosed == !pc.Won?
      && c.shutdowns == (if pc.Won? then 0 else 1)
      && c.notifications == (if pc.Won? || pc.Stopped? then 0 else 1)
      && c.cleanups == (if pc.Finished? then 1 else 0)
  }

  ghost predicate CallerMatches(s: State, i: nat)
    requires i < |s.callers|
  {
    var k, pc := s.callers[i].conn, s.callers[i].pc;
    && k < |s.conns| && s.conns[k].registered
    && (pc.Winning() ==> s.conns[k].winner == Some(i))
    && (pc.Lost? ==> !s.conns[k].open)
  }

  ghost predicate Sound(s: State) {
    && s.nextId == |s.conns|
    && (forall k :: 0 <= k < |s.conns| ==> s.conns[k].id == k + 1)
    && (forall k :: 0 <= k < |s.conns| ==> EffectsMatch(s.conns[k], s.callers, k))
    && (forall i :: 0 <= i < |s.callers| ==> CallerMatches(s, i))
    && (forall k :: 0 <= k < |s.conns| ==>
          (s.conns[k].registered && s.conns[k].cleanups == 0 <==> s.conns[k].id in s.registry))
    && (forall id :: id in s.registry ==> 1 <= id <= |s.conns| && s.registry[id] == id - 1)
    && (forall k :: 0 <= k < |s.conns| && !s.conns[k].registered ==> s.conns[k].winner.None?)
  }

  lemma AdvanceKeepsCallers(s: State, i: nat)
    requires Sound(s) && Enabled(s, Advance(i))
    ensures var t := AdvanceCaller(s, i); forall j :: 0 <= j < |t.callers| ==> CallerMatches(t, j)
  {
    var t := AdvanceCaller(s, i);
    assert CallerMatches(s, i);
    assert EffectsMatch(s.conns[s.callers[i].conn], s.callers, s.callers[i].conn);
    forall j | 0 <= j < |t.callers| ensures CallerMatches(t, j) {
      assert CallerMatches(s, j);
    }
  }

  lemma AdvanceKeepsEffects(s: State, i: nat)
    requires Sound(s) && Enabled(s, Advance(i))
    ensures var t := AdvanceCaller(s, i); forall m :: 0 <= m < |t.conns| ==> EffectsMatch(t.conns[m], t.callers, m)
  {
    var t := AdvanceCaller(s, i);
    assert CallerMatches(s, i);
    forall m | 0 <= m < |t.conns| ensures EffectsMatch(t.conns[m], t.callers, m) {
      assert EffectsMatch(s.conns[m], s.callers, m);
    }
  }

  lemma AdvanceKeeps(s: State, i: nat)
    requires Sound(s) && Enabled(s, Advance(i))
    ensures Sound(AdvanceCaller(s, i))
  {
    AdvanceKeepsCallers(s, i);
    AdvanceKeepsEffects(s, i);
    var k := s.callers[i].conn;
    assert CallerMatches(s, i);
    assert EffectsMatch(s.conns[k], s.callers, k);
    hide CallerMatches, EffectsMatch;
  }

  lemma StepKeeps(s: State, a: Action)
    requires Sound(s) && Enabled(s, a)
    ensures Sound(Apply(s, a))
  {
    match a
    case Advance(i) => AdvanceKeeps(s, i);
    case Accept => AcceptKeeps(s);
    case Register(k) => RegisterKeeps(s, k);
    case Call(k) => CallKeeps(s, k);
  }

  lemma AcceptKeeps(s: State)
    requires Sound(s)
    ensures Sound(Apply(s, Accept))
  {
    var t := Apply(s, Accept);
    forall j | 0 <= j < |t.callers| ensures CallerMatches(t, j) {
      assert CallerMatches(s, j);
    }
    forall m | 0 <= m < |t.conns| ensures EffectsMatch(t.conns[m], t.callers, m) {
      assert m < |s.conns| ==> EffectsMatch(s.conns[m], s.callers, m);
    }
  }

  lemma RegisterKeeps(s: State, k: nat)
    requires Sound(s) && Enabled(s, Register(k))
    ensures Sound(Apply(s, Register(k)))
  {
    var t := Apply(s, Register(k));
    forall j | 0 <= j < |t.callers| ensures CallerMatches(t, j) {
      assert CallerMatches(s, j);
    }
    forall m | 0 <= m < |t.conns| ensures EffectsMatch(t.conns[m], t.callers, m) {
      assert EffectsMatch(s.conns[m], s.callers, m);
    }
  }

  lemma CallKeeps(s: State, k: nat)
    requires Sound(s) && Enabled(s, Call(k))
    ensures Sound(Apply(s, Call(k)))
  {
    var t := Apply(s, Call(k));
    forall j | 0 <= j < |t.callers| ensures CallerMatches(t, j) {
      assert j < |s.callers| ==> CallerMatches(s, j);
    }
    forall m | 0 <= m < |t.conns| ensures EffectsMatch(t.conns[m], t.callers, m) {
      assert EffectsMatch(s.conns[m], s.callers, m);
    }
  }

  lemma {:induction false} RunKeeps(s: State, run: seq<Action>)
    requires Sound(s) && ValidRun(s, run)
    ensures Sound(Final(s, run))
    decreases run
  {
    hide Sound, Enabled, Apply;
    if run != [] {
      StepKeeps(s, run[0]);
      RunKeeps(Apply(s, run[0]), run[1..]);
    }
  }

  ghost predicate Reachable(s: State) {
    exists run :: ValidRun(INIT, run) && s == Final(INIT, run)
  }

  lemma ReachableSound(s: State)
    requires Reachable(s)
    ensures Sound(s)
  {
    var run :| ValidRun(INIT, run) && s == Final(INIT, run);
    RunKeeps(INIT, run);
  }

  // ---------- The theorems ----------

  /** Over every interleaving, no connection is shut down, reported or cleaned up twice, and no two callers win. */
  lemma AtMostOnce(s: State)
    requires Reachable(s)
    ensures forall k :: 0 <= k < |s.conns| ==>
              s.conns[k].shutdowns <= 1 && s.conns[k].notifications <= 1 && s.conns[k].cleanups <= 1
    ensures forall i, j :: (0 <= i < |s.callers| && 0 <= j < |s.callers| && s.callers[i].conn == s.callers[j].conn
                            && s.callers[i].pc.Winning() && s.callers[j].pc.Winning()) ==> i == j
  {
    ReachableSound(s);
    forall k | 0 <= k < |s.conns|
      ensures s.conns[k].shutdowns <= 1 && s.conns[k].notifications <= 1 && s.conns[k].cleanups <= 1
    {
      assert EffectsMatch(s.conns[k], s.callers, k);
    }
    forall i, j | 0 <= i < |s.callers| && 0 <= j < |s.callers| && s.callers[i].conn == s.callers[j].conn
                  && s.callers[i].pc.Winning() && s.callers[j].pc.Winning()
      ensures i == j
    {
      assert CallerMatches(s, i) && CallerMatches(s, j);
    }
  }

  /**
    Once every call on a connection has returned, and there was one, exactly one caller ran the
    shutdown, the handler and the cleanup, and the connection is closed and no longer registered.
   */
  lemma ExactlyOnce(s: State, k: nat)
    requires Reachable(s) && k < |s.conns|
    requires exists i :: 0 <= i < |s.callers| && s.callers[i].conn == k
    requires forall i :: 0 <= i < |s.callers| && s.callers[i].conn == k ==> s.callers[i].pc.Returned()
    ensures var c := s.conns[k];
            !c.open && c.socketClosed && c.shutdowns == c.notifications == c.cleanups == 1 && c.id !in s.registry
    ensures exists w :: 0 <= w < |s.callers| && s.callers[w] == Caller(k, Finished)
                        && forall i :: 0 <= i < |s.callers| && s.callers[i].conn == k && i != w ==>
                             s.callers[i].pc == Lost
  {
    ReachableSound(s);
    var i :| 0 <= i < |s.callers| && s.callers[i].conn == k;
    assert CallerMatches(s, i);
    assert EffectsMatch(s.conns[k], s.callers, k);
    var w := s.conns[k].winner.value;
    assert s.callers[w] == Caller(k, Finished);
    forall j | 0 <= j < |s.callers| && s.callers[j].conn == k && j != w ensures s.callers[j].pc == Lost {
      assert CallerMatches(s, j);
    }
  }

  /** In every state the shutdown comes before the handler and the handler before the cleanup, all after the closing. */
  lemma EffectsInOrder(s: State, k: nat)
    requires Reachable(s) && k < |s.conns|
    ensures var c := s.conns[k];
            && c.cleanups <= c.notifications <= c.shutdowns <= (if c.open then 0 else 1)
            && (c.socketClosed <==> c.shutdowns == 1)
  {
    ReachableSound(s);
    assert EffectsMatch(s.conns[k], s.callers, k);
  }

  /** The registry names each connection by its own id, and no two accepted connections share one. */
  lemma IdsAreDistinct(s: State)
    requires Reachable(s)
    ensures forall j, k :: 0 <= j < |s.conns| && 0 <= k < |s.conns| && s.conns[j].id == s.conns[k].id ==> j == k
    ensures forall id :: id in s.registry ==> s.registry[id] < |s.conns| && s.conns[s.registry[id]].id == id
  {
    ReachableSound(s);
  }

  /** A registered id whose socket is closed has a winner that has not yet run its cleanup. */
  lemma RegisteredButClosed(s: State, id: nat)
    requires Reachable(s) && id in s.registry && s.registry[id] < |s.conns|
    requires s.conns[s.registry[id]].socketClosed
    ensures exists w :: 0 <= w < |s.callers| && s.callers[w].conn == s.registry[id]
                        && (s.callers[w].pc == Stopped || s.callers[w].pc == Notified)
  {
    ReachableSound(s);
    var k := s.registry[id];
    assert EffectsMatch(s.conns[k], s.callers, k);
    var w := s.conns[k].winner.value;
    assert s.callers[w].conn == k;
  }

  /** Unregistered again means cleaned up, and only by the caller that won. */
  lemma UnregisteredMeansCleanedUp(s: State, k: nat)
    requires Reachable(s) && k < |s.conns| && s.conns[k].registered && s.conns[k].id !in s.registry
    ensures !s.conns[k].open && exists w :: 0 <= w < |s.callers| && s.callers[w] == Caller(k, Finished)
  {
    ReachableSound(s);
    assert EffectsMatch(s.conns[k], s.callers, k);
    var w := s.conns[k].winner.value;
    assert s.callers[w] == Caller(k, Finished);
  }

  /** Removing an id undoes its registration. */
  lemma RemoveUndoesRegister(s: State, k: nat)
    requires Reachable(s) && Enabled(s, Register(k))
    ensures Apply(s, Register(k)).registry - {s.conns[k].id} == s.registry
  {
    ReachableSound(s);
    assert s.conns[k].id !in s.registry;
  }

  /** `state_` never returns to open, the winner never changes, and counts never fall. */
  ghost predicate Later(c: Conn, d: Conn) {
    && d.id == c.id && (c.registered ==> d.registered)
    && (!c.open ==> !d.open && d.winner == c.winner) && (c.socketClosed ==> d.socketClosed)
    && c.shutdowns <= d.shutdowns && c.notifications <= d.notifications && c.cleanups <= d.cleanups
  }

  lemma StepMonotone(s: State, a: Action)
    requires Sound(s) && Enabled(s, a)
    ensures var t := Apply(s, a);
            |s.conns| <= |t.conns| && forall k :: 0 <= k < |s.conns| ==> Later(s.conns[k], t.conns[k])
  {
    if a.Advance? {
      assert CallerMatches(s, a.i);
    }
  }

  lemma {:induction false} ClosedForever(s: State, run: seq<Action>)
    requires Sound(s) && ValidRun(s, run)
    ensures var t := Final(s, run);
            |s.conns| <= |t.conns| && forall k :: 0 <= k < |s.conns| ==> Later(s.conns[k], t.conns[k])
    decreases run
  {
    hide Sound, Enabled, Apply;
    if run != [] {
      StepKeeps(s, run[0]);
      StepMonotone(s, run[0]);
      var t := Apply(s, run[0]);
      ClosedForever(t, run[1..]);
      var u := Final(s, run);
      forall k | 0 <= k < |s.conns| ensures Later(s.conns[k], u.conns[k]) {
        assert Later(s.conns[k], t.conns[k]) && Later(t.conns[k], u.conns[k]);
      }
    }
  }

  /**
    The winner's last step takes its id out of the registry, where it still was, leaves every other
    id alone, and on no run does the id ever come back.
   */
  lemma CleanupUnregistersForGood(s: State, i: nat, run: seq<Action>)
    requires Reachable(s) && Enabled(s, Advance(i)) && s.callers[i].pc == Notified
    requires ValidRun(Apply(s, Advance(i)), run)
    ensures var id, t := s.conns[s.callers[i].conn].id, Apply(s, Advance(i));
            && id in s.registry && id !in t.registry && id !in Final(t, run).registry
            && forall x :: x in s.registry && x != id ==> x in t.registry && t.registry[x] == s.registry[x]
  {
    hide ValidRun, Final;
    ReachableSound(s);
    var k, t := s.callers[i].conn, Apply(s, Advance(i));
    assert CallerMatches(s, i) && EffectsMatch(s.conns[k], s.callers, k);
    StepKeeps(s, Advance(i));
    ClosedForever(t, run);
    RunKeeps(t, run);
    assert Later(t.conns[k], Final(t, run).conns[k]);
  }

  // ---------- close_websockets ----------

  /** The connections registered at the moment the server's lock is held. */
  function Snapshot(s: State): set<nat> {
    s.registry.Values
  }

  /**
    `close_websockets` takes a snapshot and calls `close` on each of its connections.  Whatever else
    runs in between, once those calls have returned every connection of the snapshot is closed, its
    cleanup was run at most once, and it is registered only if another caller has yet to clean up.
   */
  lemma SnapshotIsClosed(s: State, run: seq<Action>, k: nat)
    requires Reachable(s) && ValidRun(s, run) && k in s.registry.Values
    requires var t := Final(s, run);
             exists i :: |s.callers| <= i < |t.callers| && t.callers[i].conn == k && t.callers[i].pc.Returned()
    ensures var t := Final(s, run);
            k < |t.conns| && !t.conns[k].open && t.conns[k].cleanups <= 1
            && (t.conns[k].id in t.registry ==>
                  exists w :: 0 <= w < |t.callers| && t.callers[w].conn == k
                              && t.callers[w].pc.Winning() && !t.callers[w].pc.Finished?)
  {
    ReachableSound(s);
    RunKeeps(s, run);
    var t := Final(s, run);
    var i :| |s.callers| <= i < |t.callers| && t.callers[i].conn == k && t.callers[i].pc.Returned();
    assert CallerMatches(t, i);
    assert EffectsMatch(t.conns[k], t.callers, k);
    var w := t.conns[k].winner.value;
    assert t.callers[w].conn == k;
  }

  // ---------- Calls that run through ----------

  /** The steps of one call of `close` that nothing interrupts. */
  function CloseRun(s: State, k: nat): seq<Action>
    requires k < |s.conns|
  {
    var n := |s.callers|;
    [Call(k), Advance(n)] + if s.conns[k].open then [Advance(n), Advance(n), Advance(n)] else []
  }

  /** The connection after its winning caller ran to the end. */
  function ClosedBy(c: Conn, n: nat): Conn {
    c.(open := false, winner := Some(n), socketClosed := true, shutdowns := c.shutdowns + 1,
       notifications := c.notifications + 1, cleanups := c.cleanups + 1)
  }

  lemma RunOne(s: State, a: Action, rest: seq<Action>)
    requires Enabled(s, a) && ValidRun(Apply(s, a), rest)
    ensures ValidRun(s, [a] + rest) && Final(s, [a] + rest) == Final(Apply(s, a), rest)
  {
    hide Enabled, Apply;
    assert ([a] + rest)[1..] == rest;
  }

  /** The four steps of a caller that finds the connection open. */
  lemma WinningSteps(s: State, n: nat, k: nat)
    requires n < |s.callers| && s.callers[n] == Caller(k, Called) && k < |s.conns| && s.conns[k].open
    ensures var run := [Advance(n), Advance(n), Advance(n), Advance(n)];
            && ValidRun(s, run)
            && Final(s, run) == State(s.nextId, s.conns[k := ClosedBy(s.conns[k], n)],
                                      s.callers[n := Caller(k, Finished)], s.registry - {s.conns[k].id})
  {
    hide ValidRun, Final;
    var a := Advance(n);
    var s1 := Apply(s, a);
    var s2 := Apply(s1, a);
    var s3 := Apply(s2, a);
    var s4 := Apply(s3, a);
    assert s4.conns == s.conns[k := ClosedBy(s.conns[k], n)] && s4.callers == s.callers[n := Caller(k, Finished)];
    hide Apply, Enabled;
    NoRun(s4);
    RunOne(s3, a, []);
    RunOne(s2, a, [a] + []);
    RunOne(s1, a, [a] + ([a] + []));
    RunOne(s, a, [a] + ([a] + ([a] + [])));
    assert [a] + ([a] + ([a] + ([a] + []))) == [a, a, a, a];
  }

  lemma NoRun(s: State)
    ensures ValidRun(s, []) && Final(s, []) == s
  {
  }

  /** One uninterrupted call: everything once if the connection was open, nothing otherwise. */
  lemma CloseRunEffect(s: State, k: nat)
    requires Enabled(s, Call(k))
    ensures ValidRun(s, CloseRun(s, k))
    ensures var n, c := |s.callers|, s.conns[k];
            Final(s, CloseRun(s, k))
            == if c.open then State(s.nextId, s.conns[k := ClosedBy(c, n)], s.callers + [Caller(k, Finished)],
                                    s.registry - {c.id})
               else s.(callers := s.callers + [Caller(k, Lost)])
  {
    hide ValidRun, Final, ClosedBy;
    var n := |s.callers|;
    var s1 := Apply(s, Call(k));
    var a := Advance(n);
    if s.conns[k].open {
      WinningSteps(s1, n, k);
      RunOne(s, Call(k), [a, a, a, a]);
      assert [Call(k)] + [a, a, a, a] == CloseRun(s, k);
      assert s1.callers[n := Caller(k, Finished)] == s.callers + [Caller(k, Finished)];
    } else {
      var s2 := Apply(s1, a);
      NoRun(s2);
      RunOne(s1, a, []);
      RunOne(s, Call(k), [a] + []);
      assert [Call(k)] + ([a] + []) == CloseRun(s, k);
      assert s2.callers == s.callers + [Caller(k, Lost)];
    }
  }

  lemma {:induction false} RunAppend(s: State, a: seq<Action>, b: seq<Action>)
    requires ValidRun(s, a) && ValidRun(Final(s, a), b)
    ensures ValidRun(s, a + b) && Final(s, a + b) == Final(Final(s, a), b)
    decreases a
  {
    hide Enabled, Apply;
    if a == [] {
      assert a + b == b;
    } else {
      RunAppend(Apply(s, a[0]), a[1..], b);
      assert (a + b)[1..] == a[1..] + b;
    }
  }

  /** Between two calls of `close_websockets`, which still has to close `to_close`. */
  ghost predicate ClosingDown(s: State, t: State, to_close: set<nat>) {
    && |t.conns| == |s.conns| && to_close <= Snapshot(s)
    && (forall k :: k in Snapshot(s) ==>
          k < |s.conns| && s.conns[k].registered && s.conns[k].id in s.registry && s.registry[s.conns[k].id] == k)
    && (forall id :: id in s.registry ==> s.registry[id] in Snapshot(s) && s.conns[s.registry[id]].id == id)
    && (forall k :: k in Snapshot(s) && k !in to_close ==> !t.conns[k].open)
    && (forall k :: k in to_close ==> t.conns[k] == s.conns[k])
    && (forall id :: id in t.registry <==>
          id in s.registry && (s.registry[id] in to_close || !s.conns[s.registry[id]].open))
  }

  lemma ClosingStep(s: State, t: State, to_close: set<nat>, k: nat)
    requires ClosingDown(s, t, to_close) && k in to_close
    ensures Enabled(t, Call(k)) && ValidRun(t, CloseRun(t, k))
    ensures ClosingDown(s, Final(t, CloseRun(t, k)), to_close - {k})
  {
    hide ValidRun, Final;
    CloseRunEffect(t, k);
  }

  lemma SnapshotIsRegistered(s: State)
    requires Sound(s)
    ensures forall k :: k in Snapshot(s) ==>
              k < |s.conns| && s.conns[k].registered && s.conns[k].id in s.registry && s.registry[s.conns[k].id] == k
    ensures forall id :: id in s.registry ==> s.registry[id] in Snapshot(s) && s.conns[s.registry[id]].id == id
  {
    forall k | k in Snapshot(s)
      ensures k < |s.conns| && s.conns[k].registered && s.conns[k].id in s.registry && s.registry[s.conns[k].id] == k
    {
      var id :| id in s.registry && s.registry[id] == k;
    }
  }

  /** How many connections are accepted before an accept is aborted. */
  function Accepted(aborts: seq<bool>): nat {
    if aborts == [] || aborts[0] then 0 else 1 + Accepted(aborts[1..])
  }

  /** It is those in front of the first abort. */
  lemma {:induction false} AcceptedForm(aborts: seq<bool>)
    ensures Accepted(aborts) <= |aborts|
    ensures forall j :: 0 <= j < Accepted(aborts) ==> !aborts[j]
    ensures Accepted(aborts) < |aborts| ==> aborts[Accepted(aborts)]
  {
    if aborts != [] && !aborts[0] {
      AcceptedForm(aborts[1..]);
    }
  }

  function Accepts(n: nat): (run: seq<Action>)
    ensures |run| == n
  {
    if n == 0 then [] else Accepts(n - 1) + [Accept]
  }

  lemma OneMoreAccept(s: State, k: nat)
    requires ValidRun(s, Accepts(k))
    ensures ValidRun(s, Accepts(k + 1)) && Final(s, Accepts(k + 1)) == Apply(Final(s, Accepts(k)), Accept)
  {
    hide ValidRun, Final;
    var t := Final(s, Accepts(k));
    NoRun(Apply(t, Accept));
    RunOne(t, Accept, []);
    assert [Accept] + [] == [Accept];
    RunAppend(s, Accepts(k), [Accept]);
  }

  // ---------- The program's object ----------

  class Server {
    var client_id: nat
    var conns: seq<Conn>
    var websockets_: map<nat, nat>
    var callers: seq<Caller>      // the calls of close() so far

    ghost function Value(): State
      reads this
    {
      State(client_id, conns, callers, websockets_)
    }

    constructor ()
      ensures Value() == INIT
    {
      client_id, conns, websockets_, callers := 0, [], map[], [];
    }

    /** One iteration of `do_accept`, whose counter is a local that an aborted accept discards. */
    method AcceptOne(aborted: bool) returns (stop: bool)
      modifies this
      ensures stop == aborted && Value() == if aborted then old(Value()) else Apply(old(Value()), Accept)
    {
      var next := client_id + 1;
      if aborted { return true; }
      conns := conns + [Conn(next, false, true, false, 0, 0, 0, None)];
      client_id := next;
      stop := false;
    }

    /** `do_accept`: `aborts` says of each accept whether it was aborted; when it runs out the coroutine waits. */
    method DoAccept(aborts: seq<bool>)
      modifies this
      ensures var n := Accepted(aborts);
              && ValidRun(old(Value()), Accepts(n)) && Value() == Final(old(Value()), Accepts(n))
              && |conns| == old(|conns|) + n && conns[..old(|conns|)] == old(conns)
              && forall j :: old(|conns|) <= j < |conns| ==> conns[j].id == old(client_id) + 1 + (j - old(|conns|))
    {
      hide ValidRun, Final, Enabled;
      ghost var s := Value();
      NoRun(s);
      var k := 0;
      assert aborts[0..] == aborts;
      while k < |aborts|
        invariant 0 <= k <= |aborts| && Accepted(aborts) == k + Accepted(aborts[k..])
        invariant ValidRun(s, Accepts(k)) && Value() == Final(s, Accepts(k))
        invariant client_id == s.nextId + k && |conns| == |s.conns| + k && conns[..|s.conns|] == s.conns
        invariant forall j :: |s.conns| <= j < |conns| ==> conns[j].id == s.nextId + 1 + (j - |s.conns|)
      {
        assert aborts[k..][1..] == aborts[k + 1..];
        OneMoreAccept(s, k);
        var stop := AcceptOne(aborts[k]);
        if stop { return; }
        k := k + 1;
      }
    }

    /** `register_websocket`. */
    method RegisterWebsocket(k: nat)
      requires Enabled(Value(), Register(k))
      modifies this
      ensures Value() == Apply(old(Value()), Register(k))
    {
      conns := conns[k := conns[k].(registered := true)];
      websockets_ := websockets_[conns[k].id := k];
    }

    /** `remove_websocket`. */
    method RemoveWebsocket(id: nat)
      modifies this`websockets_
      ensures websockets_ == old(websockets_) - {id}
    {
      websockets_ := websockets_ - {id};
    }

    /** `close`, from its compare-and-swap to `server_cleanup_`, uninterrupted. */
    method Close(k: nat)
      requires Enabled(Value(), Call(k))
      modifies this
      ensures ValidRun(old(Value()), CloseRun(old(Value()), k))
      ensures Value() == Final(old(Value()), CloseRun(old(Value()), k))
    {
      CloseRunEffect(Value(), k);
      var n := |callers|;
      var c := conns[k];
      if !c.open {
        callers := callers + [Caller(k, Lost)];
        return;
      }
      ghost var before := conns;
      conns := conns[k := conns[k].(open := false, winner := Some(n))];
      conns := conns[k := conns[k].(socketClosed := true, shutdowns := conns[k].shutdowns + 1)];
      conns := conns[k := conns[k].(notifications := conns[k].notifications + 1)];
      conns := conns[k := conns[k].(cleanups := conns[k].cleanups + 1)];
      RemoveWebsocket(c.id);
      callers := callers + [Caller(k, Finished)];
      assert conns == before[k := ClosedBy(c, n)];
    }

    /**
      `close_websockets`, with nothing else running: a run of the state machine after which every
      connection of the snapshot is closed, and only those that some other caller had already
      closed are still registered.
     */
    method CloseWebsockets()
      requires Sound(Value())
      modifies this
      ensures exists run :: ValidRun(old(Value()), run) && Value() == Final(old(Value()), run)
      ensures Sound(Value()) && |conns| == old(|conns|)
      ensures forall k :: k in old(Snapshot(Value())) ==> k < |conns| && !conns[k].open
      ensures forall id :: id in websockets_ <==> id in old(websockets_) && !old(conns)[old(websockets_)[id]].open
    {
      hide Sound, ValidRun, Final, Enabled;
      ghost var s := Value();
      ghost var run: seq<Action> := [];
      NoRun(s);
      SnapshotIsRegistered(s);
      var to_close := websockets_.Values;
      while to_close != {}
        invariant Sound(Value()) && ClosingDown(s, Value(), to_close)
        invariant ValidRun(s, run) && Value() == Final(s, run)
      {
        var k :| k in to_close;
        ghost var before := Value();
        ClosingStep(s, before, to_close, k);
        Close(k);
        RunKeeps(before, CloseRun(before, k));
        RunAppend(s, run, CloseRun(before, k));
        run := run + CloseRun(before, k);
        to_close := to_close - {k};
      }
    }
  }
}
