/**
  The loops that move file contents: `sendfile_fast_path` and `write_file_response` (src/server.cpp).

  What the operating system answers, call by call, is a script; when the script runs out the
  coroutine is still suspended.
 */
module Transfer {
  import opened Bytes

  datatype Answer = Again | Error | Moved(n: nat)
  datatype Ending = Complete | GaveUp | Suspended | WriteCutShort

  /** Every answer asks to wait or moves at least one octet. */
  ghost predicate Patient(script: seq<Answer>) {
    forall a :: a in script ==> a.Again? || (a.Moved? && a.n > 0)
  }

  /** How much the answers allow: nothing from the first error or empty answer on. */
  function Budget(script: seq<Answer>): nat {
    if script == [] || script[0] == Error || script[0] == Moved(0) then 0
    else (if script[0].Moved? then script[0].n else 0) + Budget(script[1..])
  }

  /** How far the transfer gets from `sent` octets and the k-th answer on. */
  function Reach(size: nat, file: bytes, sent: nat, script: seq<Answer>, k: nat): nat
    requires k <= |script|
  {
    Min(size, Min(|file|, sent + Budget(script[k..])))
  }

  lemma ReachStep(size: nat, file: bytes, sent: nat, script: seq<Answer>, k: nat)
    requires sent < size && sent <= |file| && k < |script|
    ensures script[k] == Again ==> Reach(size, file, sent, script, k) == Reach(size, file, sent, script, k + 1)
    ensures script[k] == Error || script[k] == Moved(0) || sent == |file| ==> Reach(size, file, sent, script, k) == sent
    ensures script[k].Moved? && script[k].n > 0 ==>
              var n := Min(script[k].n, Min(size - sent, |file| - sent));
              Reach(size, file, sent, script, k) == Reach(size, file, sent + n, script, k + 1)
  {
    assert script[k..][1..] == script[k + 1..];
  }

  lemma ReachEnd(size: nat, file: bytes, sent: nat, script: seq<Answer>, k: nat)
    requires sent <= size && sent <= |file| && k <= |script|
    ensures sent == size || k == |script| ==> Reach(size, file, sent, script, k) == sent
    ensures Reach(size, file, 0, script, 0) == Min(size, Min(|file|, Budget(script)))
  {
    assert script[0..] == script;
  }

  /** An error, or an answer that moves nothing, allows nothing behind it. */
  lemma {:induction false} BudgetStops(a: seq<Answer>, stop: Answer, b: seq<Answer>)
    requires stop == Error || stop == Moved(0)
    ensures Budget(a + [stop] + b) == Budget(a)
  {
    if a != [] {
      assert (a + [stop] + b)[1..] == a[1..] + [stop] + b;
      BudgetStops(a[1..], stop, b);
    }
  }

  /** How many answers move something. */
  function Moves(script: seq<Answer>): nat {
    if script == [] then 0 else (if script[0].Moved? then 1 else 0) + Moves(script[1..])
  }

  /**
    `sendfile_fast_path`: the kernel moves between none and all of what is asked for and of what
    the file still holds, or asks to wait, or fails.  However often it asks to wait, as many answers
    that move something as there are octets complete the transfer.
   */
  method SendFile(file: bytes, size: nat, script: seq<Answer>) returns (wire: bytes, remaining: nat, ending: Ending)
    ensures |wire| + remaining == size && wire <= file && !ending.WriteCutShort?
    ensures |wire| == Min(size, Min(|file|, Budget(script)))
    ensures ending.Complete? <==> remaining == 0
    ensures Patient(script) && size <= Moves(script) && size <= |file| ==> ending.Complete? && wire == file[..size]
    ensures ending.GaveUp? ==> Error in script || Moved(0) in script || (|file| < size && wire == file)
    ensures ending.Suspended? ==> Patient(script)
  {
    hide Reach, Budget;
    wire, remaining, ending := [], size, Suspended;
    var k := 0;
    assert script[0..] == script;
    ReachEnd(size, file, 0, script, 0);
    while remaining > 0 && k < |script|
      invariant |wire| <= |file| && |wire| + remaining == size && wire == file[..|wire|] && k <= |script|
      invariant Reach(size, file, 0, script, 0) == Reach(size, file, |wire|, script, k)
      invariant Patient(script) && size <= |file| ==> Moves(script) <= |wire| + Moves(script[k..])
      invariant forall j :: 0 <= j < k ==> script[j].Again? || (script[j].Moved? && script[j].n > 0)
    {
      var answer := script[k];
      assert answer in script;
      assert script[k..][1..] == script[k + 1..];
      ReachStep(size, file, |wire|, script, k);
      k := k + 1;
      if answer.Again? { continue; }
      if answer.Error? { return wire, remaining, GaveUp; }
      var sent := Min(answer.n, Min(remaining, |file| - |wire|));
      if sent == 0 {
        assert answer.n > 0 ==> file[..|wire|] == file;
        return wire, remaining, GaveUp;
      }
      assert file[..|wire| + sent] == file[..|wire|] + file[|wire|..|wire| + sent];
      wire := wire + file[|wire|..|wire| + sent];
      remaining := remaining - sent;
    }
    assert script[|script|..] == [];
    ReachEnd(size, file, |wire|, script, k);
    if remaining == 0 {
      ending := Complete;
    }
  }

  const CHUNK: nat := 64 * 1024

  /** One round of `write_file_response`: the file's answer, and how many octets the socket takes at most. */
  datatype Round = Round(read: Answer, taken: nat)

  /** Every read moves at least one octet and every write takes its whole chunk. */
  ghost predicate Flowing(script: seq<Round>) {
    forall r :: r in script ==> r.read.Moved? && r.read.n > 0 && r.taken >= CHUNK
  }

  /** How much a round reads with `remaining` octets to go; nothing when the read fails. */
  function ChunkRead(r: Round, remaining: nat): (n: nat)
    ensures n <= remaining && n <= CHUNK
  {
    if r.read.Moved? then Min(r.read.n, Min(remaining, CHUNK)) else 0
  }

  /** With `remaining` octets to go, some round that is reached reads more than the socket then takes. */
  predicate CutShort(remaining: nat, script: seq<Round>)
    decreases script
  {
    script != []
    && var n := ChunkRead(script[0], remaining);
       n > 0 && (script[0].taken < n || CutShort(remaining - n, script[1..]))
  }

  /**
    The loop of `write_file_response`: read up to 64 KiB, count it as done, write it.  The write takes
    the whole chunk or throws after a part of it.  What is sent and what remains add up to the file if
    and only if no write is cut short.
   */
  method WriteFile(file: bytes, script: seq<Round>) returns (wire: bytes, remaining: nat, ending: Ending)
    ensures wire <= file && |wire| + remaining <= |file|
    ensures |wire| + remaining == |file| <==> !CutShort(|file|, script)
    ensures ending.WriteCutShort? <==> CutShort(|file|, script)
    ensures ending.Complete? <==> wire == file
    ensures ending.Suspended? ==> forall r :: r in script ==> r.read.Moved? && r.read.n > 0
    ensures ending.GaveUp? ==> exists r :: r in script && (!r.read.Moved? || r.read.n == 0)
    ensures Flowing(script) && |file| <= |script| ==> ending.Complete?
  {
    hide CutShort;
    wire, remaining, ending := [], |file|, Suspended;
    var buf := new byte[CHUNK](i => 0);
    var k := 0;
    assert script[0..] == script;
    while remaining > 0 && k < |script|
      invariant |wire| + remaining == |file| && wire == file[..|wire|] && k <= |script|
      invariant Flowing(script) ==> k <= |wire|
      invariant CutShort(|file|, script) == CutShort(remaining, script[k..])
      invariant forall j :: 0 <= j < k ==> script[j].read.Moved? && script[j].read.n > 0
    {
      var to_read := Min(remaining, buf.Length);
      var answer, taken := script[k].read, script[k].taken;
      assert script[k] in script;
      CutShortStep(remaining, script, k);
      k := k + 1;
      if !answer.Moved? { return wire, remaining, GaveUp; }
      var n := Min(answer.n, to_read);
      if n == 0 { return wire, remaining, GaveUp; }
      ReadChunk(file, |wire|, n, buf);
      remaining := remaining - n;
      if taken < n {
        FrontOfChunk(file, wire, n, taken);
        return wire + buf[..n][..taken], remaining, WriteCutShort;
      }
      FrontOfChunk(file, wire, n, n);
      wire := wire + buf[..n];
    }
    NoRoundLeft(remaining, script[k..]);
    if remaining == 0 {
      ending := Complete;
    }
  }

  lemma CutShortStep(remaining: nat, script: seq<Round>, k: nat)
    requires k < |script|
    ensures var n := ChunkRead(script[k], remaining);
            CutShort(remaining, script[k..])
            == (n > 0 && (script[k].taken < n || CutShort(remaining - n, script[k + 1..])))
  {
    hide ChunkRead;
    assert script[k..][1..] == script[k + 1..];
  }

  lemma NoRoundLeft(remaining: nat, script: seq<Round>)
    ensures remaining == 0 || script == [] ==> !CutShort(remaining, script)
  {
  }

  /** `async_read_some` of the file: n octets land at the front of the buffer. */
  method ReadChunk(file: bytes, at: nat, n: nat, buf: array<byte>)
    requires at + n <= |file| && n <= buf.Length
    modifies buf
    ensures buf[..n] == file[at..at + n]
  {
    forall i | 0 <= i < n {
      buf[i] := file[at + i];
    }
  }

  lemma FrontOfChunk(file: bytes, wire: bytes, n: nat, taken: nat)
    requires wire <= file && |wire| + n <= |file| && taken <= n
    ensures wire + file[|wire|..|wire| + n][..taken] == file[..|wire| + taken]
    ensures file[|wire|..|wire| + n][..n] == file[|wire|..|wire| + n]
  {
  }

  /** A round reads at most 65536 octets, what remains, and what the file gives. */
  lemma ChunkForm(n: nat, taken: nat, remaining: nat)
    ensures ChunkRead(Round(Moved(n), taken), remaining) == Min(n, Min(remaining, 65536))
    ensures ChunkRead(Round(Error, taken), remaining) == ChunkRead(Round(Again, taken), remaining) == 0
  {
  }

  /** For every file but an empty one: an octet read, counted as done and not sent. */
  lemma CountedButNotSent(file: bytes)
    requires file != []
    ensures CutShort(|file|, [Round(Moved(1), 0)])
  {
  }
}
