/**
  The buffered frame parser of the JavaScript client (www/test_fin.js): `parseFrames`, fed chunk by
  chunk, and `buildFrame`.
 */
module IncrementalParsing {
  import opened Bytes
  import opened Frames
  import opened FrameReader
  import opened FrameCodec
  import opened ClientFrames

  // ---------- One frame ----------

  datatype JsParse = NeedMore | MaskedFrame | JsFrame(frame: InFrame, consumed: nat)

  /** One iteration of `parseFrames` on the buffer rx. */
  function ParseOne(rx: bytes): (r: JsParse)
    ensures r.JsFrame? ==> 2 <= r.consumed <= |rx|
  {
    if |rx| < 2 then NeedMore else
    var offset := 2 + ExtensionSize(rx[1]);
    if |rx| < offset then NeedMore
    else if IsMasked(rx[1]) then MaskedFrame
    else
      var len := AnnouncedLength(rx);
      if |rx| < offset + len then NeedMore
      else JsFrame(InFrame(rx[0] & 0x0F, rx[0] & 0x80 != 0, rx[offset..offset + len]), offset + len)
  }

  /** A frame that has arrived is parsed the same whatever follows it. */
  lemma FrameIsLocal(a: bytes, s: bytes)
    requires a <= s && |a| >= 2 && |a| >= 2 + ExtensionSize(a[1])
    ensures IsMasked(a[1]) ==> ParseOne(a) == ParseOne(s) == MaskedFrame
    ensures !IsMasked(a[1]) ==>
              && AnnouncedLength(a) == AnnouncedLength(s)
              && (|a| >= 2 + ExtensionSize(a[1]) + AnnouncedLength(a) ==> ParseOne(a) == ParseOne(s))
  {
    hide AnnouncedLength, IsMasked, ExtensionSize;
    var e := ExtensionSize(a[1]);
    if !IsMasked(a[1]) {
      HeaderIsLocal(a, s);
      var n := AnnouncedLength(a);
      if |a| >= 2 + e + n {
        PrefixSlice(a, s, 2 + e, 2 + e + n);
      }
    }
  }

  /** Once an iteration gets past waiting, octets that arrive later do not change it. */
  lemma ParseOneIsLocal(a: bytes, b: bytes)
    requires !ParseOne(a).NeedMore?
    ensures ParseOne(a + b) == ParseOne(a)
  {
    hide AnnouncedLength, IsMasked, ExtensionSize;
    FrameIsLocal(a, a + b);
  }

  // ---------- The loop ----------

  datatype Stop = Starved | SawClose | SawMasked

  /** The frames a call of `parseFrames` emits, what it leaves in the buffer, and why it returned. */
  datatype Pass = Pass(frames: seq<InFrame>, rest: bytes, stop: Stop)

  function ParseLoop(rx: bytes): (p: Pass)
    ensures |p.rest| <= |rx|
    decreases |rx|
  {
    match ParseOne(rx)
    case NeedMore => Pass([], rx, Starved)
    case MaskedFrame => Pass([], rx, SawMasked)
    case JsFrame(f, n) =>
      if f.opcode == WS_CLOSE then Pass([f], rx[n..], SawClose)
      else
        var p := ParseLoop(rx[n..]);
        p.(frames := [f] + p.frames)
  }

  /** The same without the return after a Close: everything the octets hold. */
  function Drain(rx: bytes): (p: Pass)
    ensures !p.stop.SawClose?
    decreases |rx|
  {
    match ParseOne(rx)
    case NeedMore => Pass([], rx, Starved)
    case MaskedFrame => Pass([], rx, SawMasked)
    case JsFrame(f, n) =>
      var p := Drain(rx[n..]);
      p.(frames := [f] + p.frames)
  }

  /** Draining a longer stream continues where draining its front stopped. */
  lemma {:induction false} DrainContinues(a: bytes, b: bytes)
    ensures var p, q := Drain(a), Drain(a + b);
            if p.stop.SawMasked? then q == Pass(p.frames, p.rest + b, SawMasked)
            else var r := Drain(p.rest + b); q == Pass(p.frames + r.frames, r.rest, r.stop)
    decreases |a|
  {
    hide ParseOne;
    if !ParseOne(a).NeedMore? {
      ParseOneIsLocal(a, b);
    }
    match ParseOne(a)
    case NeedMore =>
      assert Drain(a).frames + Drain(a + b).frames == Drain(a + b).frames;
    case MaskedFrame =>
    case JsFrame(f, n) =>
      assert (a + b)[n..] == a[n..] + b;
      DrainContinues(a[n..], b);
      assert [f] + (Drain(a[n..]).frames + Drain(Drain(a).rest + b).frames)
          == Drain(a).frames + Drain(Drain(a).rest + b).frames;
  }

  /** What is left by a drain holds no further complete frame. */
  lemma {:induction false} DrainIsExhaustive(a: bytes)
    ensures Drain(Drain(a).rest) == Pass([], Drain(a).rest, Drain(a).stop)
    decreases |a|
  {
    hide ParseOne;
    match ParseOne(a)
    case NeedMore =>
    case MaskedFrame =>
    case JsFrame(f, n) => DrainIsExhaustive(a[n..]);
  }

  /** No complete frame follows a Close. */
  ghost predicate NoFrameAfterClose(s: bytes) {
    forall i :: 0 <= i < |Drain(s).frames| - 1 ==> Drain(s).frames[i].opcode != WS_CLOSE
  }

  lemma LoopUnfold(rx: bytes)
    requires ParseOne(rx).JsFrame?
    ensures var f, n := ParseOne(rx).frame, ParseOne(rx).consumed;
            var p := ParseLoop(rx[n..]);
            ParseLoop(rx) == if f.opcode == WS_CLOSE then Pass([f], rx[n..], SawClose)
                             else Pass([f] + p.frames, p.rest, p.stop)
    ensures var f, n := ParseOne(rx).frame, ParseOne(rx).consumed;
            var q := Drain(rx[n..]);
            Drain(rx) == Pass([f] + q.frames, q.rest, q.stop)
  {
    hide ParseOne;
  }

  lemma LoopStops(rx: bytes)
    requires !ParseOne(rx).JsFrame?
    ensures ParseLoop(rx) == Drain(rx) == Pass([], rx, if ParseOne(rx).MaskedFrame? then SawMasked else Starved)
  {
    hide ParseOne;
  }

  /** Up to its first Close the loop finds what draining finds; it stops short only there. */
  lemma {:induction false} LoopIsFrontOfDrain(rx: bytes)
    ensures var p, q := ParseLoop(rx), Drain(rx);
            if p.stop.SawClose? then
              var d := Drain(p.rest); p.frames != [] && q == Pass(p.frames + d.frames, d.rest, d.stop)
            else p == q
    decreases |rx|
  {
    hide ParseOne, ParseLoop, Drain;
    if ParseOne(rx).JsFrame? {
      LoopUnfold(rx);
      var f, n := ParseOne(rx).frame, ParseOne(rx).consumed;
      if f.opcode != WS_CLOSE {
        LoopIsFrontOfDrain(rx[n..]);
        var p := ParseLoop(rx[n..]);
        assert [f] + (p.frames + Drain(p.rest).frames) == ([f] + p.frames) + Drain(p.rest).frames;
      }
    } else {
      LoopStops(rx);
    }
  }

  /** A pass emits no Close but the one it stops at. */
  lemma {:induction false} CloseComesLast(rx: bytes)
    ensures var p := ParseLoop(rx);
            forall i :: 0 <= i < |p.frames| ==>
              (p.frames[i].opcode == WS_CLOSE <==> p.stop.SawClose? && i == |p.frames| - 1)
    ensures ParseLoop(rx).stop.SawClose? ==> ParseLoop(rx).frames != []
    decreases |rx|
  {
    hide ParseOne, ParseLoop, Drain;
    if ParseOne(rx).JsFrame? {
      LoopUnfold(rx);
      var f, n := ParseOne(rx).frame, ParseOne(rx).consumed;
      if f.opcode != WS_CLOSE {
        CloseComesLast(rx[n..]);
      }
    } else {
      LoopStops(rx);
    }
  }

  /** The loop misses frames exactly when some follow a Close. */
  lemma LoopVersusDrain(rx: bytes)
    ensures NoFrameAfterClose(rx) <==> ParseLoop(rx).frames == Drain(rx).frames
    ensures !ParseLoop(rx).stop.SawClose? ==> ParseLoop(rx) == Drain(rx)
    ensures ParseLoop(rx).stop.SawClose? ==>
              var p := ParseLoop(rx);
              var d := Drain(p.rest); p.frames != [] && Drain(rx) == Pass(p.frames + d.frames, d.rest, d.stop)
  {
    hide ParseLoop, Drain;
    LoopIsFrontOfDrain(rx);
    CloseComesLast(rx);
    var p, q := ParseLoop(rx), Drain(rx);
    if p.stop.SawClose? && Drain(p.rest).frames != [] {
      var i := |p.frames| - 1;
      assert q.frames[i] == p.frames[i] && i < |q.frames| - 1;
    }
  }

  // ---------- Chunks ----------

  /** The buffer, what was emitted, and whether `sock.destroy()` ended the data events. */
  datatype JsState = JsState(rx: bytes, frames: seq<InFrame>, destroyed: bool)

  const FRESH := JsState([], [], false)

  /** The data handler: append the chunk, parse what is there. */
  function OnChunk(st: JsState, chunk: bytes): JsState {
    if st.destroyed then st else
    var p := ParseLoop(st.rx + chunk);
    JsState(p.rest, st.frames + p.frames, p.stop.SawMasked?)
  }

  function OnChunks(st: JsState, chunks: seq<bytes>): JsState
    decreases chunks
  {
    if chunks == [] then st else OnChunks(OnChunk(st, chunks[0]), chunks[1..])
  }

  /** The state after the octets p have been fed, in whatever chunks. */
  ghost predicate Synced(st: JsState, p: bytes) {
    && st.frames == Drain(p).frames
    && (!st.destroyed ==> st.rx == Drain(p).rest)
    && (st.destroyed ==> Drain(p).stop.SawMasked?)
  }

  lemma PrefixKeepsOrder(p: bytes, rest: bytes)
    requires NoFrameAfterClose(p + rest)
    ensures NoFrameAfterClose(p)
  {
    hide Drain;
    DrainContinues(p, rest);
    forall i | 0 <= i < |Drain(p).frames| - 1 ensures Drain(p).frames[i].opcode != WS_CLOSE {
      assert Drain(p + rest).frames[i] == Drain(p).frames[i];
    }
  }

  lemma ChunkStep(st: JsState, p: bytes, chunk: bytes)
    requires Synced(st, p) && NoFrameAfterClose(p + chunk)
    ensures Synced(OnChunk(st, chunk), p + chunk)
  {
    hide Drain, ParseLoop;
    DrainContinues(p, chunk);
    if !st.destroyed {
      var rx := st.rx + chunk;
      LoopVersusDrain(rx);
      DrainIsExhaustive(p);
      var l, q := ParseLoop(rx), Drain(rx);
      if Drain(p).stop.SawMasked? {
        DrainContinues(st.rx, chunk);
        assert q == Pass([], rx, SawMasked);
        assert l.frames == [] by { assert l.stop.SawClose? ==> |l.frames| > |q.frames| || l.frames == q.frames; }
        assert st.frames + [] == st.frames;
      } else {
        assert Drain(p + chunk).frames == Drain(p).frames + q.frames;
        LaterFramesInOrder(p, chunk, rx);
        if l.stop.SawClose? {
          assert q.frames == l.frames + Drain(l.rest).frames;
          assert Drain(l.rest).frames == [];
          EmptyDrainKeeps(l.rest);
        }
      }
    }
  }

  lemma EmptyDrainKeeps(a: bytes)
    requires Drain(a).frames == []
    ensures Drain(a).rest == a
  {
  }

  /** What follows the front of an orderly stream is orderly. */
  lemma LaterFramesInOrder(p: bytes, chunk: bytes, rx: bytes)
    requires NoFrameAfterClose(p + chunk)
    requires Drain(p + chunk).frames == Drain(p).frames + Drain(rx).frames
    ensures NoFrameAfterClose(rx)
  {
    hide Drain;
    var k := |Drain(p).frames|;
    forall i | 0 <= i < |Drain(rx).frames| - 1 ensures Drain(rx).frames[i].opcode != WS_CLOSE {
      assert Drain(p + chunk).frames[k + i] == Drain(rx).frames[i];
    }
  }

  lemma {:induction false} ChunksSynced(st: JsState, p: bytes, chunks: seq<bytes>)
    requires Synced(st, p) && NoFrameAfterClose(p + Concat(chunks))
    ensures Synced(OnChunks(st, chunks), p + Concat(chunks))
    decreases chunks
  {
    hide Synced, NoFrameAfterClose, OnChunk;
    if chunks == [] {
      assert p + Concat(chunks) == p;
    } else {
      var q := p + chunks[0];
      assert p + Concat(chunks) == q + Concat(chunks[1..]);
      PrefixKeepsOrder(q, Concat(chunks[1..]));
      ChunkStep(st, p, chunks[0]);
      ChunksSynced(OnChunk(st, chunks[0]), q, chunks[1..]);
    }
  }

  /** Every segmentation of an orderly stream emits what one pass over the whole emits. */
  lemma ChunkIndependent(s: bytes, chunks: seq<bytes>)
    requires Concat(chunks) == s && NoFrameAfterClose(s)
    ensures OnChunks(FRESH, chunks).frames == ParseLoop(s).frames
    ensures !Drain(s).stop.SawMasked? ==> OnChunks(FRESH, chunks).rx == ParseLoop(s).rest
  {
    hide OnChunks, ParseLoop, Concat;
    assert [] + s == s;
    ChunksSynced(FRESH, [], chunks);
    LoopVersusDrain(s);
    if ParseLoop(s).stop.SawClose? {
      assert Drain(ParseLoop(s).rest).frames == [];
      EmptyDrainKeeps(ParseLoop(s).rest);
    }
  }

  /** Splitting right after a Close makes the frames behind it visible. */
  lemma SplitAfterClose(s: bytes)
    requires !NoFrameAfterClose(s)
    ensures exists chunks :: Concat(chunks) == s && OnChunks(FRESH, chunks).frames != ParseLoop(s).frames
  {
    hide Drain, ParseLoop, NoFrameAfterClose;
    LoopVersusDrain(s);
    var p := ParseLoop(s);
    var k := |s| - |p.rest|;
    FrontOfLoop(s);
    RestIsSuffix(s);
    FirstFrames(p.rest);
    TwoChunks(s, k);
    var chunks := [s[..k], s[k..]];
    assert OnChunks(FRESH, chunks).frames == p.frames + ParseLoop(p.rest).frames;
    assert Concat(chunks) == s;
  }

  lemma TwoChunks(s: bytes, k: nat)
    requires k <= |s| && ParseLoop(s[..k]).rest == [] && !ParseLoop(s[..k]).stop.SawMasked?
    ensures Concat([s[..k], s[k..]]) == s
    ensures OnChunks(FRESH, [s[..k], s[k..]]).frames == ParseLoop(s[..k]).frames + ParseLoop(s[k..]).frames
  {
    hide ParseLoop;
    var chunks := [s[..k], s[k..]];
    assert chunks[1..] == [s[k..]] && chunks[1..][1..] == [];
    assert Concat(chunks[1..]) == s[k..] + Concat(chunks[1..][1..]);
    assert [] + s[..k] == s[..k] && [] + s[k..] == s[k..];
    var one := OnChunk(FRESH, s[..k]);
    assert one == JsState([], [] + ParseLoop(s[..k]).frames, false);
    assert OnChunks(one, chunks[1..]) == OnChunks(OnChunk(one, s[k..]), chunks[1..][1..]);
  }

  /** A pass finds a frame whenever there is one. */
  lemma FirstFrames(rx: bytes)
    ensures Drain(rx).frames != [] <==> ParseLoop(rx).frames != []
  {
    hide ParseOne;
  }

  /** Up to and including its first Close, the front of a stream parses to the same frames. */
  lemma {:induction false} FrontOfLoop(s: bytes)
    requires ParseLoop(s).stop.SawClose?
    ensures var p := ParseLoop(s);
            ParseLoop(s[..|s| - |p.rest|]) == Pass(p.frames, [], SawClose)
    decreases |s|
  {
    hide ParseOne, Drain, ParseLoop;
    SomeFrame(s);
    var f, n := ParseOne(s).frame, ParseOne(s).consumed;
    var p := ParseLoop(s);
    var k := |s| - |p.rest|;
    LoopUnfold(s);
    FrontOfOne(s, k);
    LoopUnfold(s[..k]);
    if f.opcode == WS_CLOSE {
      assert s[..k][n..] == [];
    } else {
      FrontOfLoop(s[n..]);
      assert s[n..][..k - n] == s[..k][n..];
    }
  }

  /** What a pass leaves in the buffer is the unread end of what it was given. */
  lemma {:induction false} RestIsSuffix(rx: bytes)
    ensures ParseLoop(rx).rest == rx[|rx| - |ParseLoop(rx).rest|..]
    decreases |rx|
  {
    hide ParseOne, ParseLoop, Drain;
    if ParseOne(rx).JsFrame? {
      LoopUnfold(rx);
      var n := ParseOne(rx).consumed;
      RestIsSuffix(rx[n..]);
      var k := |ParseLoop(rx[n..]).rest|;
      DropDrop(rx, n, |rx| - n - k);
    } else {
      LoopStops(rx);
    }
  }

  lemma SomeFrame(s: bytes)
    requires ParseLoop(s).stop.SawClose?
    ensures ParseOne(s).JsFrame? && ParseOne(s).consumed <= |s| - |ParseLoop(s).rest|
  {
    hide ParseOne;
  }

  lemma FrontOfOne(s: bytes, k: nat)
    requires ParseOne(s).JsFrame? && ParseOne(s).consumed <= k <= |s|
    ensures ParseOne(s[..k]) == ParseOne(s)
  {
    hide AnnouncedLength, IsMasked, ExtensionSize;
    FrameIsLocal(s[..k], s);
  }

  /**
    Chunk independence, exactly: all segmentations of a stream emit the same frames as one pass over
    the whole if and only if no complete frame follows a Close.
   */
  lemma ChunkIndependence(s: bytes)
    ensures (forall chunks :: Concat(chunks) == s ==> OnChunks(FRESH, chunks).frames == ParseLoop(s).frames)
            <==> NoFrameAfterClose(s)
  {
    hide OnChunks, ParseLoop, Concat, NoFrameAfterClose;
    if NoFrameAfterClose(s) {
      forall chunks | Concat(chunks) == s ensures OnChunks(FRESH, chunks).frames == ParseLoop(s).frames {
        ChunkIndependent(s, chunks);
      }
    } else {
      SplitAfterClose(s);
    }
  }

  /** A Close and a Pong behind it: arriving at once, the Pong is not seen; arriving apart, it is. */
  lemma PongBehindClose()
    ensures var s: bytes := [0x88, 0x00, 0x8A, 0x00];
            && !NoFrameAfterClose(s)
            && |OnChunks(FRESH, [s]).frames| == 1 && |OnChunks(FRESH, [s[..2], s[2..]]).frames| == 2
  {
    hide OnChunks, Drain, ParseLoop, ParseOne;
    var s: bytes := [0x88, 0x00, 0x8A, 0x00];
    var close, pong := InFrame(WS_CLOSE, true, []), InFrame(WS_PONG, true, []);
    assert s[..2] == [0x88, 0x00] && s[2..] == [0x8A, 0x00];
    EmptyFrame(s, close);
    EmptyFrame(s[..2], close);
    EmptyFrame(s[2..], pong);
    NothingToParse([]);
    LoopUnfold(s);
    LoopUnfold(s[..2]);
    LoopUnfold(s[2..]);
    LoopStops([]);
    assert s[..2][2..] == [] && s[2..][2..] == [];
    assert Drain(s).frames == [close, pong] && Drain(s).frames[0].opcode == WS_CLOSE;
    TwoChunks(s, 2);
    OneChunk(s);
  }

  /** An unmasked frame without payload at the front of the buffer. */
  lemma EmptyFrame(rx: bytes, f: InFrame)
    requires |rx| >= 2 && rx[1] == 0 && f == InFrame(rx[0] & 0x0F, rx[0] & 0x80 != 0, [])
    ensures ParseOne(rx) == JsFrame(f, 2)
  {
    assert ExtensionSize(0) == 0 && !IsMasked(0) && (0 as byte & 0x7F) as nat == 0;
    assert AnnouncedLength(rx) == 0 && rx[2..2] == [];
    assert ParseOne(rx).JsFrame? && ParseOne(rx).frame.payload == [];
  }

  lemma NothingToParse(rx: bytes)
    requires |rx| < 2
    ensures ParseOne(rx) == NeedMore
  {
  }

  lemma OneChunk(s: bytes)
    ensures OnChunks(FRESH, [s]).frames == ParseLoop(s).frames
  {
    hide ParseLoop;
    assert [s][1..] == [] && [] + s == s;
    assert OnChunks(OnChunk(FRESH, s), [s][1..]) == OnChunk(FRESH, s);
    assert [] + ParseLoop(s).frames == ParseLoop(s).frames;
  }

  // ---------- Against the frame writer ----------

  /** The parser reads an unmasked frame of the server's writer as written. */
  lemma ParsesServerFrames(f: WsFrame, rest: bytes)
    requires f.Encodable() && !f.mask
    ensures ParseOne(Encode(f) + rest) == JsFrame(ClientView(f), |Encode(f)|)
  {
    hide ExtensionSize, AnnouncedLength, HeaderKey, Encode, ApplyMask;
    DecodeEncode(f, rest);
    MaskBitParsed(Encode(f) + rest);
  }

  lemma MaskBitParsed(s: bytes)
    requires ParseFrame(s).Parsed?
    ensures ParseFrame(s).frame.mask == IsMasked(s[1])
  {
    hide IsMasked, ExtensionSize, AnnouncedLength, HeaderKey, ApplyMask;
  }

  /**
    On arbitrary octets the parser finds a frame exactly when the server's parser finds an unmasked one,
    and then both consume the same octets and see the same.
   */
  lemma ParserAgreement(rx: bytes)
    ensures ParseOne(rx).JsFrame? <==> ParseFrame(rx).Parsed? && !ParseFrame(rx).frame.mask
    ensures ParseOne(rx).JsFrame? ==>
              ParseOne(rx) == JsFrame(ClientView(ParseFrame(rx).frame), ParseFrame(rx).consumed)
  {
    hide ExtensionSize, AnnouncedLength, HeaderKey, ApplyMask;
  }

  /** A masked frame is refused as soon as its extended length is there. */
  lemma RefusesMasked(rx: bytes)
    ensures ParseOne(rx).MaskedFrame? <==>
              && |rx| >= 2 && rx[1] & 0x80 != 0
              && |rx| >= 2 + if rx[1] & 0x7F == 126 then 2 else if rx[1] & 0x7F == 127 then 8 else 0
  {
    hide AnnouncedLength;
  }

  /** A stream of the server's writer, with no Close but perhaps the last frame, is emitted frame by frame. */
  lemma {:induction false} ParsesServerStream(fs: seq<WsFrame>)
    requires forall f :: f in fs ==> f.Encodable() && !f.mask
    requires forall i :: 0 <= i < |fs| - 1 ==> fs[i].opcode != WS_CLOSE
    ensures |ParseLoop(EncodeAll(fs)).frames| == |fs| && ParseLoop(EncodeAll(fs)).rest == []
    ensures forall i :: 0 <= i < |fs| ==>
              ParseLoop(EncodeAll(fs)).frames[i] == InFrame(fs[i].opcode, fs[i].fin, fs[i].payload_data)
  {
    hide Encode, ParseOne, ParseLoop, Drain;
    if fs == [] {
      NothingToParse([]);
      LoopStops([]);
    } else {
      var s, rest := EncodeAll(fs), EncodeAll(fs[1..]);
      ParsesServerFrames(fs[0], rest);
      LoopUnfold(s);
      assert s[|Encode(fs[0])|..] == rest;
      if fs[0].opcode == WS_CLOSE {
        assert fs[1..] == [];
      } else {
        ParsesServerStream(fs[1..]);
      }
    }
  }

  /** `buildFrame`, for the four random octets it drew. */
  method BuildFrame(opcode: byte, fin: bool, p: bytes, maskKey: bytes) returns (out: bytes)
    requires |p| < U64_LIMIT && |maskKey| == 4
    ensures out == Encode(WsFrame(fin, false, false, false, opcode, true, KeyFromOctets(maskKey), p))
  {
    hide Encode, Byte1, ExtendedLength, KeyFromOctets, MaskWith;
    var b0: byte := (if fin then 0x80 else 0x00) | (opcode & 0x0F);
    var b1, ext := LengthPart(|p|);
    var masked := Mask(p, maskKey);
    out := [b0, b1] + ext + maskKey + masked;
    MaskedLayout(opcode, fin, p, maskKey);
  }

  /** The length part of `buildFrame`. */
  method LengthPart(len: nat) returns (b1: byte, ext: bytes)
    requires len < U64_LIMIT
    ensures b1 == Byte1(true, len) && ext == ExtendedLength(len)
  {
    hide Octet, BigEndian;
    b1, ext := 0x80, [];
    if len < 126 {
      b1 := b1 | Octet(len);
    } else if len <= 0xFFFF {
      b1 := b1 | Octet(126);
      ext := BigEndian(len, 2);
    } else {
      b1 := b1 | Octet(127);
      var hi, lo := len / 0x1_0000_0000, len % 0x1_0000_0000;
      ext := BigEndian(hi, 4) + BigEndian(lo, 4);
      HalvesOfEight(len);
    }
  }

  lemma MaskedLayout(opcode: byte, fin: bool, p: bytes, maskKey: bytes)
    requires |maskKey| == 4
    ensures Encode(WsFrame(fin, false, false, false, opcode, true, KeyFromOctets(maskKey), p))
            == [(if fin then 0x80 else 0x00) | (opcode & 0x0F), Byte1(true, |p|)]
               + ExtendedLength(|p|) + maskKey + MaskWith(maskKey, p)
  {
    hide KeyOctets, KeyFromOctets, Byte1, ExtendedLength, MaskWith;
    KeyOctetsRoundTrip(maskKey);
    var f := WsFrame(fin, false, false, false, opcode, true, KeyFromOctets(maskKey), p);
    assert Byte0(f) == (if fin then 0x80 else 0x00) | (opcode & 0x0F);
  }

  /** The masking loop of `buildFrame`. */
  method Mask(p: bytes, maskKey: bytes) returns (data: bytes)
    requires |maskKey| == 4
    ensures data == MaskWith(maskKey, p)
  {
    var masked := new byte[|p|](i => 0);
    for i := 0 to |p|
      invariant forall k :: 0 <= k < i ==> masked[k] == p[k] ^ maskKey[k % 4]
    {
      masked[i] := p[i] ^ maskKey[i % 4];
    }
    data := masked[..];
  }

  lemma HalvesOfEight(n: nat)
    ensures BigEndian(n, 8) == BigEndian(n / 0x1_0000_0000, 4) + BigEndian(n % 0x1_0000_0000, 4)
  {
    hide BigEndian;
    assert Pow256(2) == 0x1_0000 && Pow256(4) == 0x1_0000_0000;
    BigEndianJoin(n / 0x1_0000_0000, n % 0x1_0000_0000, 4, 4, n);
  }

  lemma TwoHalves(high: bytes, low: bytes)
    requires |high| == |low| == 4
    ensures FromBigEndian(high + low) == FromBigEndian(high) * 0x1_0000_0000 + FromBigEndian(low)
  {
    hide FromBigEndian;
    assert Pow256(2) == 0x1_0000 && Pow256(4) == 0x1_0000_0000;
    FromBigEndianJoin(high, low);
  }

  // ---------- The program's object ----------

  class FrameParser {
    var rx: bytes
    var frames: seq<InFrame>
    var destroyed: bool

    ghost function Value(): JsState
      reads this
    {
      JsState(rx, frames, destroyed)
    }

    constructor ()
      ensures Value() == FRESH
    {
      rx, frames, destroyed := [], [], false;
    }

    /** The length and payload offset of the frame in front, when enough octets are there. */
    method FrameLength() returns (ready: bool, len: nat, offset: nat)
      requires |rx| >= 2
      ensures offset == 2 + ExtensionSize(rx[1])
      ensures ready == (|rx| >= offset)
      ensures ready && !IsMasked(rx[1]) ==> len == AnnouncedLength(rx)
    {
      hide FromBigEndian;
      var b1 := rx[1];
      ready, len, offset := true, (b1 & 0x7F) as nat, 2;
      if b1 & 0x7F == 126 {
        if |rx| < offset + 2 { return false, 0, 4; }
        len := FromBigEndian(rx[offset..offset + 2]);
        offset := offset + 2;
      } else if b1 & 0x7F == 127 {
        if |rx| < offset + 8 { return false, 0, 10; }
        var hi := FromBigEndian(rx[offset..offset + 4]);
        var lo := FromBigEndian(rx[offset + 4..offset + 8]);
        TwoHalves(rx[offset..offset + 4], rx[offset + 4..offset + 8]);
        assert rx[offset..offset + 8] == rx[offset..offset + 4] + rx[offset + 4..offset + 8];
        offset := offset + 8;
        len := hi * 0x1_0000_0000 + lo;
      }
    }

    /** One iteration of `parseFrames`' loop; `more` tells whether it goes round again. */
    method ParseFrame() returns (more: bool)
      requires |rx| >= 2 && !destroyed
      modifies this
      ensures match ParseOne(old(rx))
              case NeedMore => !more && Value() == old(Value())
              case MaskedFrame => !more && Value() == old(Value()).(destroyed := true)
              case JsFrame(f, n) =>
                more == (f.opcode != WS_CLOSE) && Value() == JsState(old(rx)[n..], old(frames) + [f], false)
    {
      hide AnnouncedLength, ExtensionSize;
      var b0, b1 := rx[0], rx[1];
      var ready, len, offset := FrameLength();
      if !ready { return false; }
      if b1 & 0x80 != 0 {
        destroyed := true;
        return false;
      }
      if |rx| < offset + len { return false; }
      var payload := rx[offset..offset + len];
      rx := rx[offset + len..];
      frames := frames + [InFrame(b0 & 0x0F, b0 & 0x80 != 0, payload)];
      more := b0 & 0x0F != WS_CLOSE;
    }

    /** `parseFrames`. */
    method ParseFrames()
      requires !destroyed
      modifies this
      ensures var p := ParseLoop(old(rx));
              Value() == JsState(p.rest, old(frames) + p.frames, p.stop.SawMasked?)
    {
      hide ParseOne, ParseLoop, Drain;
      ghost var total := ParseLoop(rx);
      ghost var emitted: seq<InFrame> := [];
      assert frames == frames + [];
      while |rx| >= 2
        invariant !destroyed && frames == old(frames) + emitted
        invariant total == Pass(emitted + ParseLoop(rx).frames, ParseLoop(rx).rest, ParseLoop(rx).stop)
        decreases |rx|
      {
        ghost var before, one := rx, ParseOne(rx);
        var more := ParseFrame();
        if one.JsFrame? {
          LoopUnfold(before);
          emitted := emitted + [one.frame];
        } else {
          LoopStops(before);
          assert emitted + [] == emitted;
        }
        if !more { return; }
      }
      NothingToParse(rx);
      LoopStops(rx);
      assert emitted + [] == emitted;
    }

    /** The data handler after the upgrade.  A destroyed socket emits no more data events. */
    method OnData(chunk: bytes)
      modifies this
      ensures Value() == OnChunk(old(Value()), chunk)
    {
      if destroyed { return; }
      rx := rx + chunk;
      ParseFrames();
    }
  }
}
