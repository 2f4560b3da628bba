/**
  The two base64 encoders: the accumulator loop of include/http/utils.h and the group loop of
  src/websocket_client.cpp, against section 4 of RFC 4648.
 */
module Base64 {
  import opened Bytes

  const UPPER: string := "ABCDEFGHIJKLMNOPQRSTUVWXYZ"
  const LOWER: string := "abcdefghijklmnopqrstuvwxyz"
  const DIGITS: string := "0123456789"
  const TABLE: string := UPPER + LOWER + DIGITS + "+/"

  /** The character of a 6-bit value. */
  function Letter(v: byte): (c: char)
    requires v < 64
  {
    TABLE[v as nat]
  }

  /** The 6-bit value of a character of the alphabet. */
  function Value(c: char): Option<byte> {
    if 'A' <= c <= 'Z' then Some(Octet(c as int - 65))
    else if 'a' <= c <= 'z' then Some(Octet(c as int - 71))
    else if '0' <= c <= '9' then Some(Octet(c as int + 4))
    else if c == '+' then Some(62)
    else if c == '/' then Some(63)
    else None
  }

  // ---------- The standard ----------

  function First(a: byte): (v: byte)
    ensures v < 64
  {
    a >> 2
  }

  function Second(a: byte, b: byte): (v: byte)
    ensures v < 64
  {
    ((a & 3) << 4) | (b >> 4)
  }

  function Third(b: byte, c: byte): (v: byte)
    ensures v < 64
  {
    ((b & 0xF) << 2) | (c >> 6)
  }

  function Fourth(c: byte): (v: byte)
    ensures v < 64
  {
    c & 0x3F
  }

  function Group(a: byte, b: byte, c: byte): string {
    [Letter(First(a)), Letter(Second(a, b)), Letter(Third(b, c)), Letter(Fourth(c))]
  }

  /** Base64 by groups of three octets, with padding. */
  function Encode(s: bytes): string {
    if s == [] then ""
    else if |s| == 1 then [Letter(First(s[0])), Letter(Second(s[0], 0)), '=', '=']
    else if |s| == 2 then [Letter(First(s[0])), Letter(Second(s[0], s[1])), Letter(Third(s[1], 0)), '=']
    else Group(s[0], s[1], s[2]) + Encode(s[3..])
  }

  function DecodeGroup(t: string): Option<bytes>
    requires |t| == 4
  {
    match (Value(t[0]), Value(t[1]), Value(t[2]), Value(t[3]))
    case (Some(p), Some(q), Some(r), Some(u)) => Some([(p << 2) | (q >> 4), (q << 4) | (r >> 2), (r << 6) | u])
    case (Some(p), Some(q), Some(r), None) =>
      if t[3] == '=' then Some([(p << 2) | (q >> 4), (q << 4) | (r >> 2)]) else None
    case (Some(p), Some(q), None, None) => if t[2..] == "==" then Some([(p << 2) | (q >> 4)]) else None
    case _ => None
  }

  function Decode(t: string): Option<bytes> {
    if t == "" then Some([])
    else if |t| < 4 then None
    else
      match (DecodeGroup(t[..4]), Decode(t[4..]))
      case (Some(x), Some(y)) => if |x| < 3 && y != [] then None else Some(x + y)
      case _ => None
  }

  lemma LetterValue(v: byte)
    requires v < 64
    ensures Value(Letter(v)) == Some(v)
    ensures Letter(v) != '='
  {
    hide Value, Octet;
    CodeOfByte(v);
    CodeOfChar(TABLE[v as nat], v as nat) by {
      TableAt(v as nat);
    }
  }

  lemma CodeOfChar(c: char, n: nat)
    requires n < 64
    requires c as int == if n < 26 then n + 65 else if n < 52 then n + 71 else if n < 62 then n - 4
                         else if n == 62 then 43 else 47
    ensures Value(c) == Some(Octet(n)) && c != '='
  {
    hide Octet;
    OctetValue(62);
    OctetValue(63);
  }

  lemma CodeOfByte(v: byte)
    requires v < 64
    ensures Octet(v as nat) == v && v as nat < 64
  {
  }

  /** The table, range by range. */
  lemma TableAt(n: nat)
    requires n < 64
    ensures TABLE[n] as int == if n < 26 then n + 65 else if n < 52 then n + 71 else if n < 62 then n - 4
                               else if n == 62 then 43 else 47
  {
    UpperCase();
    LowerCase();
    Digits();
  }

  lemma UpperCase()
    ensures forall n :: 0 <= n < 26 ==> UPPER[n] as int == n + 65
  {
  }

  lemma LowerCase()
    ensures forall n :: 0 <= n < 26 ==> LOWER[n] as int == n + 97
  {
  }

  lemma Digits()
    ensures forall n :: 0 <= n < 10 ==> DIGITS[n] as int == n + 48
  {
  }

  lemma GroupBits(a: byte, b: byte, c: byte)
    ensures (First(a) << 2) | (Second(a, b) >> 4) == a
    ensures (Second(a, b) << 4) | (Third(b, c) >> 2) == b
    ensures (Third(b, c) << 6) | Fourth(c) == c
  {
  }

  lemma GroupDecodes(a: byte, b: byte, c: byte)
    ensures DecodeGroup(Group(a, b, c)) == Some([a, b, c])
  {
    hide Letter, Value, First, Second, Third, Fourth;
    LetterValue(First(a));
    LetterValue(Second(a, b));
    LetterValue(Third(b, c));
    LetterValue(Fourth(c));
    GroupBits(a, b, c);
  }

  lemma PaddedDecodes(a: byte, b: byte)
    ensures DecodeGroup([Letter(First(a)), Letter(Second(a, 0)), '=', '=']) == Some([a])
    ensures DecodeGroup([Letter(First(a)), Letter(Second(a, b)), Letter(Third(b, 0)), '=']) == Some([a, b])
  {
    hide Letter, First, Second, Third, Fourth;
    LetterValue(First(a));
    LetterValue(Second(a, 0));
    LetterValue(Second(a, b));
    LetterValue(Third(b, 0));
    GroupBits(a, 0, 0);
    GroupBits(a, b, 0);
    assert [Letter(First(a)), Letter(Second(a, 0)), '=', '='][2..] == "==";
  }

  /** Decoding inverts encoding, for every input. */
  lemma {:induction false} DecodeEncode(s: bytes)
    ensures Decode(Encode(s)) == Some(s)
  {
    hide Letter, First, Second, Third, Fourth, DecodeGroup, Group;
    var t := Encode(s);
    if |s| == 1 {
      PaddedDecodes(s[0], 0);
      assert t[..4] == t && t[4..] == "";
      assert s == [s[0]] == [s[0]] + [];
    } else if |s| == 2 {
      PaddedDecodes(s[0], s[1]);
      assert t[..4] == t && t[4..] == "";
      assert s == [s[0], s[1]] == [s[0], s[1]] + [];
    } else if |s| >= 3 {
      GroupLength(s[0], s[1], s[2]);
      GroupDecodes(s[0], s[1], s[2]);
      DecodeEncode(s[3..]);
      assert t[..4] == Group(s[0], s[1], s[2]) && t[4..] == Encode(s[3..]);
      assert s == [s[0], s[1], s[2]] + s[3..];
    }
  }

  lemma GroupLength(a: byte, b: byte, c: byte)
    ensures |Group(a, b, c)| == 4
  {
    hide Letter, First, Second, Third, Fourth;
  }

  lemma {:induction false} EncodeLength(s: bytes)
    ensures |Encode(s)| == 4 * ((|s| + 2) / 3)
  {
    hide Letter, First, Second, Third, Fourth, Group;
    if |s| >= 3 {
      GroupLength(s[0], s[1], s[2]);
      EncodeLength(s[3..]);
    }
  }

  /** Whole groups are encoded independently of what follows. */
  lemma {:induction false} EncodeAppend(a: bytes, b: bytes)
    requires |a| % 3 == 0
    ensures Encode(a + b) == Encode(a) + Encode(b)
  {
    hide Letter, First, Second, Third, Fourth, Group;
    if a == [] {
      assert a + b == b;
    } else {
      EncodeAppend(a[3..], b);
      assert (a + b)[3..] == a[3..] + b;
      assert (a + b)[0] == a[0] && (a + b)[1] == a[1] && (a + b)[2] == a[2];
      assert Group(a[0], a[1], a[2]) + (Encode(a[3..]) + Encode(b)) == Encode(a) + Encode(b);
    }
  }

  // ---------- The accumulator loop ----------

  /** `tbl[(val >> sh) & 0x3F]` for the 32-bit accumulator. */
  function Digit(val: bv32, sh: bv32): char
    requires sh < 32
  {
    Letter(((val >> sh) & 0x3F) as byte)
  }

  /** The accumulator after taking in an octet: the shift wraps at 32 bits. */
  function Shifted(val: bv32, b: byte): bv32 {
    (val << 8) | b as bv32
  }

  /** The 6-bit values that depend only on the newest octet. */
  lemma NewestBits(val: bv32, b: byte)
    ensures Shifted(val, b) & 0xFF == b as bv32
    ensures ((Shifted(val, b) >> 2) & 0x3F) as byte == First(b)
    ensures ((Shifted(val, b) >> 0) & 0x3F) as byte == Fourth(b)
  {
  }

  /** The 6-bit values that straddle two octets, whatever the upper bits of the accumulator hold. */
  lemma StraddlingBits(val: bv32, prev: byte, b: byte)
    requires val & 0xFF == prev as bv32
    ensures ((Shifted(val, b) >> 4) & 0x3F) as byte == Second(prev, b)
    ensures ((Shifted(val, b) >> 6) & 0x3F) as byte == Third(prev, b)
  {
  }

  /** The characters of the unfinished group after 0, 1 or 2 of its octets. */
  function Partial(g: bytes): string
    requires |g| < 3
  {
    if g == [] then ""
    else if |g| == 1 then [Letter(First(g[0]))]
    else [Letter(First(g[0])), Letter(Second(g[0], g[1]))]
  }

  /** The inner loop: reads off one digit, or two when a group is complete. */
  method EmitDigits(val: bv32, valb0: int, out0: string) returns (valb: int, out: string)
    requires valb0 == 2 || valb0 == 4 || valb0 == 6
    ensures valb == if valb0 == 6 then -6 else valb0 - 6
    ensures out == out0 + [Digit(val, valb0 as bv32)] + if valb0 == 6 then [Digit(val, 0)] else []
  {
    hide Digit;
    valb, out := valb0, out0;
    while valb >= 0
      invariant valb == valb0 || valb == valb0 - 6 || (valb0 == 6 && valb == -6)
      invariant valb == valb0 ==> out == out0
      invariant valb == valb0 - 6 ==> out == out0 + [Digit(val, valb0 as bv32)]
      invariant valb == -6 ==> out == out0 + [Digit(val, valb0 as bv32)] + [Digit(val, 0)]
    {
      out := out + [Digit(val, valb as bv32)];
      valb := valb - 6;
    }
  }

  /** One iteration of the outer loop, on the octet after g in an unfinished group. */
  method Absorb(val0: bv32, valb0: int, out0: string, b: byte, ghost g: bytes)
    returns (val: bv32, valb: int, out: string)
    requires |g| < 3 && valb0 == -6 + 2 * |g| && (g != [] ==> val0 & 0xFF == g[|g| - 1] as bv32)
    ensures val & 0xFF == b as bv32
    ensures valb == if |g| == 2 then -6 else -4 + 2 * |g|
    ensures |g| == 0 ==> out == out0 + [Letter(First(b))]
    ensures |g| == 1 ==> out == out0 + [Letter(Second(g[0], b))]
    ensures |g| == 2 ==> out == out0 + [Letter(Third(g[1], b))] + [Letter(Fourth(b))]
  {
    hide Letter, First, Second, Third, Fourth, Shifted, Digit;
    DigitsRead(val0, if g == [] then 0 else g[|g| - 1], b);
    val := Shifted(val0, b);
    valb := valb0 + 8;
    valb, out := EmitDigits(val, valb, out0);
  }

  /** The final `while (out.size() % 4)`. */
  method Pad(out0: string) returns (out: string)
    ensures out == out0 + match |out0| % 4 case 0 => "" case 1 => "===" case 2 => "==" case _ => "="
  {
    out := out0;
    while |out| % 4 != 0
      invariant |out0| % 4 == 0 ==> out == out0
      invariant |out0| % 4 == 1 ==> out == out0 || out == out0 + "=" || out == out0 + "==" || out == out0 + "==="
      invariant |out0| % 4 == 2 ==> out == out0 || out == out0 + "=" || out == out0 + "=="
      invariant |out0| % 4 == 3 ==> out == out0 || out == out0 + "="
      decreases (4 - |out| % 4) % 4
    {
      out := out + ['='];
    }
  }

  /** What follows the loops: the last digit and the padding. */
  method FinishGroup(val: bv32, valb: int, out0: string, ghost front: bytes, ghost g: bytes) returns (out: string)
    requires |front| % 3 == 0 && |g| < 3 && valb == -6 + 2 * |g|
    requires g != [] ==> val & 0xFF == g[|g| - 1] as bv32
    requires out0 == Encode(front) + Partial(g)
    ensures out == Encode(front + g)
  {
    hide Letter, First, Second, Third, Fourth, Encode, Shifted, Digit, Partial;
    out := out0;
    if valb > -6 {
      DigitsRead(val, g[|g| - 1], 0);
      out := out + [Digit(Shifted(val, 0), (valb + 8) as bv32)];
    }
    LengthsMod4(front, g);
    out := Pad(out);
    PaddedGroup(front, g);
  }

  lemma LengthsMod4(front: bytes, g: bytes)
    requires |front| % 3 == 0 && |g| < 3
    ensures |Encode(front) + Partial(g)| % 4 == |g|
  {
    hide Encode, Partial;
    EncodeLength(front);
    PartialLength(g);
  }

  /** What the last group adds to the text so far. */
  lemma PaddedGroup(front: bytes, g: bytes)
    requires |front| % 3 == 0 && |g| < 3
    ensures var text := Encode(front) + Partial(g);
            && (|g| == 0 ==> Encode(front + g) == text)
            && (|g| == 1 ==> Encode(front + g) == text + [Letter(Second(g[0], 0))] + "==")
            && (|g| == 2 ==> Encode(front + g) == text + [Letter(Third(g[1], 0))] + "=")
  {
    hide Letter, First, Second, Third, Fourth, Encode, Partial;
    EncodeAppend(front, g);
    LastGroup(g);
  }

  lemma PartialLength(g: bytes)
    requires |g| < 3
    ensures |Partial(g)| == |g|
  {
    hide Letter, First, Second;
  }

  lemma PartialGrows(g: bytes, b: byte)
    requires |g| < 2
    ensures Partial(g + [b]) == Partial(g) + [if g == [] then Letter(First(b)) else Letter(Second(g[0], b))]
  {
    hide Letter, First, Second;
  }

  /** `base64_encode` of include/http/utils.h. */
  method EncodeAccumulating(src: bytes) returns (out: string)
    ensures out == Encode(src)
  {
    hide Letter, First, Second, Third, Fourth, Encode, Shifted, Digit, Partial;
    out := "";
    var val: bv32 := 0;
    var valb := -6;
    ghost var done := 0;
    EncodeEmpty();
    for i := 0 to |src|
      invariant done == i - i % 3
      invariant valb == -6 + 2 * (i % 3)
      invariant i > 0 ==> val & 0xFF == src[i - 1] as bv32
      invariant out == Encode(src[..done]) + Partial(src[done..i])
    {
      ghost var g := src[done..i];
      val, valb, out := Absorb(val, valb, out, src[i], g);
      assert src[done..i + 1] == g + [src[i]];
      if i % 3 == 2 {
        GroupDone(src, done);
        done := i + 1;
      } else {
        PartialGrows(g, src[i]);
      }
    }
    assert src == src[..done] + src[done..|src|];
    out := FinishGroup(val, valb, out, src[..done], src[done..|src|]);
  }

  lemma EncodeEmpty()
    ensures Encode([]) == "" == Partial([])
  {
  }

  /** The digits read off after taking in octet b. */
  lemma DigitsRead(val: bv32, prev: byte, b: byte)
    ensures val & 0xFF == prev as bv32 ==>
              && Digit(Shifted(val, b), 4) == Letter(Second(prev, b))
              && Digit(Shifted(val, b), 6) == Letter(Third(prev, b))
    ensures Digit(Shifted(val, b), 2) == Letter(First(b)) && Digit(Shifted(val, b), 0) == Letter(Fourth(b))
    ensures Shifted(val, b) & 0xFF == b as bv32
  {
    hide Letter;
    NewestBits(val, b);
    if val & 0xFF == prev as bv32 {
      StraddlingBits(val, prev, b);
    }
  }

  lemma GroupDone(src: bytes, done: nat)
    requires done + 3 <= |src| && done % 3 == 0
    ensures Partial(src[done + 3..done + 3]) == ""
    ensures Encode(src[..done + 3]) == Encode(src[..done]) + Partial(src[done..done + 2])
              + [Letter(Third(src[done + 1], src[done + 2])), Letter(Fourth(src[done + 2]))]
  {
    hide Letter, First, Second, Third, Fourth;
    var g := src[done..done + 3];
    assert src[..done + 3] == src[..done] + g;
    EncodeAppend(src[..done], g);
    assert g[3..] == [];
    assert Encode(g) == Group(g[0], g[1], g[2]);
  }

  /** The last, incomplete group and its padding. */
  lemma LastGroup(g: bytes)
    requires |g| < 3
    ensures |g| == 1 ==> Encode(g) == Partial(g) + [Letter(Second(g[0], 0))] + "=="
    ensures |g| == 2 ==> Encode(g) == Partial(g) + [Letter(Third(g[1], 0))] + "="
    ensures |g| == 0 ==> Encode(g) == Partial(g) == ""
  {
    hide Letter, First, Second, Third, Fourth, Group, Encode, Partial;
    if |g| == 1 {
      OneLeft(g[0]);
      assert g == [g[0]];
    } else if |g| == 2 {
      TwoLeft(g[0], g[1]);
      assert g == [g[0], g[1]];
    } else {
      EncodeEmpty();
      assert g == [];
    }
  }

  lemma OneLeft(a: byte)
    ensures Encode([a]) == Partial([a]) + [Letter(Second(a, 0))] + "=="
  {
    hide Letter, First, Second, Third, Fourth, Group;
    assert Partial([a]) == [Letter(First(a))];
  }

  lemma TwoLeft(a: byte, b: byte)
    ensures Encode([a, b]) == Partial([a, b]) + [Letter(Third(b, 0))] + "="
  {
    hide Letter, First, Second, Third, Fourth, Group;
    assert Partial([a, b]) == [Letter(First(a)), Letter(Second(a, b))];
  }

  // ---------- The client's group loop ----------

  /** Zero octets up to the next multiple of three. */
  function ZeroPadded(s: bytes): bytes {
    if |s| % 3 == 0 then s else if |s| % 3 == 1 then s + [0, 0] else s + [0]
  }

  lemma ZeroPaddedShape(s: bytes)
    ensures |s| <= |ZeroPadded(s)| == (|s| + 2) / 3 * 3 && ZeroPadded(s)[..|s|] == s
    ensures forall i :: |s| <= i < |ZeroPadded(s)| ==> ZeroPadded(s)[i] == 0
    ensures forall i :: 0 <= i < |s| ==> ZeroPadded(s)[i] == s[i]
  {
  }

  /** The 24 bits the client gathers for one group. */
  function Gathered(a: byte, b: byte, c: byte): bv32 {
    (a as bv32 << 16) | (b as bv32 << 8) | c as bv32
  }

  lemma GatheredDigits(a: byte, b: byte, c: byte)
    ensures var v := Gathered(a, b, c);
            [Digit(v, 18), Digit(v, 12), Digit(v, 6), Digit(v, 0)] == Group(a, b, c)
  {
    hide Letter;
    GatheredBits(a, b, c);
  }

  lemma GatheredBits(a: byte, b: byte, c: byte)
    ensures var v := Gathered(a, b, c);
            && ((v >> 18) & 0x3F) as byte == First(a) && ((v >> 12) & 0x3F) as byte == Second(a, b)
            && ((v >> 6) & 0x3F) as byte == Third(b, c) && ((v >> 0) & 0x3F) as byte == Fourth(c)
  {
  }

  /** The operands of one group, evaluated left to right: the next octets, zero where there are none. */
  method Gather(data: bytes, at: nat) returns (i: nat, a: byte, b: byte, c: byte)
    requires at < |data| && at % 3 == 0
    ensures i == if at + 3 <= |data| then at + 3 else |data|
    ensures at + 3 <= |ZeroPadded(data)| && ZeroPadded(data)[at..at + 3] == [a, b, c]
  {
    hide ZeroPadded;
    ZeroPaddedShape(data);
    i := at;
    a, b, c := data[i], 0, 0;
    i := i + 1;
    if i < |data| {
      b := data[i];
      i := i + 1;
    }
    if i < |data| {
      c := data[i];
      i := i + 1;
    }
  }

  /** `WebSocketClient::base64_encode`. */
  method EncodeGrouped(data: bytes) returns (out: string)
    ensures out == Encode(ZeroPadded(data))
  {
    hide Letter, First, Second, Third, Fourth, Digit, Encode, Group, Gathered, ZeroPadded;
    ZeroPaddedShape(data);
    out := "";
    var i := 0;
    EncodeEmpty();
    ghost var done := 0;
    while i < |data|
      invariant i <= |data| && done == (i + 2) / 3 * 3
      invariant i == |data| || i % 3 == 0
      invariant done <= |ZeroPadded(data)| && out == Encode(ZeroPadded(data)[..done])
    {
      var a, b, c;
      i, a, b, c := Gather(data, i);
      var v := Gathered(a, b, c);
      GatheredDigits(a, b, c);
      NextGroup(ZeroPadded(data), done, a, b, c);
      ghost var before := out;
      out := out + [Digit(v, 18)];
      out := out + [Digit(v, 12)];
      out := out + [if i > |data| + 1 then '=' else Digit(v, 6)];
      out := out + [if i > |data| then '=' else Digit(v, 0)];
      assert out == before + [Digit(v, 18), Digit(v, 12), Digit(v, 6), Digit(v, 0)];
      done := done + 3;
    }
    assert ZeroPadded(data)[..done] == ZeroPadded(data);
  }

  lemma NextGroup(s: bytes, done: nat, a: byte, b: byte, c: byte)
    requires done % 3 == 0 && done + 3 <= |s| && s[done..done + 3] == [a, b, c]
    ensures Encode(s[..done + 3]) == Encode(s[..done]) + Group(a, b, c)
  {
    hide Letter, First, Second, Third, Fourth, Group;
    assert s[..done + 3] == s[..done] + [a, b, c];
    EncodeAppend(s[..done], [a, b, c]);
    assert [a, b, c][3..] == [];
    assert Encode([a, b, c]) == Group(a, b, c) + Encode([]);
  }

  /**
    The client's encoder never pads, so it produces base64 exactly when the length is a multiple
    of three.
   */
  lemma GroupedIsBase64Exactly(data: bytes)
    ensures Encode(ZeroPadded(data)) == Encode(data) <==> |data| % 3 == 0
  {
    hide Encode, Decode;
    DecodeEncode(ZeroPadded(data));
    DecodeEncode(data);
  }

  /** The sixteen-octet handshake key decodes to eighteen octets, the last two zero. */
  lemma HandshakeKeyIsNotSixteenOctets(key: bytes)
    requires |key| == 16
    ensures Decode(Encode(ZeroPadded(key))) == Some(key + [0, 0])
  {
    hide Encode, Decode;
    DecodeEncode(ZeroPadded(key));
  }

  // ---------- Characters, spelled out ----------

  /** The 24 bits of three octets, six at a time from the most significant. */
  lemma GroupSpelled(a: byte, b: byte, c: byte)
    ensures var v := (a as bv32 << 16) | (b as bv32 << 8) | c as bv32;
            && First(a) == ((v >> 18) & 0x3F) as byte && Second(a, b) == ((v >> 12) & 0x3F) as byte
            && Third(b, c) == ((v >> 6) & 0x3F) as byte && Fourth(c) == (v & 0x3F) as byte
  {
  }

  /** The alphabet of the standard: capitals, small letters, digits, '+' and '/'. */
  lemma Alphabet(v: byte)
    requires v < 64
    ensures var n, c := v as nat, Letter(v) as int;
            && (n < 26 ==> c == 65 + n) && (26 <= n < 52 ==> c == 97 + (n - 26))
            && (52 <= n < 62 ==> c == 48 + (n - 52)) && (n == 62 ==> c == 43) && (n == 63 ==> c == 47)
  {
    CodeOfByte(v);
    TableAt(v as nat);
  }

  /** The encoding group by group: four letters for three octets, with one or two '=' behind the last two or one. */
  lemma EncodeForm(s: bytes)
    ensures s == [] ==> Encode(s) == ""
    ensures |s| == 1 ==> Encode(s) == [Letter(First(s[0])), Letter(Second(s[0], 0)), '=', '=']
    ensures |s| == 2 ==> Encode(s) == [Letter(First(s[0])), Letter(Second(s[0], s[1])), Letter(Third(s[1], 0)), '=']
    ensures |s| >= 3 ==> Encode(s) == [Letter(First(s[0])), Letter(Second(s[0], s[1])), Letter(Third(s[1], s[2])),
                                       Letter(Fourth(s[2]))] + Encode(s[3..])
  {
    hide Letter, First, Second, Third, Fourth;
  }
}
