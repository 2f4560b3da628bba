/** Numbers below 256 and the octets that hold them. */
module Octets {
  lemma Fits(n: int)
    requires 0 <= n < 256
    ensures (n as bv8) as int == n
  {
  }
}

/** Octets, big-endian numbers and concatenation: the vocabulary every wire format below is written in. */
module Bytes {
  import Octets

  type byte = bv8
  type bytes = seq<byte>

  datatype Option<+T> = None | Some(value: T)

  const U64_LIMIT: nat := 0x1_0000_0000_0000_0000

  function Min(a: nat, b: nat): nat {
    if a < b then a else b
  }

  // ---------- Big-endian numbers ----------

  /** 256 to the power k. */
  function Pow256(k: nat): (p: nat)
    ensures p > 0
  {
    if k == 0 then 1 else 256 * Pow256(k - 1)
  }

  /** A number below 256 as an octet. */
  function Octet(n: nat): (b: byte)
    requires n < 256
    ensures b as int == n
  {
    Octets.Fits(n);
    n as byte
  }

  lemma OctetValue(b: byte)
    ensures b as nat < 256 && Octet(b as nat) == b
  {
  }

  /** The k low-order octets of n, most significant first. */
  function BigEndian(n: nat, k: nat): (s: bytes)
    ensures |s| == k
  {
    if k == 0 then [] else BigEndian(n / 256, k - 1) + [Octet(n % 256)]
  }

  /** The number an octet string spells, most significant octet first. */
  function FromBigEndian(s: bytes): nat {
    if s == [] then 0 else FromBigEndian(s[..|s| - 1]) * 256 + s[|s| - 1] as nat
  }

  /** n shifted right by i octets. */
  function ShiftRight(n: nat, i: nat): nat {
    if i == 0 then n else ShiftRight(n, i - 1) / 256
  }

  lemma LastOctet(a: nat, lo: nat, n: nat)
    requires n == 256 * a + lo
    ensures n % 256 == lo % 256 && n / 256 == a + lo / 256
  {
  }

  lemma LowDigit(n: nat)
    ensures n / 256 * 256 + n % 256 == n
  {
  }

  lemma {:induction false} BigEndianDecodes(n: nat, k: nat)
    requires n < Pow256(k)
    ensures FromBigEndian(BigEndian(n, k)) == n
  {
    hide Octet;
    if k > 0 {
      BigEndianDecodes(n / 256, k - 1);
      FromBigEndianSnoc(BigEndian(n / 256, k - 1), Octet(n % 256));
      LowDigit(n);
    }
  }

  lemma {:induction false} FromBigEndianEncodes(s: bytes)
    ensures FromBigEndian(s) < Pow256(|s|)
    ensures BigEndian(FromBigEndian(s), |s|) == s
  {
    hide Octet;
    if s != [] {
      FromBigEndianEncodes(s[..|s| - 1]);
      OctetValue(s[|s| - 1]);
      BigEndianLast(s[..|s| - 1], FromBigEndian(s[..|s| - 1]), s[|s| - 1] as nat);
      assert s == s[..|s| - 1] + [s[|s| - 1]];
    }
  }

  lemma BigEndianLast(front: bytes, n: nat, v: nat)
    requires BigEndian(n, |front|) == front && n < Pow256(|front|) && v < 256
    ensures BigEndian(n * 256 + v, |front| + 1) == front + [Octet(v)]
    ensures n * 256 + v < Pow256(|front| + 1)
  {
    hide Octet, BigEndian, Pow256;
    LastOctet(n, v, n * 256 + v);
    BigEndianStep(n * 256 + v, |front|);
    Pow256Step(|front|);
  }

  lemma BigEndianStep(n: nat, k: nat)
    ensures BigEndian(n, k + 1) == BigEndian(n / 256, k) + [Octet(n % 256)]
  {
    hide Octet;
  }

  lemma Pow256Step(k: nat)
    ensures Pow256(k + 1) == 256 * Pow256(k)
  {
  }

  lemma FromBigEndianSnoc(s: bytes, b: byte)
    ensures FromBigEndian(s + [b]) == FromBigEndian(s) * 256 + b as nat
  {
    assert (s + [b])[..|s|] == s;
  }

  lemma TwoOctetValue(a: byte, b: byte)
    ensures FromBigEndian([a, b]) == a as nat * 256 + b as nat
  {
    FromBigEndianSnoc([], a);
    FromBigEndianSnoc([a], b);
    assert [] + [a] == [a] && [a] + [b] == [a, b];
  }

  /** The number eight octets spell, most significant first. */
  function EightOctets(s: bytes): nat
    requires |s| == 8
  {
    ((((((s[0] as nat * 256 + s[1] as nat) * 256 + s[2] as nat) * 256 + s[3] as nat) * 256
        + s[4] as nat) * 256 + s[5] as nat) * 256 + s[6] as nat) * 256 + s[7] as nat
  }

  lemma EightOctetValue(s: bytes)
    requires |s| == 8
    ensures FromBigEndian(s) == EightOctets(s)
  {
    hide FromBigEndian;
    TwoOctetValue(s[0], s[1]);
    assert s[..2] == [s[0], s[1]] && s[..8] == s;
    forall i | 2 <= i < 8 ensures FromBigEndian(s[..i + 1]) == FromBigEndian(s[..i]) * 256 + s[i] as nat {
      assert s[..i + 1] == s[..i] + [s[i]];
      FromBigEndianSnoc(s[..i], s[i]);
    }
    assert s[..3] == s[..2 + 1] && s[..4] == s[..3 + 1] && s[..5] == s[..4 + 1];
    assert s[..6] == s[..5 + 1] && s[..7] == s[..6 + 1] && s[..8] == s[..7 + 1];
  }

  lemma Pow256Values()
    ensures Pow256(2) == 0x1_0000
    ensures Pow256(8) == U64_LIMIT
  {
    assert Pow256(3) == 0x100_0000;
    assert Pow256(5) == 0x100_0000_0000;
    assert Pow256(7) == 0x100_0000_0000_0000;
  }

  /** Pushing the octets of n from the most significant down builds its big-endian form. */
  lemma BigEndianPush(n: nat, i: nat, k: nat)
    ensures BigEndian(ShiftRight(n, i), k + 1) == BigEndian(ShiftRight(n, i + 1), k) + [Octet(ShiftRight(n, i) % 256)]
  {
    hide Octet;
  }

  /** The octets of a high part are written before those of a low part. */
  lemma {:induction false} BigEndianJoin(hi: nat, lo: nat, j: nat, k: nat, n: nat)
    requires lo < Pow256(k) && n == hi * Pow256(k) + lo
    ensures BigEndian(n, j + k) == BigEndian(hi, j) + BigEndian(lo, k)
  {
    hide Octet;
    if k == 0 {
      assert BigEndian(hi, j) + [] == BigEndian(hi, j);
    } else {
      var p := Pow256(k - 1);
      assert hi * (256 * p) == 256 * (hi * p);
      LastOctet(hi * p, lo, n);
      BigEndianJoin(hi, lo / 256, j, k - 1, n / 256);
    }
  }

  /** Two halves of an octet string spell its number. */
  lemma {:induction false} FromBigEndianJoin(a: bytes, b: bytes)
    ensures FromBigEndian(a + b) == FromBigEndian(a) * Pow256(|b|) + FromBigEndian(b)
  {
    hide FromBigEndian, Pow256;
    if b == [] {
      assert a + b == a;
      FromBigEndianNone();
    } else {
      var front, last := b[..|b| - 1], b[|b| - 1];
      FromBigEndianJoin(a, front);
      assert a + b == (a + front) + [last] && b == front + [last];
      FromBigEndianSnoc(a + front, last);
      FromBigEndianSnoc(front, last);
      Pow256Step(|front|);
      OneOctetMore(FromBigEndian(a), Pow256(|front|), FromBigEndian(front), last as nat);
    }
  }

  lemma OneOctetMore(n: nat, p: nat, m: nat, v: nat)
    ensures (n * p + m) * 256 + v == n * (256 * p) + (m * 256 + v)
  {
    assert 256 * (n * p) == n * (256 * p);
  }

  lemma FromBigEndianNone()
    ensures FromBigEndian([]) == 0 && Pow256(0) == 1
  {
  }

  // ---------- Concatenation ----------

  function Concat<T>(parts: seq<seq<T>>): seq<T> {
    if parts == [] then [] else parts[0] + Concat(parts[1..])
  }

  lemma {:induction false} ConcatAppend<T>(a: seq<seq<T>>, b: seq<seq<T>>)
    ensures Concat(a + b) == Concat(a) + Concat(b)
  {
    if a == [] {
      assert a + b == b;
    } else {
      var ab := a + b;
      assert ab[0] == a[0] && ab[1..] == a[1..] + b;
      ConcatAppend(a[1..], b);
      assert a[0] + (Concat(a[1..]) + Concat(b)) == (a[0] + Concat(a[1..])) + Concat(b);
    }
  }

  lemma ConcatHead<T>(parts: seq<seq<T>>)
    requires parts != []
    ensures Concat(parts) == parts[0] + Concat(parts[1..])
    ensures |parts| == 1 ==> Concat(parts) == parts[0]
  {
  }

  lemma ConcatSnoc<T>(a: seq<seq<T>>, x: seq<T>)
    ensures Concat(a + [x]) == Concat(a) + x
  {
    ConcatAppend(a, [x]);
    assert Concat([x]) == x + Concat<T>([]) == x;
  }

  /** Dropping a prefix in two steps drops it in one. */
  lemma DropDrop<T>(s: seq<T>, i: nat, j: nat)
    requires i + j <= |s|
    ensures s[i..][j..] == s[i + j..]
  {
  }

  lemma TakeTake<T>(s: seq<T>, i: nat, j: nat)
    requires i <= j <= |s|
    ensures s[..i] + s[i..j] == s[..j]
  {
  }

  /** Dropping past two elements put in front. */
  lemma DropPast<T>(a: T, b: T, s: seq<T>, i: nat)
    requires i <= |s|
    ensures ([a, b] + s)[2 + i..] == s[i..]
  {
  }

  lemma PrefixSlice<T>(r: seq<T>, s: seq<T>, i: nat, j: nat)
    requires r <= s && i <= j <= |r|
    ensures r[i..j] == s[i..j]
  {
  }

  /** The text of a string literal as octets. */
  function Ascii(s: string): (b: bytes)
    ensures |b| == |s|
  {
    seq(|s|, i requires 0 <= i < |s| => Octet(s[i] as nat % 256))
  }

  /** ASCII text keeps its codes. */
  lemma AsciiCodes(s: string)
    ensures forall i :: 0 <= i < |s| && s[i] as int < 128 ==> Ascii(s)[i] as int == s[i] as int
  {
  }
}
