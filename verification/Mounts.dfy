/**
  Static mounts: `PrefixComparator` (include/server.h), `MountStatic` and the mount scan of
  `serve_static` (src/server.cpp).
 */
module Mounts {
  import opened Bytes

  /** `std::string::operator<`. */
  predicate LexLess(a: string, b: string) {
    b != "" && (a == "" || a[0] < b[0] || (a[0] == b[0] && LexLess(a[1..], b[1..])))
  }

  /** `PrefixComparator`: longer strings first, equally long ones in lexicographic order. */
  predicate Before(a: string, b: string) {
    if |a| != |b| then |a| > |b| else LexLess(a, b)
  }

  lemma {:induction false} LexTrichotomy(a: string, b: string)
    ensures !(LexLess(a, b) && LexLess(b, a))
    ensures a == b <==> !LexLess(a, b) && !LexLess(b, a)
  {
    if a != "" && b != "" {
      LexTrichotomy(a[1..], b[1..]);
      assert a == [a[0]] + a[1..] && b == [b[0]] + b[1..];
    }
  }

  lemma {:induction false} LexTransitive(a: string, b: string, c: string)
    requires LexLess(a, b) && LexLess(b, c)
    ensures LexLess(a, c)
  {
    if a != "" && a[0] == b[0] == c[0] {
      LexTransitive(a[1..], b[1..], c[1..]);
    }
  }

  /** The comparator is a strict total order on all strings. */
  lemma StrictTotalOrder(a: string, b: string, c: string)
    ensures !Before(a, a)
    ensures a != b ==> Before(a, b) != Before(b, a)
    ensures Before(a, b) && Before(b, c) ==> Before(a, c)
  {
    LexTrichotomy(a, a);
    LexTrichotomy(a, b);
    if LexLess(a, b) && LexLess(b, c) {
      LexTransitive(a, b, c);
    }
  }

  // ---------- The ordered map ----------

  datatype Mount = Mount(prefix: string, root: string)

  ghost predicate Ordered(ms: seq<Mount>) {
    forall i, j :: 0 <= i < j < |ms| ==> Before(ms[i].prefix, ms[j].prefix)
  }

  /** `emplace` into the ordered map: a key that is already there keeps its value. */
  function Emplace(ms: seq<Mount>, m: Mount): seq<Mount> {
    if ms == [] then [m]
    else if ms[0].prefix == m.prefix then ms
    else if Before(m.prefix, ms[0].prefix) then [m] + ms
    else [ms[0]] + Emplace(ms[1..], m)
  }

  lemma {:induction false} EmplaceKeeps(ms: seq<Mount>, m: Mount)
    requires Ordered(ms)
    ensures Ordered(Emplace(ms, m))
    ensures forall x :: x in Emplace(ms, m) <==> x in ms || (x == m && forall y :: y in ms ==> y.prefix != m.prefix)
  {
    if ms == [] {
    } else if ms[0].prefix == m.prefix {
    } else if Before(m.prefix, ms[0].prefix) {
      forall y | y in ms ensures Before(m.prefix, y.prefix) && y.prefix != m.prefix {
        StrictTotalOrder(m.prefix, ms[0].prefix, y.prefix);
        StrictTotalOrder(m.prefix, y.prefix, m.prefix);
      }
    } else {
      var tail := Emplace(ms[1..], m);
      EmplaceKeeps(ms[1..], m);
      StrictTotalOrder(ms[0].prefix, m.prefix, m.prefix);
      forall x | x in tail ensures Before(ms[0].prefix, x.prefix) {
      }
      assert forall y :: y in ms <==> y == ms[0] || y in ms[1..];
    }
  }

  lemma EmplaceBehind(ms: seq<Mount>, m: Mount)
    requires ms != [] && Before(ms[0].prefix, m.prefix)
    ensures Emplace(ms, m) == [ms[0]] + Emplace(ms[1..], m)
  {
    hide Before;
    StrictTotalOrder(m.prefix, m.prefix, m.prefix);
    StrictTotalOrder(ms[0].prefix, m.prefix, m.prefix);
  }

  lemma EmplaceHere(ms: seq<Mount>, m: Mount)
    requires ms != [] ==> !Before(ms[0].prefix, m.prefix)
    ensures Emplace(ms, m) == if ms != [] && ms[0].prefix == m.prefix then ms else [m] + ms
  {
    hide Before;
    if ms != [] {
      StrictTotalOrder(ms[0].prefix, m.prefix, m.prefix);
    }
  }

  /** The new entry goes behind the entries before it, unless its key is there. */
  lemma {:induction false} EmplaceAt(ms: seq<Mount>, i: nat, m: Mount)
    requires i <= |ms| && forall j :: 0 <= j < i ==> Before(ms[j].prefix, m.prefix)
    requires i < |ms| ==> !Before(ms[i].prefix, m.prefix)
    ensures Emplace(ms, m) == if i < |ms| && ms[i].prefix == m.prefix then ms else ms[..i] + [m] + ms[i..]
  {
    hide Before, Emplace;
    if i > 0 {
      var tail := ms[1..];
      EmplaceBehind(ms, m);
      EmplaceAt(tail, i - 1, m);
      assert ms[..i] == [ms[0]] + tail[..i - 1] && ms[i..] == tail[i - 1..];
      assert [ms[0]] + tail == ms;
    } else {
      EmplaceHere(ms, m);
      assert ms[..0] + [m] + ms[0..] == [m] + ms;
    }
  }

  /** Mounting one after the other. */
  function MountAll(requests: seq<Mount>): seq<Mount> {
    if requests == [] then [] else Emplace(MountAll(requests[..|requests| - 1]), requests[|requests| - 1])
  }

  lemma {:induction false} MountAllOrdered(requests: seq<Mount>)
    ensures Ordered(MountAll(requests))
    ensures (forall i, j :: 0 <= i < j < |requests| ==> requests[i].prefix != requests[j].prefix) ==>
              forall x :: x in MountAll(requests) <==> x in requests
  {
    if requests != [] {
      var k := |requests| - 1;
      MountAllOrdered(requests[..k]);
      EmplaceKeeps(MountAll(requests[..k]), requests[k]);
      assert requests == requests[..k] + [requests[k]];
    }
  }

  // ---------- The scan ----------

  /** The entry `serve_static` uses; an empty prefix counts as no mount. */
  function Chosen(ms: seq<Mount>, path: string): Option<Mount> {
    if ms == [] then None
    else if ms[0].prefix <= path then (if ms[0].prefix == "" then None else Some(ms[0]))
    else Chosen(ms[1..], path)
  }

  /** The longest non-empty mounted prefix of the path, unique among all that are mounted. */
  ghost predicate IsLongest(ms: seq<Mount>, path: string, m: Mount) {
    && m in ms && m.prefix <= path && m.prefix != ""
    && forall x :: x in ms && x.prefix <= path && x != m ==> |x.prefix| < |m.prefix|
  }

  /** On every set of mounts, empty prefix included, the scan finds the unique longest prefix or there is none. */
  lemma {:induction false} ScanFindsLongest(ms: seq<Mount>, path: string)
    requires Ordered(ms)
    ensures match Chosen(ms, path)
            case Some(m) => IsLongest(ms, path, m)
            case None => forall x :: x in ms && x.prefix <= path ==> x.prefix == ""
  {
    if ms != [] {
      if ms[0].prefix <= path {
        forall x | x in ms && x.prefix <= path && x != ms[0] ensures |x.prefix| < |ms[0].prefix| {
          SamePrefixes(ms[0].prefix, x.prefix, path);
          StrictTotalOrder(ms[0].prefix, x.prefix, x.prefix);
        }
      } else {
        ScanFindsLongest(ms[1..], path);
        assert forall x :: x in ms <==> x == ms[0] || x in ms[1..];
      }
    }
  }

  /** Two prefixes of one path with the same length are the same. */
  lemma SamePrefixes(a: string, b: string, path: string)
    requires a <= path && b <= path
    ensures |a| == |b| ==> a == b
  {
  }

  /** The order in which distinct prefixes were mounted makes no difference. */
  lemma MountOrderIrrelevant(r1: seq<Mount>, r2: seq<Mount>, path: string)
    requires forall i, j :: 0 <= i < j < |r1| ==> r1[i].prefix != r1[j].prefix
    requires forall i, j :: 0 <= i < j < |r2| ==> r2[i].prefix != r2[j].prefix
    requires forall m :: m in r1 <==> m in r2
    ensures Chosen(MountAll(r1), path) == Chosen(MountAll(r2), path)
  {
    hide Chosen, MountAll, Ordered;
    MountAllOrdered(r1);
    MountAllOrdered(r2);
    ScanFindsLongest(MountAll(r1), path);
    ScanFindsLongest(MountAll(r2), path);
  }

  // ---------- The program's object ----------

  /** `fs::path::is_relative` on POSIX. */
  predicate IsRelative(root: string) {
    root == "" || root[0] != '/'
  }

  /** The root a mount keeps: an absolute or empty one as given, a relative one canonicalised. */
  function StoredRoot(root: string, canonical: string): string {
    if root == "" || !IsRelative(root) then root else canonical
  }

  /** Only a root that is neither empty nor begins with a slash is canonicalised. */
  lemma StoredRootForm(root: string, canonical: string)
    ensures root == "" || root[0] == '/' ==> StoredRoot(root, canonical) == root
    ensures root != "" && root[0] != '/' ==> StoredRoot(root, canonical) == canonical
  {
  }

  /** Of two texts of one length the lesser is the one with the lesser character where they first differ. */
  lemma {:induction false} LexForm(a: string, b: string, k: nat)
    requires k < |a| == |b| && a[..k] == b[..k] && a[k] != b[k]
    ensures LexLess(a, b) <==> a[k] < b[k]
  {
    if k > 0 {
      assert a[0] == a[..k][0] && b[0] == b[..k][0];
      assert a[1..][..k - 1] == a[..k][1..] && b[1..][..k - 1] == b[..k][1..];
      LexForm(a[1..], b[1..], k - 1);
    }
  }

  class StaticMounts {
    var static_mounts_: seq<Mount>

    ghost predicate Valid()
      reads this
    {
      Ordered(static_mounts_)
    }

    constructor ()
      ensures Valid() && static_mounts_ == []
    {
      static_mounts_ := [];
    }

    /**
      `MountStatic`, with the map's own search for the place of the new key.  `canonical` is what the
      file system answers for a relative root.
     */
    method MountStatic(url_prefix: string, root: string, canonical: string)
      requires Valid()
      modifies this
      ensures Valid()
      ensures static_mounts_ == Emplace(old(static_mounts_), Mount(url_prefix, StoredRoot(root, canonical)))
    {
      hide Emplace, Before, Ordered;
      var stored := root;
      if root != "" && IsRelative(root) {
        stored := canonical;
      }
      var m := Mount(url_prefix, stored);
      EmplaceKeeps(static_mounts_, m);
      var i := 0;
      while i < |static_mounts_| && Before(static_mounts_[i].prefix, url_prefix)
        invariant 0 <= i <= |static_mounts_| && static_mounts_ == old(static_mounts_)
        invariant forall j :: 0 <= j < i ==> Before(static_mounts_[j].prefix, url_prefix)
      {
        i := i + 1;
      }
      EmplaceAt(static_mounts_, i, m);
      if i < |static_mounts_| && static_mounts_[i].prefix == url_prefix { return; }
      static_mounts_ := static_mounts_[..i] + [m] + static_mounts_[i..];
    }

    /** The loop of `serve_static` over the ordered mounts and the test that follows it. */
    method Scan(path: string) returns (found: Option<Mount>)
      requires Valid()
      ensures found == Chosen(static_mounts_, path)
    {
      var url_prefix, root := "", "";
      var i := 0;
      ghost var all := static_mounts_;
      assert all[0..] == all;
      while i < |static_mounts_|
        invariant 0 <= i <= |all| && url_prefix == ""
        invariant Chosen(all[i..], path) == Chosen(all, path)
      {
        assert all[i..][1..] == all[i + 1..];
        if static_mounts_[i].prefix <= path {
          url_prefix, root := static_mounts_[i].prefix, static_mounts_[i].root;
          break;
        }
        i := i + 1;
      }
      if url_prefix == "" { return None; }
      found := Some(Mount(url_prefix, root));
    }
  }
}
