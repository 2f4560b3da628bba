/**
  Splitting a request target: `split_target` (include/http/utils.h) and the parameter lookups of
  src/http/request.cpp.
 */
module Query {

  // ---------- Text ----------

  /** Position of the first c in s, or |s|. */
  function Find(s: string, c: char): (i: nat)
    ensures i <= |s| && (i < |s| ==> s[i] == c) && forall j :: 0 <= j < i ==> s[j] != c
  {
    if s == "" || s[0] == c then 0 else 1 + Find(s[1..], c)
  }

  predicate Free(s: string, c: char) {
    forall i :: 0 <= i < |s| ==> s[i] != c
  }

  /** The first c is where a c-free front ends. */
  lemma FindAfter(front: string, c: char, rest: string)
    requires Free(front, c)
    ensures Find(front + [c] + rest, c) == |front|
    ensures Find(front, c) == |front|
  {
    var s := front + [c] + rest;
    assert s[|front|] == c;
    assert forall j :: 0 <= j < |front| ==> s[j] == front[j];
  }

  // ---------- The multimap ----------

  type Pair = (string, string)

  /** `std::multimap<std::string, std::string>`: for each key its values in insertion order. */
  type Params = map<string, seq<string>>

  function Values(m: Params, key: string): seq<string> {
    if key in m then m[key] else []
  }

  /** `emplace`: behind the values the key already has. */
  function Emplace(m: Params, p: Pair): Params {
    m[p.0 := Values(m, p.0) + [p.1]]
  }

  function Collect(m: Params, ps: seq<Pair>): Params
    decreases ps
  {
    if ps == [] then m else Collect(Emplace(m, ps[0]), ps[1..])
  }

  /** The values paired with a key, in order. */
  function ValuesFor(key: string, ps: seq<Pair>): seq<string> {
    if ps == [] then [] else (if ps[0].0 == key then [ps[0].1] else []) + ValuesFor(key, ps[1..])
  }

  lemma {:induction false} CollectValues(m: Params, ps: seq<Pair>, key: string)
    ensures Values(Collect(m, ps), key) == Values(m, key) + ValuesFor(key, ps)
    decreases ps
  {
    if ps != [] {
      CollectValues(Emplace(m, ps[0]), ps[1..], key);
    }
  }

  lemma {:induction false} CollectSnoc(m: Params, ps: seq<Pair>, p: Pair)
    ensures Collect(m, ps + [p]) == Emplace(Collect(m, ps), p)
    decreases ps
  {
    if ps == [] {
      assert ps + [p] == [p] && [p][1..] == [];
    } else {
      CollectSnoc(Emplace(m, ps[0]), ps[1..], p);
      assert (ps + [p])[1..] == ps[1..] + [p];
    }
  }

  /** The positions at which a key occurs. */
  function Occurrences(key: string, ps: seq<Pair>): set<nat> {
    set k: nat | k < |ps| && ps[k].0 == key
  }

  /** Position k holds the id-th occurrence of the key. */
  predicate IsOccurrence(key: string, ps: seq<Pair>, k: nat, id: nat) {
    k < |ps| && ps[k].0 == key && |Occurrences(key, ps[..k])| == id
  }

  lemma {:induction false} ValuesForSnoc(key: string, ps: seq<Pair>, p: Pair)
    ensures ValuesFor(key, ps + [p]) == ValuesFor(key, ps) + if p.0 == key then [p.1] else []
    decreases ps
  {
    if ps == [] {
      assert ps + [p] == [p] && [p][1..] == [];
    } else {
      ValuesForSnoc(key, ps[1..], p);
      assert (ps + [p])[1..] == ps[1..] + [p];
    }
  }

  /** A key has as many values as occurrences. */
  lemma {:induction false} CountIsOccurrences(key: string, ps: seq<Pair>)
    ensures |ValuesFor(key, ps)| == |Occurrences(key, ps)|
    decreases ps
  {
    hide ValuesFor;
    if ps == [] {
      NoValues(key);
    } else {
      var k := |ps| - 1;
      var front, p := ps[..k], ps[k];
      CountIsOccurrences(key, front);
      assert ps == front + [p];
      ValuesForSnoc(key, front, p);
      assert Occurrences(key, ps) == Occurrences(key, front) + if p.0 == key then {k} else {};
    }
  }

  lemma NoValues(key: string)
    ensures ValuesFor(key, []) == [] && Occurrences(key, []) == {}
  {
  }

  /** The id-th value of a key is what its id-th occurrence, counted from the front, is paired with. */
  lemma {:induction false} ValuesAreOccurrences(key: string, ps: seq<Pair>, k: nat, id: nat)
    requires IsOccurrence(key, ps, k, id)
    ensures id < |ValuesFor(key, ps)| && ValuesFor(key, ps)[id] == ps[k].1
    decreases |ps|
  {
    hide ValuesFor, Occurrences;
    var last := |ps| - 1;
    var front := ps[..last];
    assert ps == front + [ps[last]];
    ValuesForSnoc(key, front, ps[last]);
    CountIsOccurrences(key, front);
    if k < last {
      assert ps[..k] == front[..k];
      ValuesAreOccurrences(key, front, k, id);
    }
  }

  lemma Collected(key: string, ps: seq<Pair>)
    ensures Values(Collect(map[], ps), key) == ValuesFor(key, ps)
  {
    hide ValuesFor, Collect;
    CollectValues(map[], ps, key);
    assert [] + ValuesFor(key, ps) == ValuesFor(key, ps);
  }

  /** `get_param_value`: the id-th value of the equal range, or nothing. */
  method GetParamValue(query_params: Params, key: string, id: nat) returns (value: string)
    ensures var vs := Values(query_params, key);
            value == if id < |vs| then vs[id] else ""
    ensures forall ps: seq<Pair>, k: nat ::
              query_params == Collect(map[], ps) && IsOccurrence(key, ps, k, id) ==> value == ps[k].1
    ensures forall ps :: query_params == Collect(map[], ps) && |Occurrences(key, ps)| <= id ==> value == ""
  {
    hide Values, Collect, Occurrences, ValuesFor;
    forall ps | query_params == Collect(map[], ps)
      ensures |Values(query_params, key)| == |Occurrences(key, ps)|
    {
      Collected(key, ps);
      CountIsOccurrences(key, ps);
    }
    forall ps: seq<Pair>, k: nat | query_params == Collect(map[], ps) && IsOccurrence(key, ps, k, id)
      ensures id < |Values(query_params, key)| && Values(query_params, key)[id] == ps[k].1
    {
      Collected(key, ps);
      ValuesAreOccurrences(key, ps, k, id);
    }
    var range := Values(query_params, key);
    var it, i := 0, 0;
    while it != |range|
      invariant it == i <= |range| && i <= id
      decreases |range| - it
    {
      if i == id { return range[it]; }
      it, i := it + 1, i + 1;
    }
    value := "";
  }

  /** `get_param_value_count`: `std::distance` walks from one end of the equal range to the other. */
  method GetParamValueCount(query_params: Params, key: string) returns (n: nat)
    ensures forall ps :: query_params == Collect(map[], ps) ==> n == |Occurrences(key, ps)|
    ensures n == |Values(query_params, key)|
  {
    hide Values, Collect, Occurrences, ValuesFor;
    forall ps | query_params == Collect(map[], ps)
      ensures |Values(query_params, key)| == |Occurrences(key, ps)|
    {
      Collected(key, ps);
      CountIsOccurrences(key, ps);
    }
    var range := Values(query_params, key);
    var it := 0;
    n := 0;
    while it != |range|
      invariant n == it <= |range|
      decreases |range| - it
    {
      it, n := it + 1, n + 1;
    }
  }

  // ---------- split_target ----------

  /** A parameter is split at its first '='; without one it is a key with an empty value. */
  function PairOf(param: string): Pair {
    var eq := Find(param, '=');
    (param[..eq], if eq == |param| then "" else param[eq + 1..])
  }

  /** The pair of a parameter that is not empty. */
  function Pairs(param: string): seq<Pair> {
    if param == "" then [] else [PairOf(param)]
  }

  /** The parameters between the '&' of a query, empty ones skipped. */
  function PairsOf(query: string): seq<Pair> {
    var sep := Find(query, '&');
    if sep == |query| then Pairs(query) else Pairs(query[..sep]) + PairsOf(query[sep + 1..])
  }

  /** The path of a target and the pairs of its query. */
  function PathOf(target: string): string {
    target[..Find(target, '?')]
  }

  function QueryPairs(target: string): seq<Pair> {
    var qm := Find(target, '?');
    if qm == |target| then [] else PairsOf(target[qm + 1..])
  }

  /** `find(c, start)`. */
  method FindFrom(s: string, c: char, start: nat) returns (i: nat)
    requires start <= |s|
    ensures i == start + Find(s[start..], c)
  {
    i := start;
    while i < |s| && s[i] != c
      invariant start <= i <= |s|
      invariant i + Find(s[i..], c) == start + Find(s[start..], c)
    {
      assert s[i..][1..] == s[i + 1..];
      i := i + 1;
    }
  }

  /** The key and value of a non-empty parameter. */
  method SplitParam(param: string) returns (key: string, value: string)
    ensures (key, value) == PairOf(param)
  {
    var eq := FindFrom(param, '=', 0);
    assert param[0..] == param;
    key := param[..eq];
    value := if eq == |param| then "" else param[eq + 1..];
  }

  /** The pairs from `start` on, by the parameter found there. */
  lemma NextParam(query: string, start: nat, sep: nat)
    requires start <= |query| && sep == start + Find(query[start..], '&')
    ensures PairsOf(query[start..])
            == Pairs(query[start..sep]) + if sep == |query| then [] else PairsOf(query[sep + 1..])
  {
    hide Pairs, PairsOf, Find;
    var s := query[start..];
    PairsStep(s);
    assert s[..sep - start] == query[start..sep];
    if sep < |query| {
      assert s[sep - start + 1..] == query[sep + 1..];
    } else {
      assert query[start..sep] == s;
    }
  }

  lemma PairsStep(s: string)
    ensures Find(s, '&') == |s| ==> PairsOf(s) == Pairs(s)
    ensures Find(s, '&') < |s| ==> PairsOf(s) == Pairs(s[..Find(s, '&')]) + PairsOf(s[Find(s, '&') + 1..])
  {
    hide Pairs, Find;
  }

  /** The loop of `split_target`. */
  method SplitQuery(query: string) returns (query_params: Params)
    ensures query_params == Collect(map[], PairsOf(query))
  {
    hide PairsOf, PairOf, Collect, Emplace;
    query_params := map[];
    var start := 0;
    ghost var seen: seq<Pair> := [];
    assert query[0..] == query;
    CollectNone();
    while start <= |query|
      invariant query_params == Collect(map[], seen)
      invariant start <= |query| && seen + PairsOf(query[start..]) == PairsOf(query)
      decreases |query| - start
    {
      var param_sep := FindFrom(query, '&', start);
      var param := query[start..param_sep];
      NextParam(query, start, param_sep);
      assert query[|query|..] == "";
      if param != "" {
        var key, value := SplitParam(param);
        CollectSnoc(map[], seen, (key, value));
        query_params := Emplace(query_params, (key, value));
        ghost var tail := if param_sep == |query| then [] else PairsOf(query[param_sep + 1..]);
        assert seen + ([(key, value)] + tail) == (seen + [(key, value)]) + tail;
        seen := seen + [(key, value)];
      }
      if param_sep == |query| {
        assert seen + [] == seen;
        break;
      }
      start := param_sep + 1;
    }
  }

  lemma CollectNone()
    ensures Collect(map[], []) == map[]
  {
  }

  /** `split_target`. */
  method SplitTarget(target: string) returns (path: string, query_params: Params)
    ensures path == PathOf(target) && query_params == Collect(map[], QueryPairs(target))
  {
    hide Find, PairsOf, Collect;
    query_params := map[];
    var qm := FindFrom(target, '?', 0);
    assert target[0..] == target;
    if qm == |target| {
      CollectNone();
      assert target[..|target|] == target;
      return target, query_params;
    }
    path := target[..qm];
    query_params := SplitQuery(target[qm + 1..]);
  }

  // ---------- Targets, case by case ----------

  lemma NotFound(s: string, c: char)
    requires Free(s, c)
    ensures Find(s, c) == |s|
  {
    FindAfter(s, c, "");
  }

  /** A target without '?' is all path. */
  lemma WholePath(target: string)
    requires Free(target, '?')
    ensures PathOf(target) == target && QueryPairs(target) == []
  {
    hide PairsOf;
    NotFound(target, '?');
  }

  /** The path ends at the first '?', whatever the query holds. */
  lemma PathBeforeQuery(path: string, query: string)
    requires Free(path, '?')
    ensures PathOf(path + "?" + query) == path && QueryPairs(path + "?" + query) == PairsOf(query)
  {
    hide PairsOf;
    var target := path + "?" + query;
    FindAfter(path, '?', query);
    assert target == path + ['?'] + query && target[..|path|] == path && target[|path| + 1..] == query;
  }

  /** A parameter is split at its first '='; one without is a key with an empty value. */
  lemma ParamForm(key: string, value: string)
    requires Free(key, '=')
    ensures PairOf(key) == (key, "") && PairOf(key + "=" + value) == (key, value)
  {
    var s := key + "=" + value;
    NotFound(key, '=');
    FindAfter(key, '=', value);
    assert key[..|key|] == key;
    assert s == key + ['='] + value && s[..|key|] == key && s[|key| + 1..] == value;
  }

  /** Parameters end at each '&'; an empty one gives no pair. */
  lemma QueryForm(param: string, rest: string)
    requires Free(param, '&')
    ensures PairsOf(param) == if param == "" then [] else [PairOf(param)]
    ensures PairsOf(param + "&" + rest) == (if param == "" then [] else [PairOf(param)]) + PairsOf(rest)
  {
    hide PairOf;
    var q := param + ['&'] + rest;
    assert param + "&" + rest == q;
    NotFound(param, '&');
    FindAfter(param, '&', rest);
    assert q[..|param|] == param && q[|param| + 1..] == rest && param[..|param|] == param;
    assert PairsOf(q) == (if param == "" then [] else [PairOf(param)]) + PairsOf(rest);
  }

  // ---------- Joining and splitting ----------

  /** Keys free of '&' and '=', values free of '&'. */
  predicate Clean(p: Pair) {
    Free(p.0, '&') && Free(p.0, '=') && Free(p.1, '&')
  }

  function Join(ps: seq<Pair>): string {
    if ps == [] then ""
    else ps[0].0 + "=" + ps[0].1 + (if |ps| == 1 then "" else "&" + Join(ps[1..]))
  }

  lemma PairJoined(p: Pair)
    requires Clean(p)
    ensures PairOf(p.0 + "=" + p.1) == p
  {
    var s := p.0 + "=" + p.1;
    FindAfter(p.0, '=', p.1);
    assert s == p.0 + ['='] + p.1;
    assert s[..|p.0|] == p.0 && s[|p.0| + 1..] == p.1;
  }

  /** The first parameter of a query ends at the first '&'. */
  lemma FirstParam(s: string, rest: string)
    requires s != "" && Free(s, '&')
    ensures PairsOf(s) == [PairOf(s)]
    ensures PairsOf(s + ['&'] + rest) == [PairOf(s)] + PairsOf(rest)
  {
    hide PairOf;
    FindAfter(s, '&', rest);
    var q := s + ['&'] + rest;
    assert q[..|s|] == s && q[|s| + 1..] == rest && s[..|s|] == s;
  }

  lemma {:induction false} PairsJoined(ps: seq<Pair>)
    requires forall p :: p in ps ==> Clean(p)
    ensures PairsOf(Join(ps)) == ps
  {
    hide PairsOf, PairOf, Find;
    if ps == [] {
      NoPairs();
    } else {
      var s := ps[0].0 + "=" + ps[0].1;
      assert Clean(ps[0]);
      PairJoined(ps[0]);
      if |ps| == 1 {
        FirstParam(s, "");
        assert Join(ps) == s + "" == s;
      } else {
        FirstParam(s, Join(ps[1..]));
        assert Join(ps) == s + ['&'] + Join(ps[1..]);
        PairsJoined(ps[1..]);
      }
    }
  }

  lemma NoPairs()
    ensures PairsOf("") == []
  {
  }

  /**
    Splitting inverts joining: the path comes back, and every key has exactly the values it was
    paired with, in order.
   */
  lemma QueryRoundTrip(path: string, ps: seq<Pair>, key: string)
    requires Free(path, '?') && forall p :: p in ps ==> Clean(p)
    ensures var target := path + "?" + Join(ps);
            && PathOf(target) == path && QueryPairs(target) == ps
            && Values(Collect(map[], QueryPairs(target)), key) == ValuesFor(key, ps)
  {
    hide PairsOf, Join, Collect, ValuesFor;
    var target := path + "?" + Join(ps);
    FindAfter(path, '?', Join(ps));
    assert target == path + ['?'] + Join(ps);
    assert target[|path| + 1..] == Join(ps) && target[..|path|] == path;
    PairsJoined(ps);
    CollectValues(map[], ps, key);
    assert [] + ValuesFor(key, ps) == ValuesFor(key, ps);
  }
}
