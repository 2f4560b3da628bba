/**
  HTTP requests: printing (src/http/request.cpp), parsing (include/http/utils.h), header maps with
  case-insensitive keys (include/http/request.h); sections 3, 5 and 6.2 of RFC 9112.
 */
module HttpRequest {
  import opened Bytes
  import opened Query

  // ---------- Methods ----------

  datatype Method = GET | POST | PUT | DELETE | PATCH | HEAD | OPTIONS | UNKNOWN

  function MethodStr(m: Method): string {
    match m
    case GET => "GET"
    case POST => "POST"
    case PUT => "PUT"
    case DELETE => "DELETE"
    case PATCH => "PATCH"
    case HEAD => "HEAD"
    case OPTIONS => "OPTIONS"
    case UNKNOWN => "UNKNOWN"
  }

  function MethodEnum(s: string): Method {
    if s == "GET" then GET
    else if s == "POST" then POST
    else if s == "PUT" then PUT
    else if s == "DELETE" then DELETE
    else if s == "PATCH" then PATCH
    else if s == "HEAD" then HEAD
    else if s == "OPTIONS" then OPTIONS
    else UNKNOWN
  }

  // ---------- Text ----------

  /** `std::isspace` in the C locale. */
  predicate IsSpace(c: char) {
    c == ' ' || 9 as char <= c <= 13 as char
  }

  predicate NoSpace(s: string) {
    forall i :: 0 <= i < |s| ==> !IsSpace(s[i])
  }

  function LTrim(s: string): (r: string)
    ensures |r| <= |s|
  {
    if s != "" && IsSpace(s[0]) then LTrim(s[1..]) else s
  }

  function RTrim(s: string): string {
    if s != "" && IsSpace(s[|s| - 1]) then RTrim(s[..|s| - 1]) else s
  }

  function Trim(s: string): string {
    RTrim(LTrim(s))
  }

  predicate Trimmed(s: string) {
    s != "" ==> !IsSpace(s[0]) && !IsSpace(s[|s| - 1])
  }

  /** `std::getline`: the octets up to the next newline, and what follows it. */
  function GetLine(s: string): Option<(string, string)> {
    if s == "" then None else
    var i := Find(s, '\n');
    Some((s[..i], if i == |s| then "" else s[i + 1..]))
  }

  function StripCr(line: string): string {
    if line != "" && line[|line| - 1] == '\r' then line[..|line| - 1] else line
  }

  function TokenEnd(s: string): (n: nat)
    ensures n <= |s|
  {
    if s == "" || IsSpace(s[0]) then 0 else 1 + TokenEnd(s[1..])
  }

  /** `operator>>` into a string: the next word, and what follows it. */
  function NextToken(s: string): (string, string) {
    var t := LTrim(s);
    (t[..TokenEnd(t)], t[TokenEnd(t)..])
  }

  lemma {:induction false} TokenEndIs(w: string, rest: string)
    requires NoSpace(w) && (rest == "" || IsSpace(rest[0]))
    ensures TokenEnd(w + rest) == |w|
  {
    if w == "" {
      assert w + rest == rest;
    } else {
      assert (w + rest)[1..] == w[1..] + rest;
      TokenEndIs(w[1..], rest);
    }
  }

  lemma TokenIs(w: string, rest: string)
    requires w != "" && NoSpace(w) && (rest == "" || IsSpace(rest[0]))
    ensures NextToken(w + rest) == (w, rest) && NextToken(" " + w + rest) == (w, rest)
  {
    TokenEndIs(w, rest);
    assert (" " + w + rest)[1..] == w + rest;
    assert LTrim(w + rest) == w + rest;
    assert LTrim(" " + w + rest) == LTrim(w + rest);
    assert (w + rest)[..|w|] == w && (w + rest)[|w|..] == rest;
  }

  lemma NoToken()
    ensures NextToken(" ") == ("", "")
  {
    assert LTrim(" ") == LTrim("") == "";
  }

  // ---------- Decimal numbers ----------

  function DigitChar(d: nat): char
    requires d < 10
  {
    (d + 48) as char
  }

  /** `std::to_string` of a size. */
  function ToDecimal(n: nat): string {
    if n < 10 then [DigitChar(n)] else ToDecimal(n / 10) + [DigitChar(n % 10)]
  }

  predicate AllDigits(s: string) {
    forall i :: 0 <= i < |s| ==> '0' <= s[i] <= '9'
  }

  function DecimalValue(s: string): nat
    requires AllDigits(s)
  {
    if s == "" then 0 else DecimalValue(s[..|s| - 1]) * 10 + (s[|s| - 1] as nat - 48)
  }

  /** `std::stoull` that must use up the whole text: blanks, a sign, digits; out of range fails. */
  function ParseUnsigned(s: string): Option<nat> {
    var t := LTrim(s);
    var signed := t != "" && (t[0] == '+' || t[0] == '-');
    var digits := if signed then t[1..] else t;
    if digits == "" || !AllDigits(digits) then None else
    var v := DecimalValue(digits);
    if v >= U64_LIMIT then None
    else if signed && t[0] == '-' && v > 0 then Some(U64_LIMIT - v)
    else Some(v)
  }

  lemma {:induction false} DecimalRoundTrip(n: nat)
    ensures ToDecimal(n) != "" && AllDigits(ToDecimal(n)) && DecimalValue(ToDecimal(n)) == n
  {
    var s := ToDecimal(n);
    if n >= 10 {
      DecimalRoundTrip(n / 10);
      assert s[..|s| - 1] == ToDecimal(n / 10);
    } else {
      assert s[..0] == "";
    }
  }

  lemma ParsesDecimal(n: nat)
    requires n < U64_LIMIT
    ensures ParseUnsigned(ToDecimal(n)) == Some(n)
  {
    DecimalRoundTrip(n);
    assert LTrim(ToDecimal(n)) == ToDecimal(n);
  }

  // ---------- Header maps ----------

  /** `std::tolower` in the C locale. */
  function LowerChar(c: char): char {
    if 'A' <= c <= 'Z' then c + 32 as char else c
  }

  function Lower(s: string): (r: string)
    ensures |r| == |s|
  {
    seq(|s|, i requires 0 <= i < |s| => LowerChar(s[i]))
  }

  /** Equal, or an ASCII capital (codes 65 to 90) and its small letter (32 higher). */
  predicate SameLetter(c: char, d: char) {
    || c == d
    || (65 <= c as int <= 90 && d as int == c as int + 32)
    || (65 <= d as int <= 90 && c as int == d as int + 32)
  }

  /** Two texts differ at most in the case of their letters. */
  predicate SameButCase(s: string, t: string) {
    |s| == |t| && forall i :: 0 <= i < |s| ==> SameLetter(s[i], t[i])
  }

  lemma LowerLetters(c: char, d: char)
    ensures LowerChar(c) == LowerChar(d) <==> SameLetter(c, d)
  {
  }

  /** Lowering makes two texts equal if and only if they differ at most in case. */
  lemma LowerForgetsCase(s: string, t: string)
    ensures Lower(s) == Lower(t) <==> SameButCase(s, t)
  {
    hide SameLetter, LowerChar;
    if Lower(s) == Lower(t) {
      forall i | 0 <= i < |s| ensures SameLetter(s[i], t[i]) {
        assert Lower(s)[i] == LowerChar(s[i]) && Lower(t)[i] == LowerChar(t[i]);
        LowerLetters(s[i], t[i]);
      }
    }
    if SameButCase(s, t) {
      forall i | 0 <= i < |s| ensures Lower(s)[i] == Lower(t)[i] {
        LowerLetters(s[i], t[i]);
      }
    }
  }

  /** `CaseInsensitiveEqual`: equality but for case. */
  method CaseInsensitiveEqual(s1: string, s2: string) returns (r: bool)
    ensures r <==> SameButCase(s1, s2)
    ensures r <==> Lower(s1) == Lower(s2)
  {
    LowerForgetsCase(s1, s2);
    if |s1| != |s2| { return false; }
    for i := 0 to |s1|
      invariant Lower(s1)[..i] == Lower(s2)[..i]
    {
      if LowerChar(s1[i]) != LowerChar(s2[i]) {
        assert Lower(s1)[i] != Lower(s2)[i];
        return false;
      }
      assert Lower(s1)[..i + 1] == Lower(s1)[..i] + [Lower(s1)[i]];
      assert Lower(s2)[..i + 1] == Lower(s2)[..i] + [Lower(s2)[i]];
    }
    assert Lower(s1)[..|s1|] == Lower(s1) && Lower(s2)[..|s2|] == Lower(s2);
    r := true;
  }

  type Header = (string, string)

  /** An unordered map with case-insensitive keys: by lowered key, the spelling first used and the value. */
  type Headers = map<string, Header>

  /** `headers[key] = value`. */
  function Put(h: Headers, key: string, value: string): Headers {
    var l := Lower(key);
    h[l := (if l in h then h[l].0 else key, value)]
  }

  function PutAll(h: Headers, es: seq<Header>): Headers
    decreases es
  {
    if es == [] then h else PutAll(Put(h, es[0].0, es[0].1), es[1..])
  }

  ghost predicate DistinctKeys(es: seq<Header>) {
    forall i, j :: 0 <= i < j < |es| ==> Lower(es[i].0) != Lower(es[j].0)
  }

  /** Assigning under a name finds the entry whatever case it was made in, keeps its spelling, and touches no other. */
  lemma PutForm(h: Headers, name: string, value: string)
    ensures forall other :: SameButCase(other, name) ==>
              Lower(other) in Put(h, name, value) && Put(h, name, value)[Lower(other)].1 == value
    ensures Put(h, name, value)[Lower(name)].0 == if Lower(name) in h then h[Lower(name)].0 else name
    ensures forall other :: !SameButCase(other, name) ==>
              && (Lower(other) in Put(h, name, value) <==> Lower(other) in h)
              && (Lower(other) in h ==> Put(h, name, value)[Lower(other)] == h[Lower(other)])
  {
    hide Lower, SameButCase;
    forall other: string ensures Lower(other) == Lower(name) <==> SameButCase(other, name) {
      LowerForgetsCase(other, name);
    }
  }

  /** es lists the entries of h, in some iteration order. */
  ghost predicate Lists(es: seq<Header>, h: Headers) {
    && DistinctKeys(es)
    && (forall i :: 0 <= i < |es| ==> Lower(es[i].0) in h && h[Lower(es[i].0)] == es[i])
    && (forall l :: l in h ==> exists i :: 0 <= i < |es| && Lower(es[i].0) == l)
  }

  /** Entries with distinct keys, put into a map that has none of them, are all found in it. */
  lemma {:induction false} PutAllEntries(h: Headers, es: seq<Header>)
    requires DistinctKeys(es)
    requires forall i :: 0 <= i < |es| ==> Lower(es[i].0) !in h
    ensures forall i :: 0 <= i < |es| ==> Lower(es[i].0) in PutAll(h, es) && PutAll(h, es)[Lower(es[i].0)] == es[i]
    ensures forall l :: l in h ==> l in PutAll(h, es) && PutAll(h, es)[l] == h[l]
    ensures forall l :: l in PutAll(h, es) ==> l in h || exists i :: 0 <= i < |es| && Lower(es[i].0) == l
    decreases es
  {
    hide Lower;
    if es != [] {
      var g := Put(h, es[0].0, es[0].1);
      forall i | 0 <= i < |es[1..]| ensures Lower(es[1..][i].0) !in g {
        assert es[1..][i] == es[i + 1];
      }
      PutAllEntries(g, es[1..]);
      var p := PutAll(h, es);
      forall i | 0 <= i < |es| ensures Lower(es[i].0) in p && p[Lower(es[i].0)] == es[i] {
        if i > 0 {
          assert es[i] == es[1..][i - 1];
        } else {
          assert Lower(es[0].0) in g && g[Lower(es[0].0)] == es[0];
        }
      }
      forall l | l in p ensures l in h || exists i :: 0 <= i < |es| && Lower(es[i].0) == l {
        if l !in h {
          if l in g {
            assert Lower(es[0].0) == l;
          } else {
            var i :| 0 <= i < |es[1..]| && Lower(es[1..][i].0) == l;
            assert es[i + 1] == es[1..][i];
          }
        }
      }
    }
  }

  /** Rebuilding a header map from any listing of its entries gives the map back. */
  lemma AnyOrderRebuilds(es: seq<Header>, h: Headers)
    requires Lists(es, h)
    ensures PutAll(map[], es) == h
  {
    hide Lower, PutAll;
    PutAllEntries(map[], es);
    var p := PutAll(map[], es);
    forall l | l in h ensures l in p && p[l] == h[l] {
      var i :| 0 <= i < |es| && Lower(es[i].0) == l;
    }
  }

  // ---------- Printing ----------

  const CRLF: string := "\r\n"
  const CONTENT_LENGTH: string := "Content-Length"

  /** A request as the program holds it; `path` and `query_params` are what its target splits to. */
  datatype Request = Request(
    method_: Method,
    target: string,
    version: string,
    path: string,
    query_params: Params,
    headers: Headers,
    body: string)

  function HeaderLine(e: Header): string {
    e.0 + ": " + e.1
  }

  function HeaderLines(es: seq<Header>): string {
    if es == [] then "" else HeaderLine(es[0]) + CRLF + HeaderLines(es[1..])
  }

  function RequestLine(m: Method, target: string, version: string): string {
    MethodStr(m) + " " + target + " " + version
  }

  /** The headers `to_string` prints: those of the map, and a length for a body that has none. */
  function Sent(es: seq<Header>, h: Headers, body: string): seq<Header> {
    es + (if body != "" && Lower(CONTENT_LENGTH) !in h then [(CONTENT_LENGTH, ToDecimal(|body|))] else [])
  }

  /** The text of a request whose headers are iterated in the order es. */
  function RequestText(r: Request, es: seq<Header>): string {
    RequestLine(r.method_, r.target, r.version) + CRLF + HeaderLines(Sent(es, r.headers, r.body)) + CRLF + r.body
  }

  lemma {:induction false} HeaderLinesAppend(a: seq<Header>, b: seq<Header>)
    ensures HeaderLines(a + b) == HeaderLines(a) + HeaderLines(b)
  {
    hide HeaderLine;
    if a == [] {
      assert a + b == b;
    } else {
      var ab := a + b;
      assert ab[0] == a[0] && ab[1..] == a[1..] + b;
      HeaderLinesAppend(a[1..], b);
      assert (HeaderLine(a[0]) + CRLF) + (HeaderLines(a[1..]) + HeaderLines(b)) == HeaderLines(a) + HeaderLines(b);
    }
  }

  lemma NoHeaderLines()
    ensures HeaderLines([]) == ""
  {
  }

  lemma OneHeaderLine(e: Header)
    ensures HeaderLines([e]) == e.0 + ": " + e.1 + CRLF
  {
    assert [e][1..] == [];
  }

  /** `Request::to_string`, iterating the headers in the order es. */
  method ToString(r: Request, es: seq<Header>) returns (ss: string)
    ensures ss == RequestText(r, es)
  {
    hide HeaderLines, RequestLine, Lower, ToDecimal;
    NoHeaderLines();
    ss := Start(r);
    ghost var first := ss;
    for i := 0 to |es|
      invariant ss == first + HeaderLines(es[..i])
    {
      OneHeaderLine(es[i]);
      HeaderLinesAppend(es[..i], [es[i]]);
      assert es[..i + 1] == es[..i] + [es[i]];
      ss := ss + (es[i].0 + ": " + es[i].1 + CRLF);
    }
    assert es[..|es|] == es;
    ghost var before := ss;
    HeaderLinesAppend(es, [(CONTENT_LENGTH, ToDecimal(|r.body|))]);
    OneHeaderLine((CONTENT_LENGTH, ToDecimal(|r.body|)));
    if r.body != "" && Lower(CONTENT_LENGTH) !in r.headers {
      ss := ss + (CONTENT_LENGTH + ": " + ToDecimal(|r.body|) + CRLF);
    } else {
      assert Sent(es, r.headers, r.body) == es;
    }
    assert ss == first + HeaderLines(Sent(es, r.headers, r.body));
    ss := ss + CRLF;
    ss := ss + r.body;
  }

  /** The request line `to_string` starts with. */
  method Start(r: Request) returns (ss: string)
    ensures ss == RequestLine(r.method_, r.target, r.version) + CRLF
  {
    ss := MethodStr(r.method_) + " " + r.target + " " + r.version + CRLF;
  }

  // ---------- Parsing ----------

  /** The key and value of a header line with a colon at `col`. */
  function HeaderOf(line: string, col: nat): Header
    requires col < |line|
  {
    var pos := if col + 1 < |line| && line[col + 1] == ' ' then col + 2 else col + 1;
    (Trim(line[..col]), Trim(line[pos..]))
  }

  function ParseLines(s: string, h: Headers): Headers
    decreases |s|
  {
    match GetLine(s)
    case None => h
    case Some((raw, rest)) =>
      var line := StripCr(raw);
      if line == "" then h else
      var col := Find(line, ':');
      if col == |line| then ParseLines(rest, h)
      else ParseLines(rest, Put(h, HeaderOf(line, col).0, HeaderOf(line, col).1))
  }

  /** `parse_http_request`. */
  function ParseRequest(data: string): Request {
    var (raw, rest) := match GetLine(data) case None => ("", "") case Some(p) => p;
    var (method_str, r1) := NextToken(StripCr(raw));
    var (target, r2) := NextToken(r1);
    var (version, _) := NextToken(r2);
    Request(MethodEnum(method_str), target, version, PathOf(target), Collect(map[], QueryPairs(target)),
            ParseLines(rest, map[]), "")
  }

  /** The header loop of `parse_http_request`. */
  method ParseHeaders(stream: string) returns (headers: Headers)
    ensures headers == ParseLines(stream, map[])
  {
    hide Put, Trim;
    headers := map[];
    var rest := stream;
    while true
      invariant ParseLines(rest, headers) == ParseLines(stream, map[])
      decreases |rest|
    {
      var got := GetLine(rest);
      if got.None? { break; }
      var line := StripCr(got.value.0);
      if line == "" { break; }
      var col := Find(line, ':');
      if col == |line| {
        rest := got.value.1;
        continue;
      }
      var key := Trim(line[..col]);
      var pos := col + 1;
      if pos < |line| && line[pos] == ' ' { pos := pos + 1; }
      var value := Trim(line[pos..]);
      headers := Put(headers, key, value);
      rest := got.value.1;
    }
  }

  /** `parse_http_request`. */
  method ParseHttpRequest(data: string) returns (req: Request)
    ensures req == ParseRequest(data)
  {
    hide ParseLines, NextToken, Find, StripCr;
    var line, rest := "", "";
    var got := GetLine(data);
    if got.Some? {
      line, rest := got.value.0, got.value.1;
    }
    line := StripCr(line);
    var (method_str, r1) := NextToken(line);
    var (target, r2) := NextToken(r1);
    var (version, _) := NextToken(r2);
    var path, params := SplitTarget(target);
    var headers := ParseHeaders(rest);
    req := Request(MethodEnum(method_str), target, version, path, params, headers, "");
  }

  /** `content_length`. */
  function ContentLength(h: Headers): Option<nat> {
    var l := Lower(CONTENT_LENGTH);
    if l !in h || h[l].1 == "" then None else ParseUnsigned(h[l].1)
  }

  function BodyLength(h: Headers): nat {
    match ContentLength(h) case Some(n) => n case None => 0
  }

  /** Where the first empty line begins: `async_read_until` of CR LF CR LF. */
  function FindBlank(s: string): (i: nat)
    ensures i <= |s|
  {
    if |s| < 4 then |s| else if s[..4] == CRLF + CRLF then 0 else 1 + FindBlank(s[1..])
  }

  /** How a read reports the end of the stream: as an exception, or as no octets. */
  datatype EndOfStream = Throws | ReadsNothing

  /** The first n characters of what is left to read, or what becomes of a body cut short. */
  function BodyOf(rest: string, n: nat, atEnd: EndOfStream): Option<string> {
    if n <= |rest| then Some(rest[..n]) else if atEnd.Throws? then None else Some(rest)
  }

  /** The request a client's text stands for: none when its header section is incomplete. */
  function ReadRequest(s: string, atEnd: EndOfStream): Option<Request> {
    var i := FindBlank(s);
    if i + 4 > |s| then None else
    var req := ParseRequest(s[..i + 4]);
    match BodyOf(s[i + 4..], BodyLength(req.headers), atEnd)
    case None => None
    case Some(body) => Some(req.(body := body))
  }

  /** A blank line that has arrived stays the first one, whatever follows. */
  lemma {:induction false} BlankIsLocal(r: string, s: string)
    requires r <= s && FindBlank(r) + 4 <= |r|
    ensures FindBlank(s) == FindBlank(r)
    decreases r
  {
    assert s[..4] == r[..4];
    if r[..4] != CRLF + CRLF {
      BlankIsLocal(r[1..], s[1..]);
    }
  }

  // ---------- Codes and texts, spelled out ----------

  lemma BlankCodes(c: char)
    ensures IsSpace(c) <==> c as int in {9, 10, 11, 12, 13, 32}
  {
  }

  /** The names the parser knows, and what every other name is. */
  lemma MethodNames(name: string)
    ensures MethodStr(GET) == "GET" && MethodStr(POST) == "POST" && MethodStr(PUT) == "PUT"
    ensures MethodStr(DELETE) == "DELETE" && MethodStr(PATCH) == "PATCH" && MethodStr(HEAD) == "HEAD"
    ensures MethodStr(OPTIONS) == "OPTIONS" && MethodStr(UNKNOWN) == "UNKNOWN"
    ensures MethodEnum(name) == UNKNOWN
            <==> name !in {"GET", "POST", "PUT", "DELETE", "PATCH", "HEAD", "OPTIONS"}
  {
  }

  predicate Blank(s: string) {
    forall i :: 0 <= i < |s| ==> IsSpace(s[i])
  }

  lemma {:induction false} LTrimBlank(a: string, s: string)
    requires Blank(a)
    ensures LTrim(a + s) == LTrim(s)
  {
    if a == "" {
      assert a + s == s;
    } else {
      assert (a + s)[1..] == a[1..] + s;
      LTrimBlank(a[1..], s);
    }
  }

  lemma {:induction false} RTrimBlank(s: string, b: string)
    requires Blank(b)
    ensures RTrim(s + b) == RTrim(s)
  {
    if b == "" {
      assert s + b == s;
    } else {
      var k := |b| - 1;
      assert (s + b)[..|s + b| - 1] == s + b[..k];
      RTrimBlank(s, b[..k]);
    }
  }

  /** Trimming takes off all blanks at both ends and nothing else. */
  lemma TrimForm(a: string, s: string, b: string)
    requires Blank(a) && Blank(b) && Trimmed(s)
    ensures Trim(a + s + b) == s
  {
    assert a + s + b == a + (s + b);
    LTrimBlank(a, s + b);
    if s == "" {
      assert s + b == b && b + "" == b;
      LTrimBlank(b, "");
    } else {
      assert LTrim(s + b) == s + b;
      RTrimBlank(s, b);
    }
  }

  /**
    A header line: a key without colon, a colon, a value, with any blanks around each, ended by a
    newline that a carriage return may precede.
   */
  lemma HeaderLineForm(a: string, key: string, b: string, c: string, value: string, d: string, cr: bool,
                       rest: string, h: Headers)
    requires Blank(a) && Blank(b) && Blank(c) && Blank(d) && Trimmed(key) && Trimmed(value)
    requires Free(key, ':') && Free(a + key + b, '\n') && Free(c + value + d, '\n')
    requires var v := c + value + d; cr || v == "" || v[|v| - 1] != '\r'
    ensures ParseLines(a + key + b + ":" + (c + value + d) + (if cr then "\r\n" else "\n") + rest, h)
            == ParseLines(rest, Put(h, key, value))
  {
    hide Put, Trim, ParseLines, Find, IsSpace;
    var k, v := a + key + b, c + value + d;
    var line := k + ":" + v;
    BlankHasNoColon(a);
    BlankHasNoColon(b);
    FindAfter(k, ':', v);
    assert line == k + [':'] + v && line[..|k|] == k;
    TrimForm(a, key, b);
    ValueTrimmed(c, value, d);
    LineEnds(line, cr, rest);
    OneLine(line, cr, rest, h);
    assert HeaderOf(line, |k|) == (key, value) by {
      assert line[|k| + 1..] == v;
      if v != "" && v[0] == ' ' {
        assert line[|k| + 2..] == v[1..];
      }
    }
  }

  lemma BlankHasNoColon(a: string)
    requires Blank(a)
    ensures Free(a, ':')
  {
  }

  /** A value is found with or without its first blank. */
  lemma ValueTrimmed(c: string, value: string, d: string)
    requires Blank(c) && Blank(d) && Trimmed(value)
    ensures Trim(c + value + d) == value
    ensures var v := c + value + d; v != "" && v[0] == ' ' ==> Trim(v[1..]) == value
  {
    hide Trim;
    var v := c + value + d;
    TrimForm(c, value, d);
    if v != "" && v[0] == ' ' {
      if c != "" {
        assert v[1..] == c[1..] + value + d;
        TrimForm(c[1..], value, d);
      } else if value == "" {
        assert v[1..] == "" + "" + d[1..];
        TrimForm("", "", d[1..]);
      } else {
        assert false;
      }
    }
  }

  lemma LineEnds(line: string, cr: bool, rest: string)
    requires Free(line, '\n') && (cr || line == "" || line[|line| - 1] != '\r')
    ensures var s := line + (if cr then "\r\n" else "\n") + rest;
            GetLine(s).Some? && StripCr(GetLine(s).value.0) == line && GetLine(s).value.1 == rest
  {
    hide Find;
    var raw := if cr then line + "\r" else line;
    var s := raw + ['\n'] + rest;
    assert line + (if cr then "\r\n" else "\n") + rest == s;
    FindAfter(raw, '\n', rest);
    assert s[..|raw|] == raw && s[|raw| + 1..] == rest;
    if cr {
      assert raw[..|line|] == line;
    }
  }

  /** What the parser does with one line: stop at an empty one, pass over one without colon, or take the header. */
  lemma OneLine(line: string, cr: bool, rest: string, h: Headers)
    requires Free(line, '\n') && (cr || line == "" || line[|line| - 1] != '\r')
    ensures var s, col := line + (if cr then "\r\n" else "\n") + rest, Find(line, ':');
            ParseLines(s, h) == if line == "" then h
                                else if col == |line| then ParseLines(rest, h)
                                else ParseLines(rest, Put(h, HeaderOf(line, col).0, HeaderOf(line, col).1))
  {
    hide Put, HeaderOf, Find, GetLine, StripCr;
    LineEnds(line, cr, rest);
  }

  lemma LineWithoutColon(line: string, cr: bool, rest: string, h: Headers)
    requires line != "" && Free(line, '\n') && Free(line, ':') && (cr || line[|line| - 1] != '\r')
    ensures ParseLines(line + (if cr then "\r\n" else "\n") + rest, h) == ParseLines(rest, h)
  {
    hide ParseLines, Find;
    NotFound(line, ':');
    OneLine(line, cr, rest, h);
  }

  /** A header spelled "content-length" in any case, with a number as its value, announces that many octets. */
  lemma AnyCaseContentLength(h: Headers, name: string, n: nat)
    requires SameButCase(name, "content-length") && n < 0x1_0000_0000_0000_0000
    ensures BodyLength(Put(h, name, ToDecimal(n))) == n
  {
    hide ToDecimal, ParseUnsigned, Lower;
    LengthName();
    CaseTransitive(name, "content-length", CONTENT_LENGTH);
    LengthHeader(n);
  }

  lemma LengthName()
    ensures SameButCase("content-length", CONTENT_LENGTH)
  {
  }

  lemma CaseTransitive(s: string, t: string, u: string)
    requires SameButCase(s, t) && SameButCase(t, u)
    ensures Lower(s) == Lower(u)
  {
    hide Lower, SameButCase;
    LowerForgetsCase(s, t);
    LowerForgetsCase(t, u);
  }

  /** Without such a header, or with one that is no number, there is no body. */
  lemma NoContentLength(h: Headers)
    requires Lower("content-length") in h ==>
               h[Lower("content-length")].1 == "" || ParseUnsigned(h[Lower("content-length")].1) == None
    ensures BodyLength(h) == 0
  {
    hide Lower, ParseUnsigned;
    LengthName();
    LowerForgetsCase("content-length", CONTENT_LENGTH);
  }

  /** A word is what lies between blanks, however many. */
  lemma TokenForm(a: string, w: string, rest: string)
    requires Blank(a) && NoSpace(w) && (rest == "" || IsSpace(rest[0])) && (w == "" ==> rest == "")
    ensures NextToken(a + w + rest) == (w, rest)
  {
    var s := w + rest;
    assert a + w + rest == a + s;
    LTrimBlank(a, s);
    assert LTrim(s) == s;
    TokenEndIs(w, rest);
    assert s[..|w|] == w && s[|w|..] == rest;
  }

  /** The request line: three words with any blanks before, between and after them. */
  lemma RequestLineForm(a: string, m: string, b: string, target: string, c: string, version: string, d: string,
                        data: string, rest: string)
    requires Blank(a) && Blank(b) && Blank(c) && Blank(d) && b != "" && c != ""
    requires m != "" && NoSpace(m) && target != "" && NoSpace(target) && version != "" && NoSpace(version)
    requires var line := a + m + b + target + c + version + d;
             Free(line, '\n') && data == line + "\r\n" + rest
    ensures var r := ParseRequest(data);
            && r.method_ == MethodEnum(m) && r.target == target && r.version == version
            && r.path == PathOf(target) && r.query_params == Collect(map[], QueryPairs(target))
            && r.headers == ParseLines(rest, map[]) && r.body == ""
  {
    hide NextToken, ParseLines, MethodEnum, PathOf, QueryPairs, Collect, Find, GetLine, StripCr, IsSpace;
    var r2 := c + version + d;
    var r1 := b + target + r2;
    var line := a + m + b + target + c + version + d;
    assert line == a + m + r1;
    LineEnds(line, true, rest);
    BlankFirst(b, target + r2);
    assert r1 == b + (target + r2);
    TokenForm(a, m, r1);
    BlankFirst(c, version + d);
    assert r2 == c + (version + d);
    TokenForm(b, target, r2);
    BlankFirst(d, "");
    assert d + "" == d;
    TokenForm(c, version, d);
  }

  lemma BlankFirst(a: string, s: string)
    requires Blank(a)
    ensures a != "" ==> (a + s) != "" && IsSpace((a + s)[0]) && IsSpace(a[0])
  {
  }

  /** A last line needs no newline. */
  lemma LastLine(line: string, h: Headers)
    requires line != "" && Free(line, '\n') && line[|line| - 1] != '\r' && Find(line, ':') < |line|
    ensures var col := Find(line, ':');
            ParseLines(line, h) == Put(h, HeaderOf(line, col).0, HeaderOf(line, col).1)
  {
    hide Put, HeaderOf;
    NotFound(line, '\n');
    var e := HeaderOf(line, Find(line, ':'));
    assert line[..|line|] == line && ParseLines("", Put(h, e.0, e.1)) == Put(h, e.0, e.1);
  }

  /** A length is digits, perhaps behind blanks and one plus sign, and nothing else. */
  lemma {:induction false} UnsignedForm(a: string, digits: string)
    requires Blank(a) && digits != "" && AllDigits(digits) && DecimalValue(digits) < 0x1_0000_0000_0000_0000
    ensures ParseUnsigned(a + digits) == Some(DecimalValue(digits))
    ensures ParseUnsigned(a + "+" + digits) == Some(DecimalValue(digits))
  {
    LTrimBlank(a, digits);
    assert a + "+" + digits == a + ("+" + digits) && ("+" + digits)[1..] == digits;
    LTrimBlank(a, "+" + digits);
    assert LTrim(digits) == digits && LTrim("+" + digits) == "+" + digits;
  }

  /** Behind a minus sign the number is taken modulo two to the 64th. */
  lemma {:induction false} NegativeForm(a: string, digits: string)
    requires Blank(a) && digits != "" && AllDigits(digits) && DecimalValue(digits) < 0x1_0000_0000_0000_0000
    ensures var v := DecimalValue(digits);
            ParseUnsigned(a + "-" + digits) == Some(if v == 0 then 0 else 0x1_0000_0000_0000_0000 - v)
  {
    assert a + "-" + digits == a + ("-" + digits) && ("-" + digits)[1..] == digits;
    LTrimBlank(a, "-" + digits);
    assert LTrim("-" + digits) == "-" + digits;
  }

  /** A number that needs more than 64 bits is refused. */
  lemma OutOfRange(digits: string)
    requires digits != "" && AllDigits(digits) && DecimalValue(digits) >= 0x1_0000_0000_0000_0000
    ensures ParseUnsigned(digits) == None
  {
    assert LTrim(digits) == digits;
  }

  lemma TrailingGarbage(digits: string, c: char, rest: string)
    requires digits != "" && AllDigits(digits) && !('0' <= c <= '9')
    ensures ParseUnsigned(digits + [c] + rest) == None
  {
    var s := digits + [c] + rest;
    assert LTrim(s) == s;
    assert s[|digits|] == c;
  }

  /** Digits are decimal: ten times the front plus the last, whose code is 48 higher than its value. */
  lemma DecimalForm(front: string, d: nat)
    requires AllDigits(front) && d < 10
    ensures DecimalValue("") == 0
    ensures var s := front + [(48 + d) as char];
            AllDigits(s) && DecimalValue(s) == DecimalValue(front) * 10 + d
  {
    var s := front + [(48 + d) as char];
    assert s[..|front|] == front;
  }

  /** The text of a request with one header, character by character. */
  lemma PrintedForm(r: Request, key: string, value: string)
    requires r.headers == map[Lower(key) := (key, value)] && Lower("content-length") !in r.headers
    ensures RequestText(r, [(key, value)])
            == MethodStr(r.method_) + " " + r.target + " " + r.version + "\r\n" + key + ": " + value + "\r\n"
               + (if r.body == "" then "" else "Content-Length: " + ToDecimal(|r.body|) + "\r\n") + "\r\n" + r.body
  {
    hide ToDecimal, Lower, MethodStr, HeaderLine, HeaderLines;
    LengthName();
    LowerForgetsCase("content-length", CONTENT_LENGTH);
    var e, added := (key, value), (CONTENT_LENGTH, ToDecimal(|r.body|));
    OneHeaderLine(e);
    OneHeaderLine(added);
    HeaderLinesAppend([e], [added]);
    if r.body == "" {
      assert [e] + [] == [e];
    }
  }

  predicate BlankLineAt(s: string, j: nat) {
    j + 4 <= |s| && s[j..j + 4] == "\r\n\r\n"
  }

  lemma BlankLineBehind(s: string, j: nat)
    requires s != ""
    ensures BlankLineAt(s, j + 1) <==> BlankLineAt(s[1..], j)
  {
    if j + 5 <= |s| {
      assert s[1..][j..j + 4] == s[j + 1..j + 5];
    }
  }

  /** The blank line found is one, and none comes before it. */
  lemma {:induction false} FirstBlankLine(s: string)
    ensures FindBlank(s) + 4 <= |s| ==> BlankLineAt(s, FindBlank(s))
    ensures forall j: nat :: j < FindBlank(s) ==> !BlankLineAt(s, j)
  {
    if |s| >= 4 && s[..4] != CRLF + CRLF {
      FirstBlankLine(s[1..]);
      BlankLineBehind(s, FindBlank(s[1..]));
      forall j: nat | j < FindBlank(s) ensures !BlankLineAt(s, j) {
        if j > 0 {
          BlankLineBehind(s, j - 1);
        }
      }
    }
  }

  /** A text without a blank line is no request; one whose body is cut short is none or keeps what there is. */
  lemma ReadForm(s: string, atEnd: EndOfStream)
    ensures (forall j: nat :: !BlankLineAt(s, j)) ==> ReadRequest(s, atEnd) == None
    ensures var i := FindBlank(s);
            i + 4 <= |s| ==>
              var req, rest := ParseRequest(s[..i + 4]), s[i + 4..];
              var n := BodyLength(req.headers);
              && (n <= |rest| ==> ReadRequest(s, atEnd) == Some(req.(body := rest[..n])))
              && (n > |rest| && atEnd == Throws ==> ReadRequest(s, atEnd) == None)
              && (n > |rest| && atEnd == ReadsNothing ==> ReadRequest(s, atEnd) == Some(req.(body := rest)))
  {
    hide ParseRequest, BodyLength, FindBlank;
    FirstBlankLine(s);
  }

  // ---------- Round trip ----------

  /** What a header must be like to survive: trimmed, on one line, no colon in the key. */
  predicate CleanHeader(e: Header) {
    && Trimmed(e.0) && Free(e.0, ':') && Free(e.0, '\n')
    && Trimmed(e.1) && Free(e.1, '\n')
  }

  lemma TrimTrimmed(s: string)
    requires Trimmed(s)
    ensures Trim(s) == s && Trim(" " + s) == s
  {
    assert (" " + s)[1..] == s;
    assert LTrim(s) == s && LTrim(" " + s) == LTrim(s);
  }

  lemma FirstLine(line: string, rest: string)
    requires Free(line, '\n')
    ensures GetLine(line + CRLF + rest) == Some((line + "\r", rest)) && StripCr(line + "\r") == line
  {
    var raw := line + "\r";
    FindAfter(raw, '\n', rest);
    var s := raw + ['\n'] + rest;
    assert line + CRLF + rest == s;
    assert s[..|raw|] == raw && s[|raw| + 1..] == rest && raw[..|line|] == line;
  }

  lemma HeaderOfLine(e: Header)
    requires CleanHeader(e)
    ensures Find(HeaderLine(e), ':') == |e.0| < |HeaderLine(e)| && HeaderOf(HeaderLine(e), |e.0|) == e
    ensures Free(HeaderLine(e), '\n')
  {
    hide Trim;
    var line := HeaderLine(e);
    FindAfter(e.0, ':', " " + e.1);
    assert line == e.0 + [':'] + (" " + e.1);
    assert line[..|e.0|] == e.0 && line[|e.0| + 2..] == e.1;
    TrimTrimmed(e.0);
    TrimTrimmed(e.1);
  }

  /** A printed header line is parsed back into its key and value. */
  lemma HeaderLineParses(e: Header, rest: string, h: Headers)
    requires CleanHeader(e)
    ensures ParseLines(HeaderLine(e) + CRLF + rest, h) == ParseLines(rest, Put(h, e.0, e.1))
  {
    hide Put, HeaderOf, Find, GetLine, StripCr, HeaderLine, CleanHeader;
    HeaderOfLine(e);
    FirstLine(HeaderLine(e), rest);
  }

  lemma BlankLineStops(h: Headers)
    ensures ParseLines(CRLF, h) == h
  {
    FindAfter("\r", '\n', "");
    assert CRLF == "\r" + ['\n'] + "";
  }

  lemma {:induction false} HeaderLinesParse(es: seq<Header>, h: Headers)
    requires forall e :: e in es ==> CleanHeader(e)
    ensures ParseLines(HeaderLines(es) + CRLF, h) == PutAll(h, es)
    decreases es
  {
    hide ParseLines, Put, CleanHeader;
    if es == [] {
      assert HeaderLines(es) + CRLF == CRLF;
      BlankLineStops(h);
    } else {
      HeaderLineParses(es[0], HeaderLines(es[1..]) + CRLF, h);
      assert HeaderLines(es) + CRLF == HeaderLine(es[0]) + CRLF + (HeaderLines(es[1..]) + CRLF);
      HeaderLinesParse(es[1..], Put(h, es[0].0, es[0].1));
    }
  }

  /** A line with no newline in it hides no blank line. */
  lemma {:induction false} SkipLine(line: string, rest: string)
    requires Free(line, '\n') && |rest| >= 2
    ensures FindBlank(line + CRLF + rest) == |line| + FindBlank(CRLF + rest)
  {
    var s := line + CRLF + rest;
    if line == "" {
      assert s == CRLF + rest;
    } else {
      assert s[1..] == line[1..] + CRLF + rest;
      assert s[1] != '\n' by {
        assert s[1] == if |line| > 1 then line[1] else '\r';
      }
      assert s[..4][1] == s[1] && (CRLF + CRLF)[1] == '\n';
      SkipLine(line[1..], rest);
    }
  }

  lemma SkipLineEnd(rest: string)
    requires |rest| >= 2 && rest[0] != '\r'
    ensures FindBlank(CRLF + rest) == 2 + FindBlank(rest)
  {
    var s := CRLF + rest;
    assert s[..4][2] == s[2] == rest[0] && (CRLF + CRLF)[2] == '\r';
    var t := s[1..];
    assert t == "\n" + rest && t[1..] == rest;
    if |t| >= 4 {
      assert t[..4][0] == t[0] == '\n' && (CRLF + CRLF)[0] == '\r';
    } else {
      assert |rest| == 2;
    }
  }

  lemma NotBlank(e: Header, tail: string)
    requires CleanHeader(e)
    ensures HeaderLine(e) != "" && (HeaderLine(e) + CRLF + tail)[0] != '\r' && Free(HeaderLine(e), '\n')
  {
    assert HeaderLine(e)[0] == if e.0 == "" then ':' else e.0[0];
  }

  /** The first blank line of a message is the one after its header lines. */
  lemma {:induction false} BlankAfterHeaders(es: seq<Header>, body: string)
    requires forall e :: e in es ==> CleanHeader(e)
    ensures FindBlank(CRLF + HeaderLines(es) + CRLF + body) == |HeaderLines(es)|
  {
    hide FindBlank, CleanHeader, HeaderLine;
    if es == [] {
      assert CRLF + HeaderLines(es) + CRLF + body == CRLF + CRLF + body;
      BlankHere(body);
    } else {
      assert es[0] in es;
      var line, tail := HeaderLine(es[0]), HeaderLines(es[1..]) + CRLF + body;
      assert CRLF + HeaderLines(es) + CRLF + body == CRLF + (line + CRLF + tail);
      NotBlank(es[0], tail);
      SkipLineEnd(line + CRLF + tail);
      SkipLine(line, tail);
      assert CRLF + tail == CRLF + HeaderLines(es[1..]) + CRLF + body;
      BlankAfterHeaders(es[1..], body);
    }
  }

  lemma BlankHere(body: string)
    ensures FindBlank(CRLF + CRLF + body) == 0
  {
    assert (CRLF + CRLF + body)[..4] == CRLF + CRLF;
  }

  lemma MethodRoundTrip(m: Method)
    ensures MethodEnum(MethodStr(m)) == m
    ensures MethodStr(m) != "" && NoSpace(MethodStr(m))
  {
  }

  /** The request line is split back into its three words. */
  lemma RequestLineParses(m: Method, target: string, version: string)
    requires target != "" && NoSpace(target) && NoSpace(version)
    ensures var (a, r1) := NextToken(RequestLine(m, target, version));
            var (b, r2) := NextToken(r1);
            var (c, _) := NextToken(r2);
            a == MethodStr(m) && b == target && c == version
  {
    hide MethodStr, NextToken;
    MethodRoundTrip(m);
    var r2 := " " + version;
    var r1 := " " + target + r2;
    assert RequestLine(m, target, version) == MethodStr(m) + r1;
    TokenIs(MethodStr(m), r1);
    TokenIs(target, r2);
    if version == "" {
      assert r2 == " ";
      NoToken();
    } else {
      TokenIs(version, "");
      assert " " + version + "" == r2;
    }
  }

  /** What `do_read` should hand on. */
  ghost predicate Printable(r: Request, es: seq<Header>) {
    && r.target != "" && NoSpace(r.target) && NoSpace(r.version)
    && r.path == PathOf(r.target) && r.query_params == Collect(map[], QueryPairs(r.target))
    && Lists(es, r.headers) && (forall e :: e in es ==> CleanHeader(e))
    && |r.body| < U64_LIMIT
    && (Lower(CONTENT_LENGTH) in r.headers ==> BodyLength(r.headers) == |r.body|)
  }

  /** The headers the reader ends up with: the sender's, and Content-Length when it was added. */
  function ReadHeaders(r: Request): Headers {
    if r.body != "" && Lower(CONTENT_LENGTH) !in r.headers
    then r.headers[Lower(CONTENT_LENGTH) := (CONTENT_LENGTH, ToDecimal(|r.body|))]
    else r.headers
  }

  lemma SentHeaders(r: Request, es: seq<Header>)
    requires Printable(r, es)
    ensures forall e :: e in Sent(es, r.headers, r.body) ==> CleanHeader(e)
    ensures PutAll(map[], Sent(es, r.headers, r.body)) == ReadHeaders(r)
    ensures BodyLength(ReadHeaders(r)) == |r.body|
  {
    hide PutAll, Lower, ToDecimal, PathOf, QueryPairs, Collect, CleanHeader, Lists;
    LengthHeader(|r.body|);
    if r.body != "" && Lower(CONTENT_LENGTH) !in r.headers {
      var added := (CONTENT_LENGTH, ToDecimal(|r.body|));
      OneMoreListed(es, r.headers, added);
      AnyOrderRebuilds(es + [added], ReadHeaders(r));
    } else {
      assert Sent(es, r.headers, r.body) == es;
      AnyOrderRebuilds(es, r.headers);
    }
  }

  /** A listing grows with its map. */
  lemma OneMoreListed(es: seq<Header>, h: Headers, e: Header)
    requires Lists(es, h) && Lower(e.0) !in h
    ensures Lists(es + [e], h[Lower(e.0) := e])
  {
    hide Lower;
    var fs, g := es + [e], h[Lower(e.0) := e];
    forall l | l in g ensures exists i :: 0 <= i < |fs| && Lower(fs[i].0) == l {
      if l == Lower(e.0) {
        assert fs[|es|] == e;
      } else {
        var i :| 0 <= i < |es| && Lower(es[i].0) == l;
        assert fs[i] == es[i];
      }
    }
  }

  lemma LengthHeader(n: nat)
    requires n < U64_LIMIT
    ensures CleanHeader((CONTENT_LENGTH, ToDecimal(n)))
    ensures ToDecimal(n) != "" && ParseUnsigned(ToDecimal(n)) == Some(n)
  {
    hide ToDecimal, DecimalValue, ParseUnsigned;
    DecimalRoundTrip(n);
    ParsesDecimal(n);
  }

  /** The header section of a printed request is parsed back. */
  lemma HeadParses(r: Request, es: seq<Header>)
    requires Printable(r, es)
    ensures var lines := HeaderLines(Sent(es, r.headers, r.body));
            var head := RequestLine(r.method_, r.target, r.version) + CRLF + lines + CRLF;
            ParseRequest(head) == r.(headers := ReadHeaders(r), body := "")
  {
    hide PutAll, ParseLines, Lower, ToDecimal, PathOf, QueryPairs, Collect, CleanHeader, HeaderLines, NextToken,
         RequestLine, MethodStr, Lists;
    var line, es' := RequestLine(r.method_, r.target, r.version), Sent(es, r.headers, r.body);
    SentHeaders(r, es);
    HeaderLinesParse(es', map[]);
    RequestLineParses(r.method_, r.target, r.version);
    MethodRoundTrip(r.method_);
    RequestLineIsOneLine(r.method_, r.target, r.version);
    var rest := HeaderLines(es') + CRLF;
    FirstLine(line, rest);
    assert line + CRLF + HeaderLines(es') + CRLF == line + CRLF + rest;
  }

  lemma RequestLineIsOneLine(m: Method, target: string, version: string)
    requires NoSpace(target) && NoSpace(version)
    ensures Free(RequestLine(m, target, version), '\n') && RequestLine(m, target, version) != ""
  {
    hide MethodStr;
    MethodRoundTrip(m);
  }

  /**
    Request round trip: for every method, every target and version without blanks, all clean
    headers in any iteration order, and every body consistent with Content-Length, reading the
    printed text recovers the request, with Content-Length added when it was missing.
   */
  lemma RequestRoundTrip(r: Request, es: seq<Header>, atEnd: EndOfStream)
    requires Printable(r, es)
    ensures ReadRequest(RequestText(r, es), atEnd) == Some(r.(headers := ReadHeaders(r)))
  {
    hide PutAll, ParseRequest, Lower, ToDecimal, PathOf, QueryPairs, Collect, CleanHeader, HeaderLines, RequestLine,
         Lists, FindBlank;
    var line, es' := RequestLine(r.method_, r.target, r.version), Sent(es, r.headers, r.body);
    var text := RequestText(r, es);
    SentHeaders(r, es);
    HeadParses(r, es);
    RequestLineIsOneLine(r.method_, r.target, r.version);
    var rest := HeaderLines(es') + CRLF + r.body;
    assert text == line + CRLF + rest;
    SkipLine(line, rest);
    BlankAfterHeaders(es', r.body);
    assert CRLF + rest == CRLF + HeaderLines(es') + CRLF + r.body;
    var head := line + CRLF + HeaderLines(es') + CRLF;
    assert text == head + r.body;
    assert FindBlank(text) + 4 == |head|;
    assert text[..|head|] == head && text[|head|..] == r.body && r.body[..|r.body|] == r.body;
  }
}
