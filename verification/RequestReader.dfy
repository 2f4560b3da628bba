/**
  Reading a request off a socket: `take_front`, `co_read_headers` and `co_read_body`
  (include/io_helpers.h) and `do_read` (src/server.cpp), under any split of the text into reads.
 */
module RequestReader {
  import opened Bytes
  import opened HttpRequest

  /** The most a read of `async_read_until` asks for. */
  const READ_CHUNK: nat := 64 * 1024

  /** A connected socket.  Its k-th read moves at most 1 + sizes(k) characters, and none only at the end. */
  class TextSocket {
    var unread: string
    var calls: nat
    const sizes: nat -> nat

    constructor (arriving: string, sizes: nat -> nat)
      ensures unread == arriving && calls == 0 && this.sizes == sizes
    {
      unread, calls := arriving, 0;
      this.sizes := sizes;
    }

    method ReadSome(want: nat) returns (got: string)
      requires want > 0
      modifies this
      ensures old(unread) == got + unread && |got| <= want
      ensures got == "" <==> old(unread) == ""
    {
      var n := Min(1 + sizes(calls), Min(want, |unread|));
      got, unread, calls := unread[..n], unread[n..], calls + 1;
    }
  }

  /** `asio::streambuf`, as far as it is used. */
  class StreamBuf {
    var data: string

    constructor ()
      ensures data == ""
    {
      data := "";
    }

    method Append(s: string)
      modifies this
      ensures data == old(data) + s
    {
      data := data + s;
    }

    /** `take_front`. */
    method TakeFront(n: nat) returns (out: string)
      modifies this
      ensures out + data == old(data) && |out| == Min(n, |old(data)|)
    {
      var k := Min(n, |data|);
      out, data := data[..k], data[k..];
    }
  }

  /** `co_read_headers`: everything up to the first blank line, or nothing when the stream ends before one. */
  method ReadHeaderSection(sock: TextSocket, buffer: StreamBuf) returns (headers: Option<string>)
    modifies sock, buffer
    ensures var s := old(buffer.data + sock.unread);
            var end := FindBlank(s) + 4;
            if end <= |s| then headers == Some(s[..end]) && buffer.data + sock.unread == s[end..] else headers == None
  {
    hide FindBlank;
    ghost var s := buffer.data + sock.unread;
    while true
      invariant buffer.data + sock.unread == s
      decreases |sock.unread|
    {
      var header_bytes := FindBlank(buffer.data) + 4;
      if header_bytes <= |buffer.data| {
        BlankIsLocal(buffer.data, s);
        ghost var rest := sock.unread;
        var out := buffer.TakeFront(header_bytes);
        assert s == out + (buffer.data + rest);
        return Some(out);
      }
      ghost var before, arriving := buffer.data, sock.unread;
      var got := sock.ReadSome(READ_CHUNK);
      if got == "" {
        assert s == before;
        return None;
      }
      buffer.Append(got);
      assert (before + got) + sock.unread == before + arriving;
    }
  }

  /** One read of `co_read_body`: the characters land behind those already there. */
  method CopyIn(text: array<char>, at: nat, data: string, ghost all: string)
    requires at + |data| <= text.Length && at + |data| <= |all|
    requires text[..at] == all[..at] && data == all[at..at + |data|]
    modifies text
    ensures text[..at + |data|] == all[..at + |data|]
  {
    ghost var before := text[..at];
    forall i | 0 <= i < |data| {
      text[at + i] := data[i];
    }
    assert text[..at] == before;
    assert text[at..at + |data|] == data;
    assert text[..at + |data|] == text[..at] + text[at..at + |data|];
    assert all[..at + |data|] == all[..at] + all[at..at + |data|];
  }

  /** The loop of `co_read_body`, behind the characters taken from the buffer, which still holds `left`. */
  method FillFromSocket(sock: TextSocket, text: array<char>, already: nat, atEnd: EndOfStream,
                        ghost all: string, ghost left: string)
    returns (ok: bool, done: nat)
    requires already <= text.Length && already <= |all| && text[..already] == all[..already]
    requires all[already..] == left + sock.unread && (already < text.Length ==> left == "")
    modifies sock, text
    ensures already + done <= text.Length && already + done <= |all|
    ensures text[..already + done] == all[..already + done] && all[already + done..] == left + sock.unread
    ensures ok <==> text.Length <= |all| || atEnd.ReadsNothing?
    ensures ok ==> already + done == Min(text.Length, |all|)
  {
    var remaining := text.Length - already;
    ok, done := true, 0;
    while done < remaining
      invariant done <= remaining && already + done <= |all|
      invariant text[..already + done] == all[..already + done]
      invariant all[already + done..] == left + sock.unread
    {
      ghost var at := already + done;
      assert all[at..] == sock.unread;
      var got := sock.ReadSome(remaining - done);
      if got == "" {
        ok := atEnd.ReadsNothing?;
        return;
      }
      NextPiece(all, at, got, sock.unread);
      CopyIn(text, already + done, got, all);
      done := done + |got|;
    }
  }

  lemma NextPiece(all: string, at: nat, got: string, rest: string)
    requires at <= |all| && all[at..] == got + rest
    ensures at + |got| <= |all| && got == all[at..at + |got|] && rest == all[at + |got|..]
  {
    assert all[at..][..|got|] == got && all[at..][|got|..] == rest;
  }

  /**
    `co_read_body`: the first content_len characters of buffer then socket, however they are split
    into reads; at a premature end of the stream an exception, or all there was.
   */
  method ReadBody(sock: TextSocket, buffer: StreamBuf, content_len: nat, atEnd: EndOfStream)
    returns (body: Option<string>)
    modifies sock, buffer
    ensures body == BodyOf(old(buffer.data + sock.unread), content_len, atEnd)
    ensures body.Some? ==> body.value + (buffer.data + sock.unread) == old(buffer.data + sock.unread)
  {
    hide BodyOf;
    ghost var all := buffer.data + sock.unread;
    var text := new char[content_len](i => '\0');
    var front := buffer.TakeFront(content_len);
    var already := |front|;
    assert all == front + (buffer.data + sock.unread);
    NextPiece(all, 0, front, buffer.data + sock.unread);
    CopyIn(text, 0, front, all);
    var ok, done := FillFromSocket(sock, text, already, atEnd, all, buffer.data);
    BodyRead(all, content_len, already + done, atEnd, ok);
    if !ok { return None; }
    body := Some(text[..already + done]);
  }

  lemma BodyRead(all: string, content_len: nat, n: nat, atEnd: EndOfStream, ok: bool)
    requires ok <==> content_len <= |all| || atEnd.ReadsNothing?
    requires ok ==> n == Min(content_len, |all|)
    ensures BodyOf(all, content_len, atEnd) == if ok then Some(all[..n]) else None
    ensures ok ==> all[..n] + all[n..] == all
  {
    assert all[..|all|] == all;
  }

  /** `do_read`: a fresh buffer, the header section, and as much body as it announces. */
  method DoRead(sock: TextSocket, atEnd: EndOfStream) returns (req: Option<Request>)
    modifies sock
    ensures req == ReadRequest(old(sock.unread), atEnd)
  {
    hide ParseRequest, FindBlank, BodyLength;
    ghost var s := sock.unread;
    var buf := new StreamBuf();
    assert buf.data + sock.unread == s;
    var headers_text := ReadHeaderSection(sock, buf);
    if headers_text.None? { return None; }
    ghost var rest := buf.data + sock.unread;
    var parsed := ParseHttpRequest(headers_text.value);
    var clen := BodyLength(parsed.headers);
    var body := Some("");
    if clen != 0 {
      body := ReadBody(sock, buf, clen, atEnd);
      if body.None? { return None; }
    }
    assert rest[..0] == "";
    req := Some(parsed.(body := body.value));
  }

  /**
    The round trip through the program's own steps: a request printed with `to_string`, headers in
    any iteration order, and read by `do_read` from a socket that splits the text in any way.
   */
  method PrintAndRead(r: Request, es: seq<Header>, sizes: nat -> nat, atEnd: EndOfStream)
    returns (req: Option<Request>)
    requires Printable(r, es)
    ensures req == Some(r.(headers := ReadHeaders(r)))
  {
    hide ReadRequest, RequestText, ReadHeaders, Printable;
    var text := ToString(r, es);
    var sock := new TextSocket(text, sizes);
    RequestRoundTrip(r, es, atEnd);
    req := DoRead(sock, atEnd);
  }
}
