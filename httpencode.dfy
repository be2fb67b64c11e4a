/** Encoding of HTTP/1.x messages (src/http.c:456-538): the request line or
    status line, a synthesised Content-Length header when the message has
    none, the headers in list order, a blank line and the body.

    The bytes an encoder writes are given by a function (ResponseBytes,
    RequestBytes); the encoders append them to the output stream piece by
    piece, as the source does with odr_write, and are proved to write
    exactly those bytes. Neither encoder has a failure path. */
module HttpEncode {
  import opened Wrappers
  import opened CStrings
  import opened HttpMessages

  /** The output side of an ODR stream: the bytes written so far. */
  class OdrStream {
    var buf: seq<char>

    constructor ()
      ensures buf == []
    {
      buf := [];
    }

    /** odr_write: the bytes are appended at the end of the buffer. */
    method Write(s: string)
      modifies this
      ensures buf == old(buf) + s
    {
      buf := buf + s;
    }
  }

  /** "HTTP/<version> <code> <reason>\r\n" (the sprintf of http.c:462-464). */
  function StatusLine(version: string, code: int): string {
    "HTTP/" + (CStr(version) + (" " + (IntToDecimal(code) + (" " + (ErrMsg(code) + "\r\n")))))
  }

  /** "Content-Length: <len>\r\n" (http.c:466-474, 510-518). */
  function ContentLengthLine(n: int): string {
    "Content-Length" + (": " + (IntToDecimal(n) + "\r\n"))
  }

  /** "name: value\r\n" for one header; strlen stops at a NUL. */
  function HeaderLineText(h: Header): string {
    CStr(h.name) + (": " + (CStr(h.value) + "\r\n"))
  }

  /** The header lines of a list, in list order. */
  function HeaderText(hs: seq<Header>): string {
    if |hs| == 0 then [] else HeaderLineText(hs[0]) + HeaderText(hs[1..])
  }

  /** The content bytes: content_len bytes of content_buf, none when null. */
  function BodyBytes(body: Option<string>): (s: string)
    ensures |s| == ContentLength(body)
  {
    if body.Some? then body.value else []
  }

  /** The synthesised Content-Length line of a response: written only when
      no header matches "Content-Length". */
  function ResponseLengthLine(r: Response): string {
    if Lookup(r.headers, "Content-Length").None? then ContentLengthLine(ContentLength(r.body)) else []
  }

  /** What yaz_encode_http_response writes. */
  function ResponseBytes(r: Response): string {
    StatusLine(r.version, r.code) + (ResponseLengthLine(r) + (HeaderText(r.headers) + ("\r\n" + BodyBytes(r.body))))
  }

  /** "<method> <path> HTTP/<version>\r\n" (http.c:501-509). */
  function RequestLine(r: Request): string {
    CStr(r.httpMethod) + (" " + (CStr(r.path) + (" HTTP/" + (CStr(r.version) + "\r\n"))))
  }

  /** The synthesised Content-Length line of a request: written only when
      there is content and no header matches "Content-Length". */
  function RequestLengthLine(r: Request): string {
    if ContentLength(r.body) != 0 && Lookup(r.headers, "Content-Length").None? then
      ContentLengthLine(ContentLength(r.body))
    else []
  }

  /** What yaz_encode_http_request writes. */
  function RequestBytes(r: Request): string {
    RequestLine(r) + (RequestLengthLine(r) + (HeaderText(r.headers) + ("\r\n" + BodyBytes(r.body))))
  }

  /** The header lines of a list grow by one line per appended header. */
  lemma {:induction false} HeaderTextAppend(hs: seq<Header>, h: Header)
    ensures HeaderText(hs + [h]) == HeaderText(hs) + HeaderLineText(h)
    decreases |hs|
  {
    if |hs| == 0 {
      assert [] + [h] == [h];
      assert HeaderText([h]) == HeaderLineText(h) + HeaderText([]);
    } else {
      assert (hs + [h])[1..] == hs[1..] + [h];
      HeaderTextAppend(hs[1..], h);
    }
  }

  lemma HeaderTextPrefix(hs: seq<Header>, k: nat)
    requires k < |hs|
    ensures HeaderText(hs[..k + 1]) == HeaderText(hs[..k]) + HeaderLineText(hs[k])
  {
    assert hs[..k + 1] == hs[..k] + [hs[k]];
    HeaderTextAppend(hs[..k], hs[k]);
  }

  /** One header line: name, ": ", value and CRLF. */
  method WriteHeaderLine(o: OdrStream, h: Header)
    modifies o
    ensures o.buf == old(o.buf) + HeaderLineText(h)
  {
    ghost var b0 := o.buf;
    o.Write(CStr(h.name));
    o.Write(": ");
    o.Write(CStr(h.value));
    o.Write("\r\n");
    Associate4(b0, CStr(h.name), ": ", CStr(h.value), "\r\n");
  }

  /** The header loop of both encoders (http.c:475-481, 519-525). */
  method WriteHeaders(o: OdrStream, hs: seq<Header>)
    modifies o
    ensures o.buf == old(o.buf) + HeaderText(hs)
  {
    var k := 0;
    while k < |hs|
      invariant k <= |hs|
      invariant o.buf == old(o.buf) + HeaderText(hs[..k])
    {
      WriteHeaderLine(o, hs[k]);
      HeaderTextPrefix(hs, k);
      Associate(old(o.buf), HeaderText(hs[..k]), HeaderLineText(hs[k]));
      k := k + 1;
    }
    assert hs[..k] == hs;
  }

  lemma Associate(a: string, b: string, c: string)
    ensures (a + b) + c == a + (b + c)
  {
  }

  /** Four writes in a row append the right-nested concatenation. */
  lemma Associate4(b: string, x1: string, x2: string, x3: string, x4: string)
    ensures b + x1 + x2 + x3 + x4 == b + (x1 + (x2 + (x3 + x4)))
  {
    Associate(b + x1 + x2, x3, x4);
    Associate(b + x1, x2, x3 + x4);
    Associate(b, x1, x2 + (x3 + x4));
  }

  /** The last part of both encoders (http.c:475-486, 519-530): the headers,
      the blank line, then content_len bytes of the content when there is
      any. */
  method WriteTail(o: OdrStream, hs: seq<Header>, body: Option<string>)
    modifies o
    ensures o.buf == old(o.buf) + (HeaderText(hs) + ("\r\n" + BodyBytes(body)))
  {
    ghost var b0 := o.buf;
    WriteHeaders(o, hs);
    o.Write("\r\n");
    if body.Some? {
      o.Write(body.value);
    }
    Associate(b0 + HeaderText(hs), "\r\n", BodyBytes(body));
    Associate(b0, HeaderText(hs), "\r\n" + BodyBytes(body));
  }

  /** yaz_encode_http_response (http.c:456-494). */
  method EncodeResponse(o: OdrStream, r: Response)
    modifies o
    ensures o.buf == old(o.buf) + ResponseBytes(r)
  {
    ghost var b0 := o.buf;
    o.Write(StatusLine(r.version, r.code));
    var cl := HeaderLookup(r.headers, "Content-Length");
    if cl.None? {
      o.Write(ContentLengthLine(ContentLength(r.body)));
    }
    assert o.buf == b0 + StatusLine(r.version, r.code) + ResponseLengthLine(r);
    WriteTail(o, r.headers, r.body);
    ghost var tail := HeaderText(r.headers) + ("\r\n" + BodyBytes(r.body));
    Associate(b0 + StatusLine(r.version, r.code), ResponseLengthLine(r), tail);
    Associate(b0, StatusLine(r.version, r.code), ResponseLengthLine(r) + tail);
  }

  /** The request line (http.c:501-509), written in six pieces. */
  method WriteRequestLine(o: OdrStream, r: Request)
    modifies o
    ensures o.buf == old(o.buf) + RequestLine(r)
  {
    ghost var b0 := o.buf;
    o.Write(CStr(r.httpMethod));
    o.Write(" ");
    ghost var b1 := o.buf;
    o.Write(CStr(r.path));
    o.Write(" HTTP/");
    o.Write(CStr(r.version));
    o.Write("\r\n");
    Associate4(b1, CStr(r.path), " HTTP/", CStr(r.version), "\r\n");
    ghost var rest := CStr(r.path) + (" HTTP/" + (CStr(r.version) + "\r\n"));
    Associate(b0 + CStr(r.httpMethod), " ", rest);
    Associate(b0, CStr(r.httpMethod), " " + rest);
  }

  /** yaz_encode_http_request (http.c:496-538). */
  method EncodeRequest(o: OdrStream, r: Request)
    modifies o
    ensures o.buf == old(o.buf) + RequestBytes(r)
  {
    ghost var b0 := o.buf;
    WriteRequestLine(o, r);
    if ContentLength(r.body) != 0 {
      var cl := HeaderLookup(r.headers, "Content-Length");
      if cl.None? {
        o.Write(ContentLengthLine(ContentLength(r.body)));
      }
    }
    assert o.buf == b0 + RequestLine(r) + RequestLengthLine(r);
    WriteTail(o, r.headers, r.body);
    ghost var tail := HeaderText(r.headers) + ("\r\n" + BodyBytes(r.body));
    Associate(b0 + RequestLine(r), RequestLengthLine(r), tail);
    Associate(b0, RequestLine(r), RequestLengthLine(r) + tail);
  }
}
