/** The encoders and decoders of src/http.c are inverse to each other on
    messages the text format can carry: decoding what
    yaz_encode_http_response or yaz_encode_http_request wrote gives back
    the message, with the Content-Length header the encoder synthesised in
    front of the headers, and an empty body read back as no body.

    The proofs follow the decoder through the encoder's output piece by
    piece: Holds(buf, j, t) says that the text t lies in buf from index j
    on, and each lemma turns the pieces of one line into what the
    decoder's scans find there. */
module HttpRoundTrip {
  import opened Wrappers
  import opened CStrings
  import opened HttpMessages
  import opened HttpDecode
  import opened HttpEncode

  // ---- which messages survive the text format ----

  /** A header name the decoder reads back: no ':', CR, LF or NUL. */
  predicate NameOk(s: string) {
    forall k :: 0 <= k < |s| ==> s[k] != ':' && NotLineEnd(s[k])
  }

  /** A header value the decoder reads back: no CR, LF or NUL, and no
      leading space (the decoder skips spaces after the colon). */
  predicate ValueOk(s: string) {
    (forall k :: 0 <= k < |s| ==> NotLineEnd(s[k])) && (|s| == 0 || s[0] != ' ')
  }

  /** A header whose line reads back as the same header. */
  predicate HeaderOk(h: Header) {
    NameOk(h.name) && ValueOk(h.value)
  }

  /** Every header of the list reads back. */
  predicate HeadersOk(hs: seq<Header>)
    decreases |hs|
  {
    |hs| == 0 || (HeaderOk(hs[0]) && HeadersOk(hs[1..]))
  }

  /** What the decoder gives for a body: an empty one reads back as none. */
  function Normalized(body: Option<string>): (r: Option<string>)
    ensures r.Some? ==> r == body && |r.value| > 0
    ensures r.None? ==> ContentLength(body) == 0
  {
    if body.Some? && body.value != [] then body else None
  }

  /** The Content-Length header of a body of n bytes. */
  function LengthHeader(n: nat): Header {
    Header("Content-Length", NatToDecimal(n))
  }

  /** The header the response encoder synthesises, if any. */
  function ResponseLengthHeaders(r: Response): seq<Header> {
    if Lookup(r.headers, "Content-Length").None? then [LengthHeader(ContentLength(r.body))] else []
  }

  /** The header the request encoder synthesises, if any. */
  function RequestLengthHeaders(r: Request): seq<Header> {
    if ContentLength(r.body) != 0 && Lookup(r.headers, "Content-Length").None? then
      [LengthHeader(ContentLength(r.body))]
    else []
  }

  // ---- text laid out in a buffer ----

  /** Character k of t. Holds quantifies over this term rather than t[k],
      so that its facts are used only where a proof asks for them (HoldsAt)
      and do not chase the index terms of every concatenation in scope. */
  function CharOf(t: string, k: int): char
    requires 0 <= k < |t|
  {
    t[k]
  }

  /** The text t lies in buf from index j on. */
  predicate Holds(buf: string, j: nat, t: string) {
    j + |t| <= |buf| && forall k {:trigger CharOf(t, k)} :: 0 <= k < |t| ==> buf[j + k] == CharOf(t, k)
  }

  /** One character of a text that lies in buf. */
  lemma HoldsAt(buf: string, j: nat, t: string, k: int)
    requires Holds(buf, j, t) && 0 <= k < |t|
    ensures j + k < |buf| && buf[j + k] == t[k]
  {
    assert buf[j + k] == CharOf(t, k);
  }

  lemma HoldsWhole(buf: string)
    ensures Holds(buf, 0, buf)
  {
  }

  /** A buffer made of two texts holds each of them in turn. */
  lemma HoldsParts(buf: string, a: string, b: string)
    requires buf == a + b
    ensures Holds(buf, 0, a) && Holds(buf, |a|, b) && |a| + |b| == |buf|
  {
    HoldsWhole(buf);
    HoldsConcat(buf, 0, a, b);
  }

  /** A concatenation lies in buf as its two parts one after the other. */
  lemma HoldsConcat(buf: string, j: nat, a: string, b: string)
    requires Holds(buf, j, a + b)
    ensures Holds(buf, j, a) && Holds(buf, j + |a|, b)
  {
    forall k | 0 <= k < |a|
      ensures buf[j + k] == a[k]
    {
      HoldsAt(buf, j, a + b, k);
    }
    forall k | 0 <= k < |b|
      ensures buf[j + |a| + k] == b[k]
    {
      HoldsAt(buf, j, a + b, |a| + k);
    }
  }

  /** The slice of buf where t lies is t. */
  lemma HoldsSlice(buf: string, j: nat, t: string)
    requires Holds(buf, j, t)
    ensures buf[j..j + |t|] == t
  {
    forall k | 0 <= k < |t|
      ensures buf[j..j + |t|][k] == t[k]
    {
      HoldsAt(buf, j, t, k);
    }
  }

  /** The same for a text at the start of the buffer. */
  lemma HoldsPrefix(buf: string, t: string)
    requires Holds(buf, 0, t)
    ensures buf[..|t|] == t
  {
    forall k | 0 <= k < |t|
      ensures buf[..|t|][k] == t[k]
    {
      HoldsAt(buf, 0, t, k);
    }
  }

  /** The same for a text that runs to the end of the buffer. */
  lemma HoldsSuffix(buf: string, j: nat, t: string)
    requires Holds(buf, j, t) && j + |t| == |buf|
    ensures buf[j..] == t
  {
    HoldsSlice(buf, j, t);
    assert buf[j..] == buf[j..j + |t|];
  }

  /** The two characters of a two-character text. */
  lemma HoldsTwo(buf: string, j: nat, t: string)
    requires Holds(buf, j, t) && |t| == 2
    ensures buf[j] == t[0] && buf[j + 1] == t[1]
  {
    HoldsAt(buf, j, t, 0);
    HoldsAt(buf, j, t, 1);
  }

  /** Every character of t passes the test. */
  predicate AllIn(cls: CharClass, t: string) {
    forall k :: 0 <= k < |t| ==> InClass(cls, t[k])
  }

  /** A scan over a text whose characters all pass stops right after it,
      at a character that fails or at the limit. */
  lemma ScanOver(buf: string, j: nat, t: string, limit: int, cls: CharClass)
    requires limit <= |buf| && Holds(buf, j, t) && AllIn(cls, t) && j + |t| <= limit
    requires j + |t| < limit ==> !InClass(cls, buf[j + |t|])
    ensures ScanWhile(buf, j, limit, cls) == j + |t|
  {
    forall k | j <= k < j + |t|
      ensures InClass(cls, buf[k])
    {
      HoldsAt(buf, j, t, k - j);
    }
    ScanWhileStopsAt(buf, j, limit, cls, j + |t|);
  }

  // ---- the header block ----

  /** The header line of a header without NUL: name, ": ", value, CRLF. */
  lemma HeaderLineTextOf(h: Header)
    requires NoNul(h.name) && NoNul(h.value)
    ensures HeaderLineText(h) == h.name + (": " + (h.value + "\r\n"))
  {
    CStrOfNoNul(h.name);
    CStrOfNoNul(h.value);
  }

  /** Where the parts of a header line lie: the name from j, the colon,
      the space, the value from vs and the CRLF at ve. */
  lemma HeaderLineLayout(buf: string, j: nat, h: Header, colon: nat, vs: nat, ve: nat)
    requires Holds(buf, j, HeaderLineText(h)) && NoNul(h.name) && NoNul(h.value)
    requires colon == j + |h.name| && vs == colon + 2 && ve == vs + |h.value|
    ensures Holds(buf, j, h.name) && buf[colon] == ':' && buf[colon + 1] == ' '
    ensures Holds(buf, vs, h.value) && ve + 1 < |buf| && buf[ve] == '\r' && buf[ve + 1] == '\n'
    ensures |HeaderLineText(h)| == |h.name| + |h.value| + 4
  {
    HeaderLineTextOf(h);
    HoldsConcat(buf, j, h.name, ": " + (h.value + "\r\n"));
    HoldsConcat(buf, colon, ": ", h.value + "\r\n");
    HoldsConcat(buf, vs, h.value, "\r\n");
    HoldsTwo(buf, colon, ": ");
    HoldsTwo(buf, ve, "\r\n");
  }

  /** The three scans of the header-line loop over a line the encoder
      wrote: the name runs to the colon, one space is skipped, and the
      value runs to the CR. */
  lemma HeaderLineScans(buf: string, j: nat, h: Header, colon: nat, vs: nat, ve: nat)
    requires NameOk(h.name) && ValueOk(h.value)
    requires colon == j + |h.name| && vs == colon + 2 && ve == vs + |h.value|
    requires ve + 1 < |buf| && Holds(buf, j, h.name) && buf[colon] == ':' && buf[colon + 1] == ' '
    requires Holds(buf, vs, h.value) && buf[ve] == '\r'
    ensures colon == ScanWhile(buf, j, |buf|, NonColons)
    ensures vs == ScanWhile(buf, colon + 1, |buf| - 1, Spaces)
    ensures ve == ScanWhile(buf, vs, |buf| - 1, NonLineEnds)
    ensures buf[j..colon] == h.name && buf[vs..ve] == h.value
  {
    var n, v := h.name, h.value;
    ScanOver(buf, j, n, |buf|, NonColons);
    assert Holds(buf, colon + 1, " ");
    if |v| > 0 {
      HoldsAt(buf, vs, v, 0);
    }
    ScanOver(buf, colon + 1, " ", |buf| - 1, Spaces);
    ScanOver(buf, vs, v, |buf| - 1, NonLineEnds);
    HoldsSlice(buf, j, n);
    HoldsSlice(buf, vs, v);
  }

  /** A header line the encoder wrote reads back as the same header, and
      the cursor stops at the LF that ends it. */
  lemma HeaderLineOfText(buf: string, j: nat, h: Header)
    requires Holds(buf, j, HeaderLineText(h)) && NameOk(h.name) && ValueOk(h.value)
    ensures var next := j + |HeaderLineText(h)| - 1;
      j < |buf| && buf[j] != '\r' && buf[j] != '\n'
      && next < |buf| && buf[next] == '\n' && HeaderLine(buf, j) == Ok((h, next))
  {
    assert NoNul(h.name) && NoNul(h.value);
    var colon := j + |h.name|;
    var vs := colon + 2;
    var ve := vs + |h.value|;
    HeaderLineLayout(buf, j, h, colon, vs, ve);
    HeaderLineScans(buf, j, h, colon, vs, ve);
    CStrOfNoNul(h.name);
    HeaderLineAt(buf, j, colon, vs, ve);
    if |h.name| > 0 {
      HoldsAt(buf, j, h.name, 0);
    }
  }

  /** The header text of a valid list, then CRLF, behind an LF at i: the
      header loop reads back the same headers and stops after the CRLF. */
  lemma {:induction false} HeaderBlockOfText(buf: string, i: nat, hs: seq<Header>) returns (e: nat)
    requires i < |buf| && buf[i] == '\n' && HeadersOk(hs)
    requires Holds(buf, i + 1, HeaderText(hs)) && Holds(buf, i + 1 + |HeaderText(hs)|, "\r\n")
    ensures e == i + 1 + |HeaderText(hs)| + 2
    ensures HeaderLines(buf, i) == Ok(HeaderBlock(hs, e))
    decreases |hs|
  {
    e := i + 1 + |HeaderText(hs)| + 2;
    if |hs| == 0 {
      HoldsTwo(buf, i + 1, "\r\n");
      HeaderLinesCrLf(buf, i);
    } else {
      var next := HeaderBlockSplit(buf, i, hs);
      var e' := HeaderBlockOfText(buf, next, hs[1..]);
      HeaderBlockStep(buf, i, hs[0], next, hs[1..], e');
      assert [hs[0]] + hs[1..] == hs;
    }
  }

  /** The first header line of an encoded block, and the rest of the block
      behind the LF that ends it. */
  lemma HeaderBlockSplit(buf: string, i: nat, hs: seq<Header>) returns (next: nat)
    requires i < |buf| && buf[i] == '\n' && HeadersOk(hs) && |hs| > 0
    requires Holds(buf, i + 1, HeaderText(hs)) && Holds(buf, i + 1 + |HeaderText(hs)|, "\r\n")
    ensures HeadersOk(hs[1..])
    ensures next == i + |HeaderLineText(hs[0])| < |buf| && buf[next] == '\n'
    ensures next + |HeaderText(hs[1..])| == i + |HeaderText(hs)|
    ensures buf[i + 1] != '\r' && buf[i + 1] != '\n' && HeaderLine(buf, i + 1) == Ok((hs[0], next))
    ensures Holds(buf, next + 1, HeaderText(hs[1..]))
    ensures Holds(buf, next + 1 + |HeaderText(hs[1..])|, "\r\n")
  {
    var h := hs[0];
    HoldsConcat(buf, i + 1, HeaderLineText(h), HeaderText(hs[1..]));
    next := i + |HeaderLineText(h)|;
    HeaderLineOfText(buf, i + 1, h);
  }

  /** One header line in front of a header block makes a block one header
      longer. */
  lemma HeaderBlockStep(buf: string, i: nat, h: Header, next: nat, rest: seq<Header>, e: nat)
    requires i < |buf| - 1 && buf[i] == '\n' && buf[i + 1] != '\r' && buf[i + 1] != '\n'
    requires HeaderLine(buf, i + 1) == Ok((h, next))
    requires HeaderLines(buf, next) == Ok(HeaderBlock(rest, e))
    ensures HeaderLines(buf, i) == Ok(HeaderBlock([h] + rest, e))
  {
    HeaderLinesStep(buf, i, h, next);
  }

  /** The content the raw-content branch takes is the body the encoder
      wrote, read back as none when it is empty. */
  lemma BodyOfText(buf: string, next: nat, body: Option<string>)
    requires next <= |buf| && buf[next..] == BodyBytes(body)
    ensures (if next == |buf| then None else Some(buf[next..])) == Normalized(body)
  {
  }

  /** The blank line in front of a body. */
  lemma HoldsCrLf(buf: string, j: nat, b: string)
    requires Holds(buf, j, "\r\n" + b)
    ensures Holds(buf, j, "\r\n") && Holds(buf, j + 2, b)
  {
    HoldsConcat(buf, j, "\r\n", b);
  }

  /** HeadersContent over a header block that ends where the body starts. */
  lemma EntityOfBlock(buf: string, i: nat, hs: seq<Header>, body: Option<string>, next: nat)
    requires i <= |buf| && HeaderLines(buf, i) == Ok(HeaderBlock(hs, next)) && !AnyChunked(hs)
    requires Holds(buf, next, BodyBytes(body)) && next + |BodyBytes(body)| == |buf|
    ensures HeadersContent(buf, i) == Ok(Entity(hs, Normalized(body)))
  {
    HoldsSuffix(buf, next, BodyBytes(body));
    BodyOfText(buf, next, body);
    HeadersContentPlain(buf, i, HeaderBlock(hs, next));
  }

  /** The header block and the content as the encoder wrote them, after
      the LF at i that ends the first line, decode to the same headers and
      the normalised body. */
  lemma EntityOfText(buf: string, i: nat, hs: seq<Header>, body: Option<string>)
    requires i < |buf| && buf[i] == '\n' && HeadersOk(hs) && !AnyChunked(hs)
    requires Holds(buf, i + 1, HeaderText(hs) + ("\r\n" + BodyBytes(body)))
    requires i + 3 + |HeaderText(hs)| + |BodyBytes(body)| == |buf|
    ensures HeadersContent(buf, i) == Ok(Entity(hs, Normalized(body)))
  {
    HoldsConcat(buf, i + 1, HeaderText(hs), "\r\n" + BodyBytes(body));
    HoldsCrLf(buf, i + 1 + |HeaderText(hs)|, BodyBytes(body));
    var next := HeaderBlockOfText(buf, i, hs);
    EntityOfBlock(buf, i, hs, body, next);
  }

  // ---- the synthesised Content-Length header ----

  lemma ContentLengthNoNul()
    ensures NoNul("Content-Length")
  {
  }

  lemma ContentLengthNameOk()
    ensures NameOk("Content-Length")
  {
  }

  lemma ContentLengthCStr()
    ensures CStr("Content-Length") == "Content-Length"
  {
    ContentLengthNoNul();
    CStrOfNoNul("Content-Length");
  }

  /** The synthesised header does not ask for chunked coding: its name is
      shorter than "Transfer-Encoding". */
  lemma LengthHeaderNotChunked(n: nat)
    ensures !IsChunkedCoding(LengthHeader(n))
  {
    ContentLengthCStr();
    assert |CStr(LengthHeader(n).name)| == 14;
  }

  /** Decimal digits make a header value the decoder reads back. */
  lemma DecimalValueOk(n: nat)
    ensures ValueOk(NatToDecimal(n)) && CStr(NatToDecimal(n)) == NatToDecimal(n)
  {
    var d := NatToDecimal(n);
    assert NoNul(d);
    CStrOfNoNul(d);
  }

  /** The Content-Length line the encoders write is the header line of the
      Content-Length header, and that header reads back. */
  lemma LengthHeaderOk(n: nat)
    ensures HeaderOk(LengthHeader(n)) && !IsChunkedCoding(LengthHeader(n))
    ensures HeaderLineText(LengthHeader(n)) == ContentLengthLine(n)
  {
    ContentLengthNameOk();
    ContentLengthCStr();
    LengthHeaderNotChunked(n);
    DecimalValueOk(n);
  }

  /** The synthesised line followed by the headers and the rest is the
      header text of the synthesised header and the headers, followed by
      the rest. */
  lemma LengthLinesAndHeaders(extra: seq<Header>, line: string, n: nat, hs: seq<Header>, rest: string)
    requires (extra == [] && line == []) || (extra == [LengthHeader(n)] && line == ContentLengthLine(n))
    requires HeadersOk(hs) && !AnyChunked(hs)
    ensures line + (HeaderText(hs) + rest) == HeaderText(extra + hs) + rest
    ensures HeadersOk(extra + hs) && !AnyChunked(extra + hs)
  {
    LengthHeaderOk(n);
    if extra == [] {
      assert extra + hs == hs;
    } else {
      var h := LengthHeader(n);
      assert ([h] + hs)[1..] == hs;
      Associate(line, HeaderText(hs), rest);
    }
  }

  // ---- the response ----

  /** Where the parts of a status line lie: the version, the space, the
      digits, then the space, the reason and CR up to the LF at eol. */
  lemma StatusLineLayout(buf: string, v: string, d: string, m: string, ve: nat, ce: nat, eol: nat)
    requires Holds(buf, 0, "HTTP/" + (v + (" " + (d + (" " + (m + "\r\n"))))))
    requires ve == 5 + |v| && ce == ve + 1 + |d| && eol == ce + |m| + 2
    ensures Holds(buf, 0, "HTTP/") && Holds(buf, 5, v) && buf[ve] == ' ' && Holds(buf, ve + 1, d)
    ensures buf[ce] == ' ' && Holds(buf, ce, " " + (m + "\r")) && eol < |buf| && buf[eol] == '\n'
  {
    HoldsConcat(buf, 0, "HTTP/", v + (" " + (d + (" " + (m + "\r\n")))));
    HoldsConcat(buf, 5, v, " " + (d + (" " + (m + "\r\n"))));
    HoldsConcat(buf, ve, " ", d + (" " + (m + "\r\n")));
    HoldsConcat(buf, ve + 1, d, " " + (m + "\r\n"));
    assert " " + (m + "\r\n") == (" " + (m + "\r")) + "\n";
    HoldsConcat(buf, ce, " " + (m + "\r"), "\n");
    HoldsAt(buf, ve, " ", 0);
    HoldsAt(buf, ce, " " + (m + "\r"), 0);
    HoldsAt(buf, eol, "\n", 0);
  }

  lemma AllInConcat(cls: CharClass, a: string, b: string)
    requires AllIn(cls, a) && AllIn(cls, b)
    ensures AllIn(cls, a + b)
  {
    forall k | 0 <= k < |a + b|
      ensures InClass(cls, (a + b)[k])
    {
      if k < |a| {
        assert (a + b)[k] == a[k];
      } else {
        assert (a + b)[k] == b[k - |a|];
      }
    }
  }

  /** The version, the code and the "HTTP/" prefix of a status line, as
      the slices the decoder takes. */
  lemma StatusLineSlices(buf: string, v: string, d: string, ve: nat, ce: nat)
    requires ve == 5 + |v| && ce == ve + 1 + |d|
    requires Holds(buf, 0, "HTTP/") && Holds(buf, 5, v) && Holds(buf, ve + 1, d)
    ensures buf[..5] == "HTTP/" && buf[5..ve] == v && buf[ve + 1..ce] == d
  {
    HoldsPrefix(buf, "HTTP/");
    HoldsSlice(buf, 5, v);
    HoldsSlice(buf, ve + 1, d);
  }

  /** The status line the encoder writes, scanned as the decoder does: the
      version up to the space, the digits of the code, and the rest of the
      line up to its LF. */
  lemma StatusLineScans(buf: string, v: string, d: string, m: string, ve: nat, ce: nat, eol: nat)
    requires ve == 5 + |v| && ce == ve + 1 + |d| && eol == ce + |m| + 2
    requires eol < |buf| && Holds(buf, 0, "HTTP/") && Holds(buf, 5, v) && buf[ve] == ' ' && Holds(buf, ve + 1, d)
    requires buf[ce] == ' ' && Holds(buf, ce, " " + (m + "\r")) && buf[eol] == '\n'
    requires AllIn(NonWordEnds, v) && AllIn(Digits, d) && AllIn(NonLfs, m)
    ensures ScanWhile(buf, 5, |buf| - 2, NonWordEnds) == ve
    ensures ScanWhile(buf, ve + 1, |buf| - 2, Digits) == ce
    ensures ScanWhile(buf, ce, |buf| - 1, NonLfs) == eol
  {
    ScanOver(buf, 5, v, |buf| - 2, NonWordEnds);
    ScanOver(buf, ve + 1, d, |buf| - 2, Digits);
    AllInConcat(NonLfs, m, "\r");
    AllInConcat(NonLfs, " ", m + "\r");
    ScanOver(buf, ce, " " + (m + "\r"), |buf| - 1, NonLfs);
  }

  /** "HTTP/<v> <d> <m>\r\n": a status line with version v, code digits d
      and reason m. */
  function StatusText(v: string, d: string, m: string): (t: string)
    ensures |t| == |v| + |d| + |m| + 9
  {
    "HTTP/" + (v + (" " + (d + (" " + (m + "\r\n")))))
  }

  /** A status line and an entity as the encoder writes them decode to the
      version, the code, the headers and the normalised body. */
  lemma ResponseOfText(buf: string, v: string, d: string, code: nat, m: string, hs: seq<Header>, body: Option<string>)
    requires var rest := HeaderText(hs) + ("\r\n" + BodyBytes(body));
      Holds(buf, 0, StatusText(v, d, m)) && Holds(buf, |v| + |d| + |m| + 9, rest)
      && |v| + |d| + |m| + 9 + |rest| == |buf|
    requires AllIn(NonWordEnds, v) && AllIn(Digits, d) && DigitsValue(d) == code && AllIn(NonLfs, m)
    requires HeadersOk(hs) && !AnyChunked(hs)
    ensures |buf| >= 5 && buf[..5] == "HTTP/"
    ensures ParseResponse(buf) == Ok(Response(v, code, hs, Normalized(body)))
  {
    var ve := 5 + |v|;
    var ce := ve + 1 + |d|;
    var eol := ce + |m| + 2;
    StatusLineLayout(buf, v, d, m, ve, ce, eol);
    assert Holds(buf, eol + 1, HeaderText(hs) + ("\r\n" + BodyBytes(body)));
    EntityOfText(buf, eol, hs, body);
    StatusLineOfText(buf, v, d, m, ve, ce, eol, Entity(hs, Normalized(body)));
  }

  /** The status line the encoder writes, as the decoder reads it: the
      scans stop after the version, after the digits and at the LF, and
      the slices between them are the version and the digits. */
  lemma StatusLineOfText(buf: string, v: string, d: string, m: string, ve: nat, ce: nat, eol: nat, e: Entity)
    requires Holds(buf, 0, "HTTP/" + (v + (" " + (d + (" " + (m + "\r\n"))))))
    requires ve == 5 + |v| && ce == ve + 1 + |d| && eol == ce + |m| + 2
    requires AllIn(NonWordEnds, v) && AllIn(Digits, d) && AllIn(NonLfs, m)
    requires HeadersContent(buf, eol) == Ok(e)
    ensures |buf| >= 5 && buf[..5] == "HTTP/"
    ensures ParseResponse(buf) == Ok(Response(v, DigitsValue(d), e.headers, e.body))
  {
    StatusLineLayout(buf, v, d, m, ve, ce, eol);
    StatusLineScans(buf, v, d, m, ve, ce, eol);
    StatusLineSlices(buf, v, d, ve, ce);
    ParseResponseAt(buf, ve, ce, eol, e);
  }

  /** What the response encoder writes, laid out as a status line and an
      entity whose headers start with the synthesised one. */
  lemma ResponseBytesLayout(r: Response)
    requires NoNul(r.version) && r.code >= 0 && HeadersOk(r.headers) && !AnyChunked(r.headers)
    ensures var status := StatusText(r.version, NatToDecimal(r.code), ErrMsg(r.code));
      var hs := ResponseLengthHeaders(r) + r.headers;
      ResponseBytes(r) == status + (HeaderText(hs) + ("\r\n" + BodyBytes(r.body)))
      && HeadersOk(hs) && !AnyChunked(hs)
  {
    var body := "\r\n" + BodyBytes(r.body);
    LengthLinesAndHeaders(ResponseLengthHeaders(r), ResponseLengthLine(r), ContentLength(r.body), r.headers, body);
    CStrOfNoNul(r.version);
  }

  /** The version, the decimal code and the reason phrase of a status line
      are what the decoder's scans pass over, and the digits read back as
      the code. */
  lemma StatusPartsOk(v: string, code: nat)
    requires forall k :: 0 <= k < |v| ==> NotWordEnd(v[k])
    ensures AllIn(NonWordEnds, v) && AllIn(Digits, NatToDecimal(code)) && AllIn(NonLfs, ErrMsg(code))
    ensures DigitsValue(NatToDecimal(code)) == code
  {
    DecimalRoundTrip(code);
  }

  /** Decoding what yaz_encode_http_response wrote gives back the version,
      the code, the synthesised Content-Length header followed by the
      headers, and the body (none when it is empty). */
  lemma ResponseRoundTrip(r: Response)
    requires NoNul(r.version) && forall k :: 0 <= k < |r.version| ==> NotWordEnd(r.version[k])
    requires r.code >= 0 && HeadersOk(r.headers) && !AnyChunked(r.headers)
    ensures var buf := ResponseBytes(r);
      |buf| >= 5 && buf[..5] == "HTTP/"
      && ParseResponse(buf) ==
         Ok(Response(r.version, r.code, ResponseLengthHeaders(r) + r.headers, Normalized(r.body)))
  {
    var hs := ResponseLengthHeaders(r) + r.headers;
    var status := StatusText(r.version, NatToDecimal(r.code), ErrMsg(r.code));
    ResponseBytesLayout(r);
    HoldsParts(ResponseBytes(r), status, HeaderText(hs) + ("\r\n" + BodyBytes(r.body)));
    StatusPartsOk(r.version, r.code);
    ResponseOfText(ResponseBytes(r), r.version, NatToDecimal(r.code), r.code, ErrMsg(r.code), hs, r.body);
  }

  // ---- the request ----

  /** A request-line scan over a word without spaces stops at the space
      after it. */
  lemma SpaceAfter(buf: string, i: nat, w: string, cap: int)
    requires Holds(buf, i, w) && i + |w| < |buf| - 5 && buf[i + |w|] == ' '
    requires forall k :: 0 <= k < |w| ==> w[k] != ' '
    requires i + |w| <= cap + 1
    ensures SpaceFrom(buf, i, cap) == Some(i + |w|)
  {
    forall k | i <= k < i + |w|
      ensures buf[k] != ' '
    {
      HoldsAt(buf, i, w, k - i);
    }
    assert SpaceAt(buf, i, cap, i + |w|);
    SpaceFromSpec(buf, i, cap);
    SpaceAtUnique(buf, i, cap, i + |w|, SpaceFrom(buf, i, cap).value);
  }

  /** Where the parts of a request line lie: the method, a space, the path
      up to the space at pe, "HTTP/", the version up to the CR at ve and the
      LF at lf. */
  lemma RequestLineLayout(buf: string, mt: string, p: string, v: string, pe: nat, ve: nat, lf: nat)
    requires Holds(buf, 0, mt + (" " + (p + (" HTTP/" + (v + "\r\n")))))
    requires pe == |mt| + 1 + |p| && ve == pe + 6 + |v| && lf == ve + 1
    ensures Holds(buf, 0, mt) && buf[|mt|] == ' ' && Holds(buf, |mt| + 1, p) && buf[pe] == ' '
    ensures Holds(buf, pe + 1, "HTTP/") && Holds(buf, pe + 6, v)
    ensures lf < |buf| && buf[ve] == '\r' && buf[lf] == '\n'
  {
    assert " HTTP/" + (v + "\r\n") == " " + ("HTTP/" + (v + "\r\n"));
    HoldsConcat(buf, 0, mt, " " + (p + (" HTTP/" + (v + "\r\n"))));
    HoldsConcat(buf, |mt|, " ", p + (" HTTP/" + (v + "\r\n")));
    HoldsConcat(buf, |mt| + 1, p, " " + ("HTTP/" + (v + "\r\n")));
    HoldsConcat(buf, pe, " ", "HTTP/" + (v + "\r\n"));
    HoldsConcat(buf, pe + 1, "HTTP/", v + "\r\n");
    HoldsConcat(buf, pe + 6, v, "\r\n");
    HoldsAt(buf, |mt|, " ", 0);
    HoldsAt(buf, pe, " ", 0);
    HoldsTwo(buf, ve, "\r\n");
  }

  /** The request line the encoder writes, scanned as the decoder does:
      the method and the path end at spaces, the version at the CR. */
  lemma RequestLineOfText(buf: string, mt: string, p: string, v: string, pe: nat, ve: nat, lf: nat)
    requires Holds(buf, 0, mt + (" " + (p + (" HTTP/" + (v + "\r\n")))))
    requires pe == |mt| + 1 + |p| && ve == pe + 6 + |v| && lf == ve + 1
    requires |mt| <= 31 && forall k :: 0 <= k < |mt| ==> mt[k] != ' '
    requires forall k :: 0 <= k < |p| ==> p[k] != ' '
    requires AllIn(NonLineEnds, v)
    ensures lf < |buf| && buf[lf] == '\n'
    ensures RequestLineScan(buf) == Some(RequestHead(|mt|, pe, ve, lf))
    ensures buf[..|mt|] == mt && buf[|mt| + 1..pe] == p && buf[pe + 6..ve] == v
  {
    RequestLineLayout(buf, mt, p, v, pe, ve, lf);
    SpaceAfter(buf, 0, mt, 30);
    SpaceAfter(buf, |mt| + 1, p, |buf|);
    HoldsSlice(buf, pe + 1, "HTTP/");
    ScanOver(buf, pe + 6, v, |buf|, NonLineEnds);
    VersionLineAt(buf, |mt|, pe, ve);
    RequestLineScanAt(buf, |mt|, pe);
    HoldsSlice(buf, 0, mt);
    assert buf[..|mt|] == buf[0..|mt|];
    HoldsSlice(buf, |mt| + 1, p);
    HoldsSlice(buf, pe + 6, v);
  }

  /** "<mt> <p> HTTP/<v>\r\n": a request line with method mt, path p and
      version v. */
  function RequestText(mt: string, p: string, v: string): (t: string)
    ensures |t| == |mt| + |p| + |v| + 9
  {
    mt + (" " + (p + (" HTTP/" + (v + "\r\n"))))
  }

  /** A request line and an entity as the encoder writes them decode to the
      method, the path, the version, the headers and the normalised body. */
  lemma RequestOfText(buf: string, mt: string, p: string, v: string, hs: seq<Header>, body: Option<string>)
    requires var rest := HeaderText(hs) + ("\r\n" + BodyBytes(body));
      Holds(buf, 0, RequestText(mt, p, v)) && Holds(buf, |mt| + |p| + |v| + 9, rest)
      && |mt| + |p| + |v| + 9 + |rest| == |buf|
    requires NoNul(mt) && |mt| <= 31 && forall k :: 0 <= k < |mt| ==> mt[k] != ' '
    requires NoNul(p) && forall k :: 0 <= k < |p| ==> p[k] != ' '
    requires AllIn(NonLineEnds, v)
    requires HeadersOk(hs) && !AnyChunked(hs)
    ensures ParseRequest(buf) == Ok(Request(mt, p, v, hs, Normalized(body)))
  {
    var pe := |mt| + 1 + |p|;
    var ve := pe + 6 + |v|;
    var lf := ve + 1;
    RequestLineOfText(buf, mt, p, v, pe, ve, lf);
    assert Holds(buf, lf + 1, HeaderText(hs) + ("\r\n" + BodyBytes(body)));
    EntityOfText(buf, lf, hs, body);
    RequestOfParts(buf, mt, p, v, RequestHead(|mt|, pe, ve, lf), Entity(hs, Normalized(body)));
  }

  /** ParseRequest once the request line and the entity are known, and the
      slices of the line hold NUL-free method and path. */
  lemma RequestOfParts(buf: string, mt: string, p: string, v: string, h: RequestHead, e: Entity)
    requires RequestLineScan(buf) == Some(h) && HeadersContent(buf, h.lf) == Ok(e)
    requires NoNul(mt) && NoNul(p)
    requires buf[..h.methodEnd] == mt && buf[h.methodEnd + 1..h.pathEnd] == p
    requires buf[h.pathEnd + 6..h.versionEnd] == v
    ensures ParseRequest(buf) == Ok(Request(mt, p, v, e.headers, e.body))
  {
    ParseRequestAt(buf, h, e);
    CStrOfNoNul(mt);
    CStrOfNoNul(p);
  }

  /** What the request encoder writes, laid out as a request line and an
      entity whose headers start with the synthesised one. */
  lemma RequestBytesLayout(r: Request)
    requires NoNul(r.httpMethod) && NoNul(r.path) && NoNul(r.version)
    requires HeadersOk(r.headers) && !AnyChunked(r.headers)
    ensures var line := RequestText(r.httpMethod, r.path, r.version);
      var hs := RequestLengthHeaders(r) + r.headers;
      RequestBytes(r) == line + (HeaderText(hs) + ("\r\n" + BodyBytes(r.body)))
      && HeadersOk(hs) && !AnyChunked(hs)
  {
    var body := "\r\n" + BodyBytes(r.body);
    LengthLinesAndHeaders(RequestLengthHeaders(r), RequestLengthLine(r), ContentLength(r.body), r.headers, body);
    CStrOfNoNul(r.httpMethod);
    CStrOfNoNul(r.path);
    CStrOfNoNul(r.version);
  }

  /** Decoding what yaz_encode_http_request wrote gives back the method,
      path, version, the synthesised Content-Length header followed by the
      headers, and the body (none when it is empty). The method must fit
      the decoder's 31-byte limit. */
  lemma RequestRoundTrip(r: Request)
    requires NoNul(r.httpMethod) && |r.httpMethod| <= 31
    requires forall k :: 0 <= k < |r.httpMethod| ==> r.httpMethod[k] != ' '
    requires NoNul(r.path) && forall k :: 0 <= k < |r.path| ==> r.path[k] != ' '
    requires forall k :: 0 <= k < |r.version| ==> NotLineEnd(r.version[k])
    requires HeadersOk(r.headers) && !AnyChunked(r.headers)
    ensures ParseRequest(RequestBytes(r)) ==
      Ok(Request(r.httpMethod, r.path, r.version, RequestLengthHeaders(r) + r.headers, Normalized(r.body)))
  {
    assert NoNul(r.version);
    RequestBytesLayout(r);
    assert AllIn(NonLineEnds, r.version);
    var hs := RequestLengthHeaders(r) + r.headers;
    HoldsParts(RequestBytes(r), RequestText(r.httpMethod, r.path, r.version), HeaderText(hs) + ("\r\n" + BodyBytes(r.body)));
    RequestOfText(RequestBytes(r), r.httpMethod, r.path, r.version, hs, r.body);
  }
}
