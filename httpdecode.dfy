/** Decoding of HTTP/1.x messages from a complete buffer (src/http.c:25-154,
    368-454): the request line or status line, the header block and the
    body, raw or in chunked transfer coding (section 4.1 of RFC 7230).

    Each decoder is given twice: a recursive specification function
    (HeadersContent, ParseRequest, ParseResponse) and a method that walks
    the buffer with an index cursor as the C code does and is proved to
    compute the same result. `Malformed` stands for `o->error = OHTTP`.
    Where the C code reads a byte before checking the bound, the model
    checks first and fails. */
module HttpDecode {
  import opened Wrappers
  import opened CStrings
  import opened HttpMessages

  // ---- character classes of the scanning loops ----

  predicate IsSpace(c: char) {
    c == ' '
  }

  predicate NotColon(c: char) {
    c != ':'
  }

  /** !strchr("\r\n", c); strchr also finds the terminating NUL. */
  predicate NotLineEnd(c: char) {
    c != '\r' && c != '\n' && c != '\0'
  }

  /** !strchr(" \r\n", c). */
  predicate NotWordEnd(c: char) {
    c != ' ' && NotLineEnd(c)
  }

  predicate NotLf(c: char) {
    c != '\n'
  }

  /** The characters the chunk-size loop accepts: digits and every letter. */
  predicate IsChunkDigit(c: char) {
    IsDigit(c) || IsUpper(c) || IsLower(c)
  }

  /** The character tests of the decoder's scanning loops. */
  datatype CharClass = Spaces | NonColons | NonLineEnds | NonWordEnds | NonLfs | Digits | ChunkDigits

  predicate InClass(cls: CharClass, c: char) {
    match cls
    case Spaces => IsSpace(c)
    case NonColons => NotColon(c)
    case NonLineEnds => NotLineEnd(c)
    case NonWordEnds => NotWordEnd(c)
    case NonLfs => NotLf(c)
    case Digits => IsDigit(c)
    case ChunkDigits => IsChunkDigit(c)
  }

  /** The position where a C scanning loop `for (; i < limit && test(s[i]); i++)`
      stops. */
  function ScanWhile(s: string, i: nat, limit: int, cls: CharClass): (j: nat)
    requires limit <= |s|
    ensures i <= j
    ensures j > i ==> j <= limit
    ensures j < limit ==> !InClass(cls, s[j])
    decreases |s| - i
  {
    if i < limit && InClass(cls, s[i]) then ScanWhile(s, i + 1, limit, cls) else i
  }

  /** Every character a scan passes over passes the test. */
  lemma {:induction false} ScanWhilePasses(s: string, i: nat, limit: int, cls: CharClass)
    requires limit <= |s|
    ensures forall k :: i <= k < ScanWhile(s, i, limit, cls) ==> InClass(cls, s[k])
    decreases |s| - i
  {
    if i < limit && InClass(cls, s[i]) {
      ScanWhilePasses(s, i + 1, limit, cls);
    }
  }

  /** The scanning loop itself: `while (i < limit && test(s[i])) i++;`. */
  method Scan(s: string, i: nat, limit: int, cls: CharClass) returns (j: nat)
    requires limit <= |s|
    ensures j == ScanWhile(s, i, limit, cls)
  {
    j := i;
    while j < limit && InClass(cls, s[j])
      invariant i <= j
      invariant j > i ==> j <= limit
      invariant ScanWhile(s, j, limit, cls) == ScanWhile(s, i, limit, cls)
      decreases |s| - j
    {
      j := j + 1;
    }
  }

  /** A scan stops at the first position that fails the test or reaches the limit. */
  lemma {:induction false} ScanWhileStopsAt(s: string, i: nat, limit: int, cls: CharClass, j: nat)
    requires limit <= |s| && i <= j
    requires j > i ==> j <= limit
    requires forall k :: i <= k < j ==> InClass(cls, s[k])
    requires j < limit ==> !InClass(cls, s[j])
    ensures ScanWhile(s, i, limit, cls) == j
    decreases j - i
  {
    if i < j {
      assert InClass(cls, s[i]);
      ScanWhileStopsAt(s, i + 1, limit, cls, j);
    }
  }

  /** The value the chunk-size loop gives a character: c - '0', c - 'A' + 10
      or c - 'a' + 10. */
  function ChunkDigitValue(c: char): nat
    requires IsChunkDigit(c)
  {
    if IsDigit(c) then c as int - '0' as int
    else if IsUpper(c) then c as int - 'A' as int + 10
    else c as int - 'a' as int + 10
  }

  predicate AllChunkDigits(s: string) {
    forall k :: 0 <= k < |s| ==> IsChunkDigit(s[k])
  }

  /** chunk_len = chunk_len * 16 + digit, over a run of chunk digits. */
  function ChunkSize(s: string): nat
    requires AllChunkDigits(s)
  {
    if |s| == 0 then 0 else ChunkSize(s[..|s| - 1]) * 16 + ChunkDigitValue(s[|s| - 1])
  }

  // ---- the header block ----

  /** strcasecmp(name, "Transfer-Encoding") == 0 && strcasecmp(value, "chunked") == 0. */
  predicate IsChunkedCoding(h: Header) {
    CaseEqual(h.name, "Transfer-Encoding") && CaseEqual(h.value, "chunked")
  }

  /** Some header of the list asks for chunked coding: the flag the header
      loop raises (http.c:67-70). */
  predicate AnyChunked(hs: seq<Header>)
    decreases |hs|
  {
    |hs| > 0 && (IsChunkedCoding(hs[0]) || AnyChunked(hs[1..]))
  }

  /** The flag after one more header: raised by it or already before. */
  lemma {:induction false} AnyChunkedAppend(hs: seq<Header>, h: Header)
    ensures AnyChunked(hs + [h]) == (AnyChunked(hs) || IsChunkedCoding(h))
    decreases |hs|
  {
    if |hs| == 0 {
      assert [] + [h] == [h];
      assert AnyChunked([h]) == (IsChunkedCoding(h) || AnyChunked([]));
    } else {
      assert (hs + [h])[1..] == hs[1..] + [h];
      AnyChunkedAppend(hs[1..], h);
    }
  }

  /** The headers read by the header loop, and where the content starts. */
  datatype HeaderBlock = HeaderBlock(headers: seq<Header>, next: nat)

  /** The headers and the content a decoder hands back. */
  datatype Entity = Entity(headers: seq<Header>, body: Option<string>)

  /** A block that starts with the given headers. */
  function Prefixed(hs: seq<Header>, r: Result<HeaderBlock>): Result<HeaderBlock> {
    match r
    case Malformed => Malformed
    case Ok(b) => Ok(HeaderBlock(hs + b.headers, b.next))
  }

  /** The end of the block (http.c:75-81): the cursor must be at LF, and the
      content starts after it. Reading at the end of the buffer fails. */
  function BlockEnd(buf: string, i: nat): (r: Result<HeaderBlock>)
    ensures r.Ok? ==> r.value.next == i + 1 <= |buf|
  {
    if i < |buf| && buf[i] == '\n' then Ok(HeaderBlock([], i + 1)) else Malformed
  }

  /** One header line from its first character at j (http.c:43-73): the
      name runs to the first ':' (there must be one), spaces after it are
      skipped, the value runs to CR, LF or NUL but never takes the last
      byte, and one CR after it is skipped. Gives the header and the cursor
      for the next round of the loop. */
  function HeaderLine(buf: string, j: nat): (r: Result<(Header, nat)>)
    requires j < |buf|
    ensures r.Ok? ==> j < r.value.1 <= |buf|
  {
    var colon := ScanWhile(buf, j, |buf|, NonColons);
    if colon == |buf| then Malformed
    else
      var vs := ScanWhile(buf, colon + 1, |buf| - 1, Spaces);
      var ve := ScanWhile(buf, vs, |buf| - 1, NonLineEnds);
      var next := if ve < |buf| - 1 && buf[ve] == '\r' then ve + 1 else ve;
      Ok((Header(CStr(buf[j..colon]), buf[vs..ve]), next))
  }

  /** The header loop of decode_headers_content (http.c:32-81) from a loop
      head at i: while the cursor is at an LF that is not the last byte, a
      CRLF or LF right after it ends the block, and anything else is a
      header line. */
  function HeaderLines(buf: string, i: nat): (r: Result<HeaderBlock>)
    requires i <= |buf|
    ensures r.Ok? ==> i < r.value.next <= |buf|
    decreases |buf| - i
  {
    if i < |buf| - 1 && buf[i] == '\n' then
      var j := i + 1;
      if buf[j] == '\r' && j < |buf| - 1 && buf[j + 1] == '\n' then BlockEnd(buf, j + 1)
      else if buf[j] == '\n' then BlockEnd(buf, j)
      else
        match HeaderLine(buf, j)
        case Malformed => Malformed
        case Ok((h, next)) => Prefixed([h], HeaderLines(buf, next))
    else BlockEnd(buf, i)
  }

  // ---- chunked content ----

  /** The chunk-extension loop (http.c:107-116) from i: it stops at a CR, or
      at a byte followed by LF, and the cursor then skips two bytes. It
      fails when it reaches size-2 or would read past the end. */
  function SkipExtension(buf: string, i: nat): (r: Result<nat>)
    ensures r.Ok? ==> i + 2 <= r.value <= |buf| + 1
    decreases |buf| - i
  {
    if i >= |buf| then Malformed
    else if buf[i] == '\r' then Ok(i + 2)
    else if i + 1 >= |buf| then Malformed
    else if buf[i + 1] == '\n' then Ok(i + 2)
    else if i >= |buf| - 2 then Malformed
    else SkipExtension(buf, i + 1)
  }

  /** Text p followed by the outcome r. */
  function Prepend(p: string, r: Result<string>): Result<string> {
    match r
    case Malformed => Malformed
    case Ok(s) => Ok(p + s)
  }

  /** The chunk loop (http.c:90-128) from the start of a chunk at i: the
      payloads of the chunks up to the zero-size one, concatenated. A chunk
      must fit, with its CRLF, in the buffer; the total never exceeds the
      rest of the input. */
  function Chunks(buf: string, i: nat): (r: Result<string>)
    requires i <= |buf|
    ensures r.Ok? ==> |r.value| <= |buf| - i
    decreases |buf| - i
  {
    var e := ScanWhile(buf, i, |buf| - 2, ChunkDigits);
    ScanWhilePasses(buf, i, |buf| - 2, ChunkDigits);
    var len := ChunkSize(buf[i..e]);
    match SkipExtension(buf, e)
    case Malformed => Malformed
    case Ok(x) =>
      if len == 0 then Ok([])
      else if x + len + 2 > |buf| then Malformed
      else Prepend(buf[x..x + len], Chunks(buf, x + len + 2))
  }

  /** decode_headers_content (http.c:25-154): the headers, then either the
      chunked payload (no body when it is empty) or every remaining byte
      (no body when nothing remains). */
  function HeadersContent(buf: string, off: nat): Result<Entity>
    requires off <= |buf|
  {
    match HeaderLines(buf, off)
    case Malformed => Malformed
    case Ok(block) =>
      if AnyChunked(block.headers) then
        match Chunks(buf, block.next)
        case Malformed => Malformed
        case Ok(body) => Ok(Entity(block.headers, if body == [] then None else Some(body)))
      else if block.next == |buf| then Ok(Entity(block.headers, None))
      else Ok(Entity(block.headers, Some(buf[block.next..])))
  }

  // ---- request line and status line ----

  /** j is where a request-line scan from i stops at a space: every byte
      before it is a non-space below size-5 and at most cap. */
  predicate SpaceAt(buf: string, i: nat, cap: int, j: int) {
    i <= j < |buf| && buf[j] == ' '
    && forall k :: i <= k < j ==> buf[k] != ' ' && k < |buf| - 5 && k <= cap
  }

  /** A scan stops at one place only: the first space. */
  lemma SpaceAtUnique(buf: string, i: nat, cap: int, j1: int, j2: int)
    requires SpaceAt(buf, i, cap, j1) && SpaceAt(buf, i, cap, j2)
    ensures j1 == j2
  {
  }

  /** The method and path scans (http.c:410-415, 421-426): the first space
      from i, or None when a non-space is met at or beyond size-5 or beyond
      cap, or the scan would read past the end. */
  function SpaceFrom(buf: string, i: nat, cap: int): (r: Option<nat>)
    ensures r.Some? ==> i <= r.value < |buf| && buf[r.value] == ' '
    decreases |buf| - i
  {
    if i >= |buf| then None
    else if buf[i] == ' ' then Some(i)
    else if i >= |buf| - 5 || i > cap then None
    else SpaceFrom(buf, i + 1, cap)
  }

  /** The scan finds a space exactly when one is reachable: the position it
      gives is where the scan stops, and when it gives none there is no such
      position. */
  lemma {:induction false} SpaceFromSpec(buf: string, i: nat, cap: int)
    ensures SpaceFrom(buf, i, cap).Some? ==> SpaceAt(buf, i, cap, SpaceFrom(buf, i, cap).value)
    ensures SpaceFrom(buf, i, cap).None? ==> forall j :: !SpaceAt(buf, i, cap, j)
    decreases |buf| - i
  {
    if i < |buf| && buf[i] != ' ' && i < |buf| - 5 && i <= cap {
      SpaceAtStep(buf, i, cap);
      SpaceFromSpec(buf, i + 1, cap);
    }
  }

  /** Past a non-space that the scan accepts, the scan stops at the same place. */
  lemma SpaceAtStep(buf: string, i: nat, cap: int)
    requires i < |buf| && buf[i] != ' ' && i < |buf| - 5 && i <= cap
    ensures forall j :: SpaceAt(buf, i, cap, j) <==> SpaceAt(buf, i + 1, cap, j)
  {
    forall j | SpaceAt(buf, i + 1, cap, j)
      ensures SpaceAt(buf, i, cap, j)
    {
      SpaceAtBack(buf, i, cap, j);
    }
    forall j | SpaceAt(buf, i, cap, j)
      ensures SpaceAt(buf, i + 1, cap, j)
    {
      assert j != i;
    }
  }

  lemma SpaceAtBack(buf: string, i: nat, cap: int, j: int)
    requires i < |buf| && buf[i] != ' ' && i < |buf| - 5 && i <= cap
    requires SpaceAt(buf, i + 1, cap, j)
    ensures SpaceAt(buf, i, cap, j)
  {
    forall k | i <= k < j
      ensures buf[k] != ' ' && k < |buf| - 5 && k <= cap
    {
      if k != i {
        assert i + 1 <= k;
      }
    }
  }

  /** Where the parts of a request line end: the space after the method,
      the space after the path, the end of the version and the LF. */
  datatype RequestHead = RequestHead(methodEnd: nat, pathEnd: nat, versionEnd: nat, lf: nat)

  /** The rest of a request line after the path that ends at p
      (http.c:431-451): "HTTP/", the version up to CR, LF or NUL, an
      optional CR and an LF. */
  function VersionLine(buf: string, m: nat, p: nat): (r: Option<RequestHead>)
    ensures r.Some? ==> r.value.methodEnd == m && r.value.pathEnd == p
    ensures r.Some? ==> p + 6 <= r.value.versionEnd <= r.value.lf < |buf| && buf[r.value.lf] == '\n'
  {
    var v := p + 1;
    if v > |buf| - 5 || buf[v..v + 5] != "HTTP/" then None
    else
      var ve := ScanWhile(buf, v + 5, |buf|, NonLineEnds);
      var lf := if ve < |buf| - 1 && buf[ve] == '\r' then ve + 1 else ve;
      if lf >= |buf| || buf[lf] != '\n' then None
      else Some(RequestHead(m, p, ve, lf))
  }

  /** The request line (http.c:409-451): the method ends at the first space
      (within the first 31 bytes), the path at the next space, then the
      version part follows. */
  function RequestLineScan(buf: string): (r: Option<RequestHead>)
    ensures r.Some? ==> r.value.methodEnd < r.value.pathEnd
    ensures r.Some? ==> r.value.pathEnd + 6 <= r.value.versionEnd <= r.value.lf < |buf|
  {
    match SpaceFrom(buf, 0, 30)
    case None => None
    case Some(m) =>
      match SpaceFrom(buf, m + 1, |buf|)
      case None => None
      case Some(p) => VersionLine(buf, m, p)
  }

  /** yaz_decode_http_request (http.c:402-454): the request line, then the
      headers and content after its LF. */
  function ParseRequest(buf: string): Result<Request> {
    match RequestLineScan(buf)
    case None => Malformed
    case Some(h) =>
      match HeadersContent(buf, h.lf)
      case Malformed => Malformed
      case Ok(e) =>
        Ok(Request(CStr(buf[..h.methodEnd]), CStr(buf[h.methodEnd + 1..h.pathEnd]),
          buf[h.pathEnd + 6..h.versionEnd], e.headers, e.body))
  }

  /** yaz_decode_http_response (http.c:368-400), for a buffer that starts
      with "HTTP/": the version runs from offset 5 to a space, CR, LF or NUL
      (bounded by size-2) and must end at a space; the code is the value of
      the digit run after it (0 when there is none); the rest of the line
      is skipped. */
  function ParseResponse(buf: string): Result<Response>
    requires |buf| >= 5 && buf[..5] == "HTTP/"
  {
    var ve := ScanWhile(buf, 5, |buf| - 2, NonWordEnds);
    if ve >= |buf| || buf[ve] != ' ' then Malformed
    else
      var ce := ScanWhile(buf, ve + 1, |buf| - 2, Digits);
      var eol := ScanWhile(buf, ce, |buf| - 1, NonLfs);
      match HeadersContent(buf, eol)
      case Malformed => Malformed
      case Ok(e) => Ok(Response(buf[5..ve], DigitsValue(buf[ve + 1..ce]), e.headers, e.body))
  }

  // ---- the decoders as the source runs them ----

  // The unfoldings of HeaderLines, one per way through the loop body.

  lemma HeaderLinesStop(buf: string, i: nat)
    requires i <= |buf| && !(i < |buf| - 1 && buf[i] == '\n')
    ensures HeaderLines(buf, i) == BlockEnd(buf, i)
  {
  }

  lemma HeaderLinesCrLf(buf: string, i: nat)
    requires i < |buf| - 1 && buf[i] == '\n'
    requires buf[i + 1] == '\r' && i + 1 < |buf| - 1 && buf[i + 2] == '\n'
    ensures HeaderLines(buf, i) == BlockEnd(buf, i + 2)
  {
  }

  lemma HeaderLinesLf(buf: string, i: nat)
    requires i < |buf| - 1 && buf[i] == '\n'
    requires !(buf[i + 1] == '\r' && i + 1 < |buf| - 1 && buf[i + 2] == '\n') && buf[i + 1] == '\n'
    ensures HeaderLines(buf, i) == BlockEnd(buf, i + 1)
  {
  }

  lemma HeaderLinesBadLine(buf: string, i: nat)
    requires i < |buf| - 1 && buf[i] == '\n'
    requires !(buf[i + 1] == '\r' && i + 1 < |buf| - 1 && buf[i + 2] == '\n') && buf[i + 1] != '\n'
    requires HeaderLine(buf, i + 1).Malformed?
    ensures HeaderLines(buf, i) == Malformed
  {
  }

  lemma HeaderLinesStep(buf: string, i: nat, h: Header, next: nat)
    requires i < |buf| - 1 && buf[i] == '\n'
    requires !(buf[i + 1] == '\r' && i + 1 < |buf| - 1 && buf[i + 2] == '\n') && buf[i + 1] != '\n'
    requires HeaderLine(buf, i + 1) == Ok((h, next))
    ensures HeaderLines(buf, i) == Prefixed([h], HeaderLines(buf, next))
  {
  }

  /** One header line read in the loop, carried to the whole block. */
  lemma HeaderAdvance(buf: string, i: nat, h: Header, next: nat, headers: seq<Header>, whole: Result<HeaderBlock>)
    requires i < |buf| - 1 && buf[i] == '\n'
    requires !(buf[i + 1] == '\r' && i + 1 < |buf| - 1 && buf[i + 2] == '\n') && buf[i + 1] != '\n'
    requires HeaderLine(buf, i + 1) == Ok((h, next))
    requires whole == Prefixed(headers, HeaderLines(buf, i))
    ensures whole == Prefixed(headers + [h], HeaderLines(buf, next))
  {
    HeaderLinesStep(buf, i, h, next);
    PrefixedPrefixed(headers, [h], HeaderLines(buf, next));
  }

  /** HeaderLine with its three scans done. */
  lemma HeaderLineAt(buf: string, j: nat, colon: nat, vs: nat, ve: nat)
    requires j < |buf| && colon < |buf|
    requires colon == ScanWhile(buf, j, |buf|, NonColons)
    requires vs == ScanWhile(buf, colon + 1, |buf| - 1, Spaces)
    requires ve == ScanWhile(buf, vs, |buf| - 1, NonLineEnds)
    ensures HeaderLine(buf, j) ==
      Ok((Header(CStr(buf[j..colon]), buf[vs..ve]), if ve < |buf| - 1 && buf[ve] == '\r' then ve + 1 else ve))
  {
  }

  /** HeadersContent for a block without chunked coding. */
  lemma HeadersContentPlain(buf: string, off: nat, block: HeaderBlock)
    requires off <= |buf| && HeaderLines(buf, off) == Ok(block) && !AnyChunked(block.headers)
    ensures HeadersContent(buf, off) ==
      Ok(Entity(block.headers, if block.next == |buf| then None else Some(buf[block.next..])))
  {
  }

  /** VersionLine once the version scan is known, for a CRLF ending. */
  lemma VersionLineAt(buf: string, m: nat, p: nat, ve: nat)
    requires p + 1 <= |buf| - 5 && buf[p + 1..p + 6] == "HTTP/"
    requires ScanWhile(buf, p + 6, |buf|, NonLineEnds) == ve
    requires ve < |buf| - 1 && buf[ve] == '\r' && buf[ve + 1] == '\n'
    ensures VersionLine(buf, m, p) == Some(RequestHead(m, p, ve, ve + 1))
  {
  }

  /** RequestLineScan once the two space scans are known. */
  lemma RequestLineScanAt(buf: string, m: nat, p: nat)
    requires SpaceFrom(buf, 0, 30) == Some(m) && SpaceFrom(buf, m + 1, |buf|) == Some(p)
    ensures RequestLineScan(buf) == VersionLine(buf, m, p)
  {
  }

  /** ParseRequest once the request line and the entity are known. */
  lemma ParseRequestAt(buf: string, h: RequestHead, e: Entity)
    requires RequestLineScan(buf) == Some(h) && HeadersContent(buf, h.lf) == Ok(e)
    ensures ParseRequest(buf) ==
      Ok(Request(CStr(buf[..h.methodEnd]), CStr(buf[h.methodEnd + 1..h.pathEnd]),
        buf[h.pathEnd + 6..h.versionEnd], e.headers, e.body))
  {
  }

  /** ParseResponse once its scans are known. */
  lemma ParseResponseAt(buf: string, ve: nat, ce: nat, eol: nat, e: Entity)
    requires |buf| >= 5 && buf[..5] == "HTTP/"
    requires ScanWhile(buf, 5, |buf| - 2, NonWordEnds) == ve && ve < |buf| && buf[ve] == ' '
    requires ScanWhile(buf, ve + 1, |buf| - 2, Digits) == ce
    requires ScanWhile(buf, ce, |buf| - 1, NonLfs) == eol
    requires HeadersContent(buf, eol) == Ok(e)
    ensures ParseResponse(buf) == Ok(Response(buf[5..ve], DigitsValue(buf[ve + 1..ce]), e.headers, e.body))
  {
  }

  /** ParseResponse when no space follows the version. */
  lemma ParseResponseNoSpace(buf: string, ve: nat)
    requires |buf| >= 5 && buf[..5] == "HTTP/"
    requires ScanWhile(buf, 5, |buf| - 2, NonWordEnds) == ve && (ve >= |buf| || buf[ve] != ' ')
    ensures ParseResponse(buf) == Malformed
  {
  }

  /** ParseResponse when the headers or the content are malformed. */
  lemma ParseResponseBadEntity(buf: string, ve: nat, ce: nat, eol: nat)
    requires |buf| >= 5 && buf[..5] == "HTTP/"
    requires ScanWhile(buf, 5, |buf| - 2, NonWordEnds) == ve && ve < |buf| && buf[ve] == ' '
    requires ScanWhile(buf, ve + 1, |buf| - 2, Digits) == ce
    requires ScanWhile(buf, ce, |buf| - 1, NonLfs) == eol
    requires HeadersContent(buf, eol).Malformed?
    ensures ParseResponse(buf) == Malformed
  {
  }

  // The unfoldings of Chunks, one per way through the loop body.

  lemma ChunksBadExtension(buf: string, i: nat, e: nat)
    requires i <= |buf| && e == ScanWhile(buf, i, |buf| - 2, ChunkDigits)
    requires SkipExtension(buf, e).Malformed?
    ensures Chunks(buf, i) == Malformed
  {
  }

  lemma ChunksLast(buf: string, i: nat, e: nat)
    requires i <= |buf| && e == ScanWhile(buf, i, |buf| - 2, ChunkDigits)
    requires AllChunkDigits(buf[i..e]) && ChunkSize(buf[i..e]) == 0
    requires SkipExtension(buf, e).Ok?
    ensures Chunks(buf, i) == Ok([])
  {
  }

  lemma ChunksTooLong(buf: string, i: nat, e: nat, len: nat, x: nat)
    requires i <= |buf| && e == ScanWhile(buf, i, |buf| - 2, ChunkDigits)
    requires AllChunkDigits(buf[i..e]) && len == ChunkSize(buf[i..e]) && len != 0
    requires SkipExtension(buf, e) == Ok(x) && x + len + 2 > |buf|
    ensures Chunks(buf, i) == Malformed
  {
  }

  lemma ChunksStep(buf: string, i: nat, e: nat, len: nat, x: nat)
    requires i <= |buf| && e == ScanWhile(buf, i, |buf| - 2, ChunkDigits)
    requires AllChunkDigits(buf[i..e]) && len == ChunkSize(buf[i..e]) && len != 0
    requires SkipExtension(buf, e) == Ok(x) && x + len + 2 <= |buf|
    ensures Chunks(buf, i) == Prepend(buf[x..x + len], Chunks(buf, x + len + 2))
  {
  }

  /** What the head of the chunk at i says of the chunks from i: malformed,
      the last chunk, or a payload from p of size len in front of the
      chunks after its CRLF. */
  predicate HeadOutcome(buf: string, i: nat, r: Result<nat>, len: nat)
    requires i <= |buf|
  {
    && (r.Malformed? ==> Chunks(buf, i) == Malformed)
    && (r.Ok? ==> i <= r.value)
    && (r.Ok? && len == 0 ==> Chunks(buf, i) == Ok([]))
    && (r.Ok? && len != 0 ==> StepsTo(buf, i, r.value, len))
  }

  /** The chunk at i has a payload from p of size len, followed by its CRLF
      and the next chunk. */
  predicate StepsTo(buf: string, i: nat, p: nat, len: nat)
    requires i <= |buf|
  {
    p + len + 2 <= |buf| && Chunks(buf, i) == Prepend(buf[p..p + len], Chunks(buf, p + len + 2))
  }

  lemma MalformedHead(buf: string, i: nat, len: nat)
    requires i <= |buf| && Chunks(buf, i) == Malformed
    ensures HeadOutcome(buf, i, Malformed, len)
  {
  }

  lemma LastHead(buf: string, i: nat, p: nat)
    requires i <= p && i <= |buf| && Chunks(buf, i) == Ok([])
    ensures HeadOutcome(buf, i, Ok(p), 0)
  {
  }

  lemma StepHead(buf: string, i: nat, p: nat, len: nat)
    requires i <= p && len != 0 && i <= |buf| && StepsTo(buf, i, p, len)
    ensures HeadOutcome(buf, i, Ok(p), len)
  {
  }

  lemma PrefixedPrefixed(hs: seq<Header>, h: seq<Header>, r: Result<HeaderBlock>)
    ensures Prefixed(hs, Prefixed(h, r)) == Prefixed(hs + h, r)
  {
    if r.Ok? {
      assert hs + (h + r.value.headers) == (hs + h) + r.value.headers;
    }
  }

  lemma PrefixedNothing(r: Result<HeaderBlock>)
    ensures Prefixed([], r) == r
  {
    if r.Ok? {
      assert [] + r.value.headers == r.value.headers;
    }
  }

  lemma PrependNothing(r: Result<string>)
    ensures Prepend([], r) == r
  {
    if r.Ok? {
      assert [] + r.value == r.value;
    }
  }

  lemma PrependPrepend(p: string, q: string, r: Result<string>)
    ensures Prepend(p, Prepend(q, r)) == Prepend(p + q, r)
  {
    if r.Ok? {
      assert p + (q + r.value) == (p + q) + r.value;
    }
  }

  /** One header line (http.c:43-73), from its first character at j. */
  method ReadHeaderLine(buf: string, j: nat) returns (r: Result<(Header, nat)>)
    requires j < |buf|
    ensures r == HeaderLine(buf, j)
  {
    // the name runs to the first ':'
    var i: nat := j;
    while true
      invariant j <= i <= |buf|
      invariant forall k :: j <= k < i ==> NotColon(buf[k])
      decreases |buf| - i
    {
      if i == |buf| {
        ScanWhileStopsAt(buf, j, |buf|, NonColons, i);
        return Malformed;
      }
      if buf[i] == ':' {
        break;
      }
      i := i + 1;
    }
    ScanWhileStopsAt(buf, j, |buf|, NonColons, i);
    var name := CStr(buf[j..i]);
    // spaces are skipped; the value runs to CR, LF or NUL
    var po := Scan(buf, i + 1, |buf| - 1, Spaces);
    i := Scan(buf, po, |buf| - 1, NonLineEnds);
    var value := buf[po..i];
    if i < |buf| - 1 && buf[i] == '\r' {
      i := i + 1;
    }
    r := Ok((Header(name, value), i));
  }

  /** One round of the header loop at an LF that is not the last byte
      (http.c:34-73): a CRLF or LF after it ends the block, and anything else
      is read as a header line. */
  method ReadHeaderRound(buf: string, i: nat, ghost headers: seq<Header>, ghost whole: Result<HeaderBlock>)
      returns (r: Result<Option<Header>>, next: nat)
    requires i < |buf| - 1 && buf[i] == '\n'
    requires whole == Prefixed(headers, HeaderLines(buf, i))
    ensures HeaderRound(buf, i, headers, whole, r, next)
  {
    var j := i + 1;
    if buf[j] == '\r' && j < |buf| - 1 && buf[j + 1] == '\n' {
      HeaderLinesCrLf(buf, i);
      return Ok(None), j + 1;
    }
    if buf[j] == '\n' {
      HeaderLinesLf(buf, i);
      return Ok(None), j;
    }
    var line := ReadHeaderLine(buf, j);
    if line.Malformed? {
      HeaderLinesBadLine(buf, i);
      return Malformed, j;
    }
    var (h, n) := line.value;
    HeaderAdvance(buf, i, h, n, headers, whole);
    r, next := Ok(Some(h)), n;
  }

  /** Where a round of the header loop leaves the whole block: malformed,
      ended at the LF at next, or with one more header and the loop head at
      next. */
  predicate HeaderRound(buf: string, i: nat, headers: seq<Header>, whole: Result<HeaderBlock>,
    r: Result<Option<Header>>, next: nat)
  {
    match r
    case Malformed => whole == Malformed
    case Ok(None) => whole == Prefixed(headers, BlockEnd(buf, next))
    case Ok(Some(h)) =>
      i < next <= |buf| && whole == Prefixed(headers + [h], HeaderLines(buf, next))
  }

  /** The header loop of decode_headers_content (http.c:32-81): the headers
      in input order, the chunked flag and the start of the content. */
  method ReadHeaderLines(buf: string, off: nat) returns (r: Result<HeaderBlock>, chunked: bool)
    requires off <= |buf|
    ensures r == HeaderLines(buf, off)
    ensures r.Ok? ==> chunked == AnyChunked(r.value.headers)
  {
    var i := off;
    var headers: seq<Header> := [];
    chunked := false;
    ghost var whole := HeaderLines(buf, off);
    ghost var ended := false;
    PrefixedNothing(whole);
    while i < |buf| - 1 && buf[i] == '\n'
      invariant off <= i <= |buf|
      invariant whole == Prefixed(headers, HeaderLines(buf, i))
      invariant chunked == AnyChunked(headers)
      invariant !ended
      decreases |buf| - i
    {
      var round, next := ReadHeaderRound(buf, i, headers, whole);
      if round.Malformed? {
        return Malformed, false;
      }
      if round.value.None? {
        i := next;
        ended := true;
        break;
      }
      var h := round.value.value;
      var isChunked := CaseEqual(h.name, "Transfer-Encoding") && CaseEqual(h.value, "chunked");
      AnyChunkedAppend(headers, h);
      headers := headers + [h];
      chunked := chunked || isChunked;
      i := next;
    }
    if !ended {
      HeaderLinesStop(buf, i);
    }
    assert whole == Prefixed(headers, BlockEnd(buf, i));
    // the block ends at an LF; reading at the end of the buffer fails
    if i >= |buf| || buf[i] != '\n' {
      return Malformed, false;
    }
    assert headers + [] == headers;
    r := Ok(HeaderBlock(headers, i + 1));
  }

  /** The chunk-size loop (http.c:94-105): where the run of digits and
      letters from i stops, and its value in base 16. */
  method ReadChunkSize(buf: string, i: nat) returns (e: nat, chunkLen: nat)
    requires i <= |buf|
    ensures e == ScanWhile(buf, i, |buf| - 2, ChunkDigits)
    ensures AllChunkDigits(buf[i..e]) && chunkLen == ChunkSize(buf[i..e])
  {
    e := i;
    chunkLen := 0;
    while e < |buf| - 2
      invariant i <= e <= |buf|
      invariant e > i ==> e <= |buf| - 2
      invariant AllChunkDigits(buf[i..e])
      invariant chunkLen == ChunkSize(buf[i..e])
      decreases |buf| - e
    {
      var c := buf[e];
      if IsDigit(c) {
        chunkLen := chunkLen * 16 + (c as int - '0' as int);
      } else if IsUpper(c) {
        chunkLen := chunkLen * 16 + (c as int - ('A' as int - 10));
      } else if IsLower(c) {
        chunkLen := chunkLen * 16 + (c as int - ('a' as int - 10));
      } else {
        break;
      }
      assert buf[i..e + 1] == buf[i..e] + [c];
      e := e + 1;
    }
    forall k | i <= k < e
      ensures IsChunkDigit(buf[k])
    {
      assert buf[i..e][k - i] == buf[k];
    }
    ScanWhileStopsAt(buf, i, |buf| - 2, ChunkDigits, e);
  }

  /** The chunk-extension loop (http.c:107-116), checking each read first. */
  method ReadChunkExtension(buf: string, e: nat) returns (r: Result<nat>)
    ensures r == SkipExtension(buf, e)
  {
    var i := e;
    while true
      invariant e <= i
      invariant SkipExtension(buf, i) == SkipExtension(buf, e)
      decreases |buf| - i
    {
      if i >= |buf| {
        return Malformed;
      }
      if buf[i] == '\r' {
        break;
      }
      if i + 1 >= |buf| {
        return Malformed;
      }
      if buf[i + 1] == '\n' {
        break;
      }
      if i >= |buf| - 2 {
        return Malformed;
      }
      i := i + 1;
    }
    r := Ok(i + 2);
  }

  /** The copy of one payload after the payloads acc held in content[..off],
      and the offset moved past it (http.c:124-127). */
  method AppendChunk(content: array<char>, off: nat, buf: string, x: nat, len: nat, ghost acc: string)
      returns (off': nat, ghost acc': string)
    requires off + len <= content.Length && x + len <= |buf| && acc == content[..off]
    modifies content
    ensures off' == off + len && acc' == acc + buf[x..x + len] && acc' == content[..off']
  {
    CopyChunk(content, off, buf, x, len);
    off' := off + len;
    acc' := acc + buf[x..x + len];
  }

  /** memcpy of one chunk's payload to the content buffer at off. */
  method CopyChunk(content: array<char>, off: nat, buf: string, x: nat, len: nat)
    requires off + len <= content.Length && x + len <= |buf|
    modifies content
    ensures content[..off + len] == old(content[..off]) + buf[x..x + len]
  {
    forall k | 0 <= k < len {
      content[off + k] := buf[x + k];
    }
  }

  /** One round of the chunk loop up to the copy (http.c:92-123): the size
      digits, the extension up to its CRLF, and the guard on the size. Gives
      where the payload starts and the size; a zero size ends the chunks,
      and a non-zero one puts its payload in front of the chunks after its
      CRLF. */
  method ReadChunkHead(buf: string, i: nat, off: nat) returns (r: Result<nat>, len: nat)
    requires i <= |buf| && off <= i
    ensures HeadOutcome(buf, i, r, len)
  {
    var e, chunkLen := ReadChunkSize(buf, i);
    len := chunkLen;
    var x := ReadChunkExtension(buf, e);
    if x.Malformed? {
      ChunksBadExtension(buf, i, e);
      MalformedHead(buf, i, len);
      return Malformed, len;
    }
    var p := x.value;
    if chunkLen == 0 {
      ChunksLast(buf, i, e);
      LastHead(buf, i, p);
      return Ok(p), len;
    }
    // the source checks off + chunk_len against the size; the model also
    // keeps the payload and its CRLF inside the buffer
    if off + chunkLen > |buf| || p + chunkLen + 2 > |buf| {
      ChunksTooLong(buf, i, e, chunkLen, p);
      MalformedHead(buf, i, len);
      return Malformed, len;
    }
    ChunksStep(buf, i, e, chunkLen, p);
    StepHead(buf, i, p, chunkLen);
    r := Ok(p);
  }

  /** One round of the chunk loop from a head at i, where the payloads so
      far, acc, lie in content[..off]: reads the chunk's head and copies a
      non-zero chunk's payload after them. The outcome of the whole loop is
      carried from acc and i to the new payloads and the next head. */
  method CopyNextChunk(content: array<char>, buf: string, start: nat, i: nat, off: nat,
      ghost acc: string, ghost whole: Result<string>)
      returns (r: Result<bool>, next: nat, off': nat, ghost acc': string)
    requires start <= i <= |buf| && off <= i - start && content.Length == |buf| - start
    requires acc == content[..off] && whole == Prepend(acc, Chunks(buf, i))
    modifies content
    ensures RoundOutcome(buf, i, whole, r, next, acc')
    ensures r.Ok? ==> off' <= next - start && acc' == content[..off']
  {
    next, off', acc' := i, off, acc;
    var head, len := ReadChunkHead(buf, i, off);
    if head.Malformed? {
      MalformedOutcome(buf, i, len, acc, whole);
      return Malformed, next, off', acc';
    }
    var p := head.value;
    if len == 0 {
      LastOutcome(buf, i, p, acc, whole);
      return Ok(true), next, off', acc';
    }
    AdvanceOutcome(buf, i, p, len, acc, whole);
    off', acc' := AppendChunk(content, off, buf, p, len, acc);
    next := p + len + 2;
    r := Ok(false);
  }

  /** Where a round leaves the whole loop: malformed, finished with the
      payloads acc, or with acc read and the next head at next. */
  predicate RoundOutcome(buf: string, i: nat, whole: Result<string>, r: Result<bool>, next: nat, acc: string)
    requires i <= |buf|
  {
    match r
    case Malformed => whole == Malformed
    case Ok(last) =>
      i <= next <= |buf|
      && (last ==> whole == Ok(acc))
      && (!last ==> i < next && whole == Prepend(acc, Chunks(buf, next)))
  }

  lemma MalformedOutcome(buf: string, i: nat, len: nat, acc: string, whole: Result<string>)
    requires i <= |buf| && HeadOutcome(buf, i, Malformed, len)
    requires whole == Prepend(acc, Chunks(buf, i))
    ensures RoundOutcome(buf, i, whole, Malformed, i, acc)
  {
  }

  lemma LastOutcome(buf: string, i: nat, p: nat, acc: string, whole: Result<string>)
    requires i <= |buf| && HeadOutcome(buf, i, Ok(p), 0)
    requires whole == Prepend(acc, Chunks(buf, i))
    ensures RoundOutcome(buf, i, whole, Ok(true), i, acc)
  {
    assert acc + [] == acc;
  }

  lemma AdvanceOutcome(buf: string, i: nat, p: nat, len: nat, acc: string, whole: Result<string>)
    requires i <= |buf| && len != 0 && HeadOutcome(buf, i, Ok(p), len)
    requires whole == Prepend(acc, Chunks(buf, i))
    ensures i <= p && p + len + 2 <= |buf|
    ensures RoundOutcome(buf, i, whole, Ok(false), p + len + 2, acc + buf[p..p + len])
  {
    PrependPrepend(acc, buf[p..p + len], Chunks(buf, p + len + 2));
  }

  /** The chunk loop (http.c:83-131): each payload is copied into a buffer
      sized for the rest of the input, at the running offset. */
  method ReadChunks(buf: string, start: nat) returns (r: Result<string>)
    requires start <= |buf|
    ensures r == Chunks(buf, start)
  {
    var content := new char[|buf| - start];
    var i := start;
    var off: nat := 0;
    ghost var acc: string := [];
    PrependNothing(Chunks(buf, start));
    while true
      invariant content.Length == |buf| - start
      invariant start <= i <= |buf|
      invariant off <= i - start
      invariant acc == content[..off]
      invariant Chunks(buf, start) == Prepend(acc, Chunks(buf, i))
      decreases |buf| - i
    {
      var round;
      round, i, off, acc := CopyNextChunk(content, buf, start, i, off, acc, Chunks(buf, start));
      if round.Malformed? {
        return Malformed;
      }
      if round.value {
        break;
      }
    }
    r := Ok(content[..off]);
  }

  /** decode_headers_content (http.c:25-154): the header block, then the
      chunked payload (no body when it is empty) or a copy of the remaining
      bytes (no body when nothing remains). */
  method DecodeHeadersContent(buf: string, off: nat) returns (r: Result<Entity>)
    requires off <= |buf|
    ensures r == HeadersContent(buf, off)
  {
    var block, chunked := ReadHeaderLines(buf, off);
    if block.Malformed? {
      return Malformed;
    }
    var i := block.value.next;
    if chunked {
      var body := ReadChunks(buf, i);
      if body.Malformed? {
        return Malformed;
      }
      r := Ok(Entity(block.value.headers, if body.value == [] then None else Some(body.value)));
    } else if i == |buf| {
      r := Ok(Entity(block.value.headers, None));
    } else {
      r := Ok(Entity(block.value.headers, Some(buf[i..])));
    }
  }

  /** The method and path loops (http.c:410-415, 421-426): advance to a
      space, failing at or beyond size-5 or beyond cap, checking each read
      first. */
  method FindSpace(buf: string, i: nat, cap: int) returns (r: Option<nat>)
    ensures r == SpaceFrom(buf, i, cap)
  {
    var j := i;
    while true
      invariant i <= j
      invariant SpaceFrom(buf, j, cap) == SpaceFrom(buf, i, cap)
      decreases |buf| - j
    {
      if j >= |buf| {
        return None;
      }
      if buf[j] == ' ' {
        break;
      }
      if j >= |buf| - 5 || j > cap {
        return None;
      }
      j := j + 1;
    }
    r := Some(j);
  }

  /** The status-code loop (http.c:390-395): code = code*10 + digit while the
      cursor is below size-2 at a digit. */
  method ReadCode(buf: string, i: nat) returns (e: nat, code: int)
    requires i <= |buf|
    ensures e == ScanWhile(buf, i, |buf| - 2, Digits)
    ensures code == DigitsValue(buf[i..e])
  {
    e := i;
    code := 0;
    while e < |buf| - 2 && '0' <= buf[e] <= '9'
      invariant i <= e <= |buf|
      invariant e > i ==> e <= |buf| - 2
      invariant forall k :: i <= k < e ==> IsDigit(buf[k])
      invariant code == DigitsValue(buf[i..e])
      decreases |buf| - e
    {
      assert buf[i..e + 1][..e - i] == buf[i..e];
      code := code * 10 + (buf[e] as int - '0' as int);
      e := e + 1;
    }
    ScanWhileStopsAt(buf, i, |buf| - 2, Digits, e);
  }

  /** The request-line part of yaz_decode_http_request (http.c:409-451). */
  method ReadRequestLine(buf: string) returns (r: Option<RequestHead>)
    ensures r == RequestLineScan(buf)
  {
    // method
    var m := FindSpace(buf, 0, 30);
    if m.None? {
      return None;
    }
    // path
    var p := FindSpace(buf, m.value + 1, |buf|);
    if p.None? {
      return None;
    }
    // HTTP version
    var i := p.value + 1;
    if i > |buf| - 5 || buf[i..i + 5] != "HTTP/" {
      return None;
    }
    i := Scan(buf, i + 5, |buf|, NonLineEnds);
    var ve := i;
    if i < |buf| - 1 && buf[i] == '\r' {
      i := i + 1;
    }
    if i >= |buf| || buf[i] != '\n' {
      return None;
    }
    r := Some(RequestHead(m.value, p.value, ve, i));
  }

  /** yaz_decode_http_request (http.c:402-454). */
  method DecodeRequest(buf: string) returns (r: Result<Request>)
    ensures r == ParseRequest(buf)
  {
    var h := ReadRequestLine(buf);
    if h.None? {
      return Malformed;
    }
    var httpMethod := CStr(buf[..h.value.methodEnd]);
    var path := CStr(buf[h.value.methodEnd + 1..h.value.pathEnd]);
    var version := buf[h.value.pathEnd + 6..h.value.versionEnd];
    var e := DecodeHeadersContent(buf, h.value.lf);
    if e.Malformed? {
      return Malformed;
    }
    r := Ok(Request(httpMethod, path, version, e.value.headers, e.value.body));
  }

  /** yaz_decode_http_response (http.c:368-400), for a buffer that starts
      with "HTTP/". */
  method DecodeResponse(buf: string) returns (r: Result<Response>)
    requires |buf| >= 5 && buf[..5] == "HTTP/"
    ensures r == ParseResponse(buf)
  {
    var i := Scan(buf, 5, |buf| - 2, NonWordEnds);
    var version := buf[5..i];
    if i >= |buf| || buf[i] != ' ' {
      ParseResponseNoSpace(buf, i);
      return Malformed;
    }
    ghost var ve := i;
    i := i + 1;
    var ce, code := ReadCode(buf, i);
    i := Scan(buf, ce, |buf| - 1, NonLfs);
    var e := DecodeHeadersContent(buf, i);
    if e.Malformed? {
      ParseResponseBadEntity(buf, ve, ce, i);
      return Malformed;
    }
    ParseResponseAt(buf, ve, ce, i, e.value);
    r := Ok(Response(version, code, e.value.headers, e.value.body));
  }
}
