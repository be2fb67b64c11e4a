/** What the decoders of src/http.c promise about the lines they read,
    stated against the decoding functions: when the request line is
    accepted and which bytes make up its parts, how the status line is
    split, the shape of one header line, the LF that closes every header
    block, and the chunked content of a worked example. */
module HttpDecodeFacts {
  import opened Wrappers
  import opened CStrings
  import opened HttpMessages
  import opened HttpDecode

  // ---- the request line ----

  /** A version part after the path that ends at p: "HTTP/", then the
      version up to ve, where a CR, LF or NUL stops it. */
  predicate VersionUpTo(buf: string, p: nat, ve: nat) {
    p + 6 <= ve <= |buf| && buf[p + 1..p + 6] == "HTTP/"
    && (forall k :: p + 6 <= k < ve ==> NotLineEnd(buf[k]))
    && (ve < |buf| ==> !NotLineEnd(buf[ve]))
  }

  /** The line ends at ve with an LF, or with CR LF. */
  predicate LineEndAt(buf: string, ve: nat) {
    (ve < |buf| && buf[ve] == '\n') || (ve + 1 < |buf| && buf[ve] == '\r' && buf[ve + 1] == '\n')
  }

  /** The version scan stops where VersionUpTo says. */
  lemma VersionScan(buf: string, p: nat, ve: nat)
    requires VersionUpTo(buf, p, ve)
    ensures ScanWhile(buf, p + 6, |buf|, NonLineEnds) == ve
  {
    ScanWhileStopsAt(buf, p + 6, |buf|, NonLineEnds, ve);
  }

  /** The first failure: no space within the first 31 bytes, before size-5. */
  lemma RequestWithoutMethod(buf: string)
    requires forall j :: !SpaceAt(buf, 0, 30, j)
    ensures ParseRequest(buf) == Malformed
  {
    SpaceFromSpec(buf, 0, 30);
  }

  /** The second failure: the method ends at m, but no space follows the
      path before size-5. */
  lemma RequestWithoutPath(buf: string, m: nat, po: nat)
    requires SpaceAt(buf, 0, 30, m) && po == m + 1
    requires forall j :: !SpaceAt(buf, po, |buf|, j)
    ensures ParseRequest(buf) == Malformed
  {
    SpaceFromSpec(buf, 0, 30);
    SpaceAtUnique(buf, 0, 30, m, SpaceFrom(buf, 0, 30).value);
    SpaceFromSpec(buf, po, |buf|);
  }

  /** The method and path end at m and p, as the scans find them. */
  lemma RequestSpaces(buf: string, m: nat, p: nat)
    requires SpaceAt(buf, 0, 30, m) && SpaceAt(buf, m + 1, |buf|, p)
    ensures RequestLineScan(buf) == VersionLine(buf, m, p)
  {
    SpaceFromSpec(buf, 0, 30);
    SpaceAtUnique(buf, 0, 30, m, SpaceFrom(buf, 0, 30).value);
    SpaceFromSpec(buf, m + 1, |buf|);
    SpaceAtUnique(buf, m + 1, |buf|, p, SpaceFrom(buf, m + 1, |buf|).value);
  }

  /** The third failure: the path ends at p, but "HTTP/" does not follow. */
  lemma RequestWithoutHttp(buf: string, m: nat, p: nat)
    requires SpaceAt(buf, 0, 30, m) && SpaceAt(buf, m + 1, |buf|, p)
    requires !(p + 6 <= |buf| && buf[p + 1..p + 6] == "HTTP/")
    ensures ParseRequest(buf) == Malformed
  {
    RequestSpaces(buf, m, p);
  }

  /** The fourth failure: the version ends at ve, and neither LF nor CR LF
      follows it. */
  lemma RequestWithoutLineEnd(buf: string, m: nat, p: nat, ve: nat)
    requires SpaceAt(buf, 0, 30, m) && SpaceAt(buf, m + 1, |buf|, p)
    requires VersionUpTo(buf, p, ve) && !LineEndAt(buf, ve)
    ensures ParseRequest(buf) == Malformed
  {
    RequestSpaces(buf, m, p);
    VersionScan(buf, p, ve);
  }

  /** Otherwise the request line is accepted, with its parts where the
      delimiters put them. */
  lemma RequestLineFound(buf: string, m: nat, p: nat, ve: nat)
    requires SpaceAt(buf, 0, 30, m) && SpaceAt(buf, m + 1, |buf|, p)
    requires VersionUpTo(buf, p, ve) && LineEndAt(buf, ve)
    ensures RequestLineScan(buf) == Some(RequestHead(m, p, ve, if buf[ve] == '\r' then ve + 1 else ve))
  {
    RequestSpaces(buf, m, p);
    VersionScan(buf, p, ve);
  }

  /** An accepted request line: the method ends at the first space, the
      path at the next one, and the version runs from after "HTTP/" to a
      line end. */
  lemma RequestDelimiters(buf: string)
    requires RequestLineScan(buf).Some?
    ensures var h := RequestLineScan(buf).value;
      SpaceAt(buf, 0, 30, h.methodEnd) && SpaceAt(buf, h.methodEnd + 1, |buf|, h.pathEnd)
      && VersionUpTo(buf, h.pathEnd, h.versionEnd) && LineEndAt(buf, h.versionEnd)
  {
    var h := RequestLineScan(buf).value;
    SpaceFromSpec(buf, 0, 30);
    SpaceFromSpec(buf, h.methodEnd + 1, |buf|);
    ScanWhilePasses(buf, h.pathEnd + 6, |buf|, NonLineEnds);
  }

  // ---- the status line ----

  /** The version scan of a response stops at ve: the bytes from offset 5
      are not space, CR, LF or NUL, and the scan ends at a delimiter or
      at size-2. Decoding fails unless the byte there is a space, and
      otherwise the version is the bytes from 5 to ve. */
  lemma StatusVersion(buf: string, ve: nat)
    requires |buf| >= 5 && buf[..5] == "HTTP/"
    requires 5 <= ve && (ve > 5 ==> ve <= |buf| - 2)
    requires forall k :: 5 <= k < ve ==> NotWordEnd(buf[k])
    requires ve < |buf| - 2 ==> !NotWordEnd(buf[ve])
    ensures (ve >= |buf| || buf[ve] != ' ') ==> ParseResponse(buf) == Malformed
    ensures ParseResponse(buf).Ok? ==> ve < |buf| && buf[ve] == ' ' && ParseResponse(buf).value.version == buf[5..ve]
  {
    ScanWhileStopsAt(buf, 5, |buf| - 2, NonWordEnds, ve);
  }

  /** An accepted status line: the version holds no space, CR, LF or NUL
      and a space follows it. */
  lemma StatusLineVersion(buf: string)
    requires |buf| >= 5 && buf[..5] == "HTTP/" && ParseResponse(buf).Ok?
    ensures var r := ParseResponse(buf).value;
      var ve := 5 + |r.version|;
      ve < |buf| && buf[ve] == ' ' && buf[5..ve] == r.version
      && (forall k :: 0 <= k < |r.version| ==> NotWordEnd(r.version[k]))
  {
    var ve := ScanWhile(buf, 5, |buf| - 2, NonWordEnds);
    ScanWhilePasses(buf, 5, |buf| - 2, NonWordEnds);
    StatusVersion(buf, ve);
    assert forall k :: 0 <= k < ve - 5 ==> buf[5..ve][k] == buf[5 + k];
  }

  /** An accepted status line: the code is the value of the digit run
      after the space that ends the version, and 0 when no digit follows. */
  lemma StatusCode(buf: string)
    requires |buf| >= 5 && buf[..5] == "HTTP/" && ParseResponse(buf).Ok?
    ensures var r := ParseResponse(buf).value;
      var ve := 5 + |r.version|;
      var ce := ScanWhile(buf, ve + 1, |buf| - 2, Digits);
      (forall k :: ve + 1 <= k < ce ==> IsDigit(buf[k])) && r.code == DigitsValue(buf[ve + 1..ce])
    ensures var r := ParseResponse(buf).value;
      var ve := 5 + |r.version|;
      (ve + 1 >= |buf| - 2 || !IsDigit(buf[ve + 1])) ==> r.code == 0
  {
    var ve := ScanWhile(buf, 5, |buf| - 2, NonWordEnds);
    ScanWhilePasses(buf, 5, |buf| - 2, NonWordEnds);
    StatusVersion(buf, ve);
    ScanWhilePasses(buf, ve + 1, |buf| - 2, Digits);
  }

  // ---- the header block ----

  /** A header line fails exactly when no ':' follows its start in the
      buffer. */
  lemma HeaderLineNeedsColon(buf: string, j: nat)
    requires j < |buf|
    ensures HeaderLine(buf, j).Malformed? <==> forall k :: j <= k < |buf| ==> buf[k] != ':'
  {
    ScanWhilePasses(buf, j, |buf|, NonColons);
  }

  /** An accepted header line: the name is the start of the line, holds
      no ':' or NUL, and ends where the line has its first ':' or a NUL. */
  lemma HeaderNameShape(buf: string, j: nat)
    requires j < |buf| && HeaderLine(buf, j).Ok?
    ensures var h := HeaderLine(buf, j).value.0;
      j + |h.name| < |buf| && h.name == buf[j..j + |h.name|]
      && (forall k :: 0 <= k < |h.name| ==> h.name[k] != ':' && h.name[k] != '\0')
      && buf[j + |h.name|] in {':', '\0'}
  {
    var colon := ScanWhile(buf, j, |buf|, NonColons);
    ScanWhilePasses(buf, j, |buf|, NonColons);
    var name := CStr(buf[j..colon]);
    assert forall k :: 0 <= k < |name| ==> name[k] == buf[j + k];
    assert |name| < colon - j ==> buf[j..colon][|name|] == buf[j + |name|];
  }

  /** An accepted header line whose first ':' is at c, and vs the first
      byte after the spaces that follow it (the skipping stops before the
      last byte of the buffer): the value starts at vs, holds no CR, LF or
      NUL, and ends at the first of them or before the last byte. */
  lemma HeaderValueShape(buf: string, j: nat, c: nat, vs: nat)
    requires j <= c < |buf| && buf[c] == ':' && forall k :: j <= k < c ==> buf[k] != ':'
    requires c < vs <= |buf| && forall k :: c < k < vs ==> buf[k] == ' '
    requires vs > c + 1 ==> vs <= |buf| - 1
    requires vs < |buf| - 1 ==> buf[vs] != ' '
    ensures HeaderLine(buf, j).Ok?
    ensures var h := HeaderLine(buf, j).value.0;
      vs + |h.value| <= |buf| && h.value == buf[vs..vs + |h.value|]
      && (forall k :: 0 <= k < |h.value| ==> NotLineEnd(h.value[k]))
      && (|h.value| > 0 ==> h.value[0] != ' ' && vs + |h.value| <= |buf| - 1)
      && (vs + |h.value| < |buf| - 1 ==> !NotLineEnd(buf[vs + |h.value|]))
  {
    var ve := ScanWhile(buf, vs, |buf| - 1, NonLineEnds);
    HeaderValueAt(buf, j, c, vs);
    ScanWhilePasses(buf, vs, |buf| - 1, NonLineEnds);
    assert forall k :: 0 <= k < ve - vs ==> buf[vs..ve][k] == buf[vs + k];
  }

  /** The scans of such a line stop at c and vs, so the value is the run
      the last scan passes over from vs. */
  lemma HeaderValueAt(buf: string, j: nat, c: nat, vs: nat)
    requires j <= c < |buf| && buf[c] == ':' && forall k :: j <= k < c ==> buf[k] != ':'
    requires c < vs <= |buf| && forall k :: c < k < vs ==> buf[k] == ' '
    requires vs > c + 1 ==> vs <= |buf| - 1
    requires vs < |buf| - 1 ==> buf[vs] != ' '
    ensures HeaderLine(buf, j).Ok?
    ensures HeaderLine(buf, j).value.0.value == buf[vs..ScanWhile(buf, vs, |buf| - 1, NonLineEnds)]
  {
    ScanWhileStopsAt(buf, j, |buf|, NonColons, c);
    ScanWhileStopsAt(buf, c + 1, |buf| - 1, Spaces, vs);
    HeaderLineAt(buf, j, c, vs, ScanWhile(buf, vs, |buf| - 1, NonLineEnds));
  }

  /** Every header block the loop accepts ends with an LF: the content
      starts right after one. */
  lemma {:induction false} HeaderBlockEndsWithLf(buf: string, i: nat)
    requires i <= |buf| && HeaderLines(buf, i).Ok?
    ensures buf[HeaderLines(buf, i).value.next - 1] == '\n'
    decreases |buf| - i
  {
    if i < |buf| - 1 && buf[i] == '\n' {
      var j := i + 1;
      if !(buf[j] == '\r' && j < |buf| - 1 && buf[j + 1] == '\n') && buf[j] != '\n' {
        var next := HeaderLine(buf, j).value.1;
        HeaderBlockEndsWithLf(buf, next);
      }
    }
  }

  // ---- chunked content ----

  /** Chunk sizes are read the same in either letter case. */
  lemma {:induction false} ChunkSizeEitherCase(s: string, t: string)
    requires AllChunkDigits(s) && AllChunkDigits(t) && |s| == |t|
    requires forall k :: 0 <= k < |s| ==> ToLower(s[k]) == ToLower(t[k])
    ensures ChunkSize(s) == ChunkSize(t)
    decreases |s|
  {
    if |s| > 0 {
      ChunkSizeEitherCase(s[..|s| - 1], t[..|t| - 1]);
    }
  }

  /** The chunked text of the worked example: chunks "Wiki" and "pedia",
      then the zero-size chunk. */
  const WikiChunks := "4\r\nWiki\r\n5\r\npedia\r\n0\r\n\r\n"

  /** One chunk-size digit d at i, followed by CR: the scan stops after it. */
  lemma OneDigitChunk(buf: string, i: nat, d: nat)
    requires i + 3 < |buf| && d < 10 && buf[i] == DigitChar(d) && buf[i + 1] == '\r'
    ensures ScanWhile(buf, i, |buf| - 2, ChunkDigits) == i + 1
    ensures AllChunkDigits(buf[i..i + 1]) && ChunkSize(buf[i..i + 1]) == d
    ensures SkipExtension(buf, i + 1) == Ok(i + 3)
  {
    ScanWhileStopsAt(buf, i, |buf| - 2, ChunkDigits, i + 1);
    var s := buf[i..i + 1];
    assert s[..0] == [];
  }

  /** The first chunk of the example: four bytes. */
  lemma WikiFirstChunk()
    ensures Chunks(WikiChunks, 0) == Prepend(WikiChunks[3..7], Chunks(WikiChunks, 9))
  {
    OneDigitChunk(WikiChunks, 0, 4);
    ChunksStep(WikiChunks, 0, 1, 4, 3);
  }

  /** The second chunk of the example: five bytes. */
  lemma WikiSecondChunk()
    ensures Chunks(WikiChunks, 9) == Prepend(WikiChunks[12..17], Chunks(WikiChunks, 19))
  {
    OneDigitChunk(WikiChunks, 9, 5);
    ChunksStep(WikiChunks, 9, 10, 5, 12);
  }

  /** The zero-size chunk that ends the example. */
  lemma WikiLastChunk()
    ensures Chunks(WikiChunks, 19) == Ok([])
  {
    OneDigitChunk(WikiChunks, 19, 0);
    ChunksLast(WikiChunks, 19, 20);
  }

  /** The two payloads of the example spell "Wikipedia". */
  lemma WikiPayloads()
    ensures WikiChunks[3..7] + WikiChunks[12..17] == "Wikipedia"
  {
    var w := WikiChunks;
    var body := w[3..7] + w[12..17];
    assert forall k :: 0 <= k < 4 ==> body[k] == w[3 + k];
    assert forall k :: 4 <= k < 9 ==> body[k] == w[8 + k];
    SameChars(body, "Wikipedia");
  }

  /** The chunked example decodes to "Wikipedia". */
  lemma WikipediaChunks()
    ensures Chunks(WikiChunks, 0) == Ok("Wikipedia")
  {
    WikiFirstChunk();
    WikiSecondChunk();
    WikiLastChunk();
    WikiPayloads();
    assert WikiChunks[12..17] + [] == WikiChunks[12..17];
  }

  // ---- the chunk bounds check ----

  /** The guard of http.c:119 as written: a chunk is refused when its size
      is negative or when the output offset plus the size exceeds the
      input size. It does not look at where the chunk starts in the
      input. */
  predicate SourceChunkGuardRejects(off: int, chunkLen: int, size: int) {
    chunkLen < 0 || off + chunkLen > size
  }

  /** A chunk that announces five bytes but carries two. */
  const ShortChunk := "5\r\nab"

  /** The guard as written lets the short chunk through: the size 5 read at
      offset 0, with the payload starting at 3, passes the check, yet the
      payload would end at 8, past the 5 bytes of input, so the memcpy
      reads beyond the buffer. */
  lemma ShortChunkPassesSourceGuard()
    ensures ScanWhile(ShortChunk, 0, |ShortChunk| - 2, ChunkDigits) == 1
    ensures AllChunkDigits(ShortChunk[0..1]) && ChunkSize(ShortChunk[0..1]) == 5
    ensures SkipExtension(ShortChunk, 1) == Ok(3)
    ensures !SourceChunkGuardRejects(0, 5, |ShortChunk|) && 3 + 5 > |ShortChunk|
  {
    OneDigitChunk(ShortChunk, 0, 5);
  }

  /** The chunk loop of the model checks that the payload and its CRLF lie
      within the input, and refuses the short chunk. */
  lemma ShortChunkRejected()
    ensures Chunks(ShortChunk, 0) == Malformed
  {
    OneDigitChunk(ShortChunk, 0, 5);
    ChunksTooLong(ShortChunk, 0, 1, 5, 3);
  }
}
