# YAZ HTTP/1.x codec — a verified model

This project models the HTTP/1.x message codec of the YAZ toolkit. The
modelled sources are:

- `src/http.c`:
  - decoding requests and responses from a complete buffer (request line,
    status line, header block, raw or chunked content);
  - encoding them back to bytes, with a synthesised `Content-Length`;
  - the header-list helpers;
  - the builders of default messages.
- `src/matchstr.c`: the comparators `yaz_matchstr`, `yaz_strcmp_del` and
  `yaz_memcmp`. Header lookup uses `yaz_matchstr`.
- `src/diagsrw.c`: the SRW/SRU diagnostic table and its lookup,
  `yaz_diag_srw_str`.

Modules, one concept each:

| module | file | what it holds |
|---|---|---|
| `Wrappers` | wrappers.dfy | `Option` and `Result`. `Malformed` is the codec's `OHTTP` error. |
| `CStrings` | cstrings.dfy | NUL-terminated strings, ASCII classes, `strchr`/`strstr`, and the decimal text of `%d` |
| `Matchstr` | matchstr.dfy | the three comparators, each a specification plus a loop method proved equal to it |
| `DiagSrw` | diagsrw.dfy | the table of 93 entries plus the sentinel, and the search |
| `Base64` | base64.dfy | base 64 encoding as section 4 of RFC 4648 defines it, with its decoder |
| `HttpMessages` | httpmessages.dfy | headers, requests and responses; `Add`, `Lookup`, `Content-Type`, Basic authorisation and `z_HTTP_errmsg` |
| `HttpDecode` | httpdecode.dfy | the decoders. Each is a recursive function plus an index-cursor method proved to compute it. |
| `HttpDecodeFacts` | httpdecodefacts.dfy | what the decoders promise about the lines they read |
| `HttpEncode` | httpencode.dfy | the encoders. Each is a byte function plus methods that append to an `OdrStream` object. |
| `HttpRoundTrip` | httproundtrip.dfy | decoding what the encoders wrote gives the message back |
| `HttpBuilders` | httpbuilders.dfy | `z_get_HTTP_Request[_host_path\|_uri]` and `z_get_HTTP_Response` |

Conventions:

- A string is a `seq<char>`, one `char` per C `char`.
- A null pointer is `None`.
- `content_buf` and `content_len` together are the body, an `Option<string>`.
- `YAZ_VERSION`, a build constant, is the parameter `yazVersion`.
- The C decoders sometimes read a byte before checking the buffer bound. The model checks first and fails (`Malformed`) where the C code would read past the end:
  - `buf[0]` in the method scan;
  - `buf[i]` after the version scans;
  - the chunk-extension loop;
  - the byte after a `:` that is the last one.

## Model

| member | source | states |
|---|---|---|
| Matchstr.MatchStr | src/matchstr.c:21-49 | the two-cursor loop returns 0 exactly when the strings match under the `?`, `-`, `.` and case-folding rules (`Matches`), and 1 otherwise |
| Matchstr.MatchesPlainIff | src/matchstr.c:21-49 | without `-`, `?` and `.`, a match is equality after ASCII lower-casing in both directions; so a string exhausted before the other never matches |
| Matchstr.MatchesReflexive | src/matchstr.c:21-49 | every string matches itself |
| Matchstr.QuestionMarkMatchesRest | src/matchstr.c:28-29 | a `?` in the second string, reached at a comparison position after an agreeing prefix, makes the match succeed whatever follows |
| Matchstr.DashIsSkipped | src/matchstr.c:32-33 | one `-` in the second string is skipped: the result is that of the string without it |
| Matchstr.DashesAreSkipped | src/matchstr.c:30-33 | a `-` at the same place on both sides is skipped on both, and the comparison goes on with the next characters |
| Matchstr.MatchesAfterPlainPrefix | src/matchstr.c:23-47 | after a prefix that agrees ignoring case, the match is decided by the rest alone |
| Matchstr.LowerCaseNameMatches | src/matchstr.c:36-43 | `content-length` matches `Content-Length` |
| Matchstr.DashlessNameMatches | src/matchstr.c:30-33 | `ContentLength` matches `Content-Length` |
| Matchstr.OtherNameDoesNotMatch | src/matchstr.c:42-48 | `Content-Type` does not match `Content-Length` |
| Matchstr.Lowered | src/matchstr.c:38-41 | lower-casing keeps the length and lower-cases each character |
| Matchstr.StrCmpDel | src/matchstr.c:51-63 | the two-pointer loop returns `DelCompare`: the difference of the first differing characters read as signed chars, or `*a` where b stops at a delimiter |
| Matchstr.DelCompareHighByte | src/matchstr.c:55-61 | a byte from 0x80 on is negative as a `char`: `"\xE9"` against `"a"` gives -120, and `*a` at a delimiter gives -23 for `0xE9` |
| Matchstr.DelCompareZeroIff | src/matchstr.c:51-63 | the result is 0 exactly when a equals b as C strings, or a equals the part of b before a delimiter character |
| Matchstr.DelCompareAntisymmetric | src/matchstr.c:51-63 | without delimiters, swapping the arguments negates the result |
| Matchstr.MemCmpZeroIff | src/matchstr.c:68 | memcmp over equal lengths is 0 exactly for equal runs, and it is antisymmetric |
| Matchstr.YazMemCmpProperties | src/matchstr.c:65-72 | the result is 0 exactly for equal runs of equal length. It is antisymmetric. When one run is a prefix of the other, the result is `len_a - len_b`. |
| DiagSrw.DiagSrwStr | src/diagsrw.c:121-128 | the indexed loop with early return gives `Message(code)`, the recursive search over the table |
| DiagSrw.TableIsWellFormed | src/diagsrw.c:17-119 | the sentinel alone has code 0; the codes before it are positive and strictly increasing |
| DiagSrw.CodeLayout | src/diagsrw.c:17-119 | the code at each index is the one of the table's sections 1-8, 10-74, 80-92, 100-102, 110-111, 120-121 |
| DiagSrw.CodeAtIncreasing | src/diagsrw.c:17-118 | codes strictly increase along the table before the sentinel |
| DiagSrw.CodeAtKnown | src/diagsrw.c:17-118 | every code before the sentinel is a table code, found again at its own index |
| DiagSrw.SentinelOnly | src/diagsrw.c:118 | code 0 appears only in the `{0, 0}` sentinel |
| DiagSrw.IndexOf | src/diagsrw.c:17-117 | every listed code has an index before the sentinel holding it |
| DiagSrw.FindFrom | src/diagsrw.c:124-127 | from any index, the search returns the entry of a known code not yet passed, and null otherwise |
| DiagSrw.MessageOfKnown | src/diagsrw.c:121-128 | a message comes back exactly for the codes the table lists, and it is the message of the entry holding that code |
| DiagSrw.MessageIff | src/diagsrw.c:121-128 | the result is m exactly when some entry before the sentinel is {code, m} |
| DiagSrw.KnownCodes | src/diagsrw.c:18 | code 1 gives "Permanent system error"; code 121 gives "Too many terms requested" |
| DiagSrw.UnknownCodes | src/diagsrw.c:118-127 | codes 0, negative codes, 9, 75-79 and codes above 121 give null |
| Base64.EncodeShape | src/http.c:191-193 | the encoding has four characters per started group of three octets and no NUL |
| Base64.DecodeEncode | src/http.c:193 | decoding the encoding of any octet string gives it back |
| Base64.EncodeConcat | src/http.c:193 | whole groups are encoded independently of what follows |
| Base64.Rfc4648ShortVectors | src/http.c:193 | the RFC 4648 test vectors "", "f", "fo" and "foo" |
| Base64.Rfc4648LongVectors | src/http.c:193 | the RFC 4648 test vectors "foob", "fooba" and "foobar" |
| Base64.SextetRoundTrip | src/http.c:193 | every 6-bit value has an alphabet character that reads back as it |
| Base64.DecodeGroup | src/http.c:193 | a full group of four characters decodes to its three octets, in front of the rest |
| CStrings.CStr | src/http.c:204-205 | the C string of a buffer is its prefix before the first NUL, and it holds no NUL |
| CStrings.DecimalRoundTrip | src/http.c:391-395 | the digit loop reads back the `%d` text of any non-negative number as that number |
| CStrings.FindChar | src/http.c:254 | strchr gives the first index of the character, or none when it is absent |
| CStrings.FindSub | src/http.c:247 | strstr gives the first occurrence from the start index, or none when there is none |
| HttpMessages.Add | src/http.c:198-207 | exactly one header, holding the C strings of the name and value, is appended at the tail; earlier headers are unchanged |
| HttpMessages.FirstMatch | src/http.c:211-213 | the index of the first header whose name matches, or none when no name matches |
| HttpMessages.Lookup | src/http.c:209-215 | none exactly when no name matches; otherwise the value of the first matching header |
| HttpMessages.HeaderLookup | src/http.c:209-215 | the list walk returns `Lookup` |
| HttpMessages.LookupAfterAdd | src/http.c:198-215 | after an append, lookup still finds an earlier match, and otherwise finds the new header if its name matches |
| HttpMessages.LookupCons | src/http.c:211-213 | lookup on a list with a given first header: that header's value if its name matches, else lookup on the rest |
| HttpMessages.AddContentType | src/http.c:156-171 | one `Content-Type` header is appended: `"<type>; charset=<cs>"` with a charset, or the type alone |
| HttpMessages.AddBasicAuth | src/http.c:177-195 | nothing is added for a null user name; otherwise one `Authorization` header is appended |
| HttpMessages.BasicAuthDecodes | src/http.c:183-194 | the `Authorization` value is "Basic " plus base 64 text that decodes to "user:password", where a null password is "" |
| HttpMessages.ErrMsg | src/http.c:352-366 | "Unknown Error" exactly for the codes other than 200, 400, 404, 405 and 500. The phrase is non-empty, shorter than 50 characters, and has no CR, LF or NUL. |
| HttpMessages.ContentLength | src/http.c:142-147 | content_len is 0 exactly when there is no body or an empty one |
| HttpDecode.ScanWhile | src/http.c:58-60 | a scanning loop stops at the limit or at the first character outside its class |
| HttpDecode.ScanWhilePasses | src/http.c:58-60 | every character a scan passes is in its class |
| HttpDecode.ScanWhileStopsAt | src/http.c:58-60 | a scan stops at the first character outside its class (or at the limit), wherever that is |
| HttpDecode.SpaceFromSpec | src/http.c:410-426 | the method and path scans find a space exactly when one is reachable under their bounds, and then they find the first one |
| HttpDecode.HeaderLine | src/http.c:43-73 | an accepted header line ends after its start and within the buffer |
| HttpDecode.HeaderLines | src/http.c:32-81 | an accepted header block ends after its start and within the buffer |
| HttpDecode.Chunks | src/http.c:87-128 | the chunked payload never exceeds the rest of the input |
| HttpDecode.SkipExtension | src/http.c:107-116 | an accepted chunk extension moves the cursor by at least two |
| HttpDecode.ReadHeaderLine | src/http.c:43-73 | the cursor loop computes `HeaderLine` |
| HttpDecode.ReadHeaderRound | src/http.c:34-73 | one round of the header loop, stated against the whole block: a CRLF or LF after the loop's LF ends the block there, a line without `:` makes the block malformed, and otherwise the header read is appended and the next round starts after its line |
| HttpDecode.ReadHeaderLines | src/http.c:32-81 | the header loop computes `HeaderLines`, and its chunked flag is raised exactly when a header asks for chunked coding |
| HttpDecode.ReadChunkSize | src/http.c:94-105 | the size loop stops where the digit-and-letter scan stops, and accumulates the base-16 value of the run |
| HttpDecode.ReadChunkExtension | src/http.c:107-116 | the extension loop computes `SkipExtension` |
| HttpDecode.ReadChunkHead | src/http.c:92-123 | reading a chunk's size and extension: a bad extension or a size that fails the guard makes `Chunks` from that chunk malformed, size 0 ends it with no payload, and otherwise the payload at the returned index comes in front of the chunks after its CRLF |
| HttpDecode.AppendChunk | src/http.c:124-127 | the copy puts the payload right after the bytes already copied, and the offset moves by the payload's size |
| HttpDecode.CopyNextChunk | src/http.c:90-127 | one round of the chunk loop keeps the outcome of the whole loop: malformed, finished with the bytes copied so far, or this payload appended with the next chunk's head after its CRLF |
| HttpDecode.ReadChunks | src/http.c:83-131 | the chunk loop, copying into an array at a running offset, computes `Chunks` |
| HttpDecode.DecodeHeadersContent | src/http.c:25-154 | the method computes `HeadersContent`: the headers, then the chunked payload (none when empty) or the remaining bytes (none when nothing remains) |
| HttpDecode.FindSpace | src/http.c:410-426 | the method computes `SpaceFrom` |
| HttpDecode.ReadCode | src/http.c:390-395 | the code loop stops where the digit scan stops and accumulates the decimal value of the run |
| HttpDecode.ReadRequestLine | src/http.c:409-451 | the method computes `RequestLineScan` |
| HttpDecode.DecodeRequest | src/http.c:402-454 | the method computes `ParseRequest` |
| HttpDecode.DecodeResponse | src/http.c:368-400 | the method computes `ParseResponse` |
| HttpDecode.AnyChunkedAppend | src/http.c:67-70 | the chunked flag after one more header is the old flag or that header's test |
| HttpDecode.HeadersContentPlain | src/http.c:133-152 | one unfolding of `HeadersContent`: without chunked coding, the body is every remaining byte, or none when nothing remains |
| HttpDecode.ChunksStep | src/http.c:90-128 | one unfolding of `Chunks`: a non-zero chunk that fits contributes its payload in front of the following chunks |
| HttpDecode.ChunksLast | src/http.c:117-118 | one unfolding of `Chunks`: the zero-size chunk ends the payload |
| HttpDecode.ChunksTooLong | src/http.c:119-123 | one unfolding of `Chunks`: a chunk whose payload and CRLF overrun the input is refused |
| HttpDecode.ChunksBadExtension | src/http.c:107-115 | one unfolding of `Chunks`: an unterminated chunk extension is refused |
| HttpDecodeFacts.RequestWithoutMethod | src/http.c:410-415 | with no space within the first 31 bytes and before size-5, decoding fails |
| HttpDecodeFacts.RequestWithoutPath | src/http.c:420-426 | with no space after the path before size-5, decoding fails |
| HttpDecodeFacts.RequestWithoutHttp | src/http.c:431-436 | when the bytes after the path are not `HTTP/`, decoding fails |
| HttpDecodeFacts.RequestWithoutLineEnd | src/http.c:439-451 | when neither LF nor CR LF follows the version, decoding fails |
| HttpDecodeFacts.RequestLineFound | src/http.c:409-451 | with both spaces, `HTTP/` and a line end in place, the request line is accepted with its delimiters where they are |
| HttpDecodeFacts.RequestDelimiters | src/http.c:409-451 | an accepted request line has the method ending at the first space, the path at the next one, then `HTTP/`, a version without CR/LF/NUL, and an LF or CR LF |
| HttpDecodeFacts.StatusVersion | src/http.c:377-388 | the status-line version runs from offset 5 to the first space, CR, LF or NUL (bounded by size-2). Decoding fails unless that delimiter is a space; otherwise the version is those bytes. |
| HttpDecodeFacts.StatusLineVersion | src/http.c:377-388 | an accepted version holds no space, CR, LF or NUL and is followed by a space |
| HttpDecodeFacts.StatusCode | src/http.c:389-395 | the code is the decimal value of the digit run after the space, and 0 when no digit follows |
| HttpDecodeFacts.HeaderLineNeedsColon | src/http.c:43-52 | a header line fails exactly when no `:` follows its start |
| HttpDecodeFacts.HeaderNameShape | src/http.c:43-56 | the name is the start of the line, holds no `:` or NUL, and is followed by the line's first `:` or a NUL |
| HttpDecodeFacts.HeaderValueShape | src/http.c:43-65 | with c the first `:` and vs the first byte after the spaces that follow it: the value is the bytes from vs, holds no CR, LF or NUL, stops at the first of them or before the last byte of the buffer, and does not start with a space |
| HttpDecodeFacts.HeaderBlockEndsWithLf | src/http.c:32-81 | every accepted header block ends with an LF |
| HttpDecodeFacts.ChunkSizeEitherCase | src/http.c:94-105 | chunk sizes read the same in upper and lower case |
| HttpDecodeFacts.WikipediaChunks | src/http.c:83-131 | `4\r\nWiki\r\n5\r\npedia\r\n0\r\n\r\n` decodes to `Wikipedia` |
| HttpDecodeFacts.ShortChunkPassesSourceGuard | src/http.c:119 | the guard as written accepts a chunk of size 5 whose payload would run past a 5-byte input |
| HttpDecodeFacts.ShortChunkRejected | src/http.c:117-125 | the model's guard refuses that chunk |
| HttpEncode.OdrStream.Write | src/http.c:465 | odr_write appends the bytes at the end of the output |
| HttpEncode.OdrStream.constructor | src/http.c:460 | a new stream holds no bytes |
| HttpEncode.WriteHeaderLine | src/http.c:477-480 | one header appends `name: value\r\n`, with name and value cut at a NUL |
| HttpEncode.WriteRequestLine | src/http.c:501-509 | appends `<method> <path> HTTP/<version>\r\n` |
| HttpEncode.WriteHeaders | src/http.c:475-481 | the header loop appends `name: value\r\n` for each header, in list order |
| HttpEncode.WriteTail | src/http.c:475-486 | headers, blank line, then the content bytes when there are any |
| HttpEncode.EncodeResponse | src/http.c:456-494 | appends exactly `ResponseBytes`: status line with reason, `Content-Length` only when lookup fails, headers, CRLF, body |
| HttpEncode.EncodeRequest | src/http.c:496-538 | appends exactly `RequestBytes`: request line, `Content-Length` only for non-empty content when lookup fails, headers, CRLF, body |
| HttpEncode.HeaderTextAppend | src/http.c:475-481 | the header text grows by one line per appended header |
| HttpEncode.BodyBytes | src/http.c:483-486 | the content written has content_len bytes |
| HttpRoundTrip.ResponseRoundTrip | src/http.c:368-400 | for a version without space/CR/LF/NUL, code >= 0, readable headers and no chunked coding, decoding the encoded response gives the version, the code, the synthesised `Content-Length` before the headers, and the body (none when empty) |
| HttpRoundTrip.RequestRoundTrip | src/http.c:402-454 | the same for requests with a method of at most 31 bytes and a method and path without spaces |
| HttpRoundTrip.Normalized | src/http.c:140-144 | an empty body reads back as none |
| HttpBuilders.DefaultRequest | src/http.c:218-235 | POST, `/`, version 1.1, no content, and one header: `User-Agent` = "YAZ/" + version |
| HttpBuilders.RequestHostPath | src/http.c:237-268 | the default request with the given path; with a host, a second header `Host` holding the text after the first `://` up to the next `/` |
| HttpBuilders.WithHost | src/http.c:263-264 | the default request with a `Host` header appended after `User-Agent`, both found by lookup |
| HttpBuilders.HostStart | src/http.c:247-252 | the host starts after the first `://`, or at 0 exactly when there is none |
| HttpBuilders.HostStartFirst | src/http.c:274-279 | a non-zero start is 3 past an occurrence of `://`, and no occurrence comes before that one |
| HttpBuilders.HostEnd | src/http.c:254-256 | the host ends at the first `/` after its start, or at the end |
| HttpBuilders.HostOfShape | src/http.c:247-262 | the host holds no `/` and no NUL |
| HttpBuilders.RequestUri | src/http.c:270-311 | POST, 1.1, no content, `User-Agent` and `Host` headers, with a host that holds no `/`. Without `use_full_uri` the path starts with `/`. |
| HttpBuilders.UriParts | src/http.c:274-309 | for a host from s (just after the first `://`, or 0 without one) to e (the next `/`, or the end of the URI): `Host` is the text from s to e. The path is `/` plus args, with args defaulting to the text after that `/`, or to nothing when no `/` follows. With `use_full_uri` the path is the URI up to e, then `/`, then args. |
| HttpBuilders.SlashFreeUriParts | src/http.c:274-309 | a URI with no `/` (so no `://`) is the host itself; the path is `/` and the args, or the URI, `/` and the args with `use_full_uri` |
| HttpBuilders.UriExample | src/http.c:270-311 | `http://z3950.indexdata.com/search?x=1` gives `Host` `z3950.indexdata.com` and path `/search?x=1` |
| HttpBuilders.ResponseFor | src/http.c:313-350 | version 1.1, the code and a `Server` header. For 200 there is no content. Otherwise there is a `Content-Type: text/html` header and the HTML error page as content. |
| HttpBuilders.ResponseHeaders | src/http.c:326-347 | the `Server` header, plus `Content-Type` for any code but 200 |
| HttpBuilders.ErrorPageHoldsCode | src/http.c:331-345 | the error page holds the code in decimal (reading back as the code when it is not negative) and the reason phrase of `z_HTTP_errmsg` |
| HttpBuilders.LookupPair | src/http.c:209-215 | in a two-header list with names of different first letters, each name finds its own value |

## Findings

| source | as written | input that shows it | evidently intended | confidence | as-written member | corrected member |
|---|---|---|---|---|---|---|
| src/http.c:119 | a chunk is refused only when `off + chunk_len > o->size`: the output offset, not the input cursor, is checked | `5\r\nab`: size 5 at offset 0, payload from index 3; `0 + 5 > 5` is false, so memcpy reads bytes 3..7 of a 5-byte buffer | refuse a chunk unless its payload and CRLF lie within the input (`i + chunk_len + 2 <= size`) | high; not executed | HttpDecodeFacts.ShortChunkPassesSourceGuard | HttpDecodeFacts.ShortChunkRejected |

## Left out

- ODR debug printing in the encoders (src/http.c:487-492, 531-536). It is output only.
- The ODR arena and `odr_malloc`/`odr_strdup`. Allocations are fresh values.
- In-place linking of the header list. The list is a `seq<Header>`, and every update gives a new value, so aliasing between structures is not modelled.
- `yaz_base64encode`. Its code is not part of this model, so base 64 is specified by section 4 of RFC 4648.
- The 80-byte status buffer and the 400-byte page buffer, which the source fills with `sprintf`. Their overflow for long versions is not modelled.
- C `int` overflow in `chunk_len`, in the status code, and in `content_len`. The model uses unbounded integers.
- Matchstr.DelCompare and Matchstr.StrCmpDel: `char` is read as signed, as on x86 and x86-64. Where `char` is unsigned, the results differ for bytes 0x80-0xFF; the sign of a difference between a byte below 0x80 and one above flips.
- Matchstr.MemCmp and Matchstr.YazMemCmp: `memcmp` promises only the sign of its result. The model returns one value C allows, the difference of the first differing bytes as unsigned chars.
- Matchstr.YazMemCmp: `len_a - len_b` is a `size_t` difference converted to `int`. The model keeps the exact difference, which agrees with C only when the lengths differ by less than 2^31.
- HttpDecode.ParseResponse: the caller must guarantee the leading `HTTP/`, because the source starts at offset 5 without checking it.
- HttpBuilders.ResponseFor: content_len is the length of the whole page. `strlen` would stop earlier only if `YAZ_VERSION` held a NUL.
- HttpBuilders.ErrorPageHoldsCode: states where the code and reason sit, not the fixed HTML around them.
- HttpRoundTrip.ResponseRoundTrip and HttpRoundTrip.RequestRoundTrip: they assume no chunked `Transfer-Encoding` header, because the encoder writes the body raw and the decoder would read it as chunks. They also do not relate a `Content-Length` header already present to the body, since the decoder never reads that header.
