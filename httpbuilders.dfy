/** The message builders of src/http.c: the default request
    (z_get_HTTP_Request), a request for a host and a path
    (z_get_HTTP_Request_host_path), a request for a URI
    (z_get_HTTP_Request_uri) and the default response with its HTML error
    page (z_get_HTTP_Response).

    The source allocates fresh structures and fills in their fields; every
    field it sets is set once, so a builder is a function from its
    arguments to the message. YAZ_VERSION, a build constant of the
    library, is the parameter yazVersion. */
module HttpBuilders {
  import opened Wrappers
  import opened CStrings
  import opened HttpMessages
  import Matchstr

  /** "YAZ/" YAZ_VERSION, the User-Agent of a request and the Server of a
      response. */
  function Product(yazVersion: string): string {
    "YAZ/" + yazVersion
  }

  /** A literal header name is its own C string, and the lookup of that
      name finds a header that carries it. */
  lemma NameMatchesItself(n: string)
    requires NoNul(n)
    ensures CStr(n) == n && Matchstr.Matches(n, n)
  {
    CStrOfNoNul(n);
    Matchstr.MatchesReflexive(n);
  }

  /** z_get_HTTP_Request (http.c:218-235): POST of "/" with HTTP/1.1, no
      body, and a User-Agent header. */
  function DefaultRequest(yazVersion: string): (r: Request)
    ensures r.httpMethod == "POST" && r.path == "/" && r.version == "1.1"
    ensures r.body.None? && ContentLength(r.body) == 0
    ensures |r.headers| == 1 && Lookup(r.headers, "User-Agent") == Some(CStr(Product(yazVersion)))
  {
    assert NoNul("User-Agent");
    NameMatchesItself("User-Agent");
    LookupAfterAdd([], "User-Agent", Product(yazVersion), "User-Agent");
    Request("POST", "/", "1.1", Add([], "User-Agent", Product(yazVersion)), None)
  }

  // ---- the host part of a URI ----

  /** Where the host starts: after the first "://" (strstr), or at the
      start when there is none. */
  function HostStart(u: string): (s: nat)
    ensures s <= |u|
    ensures s == 0 <==> forall m :: 0 <= m <= |u| ==> !OccursAt(u, "://", m)
  {
    match FindSub(u, "://", 0)
    case None => 0
    case Some(k) => k + 3
  }

  /** HostStart lands just after the first "://", or at 0 when there is
      none. */
  lemma HostStartFirst(u: string)
    ensures HostStartsAt(u, HostStart(u))
  {
    match FindSub(u, "://", 0)
    case None =>
    case Some(k) =>
  }

  /** Where the host ends: at the first '/' from s on (strchr), or at the
      end of the string. */
  function HostEnd(u: string, s: nat): (e: nat)
    requires s <= |u|
    ensures s <= e <= |u|
    ensures forall k :: s <= k < e ==> u[k] != '/'
    ensures e < |u| ==> u[e] == '/'
  {
    match FindChar(u[s..], '/')
    case None => |u|
    case Some(k) => s + k
  }

  /** The Host header value the builders take from a URI. */
  function HostOf(u: string): string {
    u[HostStart(u)..HostEnd(u, HostStart(u))]
  }

  /** The host of a C string holds no NUL and no '/'. */
  lemma HostOfShape(u: string)
    requires NoNul(u)
    ensures NoNul(HostOf(u))
    ensures forall k :: 0 <= k < |HostOf(u)| ==> HostOf(u)[k] != '/'
  {
    var s := HostStart(u);
    var e := HostEnd(u, s);
    assert forall k :: 0 <= k < e - s ==> u[s..e][k] == u[s + k];
  }

  /** yaz_matchstr fails at the first step when the first characters are
      ordinary and differ after lower-casing. */
  lemma FirstCharsDiffer(s1: string, s2: string)
    requires |s1| > 0 && |s2| > 0
    requires s1[0] !in {'-', '?', '.', '\0'} && s2[0] !in {'-', '?', '.', '\0'}
    requires ToLower(s1[0]) != ToLower(s2[0])
    ensures !Matchstr.Matches(s1, s2)
  {
  }

  /** A header name the helpers write: no NUL, and a first character
      with no meaning of its own to yaz_matchstr. */
  predicate OrdinaryName(n: string) {
    NoNul(n) && |n| > 0 && n[0] !in {'-', '?', '.'}
  }

  /** Lookup in a one-header list: the header's own name finds it, a name
      with another first letter finds nothing. */
  lemma LookupSingle(h: Header, n: string)
    requires OrdinaryName(h.name) && OrdinaryName(n)
    ensures Lookup([h], h.name) == Some(h.value)
    ensures ToLower(h.name[0]) != ToLower(n[0]) ==> Lookup([h], n).None?
  {
    NameMatchesItself(h.name);
    assert FirstMatchAt([h], h.name, 0);
    if ToLower(h.name[0]) != ToLower(n[0]) {
      FirstCharsDiffer(h.name, n);
    }
  }

  /** Lookup in a two-header list whose names start with different
      letters: each name finds its own header. */
  lemma LookupPair(h0: Header, h1: Header)
    requires OrdinaryName(h0.name) && OrdinaryName(h1.name)
    requires ToLower(h0.name[0]) != ToLower(h1.name[0])
    ensures Lookup([h0, h1], h0.name) == Some(h0.value)
    ensures Lookup([h0, h1], h1.name) == Some(h1.value)
  {
    NameMatchesItself(h0.name);
    NameMatchesItself(h1.name);
    FirstCharsDiffer(h0.name, h1.name);
    assert FirstMatchAt([h0, h1], h0.name, 0);
    assert FirstMatchAt([h0, h1], h1.name, 1);
  }

  /** The literal names and values the builders write are their own C
      strings. */
  lemma LiteralCStrs()
    ensures CStr("User-Agent") == "User-Agent" && CStr("Host") == "Host"
    ensures CStr("Server") == "Server" && CStr("Content-Type") == "Content-Type"
    ensures CStr("text/html") == "text/html"
  {
    assert NoNul("User-Agent") && NoNul("Host");
    assert NoNul("Server") && NoNul("Content-Type") && NoNul("text/html");
    CStrOfNoNul("User-Agent");
    CStrOfNoNul("Host");
    CStrOfNoNul("Server");
    CStrOfNoNul("Content-Type");
    CStrOfNoNul("text/html");
  }

  /** The header names the builders write, told apart by yaz_matchstr at
      their first letter. */
  lemma LiteralNames()
    ensures OrdinaryName("User-Agent") && OrdinaryName("Host")
    ensures OrdinaryName("Server") && OrdinaryName("Content-Type")
    ensures ToLower("User-Agent"[0]) != ToLower("Host"[0])
    ensures ToLower("Server"[0]) != ToLower("Content-Type"[0])
  {
    assert NoNul("User-Agent") && NoNul("Host");
    assert NoNul("Server") && NoNul("Content-Type");
  }

  /** The User-Agent header of a request. */
  function UserAgentHeader(yazVersion: string): Header {
    Header("User-Agent", CStr(Product(yazVersion)))
  }

  /** The headers of the request builders: the User-Agent of the default
      request, then the Host. */
  lemma RequestHeaderList(yazVersion: string, host: string)
    requires NoNul(host)
    ensures DefaultRequest(yazVersion).headers == [UserAgentHeader(yazVersion)]
    ensures Add([UserAgentHeader(yazVersion)], "Host", host) == [UserAgentHeader(yazVersion), Header("Host", host)]
  {
    LiteralCStrs();
    CStrOfNoNul(host);
  }

  /** Lookup finds each of those headers under its name, and no Host
      before it is added. */
  lemma RequestLookups(yazVersion: string, host: string)
    ensures Lookup([UserAgentHeader(yazVersion)], "Host").None?
    ensures Lookup([UserAgentHeader(yazVersion), Header("Host", host)], "User-Agent") == Some(CStr(Product(yazVersion)))
    ensures Lookup([UserAgentHeader(yazVersion), Header("Host", host)], "Host") == Some(host)
  {
    LiteralNames();
    LookupSingle(UserAgentHeader(yazVersion), "Host");
    LookupPair(UserAgentHeader(yazVersion), Header("Host", host));
  }

  /** The default request with a Host header appended, as both URI
      builders make it: lookup finds the User-Agent and the host. */
  function WithHost(yazVersion: string, host: string): (r: Request)
    requires NoNul(host)
    ensures r.httpMethod == "POST" && r.path == "/" && r.version == "1.1" && r.body.None?
    ensures |r.headers| == 2
    ensures Lookup(r.headers, "User-Agent") == Some(CStr(Product(yazVersion)))
    ensures Lookup(r.headers, "Host") == Some(host)
  {
    RequestHeaderList(yazVersion, host);
    RequestLookups(yazVersion, host);
    var d := DefaultRequest(yazVersion);
    d.(headers := Add(d.headers, "Host", host))
  }

  /** z_get_HTTP_Request_host_path (http.c:237-268): the default request
      with the given path and, when there is a host, a Host header holding
      the host part of it. */
  function RequestHostPath(host: Option<string>, path: string, yazVersion: string): (r: Request)
    ensures r.httpMethod == "POST" && r.version == "1.1" && r.body.None?
    ensures r.path == CStr(path)
    ensures Lookup(r.headers, "User-Agent") == Some(CStr(Product(yazVersion)))
    ensures host.None? ==> |r.headers| == 1 && Lookup(r.headers, "Host").None?
    ensures host.Some? ==> |r.headers| == 2 && Lookup(r.headers, "Host") == Some(HostOf(CStr(host.value)))
  {
    if host.None? then
      var d := DefaultRequest(yazVersion);
      RequestHeaderList(yazVersion, "");
      RequestLookups(yazVersion, "");
      d.(path := CStr(path))
    else
      var u := CStr(host.value);
      HostOfShape(u);
      WithHost(yazVersion, HostOf(u)).(path := CStr(path))
  }

  /** The arguments part of a request for a URI: args when given, else
      what follows the '/' that ends the host, else nothing. */
  function UriArgs(u: string, e: nat, args: Option<string>): string
    requires e <= |u|
  {
    if args.Some? then CStr(args.value)
    else if e < |u| then u[e + 1..]
    else ""
  }

  /** The path of a request for a URI: "/" and the arguments, preceded by
      the URI up to the end of the host when the full URI is asked for. */
  function UriPath(u: string, args: Option<string>, useFullUri: bool): string {
    var e := HostEnd(u, HostStart(u));
    (if useFullUri then u[..e] else "") + ("/" + UriArgs(u, e, args))
  }

  /** z_get_HTTP_Request_uri (http.c:270-311): the default request with a
      Host header from the URI and the path built from the URI and the
      arguments. */
  function RequestUri(uri: string, args: Option<string>, useFullUri: bool, yazVersion: string): (r: Request)
    ensures r.httpMethod == "POST" && r.version == "1.1" && r.body.None?
    ensures |r.headers| == 2
    ensures Lookup(r.headers, "User-Agent") == Some(CStr(Product(yazVersion)))
    ensures Lookup(r.headers, "Host") == Some(HostOf(CStr(uri)))
    ensures forall k :: 0 <= k < |HostOf(CStr(uri))| ==> HostOf(CStr(uri))[k] != '/'
    ensures !useFullUri ==> |r.path| >= 1 && r.path[0] == '/'
  {
    var u := CStr(uri);
    HostOfShape(u);
    WithHost(yazVersion, HostOf(u)).(path := UriPath(u, args, useFullUri))
  }

  /** The host of a URI starts at s: just after its first "://", or at
      0 when it has none. */
  predicate HostStartsAt(uri: string, s: nat) {
    if s == 0 then
      forall m :: 0 <= m <= |uri| ==> !OccursAt(uri, "://", m)
    else
      s >= 3 && OccursAt(uri, "://", s - 3)
      && forall k :: 0 <= k < s - 3 ==> !OccursAt(uri, "://", k)
  }

  /** The host of a URI that starts at s ends at e: at the first '/'
      from s on, or at the end of the URI when there is none. */
  predicate HostEndsAt(uri: string, s: nat, e: nat) {
    s <= e <= |uri| && (forall k :: s <= k < e ==> uri[k] != '/')
    && (e < |uri| ==> uri[e] == '/')
  }

  /** A URI whose host runs from s to e: the Host header is the host; the
      path is "/" and the arguments when given, else "/" and what follows
      the '/' that ends the host (nothing when no '/' follows); the
      full-URI path keeps the URI up to the end of the host in front. */
  lemma UriParts(uri: string, s: nat, e: nat, args: Option<string>, yazVersion: string)
    requires NoNul(uri) && HostStartsAt(uri, s) && HostEndsAt(uri, s, e)
    ensures var a := if args.Some? then CStr(args.value) else if e < |uri| then uri[e + 1..] else "";
      Lookup(RequestUri(uri, args, false, yazVersion).headers, "Host") == Some(uri[s..e])
      && RequestUri(uri, args, false, yazVersion).path == "/" + a
      && RequestUri(uri, args, true, yazVersion).path == uri[..e] + ("/" + a)
  {
    CStrOfNoNul(uri);
    UriHost(uri, s, e);
    var a := if args.Some? then CStr(args.value) else if e < |uri| then uri[e + 1..] else "";
    assert UriArgs(uri, e, args) == a;
    assert "" + ("/" + a) == "/" + a;
  }

  /** The host of such a URI runs from s to e. */
  lemma UriHost(uri: string, s: nat, e: nat)
    requires HostStartsAt(uri, s) && HostEndsAt(uri, s, e)
    ensures HostStart(uri) == s && HostEnd(uri, s) == e
    ensures HostOf(uri) == uri[s..e]
  {
    if s > 0 {
      FindSubFirst(uri, "://", 0, s - 3);
    }
  }

  /** strstr finds the first occurrence: the first index from k on where
      the pattern occurs. */
  lemma {:induction false} FindSubFirst(s: string, pat: string, k: nat, m: nat)
    requires k <= m <= |s| && OccursAt(s, pat, m)
    requires forall i :: k <= i < m ==> !OccursAt(s, pat, i)
    ensures FindSub(s, pat, k) == Some(m)
    decreases m - k
  {
    if k < m {
      FindSubFirst(s, pat, k + 1, m);
    }
  }

  const ExampleUri := "http://z3950.indexdata.com/search?x=1"

  /** Where the example URI's "://" and host are. */
  lemma ExampleUriShape()
    ensures NoNul(ExampleUri) && |ExampleUri| == 37
    ensures OccursAt(ExampleUri, "://", 4)
    ensures forall k :: 0 <= k < 4 ==> !OccursAt(ExampleUri, "://", k)
    ensures forall k :: 7 <= k < 26 ==> ExampleUri[k] != '/'
    ensures ExampleUri[26] == '/'
  {
    var u := ExampleUri;
    assert forall k :: 0 <= k < 3 ==> u[4..7][k] == u[4 + k];
    SameChars(u[4..7], "://");
    forall k | 0 <= k < 4
      ensures !OccursAt(u, "://", k)
    {
      assert u[k..k + 3][0] == u[k];
    }
  }

  /** The host and the rest of the example URI. */
  lemma ExampleUriParts()
    ensures ExampleUri[7..26] == "z3950.indexdata.com"
    ensures "/" + ExampleUri[27..] == "/search?x=1"
  {
    var u := ExampleUri;
    assert forall k :: 0 <= k < 19 ==> u[7..26][k] == u[7 + k];
    SameChars(u[7..26], "z3950.indexdata.com");
    assert forall k :: 0 <= k < 11 ==> ("/" + u[27..])[k] == u[26 + k];
    SameChars("/" + u[27..], "/search?x=1");
  }

  /** The example of the library's documentation:
      http://z3950.indexdata.com/search?x=1 asks host z3950.indexdata.com
      for /search?x=1. */
  lemma UriExample(yazVersion: string)
    ensures var r := RequestUri(ExampleUri, None, false, yazVersion);
      Lookup(r.headers, "Host") == Some("z3950.indexdata.com") && r.path == "/search?x=1"
  {
    ExampleUriShape();
    UriParts(ExampleUri, 7, 26, None, yazVersion);
    ExampleUriParts();
  }

  /** A URI with no '/' has no "://" either: its host is all of it. */
  lemma SlashFreeUri(uri: string)
    requires forall k :: 0 <= k < |uri| ==> uri[k] != '/'
    ensures HostStartsAt(uri, 0) && HostEndsAt(uri, 0, |uri|)
  {
    forall m | 0 <= m <= |uri|
      ensures !OccursAt(uri, "://", m)
    {
      if m + 3 <= |uri| {
        assert uri[m..m + 3][1] == uri[m + 1] != '/';
      }
    }
  }

  /** A URI with neither "://" nor '/' (localhost:9999, say) is the host
      itself: the path is "/" and the arguments, or the URI, "/" and the
      arguments when the full URI is asked for. */
  lemma SlashFreeUriParts(uri: string, args: Option<string>, yazVersion: string)
    requires NoNul(uri) && forall k :: 0 <= k < |uri| ==> uri[k] != '/'
    ensures var a := if args.Some? then CStr(args.value) else "";
      Lookup(RequestUri(uri, args, false, yazVersion).headers, "Host") == Some(uri)
      && RequestUri(uri, args, false, yazVersion).path == "/" + a
      && RequestUri(uri, args, true, yazVersion).path == uri + ("/" + a)
  {
    SlashFreeUri(uri);
    UriParts(uri, 0, |uri|, args, yazVersion);
    assert uri[0..|uri|] == uri[..|uri|] == uri;
  }

  // ---- the default response ----

  /** The document type line of the page. */
  const DocType := "<!DOCTYPE HTML PUBLIC \"-//W3C//DTD HTML 4.01//EN\" \"http://www.w3.org/TR/html4/strict.dtd\">\n"

  /** The HTML page of an error response, up to the line with the code;
      the two version strings are YAZ_VERSION. */
  function PageHead(yazVersion: string): string {
    DocType + "<HTML>\n <HEAD>\n  <TITLE>YAZ " + yazVersion + "</TITLE>\n </HEAD>\n <BODY>\n"
    + "  <P><A HREF=\"http://www.indexdata.com/yaz/\">YAZ</A> " + yazVersion + "</P>\n"
  }

  /** "  <P>Error: %d</P>\n". */
  function ErrorLine(code: int): string {
    "  <P>Error: " + IntToDecimal(code) + "</P>\n"
  }

  /** "  <P>Description: %.50s</P>\n"; every reason phrase is shorter than
      50 characters, so the precision never cuts it. */
  function DescriptionLine(code: int): string {
    "  <P>Description: " + ErrMsg(code) + "</P>\n"
  }

  const PageTail := " </BODY>\n</HTML>\n"

  /** The text sprintf writes into content_buf (http.c:328-345). */
  function ErrorPage(code: int, yazVersion: string): string {
    PageHead(yazVersion) + ErrorLine(code) + DescriptionLine(code) + PageTail
  }

  /** The Server header of a response. */
  function ServerHeader(yazVersion: string): Header {
    Header("Server", CStr(Product(yazVersion)))
  }

  const HtmlHeader := Header("Content-Type", "text/html")

  /** The headers z_get_HTTP_Response adds: the Server header, then for an
      error the Content-Type. */
  lemma ServerHeaderList(yazVersion: string)
    ensures Add([], "Server", Product(yazVersion)) == [ServerHeader(yazVersion)]
  {
    LiteralCStrs();
  }

  lemma HtmlHeaderList(yazVersion: string)
    ensures Add([ServerHeader(yazVersion)], "Content-Type", "text/html") == [ServerHeader(yazVersion), HtmlHeader]
  {
    LiteralCStrs();
  }

  /** Lookup finds each of those headers under its name. */
  lemma ResponseLookups(yazVersion: string)
    ensures Lookup([ServerHeader(yazVersion)], "Server") == Some(CStr(Product(yazVersion)))
    ensures Lookup([ServerHeader(yazVersion), HtmlHeader], "Server") == Some(CStr(Product(yazVersion)))
    ensures Lookup([ServerHeader(yazVersion), HtmlHeader], "Content-Type") == Some("text/html")
  {
    LiteralNames();
    LookupSingle(ServerHeader(yazVersion), "Server");
    LookupPair(ServerHeader(yazVersion), HtmlHeader);
  }

  /** z_get_HTTP_Response (http.c:313-350): HTTP/1.1 with the code and a
      Server header; for any code but 200 also a Content-Type of text/html
      and the HTML error page as content. */
  function ResponseFor(code: int, yazVersion: string): (r: Response)
    ensures r.version == "1.1" && r.code == code
    ensures Lookup(r.headers, "Server") == Some(CStr(Product(yazVersion)))
    ensures code == 200 ==> |r.headers| == 1 && r.body.None? && ContentLength(r.body) == 0
    ensures code != 200 ==>
      (|r.headers| == 2 && r.body == Some(ErrorPage(code, yazVersion))
       && Lookup(r.headers, "Content-Type") == Some("text/html"))
  {
    Response("1.1", code, ResponseHeaders(code, yazVersion),
      if code == 200 then None else Some(ErrorPage(code, yazVersion)))
  }

  /** The headers of z_get_HTTP_Response: the Server header, and for any
      code but 200 a Content-Type after it. */
  function ResponseHeaders(code: int, yazVersion: string): (hs: seq<Header>)
    ensures Lookup(hs, "Server") == Some(CStr(Product(yazVersion)))
    ensures code == 200 ==> |hs| == 1
    ensures code != 200 ==> |hs| == 2 && Lookup(hs, "Content-Type") == Some("text/html")
  {
    ServerHeaderList(yazVersion);
    HtmlHeaderList(yazVersion);
    ResponseLookups(yazVersion);
    var hs := Add([], "Server", Product(yazVersion));
    if code == 200 then hs else Add(hs, "Content-Type", "text/html")
  }

  /** The second of four concatenated texts. */
  lemma SliceSecond(a: string, b: string, c: string, d: string)
    ensures (a + b + c + d)[|a|..|a| + |b|] == b
  {
    assert forall k :: 0 <= k < |b| ==> (a + b + c + d)[|a|..|a| + |b|][k] == b[k];
  }

  /** The third of four concatenated texts. */
  lemma SliceThird(a: string, b: string, c: string, d: string)
    ensures (a + b + c + d)[|a| + |b|..|a| + |b| + |c|] == c
  {
    assert forall k :: 0 <= k < |c| ==> (a + b + c + d)[|a| + |b|..|a| + |b| + |c|][k] == c[k];
  }

  /** The middle of three concatenated texts. */
  lemma SliceMiddle(a: string, b: string, c: string)
    ensures (a + b + c)[|a|..|a| + |b|] == b
  {
    assert forall k :: 0 <= k < |b| ==> (a + b + c)[|a|..|a| + |b|][k] == b[k];
  }

  /** A part of a text that holds a given part holds the part's slice. */
  lemma PagePart(page: string, i: nat, j: nat, part: string, p: nat, q: nat)
    requires i <= j <= |page| && page[i..j] == part && p <= q <= |part|
    ensures page[i + p..i + q] == part[p..q]
  {
    forall k | 0 <= k < q - p
      ensures page[i + p..i + q][k] == part[p..q][k]
    {
      assert page[i..j][p + k] == page[i + p + k];
    }
  }

  /** The code line holds the decimal code after its 12-character lead. */
  lemma ErrorLineHolds(code: int)
    ensures |ErrorLine(code)| == 17 + |IntToDecimal(code)|
    ensures ErrorLine(code)[12..12 + |IntToDecimal(code)|] == IntToDecimal(code)
  {
    SliceMiddle("  <P>Error: ", IntToDecimal(code), "</P>\n");
  }

  /** The description line holds the reason after its 18-character lead. */
  lemma DescriptionLineHolds(code: int)
    ensures |DescriptionLine(code)| == 23 + |ErrMsg(code)|
    ensures DescriptionLine(code)[18..18 + |ErrMsg(code)|] == ErrMsg(code)
  {
    SliceMiddle("  <P>Description: ", ErrMsg(code), "</P>\n");
  }

  /** Whatever precedes them, the code and description lines put the code
      and the reason at fixed offsets after it. */
  lemma LinesHoldCode(head: string, code: int)
    ensures var page := head + ErrorLine(code) + DescriptionLine(code) + PageTail;
      var at := |head| + 12;
      var d := IntToDecimal(code);
      var m := ErrMsg(code);
      at + |d| + 23 + |m| <= |page|
      && page[at..at + |d|] == d
      && page[at + |d| + 23..at + |d| + 23 + |m|] == m
  {
    var el, dl := ErrorLine(code), DescriptionLine(code);
    var d, m := IntToDecimal(code), ErrMsg(code);
    var page := head + el + dl + PageTail;
    ErrorLineHolds(code);
    DescriptionLineHolds(code);
    SliceSecond(head, el, dl, PageTail);
    SliceThird(head, el, dl, PageTail);
    PagePart(page, |head|, |head| + |el|, el, 12, 12 + |d|);
    PagePart(page, |head| + |el|, |head| + |el| + |dl|, dl, 18, 18 + |m|);
  }

  /** The page of an error response holds the code, in decimal digits that
      read back as the code, and the reason phrase of z_HTTP_errmsg. */
  lemma ErrorPageHoldsCode(code: int, yazVersion: string)
    ensures var page := ErrorPage(code, yazVersion);
      var at := |PageHead(yazVersion)| + 12;
      var d := IntToDecimal(code);
      var m := ErrMsg(code);
      at + |d| + 23 + |m| <= |page|
      && page[at..at + |d|] == d
      && (code >= 0 ==> DigitsValue(page[at..at + |d|]) == code)
      && page[at + |d| + 23..at + |d| + 23 + |m|] == m
  {
    LinesHoldCode(PageHead(yazVersion), code);
    if code >= 0 {
      DecimalRoundTrip(code);
    }
  }
}
