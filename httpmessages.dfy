/** The HTTP message structures of the codec (Z_HTTP_Header, Z_HTTP_Request,
    Z_HTTP_Response) and the header-list helpers of src/http.c:
    z_HTTP_header_add, z_HTTP_header_lookup, z_HTTP_header_add_content_type,
    z_HTTP_header_add_basic_auth and z_HTTP_errmsg. */
module HttpMessages {
  import opened Wrappers
  import opened CStrings
  import Matchstr
  import Base64

  /** One header: a name and a value, both C strings. */
  datatype Header = Header(name: string, value: string)

  /** A request. `body` is content_buf: None for a null pointer; content_len
      is the length of the body, 0 when there is none. */
  datatype Request = Request(
    httpMethod: string, path: string, version: string,
    headers: seq<Header>, body: Option<string>)

  /** A response, with the same conventions for the body. */
  datatype Response = Response(
    version: string, code: int,
    headers: seq<Header>, body: Option<string>)

  /** content_len of a message with this body. */
  function ContentLength(body: Option<string>): (n: nat)
    ensures n == 0 <==> body.None? || body.value == []
  {
    if body.Some? then |body.value| else 0
  }

  // ---- the header list ----

  /** z_HTTP_header_add: one new header, holding copies of the C strings n
      and v, is linked at the tail of the list. */
  function Add(hs: seq<Header>, n: string, v: string): (r: seq<Header>)
    ensures |r| == |hs| + 1 && r[..|hs|] == hs
    ensures r[|hs|] == Header(CStr(n), CStr(v))
  {
    hs + [Header(CStr(n), CStr(v))]
  }

  /** Header k is the first whose name yaz_matchstr-matches n. */
  predicate FirstMatchAt(hs: seq<Header>, n: string, k: int) {
    0 <= k < |hs| && Matchstr.Matches(hs[k].name, n)
    && forall m :: 0 <= m < k ==> !Matchstr.Matches(hs[m].name, n)
  }

  /** The index of the first header whose name matches n. */
  function FirstMatch(hs: seq<Header>, n: string): (r: Option<nat>)
    ensures r.Some? ==> FirstMatchAt(hs, n, r.value)
    ensures r.None? ==> forall k :: 0 <= k < |hs| ==> !Matchstr.Matches(hs[k].name, n)
  {
    if |hs| == 0 then None
    else if Matchstr.Matches(hs[0].name, n) then Some(0)
    else match FirstMatch(hs[1..], n)
      case None => None
      case Some(k) => Some(k + 1)
  }

  /** z_HTTP_header_lookup: the value of the first header whose name matches
      n under yaz_matchstr, or None (a null pointer) when no name matches. */
  function Lookup(hs: seq<Header>, n: string): (r: Option<string>)
    ensures r.None? <==> forall k :: 0 <= k < |hs| ==> !Matchstr.Matches(hs[k].name, n)
    ensures r.Some? ==> exists k :: FirstMatchAt(hs, n, k) && r.value == hs[k].value
  {
    match FirstMatch(hs, n)
    case None => None
    case Some(k) =>
      assert FirstMatchAt(hs, n, k);
      Some(hs[k].value)
  }

  /** z_HTTP_header_lookup as the source runs it: walk the list and stop at
      the first header whose name yaz_matchstr accepts. */
  method HeaderLookup(hs: seq<Header>, n: string) returns (r: Option<string>)
    ensures r == Lookup(hs, n)
  {
    var k := 0;
    while k < |hs|
      invariant k <= |hs|
      invariant forall m :: 0 <= m < k ==> !Matchstr.Matches(hs[m].name, n)
    {
      var c := Matchstr.MatchStr(hs[k].name, n);
      if c == 0 {
        assert FirstMatchAt(hs, n, k);
        return Some(hs[k].value);
      }
      k := k + 1;
    }
    return None;
  }

  /** After an append, lookup finds an earlier match if there is one, and
      otherwise the new header when its name matches. */
  lemma LookupAfterAdd(hs: seq<Header>, n: string, v: string, m: string)
    ensures Lookup(Add(hs, n, v), m) ==
      if Lookup(hs, m).Some? then Lookup(hs, m)
      else if Matchstr.Matches(CStr(n), m) then Some(CStr(v))
      else None
  {
    var r := Add(hs, n, v);
    if Lookup(hs, m).Some? {
      var k :| FirstMatchAt(hs, m, k) && Lookup(hs, m).value == hs[k].value;
      assert FirstMatchAt(r, m, k);
    } else if Matchstr.Matches(CStr(n), m) {
      assert FirstMatchAt(r, m, |hs|);
    }
  }

  /** Lookup on a list that starts with a given header. */
  lemma LookupCons(h: Header, hs: seq<Header>, n: string)
    ensures Lookup([h] + hs, n) ==
      if Matchstr.Matches(h.name, n) then Some(h.value) else Lookup(hs, n)
  {
    var r := [h] + hs;
    assert r[1..] == hs;
    if Matchstr.Matches(h.name, n) {
      assert FirstMatchAt(r, n, 0);
    } else if Lookup(hs, n).Some? {
      var k :| FirstMatchAt(hs, n, k) && Lookup(hs, n).value == hs[k].value;
      assert FirstMatchAt(r, n, k + 1);
    }
  }

  // ---- Content-Type and Authorization ----

  /** The header names the helpers write are their own C strings. */
  lemma ContentTypeName()
    ensures CStr("Content-Type") == "Content-Type"
  {
    assert NoNul("Content-Type");
    CStrOfNoNul("Content-Type");
  }

  lemma AuthorizationName()
    ensures CStr("Authorization") == "Authorization"
  {
    assert NoNul("Authorization");
    CStrOfNoNul("Authorization");
  }

  /** The Content-Type value: "<type>; charset=<cs>", or the type alone. */
  function ContentTypeValue(contentType: string, charset: Option<string>): (v: string)
    ensures CStr(v) == v
  {
    if charset.Some? then
      assert NoNul("; charset=");
      CStrOfConcat(CStr(contentType), "; charset=");
      CStrOfConcat(CStr(contentType) + "; charset=", CStr(charset.value));
      CStr(contentType) + "; charset=" + CStr(charset.value)
    else
      CStrOfNoNul(CStr(contentType));
      CStr(contentType)
  }

  /** z_HTTP_header_add_content_type: one Content-Type header appended. */
  function AddContentType(hs: seq<Header>, contentType: string, charset: Option<string>): (r: seq<Header>)
    ensures |r| == |hs| + 1 && r[..|hs|] == hs
    ensures r[|hs|].name == "Content-Type"
    ensures charset.None? ==> r[|hs|].value == CStr(contentType)
    ensures charset.Some? ==> r[|hs|].value == CStr(contentType) + "; charset=" + CStr(charset.value)
  {
    ContentTypeName();
    Add(hs, "Content-Type", ContentTypeValue(contentType, charset))
  }

  /** The credentials "user:password" that Basic authorisation encodes,
      with a null password taken as "". */
  function Credentials(username: string, password: Option<string>): string {
    CStr(username) + ":" + (if password.Some? then CStr(password.value) else "")
  }

  /** z_HTTP_header_add_basic_auth: nothing for a null user name, otherwise
      one Authorization header "Basic " followed by the base 64 encoding of
      the credentials (section 11.1 of RFC 1945). */
  function AddBasicAuth(hs: seq<Header>, username: Option<string>, password: Option<string>): (r: seq<Header>)
    ensures username.None? ==> r == hs
    ensures username.Some? ==> |r| == |hs| + 1 && r[..|hs|] == hs && r[|hs|].name == "Authorization"
  {
    AuthorizationName();
    if username.None? then hs
    else Add(hs, "Authorization", "Basic " + Base64.Encode(Credentials(username.value, password)))
  }

  /** The Authorization value reads back: it is "Basic " and a base 64 text
      that decodes to the credentials. */
  lemma BasicAuthDecodes(hs: seq<Header>, username: string, password: Option<string>)
    requires Base64.IsOctets(Credentials(username, password))
    ensures var v := AddBasicAuth(hs, Some(username), password)[|hs|].value;
      |v| >= 6 && v[..6] == "Basic "
      && Base64.Decode(v[6..]) == Some(Credentials(username, password))
  {
    var text := "Basic " + Base64.Encode(Credentials(username, password));
    assert NoNul("Basic ");
    Base64.EncodeShape(Credentials(username, password));
    CStrOfConcat("Basic ", Base64.Encode(Credentials(username, password)));
    assert text[6..] == Base64.Encode(Credentials(username, password));
    Base64.DecodeEncode(Credentials(username, password));
  }

  // ---- reason phrases ----

  /** z_HTTP_errmsg: the reason phrase of a status code. */
  function ErrMsg(code: int): (m: string)
    ensures m == "Unknown Error" <==> code !in {200, 400, 404, 405, 500}
    ensures 0 < |m| < 50
    ensures forall k :: 0 <= k < |m| ==> m[k] != '\r' && m[k] != '\n' && m[k] != '\0'
  {
    if code == 200 then "OK"
    else if code == 400 then "Bad Request"
    else if code == 404 then "Not Found"
    else if code == 405 then "Method Not Allowed"
    else if code == 500 then "Internal Error"
    else "Unknown Error"
  }
}
