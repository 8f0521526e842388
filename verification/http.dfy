/**
 The exporter's HTTP client (http.go): requests and responses as plain
 records, the path of a request URL, and the digest handshake of
 `digestPost` and `do` over an abstract transport. The transport is a
 function from request to delivery, so a response depends only on the
 request sent; MD5 and the client nonce's random bytes are parameters.
 Header names are written in Go's canonical form ("Soapaction",
 "Charset"), which is how `http.Header` stores and looks them up.
 */
module Http {
  import opened Text
  import opened Outcome
  import Digest

  const StatusOK: int := 200
  const StatusUnauthorized: int := 401

  type Headers = map<string, string>

  datatype Request = Request(verb: string, url: string, body: string, contentLength: nat, headers: Headers)

  /** `challenges` are the values of the `WWW-Authenticate` header, in order. */
  datatype Response = Response(status: int, challenges: seq<string>, body: string)

  /** What the transport hands back for one request: a response, or a
      failure to complete the exchange. */
  datatype Delivery = Delivered(response: Response) | Undelivered

  datatype Credentials = Credentials(username: string, password: string)

  /** `newRequest`: a request with a string body, whose content length is
      the body's length in characters (no encoding is modelled), and no
      headers yet. */
  function NewRequest(verb: string, url: string, body: string): (r: Request)
    ensures r.verb == verb && r.url == url && r.body == body
    ensures r.contentLength == |body| && r.headers == map[]
  {
    Request(verb, url, body, |body|, map[])
  }

  const Scheme: string := "http://"

  /** The path component of a request URL (Go's `URL.Path`) for the URLs
      this client builds: after "http://" the authority runs to the first
      "/", and the path is everything from there on ("" when there is no
      "/"). A URL without the scheme is a relative reference and is all
      path. */
  function UrlPath(url: string): (p: string)
    ensures !(Scheme <= url) ==> p == url
    ensures Scheme <= url ==> (p == "" <==> '/' !in url[|Scheme|..])
    ensures Scheme <= url && p != "" ==>
              p[0] == '/' && |Scheme| + |p| <= |url| && url[|url| - |p|..] == p &&
              '/' !in url[|Scheme|..|url| - |p|]
  {
    if |url| >= |Scheme| && url[..|Scheme|] == Scheme then
      var rest := url[|Scheme|..];
      if '/' in rest then rest[IndexOf(rest, '/')..] else ""
    else url
  }

  /** The path of "http://" + authority + path is the path, when the
      authority holds no "/" and the path is empty or starts with "/". */
  lemma UrlPathOfJoined(authority: string, path: string)
    requires '/' !in authority
    requires path == "" || path[0] == '/'
    ensures UrlPath(Scheme + authority + path) == path
  {
    var url := Scheme + authority + path;
    assert url[..|Scheme|] == Scheme;
    var rest := url[|Scheme|..];
    assert rest == authority + path;
    if path != "" {
      assert rest == authority + ['/'] + path[1..];
      IndexOfAfter(authority, '/', path[1..]);
      assert rest[|authority|..] == path;
    } else {
      assert rest == authority;
    }
  }

  /** The digest map for the retry: the challenge fields plus the
      request's path and method and the credentials, which override any
      challenge field of the same name. */
  function DigestFields(challenge: map<string, string>, req: Request, creds: Credentials): (d: map<string, string>)
    ensures d.Keys == challenge.Keys + {"uri", "method", "username", "password"}
    ensures d["uri"] == UrlPath(req.url) && d["method"] == req.verb
    ensures d["username"] == creds.username && d["password"] == creds.password
    ensures forall k :: k in challenge && k !in {"uri", "method", "username", "password"} ==> d[k] == challenge[k]
  {
    challenge["uri" := UrlPath(req.url)]["method" := req.verb]
             ["username" := creds.username]["password" := creds.password]
  }

  /** The request re-issued after a 401: same method, URL, body and
      content length, the original `soapaction` header (empty when it had
      none), the Authorization header, and the SOAP content headers. */
  function RetryRequest(req: Request, authorization: string): (r: Request)
    ensures r.verb == req.verb && r.url == req.url && r.body == req.body
    ensures r.contentLength == req.contentLength
    ensures r.headers.Keys == {"Authorization", "Content-Type", "Charset", "Soapaction"}
    ensures r.headers["Authorization"] == authorization
    ensures r.headers["Soapaction"] == Field(req.headers, "Soapaction")
    ensures r.headers["Content-Type"] == "text/xml" && r.headers["Charset"] == "utf-8"
  {
    Request(req.verb, req.url, req.body, req.contentLength,
            map["Authorization" := authorization,
                "Content-Type" := "text/xml",
                "Charset" := "utf-8",
                "Soapaction" := Field(req.headers, "Soapaction")])
  }

  /** The request answering a challenge: it keeps the method, URL, body,
      content length and `soapaction` header of the original, and its
      Authorization header is built from the challenge fields, the
      request's path and method, the credentials and the client nonce. */
  function Retry(req: Request, challenge: map<string, string>, creds: Credentials,
                 md5: string -> string, random: seq<Byte>): (r: Request)
    requires |random| == 8
    ensures r.verb == req.verb && r.url == req.url && r.body == req.body
    ensures r.contentLength == req.contentLength
    ensures Field(r.headers, "Soapaction") == Field(req.headers, "Soapaction")
    ensures "Authorization" in r.headers
    ensures r.headers["Authorization"] ==
            Digest.Authorization(DigestFields(challenge, req, creds), md5, Digest.Cnonce(random))
  {
    RetryRequest(req, Digest.Authorization(DigestFields(challenge, req, creds), md5, Digest.Cnonce(random)))
  }

  /** The requests a call put on the wire, and what it returns. */
  datatype Exchange = Exchange(sent: seq<Request>, outcome: Result<Response>)

  /** `digestPost`: send the request; on anything but 401 return that
      response; on 401 answer the challenge and send the request exactly
      once more, returning the second response whatever its status. A
      transport failure or an unreadable challenge aborts. */
  function DigestPost(req: Request, transport: Request -> Delivery, creds: Credentials,
                      md5: string -> string, random: seq<Byte>): (x: Exchange)
    requires |random| == 8
    ensures 1 <= |x.sent| <= 2 && x.sent[0] == req
    ensures transport(req).Undelivered? ==> x == Exchange([req], Fail(TransportError))
    ensures transport(req).Delivered? && transport(req).response.status != StatusUnauthorized ==>
              x == Exchange([req], Ok(transport(req).response))
    ensures |x.sent| == 2 <==>
              transport(req).Delivered? && transport(req).response.status == StatusUnauthorized &&
              Digest.DigestParts(transport(req).response.challenges).Ok?
    ensures transport(req).Delivered? && transport(req).response.status == StatusUnauthorized &&
            Digest.DigestParts(transport(req).response.challenges).Fail? ==>
              x == Exchange([req], Fail(IndexOutOfRange))
    ensures |x.sent| == 2 ==>
              && x.sent[1] == Retry(req, Digest.DigestParts(transport(req).response.challenges).value, creds, md5, random)
              && x.outcome == match transport(x.sent[1]) {
                   case Delivered(second) => Ok(second)
                   case Undelivered => Fail(TransportError)
                 }
  {
    match transport(req)
    case Undelivered => Exchange([req], Fail(TransportError))
    case Delivered(first) =>
      if first.status != StatusUnauthorized then Exchange([req], Ok(first))
      else
        match Digest.DigestParts(first.challenges)
        case Fail(f) => Exchange([req], Fail(f))
        case Ok(challenge) =>
          var retry := Retry(req, challenge, creds, md5, random);
          match transport(retry)
          case Undelivered => Exchange([req, retry], Fail(TransportError))
          case Delivered(second) => Exchange([req, retry], Ok(second))
  }

  /** `do`: the body of the final response when its status is 200 OK,
      and the empty body for any other status. */
  function Do(req: Request, transport: Request -> Delivery, creds: Credentials,
              md5: string -> string, random: seq<Byte>): (r: Result<string>)
    requires |random| == 8
    ensures r.Ok? <==> DigestPost(req, transport, creds, md5, random).outcome.Ok?
  {
    match DigestPost(req, transport, creds, md5, random).outcome
    case Fail(f) => Fail(f)
    case Ok(resp) => if resp.status != StatusOK then Ok("") else Ok(resp.body)
  }

  /** Without a challenge there is no retry: the first response decides,
      its body passing through only on 200 OK. */
  lemma DoWithoutChallenge(req: Request, transport: Request -> Delivery, creds: Credentials,
                           md5: string -> string, random: seq<Byte>)
    requires |random| == 8
    requires transport(req).Delivered? && transport(req).response.status != StatusUnauthorized
    ensures |DigestPost(req, transport, creds, md5, random).sent| == 1
    ensures Do(req, transport, creds, md5, random) ==
            Ok(if transport(req).response.status == StatusOK then transport(req).response.body else "")
  {
  }

  /** After a 401 with a readable challenge, the answer to the single
      retry decides: a second 401 (or any status other than 200) yields
      the empty body, never a third request. */
  lemma DoAfterChallenge(req: Request, transport: Request -> Delivery, creds: Credentials,
                         md5: string -> string, random: seq<Byte>)
    requires |random| == 8
    requires transport(req).Delivered? && transport(req).response.status == StatusUnauthorized
    requires Digest.DigestParts(transport(req).response.challenges).Ok?
    ensures var x := DigestPost(req, transport, creds, md5, random);
            |x.sent| == 2 &&
            (transport(x.sent[1]).Delivered? ==>
               Do(req, transport, creds, md5, random) ==
               Ok(if transport(x.sent[1]).response.status == StatusOK then transport(x.sent[1]).response.body else ""))
  {
  }

  /** The retry answers the challenge: split at its quotes, its
      Authorization header carries the user name, the challenge's realm,
      nonce and qop (empty when the challenge lacks them), the request's
      path as uri, and the RFC 2617 request-digest over those fields, the
      password, the request's method, nonce count "0" and the client
      nonce. */
  lemma ChallengeAnswered(req: Request, transport: Request -> Delivery, creds: Credentials,
                          md5: string -> string, random: seq<Byte>)
    requires |random| == 8
    requires transport(req).Delivered? && transport(req).response.status == StatusUnauthorized
    requires Digest.DigestParts(transport(req).response.challenges).Ok?
    requires '"' !in creds.username && '"' !in UrlPath(req.url)
    requires forall s :: '"' !in md5(s)
    ensures var x := DigestPost(req, transport, creds, md5, random);
            var ch := Digest.DigestParts(transport(req).response.challenges).value;
            var c := Digest.Cnonce(random);
            var path := UrlPath(req.url);
            |x.sent| == 2 &&
            Split(x.sent[1].headers["Authorization"], '"') ==
            Digest.AuthorizationPieces(creds.username, Field(ch, "realm"), Field(ch, "nonce"), path,
              Digest.RequestDigest(md5, creds.username, Field(ch, "realm"), creds.password, req.verb, path,
                                   Field(ch, "nonce"), Digest.NonceCount, c, Field(ch, "qop")),
              Field(ch, "qop"), Digest.NonceCount, c)
  {
    var ch := Digest.DigestParts(transport(req).response.challenges).value;
    var c := Digest.Cnonce(random);
    var x := DigestPost(req, transport, creds, md5, random);
    assert x.sent[1].headers["Authorization"] == Digest.Authorization(DigestFields(ch, req, creds), md5, c);
    CnonceQuoteFree(random);
    AnswerFields(ch, req, creds, md5, c);
  }

  /** The client nonce holds no quote: it is hexadecimal. */
  lemma CnonceQuoteFree(random: seq<Byte>)
    requires |random| == 8
    ensures '"' !in Digest.Cnonce(random)
  {
    var c := Digest.Cnonce(random);
    forall i | 0 <= i < |c| ensures c[i] != '"' {
      assert IsHexDigit(c[i]);
    }
  }

  /** The header answering challenge `ch` for this request, split at its
      quotes, when no printed value holds a quote. */
  lemma AnswerFields(ch: map<string, string>, req: Request, creds: Credentials, md5: string -> string, c: string)
    requires forall k :: k in ch ==> '"' !in ch[k]
    requires '"' !in creds.username && '"' !in UrlPath(req.url) && '"' !in c
    requires forall s :: '"' !in md5(s)
    ensures var path := UrlPath(req.url);
            Split(Digest.Authorization(DigestFields(ch, req, creds), md5, c), '"') ==
            Digest.AuthorizationPieces(creds.username, Field(ch, "realm"), Field(ch, "nonce"), path,
              Digest.RequestDigest(md5, creds.username, Field(ch, "realm"), creds.password, req.verb, path,
                                   Field(ch, "nonce"), Digest.NonceCount, c, Field(ch, "qop")),
              Field(ch, "qop"), Digest.NonceCount, c)
  {
    var d := DigestFields(ch, req, creds);
    assert Field(d, "username") == creds.username && Field(d, "uri") == UrlPath(req.url);
    assert Field(d, "password") == creds.password && Field(d, "method") == req.verb;
    assert Field(d, "realm") == Field(ch, "realm");
    assert Field(d, "nonce") == Field(ch, "nonce");
    assert Field(d, "qop") == Field(ch, "qop");
    Digest.AuthorizationFields(d, md5, c);
  }

  /** A 401 that carries no `WWW-Authenticate` header does not fail: the
      retry's Authorization header has empty realm, nonce and qop, and
      its response digest is computed from those empty fields. */
  lemma MissingChallengeHeader(req: Request, transport: Request -> Delivery, creds: Credentials,
                               md5: string -> string, random: seq<Byte>)
    requires |random| == 8
    requires transport(req).Delivered? && transport(req).response.status == StatusUnauthorized
    requires transport(req).response.challenges == []
    requires '"' !in creds.username && '"' !in UrlPath(req.url)
    requires forall s :: '"' !in md5(s)
    ensures var x := DigestPost(req, transport, creds, md5, random);
            var c := Digest.Cnonce(random);
            |x.sent| == 2 &&
            Split(x.sent[1].headers["Authorization"], '"') ==
            Digest.AuthorizationPieces(creds.username, "", "", UrlPath(req.url),
              Digest.RequestDigest(md5, creds.username, "", creds.password, req.verb, UrlPath(req.url),
                                   "", Digest.NonceCount, c, ""),
              "", Digest.NonceCount, c)
  {
    assert Digest.DigestParts(transport(req).response.challenges) == Ok(map[]);
    ChallengeAnswered(req, transport, creds, md5, random);
  }
}
