/**
 The HTTP Digest pieces of the exporter's client (http.go): reading the
 server's `WWW-Authenticate` challenge, the client nonce, and the
 `Authorization` header built after RFC 2617 sections 3.2.2 and 3.2.2.1
 with qop=auth and algorithm MD5. MD5 itself is a parameter (`md5`, taken
 to return the hexadecimal digest as text) and the eight random bytes of
 the client nonce are a parameter, so every function here is
 deterministic in its inputs.
 */
module Digest {
  import opened Text
  import opened Outcome

  /** The challenge fields the client looks for, in the order it tries them. */
  const WantedKeys: seq<string> := ["nonce", "realm", "qop"]

  // ---------------------------------------------------------------------
  // Challenge parsing (digestParts)
  // ---------------------------------------------------------------------

  /** The text after the first `"` of a segment, up to the next `"` or
      the end of the segment. */
  function QuotedText(segment: string): (v: string)
    requires '"' in segment
    ensures '"' !in v
    ensures var i := IndexOf(segment, '"');
            i + 1 + |v| <= |segment| && segment[i + 1..i + 1 + |v|] == v &&
            (i + 1 + |v| == |segment| || segment[i + 1 + |v|] == '"')
  {
    SecondPieceLocated(segment, '"');
    Split(segment, '"')[1]
  }

  /** Taking the second `"`-separated piece of a segment fails with an
      index error when the segment has no `"` at all. */
  function QuotedField(segment: string): (r: Result<string>)
    ensures r.Ok? <==> '"' in segment
    ensures r.Fail? ==> r.failure == IndexOutOfRange
    ensures r.Ok? ==> r.value == QuotedText(segment)
  {
    var pieces := Split(segment, '"');
    if |pieces| < 2 then Fail(IndexOutOfRange) else Ok(pieces[1])
  }

  /** A segment the parser can read: it has a quote, or it names none of
      the keys in `keys` (and is then skipped). */
  predicate Readable(segment: string, keys: seq<string>)
  {
    '"' in segment || forall k :: k in keys ==> !Contains(segment, k)
  }

  /** The keys of `keys` that `segment` mentions. */
  function Mentioned(segment: string, keys: seq<string>): set<string>
  {
    set k | k in keys && Contains(segment, k)
  }

  /** The mentioned keys, taken one key at a time. */
  lemma MentionedCons(segment: string, keys: seq<string>)
    requires |keys| > 0
    ensures Mentioned(segment, keys) ==
            (if Contains(segment, keys[0]) then {keys[0]} else {}) + Mentioned(segment, keys[1..])
  {
    assert forall k :: k in keys <==> k == keys[0] || k in keys[1..];
  }

  /** One comma-separated segment of the challenge: every key of `keys`
      that occurs in it is set to the segment's quoted text. */
  function SegmentParts(parts: map<string, string>, segment: string, keys: seq<string>): (r: Result<map<string, string>>)
    ensures r.Ok? <==> Readable(segment, keys)
    ensures r.Fail? ==> r.failure == IndexOutOfRange
    ensures r.Ok? ==> r.value.Keys == parts.Keys + Mentioned(segment, keys)
    ensures r.Ok? ==> forall k :: k in r.value ==>
              r.value[k] == if k in Mentioned(segment, keys) then QuotedText(segment) else parts[k]
    decreases |keys|
  {
    if |keys| == 0 then Ok(parts)
    else
      var rest := keys[1..];
      MentionedCons(segment, keys);
      assert Readable(segment, keys) <==> (Contains(segment, keys[0]) ==> '"' in segment) && Readable(segment, rest);
      if Contains(segment, keys[0]) then
        var v :- QuotedField(segment);
        SegmentParts(parts[keys[0] := v], segment, rest)
      else
        SegmentParts(parts, segment, rest)
  }

  /** Index of the last segment that mentions `key`, or -1 when none does. */
  function LastMention(segments: seq<string>, key: string): (i: int)
    ensures -1 <= i < |segments|
    ensures i >= 0 ==> Contains(segments[i], key)
    ensures forall j :: i < j < |segments| ==> !Contains(segments[j], key)
    decreases |segments|
  {
    if |segments| == 0 then -1
    else if Contains(segments[|segments| - 1], key) then |segments| - 1
    else LastMention(segments[..|segments| - 1], key)
  }

  /** The segments processed in order, later segments overwriting earlier
      ones. The map only ever holds wanted keys, and the parse fails
      exactly when some segment mentions a wanted key without a quote. */
  function SegmentsParts(segments: seq<string>): (r: Result<map<string, string>>)
    ensures r.Ok? <==> forall i :: 0 <= i < |segments| ==> Readable(segments[i], WantedKeys)
    ensures r.Fail? ==> r.failure == IndexOutOfRange
    ensures r.Ok? ==> forall k :: k in r.value ==> k in WantedKeys
    decreases |segments|
  {
    if |segments| == 0 then Ok(map[])
    else
      var init := segments[..|segments| - 1];
      var last := segments[|segments| - 1];
      assert forall i :: 0 <= i < |init| ==> init[i] == segments[i];
      var before :- SegmentsParts(init);
      SegmentParts(before, last, WantedKeys)
  }

  /** Last mention wins: a wanted key is in the parsed map exactly when
      some segment mentions it, and then holds the quoted text of the LAST
      segment that does. */
  lemma {:induction false} LastMentionWins(segments: seq<string>)
    requires SegmentsParts(segments).Ok?
    ensures var m := SegmentsParts(segments).value;
            forall k :: k in WantedKeys ==> (k in m <==> LastMention(segments, k) >= 0)
    ensures var m := SegmentsParts(segments).value;
            forall k :: k in m ==>
              LastMention(segments, k) >= 0 && '"' in segments[LastMention(segments, k)] &&
              m[k] == QuotedText(segments[LastMention(segments, k)])
    decreases |segments|
  {
    if |segments| > 0 {
      var init := segments[..|segments| - 1];
      var last := segments[|segments| - 1];
      assert forall i :: 0 <= i < |init| ==> init[i] == segments[i];
      var before := SegmentsParts(init).value;
      LastMentionWins(init);
      var m := SegmentsParts(segments).value;
      assert m == SegmentParts(before, last, WantedKeys).value;
      forall k | k in WantedKeys
        ensures k in m <==> LastMention(segments, k) >= 0
      {
        if !Contains(last, k) {
          assert LastMention(segments, k) == LastMention(init, k);
        }
      }
      forall k | k in m
        ensures LastMention(segments, k) >= 0 && '"' in segments[LastMention(segments, k)]
        ensures m[k] == QuotedText(segments[LastMention(segments, k)])
      {
        if Contains(last, k) && k in WantedKeys {
          assert LastMention(segments, k) == |segments| - 1;
        } else {
          assert LastMention(segments, k) == LastMention(init, k);
        }
      }
    }
  }

  /** The challenge map: empty when the response carries no
      `WWW-Authenticate` header, otherwise read from the first header
      value split at commas. Reading fails, with an index error, exactly
      when some comma segment names a wanted key but holds no quote. A
      wanted key is present exactly when some segment mentions it, and
      then holds the quoted text of the last segment that does; no value
      holds a quote. */
  function DigestParts(challenges: seq<string>): (r: Result<map<string, string>>)
    ensures |challenges| == 0 ==> r == Ok(map[])
    ensures |challenges| > 0 ==> var segments := Split(challenges[0], ',');
            r.Ok? <==> forall i :: 0 <= i < |segments| ==> Readable(segments[i], WantedKeys)
    ensures r.Fail? ==> r.failure == IndexOutOfRange
    ensures r.Ok? ==> forall k :: k in r.value ==> k in WantedKeys && '"' !in r.value[k]
    ensures r.Ok? && |challenges| > 0 ==> var segments := Split(challenges[0], ',');
            forall k :: k in WantedKeys ==> (k in r.value <==> LastMention(segments, k) >= 0)
    ensures r.Ok? && |challenges| > 0 ==> var segments := Split(challenges[0], ',');
            forall k :: k in r.value ==>
              LastMention(segments, k) >= 0 && '"' in segments[LastMention(segments, k)] &&
              r.value[k] == QuotedText(segments[LastMention(segments, k)])
  {
    if |challenges| == 0 then Ok(map[])
    else
      var segments := Split(challenges[0], ',');
      var r := SegmentsParts(segments);
      if r.Fail? then r
      else
        LastMentionWins(segments);
        r
  }

  // ---------------------------------------------------------------------
  // Client nonce (getCnonce)
  // ---------------------------------------------------------------------

  /** Eight random bytes printed as lower-case hexadecimal and cut to
      sixteen characters: exactly sixteen characters from [0-9a-f] that
      decode back to the bytes. */
  function Cnonce(random: seq<Byte>): (c: string)
    requires |random| == 8
    ensures |c| == 16
    ensures forall i :: 0 <= i < |c| ==> IsHexDigit(c[i])
    ensures HexDecode(c) == random
  {
    var h := HexEncode(random);
    HexRoundTrip(random);
    assert h[..16] == h;
    h[..16]
  }

  // ---------------------------------------------------------------------
  // Authorization header (getDigestAuthrization)
  // ---------------------------------------------------------------------

  /** The nonce count as printed: the Go literal 00000000 is an octal
      zero, and `%v` prints it as a single 0. */
  const NonceCount: string := "0"

  /** RFC 2617 section 3.2.2.2: A1 for algorithm MD5. */
  function A1(username: string, realm: string, password: string): string
  {
    username + ":" + realm + ":" + password
  }

  /** RFC 2617 section 3.2.2.3: A2 for qop=auth. */
  function A2(verb: string, uri: string): string
  {
    verb + ":" + uri
  }

  /** RFC 2617 section 3.2.1: KD(secret, data) = H(secret ":" data). */
  function KD(md5: string -> string, secret: string, data: string): string
  {
    md5(secret + ":" + data)
  }

  /** RFC 2617 section 3.2.2.1: request-digest for qop=auth. */
  function RequestDigest(md5: string -> string, username: string, realm: string, password: string,
                         verb: string, uri: string, nonce: string, nc: string,
                         cnonce: string, qop: string): string
  {
    KD(md5, md5(A1(username, realm, password)),
       nonce + ":" + nc + ":" + cnonce + ":" + qop + ":" + md5(A2(verb, uri)))
  }

  /** The `Authorization` header value built from the digest map `d`,
      which holds the challenge fields plus username, password, method
      and uri:
        Digest username="U", realm="R", nonce="N", uri="P", response="X",
        qop="Q", nc="0", cnonce="C", algorithm=MD5
      written as its `"`-separated pieces joined by `"`. The response X is
      MD5(MD5(U:R:password) ":" N ":" 0 ":" C ":" Q ":" MD5(method:P)),
      which is the RFC 2617 request-digest over the map's fields. */
  function Authorization(d: map<string, string>, md5: string -> string, cnonce: string): (h: string)
    ensures h ==
            Join(AuthorizationPieces(Field(d, "username"), Field(d, "realm"), Field(d, "nonce"), Field(d, "uri"),
                                     RequestDigest(md5, Field(d, "username"), Field(d, "realm"), Field(d, "password"),
                                                   Field(d, "method"), Field(d, "uri"), Field(d, "nonce"), NonceCount,
                                                   cnonce, Field(d, "qop")),
                                     Field(d, "qop"), NonceCount, cnonce), '"')
  {
    var ha1 := md5(Field(d, "username") + ":" + Field(d, "realm") + ":" + Field(d, "password"));
    var ha2 := md5(Field(d, "method") + ":" + Field(d, "uri"));
    var data := Field(d, "nonce") + ":" + NonceCount + ":" + cnonce + ":" + Field(d, "qop") + ":" + ha2;
    assert ha1 + ":" + data == ha1 + ":" + Field(d, "nonce") + ":" + NonceCount + ":" + cnonce + ":" + Field(d, "qop") + ":" + ha2;
    var response := md5(ha1 + ":" + Field(d, "nonce") + ":" + NonceCount + ":" + cnonce + ":" + Field(d, "qop") + ":" + ha2);
    Join(AuthorizationPieces(Field(d, "username"), Field(d, "realm"), Field(d, "nonce"), Field(d, "uri"),
                             response, Field(d, "qop"), NonceCount, cnonce), '"')
  }

  /** The header's seventeen `"`-separated pieces: fixed labels at even
      positions, the field values at odd positions. */
  function AuthorizationPieces(username: string, realm: string, nonce: string, uri: string,
                               response: string, qop: string, nc: string, cnonce: string): seq<string>
  {
    ["Digest username=", username, ", realm=", realm, ", nonce=", nonce, ", uri=", uri,
     ", response=", response, ", qop=", qop, ", nc=", nc, ", cnonce=", cnonce, ", algorithm=MD5"]
  }

  /** The header is the seventeen pieces joined by quotes. When no
      printed field value holds a quote, splitting the header at quotes recovers every
      field, and the response field is the RFC 2617 request-digest over
      the map's fields with nonce count "0" and the given client nonce. */
  lemma AuthorizationFields(d: map<string, string>, md5: string -> string, cnonce: string)
    requires '"' !in Field(d, "username") && '"' !in Field(d, "realm") && '"' !in Field(d, "nonce")
    requires '"' !in Field(d, "uri") && '"' !in Field(d, "qop")
    requires '"' !in cnonce
    requires forall s :: '"' !in md5(s)
    ensures Split(Authorization(d, md5, cnonce), '"') ==
            AuthorizationPieces(Field(d, "username"), Field(d, "realm"), Field(d, "nonce"), Field(d, "uri"),
                                RequestDigest(md5, Field(d, "username"), Field(d, "realm"), Field(d, "password"),
                                              Field(d, "method"), Field(d, "uri"), Field(d, "nonce"), NonceCount,
                                              cnonce, Field(d, "qop")),
                                Field(d, "qop"), NonceCount, cnonce)
  {
    var response := RequestDigest(md5, Field(d, "username"), Field(d, "realm"), Field(d, "password"),
                                  Field(d, "method"), Field(d, "uri"), Field(d, "nonce"), NonceCount,
                                  cnonce, Field(d, "qop"));
    PiecesQuoteFree(Field(d, "username"), Field(d, "realm"), Field(d, "nonce"), Field(d, "uri"),
                    response, Field(d, "qop"), NonceCount, cnonce);
    SplitJoin(AuthorizationPieces(Field(d, "username"), Field(d, "realm"), Field(d, "nonce"), Field(d, "uri"),
                                  response, Field(d, "qop"), NonceCount, cnonce), '"');
  }

  /** No piece of the header holds a quote when no field value does. */
  lemma PiecesQuoteFree(username: string, realm: string, nonce: string, uri: string,
                        response: string, qop: string, nc: string, cnonce: string)
    requires '"' !in username && '"' !in realm && '"' !in nonce && '"' !in uri
    requires '"' !in response && '"' !in qop && '"' !in nc && '"' !in cnonce
    ensures var p := AuthorizationPieces(username, realm, nonce, uri, response, qop, nc, cnonce);
            forall i :: 0 <= i < |p| ==> '"' !in p[i]
  {
  }
}
