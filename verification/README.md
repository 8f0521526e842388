# fritzbox-upnp-exporter: a Dafny model of the TR-064 client core

The exporter polls an AVM FRITZ!Box over TR-064, the UPnP-based management
interface on port 49000, and publishes what it reads as Prometheus metrics.
This project models the three parts of that program that carry real logic.
Each is stated as pure functions over immutable data. Where an independent
description of the intended behaviour exists (RFC 2617's request-digest,
a string round trip, a reference reading of a response or a counter
series), the model is proved against it. Elsewhere the contracts state
what each step computes and what the steps around it rely on.

- **Discovery and invocation** (`upnp.dfy`, module `Upnp`):
  - the "get-only" action predicate, with its regular expression stated as
    a ghost grammar and proved equivalent to "Get occurs before the first
    newline";
  - the filtering of decoded actions and services;
  - the selection of services and actions by the interest filter;
  - the SOAP request: envelope, `SoapAction` header and control URL;
  - the extraction of (service type, action, state variable, value)
    tuples from the response's XML token stream.
- **The HTTP Digest client** (`digest.dfy` and `http.dfy`, modules
  `Digest` and `Http`):
  - reading the `WWW-Authenticate` challenge;
  - the client nonce;
  - the `Authorization` header, set against the request-digest of RFC 2617
    sections 3.2.1, 3.2.2.1, 3.2.2.2 and 3.2.2.3 (qop=auth, algorithm MD5);
  - the probe-then-retry-once exchange of `digestPost`, and the
    status-to-body rule of `do`.
- **The collector** (`metrics.dfy`, module `Metrics`):
  - the lookup of one reported value, and its reading as a number;
  - the reset correction of the WAN byte counters, as a step function on a
    (last, offset) state, with a keyed cache of such states;
  - the WLAN label;
  - the link between the lookups `Collect` makes and the filter it hands
    to the UPnP client.

Two small modules support these:

- `text.dfy` (module `Text`) holds what the program takes from Go's
  `strings`, `fmt` and `encoding/hex`, and reads of string maps (a
  missing key reads as ""). It covers substring search and
  splitting at one character, with their round trips, and hexadecimal and
  decimal rendering, with their inverses.
- `outcome.dfy` (module `Outcome`) holds the `Result` type. The program
  panics where the model returns a failure.

Everything from outside the program is a parameter:

- the network: an HTTP transport, a function from request to delivery;
- the device's decoded documents: a `Device` record of three functions;
- MD5;
- the eight random bytes of the client nonce;
- the credentials;
- the order in which Go's map iteration visits the filter's keys.

How the code departs from the standards, and from itself:

- **Nonce count.** The code declares it as the Go literal `00000000`, an
  octal zero. It prints as `0`, so the header carries `nc="0"`. RFC 2617
  wants eight unquoted hexadecimal digits. The model follows the code
  (`Digest.NonceCount`).
- **Quoted qop.** The header carries `qop="auth"` quoted. RFC 2617 writes
  the qop value unquoted in the `Authorization` header. The model follows
  the code.
- **SoapAction header.** The header is `serviceType#actionName` without
  the double quotes that section 3.2.1 of the UPnP Device Architecture 1.0
  puts around it. The model follows the code.
- **The `do` signature.** upnp.go calls `do` with a request and two
  credentials, but http.go declares it with the request alone and
  hard-codes the credentials in `digestPost`. The model passes the
  credentials as a parameter.
- **The missing test helper.** prometheus_test.go calls
  `filterConvertAndCorrectByService`, which prometheus.go does not define.
  `Metrics.FilterConvertAndCorrect` models it as the test uses it: a
  lookup, a number read and one correction step under the lookup's key.
  Its behaviour agrees with the inline correction at prometheus.go:57-63.

## Model

| member | source | states |
|---|---|---|
| `Text.Contains` | upnp.go:44 | `strings.Contains` holds exactly when the needle occurs at some position of the string. |
| `Text.Split` | http.go:149 | `strings.Split` at one character gives at least one piece, none of which holds the separator. There are two or more pieces exactly when the separator occurs. |
| `Text.JoinSplit` | http.go:149 | Round trip: joining the pieces with the separator gives back the string. |
| `Text.SecondPieceLocated` | http.go:153 | The second piece starts just after the first separator and runs to the next separator or to the end of the string. |
| `Text.SplitJoin` | http.go:153 | Round trip: pieces without the separator come back unchanged from splitting their join. |
| `Text.HexRoundTrip` | http.go:170 | Decoding the lower-case hexadecimal rendering of bytes gives back the bytes. |
| `Text.DecimalRoundTrip` | prometheus.go:39 | Reading the decimal rendering of a number gives back the number. |
| `Text.ContainsTransitive` | upnp.go:44 | A string containing `b` contains everything that `b` contains. |
| `Digest.QuotedField` | http.go:153 | Taking the second `"`-piece of a segment fails with an index error exactly when the segment holds no `"`. Otherwise it is the text from the first quote to the next quote, or to the end. |
| `Digest.SegmentParts` | http.go:151-155 | One segment is readable exactly when it has a quote or names no wanted key. Every wanted key it contains is set to its quoted text, and other entries are kept. |
| `Digest.SegmentsParts` | http.go:148-156 | Parsing succeeds exactly when every segment is readable. The map's keys are a subset of {nonce, realm, qop}. |
| `Digest.LastMentionWins` | http.go:148-156 | A wanted key is present exactly when some segment mentions it, and its value is the quoted text of the last such segment. |
| `Digest.DigestParts` | http.go:145-159 | With no `WWW-Authenticate` header the challenge map is empty. Otherwise the first header is split at commas, and parsing fails with an index error exactly when some segment names a wanted key but holds no quote. On success the keys are among nonce, realm and qop, a key is present exactly when some segment mentions it, and its value is the quoted text of the last segment that does. |
| `Digest.Cnonce` | http.go:167-171 | The client nonce is exactly 16 characters of [0-9a-f], and it decodes back to the eight random bytes. |
| `Text.Field` | http.go:175-176 | A missing digest field or header reads as the empty string. |
| `Digest.Authorization` | http.go:173-183 | The header is the seventeen `"`-separated pieces joined by quotes, and its response field is the RFC 2617 request-digest (KD of section 3.2.1, request-digest of section 3.2.2.1, A1 of section 3.2.2.2 and A2 of section 3.2.2.3) over the map's username, realm, password, method, uri, nonce and qop, with nonce count "0" and the client nonce. |
| `Digest.AuthorizationFields` | http.go:173-183 | Split at its quotes, the header gives the fixed labels and, in order, username, realm, nonce, uri, the RFC 2617 request-digest (nonce count "0"), qop, "0" and the cnonce, for field values without quotes. |
| `Http.NewRequest` | http.go:27-32 | A new request has the given method, URL and body, its content length is the body's length in characters, and it has no headers. |
| `Http.UrlPathOfJoined` | http.go:81 | The digest uri of a request to "http://" + authority + path is the path alone. |
| `Http.UrlPath` | http.go:81 | For a URL with the "http://" scheme the path is empty exactly when no "/" follows the scheme. Otherwise it is the suffix that starts at the first "/" after the scheme. A URL without the scheme is its own path. |
| `Http.DigestFields` | http.go:80-85 | The digest map is the challenge's keys plus uri, method, username and password. The uri is the request URL's path, the method is the request's, the credentials are the given ones, and every other key keeps the challenge's value. |
| `Http.RetryRequest` | http.go:86-95 | The retry keeps the original method, URL, body and content length. Its headers are exactly Authorization (the given value), Content-Type text/xml, Charset utf-8 and Soapaction (the original's, or "" when it had none). |
| `Http.Retry` | http.go:80-95 | The retry's Authorization header is the digest header built from the challenge fields, the request's path and method, the credentials and the client nonce of the random bytes. |
| `Http.DigestPost` | http.go:61-117 | A non-401 first response is returned unchanged with no retry, and a transport failure aborts. A 401 whose challenge cannot be parsed fails with an index error after one request. A retry happens exactly when the first status is 401 and the challenge parses. There is then exactly one retry, it is `Http.Retry` of the parsed challenge, and its response is returned whatever its status. |
| `Http.Do` | http.go:34-59 | `do` succeeds exactly when the exchange does. |
| `Http.DoWithoutChallenge` | http.go:54-57 | Without a 401 one request is sent, and the body passes through only on 200 OK (empty otherwise). |
| `Http.DoAfterChallenge` | http.go:97-116 | After a 401 with a readable challenge exactly two requests are sent. The retry's response decides: 200 OK gives its body, anything else the empty body. |
| `Http.MissingChallengeHeader` | http.go:145-147 | A 401 without `WWW-Authenticate` still yields a retry. Split at its quotes, its Authorization header carries empty realm, nonce and qop, and the request-digest computed from those empty fields. |
| `Http.ChallengeAnswered` | http.go:80-97 | For any parsed challenge, and a username and request path without quotes, the retry's Authorization header, split at its quotes, carries the username, the challenge's realm, nonce and qop, the request path, and the RFC 2617 request-digest over them and the password and method. |
| `Upnp.HasGetBeforeNewline` | upnp.go:172 | The scan succeeds exactly when "Get" starts at some position with no newline before it. |
| `Upnp.GetPatternMeansGetBeforeNewline` | upnp.go:172 | The expression `^(.*Get)+[A-z]*`, as a grammar, matches a name exactly when "Get" occurs before its first newline, case-sensitively. |
| `Upnp.IsActionGetOnly` | upnp.go:171-182 | An action is get-only exactly when its name matches the pattern, no argument has direction exactly "in", and it has at least one argument. |
| `Upnp.GetOnlyAccepted` | upnp.go:171-182 | "GetInfo" with an "out" argument is accepted, and so is "X_GetInfo" with an argument of no stated direction. |
| `Upnp.GetOnlyCaseSensitive` | upnp.go:172-175 | "getInfo" and "SetEnable" are rejected. |
| `Upnp.GetOnlyNeedsArgumentsNoInput` | upnp.go:176-181 | "GetInfo" with no arguments is rejected, and so is a Get action with an "in" argument. |
| `Upnp.DecodeAll` | upnp.go:150-167 | A decoding loop succeeds exactly when no element fails to decode. An element is in the result exactly when it decoded and passes the filter. |
| `Upnp.DecodeAllAppend` | upnp.go:162-163 | Kept elements come in document order: those of the first part, then those of the rest. |
| `Upnp.ParseActions` | upnp.go:145-169 | A failed fetch aborts. Otherwise the result is the decoding loop over the SCPD document with the get-only filter: it succeeds exactly when no action element fails to decode, and it holds exactly the decoded get-only actions, in document order (`Upnp.DecodeAllAppend`). |
| `Upnp.DiscoverServices` | upnp.go:121-142 | Discovery succeeds exactly when every service element decodes and every decoded service's action list parses. The result is then every decoded service in order. |
| `Upnp.ParseServices` | upnp.go:115-143 | A failed fetch of the description aborts. Otherwise the result is discovery over the fetched document: the services returned are exactly the decoded ones, and each has an action list that parses. |
| `Upnp.GetRequest` | upnp.go:118 | Discovery fetches with a GET of the URL, with no body, content length 0 and no headers (also upnp.go:148). |
| `Upnp.FirstKey` | upnp.go:43-48 | The first key in iteration order that the service type contains, and no earlier key is contained. |
| `Upnp.SelectService` | upnp.go:41-49 | Everything is selected exactly when the filter is empty. A service is skipped exactly when the filter is non-empty and no key is in its type. Otherwise the names selected are the list of some key that the type contains. |
| `Upnp.NewClient` | upnp.go:22-29 | The client reaches the device at "http://" + host + ":49000" and keeps the credentials and the interest filter. |
| `Upnp.Envelope` | upnp.go:62-67 | The envelope is the fixed SOAP head, the action name, the fixed namespace attribute opening, the service type and the fixed tail, each at its place. |
| `Upnp.SoapAction` | upnp.go:73 | The SoapAction header cut at its first "#" gives back the service type and the action name, for service types without "#". |
| `Upnp.ControlRequest` | upnp.go:62-73 | An invocation is a POST to the client URL plus the control URL, with the envelope as body and its length as content length. Its headers are exactly Content-Type text/xml, Charset utf-8 and the SoapAction value. |
| `Upnp.EnvelopeIdentifiesInvocation` | upnp.go:62-67 | The envelope determines the action name and the service type. |
| `Upnp.ControlRequestPath` | upnp.go:24 | The invocation goes to http://host:49000 followed by the control URL, so its digest uri is the control path. |
| `Upnp.MatchArguments` | upnp.go:85-98 | Each value produced for a start element carries the invoking service type and action name. Its variable is the related state variable of an argument named like the element, and its text is that of a character-data token. |
| `Upnp.ScanFrom` | upnp.go:77-100 | Every value of a response names the invoking service and action, the state variable of an argument that occurs as a start element, and a character-data text of the response. |
| `Upnp.MatchDistinct` | upnp.go:85-97 | With distinct argument names, an element matches at most one argument, which takes exactly the next token. It yields a value only when that token is character data. |
| `Upnp.FlatResponseValues` | upnp.go:78-100 | For a flat response with distinct argument names, the extraction loop yields exactly the reference reading. That is one value per argument element followed immediately by character data, in document order. |
| `Upnp.Invoke` | upnp.go:62-100 | One invocation fails exactly when the control exchange fails. Otherwise its values are the extraction loop over the response tokens, and each carries the service type, the action name and the state variable of one of the action's arguments. |
| `Outcome.Gather` | upnp.go:52-60 | An appending loop succeeds exactly when every step does, and every value it collects comes from some step. On failure it reports the failure of the first failing step. |
| `Outcome.GatherAppend` | upnp.go:52-60 | Looping over two lists in turn appends the second loop's values to the first's. |
| `Outcome.GatherIncludes` | upnp.go:52-60 | A successful appending loop includes every value of every step, and every step succeeded. |
| `Outcome.GatherInOrder` | upnp.go:52-60 | A successful appending loop yields exactly the values of its steps, written out one step after the other in list order. Nothing is added, dropped, repeated or reordered. |
| `Upnp.ServiceValues` | upnp.go:41-60 | A skipped service yields nothing. Otherwise the turn succeeds exactly when the action list parses and every selected get-only action's invocation succeeds. On success it is exactly the action loop over the parsed actions under the service's selection. So its values come in action order, and each was produced by a parsed, selected action's invocation. Every value of every such invocation is included, and every value carries the service's type and is admitted by the interest filter. |
| `Upnp.InvokeActions` | upnp.go:52-60 | The action loop succeeds exactly when every selected action's invocation does. Its output is then the concatenation, in list order, of what each action yields: the invocation's values for a selected action, nothing otherwise. Every value was produced by the invocation of a selected action in the list, and every value of every selected action is included. |
| `Upnp.NoNamesInvokeNothing` | upnp.go:53-59 | A filter key with an empty action list invokes nothing. |
| `Upnp.InvokeActionsAppend` | upnp.go:52 | Per service, output is appended action by action. |
| `Upnp.InvokeServices` | upnp.go:40-104 | The service loop succeeds exactly when every service's turn does. Its output is then the concatenation, in list order, of each service's values. Every value is admitted by the filter and was produced by the turn of a listed service of the same type, and every value of every service is included. |
| `Upnp.InvokeServicesAppend` | upnp.go:39-40 | Output is appended service by service, in discovery order. |
| `Upnp.WlanInfoFilter` | upnp.go:41-59 | The filter {"WLANConfiguration": ["GetInfo"]} yields only GetInfo values of services whose type contains "WLANConfiguration". |
| `Upnp.Execute` | upnp.go:38-107 | A failed discovery aborts. The run succeeds exactly when discovery does and every discovered service's turn does. On success the output is exactly the service loop over the discovered services: ordered by service, then action, then position in the response. Every value returned is admitted by the interest filter and was produced by a discovered service's turn, and every value of every such turn is included. |
| `Upnp.EmptyFilterInvokesEverything` | upnp.go:38-60 | With an empty interest filter, a successful run fetched the description and every decoded service's SCPD document, invoked every decoded get-only action successfully, and returns all of their values. |
| `Metrics.FilterByService` | prometheus.go:28-36 | The lookup returns the value of the first entry whose service type contains the service and whose action and variable are equal, or "" when none is. A non-empty result is the value of an answering entry. |
| `Metrics.Extract` | prometheus.go:38-43 | The empty string reads as 0. |
| `Metrics.ExtractDecimal` | prometheus.go:38-43 | A decimal number reads as itself. |
| `Metrics.MissingValueIsZero` | prometheus.go:34-43 | A lookup nothing answers gives metric value 0, not an error. |
| `Metrics.Correct` | prometheus.go:59-63 | `last` becomes the raw reading. A fall below `last` resets the offset to the reading and publishes 0. Otherwise the published value grows by exactly the raw increase. offset ≤ last is preserved, and the published value is then never negative. |
| `Metrics.NonDecreasingWithoutReset` | prometheus.go:59-63 | While readings do not fall, the published value does not decrease. |
| `Metrics.Run` | prometheus.go:59-63 | After a series of readings `last` is the final reading, and validity is preserved. |
| `Metrics.Trace` | prometheus.go:59-63 | One published value per reading, all non-negative from a valid state. |
| `Metrics.LastReset` | prometheus.go:59 | The index of the most recent reading that fell below its predecessor, with none after it. |
| `Metrics.TraceMatchesBaseline` | prometheus.go:59-63 | Each published value equals the raw reading minus the reading at the most recent reset (or minus the initial offset when there was none). |
| `Metrics.PublishedAt` | prometheus.go:59-63 | The value published for one reading is that reading minus the baseline in force after it. |
| `Metrics.ResetScenario` | prometheus_test.go:9-66 | Readings 4711, 4712, 100, 150, 120, 150 from a fresh counter publish 4711, 4712, 0, 50, 0, 30. |
| `Metrics.ReportScenario` | prometheus_test.go:9-66 | The same scenario through lookup and number reading of the reported strings "4711", "4712", "100", "150", "120", "150", on an empty keyed cache, publishes 4711, 4712, 0, 50, 0, 30. |
| `Metrics.FeedMatchesTrace` | prometheus.go:57-63 | A series of reports through lookup, number reading and the keyed cache publishes exactly what the counter alone publishes for the numbers read, starting from the key's state in the cache, and leaves the key in the state the counter reaches. |
| `Metrics.CorrectKeyed` | prometheus.go:59-63 | A keyed step adds the key, whose new state (last and offset) and published value are those of the correction of its previous state (fresh when absent) by the reading. Every other key's state is unchanged, and validity of all states is preserved. |
| `Metrics.FilterConvertAndCorrect` | prometheus.go:57-63 | Lookup, number read and one correction step under the lookup's key: the key's new state and the published value are those of the correction of its previous state (fresh when absent) by the number read. Other keys are unchanged. |
| `Metrics.CollectCounters` | prometheus.go:57-85 | The received and sent raw readings come from their own lookups. Each counter's new state and published value are the correction of its previous state by its reading. Validity and non-negative published values are preserved. |
| `Metrics.CountersIndependent` | prometheus.go:14-15 | The sent result depends only on the sent state, and the received result only on the received state. |
| `Metrics.WlanLabel` | prometheus.go:153-156 | The label is the first reported GetInfo SSID + " (" + the first reported GetInfo standard + ")" for that WLAN instance, each "" when not reported. With no GetInfo values the label is " ()". |
| `Metrics.RequestedMeansWanted` | prometheus.go:48-53 | A value that answers a requested lookup is one the filter admits. |
| `Metrics.CollectQueriesRequested` | prometheus.go:45-159 | Every lookup `Collect` makes, the WLAN ones for instances 1 to 3 included, asks for an action that its own filter requests under a key its service contains. |

## Left out

- XML decoding (`Token`, `DecodeElement`): the decoded services and actions and the response token stream are inputs. The response stream stands for the tokens up to the first nil token, and the attribute mapping of `Service`, `Action` and `Argument` is not modelled.
- MD5, `crypto/rand`, `encoding/hex` of digests, TLS and `http.Client`: MD5 and the random bytes are parameters, and the network is a transport function. A transport error, which panics in the code, is a `TransportError` failure.
- The hard-coded credentials at http.go:84-85: the credentials are a parameter.
- The timeout branch of `do` (http.go:46-53): it cannot be reached, because `err` is never assigned.
- The body read after a failed retry (http.go:108-114): the read and its panic are I/O, and the response is returned either way.
- Http.Do: states only when it succeeds. The status-to-body rule is stated by `Http.DoWithoutChallenge` and `Http.DoAfterChallenge`.
- Http.NewRequest: the content length counts characters. Go's `strings.Reader.Len()` counts UTF-8 bytes, so the two differ for bodies with non-ASCII characters; the model has no encoding.
- Http.UrlPath: covers the URLs this client builds (scheme, authority, path). Query strings, fragments and percent-decoding of `URL.Path` are not modelled.
- Metrics.Extract: reads only strings of decimal digits, and "" as 0. Signs, fractions, exponents, "Inf" and "NaN", which `strconv.ParseFloat` accepts, read as 0 here. float64 rounding of large counters is not modelled.
- Go map iteration order: `Execute` walks the filter's keys in an unspecified order, possibly a different one per service. The model takes one enumeration of the keys per `Execute` call.
- The second fetch of a service's SCPD document (upnp.go:135 during discovery, upnp.go:52 during invocation): both fetches are the same request to the same `Device` function, so they yield the same document.
- Upnp.DiscoverServices: the action list stored in each service at upnp.go:135 is dropped, because `Execute` re-parses it at upnp.go:52.
- Deferred closes of response bodies inside loops (upnp.go:76): resource handling, no behaviour.
- Metric emission (`MustNewConstMetric`, `Describe`, channels) and the float publishing of every other lookup: library plumbing. Only the lookups, the numbers read and the two corrected counters are modelled.
- `formatRequest` (http.go:119-143) and `printResult` (upnp.go:109-113): logging only.
- Concurrency: concurrent `Collect` calls on the collector's unsynchronised fields are not modelled. A collector is a value threaded through calls.
- cfg.go and main.go: flag and environment parsing, the HTTP server and the signal handling are startup and I/O. cfg.go and main.go are not part of this model.
