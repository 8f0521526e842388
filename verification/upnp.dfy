/**
 TR-064 discovery and invocation (upnp.go). The device's description
 documents reach the model already decoded: the root document as a
 sequence of `service` elements (decoded or not) interleaved with other
 tokens, each service's SCPD document likewise for `action` elements, and
 each SOAP response as a stream of XML tokens that ends where the Go
 decoder first returns a nil token. Fetching a document is a function of
 the request (`Device`), standing for `do` followed by XML decoding; a
 failed fetch aborts the poll as the Go panics do.
 */
module Upnp {
  import opened Text
  import opened Outcome
  import Http

  /** Path of the root description document. */
  const Endpoint: string := "/tr64desc.xml"

  /** Port of the device's TR-064 interface. */
  const Port: string := "49000"

  datatype Argument = Argument(name: string, direction: string, relatedStateVariable: string)

  datatype Action = Action(name: string, arguments: seq<Argument>)

  datatype Service = Service(serviceType: string, controlUrl: string, scpdUrl: string)

  /** One extracted value: which service and action reported it, the state
      variable it belongs to, and the raw text the device sent. */
  datatype ServiceActionValue = ServiceActionValue(serviceType: string, actionName: string, variable: string, value: string)

  /** The interest filter: service-type substring to the action names wanted. */
  type Filter = map<string, seq<string>>

  datatype Client = Client(url: string, user: string, password: string, servicesActions: Filter)

  /** `NewUPnPClient`: the device is reached at http://<host>:49000. */
  function NewClient(host: string, user: string, password: string, servicesActions: Filter): (c: Client)
    ensures c.url == "http://" + host + ":49000"
    ensures c.user == user && c.password == password && c.servicesActions == servicesActions
  {
    Client(Http.Scheme + host + ":" + Port, user, password, servicesActions)
  }

  // ---------------------------------------------------------------------
  // The get-only predicate (IsActionGetOnly)
  // ---------------------------------------------------------------------

  predicate NoNewline(s: string)
  {
    '\n' !in s
  }

  /** The regular expression `(.*Get)+` where `.` is any character except
      newline: one or more repetitions of newline-free text followed by
      "Get". */
  ghost predicate RepeatedGet(p: string)
    decreases |p|
  {
    && |p| >= 3
    && p[|p| - 3..] == "Get"
    && (|| NoNewline(p[..|p| - 3])
        || exists j :: 3 <= j <= |p| - 3 && RepeatedGet(p[..j]) && NoNewline(p[j..|p| - 3]))
  }

  /** The character class `[A-z]` repeated: every character lies between
      'A' and 'z' (which also admits [ \ ] ^ _ and `). */
  predicate InAtoZ(s: string)
  {
    forall i :: 0 <= i < |s| ==> 'A' <= s[i] <= 'z'
  }

  /** Go's `regexp.MatchString("^(.*Get)+[A-z]*", name)`: the pattern is
      anchored at the start only, so it matches when some prefix of the
      name does. */
  ghost predicate MatchesGetPattern(name: string)
  {
    exists n, m :: 0 <= n <= m <= |name| && RepeatedGet(name[..n]) && InAtoZ(name[n..m])
  }

  /** "Get" starts at index `i` and no newline comes before it. */
  predicate GetAt(s: string, i: int)
  {
    0 <= i <= |s| - 3 && s[i..i + 3] == "Get" && NoNewline(s[..i])
  }

  /** Dropping a first character that is neither a newline nor the start
      of "Get" shifts every qualifying position by one. */
  lemma GetAtShift(s: string)
    requires |s| >= 3 && s[..3] != "Get" && s[0] != '\n'
    ensures (exists i :: GetAt(s, i)) <==> (exists i :: GetAt(s[1..], i))
  {
    forall i | 0 <= i <= |s| - 4
      ensures GetAt(s, i + 1) <==> GetAt(s[1..], i)
    {
      assert s[1..][i..i + 3] == s[i + 1..i + 4];
      assert s[..i + 1] == [s[0]] + s[1..][..i];
    }
    if exists i :: GetAt(s, i) {
      var i :| GetAt(s, i);
      assert s[0..3] == s[..3];
      assert i > 0;
      assert GetAt(s[1..], i - 1);
    }
    if exists i :: GetAt(s[1..], i) {
      var i :| GetAt(s[1..], i);
      assert GetAt(s, i + 1);
    }
  }

  /** Scan for "Get" until the first newline. */
  function HasGetBeforeNewline(s: string): (b: bool)
    ensures b <==> exists i :: GetAt(s, i)
    decreases |s|
  {
    if |s| < 3 then false
    else if s[..3] == "Get" then
      assert s[0..3] == s[..3] && s[..0] == "";
      assert GetAt(s, 0);
      true
    else if s[0] == '\n' then
      assert forall i :: 0 < i <= |s| ==> s[..i][0] == '\n';
      assert s[0..3] == s[..3];
      false
    else
      GetAtShift(s);
      HasGetBeforeNewline(s[1..])
  }

  lemma {:induction false} RepeatedGetHasNoNewline(p: string)
    requires RepeatedGet(p)
    ensures NoNewline(p)
    decreases |p|
  {
    var init := p[..|p| - 3];
    assert p == init + "Get";
    if exists j :: 3 <= j <= |p| - 3 && RepeatedGet(p[..j]) && NoNewline(p[j..|p| - 3]) {
      var j :| 3 <= j <= |p| - 3 && RepeatedGet(p[..j]) && NoNewline(p[j..|p| - 3]);
      RepeatedGetHasNoNewline(p[..j]);
      assert init == p[..j] + p[j..|p| - 3];
    }
  }

  /** The pattern matches exactly when "Get" occurs with no newline
      before it; in particular the match is case-sensitive. */
  lemma GetPatternMeansGetBeforeNewline(name: string)
    ensures MatchesGetPattern(name) <==> HasGetBeforeNewline(name)
  {
    if MatchesGetPattern(name) {
      var n, m :| 0 <= n <= m <= |name| && RepeatedGet(name[..n]) && InAtoZ(name[n..m]);
      RepeatedGetHasNoNewline(name[..n]);
      var i := n - 3;
      assert name[i..i + 3] == name[..n][n - 3..];
      assert name[..i] == name[..n][..n - 3];
      assert GetAt(name, i);
    }
    if HasGetBeforeNewline(name) {
      var i :| GetAt(name, i);
      var p := name[..i + 3];
      assert p[|p| - 3..] == "Get" && p[..|p| - 3] == name[..i];
      assert RepeatedGet(p);
      assert InAtoZ(name[i + 3..i + 3]);
    }
  }

  /** `IsActionGetOnly`: the name matches the "Get" pattern, no argument
      has direction exactly "in", and there is at least one argument
      (which need not be marked "out"). */
  function IsActionGetOnly(a: Action): (b: bool)
    ensures b <==> && MatchesGetPattern(a.name)
                   && (forall i :: 0 <= i < |a.arguments| ==> a.arguments[i].direction != "in")
                   && |a.arguments| > 0
  {
    GetPatternMeansGetBeforeNewline(a.name);
    HasGetBeforeNewline(a.name)
    && (forall i :: 0 <= i < |a.arguments| ==> a.arguments[i].direction != "in")
    && |a.arguments| > 0
  }

  /** A string without a capital 'G' has no "Get" anywhere in it. */
  lemma {:induction false} NoGetFrom(s: string, k: nat)
    requires k <= |s|
    requires forall i :: 0 <= i < |s| ==> s[i] != 'G'
    ensures !HasGetBeforeNewline(s[k..])
    decreases |s| - k
  {
    if |s| - k >= 3 {
      assert s[k..][..3][0] == s[k];
      NoGetFrom(s, k + 1);
      assert s[k..][1..] == s[k + 1..];
    }
  }

  /** Sample verdicts: "Get" anywhere before a newline qualifies, with
      output arguments or arguments of no stated direction. */
  lemma GetOnlyAccepted()
    ensures IsActionGetOnly(Action("GetInfo", [Argument("NewSSID", "out", "SSID")]))
    ensures IsActionGetOnly(Action("X_GetInfo", [Argument("NewSSID", "", "SSID")]))
  {
    assert "GetInfo"[..3] == "Get";
    assert "X_GetInfo"[1..] == "_GetInfo" && "_GetInfo"[1..] == "GetInfo";
    assert HasGetBeforeNewline("X_GetInfo");
  }

  /** Sample verdicts: "Get" is matched only with that capitalisation. */
  lemma GetOnlyCaseSensitive()
    ensures !IsActionGetOnly(Action("getInfo", [Argument("NewSSID", "out", "SSID")]))
    ensures !IsActionGetOnly(Action("SetEnable", [Argument("NewEnable", "out", "Enable")]))
  {
    var lower, setter := "getInfo", "SetEnable";
    NoGetFrom(lower, 0);
    NoGetFrom(setter, 0);
    assert lower[0..] == lower && setter[0..] == setter;
  }

  /** Sample verdicts: an empty argument list or an input argument
      disqualifies a "Get" action. */
  lemma GetOnlyNeedsArgumentsNoInput()
    ensures !IsActionGetOnly(Action("GetInfo", []))
    ensures !IsActionGetOnly(Action("GetSpecificEntry", [Argument("NewIndex", "in", "Index"),
                                                         Argument("NewValue", "out", "Value")]))
  {
    var a := Action("GetSpecificEntry", [Argument("NewIndex", "in", "Index"), Argument("NewValue", "out", "Value")]);
    assert a.arguments[0].direction == "in";
  }

  // ---------------------------------------------------------------------
  // Discovery (parseServices, parseActions)
  // ---------------------------------------------------------------------

  /** One step of a decoding loop that looks for elements of one name:
      such an element that decoded, one that did not, or any other token. */
  datatype Item<T> = Decoded(value: T) | Undecodable | Ignored

  /** The decoded elements that pass `keep`, in document order; any element
      that fails to decode aborts. */
  function DecodeAll<T(!new)>(items: seq<Item<T>>, keep: T -> bool): (r: Result<seq<T>>)
    ensures r.Ok? <==> forall i :: 0 <= i < |items| ==> !items[i].Undecodable?
    ensures r.Ok? ==> forall x :: x in r.value <==> keep(x) && Decoded(x) in items
    decreases |items|
  {
    if |items| == 0 then Ok([])
    else
      var rest := DecodeAll(items[1..], keep);
      assert forall i :: 1 <= i < |items| ==> items[i] == items[1..][i - 1];
      assert forall x :: Decoded(x) in items <==> items[0] == Decoded(x) || Decoded(x) in items[1..];
      match items[0]
      case Undecodable => Fail(MalformedElement)
      case Ignored => rest
      case Decoded(x) =>
        if rest.Fail? then rest
        else Ok((if keep(x) then [x] else []) + rest.value)
  }

  /** Decoding respects document order: the elements kept from a document
      are those kept from its first part followed by those kept from the
      rest. */
  lemma {:induction false} DecodeAllAppend<T(!new)>(a: seq<Item<T>>, b: seq<Item<T>>, keep: T -> bool)
    requires DecodeAll(a, keep).Ok? && DecodeAll(b, keep).Ok?
    ensures DecodeAll(a + b, keep) == Ok(DecodeAll(a, keep).value + DecodeAll(b, keep).value)
    decreases |a|
  {
    if |a| == 0 {
      assert a + b == b;
      assert DecodeAll(a, keep).value == [];
      assert [] + DecodeAll(b, keep).value == DecodeAll(b, keep).value;
    } else {
      assert (a + b)[1..] == a[1..] + b;
      assert (a + b)[0] == a[0];
      DecodeAllAppend(a[1..], b, keep);
      match a[0]
      case Ignored =>
      case Decoded(x) =>
        var head := if keep(x) then [x] else [];
        assert DecodeAll(a, keep).value == head + DecodeAll(a[1..], keep).value;
        assert DecodeAll(a + b, keep).value == head + DecodeAll(a[1..] + b, keep).value;
        assert head + (DecodeAll(a[1..], keep).value + DecodeAll(b, keep).value)
            == (head + DecodeAll(a[1..], keep).value) + DecodeAll(b, keep).value;
    }
  }

  /** Where the device's documents come from: each is a function of the
      request that fetches it, and each fetch may fail. */
  datatype Device = Device(
    describe: Http.Request -> Result<seq<Item<Service>>>,
    schema: Http.Request -> Result<seq<Item<Action>>>,
    control: Http.Request -> Result<seq<Token>>)

  /** The document fetches of discovery: a GET of the URL with no body
      and no headers. */
  function GetRequest(url: string): (r: Http.Request)
    ensures r.verb == "GET" && r.url == url
    ensures r.body == "" && r.contentLength == 0 && r.headers == map[]
  {
    Http.NewRequest("GET", url, "")
  }

  /** `parseActions`: the get-only actions of the service's SCPD document,
      fetched with GET at the client URL plus the SCPD path, in document
      order. Actions that are not get-only are dropped silently; an action
      that does not decode aborts. */
  function ParseActions(c: Client, dev: Device, s: Service): (r: Result<seq<Action>>)
    ensures dev.schema(GetRequest(c.url + s.scpdUrl)).Fail? ==> r.Fail?
    ensures dev.schema(GetRequest(c.url + s.scpdUrl)).Ok? ==>
              r == DecodeAll(dev.schema(GetRequest(c.url + s.scpdUrl)).value, IsActionGetOnly)
    ensures r.Ok? <==> && dev.schema(GetRequest(c.url + s.scpdUrl)).Ok?
                       && var items := dev.schema(GetRequest(c.url + s.scpdUrl)).value;
                          forall i :: 0 <= i < |items| ==> !items[i].Undecodable?
    ensures r.Ok? ==> forall a :: a in r.value ==> IsActionGetOnly(a)
    ensures r.Ok? ==> forall a :: a in r.value <==>
              IsActionGetOnly(a) && Decoded(a) in dev.schema(GetRequest(c.url + s.scpdUrl)).value
  {
    var items :- dev.schema(GetRequest(c.url + s.scpdUrl));
    DecodeAll(items, IsActionGetOnly)
  }

  /** The loop of `parseServices` over the root document: every decoded
      service is kept, in order, after its actions have been parsed once
      (upnp.go:135), so a bad SCPD document of ANY service aborts. */
  function DiscoverServices(c: Client, dev: Device, items: seq<Item<Service>>): (r: Result<seq<Service>>)
    ensures r.Ok? <==> && (forall i :: 0 <= i < |items| ==> !items[i].Undecodable?)
                       && (forall i :: 0 <= i < |items| && items[i].Decoded? ==> ParseActions(c, dev, items[i].value).Ok?)
    ensures r.Ok? ==> r == DecodeAll(items, _ => true)
    ensures r.Ok? ==> forall s :: s in r.value ==> ParseActions(c, dev, s).Ok?
    decreases |items|
  {
    if |items| == 0 then Ok([])
    else
      assert forall i :: 1 <= i < |items| ==> items[i] == items[1..][i - 1];
      match items[0]
      case Undecodable => Fail(MalformedElement)
      case Ignored => DiscoverServices(c, dev, items[1..])
      case Decoded(s) =>
        var actions :- ParseActions(c, dev, s);
        var rest :- DiscoverServices(c, dev, items[1..]);
        Ok([s] + rest)
  }

  /** `parseServices`: the services of the root description document,
      fetched with GET at the client URL plus "/tr64desc.xml". A failed
      fetch aborts; otherwise the document's services are discovered, and
      on success they are exactly the services decoded from it. */
  function ParseServices(c: Client, dev: Device): (r: Result<seq<Service>>)
    ensures dev.describe(GetRequest(c.url + Endpoint)).Fail? ==> r.Fail?
    ensures dev.describe(GetRequest(c.url + Endpoint)).Ok? ==>
              r == DiscoverServices(c, dev, dev.describe(GetRequest(c.url + Endpoint)).value)
    ensures r.Ok? ==> forall s :: s in r.value <==> Decoded(s) in dev.describe(GetRequest(c.url + Endpoint)).value
    ensures r.Ok? ==> forall s :: s in r.value ==> ParseActions(c, dev, s).Ok?
  {
    var items :- dev.describe(GetRequest(c.url + Endpoint));
    DiscoverServices(c, dev, items)
  }

  // ---------------------------------------------------------------------
  // Selection by the interest filter (Execute, upnp.go:41-59)
  // ---------------------------------------------------------------------

  /** Which actions of one service are invoked. */
  datatype Selection = Skip | Everything | Only(names: seq<string>)

  /** `order` lists the filter's keys once each: the order in which Go's
      map iteration happened to visit them. */
  predicate IsEnumeration(order: seq<string>, filter: Filter)
  {
    && (forall i, j :: 0 <= i < j < |order| ==> order[i] != order[j])
    && (forall k :: k in order ==> k in filter)
    && (forall k :: k in filter ==> k in order)
  }

  /** Index of the first key in `order` that occurs in the service type,
      or -1 when none does. */
  function FirstKey(order: seq<string>, serviceType: string): (i: int)
    ensures -1 <= i < |order|
    ensures i >= 0 ==> Contains(serviceType, order[i])
    ensures forall j :: 0 <= j < |order| && (i == -1 || j < i) ==> !Contains(serviceType, order[j])
    decreases |order|
  {
    if |order| == 0 then -1
    else if Contains(serviceType, order[0]) then 0
    else
      var i := FirstKey(order[1..], serviceType);
      if i == -1 then -1 else i + 1
  }

  /** The service selection of `Execute`. With an empty filter everything
      is selected. Otherwise the service is skipped unless some key is a
      substring of its type, and then only the action names listed under
      one such key (the first in iteration order) are selected. */
  function SelectService(filter: Filter, order: seq<string>, serviceType: string): (sel: Selection)
    requires IsEnumeration(order, filter)
    ensures sel.Everything? <==> |filter| == 0
    ensures sel.Skip? <==> |filter| > 0 && forall k :: k in filter ==> !Contains(serviceType, k)
    ensures sel.Only? ==> exists k :: k in filter && Contains(serviceType, k) && sel.names == filter[k]
  {
    if |filter| == 0 then Everything
    else
      var i := FirstKey(order, serviceType);
      if i == -1 then Skip else Only(filter[order[i]])
  }

  /** Whether the action of this name is invoked: all are under
      `Everything`, and under `Only` exactly those whose name equals a
      listed entry. */
  predicate ActionSelected(sel: Selection, name: string)
  {
    sel.Everything? || (sel.Only? && name in sel.names)
  }

  // ---------------------------------------------------------------------
  // The SOAP request (Execute, upnp.go:62-73)
  // ---------------------------------------------------------------------

  /** The template's text before the action name, line by line as in
      upnp.go:62-66. */
  const EnvelopeHead: string := XmlDeclarationLine + EnvelopeOpenLine + EncodingStyleLine + BodyOpenLine
  const XmlDeclarationLine: string := "\n\t\t<?xml version=\"1.0\"?> "
  const EnvelopeOpenLine: string := "\n        <s:Envelope xmlns:s=\"http://schemas.xmlsoap.org/soap/envelope/\" "
  const EncodingStyleLine: string := "\n\t\t\t\ts:encodingStyle=\"http://schemas.xmlsoap.org/soap/encoding/\"> "
  const BodyOpenLine: string := "\n            <s:Body><u:"
  const EnvelopeMiddle: string := " xmlns:u='"
  const EnvelopeTail: string := "'/></s:Body>\n\t\t</s:Envelope>"

  /** The SOAP 1.1 envelope: an empty body element named after the action,
      in the service type's namespace. */
  function Envelope(actionName: string, serviceType: string): (e: string)
    ensures |e| == |EnvelopeHead| + |actionName| + |EnvelopeMiddle| + |serviceType| + |EnvelopeTail|
    ensures e[..|EnvelopeHead|] == EnvelopeHead
    ensures e[|EnvelopeHead|..|EnvelopeHead| + |actionName|] == actionName
    ensures e[|EnvelopeHead| + |actionName|..|EnvelopeHead| + |actionName| + |EnvelopeMiddle|] == EnvelopeMiddle
    ensures e[|e| - |EnvelopeTail| - |serviceType|..|e| - |EnvelopeTail|] == serviceType
    ensures e[|e| - |EnvelopeTail|..] == EnvelopeTail
  {
    EnvelopeHead + actionName + EnvelopeMiddle + serviceType + EnvelopeTail
  }

  /** The `SoapAction` header value: service type, "#", action name. The
      header names the service and the action: cutting it at its first "#"
      gives both back, provided the service type holds no "#". */
  function SoapAction(serviceType: string, actionName: string): (h: string)
    ensures '#' !in serviceType ==>
              '#' in h && h[..IndexOf(h, '#')] == serviceType && h[IndexOf(h, '#') + 1..] == actionName
  {
    var h := serviceType + ['#'] + actionName;
    assert h[|serviceType|] == '#';
    if '#' in serviceType then h
    else
      IndexOfAfter(serviceType, '#', actionName);
      h
  }

  /** The request invoking action `a` of service `s`: POST to the client
      URL plus the control path, with the SOAP envelope as body. */
  function ControlRequest(c: Client, s: Service, a: Action): (r: Http.Request)
    ensures r.verb == "POST" && r.url == c.url + s.controlUrl
    ensures r.body == Envelope(a.name, s.serviceType) && r.contentLength == |r.body|
    ensures r.headers.Keys == {"Content-Type", "Charset", "Soapaction"}
    ensures r.headers["Soapaction"] == SoapAction(s.serviceType, a.name)
    ensures r.headers["Content-Type"] == "text/xml" && r.headers["Charset"] == "utf-8"
  {
    Http.NewRequest("POST", c.url + s.controlUrl, Envelope(a.name, s.serviceType))
      .(headers := ControlHeaders(SoapAction(s.serviceType, a.name)))
  }

  /** The headers of an invocation: XML content, UTF-8, and the
      `SoapAction` value. */
  function ControlHeaders(soapAction: string): (h: Http.Headers)
    ensures h.Keys == {"Content-Type", "Charset", "Soapaction"}
    ensures h["Soapaction"] == soapAction
    ensures h["Content-Type"] == "text/xml" && h["Charset"] == "utf-8"
  {
    map["Content-Type" := "text/xml", "Charset" := "utf-8", "Soapaction" := soapAction]
  }

  /** Equal strings with a common prefix and suffix agree in between. */
  lemma StripAffixes(head: string, x: string, y: string, tail: string)
    requires head + x + tail == head + y + tail
    ensures x == y
  {
    var e := head + x + tail;
    assert x == e[|head|..|e| - |tail|];
    assert y == e[|head|..|e| - |tail|];
  }

  /** A word without spaces followed by text that starts with a space is
      recovered from the concatenation. */
  lemma SplitAtFirstSpace(n1: string, r1: string, n2: string, r2: string)
    requires ' ' !in n1 && ' ' !in n2
    requires n1 + [' '] + r1 == n2 + [' '] + r2
    ensures n1 == n2 && r1 == r2
  {
    IndexOfAfter(n1, ' ', r1);
    IndexOfAfter(n2, ' ', r2);
    var e := n1 + [' '] + r1;
    assert n1 == e[..|n1|] && n2 == e[..|n2|];
    assert r1 == e[|n1| + 1..] && r2 == e[|n2| + 1..];
  }

  /** Two words without spaces, each followed by the same text starting
      with a space and then by a remainder, inside a common frame: the
      words agree and so do the remainders. */
  lemma FramedWords(head: string, n1: string, t1: string, n2: string, t2: string, middle: string, tail: string)
    requires |middle| >= 1 && middle[0] == ' '
    requires ' ' !in n1 && ' ' !in n2
    requires head + n1 + middle + t1 + tail == head + n2 + middle + t2 + tail
    ensures n1 == n2 && t1 == t2
  {
    var rest := middle[1..];
    assert middle == [' '] + rest;
    assert head + n1 + middle + t1 + tail == head + (n1 + [' '] + (rest + t1)) + tail;
    assert head + n2 + middle + t2 + tail == head + (n2 + [' '] + (rest + t2)) + tail;
    StripAffixes(head, n1 + [' '] + (rest + t1), n2 + [' '] + (rest + t2), tail);
    SplitAtFirstSpace(n1, rest + t1, n2, rest + t2);
    assert rest + t1 + "" == rest + t1 && rest + t2 + "" == rest + t2;
    StripAffixes(rest, t1, t2, "");
  }

  /** Different invocations get different envelopes: the envelope
      determines the action name and the service type, for action names
      without spaces (as TR-064 action names are). */
  lemma EnvelopeIdentifiesInvocation(n1: string, t1: string, n2: string, t2: string)
    requires ' ' !in n1 && ' ' !in n2
    requires Envelope(n1, t1) == Envelope(n2, t2)
    ensures n1 == n2 && t1 == t2
  {
    assert EnvelopeMiddle[0] == ' ';
    FramedWords(EnvelopeHead, n1, t1, n2, t2, EnvelopeMiddle, EnvelopeTail);
  }

  /** The digest `uri` of an invocation is the service's control path: the
      request goes to http://<host>:49000 followed by that path. */
  lemma ControlRequestPath(host: string, user: string, password: string, filter: Filter, s: Service, a: Action)
    requires '/' !in host
    requires s.controlUrl == "" || s.controlUrl[0] == '/'
    ensures Http.UrlPath(ControlRequest(NewClient(host, user, password, filter), s, a).url) == s.controlUrl
  {
    var authority := host + ":" + Port;
    assert '/' !in ":" + Port;
    assert '/' !in authority;
    var c := NewClient(host, user, password, filter);
    assert c.url == Http.Scheme + authority;
    assert ControlRequest(c, s, a).url == Http.Scheme + authority + s.controlUrl;
    Http.UrlPathOfJoined(authority, s.controlUrl);
  }

  // ---------------------------------------------------------------------
  // Value extraction from the response tokens (Execute, upnp.go:77-100)
  // ---------------------------------------------------------------------

  /** An XML token, as far as the extraction loop distinguishes them. */
  datatype Token = StartElement(local: string) | CharData(text: string) | EndElement | OtherToken

  /** The values one start element yields, and where scanning resumes. */
  datatype Matched = Matched(values: seq<ServiceActionValue>, next: nat)

  /** The inner loop over the action's arguments for a start element named
      `local`: every argument of that name takes the next token, and
      yields a value when that token is character data. */
  function MatchArguments(toks: seq<Token>, q: nat, local: string, args: seq<Argument>, s: Service, a: Action): (m: Matched)
    requires q <= |toks|
    ensures q <= m.next <= |toks|
    ensures forall x :: x in m.values ==>
              && x.serviceType == s.serviceType && x.actionName == a.name
              && (exists arg :: arg in args && arg.name == local && arg.relatedStateVariable == x.variable)
              && CharData(x.value) in toks
    decreases |args|
  {
    if |args| == 0 then Matched([], q)
    else if args[0].name == local then
      var emitted :=
        if q < |toks| && toks[q].CharData? then [ServiceActionValue(s.serviceType, a.name, args[0].relatedStateVariable, toks[q].text)]
        else [];
      var rest := MatchArguments(toks, if q < |toks| then q + 1 else q, local, args[1..], s, a);
      assert forall arg :: arg in args[1..] ==> arg in args;
      Matched(emitted + rest.values, rest.next)
    else
      var rest := MatchArguments(toks, q, local, args[1..], s, a);
      assert forall arg :: arg in args[1..] ==> arg in args;
      rest
  }

  /** The outer token loop from position `p`. Every value carries the
      invoking service type and action name, the related state variable
      of an argument whose name occurs as a start element, and the text
      of a character-data token. */
  function ScanFrom(toks: seq<Token>, p: nat, s: Service, a: Action): (r: seq<ServiceActionValue>)
    ensures forall x :: x in r ==>
              && x.serviceType == s.serviceType && x.actionName == a.name
              && (exists arg :: arg in a.arguments && StartElement(arg.name) in toks && arg.relatedStateVariable == x.variable)
              && CharData(x.value) in toks
    decreases |toks| - p
  {
    if p >= |toks| then []
    else
      match toks[p]
      case StartElement(local) =>
        var m := MatchArguments(toks, p + 1, local, a.arguments, s, a);
        m.values + ScanFrom(toks, m.next, s, a)
      case _ => ScanFrom(toks, p + 1, s, a)
  }

  /** Index of the first argument with this name, or -1. */
  function ArgumentIndex(args: seq<Argument>, name: string): (i: int)
    ensures -1 <= i < |args|
    ensures i >= 0 ==> args[i].name == name && forall j :: 0 <= j < i ==> args[j].name != name
    ensures i == -1 ==> forall j :: 0 <= j < |args| ==> args[j].name != name
    decreases |args|
  {
    if |args| == 0 then -1
    else if args[0].name == name then 0
    else
      var i := ArgumentIndex(args[1..], name);
      if i == -1 then -1 else i + 1
  }

  predicate DistinctNames(args: seq<Argument>)
  {
    forall i, j :: 0 <= i < j < |args| ==> args[i].name != args[j].name
  }

  predicate IsArgumentStart(t: Token, args: seq<Argument>)
  {
    t.StartElement? && ArgumentIndex(args, t.local) >= 0
  }

  /** No argument element directly encloses another argument element, as
      in a flat SOAP response where each output argument is a leaf. */
  predicate FlatResponse(toks: seq<Token>, args: seq<Argument>)
  {
    forall i :: 0 <= i < |toks| - 1 && IsArgumentStart(toks[i], args) ==> !IsArgumentStart(toks[i + 1], args)
  }

  /** Reference reading of a response: every start element named after an
      argument and immediately followed by character data yields that
      argument's state variable with that text, in document order. */
  function Pairs(toks: seq<Token>, p: nat, s: Service, a: Action): seq<ServiceActionValue>
    decreases |toks| - p
  {
    if p + 1 >= |toks| then []
    else
      var here :=
        if IsArgumentStart(toks[p], a.arguments) && toks[p + 1].CharData?
        then [ServiceActionValue(s.serviceType, a.name,
                                 a.arguments[ArgumentIndex(a.arguments, toks[p].local)].relatedStateVariable,
                                 toks[p + 1].text)]
        else [];
      here + Pairs(toks, p + 1, s, a)
  }

  /** With distinct argument names, a start element matches at most one
      argument, which takes exactly the next token. */
  lemma {:induction false} MatchDistinct(toks: seq<Token>, q: nat, local: string, args: seq<Argument>, s: Service, a: Action)
    requires q <= |toks|
    requires DistinctNames(args)
    ensures var m := MatchArguments(toks, q, local, args, s, a);
            var i := ArgumentIndex(args, local);
            && (i == -1 ==> m == Matched([], q))
            && (i >= 0 ==> m.next == (if q < |toks| then q + 1 else q))
            && (i >= 0 ==>
                  m.values == (if q < |toks| && toks[q].CharData?
                               then [ServiceActionValue(s.serviceType, a.name, args[i].relatedStateVariable, toks[q].text)]
                               else []))
    decreases |args|
  {
    if |args| > 0 {
      assert DistinctNames(args[1..]);
      if args[0].name == local {
        var q' := if q < |toks| then q + 1 else q;
        MatchDistinct(toks, q', local, args[1..], s, a);
        assert ArgumentIndex(args[1..], local) == -1;
      } else {
        MatchDistinct(toks, q, local, args[1..], s, a);
      }
    }
  }

  /** For distinct argument names and a flat response, the extraction loop
      yields exactly the reference reading: a value for each argument
      element whose very next token is character data, and nothing for
      empty elements or absent arguments. */
  lemma {:induction false} FlatResponseValues(toks: seq<Token>, p: nat, s: Service, a: Action)
    requires DistinctNames(a.arguments)
    requires FlatResponse(toks, a.arguments)
    ensures ScanFrom(toks, p, s, a) == Pairs(toks, p, s, a)
    decreases |toks| - p
  {
    if p < |toks| {
      match toks[p]
      case StartElement(local) =>
        MatchDistinct(toks, p + 1, local, a.arguments, s, a);
        if ArgumentIndex(a.arguments, local) == -1 {
          FlatResponseValues(toks, p + 1, s, a);
          if p + 1 < |toks| {
            assert !IsArgumentStart(toks[p], a.arguments);
          }
        } else if p + 1 < |toks| {
          assert IsArgumentStart(toks[p], a.arguments);
          assert !IsArgumentStart(toks[p + 1], a.arguments);
          FlatResponseValues(toks, p + 2, s, a);
          if p + 2 < |toks| {
            assert Pairs(toks, p + 1, s, a) == Pairs(toks, p + 2, s, a);
          }
        }
      case _ =>
        FlatResponseValues(toks, p + 1, s, a);
    }
  }

  // ---------------------------------------------------------------------
  // Invocation (Execute)
  // ---------------------------------------------------------------------

  /** Invoke one action: POST the control request, and read the values
      of the response's token stream. A failed exchange aborts. */
  function Invoke(c: Client, dev: Device, s: Service, a: Action): (r: Result<seq<ServiceActionValue>>)
    ensures r.Fail? <==> dev.control(ControlRequest(c, s, a)).Fail?
    ensures r.Ok? ==> r.value == ScanFrom(dev.control(ControlRequest(c, s, a)).value, 0, s, a)
    ensures r.Ok? ==> forall x :: x in r.value ==>
              x.serviceType == s.serviceType && x.actionName == a.name &&
              exists arg :: arg in a.arguments && arg.relatedStateVariable == x.variable
  {
    var toks :- dev.control(ControlRequest(c, s, a));
    Ok(ScanFrom(toks, 0, s, a))
  }

  /** One turn of the action loop: invoke the action when it is selected,
      yield nothing otherwise. */
  function ActionStep(c: Client, dev: Device, s: Service, sel: Selection): Action -> Result<seq<ServiceActionValue>>
  {
    (a: Action) => if ActionSelected(sel, a.name) then Invoke(c, dev, s, a) else Ok([])
  }

  /** The action loop of one service: the selected actions are invoked in
      order and their values appended. It succeeds exactly when every
      selected action's invocation does. Its output is then the values of
      each action's turn in list order (nothing for an action that is not
      selected): every value is one a selected action's invocation
      produced, and every such value is kept. */
  function InvokeActions(c: Client, dev: Device, s: Service, actions: seq<Action>, sel: Selection): (r: Result<seq<ServiceActionValue>>)
    ensures r.Ok? <==> forall a :: a in actions && ActionSelected(sel, a.name) ==> Invoke(c, dev, s, a).Ok?
    ensures r.Ok? ==> forall x :: x in r.value ==>
              && x.serviceType == s.serviceType
              && ActionSelected(sel, x.actionName)
              && exists a :: a in actions && ActionSelected(sel, a.name) && Invoke(c, dev, s, a).Ok? && x in Invoke(c, dev, s, a).value
    ensures r.Ok? ==> forall a :: a in actions && ActionSelected(sel, a.name) ==>
              Invoke(c, dev, s, a).Ok? && forall x :: x in Invoke(c, dev, s, a).value ==> x in r.value
    ensures r.Ok? ==> r.value == Flatten(Turns(actions, ActionStep(c, dev, s, sel)))
  {
    var r := Gather(actions, ActionStep(c, dev, s, sel));
    ActionLoopOk(c, dev, s, actions, sel);
    ActionLoopSound(c, dev, s, actions, sel);
    ActionLoopComplete(c, dev, s, actions, sel);
    if r.Fail? then r
    else
      GatherInOrder(actions, ActionStep(c, dev, s, sel));
      r
  }

  lemma ActionLoopOk(c: Client, dev: Device, s: Service, actions: seq<Action>, sel: Selection)
    ensures Gather(actions, ActionStep(c, dev, s, sel)).Ok? <==>
            forall a :: a in actions && ActionSelected(sel, a.name) ==> Invoke(c, dev, s, a).Ok?
  {
    var step := ActionStep(c, dev, s, sel);
    assert forall i :: 0 <= i < |actions| ==> (step(actions[i]).Ok? <==>
      (ActionSelected(sel, actions[i].name) ==> Invoke(c, dev, s, actions[i]).Ok?));
  }

  lemma ActionLoopSound(c: Client, dev: Device, s: Service, actions: seq<Action>, sel: Selection)
    ensures var r := Gather(actions, ActionStep(c, dev, s, sel));
            r.Ok? ==> forall x :: x in r.value ==>
              && x.serviceType == s.serviceType
              && ActionSelected(sel, x.actionName)
              && exists a :: a in actions && ActionSelected(sel, a.name) && Invoke(c, dev, s, a).Ok? && x in Invoke(c, dev, s, a).value
  {
    var r := Gather(actions, ActionStep(c, dev, s, sel));
    if r.Ok? {
      forall x | x in r.value
        ensures x.serviceType == s.serviceType && ActionSelected(sel, x.actionName)
        ensures exists a :: a in actions && ActionSelected(sel, a.name) && Invoke(c, dev, s, a).Ok? && x in Invoke(c, dev, s, a).value
      {
        ActionValueSound(c, dev, s, actions, sel, x);
      }
    }
  }

  /** One value of the action loop, traced to the invocation that
      produced it. */
  lemma ActionValueSound(c: Client, dev: Device, s: Service, actions: seq<Action>, sel: Selection, x: ServiceActionValue)
    requires Gather(actions, ActionStep(c, dev, s, sel)).Ok?
    requires x in Gather(actions, ActionStep(c, dev, s, sel)).value
    ensures x.serviceType == s.serviceType && ActionSelected(sel, x.actionName)
    ensures exists a :: a in actions && ActionSelected(sel, a.name) && Invoke(c, dev, s, a).Ok? && x in Invoke(c, dev, s, a).value
  {
    var step := ActionStep(c, dev, s, sel);
    var i :| 0 <= i < |actions| && step(actions[i]).Ok? && x in step(actions[i]).value;
    var a := actions[i];
    assert ActionSelected(sel, a.name) && Invoke(c, dev, s, a).Ok? && x in Invoke(c, dev, s, a).value;
    assert a in actions;
  }

  lemma ActionLoopComplete(c: Client, dev: Device, s: Service, actions: seq<Action>, sel: Selection)
    ensures var r := Gather(actions, ActionStep(c, dev, s, sel));
            r.Ok? ==> forall a :: a in actions && ActionSelected(sel, a.name) ==>
              Invoke(c, dev, s, a).Ok? && forall x :: x in Invoke(c, dev, s, a).value ==> x in r.value
  {
    var step := ActionStep(c, dev, s, sel);
    var r := Gather(actions, step);
    if r.Ok? {
      forall a | a in actions && ActionSelected(sel, a.name)
        ensures Invoke(c, dev, s, a).Ok? && forall x :: x in Invoke(c, dev, s, a).value ==> x in r.value
      {
        var i :| 0 <= i < |actions| && actions[i] == a;
        GatherIncludes(actions, step, i);
      }
    }
  }

  /** A filter key with an empty list of action names invokes nothing. */
  lemma NoNamesInvokeNothing(c: Client, dev: Device, s: Service, actions: seq<Action>)
    ensures InvokeActions(c, dev, s, actions, Only([])) == Ok([])
  {
    forall i | 0 <= i < |actions| ensures ActionStep(c, dev, s, Only([]))(actions[i]) == Ok([]) {
      assert !ActionSelected(Only([]), actions[i].name);
    }
    GatherNothing(actions, ActionStep(c, dev, s, Only([])));
  }

  /** The values of a service come action by action: those of the first
      actions, then those of the rest. */
  lemma InvokeActionsAppend(c: Client, dev: Device, s: Service, a: seq<Action>, b: seq<Action>, sel: Selection)
    requires InvokeActions(c, dev, s, a, sel).Ok? && InvokeActions(c, dev, s, b, sel).Ok?
    ensures InvokeActions(c, dev, s, a + b, sel) ==
            Ok(InvokeActions(c, dev, s, a, sel).value + InvokeActions(c, dev, s, b, sel).value)
  {
    GatherAppend(a, b, ActionStep(c, dev, s, sel));
  }

  /** What a filter admits: with an empty filter every value; otherwise a
      value whose service type contains some key and whose action is
      listed under that key. */
  predicate Wanted(filter: Filter, x: ServiceActionValue)
  {
    |filter| == 0 || exists k :: k in filter && Contains(x.serviceType, k) && x.actionName in filter[k]
  }

  /** A value of a selected action of the service is one the filter
      admits. */
  lemma SelectionWanted(filter: Filter, order: seq<string>, serviceType: string)
    requires IsEnumeration(order, filter)
    ensures forall x: ServiceActionValue ::
              x.serviceType == serviceType && ActionSelected(SelectService(filter, order, serviceType), x.actionName) ==>
                Wanted(filter, x)
  {
    var sel := SelectService(filter, order, serviceType);
    if sel.Only? {
      var k :| k in filter && Contains(serviceType, k) && sel.names == filter[k];
      forall x: ServiceActionValue | x.serviceType == serviceType && ActionSelected(sel, x.actionName)
        ensures Wanted(filter, x)
      {
        assert k in filter && Contains(x.serviceType, k) && x.actionName in filter[k];
      }
    }
  }

  /** The values of one service: nothing when it is skipped, otherwise
      those of its selected actions, re-parsed (upnp.go:52) and invoked.
      A service that is not skipped and whose SCPD document fails aborts;
      when it succeeds, every selected get-only action of the service has
      been invoked and all its values are kept. */
  function ServiceValues(c: Client, dev: Device, s: Service, order: seq<string>): (r: Result<seq<ServiceActionValue>>)
    requires IsEnumeration(order, c.servicesActions)
    ensures r.Ok? ==> forall x :: x in r.value ==> Wanted(c.servicesActions, x) && x.serviceType == s.serviceType
    ensures var sel := SelectService(c.servicesActions, order, s.serviceType);
            r.Ok? <==> sel.Skip? || (ParseActions(c, dev, s).Ok? &&
                                     forall a :: a in ParseActions(c, dev, s).value && ActionSelected(sel, a.name) ==>
                                       Invoke(c, dev, s, a).Ok?)
    ensures var sel := SelectService(c.servicesActions, order, s.serviceType);
            && (sel.Skip? ==> r == Ok([]))
            && (!sel.Skip? && ParseActions(c, dev, s).Fail? ==> r.Fail?)
            && (!sel.Skip? && r.Ok? ==>
                  && ParseActions(c, dev, s).Ok?
                  && forall a :: a in ParseActions(c, dev, s).value && ActionSelected(sel, a.name) ==>
                       Invoke(c, dev, s, a).Ok? && forall x :: x in Invoke(c, dev, s, a).value ==> x in r.value)
    ensures var sel := SelectService(c.servicesActions, order, s.serviceType);
            !sel.Skip? && r.Ok? ==>
              && ParseActions(c, dev, s).Ok?
              && r == InvokeActions(c, dev, s, ParseActions(c, dev, s).value, sel)
  {
    var sel := SelectService(c.servicesActions, order, s.serviceType);
    if sel.Skip? then Ok([])
    else
      var parsed := ParseActions(c, dev, s);
      if parsed.Fail? then Fail(parsed.failure)
      else
        SelectionWanted(c.servicesActions, order, s.serviceType);
        InvokeActions(c, dev, s, parsed.value, sel)
  }

  /** One turn of the service loop. */
  function ServiceStep(c: Client, dev: Device, order: seq<string>): Service -> Result<seq<ServiceActionValue>>
    requires IsEnumeration(order, c.servicesActions)
  {
    (s: Service) => ServiceValues(c, dev, s, order)
  }

  /** The service loop of `Execute`: services in discovery order, the
      values of each appended in turn. It succeeds exactly when every
      service's turn does. Its output is then the values of each
      service's turn in list order: every value is one a service's turn
      produced, and every such value is kept. */
  function InvokeServices(c: Client, dev: Device, services: seq<Service>, order: seq<string>): (r: Result<seq<ServiceActionValue>>)
    requires IsEnumeration(order, c.servicesActions)
    ensures r.Ok? <==> forall s :: s in services ==> ServiceValues(c, dev, s, order).Ok?
    ensures r.Ok? ==> forall x :: x in r.value ==>
              && Wanted(c.servicesActions, x)
              && exists s :: s in services && s.serviceType == x.serviceType && ServiceValues(c, dev, s, order).Ok? && x in ServiceValues(c, dev, s, order).value
    ensures r.Ok? ==> forall s :: s in services ==>
              ServiceValues(c, dev, s, order).Ok? && forall x :: x in ServiceValues(c, dev, s, order).value ==> x in r.value
    ensures r.Ok? ==> r.value == Flatten(Turns(services, ServiceStep(c, dev, order)))
  {
    var r := Gather(services, ServiceStep(c, dev, order));
    ServiceLoopOk(c, dev, services, order);
    ServiceLoopSound(c, dev, services, order);
    ServiceLoopComplete(c, dev, services, order);
    if r.Fail? then r
    else
      GatherInOrder(services, ServiceStep(c, dev, order));
      r
  }

  lemma ServiceLoopOk(c: Client, dev: Device, services: seq<Service>, order: seq<string>)
    requires IsEnumeration(order, c.servicesActions)
    ensures Gather(services, ServiceStep(c, dev, order)).Ok? <==>
            forall s :: s in services ==> ServiceValues(c, dev, s, order).Ok?
  {
    var step := ServiceStep(c, dev, order);
    assert forall i :: 0 <= i < |services| ==> step(services[i]) == ServiceValues(c, dev, services[i], order);
  }

  lemma ServiceLoopSound(c: Client, dev: Device, services: seq<Service>, order: seq<string>)
    requires IsEnumeration(order, c.servicesActions)
    ensures var r := Gather(services, ServiceStep(c, dev, order));
            r.Ok? ==> forall x :: x in r.value ==>
              && Wanted(c.servicesActions, x)
              && exists s :: s in services && s.serviceType == x.serviceType && ServiceValues(c, dev, s, order).Ok? && x in ServiceValues(c, dev, s, order).value
  {
    var r := Gather(services, ServiceStep(c, dev, order));
    if r.Ok? {
      forall x | x in r.value
        ensures Wanted(c.servicesActions, x)
        ensures exists s :: s in services && s.serviceType == x.serviceType && ServiceValues(c, dev, s, order).Ok? && x in ServiceValues(c, dev, s, order).value
      {
        ServiceValueSound(c, dev, services, order, x);
      }
    }
  }

  /** One value of the service loop, traced to the turn that produced it. */
  lemma ServiceValueSound(c: Client, dev: Device, services: seq<Service>, order: seq<string>, x: ServiceActionValue)
    requires IsEnumeration(order, c.servicesActions)
    requires Gather(services, ServiceStep(c, dev, order)).Ok?
    requires x in Gather(services, ServiceStep(c, dev, order)).value
    ensures Wanted(c.servicesActions, x)
    ensures exists s :: s in services && s.serviceType == x.serviceType && ServiceValues(c, dev, s, order).Ok? && x in ServiceValues(c, dev, s, order).value
  {
    var step := ServiceStep(c, dev, order);
    var i :| 0 <= i < |services| && step(services[i]).Ok? && x in step(services[i]).value;
    var s := services[i];
    assert step(s) == ServiceValues(c, dev, s, order);
    assert s in services && s.serviceType == x.serviceType && ServiceValues(c, dev, s, order).Ok? && x in ServiceValues(c, dev, s, order).value;
  }

  lemma ServiceLoopComplete(c: Client, dev: Device, services: seq<Service>, order: seq<string>)
    requires IsEnumeration(order, c.servicesActions)
    ensures var r := Gather(services, ServiceStep(c, dev, order));
            r.Ok? ==> forall s :: s in services ==>
              ServiceValues(c, dev, s, order).Ok? && forall x :: x in ServiceValues(c, dev, s, order).value ==> x in r.value
  {
    var step := ServiceStep(c, dev, order);
    var r := Gather(services, step);
    if r.Ok? {
      forall s | s in services
        ensures ServiceValues(c, dev, s, order).Ok? && forall x :: x in ServiceValues(c, dev, s, order).value ==> x in r.value
      {
        var i :| 0 <= i < |services| && services[i] == s;
        GatherIncludes(services, step, i);
      }
    }
  }

  /** The output is append-only in service order: the values of the
      first services, then those of the rest. */
  lemma InvokeServicesAppend(c: Client, dev: Device, a: seq<Service>, b: seq<Service>, order: seq<string>)
    requires IsEnumeration(order, c.servicesActions)
    requires InvokeServices(c, dev, a, order).Ok? && InvokeServices(c, dev, b, order).Ok?
    ensures InvokeServices(c, dev, a + b, order) ==
            Ok(InvokeServices(c, dev, a, order).value + InvokeServices(c, dev, b, order).value)
  {
    GatherAppend(a, b, ServiceStep(c, dev, order));
  }

  /** A filter naming "GetInfo" under "WLANConfiguration" yields only
      GetInfo values of WLAN configuration services. */
  lemma WlanInfoFilter(c: Client, dev: Device, order: seq<string>)
    requires c.servicesActions == map["WLANConfiguration" := ["GetInfo"]]
    requires IsEnumeration(order, c.servicesActions)
    ensures var r := Execute(c, dev, order);
            r.Ok? ==> forall x :: x in r.value ==> Contains(x.serviceType, "WLANConfiguration") && x.actionName == "GetInfo"
  {
    var filter := c.servicesActions;
    assert "WLANConfiguration" in filter && |filter| == 1;
    forall x | Wanted(filter, x)
      ensures Contains(x.serviceType, "WLANConfiguration") && x.actionName == "GetInfo"
    {
      var k :| k in filter && Contains(x.serviceType, k) && x.actionName in filter[k];
      assert k == "WLANConfiguration";
    }
  }

  /** `Execute`: discover, select, invoke, extract. A failed discovery
      aborts. On success the output is the service loop over the
      discovered services, so it is ordered by service, then by action,
      then by position in the response. Every value it returns is one the
      filter admits and one a discovered service's turn produced, and
      every value of every such turn is returned. */
  function Execute(c: Client, dev: Device, order: seq<string>): (r: Result<seq<ServiceActionValue>>)
    requires IsEnumeration(order, c.servicesActions)
    ensures ParseServices(c, dev).Fail? ==> r.Fail?
    ensures r.Ok? <==> ParseServices(c, dev).Ok? &&
                       forall s :: s in ParseServices(c, dev).value ==> ServiceValues(c, dev, s, order).Ok?
    ensures r.Ok? ==> forall x :: x in r.value ==> Wanted(c.servicesActions, x)
    ensures r.Ok? ==> ParseServices(c, dev).Ok? && forall s :: s in ParseServices(c, dev).value ==>
              ServiceValues(c, dev, s, order).Ok? && forall x :: x in ServiceValues(c, dev, s, order).value ==> x in r.value
    ensures r.Ok? ==> && ParseServices(c, dev).Ok?
                      && r == InvokeServices(c, dev, ParseServices(c, dev).value, order)
                      && forall x :: x in r.value ==>
                           exists s :: s in ParseServices(c, dev).value && ServiceValues(c, dev, s, order).Ok? && x in ServiceValues(c, dev, s, order).value
  {
    var services :- ParseServices(c, dev);
    InvokeServices(c, dev, services, order)
  }

  /** With an empty filter, `Execute` invokes every get-only action of
      every service of the root document and returns all their values:
      for each service decoded from the root description and each
      get-only action decoded from that service's SCPD document, the
      action's invocation succeeds and each of its values is returned. */
  lemma EmptyFilterInvokesEverything(c: Client, dev: Device, order: seq<string>)
    requires |c.servicesActions| == 0
    requires IsEnumeration(order, c.servicesActions)
    requires Execute(c, dev, order).Ok?
    ensures dev.describe(GetRequest(c.url + Endpoint)).Ok?
    ensures forall s :: Decoded(s) in dev.describe(GetRequest(c.url + Endpoint)).value ==>
              && dev.schema(GetRequest(c.url + s.scpdUrl)).Ok?
              && forall a :: Decoded(a) in dev.schema(GetRequest(c.url + s.scpdUrl)).value && IsActionGetOnly(a) ==>
                   Invoke(c, dev, s, a).Ok? && forall x :: x in Invoke(c, dev, s, a).value ==> x in Execute(c, dev, order).value
  {
    var r := Execute(c, dev, order);
    var services := ParseServices(c, dev).value;
    var items := dev.describe(GetRequest(c.url + Endpoint)).value;
    assert services == DecodeAll(items, _ => true).value;
    forall s: Service | Decoded(s) in items
      ensures dev.schema(GetRequest(c.url + s.scpdUrl)).Ok?
      ensures forall a :: Decoded(a) in dev.schema(GetRequest(c.url + s.scpdUrl)).value && IsActionGetOnly(a) ==>
                Invoke(c, dev, s, a).Ok? && forall x :: x in Invoke(c, dev, s, a).value ==> x in r.value
    {
      assert s in services;
      assert SelectService(c.servicesActions, order, s.serviceType) == Everything;
      var actions := ParseActions(c, dev, s).value;
      forall a: Action | Decoded(a) in dev.schema(GetRequest(c.url + s.scpdUrl)).value && IsActionGetOnly(a)
        ensures Invoke(c, dev, s, a).Ok? && forall x :: x in Invoke(c, dev, s, a).value ==> x in r.value
      {
        assert a in actions;
        assert ActionSelected(Everything, a.name);
      }
    }
  }
}
