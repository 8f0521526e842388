/**
 The Prometheus collector (prometheus.go): looking up one reported value,
 reading it as a number, and the reset correction of the two WAN byte
 counters. The device's counters restart from a small value after a
 reboot or an overflow; the collector keeps, per counter, the last raw
 reading and an offset, and publishes raw minus offset. Values are whole
 numbers here, where the exporter uses float64.
 */
module Metrics {
  import opened Text
  import Upnp

  // ---------------------------------------------------------------------
  // Value lookup (filterByService, extract)
  // ---------------------------------------------------------------------

  /** A reported value answers a lookup when its service type contains the
      service name, and its action and variable are the ones asked for. */
  predicate Matches(x: Upnp.ServiceActionValue, service: string, action: string, variable: string)
  {
    Contains(x.serviceType, service) && x.actionName == action && x.variable == variable
  }

  /** `filterByService`: the value of the first answering entry, or the
      empty string when no entry answers. */
  function FilterByService(values: seq<Upnp.ServiceActionValue>, service: string, action: string, variable: string): (v: string)
    ensures forall i :: (0 <= i < |values| && Matches(values[i], service, action, variable) &&
                         (forall j :: 0 <= j < i ==> !Matches(values[j], service, action, variable))) ==> v == values[i].value
    ensures (forall i :: 0 <= i < |values| ==> !Matches(values[i], service, action, variable)) ==> v == ""
    ensures v != "" ==> exists i :: 0 <= i < |values| && Matches(values[i], service, action, variable) && values[i].value == v
    decreases |values|
  {
    if |values| == 0 then ""
    else if Matches(values[0], service, action, variable) then values[0].value
    else
      var v := FilterByService(values[1..], service, action, variable);
      assert forall i :: 1 <= i < |values| ==> values[1..][i - 1] == values[i];
      v
  }

  /** `extract`: the number a value denotes. Only decimal digit strings
      are read; anything else, the empty string of a missing value in
      particular, counts as 0. */
  function Extract(val: string): (n: nat)
    ensures val == "" ==> n == 0
  {
    if IsDigits(val) then DigitsValue(val) else 0
  }

  /** Reading a number back from its decimal rendering gives the number. */
  lemma ExtractDecimal(n: nat)
    ensures Extract(DecimalString(n)) == n
  {
    DecimalRoundTrip(n);
  }

  /** A lookup nothing answers yields metric value 0, never an error. */
  lemma MissingValueIsZero(values: seq<Upnp.ServiceActionValue>, service: string, action: string, variable: string)
    requires forall i :: 0 <= i < |values| ==> !Matches(values[i], service, action, variable)
    ensures Extract(FilterByService(values, service, action, variable)) == 0
  {
  }

  // ---------------------------------------------------------------------
  // Counter correction (prometheus.go:59-63 and :81-85)
  // ---------------------------------------------------------------------

  /** The correction state of one counter: the previous raw reading and
      the raw reading at the most recent reset. */
  datatype Counter = Counter(last: int, offset: int)

  /** A collector starts with both fields zero. */
  const Fresh: Counter := Counter(0, 0)

  /** The offset never exceeds the last reading. */
  predicate Valid(c: Counter)
  {
    c.offset <= c.last
  }

  /** The corrected value the state last published. */
  function Published(c: Counter): int
  {
    c.last - c.offset
  }

  datatype Corrected = Corrected(state: Counter, value: int)

  /** One correction step with the raw reading `raw`: a reading below the
      previous one is taken as a reset and becomes the new offset; the
      published value is the reading minus the offset; the reading
      becomes the new `last`. */
  function Correct(c: Counter, raw: int): (r: Corrected)
    ensures r.state.last == raw
    ensures r.value == Published(r.state)
    ensures raw < c.last ==> r.state.offset == raw && r.value == 0
    ensures raw >= c.last ==> r.state.offset == c.offset && r.value == Published(c) + (raw - c.last)
    ensures Valid(c) ==> Valid(r.state) && r.value >= 0
  {
    var offset := if raw < c.last then raw else c.offset;
    Corrected(Counter(raw, offset), raw - offset)
  }

  /** While readings do not fall, the published value never decreases. */
  lemma NonDecreasingWithoutReset(c: Counter, raw: int)
    requires raw >= c.last
    ensures Correct(c, raw).value >= Published(c)
  {
  }

  /** The state after a series of readings. */
  function Run(c: Counter, raws: seq<int>): (d: Counter)
    ensures |raws| > 0 ==> d.last == raws[|raws| - 1]
    ensures |raws| == 0 ==> d == c
    ensures Valid(c) ==> Valid(d)
    decreases |raws|
  {
    if |raws| == 0 then c else Correct(Run(c, raws[..|raws| - 1]), raws[|raws| - 1]).state
  }

  /** The values published for a series of readings, one per reading. */
  function Trace(c: Counter, raws: seq<int>): (vs: seq<int>)
    ensures |vs| == |raws|
    ensures Valid(c) ==> forall i :: 0 <= i < |vs| ==> vs[i] >= 0
    decreases |raws|
  {
    if |raws| == 0 then []
    else
      var init := raws[..|raws| - 1];
      Trace(c, init) + [Correct(Run(c, init), raws[|raws| - 1]).value]
  }

  /** The reading before reading `j`: the state's `last` for the first. */
  function Previous(c: Counter, raws: seq<int>, j: nat): int
    requires j < |raws|
  {
    if j == 0 then c.last else raws[j - 1]
  }

  /** Reading `j` is a reset: it is below the reading before it. */
  predicate ResetAt(c: Counter, raws: seq<int>, j: nat)
    requires j < |raws|
  {
    raws[j] < Previous(c, raws, j)
  }

  /** The last reset among the first `n` readings, or -1 when there is none. */
  function LastReset(c: Counter, raws: seq<int>, n: nat): (r: int)
    requires n <= |raws|
    ensures -1 <= r < n
    ensures r >= 0 ==> ResetAt(c, raws, r)
    ensures forall j: nat :: r < j < n ==> !ResetAt(c, raws, j)
    decreases n
  {
    if n == 0 then -1
    else if ResetAt(c, raws, n - 1) then n - 1
    else LastReset(c, raws, n - 1)
  }

  /** The offset in force after the first `n` readings: the reading at the
      last reset, or the initial offset when none has happened. */
  function Baseline(c: Counter, raws: seq<int>, n: nat): int
    requires n <= |raws|
  {
    var r := LastReset(c, raws, n);
    if r == -1 then c.offset else raws[r]
  }

  lemma {:induction false} RunOffset(c: Counter, raws: seq<int>, n: nat)
    requires n <= |raws|
    ensures Run(c, raws[..n]).offset == Baseline(c, raws, n)
    decreases n
  {
    if n == 0 {
      assert raws[..0] == [];
    } else {
      assert raws[..n][..n - 1] == raws[..n - 1];
      RunOffset(c, raws, n - 1);
      var before := Run(c, raws[..n - 1]);
      assert before.last == Previous(c, raws, n - 1) by {
        if n - 1 > 0 {
          assert raws[..n - 1][n - 2] == raws[n - 2];
        }
      }
      assert Run(c, raws[..n]) == Correct(before, raws[n - 1]).state;
    }
  }

  lemma {:induction false} TraceAt(c: Counter, raws: seq<int>, i: nat)
    requires i < |raws|
    ensures Trace(c, raws)[i] == Correct(Run(c, raws[..i]), raws[i]).value
    decreases |raws|
  {
    var init := raws[..|raws| - 1];
    if i < |raws| - 1 {
      TraceAt(c, init, i);
      assert init[..i] == raws[..i];
    } else {
      assert init == raws[..i];
    }
  }

  /** The published values against the reference reading: each is the
      raw reading minus the reading at the most recent reset up to and
      including it (minus the initial offset when there was none). */
  lemma TraceMatchesBaseline(c: Counter, raws: seq<int>)
    ensures forall i :: 0 <= i < |raws| ==> Trace(c, raws)[i] == raws[i] - Baseline(c, raws, i + 1)
  {
    forall i | 0 <= i < |raws|
      ensures Trace(c, raws)[i] == raws[i] - Baseline(c, raws, i + 1)
    {
      PublishedAt(c, raws, i);
    }
  }

  /** The value published for reading `i` is that reading minus the
      baseline after it. */
  lemma PublishedAt(c: Counter, raws: seq<int>, i: nat)
    requires i < |raws|
    ensures Trace(c, raws)[i] == raws[i] - Baseline(c, raws, i + 1)
  {
    TraceAt(c, raws, i);
    RunOffset(c, raws, i + 1);
    assert raws[..i + 1][..i] == raws[..i];
    assert raws[..i + 1][i] == raws[i];
    assert Run(c, raws[..i + 1]) == Correct(Run(c, raws[..i]), raws[i]).state;
  }

  /** The sequence of readings 4711, 4712, 100, 150, 120, 150 from a fresh
      counter publishes 4711, 4712, 0, 50, 0, 30. */
  lemma ResetScenario()
    ensures Trace(Fresh, [4711, 4712, 100, 150, 120, 150]) == [4711, 4712, 0, 50, 0, 30]
  {
    var raws := [4711, 4712, 100, 150, 120, 150];
    TraceMatchesBaseline(Fresh, raws);
    assert LastReset(Fresh, raws, 2) == -1;
    assert LastReset(Fresh, raws, 4) == 2;
    assert LastReset(Fresh, raws, 6) == 4;
  }

  // ---------------------------------------------------------------------
  // Keyed correction state
  // ---------------------------------------------------------------------

  /** Which reported value a counter follows. */
  datatype Key = Key(service: string, action: string, variable: string)

  type Cache = map<Key, Counter>

  /** The state of a key; a key seen for the first time starts fresh. */
  function Lookup(cache: Cache, k: Key): Counter
  {
    if k in cache then cache[k] else Fresh
  }

  datatype KeyedCorrected = KeyedCorrected(cache: Cache, value: int)

  /** One correction step on the counter of key `k`; every other key's
      state is left as it was. */
  function CorrectKeyed(cache: Cache, k: Key, raw: int): (r: KeyedCorrected)
    ensures r.cache.Keys == cache.Keys + {k}
    ensures forall k' :: k' in cache && k' != k ==> r.cache[k'] == cache[k']
    ensures r.cache[k].last == raw
    ensures r.cache[k] == Correct(Lookup(cache, k), raw).state
    ensures r.value == Correct(Lookup(cache, k), raw).value
    ensures (forall k' :: k' in cache ==> Valid(cache[k'])) ==>
              (forall k' :: k' in r.cache ==> Valid(r.cache[k'])) && r.value >= 0
  {
    var step := Correct(Lookup(cache, k), raw);
    KeyedCorrected(cache[k := step.state], step.value)
  }

  /** Look a value up, read it as a number and correct it under the key of
      the lookup. */
  function FilterConvertAndCorrect(cache: Cache, values: seq<Upnp.ServiceActionValue>,
                                   service: string, action: string, variable: string): (r: KeyedCorrected)
    ensures var k := Key(service, action, variable);
            && r.cache.Keys == cache.Keys + {k}
            && (forall k' :: k' in cache && k' != k ==> r.cache[k'] == cache[k'])
            && r.cache[k].last == Extract(FilterByService(values, service, action, variable))
            && var step := Correct(Lookup(cache, k), Extract(FilterByService(values, service, action, variable)));
               r.cache[k] == step.state && r.value == step.value
  {
    CorrectKeyed(cache, Key(service, action, variable), Extract(FilterByService(values, service, action, variable)))
  }

  /** A report holding the single value `v` for the lookup
      ("service", "action", "var"). */
  function Report(v: string): seq<Upnp.ServiceActionValue>
  {
    [Upnp.ServiceActionValue("service", "action", "var", v)]
  }

  /** A report of the decimal rendering of `n` reads as `n`. */
  lemma ReportReading(n: nat)
    ensures Extract(FilterByService(Report(DecimalString(n)), "service", "action", "var")) == n
  {
    ContainsPrefix("service", "");
    assert "service" + "" == "service";
    ExtractDecimal(n);
  }

  /** The cache after a series of reports, each looked up, read as a
      number and corrected under the key of the lookup. */
  function FeedCache(cache: Cache, reports: seq<seq<Upnp.ServiceActionValue>>,
                     service: string, action: string, variable: string): Cache
    decreases |reports|
  {
    if |reports| == 0 then cache
    else
      var before := FeedCache(cache, reports[..|reports| - 1], service, action, variable);
      FilterConvertAndCorrect(before, reports[|reports| - 1], service, action, variable).cache
  }

  /** The values published for a series of reports, one per report. */
  function Feed(cache: Cache, reports: seq<seq<Upnp.ServiceActionValue>>,
                service: string, action: string, variable: string): seq<int>
    decreases |reports|
  {
    if |reports| == 0 then []
    else
      var init := reports[..|reports| - 1];
      var before := FeedCache(cache, init, service, action, variable);
      Feed(cache, init, service, action, variable) +
      [FilterConvertAndCorrect(before, reports[|reports| - 1], service, action, variable).value]
  }

  /** Reports through lookup, number reading and the keyed cache publish
      exactly what the counter alone publishes for the numbers read, from
      the key's state in the starting cache. */
  lemma {:induction false} FeedMatchesTrace(cache: Cache, reports: seq<seq<Upnp.ServiceActionValue>>, raws: seq<int>,
                                            service: string, action: string, variable: string)
    requires |reports| == |raws|
    requires forall i :: 0 <= i < |raws| ==> Extract(FilterByService(reports[i], service, action, variable)) == raws[i]
    ensures var k := Key(service, action, variable);
            Lookup(FeedCache(cache, reports, service, action, variable), k) == Run(Lookup(cache, k), raws)
    ensures Feed(cache, reports, service, action, variable) == Trace(Lookup(cache, Key(service, action, variable)), raws)
    decreases |reports|
  {
    if |reports| > 0 {
      var n := |reports| - 1;
      var k := Key(service, action, variable);
      assert forall i :: 0 <= i < n ==> reports[..n][i] == reports[i] && raws[..n][i] == raws[i];
      FeedMatchesTrace(cache, reports[..n], raws[..n], service, action, variable);
      var before := FeedCache(cache, reports[..n], service, action, variable);
      assert Lookup(before, k) == Run(Lookup(cache, k), raws[..n]);
      var r := FilterConvertAndCorrect(before, reports[n], service, action, variable);
      assert r.cache[k] == Correct(Lookup(before, k), raws[n]).state;
      assert r.value == Correct(Lookup(before, k), raws[n]).value;
    }
  }

  /** The decimal renderings the scenario below reports. */
  lemma ScenarioNumerals()
    ensures DecimalString(4711) == "4711" && DecimalString(4712) == "4712"
    ensures DecimalString(100) == "100" && DecimalString(150) == "150" && DecimalString(120) == "120"
  {
    assert DecimalString(471) == "471";
    assert DecimalString(10) == "10" && DecimalString(15) == "15" && DecimalString(12) == "12";
  }

  /** The same scenario through lookup and number reading: reports of
      "4711", "4712", "100", "150", "120", "150" in turn publish 4711,
      4712, 0, 50, 0, 30. */
  lemma ReportScenario()
    ensures Feed(map[], [Report("4711"), Report("4712"), Report("100"), Report("150"), Report("120"), Report("150")],
                 "service", "action", "var") == [4711, 4712, 0, 50, 0, 30]
  {
    var raws := [4711, 4712, 100, 150, 120, 150];
    var reports := [Report("4711"), Report("4712"), Report("100"), Report("150"), Report("120"), Report("150")];
    ScenarioNumerals();
    forall i | 0 <= i < |raws|
      ensures Extract(FilterByService(reports[i], "service", "action", "var")) == raws[i]
    {
      assert reports[i] == Report(DecimalString(raws[i]));
      ReportReading(raws[i]);
    }
    FeedMatchesTrace(map[], reports, raws, "service", "action", "var");
    ResetScenario();
  }

  // ---------------------------------------------------------------------
  // The collector's two WAN byte counters (Collect)
  // ---------------------------------------------------------------------

  /** The correction state of the received and of the sent counter. */
  datatype Collector = Collector(received: Counter, sent: Counter)

  /** `newFritzBoxCollector`: both counters start at zero. */
  const NewCollector: Collector := Collector(Fresh, Fresh)

  datatype Collected = Collected(collector: Collector, receivedRaw: int, received: int, sentRaw: int, sent: int)

  /** One value `Collect` looks up. */
  datatype Query = Query(service: string, action: string, variable: string)

  /** The number a lookup yields from the values. */
  function Reading(values: seq<Upnp.ServiceActionValue>, q: Query): nat
  {
    Extract(FilterByService(values, q.service, q.action, q.variable))
  }

  const ReceivedQuery: Query := Query("WANCommonInterfaceConfig", "GetTotalBytesReceived", "TotalBytesReceived")
  const SentQuery: Query := Query("WANCommonInterfaceConfig", "GetTotalBytesSent", "TotalBytesSent")

  /** The two corrections of one `Collect`: first the received bytes, then
      the sent bytes, each with its own state. */
  function CollectCounters(col: Collector, values: seq<Upnp.ServiceActionValue>): (r: Collected)
    ensures r.receivedRaw == Reading(values, ReceivedQuery) && r.sentRaw == Reading(values, SentQuery)
    ensures r.collector.received.last == r.receivedRaw && r.collector.sent.last == r.sentRaw
    ensures var step := Correct(col.received, r.receivedRaw);
            r.collector.received == step.state && r.received == step.value
    ensures var step := Correct(col.sent, r.sentRaw);
            r.collector.sent == step.state && r.sent == step.value
    ensures Valid(col.received) && Valid(col.sent) ==>
              Valid(r.collector.received) && Valid(r.collector.sent) && r.received >= 0 && r.sent >= 0
  {
    var receivedRaw := Reading(values, ReceivedQuery);
    var received := Correct(col.received, receivedRaw);
    var sentRaw := Reading(values, SentQuery);
    var sent := Correct(col.sent, sentRaw);
    Collected(Collector(received.state, sent.state), receivedRaw, received.value, sentRaw, sent.value)
  }

  /** The counters do not share state: the sent counter's result depends
      on the sent state alone, and the received counter's on the received
      state alone. */
  lemma CountersIndependent(a: Collector, b: Collector, values: seq<Upnp.ServiceActionValue>)
    ensures a.sent == b.sent ==>
              CollectCounters(a, values).collector.sent == CollectCounters(b, values).collector.sent &&
              CollectCounters(a, values).sent == CollectCounters(b, values).sent
    ensures a.received == b.received ==>
              CollectCounters(a, values).collector.received == CollectCounters(b, values).collector.received &&
              CollectCounters(a, values).received == CollectCounters(b, values).received
  {
  }

  // ---------------------------------------------------------------------
  // What Collect asks the device for, and the WLAN label
  // ---------------------------------------------------------------------

  /** The interest filter `Collect` hands to the UPnP client. */
  const CollectFilter: Upnp.Filter := map[
    "WANCommonInterfaceConfig" := ["GetTotalBytesReceived", "GetTotalBytesSent", "GetTotalPacketsSent", "GetTotalPacketsReceived"],
    "WANPPPConnection" := ["GetExternalIPAddress", "GetStatusInfo"],
    "LANEthernetInterfaceConfig" := ["GetStatistics"],
    "WLANConfiguration" := ["GetInfo", "GetTotalAssociations", "GetStatistics"]]

  /** The service of WLAN instance `i`. */
  function WlanService(i: nat): string
  {
    "WLANConfiguration:" + DecimalString(i)
  }

  /** The label of WLAN instance `i`: the first reported SSID of the
      instance followed by its first reported standard in parentheses,
      each the empty string when the device did not report it. */
  function WlanLabel(values: seq<Upnp.ServiceActionValue>, i: nat): (l: string)
    ensures l == FilterByService(values, WlanService(i), "GetInfo", "SSID") + " (" +
                 FilterByService(values, WlanService(i), "GetInfo", "Standard") + ")"
    ensures (forall j :: 0 <= j < |values| ==> values[j].actionName != "GetInfo") ==> l == " ()"
    ensures exists ssid, standard ::
              && l == ssid + " (" + standard + ")"
              && (ssid == "" || exists j :: 0 <= j < |values| && Matches(values[j], WlanService(i), "GetInfo", "SSID") && values[j].value == ssid)
              && (standard == "" || exists j :: 0 <= j < |values| && Matches(values[j], WlanService(i), "GetInfo", "Standard") && values[j].value == standard)
  {
    var ssid := FilterByService(values, WlanService(i), "GetInfo", "SSID");
    var standard := FilterByService(values, WlanService(i), "GetInfo", "Standard");
    ssid + " (" + standard + ")"
  }

  /** The WLAN lookups for instance `i`. */
  function WlanQueries(i: nat): seq<Query>
  {
    [Query(WlanService(i), "GetInfo", "SSID"),
     Query(WlanService(i), "GetInfo", "Standard"),
     Query(WlanService(i), "GetTotalAssociations", "TotalAssociations"),
     Query(WlanService(i), "GetStatistics", "TotalPacketsSent"),
     Query(WlanService(i), "GetStatistics", "TotalPacketsReceived")]
  }

  /** The lookups of `Collect` outside the WLAN loop, in order. */
  const FixedQueries: seq<Query> :=
    [ReceivedQuery,
     SentQuery,
     Query("WANCommonInterfaceConfig", "GetTotalPacketsReceived", "TotalPacketsReceived"),
     Query("WANCommonInterfaceConfig", "GetTotalPacketsSent", "TotalPacketsSent"),
     Query("WANPPPConnection", "GetExternalIPAddress", "ExternalIPAddress"),
     Query("WANPPPConnection", "GetStatusInfo", "ConnectionStatus"),
     Query("WANPPPConnection", "GetStatusInfo", "Uptime"),
     Query("LANEthernetInterfaceConfig", "GetStatistics", "Stats.BytesReceived"),
     Query("LANEthernetInterfaceConfig", "GetStatistics", "Stats.BytesSent"),
     Query("LANEthernetInterfaceConfig", "GetStatistics", "Stats.PacketsReceived"),
     Query("LANEthernetInterfaceConfig", "GetStatistics", "Stats.PacketsSent")]

  /** Every lookup of `Collect`, in the order it makes them. */
  const CollectQueries: seq<Query> := FixedQueries + WlanQueries(1) + WlanQueries(2) + WlanQueries(3)

  /** The filter asks for the lookup's action under a key its service
      contains. */
  predicate Requested(filter: Upnp.Filter, q: Query)
  {
    exists k :: k in filter && Contains(q.service, k) && q.action in filter[k]
  }

  /** A requested lookup is answered only by values the filter admits. */
  lemma RequestedMeansWanted(filter: Upnp.Filter, q: Query, x: Upnp.ServiceActionValue)
    requires Requested(filter, q)
    requires Matches(x, q.service, q.action, q.variable)
    ensures Upnp.Wanted(filter, x)
  {
    var k :| k in filter && Contains(q.service, k) && q.action in filter[k];
    ContainsTransitive(x.serviceType, q.service, k);
  }

  /** A lookup whose service type is itself a filter key listing its
      action is requested. */
  lemma KeyRequested(filter: Upnp.Filter, q: Query)
    requires q.service in filter && q.action in filter[q.service]
    ensures Requested(filter, q)
  {
    ContainsPrefix(q.service, "");
    assert q.service + "" == q.service;
  }

  lemma FixedQueriesRequested()
    ensures forall q :: q in FixedQueries ==> Requested(CollectFilter, q)
  {
    forall i | 0 <= i < |FixedQueries| ensures Requested(CollectFilter, FixedQueries[i]) {
      KeyRequested(CollectFilter, FixedQueries[i]);
    }
  }

  lemma WlanQueriesRequested(i: nat)
    ensures forall q :: q in WlanQueries(i) ==> Requested(CollectFilter, q)
  {
    var wlan := "WLANConfiguration";
    ContainsPrefix(wlan, ":" + DecimalString(i));
    assert WlanService(i) == wlan + (":" + DecimalString(i));
    assert wlan in CollectFilter;
    forall q | q in WlanQueries(i) ensures Requested(CollectFilter, q) {
      assert q.service == WlanService(i) && q.action in CollectFilter[wlan];
    }
  }

  /** Every lookup `Collect` makes is for an action its own filter
      requests, so each can only be answered by a value `Execute` keeps. */
  lemma CollectQueriesRequested()
    ensures forall q :: q in CollectQueries ==> Requested(CollectFilter, q)
  {
    FixedQueriesRequested();
    WlanQueriesRequested(1);
    WlanQueriesRequested(2);
    WlanQueriesRequested(3);
  }
}
