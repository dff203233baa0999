// The Tonga feature-flag client: a read-through cache of flag values fetched
// from the server, a tally of the values handed out, and the report that
// drains the tally to the server.  The network is a parameter: `server`
// maps each requested URL to the reply the server gives, and every request
// the client issues is appended to the `sent` log.

module Tonga {
  import opened Wrappers
  import Json
  import UrlEncoding
  import Analytics

  // ----- URLs -----

  /** `_build_query_string`: `"?"` and the form encoding of the context
      attributes, or nothing when that encoding is empty. */
  function BuildQueryString(attrs: UrlEncoding.Attributes): (qs: string)
    ensures qs == "" <==> attrs == []
    ensures qs != "" ==> qs[0] == '?' && qs[1..] == UrlEncoding.Urlencode(attrs)
  {
    var q := UrlEncoding.Urlencode(attrs);
    if q != "" then "?" + q else ""
  }

  /** `{server_url}/flag_value/{flag}` and the query string: it starts with
      the server URL, and is the bare path exactly when there is no context. */
  function FlagValueUrl(serverUrl: string, flag: string, attrs: UrlEncoding.Attributes): (url: string)
    ensures |serverUrl| + 12 + |flag| <= |url| && url[..|serverUrl|] == serverUrl
    ensures attrs == [] <==> |url| == |serverUrl| + 12 + |flag|
  {
    serverUrl + "/flag_value/" + flag + BuildQueryString(attrs)
  }

  /** `{server_url}/update_analytics` and the query string, in the same shape. */
  function UpdateAnalyticsUrl(serverUrl: string, attrs: UrlEncoding.Attributes): (url: string)
    ensures |serverUrl| + 17 <= |url| && url[..|serverUrl|] == serverUrl
    ensures attrs == [] <==> |url| == |serverUrl| + 17
  {
    serverUrl + "/update_analytics" + BuildQueryString(attrs)
  }

  lemma NotInAppend(s: string, t: string, c: char)
    requires c !in s && c !in t
    ensures c !in s + t
  {
    assert forall i :: 0 <= i < |s + t| ==> (s + t)[i] == (if i < |s| then s[i] else t[i - |s|]);
  }

  /** With no `?` in the path, a URL splits at its first `?` into the path
      given and a query from which the server reads back every context
      attribute, in order; there is no `?` at all when there are no
      attributes. */
  lemma SplitUrl(path: string, attrs: UrlEncoding.Attributes)
    requires '?' !in path
    ensures var url := path + BuildQueryString(attrs);
            var i := UrlEncoding.Find(url, '?');
            url[..i] == path
            && (i == |url| <==> attrs == [])
            && (attrs != [] ==> UrlEncoding.DecodePairs(url[i + 1..]) == Some(UrlEncoding.Rendered(attrs)))
  {
    var qs := BuildQueryString(attrs);
    var url := path + qs;
    if attrs == [] {
      UrlEncoding.FindAbsent(url, '?');
      assert url == path;
    } else {
      var q := UrlEncoding.Urlencode(attrs);
      assert url == path + ['?'] + q;
      UrlEncoding.FindSeparator(path, '?', q);
      assert url[..|path|] == path && url[|path| + 1..] == q;
      UrlEncoding.DecodeUrlencode(attrs);
    }
  }

  /** The flag-value URL names the flag and carries the context. */
  lemma FlagValueUrlParts(serverUrl: string, flag: string, attrs: UrlEncoding.Attributes)
    requires '?' !in serverUrl && '?' !in flag
    ensures var url := FlagValueUrl(serverUrl, flag, attrs);
            var i := UrlEncoding.Find(url, '?');
            url[..i] == serverUrl + "/flag_value/" + flag
            && (i == |url| <==> attrs == [])
            && (attrs != [] ==> UrlEncoding.DecodePairs(url[i + 1..]) == Some(UrlEncoding.Rendered(attrs)))
  {
    NotInAppend(serverUrl, "/flag_value/", '?');
    NotInAppend(serverUrl + "/flag_value/", flag, '?');
    SplitUrl(serverUrl + "/flag_value/" + flag, attrs);
  }

  /** The report URL carries the same context. */
  lemma UpdateAnalyticsUrlParts(serverUrl: string, attrs: UrlEncoding.Attributes)
    requires '?' !in serverUrl
    ensures var url := UpdateAnalyticsUrl(serverUrl, attrs);
            var i := UrlEncoding.Find(url, '?');
            url[..i] == serverUrl + "/update_analytics"
            && (i == |url| <==> attrs == [])
            && (attrs != [] ==> UrlEncoding.DecodePairs(url[i + 1..]) == Some(UrlEncoding.Rendered(attrs)))
  {
    NotInAppend(serverUrl, "/update_analytics", '?');
    SplitUrl(serverUrl + "/update_analytics", attrs);
  }

  /** Two clients asking the same URL for a flag have contexts the server
      reads identically, whatever the server URL and the flag name hold. */
  lemma SameUrlSameContext(serverUrl: string, flag: string,
                           a: UrlEncoding.Attributes, b: UrlEncoding.Attributes)
    requires FlagValueUrl(serverUrl, flag, a) == FlagValueUrl(serverUrl, flag, b)
    ensures UrlEncoding.Rendered(a) == UrlEncoding.Rendered(b)
  {
    var path := serverUrl + "/flag_value/" + flag;
    var qa, qb := BuildQueryString(a), BuildQueryString(b);
    assert (path + qa)[|path|..] == qa && (path + qb)[|path|..] == qb;
    assert qa == qb;
    if a != [] {
      assert b != [];
      UrlEncoding.DecodeUrlencode(a);
      UrlEncoding.DecodeUrlencode(b);
    }
  }

  /** The flag name goes into the path unescaped: a flag holding `?key=value`
      asks exactly the URL another client asks for the flag before the `?`
      with the context `key=value`. */
  lemma FlagNameNotEscaped(serverUrl: string, base: string, key: string, value: string)
    requires forall i :: 0 <= i < |key| ==> key[i] as int < 0x80 && UrlEncoding.IsUnreservedByte(key[i] as int)
    requires forall i :: 0 <= i < |value| ==> value[i] as int < 0x80 && UrlEncoding.IsUnreservedByte(value[i] as int)
    ensures FlagValueUrl(serverUrl, base + "?" + key + "=" + value, [])
         == FlagValueUrl(serverUrl, base, [(key, UrlEncoding.Text(value))])
  {
    var attrs := [(key, UrlEncoding.Text(value))];
    UrlEncoding.QuotePlusUnreserved(key);
    UrlEncoding.QuotePlusUnreserved(value);
    assert UrlEncoding.EncodePair(key, UrlEncoding.Text(value)) == key + "=" + value;
    UrlencodeOne(attrs);
    QueryOf(UrlEncoding.Urlencode(attrs), attrs);
    JoinFlagName(serverUrl, base, key, value, BuildQueryString(attrs));
  }

  lemma JoinFlagName(serverUrl: string, base: string, key: string, value: string, q: string)
    requires q == "?" + (key + "=" + value)
    ensures serverUrl + "/flag_value/" + (base + "?" + key + "=" + value) + ""
         == serverUrl + "/flag_value/" + base + q
  {
  }

  // The strings below are passed as variables: on literal arguments the
  // solver evaluates the encoders eagerly and runs out of resource.

  lemma QuoteUserValue(first: string, second: string, value: string)
    requires first == "some" && second == "user1" && value == "some user1"
    ensures UrlEncoding.QuotePlus(value) == "some+user1"
  {
    UrlEncoding.QuotePlusUnreserved(first);
    UrlEncoding.QuotePlusUnreserved(second);
    SplitUserValue(first, second, value);
    UrlEncoding.QuotePlusTwoWords(first, second);
    JoinUserValue(UrlEncoding.QuotePlus(first), UrlEncoding.QuotePlus(second));
  }

  lemma SplitUserValue(first: string, second: string, value: string)
    requires first == "some" && second == "user1" && value == "some user1"
    ensures value == first + " " + second
  {
  }

  lemma JoinUserValue(first: string, second: string)
    requires first == "some" && second == "user1"
    ensures first + "+" + second == "some+user1"
  {
  }

  lemma QuoteUserPair(key: string, first: string, second: string, value: string)
    requires key == "user" && first == "some" && second == "user1" && value == "some user1"
    ensures UrlEncoding.QuotePlus(key) + "=" + UrlEncoding.QuotePlus(value) == "user=some+user1"
  {
    UrlEncoding.QuotePlusUnreserved(key);
    QuoteUserValue(first, second, value);
    JoinUserPair(UrlEncoding.QuotePlus(key), UrlEncoding.QuotePlus(value));
  }

  lemma JoinUserPair(k: string, v: string)
    requires k == "user" && v == "some+user1"
    ensures k + "=" + v == "user=some+user1"
  {
  }

  lemma QuoteNumberPair(key: string, value: string)
    requires key == "some_attribute" && value == "2"
    ensures UrlEncoding.QuotePlus(key) + "=" + UrlEncoding.QuotePlus(value) == "some_attribute=2"
  {
    UrlEncoding.QuotePlusUnreserved(key);
    UrlEncoding.QuotePlusUnreserved(value);
    JoinNumberPair(UrlEncoding.QuotePlus(key), UrlEncoding.QuotePlus(value));
  }

  lemma JoinNumberPair(k: string, v: string)
    requires k == "some_attribute" && v == "2"
    ensures k + "=" + v == "some_attribute=2"
  {
  }

  lemma ExampleUserPair()
    ensures UrlEncoding.EncodePair("user", UrlEncoding.Text("some user1")) == "user=some+user1"
  {
    QuoteUserPair("user", "some", "user1", "some user1");
  }

  lemma ExampleNumberPair()
    ensures UrlEncoding.EncodePair("some_attribute", UrlEncoding.Number(2)) == "some_attribute=2"
  {
    assert UrlEncoding.Str(UrlEncoding.Number(2)) == "2";
    QuoteNumberPair("some_attribute", "2");
  }

  lemma QueryOfTwo(attrs: UrlEncoding.Attributes, first: string, second: string)
    requires |attrs| == 2
    requires UrlEncoding.EncodePair(attrs[0].0, attrs[0].1) == first
    requires UrlEncoding.EncodePair(attrs[1].0, attrs[1].1) == second
    ensures BuildQueryString(attrs) == "?" + first + "&" + second
  {
    var tail := attrs[1..];
    assert tail[0] == attrs[1];
    UrlencodeOne(tail);
    UrlencodeCons(attrs);
    var q := UrlEncoding.Urlencode(attrs);
    QueryOf(q, attrs);
    JoinQuery(q, first, second);
  }

  lemma JoinQuery(q: string, first: string, second: string)
    requires q == first + "&" + second
    ensures "?" + q == "?" + first + "&" + second
  {
  }

  lemma UrlencodeCons(attrs: UrlEncoding.Attributes)
    requires |attrs| >= 2
    ensures UrlEncoding.Urlencode(attrs)
         == UrlEncoding.EncodePair(attrs[0].0, attrs[0].1) + "&" + UrlEncoding.Urlencode(attrs[1..])
  {
  }

  lemma UrlencodeOne(attrs: UrlEncoding.Attributes)
    requires |attrs| == 1
    ensures UrlEncoding.Urlencode(attrs) == UrlEncoding.EncodePair(attrs[0].0, attrs[0].1)
  {
  }

  lemma QueryOf(q: string, attrs: UrlEncoding.Attributes)
    requires q == UrlEncoding.Urlencode(attrs) && attrs != []
    ensures BuildQueryString(attrs) == "?" + q
  {
  }

  /** The query of the context `user='some user1', some_attribute=2`. */
  lemma ExampleQueryString(attrs: UrlEncoding.Attributes)
    requires attrs == [("user", UrlEncoding.Text("some user1")), ("some_attribute", UrlEncoding.Number(2))]
    ensures BuildQueryString(attrs) == "?user=some+user1&some_attribute=2"
  {
    ExampleUserPair();
    ExampleNumberPair();
    QueryOfTwo(attrs, "user=some+user1", "some_attribute=2");
    ExampleJoin(BuildQueryString(attrs));
  }

  lemma ExampleJoin(q: string)
    requires q == "?" + "user=some+user1" + "&" + "some_attribute=2"
    ensures q == "?user=some+user1&some_attribute=2"
  {
  }

  // ----- The server -----

  /** What a `requests.get` produces: no connection, or a status code and
      the body's JSON value (`None` when the body is not JSON). */
  datatype Reply = Unreachable | Response(status: int, body: Option<Json.Value>)

  datatype FetchError = ConnectionError | HttpError(status: int) | InvalidJson

  /** `_get_flag_value_from_server` after the request: 404 means the flag is
      not defined (`None`); `raise_for_status` rejects the other 4xx and 5xx
      codes; otherwise the whole JSON body is the value. */
  function ReplyOutcome(reply: Reply): (r: Result<Json.Value, FetchError>)
    ensures r == Err(ConnectionError) <==> reply.Unreachable?
    ensures r.Err? && r.error.HttpError? ==>
              reply.Response? && r.error.status == reply.status && 400 <= reply.status < 600 && reply.status != 404
    ensures r == Err(InvalidJson) ==> reply.Response? && reply.body.None?
  {
    match reply
    case Unreachable => Err(ConnectionError)
    case Response(status, body) =>
      if status == 404 then Ok(Json.Null)
      else if 400 <= status < 600 then Err(HttpError(status))
      else if body.None? then Err(InvalidJson)
      else Ok(body.value)
  }

  /** The outcome a reply gives, case by case. */
  lemma ReplyOutcomeCases(reply: Reply)
    ensures ReplyOutcome(reply).Ok? <==>
              reply.Response? && (reply.status == 404 || (!(400 <= reply.status < 600) && reply.body.Some?))
    ensures reply.Response? && reply.status == 404 ==> ReplyOutcome(reply) == Ok(Json.Null)
    ensures reply.Response? && reply.status != 404 && ReplyOutcome(reply).Ok? ==> reply.body == Some(ReplyOutcome(reply).value)
  {
  }

  /** The requests the client sends. */
  datatype Request = HttpGet(url: string) | HttpPost(url: string, batch: Analytics.Counter)

  /** The number of fetches in a log. */
  function Fetches(log: seq<Request>): (n: nat)
    ensures n <= |log|
    ensures n == 0 <==> forall i :: 0 <= i < |log| ==> log[i].HttpPost?
    ensures n == |log| <==> forall i :: 0 <= i < |log| ==> log[i].HttpGet?
  {
    if log == [] then 0
    else
      assert forall i :: 1 <= i < |log| ==> log[i] == log[1..][i - 1];
      (if log[0].HttpGet? then 1 else 0) + Fetches(log[1..])
  }

  /** The fetches of two logs in sequence add up. */
  lemma {:induction false} FetchesAppend(a: seq<Request>, b: seq<Request>)
    ensures Fetches(a + b) == Fetches(a) + Fetches(b)
    decreases |a|
  {
    if a != [] {
      assert (a + b)[0] == a[0] && (a + b)[1..] == a[1..] + b;
      FetchesAppend(a[1..], b);
    } else {
      assert a + b == b;
    }
  }

  // ----- The client -----

  class TongaClient {
    const serverUrl: string
    const contextAttributes: UrlEncoding.Attributes
    /** `_flag_cache`: flag name to the value the server gave. */
    var flagCache: map<string, Json.Value>
    /** `_analytics_counter`. */
    var analyticsCounter: Analytics.Counter
    /** `_stop_event` is set. */
    var stopped: bool
    /** A report's `requests.post` raised: nothing in the report loop
        catches it, so the analytics thread has ended. */
    var loopDead: bool
    /** Every request sent so far, in order. */
    var sent: seq<Request>
    /** The (flag, `json.dumps(value)`) of every `get` since the last report. */
    ghost var pending: seq<Analytics.Event>

    /** The counter holds exactly the tallies of the pending `get` calls. */
    ghost predicate Valid()
      reads this
    {
      analyticsCounter == Analytics.TallyAll(map[], pending)
    }

    /** `TongaClient(server_url, context_attributes)`: a missing context is
        an empty one. */
    constructor(url: string, attributes: Option<UrlEncoding.Attributes>)
      ensures Valid()
      ensures serverUrl == url
      ensures contextAttributes == (if attributes.Some? then attributes.value else [])
      ensures flagCache == map[] && analyticsCounter == map[] && pending == []
      ensures !stopped && !loopDead && sent == []
    {
      serverUrl := url;
      contextAttributes := if attributes.Some? then attributes.value else [];
      flagCache := map[];
      analyticsCounter := map[];
      stopped := false;
      loopDead := false;
      sent := [];
      pending := [];
    }

    function FlagUrl(flag: string): string
      reads this
    {
      FlagValueUrl(serverUrl, flag, contextAttributes)
    }

    /** `_get_flag_value_from_server`: one request, whatever the cache holds. */
    method GetFlagValueFromServer(flag: string, server: string -> Reply)
      returns (r: Result<Json.Value, FetchError>)
      modifies this`sent
      ensures sent == old(sent) + [HttpGet(FlagUrl(flag))]
      ensures r == ReplyOutcome(server(FlagUrl(flag)))
    {
      var url := serverUrl + "/flag_value/" + flag;
      url := url + BuildQueryString(contextAttributes);
      sent := sent + [HttpGet(url)];
      var reply := server(url);
      if reply.Unreachable? {
        return Err(ConnectionError);
      }
      if reply.status == 404 {
        return Ok(Json.Null);
      }
      if 400 <= reply.status < 600 {
        return Err(HttpError(reply.status));
      }
      if reply.body.None? {
        return Err(InvalidJson);
      }
      r := Ok(reply.body.value);
    }

    /** `_get_flag_value_through_cache`: a cached flag, even one the server
        did not define, is answered with no request; otherwise the fetched
        value is cached, and a failed fetch caches nothing. */
    method GetFlagValueThroughCache(flag: string, server: string -> Reply)
      returns (r: Result<Json.Value, FetchError>)
      modifies this`flagCache, this`sent
      ensures flag in old(flagCache) ==>
                r == Ok(old(flagCache)[flag]) && flagCache == old(flagCache) && sent == old(sent)
      ensures flag !in old(flagCache) ==>
                r == ReplyOutcome(server(FlagUrl(flag)))
                && sent == old(sent) + [HttpGet(FlagUrl(flag))]
                && flagCache == (if r.Ok? then old(flagCache)[flag := r.value] else old(flagCache))
    {
      if flag in flagCache {
        return Ok(flagCache[flag]);
      }
      r := GetFlagValueFromServer(flag, server);
      if r.Ok? {
        flagCache := flagCache[flag := r.value];
      }
    }

    /** `get`: the value through the cache, tallied under its JSON text. */
    method Get(flag: string, server: string -> Reply) returns (r: Result<Json.Value, FetchError>)
      requires Valid()
      modifies this`flagCache, this`sent, this`analyticsCounter, this`pending
      ensures Valid()
      ensures flag in old(flagCache) ==>
                r == Ok(old(flagCache)[flag]) && flagCache == old(flagCache) && sent == old(sent)
      ensures flag !in old(flagCache) ==>
                r == ReplyOutcome(server(FlagUrl(flag)))
                && sent == old(sent) + [HttpGet(FlagUrl(flag))]
                && flagCache == (if r.Ok? then old(flagCache)[flag := r.value] else old(flagCache))
      ensures r.Ok? ==>
                analyticsCounter == Analytics.Tally(old(analyticsCounter), flag, Json.Dumps(r.value))
                && pending == old(pending) + [(flag, Json.Dumps(r.value))]
      ensures r.Err? ==> analyticsCounter == old(analyticsCounter) && pending == old(pending)
    {
      r := GetFlagValueThroughCache(flag, server);
      if r.Err? {
        return;
      }
      Analytics.TallyAllSnoc(map[], pending, (flag, Json.Dumps(r.value)));
      analyticsCounter := Analytics.Tally(analyticsCounter, flag, Json.Dumps(r.value));
      pending := pending + [(flag, Json.Dumps(r.value))];
    }

    function ReportUrl(): string
      reads this
    {
      UpdateAnalyticsUrl(serverUrl, contextAttributes)
    }

    /** `_update_server_analytics`: nothing when nothing was tallied;
        otherwise the whole counter is posted and the counter cleared.
        The posted batch holds, for every flag and JSON text, how many of
        the pending `get` calls returned it. */
    method UpdateServerAnalytics() returns (batch: Option<Analytics.Counter>)
      requires Valid()
      modifies this`analyticsCounter, this`pending, this`sent
      ensures Valid()
      ensures batch.None? <==> old(pending) == []
      ensures batch.None? ==>
                analyticsCounter == old(analyticsCounter) && pending == old(pending) && sent == old(sent)
      ensures batch.Some? ==>
                batch.value == old(analyticsCounter) && analyticsCounter == map[] && pending == []
                && sent == old(sent) + [HttpPost(ReportUrl(), batch.value)]
      ensures batch.Some? ==> Analytics.Total(batch.value) == |old(pending)|
      ensures batch.Some? ==> forall f, k :: Analytics.Count(batch.value, f, k) == multiset(old(pending))[(f, k)]
    {
      Analytics.TallyAllEmpty(pending);
      if analyticsCounter == map[] {
        return None;
      }
      var url := serverUrl + "/update_analytics";
      url := url + BuildQueryString(contextAttributes);
      batch := Some(analyticsCounter);
      Analytics.TallyAllTotal(map[], pending);
      Analytics.TotalEmpty();
      forall f, k ensures Analytics.Count(batch.value, f, k) == multiset(pending)[(f, k)] {
        Analytics.TallyAllCount(map[], pending, f, k);
      }
      analyticsCounter := map[];
      pending := [];
      sent := sent + [HttpPost(url, batch.value)];
    }

    /** One turn of `_update_analytics_loop`: a report while the loop runs.
        `posted` says whether `requests.post` returned; when it raised, the
        exception ends the loop, and no later turn or final flush happens. */
    method AnalyticsTick(posted: bool) returns (batch: Option<Analytics.Counter>)
      requires Valid()
      modifies this`analyticsCounter, this`pending, this`sent, this`loopDead
      ensures Valid()
      ensures old(stopped) || old(loopDead) ==>
                batch == None && analyticsCounter == old(analyticsCounter)
                && pending == old(pending) && sent == old(sent) && loopDead == old(loopDead)
      ensures !old(stopped) && !old(loopDead) ==>
                (batch.None? <==> old(pending) == [])
                && (batch.None? ==> sent == old(sent) && pending == old(pending) && !loopDead)
                && (batch.Some? ==>
                      batch.value == old(analyticsCounter) && analyticsCounter == map[] && pending == []
                      && sent == old(sent) + [HttpPost(ReportUrl(), batch.value)]
                      && loopDead == !posted)
    {
      if stopped || loopDead {
        return None;
      }
      batch := UpdateServerAnalytics();
      if batch.Some? && !posted {
        loopDead := true;
      }
    }

    /** `close`: stop the report loop, which flushes what is pending one last
        time if it is still running; closing again does nothing. */
    method Close() returns (batch: Option<Analytics.Counter>)
      requires Valid()
      modifies this`stopped, this`analyticsCounter, this`pending, this`sent
      ensures Valid() && stopped
      ensures old(stopped) || old(loopDead) ==>
                batch == None && analyticsCounter == old(analyticsCounter)
                && pending == old(pending) && sent == old(sent)
      ensures !old(stopped) && !old(loopDead) ==> (batch.None? <==> old(pending) == [])
      ensures !old(stopped) && !old(loopDead) && batch.None? ==>
                analyticsCounter == old(analyticsCounter) && pending == old(pending) && sent == old(sent)
      ensures !old(stopped) && !old(loopDead) && batch.Some? ==>
                batch.value == old(analyticsCounter) && analyticsCounter == map[] && pending == []
                && sent == old(sent) + [HttpPost(ReportUrl(), batch.value)]
    {
      if stopped {
        return None;
      }
      stopped := true;
      if loopDead {
        return None;
      }
      batch := UpdateServerAnalytics();
    }
  }

  // ----- Whole sessions -----

  /** Two `get` calls of one flag on a fresh client, the network answering
      `server1` at the first and `server2` at the second: once the first
      fetch succeeded the answer repeats with no second request; a failed
      first fetch cached nothing, so the second `get` asks again and gets
      what the network then answers. */
  method RepeatedGet(url: string, attributes: Option<UrlEncoding.Attributes>, flag: string,
                     server1: string -> Reply, server2: string -> Reply)
    returns (first: Result<Json.Value, FetchError>, second: Result<Json.Value, FetchError>, log: seq<Request>)
    ensures var flagUrl := FlagValueUrl(url, flag, if attributes.Some? then attributes.value else []);
            first == ReplyOutcome(server1(flagUrl))
            && (first.Ok? ==> second == first && log == [HttpGet(flagUrl)] && Fetches(log) == 1)
            && (first.Err? ==> second == ReplyOutcome(server2(flagUrl))
                               && log == [HttpGet(flagUrl), HttpGet(flagUrl)] && Fetches(log) == 2)
  {
    var client := new TongaClient(url, attributes);
    first := client.Get(flag, server1);
    second := client.Get(flag, server2);
    log := client.sent;
    var get := HttpGet(client.FlagUrl(flag));
    if first.Ok? {
      assert log == [get];
    } else {
      assert log == [get, get];
      assert Fetches(log) == 1 + Fetches([get]);
    }
  }

  /** A flag the server does not define reads as `None`, which is cached and
      tallied under `"null"`: two `get` calls send one request, and the
      report counts both. */
  method UndefinedFlag(url: string, flag: string, server: string -> Reply)
    returns (first: Result<Json.Value, FetchError>, second: Result<Json.Value, FetchError>,
             report: Option<Analytics.Counter>, log: seq<Request>)
    requires server(FlagValueUrl(url, flag, [])).Response? && server(FlagValueUrl(url, flag, [])).status == 404
    ensures first == Ok(Json.Null) && second == Ok(Json.Null)
    ensures report == Some(map[flag := map["null" := 2]])
    ensures log == [HttpGet(FlagValueUrl(url, flag, [])), HttpPost(UpdateAnalyticsUrl(url, []), report.value)]
  {
    var client := new TongaClient(url, None);
    first := client.Get(flag, server);
    second := client.Get(flag, server);
    assert Json.Dumps(Json.Null) == "null";
    Analytics.TallyTwice(flag, "null");
    report := client.UpdateServerAnalytics();
    log := client.sent;
  }

  /** Reporting twice with no `get` in between posts once: the counter is
      empty after a report. */
  method ReportTwice(url: string, flag: string, server: string -> Reply)
    returns (value: Result<Json.Value, FetchError>, first: Option<Analytics.Counter>,
             second: Option<Analytics.Counter>)
    ensures value.Ok? ==> first == Some(map[flag := map[Json.Dumps(value.value) := 1]])
    ensures value.Err? ==> first == None
    ensures second == None
  {
    var client := new TongaClient(url, None);
    value := client.Get(flag, server);
    first := client.UpdateServerAnalytics();
    second := client.UpdateServerAnalytics();
  }

  /** Closing flushes what was tallied since the last report, once. */
  method CloseFlushes(url: string, flag: string, server: string -> Reply)
    returns (value: Result<Json.Value, FetchError>, first: Option<Analytics.Counter>,
             second: Option<Analytics.Counter>)
    ensures value.Ok? <==> first.Some?
    ensures value.Ok? ==> first == Some(map[flag := map[Json.Dumps(value.value) := 1]])
    ensures second == None
  {
    var client := new TongaClient(url, None);
    value := client.Get(flag, server);
    first := client.Close();
    second := client.Close();
  }

  /** A report whose post raised ends the report loop: a later `get` is
      still tallied, but `close` no longer flushes it, and nothing after the
      failed post is sent. */
  method FailedReportEndsLoop(url: string, flag: string, server: string -> Reply)
    returns (value: Result<Json.Value, FetchError>, first: Option<Analytics.Counter>,
             last: Option<Analytics.Counter>, left: Analytics.Counter, log: seq<Request>)
    ensures value.Ok? ==>
              var once := map[flag := map[Json.Dumps(value.value) := 1]];
              first == Some(once) && last == None && left == once
              && log == [HttpGet(FlagValueUrl(url, flag, [])), HttpPost(UpdateAnalyticsUrl(url, []), once)]
  {
    var client := new TongaClient(url, None);
    value := client.Get(flag, server);
    if value.Ok? {
      Analytics.TallyOnce(flag, Json.Dumps(value.value));
    }
    first := client.AnalyticsTick(false);
    var again := client.Get(flag, server);
    last := client.Close();
    left := client.analyticsCounter;
    log := client.sent;
  }
}
