/** The search spider: one search request at a time against the current
    mirror. A failed request is retried on the same mirror up to
    `MaxRetryTimes` times, then the next mirror (cyclically) is tried, and
    after `MaxTotalAttempts` failures in all the spider stops. */
module SearchSpider {
  import opened Wrappers
  import opened Text
  import opened CrawlerConfig

  datatype Spider = Spider(keyword: string, domainIndex: nat, retryCount: nat, totalAttempts: nat)

  /** A search request: the mirror it goes to and the keyword it asks for. */
  datatype Request = Request(domain: string, keyword: string)

  /** Python's `xs.index(x)`: the first position of `x`. */
  function IndexOf(xs: seq<string>, x: string): (i: nat)
    requires x in xs
    ensures i < |xs| && xs[i] == x
    ensures forall j | 0 <= j < i :: xs[j] != x
  {
    if xs[0] == x then 0 else 1 + IndexOf(xs[1..], x)
  }

  /** A state the spider can be in: the mirror index names a mirror. */
  predicate Valid(s: Spider) {
    s.domainIndex < |SupportedDomains|
  }

  /** `__init__`: the keyword, or the default one when none (or '') is given;
      the mirror is the default one; no attempts yet. */
  function Init(keyword: Option<string>): (s: Spider)
    ensures Valid(s) && SupportedDomains[s.domainIndex] == DefaultDomain
    ensures s.retryCount == 0 && s.totalAttempts == 0
    ensures keyword.Some? && keyword.value != "" ==> s.keyword == keyword.value
    ensures keyword.None? || keyword.value == "" ==> s.keyword == DefaultKeyword
  {
    var k := if keyword.Some? && keyword.value != "" then keyword.value else DefaultKeyword;
    Spider(k, IndexOf(SupportedDomains, DefaultDomain), 0, 0)
  }

  /** `make_request`: the current mirror and the keyword. */
  function MakeRequest(s: Spider): Request
    requires Valid(s)
  {
    Request(SupportedDomains[s.domainIndex], s.keyword)
  }

  /** `parse_failure`: both counters go up; at the total budget no request
      follows; below the per-mirror budget the same mirror is asked again;
      otherwise the count restarts on the next mirror. */
  function ParseFailure(s: Spider): (r: (Spider, Option<Request>))
    requires Valid(s)
    ensures Valid(r.0) && r.0.keyword == s.keyword
    ensures r.0.totalAttempts == s.totalAttempts + 1
    ensures r.1.None? <==> s.totalAttempts + 1 >= MaxTotalAttempts
    ensures r.1.None? ==> r.0.domainIndex == s.domainIndex && r.0.retryCount == s.retryCount + 1
    ensures r.1.Some? ==> r.1.value == MakeRequest(r.0) && r.0.retryCount < MaxRetryTimes
    ensures r.1.Some? && s.retryCount + 1 < MaxRetryTimes ==>
      r.0.domainIndex == s.domainIndex && r.0.retryCount == s.retryCount + 1
    ensures r.1.Some? && s.retryCount + 1 >= MaxRetryTimes ==>
      r.0.retryCount == 0 && r.0.domainIndex == (s.domainIndex + 1) % |SupportedDomains|
  {
    var t := s.(retryCount := s.retryCount + 1, totalAttempts := s.totalAttempts + 1);
    if t.totalAttempts >= MaxTotalAttempts then (t, None)
    else if t.retryCount < MaxRetryTimes then (t, Some(MakeRequest(t)))
    else
      var u := t.(retryCount := 0, domainIndex := (t.domainIndex + 1) % |SupportedDomains|);
      (u, Some(MakeRequest(u)))
  }

  /** What the JSON parser made of a response body: a list, an object, or
      any other value; the sizes matter only as empty or not. */
  datatype Json = JList(size: nat) | JObject(size: nat) | JOther

  /** The outcome of `parse_api` for one response: the new state, the request
      that follows (if any), and whether the results were saved. */
  datatype ApiStep = ApiStep(spider: Spider, next: Option<Request>, saved: bool)

  /** The body is a real result: it is not the marker "1", it parsed, it is
      not an empty list or object. */
  predicate Acceptable(body: string, parsed: Option<Json>) {
    && PyStrip(body) != "1"
    && parsed.Some?
    && !(parsed.value.JList? && parsed.value.size == 0)
    && !(parsed.value.JObject? && parsed.value.size == 0)
  }

  /** `parse_api`: `parsed` is the JSON parser's verdict on `body` (`None`
      when it raises) and `saveOk` whether writing the results file
      succeeded. A saved result resets the mirror's retry count but keeps the
      total; every other case is handled as a failure. */
  function ParseApi(s: Spider, body: string, parsed: Option<Json>, saveOk: bool): (r: ApiStep)
    requires Valid(s)
    ensures r.saved <==> Acceptable(body, parsed) && saveOk
    ensures r.saved ==> r.spider == s.(retryCount := 0) && r.next.None?
    ensures !r.saved ==> (r.spider, r.next) == ParseFailure(s)
  {
    if PyStrip(body) == "1" then Fail(s)
    else if parsed.None? then Fail(s)
    else if parsed.value.JList? && parsed.value.size == 0 then Fail(s)
    else if parsed.value.JObject? && parsed.value.size == 0 then Fail(s)
    else if !saveOk then Fail(s)
    else ApiStep(s.(retryCount := 0), None, true)
  }

  function Fail(s: Spider): ApiStep
    requires Valid(s)
  {
    var (t, next) := ParseFailure(s);
    ApiStep(t, next, false)
  }

  /** The body "1" is a failure even though it is valid JSON. */
  lemma MarkerOneFails(s: Spider, saveOk: bool)
    requires Valid(s)
    ensures !ParseApi(s, "1", Some(JOther), saveOk).saved
    ensures ParseApi(s, "1", Some(JOther), saveOk).spider.totalAttempts == s.totalAttempts + 1
  {
    assert PyStrip("1") == "1";
  }

  // ---- every request failing ----

  /** The requests issued after the pending one fails, when every request
      fails. */
  function FailAll(s: Spider): (rs: seq<Request>)
    requires Valid(s)
    decreases if s.totalAttempts < MaxTotalAttempts then MaxTotalAttempts - s.totalAttempts else 0
  {
    var (t, next) := ParseFailure(s);
    if next.None? then [] else [next.value] + FailAll(t)
  }

  /** The state after `t` failures in a row from the start. */
  predicate AfterFailures(s: Spider, t: nat) {
    && s.totalAttempts == t
    && s.retryCount == t % MaxRetryTimes
    && s.domainIndex == t / MaxRetryTimes
  }

  /** From the state after `t` failures, the remaining requests are the
      ones numbered `t + 1` to `MaxTotalAttempts - 1`, request `n` (at
      position `n - t - 1`) going to mirror `n / MaxRetryTimes`. */
  lemma {:induction false} FailAllFrom(s: Spider, t: nat)
    requires t < MaxTotalAttempts && AfterFailures(s, t)
    ensures Valid(s)
    ensures |FailAll(s)| == MaxTotalAttempts - 1 - t
    ensures forall n | t + 1 <= n < MaxTotalAttempts ::
      FailAll(s)[n - t - 1] == Request(SupportedDomains[n / MaxRetryTimes], s.keyword)
    decreases MaxTotalAttempts - t
  {
    if t + 1 < MaxTotalAttempts {
      NextFailure(s, t);
      var (u, next) := ParseFailure(s);
      FailAllFrom(u, t + 1);
      var rs := FailAll(s);
      assert rs == [next.value] + FailAll(u);
      forall n | t + 1 <= n < MaxTotalAttempts
        ensures rs[n - t - 1] == Request(SupportedDomains[n / MaxRetryTimes], s.keyword)
      {
        if n > t + 1 {
          assert rs[n - t - 1] == FailAll(u)[n - (t + 1) - 1];
        }
      }
    } else {
      assert ParseFailure(s).1.None?;
    }
  }

  /** One more failure after `t`, when it is not the last: the state is the
      one after `t + 1` failures and the next request goes to mirror
      `(t + 1) / MaxRetryTimes`. */
  lemma NextFailure(s: Spider, t: nat)
    requires t + 1 < MaxTotalAttempts && AfterFailures(s, t)
    ensures Valid(s)
    ensures AfterFailures(ParseFailure(s).0, t + 1) && ParseFailure(s).0.keyword == s.keyword
    ensures ParseFailure(s).1 == Some(Request(SupportedDomains[(t + 1) / MaxRetryTimes], s.keyword))
  {
  }

  /** If every response fails, the spider issues exactly `MaxTotalAttempts`
      requests (the first one included): `MaxRetryTimes` to each mirror in
      turn, each mirror visited once, and then it stops. */
  lemma AllFailuresVisitEachDomainOnce(keyword: Option<string>)
    ensures var s := Init(keyword);
      var rs := [MakeRequest(s)] + FailAll(s);
      && |rs| == MaxTotalAttempts
      && forall n | 0 <= n < |rs| :: rs[n] == Request(SupportedDomains[n / MaxRetryTimes], s.keyword)
  {
    var s := Init(keyword);
    assert AfterFailures(s, 0);
    FailAllFrom(s, 0);
  }
}
