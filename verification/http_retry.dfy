/** The HTTP client's failure handling: the retry decision of the response
    interceptor, the retry counter and linear back-off it keeps on the
    request config, the classification of a failed request into an API error,
    and the merge of a partial retry configuration. Axios itself is replaced
    by the outcome of each issued request, given as a parameter. */
module HttpRetry {
  import opened Wrappers
  import opened Text

  /** The part of an HTTP error response the client looks at: the status and
      the `message` field of the body, if any. */
  datatype HttpResponse = HttpResponse(status: int, dataMessage: Option<string>)

  /** The request config; `retryCount` is `__retryCount`, absent until the
      first retry. */
  datatype RequestConfig = RequestConfig(retryCount: Option<int>)

  /** A rejected axios request: a response arrived, or the request was sent
      and nothing came back, or it was never sent. */
  datatype AxiosError = AxiosError(message: string, response: Option<HttpResponse>, requestSent: bool, config: Option<RequestConfig>)

  /** What the client's callers catch: `code` is absent for an `Error` raised
      by the callers themselves. */
  datatype ApiError = ApiError(code: Option<string>, message: string, status: Option<int>)

  datatype RetryConfig = RetryConfig(retries: int, retryDelay: int, retryCondition: Option<AxiosError -> bool>)

  /** Retry when nothing came back or the server failed (status 500 and up). */
  predicate DefaultRetryCondition(e: AxiosError) {
    e.response.None? || e.response.value.status >= 500
  }

  const DefaultRetryConfig: RetryConfig := RetryConfig(3, 1000, Some(DefaultRetryCondition))

  /** The default condition never retries a client error (a 4xx answer). */
  lemma DefaultConditionSkipsClientErrors(e: AxiosError)
    requires e.response.Some? && 400 <= e.response.value.status < 500
    ensures !DefaultRetryCondition(e)
  {
  }

  /** The configured condition, or `true` when none is set. */
  predicate ConditionHolds(rc: RetryConfig, e: AxiosError) {
    rc.retryCondition.None? || rc.retryCondition.value(e)
  }

  /** `shouldRetry`: no config, or a retry count already at `retries`, stops
      retrying; an absent count compares as false, so the first failure of a
      request is always eligible. */
  function ShouldRetry(rc: RetryConfig, e: AxiosError): (b: bool)
    ensures e.config.None? ==> !b
    ensures e.config.Some? && e.config.value.retryCount.Some? && e.config.value.retryCount.value >= rc.retries ==> !b
    ensures b <==> e.config.Some? && !(e.config.value.retryCount.Some? && e.config.value.retryCount.value >= rc.retries)
                   && ConditionHolds(rc, e)
  {
    if e.config.None? || (e.config.value.retryCount.Some? && e.config.value.retryCount.value >= rc.retries) then false
    else if rc.retryCondition.Some? then rc.retryCondition.value(e)
    else true
  }

  /** `retryRequest`: the count (taken as 0 when absent or 0) goes up by one
      and the request is re-issued after `retryDelay` times the new count. */
  function RetryRequest(rc: RetryConfig, e: AxiosError): (r: (RequestConfig, int))
    requires e.config.Some?
    ensures r.0.retryCount.Some?
    ensures r.0.retryCount.value == e.config.value.retryCount.GetOr(0) + 1
    ensures r.1 == RetryDelay(rc, r.0.retryCount.value)
  {
    var n := e.config.value.retryCount.GetOr(0) + 1;
    (RequestConfig(Some(n)), rc.retryDelay * n)
  }

  /** The wait before the `n`-th re-issue: linear back-off. */
  function RetryDelay(rc: RetryConfig, n: int): int {
    rc.retryDelay * n
  }

  const NetworkErrorMessage: string := "网络连接失败，请检查后端服务是否启动"

  /** `transformError`: an answered request becomes `HTTP_<status>` with the
      body's message preferred; a request sent without answer becomes
      NETWORK_ERROR with a fixed message; anything else UNKNOWN_ERROR. The
      code determines the class, and an HTTP code spells out the status. */
  function TransformError(e: AxiosError): (r: ApiError)
    ensures r.code.Some?
    ensures StartsWith(r.code.value, "HTTP_") <==> e.response.Some?
    ensures r.code.value == "NETWORK_ERROR" <==> e.response.None? && e.requestSent
    ensures r.code.value == "UNKNOWN_ERROR" <==> e.response.None? && !e.requestSent
    ensures r.status.Some? <==> e.response.Some?
    ensures e.response.Some? && e.response.value.status >= 0 ==>
      AllDigits(r.code.value[5..]) && DecimalValue(r.code.value[5..]) == e.response.value.status
    ensures e.response.Some? ==>
      r.message == if e.response.value.dataMessage.Some? && e.response.value.dataMessage.value != ""
                   then e.response.value.dataMessage.value else e.message
    ensures e.response.None? ==> r.message != ""
    ensures e.response.Some? ==> r.status == Some(e.response.value.status)
    ensures e.response.None? && e.requestSent ==> r.message == NetworkErrorMessage
    ensures e.response.None? && !e.requestSent ==> r.message == if e.message != "" then e.message else "未知错误"
  {
    if e.response.Some? then
      var s := e.response.value.status;
      var code := "HTTP_" + IntToString(s);
      assert code[..5] == "HTTP_";
      assert code[5..] == IntToString(s);
      var dm := e.response.value.dataMessage;
      ApiError(Some(code), if dm.Some? && dm.value != "" then dm.value else e.message, Some(s))
    else if e.requestSent then
      assert !StartsWith("NETWORK_ERROR", "HTTP_") by { assert "NETWORK_ERROR"[..5][0] == 'N'; }
      ApiError(Some("NETWORK_ERROR"), NetworkErrorMessage, None)
    else
      assert !StartsWith("UNKNOWN_ERROR", "HTTP_") by { assert "UNKNOWN_ERROR"[..5][0] == 'U'; }
      ApiError(Some("UNKNOWN_ERROR"), if e.message != "" then e.message else "未知错误", None)
  }

  /** Read through the error a caller finally sees, the default condition
      retries exactly the errors without an HTTP status and those with a
      status of 500 or more. */
  lemma DefaultConditionByTransformed(e: AxiosError)
    ensures DefaultRetryCondition(e) <==>
      var t := TransformError(e);
      t.status.None? || t.status.value >= 500
  {
  }

  /** A `Partial<RetryConfig>`: each present key overrides the current one. */
  datatype RetryUpdate = RetryUpdate(retries: Option<int>, retryDelay: Option<int>, retryCondition: Option<AxiosError -> bool>)

  /** `setRetryConfig`: the shallow merge `{ ...current, ...update }`. */
  function SetRetryConfig(cur: RetryConfig, u: RetryUpdate): (r: RetryConfig)
    ensures r.retries == u.retries.GetOr(cur.retries)
    ensures r.retryDelay == u.retryDelay.GetOr(cur.retryDelay)
    ensures forall e :: ConditionHolds(r, e) == if u.retryCondition.Some? then u.retryCondition.value(e) else ConditionHolds(cur, e)
  {
    RetryConfig(u.retries.GetOr(cur.retries), u.retryDelay.GetOr(cur.retryDelay),
                if u.retryCondition.Some? then u.retryCondition else cur.retryCondition)
  }

  /** The later of two partial updates wins key by key. */
  function Overlay(a: RetryUpdate, b: RetryUpdate): RetryUpdate {
    RetryUpdate(if b.retries.Some? then b.retries else a.retries,
                if b.retryDelay.Some? then b.retryDelay else a.retryDelay,
                if b.retryCondition.Some? then b.retryCondition else a.retryCondition)
  }

  /** Two merges in a row are one merge of the overlaid update, and an empty
      update changes nothing. */
  lemma SetRetryConfigComposes(cur: RetryConfig, a: RetryUpdate, b: RetryUpdate)
    ensures var r1 := SetRetryConfig(SetRetryConfig(cur, a), b);
      var r2 := SetRetryConfig(cur, Overlay(a, b));
      r1.retries == r2.retries && r1.retryDelay == r2.retryDelay
      && forall e :: ConditionHolds(r1, e) == ConditionHolds(r2, e)
    ensures var r := SetRetryConfig(cur, RetryUpdate(None, None, None));
      r.retries == cur.retries && r.retryDelay == cur.retryDelay
      && forall e :: ConditionHolds(r, e) == ConditionHolds(cur, e)
  {
  }

  // ---- a request from first attempt to final outcome ----

  /** What one issued request does: answers with a success status, or fails. */
  datatype Attempt = Answered(status: int) | Errored(message: string, response: Option<HttpResponse>, requestSent: bool)

  /** The largest number of re-issues: `retries`, but at least one. */
  function MaxRetries(rc: RetryConfig): nat {
    if rc.retries > 1 then rc.retries else 1
  }

  /** The error the interceptor sees for the request issued after `issued`
      retries. */
  function ErrorOf(a: Attempt, issued: nat): AxiosError
    requires a.Errored?
  {
    AxiosError(a.message, a.response, a.requestSent, Some(RequestConfig(if issued == 0 then None else Some(issued))))
  }

  /** The error a caller receives when the request issued after `issued`
      retries fails and is not re-issued. */
  function Rejection(a: Attempt, issued: nat): ApiError
    requires a.Errored?
  {
    TransformError(ErrorOf(a, issued))
  }

  /** The `n` waits of linear back-off starting with the `from`-th re-issue. */
  function Backoff(rc: RetryConfig, from: int, n: nat): (ds: seq<int>)
    ensures |ds| == n
    decreases n
  {
    if n == 0 then [] else [RetryDelay(rc, from)] + Backoff(rc, from + 1, n - 1)
  }

  /** The `i`-th wait is `retryDelay` times its re-issue number. */
  lemma {:induction false} BackoffAt(rc: RetryConfig, from: int, n: nat, i: nat)
    requires i < n
    ensures Backoff(rc, from, n)[i] == rc.retryDelay * (from + i)
    decreases n
  {
    if i > 0 {
      BackoffAt(rc, from + 1, n - 1, i - 1);
    }
  }

  /** The final outcome of a request, the delays waited before each
      re-issue, and the number of the issue that decided the outcome. */
  datatype RunResult = RunResult(outcome: Result<int, ApiError>, delays: seq<int>, last: nat)

  /** The request issued after `issued` retries and everything after it:
      `attempt(k)` is what the `k`-th issue (from 0) does. */
  function Run(rc: RetryConfig, attempt: nat -> Attempt, issued: nat): (r: RunResult)
    requires issued <= MaxRetries(rc)
    ensures r.last == issued + |r.delays| <= MaxRetries(rc)
    ensures r.delays == Backoff(rc, issued + 1, |r.delays|)
    ensures forall k | issued <= k < r.last :: attempt(k).Errored? && ShouldRetry(rc, ErrorOf(attempt(k), k))
    ensures r.outcome.Success? <==> attempt(r.last).Answered?
    ensures r.outcome.Success? ==> r.outcome.value == attempt(r.last).status
    ensures r.outcome.Failure? ==> r.outcome.error == Rejection(attempt(r.last), r.last)
    ensures r.outcome.Failure? ==> !ShouldRetry(rc, ErrorOf(attempt(r.last), r.last))
    decreases MaxRetries(rc) - issued
  {
    var a := attempt(issued);
    if a.Answered? then RunResult(Success(a.status), [], issued)
    else
      var e := ErrorOf(a, issued);
      if ShouldRetry(rc, e) then
        assert issued + 1 <= MaxRetries(rc);
        var delay := RetryRequest(rc, e).1;
        var rest := Run(rc, attempt, issued + 1);
        RetryStep(rc, attempt, issued, delay, rest);
        RunResult(rest.outcome, [delay] + rest.delays, rest.last)
      else RunResult(Failure(Rejection(a, issued)), [], issued)
  }

  /** `r` accounts for the request issued after `issued` retries: the
      contract of `Run`. */
  predicate Explains(rc: RetryConfig, attempt: nat -> Attempt, issued: nat, r: RunResult) {
    && r.last == issued + |r.delays| <= MaxRetries(rc)
    && r.delays == Backoff(rc, issued + 1, |r.delays|)
    && (forall k | issued <= k < r.last :: attempt(k).Errored? && ShouldRetry(rc, ErrorOf(attempt(k), k)))
    && (r.outcome.Success? <==> attempt(r.last).Answered?)
    && (r.outcome.Success? ==> r.outcome.value == attempt(r.last).status)
    && (r.outcome.Failure? ==> r.outcome.error == Rejection(attempt(r.last), r.last))
    && (r.outcome.Failure? ==> !ShouldRetry(rc, ErrorOf(attempt(r.last), r.last)))
  }

  /** A failed issue followed by a wait and a run that accounts for the
      next issue accounts for this one. */
  lemma RetryStep(rc: RetryConfig, attempt: nat -> Attempt, issued: nat, delay: int, rest: RunResult)
    requires attempt(issued).Errored? && ShouldRetry(rc, ErrorOf(attempt(issued), issued))
    requires delay == RetryDelay(rc, issued + 1)
    requires Explains(rc, attempt, issued + 1, rest)
    ensures Explains(rc, attempt, issued, RunResult(rest.outcome, [delay] + rest.delays, rest.last))
  {
    assert Backoff(rc, issued + 1, 1 + |rest.delays|) == [delay] + rest.delays;
  }

  /** A request from its first issue: every issue before the deciding one
      failed with an error the retry rule accepted, the `i`-th wait is
      `retryDelay` times `i + 1`, and the deciding issue either answered or
      failed with an error the rule rejected. */
  function Request(rc: RetryConfig, attempt: nat -> Attempt): (r: RunResult)
    ensures |r.delays| <= MaxRetries(rc) && r.last == |r.delays|
    ensures forall i | 0 <= i < |r.delays| :: r.delays[i] == rc.retryDelay * (i + 1)
    ensures forall k | 0 <= k < r.last :: attempt(k).Errored? && ShouldRetry(rc, ErrorOf(attempt(k), k))
    ensures r.outcome.Success? <==> attempt(r.last).Answered?
    ensures r.outcome.Success? ==> r.outcome.value == attempt(r.last).status
    ensures r.outcome.Failure? ==> r.outcome.error == Rejection(attempt(r.last), r.last)
    ensures r.outcome.Failure? ==> !ShouldRetry(rc, ErrorOf(attempt(r.last), r.last))
  {
    var r := Run(rc, attempt, 0);
    forall i | 0 <= i < |r.delays|
      ensures r.delays[i] == rc.retryDelay * (i + 1)
    {
      BackoffAt(rc, 1, |r.delays|, i);
    }
    r
  }

  /** Under the default configuration a request whose every issue gets no
      answer is re-issued exactly three times, after 1, 2 and 3 seconds, and
      then fails as a network error. */
  lemma {:induction false} DefaultGivesUpAfterThreeRetries(attempt: nat -> Attempt)
    requires forall k :: attempt(k).Errored? && attempt(k).response.None? && attempt(k).requestSent
    ensures Request(DefaultRetryConfig, attempt).delays == [1000, 2000, 3000]
    ensures Request(DefaultRetryConfig, attempt).outcome == Failure(ApiError(Some("NETWORK_ERROR"), NetworkErrorMessage, None))
  {
    var rc := DefaultRetryConfig;
    assert attempt(0).Errored? && attempt(1).Errored? && attempt(2).Errored? && attempt(3).Errored?;
    assert ShouldRetry(rc, ErrorOf(attempt(0), 0));
    assert ShouldRetry(rc, ErrorOf(attempt(1), 1));
    assert ShouldRetry(rc, ErrorOf(attempt(2), 2));
    assert !ShouldRetry(rc, ErrorOf(attempt(3), 3));
    assert Run(rc, attempt, 3).delays == [];
    assert Run(rc, attempt, 3).last == 3;
    assert Run(rc, attempt, 2).delays == [3000];
    assert Run(rc, attempt, 1).delays == [2000, 3000];
    assert Run(rc, attempt, 0).delays == [1000, 2000, 3000];
  }

  /** Under the default configuration a 4xx answer is never re-issued. */
  lemma DefaultDoesNotRetryClientErrors(attempt: nat -> Attempt)
    requires attempt(0).Errored? && attempt(0).response.Some?
    requires 400 <= attempt(0).response.value.status < 500
    ensures Request(DefaultRetryConfig, attempt) == RunResult(Failure(TransformError(ErrorOf(attempt(0), 0))), [], 0)
  {
    assert !ShouldRetry(DefaultRetryConfig, ErrorOf(attempt(0), 0));
  }

  /** With `retries` set to 0 or less, a retryable failure is still re-issued
      once: the absent count of a first failure never reaches the limit. */
  lemma NonPositiveRetriesStillRetryOnce(rc: RetryConfig, attempt: nat -> Attempt)
    requires rc.retries <= 0 && rc.retryCondition.None?
    requires attempt(0).Errored? && attempt(1).Errored?
    ensures |Request(rc, attempt).delays| == 1
  {
    assert ShouldRetry(rc, ErrorOf(attempt(0), 0));
    assert !ShouldRetry(rc, ErrorOf(attempt(1), 1));
  }
}
