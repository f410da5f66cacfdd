/** The client's search store: the current results and keyword, the loading
    and error state of the last search, and the search history with its
    derived views (`recentKeywords`, `searchStats`). The clock is a
    parameter and the search call is the `SearchApi` wrapper applied to a
    server parameter; persistence to local storage is not modelled. */
module SearchStore {
  import opened Wrappers
  import opened Text
  import opened Seqs
  import SearchApi
  import HttpRetry

  datatype HistoryItem = HistoryItem(keyword: string, timestamp: int, resultsCount: nat)

  datatype SearchError = SearchError(code: string, message: string)

  datatype ErrorState = ErrorState(hasError: bool, error: Option<SearchError>, retryCount: int)

  datatype LoadingState = LoadingState(isLoading: bool, loadingText: string)

  datatype SearchState = SearchState(
    results: seq<SearchApi.BookItem>,
    currentKeyword: string,
    loading: LoadingState,
    error: ErrorState,
    history: seq<HistoryItem>)

  const HistoryCap: nat := 50
  const RecentCount: nat := 10

  // ---- history ----

  /** The index of the first entry carrying `keyword` (`findIndex`). */
  function FindKeyword(h: seq<HistoryItem>, keyword: string): (r: Option<nat>)
    ensures r.Some? ==> r.value < |h| && h[r.value].keyword == keyword
                        && forall k | 0 <= k < r.value :: h[k].keyword != keyword
    ensures r.None? ==> forall k | 0 <= k < |h| :: h[k].keyword != keyword
  {
    if |h| == 0 then None
    else if h[0].keyword == keyword then Some(0)
    else match FindKeyword(h[1..], keyword)
      case None => None
      case Some(j) => Some(j + 1)
  }

  /** No keyword occurs twice. */
  predicate UniqueKeywords(h: seq<HistoryItem>) {
    forall i, j | 0 <= i < j < |h| :: h[i].keyword != h[j].keyword
  }

  /** `addToHistory`: an existing keyword's first entry is replaced in place
      by a fresh one; a new keyword is put in front and the list is cut to
      its first 50 entries. */
  function AddToHistory(h: seq<HistoryItem>, keyword: string, resultsCount: nat, now: int): (r: seq<HistoryItem>)
    ensures var item := HistoryItem(keyword, now, resultsCount);
      match FindKeyword(h, keyword)
      case Some(i) => r == h[i := item]
      case None => |r| == (if |h| + 1 > HistoryCap then HistoryCap else |h| + 1)
                   && r[0] == item && r[1..] == h[..|r| - 1]
    ensures |h| <= HistoryCap ==> |r| <= HistoryCap
    ensures |r| <= if |h| > HistoryCap then |h| else HistoryCap
    ensures exists i | 0 <= i < |r| :: r[i] == HistoryItem(keyword, now, resultsCount)
  {
    var item := HistoryItem(keyword, now, resultsCount);
    match FindKeyword(h, keyword)
    case Some(i) =>
      var r := h[i := item];
      assert r[i] == item;
      r
    case None =>
      var r := [item] + h;
      assert r[0] == item;
      if |r| > HistoryCap then r[..HistoryCap] else r
  }

  /** Adding keeps keywords unique when they were unique before. */
  lemma AddToHistoryKeepsUnique(h: seq<HistoryItem>, keyword: string, resultsCount: nat, now: int)
    requires UniqueKeywords(h)
    ensures UniqueKeywords(AddToHistory(h, keyword, resultsCount, now))
  {
    var r := AddToHistory(h, keyword, resultsCount, now);
    match FindKeyword(h, keyword)
    case Some(i) =>
    case None =>
      forall a, b | 0 <= a < b < |r|
        ensures r[a].keyword != r[b].keyword
      {
        assert r[b] == h[b - 1];
        if a > 0 {
          assert r[a] == h[a - 1];
        }
      }
  }

  /** `removeFromHistory`: drops every entry with the keyword, keeping order. */
  function RemoveFromHistory(h: seq<HistoryItem>, keyword: string): (r: seq<HistoryItem>)
    ensures forall x | x in r :: x in h && x.keyword != keyword
    ensures forall i | 0 <= i < |h| && h[i].keyword != keyword :: h[i] in r
    ensures IsSubsequence(r, h)
    ensures forall x :: multiset(r)[x] == if x.keyword != keyword then multiset(h)[x] else 0
  {
    FilterIsSubsequence(h, (x: HistoryItem) => x.keyword != keyword);
    assert forall x :: multiset(Filter(h, (x: HistoryItem) => x.keyword != keyword))[x] == if ((x: HistoryItem) => x.keyword != keyword)(x) then multiset(h)[x] else 0 by {
      forall x { FilterCount(h, (x: HistoryItem) => x.keyword != keyword, x); }
    }
    Filter(h, (x: HistoryItem) => x.keyword != keyword)
  }

  /** Removing then adding a keyword puts it in front. */
  lemma RemoveThenAddPrepends(h: seq<HistoryItem>, keyword: string, resultsCount: nat, now: int)
    ensures var r := AddToHistory(RemoveFromHistory(h, keyword), keyword, resultsCount, now);
      r[0] == HistoryItem(keyword, now, resultsCount)
  {
    var h' := RemoveFromHistory(h, keyword);
    forall k | 0 <= k < |h'|
      ensures h'[k].keyword != keyword
    {
      assert h'[k] in h';
    }
  }

  // ---- recentKeywords ----

  /** Non-increasing timestamps: the order `sort((a, b) => b.timestamp - a.timestamp)` produces. */
  predicate NewestFirst(h: seq<HistoryItem>) {
    forall i, j | 0 <= i < j < |h| :: h[i].timestamp >= h[j].timestamp
  }

  /** The entries stamped `t`, in their order in `h`. */
  function SameTime(h: seq<HistoryItem>, t: int): seq<HistoryItem> {
    if |h| == 0 then []
    else (if h[0].timestamp == t then [h[0]] else []) + SameTime(h[1..], t)
  }

  /** Inserts `x` before the first entry that is not newer than it, so `x`
      leads the entries that share its timestamp. */
  function InsertByTime(x: HistoryItem, s: seq<HistoryItem>): (r: seq<HistoryItem>)
    requires NewestFirst(s)
    ensures NewestFirst(r)
    ensures multiset(r) == multiset(s) + multiset{x}
    ensures |r| == |s| + 1
    ensures forall t :: SameTime(r, t) == (if x.timestamp == t then [x] else []) + SameTime(s, t)
  {
    if |s| == 0 || x.timestamp >= s[0].timestamp then
      var r := [x] + s;
      assert r[1..] == s;
      r
    else
      var rest := InsertByTime(x, s[1..]);
      InsertBehindNewer(x, s, rest);
      var r := [s[0]] + rest;
      assert r[1..] == rest;
      r
  }

  lemma InsertBehindNewer(x: HistoryItem, s: seq<HistoryItem>, rest: seq<HistoryItem>)
    requires |s| > 0 && NewestFirst(s) && x.timestamp < s[0].timestamp
    requires NewestFirst(rest) && multiset(rest) == multiset(s[1..]) + multiset{x}
    ensures NewestFirst([s[0]] + rest)
    ensures multiset([s[0]] + rest) == multiset(s) + multiset{x}
  {
    assert s == [s[0]] + s[1..];
    forall j | 0 <= j < |rest|
      ensures rest[j].timestamp <= s[0].timestamp
    {
      var y := rest[j];
      assert y in multiset(rest);
      if y != x {
        assert y in s[1..];
      }
    }
  }

  /** The stable sort on timestamps, newest first: entries that share a
      timestamp keep their relative order. */
  function SortNewestFirst(h: seq<HistoryItem>): (r: seq<HistoryItem>)
    ensures NewestFirst(r)
    ensures multiset(r) == multiset(h)
    ensures |r| == |h|
    ensures forall t :: SameTime(r, t) == SameTime(h, t)
  {
    if |h| == 0 then []
    else
      assert h == [h[0]] + h[1..];
      InsertByTime(h[0], SortNewestFirst(h[1..]))
  }

  function Keywords(h: seq<HistoryItem>): (r: seq<string>)
    ensures |r| == |h| && forall i | 0 <= i < |h| :: r[i] == h[i].keyword
  {
    seq(|h|, i requires 0 <= i < |h| => h[i].keyword)
  }

  /** `recentKeywords`: the history is sorted newest first in place, and the
      keywords of its first ten entries are reported. */
  function RecentKeywords(h: seq<HistoryItem>): (r: (seq<HistoryItem>, seq<string>))
    ensures NewestFirst(r.0) && multiset(r.0) == multiset(h) && |r.0| == |h|
    ensures forall t :: SameTime(r.0, t) == SameTime(h, t)
    ensures |r.1| == if |h| < RecentCount then |h| else RecentCount
    ensures forall i | 0 <= i < |r.1| :: r.1[i] == r.0[i].keyword
  {
    var sorted := SortNewestFirst(h);
    (sorted, Keywords(JsSlice(sorted, 0, RecentCount as int)))
  }

  /** Every reported keyword is at least as recent as any entry not reported. */
  lemma RecentKeywordsAreNewest(h: seq<HistoryItem>, i: nat, j: nat)
    requires i < |RecentKeywords(h).1| <= j < |h|
    ensures var sorted := RecentKeywords(h).0;
      sorted[i].timestamp >= sorted[j].timestamp
  {
  }

  // ---- searchStats ----

  function SumResults(h: seq<HistoryItem>): nat {
    if |h| == 0 then 0 else h[0].resultsCount + SumResults(h[1..])
  }

  datatype SearchStats = SearchStats(totalSearches: nat, totalResults: nat, averageResults: nat)

  /** `Math.round(sum / n)` for natural numbers: halves round up. */
  function RoundedMean(sum: nat, n: nat): (r: nat)
    requires n > 0
    ensures 2 * n * r <= 2 * sum + n < 2 * n * r + 2 * n
  {
    (2 * sum + n) / (2 * n)
  }

  /** `searchStats`: counts, and the rounded mean result count (0 for an
      empty history). */
  function Stats(s: SearchState): (r: SearchStats)
    ensures r.totalSearches == |s.history| && r.totalResults == |s.results|
    ensures |s.history| == 0 ==> r.averageResults == 0
    ensures |s.history| > 0 ==>
      2 * |s.history| * r.averageResults <= 2 * SumResults(s.history) + |s.history| < 2 * |s.history| * (r.averageResults + 1)
  {
    SearchStats(|s.history|, |s.results|,
                if |s.history| > 0 then RoundedMean(SumResults(s.history), |s.history|) else 0)
  }

  // ---- loading and error state ----

  /** `setLoading`: a missing or empty text is stored as ''. */
  function SetLoading(s: SearchState, isLoading: bool, text: Option<string>): (r: SearchState)
    ensures r == s.(loading := LoadingState(isLoading, text.GetOr("")))
  {
    s.(loading := LoadingState(isLoading, OrString(text, "")))
  }

  /** `setError`: records the error and counts one more attempt. */
  function SetError(s: SearchState, e: SearchError): (r: SearchState)
    ensures r.error.hasError && r.error.error == Some(e)
    ensures r.error.retryCount == s.error.retryCount + 1
    ensures r.(error := s.error) == s
  {
    s.(error := ErrorState(true, Some(e), s.error.retryCount + 1))
  }

  const NoError: ErrorState := ErrorState(false, None, 0)

  /** `clearError`: no error, no attempts counted. */
  function ClearError(s: SearchState): (r: SearchState)
    ensures !r.error.hasError && r.error.retryCount == 0
    ensures r.error.error.None?
    ensures r.(error := s.error) == s
  {
    s.(error := NoError)
  }

  /** Consecutive errors count up; a clear starts over. */
  lemma ErrorsCount(s: SearchState, e1: SearchError, e2: SearchError)
    ensures SetError(SetError(s, e1), e2).error.retryCount == s.error.retryCount + 2
    ensures SetError(ClearError(s), e1).error.retryCount == 1
  {
  }

  // ---- performSearch ----

  const SearchErrorCode: string := "SEARCH_ERROR"
  const ServiceFailedMessage: string := "搜索失败"
  const SearchFallbackMessage: string := "搜索失败，请稍后重试"

  /** The text shown while a search runs, with the keyword as typed. */
  function SearchingText(keyword: string): string {
    "正在搜索\"" + keyword + "\"..."
  }

  /** The state while the search call is pending. */
  function BeginSearch(s: SearchState, keyword: string): (r: SearchState)
    ensures r.loading == LoadingState(true, SearchingText(keyword))
    ensures r.error == NoError && r.currentKeyword == JsTrim(keyword)
    ensures r.results == s.results && r.history == s.history
  {
    var s1 := SetLoading(s, true, Some(SearchingText(keyword)));
    ClearError(s1).(currentKeyword := JsTrim(keyword))
  }

  /** Handling the wrapper's outcome, then clearing the loading state. */
  function FinishSearch(s: SearchState, outcome: Result<SearchApi.SearchResponse, SearchApi.SearchFailure>, now: int): (r: SearchState)
    ensures r.loading == LoadingState(false, "")
    ensures r.currentKeyword == s.currentKeyword
    ensures outcome.Success? && outcome.value.status == "success" ==>
      && r.results == outcome.value.data && r.error == NoError
      && r.history == AddToHistory(s.history, s.currentKeyword, |outcome.value.data|, now)
    ensures !(outcome.Success? && outcome.value.status == "success") ==>
      && r.results == [] && r.error.hasError && r.error.retryCount == s.error.retryCount + 1
      && r.error.error.Some? && r.error.error.value.code == SearchErrorCode
      && r.error.error.value.message != ""
      && r.history == s.history
    ensures outcome.Success? && outcome.value.status != "success" ==>
      r.error.error == Some(SearchError(SearchErrorCode, OrString(Some(outcome.value.message), ServiceFailedMessage)))
    ensures outcome.Failure? ==>
      r.error.error == Some(SearchError(SearchErrorCode, OrString(Some(outcome.error.message), SearchFallbackMessage)))
  {
    var s2 := match outcome
      case Success(resp) =>
        if resp.status == "success" then
          var s1 := s.(results := resp.data);
          ClearError(s1.(history := AddToHistory(s1.history, s1.currentKeyword, |resp.data|, now)))
        else
          var msg := OrString(Some(OrString(Some(resp.message), ServiceFailedMessage)), SearchFallbackMessage);
          SetError(s, SearchError(SearchErrorCode, msg)).(results := [])
      case Failure(f) =>
        SetError(s, SearchError(SearchErrorCode, OrString(Some(f.message), SearchFallbackMessage))).(results := []);
    SetLoading(s2, false, None)
  }

  /** `performSearch`: a blank keyword only clears the error; otherwise the
      trimmed keyword is searched, and the outcome decides results, history
      and error state. */
  function PerformSearch(s: SearchState, keyword: string, server: string -> Result<SearchApi.SearchReply, HttpRetry.ApiError>, now: int): (r: SearchState)
    ensures JsTrim(keyword) == "" ==> r == ClearError(s)
    ensures JsTrim(keyword) != "" ==>
      && r.loading == LoadingState(false, "")
      && r.currentKeyword == JsTrim(keyword)
  {
    if JsTrim(keyword) == "" then ClearError(s)
    else
      var s1 := BeginSearch(s, keyword);
      FinishSearch(s1, SearchApi.SearchBooks(s1.currentKeyword, server), now)
  }

  /** What a search that started from `s` leaves behind, given the wrapper's
      outcome: a failed search leaves no results, the SEARCH_ERROR code,
      exactly one counted attempt (the error was cleared first) and an
      unchanged history; a successful one records the keyword in the history
      and clears the error. */
  predicate Settled(s: SearchState, keyword: string, outcome: Result<SearchApi.SearchResponse, SearchApi.SearchFailure>,
                    now: int, r: SearchState)
  {
    if outcome.Success? && outcome.value.status == "success" then
      && r.results == outcome.value.data && r.error == NoError
      && r.history == AddToHistory(s.history, keyword, |outcome.value.data|, now)
    else
      && r.results == [] && r.error.hasError && r.error.retryCount == 1
      && r.error.error.Some? && r.error.error.value.code == SearchErrorCode
      && r.error.error.value.message != ""
      && r.history == s.history
  }

  /** Beginning and finishing a search settles it, whatever the outcome. */
  lemma BeginThenFinish(s: SearchState, keyword: string, outcome: Result<SearchApi.SearchResponse, SearchApi.SearchFailure>, now: int)
    ensures Settled(s, JsTrim(keyword), outcome, now, FinishSearch(BeginSearch(s, keyword), outcome, now))
  {
  }

  /** A search with a non-blank keyword is settled by the wrapper's outcome
      for the trimmed keyword. */
  lemma PerformSearchOutcome(s: SearchState, keyword: string, server: string -> Result<SearchApi.SearchReply, HttpRetry.ApiError>, now: int)
    requires JsTrim(keyword) != ""
    ensures Settled(s, JsTrim(keyword), SearchApi.SearchBooks(JsTrim(keyword), server), now,
                    PerformSearch(s, keyword, server, now))
  {
    var outcome := SearchApi.SearchBooks(JsTrim(keyword), server);
    BeginThenFinish(s, keyword, outcome, now);
  }
}
