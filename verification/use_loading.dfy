/** The loading-state composables: a local loading indicator (start, update,
    stop, error, and the `withLoading` wrapper), the global indicator shared
    by concurrent requests through a counter, and paginated loading on top
    of the local indicator. Timers become explicit events: `stop` reports
    how long its deferred reset waits, and the 300 ms stop scheduled by
    `withLoading` is a separate step. */
module UseLoading {
  import opened Wrappers
  import opened Text

  datatype LoaderType = Spinner | Pulse | Skeleton | Dots | Wave | Orbit

  // ---- useLoading ----

  datatype LocalLoading = LocalLoading(
    loading: bool,
    progress: int,
    text: string,
    kind: LoaderType,
    error: string,
    startTime: int)

  function InitialLocal(initialState: bool): LocalLoading {
    LocalLoading(initialState, 0, "", Spinner, "", 0)
  }

  /** `start`: loading from zero progress with no error; a missing or empty
      text becomes '' and a missing type the spinner. */
  function Start(s: LocalLoading, text: Option<string>, kind: Option<LoaderType>, now: int): (r: LocalLoading)
    ensures r.loading && r.progress == 0 && r.error == ""
    ensures r.kind == kind.GetOr(Spinner)
    ensures text.Some? ==> r.text == text.value
    ensures text.None? ==> r.text == ""
    ensures r.startTime == now
  {
    LocalLoading(true, 0, OrString(text, ""), kind.GetOr(Spinner), "", now)
  }

  /** `Math.min(100, Math.max(0, p))`. */
  function ClampProgress(p: int): (r: int)
    ensures 0 <= r <= 100
    ensures 0 <= p <= 100 ==> r == p
    ensures p < 0 ==> r == 0
    ensures p > 100 ==> r == 100
  {
    if p < 0 then 0 else if p > 100 then 100 else p
  }

  /** `update`: progress is clamped into [0, 100]; the text changes only for
      a non-empty new text; nothing else changes. */
  function Update(s: LocalLoading, progress: Option<int>, text: Option<string>): (r: LocalLoading)
    ensures progress.Some? ==> 0 <= r.progress <= 100
    ensures progress.None? ==> r.progress == s.progress
    ensures progress.Some? && 0 <= progress.value <= 100 ==> r.progress == progress.value
    ensures progress.Some? && progress.value < 0 ==> r.progress == 0
    ensures progress.Some? && progress.value > 100 ==> r.progress == 100
    ensures r.text == OrString(text, s.text)
    ensures r.(progress := s.progress, text := s.text) == s
  {
    s.(progress := if progress.Some? then ClampProgress(progress.value) else s.progress,
       text := OrString(text, s.text))
  }

  /** Progress stays in range under any sequence of updates once it is. */
  lemma UpdateKeepsProgressInRange(s: LocalLoading, progress: Option<int>, text: Option<string>)
    requires 0 <= s.progress <= 100
    ensures 0 <= Update(s, progress, text).progress <= 100
  {
  }

  const MinVisible: int := 500

  /** The reset `stop` applies, at once or after its delay. */
  function StopReset(s: LocalLoading): (r: LocalLoading)
    ensures !r.loading && r.progress == 0 && r.text == ""
    ensures r.error == s.error && r.kind == s.kind
  {
    s.(loading := false, progress := 0, text := "")
  }

  /** `stop` at time `now`: within 500 ms of the start the reset is deferred
      by the remaining time (the state is unchanged for now); otherwise it
      happens at once. */
  function Stop(s: LocalLoading, now: int): (r: (LocalLoading, Option<int>))
    ensures now - s.startTime < MinVisible ==>
      r.0 == s && r.1.Some? && r.1.value == MinVisible - (now - s.startTime) && r.1.value > 0
    ensures now - s.startTime >= MinVisible ==> r.0 == StopReset(s) && r.1.None?
  {
    var elapsed := now - s.startTime;
    if elapsed < MinVisible then (s, Some(MinVisible - elapsed)) else (StopReset(s), None)
  }

  /** `setError`: the message is stored and loading ends; progress and text stay. */
  function SetError(s: LocalLoading, message: string): (r: LocalLoading)
    ensures r.error == message && !r.loading
    ensures r.(error := s.error, loading := s.loading) == s
  {
    s.(error := message, loading := false)
  }

  /** After `withLoading` has awaited its function: the state, and whether the
      300 ms stop timer was scheduled. */
  datatype Awaited = Awaited(state: LocalLoading, stopScheduled: bool)

  const DefaultLoadingText: string := "加载中..."

  /** `withLoading`: starts with the given text or '加载中...', then either
      completes the progress and schedules the stop, or records the error
      (which is rethrown). */
  function WithLoading<T>(s: LocalLoading, text: Option<string>, kind: Option<LoaderType>, outcome: Result<T, string>, now: int): (r: Awaited)
    ensures r.stopScheduled <==> outcome.Success?
    ensures outcome.Success? ==> r.state.loading && r.state.progress == 100 && r.state.error == ""
    ensures outcome.Success? ==> r.state.text == OrString(text, DefaultLoadingText)
    ensures outcome.Failure? ==> !r.state.loading && r.state.error == outcome.error && r.state.progress == 0
  {
    var started := Start(s, Some(OrString(text, DefaultLoadingText)), Some(kind.GetOr(Spinner)), now);
    match outcome
    case Success(_) => Awaited(Update(started, Some(100), None), true)
    case Failure(msg) => Awaited(SetError(started, msg), false)
  }

  // ---- createGlobalLoading ----

  /** The reactive `LoadingState`; `error` is `None` while the optional key
      is absent, as it is initially. */
  datatype GlobalState = GlobalState(isLoading: bool, progress: int, text: string, kind: LoaderType, error: Option<string>)

  datatype GlobalLoading = GlobalLoading(state: GlobalState, activeRequests: nat)

  /** A `Partial<LoadingState>`: each present key is assigned. */
  datatype LoadingOptions = LoadingOptions(isLoading: Option<bool>, progress: Option<int>, text: Option<string>, kind: Option<LoaderType>, error: Option<string>)

  const NoOptions: LoadingOptions := LoadingOptions(None, None, None, None, None)

  const InitialGlobal: GlobalLoading := GlobalLoading(GlobalState(false, 0, "", Spinner, None), 0)

  /** The indicator shows loading exactly while a request is active. */
  predicate GlobalInv(g: GlobalLoading) {
    g.state.isLoading <==> g.activeRequests > 0
  }

  /** `start`: one more active request; only the first one initialises the
      state (a zero or missing progress becomes 0, a missing text '', a
      missing type the spinner; `error` is neither read nor reset). */
  function GlobalStart(g: GlobalLoading, o: LoadingOptions): (r: GlobalLoading)
    ensures r.activeRequests == g.activeRequests + 1
    ensures g.activeRequests == 0 ==>
      r.state == GlobalState(true, o.progress.GetOr(0), OrString(o.text, ""), o.kind.GetOr(Spinner), g.state.error)
    ensures g.activeRequests > 0 ==> r.state == g.state
  {
    var n := g.activeRequests + 1;
    if n == 1 then
      GlobalLoading(g.state.(isLoading := true, progress := if o.progress.Some? && o.progress.value != 0 then o.progress.value else 0,
                             text := OrString(o.text, ""), kind := o.kind.GetOr(Spinner)), n)
    else g.(activeRequests := n)
  }

  /** `stop`: one fewer active request, never below zero; at zero the state
      is cleared (the type is kept). */
  function GlobalStop(g: GlobalLoading): (r: GlobalLoading)
    ensures r.activeRequests == if g.activeRequests > 0 then g.activeRequests - 1 else 0
    ensures r.activeRequests == 0 ==>
      && !r.state.isLoading && r.state.progress == 0 && r.state.text == ""
      && r.state.kind == g.state.kind && r.state.error == g.state.error
    ensures r.activeRequests > 0 ==> r.state == g.state
  {
    var n := if g.activeRequests > 0 then g.activeRequests - 1 else 0;
    if n == 0 then GlobalLoading(g.state.(isLoading := false, progress := 0, text := ""), n)
    else g.(activeRequests := n)
  }

  /** `update`: `Object.assign` of the options, only while loading; every
      key present in the options is copied, `error` included. */
  function GlobalUpdate(g: GlobalLoading, o: LoadingOptions): (r: GlobalLoading)
    ensures !g.state.isLoading ==> r == g
    ensures r.activeRequests == g.activeRequests
    ensures g.state.isLoading ==>
      r.state == GlobalState(o.isLoading.GetOr(true), o.progress.GetOr(g.state.progress),
                             o.text.GetOr(g.state.text), o.kind.GetOr(g.state.kind),
                             if o.error.Some? then o.error else g.state.error)
  {
    if g.state.isLoading then
      g.(state := GlobalState(o.isLoading.GetOr(g.state.isLoading), o.progress.GetOr(g.state.progress),
                              o.text.GetOr(g.state.text), o.kind.GetOr(g.state.kind),
                              if o.error.Some? then o.error else g.state.error))
    else g
  }

  /** The invariant holds initially and is kept by start, stop, and every
      update that does not assign `isLoading`. */
  lemma GlobalInvPreserved(g: GlobalLoading, o: LoadingOptions)
    requires GlobalInv(g)
    ensures GlobalInv(InitialGlobal)
    ensures GlobalInv(GlobalStart(g, o))
    ensures GlobalInv(GlobalStop(g))
    ensures o.isLoading.None? ==> GlobalInv(GlobalUpdate(g, o))
  {
  }

  /** An update assigning `isLoading: false` breaks the invariant while a
      request is still active. */
  lemma GlobalUpdateCanBreakInv()
    ensures var g := GlobalStart(InitialGlobal, NoOptions);
      GlobalInv(g) && !GlobalInv(GlobalUpdate(g, NoOptions.(isLoading := Some(false))))
  {
  }

  /** `n` starts followed by `n` stops return to the idle state. */
  lemma {:induction false} BalancedStartsAndStops(g: GlobalLoading, o: LoadingOptions, n: nat)
    requires GlobalInv(g)
    ensures StopN(StartN(g, o, n), n).activeRequests == g.activeRequests
    ensures GlobalInv(StopN(StartN(g, o, n), n))
    decreases n
  {
    if n > 0 {
      BalancedStartsAndStops(GlobalStart(g, o), o, n - 1);
      StartNStep(g, o, n);
      StopNStep(StartN(g, o, n), n);
    }
  }

  function StartN(g: GlobalLoading, o: LoadingOptions, n: nat): (r: GlobalLoading)
    ensures r.activeRequests == g.activeRequests + n
    ensures GlobalInv(g) ==> GlobalInv(r)
    decreases n
  {
    if n == 0 then g else StartN(GlobalStart(g, o), o, n - 1)
  }

  function StopN(g: GlobalLoading, n: nat): (r: GlobalLoading)
    ensures r.activeRequests == if g.activeRequests > n then g.activeRequests - n else 0
    ensures GlobalInv(g) ==> GlobalInv(r)
    decreases n
  {
    if n == 0 then g else StopN(GlobalStop(g), n - 1)
  }

  lemma StartNStep(g: GlobalLoading, o: LoadingOptions, n: nat)
    requires n > 0
    ensures StartN(g, o, n) == StartN(GlobalStart(g, o), o, n - 1)
  {
  }

  lemma StopNStep(g: GlobalLoading, n: nat)
    requires n > 0
    ensures StopN(g, n) == StopN(GlobalStop(g), n - 1)
  {
  }

  // ---- usePaginatedLoading ----

  datatype Paged<T> = Paged(items: seq<T>, loading: LocalLoading, hasMore: bool, page: int)

  datatype PageResult<T> = PageResult(items: seq<T>, hasMore: bool)

  function InitialPaged<T>(): Paged<T> {
    Paged([], InitialLocal(false), true, 1)
  }

  /** `loadMore`: nothing happens without more data or while loading;
      otherwise `fetch` is the page-`page` result (or the error text), the
      items are appended, `hasMore` is taken from the result, and the page
      advances only when the result reports more. The returned flag tells
      whether the 300 ms stop was scheduled. */
  function LoadMore<T>(p: Paged<T>, fetch: int -> Result<PageResult<T>, string>, now: int): (r: (Paged<T>, bool))
    ensures !p.hasMore || p.loading.loading ==> r == (p, false)
    ensures p.hasMore && !p.loading.loading ==>
      var f := fetch(p.page);
      && (r.1 <==> f.Success?)
      && (f.Success? ==> r.0.items == p.items + f.value.items && r.0.hasMore == f.value.hasMore
                         && r.0.page == (if f.value.hasMore then p.page + 1 else p.page)
                         && r.0.loading.loading)
      && (f.Failure? ==> r.0.items == p.items && r.0.hasMore == p.hasMore && r.0.page == p.page
                         && !r.0.loading.loading && r.0.loading.error == f.error)
  {
    if !p.hasMore || p.loading.loading then (p, false)
    else
      var f := fetch(p.page);
      var w := WithLoading(p.loading, None, None, f, now);
      match f
      case Success(res) =>
        (Paged(p.items + res.items, w.state, res.hasMore, if res.hasMore then p.page + 1 else p.page), w.stopScheduled)
      case Failure(_) => (p.(loading := w.state), w.stopScheduled)
  }

  /** A successful load leaves the indicator on until its stop timer fires,
      so an immediate second `loadMore` does nothing. */
  lemma LoadMoreBlockedUntilStop<T>(p: Paged<T>, fetch: int -> Result<PageResult<T>, string>, now: int, later: int)
    requires p.hasMore && !p.loading.loading && fetch(p.page).Success?
    ensures var q := LoadMore(p, fetch, now).0;
      LoadMore(q, fetch, later) == (q, false)
  {
  }

  /** `reset`: no items, more data assumed, page 1; the indicator is untouched. */
  function Reset<T>(p: Paged<T>): (r: Paged<T>)
    ensures r.items == [] && r.hasMore && r.page == 1 && r.loading == p.loading
  {
    p.(items := [], hasMore := true, page := 1)
  }
}
