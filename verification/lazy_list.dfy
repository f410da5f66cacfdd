/** `useLazyList`: a local list shown page by page. The first page holds
    `initialPageSize` items and each later one `incrementSize`; the start of
    a batch is computed as if every page had `incrementSize` items, so the
    shown items are a prefix of the data only when the two sizes agree. */
module LazyList {
  import opened Seqs

  datatype Options = Options(initialPageSize: nat, incrementSize: nat)

  const DefaultOptions: Options := Options(20, 20)

  datatype LazyState<T> = LazyState(all: seq<T>, displayed: seq<T>, loading: bool, page: int)

  function Initial<T>(all: seq<T>): LazyState<T> {
    LazyState(all, [], false, 1)
  }

  /** `hasMore`: fewer items shown than there are. */
  predicate HasMore<T>(s: LazyState<T>) {
    |s.displayed| < |s.all|
  }

  /** `remainingCount`: how many items are not shown, never negative. */
  function RemainingCount<T>(s: LazyState<T>): (n: nat)
    ensures n > 0 <==> HasMore(s)
    ensures HasMore(s) ==> |s.displayed| + n == |s.all|
  {
    if |s.all| > |s.displayed| then |s.all| - |s.displayed| else 0
  }

  /** The first index of the batch for `page`, as written. */
  function BatchStart(o: Options, page: int): int {
    (page - 1) * o.initialPageSize + (if page - 1 > 0 then page - 1 else 0) * (o.incrementSize - o.initialPageSize)
  }

  /** The batch size for `page`. */
  function BatchSize(o: Options, page: int): nat {
    if page == 1 then o.initialPageSize else o.incrementSize
  }

  /** From page 1 on, the start is `(page - 1) * incrementSize`. */
  lemma BatchStartSimplifies(o: Options, page: int)
    requires page >= 1
    ensures BatchStart(o, page) == (page - 1) * o.incrementSize
  {
    var k := page - 1;
    assert k * o.initialPageSize + k * (o.incrementSize - o.initialPageSize) == k * o.incrementSize;
  }

  /** The part of `loadMore` after its guard: the batch is appended and the
      page advances, unless the batch is empty; loading ends either way. */
  function LoadBatch<T>(o: Options, s: LazyState<T>): (r: LazyState<T>)
    ensures !r.loading && r.all == s.all
    ensures var start := BatchStart(o, s.page);
      var batch := JsSlice(s.all, start, start + BatchSize(o, s.page));
      && (|batch| > 0 ==> r.displayed == s.displayed + batch && r.page == s.page + 1)
      && (|batch| == 0 ==> r.displayed == s.displayed && r.page == s.page)
  {
    var start := BatchStart(o, s.page);
    var batch := JsSlice(s.all, start, start + BatchSize(o, s.page));
    if |batch| > 0 then s.(displayed := s.displayed + batch, page := s.page + 1, loading := false)
    else s.(loading := false)
  }

  /** The part of `loadMore` before its delay: the guard, then `isLoading`
      is set. The flag says whether a batch is pending. */
  function BeginLoad<T>(s: LazyState<T>): (r: (LazyState<T>, bool))
    ensures r.1 <==> !s.loading && HasMore(s)
    ensures r.1 ==> r.0 == s.(loading := true)
    ensures !r.1 ==> r.0 == s
  {
    if s.loading || !HasMore(s) then (s, false) else (s.(loading := true), true)
  }

  /** `loadMore`, with the delay collapsed: nothing happens while loading or
      when everything is shown; otherwise one batch is loaded. */
  function LoadMore<T>(o: Options, s: LazyState<T>): (r: LazyState<T>)
    ensures s.loading || !HasMore(s) ==> r == s
    ensures !s.loading && HasMore(s) ==> r == LoadBatch(o, s.(loading := true))
    ensures r.all == s.all && s.page <= r.page <= s.page + 1
    ensures r.page == s.page + 1 <==> |r.displayed| > |s.displayed|
  {
    if s.loading || !HasMore(s) then s
    else LoadBatch(o, s.(loading := true))
  }

  /** While a batch is pending, that is during the delay, another
      `loadMore` finds `isLoading` set and does nothing; when the delay ends
      the one pending batch gives what the collapsed `LoadMore` gives. */
  lemma CallDuringDelayIgnored<T>(o: Options, s: LazyState<T>)
    requires BeginLoad(s).1
    ensures BeginLoad(BeginLoad(s).0) == (BeginLoad(s).0, false)
    ensures LoadBatch(o, BeginLoad(s).0) == LoadMore(o, s)
  {
  }

  /** `reset`: nothing shown, page 1, not loading; the data stays. */
  function Reset<T>(s: LazyState<T>): (r: LazyState<T>)
    ensures r == Initial(s.all)
  {
    s.(displayed := [], page := 1, loading := false)
  }

  /** `setAllItems`: the data is replaced, the list reset, and the first page
      loaded when there is any data. */
  function SetAllItems<T>(o: Options, s: LazyState<T>, items: seq<T>): (r: LazyState<T>)
    ensures r.all == items && !r.loading
    ensures |items| == 0 ==> r == Initial(items)
    ensures |items| > 0 && o.initialPageSize > 0 ==>
      r.page == 2 && r.displayed == items[..if o.initialPageSize < |items| then o.initialPageSize else |items|]
    ensures o.initialPageSize == 0 ==> r == Initial(items)
  {
    var cleared := Reset(s.(all := items));
    if |items| > 0 then LoadMore(o, cleared) else cleared
  }

  /** The shown items are the first `(page - 1) * n` of the data (or all of
      it), for equal page sizes `n`. */
  ghost predicate PrefixInv<T>(n: nat, s: LazyState<T>) {
    && s.page >= 1
    && |s.displayed| == (if (s.page - 1) * n < |s.all| then (s.page - 1) * n else |s.all|)
    && s.displayed == s.all[..|s.displayed|]
  }

  /** With equal sizes the shown items stay a prefix of the data. */
  lemma LoadMoreKeepsPrefix<T>(o: Options, s: LazyState<T>)
    requires o.initialPageSize == o.incrementSize
    requires PrefixInv(o.incrementSize, s)
    ensures PrefixInv(o.incrementSize, LoadMore(o, s))
    ensures PrefixInv(o.incrementSize, Reset(s))
  {
    var n := o.incrementSize;
    if !s.loading && HasMore(s) {
      BatchStartSimplifies(o, s.page);
      var start := (s.page - 1) * n;
      assert start == |s.displayed|;
      assert s.page * n == start + n;
      var batch := JsSlice(s.all, start, start + n);
      var r := LoadMore(o, s);
      if |batch| > 0 {
        assert r.displayed == s.all[..start] + batch;
        if start + n <= |s.all| {
          assert batch == s.all[start..start + n];
          assert r.displayed == s.all[..start + n];
        } else {
          assert batch == s.all[start..];
          assert r.displayed == s.all;
        }
      }
    }
  }

  /** The default options keep the prefix property. */
  lemma DefaultsKeepPrefix<T>(s: LazyState<T>)
    requires PrefixInv(20, s)
    ensures PrefixInv(20, LoadMore(DefaultOptions, s))
  {
    LoadMoreKeepsPrefix(DefaultOptions, s);
  }

  /** A first page smaller than the increment skips items: with sizes 2 and
      3 the second batch starts at index 3, so item 2 is never shown. */
  lemma SmallFirstPageSkips()
    ensures var o := Options(2, 3);
      var s := LoadMore(o, LoadMore(o, Initial([0, 1, 2, 3, 4, 5, 6, 7])));
      s.displayed == [0, 1, 3, 4, 5]
  {
    var o := Options(2, 3);
    var all := [0, 1, 2, 3, 4, 5, 6, 7];
    var s1 := LoadMore(o, Initial(all));
    assert JsSlice(all, 0, 2) == [0, 1];
    assert s1.displayed == [0, 1] && s1.page == 2;
    assert BatchStart(o, 2) == 3;
    assert JsSlice(all, 3, 6) == [3, 4, 5];
  }

  /** A first page larger than the increment repeats items: with sizes 3 and
      2 the second batch starts at index 2, so item 2 is shown twice. */
  lemma LargeFirstPageRepeats()
    ensures var o := Options(3, 2);
      var s := LoadMore(o, LoadMore(o, Initial([0, 1, 2, 3, 4, 5])));
      s.displayed == [0, 1, 2, 2, 3]
  {
    var o := Options(3, 2);
    var all := [0, 1, 2, 3, 4, 5];
    var s1 := LoadMore(o, Initial(all));
    assert JsSlice(all, 0, 3) == [0, 1, 2];
    assert s1.displayed == [0, 1, 2] && s1.page == 2;
    assert BatchStart(o, 2) == 2;
    assert JsSlice(all, 2, 4) == [2, 3];
  }

  // ---- batches that follow one another ----

  /** Where the batch for `page` evidently should start: after the first page
      and the `page - 2` full increments before it. */
  function IntendedStart(o: Options, page: int): nat {
    if page <= 1 then 0 else o.initialPageSize + (page - 2) * o.incrementSize
  }

  /** Each intended batch ends where the next one starts. */
  lemma IntendedBatchesAdjacent(o: Options, page: int)
    requires page >= 1
    ensures IntendedStart(o, page) + BatchSize(o, page) == IntendedStart(o, page + 1)
  {
    if page > 1 {
      assert (page - 1) * o.incrementSize == (page - 2) * o.incrementSize + o.incrementSize;
    }
  }

  /** `loadMore` with batches starting at `IntendedStart`. */
  function IntendedLoadMore<T>(o: Options, s: LazyState<T>): (r: LazyState<T>)
    ensures s.loading || !HasMore(s) ==> r == s
    ensures r.all == s.all && r.loading == s.loading
    ensures !s.loading && HasMore(s) ==>
      var start := IntendedStart(o, s.page);
      var batch := JsSlice(s.all, start, start + BatchSize(o, s.page));
      && (|batch| > 0 ==> r.displayed == s.displayed + batch && r.page == s.page + 1)
      && (|batch| == 0 ==> r == s)
  {
    if s.loading || !HasMore(s) then s
    else
      var start := IntendedStart(o, s.page);
      var batch := JsSlice(s.all, start, start + BatchSize(o, s.page));
      if |batch| > 0 then s.(displayed := s.displayed + batch, page := s.page + 1)
      else s
  }

  /** The shown items are the data before the next intended batch. */
  ghost predicate IntendedInv<T>(o: Options, s: LazyState<T>) {
    && s.page >= 1
    && |s.displayed| == (if IntendedStart(o, s.page) < |s.all| then IntendedStart(o, s.page) else |s.all|)
    && s.displayed == s.all[..|s.displayed|]
  }

  /** With intended starts the shown items are a prefix of the data for any
      page sizes: nothing is skipped or repeated. */
  lemma IntendedLoadMoreKeepsPrefix<T>(o: Options, s: LazyState<T>)
    requires IntendedInv(o, s)
    ensures IntendedInv(o, IntendedLoadMore(o, s))
    ensures IntendedInv(o, Initial(s.all))
  {
    if !s.loading && HasMore(s) {
      var start := IntendedStart(o, s.page);
      var stop := start + BatchSize(o, s.page);
      assert start == |s.displayed|;
      IntendedBatchesAdjacent(o, s.page);
      var batch := JsSlice(s.all, start, stop);
      var r := IntendedLoadMore(o, s);
      if |batch| > 0 {
        assert r.displayed == s.all[..start] + batch;
        if stop <= |s.all| {
          assert batch == s.all[start..stop];
          assert r.displayed == s.all[..stop];
        } else {
          assert batch == s.all[start..];
          assert r.displayed == s.all;
        }
      }
    }
  }

  /** The intended starts agree with the written ones when the sizes agree. */
  lemma IntendedAgreesOnEqualSizes(o: Options, page: int)
    requires o.initialPageSize == o.incrementSize && page >= 1
    ensures IntendedStart(o, page) == BatchStart(o, page)
  {
    BatchStartSimplifies(o, page);
    if page > 1 {
      assert (page - 1) * o.incrementSize == o.incrementSize + (page - 2) * o.incrementSize;
    }
  }
}
