/** The global loading flag of the client. */
module LoadingStore {
  import opened Wrappers

  datatype LoadingState = LoadingState(isLoading: bool, loadingText: string)

  const DefaultText: string := "加载中..."

  const Initial: LoadingState := LoadingState(false, DefaultText)

  /** `showLoading`: the default text applies only when no text is passed
      (an explicit '' is kept). */
  function ShowLoading(s: LoadingState, text: Option<string>): (r: LoadingState)
    ensures r.isLoading
    ensures text.Some? ==> r.loadingText == text.value
    ensures text.None? ==> r.loadingText == DefaultText
  {
    LoadingState(true, text.GetOr(DefaultText))
  }

  /** `hideLoading`: only the flag changes; the last text is kept. */
  function HideLoading(s: LoadingState): (r: LoadingState)
    ensures !r.isLoading && r.loadingText == s.loadingText
  {
    s.(isLoading := false)
  }

  /** Showing and hiding do not depend on the previous state beyond the text:
      show is idempotent, and hide after show leaves the shown text. */
  lemma ShowHideLaws(s: LoadingState, text: Option<string>)
    ensures ShowLoading(ShowLoading(s, text), text) == ShowLoading(s, text)
    ensures HideLoading(HideLoading(s)) == HideLoading(s)
    ensures HideLoading(ShowLoading(s, text)).loadingText == ShowLoading(Initial, text).loadingText
    ensures HideLoading(ShowLoading(Initial, None)) == Initial
  {
  }
}

/** Toast notifications: each one is appended with the current time in
    milliseconds as its id and removed by id when its 3-second timer fires. */
module NotificationStore {
  import opened Text
  import opened Seqs

  datatype Kind = SuccessKind | ErrorKind | WarningKind | InfoKind

  datatype Notification = Notification(id: string, kind: Kind, message: string)

  /** How long a notification stays, in milliseconds. */
  const Lifetime: nat := 3000

  /** `addNotification` at time `now` (ms since the epoch): the new
      notification goes last with `now` in decimal as its id, and the timer
      that will remove that id is reported. */
  function AddNotification(ns: seq<Notification>, kind: Kind, message: string, now: nat): (r: (seq<Notification>, string))
    ensures r.0 == ns + [Notification(r.1, kind, message)]
    ensures AllDigits(r.1) && DecimalValue(r.1) == now
  {
    var id := NatToString(now);
    (ns + [Notification(id, kind, message)], id)
  }

  /** `removeNotification`: every notification with the id goes, the others
      stay in order. */
  function RemoveNotification(ns: seq<Notification>, id: string): (r: seq<Notification>)
    ensures forall n | n in r :: n in ns && n.id != id
    ensures forall i | 0 <= i < |ns| && ns[i].id != id :: ns[i] in r
    ensures IsSubsequence(r, ns)
    ensures forall n :: multiset(r)[n] == if n.id != id then multiset(ns)[n] else 0
  {
    FilterIsSubsequence(ns, (n: Notification) => n.id != id);
    assert forall n :: multiset(Filter(ns, (n: Notification) => n.id != id))[n] == if ((n: Notification) => n.id != id)(n) then multiset(ns)[n] else 0 by {
      forall n { FilterCount(ns, (n: Notification) => n.id != id, n); }
    }
    Filter(ns, (n: Notification) => n.id != id)
  }

  function ShowSuccess(ns: seq<Notification>, message: string, now: nat): (r: (seq<Notification>, string))
    ensures r.0 == ns + [Notification(r.1, SuccessKind, message)]
  {
    AddNotification(ns, SuccessKind, message, now)
  }

  function ShowError(ns: seq<Notification>, message: string, now: nat): (r: (seq<Notification>, string))
    ensures r.0 == ns + [Notification(r.1, ErrorKind, message)]
  {
    AddNotification(ns, ErrorKind, message, now)
  }

  function ShowWarning(ns: seq<Notification>, message: string, now: nat): (r: (seq<Notification>, string))
    ensures r.0 == ns + [Notification(r.1, WarningKind, message)]
  {
    AddNotification(ns, WarningKind, message, now)
  }

  /** Distinct times give distinct ids. */
  lemma IdsFollowTime(a: nat, b: nat)
    ensures NatToString(a) == NatToString(b) <==> a == b
  {
  }

  /** When no notification has the id of a new one, its timer removes
      exactly it. */
  lemma TimerRemovesOnlyItsOwn(ns: seq<Notification>, kind: Kind, message: string, now: nat)
    requires forall i | 0 <= i < |ns| :: ns[i].id != NatToString(now)
    ensures var (added, id) := AddNotification(ns, kind, message, now);
      RemoveNotification(added, id) == ns
  {
    var (added, id) := AddNotification(ns, kind, message, now);
    var p := (n: Notification) => n.id != id;
    FilterConcat(ns, [Notification(id, kind, message)], p);
    FilterAll(ns, p);
  }

  /** Two notifications added within the same millisecond share an id, so the
      first timer removes both. */
  lemma SameMillisecondRemovedTogether(ns: seq<Notification>, k1: Kind, m1: string, k2: Kind, m2: string, now: nat)
    requires forall i | 0 <= i < |ns| :: ns[i].id != NatToString(now)
    ensures var (once, id1) := AddNotification(ns, k1, m1, now);
      var (twice, id2) := AddNotification(once, k2, m2, now);
      id1 == id2 && RemoveNotification(twice, id1) == ns
  {
    var (once, id) := AddNotification(ns, k1, m1, now);
    var (twice, _) := AddNotification(once, k2, m2, now);
    var p := (n: Notification) => n.id != id;
    assert twice == ns + [Notification(id, k1, m1), Notification(id, k2, m2)];
    FilterConcat(ns, [Notification(id, k1, m1), Notification(id, k2, m2)], p);
    FilterAll(ns, p);
  }
}

/** Search results, the chosen book and its catalog as the client keeps them. */
module BookStore {
  import opened Wrappers

  datatype Book = Book(bookName: string, author: string, description: string, url: string,
                       latestChapter: Option<string>, coverUrl: Option<string>)

  datatype BookState = BookState(
    searchResults: seq<Book>,
    currentBook: Option<Book>,
    catalog: seq<string>,
    isSearching: bool,
    searchQuery: string)

  const Initial: BookState := BookState([], None, [], false, "")

  /** `setSearchResults`: only the results change. */
  function SetSearchResults(s: BookState, results: seq<Book>): (r: BookState)
    ensures r.searchResults == results
    ensures r.(searchResults := s.searchResults) == s
  {
    s.(searchResults := results)
  }

  /** `setCurrentBook`: only the current book changes. */
  function SetCurrentBook(s: BookState, book: Book): (r: BookState)
    ensures r.currentBook == Some(book)
    ensures r.(currentBook := s.currentBook) == s
  {
    s.(currentBook := Some(book))
  }

  /** `setCatalog`: only the catalog changes. */
  function SetCatalog(s: BookState, catalog: seq<string>): (r: BookState)
    ensures r.catalog == catalog
    ensures r.(catalog := s.catalog) == s
  {
    s.(catalog := catalog)
  }

  /** `clearSearch`: no results and an empty query; the current book, the
      catalog and the searching flag stay. */
  function ClearSearch(s: BookState): (r: BookState)
    ensures r.searchResults == [] && r.searchQuery == ""
    ensures r.currentBook == s.currentBook && r.catalog == s.catalog && r.isSearching == s.isSearching
  {
    s.(searchResults := [], searchQuery := "")
  }

  /** Clearing undoes setting results, whatever they were. */
  lemma ClearSearchForgetsResults(s: BookState, results: seq<Book>)
    ensures ClearSearch(SetSearchResults(s, results)) == ClearSearch(s)
    ensures ClearSearch(ClearSearch(s)) == ClearSearch(s)
    ensures ClearSearch(Initial) == Initial
  {
  }
}
