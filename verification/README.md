# Noval_Crawler core, modelled in Dafny

Noval_Crawler downloads web novels from a rotating set of mirror sites. Its
parts are:

- three Scrapy spiders: search, catalog and chapter content;
- a demo processor that fills chapters with sample text and writes the book
  file;
- a FastAPI server that runs downloads as background tasks and reports their
  progress;
- a Vue/TypeScript client with API wrappers, an axios retry layer, Pinia
  stores, formatters and list-windowing composables.

This project models the decision logic of those parts as pure Dafny
functions over immutable datatypes, and proves what each part promises.
What is covered:

- the server's task registry and its transitions;
- the client's response normalisers and error shaping;
- the retry interceptor;
- the stores and composables;
- the spiders' parsing, filtering and mirror-rotation rules;
- the demo book layout.

Modules follow the program's files. `Wrappers`, `Text` and `Seqs` are shared
helpers:

- `Option` and `Result`;
- Python `strip` and JavaScript `trim`;
- `split` and `join`;
- decimal and hex conversion;
- filters and subsequences.

`CrawlerConfig` holds the crawler's constants: mirror domains, retry budgets,
separators and keyword lists.

Semantics of the two languages are written out where they matter:

- JavaScript `||` defaults treat `''` and `0` as missing.
- Python's `strip` and JavaScript's `trim` use different whitespace sets.
- In `retryRequest`, the comparison `undefined >= retries` is false.
- Python negative indexing applies in `novel_catalog`.
- The server's `except Exception` turns a 400 raised inside the `try` into
  a 500.

Clocks, random ids, file contents, subprocess results and network replies
become parameters: a time `now`, a `newId`, a progress record, a worker
outcome, a reply `Result`, or a function from attempt number to reply.

## Model

| member | source | states |
|---|---|---|
| TaskServer.EmptyRegistryValid | fastapi_app/main.py:66 | The empty task map is a well-formed registry: the insertion order lists exactly its keys, once each. |
| TaskServer.Put | fastapi_app/main.py:66 | Assigning a task id updates the map and keeps the registry well-formed; an id already present keeps its place in the insertion order. |
| TaskServer.SetStatus | fastapi_app/main.py:187-188 | Changing a task's status keeps the set of ids and the registry's well-formedness. |
| TaskServer.SelectDownloadRequest | fastapi_app/main.py:369-379 | The body is used whole when present and any field is truthy or off the defaults: a url, a non-empty book name, a start other than 1, an end other than -1, or a mode other than txt. Only a missing body, or one with an empty url, an explicitly empty book name and the default chapters and mode, gives way to the query parameters. A missing url can only come from the query. |
| TaskServer.OmittedBookNameSelectsBody | fastapi_app/main.py:369-371 | A body that leaves the book name out carries the truthy default "temp", so it is used whole, whatever its other fields and the query say. |
| TaskServer.ContentPath | config.py:29-35 | The path is `os.path.join(output, name + ext)`, with ext `.txt` for txt mode and `.epub` for epub mode. A name not starting with '/' gives a path beginning "output/". That is textual only: the path is not normalised, so a name with ".." segments can still resolve outside the directory. An absolute name replaces the directory: the path is the name plus the extension. |
| TaskServer.DotDotNameEscapes | config.py:29-35 | The book name "../x" gives "output/../x.txt", which resolves outside the output directory. The confined path for it is "output/x.txt". |
| TaskServer.AbsoluteNameEscapes | config.py:29-31 | The book name "/tmp/x" is written to "/tmp/x.txt", outside the output directory. |
| TaskServer.ConfinedContentPath | config.py:29-35 | Reducing the name to its last path component keeps the file directly inside the output directory, with the mode's extension. |
| TaskServer.ConfinedAgreesOnPlainNames | config.py:29-35 | For a name without '/', the confined path equals the path the service computes. |
| TaskServer.StartDownload | fastapi_app/main.py:367-438 | Fails with 500, registering nothing, exactly when the selected url is missing or empty. Otherwise the reply carries the new id and the content path for the selected book name and mode. The registry maps the new id to a record with every field fixed: running, progress, current and total 0, the selected url, book name, chapter range and mode, that path, the start time `now`, the message 任务已启动 and no error. Other tasks are unchanged. |
| TaskServer.WorkerBegin | fastapi_app/main.py:187-188 | The background worker marks its task running and touches no other task. |
| TaskServer.WorkerFinish | fastapi_app/main.py:190-219 | The worker's verdict changes only its own task; the ids and well-formedness are kept. |
| TaskServer.WorkerVerdict | fastapi_app/main.py:186-219 | A missing catalog gives failed. A spider success gives completed. An exception gives failed with its message recorded. |
| TaskServer.StopDownload | fastapi_app/main.py:497-513 | 404 exactly when the id is unknown, and then nothing changes. Otherwise the task becomes stopped and every other field and task is kept. |
| TaskServer.StopIsOverwritten | fastapi_app/main.py:186-219 | Stop is not terminal: a worker finishing after a stop overwrites stopped with completed or failed. |
| TaskServer.DownloadStatus | fastapi_app/main.py:442-493 | 404 exactly when the id is unknown. Without progress data, current, total and percentage are 0 and there are no failed chapters. Otherwise current, total and percentage come from the progress record, 0 for a missing key, and failed chapters come from it too, [] when missing. The reply echoes the task's id, status, book name, url and chapter range. |
| TaskServer.StartThenStatus | fastapi_app/main.py:394-408 | Right after a successful start, the status of the new id is running with the requested book and range and zero counters. |
| TaskServer.StartThenProgress | fastapi_app/main.py:458-484 | After a successful start and any progress file, the status is running with the requested book and range and the file's counters, with 0 and [] for missing keys. |
| TaskServer.GetTasks | fastapi_app/main.py:517-547 | The whole list fails with 500 exactly when some task has no progress data. Otherwise there is one summary per task, in insertion order. Each summary carries the task's id, status, book name, url, start and end chapter and start time, and the progress's current chapter, 0 when the key is missing. |
| TaskServer.Summaries | fastapi_app/main.py:526-547 | Over any list of known ids, the result fails exactly when one of them lacks progress. It otherwise keeps length and order, and each summary carries every field of its task plus the progress's current chapter. |
| TaskServer.SummariesAgreeWithStatus | fastapi_app/main.py:458-547 | For the same progress file, each listed task reports the id, status, book, url, chapter range and current chapter that the status endpoint reports. |
| TaskServer.SelectKeyword | fastapi_app/main.py:235-265 | A non-empty body keyword wins, then a non-empty query keyword. A success is never empty. Having neither is an error that surfaces as 500. |
| TaskServer.SelectNovel | fastapi_app/main.py:282-302 | A result needs a keyword and stored search results. The chosen id is the body's unless it is 0, else the query's. An id from 1 to the number of results selects that result, counting from 1. Past the end gives 404, and a missing id gives 500. Missing results or keyword give 404. An index from -len to len-1 after the subtraction selects with Python indexing, negatives counting from the end. The choice carries the subtracted id, the entry's url, and its article name or "未知书名". Below -len gives 500. |
| TaskServer.ZeroIdSelectsLast | fastapi_app/main.py:283-300 | No lower-bound check: id 0 selects the last search result. |
| HttpRetry.DefaultConditionSkipsClientErrors | UI/src/utils/request.ts:28-34 | The default retry condition is false for every 4xx response. |
| HttpRetry.DefaultConditionByTransformed | UI/src/utils/request.ts:28-34 | The default condition holds exactly when the transformed error has no status (no response) or a status of 500 or more. |
| HttpRetry.ShouldRetry | UI/src/utils/request.ts:111-121 | A retry happens exactly when the error has a config and its retry count (absent counts as never reached) has not reached `retries`. |
| HttpRetry.RetryRequest | UI/src/utils/request.ts:123-136 | The re-issued config's retry count is the old count (0 when absent) plus one. The delay is `retryDelay` times that count. |
| HttpRetry.TransformError | UI/src/utils/request.ts:138-159 | A response gives code `HTTP_<status>` with the status set and the server's message preferred. A request without a response gives NETWORK_ERROR with the fixed message. Anything else gives UNKNOWN_ERROR with the error's own message, or '未知错误' when that is empty. Each class condition is stated in both directions. The status is exactly the response's status, and the decimal digits after `HTTP_` spell it. |
| HttpRetry.SetRetryConfig | UI/src/utils/request.ts:231-233 | Shallow merge: each field given in the update replaces the current one, the others are kept. |
| HttpRetry.SetRetryConfigComposes | UI/src/utils/request.ts:231-233 | Two merges equal one merge of the overlaid updates, and an empty update changes nothing. |
| HttpRetry.BackoffAt | UI/src/utils/request.ts:131-133 | The n-th delay of a retry run is `retryDelay * n`: linear backoff. |
| HttpRetry.Run | UI/src/utils/request.ts:89-136 | Every attempt before the last one errored with an error the retry condition accepts, and the run never exceeds the retry budget. The delays are the linear backoff. The outcome is the last attempt's status, or its transformed error, and a failure is one the retry condition rejects or one at the end of the budget. |
| HttpRetry.Request | UI/src/utils/request.ts:89-136 | A request re-issued through the interceptor waits `retryDelay * i` before retry i and retries at most the budget. Each retried attempt errored with an error the condition accepts. The outcome is the last attempt's status, or its transformed error, which the condition rejected. |
| HttpRetry.DefaultGivesUpAfterThreeRetries | UI/src/utils/request.ts:111-136 | With the defaults and a network that never answers, there are three retries after 1000, 2000 and 3000 ms, then a NETWORK_ERROR rejection. |
| HttpRetry.DefaultDoesNotRetryClientErrors | UI/src/utils/request.ts:28-34 | With the defaults, a 4xx answer is rejected at once, with no delay. |
| HttpRetry.NonPositiveRetriesStillRetryOnce | UI/src/utils/request.ts:111-126 | With `retries <= 0`, the first error still earns one retry, since an absent count never compares as reached. |
| DownloadApi.Normalise | UI/src/api/download.ts:74-90 | Each field is kept when truthy and otherwise defaulted. Id defaults to the requested id, status to 'pending', book name to '未知书名', url to '', start and end chapter to 1, current, total and percentage to 0. A missing failed-chapter list becomes []. The five optional fields (created, updated, error, speed, estimate) pass through unchanged. |
| DownloadApi.NormaliseAll | UI/src/api/download.ts:152-168 | The task list keeps length and order, and each element is normalised with '' as the fallback id. |
| DownloadApi.NormaliseIdempotent | UI/src/api/download.ts:74-90 | Normalising an already normalised record changes nothing. |
| DownloadApi.NormaliseKeepsCompleteRecords | UI/src/api/download.ts:74-90 | A record whose fields are all truthy comes back unchanged. |
| DownloadApi.FalsyValuesReplaced | UI/src/api/download.ts:75-80 | Because `\|\|` is used, a reported '' or 0 is replaced by the default just like a missing one. |
| DownloadApi.StartDownload | UI/src/api/download.ts:16-58 | Succeeds exactly when the reply carries a non-empty task id, and returns the reply unchanged. Every failure has status 'error' and task id ''. A network error gets the fixed message, a missing id the missing-id message, and any other error its own message, or the default message when that is empty. |
| DownloadApi.GetDownloadStatus | UI/src/api/download.ts:65-113 | Succeeds exactly when the reply carries data. The data is normalised and the status and message are passed through. A failure reports status 'failed', the requested id, zero counters and chapters, empty book name and url, and no failed chapters. Its message is the empty-data message when the reply had no data, and otherwise the error's own message or the default. |
| DownloadApi.GetDownloadTasks | UI/src/api/download.ts:143-180 | Non-list data becomes []. A list keeps its length and order, each element normalised, and the status and message are passed through. A failure is an 'error' with empty data and the error's own message, or the default when that is empty. |
| DownloadApi.GetDownloadTasksIdempotent | UI/src/api/download.ts:147-168 | Normalising the returned list again gives the same list. |
| SearchApi.NormaliseBook | UI/src/api/search.ts:28-34 | Each of the five fields is kept when non-empty and otherwise defaulted. The url defaults to '' (so it may stay empty), the cover to '/default-book-cover.jpg', the title to '未知书名', the author to '未知作者' and the intro to '暂无简介'. |
| SearchApi.NormaliseBooks | UI/src/api/search.ts:28-34 | The result list keeps length and order. |
| SearchApi.NormaliseBookIdempotent | UI/src/api/search.ts:28-34 | A normalised book normalises to itself. |
| SearchApi.SearchKeyword | UI/src/api/search.ts:12-14 | The keyword sent is trimmed of JavaScript whitespace at both ends. It is the typed keyword with a run of whitespace cut from each end, and those runs are maximal because the result has no whitespace at either end. |
| SearchApi.SentKeywordIsTheTrimmedCut | UI/src/api/search.ts:12-14 | Any keyword obtained by cutting whitespace from both ends and having none left at either end is exactly the one sent. So the cut is unique. |
| SearchApi.SearchBooks | UI/src/api/search.ts:9-57 | Succeeds exactly when the server's reply for the trimmed keyword is a list. It then returns the reply's status and message with every entry normalised. A failure has status 'error', data [] and the original untrimmed keyword. Its message is the network message for a network error, the format message for bad data, and otherwise the error's own message or the default. |
| SearchApi.SearchOutcome | UI/src/api/search.ts:21-56 | Shapes one server reply. A list succeeds with the status, the message and the normalised entries. Anything else fails with status 'error', data [], the typed keyword, and the network, format, own or default message. |
| SearchApi.SearchIgnoresPadding | UI/src/api/search.ts:12-36 | Leading whitespace on a trimmed keyword sends the same request and gives the same outcome and results. The empty keyword is included. |
| SearchApi.SameSentSameSuccess | UI/src/api/search.ts:9-57 | Two keywords that trim alike get the same outcome. |
| CatalogApi.PositionalTitle | UI/src/api/catalog.ts:27-30 | The fallback title is 第, the decimal digits of the 1-based position, and 章. |
| CatalogApi.NormaliseChapters | UI/src/api/catalog.ts:27-30 | The chapter list keeps length and order. A missing title becomes the positional one and a missing url becomes ''. |
| CatalogApi.NormaliseChaptersIdempotent | UI/src/api/catalog.ts:27-30 | Normalising the normalised chapters again changes nothing. |
| CatalogApi.NormaliseInfo | UI/src/api/catalog.ts:33-40 | Each string field is kept when non-empty and otherwise defaulted: id, domain and detail url to '', title to '未知书名', author to '未知作者'. The chapter total defaults to the number of chapters when missing or 0. |
| CatalogApi.GetCatalog | UI/src/api/catalog.ts:9-86 | Succeeds exactly when data, novel info and chapters are all present. It then passes the id, status, message, book name and url through and normalises info and chapters. A failure keeps the requested novel id, with empty info and chapters. A network error gets the fixed message, bad data the format message, and any other error its own message or the default. |
| CatalogApi.CatalogCountDefaultsToLength | UI/src/api/catalog.ts:37 | Without a reported total, the total is the number of chapters returned. |
| DownloadStore.ActiveTasks | UI/src/stores/download.ts:9-11 | An order-preserving filter holding exactly the downloading and pending tasks. |
| DownloadStore.CompletedTasks | UI/src/stores/download.ts:13-15 | An order-preserving filter holding exactly the completed tasks. |
| DownloadStore.FailedTasks | UI/src/stores/download.ts:17-19 | An order-preserving filter holding exactly the failed tasks. |
| DownloadStore.ViewsDisjoint | UI/src/stores/download.ts:9-19 | No task is in two views, and a stopped task is in none. |
| DownloadStore.ViewsPartition | UI/src/stores/download.ts:9-19 | The three views and the stopped tasks together account for every task exactly once. |
| DownloadStore.AddTask | UI/src/stores/download.ts:21-23 | The task is appended at the end, with the earlier tasks unchanged and in order. |
| DownloadStore.AddTaskViews | UI/src/stores/download.ts:21-23 | Adding a task extends exactly the view its status belongs to. |
| DownloadStore.FindTask | UI/src/stores/download.ts:26 | Finds the first task with the id, or reports that none has it. |
| DownloadStore.UpdateTask | UI/src/stores/download.ts:25-30 | Merges the update into the first task with the id only. Length and all other entries are unchanged, and an unknown id changes nothing. |
| DownloadStore.UpdateSkipsLaterDuplicates | UI/src/stores/download.ts:26-29 | A later task with the same id is left untouched. |
| DownloadStore.RemoveTask | UI/src/stores/download.ts:32-34 | The result is a subsequence of the list holding only tasks without the id. Counted with multiplicity, every occurrence of a kept value remains and no occurrence of a removed one does. |
| DownloadStore.ClearCompleted | UI/src/stores/download.ts:36-38 | The result is a subsequence of the list holding only tasks that are not completed. Counted with multiplicity, every occurrence of a kept value remains and no occurrence of a removed one does. |
| DownloadStore.ClearCompletedViews | UI/src/stores/download.ts:36-38 | After clearing, the completed view is empty and the active and failed views are unchanged. |
| SearchStore.FindKeyword | UI/src/stores/search.ts:113 | Finds the first history entry with the keyword, or reports that there is none. |
| SearchStore.AddToHistory | UI/src/stores/search.ts:112-136 | An existing keyword is replaced in place and a new one is prepended. A history within the cap of 50 stays within it. |
| SearchStore.AddToHistoryKeepsUnique | UI/src/stores/search.ts:113-132 | Keywords unique before adding stay unique after. |
| SearchStore.RemoveFromHistory | UI/src/stores/search.ts:138-141 | The result is a subsequence of the history holding only entries with another keyword. Counted with multiplicity, every occurrence of a kept value remains and no occurrence of a removed one does. |
| SearchStore.RemoveThenAddPrepends | UI/src/stores/search.ts:112-141 | Removing a keyword and adding it again puts it first, followed by the other entries. |
| SearchStore.InsertByTime | UI/src/stores/search.ts:44 | Inserting into a newest-first list keeps it newest-first and adds exactly that entry. The entry goes before every existing entry with its timestamp, and the entries of each timestamp otherwise keep their order. |
| SearchStore.SortNewestFirst | UI/src/stores/search.ts:44 | The sort is a permutation of the history in non-increasing timestamp order. It is stable: for each timestamp the entries keep their original relative order, as `Array.prototype.sort` promises. |
| SearchStore.RecentKeywords | UI/src/stores/search.ts:42-47 | The history is re-sorted newest first as a stable permutation of the same length. The keywords are those of its first ten entries, at most ten. |
| SearchStore.RecentKeywordsAreNewest | UI/src/stores/search.ts:42-47 | No entry left out of the recent keywords is newer than one kept. |
| SearchStore.RoundedMean | UI/src/stores/search.ts:50-56 | `Math.round(sum / n)`: the nearest whole number, halves rounded up. |
| SearchStore.Stats | UI/src/stores/search.ts:50-56 | The counts are the history and result lengths. The average is 0 for an empty history and otherwise the rounded mean of the result counts. |
| SearchStore.SetLoading | UI/src/stores/search.ts:154-159 | Only the loading flag and text change; a missing text becomes ''. |
| SearchStore.SetError | UI/src/stores/search.ts:161-167 | Records the error, sets hasError and increases retryCount by one. Nothing else changes. |
| SearchStore.ClearError | UI/src/stores/search.ts:169-175 | The error state becomes hasError false, error null and retryCount 0; nothing else changes. |
| SearchStore.ErrorsCount | UI/src/stores/search.ts:161-175 | Two errors count two, and an error after clearing counts one. |
| SearchStore.BeginSearch | UI/src/stores/search.ts:65-68 | Loading with the searching text, error cleared, trimmed keyword current; results and history kept. |
| SearchStore.FinishSearch | UI/src/stores/search.ts:70-94 | Loading always ends. A success stores the results and records the keyword in history. A failure empties the results and sets SEARCH_ERROR. For a reply whose status is not success, the message is the reply's message or the service-failed text. For a thrown error, it is the error's message or the fallback text. |
| SearchStore.PerformSearch | UI/src/stores/search.ts:59-95 | A blank keyword only clears the error. Otherwise the trimmed keyword is searched. |
| SearchStore.BeginThenFinish | UI/src/stores/search.ts:59-95 | Beginning and then finishing a search settles the state as the outcome dictates. |
| SearchStore.PerformSearchOutcome | UI/src/stores/search.ts:59-95 | A non-blank search settles on the server's answer for the trimmed keyword. After a failure, retryCount is 1, since the error was cleared first. |
| UseLoading.Start | UI/src/composables/useLoading.ts:36-54 | Loading starts with progress 0 and no error, type defaulting to spinner, the given text or '', and the start time recorded. |
| UseLoading.ClampProgress | UI/src/composables/useLoading.ts:61 | Progress is clamped into 0..100, keeping in-range values. |
| UseLoading.Update | UI/src/composables/useLoading.ts:56-66 | A given progress in 0..100 is taken as is, below 0 becomes 0 and above 100 becomes 100. Without one the progress is unchanged. The text changes exactly to a non-empty new one. Nothing else changes. |
| UseLoading.UpdateKeepsProgressInRange | UI/src/composables/useLoading.ts:60-62 | Progress in range stays in range after any update. |
| UseLoading.StopReset | UI/src/composables/useLoading.ts:68-88 | Stopping clears loading, progress and text and keeps the error and type. |
| UseLoading.Stop | UI/src/composables/useLoading.ts:68-88 | Before the minimum display time the reset is deferred by the remaining time; after it, the reset is immediate. |
| UseLoading.SetError | UI/src/composables/useLoading.ts:90-93 | Stores the message and clears loading; nothing else changes. |
| UseLoading.WithLoading | UI/src/composables/useLoading.ts:95-125 | A success sets progress 100 and schedules a stop. A failure stores the error, clears loading and schedules nothing. |
| UseLoading.GlobalStart | UI/src/composables/useLoading.ts:172-180 | activeRequests goes up by one. The state is set up only on the 0 to 1 transition: loading, progress as given or 0, text as given or '', type as given or spinner, and the previous error kept. |
| UseLoading.GlobalStop | UI/src/composables/useLoading.ts:182-189 | activeRequests goes down but never below 0. When it reaches 0, loading, progress and text are cleared and the type and error are kept. Otherwise the state is unchanged. |
| UseLoading.GlobalUpdate | UI/src/composables/useLoading.ts:191-195 | Has an effect only while loading, and never changes the counter. While loading, `Object.assign` overwrites each given field, including `error` and `isLoading`, and keeps every other field. |
| UseLoading.GlobalInvPreserved | UI/src/composables/useLoading.ts:162-195 | isLoading holds exactly when activeRequests > 0, through start, stop and updates that do not set isLoading. |
| UseLoading.GlobalUpdateCanBreakInv | UI/src/composables/useLoading.ts:191-195 | An update that sets isLoading to false while a request is active breaks that link. |
| UseLoading.BalancedStartsAndStops | UI/src/composables/useLoading.ts:172-189 | n starts followed by n stops restore the counter and keep the invariant. |
| UseLoading.LoadMore | UI/src/composables/useLoading.ts:242-253 | A no-op without more data or while loading. Otherwise the page's items are appended, and the page advances only when the result has more. |
| UseLoading.LoadMoreBlockedUntilStop | UI/src/composables/useLoading.ts:245-252 | A second loadMore before the loader stops is a no-op. |
| LoadingStore.ShowLoading | UI/src/stores/loading.ts:8-11 | Loading with the given text, defaulting to 加载中.... |
| LoadingStore.HideLoading | UI/src/stores/loading.ts:13-15 | Not loading, with the text unchanged. |
| LoadingStore.ShowHideLaws | UI/src/stores/loading.ts:5-15 | Both operations are idempotent, and showing then hiding from the initial state returns to it. |
| NotificationStore.AddNotification | UI/src/stores/notification.ts:8-19 | Appends one entry with the kind and message. Its id is the decimal millisecond time. |
| NotificationStore.RemoveNotification | UI/src/stores/notification.ts:21-23 | The result is a subsequence of the list holding only notifications with another id. Counted with multiplicity, every occurrence of a kept value remains and no occurrence of a removed one does. |
| NotificationStore.ShowSuccess | UI/src/stores/notification.ts:25-30 | Appends a success entry. |
| NotificationStore.ShowError | UI/src/stores/notification.ts:32-37 | Appends an error entry. |
| NotificationStore.ShowWarning | UI/src/stores/notification.ts:39-44 | Appends a warning entry. |
| NotificationStore.IdsFollowTime | UI/src/stores/notification.ts:9 | Two ids are equal exactly when their times are. |
| NotificationStore.TimerRemovesOnlyItsOwn | UI/src/stores/notification.ts:8-23 | The auto-remove timer removes just the entry it added, when no other entry shares its millisecond. |
| NotificationStore.SameMillisecondRemovedTogether | UI/src/stores/notification.ts:9-23 | Two notifications added in the same millisecond share an id, and one removal drops both. |
| BookStore.SetSearchResults | UI/src/stores/book.ts:12-14 | Replaces exactly the results. |
| BookStore.SetCurrentBook | UI/src/stores/book.ts:16-18 | Replaces exactly the current book. |
| BookStore.SetCatalog | UI/src/stores/book.ts:20-22 | Replaces exactly the catalog. |
| BookStore.ClearSearch | UI/src/stores/book.ts:24-27 | Empties the results and query; the current book, catalog and searching flag are untouched. |
| BookStore.ClearSearchForgetsResults | UI/src/stores/book.ts:6-27 | Clearing forgets any results set before, is idempotent and keeps the initial state. |
| Format.ValidateChapterRange | UI/src/utils/format.ts:147-165 | Valid exactly when 1 ≤ start ≤ end ≤ total. Otherwise the first failing rule's message is given: start < 1, then end > total, then start > end. |
| Format.RangeMessageIdentifiesRule | UI/src/utils/format.ts:152-162 | For every range, each message appears exactly when its rule is the first to fail: start below 1; otherwise end above the total; otherwise start after end. |
| Format.TruncateText | UI/src/utils/format.ts:121-127 | A text within the limit is unchanged. A longer one becomes its JavaScript slice up to the limit minus the ellipsis length, followed by the ellipsis. With room for the ellipsis the result has exactly the limit's length and starts with a prefix of the text. When the ellipsis is longer than the limit, the negative bound keeps all but the overshoot from the end of the text. |
| Format.TruncateIdempotent | UI/src/utils/format.ts:121-127 | When the ellipsis fits the limit, truncating twice equals truncating once. |
| Format.TruncateBelowEllipsisGrows | UI/src/utils/format.ts:126 | With a limit below the ellipsis length the result can be longer than the limit: "abcdef" at 2 becomes "abcde...". |
| Format.Components | UI/src/utils/format.ts:63-77 | Below 60 seconds gives seconds, below 3600 gives minutes and seconds, otherwise hours and minutes. The parts are below 60, and they add up to the input with leftover seconds dropped past an hour. |
| Format.FormatDuration | UI/src/utils/format.ts:63-77 | Below a minute the text is `{s}秒`, below an hour `{m}分{s}秒`, otherwise `{h}小时{m}分钟` with the leftover seconds dropped. It ends in 秒 exactly below an hour, and it parses back to the seconds it shows. |
| Format.RenderRoundTrip | UI/src/utils/format.ts:63-77 | Every rendered duration parses back to its value. |
| Format.CollapseSpaces | UI/src/utils/format.ts:182 | The result equals an independent one-character-at-a-time scan: a whitespace character after a non-whitespace one, or at the start, writes '_'; further whitespace in the same run writes nothing; every other character is copied in order. It is no longer than the input and holds no whitespace. |
| Format.CleanName | UI/src/utils/format.ts:180-183 | The cleaned name contains none of the characters `<` `>` `:` `"` `/` `\` `\|` `?` `*` and no whitespace, and is no longer than the input. |
| Format.GenerateFileName | UI/src/utils/format.ts:174-194 | Without a timestamp the name is the cleaned name, a dot and the format, with 'txt' as the default. |
| Format.GenerateFileNameStable | UI/src/utils/format.ts:174-194 | The name part of a generated file name is the cleaned name, and generating again from it gives the same file name. |
| Format.CleanNameIdempotent | UI/src/utils/format.ts:180-183 | Cleaning a cleaned name changes nothing. |
| Utils.HexDigitsOf | UI/src/utils/index.ts:169-176 | Accepts exactly an optional '#' followed by six hex digits of either case, and yields those digits. |
| Utils.HexToRgb | UI/src/utils/index.ts:169-176 | Gives a colour exactly for accepted input, each component below 256; null otherwise. |
| Utils.Pad2 | UI/src/utils/index.ts:185-190 | A byte becomes two lowercase hex digits that read back as the byte. |
| Utils.RgbToHex | UI/src/utils/index.ts:185-190 | For components 0..255, gives '#' and six lowercase hex digits, two per component. |
| Utils.RgbRoundTrip | UI/src/utils/index.ts:169-190 | `hexToRgb(rgbToHex(c))` is c for every colour with components 0..255. |
| Utils.HexRoundTrip | UI/src/utils/index.ts:169-190 | For accepted input, `rgbToHex(hexToRgb(h))` is '#' and the lowercase of its six digits. |
| Utils.ByteRoundTrip | UI/src/utils/index.ts:172-188 | Two hex digits read as a byte and written back are the same digits in lowercase. |
| Utils.Retry | UI/src/utils/index.ts:275-289 | Calls fn at most retries + 1 times, stopping at the first success. It waits the delay between calls. It returns the last call's result, failing only when every call failed. |
| Utils.RetryDefaultsGiveUpAfterFour | UI/src/utils/index.ts:275-289 | With the defaults and a function that always fails, four calls and three 1000 ms waits are made. |
| LazyList.RemainingCount | UI/src/composables/useLazyList.ts:86-92 | Positive exactly when there is more to show, and then it is what is left. |
| LazyList.BatchStartSimplifies | UI/src/composables/useLazyList.ts:110-112 | The batch start formula reduces to `(page - 1) * incrementSize`. |
| LazyList.LoadBatch | UI/src/composables/useLazyList.ts:110-124 | Appends the JavaScript slice at the batch start of the batch size. The page advances exactly when that slice is non-empty, and loading ends. |
| LazyList.LoadMore | UI/src/composables/useLazyList.ts:97-130 | A no-op while loading or with nothing more. Otherwise it loads one batch, and the page advances exactly when items were added. |
| LazyList.BeginLoad | UI/src/composables/useLazyList.ts:97-104 | The start of loadMore, before its delay: it proceeds exactly when not loading and more is left, and then sets only the loading flag. |
| LazyList.CallDuringDelayIgnored | UI/src/composables/useLazyList.ts:97-130 | A second loadMore during the delay does nothing, and the pending batch then gives exactly the collapsed loadMore. |
| LazyList.Reset | UI/src/composables/useLazyList.ts:135-143 | Back to an empty display on page 1, not loading, with the data kept. |
| LazyList.SetAllItems | UI/src/composables/useLazyList.ts:148-160 | Replaces the data and resets. Non-empty data with a positive first page gets that page loaded and moves to page 2. Empty data, or a first page of size 0, leaves the reset state. |
| LazyList.LoadMoreKeepsPrefix | UI/src/composables/useLazyList.ts:110-119 | With equal page sizes, the displayed items are always a prefix of all items, one page per page number. |
| LazyList.DefaultsKeepPrefix | UI/src/composables/useLazyList.ts:74-75 | The default sizes (20 and 20) keep the displayed items a prefix. |
| LazyList.SmallFirstPageSkips | UI/src/composables/useLazyList.ts:110-112 | As written, a first page of 2 with increments of 3 skips item 2. |
| LazyList.LargeFirstPageRepeats | UI/src/composables/useLazyList.ts:110-112 | As written, a first page of 3 with increments of 2 shows item 2 twice. |
| LazyList.IntendedBatchesAdjacent | UI/src/composables/useLazyList.ts:110-112 | With the corrected start, each batch begins where the previous one ended. |
| LazyList.IntendedLoadMore | UI/src/composables/useLazyList.ts:97-130 | loadMore with the corrected start: the same no-op cases, and otherwise the next contiguous batch. |
| LazyList.IntendedLoadMoreKeepsPrefix | UI/src/composables/useLazyList.ts:110-119 | With the corrected start, the displayed items stay a prefix of all items for any page sizes. |
| LazyList.IntendedAgreesOnEqualSizes | UI/src/composables/useLazyList.ts:110-112 | When the page sizes are equal, the corrected start equals the written one. |
| VirtualScroll.TotalHeight | UI/src/composables/useVirtualScroll.ts:102 | The total height is the number of items times the item height. |
| VirtualScroll.RowsFitTotalHeight | UI/src/composables/useVirtualScroll.ts:102-200 | Every rendered row's box, from its top to top plus height, lies within 0 and the total height. |
| VirtualScroll.FirstVisible | UI/src/composables/useVirtualScroll.ts:104-107 | The first row under the scroll offset: the one whose span contains scrollTop. |
| VirtualScroll.StartIndex | UI/src/composables/useVirtualScroll.ts:104-107 | The first visible row minus the buffer when that is positive, and 0 otherwise. |
| VirtualScroll.EndIndex | UI/src/composables/useVirtualScroll.ts:109-113 | The smaller of the last index and the start plus the visible count plus two buffers. |
| VirtualScroll.VisibleItems | UI/src/composables/useVirtualScroll.ts:115-117 | The contiguous slice from start to end index, and empty for an empty list. |
| VirtualScroll.ViewportCovered | UI/src/composables/useVirtualScroll.ts:104-117 | Every existing row on screen is between start and end index and is rendered in its place. |
| VirtualScroll.HandleScroll | UI/src/composables/useVirtualScroll.ts:133-142 | Only the scroll offset changes. |
| VirtualScroll.SetItems | UI/src/composables/useVirtualScroll.ts:169-176 | New items, with the scroll offset back to 0. |
| VirtualScroll.UpdateContainerHeight | UI/src/composables/useVirtualScroll.ts:181-187 | Only the container height changes. |
| VirtualScroll.TargetIndex | UI/src/composables/useVirtualScroll.ts:147-149 | The index is clamped to 0..length-1, or 0 for an empty list; in-range indices are kept. |
| VirtualScroll.ScrollToIndex | UI/src/composables/useVirtualScroll.ts:147-164 | Scrolls to the clamped index times the item height, smooth when configured. |
| VirtualScroll.ScrollToIndexShowsTarget | UI/src/composables/useVirtualScroll.ts:147-164 | After scrolling to an index, that row is among the rendered items. |
| VirtualScroll.GetItemStyle | UI/src/composables/useVirtualScroll.ts:192-202 | Rendered row i sits at `(startIndex + i) * itemHeight` with the item height. |
| VirtualScroll.ItemStylesLineUp | UI/src/composables/useVirtualScroll.ts:192-198 | The first rendered row sits at the window offset, and consecutive rows are one item height apart. |
| VirtualScroll.JumpToChapter | UI/src/composables/useVirtualScroll.ts:240-253 | Chapter n scrolls to index n - 1, so an existing chapter lands at `(n - 1) * itemHeight`. |
| SearchSpider.IndexOf | book_crawler/spiders/search_spider.py:20 | Python's `list.index`: the first position holding the value. |
| SearchSpider.Init | book_crawler/spiders/search_spider.py:14-26 | Starts at the default domain's position with no attempts. The keyword is the given one, or the default when none or empty is given. |
| SearchSpider.ParseFailure | book_crawler/spiders/search_spider.py:75-102 | Both counters go up, and no request follows once the total budget is reached. Below the per-domain budget the same domain is retried. Otherwise the count restarts on the next domain, cyclically. The domain index stays in range. |
| SearchSpider.ParseApi | book_crawler/spiders/search_spider.py:104-139 | A result is saved exactly when the body is not "1", is valid JSON, is not an empty list or dict, and the save worked. A save resets the retry count but not the total. Every other case is a failure. |
| SearchSpider.MarkerOneFails | book_crawler/spiders/search_spider.py:107-112 | The body "1" is a failure although it is valid JSON. |
| SearchSpider.FailAllFrom | book_crawler/spiders/search_spider.py:88-102 | From the state after t failures, the remaining requests are numbered t+1 on, request n going to domain n / 3. |
| SearchSpider.NextFailure | book_crawler/spiders/search_spider.py:88-102 | One more failure moves the state to the one after t + 1 failures, with the next request going to domain (t + 1) / 3. |
| SearchSpider.AllFailuresVisitEachDomainOnce | book_crawler/spiders/search_spider.py:88-102 | If every response fails, exactly 15 requests are made, three to each domain in turn, and then the spider stops. |
| CatalogSpider.StartUrl | book_crawler/spiders/catalog_spider.py:23-42 | No request for a missing or empty url. A url starting with '/' is prefixed with `https://www.` and the current domain; any other url is used as is. |
| CatalogSpider.HostOf | book_crawler/spiders/catalog_spider.py:85 | The domain is the third '/'-piece, and fails (IndexError) exactly when there are fewer than three. |
| CatalogSpider.BuiltUrlHost | book_crawler/spiders/catalog_spider.py:30-31 | A url built from a '/' path has the current domain as its host. |
| CatalogSpider.ShortSymbolsAreSpecial | book_crawler/spiders/catalog_spider.py:144-154 | The short-symbol rule rejects nothing that the special-character rule does not also reject. |
| CatalogSpider.ValidChapterRules | book_crawler/spiders/catalog_spider.py:125-156 | A title is valid exactly when, stripped, it is non-empty and is not an invalid or navigation keyword. It must also not start with an invalid prefix and not consist only of special characters. |
| CatalogSpider.ValidityIgnoresPadding | book_crawler/spiders/catalog_spider.py:130-133 | Validity depends only on the stripped title. |
| CatalogSpider.NextPageRejected | book_crawler/spiders/catalog_spider.py:136-137 | The navigation text 下一页 is rejected. |
| CatalogSpider.ExpandPrefixRejected | book_crawler/spiders/catalog_spider.py:140-141 | A title starting with 展开 is rejected. |
| CatalogSpider.OrdinaryTitleKept | book_crawler/spiders/catalog_spider.py:125-156 | An ordinary title such as 第一章 惊蛰 is kept. |
| CatalogSpider.ExtractChapters | book_crawler/spiders/catalog_spider.py:61-73 | One chapter per link with both title and url present, in order, both stored stripped. |
| CatalogSpider.FilterChapters | book_crawler/spiders/catalog_spider.py:76-80 | The result is a subsequence of the chapters holding only chapters with valid titles. Counted with multiplicity, every occurrence of a kept value remains and no occurrence of a removed one does. |
| CatalogSpider.ExtractedTitlesStripped | book_crawler/spiders/catalog_spider.py:68-73 | Every extracted title is already stripped. |
| CatalogSpider.RecordedChaptersClean | book_crawler/spiders/catalog_spider.py:61-80 | Every recorded chapter has a stripped, valid title and a url. |
| CatalogSpider.FirstAuthorSpan | book_crawler/spiders/catalog_spider.py:53-58 | The first span containing the author marker, or the end when none does. |
| CatalogSpider.FindAuthor | book_crawler/spiders/catalog_spider.py:53-58 | The author exists exactly when a span contains 作者：. It is that first span with the marker removed and stripped. |
| CatalogSpider.NovelTitle | book_crawler/spiders/catalog_spider.py:48-50 | The primary title, else the fallback, else 未知标题. |
| CatalogSpider.ParseCatalog | book_crawler/spiders/catalog_spider.py:44-123 | Produces an item exactly when the response url has a domain and the catalog file is written; a failing write is swallowed with the rest. The item holds the filtered chapters, their count as total, the author, the title, and the domain. |
| CatalogSpider.NoCatalogItemAsWritten | book_crawler/spiders/catalog_spider.py:112-121 | As written, the catalog-path helper is missing from the crawler's configuration, so the write raises, the `except` swallows it, and no page ever yields an item. |
| CatalogSpider.CatalogItemWhenWritable | book_crawler/spiders/catalog_spider.py:44-123 | With a working write, every page whose url has at least three '/'-pieces yields an item whose domain is the third piece. |
| ContentSpider.SplitLines | book_crawler/spiders/content_spider.py:23 | At least one piece, and no piece contains a line break. There is one more piece than the text has line breaks, and putting each break back between its pieces rebuilds the text exactly. |
| ContentSpider.SplitJoinedLines | book_crawler/spiders/content_spider.py:23 | Break-free lines joined by "\n" split back into themselves. |
| ContentSpider.CleanContent | book_crawler/spiders/content_spider.py:18-31 | Empty input yields "". |
| ContentSpider.CleanContentLines | book_crawler/spiders/content_spider.py:23-31 | Every output line is the indent followed by a stripped, non-empty line free of invalid keywords. The kept lines are in order and joined by "\n". |
| ContentSpider.CleanLinesFixed | book_crawler/spiders/content_spider.py:23-31 | Cleaning already indented clean lines gives them back, because strip removes the U+3000 indent. |
| ContentSpider.CleanContentIdempotent | book_crawler/spiders/content_spider.py:18-31 | Cleaning cleaned content changes nothing. |
| ContentSpider.NavigationOnlyPageIsEmpty | book_crawler/spiders/content_spider.py:25-29 | A page whose every line is blank or navigation cleans to "". |
| ContentSpider.ContentRequests | book_crawler/spiders/content_spider.py:53-73 | One request for each chapter url starting with /book/, in catalog order. Each goes to the domain its catalog position picks, skipped chapters counted. |
| ContentSpider.RequestsExtend | book_crawler/spiders/content_spider.py:58-65 | One more catalog url adds a request exactly when it is a /book/ url, keeping the others. |
| ContentSpider.Parse | book_crawler/spiders/content_spider.py:75-99 | A url with fewer than three '/'-pieces yields no item and records nothing, since the host lookup raises first. Otherwise the item carries the catalog's novel id and title, the url, and its third '/'-piece as the domain. The chapter title is the stripped h1, else the stripped catalog title, else ''. The content is the cleaned, stripped joined page text, and the url is recorded as failed exactly when the content is empty. |
| ContentSpider.EmptyPageRecorded | book_crawler/spiders/content_spider.py:86-97 | A page with no text whose url has a host part is recorded as failed. |
| ContentSpider.NoHostNoRecord | book_crawler/spiders/content_spider.py:86 | A url without '/' yields no item and leaves the failed list unchanged, whatever the page holds. |
| DemoContent.Sentences | demo_content_spider.py:90-97 | The text is split on 。. Blank pieces are dropped, and each kept piece is stripped and ended with 。 again. |
| DemoContent.Paragraphs | demo_content_spider.py:93-107 | The paragraphs concatenate to the sentences in order. Every one but the last is longer than 150 characters, and none is empty when no sentence is. |
| DemoContent.CreateDemoContent | demo_content_spider.py:87-109 | Empty input yields "". The demo text is the greedy paragraphs of the kept sentences, each opened by the indent and joined by blank lines. |
| DemoContent.DemoParagraphs | demo_content_spider.py:94-109 | The demo text is its non-empty paragraphs, each opened by the indent and joined by blank lines. The paragraphs hold all kept sentences, each but the last is over the limit, and they are exactly the greedy paragraphs of the sentences. |
| DemoContent.FirstParagraphSize | demo_content_spider.py:94-103 | A paragraph is the fewest leading sentences whose text is longer than 150 characters, or all remaining sentences when none is. Every shorter run of leading sentences is within the limit. |
| DemoContent.ParagraphsMatchGreedy | demo_content_spider.py:94-107 | The sentence-by-sentence loop, started from any paragraph within the limit, cuts exactly the paragraphs the greedy rule cuts. Each paragraph is therefore a run of whole consecutive sentences, and it stays within the limit until its last sentence. |
| DemoContent.DemoChapters | demo_content_spider.py:48-57 | With non-empty sample text, the first three chapters (or all, if fewer) are processed, numbered from 0. With empty text none are. |
| DemoContent.WrittenIsJoin | demo_content_spider.py:125-134 | The chapter loop writes the blocks joined by the separator: it comes between consecutive chapters and never after the last. |
| DemoContent.WriteFile | demo_content_spider.py:111-134 | The file is the header followed by the chapter blocks joined by the separator. |
| DemoContent.FileEndsWithLastChapter | demo_content_spider.py:125-134 | The file ends with the last chapter's block. |

## Left out

- Running Scrapy in a subprocess, file reads and writes, uuid generation, the thread pool, cleanup hooks and uvicorn in the server are not modelled. Their effects arrive as parameters: a new id, a progress record, a worker outcome.
- The server's CORS, health and other endpoints, and `get_download_params` (fastapi_app/main.py:142-156), are not modelled. They hold no decision logic beyond what is covered here.
- Progress JSON that is not a dict is not modelled. The model's progress record is always well-formed.
- Scrapy's HTML and CSS selection is not modelled. The spiders' functions take the selected strings: links, spans, h1 and text pieces.
- URL quoting, headers, cookies and logging are not modelled.
- The search spider's result-file write is the `saveOk` parameter of `SearchSpider.ParseApi`.
- CatalogSpider.ParseCatalog takes the catalog-file write's success as its `writeOk` parameter. The file's contents and path are not modelled.
- ContentSpider.SplitLines splits at every line-break character. Python's `splitlines` also treats "\r\n" as one break and drops a trailing empty piece. The two differ only by empty pieces, which cleaning discards.
- `_extract_content_from_html` (demo_content_spider.py:63-85) is regex HTML extraction and is not modelled.
- The chapter title passed to `_create_demo_content` is unused by the source, so the model drops it.
- DemoContent.WriteFile takes the author as an optional string, printing "None" for a recorded null. A record with no author key at all, which prints 未知, is not modelled.
- DemoContent.Paragraphs states the concatenation, length and non-empty properties in its own contract. That it cuts exactly the greedy paragraphs is stated by `DemoContent.ParagraphsMatchGreedy`, because that lemma is about the function itself.
- ContentSpider.CleanContent states only the empty case in its own contract. The line shape is stated by `ContentSpider.CleanContentLines`.
- Timers are not modelled: the notification auto-remove timer, `simulateProgress`, `useDelayedLoading`, `useDebouncedLoading` and the retry sleeps. `UseLoading.Stop` returns the deferral instead of waiting it out, and the retry functions return their sleeps as a list.
- The request-id and metadata interceptors and the global error notifications in request.ts are not modelled. They do not change any outcome.
- The client wrappers `stopDownload`, `batchOperation` and `retryFailedChapters` (UI/src/api/download.ts:120-235) are bare posts and are not modelled.
- The search store's `getSuggestions`, `clearHistory`, `clearResults`, `retrySearch`, `filterResults`, `filterByAuthor`, `sortResults`, `reset` and its local storage are not modelled.
- SearchApi.GetSearchSuggestions is modelled, but its only property is that it always answers the empty list. It has no row in the table.
- A `Partial` update that spreads an explicit `undefined` over a field is not modelled. Updates carry only the fields they set.
- Format.FormatDuration covers non-negative whole seconds only. Negative input, which the source renders as "-5秒", fractional seconds and `Math.floor` on floats are not modelled.
- `generateFileName` with a timestamp depends on the clock and is not modelled.
- Format.TruncateText counts characters as Unicode code points, while JavaScript's `length` and `slice` count UTF-16 code units. The two agree on text inside the Basic Multilingual Plane. Outside it, JavaScript can cut a surrogate pair in half, and a lone surrogate has no Dafny `char`.
- LazyList.LoadMore collapses the `loadDelay` wait. The call is split into `LazyList.BeginLoad` (the guard and setting isLoading) and `LazyList.LoadBatch` (the work after the delay). The delay's length and the timers are not modelled.
- LazyList.SetAllItems gives the state after its `loadMore` delay has passed. Right after the call, isLoading is true and nothing is displayed yet; that intermediate state is `LazyList.BeginLoad` of the reset state.
- Local storage, `scrollToItem` in useLazyList.ts (which waits on async loading), style strings and `useIntersectionObserver` are not modelled.
- UseLoading.Reset restores the paginated state and has no property beyond its definition, so it has no row.
- Quick-start scripts, Scrapy settings, middlewares, pipelines, tools, animation, router and build configuration are not modelled. They are framework glue or interactive I/O.

## Findings

| source | as written | input that shows it | evidently intended | confidence | as-written member | corrected member |
|---|---|---|---|---|---|---|
| UI/src/composables/useLazyList.ts:110-112 | The batch start is `(page-1)*initialPageSize + max(0, page-1)*(incrementSize-initialPageSize)`, which is `(page-1)*incrementSize`. | `initialPageSize` 2 with `incrementSize` 3 starts page 2 at item 3, skipping item 2. `initialPageSize` 3 with `incrementSize` 2 starts page 2 at item 2, showing it twice. | Page n > 1 starts where page n-1 ended, at `initialPageSize + (n-2)*incrementSize`. | medium; not executed | LazyList.SmallFirstPageSkips | LazyList.IntendedLoadMoreKeepsPrefix |
| config.py:29-35 | The book name from the request is joined to the output directory with `os.path.join`, unchecked. | Book name "/tmp/x" in txt mode gives "/tmp/x.txt". An absolute second argument makes `os.path.join` drop the directory. Book name "../x" gives "output/../x.txt", which resolves to the parent of the output directory (TaskServer.DotDotNameEscapes). | Every downloaded file lies in the output directory. | low; not executed | TaskServer.AbsoluteNameEscapes | TaskServer.ConfinedContentPath |
| book_crawler/spiders/catalog_spider.py:113 | `parse_catalog` calls `config.get_catalog_output_file`, which book_crawler/config.py does not define. | Any catalog page: the lookup raises `AttributeError` inside the `try`, the `except` at lines 120-121 swallows it, and nothing is yielded. | A helper that returns the catalog file's path, after which every page with a host yields its item. | medium; not executed | CatalogSpider.NoCatalogItemAsWritten | CatalogSpider.CatalogItemWhenWritable |
