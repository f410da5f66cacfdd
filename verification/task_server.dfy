/** The download service's in-memory task table and the request handling
    around it: `start_download` registers a task and hands it to a worker,
    the worker marks it completed or failed, `stop_download` marks it
    stopped, `download_status` and `get_tasks` report it. The subprocess, the
    progress and search-result files, uuid generation and the thread pool are
    explicit parameters and events here. */
module TaskServer {
  import opened Wrappers
  import opened Text

  datatype Mode = Txt | Epub

  /** The status strings the service writes into a task entry. */
  datatype ServerStatus = Running | Completed | Failed | Stopped

  /** The `HTTPException` an endpoint answers with. */
  datatype HttpError = HttpError(statusCode: int)

  datatype ServerTask = ServerTask(
    status: ServerStatus,
    novelUrl: string,
    taskId: string,
    bookName: string,
    startChapter: int,
    endChapter: int,
    mode: Mode,
    path: string,
    progress: int,
    currentChapter: int,
    totalChapters: int,
    message: string,
    startTime: string,
    error: Option<string>)

  /** The module-level `tasks` dict: its entries and their insertion order. */
  datatype Registry = Registry(order: seq<string>, entries: map<string, ServerTask>)

  /** Keys are listed once each, in insertion order, and nothing else is listed. */
  ghost predicate Valid(reg: Registry) {
    && (forall i, j | 0 <= i < j < |reg.order| :: reg.order[i] != reg.order[j])
    && (forall id :: id in reg.entries <==> id in reg.order)
  }

  const EmptyRegistry: Registry := Registry([], map[])

  lemma EmptyRegistryValid()
    ensures Valid(EmptyRegistry)
  {
  }

  /** `tasks[id] = t`: a new key goes last, an existing key keeps its place. */
  function Put(reg: Registry, id: string, t: ServerTask): (r: Registry)
    ensures r.entries == reg.entries[id := t]
    ensures Valid(reg) ==> Valid(r)
    ensures Valid(reg) && id in reg.entries ==> r.order == reg.order
  {
    Registry(if id in reg.entries then reg.order else reg.order + [id], reg.entries[id := t])
  }

  /** Sets the status and message of an existing entry. */
  function SetStatus(reg: Registry, id: string, s: ServerStatus, msg: string): (r: Registry)
    requires id in reg.entries
    ensures r.entries.Keys == reg.entries.Keys
    ensures Valid(reg) ==> Valid(r)
  {
    Put(reg, id, reg.entries[id].(status := s, message := msg))
  }

  // ---- start_download ----

  /** A `DownloadRequest` body as pydantic builds it: `novel_url` is
      required, and a field the body leaves out holds the model's default
      (`BodyDefaultBookName`, chapters 1 to -1, txt). */
  datatype BodyRequest = BodyRequest(novelUrl: string, bookName: string, startChapter: int, endChapter: int, mode: Mode)

  /** The query parameters, with the endpoint's defaults filled in. */
  datatype QueryRequest = QueryRequest(novelUrl: Option<string>, bookName: string, startChapter: int, endChapter: int, mode: Mode)

  /** The request the endpoint proceeds with. */
  datatype DownloadRequest = DownloadRequest(novelUrl: Option<string>, bookName: string, startChapter: int, endChapter: int, mode: Mode)

  /** The book name a body gets when it leaves `book_name` out. */
  const BodyDefaultBookName: string := "temp"

  /** Every field of the body is falsy or equal to the chapter and mode
      defaults: empty url, empty book name, chapters 1 to -1, txt. The
      model's own book-name default "temp" is truthy, so a body that leaves
      the book name out is never of this kind. */
  predicate IsDefaultBody(b: BodyRequest) {
    b.novelUrl == "" && b.bookName == "" && b.startChapter == 1 && b.endChapter == -1 && b.mode == Txt
  }

  /** The body wins when present and any of its fields is truthy (url,
      book name) or differs from the chapter and mode defaults; only a body
      with an empty url, an explicitly empty book name and default chapters
      and mode gives way to the query parameters. */
  function SelectDownloadRequest(body: Option<BodyRequest>, query: QueryRequest): (d: DownloadRequest)
    ensures body.Some? && !IsDefaultBody(body.value) ==>
      d == DownloadRequest(Some(body.value.novelUrl), body.value.bookName, body.value.startChapter, body.value.endChapter, body.value.mode)
    ensures body.None? || IsDefaultBody(body.value) ==>
      d == DownloadRequest(query.novelUrl, query.bookName, query.startChapter, query.endChapter, query.mode)
    ensures d.novelUrl.None? ==> body.None? || IsDefaultBody(body.value)
  {
    if body.Some? && (body.value.novelUrl != "" || body.value.bookName != "" || body.value.startChapter != 1
                      || body.value.endChapter != -1 || body.value.mode != Txt)
    then
      var b := body.value;
      DownloadRequest(Some(b.novelUrl), b.bookName, b.startChapter, b.endChapter, b.mode)
    else DownloadRequest(query.novelUrl, query.bookName, query.startChapter, query.endChapter, query.mode)
  }

  /** A body that leaves the book name out carries "temp", which is truthy:
      such a body is used whole, whatever its other fields and the query. */
  lemma OmittedBookNameSelectsBody(b: BodyRequest, query: QueryRequest)
    requires b.bookName == BodyDefaultBookName
    ensures SelectDownloadRequest(Some(b), query) == DownloadRequest(Some(b.novelUrl), b.bookName, b.startChapter, b.endChapter, b.mode)
  {
  }

  /** `OUTPUT_DIRECTORY` (an absolute project path in the deployment). */
  const OutputDirectory: string := "output"

  function Extension(mode: Mode): string {
    if mode == Txt then ".txt" else ".epub"
  }

  /** Python's `os.path.join(directory, name)` on POSIX, for a directory
      without a trailing '/': an absolute name replaces the directory. */
  function PathJoin(directory: string, name: string): string {
    if StartsWith(name, "/") then name else directory + "/" + name
  }

  /** Appending the extension does not change whether a name is absolute. */
  lemma AbsoluteWithExtension(name: string, mode: Mode)
    ensures StartsWith(name + Extension(mode), "/") <==> StartsWith(name, "/")
  {
    var s := name + Extension(mode);
    if |name| > 0 {
      assert s[0] == name[0];
      assert StartsWith(s, "/") <==> s[0] == '/';
      assert StartsWith(name, "/") <==> name[0] == '/';
    } else {
      assert s == Extension(mode);
      assert s[0] == '.';
    }
  }

  /** `get_content_txt_filename` / `get_content_epub_filename`, as written:
      the book name is joined to the output directory unchecked. A name not
      starting with '/' gives a path textually under the directory (".."
      segments can still lead out of it); an absolute one replaces it. */
  function ContentPath(bookName: string, mode: Mode): (p: string)
    ensures mode == Txt ==> EndsWith(p, ".txt")
    ensures mode == Epub ==> EndsWith(p, ".epub")
    ensures !StartsWith(bookName, "/") ==> StartsWith(p, OutputDirectory + "/")
    ensures StartsWith(bookName, "/") ==> p == bookName + Extension(mode)
  {
    var p := PathJoin(OutputDirectory, bookName + Extension(mode));
    AbsoluteWithExtension(bookName, mode);
    assert !StartsWith(bookName, "/") ==> p[..|OutputDirectory + "/"|] == OutputDirectory + "/";
    p
  }

  /** A book name that is an absolute path puts the file outside the output
      directory: "/tmp/x" is written to "/tmp/x.txt". */
  lemma AbsoluteNameEscapes()
    ensures ContentPath("/tmp/x", Txt) == "/tmp/x.txt"
    ensures !StartsWith(ContentPath("/tmp/x", Txt), OutputDirectory + "/")
  {
    assert StartsWith("/tmp/x", "/");
    assert ContentPath("/tmp/x", Txt)[0] == '/';
  }

  /** A relative book name that climbs out of the directory also escapes:
      "../x" is written to "output/../x.txt", a sibling of the output
      directory, while the confined path keeps it inside as "output/x.txt". */
  lemma DotDotNameEscapes()
    ensures ContentPath("../x", Txt) == "output/../x.txt"
    ensures ConfinedContentPath("../x", Txt) == "output/x.txt"
  {
    assert "../x.txt"[..1][0] == '.';
    assert !StartsWith("../x.txt", "/");
    assert "../x" + Extension(Txt) == "../x.txt";
    assert BaseName("../") == "";
    assert BaseName("../x") == "x";
  }

  /** The part of a path after its last '/'. */
  function BaseName(s: string): (b: string)
    ensures '/' !in b
    ensures '/' !in s ==> b == s
    ensures EndsWith(s, b)
  {
    if |s| == 0 then ""
    else if s[|s| - 1] == '/' then ""
    else
      var b := BaseName(s[..|s| - 1]) + [s[|s| - 1]];
      assert s == s[..|s| - 1] + [s[|s| - 1]];
      b
  }

  /** The output path with the book name reduced to its last path component,
      so the file always lies directly in the output directory. */
  function ConfinedContentPath(bookName: string, mode: Mode): (p: string)
    ensures StartsWith(p, OutputDirectory + "/") && EndsWith(p, Extension(mode))
    ensures '/' !in p[|OutputDirectory + "/"|..]
  {
    var n := BaseName(bookName);
    ThreeParts(OutputDirectory + "/", n, Extension(mode));
    NoSlashInName(n, mode);
    OutputDirectory + "/" + (n + Extension(mode))
  }

  lemma NoSlashInName(n: string, mode: Mode)
    requires '/' !in n
    ensures '/' !in n + Extension(mode)
  {
    var e := Extension(mode);
    assert forall i | 0 <= i < |e| :: e[i] != '/';
    assert forall i | 0 <= i < |n + e| :: (n + e)[i] == if i < |n| then n[i] else e[i - |n|];
  }

  lemma ThreeParts(a: string, b: string, c: string)
    ensures StartsWith(a + (b + c), a) && EndsWith(a + (b + c), c)
    ensures (a + (b + c))[|a|..] == b + c
  {
    var p := a + (b + c);
    assert p[..|a|] == a;
    assert p[|a|..] == b + c;
    assert p[|p| - |c|..] == c;
  }

  /** For a plain file name the confined path is the path the service
      computes. */
  lemma ConfinedAgreesOnPlainNames(bookName: string, mode: Mode)
    requires '/' !in bookName
    ensures ConfinedContentPath(bookName, mode) == ContentPath(bookName, mode)
  {
    AbsoluteWithExtension(bookName, mode);
    assert !StartsWith(bookName, "/") by {
      if |bookName| > 0 { assert bookName[0] in bookName; }
    }
    assert BaseName(bookName) == bookName;
  }

  datatype StartReply = StartReply(taskId: string, path: string)

  const StartedMessage: string := "任务已启动"

  /** `start_download`: `newId` stands for `uuid4()` and `now` for the
      formatted clock. A missing or empty url raises 400 inside the handler's
      `try`, whose catch-all turns it into 500; no task is registered then. */
  function StartDownload(reg: Registry, body: Option<BodyRequest>, query: QueryRequest, newId: string, now: string)
    : (r: Result<(Registry, StartReply), HttpError>)
    ensures var d := SelectDownloadRequest(body, query);
      r.Failure? <==> d.novelUrl.None? || d.novelUrl == Some("")
    ensures r.Failure? ==> r.error.statusCode == 500
    ensures r.Success? ==>
      var (reg', reply) := r.value;
      var d := SelectDownloadRequest(body, query);
      && reply.taskId == newId
      && newId in reg'.entries
      && reg'.entries[newId].status == Running
      && reg'.entries[newId].progress == 0
      && reg'.entries[newId].currentChapter == 0
      && reg'.entries[newId].totalChapters == 0
      && reg'.entries[newId].bookName == d.bookName
      && reg'.entries[newId].startChapter == d.startChapter
      && reg'.entries[newId].endChapter == d.endChapter
      && reg'.entries[newId].path == reply.path
      && reply.path == ContentPath(d.bookName, d.mode)
      && reg'.entries[newId].novelUrl == d.novelUrl.value
      && reg'.entries[newId].taskId == newId
      && reg'.entries[newId].mode == d.mode
      && reg'.entries[newId].startTime == now
      && reg'.entries[newId].message == StartedMessage
      && reg'.entries[newId].error.None?
      && (forall id | id in reg.entries && id != newId :: id in reg'.entries && reg'.entries[id] == reg.entries[id])
      && (Valid(reg) ==> Valid(reg'))
  {
    var d := SelectDownloadRequest(body, query);
    if d.novelUrl.None? || d.novelUrl.value == "" then Failure(HttpError(500))
    else
      var path := ContentPath(d.bookName, d.mode);
      var t := ServerTask(Running, d.novelUrl.value, newId, d.bookName, d.startChapter, d.endChapter,
                          d.mode, path, 0, 0, 0, StartedMessage, now, None);
      Success((Put(reg, newId, t), StartReply(newId, path)))
  }

  // ---- run_download_task ----

  /** What the worker finds: no catalog file, a spider run that succeeds, or
      one that raises with the given text. */
  datatype WorkerOutcome = CatalogMissing | SpiderSucceeded | SpiderFailed(reason: string)

  /** The worker's first step: the task is marked running. */
  function WorkerBegin(reg: Registry, id: string): (r: Registry)
    ensures r.entries.Keys == reg.entries.Keys
    ensures id in reg.entries ==> r.entries[id].status == Running
    ensures Valid(reg) ==> Valid(r)
  {
    if id in reg.entries then SetStatus(reg, id, Running, "正在获取目录...") else reg
  }

  /** The worker's last step, which overwrites the status whatever it is. */
  function WorkerFinish(reg: Registry, id: string, outcome: WorkerOutcome): (r: Registry)
    ensures r.entries.Keys == reg.entries.Keys
    ensures forall k | k in reg.entries && k != id :: r.entries[k] == reg.entries[k]
    ensures Valid(reg) ==> Valid(r)
  {
    if id !in reg.entries then reg
    else match outcome
      case CatalogMissing => SetStatus(reg, id, Failed, "获取目录失败,目录文件不存在")
      case SpiderSucceeded => SetStatus(reg, id, Completed, "下载完成")
      case SpiderFailed(e) => Put(reg, id, reg.entries[id].(status := Failed, message := e, error := Some(e)))
  }

  /** `run_download_task` from start to end with no other event in between. */
  function RunDownloadTask(reg: Registry, id: string, outcome: WorkerOutcome): Registry {
    WorkerFinish(WorkerBegin(reg, id), id, outcome)
  }

  /** The worker's verdict: a missing catalog and a raising spider fail (the
      latter recording the error), a clean spider run completes. */
  lemma WorkerVerdict(reg: Registry, id: string, outcome: WorkerOutcome)
    requires id in reg.entries
    ensures var r := RunDownloadTask(reg, id, outcome);
      && id in r.entries
      && (outcome == SpiderSucceeded <==> r.entries[id].status == Completed)
      && (outcome != SpiderSucceeded <==> r.entries[id].status == Failed)
      && (outcome.SpiderFailed? ==> r.entries[id].error == Some(outcome.reason))
  {
  }

  // ---- stop_download ----

  /** `stop_download`: 404 for an unknown id, otherwise the status becomes
      stopped and nothing else changes. */
  function StopDownload(reg: Registry, id: string): (r: Result<Registry, HttpError>)
    ensures r.Failure? <==> id !in reg.entries
    ensures r.Failure? ==> r.error.statusCode == 404
    ensures r.Success? ==>
      && r.value.entries.Keys == reg.entries.Keys
      && r.value.entries[id] == reg.entries[id].(status := Stopped)
      && (forall k | k in reg.entries && k != id :: r.value.entries[k] == reg.entries[k])
      && (Valid(reg) ==> Valid(r.value))
  {
    if id !in reg.entries then Failure(HttpError(404))
    else Success(Put(reg, id, reg.entries[id].(status := Stopped)))
  }

  /** Stopping is not terminal: a worker that finishes afterwards overwrites
      the stopped status with completed or failed. */
  lemma StopIsOverwritten(reg: Registry, id: string, outcome: WorkerOutcome)
    requires id in reg.entries
    ensures StopDownload(reg, id).Success?
    ensures var r := WorkerFinish(StopDownload(reg, id).value, id, outcome);
      r.entries[id].status != Stopped
      && r.entries[id].status == (if outcome == SpiderSucceeded then Completed else Failed)
  {
  }

  // ---- download_status ----

  /** A progress file's fields; a key missing from the JSON is `None`. */
  datatype ProgressData = ProgressData(current: Option<int>, total: Option<int>, percentage: Option<int>, failedChapters: Option<seq<int>>)

  datatype StatusData = StatusData(
    taskId: string, status: ServerStatus, bookName: string, novelUrl: string,
    startChapter: int, endChapter: int,
    current: int, total: int, percentage: int, failedChapters: seq<int>)

  /** `download_status`: `progress` is the parsed progress file, `None` when
      the file is absent or unreadable. */
  function DownloadStatus(reg: Registry, id: string, progress: Option<ProgressData>): (r: Result<StatusData, HttpError>)
    ensures r.Failure? <==> id !in reg.entries
    ensures r.Failure? ==> r.error.statusCode == 404
    ensures r.Success? ==>
      var t := reg.entries[id];
      && r.value.taskId == id && r.value.status == t.status && r.value.bookName == t.bookName
      && r.value.startChapter == t.startChapter && r.value.endChapter == t.endChapter
      && r.value.novelUrl == t.novelUrl
      && (progress.None? ==> r.value.current == 0 && r.value.total == 0 && r.value.percentage == 0 && r.value.failedChapters == [])
      && (progress.Some? ==>
            && r.value.current == progress.value.current.GetOr(0)
            && r.value.total == progress.value.total.GetOr(0)
            && r.value.percentage == progress.value.percentage.GetOr(0)
            && r.value.failedChapters == progress.value.failedChapters.GetOr([]))
  {
    if id !in reg.entries then Failure(HttpError(404))
    else
      var t := reg.entries[id];
      var p := progress.GetOr(ProgressData(None, None, None, None));
      Success(StatusData(id, t.status, t.bookName, t.novelUrl, t.startChapter, t.endChapter,
                         p.current.GetOr(0), p.total.GetOr(0), p.percentage.GetOr(0), p.failedChapters.GetOr([])))
  }

  /** Right after a successful start, the status endpoint reports the new task
      as running with the requested range and all counters at zero. */
  lemma StartThenStatus(reg: Registry, body: Option<BodyRequest>, query: QueryRequest, newId: string, now: string)
    requires StartDownload(reg, body, query, newId, now).Success?
    ensures var (reg', _) := StartDownload(reg, body, query, newId, now).value;
      var d := SelectDownloadRequest(body, query);
      DownloadStatus(reg', newId, None)
        == Success(StatusData(newId, Running, d.bookName, d.novelUrl.value, d.startChapter, d.endChapter, 0, 0, 0, []))
  {
  }

  /** Once the spider has written a progress file, the status reports the
      new task's request together with the file's values, missing keys as 0
      and []. */
  lemma StartThenProgress(reg: Registry, body: Option<BodyRequest>, query: QueryRequest, newId: string, now: string,
                          p: ProgressData)
    requires StartDownload(reg, body, query, newId, now).Success?
    ensures var (reg', _) := StartDownload(reg, body, query, newId, now).value;
      var d := SelectDownloadRequest(body, query);
      DownloadStatus(reg', newId, Some(p))
        == Success(StatusData(newId, Running, d.bookName, d.novelUrl.value, d.startChapter, d.endChapter,
                              p.current.GetOr(0), p.total.GetOr(0), p.percentage.GetOr(0), p.failedChapters.GetOr([])))
  {
  }

  // ---- get_tasks ----

  datatype TaskSummary = TaskSummary(
    taskId: string, status: ServerStatus, bookName: string, novelUrl: string,
    startChapter: int, currentChapter: int, endChapter: int, startTime: string)

  /** `s` reports task `id`: its id, status, book, url, chapter range and
      start time from the entry, and the current chapter from its progress
      file, 0 when the key is missing. */
  predicate SummaryOf(s: TaskSummary, id: string, t: ServerTask, p: ProgressData) {
    && s.taskId == id && s.status == t.status && s.bookName == t.bookName && s.novelUrl == t.novelUrl
    && s.startChapter == t.startChapter && s.endChapter == t.endChapter && s.startTime == t.startTime
    && s.currentChapter == p.current.GetOr(0)
  }

  /** `get_tasks`: `progress` maps a task id to its parsed progress file. A
      task without one makes `.get` fail on `None`, so the whole call fails. */
  function GetTasks(reg: Registry, progress: map<string, ProgressData>): (r: Result<seq<TaskSummary>, HttpError>)
    requires Valid(reg)
    ensures r.Failure? <==> exists id | id in reg.order :: id !in progress
    ensures r.Failure? ==> r.error.statusCode == 500
    ensures r.Success? ==>
      && |r.value| == |reg.order|
      && forall i | 0 <= i < |reg.order| ::
        && SummaryOf(r.value[i], reg.order[i], reg.entries[reg.order[i]], progress[reg.order[i]])
  {
    Summaries(reg, reg.order, progress)
  }

  function Summaries(reg: Registry, ids: seq<string>, progress: map<string, ProgressData>): (r: Result<seq<TaskSummary>, HttpError>)
    requires forall id | id in ids :: id in reg.entries
    ensures r.Failure? <==> exists id | id in ids :: id !in progress
    ensures r.Failure? ==> r.error.statusCode == 500
    ensures r.Success? ==>
      && |r.value| == |ids|
      && forall i | 0 <= i < |ids| ::
        && SummaryOf(r.value[i], ids[i], reg.entries[ids[i]], progress[ids[i]])
  {
    if |ids| == 0 then Success([])
    else
      var id := ids[0];
      if id !in progress then Failure(HttpError(500))
      else
        match Summaries(reg, ids[1..], progress)
        case Failure(e) => Failure(e)
        case Success(rest) =>
          var t := reg.entries[id];
          Success([TaskSummary(id, t.status, t.bookName, t.novelUrl, t.startChapter,
                               progress[id].current.GetOr(0), t.endChapter, t.startTime)] + rest)
  }

  /** The task list and the status endpoint agree: each listed task reports
      the status, request and current chapter that `download_status` reports
      for it from the same progress file. */
  lemma SummariesAgreeWithStatus(reg: Registry, progress: map<string, ProgressData>, i: nat)
    requires Valid(reg)
    requires GetTasks(reg, progress).Success? && i < |reg.order|
    ensures var s := GetTasks(reg, progress).value[i];
      var st := DownloadStatus(reg, reg.order[i], Some(progress[reg.order[i]]));
      && st.Success?
      && s.taskId == st.value.taskId && s.status == st.value.status
      && s.bookName == st.value.bookName && s.novelUrl == st.value.novelUrl
      && s.startChapter == st.value.startChapter && s.endChapter == st.value.endChapter
      && s.currentChapter == st.value.current
  {
    assert reg.order[i] in reg.order;
  }

  // ---- request selection in novel_search and novel_catalog ----

  /** `novel_search`: a non-empty body keyword wins over the query; no keyword
      raises 400 inside the `try`, which the catch-all turns into 500. */
  function SelectKeyword(body: Option<string>, query: Option<string>): (r: Result<string, HttpError>)
    ensures r.Success? ==> r.value != ""
    ensures body.Some? && body.value != "" ==> r == Success(body.value)
    ensures (body.None? || body.value == "") && query.Some? && query.value != "" ==> r == Success(query.value)
    ensures r.Failure? ==> r.error.statusCode == 500
  {
    var k := if body.Some? && body.value != "" then body else query;
    if k.None? || k.value == "" then Failure(HttpError(500)) else Success(k.value)
  }

  /** One entry of the saved search results. */
  datatype SearchEntry = SearchEntry(urlList: string, articleName: Option<string>)

  datatype CatalogChoice = CatalogChoice(novelId: int, novelUrl: string, bookName: string)

  /** The id conversion of `novel_catalog`: a non-zero body id wins over the
      query, one is subtracted, and only an upper bound is checked; Python's
      negative indexing then counts from the end. A missing id fails on
      `None - 1` (500); missing search results give 404; an index below
      `-len` raises IndexError (500). */
  function SelectNovel(body: Option<int>, query: Option<int>, keywordSet: bool, results: Option<seq<SearchEntry>>)
    : (r: Result<CatalogChoice, HttpError>)
    ensures r.Success? ==> results.Some? && keywordSet
    ensures var id := if body.Some? && body.value != 0 then body else query;
      && (id.None? ==> r == Failure(HttpError(500)))
      && (id.Some? && results.Some? && keywordSet && 1 <= id.value <= |results.value| ==>
            r.Success? && r.value.novelId == id.value - 1
            && r.value.novelUrl == results.value[id.value - 1].urlList)
      && (id.Some? && results.Some? && keywordSet && id.value > |results.value| ==> r == Failure(HttpError(404)))
      && (id.Some? && (results.None? || !keywordSet) ==> r == Failure(HttpError(404)))
      && (id.Some? && results.Some? && keywordSet && id.value - 1 < -|results.value| ==> r == Failure(HttpError(500)))
      && (id.Some? && results.Some? && keywordSet && -|results.value| <= id.value - 1 < |results.value| ==>
            var k := if id.value - 1 < 0 then |results.value| + id.value - 1 else id.value - 1;
            r == Success(CatalogChoice(id.value - 1, results.value[k].urlList, results.value[k].articleName.GetOr("未知书名"))))
  {
    var id := if body.Some? && body.value != 0 then body else query;
    if id.None? then Failure(HttpError(500))
    else
      var v := id.value - 1;
      if results.None? || !keywordSet then Failure(HttpError(404))
      else
        var rs := results.value;
        if v >= |rs| then Failure(HttpError(404))
        else if v < -|rs| then Failure(HttpError(500))
        else
          var e := rs[if v < 0 then |rs| + v else v];
          Success(CatalogChoice(v, e.urlList, e.articleName.GetOr("未知书名")))
  }

  /** The missing lower-bound check: id 0 selects the last search result. */
  lemma ZeroIdSelectsLast(results: seq<SearchEntry>)
    requires |results| > 0
    ensures SelectNovel(None, Some(0), true, Some(results))
      == Success(CatalogChoice(-1, results[|results| - 1].urlList, results[|results| - 1].articleName.GetOr("未知书名")))
  {
  }
}
