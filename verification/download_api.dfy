/** The client's download API wrappers: they check the service's reply, fill
    defaults into every task-status record (`||` replaces a missing, empty or
    zero value), and turn every failure into a fixed-shape error payload. The
    HTTP call itself is a parameter: the reply body or the error it raised. */
module DownloadApi {
  import opened Wrappers
  import opened Text
  import opened HttpRetry

  /** A task-status record as it arrives: every field may be missing. */
  datatype RawStatus = RawStatus(
    taskId: Option<string>,
    status: Option<string>,
    bookName: Option<string>,
    novelUrl: Option<string>,
    startChapter: Option<int>,
    endChapter: Option<int>,
    current: Option<int>,
    total: Option<int>,
    percentage: Option<int>,
    failedChapters: Option<seq<int>>,
    createdAt: Option<string>,
    updatedAt: Option<string>,
    errorMessage: Option<string>,
    downloadSpeed: Option<string>,
    estimatedTime: Option<string>)

  /** A `DownloadStatus` after normalisation. */
  datatype StatusRecord = StatusRecord(
    taskId: string,
    status: string,
    bookName: string,
    novelUrl: string,
    startChapter: int,
    endChapter: int,
    current: int,
    total: int,
    percentage: int,
    failedChapters: seq<int>,
    createdAt: Option<string>,
    updatedAt: Option<string>,
    errorMessage: Option<string>,
    downloadSpeed: Option<string>,
    estimatedTime: Option<string>)

  /** `n || d` for a number: zero is falsy. */
  function OrNumber(n: Option<int>, d: int): (r: int)
    ensures n.Some? && n.value != 0 ==> r == n.value
    ensures (n.None? || n.value == 0) ==> r == d
  {
    if n.Some? && n.value != 0 then n.value else d
  }

  const UnknownBookName: string := "未知书名"

  /** The defaults shared by `getDownloadStatus` and `getDownloadTasks`;
      `fallbackId` replaces a missing task id. */
  function Normalise(r: RawStatus, fallbackId: string): (n: StatusRecord)
    ensures n.status != "" && n.bookName != ""
    ensures n.startChapter != 0 && n.endChapter != 0
    ensures r.taskId.Some? && r.taskId.value != "" ==> n.taskId == r.taskId.value
    ensures (r.taskId.None? || r.taskId.value == "") ==> n.taskId == fallbackId
    ensures r.status.None? ==> n.status == "pending"
    ensures r.startChapter == Some(0) ==> n.startChapter == 1
    ensures r.current == Some(0) || r.current.None? ==> n.current == 0
    ensures r.failedChapters.None? ==> n.failedChapters == []
    ensures n.bookName == OrString(r.bookName, UnknownBookName) && n.novelUrl == OrString(r.novelUrl, "")
    ensures n.status == OrString(r.status, "pending")
    ensures n.startChapter == OrNumber(r.startChapter, 1) && n.endChapter == OrNumber(r.endChapter, 1)
    ensures n.current == OrNumber(r.current, 0) && n.total == OrNumber(r.total, 0)
    ensures n.percentage == OrNumber(r.percentage, 0)
    ensures n.failedChapters == r.failedChapters.GetOr([])
    ensures n.createdAt == r.createdAt && n.updatedAt == r.updatedAt && n.errorMessage == r.errorMessage
    ensures n.downloadSpeed == r.downloadSpeed && n.estimatedTime == r.estimatedTime
  {
    StatusRecord(
      OrString(r.taskId, fallbackId),
      OrString(r.status, "pending"),
      OrString(r.bookName, UnknownBookName),
      OrString(r.novelUrl, ""),
      OrNumber(r.startChapter, 1),
      OrNumber(r.endChapter, 1),
      OrNumber(r.current, 0),
      OrNumber(r.total, 0),
      OrNumber(r.percentage, 0),
      r.failedChapters.GetOr([]),
      r.createdAt, r.updatedAt, r.errorMessage, r.downloadSpeed, r.estimatedTime)
  }

  /** A normalised record sent back through the same code, every field present. */
  function ToRaw(n: StatusRecord): RawStatus {
    RawStatus(Some(n.taskId), Some(n.status), Some(n.bookName), Some(n.novelUrl),
              Some(n.startChapter), Some(n.endChapter), Some(n.current), Some(n.total),
              Some(n.percentage), Some(n.failedChapters),
              n.createdAt, n.updatedAt, n.errorMessage, n.downloadSpeed, n.estimatedTime)
  }

  /** Normalisation is idempotent: a normalised record comes back unchanged. */
  lemma NormaliseIdempotent(r: RawStatus, fallbackId: string)
    ensures Normalise(ToRaw(Normalise(r, fallbackId)), fallbackId) == Normalise(r, fallbackId)
  {
  }

  /** A record that needs no default is reproduced exactly. */
  lemma NormaliseKeepsCompleteRecords(n: StatusRecord, fallbackId: string)
    requires n.taskId != "" && n.status != "" && n.bookName != ""
    requires n.startChapter != 0 && n.endChapter != 0
    ensures Normalise(ToRaw(n), fallbackId) == n
  {
  }

  /** Because `||` is used, a reported 0 or '' is replaced as if missing. */
  lemma FalsyValuesReplaced(r: RawStatus, fallbackId: string)
    requires r.taskId == Some("") && r.startChapter == Some(0) && r.bookName == Some("")
    ensures Normalise(r, fallbackId).taskId == fallbackId
    ensures Normalise(r, fallbackId).startChapter == 1
    ensures Normalise(r, fallbackId).bookName == UnknownBookName
  {
  }

  // ---- startDownload ----

  /** The reply body of the start endpoint. */
  datatype StartReply = StartReply(status: string, message: string, taskId: Option<string>)

  /** The payload every failed call throws. */
  datatype StartFailure = StartFailure(status: string, message: string, taskId: string)

  const StartDefaultMessage: string := "下载任务创建失败，请重试"
  const MissingTaskIdMessage: string := "下载任务创建失败：未返回任务ID"

  /** `startDownload`: a reply without a task id is a failure; every failure
      is rethrown with status 'error' and an empty task id, with a fixed text
      for a network error and the error's own text otherwise. */
  function StartDownload(reply: Result<StartReply, ApiError>): (r: Result<StartReply, StartFailure>)
    ensures r.Success? <==> reply.Success? && reply.value.taskId.Some? && reply.value.taskId.value != ""
    ensures r.Success? ==> r.value == reply.value
    ensures r.Failure? ==> r.error.status == "error" && r.error.taskId == "" && r.error.message != ""
    ensures reply.Failure? && reply.error.code == Some("NETWORK_ERROR") ==> r.error.message == NetworkErrorMessage
    ensures reply.Success? && r.Failure? ==> r.error.message == MissingTaskIdMessage
    ensures reply.Failure? && reply.error.code != Some("NETWORK_ERROR") ==>
      r.error.message == OrString(Some(reply.error.message), StartDefaultMessage)
  {
    var err := match reply
      case Success(body) =>
        if body.taskId.Some? && body.taskId.value != "" then None
        else Some(ApiError(None, MissingTaskIdMessage, None))
      case Failure(e) => Some(e);
    if err.None? then Success(reply.value)
    else if err.value.code == Some("NETWORK_ERROR") then Failure(StartFailure("error", NetworkErrorMessage, ""))
    else Failure(StartFailure("error", OrString(Some(err.value.message), StartDefaultMessage), ""))
  }

  // ---- getDownloadStatus ----

  datatype StatusReply = StatusReply(status: string, message: string, data: Option<RawStatus>)

  datatype StatusResponse = StatusResponse(status: string, message: string, data: StatusRecord)

  datatype StatusFailure = StatusFailure(status: string, message: string, data: StatusRecord)

  const StatusDefaultMessage: string := "获取下载状态失败"
  const EmptyStatusMessage: string := "获取下载状态失败：响应数据为空"

  /** The record a failed status call carries: the requested id, status
      'failed', empty text and every counter at zero. */
  function FailedRecord(taskId: string): StatusRecord {
    StatusRecord(taskId, "failed", "", "", 0, 0, 0, 0, 0, [], None, None, None, None, None)
  }

  /** `getDownloadStatus`: a reply without data fails; data is normalised with
      the requested id as fallback; every failure carries `FailedRecord`. */
  function GetDownloadStatus(taskId: string, reply: Result<StatusReply, ApiError>): (r: Result<StatusResponse, StatusFailure>)
    ensures r.Success? <==> reply.Success? && reply.value.data.Some?
    ensures r.Success? ==> r.value.data == Normalise(reply.value.data.value, taskId)
                           && r.value.status == reply.value.status && r.value.message == reply.value.message
    ensures r.Failure? ==>
      && r.error.status == "error"
      && r.error.data.taskId == taskId && r.error.data.status == "failed"
      && r.error.data.current == 0 && r.error.data.total == 0 && r.error.data.percentage == 0
      && r.error.data.failedChapters == []
      && r.error.data.bookName == "" && r.error.data.novelUrl == ""
      && r.error.data.startChapter == 0 && r.error.data.endChapter == 0
      && r.error.message != ""
    ensures reply.Success? && r.Failure? ==> r.error.message == EmptyStatusMessage
    ensures reply.Failure? ==> r.error.message == OrString(Some(reply.error.message), StatusDefaultMessage)
  {
    match reply
    case Failure(e) => Failure(StatusFailure("error", OrString(Some(e.message), StatusDefaultMessage), FailedRecord(taskId)))
    case Success(body) =>
      if body.data.None? then Failure(StatusFailure("error", EmptyStatusMessage, FailedRecord(taskId)))
      else Success(StatusResponse(body.status, body.message, Normalise(body.data.value, taskId)))
  }

  // ---- getDownloadTasks ----

  /** `data` is `None` when it is missing or not an array. */
  datatype TasksReply = TasksReply(status: string, message: string, data: Option<seq<RawStatus>>)

  datatype TasksResponse = TasksResponse(status: string, message: string, data: seq<StatusRecord>)

  datatype TasksFailure = TasksFailure(status: string, message: string, data: seq<StatusRecord>)

  const TasksDefaultMessage: string := "获取下载任务列表失败"

  function NormaliseAll(rs: seq<RawStatus>): (ns: seq<StatusRecord>)
    ensures |ns| == |rs|
    ensures forall i | 0 <= i < |rs| :: ns[i] == Normalise(rs[i], "")
  {
    if |rs| == 0 then [] else [Normalise(rs[0], "")] + NormaliseAll(rs[1..])
  }

  /** `getDownloadTasks`: non-array data becomes the empty list; each element
      is normalised (missing ids become ''), keeping length and order; a
      failure carries an empty list. */
  function GetDownloadTasks(reply: Result<TasksReply, ApiError>): (r: Result<TasksResponse, TasksFailure>)
    ensures r.Success? <==> reply.Success?
    ensures r.Success? && reply.value.data.None? ==> r.value.data == []
    ensures r.Success? && reply.value.data.Some? ==>
      && |r.value.data| == |reply.value.data.value|
      && forall i | 0 <= i < |r.value.data| :: r.value.data[i] == Normalise(reply.value.data.value[i], "")
    ensures r.Success? ==> r.value.status == reply.value.status && r.value.message == reply.value.message
    ensures r.Failure? ==> r.error.status == "error" && r.error.data == [] && r.error.message != ""
    ensures reply.Failure? ==> r.error.message == OrString(Some(reply.error.message), TasksDefaultMessage)
  {
    match reply
    case Failure(e) => Failure(TasksFailure("error", OrString(Some(e.message), TasksDefaultMessage), []))
    case Success(body) => Success(TasksResponse(body.status, body.message, NormaliseAll(body.data.GetOr([]))))
  }

  /** Listing the normalised tasks again changes nothing. */
  lemma GetDownloadTasksIdempotent(reply: TasksReply)
    ensures var r := GetDownloadTasks(Success(reply)).value;
      var again := seq(|r.data|, i requires 0 <= i < |r.data| => ToRaw(r.data[i]));
      GetDownloadTasks(Success(TasksReply(r.status, r.message, Some(again)))).value == r
  {
    var r := GetDownloadTasks(Success(reply)).value;
    var again := seq(|r.data|, i requires 0 <= i < |r.data| => ToRaw(r.data[i]));
    forall i | 0 <= i < |r.data|
      ensures Normalise(again[i], "") == r.data[i]
    {
      NormaliseIdempotent(reply.data.value[i], "");
    }
  }
}
