/** The client's download-task list (the `download` Pinia store): an ordered
    list of tasks, three derived status views, and the list operations the
    presentation layer calls. The status vocabulary is the one this store's
    task type uses, with `downloading` for a task in progress. */
module DownloadStore {
  import opened Wrappers
  import opened Seqs

  datatype TaskStatus = Pending | Downloading | Completed | Failed | Stopped

  datatype DownloadTask = DownloadTask(
    id: string,
    bookName: string,
    status: TaskStatus,
    progress: int,
    currentChapter: Option<string>,
    totalChapters: Option<int>,
    downloadedChapters: Option<int>,
    error: Option<string>,
    createdAt: int)

  /** A `Partial<DownloadTask>`: each present field overrides the task's. */
  datatype TaskUpdate = TaskUpdate(
    id: Option<string>,
    bookName: Option<string>,
    status: Option<TaskStatus>,
    progress: Option<int>,
    currentChapter: Option<string>,
    totalChapters: Option<int>,
    downloadedChapters: Option<int>,
    error: Option<string>,
    createdAt: Option<int>)

  /** `{ ...task, ...updates }`. */
  function Merge(t: DownloadTask, u: TaskUpdate): DownloadTask {
    DownloadTask(
      u.id.GetOr(t.id),
      u.bookName.GetOr(t.bookName),
      u.status.GetOr(t.status),
      u.progress.GetOr(t.progress),
      if u.currentChapter.Some? then u.currentChapter else t.currentChapter,
      if u.totalChapters.Some? then u.totalChapters else t.totalChapters,
      if u.downloadedChapters.Some? then u.downloadedChapters else t.downloadedChapters,
      if u.error.Some? then u.error else t.error,
      u.createdAt.GetOr(t.createdAt))
  }

  // ---- status views ----

  function IsActive(t: DownloadTask): bool {
    t.status == Downloading || t.status == Pending
  }

  function IsCompleted(t: DownloadTask): bool {
    t.status == Completed
  }

  function IsFailed(t: DownloadTask): bool {
    t.status == Failed
  }

  function IsStopped(t: DownloadTask): bool {
    t.status == Stopped
  }

  function IsNotCompleted(t: DownloadTask): bool {
    t.status != Completed
  }

  /** `activeTasks`: the tasks downloading or pending, in list order. */
  function ActiveTasks(ts: seq<DownloadTask>): (r: seq<DownloadTask>)
    ensures forall t | t in r :: t in ts && (t.status == Downloading || t.status == Pending)
    ensures forall i | 0 <= i < |ts| && ts[i].status in {Downloading, Pending} :: ts[i] in r
    ensures IsSubsequence(r, ts)
  {
    FilterIsSubsequence(ts, IsActive);
    Filter(ts, IsActive)
  }

  /** `completedTasks`: the completed tasks, in list order. */
  function CompletedTasks(ts: seq<DownloadTask>): (r: seq<DownloadTask>)
    ensures forall t | t in r :: t in ts && t.status == Completed
    ensures forall i | 0 <= i < |ts| && ts[i].status == Completed :: ts[i] in r
    ensures IsSubsequence(r, ts)
  {
    FilterIsSubsequence(ts, IsCompleted);
    Filter(ts, IsCompleted)
  }

  /** `failedTasks`: the failed tasks, in list order. */
  function FailedTasks(ts: seq<DownloadTask>): (r: seq<DownloadTask>)
    ensures forall t | t in r :: t in ts && t.status == Failed
    ensures forall i | 0 <= i < |ts| && ts[i].status == Failed :: ts[i] in r
    ensures IsSubsequence(r, ts)
  {
    FilterIsSubsequence(ts, IsFailed);
    Filter(ts, IsFailed)
  }

  /** The three views are pairwise disjoint and a stopped task is in none. */
  lemma ViewsDisjoint(ts: seq<DownloadTask>, t: DownloadTask)
    ensures !(t in ActiveTasks(ts) && t in CompletedTasks(ts))
    ensures !(t in ActiveTasks(ts) && t in FailedTasks(ts))
    ensures !(t in CompletedTasks(ts) && t in FailedTasks(ts))
    ensures t.status == Stopped ==>
      t !in ActiveTasks(ts) && t !in CompletedTasks(ts) && t !in FailedTasks(ts)
  {
  }

  /** Every task is counted in exactly one of the three views or is stopped. */
  lemma {:induction false} ViewsPartition(ts: seq<DownloadTask>)
    ensures |ActiveTasks(ts)| + |CompletedTasks(ts)| + |FailedTasks(ts)| + |Filter(ts, IsStopped)| == |ts|
    decreases |ts|
  {
    if |ts| > 0 {
      ViewsPartition(ts[1..]);
    }
  }

  // ---- list operations ----

  /** `addTask`: the task goes at the end; earlier tasks keep their order. */
  function AddTask(ts: seq<DownloadTask>, t: DownloadTask): (r: seq<DownloadTask>)
    ensures |r| == |ts| + 1 && r[..|ts|] == ts && r[|ts|] == t
  {
    ts + [t]
  }

  /** Adding a task extends exactly the view its status belongs to, at the end. */
  lemma AddTaskViews(ts: seq<DownloadTask>, t: DownloadTask)
    ensures ActiveTasks(AddTask(ts, t)) == ActiveTasks(ts) + (if IsActive(t) then [t] else [])
    ensures CompletedTasks(AddTask(ts, t)) == CompletedTasks(ts) + (if IsCompleted(t) then [t] else [])
    ensures FailedTasks(AddTask(ts, t)) == FailedTasks(ts) + (if IsFailed(t) then [t] else [])
  {
    assert AddTask(ts, t) == ts + [t];
    FilterAppend(ts, t, IsActive);
    FilterAppend(ts, t, IsCompleted);
    FilterAppend(ts, t, IsFailed);
  }

  /** `j` is the index `findIndex(task => task.id === id)` returns. */
  predicate IsFirstWithId(ts: seq<DownloadTask>, id: string, j: int) {
    0 <= j < |ts| && ts[j].id == id && forall k | 0 <= k < j :: ts[k].id != id
  }

  /** `findIndex`, with `None` for -1. */
  function FindTask(ts: seq<DownloadTask>, id: string): (r: Option<nat>)
    ensures r.Some? ==> IsFirstWithId(ts, id, r.value)
    ensures r.None? ==> forall k | 0 <= k < |ts| :: ts[k].id != id
  {
    if |ts| == 0 then None
    else if ts[0].id == id then Some(0)
    else
      match FindTask(ts[1..], id)
      case None => None
      case Some(j) => Some(j + 1)
  }

  /** `updateTask`: merges the update into the first task carrying `id`;
      every other entry, and the length, are unchanged, and an unknown id
      changes nothing. */
  function UpdateTask(ts: seq<DownloadTask>, id: string, u: TaskUpdate): (r: seq<DownloadTask>)
    ensures |r| == |ts|
    ensures forall j | 0 <= j < |ts| ::
      r[j] == if IsFirstWithId(ts, id, j) then Merge(ts[j], u) else ts[j]
    ensures (forall k | 0 <= k < |ts| :: ts[k].id != id) ==> r == ts
  {
    match FindTask(ts, id)
    case None => ts
    case Some(i) => ts[i := Merge(ts[i], u)]
  }

  /** A later duplicate of the id is left untouched by `updateTask`. */
  lemma UpdateSkipsLaterDuplicates(ts: seq<DownloadTask>, id: string, u: TaskUpdate, i: nat, j: nat)
    requires i < j < |ts| && ts[i].id == id && ts[j].id == id
    ensures UpdateTask(ts, id, u)[j] == ts[j]
  {
    assert !IsFirstWithId(ts, id, j);
  }

  /** `removeTask`: drops every task carrying `id` and keeps the rest in order. */
  function RemoveTask(ts: seq<DownloadTask>, id: string): (r: seq<DownloadTask>)
    ensures forall t | t in r :: t in ts && t.id != id
    ensures forall i | 0 <= i < |ts| && ts[i].id != id :: ts[i] in r
    ensures IsSubsequence(r, ts)
    ensures forall t :: multiset(r)[t] == if t.id != id then multiset(ts)[t] else 0
  {
    FilterIsSubsequence(ts, (t: DownloadTask) => t.id != id);
    assert forall t :: multiset(Filter(ts, (t: DownloadTask) => t.id != id))[t] == if ((t: DownloadTask) => t.id != id)(t) then multiset(ts)[t] else 0 by {
      forall t { FilterCount(ts, (t: DownloadTask) => t.id != id, t); }
    }
    Filter(ts, (t: DownloadTask) => t.id != id)
  }

  /** `clearCompleted`: drops exactly the completed tasks, keeping order. */
  function ClearCompleted(ts: seq<DownloadTask>): (r: seq<DownloadTask>)
    ensures forall t | t in r :: t in ts && t.status != Completed
    ensures forall i | 0 <= i < |ts| && ts[i].status != Completed :: ts[i] in r
    ensures IsSubsequence(r, ts)
    ensures forall t :: multiset(r)[t] == if t.status != Completed then multiset(ts)[t] else 0
  {
    FilterIsSubsequence(ts, IsNotCompleted);
    assert forall t :: multiset(Filter(ts, IsNotCompleted))[t] == if (IsNotCompleted)(t) then multiset(ts)[t] else 0 by {
      forall t { FilterCount(ts, IsNotCompleted, t); }
    }
    Filter(ts, IsNotCompleted)
  }

  /** Clearing completed tasks empties the completed view and leaves the
      active and failed views exactly as they were. */
  lemma {:induction false} ClearCompletedViews(ts: seq<DownloadTask>)
    ensures CompletedTasks(ClearCompleted(ts)) == []
    ensures ActiveTasks(ClearCompleted(ts)) == ActiveTasks(ts)
    ensures FailedTasks(ClearCompleted(ts)) == FailedTasks(ts)
    decreases |ts|
  {
    if |ts| > 0 {
      ClearCompletedViews(ts[1..]);
    }
  }
}
