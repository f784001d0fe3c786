/** The download queue: a bounded list of download tasks with completed/failed
  * counters, filled by add_to_download_queue and drained by one worker thread.
  * Every section that runs under the queue mutex is one pure transition here. */
module DownloadQueue {
  import opened Options
  import opened Filenames

  /** MAX_DOWNLOAD_QUEUE. */
  const MaxQueue := 1000

  datatype Status = Pending | Active | Completed | Failed

  /** A DownloadTask; `playlist` is "" for songs that go to the download root. */
  datatype Task = Task(videoId: string, title: string, filename: string, playlist: string, status: Status)

  /** The shared part of DownloadQueue: tasks in insertion order (never compacted),
    * the counters, and the worker's `current_idx` / `active` fields. */
  datatype Queue = Queue(tasks: seq<Task>, completed: int, failed: int, currentIdx: int, active: bool)

  /** The queue as the program starts: zeroed, with `current_idx = -1`. */
  const EmptyQueue := Queue([], 0, 0, -1, false)

  /** How many tasks have status `st`. */
  function CountStatus(tasks: seq<Task>, st: Status): (n: nat)
    ensures n <= |tasks|
  {
    if tasks == [] then 0
    else CountStatus(tasks[..|tasks| - 1], st) + (if tasks[|tasks| - 1].status == st then 1 else 0)
  }

  lemma CountAppend(tasks: seq<Task>, t: Task, st: Status)
    ensures CountStatus(tasks + [t], st) == CountStatus(tasks, st) + (if t.status == st then 1 else 0)
  {
    assert (tasks + [t])[..|tasks|] == tasks;
  }

  lemma CountPrefixStep(tasks: seq<Task>, i: nat, st: Status)
    requires i < |tasks|
    ensures CountStatus(tasks[..i + 1], st) == CountStatus(tasks[..i], st) + (if tasks[i].status == st then 1 else 0)
  {
    assert tasks[..i + 1][..i] == tasks[..i];
  }

  lemma {:induction false} CountUpdate(tasks: seq<Task>, i: nat, t: Task, st: Status)
    requires i < |tasks|
    ensures CountStatus(tasks[i := t], st)
         == CountStatus(tasks, st) - (if tasks[i].status == st then 1 else 0) + (if t.status == st then 1 else 0)
  {
    var n := |tasks|;
    if i == n - 1 {
      assert tasks[i := t][..n - 1] == tasks[..n - 1];
    } else {
      assert tasks[i := t][..n - 1] == tasks[..n - 1][i := t];
      CountUpdate(tasks[..n - 1], i, t, st);
    }
  }

  lemma {:induction false} CountNone(tasks: seq<Task>, st: Status)
    requires forall i :: 0 <= i < |tasks| ==> tasks[i].status != st
    ensures CountStatus(tasks, st) == 0
  {
    if tasks != [] {
      CountNone(tasks[..|tasks| - 1], st);
    }
  }

  /** Two different statuses together cover at most every task once. */
  lemma {:induction false} CountTwoStatuses(tasks: seq<Task>, a: Status, b: Status)
    requires a != b
    ensures CountStatus(tasks, a) + CountStatus(tasks, b) <= |tasks|
  {
    if tasks != [] {
      CountTwoStatuses(tasks[..|tasks| - 1], a, b);
    }
  }

  /** When every task with status `st` sits at index `c`, at most one has it. */
  lemma {:induction false} CountAtOneIndex(tasks: seq<Task>, st: Status, c: int)
    requires forall i :: 0 <= i < |tasks| && tasks[i].status == st ==> i == c
    ensures CountStatus(tasks, st) <= 1
  {
    if tasks != [] {
      var n := |tasks|;
      if n - 1 == c {
        CountNone(tasks[..n - 1], st);
      } else {
        CountAtOneIndex(tasks[..n - 1], st, c);
      }
    }
  }

  /** Some task for `id` is waiting to be downloaded. */
  predicate HasPendingId(tasks: seq<Task>, id: string) {
    exists i :: 0 <= i < |tasks| && tasks[i].videoId == id && tasks[i].status == Pending
  }

  /** No two PENDING tasks share an id. */
  ghost predicate NoDuplicatePending(tasks: seq<Task>) {
    forall i, j :: 0 <= i < j < |tasks| && tasks[i].status == Pending && tasks[j].status == Pending
      ==> tasks[i].videoId != tasks[j].videoId
  }

  // ---------------------------------------------------------------------------
  // add_to_download_queue
  // ---------------------------------------------------------------------------

  /** The directory a task downloads into: the root, or root/playlist. */
  function DestDir(root: string, playlist: string): string {
    if playlist != [] then root + "/" + playlist else root
  }

  /** The result categories of add_to_download_queue. */
  datatype Outcome = Added | AlreadyPresent | AlreadyQueued | Rejected {
    /** The int the C function returns. */
    function Code(): int {
      match this
      case Added => 1
      case AlreadyPresent => 0
      case AlreadyQueued => 0
      case Rejected => -1
    }
  }

  /** The task add_to_download_queue appends. */
  function NewTask(id: string, title: Option<string>, playlist: Option<string>): Task {
    Task(id, title.GetOr("Unknown"), SanitizeTitle(title, id), playlist.GetOr(""), Pending)
  }

  /** add_to_download_queue, with the download tree given as `dirs` and the
    * configured download path as `root`. The checks run in the C function's order:
    * empty id, file already downloaded, id already PENDING, queue full. */
  function Enqueue(q: Queue, dirs: Dirs, root: string, id: Option<string>, title: Option<string>,
                   playlist: Option<string>): (r: (Outcome, Queue))
    ensures r.0 != Added ==> r.1 == q
    ensures (id.None? || id.value == []) ==> r.0 == Rejected
    ensures id.Some? && id.value != [] ==>
              var present := FileExistsForVideo(dirs, DestDir(root, playlist.GetOr("")), id.value);
              && (r.0 == AlreadyPresent <==> present)
              && (r.0 == AlreadyQueued <==> !present && HasPendingId(q.tasks, id.value))
              && (r.0 == Rejected <==> !present && !HasPendingId(q.tasks, id.value) && |q.tasks| >= MaxQueue)
    ensures r.0 == Added ==>
              && |r.1.tasks| == |q.tasks| + 1
              && r.1.tasks[..|q.tasks|] == q.tasks
              && r.1.tasks[|q.tasks|] == NewTask(id.value, title, playlist)
              && r.1.completed == q.completed && r.1.failed == q.failed
              && r.1.currentIdx == q.currentIdx && r.1.active == q.active
  {
    if id.None? || id.value == [] then (Rejected, q)
    else if FileExistsForVideo(dirs, DestDir(root, playlist.GetOr("")), id.value) then (AlreadyPresent, q)
    else if HasPendingId(q.tasks, id.value) then (AlreadyQueued, q)
    else if |q.tasks| >= MaxQueue then (Rejected, q)
    else
      var tasks := q.tasks + [NewTask(id.value, title, playlist)];
      assert tasks[..|q.tasks|] == q.tasks;
      (Added, q.(tasks := tasks))
  }

  // ---------------------------------------------------------------------------
  // The worker: claim under the lock, fetch outside it, record under the lock
  // ---------------------------------------------------------------------------

  /** The lowest index whose task is PENDING. */
  function FirstPending(tasks: seq<Task>, from: nat): (r: Option<nat>)
    requires from <= |tasks|
    ensures r.Some? ==> from <= r.value < |tasks| && tasks[r.value].status == Pending
    ensures r.Some? ==> forall j :: from <= j < r.value ==> tasks[j].status != Pending
    ensures r.None? ==> forall j :: from <= j < |tasks| ==> tasks[j].status != Pending
    decreases |tasks| - from
  {
    if from == |tasks| then None
    else if tasks[from].status == Pending then Some(from)
    else FirstPending(tasks, from + 1)
  }

  /** The claim step of download_thread_func: the lowest-index PENDING task becomes
    * ACTIVE and `current_idx` points at it; when nothing is PENDING the worker
    * goes idle (`active = false`, `current_idx = -1`). No other task and no
    * counter changes. */
  function Claim(q: Queue): (r: Queue)
    ensures |r.tasks| == |q.tasks| && r.completed == q.completed && r.failed == q.failed
    ensures (forall j :: 0 <= j < |q.tasks| ==> q.tasks[j].status != Pending) ==>
              r == q.(active := false, currentIdx := -1)
    ensures (exists j :: 0 <= j < |q.tasks| && q.tasks[j].status == Pending) ==>
              && r.active
              && 0 <= r.currentIdx < |q.tasks|
              && q.tasks[r.currentIdx].status == Pending
              && (forall j :: 0 <= j < r.currentIdx ==> q.tasks[j].status != Pending)
              && r.tasks == q.tasks[r.currentIdx := q.tasks[r.currentIdx].(status := Active)]
  {
    match FirstPending(q.tasks, 0)
    case None => q.(active := false, currentIdx := -1)
    case Some(i) => q.(tasks := q.tasks[i := q.tasks[i].(status := Active)], currentIdx := i, active := true)
  }

  /** The locked scan of download_thread_func as the loop it is. */
  method ClaimNext(q: Queue) returns (r: Queue, idx: int)
    ensures r == Claim(q)
    ensures idx == r.currentIdx
  {
    var i := 0;
    while i < |q.tasks|
      invariant 0 <= i <= |q.tasks|
      invariant forall j :: 0 <= j < i ==> q.tasks[j].status != Pending
    {
      if q.tasks[i].status == Pending {
        idx := i;
        r := q.(tasks := q.tasks[i := q.tasks[i].(status := Active)], currentIdx := i, active := true);
        return;
      }
      i := i + 1;
    }
    idx := -1;
    r := q.(active := false, currentIdx := -1);
  }

  /** Whether the worker's fetch counts as a success: the destination file was
    * already there (the second check before fetching), or the fetch command
    * exited with status 0 and the file now exists. */
  function FetchSucceeded(alreadyThere: bool, exitStatus: int, existsAfter: bool): bool {
    alreadyThere || (exitStatus == 0 && existsAfter)
  }

  /** The record step of download_thread_func for the task the worker claimed. */
  function Record(q: Queue, idx: nat, fetched: bool): Queue
    requires idx < |q.tasks|
  {
    if fetched then
      q.(tasks := q.tasks[idx := q.tasks[idx].(status := Completed)], completed := q.completed + 1)
    else
      q.(tasks := q.tasks[idx := q.tasks[idx].(status := Failed)], failed := q.failed + 1)
  }

  /** Recording a result moves the claimed task from ACTIVE to COMPLETED or FAILED,
    * touches no other task, and raises exactly the matching counter, which
    * therefore keeps counting the tasks with that status. */
  lemma RecordStep(q: Queue, idx: nat, fetched: bool)
    requires idx < |q.tasks| && q.tasks[idx].status == Active
    requires q.completed == CountStatus(q.tasks, Completed) && q.failed == CountStatus(q.tasks, Failed)
    ensures var r := Record(q, idx, fetched);
            && |r.tasks| == |q.tasks|
            && (forall j :: 0 <= j < |q.tasks| && j != idx ==> r.tasks[j] == q.tasks[j])
            && r.tasks[idx].status == (if fetched then Completed else Failed)
            && r.completed == CountStatus(r.tasks, Completed)
            && r.failed == CountStatus(r.tasks, Failed)
            && CountStatus(r.tasks, Active) == CountStatus(q.tasks, Active) - 1
            && (fetched ==> r.failed == q.failed) && (!fetched ==> r.completed == q.completed)
  {
    var r := Record(q, idx, fetched);
    var t := r.tasks[idx];
    CountUpdate(q.tasks, idx, t, Completed);
    CountUpdate(q.tasks, idx, t, Failed);
    CountUpdate(q.tasks, idx, t, Active);
  }

  // ---------------------------------------------------------------------------
  // get_pending_download_count
  // ---------------------------------------------------------------------------

  /** get_pending_download_count: the tasks still to be finished, PENDING or ACTIVE. */
  method PendingDownloadCount(q: Queue) returns (n: int)
    ensures n == CountStatus(q.tasks, Pending) + CountStatus(q.tasks, Active)
    ensures 0 <= n <= |q.tasks|
  {
    n := 0;
    var i := 0;
    while i < |q.tasks|
      invariant 0 <= i <= |q.tasks|
      invariant n == CountStatus(q.tasks[..i], Pending) + CountStatus(q.tasks[..i], Active)
    {
      CountPrefixStep(q.tasks, i, Pending);
      CountPrefixStep(q.tasks, i, Active);
      if q.tasks[i].status == Pending || q.tasks[i].status == Active {
        n := n + 1;
      }
      i := i + 1;
    }
    assert q.tasks[..i] == q.tasks;
    CountTwoStatuses(q.tasks, Pending, Active);
  }

  // ---------------------------------------------------------------------------
  // Invariants of the queue under one producer and one worker
  // ---------------------------------------------------------------------------

  /** The queue invariant: within capacity, ACTIVE only at `current_idx`, no two
    * PENDING tasks with one id, no empty id, counters equal to the numbers of
    * COMPLETED and FAILED tasks. */
  ghost predicate Valid(q: Queue) {
    && |q.tasks| <= MaxQueue
    && (forall i :: 0 <= i < |q.tasks| && q.tasks[i].status == Active ==> i == q.currentIdx)
    && NoDuplicatePending(q.tasks)
    && (forall i :: 0 <= i < |q.tasks| ==> q.tasks[i].videoId != [])
    && q.completed == CountStatus(q.tasks, Completed)
    && q.failed == CountStatus(q.tasks, Failed)
  }

  /** A valid queue has at most one ACTIVE task. */
  lemma AtMostOneActive(q: Queue)
    requires Valid(q)
    ensures CountStatus(q.tasks, Active) <= 1
  {
    CountAtOneIndex(q.tasks, Active, q.currentIdx);
  }

  lemma EmptyQueueValid()
    ensures Valid(EmptyQueue)
  {
  }

  /** add_to_download_queue keeps the queue valid. */
  lemma EnqueueKeepsValid(q: Queue, dirs: Dirs, root: string, id: Option<string>, title: Option<string>,
                          playlist: Option<string>)
    requires Valid(q)
    ensures Valid(Enqueue(q, dirs, root, id, title, playlist).1)
  {
    var r := Enqueue(q, dirs, root, id, title, playlist);
    if r.0 == Added {
      var t := NewTask(id.value, title, playlist);
      assert r.1.tasks == q.tasks + [t];
      CountAppend(q.tasks, t, Completed);
      CountAppend(q.tasks, t, Failed);
      assert !HasPendingId(q.tasks, id.value);
    }
  }

  /** The worker, seen from the queue: looking for work, or fetching task `idx`. */
  datatype Worker = Scanning | Fetching(idx: nat)

  /** The queue is valid and agrees with what the worker holds: while it fetches,
    * its task is the ACTIVE one at `current_idx`; while it scans, nothing is ACTIVE. */
  ghost predicate Consistent(q: Queue, w: Worker) {
    && Valid(q)
    && match w
       case Scanning => forall i :: 0 <= i < |q.tasks| ==> q.tasks[i].status != Active
       case Fetching(i) => i < |q.tasks| && q.tasks[i].status == Active && q.currentIdx == i
  }

  /** One locked section: a producer's enqueue, the worker's claim, or the worker
    * recording the outcome of its fetch from what it observed: whether the file
    * was already there, the exit status of the fetch command, and whether the
    * file exists afterwards. */
  datatype Event =
    | Request(dirs: Dirs, root: string, id: Option<string>, title: Option<string>, playlist: Option<string>)
    | WorkerClaims
    | WorkerFinishes(alreadyThere: bool, exitStatus: int, existsAfter: bool)

  /** The effect of one event. The single worker only claims while scanning and
    * only records while fetching; an event that its loop cannot produce leaves
    * the state alone. */
  function Step(q: Queue, w: Worker, e: Event): (Queue, Worker) {
    match e
    case Request(dirs, root, id, title, playlist) => (Enqueue(q, dirs, root, id, title, playlist).1, w)
    case WorkerClaims =>
      if w.Fetching? then (q, w)
      else
        var c := Claim(q);
        (c, if c.active then Fetching(c.currentIdx) else Scanning)
    case WorkerFinishes(alreadyThere, exitStatus, existsAfter) =>
      if w.Scanning? || w.idx >= |q.tasks| then (q, w)
      else (Record(q, w.idx, FetchSucceeded(alreadyThere, exitStatus, existsAfter)), Scanning)
  }

  /** A producer's request keeps queue and worker consistent. */
  lemma RequestKeepsConsistent(q: Queue, w: Worker, dirs: Dirs, root: string, id: Option<string>,
                               title: Option<string>, playlist: Option<string>)
    requires Consistent(q, w)
    ensures Consistent(Enqueue(q, dirs, root, id, title, playlist).1, w)
  {
    EnqueueKeepsValid(q, dirs, root, id, title, playlist);
    var r := Enqueue(q, dirs, root, id, title, playlist);
    if r.0 == Added {
      assert forall i :: 0 <= i < |q.tasks| ==> r.1.tasks[i] == q.tasks[i];
    }
  }

  /** A claim by the idle worker leaves it fetching the one ACTIVE task, or idle
    * with nothing ACTIVE. */
  lemma ClaimKeepsConsistent(q: Queue)
    requires Consistent(q, Scanning)
    ensures var c := Claim(q); Consistent(c, if c.active then Fetching(c.currentIdx) else Scanning)
  {
    var c := Claim(q);
    if c.active {
      var i := c.currentIdx;
      CountUpdate(q.tasks, i, c.tasks[i], Completed);
      CountUpdate(q.tasks, i, c.tasks[i], Failed);
      assert NoDuplicatePending(c.tasks) by {
        forall a, b | 0 <= a < b < |c.tasks| && c.tasks[a].status == Pending && c.tasks[b].status == Pending
          ensures c.tasks[a].videoId != c.tasks[b].videoId
        {
          assert c.tasks[a] == q.tasks[a] && c.tasks[b] == q.tasks[b];
        }
      }
    }
  }

  /** Recording the fetched task's outcome returns the worker to scanning with
    * nothing ACTIVE. */
  lemma FinishKeepsConsistent(q: Queue, idx: nat, fetched: bool)
    requires Consistent(q, Fetching(idx))
    ensures Consistent(Record(q, idx, fetched), Scanning)
  {
    RecordStep(q, idx, fetched);
    var r := Record(q, idx, fetched);
    assert NoDuplicatePending(r.tasks) by {
      forall a, b | 0 <= a < b < |r.tasks| && r.tasks[a].status == Pending && r.tasks[b].status == Pending
        ensures r.tasks[a].videoId != r.tasks[b].videoId
      {
        assert r.tasks[a] == q.tasks[a] && r.tasks[b] == q.tasks[b];
      }
    }
    forall i | 0 <= i < |r.tasks| ensures r.tasks[i].status != Active {
      if i != idx {
        assert r.tasks[i] == q.tasks[i];
      }
    }
  }

  lemma StepKeepsConsistent(q: Queue, w: Worker, e: Event)
    requires Consistent(q, w)
    ensures var (q', w') := Step(q, w, e); Consistent(q', w')
  {
    match e
    case Request(dirs, root, id, title, playlist) =>
      RequestKeepsConsistent(q, w, dirs, root, id, title, playlist);
    case WorkerClaims =>
      if w.Scanning? {
        ClaimKeepsConsistent(q);
      }
    case WorkerFinishes(alreadyThere, exitStatus, existsAfter) =>
      if w.Fetching? && w.idx < |q.tasks| {
        FinishKeepsConsistent(q, w.idx, FetchSucceeded(alreadyThere, exitStatus, existsAfter));
      }
  }

  /** The state after a sequence of events. */
  function Run(q: Queue, w: Worker, events: seq<Event>): (Queue, Worker)
    decreases |events|
  {
    if events == [] then (q, w)
    else
      var (q', w') := Step(q, w, events[0]);
      Run(q', w', events[1..])
  }

  lemma {:induction false} RunKeepsConsistent(q: Queue, w: Worker, events: seq<Event>)
    requires Consistent(q, w)
    ensures var (q', w') := Run(q, w, events); Consistent(q', w')
    decreases |events|
  {
    if events != [] {
      StepKeepsConsistent(q, w, events[0]);
      var (q', w') := Step(q, w, events[0]);
      RunKeepsConsistent(q', w', events[1..]);
    }
  }

  /** With one worker, every interleaving of enqueues, claims and recorded results
    * from a consistent start (the empty queue, or a reloaded one) keeps the queue
    * valid: never more than one ACTIVE task, never two PENDING tasks with one id,
    * never over capacity, and counters that match the task statuses. */
  lemma SingleWorkerInvariant(q: Queue, w: Worker, events: seq<Event>)
    requires Consistent(q, w)
    ensures var (q', w') := Run(q, w, events);
            && Valid(q')
            && CountStatus(q'.tasks, Active) <= 1
            && |q'.tasks| <= MaxQueue
  {
    RunKeepsConsistent(q, w, events);
    var (q', w') := Run(q, w, events);
    AtMostOneActive(q');
  }

  // ---------------------------------------------------------------------------
  // Properties of add_to_download_queue across calls
  // ---------------------------------------------------------------------------

  /** Enqueuing the same id twice while the first task is still PENDING adds one
    * task: the second call reports "already queued" and changes nothing. */
  lemma EnqueueTwiceAddsOnce(q: Queue, dirs: Dirs, root: string, id: string, title: Option<string>,
                             playlist: Option<string>)
    requires Enqueue(q, dirs, root, Some(id), title, playlist).0 == Added
    ensures var q1 := Enqueue(q, dirs, root, Some(id), title, playlist).1;
            Enqueue(q1, dirs, root, Some(id), title, playlist) == (AlreadyQueued, q1)
  {
    var q1 := Enqueue(q, dirs, root, Some(id), title, playlist).1;
    assert q1.tasks[|q.tasks|].videoId == id && q1.tasks[|q.tasks|].status == Pending;
  }

  /** Only PENDING tasks block a new request: an id whose task is ACTIVE is queued
    * again, so one id can be ACTIVE and PENDING at the same time. */
  lemma ActiveIdCanBeQueuedAgain(q: Queue, dirs: Dirs, root: string, i: nat, title: Option<string>,
                                 playlist: Option<string>)
    requires i < |q.tasks| && q.tasks[i].status == Active && !HasPendingId(q.tasks, q.tasks[i].videoId)
    requires q.tasks[i].videoId != [] && |q.tasks| < MaxQueue
    requires !FileExistsForVideo(dirs, DestDir(root, playlist.GetOr("")), q.tasks[i].videoId)
    ensures var r := Enqueue(q, dirs, root, Some(q.tasks[i].videoId), title, playlist);
            && r.0 == Added
            && r.1.tasks[i].status == Active && r.1.tasks[|q.tasks|].status == Pending
            && r.1.tasks[i].videoId == r.1.tasks[|q.tasks|].videoId
  {
  }

  /** A task that is already on disk is never queued, whatever the queue holds. */
  lemma DownloadedSongIsNotQueued(q: Queue, dirs: Dirs, root: string, id: string, title: string,
                                  existing: string, playlist: Option<string>)
    requires id != []
    requires DestDir(root, playlist.GetOr("")) in dirs
    requires SanitizeTitle(Some(existing), id) in dirs[DestDir(root, playlist.GetOr(""))]
    ensures Enqueue(q, dirs, root, Some(id), Some(title), playlist) == (AlreadyPresent, q)
  {
    ProbeFindsDownloadedFile(dirs, DestDir(root, playlist.GetOr("")), existing, id);
  }
}
