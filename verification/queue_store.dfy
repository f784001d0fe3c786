/** Persistence of the download queue (save_download_queue / load_download_queue)
  * at the level of the objects of the queue document: each object is the five
  * fields that json_get_string reads back from it. */
module QueueStore {
  import opened Options
  import opened Filenames
  import opened DownloadQueue

  /** One object of the `"tasks"` array as read back: every field is the decoded
    * string, or None when its key is missing. */
  datatype Entry = Entry(videoId: Option<string>, title: Option<string>, filename: Option<string>,
                         playlist: Option<string>, status: Option<string>)

  /** Only PENDING and FAILED tasks are written to the document. */
  predicate IsPersisted(t: Task) {
    t.status == Pending || t.status == Failed
  }

  function StatusName(st: Status): string {
    if st == Failed then "failed" else "pending"
  }

  /** The object written for one task. */
  function EntryOf(t: Task): Entry {
    Entry(Some(t.videoId), Some(t.title), Some(t.filename), Some(t.playlist), Some(StatusName(t.status)))
  }

  /** The tasks that survive a save, in index order. */
  function Persisted(tasks: seq<Task>): (r: seq<Task>)
    ensures |r| <= |tasks|
    ensures forall i :: 0 <= i < |r| ==> IsPersisted(r[i])
    ensures forall t :: t in r ==> t in tasks
  {
    if tasks == [] then []
    else (if IsPersisted(tasks[0]) then [tasks[0]] else []) + Persisted(tasks[1..])
  }

  /** save_download_queue: the loop over the tasks that writes an object for
    * each PENDING or FAILED one. */
  function Save(tasks: seq<Task>): seq<Entry> {
    if tasks == [] then []
    else (if IsPersisted(tasks[0]) then [EntryOf(tasks[0])] else []) + Save(tasks[1..])
  }

  /** The objects written for the given tasks, one each, in order. */
  function Entries(tasks: seq<Task>): seq<Entry> {
    if tasks == [] then [] else [EntryOf(tasks[0])] + Entries(tasks[1..])
  }

  /** A save writes exactly one object per PENDING or FAILED task, in index
    * order, with status "failed" for FAILED and "pending" for PENDING. */
  lemma {:induction false} SaveWritesPersisted(tasks: seq<Task>)
    ensures Save(tasks) == Entries(Persisted(tasks))
  {
    if tasks != [] {
      SaveWritesPersisted(tasks[1..]);
      var p := Persisted(tasks[1..]);
      if IsPersisted(tasks[0]) {
        assert Persisted(tasks) == [tasks[0]] + p;
        assert ([tasks[0]] + p)[1..] == p;
        assert Entries([tasks[0]] + p) == [EntryOf(tasks[0])] + Entries(p);
      } else {
        assert Persisted(tasks) == p;
        assert Save(tasks) == Save(tasks[1..]);
      }
    }
  }

  lemma {:induction false} CountPrepend(t: Task, tasks: seq<Task>, st: Status)
    ensures CountStatus([t] + tasks, st) == (if t.status == st then 1 else 0) + CountStatus(tasks, st)
    decreases |tasks|
  {
    if tasks == [] {
      assert ([t] + tasks)[..0] == [];
    } else {
      var n := |tasks|;
      assert ([t] + tasks)[..n] == [t] + tasks[..n - 1];
      CountPrepend(t, tasks[..n - 1], st);
    }
  }

  /** A save keeps the PENDING and FAILED tasks and drops the others. */
  lemma {:induction false} PersistedCounts(tasks: seq<Task>)
    ensures CountStatus(Persisted(tasks), Pending) == CountStatus(tasks, Pending)
    ensures CountStatus(Persisted(tasks), Failed) == CountStatus(tasks, Failed)
    ensures CountStatus(Persisted(tasks), Active) == 0
    ensures CountStatus(Persisted(tasks), Completed) == 0
    ensures |Persisted(tasks)| == CountStatus(tasks, Pending) + CountStatus(tasks, Failed)
  {
    if tasks != [] {
      var t := tasks[0];
      PersistedCounts(tasks[1..]);
      assert tasks == [t] + tasks[1..];
      CountPrepend(t, tasks[1..], Pending);
      CountPrepend(t, tasks[1..], Failed);
      CountPrepend(t, tasks[1..], Active);
      CountPrepend(t, tasks[1..], Completed);
      if IsPersisted(t) {
        CountPrepend(t, Persisted(tasks[1..]), Pending);
        CountPrepend(t, Persisted(tasks[1..]), Failed);
        CountPrepend(t, Persisted(tasks[1..]), Active);
        CountPrepend(t, Persisted(tasks[1..]), Completed);
      } else {
        assert Persisted(tasks) == Persisted(tasks[1..]);
      }
    }
  }

  /** What load_download_queue does with one object: an object with a non-empty
    * video_id becomes a task (missing text fields become ""), FAILED exactly when
    * its status reads "failed" (which also raises the failed counter) and PENDING
    * otherwise; an object without an id is skipped. */
  function LoadEntry(q: Queue, e: Entry): (r: Queue)
    ensures r.completed == q.completed && r.currentIdx == q.currentIdx && r.active == q.active
    ensures e.videoId.None? || e.videoId.value == [] ==> r == q
    ensures e.videoId.Some? && e.videoId.value != [] ==>
              && |r.tasks| == |q.tasks| + 1 && r.tasks[..|q.tasks|] == q.tasks
              && var t := r.tasks[|q.tasks|];
                 && t == Task(e.videoId.value, e.title.GetOr(""), e.filename.GetOr(""), e.playlist.GetOr(""), t.status)
                 && (t.status == Failed <==> e.status == Some("failed"))
                 && (t.status != Failed ==> t.status == Pending)
                 && r.failed == q.failed + (if t.status == Failed then 1 else 0)
  {
    match e.videoId
    case None => q
    case Some(id) =>
      if id == [] then q
      else
        var failed := e.status == Some("failed");
        var t := Task(id, e.title.GetOr(""), e.filename.GetOr(""), e.playlist.GetOr(""),
                      if failed then Failed else Pending);
        assert (q.tasks + [t])[..|q.tasks|] == q.tasks;
        q.(tasks := q.tasks + [t], failed := if failed then q.failed + 1 else q.failed)
  }

  /** load_download_queue over the objects of the document: objects are read in
    * order until the queue holds MAX_DOWNLOAD_QUEUE tasks. */
  function Load(q: Queue, entries: seq<Entry>): (r: Queue)
    ensures |q.tasks| <= |r.tasks| && r.tasks[..|q.tasks|] == q.tasks
    ensures |q.tasks| <= MaxQueue ==> |r.tasks| <= MaxQueue
    ensures r.completed == q.completed && r.currentIdx == q.currentIdx && r.active == q.active
    decreases |entries|
  {
    if |q.tasks| >= MaxQueue || entries == [] then q
    else
      var q' := LoadEntry(q, entries[0]);
      var r := Load(q', entries[1..]);
      assert r.tasks[..|q.tasks|] == r.tasks[..|q'.tasks|][..|q.tasks|];
      r
  }

  /** Reading back the object of one saved task appends that very task. */
  lemma LoadSavedEntry(q: Queue, t: Task)
    requires IsPersisted(t) && t.videoId != []
    ensures LoadEntry(q, EntryOf(t)).tasks == q.tasks + [t]
    ensures LoadEntry(q, EntryOf(t)).failed == q.failed + (if t.status == Failed then 1 else 0)
    ensures LoadEntry(q, EntryOf(t)).completed == q.completed
  {
  }

  /** Saved tasks all have an identifier and a status worth saving. */
  ghost predicate Reloadable(ps: seq<Task>) {
    forall i :: 0 <= i < |ps| ==> IsPersisted(ps[i]) && ps[i].videoId != []
  }

  /** The first reading step of saved tasks, as seen from the queue: with room,
    * loading `ps` is loading its tail after the head was appended. */
  lemma LoadEntriesStep(q: Queue, ps: seq<Task>)
    requires ps != [] && Reloadable(ps) && |q.tasks| < MaxQueue
    ensures Reloadable(ps[1..])
    ensures Load(q, Entries(ps)) == Load(LoadEntry(q, EntryOf(ps[0])), Entries(ps[1..]))
  {
    assert Entries(ps) == [EntryOf(ps[0])] + Entries(ps[1..]);
    LoadCons(q, EntryOf(ps[0]), Entries(ps[1..]));
    forall i | 0 <= i < |ps[1..]| ensures IsPersisted(ps[1..][i]) && ps[1..][i].videoId != [] {
      assert ps[1..][i] == ps[i + 1];
    }
  }

  /** Loading the objects of saved tasks, with room for them all, appends
    * exactly those tasks with every field and status kept, and leaves the
    * COMPLETED counter alone. */
  lemma {:induction false} LoadEntries(q: Queue, ps: seq<Task>)
    requires Reloadable(ps)
    requires |q.tasks| + |ps| <= MaxQueue
    ensures Load(q, Entries(ps)).tasks == q.tasks + ps
    ensures Load(q, Entries(ps)).completed == q.completed
    decreases |ps|
  {
    if ps == [] {
      assert q.tasks + ps == q.tasks;
    } else {
      var q' := LoadEntry(q, EntryOf(ps[0]));
      LoadEntriesStep(q, ps);
      LoadSavedEntry(q, ps[0]);
      LoadEntries(q', ps[1..]);
      AppendFirst(q.tasks, ps);
    }
  }

  /** Loading the objects of saved tasks, with room for them all, raises the
    * FAILED counter by the FAILED ones among them. */
  lemma {:induction false} LoadEntriesFailed(q: Queue, ps: seq<Task>)
    requires Reloadable(ps)
    requires |q.tasks| + |ps| <= MaxQueue
    ensures Load(q, Entries(ps)).failed == q.failed + CountStatus(ps, Failed)
    decreases |ps|
  {
    if ps != [] {
      var q' := LoadEntry(q, EntryOf(ps[0]));
      LoadEntriesStep(q, ps);
      LoadSavedEntry(q, ps[0]);
      LoadEntriesFailed(q', ps[1..]);
      assert ps == [ps[0]] + ps[1..];
      CountPrepend(ps[0], ps[1..], Failed);
    }
  }

  /** Appending the head of `s` and then its tail appends `s`. */
  lemma AppendFirst<T>(a: seq<T>, s: seq<T>)
    requires s != []
    ensures (a + [s[0]]) + s[1..] == a + s
  {
    assert s == [s[0]] + s[1..];
  }

  /** Reading the first object is the first step of a load that has room. */
  lemma LoadCons(q: Queue, e: Entry, es: seq<Entry>)
    requires |q.tasks| < MaxQueue
    ensures Load(q, [e] + es) == Load(LoadEntry(q, e), es)
  {
    assert ([e] + es)[0] == e && ([e] + es)[1..] == es;
  }

  /** The round trip of a whole queue across a restart: reloading the saved
    * document into the fresh queue restores the PENDING and FAILED tasks with
    * identical fields and statuses, counts the FAILED ones, and forgets the
    * COMPLETED counter. */
  lemma SaveLoadRoundTrip(q: Queue)
    requires Valid(q)
    ensures var r := Load(EmptyQueue, Save(q.tasks));
            && r.tasks == Persisted(q.tasks)
            && |r.tasks| == CountStatus(q.tasks, Pending) + CountStatus(q.tasks, Failed)
            && r.failed == CountStatus(q.tasks, Failed)
            && r.completed == 0
  {
    var p := Persisted(q.tasks);
    var r := Load(EmptyQueue, Save(q.tasks));
    assert r == Load(EmptyQueue, Entries(p)) by {
      SaveWritesPersisted(q.tasks);
    }
    assert Reloadable(p) by {
      PersistedReloadable(q.tasks);
    }
    assert r.tasks == p && r.completed == 0 by {
      LoadEntries(EmptyQueue, p);
      assert [] + p == p;
    }
    assert r.failed == CountStatus(p, Failed) by {
      LoadEntriesFailed(EmptyQueue, p);
    }
    PersistedCounts(q.tasks);
  }

  /** Tasks that all have an identifier are saved as reloadable objects. */
  lemma PersistedReloadable(tasks: seq<Task>)
    requires forall i :: 0 <= i < |tasks| ==> tasks[i].videoId != []
    ensures Reloadable(Persisted(tasks))
  {
    var p := Persisted(tasks);
    forall i | 0 <= i < |p| ensures IsPersisted(p[i]) && p[i].videoId != [] {
      assert p[i] in tasks;
    }
  }

  lemma {:induction false} PersistedKeepsNoDuplicatePending(tasks: seq<Task>)
    requires NoDuplicatePending(tasks)
    ensures NoDuplicatePending(Persisted(tasks))
  {
    if tasks != [] {
      var t := tasks[0];
      var rest := Persisted(tasks[1..]);
      assert NoDuplicatePending(tasks[1..]) by {
        forall i, j | 0 <= i < j < |tasks[1..]| && tasks[1..][i].status == Pending && tasks[1..][j].status == Pending
          ensures tasks[1..][i].videoId != tasks[1..][j].videoId
        {
          assert tasks[1..][i] == tasks[i + 1] && tasks[1..][j] == tasks[j + 1];
        }
      }
      PersistedKeepsNoDuplicatePending(tasks[1..]);
      if IsPersisted(t) {
        var r := [t] + rest;
        assert Persisted(tasks) == r;
        forall i, j | 0 <= i < j < |r| && r[i].status == Pending && r[j].status == Pending
          ensures r[i].videoId != r[j].videoId
        {
          if i == 0 {
            assert r[j] in tasks[1..];
            var k :| 0 <= k < |tasks[1..]| && tasks[1..][k] == r[j];
            assert tasks[k + 1] == r[j];
          } else {
            assert r[i] == rest[i - 1] && r[j] == rest[j - 1];
          }
        }
      }
    }
  }

  /** A queue reloaded from a saved valid queue is valid again and has nothing
    * ACTIVE, so the worker starts from a consistent state after a restart. */
  lemma ReloadedQueueIsConsistent(q: Queue)
    requires Valid(q)
    ensures Consistent(Load(EmptyQueue, Save(q.tasks)), Scanning)
  {
    var r := Load(EmptyQueue, Save(q.tasks));
    var p := Persisted(q.tasks);
    assert r.tasks == p && r.completed == 0 && r.failed == CountStatus(q.tasks, Failed)
        && r.currentIdx == -1 by {
      SaveLoadRoundTrip(q);
    }
    assert CountStatus(p, Completed) == 0 && CountStatus(p, Failed) == CountStatus(q.tasks, Failed)
        && |p| <= |q.tasks| by {
      PersistedCounts(q.tasks);
    }
    assert NoDuplicatePending(p) by {
      PersistedKeepsNoDuplicatePending(q.tasks);
    }
    forall i | 0 <= i < |p| ensures p[i].videoId != [] && p[i].status != Active {
      assert p[i] in q.tasks;
    }
  }

  /** Enqueue "abc123" on an empty queue, let the worker claim and finish it: the
    * completed counter is 1 and the saved document no longer mentions the task. */
  lemma CompletedDownloadLeavesDocument(dirs: Dirs, root: string)
    requires !FileExistsForVideo(dirs, root, "abc123")
    ensures var q1 := Enqueue(EmptyQueue, dirs, root, Some("abc123"), Some("Test Song"), None).1;
            var q2 := Claim(q1);
            && |q1.tasks| == 1 && q1.tasks[0].status == Pending
            && q2.currentIdx == 0
            && var q3 := Record(q2, 0, true);
               && q3.completed == 1
               && Save(q3.tasks) == []
  {
    var r := Enqueue(EmptyQueue, dirs, root, Some("abc123"), Some("Test Song"), None);
    assert DestDir(root, "") == root;
    assert !HasPendingId([], "abc123");
    assert r.0 == Added;
    var q2 := Claim(r.1);
    assert r.1.tasks[0].status == Pending;
    var q3 := Record(q2, 0, true);
    assert Save(q3.tasks[1..]) == [];
  }
}
