# shellbeats download queue and library, in Dafny

shellbeats is a terminal music player that searches YouTube, streams songs
through mpv and keeps a local library of playlists whose songs are downloaded
in the background. This project models the bookkeeping at its core:

- the **download queue** (`DownloadQueue`): a bounded list of download tasks
  (at most 1000) with `completed` and `failed` counters. `add_to_download_queue`
  fills it. One worker thread drains it in two locked steps: it claims the
  first PENDING task, and later it records the outcome of the fetch. Each
  locked section is one pure transition. A trace of requests, claims and
  recorded results is shown to keep the queue invariant: at most one ACTIVE
  task, no two PENDING tasks with one id, the capacity bound, and counters
  equal to the number of COMPLETED and FAILED tasks;
- **queue persistence** (`QueueStore`): `save_download_queue` writes only the
  PENDING and FAILED tasks. `load_download_queue` turns each object with a
  video id back into a task, FAILED exactly when its status is `"failed"`.
  The model works on the objects as `json_get_string` reads them back;
- the **string codec and file names** (`JsonField`, `Filenames`, `CStrings`):
  `json_escape_string` and `json_get_string`, `trim_whitespace`, the song file
  name `<stem>_[<id>].mp3` of `sanitize_title_for_filename`, the probe
  `file_exists_for_video`, and the playlist file name of `sanitize_filename`;
- the **playlist library** (`Library`): `create_playlist`, `delete_playlist`
  (with the file system's resolution of "." and ".." in the directory it
  removes), `add_song_to_playlist` (which also requests the download) and
  `remove_song_from_playlist`;
- **YouTube playlist import** (`YoutubePlaylist`): the line loop of
  `fetch_youtube_playlist`, which reads `title|||id|||duration` lines printed
  by yt-dlp, and `validate_youtube_playlist_url`.

Strings are `seq<char>`, one `char` per byte of a C string; NUL never occurs.
Pointers that may be NULL are `Option`s. The download tree is a map from
resolved absolute directory path to the names in it (`Filenames.Dirs`). The runs of yt-dlp are
parameters: `None` when `popen` fails, otherwise the lines printed.

Two behaviours of the code that a reader might not expect. The model
follows the code in both:

- One might expect a video id to be PENDING or ACTIVE at most once.
  `add_to_download_queue` only looks for a PENDING task with the same id
  (shellbeats.c:1094-1100), so an id whose task is ACTIVE is queued again
  (`DownloadQueue.ActiveIdCanBeQueuedAgain`). The proved invariant is
  therefore "no two PENDING tasks share an id".
- The `completed` counter is not restored on reload, only `failed` is
  (`QueueStore.SaveLoadRoundTrip` states `completed == 0`).

## Model

| member | source | states |
|---|---|---|
| CStrings.FindFrom | youtube_playlist.c:69-74 | strstr: the result is an occurrence, no occurrence comes before it, and None means the pattern occurs nowhere from the start point on |
| CStrings.ContainsIff | youtube_playlist.c:120-121 | strstr finds the pattern exactly when it occurs somewhere in the string |
| CStrings.Trim | shellbeats.c:223-231 | trim_whitespace drops the leading and trailing isspace characters and nothing else; the result is empty exactly when the input is all blanks |
| CStrings.TrimIdempotent | shellbeats.c:223-231 | trimming a trimmed string changes nothing |
| CStrings.AtoiOfNatToString | youtube_playlist.c:88 | atoi reads back every non-negative number printed in decimal |
| CStrings.NatToStringInjective | shellbeats.c:1445-1446 | different numbers print as different "%d" strings |
| JsonField.Escape | shellbeats.c:421-451 | escaping at most doubles the length, and every quote in the output is preceded by a backslash |
| JsonField.EscapeIntoBuffer | shellbeats.c:421-451 | the buffer loop of json_escape_string, with its `j < alloc - 2` guard, always writes the whole escaped string |
| JsonField.EscapePlainText | shellbeats.c:430-448 | text without `"`, `\`, newline, CR or tab is written unchanged |
| JsonField.UnescapeEscape | shellbeats.c:477-489 | the unescaping loop of json_get_string undoes json_escape_string |
| JsonField.GetString | shellbeats.c:454-459 | json_get_string returns NULL when the quoted key does not occur |
| JsonField.GetStringRoundTrip | shellbeats.c:421-492 | writing `"key": "<escaped s>"` and reading the key back gives s, whatever follows |
| Filenames.Collect | shellbeats.c:288-303 | the copy loop keeps only allowed characters, never grows past the 255-character buffer, and extends what it already has |
| Filenames.TitleStemAsWritten | shellbeats.c:305-319 | the stem as computed: 1 to 180 allowed characters |
| Filenames.StemAsWrittenCanEndInUnderscore | shellbeats.c:305-319 | for 179 letters followed by " b" the stem as computed ends in `_` |
| Filenames.TitleStem | shellbeats.c:288-319 | the stem is 1 to 180 allowed characters, has none of `/ \ : * ? " < > \|`, never ends in `_`, is "download" when only underscores survive, and otherwise is the longest prefix of the first 180 survivors not ending in `_` |
| Filenames.CleanTitleIsItsOwnStem | shellbeats.c:288-319 | a title of at most 180 letters and digits is its own stem |
| Filenames.SanitizeTitle | shellbeats.c:278-323 | the file name is `<stem>_[<id>].mp3`, or empty when the title is NULL |
| Filenames.TrimUnderscoresIsThePrefix | shellbeats.c:305-309 | the underscore-trimming loop leaves the one prefix followed only by underscores that does not end in `_` |
| Filenames.StemsAgreeUnlessCutAtUnderscore | shellbeats.c:305-319 | the corrected stem equals the stem as written whenever the latter does not end in `_` |
| Filenames.ProbeFindsDownloadedFile | shellbeats.c:326-343 | file_exists_for_video finds every file that sanitize_title_for_filename names for the same id |
| Filenames.SlugStem | shellbeats.c:1184-1202 | the slug is no longer than the name and holds only lower-case letters, digits, `-` and `_` |
| Filenames.Slug | shellbeats.c:1184-1202 | sanitize_filename ends in `.json` after slug characters only |
| Filenames.SlugIgnoresCase | shellbeats.c:1184-1202 | names equal ignoring case share a playlist file name |
| Filenames.SlugStemIdempotent | shellbeats.c:1184-1202 | a slug is its own slug |
| DownloadQueue.CountStatus | shellbeats.c:70-91 | a status count never exceeds the number of tasks |
| DownloadQueue.CountUpdate | shellbeats.c:1036-1042 | changing one task's status moves it from one count to the other |
| DownloadQueue.CountAtOneIndex | shellbeats.c:976-978 | a status held only at one index is held by at most one task |
| DownloadQueue.Enqueue | shellbeats.c:1073-1138 | add_to_download_queue: -1 for a missing or empty id or a full queue, 0 when the file is already downloaded or the id is PENDING (queue unchanged), otherwise exactly one PENDING task appended at the old count and nothing else changed |
| DownloadQueue.Claim | shellbeats.c:972-990 | the lowest-index PENDING task becomes ACTIVE and current_idx points at it; no other task or counter changes; with nothing PENDING only active := false and current_idx := -1 |
| DownloadQueue.ClaimNext | shellbeats.c:972-990 | the locked scan loop computes exactly that claim |
| DownloadQueue.RecordStep | shellbeats.c:1015-1042 | recording moves the claimed ACTIVE task to COMPLETED or FAILED, touches no other task, and raises only the matching counter |
| DownloadQueue.PendingDownloadCount | shellbeats.c:1140-1151 | get_pending_download_count is the number of PENDING plus ACTIVE tasks, at most the task count |
| DownloadQueue.AtMostOneActive | shellbeats.c:972-990 | a valid queue has at most one ACTIVE task |
| DownloadQueue.EmptyQueueValid | shellbeats.c:2910 | the zeroed queue with current_idx -1 is valid |
| DownloadQueue.EnqueueKeepsValid | shellbeats.c:1094-1128 | add_to_download_queue keeps the queue valid, in particular no two PENDING tasks with one id |
| DownloadQueue.RequestKeepsConsistent | shellbeats.c:1073-1138 | a request added under the lock, in any worker phase, keeps queue and worker consistent |
| DownloadQueue.ClaimKeepsConsistent | shellbeats.c:969-990 | a scanning worker that claims the first PENDING task, or finds none, leaves a consistent queue with at most that task ACTIVE |
| DownloadQueue.FinishKeepsConsistent | shellbeats.c:1009-1045 | recording the outcome of the claimed task (COMPLETED or FAILED, with its counter) brings the worker back to scanning with a consistent queue |
| DownloadQueue.StepKeepsConsistent | shellbeats.c:965-1049 | every locked step (enqueue, claim, record) keeps queue and worker consistent |
| DownloadQueue.RunKeepsConsistent | shellbeats.c:965-1049 | so does every sequence of steps |
| DownloadQueue.SingleWorkerInvariant | shellbeats.c:965-1049 | with one worker, every interleaving keeps the queue valid: at most one ACTIVE task, within capacity, counters matching statuses |
| DownloadQueue.EnqueueTwiceAddsOnce | shellbeats.c:1094-1100 | enqueuing an id again while its task is PENDING returns 0 and changes nothing |
| DownloadQueue.ActiveIdCanBeQueuedAgain | shellbeats.c:1094-1100 | an id whose task is ACTIVE is queued again, so it is then ACTIVE and PENDING at once |
| DownloadQueue.DownloadedSongIsNotQueued | shellbeats.c:1086-1089 | a song whose file is in the destination directory is never queued |
| QueueStore.Persisted | shellbeats.c:842-845 | only PENDING and FAILED tasks survive a save, and each one is a task of the queue |
| QueueStore.SaveWritesPersisted | shellbeats.c:830-870 | one object per surviving task, in index order, with the status name of that task |
| QueueStore.PersistedCounts | shellbeats.c:842-845 | a save keeps every PENDING and FAILED task and no ACTIVE or COMPLETED one |
| QueueStore.LoadEntry | shellbeats.c:923-944 | an object with a non-empty video_id becomes one task with its fields, FAILED (raising `failed`) exactly when its status is "failed" and PENDING otherwise; an object without an id is skipped |
| QueueStore.Load | shellbeats.c:909-950 | loading only appends to the queue and never fills it past 1000 tasks |
| QueueStore.LoadEntries | shellbeats.c:909-950 | reading back the objects of saved tasks, with room for them all, appends exactly those tasks with every field and status and leaves `completed` alone |
| QueueStore.LoadEntriesFailed | shellbeats.c:909-950 | reading back the objects of saved tasks raises `failed` by the number of FAILED ones among them |
| QueueStore.SaveLoadRoundTrip | shellbeats.c:830-959 | across a restart the PENDING and FAILED tasks come back with identical fields and statuses, `failed` counts them, `completed` restarts at 0 |
| QueueStore.PersistedKeepsNoDuplicatePending | shellbeats.c:842-845 | a save keeps the no-duplicate-PENDING property |
| QueueStore.ReloadedQueueIsConsistent | shellbeats.c:2931-2936 | the queue reloaded after a restart is valid and has nothing ACTIVE, so the worker may start on it |
| QueueStore.CompletedDownloadLeavesDocument | shellbeats.c:1015-1045 | after "abc123" is queued, claimed and completed, `completed` is 1 and the saved document is empty |
| Songs.WatchUrl | shellbeats.c:1526-1528 | the watch URL is the fixed prefix followed by the id |
| Songs.PlayableUrl | youtube_playlist.c:84-87 | the stored URL is the watch URL cut to the 255 characters its buffer holds |
| Library.RemoveAt | shellbeats.c:1489-1493 | removal keeps the elements before the index and moves every later one a slot left |
| Library.ShiftLeft | shellbeats.c:1489-1493 | the shift loop of delete_playlist and remove_song_from_playlist computes that removal |
| Library.NumberedFilenameInjective | shellbeats.c:1445-1446 | different numbers give different "<n>_<slug>" names |
| Library.CreatePlaylistAsWritten | shellbeats.c:1422-1464 | create_playlist as written: -1 for a full table or a missing or empty name, -2 for a name equal ignoring case, else the old count with the playlist appended, named by its slug or once by "<count>_<slug>" |
| Library.NumberedFilenameCanCollide | shellbeats.c:1437-1451 | with playlists "A" and "2 a", creating "a!" succeeds with the backing file of "2 a" |
| Library.FreeNumberedFilename | shellbeats.c:1437-1451 | the first "<n>_<slug>" from a given number on that is not taken: it is free and every numbered name before it is taken |
| Library.ChooseFilename | shellbeats.c:1433-1451 | the chosen backing file is unused; it is the slug when the slug is free, else the first free numbered name from the count on |
| Library.CreatePlaylist | shellbeats.c:1422-1464 | the same codes and effects as create_playlist, with a backing file no other playlist uses |
| Library.CreateAddsItsFilename | shellbeats.c:1453-1458 | a created playlist brings exactly its own backing file into use; a refused one changes nothing |
| Library.RemoveTree | shellbeats.c:379-413 | an existing directory goes with everything below it and its name leaves its parent's listing; nothing else changes, and a missing directory changes nothing |
| Library.ResolveOrdinary | shellbeats.c:1481 | when every component of the name names an entry, the directory `<root>/<name>` resolves to is the joined string itself |
| Library.EmptyTree | shellbeats.c:379-418 | the walk over `<dir>/.` deletes every entry of the directory, subdirectories with all they hold, and leaves the directory itself, empty, because the closing rmdir fails; a missing directory changes nothing |
| Library.WalkUp | shellbeats.c:379-418 | the walk over `<dir>/..` deletes the parent's entries listed before `dir`, then `dir` with all it holds; every later entry stays because its path no longer resolves, and the parent stays because the closing rmdir fails |
| Library.DeletingDotDotRemovesTheRoot | shellbeats.c:1470-1483 | as written, deleting a playlist named ".." deletes the download root with every download in it and the parent's entries listed before the root; the parent stays, listing everything else |
| Library.DeletingDotEmptiesTheRoot | shellbeats.c:1470-1483 | as written, deleting a playlist named "." deletes every directory below the download root and leaves the root empty |
| Library.DeletePlaylist | shellbeats.c:1466-1500 | false with no change for an index out of range; otherwise the playlist is removed and the later ones move left; its download directory tree is deleted when the name is an ordinary relative path, and no directory is touched otherwise |
| Library.DeletePlaylistStaysBelowRoot | shellbeats.c:1479-1483 | deleting a playlist removes only directories strictly below the download root |
| Library.DeleteAgreesOnOrdinaryNames | shellbeats.c:1466-1500 | for an ordinary name the deletion has exactly the effect of delete_playlist as written |
| Library.DeleteFreesItsFilename | shellbeats.c:1466-1500 | with distinct backing files, deleting a playlist frees exactly its own backing file; a refused deletion changes nothing |
| Library.DeletedAsWrittenHasNoDownloads | shellbeats.c:1479-1483 | as written, for every name not ending in "..", no download is found afterwards in the directory the path resolves to: it is gone or empty |
| Library.DeletedPlaylistHasNoDownloads | shellbeats.c:1470-1483 | after deleting a playlist with an ordinary name none of its songs counts as downloaded for a playlist of that name |
| Library.DeletedPlaylistLeavesRootListing | shellbeats.c:1470-1483 | after deleting a playlist whose name is one ordinary component (no `/`, not "." or ".."), the download root lists exactly what it listed before except that playlist's directory |
| Library.RemoveSong | shellbeats.c:1541-1563 | false with no change for indices out of range; otherwise the song is removed from its playlist, later songs move left, other playlists are untouched |
| Library.EnsureLoaded | shellbeats.c:1508-1511 | an empty playlist whose file can be read takes the file's first 500 songs and its type; otherwise the playlist is unchanged |
| Library.AddSong | shellbeats.c:1502-1539 | false with no change for a bad playlist index or a missing song or id; false when the loaded playlist is full or has the id; otherwise one song (title or "Unknown", watch URL, duration) is appended and the download is requested for the playlist's directory |
| Library.AddedSongIsRequested | shellbeats.c:1535-1536 | after a song is added it is PENDING in the queue, already downloaded for the playlist, or the queue was full |
| Library.CreateKeepsGood | shellbeats.c:1422-1464 | creating keeps the table within 50, names distinct ignoring case, backing files distinct |
| Library.DeleteKeepsGood | shellbeats.c:1466-1500 | deleting leaves no gap and no duplicate |
| Library.RemoveAtKeepsGood | shellbeats.c:1553-1556 | removing a song keeps a playlist's ids distinct |
| Library.RemoveSongKeepsGood | shellbeats.c:1541-1563 | remove_song_from_playlist keeps the library good |
| Library.AddSongKeepsGood | shellbeats.c:1502-1539 | adding a song keeps every playlist within 500 songs with distinct ids |
| YoutubePlaylist.StripLineEnd | youtube_playlist.c:63-65 | exactly the trailing run of `\n` and `\r` is removed |
| YoutubePlaylist.SplitFields | youtube_playlist.c:69-78 | a line splits at its first `\|\|\|` and the first `\|\|\|` after that into title, id and rest; None when either is missing |
| YoutubePlaylist.SplitFieldsOfJoin | youtube_playlist.c:69-78 | splitting `title\|\|\|id\|\|\|rest` gives back the three parts when title and id hold no `\|` |
| YoutubePlaylist.ParseLine | youtube_playlist.c:62-91 | a line gives a song exactly when it is not empty, does not start with "ERROR", has both separators and a non-empty id; the song has the line's title and id, the id's watch URL and atoi of the duration |
| YoutubePlaylist.StripPrintedLine | youtube_playlist.c:63-65 | stripping removes exactly an appended line ending |
| YoutubePlaylist.ParseLineOfPrintedSong | youtube_playlist.c:62-91 | a line printed for a song, with any line ending, reads back as that song |
| YoutubePlaylist.AcceptedPrefix | youtube_playlist.c:62-103 | the songs of the first lines come first among the songs of all lines |
| YoutubePlaylist.ReadSongs | youtube_playlist.c:62-103 | the read loop returns the first max_songs songs the lines describe, never more |
| YoutubePlaylist.PlaylistTitle | youtube_playlist.c:28-40 | the title is "YouTube Playlist" unless the first line is non-empty after stripping, and then it is that line cut to title_size - 1 characters |
| YoutubePlaylist.FetchPlaylist | youtube_playlist.c:6-116 | -1 exactly for a NULL url, song array or title buffer, max_songs <= 0, title_size 0 or a failed popen; otherwise the count of the songs read, at most max_songs |
| YoutubePlaylist.ValidatePlaylistUrl | youtube_playlist.c:118-122 | true exactly when the URL is present and contains "youtube.com/playlist?list=" or "youtu.be/playlist?list=" |
| YoutubePlaylist.PlaylistLinksAreValid | youtube_playlist.c:118-122 | any text with a playlist marker in it is accepted |

## Left out

- Threads, the queue mutex, `usleep` polling and thread start/stop: each locked section is one atomic transition, and the trace lemmas assume a single worker.
- The fetch itself (`system` running yt-dlp), `mkdir_p` and the second existence check of the worker: the worker's observations (file already there, exit status, file there afterwards) are parameters of its finishing event, and `DownloadQueue.FetchSucceeded` turns them into the recorded outcome as shellbeats.c:1015-1039 does.
- The text level of the queue document: the 1 MB size check, the search for `"tasks"` and `[`, and splitting objects at the first `{` and `}`. Loading starts from the objects as `json_get_string` reads them (`QueueStore.Entry`).
- QueueStore.Save: writes `video_id` without escaping (shellbeats.c:856-857); the model assumes ids hold no `"` or `\`, which YouTube ids never do.
- File writes of `save_playlist`, `save_playlists_index` and the queue document, `unlink` of the playlist file, and how `load_playlist_songs` parses a playlist file. Its result is the parameter `Library.StoredPlaylist`.
- Fixed-size copies of task fields into C arrays (`strncpy` of the id, title, file name and playlist name), the 256-byte key pattern of `json_get_string` and the 64-byte `[<id>].mp3` pattern of `file_exists_for_video`: strings are not cut. The exceptions are the 180-character stem, the 255-character stem buffer, the 255-character song URL, the playlist title and the deleted directory's name, which are modelled.
- Allocation failures (`malloc` or `strdup` returning NULL) and the errors they cause.
- atoi overflow: durations are unbounded integers.
- Progress callbacks, the yt-dlp command text, the default `yt-dlp` command and the config file.
- YoutubePlaylist.PlaylistTitle: the default title is copied with `strcpy` whatever `title_size` is; the model does not express the overflow when the buffer holds fewer than 17 bytes.
- Filenames.SanitizeTitle: builds the name on the corrected stem (`Filenames.TitleStem`), so where the stem as written ends in `_` (179 letters followed by " b") the model stores `<179 letters>_[<id>].mp3` while the program writes `<179 letters>__[<id>].mp3`. `Filenames.StemsAgreeUnlessCutAtUnderscore` shows the two agree in every other case; the probe for an existing download looks only at `[<id>].mp3`, so it is unaffected.
- QueueStore.SaveLoadRoundTrip: holds for tasks whose fields contain no `}` and whose title, file name and playlist name do not end in `"filename`, `"playlist` or `"status`. `load_download_queue` ends each object at the first `}` (shellbeats.c:913), and `json_escape_string` does not escape `}`, so a FAILED task titled "a}b" reloads as PENDING with title "a}" and an empty file name and playlist. And `json_get_string` takes the first `"<key>"` anywhere in the object (shellbeats.c:454-459); the fields are written in the order video_id, title, filename, playlist, status (shellbeats.c:853-858), so a title `a"status` is written `a\"status"`, the search for `"status"` stops inside it, the next character is `,`, and the status reads as NULL: the FAILED task reloads as PENDING. A title ending in `"filename` loses the file name the same way.
- QueueStore.ReloadedQueueIsConsistent: holds under the same two conditions. With either the `}` cut or a captured `"status` key, a FAILED task whose id was queued again while it was FAILED reloads as two PENDING tasks with one id.
- Library.DeletePlaylist: is the corrected deletion. The program joins the download path and the name (shellbeats.c:1481) and lets the file system resolve it. Any non-empty name is accepted (shellbeats.c:1422-1424). So deleting a playlist named ".." deletes the download root and the entries of its parent listed before it, and "." deletes every playlist's downloads (see "## Findings"). The model removes the directory only when every `/`-separated component of the name is neither empty nor "." nor "..". For such names `Library.DeleteAgreesOnOrdinaryNames` shows it matches the program; for other names it keeps every directory. Symbolic links are not resolved.
- Library.DeletePlaylistAsWritten: follows the C walk exactly for ordinary names, for "." and "..", and for an ordinary path followed by "/." or "/..". For any other name (one with an empty, "." or ".." component further in) it removes the directory the name resolves to as a whole. The C walk does the same unless the path passes through a directory that the walk deletes, or ends in "." or ".." after such components (shellbeats.c:387-418). The order in which readdir lists the parent is the parameter `before`.
- Library.DeletedPlaylistHasNoDownloads: stated for names whose components are all ordinary, because for other names the corrected deletion keeps the directory. `Library.DeletedAsWrittenHasNoDownloads` states the program's behaviour for every name not ending in "..". For ".." the entries of the parent listed after the download root survive (`Library.WalkUp`), so a download among them is still found.
- DownloadQueue.Enqueue: the download tree is keyed by resolved absolute paths with no trailing `/`, and the configured download path is assumed to be one. The user can set it freely (shellbeats.c:815-818, 3036-3038); with `/h/Music/` the joined `/h/Music//Mix` is not a key of the model, while the program finds it. `add_to_download_queue` and the worker probe and write `<root>/<name>` as joined (shellbeats.c:1077-1083, 998-1010). The two agree for ordinary names (`Library.ResolveOrdinary`); for a name such as "a/../b" the model looks up the unresolved string.
- Library.RemoveTree: `delete_directory_recursive` is best-effort; an entry whose `stat`, `unlink` or `rmdir` fails stays behind (shellbeats.c:387-410). The model removes everything.
- The C library's character classes and case mapping (`isalnum`, `isspace`, `tolower`, `strcasecmp`) are those of the C locale, or of a UTF-8 locale, where bytes above 127 are neither letters nor spaces. `main` calls `setlocale(LC_ALL, "")` (shellbeats.c:2875), so under a single-byte locale such as ISO-8859-1 a byte like 0xC9 would count as a letter and be lower-cased into a playlist slug; the model drops it.
- Library.EnsureLoaded: a playlist file that exists but cannot be parsed leaves the playlist empty; the model treats it like a missing file (`None`).

## Findings

| source | as written | input that shows it | evidently intended | confidence | as-written member | corrected member |
|---|---|---|---|---|---|---|
| shellbeats.c:305-319 | trailing underscores are removed before the stem is cut to 180 characters, so the cut can leave a `_` at the end | a title of 179 letters followed by " b" gives 179 letters and `_` | the stem never ends in `_` | not executed; high | Filenames.StemAsWrittenCanEndInUnderscore | Filenames.TitleStem |
| shellbeats.c:1470-1483 | the download directory is `<download path>/<name>` with the name unchecked, so "." and ".." are followed by the file system | deleting a playlist named ".." with the download path /h/Music/shellbeats deletes /h/Music/shellbeats with every download in it, and every entry of /h/Music that readdir lists before shellbeats; deleting "." empties /h/Music/shellbeats | only the playlist's own directory below the download path is removed | not executed; high | Library.DeletingDotDotRemovesTheRoot | Library.DeletePlaylist |
| shellbeats.c:1437-1451 | on a slug collision the file name becomes "<count>_<slug>", and that name is not checked again | playlists "A" (a.json) and "2 a" (2_a.json), then creating "a!" gives 2_a.json a second time | every playlist has its own backing file | not executed; high | Library.NumberedFilenameCanCollide | Library.CreatePlaylist |
