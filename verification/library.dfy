/** The playlist library: create_playlist, delete_playlist, add_song_to_playlist
  * and remove_song_from_playlist over the in-memory playlist table, with the
  * download tree that delete_playlist prunes and the resolution of "." and ".."
  * in the directory it removes. Writing and unlinking the index and playlist
  * files are not modelled. */
module Library {
  import opened Options
  import opened CStrings
  import opened Filenames
  import opened Songs
  import DownloadQueue

  /** MAX_PLAYLISTS and MAX_PLAYLIST_ITEMS. */
  const MaxPlaylists := 50
  const MaxPlaylistItems := 500

  /** A Playlist: its name, its backing file, its songs (as loaded so far), and
    * whether it was imported from YouTube. */
  datatype Playlist = Playlist(name: string, filename: string, songs: seq<Song>, isYoutube: bool)

  // ---------------------------------------------------------------------------
  // Removing one element and shifting the rest left
  // ---------------------------------------------------------------------------

  /** The sequence without its element at `idx`, the others kept in order. */
  function RemoveAt<T>(s: seq<T>, idx: nat): (r: seq<T>)
    requires idx < |s|
    ensures |r| == |s| - 1
    ensures forall j :: 0 <= j < idx ==> r[j] == s[j]
    ensures forall j :: idx <= j < |r| ==> r[j] == s[j + 1]
  {
    s[..idx] + s[idx + 1..]
  }

  /** The shift loop of delete_playlist and remove_song_from_playlist: every
    * element after `idx` moves one slot left, then the count drops by one. */
  method ShiftLeft<T>(s: seq<T>, idx: nat) returns (r: seq<T>)
    requires idx < |s|
    ensures r == RemoveAt(s, idx)
  {
    var a := s;
    var i := idx;
    while i < |s| - 1
      invariant idx <= i <= |s| - 1
      invariant |a| == |s|
      invariant forall j :: 0 <= j < idx ==> a[j] == s[j]
      invariant forall j :: idx <= j < i ==> a[j] == s[j + 1]
      invariant forall j :: i <= j < |s| ==> a[j] == s[j]
    {
      a := a[i := a[i + 1]];
      i := i + 1;
    }
    r := a[..|s| - 1];
  }

  // ---------------------------------------------------------------------------
  // create_playlist
  // ---------------------------------------------------------------------------

  /** Some playlist already has this name, ignoring letter case (strcasecmp). */
  predicate NameTaken(lists: seq<Playlist>, name: string) {
    exists i :: 0 <= i < |lists| && EqualIgnoringCase(lists[i].name, name)
  }

  /** The backing files in use. */
  function FilenamesInUse(lists: seq<Playlist>): (r: set<string>)
    ensures forall i :: 0 <= i < |lists| ==> lists[i].filename in r
    ensures forall f :: f in r ==> exists i :: 0 <= i < |lists| && lists[i].filename == f
  {
    set i | 0 <= i < |lists| :: lists[i].filename
  }

  /** The disambiguated file name "<n>_<slug>". */
  function NumberedFilename(n: nat, slug: string): string {
    NatToString(n) + "_" + slug
  }

  /** Different numbers give different numbered file names. */
  lemma NumberedFilenameInjective(a: nat, b: nat, slug: string)
    requires NumberedFilename(a, slug) == NumberedFilename(b, slug)
    ensures a == b
  {
    var x, y := NatToString(a), NatToString(b);
    var fx, fy := NumberedFilename(a, slug), NumberedFilename(b, slug);
    assert x == fx[..|x|] && y == fy[..|y|];
    NatToStringInjective(a, b);
  }

  /** The outcome of create_playlist: the new index, or -1 (table full, name
    * missing or empty) or -2 (a playlist with that name exists). */
  predicate CreateOutcome(lists: seq<Playlist>, name: Option<string>, isYoutube: bool, r: (int, seq<Playlist>)) {
    && (r.0 < 0 ==> r.1 == lists)
    && (r.0 == -1 <==> |lists| >= MaxPlaylists || name.None? || name.value == [])
    && (r.0 == -2 <==> |lists| < MaxPlaylists && name.Some? && name.value != [] && NameTaken(lists, name.value))
    && (r.0 >= 0 ==>
          && r.0 == |lists|
          && |r.1| == |lists| + 1 && r.1[..|lists|] == lists
          && r.1[|lists|].name == name.value && r.1[|lists|].songs == [] && r.1[|lists|].isYoutube == isYoutube)
  }

  /** create_playlist as written: when the slug is already a backing file it is
    * prefixed with the current playlist count once, without checking the
    * prefixed name again. */
  function CreatePlaylistAsWritten(lists: seq<Playlist>, name: Option<string>, isYoutube: bool): (r: (int, seq<Playlist>))
    ensures CreateOutcome(lists, name, isYoutube, r)
    ensures r.0 >= 0 ==>
              var slug := Slug(name.value);
              r.1[|lists|].filename == (if slug in FilenamesInUse(lists) then NumberedFilename(|lists|, slug) else slug)
  {
    if |lists| >= MaxPlaylists then (-1, lists)
    else if name.None? || name.value == [] then (-1, lists)
    else if NameTaken(lists, name.value) then (-2, lists)
    else
      var slug := Slug(name.value);
      var filename := if slug in FilenamesInUse(lists) then NumberedFilename(|lists|, slug) else slug;
      var r := lists + [Playlist(name.value, filename, [], isYoutube)];
      assert r[..|lists|] == lists;
      (|lists|, r)
  }

  /** "a!" slugs to a.json. */
  lemma SlugOfABang()
    ensures Slug("a!") == "a.json"
  {
    assert SlugStem("!") == [];
    assert SlugStem("a!") == "a";
  }

  /** The facts about the two playlists that the collision rests on. */
  lemma CollisionSetting(lists: seq<Playlist>)
    requires lists == [Playlist("A", "a.json", [], false), Playlist("2 a", "2_a.json", [], false)]
    ensures "a.json" in FilenamesInUse(lists)
    ensures NumberedFilename(2, "a.json") == "2_a.json"
    ensures !NameTaken(lists, "a!")
  {
    assert lists[0].filename == "a.json";
    assert NatToString(2) == "2";
    forall i | 0 <= i < |lists| ensures !EqualIgnoringCase(lists[i].name, "a!") {
      assert |LowerString(lists[i].name)| != |LowerString("a!")|;
    }
  }

  /** With playlists "A" (a.json) and "2 a" (2_a.json), creating "a!" slugs to
    * a.json, which is taken, so it gets 2_a.json: the file of "2 a". */
  lemma NumberedFilenameCanCollide()
    ensures var lists := [Playlist("A", "a.json", [], false), Playlist("2 a", "2_a.json", [], false)];
            var r := CreatePlaylistAsWritten(lists, Some("a!"), false);
            && r.0 == 2
            && r.1[2].filename == r.1[1].filename
  {
    SlugOfABang();
    CollisionSetting([Playlist("A", "a.json", [], false), Playlist("2 a", "2_a.json", [], false)]);
  }

  /** The first of "<n>_<slug>", "<n+1>_<slug>", ... that is not in `taken`. */
  function FreeNumberedFilename(taken: set<string>, slug: string, n: nat): (f: string)
    ensures f !in taken
    ensures exists k :: k >= n && f == NumberedFilename(k, slug)
                        && forall j :: n <= j < k ==> NumberedFilename(j, slug) in taken
    decreases |taken|
  {
    var c := NumberedFilename(n, slug);
    if c !in taken then c
    else
      var f := FreeNumberedFilename(taken - {c}, slug, n + 1);
      var k :| k >= n + 1 && f == NumberedFilename(k, slug)
               && forall j :: n + 1 <= j < k ==> NumberedFilename(j, slug) in taken - {c};
      if f == c then NumberedFilenameInjective(k, n, slug); f
      else f
  }

  /** The backing file create_playlist evidently means to choose: the slug, or
    * when that is taken the first free "<n>_<slug>" counting up from the
    * current playlist count. */
  function ChooseFilename(lists: seq<Playlist>, slug: string): (f: string)
    ensures f !in FilenamesInUse(lists)
    ensures slug !in FilenamesInUse(lists) ==> f == slug
    ensures slug in FilenamesInUse(lists) ==>
              exists k :: k >= |lists| && f == NumberedFilename(k, slug)
                          && forall j :: |lists| <= j < k ==> NumberedFilename(j, slug) in FilenamesInUse(lists)
  {
    if slug in FilenamesInUse(lists) then FreeNumberedFilename(FilenamesInUse(lists), slug, |lists|) else slug
  }

  /** create_playlist with a backing file that no other playlist uses. */
  function CreatePlaylist(lists: seq<Playlist>, name: Option<string>, isYoutube: bool): (r: (int, seq<Playlist>))
    ensures CreateOutcome(lists, name, isYoutube, r)
    ensures r.0 >= 0 ==> r.1[|lists|].filename !in FilenamesInUse(lists)
    ensures r.0 >= 0 && Slug(name.value) !in FilenamesInUse(lists) ==> r.1[|lists|].filename == Slug(name.value)
  {
    if |lists| >= MaxPlaylists then (-1, lists)
    else if name.None? || name.value == [] then (-1, lists)
    else if NameTaken(lists, name.value) then (-2, lists)
    else
      var filename := ChooseFilename(lists, Slug(name.value));
      var r := lists + [Playlist(name.value, filename, [], isYoutube)];
      assert r[..|lists|] == lists;
      (|lists|, r)
  }

  /** A created playlist brings exactly its own backing file into use; a
    * refused one changes nothing. */
  lemma CreateAddsItsFilename(lists: seq<Playlist>, name: Option<string>, isYoutube: bool)
    ensures var r := CreatePlaylist(lists, name, isYoutube);
            FilenamesInUse(r.1) == FilenamesInUse(lists) + (if r.0 >= 0 then {r.1[|lists|].filename} else {})
  {
    var r := CreatePlaylist(lists, name, isYoutube);
    if r.0 >= 0 {
      forall f | f in FilenamesInUse(r.1) ensures f in FilenamesInUse(lists) || f == r.1[|lists|].filename {
        var i :| 0 <= i < |r.1| && r.1[i].filename == f;
        if i < |lists| { assert r.1[i] == lists[i]; }
      }
      forall f | f in FilenamesInUse(lists) ensures f in FilenamesInUse(r.1) {
        var i :| 0 <= i < |lists| && lists[i].filename == f;
        assert r.1[i] == lists[i];
      }
    }
  }

  // ---------------------------------------------------------------------------
  // delete_playlist, add_song_to_playlist, remove_song_from_playlist
  // ---------------------------------------------------------------------------

  /** The download directory delete_playlist removes: the download root
    * joined with the playlist name as copied into a 256-byte buffer. */
  function DownloadDirOf(root: string, name: string): string {
    root + "/" + Truncate(name, 255)
  }

  /** `path` is `dir` itself or lies somewhere below it. */
  predicate Within(path: string, dir: string) {
    path == dir || (|path| > |dir| && path[..|dir| + 1] == dir + "/")
  }

  /** The index of the last `/` of a path, if it has one. */
  function LastSlash(path: string): (r: Option<nat>)
    ensures r.Some? ==> r.value < |path| && path[r.value] == '/'
                        && forall j :: r.value < j < |path| ==> path[j] != '/'
    ensures r.None? ==> forall j :: 0 <= j < |path| ==> path[j] != '/'
  {
    if path == [] then None
    else if path[|path| - 1] == '/' then Some(|path| - 1)
    else LastSlash(path[..|path| - 1])
  }

  /** delete_directory_recursive when every stat, unlink and rmdir succeeds,
    * behind the dir_exists test of delete_playlist: an existing directory goes
    * with everything below it, and its name leaves the listing of the directory
    * that holds it; a missing directory changes nothing. */
  function RemoveTree(dirs: Dirs, dir: string): (r: Dirs)
    ensures dir !in dirs ==> r == dirs
    ensures dir in dirs ==> forall d :: d in r <==> d in dirs && !Within(d, dir)
    ensures dir in dirs ==>
              forall d :: d in r && (LastSlash(dir).None? || d != dir[..LastSlash(dir).value]) ==> r[d] == dirs[d]
    ensures dir in dirs && LastSlash(dir).Some? && dir[..LastSlash(dir).value] in r ==>
              var k := LastSlash(dir).value;
              r[dir[..k]] == dirs[dir[..k]] - {dir[k + 1..]}
  {
    if dir !in dirs then dirs
    else
      var kept := map d | d in dirs && !Within(d, dir) :: dirs[d];
      match LastSlash(dir)
      case None => kept
      case Some(k) =>
        var parent := dir[..k];
        if parent in kept then kept[parent := kept[parent] - {dir[k + 1..]}] else kept
  }

  // ---------------------------------------------------------------------------
  // How the file system resolves "<download root>/<playlist name>"
  // ---------------------------------------------------------------------------

  /** The index of the first `/` of a path, if it has one. */
  function FirstSlash(path: string): (r: Option<nat>)
    ensures r.Some? ==> r.value < |path| && path[r.value] == '/'
                        && forall j :: 0 <= j < r.value ==> path[j] != '/'
    ensures r.None? ==> forall j :: 0 <= j < |path| ==> path[j] != '/'
  {
    if path == [] then None
    else if path[0] == '/' then Some(0)
    else match FirstSlash(path[1..])
      case None => None
      case Some(k) => Some(k + 1)
  }

  /** The directory holding a resolved directory. Keys of `Dirs` are resolved
    * absolute paths without a trailing `/`, so the file system root is "" and
    * is its own parent. */
  function Parent(dir: string): string {
    match LastSlash(dir)
    case None => ""
    case Some(k) => dir[..k]
  }

  /** Following one path component from a resolved directory: "" and "." stay,
    * ".." goes up, any other name goes down. */
  function StepInto(dir: string, component: string): string {
    if component == "" || component == "." then dir
    else if component == ".." then Parent(dir)
    else dir + "/" + component
  }

  /** The directory `<dir>/<rel>` denotes, following the components of `rel`
    * from left to right (symbolic links are not modelled). */
  function ResolveFrom(dir: string, rel: string): string
    decreases |rel|
  {
    match FirstSlash(rel)
    case None => StepInto(dir, rel)
    case Some(k) => ResolveFrom(StepInto(dir, rel[..k]), rel[k + 1..])
  }

  /** A path component that names an entry: neither empty, nor "." nor "..". */
  predicate OrdinaryComponent(component: string) {
    component != "" && component != "." && component != ".."
  }

  /** A relative path all of whose components name entries. */
  predicate OrdinaryName(rel: string)
    decreases |rel|
  {
    match FirstSlash(rel)
    case None => OrdinaryComponent(rel)
    case Some(k) => OrdinaryComponent(rel[..k]) && OrdinaryName(rel[k + 1..])
  }

  /** For an ordinary name the file system goes where the joined string says. */
  lemma {:induction false} ResolveOrdinary(dir: string, rel: string)
    requires OrdinaryName(rel)
    ensures ResolveFrom(dir, rel) == dir + "/" + rel
    decreases |rel|
  {
    match FirstSlash(rel)
    case None =>
    case Some(k) =>
      var down := dir + "/" + rel[..k];
      ResolveOrdinary(down, rel[k + 1..]);
      JoinAtSlash(dir, rel, k);
  }

  /** Joining at the `/` at index k of `rel` in two steps joins it in one. */
  lemma JoinAtSlash(dir: string, rel: string, k: nat)
    requires k < |rel| && rel[k] == '/'
    ensures (dir + "/" + rel[..k]) + "/" + rel[k + 1..] == dir + "/" + rel
  {
    assert rel == rel[..k] + "/" + rel[k + 1..];
  }

  /** A path below `<root>/<name>` is below `root`, and is not `root` itself. */
  lemma WithinJoin(d: string, root: string, name: string)
    requires Within(d, root + "/" + name)
    ensures Within(d, root) && d != root
  {
    var t := root + "/" + name;
    assert t[..|root| + 1] == root + "/";
    if d != t {
      assert d[..|root| + 1] == d[..|t| + 1][..|root| + 1];
    }
  }

  // ---------------------------------------------------------------------------
  // delete_playlist
  // ---------------------------------------------------------------------------

  /** The C walk over `<dir>/.`: every entry goes, a directory with all it
    * holds, but the closing rmdir of a path ending in "." fails, so the
    * directory itself stays, empty. A missing directory changes nothing. */
  function EmptyTree(dirs: Dirs, dir: string): (r: Dirs)
    ensures dir !in dirs ==> r == dirs
    ensures dir in dirs ==> dir in r && r[dir] == {}
    ensures dir in dirs ==> forall d :: d in r <==> d in dirs && (d == dir || !Within(d, dir))
    ensures forall d :: d in r && d != dir ==> r[d] == dirs[d]
  {
    if dir !in dirs then dirs
    else (map d | d in dirs && (d == dir || !Within(d, dir)) :: dirs[d])[dir := {}]
  }

  /** The C walk over `<dir>/..`, where `before` holds the entries of the parent
    * that readdir returns before `dir` itself. Those go first, a directory with
    * all it holds; then `dir` goes with all it holds. From then on every path
    * `<dir>/../<entry>` fails to resolve, so stat fails and the remaining
    * entries stay, and the closing rmdir of a path ending in ".." fails, so the
    * parent stays. Without a parent (`dir` is the file system root) ".." is
    * `dir` itself. A missing directory or parent changes nothing. */
  function WalkUp(dirs: Dirs, dir: string, before: set<string>): (r: Dirs)
    ensures dir !in dirs ==> r == dirs
    ensures dir in dirs && LastSlash(dir).None? ==> r == EmptyTree(dirs, dir)
    ensures dir in dirs && LastSlash(dir).Some? && Parent(dir) !in dirs ==> r == dirs
    ensures dir in dirs && LastSlash(dir).Some? && Parent(dir) in dirs ==>
              var parent, name := Parent(dir), dir[LastSlash(dir).value + 1..];
              && (forall d :: Within(d, dir) ==> d !in r)
              && (forall x, d :: x in before && x in dirs[parent] && Within(d, parent + "/" + x) ==> d !in r)
              && parent in r && r[parent] == dirs[parent] - before - {name}
              && (forall d :: d in dirs && d != parent && !Within(d, dir)
                              && (forall x :: x in before && x in dirs[parent] ==> !Within(d, parent + "/" + x))
                              ==> d in r && r[d] == dirs[d])
  {
    if dir !in dirs then dirs
    else match LastSlash(dir)
      case None => EmptyTree(dirs, dir)
      case Some(k) =>
        var parent := dir[..k];
        if parent !in dirs then dirs
        else
          var kept := map d | d in dirs && !Within(d, dir)
                                && (forall x :: x in before && x in dirs[parent] ==> !Within(d, parent + "/" + x)) :: dirs[d];
          assert parent in kept by {
            assert !Within(parent, dir);
            forall x | x in before && x in dirs[parent] ensures !Within(parent, parent + "/" + x) { }
          }
          kept[parent := dirs[parent] - before - {dir[k + 1..]}]
  }

  /** `s` ends in `t`. */
  predicate EndsIn(s: string, t: string) {
    |s| >= |t| && s[|s| - |t|..] == t
  }

  /** What delete_directory_recursive does to `<root>/<name>`, the path tested
    * by dir_exists: an ordinary name is deleted like any directory; "." or an
    * ordinary path followed by "/." is emptied; ".." or an ordinary path
    * followed by "/.." is walked up from; any other name is taken to delete the
    * directory it resolves to. */
  function WalkAsWritten(dirs: Dirs, root: string, name: string, before: set<string>): Dirs {
    if OrdinaryName(name) then RemoveTree(dirs, ResolveFrom(root, name))
    else if name == "." then EmptyTree(dirs, root)
    else if name == ".." then WalkUp(dirs, root, before)
    else if EndsIn(name, "/.") && OrdinaryName(name[..|name| - 2]) then EmptyTree(dirs, root + "/" + name[..|name| - 2])
    else if EndsIn(name, "/..") && OrdinaryName(name[..|name| - 3]) then WalkUp(dirs, root + "/" + name[..|name| - 3], before)
    else RemoveTree(dirs, ResolveFrom(root, name))
  }

  /** delete_playlist as written, the name as copied into its 256-byte buffer;
    * `before` is the listing order a ".." walk meets (see `WalkUp`). */
  function DeletePlaylistAsWritten(lists: seq<Playlist>, dirs: Dirs, root: string, idx: int, before: set<string>): (r: (bool, seq<Playlist>, Dirs))
    ensures r.0 <==> 0 <= idx < |lists|
    ensures !r.0 ==> r.1 == lists && r.2 == dirs
    ensures r.0 ==> r.1 == RemoveAt(lists, idx) && r.2 == WalkAsWritten(dirs, root, Truncate(lists[idx].name, 255), before)
  {
    if idx < 0 || idx >= |lists| then (false, lists, dirs)
    else (true, RemoveAt(lists, idx), WalkAsWritten(dirs, root, Truncate(lists[idx].name, 255), before))
  }

  /** Deleting a playlist named "..", as written, deletes the download root
    * with every download in it, and every entry of the root's parent that the
    * listing returns before the root; the parent and its later entries stay. */
  lemma DeletingDotDotRemovesTheRoot(lists: seq<Playlist>, dirs: Dirs, root: string, idx: int, before: set<string>)
    requires 0 <= idx < |lists| && lists[idx].name == ".."
    requires root in dirs && LastSlash(root).Some? && Parent(root) in dirs
    ensures var r := DeletePlaylistAsWritten(lists, dirs, root, idx, before).2;
            var parent, name := Parent(root), root[LastSlash(root).value + 1..];
            && (forall d :: Within(d, root) ==> d !in r)
            && parent in r && r[parent] == dirs[parent] - before - {name}
  {
    assert Truncate(lists[idx].name, 255) == "..";
    assert !OrdinaryName("..") by { assert FirstSlash("..").None?; }
  }

  /** Deleting a playlist named ".", as written, deletes every playlist's
    * downloads: the download root stays, empty. */
  lemma DeletingDotEmptiesTheRoot(lists: seq<Playlist>, dirs: Dirs, root: string, idx: int, before: set<string>)
    requires 0 <= idx < |lists| && lists[idx].name == "."
    requires root in dirs
    ensures var r := DeletePlaylistAsWritten(lists, dirs, root, idx, before).2;
            && root in r && r[root] == {}
            && forall d :: Within(d, root) && d != root ==> d !in r
  {
    assert Truncate(lists[idx].name, 255) == ".";
    assert !OrdinaryName(".") by { assert FirstSlash(".").None?; }
  }

  /** The first `/` of a path is at `k` when `k` holds one and nothing before does. */
  lemma FirstSlashIs(path: string, k: nat)
    requires k < |path| && path[k] == '/' && forall j :: 0 <= j < k ==> path[j] != '/'
    ensures FirstSlash(path) == Some(k)
  {
  }

  /** Resolving one more component after a path steps from where the path led. */
  lemma {:induction false} ResolveAppend(dir: string, p: string, c: string)
    requires forall j :: 0 <= j < |c| ==> c[j] != '/'
    ensures ResolveFrom(dir, p + "/" + c) == StepInto(ResolveFrom(dir, p), c)
    decreases |p|
  {
    var s := p + "/" + c;
    match FirstSlash(p)
    case None =>
      FirstSlashIs(s, |p|);
      assert s[..|p|] == p && s[|p| + 1..] == c;
    case Some(k) =>
      FirstSlashIs(s, k);
      assert s[..k] == p[..k];
      assert s[k + 1..] == p[k + 1..] + "/" + c;
      ResolveAppend(StepInto(dir, p[..k]), p[k + 1..], c);
  }

  /** A removed tree holds no download. */
  lemma RemovedTreeHasNoFile(dirs: Dirs, dir: string, id: string)
    ensures !FileExistsForVideo(RemoveTree(dirs, dir), dir, id)
  {
  }

  /** An emptied tree holds no download. */
  lemma EmptiedTreeHasNoFile(dirs: Dirs, dir: string, id: string)
    ensures !FileExistsForVideo(EmptyTree(dirs, dir), dir, id)
  {
  }

  /** A name ending in "/." after an ordinary path resolves to that path. */
  lemma ResolveDotTail(root: string, name: string)
    requires EndsIn(name, "/.") && OrdinaryName(name[..|name| - 2])
    ensures ResolveFrom(root, name) == root + "/" + name[..|name| - 2]
  {
    var p := name[..|name| - 2];
    assert name == p + "/" + ".";
    ResolveAppend(root, p, ".");
    ResolveOrdinary(root, p);
  }

  /** Unless the name ends in "..", the directory the file system resolves for
    * it holds no download after the walk as written: it is gone or empty. */
  lemma WalkLeavesNoDownloads(dirs: Dirs, root: string, name: string, before: set<string>, id: string)
    requires name != ".." && !EndsIn(name, "/..")
    ensures !FileExistsForVideo(WalkAsWritten(dirs, root, name, before), ResolveFrom(root, name), id)
  {
    var dir := ResolveFrom(root, name);
    if OrdinaryName(name) {
      RemovedTreeHasNoFile(dirs, dir, id);
    } else if name == "." {
      assert FirstSlash(".").None?;
      assert dir == root;
      EmptiedTreeHasNoFile(dirs, root, id);
    } else if EndsIn(name, "/.") && OrdinaryName(name[..|name| - 2]) {
      ResolveDotTail(root, name);
      EmptiedTreeHasNoFile(dirs, dir, id);
    } else {
      RemovedTreeHasNoFile(dirs, dir, id);
    }
  }

  /** Unless the name ends in "..", the directory the file system resolves for
    * it holds no download after the deletion as written: it is gone or empty. */
  lemma DeletedAsWrittenHasNoDownloads(lists: seq<Playlist>, dirs: Dirs, root: string, idx: int, before: set<string>, id: string)
    requires 0 <= idx < |lists|
    requires var name := Truncate(lists[idx].name, 255); name != ".." && !EndsIn(name, "/..")
    ensures !FileExistsForVideo(DeletePlaylistAsWritten(lists, dirs, root, idx, before).2,
                                ResolveFrom(root, Truncate(lists[idx].name, 255)), id)
  {
    WalkLeavesNoDownloads(dirs, root, Truncate(lists[idx].name, 255), before, id);
  }

  /** delete_playlist, removing the download directory only when the name (as
    * copied into its 256-byte buffer) is an ordinary relative path, so that the
    * directory lies below the download root: an index out of range changes
    * nothing; otherwise the playlist leaves the table, the later ones move one
    * slot left, and its download directory is removed with everything in it. */
  function DeletePlaylist(lists: seq<Playlist>, dirs: Dirs, root: string, idx: int): (r: (bool, seq<Playlist>, Dirs))
    ensures r.0 <==> 0 <= idx < |lists|
    ensures !r.0 ==> r.1 == lists && r.2 == dirs
    ensures r.0 ==> r.1 == RemoveAt(lists, idx)
    ensures r.0 && OrdinaryName(Truncate(lists[idx].name, 255)) ==>
              r.2 == RemoveTree(dirs, DownloadDirOf(root, lists[idx].name))
    ensures r.0 && !OrdinaryName(Truncate(lists[idx].name, 255)) ==> r.2 == dirs
  {
    if idx < 0 || idx >= |lists| then (false, lists, dirs)
    else if OrdinaryName(Truncate(lists[idx].name, 255)) then
      (true, RemoveAt(lists, idx), RemoveTree(dirs, DownloadDirOf(root, lists[idx].name)))
    else (true, RemoveAt(lists, idx), dirs)
  }

  /** Deleting a playlist only ever removes directories strictly below the
    * download root. */
  lemma DeletePlaylistStaysBelowRoot(lists: seq<Playlist>, dirs: Dirs, root: string, idx: int)
    ensures var r := DeletePlaylist(lists, dirs, root, idx).2;
            forall d :: d in dirs && d !in r ==> Within(d, root) && d != root
  {
    var r := DeletePlaylist(lists, dirs, root, idx).2;
    forall d | d in dirs && d !in r ensures Within(d, root) && d != root {
      var name := Truncate(lists[idx].name, 255);
      WithinJoin(d, root, name);
    }
  }

  /** On ordinary names the corrected delete does what the program does. */
  lemma DeleteAgreesOnOrdinaryNames(lists: seq<Playlist>, dirs: Dirs, root: string, idx: int, before: set<string>)
    requires 0 <= idx < |lists| ==> OrdinaryName(Truncate(lists[idx].name, 255))
    ensures DeletePlaylist(lists, dirs, root, idx) == DeletePlaylistAsWritten(lists, dirs, root, idx, before)
  {
    if 0 <= idx < |lists| {
      ResolveOrdinary(root, Truncate(lists[idx].name, 255));
    }
  }

  /** Every backing file left after a removal was in use and is not the removed one's. */
  lemma RemoveAtFilenamesShrink(lists: seq<Playlist>, idx: nat, f: string)
    requires idx < |lists| && f in FilenamesInUse(RemoveAt(lists, idx))
    requires forall i, j :: 0 <= i < j < |lists| ==> lists[i].filename != lists[j].filename
    ensures f in FilenamesInUse(lists) && f != lists[idx].filename
  {
    var r := RemoveAt(lists, idx);
    var i :| 0 <= i < |r| && r[i].filename == f;
    var i' := if i < idx then i else i + 1;
    assert r[i] == lists[i'];
  }

  /** Every other backing file stays in use after a removal. */
  lemma RemoveAtFilenamesKept(lists: seq<Playlist>, idx: nat, f: string)
    requires idx < |lists| && f in FilenamesInUse(lists) && f != lists[idx].filename
    ensures f in FilenamesInUse(RemoveAt(lists, idx))
  {
    var r := RemoveAt(lists, idx);
    var i :| 0 <= i < |lists| && lists[i].filename == f;
    var i' := if i < idx then i else i - 1;
    assert r[i'] == lists[i];
  }

  /** Deleting a playlist frees exactly its backing file when backing files are
    * distinct; a refused deletion changes nothing. */
  lemma DeleteFreesItsFilename(lists: seq<Playlist>, dirs: Dirs, root: string, idx: int)
    requires forall i, j :: 0 <= i < j < |lists| ==> lists[i].filename != lists[j].filename
    ensures var r := DeletePlaylist(lists, dirs, root, idx);
            FilenamesInUse(r.1) == if r.0 then FilenamesInUse(lists) - {lists[idx].filename} else FilenamesInUse(lists)
  {
    if 0 <= idx < |lists| {
      var after := FilenamesInUse(RemoveAt(lists, idx));
      forall f | f in after ensures f in FilenamesInUse(lists) - {lists[idx].filename} {
        RemoveAtFilenamesShrink(lists, idx, f);
      }
      forall f | f in FilenamesInUse(lists) - {lists[idx].filename} ensures f in after {
        RemoveAtFilenamesKept(lists, idx, f);
      }
    }
  }

  /** Once a playlist with an ordinary name (under 256 characters) is deleted,
    * none of its songs counts as downloaded for it any more: adding one again
    * to a playlist of that name queues a fresh download. */
  lemma DeletedPlaylistHasNoDownloads(lists: seq<Playlist>, dirs: Dirs, root: string, idx: int, id: string)
    requires 0 <= idx < |lists| && |lists[idx].name| < 256 && OrdinaryName(lists[idx].name)
    ensures !FileExistsForVideo(DeletePlaylist(lists, dirs, root, idx).2,
                                DownloadQueue.DestDir(root, lists[idx].name), id)
  {
    var name := lists[idx].name;
    assert Truncate(name, 255) == name;
    assert DownloadQueue.DestDir(root, name) == DownloadDirOf(root, name);
  }

  /** The last `/` of `<root>/<name>` is the one after the root when the name
    * holds none. */
  lemma LastSlashOfJoin(root: string, name: string)
    requires forall j :: 0 <= j < |name| ==> name[j] != '/'
    ensures var p := root + "/" + name;
            LastSlash(p) == Some(|root|) && p[..|root|] == root && p[|root| + 1..] == name
  {
    var p := root + "/" + name;
    assert p[|root|] == '/';
    assert forall j :: |root| < j < |p| ==> p[j] == name[j - |root| - 1];
    assert p[..|root|] == root;
    assert p[|root| + 1..] == name;
  }

  /** After a playlist whose name is one ordinary component (no `/`, not "."
    * or "..") is deleted, the download root no longer lists the playlist's
    * directory (and nothing else there changes), so a file name that only that
    * directory matched is no longer found. */
  lemma DeletedPlaylistLeavesRootListing(lists: seq<Playlist>, dirs: Dirs, root: string, idx: int)
    requires 0 <= idx < |lists| && |lists[idx].name| < 256 && OrdinaryComponent(lists[idx].name)
    requires forall j :: 0 <= j < |lists[idx].name| ==> lists[idx].name[j] != '/'
    requires root in dirs && DownloadDirOf(root, lists[idx].name) in dirs
    ensures var r := DeletePlaylist(lists, dirs, root, idx).2;
            root in r && r[root] == dirs[root] - {lists[idx].name}
  {
    var name := lists[idx].name;
    var dir := DownloadDirOf(root, name);
    assert Truncate(name, 255) == name;
    assert FirstSlash(name).None?;
    LastSlashOfJoin(root, name);
    assert !Within(root, dir);
  }

  /** remove_song_from_playlist: out-of-range indices change nothing; otherwise
    * the song leaves its playlist, later songs move left, other playlists stay. */
  function RemoveSong(lists: seq<Playlist>, pIdx: int, sIdx: int): (r: (bool, seq<Playlist>))
    ensures r.0 <==> 0 <= pIdx < |lists| && 0 <= sIdx < |lists[pIdx].songs|
    ensures !r.0 ==> r.1 == lists
    ensures r.0 ==> |r.1| == |lists|
                    && (forall j :: 0 <= j < |lists| && j != pIdx ==> r.1[j] == lists[j])
                    && r.1[pIdx] == lists[pIdx].(songs := RemoveAt(lists[pIdx].songs, sIdx))
  {
    if pIdx < 0 || pIdx >= |lists| then (false, lists)
    else if sIdx < 0 || sIdx >= |lists[pIdx].songs| then (false, lists)
    else
      var p := lists[pIdx];
      (true, lists[pIdx := p.(songs := RemoveAt(p.songs, sIdx))])
  }

  /** The song handed to add_song_to_playlist; title and id may be NULL. */
  datatype SongRef = SongRef(title: Option<string>, videoId: Option<string>, duration: int)

  /** What load_playlist_songs reads from a playlist file: its type and songs. */
  datatype StoredPlaylist = StoredPlaylist(isYoutube: bool, songs: seq<Song>)

  /** The lazy load of add_song_to_playlist: a playlist with no songs in memory
    * takes type and (at most MAX_PLAYLIST_ITEMS) songs from its file, when the
    * file can be read. */
  function EnsureLoaded(p: Playlist, stored: Option<StoredPlaylist>): (r: Playlist)
    ensures r.name == p.name && r.filename == p.filename
    ensures |p.songs| > 0 || stored.None? ==> r == p
    ensures |r.songs| <= MaxPlaylistItems || r == p
    ensures |p.songs| == 0 && stored.Some? ==>
              && r.songs == Truncate(stored.value.songs, MaxPlaylistItems)
              && r.isYoutube == stored.value.isYoutube
  {
    if |p.songs| == 0 && stored.Some? then
      var s := stored.value.songs;
      p.(songs := if |s| > MaxPlaylistItems then s[..MaxPlaylistItems] else s, isYoutube := stored.value.isYoutube)
    else p
  }

  predicate HasSongId(songs: seq<Song>, id: string) {
    exists i :: 0 <= i < |songs| && songs[i].videoId == id
  }

  /** add_song_to_playlist. The playlist is first loaded if needed; the song is
    * refused when the playlist is full or already has its id; otherwise it is
    * appended (title "Unknown" when missing, the watch URL of its id) and a
    * download of it into the playlist's directory is requested. */
  function AddSong(lists: seq<Playlist>, q: DownloadQueue.Queue, dirs: Dirs, root: string, pIdx: int,
                   song: Option<SongRef>, stored: Option<StoredPlaylist>): (r: (bool, seq<Playlist>, DownloadQueue.Queue))
    ensures |r.1| == |lists|
    ensures forall j :: 0 <= j < |lists| && j != pIdx ==> r.1[j] == lists[j]
    ensures !r.0 ==> r.2 == q
    ensures !(0 <= pIdx < |lists|) || song.None? || song.value.videoId.None? ==> !r.0 && r.1 == lists
    ensures 0 <= pIdx < |lists| && song.Some? && song.value.videoId.Some? ==>
              var p := EnsureLoaded(lists[pIdx], stored);
              var id := song.value.videoId.value;
              && (r.0 <==> |p.songs| < MaxPlaylistItems && !HasSongId(p.songs, id))
              && (!r.0 ==> r.1[pIdx] == p)
              && (r.0 ==> && r.1[pIdx] == p.(songs := p.songs + [Song(song.value.title.GetOr("Unknown"), id, PlayableUrl(id), song.value.duration)])
                          && r.2 == DownloadQueue.Enqueue(q, dirs, root, Some(id), song.value.title, Some(p.name)).1)
  {
    if pIdx < 0 || pIdx >= |lists| then (false, lists, q)
    else if song.None? || song.value.videoId.None? then (false, lists, q)
    else
      var p := EnsureLoaded(lists[pIdx], stored);
      var id := song.value.videoId.value;
      if |p.songs| >= MaxPlaylistItems || HasSongId(p.songs, id) then (false, lists[pIdx := p], q)
      else
        var s := Song(song.value.title.GetOr("Unknown"), id, PlayableUrl(id), song.value.duration);
        var q' := DownloadQueue.Enqueue(q, dirs, root, Some(id), song.value.title, Some(p.name)).1;
        (true, lists[pIdx := p.(songs := p.songs + [s])], q')
  }

  /** Adding a song to a playlist is also a download request: afterwards the
    * song is waiting in the queue, or already downloaded into the playlist's
    * directory, or the queue was full. */
  lemma AddedSongIsRequested(lists: seq<Playlist>, q: DownloadQueue.Queue, dirs: Dirs, root: string, pIdx: int,
                             song: SongRef, stored: Option<StoredPlaylist>)
    requires song.videoId.Some? && song.videoId.value != []
    requires AddSong(lists, q, dirs, root, pIdx, Some(song), stored).0
    ensures var r := AddSong(lists, q, dirs, root, pIdx, Some(song), stored);
            var id := song.videoId.value;
            || DownloadQueue.HasPendingId(r.2.tasks, id)
            || FileExistsForVideo(dirs, DownloadQueue.DestDir(root, lists[pIdx].name), id)
            || |q.tasks| >= DownloadQueue.MaxQueue
  {
    var r := AddSong(lists, q, dirs, root, pIdx, Some(song), stored);
    var id := song.videoId.value;
    var p := EnsureLoaded(lists[pIdx], stored);
    var e := DownloadQueue.Enqueue(q, dirs, root, Some(id), song.title, Some(p.name));
    if e.0 == DownloadQueue.Added {
      assert r.2.tasks[|q.tasks|].videoId == id && r.2.tasks[|q.tasks|].status == DownloadQueue.Pending;
    }
  }

  // ---------------------------------------------------------------------------
  // The library invariant
  // ---------------------------------------------------------------------------

  /** A playlist within its capacity whose songs have distinct ids. */
  ghost predicate GoodPlaylist(p: Playlist) {
    && |p.songs| <= MaxPlaylistItems
    && forall i, j :: 0 <= i < j < |p.songs| ==> p.songs[i].videoId != p.songs[j].videoId
  }

  /** The table within capacity, names non-empty and distinct ignoring case,
    * backing files distinct, every playlist good. */
  ghost predicate GoodLibrary(lists: seq<Playlist>) {
    && |lists| <= MaxPlaylists
    && (forall i :: 0 <= i < |lists| ==> lists[i].name != [] && GoodPlaylist(lists[i]))
    && (forall i, j :: 0 <= i < j < |lists| ==> !EqualIgnoringCase(lists[i].name, lists[j].name))
    && (forall i, j :: 0 <= i < j < |lists| ==> lists[i].filename != lists[j].filename)
  }

  /** Creating a playlist (with unique backing files) keeps the library good. */
  lemma CreateKeepsGood(lists: seq<Playlist>, name: Option<string>, isYoutube: bool)
    requires GoodLibrary(lists)
    ensures GoodLibrary(CreatePlaylist(lists, name, isYoutube).1)
  {
    var r := CreatePlaylist(lists, name, isYoutube);
    if r.0 >= 0 {
      var n := |lists|;
      forall i, j | 0 <= i < j < |r.1|
        ensures !EqualIgnoringCase(r.1[i].name, r.1[j].name)
        ensures r.1[i].filename != r.1[j].filename
      {
        if j == n {
          assert r.1[i] == lists[i];
          assert lists[i].filename in FilenamesInUse(lists);
        } else {
          assert r.1[i] == lists[i] && r.1[j] == lists[j];
        }
      }
      forall i | 0 <= i < |r.1| ensures r.1[i].name != [] && GoodPlaylist(r.1[i]) {
        if i < n { assert r.1[i] == lists[i]; }
      }
    }
  }

  /** Deleting a playlist leaves no gap and no duplicate: the library stays good. */
  lemma DeleteKeepsGood(lists: seq<Playlist>, dirs: Dirs, root: string, idx: int)
    requires GoodLibrary(lists)
    ensures GoodLibrary(DeletePlaylist(lists, dirs, root, idx).1)
  {
    var r := DeletePlaylist(lists, dirs, root, idx);
    if r.0 {
      forall i, j | 0 <= i < j < |r.1|
        ensures !EqualIgnoringCase(r.1[i].name, r.1[j].name)
        ensures r.1[i].filename != r.1[j].filename
      {
        var i' := if i < idx then i else i + 1;
        var j' := if j < idx then j else j + 1;
        assert r.1[i] == lists[i'] && r.1[j] == lists[j'];
      }
      forall i | 0 <= i < |r.1| ensures r.1[i].name != [] && GoodPlaylist(r.1[i]) {
        var i' := if i < idx then i else i + 1;
        assert r.1[i] == lists[i'];
      }
    }
  }

  /** A removal keeps a playlist good. */
  lemma RemoveAtKeepsGood(p: Playlist, sIdx: nat)
    requires GoodPlaylist(p) && sIdx < |p.songs|
    ensures GoodPlaylist(p.(songs := RemoveAt(p.songs, sIdx)))
  {
    var s := RemoveAt(p.songs, sIdx);
    forall i, j | 0 <= i < j < |s| ensures s[i].videoId != s[j].videoId {
      var i' := if i < sIdx then i else i + 1;
      var j' := if j < sIdx then j else j + 1;
      assert s[i] == p.songs[i'] && s[j] == p.songs[j'];
    }
  }

  lemma RemoveSongKeepsGood(lists: seq<Playlist>, pIdx: int, sIdx: int)
    requires GoodLibrary(lists)
    ensures GoodLibrary(RemoveSong(lists, pIdx, sIdx).1)
  {
    var r := RemoveSong(lists, pIdx, sIdx);
    if r.0 {
      RemoveAtKeepsGood(lists[pIdx], sIdx);
    }
  }

  /** Adding a song keeps the library good: the playlist stays within capacity
    * and never holds one id twice, given that what its file holds is good. The
    * file need not be: the YouTube import stores the fetched songs without a
    * duplicate check (shellbeats.c:3466-3469), so a saved playlist can hold one
    * id twice, and then this lemma says nothing. */
  lemma AddSongKeepsGood(lists: seq<Playlist>, q: DownloadQueue.Queue, dirs: Dirs, root: string, pIdx: int,
                         song: Option<SongRef>, stored: Option<StoredPlaylist>)
    requires GoodLibrary(lists)
    requires stored.Some? ==> GoodPlaylist(Playlist("", "", stored.value.songs, false))
    ensures GoodLibrary(AddSong(lists, q, dirs, root, pIdx, song, stored).1)
  {
    var r := AddSong(lists, q, dirs, root, pIdx, song, stored);
    if 0 <= pIdx < |lists| && song.Some? && song.value.videoId.Some? {
      var p := EnsureLoaded(lists[pIdx], stored);
      assert GoodPlaylist(p) by {
        if |lists[pIdx].songs| == 0 && stored.Some? {
          assert p.songs == stored.value.songs;
        }
      }
      var np := r.1[pIdx];
      assert GoodPlaylist(np) by {
        if r.0 {
          var id := song.value.videoId.value;
          forall i, j | 0 <= i < j < |np.songs| ensures np.songs[i].videoId != np.songs[j].videoId {
            if j == |p.songs| {
              assert np.songs[i] == p.songs[i];
            } else {
              assert np.songs[i] == p.songs[i] && np.songs[j] == p.songs[j];
            }
          }
        }
      }
      forall i, j | 0 <= i < j < |r.1|
        ensures !EqualIgnoringCase(r.1[i].name, r.1[j].name)
        ensures r.1[i].filename != r.1[j].filename
      {
        assert r.1[i].name == lists[i].name && r.1[i].filename == lists[i].filename;
        assert r.1[j].name == lists[j].name && r.1[j].filename == lists[j].filename;
      }
    }
  }
}
