/** Importing a YouTube playlist: fetch_youtube_playlist reads the lines the
  * external tool prints ("<title>|||<id>|||<duration>" per video) and turns
  * them into songs; validate_youtube_playlist_url screens pasted URLs. The
  * tool's runs are parameters: `None` when it could not be started, else the
  * lines it printed. */
module YoutubePlaylist {
  import opened Options
  import opened CStrings
  import opened Songs

  /** The field separator of the tool's output lines. */
  const Separator := "|||"

  /** The title kept when the tool prints none. */
  const DefaultPlaylistTitle := "YouTube Playlist"

  predicate IsLineEnd(c: char) {
    c == '\n' || c == '\r'
  }

  /** A line with every trailing '\n' and '\r' removed. */
  function StripLineEnd(line: string): (r: string)
    ensures |r| <= |line| && r == line[..|r|]
    ensures r == [] || !IsLineEnd(r[|r| - 1])
    ensures forall i :: |r| <= i < |line| ==> IsLineEnd(line[i])
  {
    if line != [] && IsLineEnd(line[|line| - 1]) then StripLineEnd(line[..|line| - 1]) else line
  }

  /** strncmp(line, "ERROR", 5) == 0: the tool reports a failure. */
  predicate IsErrorLine(line: string) {
    |line| >= 5 && line[..5] == "ERROR"
  }

  /** The three fields of a line: the text before the first "|||", the text
    * between it and the next "|||", and the rest. */
  function SplitFields(line: string): (r: Option<(string, string, string)>)
    ensures r.None? <==> !Contains(line, Separator)
                         || !Contains(line[Find(line, Separator).value + 3..], Separator)
    ensures r.Some? ==> line == r.value.0 + Separator + r.value.1 + Separator + r.value.2
    ensures r.Some? ==> Find(line, Separator) == Some(|r.value.0|)
    ensures r.Some? ==> Find(r.value.1 + Separator + r.value.2, Separator) == Some(|r.value.1|)
  {
    match Find(line, Separator)
    case None => None
    case Some(k1) =>
      var rest := line[k1 + 3..];
      match Find(rest, Separator)
      case None => None
      case Some(k2) =>
        var title, id, tail := line[..k1], rest[..k2], rest[k2 + 3..];
        assert id + Separator + tail == rest && |title| == k1 && |id| == k2 by {
          JoinAtOccurrence(rest, k2);
        }
        assert line == title + Separator + id + Separator + tail by {
          JoinAtOccurrence(line, k1);
          JoinRegroup(title, id, tail);
        }
        Some((title, id, tail))
  }

  /** Text is its part before an occurrence of the separator, the separator,
    * and its part after. */
  lemma JoinAtOccurrence(s: string, k: nat)
    requires OccursAt(s, Separator, k)
    ensures s == s[..k] + Separator + s[k + 3..]
  {
    assert s[k..k + 3] == Separator;
    assert s == s[..k] + s[k..k + 3] + s[k + 3..];
  }

  /** One output line as the loop body reads it: ignored when empty, an error
    * report, short of two separators or without a video id; otherwise a song
    * with the line's title and id, the watch URL of the id (as much as fits the
    * buffer) and the duration read by atoi. */
  function ParseLine(raw: string): (r: Option<Song>)
    ensures var line := StripLineEnd(raw);
            r.Some? <==> && !IsErrorLine(line)
                         && SplitFields(line).Some?
                         && SplitFields(line).value.1 != []
    ensures r.Some? ==>
              var f := SplitFields(StripLineEnd(raw)).value;
              && r.value.title == f.0 && r.value.videoId == f.1
              && r.value.url == PlayableUrl(f.1)
              && r.value.duration == Atoi(f.2)
  {
    var line := StripLineEnd(raw);
    if line == [] || IsErrorLine(line) then None
    else match SplitFields(line)
      case None => None
      case Some(f) =>
        if f.1 == [] then None
        else Some(Song(f.0, f.1, PlayableUrl(f.1), Atoi(f.2)))
  }

  predicate NoBar(s: string) {
    forall i :: 0 <= i < |s| ==> s[i] != '|'
  }

  lemma NoSeparatorIn(s: string, tail: string)
    requires NoBar(s)
    ensures forall k :: 0 <= k < |s| ==> !OccursAt(s + tail, Separator, k)
  {
    forall k | 0 <= k < |s| ensures !OccursAt(s + tail, Separator, k) {
      assert (s + tail)[k] == s[k];
    }
  }

  /** The first separator after a bar-free piece is the one that follows it. */
  lemma FindAfterBarFree(s: string, tail: string)
    requires NoBar(s)
    ensures Find(s + Separator + tail, Separator) == Some(|s|)
    ensures (s + Separator + tail)[..|s|] == s
    ensures (s + Separator + tail)[|s| + 3..] == tail
  {
    var line := s + Separator + tail;
    assert line == s + (Separator + tail);
    NoSeparatorIn(s, Separator + tail);
    assert OccursAt(line, Separator, |s|);
  }

  /** Splitting undoes joining, when title and id hold no '|'. */
  lemma SplitFieldsOfJoin(title: string, id: string, rest: string)
    requires NoBar(title) && NoBar(id)
    ensures SplitFields(title + Separator + id + Separator + rest) == Some((title, id, rest))
  {
    var tail := id + Separator + rest;
    JoinRegroup(title, id, rest);
    var line := title + Separator + tail;
    FindAfterBarFree(title, tail);
    FindAfterBarFree(id, rest);
    SplitFieldsFound(line, |title|, |id|);
  }

  lemma JoinRegroup(a: string, b: string, c: string)
    ensures a + Separator + b + Separator + c == a + Separator + (b + Separator + c)
  {
  }

  /** Where the two separators are found, the split is the three pieces around them. */
  lemma SplitFieldsFound(line: string, k1: nat, k2: nat)
    requires Find(line, Separator) == Some(k1) && k1 + 3 <= |line|
    requires Find(line[k1 + 3..], Separator) == Some(k2) && k2 + 3 <= |line[k1 + 3..]|
    ensures SplitFields(line) == Some((line[..k1], line[k1 + 3..][..k2], line[k1 + 3..][k2 + 3..]))
  {
  }

  /** A line printed for a video whose title and id hold no '|', whose title
    * does not start with "ERROR" and whose duration is a number reads back
    * as exactly that song, whatever line ending follows. */
  lemma ParseLineOfPrintedSong(title: string, id: string, duration: nat, ending: string)
    requires NoBar(title) && NoBar(id) && id != []
    requires !IsErrorLine(title)
    requires forall i :: 0 <= i < |ending| ==> IsLineEnd(ending[i])
    ensures ParseLine(title + Separator + id + Separator + NatToString(duration) + ending)
            == Some(Song(title, id, PlayableUrl(id), duration))
  {
    var d := NatToString(duration);
    var line := title + Separator + id + Separator + d;
    StripPrintedLine(line, ending);
    assert !IsErrorLine(line) by {
      if |title| < 5 {
        assert line[|title|] == '|';
      } else {
        assert line[..5] == title[..5];
      }
    }
    SplitFieldsOfJoin(title, id, d);
    AtoiOfNatToString(duration);
  }

  /** The line-end stripping removes exactly the appended ending. */
  lemma {:induction false} StripPrintedLine(line: string, ending: string)
    requires line != [] && !IsLineEnd(line[|line| - 1])
    requires forall i :: 0 <= i < |ending| ==> IsLineEnd(ending[i])
    ensures StripLineEnd(line + ending) == line
    decreases |ending|
  {
    if ending == [] {
      assert line + ending == line;
    } else {
      var shorter := ending[..|ending| - 1];
      assert (line + ending)[..|line + ending| - 1] == line + shorter;
      StripPrintedLine(line, shorter);
    }
  }

  /** Every song the tool's lines describe, in order (the reference for the
    * read loop, which stops early once the caller's array is full). */
  function Accepted(lines: seq<string>): (r: seq<Song>)
    ensures |r| <= |lines|
  {
    if lines == [] then [] else Accepted(lines[..|lines| - 1]) + Described(lines[|lines| - 1])
  }

  /** The song one line describes, if any. */
  function Described(line: string): seq<Song> {
    match ParseLine(line)
    case None => []
    case Some(s) => [s]
  }

  /** Songs described by a prefix of the lines come first among all of them. */
  lemma {:induction false} AcceptedPrefix(lines: seq<string>, i: nat)
    requires i <= |lines|
    ensures |Accepted(lines[..i])| <= |Accepted(lines)|
    ensures Accepted(lines[..i]) == Accepted(lines)[..|Accepted(lines[..i])|]
    decreases |lines| - i
  {
    if i < |lines| {
      var init := lines[..|lines| - 1];
      assert init[..i] == lines[..i];
      AcceptedPrefix(init, i);
      assert Accepted(lines) == Accepted(init) + Described(lines[|lines| - 1]);
      TakeOfAppend(Accepted(init), Described(lines[|lines| - 1]), |Accepted(lines[..i])|);
    } else {
      assert lines[..i] == lines;
    }
  }

  /** One more line adds the song it describes, if any. */
  lemma AcceptedExtend(lines: seq<string>, i: nat)
    requires i < |lines|
    ensures Accepted(lines[..i + 1]) == Accepted(lines[..i]) + Described(lines[i])
  {
    assert lines[..i + 1][..i] == lines[..i];
  }

  /** Taking no more than `a` holds from `a + b` takes from `a`. */
  lemma TakeOfAppend<T>(a: seq<T>, b: seq<T>, k: nat)
    requires k <= |a|
    ensures (a + b)[..k] == a[..k]
  {
  }

  /** The read loop: lines are consumed while fewer than `maxSongs` songs are
    * kept; the result is the first `maxSongs` of the described songs. */
  method ReadSongs(lines: seq<string>, maxSongs: nat) returns (songs: seq<Song>)
    ensures |songs| <= maxSongs
    ensures songs == Truncate(Accepted(lines), maxSongs)
  {
    songs := [];
    var i := 0;
    while |songs| < maxSongs && i < |lines|
      invariant 0 <= i <= |lines|
      invariant songs == Accepted(lines[..i])
      invariant |songs| <= maxSongs
    {
      AcceptedExtend(lines, i);
      var s := ParseLine(lines[i]);
      if s.Some? {
        songs := songs + [s.value];
      }
      i := i + 1;
    }
    AcceptedPrefix(lines, i);
    if i == |lines| {
      assert lines[..i] == lines;
    }
  }

  /** The playlist title: the first line the tool prints, without its line
    * end and cut to the caller's buffer, or the default when there is none. */
  function PlaylistTitle(lines: seq<string>, titleSize: nat): (r: string)
    requires titleSize > 0
    ensures r == DefaultPlaylistTitle
            || (&& lines != [] && |r| <= titleSize - 1 && |r| <= |StripLineEnd(lines[0])|
                && r == StripLineEnd(lines[0])[..|r|]
                && (|r| == |StripLineEnd(lines[0])| || |r| == titleSize - 1))
    ensures lines != [] && 0 < |StripLineEnd(lines[0])| < titleSize ==> r == StripLineEnd(lines[0])
    ensures lines == [] || StripLineEnd(lines[0]) == [] ==> r == DefaultPlaylistTitle
  {
    if lines == [] then DefaultPlaylistTitle
    else
      var t := StripLineEnd(lines[0]);
      if t == [] then DefaultPlaylistTitle else Truncate(t, titleSize - 1)
  }

  /** fetch_youtube_playlist. -1 when an argument is missing or unusable or a
    * run of the tool cannot be started; otherwise the number of songs read,
    * never more than `maxSongs`, with the playlist title. */
  method FetchPlaylist(url: Option<string>, hasSongArray: bool, maxSongs: int, hasTitleBuffer: bool, titleSize: nat,
                       titleRun: Option<seq<string>>, songsRun: Option<seq<string>>)
    returns (code: int, title: string, songs: seq<Song>)
    ensures code == -1 <==> || url.None? || !hasSongArray || maxSongs <= 0 || !hasTitleBuffer || titleSize == 0
                            || titleRun.None? || songsRun.None?
    ensures code == -1 ==> songs == []
    ensures code != -1 ==> && code == |songs| <= maxSongs
                           && songs == Truncate(Accepted(songsRun.value), maxSongs)
                           && title == PlaylistTitle(titleRun.value, titleSize)
  {
    title, songs := [], [];
    if url.None? || !hasSongArray || maxSongs <= 0 || !hasTitleBuffer || titleSize == 0 {
      return -1, title, songs;
    }
    if titleRun.None? {
      return -1, title, songs;
    }
    title := PlaylistTitle(titleRun.value, titleSize);
    if songsRun.None? {
      return -1, title, songs;
    }
    songs := ReadSongs(songsRun.value, maxSongs);
    code := |songs|;
  }

  const LongPlaylistMarker := "youtube.com/playlist?list="
  const ShortPlaylistMarker := "youtu.be/playlist?list="

  /** validate_youtube_playlist_url: the URL holds one of the two playlist
    * markers somewhere. */
  function ValidatePlaylistUrl(url: Option<string>): (r: bool)
    ensures r <==> url.Some? && ((exists k :: OccursAt(url.value, LongPlaylistMarker, k))
                                 || (exists k :: OccursAt(url.value, ShortPlaylistMarker, k)))
  {
    if url.None? then false
    else
      ContainsIff(url.value, LongPlaylistMarker);
      ContainsIff(url.value, ShortPlaylistMarker);
      Contains(url.value, LongPlaylistMarker) || Contains(url.value, ShortPlaylistMarker)
  }

  /** Playlist links pasted with any scheme, host prefix or extra parameters pass. */
  lemma PlaylistLinksAreValid(before: string, list: string)
    ensures ValidatePlaylistUrl(Some(before + LongPlaylistMarker + list))
    ensures ValidatePlaylistUrl(Some(before + ShortPlaylistMarker + list))
  {
    ContainsInfix(before, LongPlaylistMarker, list);
    ContainsInfix(before, ShortPlaylistMarker, list);
  }
}
