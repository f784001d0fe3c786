/** File names derived by the core: the downloaded file of a song
  * (sanitize_title_for_filename), the probe for an existing download
  * (file_exists_for_video) and the backing file of a playlist (sanitize_filename). */
module Filenames {
  import opened Options
  import opened CStrings

  // ---------------------------------------------------------------------------
  // Downloaded-song file names: <stem>_[<id>].mp3
  // ---------------------------------------------------------------------------

  /** Characters that are dropped outright: `/ \ : * ? " < > |`. */
  predicate IsHostile(c: char) {
    c == '/' || c == '\\' || c == ':' || c == '*' || c == '?' || c == '"' || c == '<' || c == '>' || c == '|'
  }

  /** Characters that become a single `_` (blank, single quote, backquote). */
  predicate IsSeparator(c: char) {
    c == ' ' || c == '\'' || c == '`'
  }

  /** Characters copied as they are: ASCII letters and digits, `-`, `_`, `.`, and
    * every byte above 127 (so UTF-8 sequences survive). */
  predicate IsKept(c: char) {
    IsAlnum(c) || c == '-' || c == '_' || c == '.' || c as int > 127
  }

  /** Capacity of the working buffer (`char sanitized[256]`, one byte for NUL). */
  const StemBuffer := 255

  /** Longest stem placed in front of `_[<id>].mp3`. */
  const MaxStem := 180

  /** Stem used when nothing of the title survives. */
  const DefaultStem := "download"

  predicate AllKept(s: string) {
    forall i :: 0 <= i < |s| ==> IsKept(s[i])
  }

  predicate AllUnderscore(s: string) {
    forall i :: 0 <= i < |s| ==> s[i] == '_'
  }

  /** The copy loop of sanitize_title_for_filename, which appends to `acc` and stops
    * at the end of the title or when the buffer is full. */
  function Collect(title: string, acc: string): (r: string)
    requires |acc| <= StemBuffer && AllKept(acc)
    ensures |acc| <= |r| <= StemBuffer
    ensures r[..|acc|] == acc
    ensures AllKept(r)
    decreases |title|
  {
    if title == [] || |acc| >= StemBuffer then acc
    else
      var c := title[0];
      var next :=
        if IsHostile(c) then acc
        else if IsSeparator(c) then (if acc != [] && acc[|acc| - 1] != '_' then acc + ['_'] else acc)
        else if IsKept(c) then acc + [c]
        else acc;
      Collect(title[1..], next)
  }

  /** What the copy loop leaves of a title, before any trimming. */
  function Survivors(title: string): (r: string)
    ensures |r| <= StemBuffer && AllKept(r)
  {
    Collect(title, [])
  }

  /** The loop that drops trailing underscores. */
  function TrimUnderscores(s: string): (r: string)
    ensures |r| <= |s| && r == s[..|r|]
    ensures AllUnderscore(s[|r|..])
    ensures r == [] || r[|r| - 1] != '_'
  {
    if s != [] && s[|s| - 1] == '_' then TrimUnderscores(s[..|s| - 1]) else s
  }

  /** The stem as sanitize_title_for_filename computes it: trailing underscores are
    * removed, the default is applied, and only then is the stem cut to 180
    * characters, so the cut can leave an underscore at the end. */
  function TitleStemAsWritten(title: string): (r: string)
    ensures 1 <= |r| <= MaxStem
    ensures AllKept(r)
  {
    var t := TrimUnderscores(Survivors(title));
    var d := if t == [] then DefaultStem else t;
    Truncate(d, MaxStem)
  }

  /** Copying a run of plainly kept characters appends them to the buffer. */
  lemma {:induction false} CollectKeptRun(x: string, rest: string, acc: string)
    requires |acc| + |x| <= StemBuffer && AllKept(acc)
    requires forall i :: 0 <= i < |x| ==> IsAlnum(x[i])
    ensures Collect(x + rest, acc) == Collect(rest, acc + x)
  {
    if x != [] {
      assert (x + rest)[0] == x[0];
      assert (x + rest)[1..] == x[1..] + rest;
      assert acc + [x[0]] + x[1..] == acc + x;
      CollectKeptRun(x[1..], rest, acc + [x[0]]);
    } else {
      assert x + rest == rest;
      assert acc + x == acc;
    }
  }

  /** What survives of an alphanumeric run followed by a blank and `b`. */
  lemma SurvivorsOfRunThenBlank(x: string)
    requires 1 <= |x| < StemBuffer - 1
    requires forall i :: 0 <= i < |x| ==> IsAlnum(x[i])
    ensures Survivors(x + " b") == x + "_b"
  {
    assert Survivors(x + " b") == Collect(" b", x) by {
      CollectKeptRun(x, " b", []);
      assert [] + x == x;
    }
    assert x[|x| - 1] != '_' by {
      assert IsAlnum(x[|x| - 1]);
    }
    CollectBlankThenB(x);
  }

  /** A blank after a character other than `_` becomes one `_`; a letter is kept. */
  lemma CollectBlankThenB(acc: string)
    requires 1 <= |acc| < StemBuffer - 1 && AllKept(acc) && acc[|acc| - 1] != '_'
    ensures Collect(" b", acc) == acc + "_b"
  {
    KeptAppend(acc, '_');
    CollectBlankStep(acc);
    CollectLetterStep(acc + "_");
    assert acc + "_" + "b" == acc + "_b";
  }

  /** Appending a kept character keeps every character kept. */
  lemma KeptAppend(acc: string, c: char)
    requires AllKept(acc) && IsKept(c)
    ensures AllKept(acc + [c])
  {
    forall i | 0 <= i < |acc| + 1 ensures IsKept((acc + [c])[i]) {
      if i < |acc| {
        assert (acc + [c])[i] == acc[i];
      }
    }
  }

  /** A blank after a character other than `_` appends one `_`. */
  lemma CollectBlankStep(acc: string)
    requires 1 <= |acc| < StemBuffer && AllKept(acc) && acc[|acc| - 1] != '_'
    requires AllKept(acc + "_")
    ensures Collect(" b", acc) == Collect("b", acc + "_")
  {
    assert " b"[1..] == "b";
  }

  /** A final letter is appended when there is room. */
  lemma CollectLetterStep(acc: string)
    requires |acc| < StemBuffer && AllKept(acc)
    ensures Collect("b", acc) == acc + "b"
  {
    KeptAppend(acc, 'b');
    assert Collect([], acc + "b") == acc + "b";
    CollectKeptRun("b", [], acc);
    assert "b" + [] == "b";
  }

  /** A 179-character alphanumeric title followed by " b" collects to 181
    * characters whose 180th is the underscore of the blank; the stem as written
    * therefore ends in `_`. */
  lemma StemAsWrittenCanEndInUnderscore(x: string)
    requires |x| == MaxStem - 1
    requires forall i :: 0 <= i < |x| ==> IsAlnum(x[i])
    ensures var r := TitleStemAsWritten(x + " b"); r[|r| - 1] == '_'
  {
    var s := x + "_b";
    SurvivorsOfRunThenBlank(x);
    assert TrimUnderscores(s) == s by {
      assert s[|s| - 1] == 'b';
    }
    var r := TitleStemAsWritten(x + " b");
    assert r == Truncate(s, MaxStem);
    assert r[MaxStem - 1] == s[MaxStem - 1] == '_';
  }

  /** The first 180 surviving characters: the part a stem may come from. */
  function StemSource(title: string): (r: string)
    ensures |r| <= MaxStem && AllKept(r)
  {
    Truncate(Survivors(title), MaxStem)
  }

  /** The stem with the evident intent of sanitize_title_for_filename: cut to 180
    * characters first, then drop trailing underscores, then fall back to
    * "download". It is never empty, has only kept characters, never ends in `_`,
    * and is the longest prefix of the first 180 surviving characters that does
    * not end in `_` (or "download" when that prefix would be empty). */
  function TitleStem(title: string): (r: string)
    ensures 1 <= |r| <= MaxStem
    ensures AllKept(r) && forall i :: 0 <= i < |r| ==> !IsHostile(r[i])
    ensures r[|r| - 1] != '_'
    ensures AllUnderscore(StemSource(title)) ==> r == DefaultStem
    ensures !AllUnderscore(StemSource(title)) ==>
              |r| <= |StemSource(title)| && r == StemSource(title)[..|r|]
              && AllUnderscore(StemSource(title)[|r|..])
  {
    var h := StemSource(title);
    var t := TrimUnderscores(h);
    TrimmedStemFacts(h);
    if t == [] then
      DefaultStemFacts();
      DefaultStem
    else
      t
  }

  /** What trimming the underscores leaves of kept characters is kept and free
    * of hostile characters, and empty exactly when all were underscores. */
  lemma TrimmedStemFacts(h: string)
    requires AllKept(h)
    ensures var t := TrimUnderscores(h);
            && AllKept(t) && (forall i :: 0 <= i < |t| ==> !IsHostile(t[i]))
            && (t == [] <==> AllUnderscore(h))
  {
    var t := TrimUnderscores(h);
    forall i | 0 <= i < |t| ensures IsKept(t[i]) && !IsHostile(t[i]) {
      assert t[i] == h[i];
    }
    if t == [] {
      assert h[0..] == h;
    } else {
      assert h[|t| - 1] == t[|t| - 1];
    }
  }

  /** "download" is kept, free of hostile characters, and does not end in `_`. */
  lemma DefaultStemFacts()
    ensures AllKept(DefaultStem) && (forall i :: 0 <= i < |DefaultStem| ==> !IsHostile(DefaultStem[i]))
    ensures DefaultStem[|DefaultStem| - 1] != '_'
  {
    forall i | 0 <= i < |DefaultStem| ensures IsKept(DefaultStem[i]) && !IsHostile(DefaultStem[i]) {
      assert IsLower(DefaultStem[i]);
    }
  }

  /** Dropping trailing underscores yields the one prefix that is followed only
    * by underscores and does not itself end in `_`. */
  lemma {:induction false} TrimUnderscoresIsThePrefix(s: string, p: string)
    requires |p| <= |s| && s[..|p|] == p && AllUnderscore(s[|p|..])
    requires p == [] || p[|p| - 1] != '_'
    ensures TrimUnderscores(s) == p
    decreases |s|
  {
    if |s| == |p| {
      assert s == p;
    } else {
      var s' := s[..|s| - 1];
      assert s[|s| - 1] == s[|p|..][|s| - 1 - |p|];
      assert s'[..|p|] == p;
      assert AllUnderscore(s'[|p|..]) by {
        forall i | 0 <= i < |s'[|p|..]| ensures s'[|p|..][i] == '_' {
          assert s'[|p|..][i] == s[|p|..][i];
        }
      }
      TrimUnderscoresIsThePrefix(s', p);
    }
  }

  /** The corrected stem and the stem as written differ only where the cut at
    * 180 characters leaves an underscore at the end: whenever the stem as
    * written does not end in `_`, the two are the same. */
  lemma StemsAgreeUnlessCutAtUnderscore(title: string)
    requires var a := TitleStemAsWritten(title); a[|a| - 1] != '_'
    ensures TitleStem(title) == TitleStemAsWritten(title)
  {
    var s := Survivors(title);
    var t := TrimUnderscores(s);
    var h := StemSource(title);
    assert h == Truncate(s, MaxStem);
    if t == [] {
      assert AllUnderscore(h) by {
        forall i | 0 <= i < |h| ensures h[i] == '_' {
          assert h[i] == s[i] == s[0..][i];
        }
      }
      assert TitleStemAsWritten(title) == DefaultStem by {
        assert Truncate(DefaultStem, MaxStem) == DefaultStem[..|DefaultStem|];
      }
    } else if |t| <= MaxStem {
      assert TitleStemAsWritten(title) == t;
      assert h[..|t|] == t;
      assert AllUnderscore(h[|t|..]) by {
        forall i | 0 <= i < |h[|t|..]| ensures h[|t|..][i] == '_' {
          assert h[|t|..][i] == s[|t|..][i];
        }
      }
      TrimUnderscoresIsThePrefix(h, t);
      assert !AllUnderscore(h) by {
        assert h[|t| - 1] == t[|t| - 1];
      }
    } else {
      assert TitleStemAsWritten(title) == t[..MaxStem];
      assert h == t[..MaxStem];
      assert h[..|h|] == h && h[|h|..] == [];
      TrimUnderscoresIsThePrefix(h, h);
      assert !AllUnderscore(h) by {
        assert h[|h| - 1] != '_';
      }
    }
  }

  /** A title of at most 180 letters and digits is its own stem. */
  lemma CleanTitleIsItsOwnStem(title: string)
    requires 1 <= |title| <= MaxStem
    requires forall i :: 0 <= i < |title| ==> IsAlnum(title[i])
    ensures TitleStem(title) == title
  {
    CollectKeptRun(title, [], []);
    assert title + [] == title;
    assert [] + title == title;
    assert Survivors(title) == title;
    assert StemSource(title) == title;
    assert !AllUnderscore(title) by {
      assert title[0] != '_';
    }
  }

  /** The marker that tags a downloaded file with its id. */
  function Marker(id: string): string {
    "[" + id + "].mp3"
  }

  /** sanitize_title_for_filename: `<stem>_[<id>].mp3`, or the empty name when the
    * title pointer is NULL. */
  function SanitizeTitle(title: Option<string>, id: string): (r: string)
    ensures title.None? ==> r == []
    ensures title.Some? ==>
              var m := Marker(id);
              |r| > |m| && OccursAt(r, m, |r| - |m|) && r[|r| - |m| - 1] == '_'
              && r[..|r| - |m| - 1] == TitleStem(title.value)
  {
    match title
    case None => []
    case Some(t) =>
      var stem := TitleStem(t);
      var r := stem + "_" + Marker(id);
      assert r[|r| - |Marker(id)|..] == Marker(id);
      assert r[..|stem|] == stem;
      r
  }

  // ---------------------------------------------------------------------------
  // Probing a directory for an existing download
  // ---------------------------------------------------------------------------

  /** The directories of the download tree, each with the names of its entries. */
  type Dirs = map<string, set<string>>

  /** file_exists_for_video: the directory can be opened and one of its entries
    * contains `[<id>].mp3`. */
  predicate FileExistsForVideo(dirs: Dirs, dir: string, id: string) {
    dir in dirs && exists name :: name in dirs[dir] && Contains(name, Marker(id))
  }

  /** The probe recognises every file named by SanitizeTitle for the same id, so a
    * song downloaded once is never queued again for the same directory. */
  lemma ProbeFindsDownloadedFile(dirs: Dirs, dir: string, title: string, id: string)
    requires dir in dirs && SanitizeTitle(Some(title), id) in dirs[dir]
    ensures FileExistsForVideo(dirs, dir, id)
  {
    var name := SanitizeTitle(Some(title), id);
    assert OccursAt(name, Marker(id), |name| - |Marker(id)|);
    ContainsIff(name, Marker(id));
  }

  // ---------------------------------------------------------------------------
  // Playlist backing files: sanitize_filename
  // ---------------------------------------------------------------------------

  /** Characters allowed in a playlist slug. */
  predicate IsSlugChar(c: char) {
    IsLower(c) || IsDigit(c) || c == '-' || c == '_'
  }

  /** What one character of a playlist name contributes to the slug. */
  function SlugPiece(c: char): (r: string)
    ensures |r| <= 1
    ensures forall i :: 0 <= i < |r| ==> IsSlugChar(r[i])
  {
    if IsAlnum(c) || c == '-' || c == '_' then [ToLower(c)]
    else if c == ' ' then ['_']
    else []
  }

  /** The slug of a playlist name: letters lower-cased, digits, `-` and `_` kept,
    * blanks turned into `_`, everything else dropped. */
  function SlugStem(name: string): (r: string)
    ensures |r| <= |name|
    ensures forall i :: 0 <= i < |r| ==> IsSlugChar(r[i])
  {
    if name == [] then [] else SlugPiece(name[0]) + SlugStem(name[1..])
  }

  /** sanitize_filename: the slug followed by `.json`. */
  function Slug(name: string): (r: string)
    ensures |r| == |SlugStem(name)| + 5 && r[|r| - 5..] == ".json"
    ensures forall i :: 0 <= i < |r| - 5 ==> IsSlugChar(r[i])
  {
    SlugStem(name) + ".json"
  }

  lemma {:induction false} SlugStemConcat(a: string, b: string)
    ensures SlugStem(a + b) == SlugStem(a) + SlugStem(b)
  {
    if a == [] {
      assert a + b == b;
    } else {
      assert (a + b)[0] == a[0];
      assert (a + b)[1..] == a[1..] + b;
      SlugStemConcat(a[1..], b);
    }
  }

  lemma {:induction false} SlugStemOfLower(name: string)
    ensures SlugStem(LowerString(name)) == SlugStem(name)
  {
    if name != [] {
      assert LowerString(name)[1..] == LowerString(name[1..]);
      SlugStemOfLower(name[1..]);
    }
  }

  /** Names that differ only in letter case share a slug. */
  lemma SlugIgnoresCase(a: string, b: string)
    requires EqualIgnoringCase(a, b)
    ensures Slug(a) == Slug(b)
  {
    SlugStemOfLower(a);
    SlugStemOfLower(b);
  }

  /** A slug is its own slug. */
  lemma {:induction false} SlugStemIdempotent(name: string)
    ensures SlugStem(SlugStem(name)) == SlugStem(name)
  {
    if name != [] {
      var p := SlugPiece(name[0]);
      SlugStemConcat(p, SlugStem(name[1..]));
      SlugStemIdempotent(name[1..]);
      if p != [] {
        assert p[1..] == [];
        assert SlugStem(p) == SlugPiece(p[0]) + SlugStem([]);
      }
    }
  }
}
