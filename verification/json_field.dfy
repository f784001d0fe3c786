/** The minimal JSON string codec of the persisted documents: json_escape_string
  * on the writing side and json_get_string on the reading side. */
module JsonField {
  import opened Options
  import opened CStrings

  /** True for the five characters the writer escapes. */
  predicate NeedsEscape(c: char) {
    c == '"' || c == '\\' || c == '\n' || c == '\r' || c == '\t'
  }

  /** The escape sequence written for one character. */
  function EscapeChar(c: char): (r: string)
    ensures NeedsEscape(c) ==> |r| == 2 && r[0] == '\\'
    ensures !NeedsEscape(c) ==> r == [c]
  {
    if c == '"' || c == '\\' then ['\\', c]
    else if c == '\n' then ['\\', 'n']
    else if c == '\r' then ['\\', 'r']
    else if c == '\t' then ['\\', 't']
    else [c]
  }

  /** json_escape_string: `"` and `\` get a backslash, newline, CR and tab become
    * `\n`, `\r`, `\t`; every other character is copied verbatim. */
  function Escape(s: string): (r: string)
    ensures |s| <= |r| <= 2 * |s|
    ensures forall i :: 0 <= i < |r| && r[i] == '"' ==> i > 0 && r[i - 1] == '\\'
  {
    if s == [] then [] else EscapeChar(s[0]) + Escape(s[1..])
  }

  lemma {:induction false} EscapeConcat(a: string, b: string)
    ensures Escape(a + b) == Escape(a) + Escape(b)
  {
    if a != [] {
      assert (a + b)[1..] == a[1..] + b;
      EscapeConcat(a[1..], b);
    } else {
      assert a + b == b;
    }
  }

  /** Text made only of characters that need no escaping is written unchanged. */
  lemma {:induction false} EscapePlainText(s: string)
    requires forall i :: 0 <= i < |s| ==> !NeedsEscape(s[i])
    ensures Escape(s) == s
  {
    if s != [] {
      EscapePlainText(s[1..]);
    }
  }

  /** The loop of json_escape_string, including its output-buffer guard
    * (`j < alloc - 2` with `alloc = 2 * len + 1`): the guard never stops the
    * copy early, so the buffer always receives the whole escaped string. */
  method EscapeIntoBuffer(s: string) returns (out: string)
    ensures out == Escape(s)
  {
    var len := |s|;
    var alloc := 2 * len + 1;
    out := [];
    var i := 0;
    while i < len && |out| + 2 < alloc
      invariant 0 <= i <= len
      invariant out == Escape(s[..i])
      invariant |out| <= 2 * i
    {
      var c := s[i];
      ghost var before := out;
      if c == '"' || c == '\\' {
        out := out + ['\\', c];
      } else if c == '\n' {
        out := out + ['\\', 'n'];
      } else if c == '\r' {
        out := out + ['\\', 'r'];
      } else if c == '\t' {
        out := out + ['\\', 't'];
      } else {
        out := out + [c];
      }
      assert out == before + EscapeChar(c);
      EscapeExtend(s, i);
      i := i + 1;
    }
    assert s[..i] == s;
  }

  /** Escaping one more character of `s` appends that character's escape. */
  lemma EscapeExtend(s: string, i: nat)
    requires i < |s|
    ensures Escape(s[..i + 1]) == Escape(s[..i]) + EscapeChar(s[i])
  {
    assert s[..i + 1] == s[..i] + [s[i]];
    EscapeConcat(s[..i], [s[i]]);
    assert Escape([s[i]]) == EscapeChar(s[i]) + Escape([]);
  }

  /** The character an escape sequence `\x` stands for when read back. */
  function UnescapeChar(c: char): char {
    if c == 'n' then '\n' else if c == 'r' then '\r' else if c == 't' then '\t' else c
  }

  /** The unescaping loop of json_get_string: a backslash that is not the last
    * character is dropped and the next character translated. */
  function Unescape(raw: string): (r: string)
    ensures |r| <= |raw|
  {
    if raw == [] then []
    else if raw[0] == '\\' && |raw| > 1 then [UnescapeChar(raw[1])] + Unescape(raw[2..])
    else [raw[0]] + Unescape(raw[1..])
  }

  /** How many characters of `t` form the raw value before its closing quote:
    * the scan stops at an unescaped `"` or at the end of the text. */
  function RawLength(t: string): (n: nat)
    ensures n <= |t|
    ensures n < |t| ==> t[n] == '"'
  {
    if t == [] || t[0] == '"' then 0
    else if t[0] == '\\' && |t| > 1 then 2 + RawLength(t[2..])
    else 1 + RawLength(t[1..])
  }

  /** The position after the blanks, colons and tabs that may follow a key. */
  function SkipKeySeparators(t: string, p: nat): (q: nat)
    requires p <= |t|
    ensures p <= q <= |t|
    ensures q < |t| ==> t[q] != ' ' && t[q] != ':' && t[q] != '\t'
    decreases |t| - p
  {
    if p < |t| && (t[p] == ' ' || t[p] == ':' || t[p] == '\t') then SkipKeySeparators(t, p + 1) else p
  }

  /** The quoted key as searched for in the text. */
  function KeyPattern(key: string): string {
    "\"" + key + "\""
  }

  /** json_get_string: finds the first `"key"`, skips separators, and returns the
    * unescaped string value that follows; NULL when the key is missing or is not
    * followed by a string. */
  function GetString(json: string, key: string): (r: Option<string>)
    ensures !Contains(json, KeyPattern(key)) ==> r.None?
  {
    var pattern := KeyPattern(key);
    match Find(json, pattern)
    case None => None
    case Some(k) =>
      var p := SkipKeySeparators(json, k + |pattern|);
      if p == |json| || json[p] != '"' then None
      else
        var body := json[p + 1..];
        Some(Unescape(body[..RawLength(body)]))
  }

  /** The reader's scan stops exactly at the quote that closes an escaped value. */
  lemma {:induction false} RawLengthOfEscaped(s: string, rest: string)
    ensures RawLength(Escape(s) + "\"" + rest) == |Escape(s)|
  {
    if s == [] {
      assert Escape(s) + "\"" + rest == "\"" + rest;
    } else {
      var t := Escape(s) + "\"" + rest;
      var e := EscapeChar(s[0]);
      assert Escape(s) == e + Escape(s[1..]);
      assert t == e + (Escape(s[1..]) + "\"" + rest);
      RawLengthOfEscaped(s[1..], rest);
      if NeedsEscape(s[0]) {
        assert t[2..] == Escape(s[1..]) + "\"" + rest;
      } else {
        assert t[1..] == Escape(s[1..]) + "\"" + rest;
      }
    }
  }

  /** Unescaping undoes escaping. */
  lemma {:induction false} UnescapeEscape(s: string)
    ensures Unescape(Escape(s)) == s
  {
    if s != [] {
      var e := EscapeChar(s[0]);
      var t := Escape(s);
      assert t == e + Escape(s[1..]);
      UnescapeEscape(s[1..]);
      if NeedsEscape(s[0]) {
        assert t[2..] == Escape(s[1..]);
      } else {
        assert t[1..] == Escape(s[1..]);
      }
    }
  }

  /** Writing `"key": "<escaped s>"` and reading the key back yields `s`,
    * whatever text follows the closing quote. */
  lemma GetStringRoundTrip(key: string, s: string, rest: string)
    ensures GetString("\"" + key + "\": \"" + Escape(s) + "\"" + rest, key) == Some(s)
  {
    var json := "\"" + key + "\": \"" + Escape(s) + "\"" + rest;
    var n := |KeyPattern(key)|;
    FieldRegroup(key, Escape(s), rest);
    WrittenFieldLayout(key, Escape(s) + "\"" + rest);
    var body := json[n + 3..];
    assert body[..RawLength(body)] == Escape(s) by {
      RawLengthOfEscaped(s, rest);
    }
    UnescapeEscape(s);
  }

  lemma FieldRegroup(key: string, v: string, rest: string)
    ensures "\"" + key + "\": \"" + v + "\"" + rest == "\"" + key + "\": \"" + (v + "\"" + rest)
  {
  }

  /** In a written field the key is found at the start and the value's body
    * begins after `": "`. */
  lemma WrittenFieldLayout(key: string, tail: string)
    ensures var json := "\"" + key + "\": \"" + tail;
            var n := |KeyPattern(key)|;
            && Find(json, KeyPattern(key)) == Some(0)
            && n + 3 <= |json|
            && SkipKeySeparators(json, n) == n + 2
            && json[n + 2] == '"'
            && json[n + 3..] == tail
  {
    var pattern := KeyPattern(key);
    var json := "\"" + key + "\": \"" + tail;
    assert json[0..|pattern|] == pattern;
    assert Find(json, pattern) == Some(0);
    var n := |pattern|;
    assert json[n] == ':' && json[n + 1] == ' ' && json[n + 2] == '"';
    assert SkipKeySeparators(json, n + 2) == n + 2;
    assert SkipKeySeparators(json, n + 1) == n + 2;
  }
}
