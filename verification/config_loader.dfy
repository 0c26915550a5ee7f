/** `ConfigLoader.from_markdown`: the widget's settings live in an HTML
    comment of the profile README, tagged by a line `YT_MUSIC_CONFIG`, as
    `key: value` lines. The regular expressions of the source are written
    out here as predicates and scans on strings. */
module ConfigLoader {
  import opened Chars
  import opened Results
  import opened Text

  /** The loaded settings: the template file name and the playlist id. */
  datatype Config = Config(theme: string, playlistId: string)

  /** Why loading fails (each is a `RuntimeError` in the source). */
  datatype ConfigError =
    | NoConfigBlock
    | MissingPlaylistId
    | InvalidPlaylistId(id: string)

  const ConfigTag: string := "YT_MUSIC_CONFIG"
  const DefaultTheme: string := "default.svg"
  const CommentOpen: string := "<!--"
  const CommentClose: string := "-->"

  // ---------------------------------------------------------------------
  // Selecting the block
  // ---------------------------------------------------------------------

  /** A line that is the tag up to surrounding whitespace. */
  predicate IsTagLine(line: string) {
    Strip(line) == ConfigTag
  }

  /** Some line of `lines` is a tag line. */
  predicate TagLineIn(lines: seq<string>)
    decreases |lines|
  {
    |lines| > 0 && (IsTagLine(lines[0]) || TagLineIn(lines[1..]))
  }

  lemma {:induction false} TagLineInIff(lines: seq<string>)
    ensures TagLineIn(lines) <==> exists k :: 0 <= k < |lines| && IsTagLine(lines[k])
    decreases |lines|
  {
    if |lines| > 0 {
      TagLineInIff(lines[1..]);
      if exists k :: 0 <= k < |lines| && IsTagLine(lines[k]) {
        var k :| 0 <= k < |lines| && IsTagLine(lines[k]);
        if k > 0 {
          assert IsTagLine(lines[1..][k - 1]);
        }
      }
    }
  }

  /** The loader's multi-line search for the tag: it succeeds exactly when
      some `\n`-separated line of `body` is the tag, up to whitespace (in
      Python's sense) on either side. */
  predicate HasTagLine(body: string) {
    TagLineIn(Split(body, "\n"))
  }

  /** One step of the loader's scan for HTML comments, where the body is
      the shortest text (newlines included) between an opener and a closer:
      the first `<!--`, then the first `-->` after it; the result is the
      text between them and the text after the `-->`, where the scan
      resumes. */
  function NextComment(md: string): (r: Option<(string, string)>)
    ensures r.Some? ==> |r.value.1| < |md|
  {
    match IndexOf(md, CommentOpen)
    case None => None
    case Some(i) =>
      var rest := md[i + |CommentOpen|..];
      match IndexOf(rest, CommentClose)
      case None => None
      case Some(j) => Some((rest[..j], rest[j + |CommentClose|..]))
  }

  /** The loop over the comments: the first one whose stripped body has a
      tag line is the block; without one there is none. */
  function FindConfigBlock(md: string): (r: Option<string>)
    ensures r.Some? ==> HasTagLine(r.value) && Stripped(r.value)
    decreases |md|
  {
    match NextComment(md)
    case None => None
    case Some((raw, after)) =>
      var body := Strip(raw);
      if HasTagLine(body) then Some(body) else FindConfigBlock(after)
  }

  /** A complete comment before any other comment is the first match. */
  lemma FirstComment(pre: string, body: string, rest: string)
    requires !Contains(pre, CommentOpen) && !Contains(body, CommentClose)
    ensures NextComment(pre + CommentOpen + body + CommentClose + rest) == Some((body, rest))
  {
    var r := body + CommentClose + rest;
    assert pre + CommentOpen + body + CommentClose + rest == pre + CommentOpen + r;
    FirstOpen(pre, r);
    FirstClose(body, rest);
  }

  lemma FirstClose(body: string, rest: string)
    requires !Contains(body, CommentClose)
    ensures var r := body + CommentClose + rest;
      && IndexOf(r, CommentClose) == Some(|body|)
      && r[..|body|] == body && r[|body| + |CommentClose|..] == rest
  {
    var r := body + CommentClose + rest;
    FirstOccurrenceTail(body, CommentClose, rest);
    assert r[..|body|] == body;
    assert r[|body| + |CommentClose|..] == rest;
  }

  lemma FirstOpen(pre: string, r: string)
    requires !Contains(pre, CommentOpen)
    ensures var md := pre + CommentOpen + r;
      IndexOf(md, CommentOpen) == Some(|pre|) && md[|pre| + |CommentOpen|..] == r
  {
    FirstOccurrence(pre, CommentOpen, r);
    assert (pre + CommentOpen + r)[|pre| + |CommentOpen|..] == r;
  }

  /** A comment without the tag line is passed over. */
  lemma SkipUntaggedComment(pre: string, body: string, rest: string)
    requires !Contains(pre, CommentOpen) && !Contains(body, CommentClose)
    requires !HasTagLine(Strip(body))
    ensures FindConfigBlock(pre + CommentOpen + body + CommentClose + rest) == FindConfigBlock(rest)
  {
    FirstComment(pre, body, rest);
  }

  /** The first comment with the tag line is the block, whatever follows. */
  lemma SelectTaggedComment(pre: string, body: string, rest: string)
    requires !Contains(pre, CommentOpen) && !Contains(body, CommentClose)
    requires HasTagLine(Strip(body))
    ensures FindConfigBlock(pre + CommentOpen + body + CommentClose + rest) == Some(Strip(body))
  {
    FirstComment(pre, body, rest);
  }

  /** A complete comment stays the same comment when text is appended. */
  lemma NextCommentExtend(md: string, more: string)
    requires NextComment(md).Some?
    ensures NextComment(md + more) == Some((NextComment(md).value.0, NextComment(md).value.1 + more))
  {
    IndexOfExtend(md, CommentOpen, more);
    var i := IndexOf(md, CommentOpen).value;
    var rest := md[i + |CommentOpen|..];
    IndexOfExtend(rest, CommentClose, more);
  }

  /** Text after a selected block never changes the selection: later
      tagged comments are ignored. */
  lemma {:induction false} LaterTextIgnored(md: string, more: string)
    requires FindConfigBlock(md).Some?
    ensures FindConfigBlock(md + more) == FindConfigBlock(md)
    decreases |md|
  {
    NextCommentExtend(md, more);
    var after := NextComment(md).value.1;
    if !HasTagLine(Strip(NextComment(md).value.0)) {
      LaterTextIgnored(after, more);
    }
  }

  /** A comment lacking a character of the tag cannot have a tag line. */
  lemma NoTagLineWithout(body: string, c: char)
    requires c in ConfigTag && c !in body
    ensures !HasTagLine(body)
  {
    var lines := Split(body, "\n");
    TagLineInIff(lines);
    forall k | 0 <= k < |lines| ensures !IsTagLine(lines[k]) {
      if c in Strip(lines[k]) {
        StripChars(lines[k], c);
        JoinChars(lines, "\n", k, c);
      }
    }
  }

  /** A README whose only comment has no tag line has no config block. */
  lemma {:induction false} UntaggedCommentRejected(body: string)
    requires !HasTagLine(Strip(body)) && !Contains(body, CommentClose)
    ensures FromMarkdown(CommentOpen + body + CommentClose) == Err(NoConfigBlock)
  {
    Alone(body);
    ContainsChars([], CommentOpen, '<');
    SkipUntaggedComment([], body, []);
  }

  /** A comment with nothing before or after it. */
  lemma Alone(body: string)
    ensures CommentOpen + body + CommentClose == [] + CommentOpen + body + CommentClose + []
  {
  }

  /** A comment lacking a character of the tag has no tag line once
      stripped either. */
  lemma {:induction false} MissingTagChar(body: string, c: char)
    requires c in ConfigTag && c !in body
    ensures !HasTagLine(Strip(body))
  {
    if c in Strip(body) {
      StripChars(body, c);
    }
    NoTagLineWithout(Strip(body), c);
  }

  /** The body of the example comment in the class docstring, tagged
      `YT_CONFIG`. */
  const DocstringBody: string :=
    "\n" + "YT_CONFIG" + "\n" + "theme: default.svg" + "\n" + "playlist_id: PLxxxx" + "\n"

  /** The code looks for `YT_MUSIC_CONFIG`, so the docstring's own example
      has no config block. */
  lemma DocstringExampleRejected()
    ensures FromMarkdown(CommentOpen + DocstringBody + CommentClose) == Err(NoConfigBlock)
  {
    DocstringBodyLacksTag();
    MissingTagChar(DocstringBody, 'M');
    ContainsChars(DocstringBody, CommentClose, '>');
    UntaggedCommentRejected(DocstringBody);
  }

  lemma DocstringBodyLacksTag()
    ensures 'M' in ConfigTag && 'M' !in DocstringBody && '>' !in DocstringBody
  {
    var a, b, c := "YT_CONFIG", "theme: default.svg", "playlist_id: PLxxxx";
    assert 'M' !in a && '>' !in a;
    assert 'M' !in b && '>' !in b;
    assert 'M' !in c && '>' !in c;
    assert DocstringBody == "\n" + a + "\n" + b + "\n" + c + "\n";
  }

  // ---------------------------------------------------------------------
  // Reading `key: value` lines
  // ---------------------------------------------------------------------

  predicate IsIdentStart(c: char) {
    IsAsciiUpper(c) || IsAsciiLower(c) || c == '_'
  }

  /** An ASCII letter or digit, `_` or `-`. */
  predicate IsIdentChar(c: char) {
    IsAsciiUpper(c) || IsAsciiLower(c) || IsAsciiDigit(c) || c == '_' || c == '-'
  }

  /** An identifier: an ASCII letter or `_`, then any number of
      `IsIdentChar` characters. */
  predicate IsKey(s: string) {
    |s| > 0 && IsIdentStart(s[0]) && forall i :: 0 < i < |s| ==> IsIdentChar(s[i])
  }

  /** The length of the longest prefix of `s` made of `IsIdentChar`. */
  function IdentSpan(s: string): (n: nat)
    ensures n <= |s|
    ensures forall i :: 0 <= i < n ==> IsIdentChar(s[i])
    ensures n < |s| ==> !IsIdentChar(s[n])
    decreases |s|
  {
    if |s| > 0 && IsIdentChar(s[0]) then 1 + IdentSpan(s[1..]) else 0
  }

  /** The part of the line pattern after the key: optional whitespace, a
      colon, and at least one more character. The result is everything
      after the colon. */
  function AfterColon(s: string): (r: Option<string>)
    ensures r.Some? ==> 0 < |r.value| < |s| && r.value == s[|s| - |r.value|..]
    ensures r.Some? ==> s[|s| - |r.value| - 1] == ':' && AllSpace(s[..|s| - |r.value| - 1])
  {
    var after := TrimStart(s);
    if |after| <= 1 || after[0] != ':' then None
    else
      assert s[|s| - |after| + 1..] == after[1..];
      Some(after[1..])
  }

  /** The loader's `key: value` line pattern, followed by lower-casing the
      key and stripping the value, on a line without `\n` (every line
      `splitlines` yields). The pattern wants an identifier, optional
      whitespace, a colon, and at least one more character. The key is
      matched greedily and can only be followed by whitespace or `:`, so it
      is the longest identifier prefix; the value is whatever follows the
      first `:` after it, stripped. The one character the pattern needs
      after the colon may be whitespace that the strip then removes. */
  function KeyValue(line: string): (r: Option<(string, string)>)
    ensures r.Some? ==> Stripped(r.value.1)
    ensures ':' !in line ==> r.None?
  {
    if |line| == 0 || !IsIdentStart(line[0]) then None
    else
      var n := IdentSpan(line);
      match AfterColon(line[n..])
      case None => None
      case Some(value) =>
        Some((Lower(line[..n]), Strip(value)))
  }

  /** Reading back a line written as `key: value`, with any whitespace
      around the colon, gives the lower-cased key and the value. */
  lemma KeyValueRoundTrip(key: string, ws1: string, ws2: string, value: string)
    requires IsKey(key) && AllSpace(ws1) && AllSpace(ws2)
    requires value != [] && Stripped(value)
    ensures KeyValue(key + ws1 + ":" + ws2 + value) == Some((Lower(key), value))
  {
    var line := key + ws1 + ":" + ws2 + value;
    var tail := ws1 + ":" + (ws2 + value);
    Glue(key, ws1, ws2 + value);
    Glue(ws1, ws2, value);
    assert line == key + tail;
    Slices(key, tail);
    IdentSpanOf(key, tail);
    AfterColonOf(ws1, ws2 + value);
    KeyValueOf(line, |key|, ws2 + value);
    StripOf(ws2, value);
  }

  lemma Glue(a: string, b: string, c: string)
    ensures a + (b + ":" + c) == a + b + ":" + c
  {
  }

  lemma Slices(a: string, b: string)
    ensures (a + b)[..|a|] == a && (a + b)[|a|..] == b
  {
  }

  /** Every line `KeyValue` accepts has that shape: an identifier,
      whitespace, a colon and a non-empty rest whose strip is the value. */
  lemma KeyValueShape(line: string) returns (key: string, ws: string, rest: string)
    ensures KeyValue(line).Some? ==>
      && line == key + ws + ":" + rest
      && IsKey(key) && AllSpace(ws) && rest != []
      && KeyValue(line).value == (Lower(key), Strip(rest))
  {
    key, ws, rest := [], [], [];
    if KeyValue(line).Some? {
      var n := IdentSpan(line);
      var t := line[n..];
      rest := AfterColon(t).value;
      key := line[..n];
      ws := ColonSplit(t, rest);
      KeyValueOf(line, n, rest);
      Rejoin(line, n);
      Glue(key, ws, rest);
    }
  }

  lemma Rejoin(s: string, n: nat)
    requires n <= |s|
    ensures s == s[..n] + s[n..]
  {
  }

  /** How `KeyValue` reads a line once the key length and the text after
      the colon are known. */
  lemma KeyValueOf(line: string, n: nat, rest: string)
    requires |line| > 0 && IsIdentStart(line[0]) && n == IdentSpan(line)
    requires AfterColon(line[n..]) == Some(rest)
    ensures IsKey(line[..n])
    ensures KeyValue(line) == Some((Lower(line[..n]), Strip(rest)))
  {
  }

  /** The text before the colon `AfterColon` finds is whitespace. */
  lemma ColonSplit(t: string, rest: string) returns (ws: string)
    requires AfterColon(t) == Some(rest)
    ensures t == ws + ":" + rest && AllSpace(ws)
  {
    ws := t[..|t| - |rest| - 1];
    assert t == t[..|t| - |rest| - 1] + [t[|t| - |rest| - 1]] + t[|t| - |rest|..];
  }

  lemma {:induction false} IdentSpanOf(key: string, tail: string)
    requires forall i :: 0 <= i < |key| ==> IsIdentChar(key[i])
    requires tail == [] || !IsIdentChar(tail[0])
    ensures IdentSpan(key + tail) == |key|
    decreases |key|
  {
    if |key| > 0 {
      assert (key + tail)[1..] == key[1..] + tail;
      IdentSpanOf(key[1..], tail);
    } else {
      assert key + tail == tail;
    }
  }

  lemma AfterColonOf(ws: string, rest: string)
    requires AllSpace(ws) && rest != []
    ensures AfterColon(ws + ":" + rest) == Some(rest)
  {
    TrimStartOf(ws, ":" + rest);
    assert ws + ":" + rest == ws + (":" + rest);
    assert (":" + rest)[1..] == rest;
  }

  lemma StripOf(ws: string, value: string)
    requires AllSpace(ws) && value != [] && Stripped(value)
    ensures Strip(ws + value) == value
  {
    StripAround(ws, value, []);
    assert ws + value + [] == ws + value;
  }

  /** What one line of the block contributes: nothing for a blank line, a
      `#` comment or the tag line, else the `key: value` entry if the line
      has that shape. */
  function LineEntry(line: string): (r: Option<(string, string)>)
    ensures r.Some? ==> var l := Strip(line); l != [] && l[0] != '#' && l != ConfigTag
    ensures r.Some? ==> Stripped(r.value.1)
  {
    var l := Strip(line);
    if l == [] || l[0] == '#' || l == ConfigTag then None
    else KeyValue(l)
  }

  /** The entry of every line, in order. */
  function Entries(lines: seq<string>): (es: seq<Option<(string, string)>>)
    ensures |es| == |lines|
    ensures forall i :: 0 <= i < |lines| ==> es[i] == LineEntry(lines[i])
  {
    seq(|lines|, i requires 0 <= i < |lines| => LineEntry(lines[i]))
  }

  // ---------------------------------------------------------------------
  // The dictionary: later entries overwrite earlier ones
  // ---------------------------------------------------------------------

  /** Entry `i` sets a key that no later entry sets again. */
  predicate IsLastFor<K(==), V>(es: seq<Option<(K, V)>>, i: nat)
    requires i < |es| && es[i].Some?
  {
    forall j :: i < j < |es| && es[j].Some? ==> es[j].value.0 != es[i].value.0
  }

  /** `cfg[key] = value` for each entry in order. The keys of the result
      are exactly the keys some entry sets, and each holds the value of the
      last entry that sets it. */
  function Collect<K(==,!new), V>(es: seq<Option<(K, V)>>): (cfg: map<K, V>)
    ensures forall k :: k in cfg <==> exists i :: 0 <= i < |es| && es[i].Some? && es[i].value.0 == k
    ensures forall i :: 0 <= i < |es| && es[i].Some? && IsLastFor(es, i) ==>
              es[i].value.0 in cfg && cfg[es[i].value.0] == es[i].value.1
    decreases |es|
  {
    if |es| == 0 then map[]
    else
      var p := es[..|es| - 1];
      var m := Collect(p);
      CollectStep(es, m);
      match es[|es| - 1]
      case Some((k, v)) => m[k := v]
      case None => m
  }

  lemma CollectStep<K, V>(es: seq<Option<(K, V)>>, m: map<K, V>)
    requires |es| > 0
    requires var p := es[..|es| - 1];
      && (forall k :: k in m <==> exists i :: 0 <= i < |p| && p[i].Some? && p[i].value.0 == k)
      && (forall i :: 0 <= i < |p| && p[i].Some? && IsLastFor(p, i) ==>
            p[i].value.0 in m && m[p[i].value.0] == p[i].value.1)
    ensures var cfg := match es[|es| - 1] case Some((k, v)) => m[k := v] case None => m;
      && (forall k :: k in cfg <==> exists i :: 0 <= i < |es| && es[i].Some? && es[i].value.0 == k)
      && (forall i :: 0 <= i < |es| && es[i].Some? && IsLastFor(es, i) ==>
            es[i].value.0 in cfg && cfg[es[i].value.0] == es[i].value.1)
  {
    var p := es[..|es| - 1];
    forall i | 0 <= i < |p| && p[i].Some? && IsLastFor(es, i) ensures IsLastFor(p, i) {
      forall j | i < j < |p| && p[j].Some? ensures p[j].value.0 != p[i].value.0 {
        assert es[j] == p[j];
      }
    }
  }

  // ---------------------------------------------------------------------
  // Defaults, validation and the whole loader
  // ---------------------------------------------------------------------

  /** A valid playlist id: one or more ASCII letters, digits, `_` or `-`,
      and nothing else. */
  predicate IsPlaylistId(id: string) {
    |id| > 0 && forall i :: 0 <= i < |id| ==> IsIdentChar(id[i])
  }

  /** Defaults and validation on the collected dictionary: the theme falls
      back to `default.svg`; the playlist id must be present, non-empty once
      stripped, and made of `IsIdentChar` characters only. */
  function Settings(cfg: map<string, string>): (r: Result<Config, ConfigError>)
    ensures r.Ok? ==> IsPlaylistId(r.value.playlistId)
    ensures r.Ok? <==> IsPlaylistId(Strip(Get(cfg, "playlist_id").GetOr("")))
    ensures r == Err(MissingPlaylistId) <==> Strip(Get(cfg, "playlist_id").GetOr("")) == []
    ensures r.Err? && r.error.InvalidPlaylistId? ==> !IsPlaylistId(r.error.id) && r.error.id != []
    ensures r.Err? ==> r.error != NoConfigBlock
  {
    var theme := Strip(Get(cfg, "theme").GetOr(DefaultTheme));
    var id := Strip(Get(cfg, "playlist_id").GetOr(""));
    if id == [] then Err(MissingPlaylistId)
    else if !IsPlaylistId(id) then Err(InvalidPlaylistId(id))
    else Ok(Config(theme, id))
  }

  /** `ConfigLoader.from_markdown`. On success the playlist id is a
      non-empty run of `IsIdentChar` characters; the loader fails for lack of a block
      exactly when no comment has the tag line. */
  function FromMarkdown(md: string): (r: Result<Config, ConfigError>)
    ensures r.Ok? ==> IsPlaylistId(r.value.playlistId)
    ensures r == Err(NoConfigBlock) <==> FindConfigBlock(md).None?
  {
    match FindConfigBlock(md)
    case None => Err(NoConfigBlock)
    case Some(block) => Settings(Collect(Entries(SplitLines(block))))
  }

  /** A block line is the last to set `key`. */
  predicate SetsLast(lines: seq<string>, i: nat, key: string)
    requires i < |lines|
  {
    var es := Entries(lines);
    es[i].Some? && es[i].value.0 == key && IsLastFor(es, i)
  }

  /** No block line sets `key`. */
  predicate NeverSets(lines: seq<string>, key: string) {
    forall i :: 0 <= i < |lines| ==> LineEntry(lines[i]).None? || LineEntry(lines[i]).value.0 != key
  }

  /** The theme is the value of the last `theme:` line. */
  lemma ThemeFromLastLine(lines: seq<string>, i: nat)
    requires i < |lines| && SetsLast(lines, i, "theme")
    ensures var r := Settings(Collect(Entries(lines)));
      r.Ok? ==> r.value.theme == LineEntry(lines[i]).value.1
  {
    StripStripped(LineEntry(lines[i]).value.1);
  }

  /** Without a `theme:` line the theme is `default.svg`. */
  lemma ThemeDefault(lines: seq<string>)
    requires NeverSets(lines, "theme")
    ensures var r := Settings(Collect(Entries(lines)));
      r.Ok? ==> r.value.theme == DefaultTheme
  {
    var es := Entries(lines);
    assert "theme" !in Collect(es);
    StripStripped(DefaultTheme);
  }

  /** The playlist id is the value of the last `playlist_id:` line: the
      settings hold it when it is well formed, and name it in the error
      otherwise. */
  lemma PlaylistIdFromLastLine(lines: seq<string>, i: nat)
    requires i < |lines| && SetsLast(lines, i, "playlist_id")
    ensures var v := LineEntry(lines[i]).value.1;
      var r := Settings(Collect(Entries(lines)));
      && (IsPlaylistId(v) ==> r.Ok? && r.value.playlistId == v)
      && (!IsPlaylistId(v) && v != [] ==> r == Err(InvalidPlaylistId(v)))
      && (v == [] ==> r == Err(MissingPlaylistId))
  {
    var es := Entries(lines);
    PlaylistIdOf(Collect(es), es[i].value.1);
  }

  lemma PlaylistIdOf(cfg: map<string, string>, v: string)
    requires "playlist_id" in cfg && cfg["playlist_id"] == v && Stripped(v)
    ensures var r := Settings(cfg);
      && (IsPlaylistId(v) ==> r.Ok? && r.value.playlistId == v)
      && (!IsPlaylistId(v) && v != [] ==> r == Err(InvalidPlaylistId(v)))
      && (v == [] ==> r == Err(MissingPlaylistId))
  {
    StripStripped(v);
    if IsPlaylistId(v) {
      assert Settings(cfg).Ok?;
    } else if v != [] {
      assert Settings(cfg) == Err(InvalidPlaylistId(v));
    }
  }

  /** Without a `playlist_id:` line loading fails. */
  lemma PlaylistIdMissing(lines: seq<string>)
    requires NeverSets(lines, "playlist_id")
    ensures Settings(Collect(Entries(lines))) == Err(MissingPlaylistId)
  {
    var es := Entries(lines);
    assert "playlist_id" !in Collect(es);
  }

  // ---------------------------------------------------------------------
  // A whole README
  // ---------------------------------------------------------------------

  /** The smallest README the loader accepts: one comment holding the tag
      line and a `playlist_id:` line. The theme defaults. */
  lemma {:induction false} FromMarkdownMinimal(id: string)
    requires IsPlaylistId(id)
    ensures FromMarkdown(CommentOpen + "\n" + ConfigTag + "\n" + "playlist_id: " + id + "\n" + CommentClose)
         == Ok(Config(DefaultTheme, id))
  {
    var core := ConfigTag + "\n" + ("playlist_id: " + id);
    var body := "\n" + core + "\n";
    assert CommentOpen + "\n" + ConfigTag + "\n" + "playlist_id: " + id + "\n" + CommentClose
        == [] + CommentOpen + body + CommentClose + [];
    MinimalBody(id);
    ContainsChars([], CommentOpen, '<');
    SelectTaggedComment([], body, []);
    MinimalSettings(id);
  }

  /** What a playlist id cannot hold. */
  lemma PlaylistIdPlain(id: string)
    requires IsPlaylistId(id)
    ensures '>' !in id && NoLineBoundary(id) && Stripped(id)
  {
    forall i | 0 <= i < |id| ensures id[i] != '>' && !IsLineBoundary(id[i]) {
      assert IsIdentChar(id[i]);
    }
    assert IsIdentChar(id[0]) && IsIdentChar(id[|id| - 1]);
  }

  /** The minimal block's comment body: no `-->` inside, and stripped it
      is the tag line followed by the `playlist_id:` line, so it is tagged. */
  lemma {:induction false} MinimalBody(id: string)
    requires IsPlaylistId(id)
    ensures var core := ConfigTag + "\n" + ("playlist_id: " + id);
      var body := "\n" + core + "\n";
      && !Contains(body, CommentClose) && Strip(body) == core && HasTagLine(core)
  {
    PlaylistIdPlain(id);
    var line := "playlist_id: " + id;
    var core := ConfigTag + "\n" + line;
    var body := "\n" + core + "\n";
    NoCloseIn(line);
    ContainsChars(body, CommentClose, '>');
    PlaylistLineShape(id);
    BlockStripped(line);
    TaggedBlock(line);
  }

  lemma NoCloseIn(line: string)
    requires '>' !in line
    ensures '>' !in "\n" + (ConfigTag + "\n" + line) + "\n"
  {
  }

  lemma BlockStripped(line: string)
    requires line != [] && Stripped(line)
    ensures Strip("\n" + (ConfigTag + "\n" + line) + "\n") == ConfigTag + "\n" + line
  {
    var core := ConfigTag + "\n" + line;
    assert core[0] == 'Y' && core[|core| - 1] == line[|line| - 1];
    StripAround("\n", core, "\n");
  }

  lemma TaggedBlock(line: string)
    ensures HasTagLine(ConfigTag + "\n" + line)
  {
    SplitCharCons(ConfigTag, '\n', line);
    TagShape();
  }

  lemma TagShape()
    ensures '\n' !in ConfigTag && Stripped(ConfigTag) && NoLineBoundary(ConfigTag)
    ensures IsTagLine(ConfigTag) && LineEntry(ConfigTag) == None
  {
    StripStripped(ConfigTag);
  }

  /** The minimal block's lines give the default theme and the id. */
  lemma {:induction false} MinimalSettings(id: string)
    requires IsPlaylistId(id)
    ensures Settings(Collect(Entries(SplitLines(ConfigTag + "\n" + ("playlist_id: " + id)))))
         == Ok(Config(DefaultTheme, id))
  {
    PlaylistIdPlain(id);
    var line := "playlist_id: " + id;
    PlaylistLineNoBoundary(id);
    PlaylistLineShape(id);
    BlockLines(line);
    BlockSettings(id);
  }

  lemma PlaylistLineNoBoundary(id: string)
    requires NoLineBoundary(id)
    ensures NoLineBoundary("playlist_id: " + id)
  {
    var line := "playlist_id: " + id;
    forall i | 0 <= i < |line| ensures !IsLineBoundary(line[i]) {
      if i >= 13 {
        assert line[i] == id[i - 13];
      }
    }
  }

  lemma BlockLines(line: string)
    requires line != [] && NoLineBoundary(line)
    ensures SplitLines(ConfigTag + "\n" + line) == [ConfigTag, line]
  {
    TagShape();
    SplitLinesCons(ConfigTag, line);
    SplitLinesSingle(line);
  }

  lemma {:induction false} BlockSettings(id: string)
    requires IsPlaylistId(id) && Stripped(id)
    ensures Settings(Collect(Entries([ConfigTag, "playlist_id: " + id]))) == Ok(Config(DefaultTheme, id))
  {
    var lines := [ConfigTag, "playlist_id: " + id];
    BlockEntries(id);
    ThemeDefault(lines);
    PlaylistIdFromLastLine(lines, 1);
    var r := Settings(Collect(Entries(lines)));
    assert r.Ok? && r.value.theme == DefaultTheme && r.value.playlistId == id;
  }

  lemma {:induction false} BlockEntries(id: string)
    requires id != [] && Stripped(id)
    ensures var lines := [ConfigTag, "playlist_id: " + id];
      && NeverSets(lines, "theme") && SetsLast(lines, 1, "playlist_id")
      && LineEntry(lines[1]).value.1 == id
  {
    TagShape();
    PlaylistLineEntry(id);
    TwoLines(ConfigTag, "playlist_id: " + id, id);
  }

  /** A line without an entry followed by a `playlist_id` line. */
  lemma {:induction false} TwoLines(a: string, b: string, v: string)
    requires LineEntry(a) == None && LineEntry(b) == Some(("playlist_id", v))
    ensures NeverSets([a, b], "theme") && SetsLast([a, b], 1, "playlist_id")
  {
    KeysDiffer();
    TwoLinesNever(a, b, "playlist_id", "theme");
    TwoLinesLast(a, b, "playlist_id", v);
  }

  lemma KeysDiffer()
    ensures "playlist_id" != "theme"
  {
    assert |"playlist_id"| != |"theme"|;
  }

  lemma {:induction false} TwoLinesNever(a: string, b: string, k: string, other: string)
    requires LineEntry(a) == None && LineEntry(b).Some? && LineEntry(b).value.0 == k && k != other
    ensures NeverSets([a, b], other)
  {
    PairNeverSets([a, b], other);
  }

  lemma {:induction false} PairNeverSets(lines: seq<string>, other: string)
    requires |lines| == 2 && LineEntry(lines[0]).None?
    requires LineEntry(lines[1]).Some? && LineEntry(lines[1]).value.0 != other
    ensures NeverSets(lines, other)
  {
    forall i | 0 <= i < |lines|
      ensures LineEntry(lines[i]).None? || LineEntry(lines[i]).value.0 != other
    {
      if i == 0 {
        assert LineEntry(lines[i]).None?;
      } else {
        assert i == 1;
      }
    }
  }

  lemma {:induction false} TwoLinesLast(a: string, b: string, k: string, v: string)
    requires LineEntry(b) == Some((k, v))
    ensures SetsLast([a, b], 1, k)
  {
    var es := Entries([a, b]);
    assert es[1] == Some((k, v));
  }

  /** A `playlist_id: v` line sets `playlist_id` to `v`. */
  lemma {:induction false} PlaylistLineEntry(v: string)
    requires v != [] && Stripped(v)
    ensures LineEntry("playlist_id: " + v) == Some(("playlist_id", v))
  {
    var line := "playlist_id: " + v;
    PlaylistLineShape(v);
    StripStripped(line);
    PlaylistKeyValue(v);
  }

  lemma {:induction false} PlaylistKeyValue(v: string)
    requires v != [] && Stripped(v)
    ensures KeyValue("playlist_id" + "" + ":" + " " + v) == Some(("playlist_id", v))
  {
    PlaylistKey();
    assert AllSpace(" ");
    KeyValueRoundTrip("playlist_id", "", " ", v);
  }

  lemma PlaylistLineShape(v: string)
    requires v != [] && Stripped(v)
    ensures var line := "playlist_id: " + v;
      && line == "playlist_id" + "" + ":" + " " + v
      && Stripped(line) && line[0] == 'p' && line != ConfigTag
  {
    var line := "playlist_id: " + v;
    assert line[|line| - 1] == v[|v| - 1];
  }

  lemma PlaylistKey()
    ensures Lower("playlist_id") == "playlist_id" && IsKey("playlist_id")
  {
  }
}
