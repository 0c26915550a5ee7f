/** The pure part of `YouTubeGifGenerator`: which 10-second clip to cut,
    the `yt-dlp` arguments that name it, and the `mm:ss` text of a video's
    length. Running `yt-dlp` and `ffmpeg`, the JSON they print and the
    temporary files are outside the model; the random choice is an index
    and the duration a parameter. */
module MediaClient {
  import opened Results
  import opened Text
  import opened Decimal

  /** `START_CANDIDATES`: the seconds a clip may start at. */
  const StartCandidates: seq<nat> := [20, 30, 40, 60]

  const ClipSeconds: nat := 10
  const DownloaderName: string := "yt-dlp"
  const WatchPrefix: string := "https://www.youtube.com/watch?v="

  // ---------------------------------------------------------------------
  // The clip
  // ---------------------------------------------------------------------

  /** `random.choice(START_CANDIDATES)` with the choice as an index. */
  function ClipStart(choice: nat): (start: nat)
    requires choice < |StartCandidates|
    ensures start == 20 || start == 30 || start == 40 || start == 60
  {
    StartCandidates[choice]
  }

  /** Every candidate start is reachable. */
  lemma ClipStartsCovered(start: nat)
    requires start in StartCandidates
    ensures exists choice :: 0 <= choice < |StartCandidates| && ClipStart(choice) == start
  {
    var choice :| 0 <= choice < |StartCandidates| && StartCandidates[choice] == start;
    assert ClipStart(choice) == start;
  }

  /** The `--download-sections` argument `*START-END` for a clip of ten
      seconds from `start`. */
  function SectionArg(start: nat): (r: string)
    ensures |r| >= 4 && r[0] == '*'
  {
    "*" + Dec(start) + "-" + Dec(start + ClipSeconds)
  }

  /** Reading a `*START-END` argument back into its two times. */
  function ParseSection(s: string): Option<(nat, nat)> {
    if |s| == 0 || s[0] != '*' then None
    else
      match SplitOnce(s[1..], '-')
      case None => None
      case Some((a, b)) =>
        if a != [] && b != [] && AllDigits(a) && AllDigits(b) then Some((Value(a), Value(b)))
        else None
  }

  /** The section argument names exactly the window `[start, start + 10]`. */
  lemma SectionRoundTrip(start: nat)
    ensures ParseSection(SectionArg(start)) == Some((start, start + ClipSeconds))
  {
    var a, b := Dec(start), Dec(start + ClipSeconds);
    var s := SectionArg(start);
    assert s[1..] == a + ['-'] + b;
    DigitsHoldNoSeparator(a);
    SplitOnceJoin(a, '-', b);
  }

  lemma DigitsHoldNoSeparator(s: string)
    requires AllDigits(s)
    ensures '-' !in s && ':' !in s
  {
  }

  // ---------------------------------------------------------------------
  // The video's page
  // ---------------------------------------------------------------------

  /** The watch page of a video. */
  function WatchUrl(videoId: string): (r: string)
    ensures StartsWith(r, WatchPrefix) && r[|WatchPrefix|..] == videoId
  {
    WatchPrefix + videoId
  }

  /** Reading the video id back out of a watch page address. */
  function WatchVideoId(url: string): Option<string> {
    if StartsWith(url, WatchPrefix) then Some(url[|WatchPrefix|..]) else None
  }

  lemma WatchUrlRoundTrip(videoId: string, url: string)
    ensures WatchVideoId(WatchUrl(videoId)) == Some(videoId)
    ensures WatchVideoId(url) == Some(videoId) ==> WatchUrl(videoId) == url
  {
    if WatchVideoId(url) == Some(videoId) {
      assert url == url[..|WatchPrefix|] + url[|WatchPrefix|..];
    }
  }

  /** The `yt-dlp` command of `make_10s_gif` that downloads the clip to
      `tmpMp4`: its section argument reads back as a ten-second window
      from one of the candidate starts, and its last argument is the
      video's watch page. */
  function DownloadCommand(videoId: string, tmpMp4: string, choice: nat): (r: seq<string>)
    requires choice < |StartCandidates|
    ensures |r| == 10 && r[8] == tmpMp4
    ensures ParseSection(r[4]) == Some((ClipStart(choice), ClipStart(choice) + ClipSeconds))
    ensures WatchVideoId(r[9]) == Some(videoId)
  {
    SectionRoundTrip(ClipStart(choice));
    WatchUrlRoundTrip(videoId, []);
    DownloadArgs(SectionArg(ClipStart(choice)), tmpMp4, WatchUrl(videoId))
  }

  /** The download command's arguments around its three variable parts. */
  function DownloadArgs(section: string, tmpMp4: string, url: string): (r: seq<string>)
    ensures |r| == 10 && r[4] == section && r[8] == tmpMp4 && r[9] == url
  {
    [DownloaderName, "-f", "best[ext=mp4]/best", "--download-sections", section,
     "--merge-output-format", "mp4", "-o", tmpMp4, url]
  }

  /** The `yt-dlp` command that prints a video's metadata. */
  function InfoCommand(videoId: string): (r: seq<string>)
    ensures |r| == 4 && r[0] == DownloaderName && WatchVideoId(r[3]) == Some(videoId)
  {
    WatchUrlRoundTrip(videoId, []);
    [DownloaderName, "-j", "--no-playlist", WatchUrl(videoId)]
  }

  // ---------------------------------------------------------------------
  // `mm:ss`
  // ---------------------------------------------------------------------

  /** `divmod(duration, 60)` formatted as `f"{m:02d}:{s:02d}"`: two
      zero-padded fields around a colon, reading back as the minutes and
      the seconds of `duration`. Minutes are not capped, so the text is
      five characters long exactly below 6000 seconds. */
  function FormatMmss(duration: nat): (r: string)
    ensures |r| >= 5 && r[|r| - 3] == ':'
    ensures AllDigits(r[..|r| - 3]) && AllDigits(r[|r| - 2..])
    ensures Value(r[..|r| - 3]) * 60 + Value(r[|r| - 2..]) == duration
    ensures Value(r[|r| - 2..]) < 60
    ensures |r| == 5 <==> duration < 6000
    ensures |r| > 5 ==> r[0] != '0'
  {
    var m := Pad2(duration / 60);
    var s := Pad2(duration % 60);
    MinutesSeconds(duration);
    ColonFields(m, s);
    m + ":" + s
  }

  lemma MinutesSeconds(duration: nat)
    ensures (duration / 60) * 60 + duration % 60 == duration
    ensures duration % 60 < 100
    ensures duration / 60 < 100 <==> duration < 6000
  {
  }

  /** The two fields of `m:ss` with a two-character `ss`. */
  lemma ColonFields(m: string, s: string)
    requires |s| == 2
    ensures var r := m + ":" + s;
      && |r| == |m| + 3 && r[|r| - 3] == ':' && r[..|r| - 3] == m && r[|r| - 2..] == s
  {
    var r := m + ":" + s;
    assert r[..|m|] == m;
    assert r[|m| + 1..] == s;
  }

  /** Reading `mm:ss` text back into seconds. */
  function ParseMmss(s: string): Option<nat> {
    match SplitOnce(s, ':')
    case None => None
    case Some((m, sec)) =>
      if m != [] && sec != [] && AllDigits(m) && AllDigits(sec) then Some(Value(m) * 60 + Value(sec))
      else None
  }

  lemma {:induction false} MmssRoundTrip(duration: nat)
    ensures ParseMmss(FormatMmss(duration)) == Some(duration)
  {
    var m, s := Pad2(duration / 60), Pad2(duration % 60);
    assert FormatMmss(duration) == m + ":" + s;
    ParseMmssJoin(m, s);
    MinutesSeconds(duration);
  }

  lemma {:induction false} ParseMmssJoin(m: string, s: string)
    requires m != [] && s != [] && AllDigits(m) && AllDigits(s)
    ensures ParseMmss(m + ":" + s) == Some(Value(m) * 60 + Value(s))
  {
    DigitsHoldNoSeparator(m);
    SplitOnceJoin(m, ':', s);
  }

  /** Every `mm:ss` text with two-digit seconds below 60 and minutes that
      are zero-padded to two digits and carry no further leading zero is
      the formatting of the seconds it denotes. */
  lemma {:induction false} MmssUnique(m: string, sec: string)
    requires AllDigits(m) && |m| >= 2 && (|m| > 2 ==> m[0] != '0')
    requires AllDigits(sec) && |sec| == 2 && Value(sec) < 60
    ensures FormatMmss(Value(m) * 60 + Value(sec)) == m + ":" + sec
  {
    assert Pad2(Value(m)) == m by { Pad2Unique(m); }
    assert Pad2(Value(sec)) == sec by { Pad2Unique(sec); }
    MmssOf(Value(m), Value(sec), m, sec);
  }

  lemma {:induction false} MmssOf(mins: nat, secs: nat, m: string, sec: string)
    requires secs < 60 && Pad2(mins) == m && Pad2(secs) == sec
    ensures FormatMmss(mins * 60 + secs) == m + ":" + sec
  {
    DivMod60(mins, secs);
  }

  lemma DivMod60(q: nat, r: nat)
    requires r < 60
    ensures (q * 60 + r) / 60 == q && (q * 60 + r) % 60 == r
  {
  }
}
