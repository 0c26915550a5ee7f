/** The pure part of `YouTubeClient`: reading the playlist feed's entries,
    normalising the chosen entry into a `YouTubeVideo`, and the content
    type of a downloaded image. HTTP, the feed parser and the random choice
    are outside the model: the entries and the chosen index are parameters. */
module YouTubeClient {
  import opened Chars
  import opened Results
  import opened Text

  /** A feed entry as the feed parser returns it: its string fields by name,
      and its `authors` list when the entry has one (each author again a
      dictionary of strings). */
  datatype Entry = Entry(fields: map<string, string>, authors: Option<seq<map<string, string>>>)

  /** `YouTubeVideo`. */
  datatype Video = Video(videoId: string, channelName: string, title: string, url: string, thumbnailUrl: string)

  /** The exceptions the client raises. `MissingEntryId` is the
      `AttributeError` of calling `split` on a missing `id`. */
  datatype FeedError =
    | EmptyPlaylist(feedUrl: string)
    | MissingEntryId
    | InvalidEntry

  const FeedPrefix: string := "https://www.youtube.com/feeds/videos.xml?playlist_id="
  const ThumbPrefix: string := "https://i.ytimg.com/vi/"
  const ThumbSuffix: string := "/hqdefault.jpg"
  const UnknownChannel: string := "Unknown"
  const DefaultContentType: string := "image/jpeg"

  // ---------------------------------------------------------------------
  // URLs
  // ---------------------------------------------------------------------

  /** The playlist's RSS feed address. */
  function FeedUrl(playlistId: string): (r: string)
    ensures StartsWith(r, FeedPrefix) && r[|FeedPrefix|..] == playlistId
  {
    FeedPrefix + playlistId
  }

  /** Reading the playlist id back out of a feed address. */
  function FeedPlaylistId(url: string): Option<string> {
    if StartsWith(url, FeedPrefix) then Some(url[|FeedPrefix|..]) else None
  }

  lemma FeedUrlRoundTrip(playlistId: string, url: string)
    ensures FeedPlaylistId(FeedUrl(playlistId)) == Some(playlistId)
    ensures FeedPlaylistId(url) == Some(playlistId) ==> FeedUrl(playlistId) == url
  {
    if FeedPlaylistId(url) == Some(playlistId) {
      assert url == url[..|FeedPrefix|] + url[|FeedPrefix|..];
    }
  }

  /** The high-quality thumbnail address of a video. */
  function ThumbnailUrl(videoId: string): (r: string)
    ensures |r| == |ThumbPrefix| + |videoId| + |ThumbSuffix|
    ensures StartsWith(r, ThumbPrefix) && r[|ThumbPrefix|..|r| - |ThumbSuffix|] == videoId
    ensures r[|r| - |ThumbSuffix|..] == ThumbSuffix
  {
    var r := ThumbPrefix + videoId + ThumbSuffix;
    assert r[..|ThumbPrefix|] == ThumbPrefix;
    assert r[|ThumbPrefix|..|r| - |ThumbSuffix|] == videoId;
    r
  }

  /** Reading the video id back out of a thumbnail address. */
  function ThumbnailVideoId(url: string): Option<string> {
    if |url| >= |ThumbPrefix| + |ThumbSuffix| && StartsWith(url, ThumbPrefix)
       && url[|url| - |ThumbSuffix|..] == ThumbSuffix
    then Some(url[|ThumbPrefix|..|url| - |ThumbSuffix|])
    else None
  }

  lemma ThumbnailUrlRoundTrip(videoId: string, url: string)
    ensures ThumbnailVideoId(ThumbnailUrl(videoId)) == Some(videoId)
    ensures ThumbnailVideoId(url) == Some(videoId) ==> ThumbnailUrl(videoId) == url
  {
    if ThumbnailVideoId(url) == Some(videoId) {
      var p, q := |ThumbPrefix|, |url| - |ThumbSuffix|;
      assert url == url[..p] + url[p..q] + url[q..];
    }
  }

  // ---------------------------------------------------------------------
  // Fetching and normalising an entry
  // ---------------------------------------------------------------------

  /** `fetch_playlist_entries` after the download and parse: an empty feed
      is an error naming the feed address. */
  function CheckEntries(playlistId: string, entries: seq<Entry>): (r: Result<seq<Entry>, FeedError>)
    ensures r.Ok? <==> |entries| > 0
    ensures r.Ok? ==> r.value == entries
    ensures r.Err? ==> r.error == EmptyPlaylist(FeedUrl(playlistId))
  {
    if |entries| == 0 then Err(EmptyPlaylist(FeedUrl(playlistId))) else Ok(entries)
  }

  /** `entry.get("yt:videoId") or entry.get("id").split(":")[-1]`: a
      non-empty `yt:videoId` wins; otherwise the part of `id` after its last
      colon. Without `id` the source fails calling `split` on `None`. */
  function VideoIdOf(e: Entry): (r: Result<string, FeedError>)
    ensures r.Ok? && ':' in r.value ==> "yt:videoId" in e.fields && r.value == e.fields["yt:videoId"]
    ensures r.Err? <==> ("yt:videoId" !in e.fields || e.fields["yt:videoId"] == []) && "id" !in e.fields
  {
    var v := Get(e.fields, "yt:videoId").GetOr([]);
    if v != [] then Ok(v)
    else
      match Get(e.fields, "id")
      case None => Err(MissingEntryId)
      case Some(id) => Ok(LastSegment(id, ':'))
  }

  /** A non-empty `yt:videoId` is the video id. */
  lemma VideoIdPreferred(e: Entry, v: string)
    requires "yt:videoId" in e.fields && e.fields["yt:videoId"] == v && v != []
    ensures VideoIdOf(e) == Ok(v)
  {
  }

  /** Otherwise the id is what follows the last colon of `id`, or all of
      `id` when it has no colon. */
  lemma VideoIdFallback(e: Entry, prefix: string, v: string)
    requires "yt:videoId" !in e.fields || e.fields["yt:videoId"] == []
    requires ':' !in v
    ensures "id" in e.fields && e.fields["id"] == prefix + ":" + v ==> VideoIdOf(e) == Ok(v)
    ensures "id" in e.fields && e.fields["id"] == v ==> VideoIdOf(e) == Ok(v)
  {
    LastSegmentAfter(prefix, ':', v);
    LastSegmentWhole(v, ':');
  }

  /** The channel name before stripping: the `author` field whenever the
      entry has one (even an empty one), else the first author's `name`
      (defaulting to `Unknown`) when the authors list is non-empty, else
      `Unknown`. */
  function ChannelName(e: Entry): (r: string)
    ensures "author" in e.fields ==> r == e.fields["author"]
  {
    if "author" in e.fields then e.fields["author"]
    else if e.authors.Some? && |e.authors.value| > 0 then
      Get(e.authors.value[0], "name").GetOr(UnknownChannel)
    else UnknownChannel
  }

  /** The checks and derivations `pick_random_entry` applies to the chosen
      entry: it must have a video id, a title and a link, all non-empty;
      the thumbnail address is derived from the id and the channel name is
      stripped. */
  function Normalise(e: Entry): (r: Result<Video, FeedError>)
    ensures r.Ok? ==> r.value.videoId != [] && r.value.title != [] && r.value.url != []
    ensures r.Ok? ==> r.value.thumbnailUrl == ThumbnailUrl(r.value.videoId)
    ensures r.Ok? ==> Stripped(r.value.channelName)
    ensures r.Ok? <==> && VideoIdOf(e).Ok? && VideoIdOf(e).value != []
                       && Get(e.fields, "title").GetOr([]) != [] && Get(e.fields, "link").GetOr([]) != []
    ensures r.Ok? ==> r.value == Video(VideoIdOf(e).value, Strip(ChannelName(e)), e.fields["title"],
                                       e.fields["link"], ThumbnailUrl(VideoIdOf(e).value))
    ensures VideoIdOf(e).Err? ==> r == Err(MissingEntryId)
    ensures VideoIdOf(e).Ok? && r.Err? ==> r == Err(InvalidEntry)
  {
    match VideoIdOf(e)
    case Err(err) => Err(err)
    case Ok(videoId) =>
      var title := Get(e.fields, "title").GetOr([]);
      var url := Get(e.fields, "link").GetOr([]);
      if videoId == [] || title == [] || url == [] then Err(InvalidEntry)
      else Ok(Video(videoId, Strip(ChannelName(e)), title, url, ThumbnailUrl(videoId)))
  }

  /** `pick_random_entry`, with the random choice as the index `choice`
      into the fetched entries. */
  function PickEntry(playlistId: string, entries: seq<Entry>, choice: nat): (r: Result<Video, FeedError>)
    requires |entries| == 0 || choice < |entries|
    ensures |entries| == 0 ==> r == Err(EmptyPlaylist(FeedUrl(playlistId)))
    ensures |entries| > 0 ==> r == Normalise(entries[choice])
  {
    match CheckEntries(playlistId, entries)
    case Err(err) => Err(err)
    case Ok(es) => Normalise(es[choice])
  }

  /** A well-formed entry becomes the video it describes. */
  lemma NormaliseWellFormed(e: Entry, v: string, title: string, link: string)
    requires var f := e.fields;
      && "yt:videoId" in f && f["yt:videoId"] == v && v != []
      && "title" in f && f["title"] == title && title != []
      && "link" in f && f["link"] == link && link != []
    ensures Normalise(e) == Ok(Video(v, Strip(ChannelName(e)), title, link, ThumbnailUrl(v)))
  {
    VideoIdPreferred(e, v);
    assert Get(e.fields, "title").GetOr([]) == title;
    assert Get(e.fields, "link").GetOr([]) == link;
  }

  /** Without a `yt:videoId` the id after the last colon of `id` is used. */
  lemma NormaliseFromId(e: Entry, prefix: string, v: string, title: string, link: string)
    requires var f := e.fields;
      && ("yt:videoId" !in f || f["yt:videoId"] == [])
      && "id" in f && f["id"] == prefix + ":" + v && ':' !in v && v != []
      && "title" in f && f["title"] == title && title != []
      && "link" in f && f["link"] == link && link != []
    ensures Normalise(e) == Ok(Video(v, Strip(ChannelName(e)), title, link, ThumbnailUrl(v)))
  {
    VideoIdFallback(e, prefix, v);
  }

  /** An entry missing its title or link, or whose id comes out empty, is
      rejected. */
  lemma NormaliseRejects(e: Entry)
    requires var f := e.fields;
      || "title" !in f || f["title"] == []
      || "link" !in f || f["link"] == []
      || VideoIdOf(e) == Ok([])
    ensures Normalise(e).Err?
  {
  }

  /** The channel name comes from the `author` field whenever there is one,
      even when it is empty or blank. */
  lemma ChannelFromAuthor(e: Entry, author: string)
    requires "author" in e.fields && e.fields["author"] == author
    ensures Strip(ChannelName(e)) == Strip(author)
  {
  }

  /** Without an `author` field it is the first author's name, `Unknown`
      if that author has none. */
  lemma ChannelFromAuthors(e: Entry, first: map<string, string>, rest: seq<map<string, string>>)
    requires "author" !in e.fields && e.authors == Some([first] + rest)
    ensures "name" in first ==> ChannelName(e) == first["name"]
    ensures "name" !in first ==> ChannelName(e) == UnknownChannel
  {
  }

  /** With neither, the channel is `Unknown`. */
  lemma ChannelUnknown(e: Entry)
    requires "author" !in e.fields && (e.authors == None || e.authors == Some([]))
    ensures Strip(ChannelName(e)) == UnknownChannel
  {
    assert ChannelName(e) == UnknownChannel;
    StripStripped(UnknownChannel);
  }

  // ---------------------------------------------------------------------
  // Content type of a downloaded image
  // ---------------------------------------------------------------------

  /** `s.split(";")[0]`: the text before the first `;`, or all of `s`. */
  function BeforeSemicolon(s: string): (r: string)
    ensures ';' !in r
    ensures |r| <= |s| && r == s[..|r|]
    ensures |r| < |s| ==> s[|r|] == ';'
  {
    match SplitOnce(s, ';')
    case None => s
    case Some((a, _)) => a
  }

  /** The media type of an image response, from its `Content-Type` header
      (absent as `None`): the part before any parameters, stripped and
      lower-cased, or `image/jpeg` when that is empty. */
  function ContentType(header: Option<string>): (r: string)
    ensures r != [] && ';' !in r
    ensures forall i :: 0 <= i < |r| ==> !IsUpper(r[i])
  {
    var t := Strip(BeforeSemicolon(header.GetOr([])));
    if t == [] then
      DefaultContentTypeShape();
      DefaultContentType
    else
      StripKeepsAbsent(BeforeSemicolon(header.GetOr([])), ';');
      LowerKeeps(t, ';');
      LowerHasNoUpper(t);
      Lower(t)
  }

  lemma DefaultContentTypeShape()
    ensures DefaultContentType != [] && ';' !in DefaultContentType
    ensures forall i :: 0 <= i < |DefaultContentType| ==> !IsUpper(DefaultContentType[i])
  {
    var a, b := "image", "jpeg";
    assert ';' !in a && ';' !in b;
    assert forall i :: 0 <= i < |a| ==> !IsUpper(a[i]);
    assert forall i :: 0 <= i < |b| ==> !IsUpper(b[i]);
    assert DefaultContentType == a + "/" + b;
  }

  /** A header `type; params`, with any whitespace around the type, gives
      the lower-cased type. */
  lemma ContentTypeOfHeader(ws1: string, mime: string, ws2: string, params: string)
    requires AllSpace(ws1) && AllSpace(ws2) && mime != [] && Stripped(mime)
    requires ';' !in ws1 + mime + ws2
    ensures ContentType(Some(ws1 + mime + ws2 + ";" + params)) == Lower(mime)
    ensures ContentType(Some(ws1 + mime + ws2)) == Lower(mime)
  {
    var head := ws1 + mime + ws2;
    SplitOnceJoin(head, ';', params);
    assert head + ";" + params == head + [';'] + params;
    BeforeSemicolonWhole(head);
    StripAround(ws1, mime, ws2);
  }

  lemma BeforeSemicolonWhole(s: string)
    requires ';' !in s
    ensures BeforeSemicolon(s) == s
  {
  }

  /** A missing or blank header gives `image/jpeg`. */
  lemma ContentTypeDefault(header: Option<string>)
    requires header == None || AllSpace(BeforeSemicolon(header.value))
    ensures ContentType(header) == DefaultContentType
  {
    StripEmpty(BeforeSemicolon(header.GetOr([])));
  }
}
