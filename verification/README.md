# profile-music-widget, modelled in Dafny

The widget puts a "now playing" card on a GitHub profile. It reads its settings
from a comment block in the profile README and picks a random video from a
YouTube playlist feed. It cuts a ten-second GIF from that video and fills an
SVG template with the title, the links, the play times and a scrolling or
static title. This project models the pure logic of the four tools that do
this work:

- `tools/render_svg.py`, in modules `TextWidth`, `Marquee`, `XmlEscape` and
  `SvgRenderer`:
  - the per-character width estimate;
  - the scroll/static decision at 372 pixels;
  - the marquee geometry and its two-decimal duration;
  - marker-delimited block removal;
  - the fixed chain of escaped placeholder replacements.
- `tools/load_config.py`, in module `ConfigLoader`:
  - selecting the first `<!-- … -->` comment that has a `YT_MUSIC_CONFIG`
    line;
  - the `key: value` lines, with lower-cased keys where the last duplicate
    wins;
  - the theme default;
  - the playlist id check.
- `tools/youtube_client.py`, in module `YouTubeClient`:
  - the feed address;
  - the empty-feed error;
  - the video id fallback and the required fields;
  - the thumbnail address and the channel-name chain;
  - the `Content-Type` normalisation.
- `tools/media_client.py`, in module `MediaClient`:
  - the clip start and the `*START-END` section argument;
  - the watch address;
  - the `mm:ss` duration text.

Shared modules:

- `Results` holds `Option`, `Result` (an `Err` stands for an exception the tool raises) and `dict.get`.
- `Chars` holds Python's character classes and `str.lower`.
- `Text` holds `str.strip`, `str.find`, `in`, global `str.replace`, `str.split`, `str.splitlines` and `str.partition`-style splitting.
- `Decimal` holds `str(n)`, `02d` and `.2f`, with the digit reading that inverts them.

Everything is a pure function over `seq<char>` and unbounded integers. The
marquee duration is an exact `real`. Width weights are kept exactly, in
hundredths of the font size.

Notes on behaviour:

- Block removal uses the first start marker and the first end marker
  independently. If the end marker comes first, the text between them is
  duplicated and both markers stay (`SvgRenderer.RemoveBlockReversed`).
  That is why `SvgRenderer.Render` bounds the number of `<` and `>` by twice
  the template's, and `SvgRenderer.RenderCount` by the template's own only
  when the markers are in order.
- The seven replacements run one after another over the whole text. A value
  inserted by an earlier step is therefore scanned by the later steps: a
  `{{URL}}` inside the title shows the URL (`SvgRenderer.TitleRescanned`).
- A present but empty `author` field gives an empty channel name. The
  fallback to `authors` or `"Unknown"` applies only when the key is missing.
- The class docstring of `ConfigLoader` shows a block tagged `YT_CONFIG`, but
  the code looks for `YT_MUSIC_CONFIG`. The model follows the code, and
  `ConfigLoader.DocstringExampleRejected` proves that the docstring's own
  example is rejected.
- The `.2f` text of the marquee duration is modelled exactly: round half up
  of 100 × duration. For an unclamped duration `gap / 55` the value is never a
  tie (`Marquee.DurationCentisClosedForm`), so binary floating point cannot
  change the digits.

## Model

| member | source | states |
|---|---|---|
| `XmlEscape.Escape` | tools/render_svg.py:3 | The escaped text holds no `<` and no `>`, and reading the three entities back gives the input. |
| `XmlEscape.EscapeIsEscapeEach` | tools/render_svg.py:3 | The chain "replace `&`, then `>`, then `<`" is the same as rewriting each character on its own: `&`, `<` and `>` become entities and every other character is kept. |
| `XmlEscape.EscapePlainText` | tools/render_svg.py:3 | Text with no `&`, `<` or `>`, quotes included, comes through escaping unchanged. |
| `XmlEscape.AmpersandLastDoubleEscapes` | tools/render_svg.py:3 | Escaping `&` last would turn `<` into `&amp;lt;`. The order used gives `&lt;`. |
| `XmlEscape.EscapeChars` | tools/render_svg.py:3 | Escaping brings in no character except those of the three entity references. |
| `TextWidth.Weight` | tools/render_svg.py:80-89 | Every character weighs between 0.33 and 1.0 font sizes. The definition keeps the source's check order (whitespace, code point U+1100 or above, upper case, lower case or digit, anything else) and its five weights, in hundredths. |
| `TextWidth.EstimateTextWidth` | tools/render_svg.py:75-91 | The accumulating loop returns the floor of the summed weights times the font size, between 0.33 and 1.0 font sizes per character. |
| `TextWidth.TotalWeight` | tools/render_svg.py:76-89 | Every character weighs between 0.33 and 1.0 of the font size. |
| `TextWidth.TotalWeightConcat` | tools/render_svg.py:77-89 | The weight of a concatenation is the sum of the weights of its parts. |
| `TextWidth.WidthBounds` | tools/render_svg.py:91 | The estimate lies between 0.33 and 1.0 font sizes per character. In particular the empty title has width 0. |
| `TextWidth.WidthMonotone` | tools/render_svg.py:75-91 | Extending a text never makes its estimate smaller. |
| `TextWidth.WidthAppendChar` | tools/render_svg.py:75-91 | Appending one character never makes the estimate smaller. |
| `Marquee.ComputeMarqueeParams` | tools/render_svg.py:53-64 | The gap is at least 520 and at least width + 70, and equals one of them. The second copy sits at gap + 160. The duration is in [10, 28] and equals gap / 55 exactly when 550 ≤ gap ≤ 1540. |
| `Marquee.MarqueeMonotone` | tools/render_svg.py:53-58 | A longer title never gets a smaller gap, offset or duration. |
| `Marquee.RoundCentis` | tools/render_svg.py:37 | The result is the whole number of hundredths nearest to the duration. |
| `Marquee.DurationText` | tools/render_svg.py:37 | The text is the whole part without leading zeros, a `.` and exactly two decimals, and it reads back to within half a hundredth of the duration. |
| `Marquee.DurationCentisClosedForm` | tools/render_svg.py:37 | For a duration `gap / 55` the shown hundredths are `floor((40 gap + 11) / 22)`, and the rounding is never a tie. |
| `SvgRenderer.UsesFlow` | tools/render_svg.py:30-31 | Definition: the title scrolls when its estimated width at 18 pixels exceeds 372. `SvgRenderer.LayoutByLength` bounds it by length. |
| `SvgRenderer.LayoutByLength` | tools/render_svg.py:25-31 | Titles of at most 20 characters never scroll. Titles of 63 or more always do. |
| `SvgRenderer.MarkerShape` | tools/render_svg.py:68-69 | A marker `<!-- NAME -->` starts with its only `<`, ends with `>`, and holds no `{` and no digit. |
| `SvgRenderer.RemoveBlock` | tools/render_svg.py:66-72 | If either marker is missing, the text is returned unchanged. The result never holds a character the input lacked. |
| `SvgRenderer.RemoveBlockExcises` | tools/render_svg.py:66-72 | With the first start marker before the first end marker, both markers and everything between them are removed and the rest is kept. |
| `SvgRenderer.RemoveBlockReversed` | tools/render_svg.py:66-72 | With the end marker first, the text between the markers appears twice and both markers stay. |
| `SvgRenderer.RemoveBlockCount` | tools/render_svg.py:66-72 | Block removal at most doubles the number of any character, and never increases it when the start marker comes first. |
| `SvgRenderer.FillNumbers` | tools/render_svg.py:35-37 | Definition: the three number placeholders replaced in order. `SvgRenderer.FillNumbersKeepsAbsent`, `SvgRenderer.FillNumbersCount` and `SvgRenderer.UnknownNumberKept` characterise it. |
| `SvgRenderer.FillMarquee` | tools/render_svg.py:33-37 | Definition: `FillNumbers` with the marquee geometry of the title. `SvgRenderer.FillMarqueeValues` gives the three texts. |
| `SvgRenderer.NumberTexts` | tools/render_svg.py:35-37 | The three marquee numbers are written with digits and `.` only. |
| `SvgRenderer.FillMarqueeValues` | tools/render_svg.py:33-37 | `{{TITLE_X2}}`, `{{MARQUEE_DX}}` and `{{MARQUEE_DUR}}` become `str(gap + 160)`, `str(gap)` and the two-decimal duration. |
| `SvgRenderer.FillNumbersKeepsAbsent` | tools/render_svg.py:35-39 | Filling in the numbers never creates a block marker that was not there. |
| `SvgRenderer.FillNumbersCount` | tools/render_svg.py:35-37 | Filling in digit-and-`.` numbers keeps the number of `<` and of `>` exactly. |
| `SvgRenderer.UnknownNumberKept` | tools/render_svg.py:35-37 | A `{{NAME}}` placeholder other than the three numbers is kept verbatim, and the text on each side is filled on its own. |
| `SvgRenderer.ApplyLayout` | tools/render_svg.py:30-41 | The layout step brings in no character other than digits and `.`, and at most doubles the number of `<` and of `>`. |
| `SvgRenderer.LayoutCount` | tools/render_svg.py:30-41 | In either layout, the number of `<` and of `>` at most doubles, and does not grow when the block's markers are in order. |
| `SvgRenderer.EscapeContext` | tools/render_svg.py:43-49 | Each of the seven values is escaped: it holds no `<` or `>`, and unescaping gives the original value. |
| `SvgRenderer.SubstituteValues` | tools/render_svg.py:43-49 | Definition: the seven value placeholders replaced in order with already escaped values. It is characterised by `SvgRenderer.SubstituteValuesPlain`, `SvgRenderer.SubstituteValuesCount` and `SvgRenderer.UnknownPlaceholderKept`. |
| `SvgRenderer.Substitute` | tools/render_svg.py:43-49 | Definition: `SubstituteValues` with every value escaped first. `SvgRenderer.TitleSubstituted`, `SvgRenderer.TitleRescanned` and `SvgRenderer.ChannelNameSubstituted` characterise it. |
| `SvgRenderer.SubstituteValuesChars` | tools/render_svg.py:43-49 | If no value holds a character, the replacements cannot bring it in. |
| `SvgRenderer.SubstituteValuesCount` | tools/render_svg.py:43-49 | With values free of `<` and `>`, the seven replacements keep the number of `<` and of `>` exactly. |
| `SvgRenderer.UnknownPlaceholderKept` | tools/render_svg.py:43-49 | A `{{NAME}}` placeholder other than the seven value names is kept verbatim, and the text on each side is substituted on its own. |
| `SvgRenderer.Render` | tools/render_svg.py:27-51 | The output has exactly as many `<`, and as many `>`, as the template after the layout step, so no context value can inject markup. That is at most twice the template's count. |
| `SvgRenderer.RenderCount` | tools/render_svg.py:27-51 | When the removed block's markers are in order, the output has no more `<`, and no more `>`, than the template. |
| `SvgRenderer.RenderStatic` | tools/render_svg.py:40-49 | For a title that fits, the scrolling block is cut out and the rest is substituted. |
| `SvgRenderer.RenderFlow` | tools/render_svg.py:32-49 | For a title that scrolls, the marquee numbers are filled in first, then the static block is cut out, then the rest is substituted. |
| `SvgRenderer.RenderPlain` | tools/render_svg.py:27-51 | A template with no `{` and no block markers renders to itself. |
| `SvgRenderer.SubstituteValuesPlain` | tools/render_svg.py:43-49 | Text without `{` is not changed by the seven replacements. |
| `SvgRenderer.TitleSubstituted` | tools/render_svg.py:43 | `{{TITLE}}` becomes the escaped title when the title holds no `{`. |
| `SvgRenderer.TitleRescanned` | tools/render_svg.py:43-44 | A `{{URL}}` inside a title (with no other `{` in the title or the URL) is shown as the escaped URL, between the escaped rest of the title, because the URL step runs after the title step. |
| `SvgRenderer.ChannelNameSubstituted` | tools/render_svg.py:49 | `{{CHANNEL_NAME}}` is replaced last, so it always becomes the escaped channel name. |
| `Text.Replace` | tools/render_svg.py:35-49 | Definition of global `str.replace`, scanning left to right. `Text.ReplaceIsJoinOfSplit` gives the independent characterisation. |
| `Text.ReplaceIsJoinOfSplit` | tools/render_svg.py:35 | Global `str.replace` is splitting at the pattern and joining with the replacement: non-overlapping, left to right, no rescanning. |
| `Text.ReplaceAbsent` | tools/render_svg.py:43-49 | A pattern that does not occur leaves the text unchanged. |
| `Text.ReplaceConcat` | tools/render_svg.py:43-49 | When no occurrence straddles the seam, replacing in a concatenation replaces in each part. |
| `Text.ReplaceSplitAt` | tools/render_svg.py:35-49 | When no occurrence of the pattern straddles the seam, replacing in `a + b` is replacing in `a`, then in `b`. |
| `Text.ReplaceCount` | tools/render_svg.py:35-49 | A character in neither the pattern nor the replacement occurs as often after replacing as before. |
| `Text.ReplaceKeepsAbsent` | tools/render_svg.py:35-37 | For a non-empty pattern, replacement and text `q`: if the first character of `q` is not in the replacement and the first character of the replacement is not in `q`, replacing never creates an occurrence of `q`. |
| `Text.IndexOf` | tools/render_svg.py:71 | `str.index` finds the first occurrence; no earlier position matches; and if nothing is found, there is no occurrence anywhere. |
| `Text.Split` | tools/load_config.py:31 | The parts joined with the separator give the input back, and no part holds the separator. |
| `Text.LastSegment` | tools/youtube_client.py:45 | `split(":")[-1]` is the suffix after the last `:`, and it holds no `:`. |
| `Text.LastSegmentAfter` | tools/youtube_client.py:45 | After `a + ":" + b`, where `b` holds no `:`, the last segment is `b`. |
| `Text.SplitOnce` | tools/youtube_client.py:74 | The text splits at its first separator, and there is no split exactly when the separator is absent. |
| `Text.SplitOnceJoin` | tools/youtube_client.py:74 | Splitting `a + sep + b` at its first separator, where `a` lacks it, gives back `a` and `b`. |
| `Text.SplitCharCons` | tools/load_config.py:31 | Splitting `a + c + b` at the one-character separator `c`, where `a` lacks `c`, gives `a` followed by the split of `b`. |
| `Text.SplitLines` | tools/load_config.py:46 | No line holds a line boundary, and only the empty text has no lines. |
| `Text.SplitLinesSingle` | tools/load_config.py:46 | Non-empty text without a line boundary is one line. |
| `Text.SplitLinesCons` | tools/load_config.py:46 | `a + "\n" + b`, with `a` free of line boundaries, splits into `a` followed by the lines of `b`. |
| `Text.SplitLinesCrLf` | tools/load_config.py:46 | `\r\n` ends one line, just as `\n` does. |
| `Text.Strip` | tools/load_config.py:30 | `str.strip` leaves no whitespace at either end. |
| `Text.StripBounds` | tools/load_config.py:47 | The stripped text is a slice of the input with only whitespace cut away on either side. |
| `Text.StripEmpty` | tools/load_config.py:48 | Stripping gives the empty text exactly when the input is all whitespace. |
| `Text.StripAround` | tools/load_config.py:55 | Stripping text padded with whitespace gives the text back. |
| `Text.StripStripped` | tools/load_config.py:57-58 | Stripping is idempotent on stripped text. |
| `Chars.IsSpace` | tools/load_config.py:47 | Definition: Python's whitespace characters, as `str.strip` and `str.isspace` use them. |
| `Chars.IsUpper` | tools/render_svg.py:84 | Definition: `str.isupper` for one character, on ASCII and Latin-1. |
| `Chars.IsLower` | tools/render_svg.py:86 | Definition: `str.islower` for one character, on ASCII and Latin-1, the ordinal indicators and the micro sign included. |
| `Chars.IsDigit` | tools/render_svg.py:86 | Definition: `str.isdigit` for one character, on ASCII and the Latin-1 superscript digits. |
| `Chars.ToLower` | tools/load_config.py:55 | An upper-case letter becomes the lower-case letter 32 code points up. Every other character is kept. |
| `Chars.Lower` | tools/load_config.py:55 | `str.lower` keeps the length and lower-cases every upper-case letter in place. |
| `Chars.LowerKeeps` | tools/youtube_client.py:74 | Lower-casing introduces no character that is not a lower-case letter. |
| `Results.Get` | tools/load_config.py:57-58 | `dict.get`: a value exactly when the key is present, and then the key's value. |
| `Decimal.Dec` | tools/render_svg.py:35-36 | `str(n)` is digits with no leading zero (except `0` itself), and it reads back as `n`. |
| `Decimal.DecUnique` | tools/render_svg.py:35-36 | Every digit string without a leading zero is `str` of its value, so `str(n)` is the only such text for `n`. |
| `Decimal.DecLength` | tools/render_svg.py:35-36 | `str(n)` has one digit below 10, two below 100, and at least three otherwise. |
| `Decimal.Pad2` | tools/media_client.py:68 | `02d` is digits reading back as `n`, at least two long, exactly two long when `n < 100`, and with no leading zero when longer. |
| `Decimal.Pad2Unique` | tools/media_client.py:68 | Every digit string at least two long, without a leading zero when longer, is `02d` of its value. |
| `Decimal.Fixed2` | tools/render_svg.py:37 | `.2f` of a value in hundredths is a whole part without leading zeros, `.` and two digits, and it reads back as the same number of hundredths. |
| `Decimal.Fixed2Unique` | tools/render_svg.py:37 | Every whole part without leading zeros, `.` and two digits is `.2f` of the value it reads as. |
| `ConfigLoader.HasTagLine` | tools/load_config.py:31 | Definition: some `\n`-separated line of the body is the tag up to whitespace. `ConfigLoader.TagLineInIff` states it line by line. |
| `ConfigLoader.TagLineInIff` | tools/load_config.py:31 | The tag search succeeds exactly when some line of the body strips to `YT_MUSIC_CONFIG`. |
| `ConfigLoader.NextComment` | tools/load_config.py:29 | The comment search always moves forward, so the scan ends. |
| `ConfigLoader.FindConfigBlock` | tools/load_config.py:29-34 | A selected block is stripped and has a tag line. |
| `ConfigLoader.FirstComment` | tools/load_config.py:29 | The first comment is the text from the first `<!--` to the first `-->` after it: the match is non-greedy and spans lines. |
| `ConfigLoader.SkipUntaggedComment` | tools/load_config.py:29-34 | A comment without a tag line is skipped, and the search continues after it. |
| `ConfigLoader.SelectTaggedComment` | tools/load_config.py:29-33 | The first comment with a tag line is selected, stripped. |
| `ConfigLoader.LaterTextIgnored` | tools/load_config.py:29-34 | Once a block is found, appending text changes nothing: later matching blocks are ignored. |
| `ConfigLoader.UntaggedCommentRejected` | tools/load_config.py:29-43 | A README that is one comment, whose body has no `-->` and no tag line, fails with the missing-block error. |
| `ConfigLoader.MissingTagChar` | tools/load_config.py:31 | A body that lacks some character of the tag has no tag line. |
| `ConfigLoader.DocstringExampleRejected` | tools/load_config.py:15-23 | The docstring's example block, tagged `YT_CONFIG`, is rejected by the code, which looks for `YT_MUSIC_CONFIG`. |
| `ConfigLoader.IdentSpan` | tools/load_config.py:53 | It is the longest prefix of identifier characters. |
| `ConfigLoader.AfterColon` | tools/load_config.py:53 | After optional whitespace and a `:`, at least one character remains. |
| `ConfigLoader.KeyValue` | tools/load_config.py:53-55 | A matched value is stripped. A line without `:` never matches. |
| `ConfigLoader.KeyValueRoundTrip` | tools/load_config.py:53-55 | `key ws : ws value` parses to the lower-cased key and the value, even when the value holds `:`. |
| `ConfigLoader.KeyValueShape` | tools/load_config.py:53-55 | Every line that matches has that shape: an identifier, whitespace, `:`, and a non-empty rest whose strip is the value. |
| `ConfigLoader.LineEntry` | tools/load_config.py:46-55 | Blank lines, `#` lines and the tag line give no entry. Every entry's value is stripped. |
| `ConfigLoader.Entries` | tools/load_config.py:46-55 | There is one entry per block line, in order, and each is what `LineEntry` gives for that line. |
| `ConfigLoader.Collect` | tools/load_config.py:45-55 | The keys are exactly the keys of the entries, and each key holds the value of its last entry. |
| `ConfigLoader.IsPlaylistId` | tools/load_config.py:66 | Definition: one or more ASCII letters, digits, `_` or `-`, and nothing else. |
| `ConfigLoader.Settings` | tools/load_config.py:57-72 | Success exactly when the stripped `playlist_id` is one or more ASCII letters, digits, `_` or `-`. An empty or missing id is its own error. Any other id is rejected and named. |
| `ConfigLoader.FromMarkdown` | tools/load_config.py:26-72 | The missing-block error occurs exactly when no comment has a tag line. A success has a valid playlist id. |
| `ConfigLoader.ThemeFromLastLine` | tools/load_config.py:55-57 | The theme is the value of the last `theme` line. |
| `ConfigLoader.ThemeDefault` | tools/load_config.py:24 | Without a `theme` line the theme is `default.svg`. |
| `ConfigLoader.PlaylistIdFromLastLine` | tools/load_config.py:58-72 | The last `playlist_id` line decides the outcome: a valid value is returned, an invalid one is rejected and named, an empty one is missing. |
| `ConfigLoader.PlaylistIdMissing` | tools/load_config.py:58-64 | Without a `playlist_id` line the parser fails with the missing-id error. |
| `ConfigLoader.FromMarkdownMinimal` | tools/load_config.py:26-72 | A README that is just a comment with the tag line and a `playlist_id: id` line, for a valid id, loads as the default theme and that id. |
| `YouTubeClient.FeedUrl` | tools/youtube_client.py:22-24 | The feed address is the fixed prefix followed by the playlist id. |
| `YouTubeClient.FeedUrlRoundTrip` | tools/youtube_client.py:22-24 | The playlist id reads back out of its feed address, and only its own address reads back to it. |
| `YouTubeClient.CheckEntries` | tools/youtube_client.py:35-39 | The entries pass exactly when there is at least one. An empty feed fails and names the feed address. |
| `YouTubeClient.VideoIdOf` | tools/youtube_client.py:45 | An id containing `:` can only come from `yt:videoId`. The id is missing exactly when `yt:videoId` is missing or empty and there is no `id`. |
| `YouTubeClient.VideoIdPreferred` | tools/youtube_client.py:45 | A non-empty `yt:videoId` is the video id. |
| `YouTubeClient.VideoIdFallback` | tools/youtube_client.py:45 | Otherwise the id is the part of `id` after its last `:`, or the whole `id` when it has no `:`. |
| `YouTubeClient.ThumbnailUrl` | tools/youtube_client.py:51 | The thumbnail address is the prefix, the video id, then `/hqdefault.jpg`. |
| `YouTubeClient.ThumbnailUrlRoundTrip` | tools/youtube_client.py:51 | The video id reads back out of its thumbnail address, and only its own address reads back to it. |
| `YouTubeClient.ChannelName` | tools/youtube_client.py:52-54 | A present `author` is the channel name, even when it is empty. |
| `YouTubeClient.ChannelFromAuthor` | tools/youtube_client.py:53-54 | The channel shown is the stripped `author`. |
| `YouTubeClient.ChannelFromAuthors` | tools/youtube_client.py:55-56 | Without `author`, the first author's `name` is used, or `Unknown` when it has none. |
| `YouTubeClient.ChannelUnknown` | tools/youtube_client.py:52-56 | Without `author` and without authors, the channel is `Unknown`. |
| `YouTubeClient.Normalise` | tools/youtube_client.py:45-63 | Success exactly when the video id, title and link are present and non-empty; the video is then made of the entry's id, stripped channel name, title, link and the thumbnail of the id. A missing id and an invalid entry are distinct errors. |
| `YouTubeClient.NormaliseWellFormed` | tools/youtube_client.py:45-64 | An entry with `yt:videoId`, `title` and `link` all non-empty becomes exactly that video. |
| `YouTubeClient.NormaliseFromId` | tools/youtube_client.py:45-63 | Without a usable `yt:videoId`, an `id` of the form `prefix:v` gives the video `v`, with its thumbnail and the entry's title, link and stripped channel. |
| `YouTubeClient.NormaliseRejects` | tools/youtube_client.py:46-49 | A missing or empty title, link or video id is an error. |
| `YouTubeClient.PickEntry` | tools/youtube_client.py:41-49 | An empty feed fails. Otherwise the chosen entry is normalised. |
| `YouTubeClient.BeforeSemicolon` | tools/youtube_client.py:74 | The result is the prefix of the text up to its first `;`, or all of it when it has none. |
| `YouTubeClient.ContentType` | tools/youtube_client.py:74-76 | The content type is never empty, holds no `;` and has no upper-case letter. |
| `YouTubeClient.ContentTypeOfHeader` | tools/youtube_client.py:74 | A header `mime ; params` gives the lower-cased `mime`, with or without parameters and surrounding spaces. |
| `YouTubeClient.ContentTypeDefault` | tools/youtube_client.py:74-76 | A missing header, or one that is blank before its `;`, gives `image/jpeg`. |
| `MediaClient.ClipStart` | tools/media_client.py:6-11 | The clip starts at 20, 30, 40 or 60 seconds. |
| `MediaClient.ClipStartsCovered` | tools/media_client.py:6-11 | Every candidate start can be chosen. |
| `MediaClient.SectionArg` | tools/media_client.py:23 | The section argument starts with `*`. |
| `MediaClient.SectionRoundTrip` | tools/media_client.py:23 | The section argument reads back as the window from `start` to `start + 10`: exactly ten seconds. |
| `MediaClient.WatchUrl` | tools/media_client.py:28 | The watch address is the fixed prefix followed by the video id. |
| `MediaClient.WatchUrlRoundTrip` | tools/media_client.py:56 | The video id reads back out of its watch address, and only its own address reads back to it. |
| `MediaClient.DownloadArgs` | tools/media_client.py:17-30 | The download command has ten arguments, with the section fifth, the output path ninth and the address last. |
| `MediaClient.DownloadCommand` | tools/media_client.py:17-30 | The download command's section reads back as a ten-second window from a candidate start, and its last argument is the video's watch address. |
| `MediaClient.InfoCommand` | tools/media_client.py:56-62 | The metadata command ends with the video's watch address. |
| `MediaClient.FormatMmss` | tools/media_client.py:66-68 | The text is two zero-padded fields around `:`. Minutes × 60 + seconds is the duration, and seconds are below 60. Minutes are not capped, so the text is five characters long exactly below 6000 seconds, and a longer text has no leading zero. |
| `MediaClient.MmssRoundTrip` | tools/media_client.py:67-68 | Reading the `mm:ss` text back gives the duration. |
| `MediaClient.MmssUnique` | tools/media_client.py:66-68 | Every `m:ss` text with zero-padded fields, seconds below 60 and no leading zero on a longer minutes field, is the text of the duration it reads as. |

## Left out

- Reading the template file is left out (tools/render_svg.py:28). `Render` takes the template's text.
- `TextWidth.EstimateTextWidth` computes the exact floor of the summed weights times the font size. Python sums binary floats (`0.33`, `0.72`, …), so where the exact product is a whole number, `int()` may give one less. That drift is not modelled.
- Character classes are exact for `str.isspace` and for line boundaries. `str.isupper`, `str.islower`, `str.isdigit` and `str.lower` are modelled for ASCII and Latin-1. Other letters below U+1100 weigh 0.7 here, where Python might call them upper or lower case.
- `Text.Replace` requires a non-empty pattern. Every call site passes a non-empty literal.
- The `re` engine is not modelled. The regular expressions of the config loader are written as predicates.
  - `KeyValue` is stated for lines without `\n`. Lines from `splitlines` never hold one, so the `$` anchor's end-of-line case does not arise.
- HTTP requests, their headers and `raise_for_status`, and `feedparser` are left out. The entry list and the `Content-Type` header are inputs.
- A feed entry is a string map plus an optional list of author maps.
- When an entry has neither `yt:videoId` nor `id`, Python raises `AttributeError` on `None.split`. The model returns `MissingEntryId` for it.
- `random.choice` becomes an index parameter, both for the entry and for the clip start.
- Running `yt-dlp` and `ffmpeg`, the `ffmpeg` filter arguments, decoding the JSON, and creating and deleting files are left out. The commands are modelled as argument lists, and the output path is a parameter.
- `MediaClient.FormatMmss` takes the duration as a natural number. The `int()` conversion of the JSON value, and Python's floor `divmod` on a negative duration, are not modelled.
- Returning the image bytes (tools/youtube_client.py:78) is left out. Only the content type is modelled.
- `tools/generate_widget.py` is not part of this model. It covers:
  - orchestration;
  - the time label;
  - base64;
  - the GIF fallback;
  - writing the SVG.
- Colour placeholders are left out: no modelled file fills them.
