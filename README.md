# youtube-to-short, verified core

A Dafny model of the deterministic logic in the two YouTube servers of
youtube-to-short:

- `youtube_downloader_video.py` is the downloader. It answers `/` and
  `/download` and streams one merged file.
- `youtube_downloader_test.py` is the splitter. It answers `/`, `/split` and
  `/segment`. It cuts the download into segments of at most sixty seconds and
  crops each one to 9:16 or rotates it.

Both servers share `parse_video_id`, `get_video_info` and
`download_and_merge`, copied almost verbatim into each file. The model
defines each of them once.

Modules, one per file:

| module | file | what it models |
|---|---|---|
| `Results` | results.dfy | `Option` and `Result` |
| `Text` | text.dfy | `str(int)`, `int(str)`, `str.rstrip`, `padStart`, `str.find`/`rfind`, `split`/`join` on one character |
| `Paths` | paths.dfy | POSIX `os.path.join`, `basename`, `dirname`, `splitext` |
| `VideoId` | video_id.dfy | `parse_video_id`: three fixed patterns, searched by position |
| `Qualities` | qualities.dfy | `get_video_info`'s answer and its `sorted({...})` quality list |
| `Download` | download.dfy | `download_and_merge`: height, format selector, options, output-file choice |
| `SegmentPlan` | segment_plan.dfy | `split_and_resize`'s segment count, length and rounded boundaries |
| `SegmentFiles` | segment_files.dfy | crop rectangle, `-vf` filter, segment names, paths and transcoder runs |
| `Segmenter` | segmenter.dfy | the per-segment loop of `split_and_resize`, as a method with loop invariants |
| `PercentEncoding` | percent.dfy | `quote` (safe `/`) and `unquote` (UTF-8, `errors='replace'`) |
| `UrlParsing` | urls.dfy | `urlparse` and `parse_qs` as CPython runs them on a request target |
| `Handlers` | handlers.dfy | GET/POST dispatch of both servers and the `/split` item list |
| `Clock` | clock.dfy | `fmtTime`, the page script's `HH:MM:SS` formatter |

How outside input reaches the model:

- The extractor's answers are parameters: formats, id, title and thumbnail.
- So are the probe results, where `None` stands for a probe whose output does
  not parse.
- So are the directory state (which files exist, the listing) and the
  server's address.
- The segment loop returns the transcoder runs it would make. It does not
  run them.
- Python's `round` and `math.ceil` work on exact reals.

Behaviour of the code worth knowing:

- **Quality order.** The labels are sorted as strings, so `"1080p"`
  precedes `"480p"` (`Qualities.ExampleQualities`).
- **Output file.** When `<tmpdir>/<id>.mp4` does not exist, the fallback is
  the first listed entry. With an empty listing the result stays
  `<tmpdir>/<id>.mp4` (`Download.OutputPath`).
- **Crop width.** The width is `int(in_h * 9/16)`: true division, then
  truncation toward zero (`SegmentFiles.TruncDiv`).

## Model

| member | source | states |
|---|---|---|
| VideoId.ParseVideoId | youtube_downloader_test.py:30-37 | Success gives 11 characters from `[0-9A-Za-z_-]`: group 1 of the leftmost match of the first pattern (in the order `v=`, `youtu.be/`, `embed/`) that matches anywhere. The result is `ValueError("Invalid YouTube URL: " + url)` exactly when no pattern matches anywhere |
| VideoId.Search | youtube_downloader_test.py:34 | `re.search` for one pattern: the leftmost position that matches, or none exactly when no position matches |
| VideoId.IdAt | youtube_downloader_test.py:36 | group 1 of a match is eleven identifier characters |
| VideoId.ParseFromSpec | youtube_downloader_test.py:33-37 | the loop over the patterns meets the first-match specification once no earlier pattern matches |
| VideoId.FirstMatchUnique | youtube_downloader_test.py:33-36 | at most one (pattern, position) pair is the first match |
| VideoId.ParseVideoIdOfFirstMatch | youtube_downloader_video.py:23-27 | conversely, whenever a first match exists, the parser returns its identifier |
| VideoId.NoEndAnchor | youtube_downloader_video.py:23 | `"v=" + id + rest` gives `id` whatever follows, even a twelfth identifier character |
| VideoId.WatchParameterBeatsShortLink | youtube_downloader_test.py:32-36 | `v=` wins over a `youtu.be/` that comes earlier in the text |
| VideoId.WatchForm | youtube_downloader_test.py:239 | the `watch?v=` address gives `dQw4w9WgXcQ` (also youtube_downloader_video.py:173) |
| VideoId.ShortLinkForm | youtube_downloader_test.py:240 | the `youtu.be/` address gives `dQw4w9WgXcQ` (also youtube_downloader_video.py:174) |
| VideoId.EmbedForm | youtube_downloader_test.py:241 | the `embed/` address gives `dQw4w9WgXcQ` (also youtube_downloader_video.py:175) |
| VideoId.NotAUrl | youtube_downloader_test.py:242-243 | `"not a url"` is rejected with ValueError (also youtube_downloader_video.py:176-177) |
| Qualities.GetVideoInfo | youtube_downloader_test.py:45-50 | The title is passed through (possibly null). The thumbnail is `""` when the key is missing and null when the key holds null, and the backend is named. The qualities are strictly ascending in string order, and their elements are exactly the labels `"<h>p"` of the formats whose height is truthy |
| Qualities.SortedLabels | youtube_downloader_test.py:48 | the labels built format by format are strictly ascending and are exactly the label set |
| Qualities.Insert | youtube_downloader_test.py:48 | adding a label keeps the listing strictly ascending and adds exactly that label |
| Qualities.AscendingListingUnique | youtube_downloader_test.py:48 | two strictly ascending listings of the same set are equal, so `sorted` of the set is determined |
| Qualities.QualitiesAreSortedLabelSet | youtube_downloader_video.py:39 | the quality list equals every strictly ascending listing of the label set |
| Qualities.AscendingHasNoDuplicates | youtube_downloader_test.py:48 | the quality list has no duplicates |
| Qualities.StrLessIrreflexive | youtube_downloader_test.py:48 | no string sorts before itself |
| Qualities.StrLessTransitive | youtube_downloader_test.py:48 | Python's string order is transitive |
| Qualities.StrLessTotal | youtube_downloader_test.py:48 | any two different strings are ordered one way or the other |
| Qualities.StrLessAsymmetric | youtube_downloader_test.py:48 | two strings are never ordered both ways |
| Qualities.ExampleQualities | youtube_downloader_test.py:48 | heights 720, 480, none, 720, 0, 1080 give `["1080p", "480p", "720p"]` |
| Download.ParseHeight | youtube_downloader_video.py:46 | succeeds exactly when `int` accepts the label stripped of trailing `p`s, with that value; otherwise ValueError naming the stripped text |
| Download.Selector | youtube_downloader_video.py:47 | `f"bestvideo[height<={height}]+bestaudio/best"`; `SelectorHeightOfSelector` reads the height back |
| Download.SelectorHeightOfSelector | youtube_downloader_video.py:47 | the selector `bestvideo[height<=H]+bestaudio/best` names exactly height H: reading it back gives H |
| Download.DownloadOptions | youtube_downloader_video.py:46-50 | The options exist exactly when the height parses. They are quiet, their selector is the f-string for that height and names it, the output template is `<tmpdir>/%(id)s.%(ext)s` and the merge format is mp4 |
| Download.ParseHeightOfLabel | youtube_downloader_video.py:46 | every quality label `"<h>p"` offered by `get_video_info` parses back to `h` |
| Download.ParseHeightIgnoresSuffix | youtube_downloader_video.py:46 | any number of trailing `p`s, including none, gives the same height |
| Download.RStripTrailing | youtube_downloader_video.py:46 | `rstrip('p')` removes any run of appended `p`s |
| Download.OutputPath | youtube_downloader_video.py:53-54 | `<tmpdir>/<id>.mp4` when it exists, else the first listed entry, else `<tmpdir>/<id>.mp4` still |
| Download.OutputPathInTmpdir | youtube_downloader_test.py:62-67 | the chosen file lies directly in the temporary directory and is named `<id>.mp4` or the first listed name |
| Text.ParseInt | youtube_downloader_video.py:46 | the model of `int(s)` gives a value exactly when `s` is an optional sign followed by one or more ASCII digits |
| Text.ParseIntOfIntToString | youtube_downloader_video.py:47 | `int(str(h)) == h` for every integer |
| Text.RStrip | youtube_downloader_video.py:46 | `rstrip(c)` is a prefix that does not end in `c`, and everything it drops is `c` |
| Text.PadStart | youtube_downloader_video.py:129 | `padStart` keeps the string as a suffix, fills the front with the fill character and reaches the width |
| Text.SplitOfJoin | youtube_downloader_video.py:129 | splitting `join(':')` of parts free of `:` gives the parts back |
| Text.JoinOfSplit | youtube_downloader_video.py:129 | joining the pieces of a split on a character gives the string back |
| Paths.BaseName | youtube_downloader_test.py:116 | `basename` is the slash-free tail after the last `/` |
| Paths.DirName | youtube_downloader_test.py:95 | `dirname(p)` is empty exactly when `p` holds no `/`. Otherwise `p` is the result, a run of slashes and the basename, and the result ends in `/` only when it is the whole head and made of slashes |
| Paths.DirNameOfJoin | youtube_downloader_test.py:95 | `dirname(join(d, n)) == d` for a slash-free `n` and a non-empty `d` not ending in `/` (also youtube_downloader_video.py:88) |
| Paths.StripExtension | youtube_downloader_test.py:94 | `splitext(p)[0]` is a prefix of `p`. What it drops starts at a `.` and holds no other `.` and no `/`, and some character between the last `/` and that `.` is not a dot. The path comes back whole exactly when no `.` after the last `/` has such a character before it |
| Paths.StripExtensionOfMp4 | youtube_downloader_test.py:94 | `splitext(n + ".mp4")[0] == n` for a slash-free `n` holding a character other than `.` |
| Paths.PathJoin | youtube_downloader_test.py:108 | `os.path.join(a, b)` with two arguments; `BaseNameOfJoin` and `DirNameOfJoin` state that the join puts `b` directly under `a` |
| Paths.BaseNameOfJoin | youtube_downloader_test.py:116 | `basename(join(d, n)) == n` for a slash-free name |
| Paths.PathJoinInjective | youtube_downloader_test.py:108 | joining two slash-free names onto one directory gives different paths for different names |
| SegmentPlan.Ceil | youtube_downloader_test.py:92 | `math.ceil(x)` is the integer in `[x, x + 1)` |
| SegmentPlan.Round | youtube_downloader_test.py:99-100 | `round(x)` is within one half of `x`, and a tie goes to the even neighbour |
| SegmentPlan.RoundOfInteger | youtube_downloader_test.py:99-100 | `round` leaves whole numbers alone |
| SegmentPlan.RoundMonotone | youtube_downloader_test.py:99-100 | `round` is monotone |
| SegmentPlan.NumSegs | youtube_downloader_test.py:92 | `num_segs >= 1` and `num_segs * 60 >= duration` |
| SegmentPlan.NumSegsIsLeast | youtube_downloader_test.py:92 | `num_segs` is 1 or the fewest 60-second slices that cover the duration |
| SegmentPlan.PlanCoversDuration | youtube_downloader_test.py:91-93 | For `d >= 0`, `num_segs * seg_len == d` and `0 <= seg_len <= 60`. Since `num_segs >= 1`, the `else duration` branch never runs |
| SegmentPlan.LongSegments | youtube_downloader_test.py:91-93 | with two or more segments, each is longer than thirty seconds |
| SegmentPlan.ProbedDuration | youtube_downloader_test.py:77-80 | the probed duration, or 0.0 when the probe's output is not a number; `FailedProbeGivesOneEmptySegment` states the effect |
| SegmentPlan.ProbedSize | youtube_downloader_test.py:86-89 | the probed width and height, or 1280x720 when that probe fails; `SplitAndResize` states that its runs use them |
| SegmentPlan.SegLen | youtube_downloader_test.py:93 | `duration / num_segs`; `PlanCoversDuration` states that the segments then add up to the duration, each at most 60 seconds |
| SegmentPlan.SegStart | youtube_downloader_test.py:99 | `round(i * seg_len)`; `SegmentsTile`, `SegmentBounds` and `StartsIncrease` state where segments start |
| SegmentPlan.SegEnd | youtube_downloader_test.py:100 | `round(min((i + 1) * seg_len, duration))`; `SegmentsTile` and `SegmentBounds` state where segments end |
| SegmentPlan.SegmentsTile | youtube_downloader_test.py:98-100 | the first start is 0, each inner end is the next start, and the last end is `round(d)` |
| SegmentPlan.SegmentBounds | youtube_downloader_test.py:99-100 | each segment has start <= end and spans at most `seg_len + 1`, so at most 61 seconds |
| SegmentPlan.CoveredTelescopes | youtube_downloader_test.py:98-100 | the rounded lengths of the first `k` segments add up to the end of segment `k - 1` |
| SegmentPlan.TotalCoverage | youtube_downloader_test.py:98-100 | the rounded lengths add up to `round(d)`, within one half of the duration |
| SegmentPlan.StartsIncrease | youtube_downloader_test.py:99 | the starts strictly increase with the index |
| SegmentPlan.FailedProbeGivesOneEmptySegment | youtube_downloader_test.py:77-80 | a duration probe that does not parse gives exactly one segment, 0 to 0 |
| SegmentPlan.ExamplePlan | youtube_downloader_test.py:91-100 | 125 seconds give 3 segments: 0-42, 42-83, 83-125 |
| SegmentPlan.RoundedStart | youtube_downloader_test.py:99 | the loop's `start` is segment `i`'s planned start |
| SegmentPlan.RoundedEnd | youtube_downloader_test.py:100 | the loop's `end` is segment `i`'s planned end |
| SegmentFiles.VerticalCropGeometry | youtube_downloader_test.py:102-105 | The crop keeps the full height from the top and is 9:16 up to truncation. Its margins differ by at most one pixel, and it lies inside the frame when the frame is at least as wide as the crop |
| SegmentFiles.TruncDiv | youtube_downloader_test.py:103 | `int(a / b)` for `b > 0` truncates toward zero: for `a >= 0`, `q * b <= a < q * b + b`; for `a < 0`, `q * b - b < a <= q * b` |
| SegmentFiles.VerticalCrop | youtube_downloader_test.py:102-104 | the crop rectangle of the vertical cut; `VerticalCropGeometry` states its shape and place |
| SegmentFiles.VideoFilter | youtube_downloader_test.py:101-106 | `crop=w:h:x:y,scale=720:1280` for `vertical` and `transpose=1,scale=1280:720` for anything else; `SplitAndResize` states that each run uses it |
| SegmentFiles.SegmentName | youtube_downloader_test.py:108 | `<base>_<start>_<end>.mp4`; `SegmentNameNoSlash` and `SegmentNameInjective` state what it determines |
| SegmentFiles.SegmentPath | youtube_downloader_test.py:116 | the final path of segment `i` in the download directory; `SegmentPathsDistinct` states that no two coincide |
| SegmentFiles.SegmentCommand | youtube_downloader_test.py:108-114 | the transcoder run of segment `i`; `SegmentWrittenBesideDownload` states where it writes |
| SegmentFiles.BaseOfDownload | youtube_downloader_test.py:94 | the base of a downloaded `<tmpdir>/<id>.mp4` is the video id, for an id without `/` holding a character other than `.` |
| SegmentFiles.SegmentWrittenBesideDownload | youtube_downloader_test.py:95-108 | a segment of `<tmpdir>/<name>` is first written to `<tmpdir>/<base>_<start>_<end>.mp4`, in the download's own directory |
| SegmentFiles.BaseOf | youtube_downloader_test.py:94 | the base name holds no `/` |
| SegmentFiles.SegmentNameNoSlash | youtube_downloader_test.py:108 | `<base>_<start>_<end>.mp4` holds no `/` |
| SegmentFiles.IntToStringInjective | youtube_downloader_test.py:108 | `str` is injective on integers |
| SegmentFiles.SegmentNameInjective | youtube_downloader_test.py:108 | one base name with different (start, end) pairs gives different file names |
| SegmentFiles.SegmentPathsDistinct | youtube_downloader_test.py:116 | two different segments never land on the same final path, so no move overwrites another segment |
| Segmenter.SplitAndResize | youtube_downloader_test.py:70-121 | The probes fall back to 0.0 seconds and 1280x720. The returned list is the final path of every segment in index order, and the transcoder runs match it one for one |
| Segmenter.TranscodeSegment | youtube_downloader_test.py:99-116 | one pass of the loop: the transcoder run and the final path of segment `i` |
| Segmenter.SegmentPathsAt | youtube_downloader_test.py:119 | entry `k` of the returned list is segment `k`'s path `<download dir>/<base>_<start>_<end>.mp4` |
| Segmenter.SegmentCommandsAt | youtube_downloader_test.py:109-114 | run `k` is the transcoder run of segment `k` |
| Segmenter.SegmentPathsUnique | youtube_downloader_test.py:116-121 | the returned list names every segment once: no two entries are equal |
| PercentEncoding.Quote | youtube_downloader_test.py:162 | `quote` writes only letters, digits, `_.-~/` and `%` |
| PercentEncoding.QuoteBytes | youtube_downloader_test.py:162 | `quote_from_bytes` writes only letters, digits, `_.-~/` and `%`, at least one character per byte; `PercentDecodeOfQuoteBytes` inverts it |
| PercentEncoding.Unquote | youtube_downloader_test.py:171 | `unquote` with UTF-8 and `errors='replace'`; `UnquoteOfQuote` and `UnquoteOfEscape` state what it gives |
| PercentEncoding.HexRoundTrip | youtube_downloader_test.py:162 | the two hex digits `quote` writes for a byte read back as that byte |
| PercentEncoding.PercentDecodeOfQuoteBytes | youtube_downloader_test.py:162 | percent-decoding what `quote_from_bytes` wrote gives the bytes back |
| PercentEncoding.DecodeOfEncode | youtube_downloader_test.py:162 | UTF-8 decoding inverts UTF-8 encoding for every string |
| PercentEncoding.UnquoteOfQuote | youtube_downloader_test.py:171 | `unquote(quote(s)) == s` for every string |
| PercentEncoding.UnquoteOfEscape | youtube_downloader_test.py:171 | `unquote` turns one `%XX` escape of an ASCII code, between ASCII text free of `%`, into the character it stands for |
| UrlParsing.UrlParseOfPlainTarget | youtube_downloader_test.py:148 | `urlparse` splits a browser's `path?query` into exactly that path and query, with no scheme, host, params or fragment |
| UrlParsing.UrlParseOfPlainPath | youtube_downloader_video.py:77 | a target without `?` is all path, with an empty query |
| UrlParsing.UrlParseOfParams | youtube_downloader_video.py:77 | `;parameters` after the last path segment are split off into `params` |
| UrlParsing.NoSchemeNoNetloc | youtube_downloader_test.py:148 | a target starting with a single `/` has no scheme and no network location |
| UrlParsing.Collect | youtube_downloader_test.py:154 | every list in the dictionary `parse_qs` builds is non-empty |
| UrlParsing.CollectHoldsValues | youtube_downloader_test.py:154 | a name is in `parse_qs`'s dictionary exactly when some field gives it a value, and its list is all its values in order |
| UrlParsing.UrlParse | youtube_downloader_test.py:148 | CPython's `urlparse`: strip, scheme, network location, fragment, query and `;params`; `UrlParseOfPlainTarget`, `UrlParseOfPlainPath` and `UrlParseOfParams` state its result on request targets |
| UrlParsing.ParseQs | youtube_downloader_test.py:154 | `parse_qs`: the non-blank fields between `&`s, each decoded, collected by name; `CollectHoldsValues` states the dictionary |
| UrlParsing.GetFirst | youtube_downloader_test.py:155-157 | `params.get(name, [d])[0]`; `GetFirstIsFirstValue` states it is the first value given, or `d` |
| UrlParsing.GetFirstIsFirstValue | youtube_downloader_test.py:155-157 | `params.get(name, [d])[0]` is the first value given for `name`, or `d` when there is none |
| Handlers.ServedExactly | youtube_downloader_test.py:149-181 | a GET reaches a branch of the `if` chain exactly when its parsed path is one the server serves |
| Handlers.NotFoundExactly | youtube_downloader_test.py:149-181 | a GET is answered with 404 exactly when its parsed path is not served, or when it is `/segment` and the file named by its `path` argument does not exist |
| Handlers.Route | youtube_downloader_test.py:149-181 | the `if` chain on the parsed path and the `parse_qs` dictionary (also youtube_downloader_video.py:78-92); `ServedExactly`, `SplitRoute`, `SegmentRoute` and `DownloadArguments` state what each branch takes |
| Handlers.Dispatch | youtube_downloader_test.py:148-154 | `urlparse(self.path)`, then the `if` chain on its path and `parse_qs` of its query; `DispatchOfPlainTarget` states that a browser's target reaches the chain unchanged |
| Handlers.RouteGet | youtube_downloader_test.py:147-181 | `do_GET` as written, with each argument but `orientation` unquoted a second time; `SegmentLinkDecodedTwice` states the effect |
| Handlers.RoutePost | youtube_downloader_test.py:132-145 | `do_POST` runs `/fetch` exactly when `self.path` is `/fetch` and answers 404 otherwise (also youtube_downloader_video.py:67); `FetchTakesNoQuery` states it |
| Handlers.FetchTakesNoQuery | youtube_downloader_video.py:67 | POST `/fetch` is served, and `/fetch?` with any query gets 404, because `self.path` is compared whole |
| Handlers.IndexAtRoot | youtube_downloader_video.py:78 | `/` serves the index page with or without a query, on both servers |
| Handlers.ParametersIgnored | youtube_downloader_video.py:77-79 | `;parameters` after the path do not change the route |
| Handlers.DownloadArguments | youtube_downloader_video.py:79-83 | `/download?q` runs the download with the first `url` and `resolution` values, or empty strings, each unquoted again; other paths give 404 |
| Handlers.DispatchOfPlainTarget | youtube_downloader_test.py:148-154 | a browser's target reaches the `if` chain with its own path and its query's `parse_qs` |
| Handlers.DispatchOfSplitTarget | youtube_downloader_test.py:153-154 | `/split?q` reaches the `/split` branch with `parse_qs(q)` |
| Handlers.SplitRoute | youtube_downloader_test.py:153-159 | `/split` runs with the first `url` and `resolution` values, or empty strings. It passes the first `orientation` value undecoded, or `vertical` when there is none |
| Handlers.SplitDefaultsToVertical | youtube_downloader_test.py:157 | without an `orientation` field, `/split` asks for the vertical cut |
| Handlers.DecodingsAgreeWithoutPercent | youtube_downloader_test.py:159 | decoding once or twice routes alike whenever the decoded arguments hold no `%` |
| Handlers.SegmentQueryIsPlain | youtube_downloader_test.py:162 | the query `path=<quote(s)>` holds no `&`, `#`, space or control character, and the quoted path holds no `+` or `=` |
| Handlers.ParseSegmentQuery | youtube_downloader_test.py:170-171 | `parse_qs` of a segment link's query gives the segment path back as its first `path` value |
| Handlers.DispatchOfSegmentLink | youtube_downloader_test.py:169-170 | a segment link reaches the `/segment` branch with its own query |
| Handlers.SegmentRoute | youtube_downloader_test.py:169-171 | `/segment` serves the file named by its first `path` argument, or `""` |
| Handlers.SegmentLinkRoutesBack | youtube_downloader_test.py:169-171 | with one decoding, following a `/split` link serves exactly the listed segment file, for every path |
| Handlers.SegmentLinkDecodedTwice | youtube_downloader_test.py:169-171 | as written, following a `/split` link serves `unquote(s)` instead of `s` |
| Handlers.UnquotePercentPath | youtube_downloader_test.py:171 | `unquote("/d%41/v.mp4") == "/dA/v.mp4"` |
| Handlers.SegmentLinkMissesPercentPath | youtube_downloader_test.py:171 | as written, the link to `/d%41/v.mp4` asks for `/dA/v.mp4` |
| Handlers.SplitItems | youtube_downloader_test.py:162 | one item per segment |
| Handlers.SplitItemsDescribeSegments | youtube_downloader_test.py:160-162 | Item `k` of the `/split` answer is named after segment `k`'s file and links to `http://<address>:<port>/segment?path=<quote(path)>`. With one decoding, that link serves segment `k`'s file |
| Clock.ClockFieldsOfNonNegative | youtube_downloader_video.py:129 | For `s >= 0`, h = n div 3600, m = (n mod 3600) div 60 and sec = n mod 60 of the whole seconds n. Also m < 60, sec < 60 and h*3600 + m*60 + sec = n |
| Clock.FloorOfQuotient | youtube_downloader_video.py:129 | for `s >= 0`, `Math.floor(s / k)` is the integer quotient of the whole seconds |
| Clock.FloorOfRemainder | youtube_downloader_video.py:129 | for `s >= 0`, JavaScript's `%` is non-negative and floors to the integer remainder |
| Clock.DivModSplit | youtube_downloader_video.py:129 | whole seconds are hours, minutes within the hour and seconds within the minute |
| Clock.Pad2OfSmall | youtube_downloader_video.py:129 | a field below 100 prints as exactly two digits that read back as its value |
| Clock.Pad2OfNat | youtube_downloader_video.py:129 | a non-negative field prints as at least two digits, with no `:`, reading back as its value |
| Clock.ParseClockOfShow | youtube_downloader_video.py:129 | non-negative fields print as a clock that reads back as the same fields |
| Clock.ParseClockOfFmtTime | youtube_downloader_video.py:129 | for `s >= 0` the printed clock reads back as the hours, minutes and seconds of `s` |
| Clock.FmtTimeShowsWholeSeconds | youtube_downloader_video.py:129 | for `s >= 0`, two times print alike exactly when their whole seconds agree |
| Clock.ExampleClock | youtube_downloader_video.py:129 | `fmtTime(3725.9) == "01:02:05"` |
| Clock.NegativeClock | youtube_downloader_video.py:129 | for `-1 <= s < 0` every field floors to -1 and the clock prints `-1:-1:-1` |
| Clock.NegativeMinuteClock | youtube_downloader_video.py:129 | further below zero the fields differ: `fmtTime(-61)` prints `-1:-2:-1` |
| Clock.ClockFields | youtube_downloader_video.py:129 | `[h, m, sec]` from `Math.floor` and JavaScript's `%`; `ClockFieldsOfNonNegative`, `NegativeClock` and `NegativeMinuteClock` state their values |
| Clock.FmtTime | youtube_downloader_video.py:129 | the three fields padded to two characters and joined with `:`; `ParseClockOfFmtTime` reads the clock back as the fields |

## Left out

- The extractor (`YoutubeDL.extract_info`) and the choice between yt_dlp and youtube_dl: a foreign library and the network. Its answers, and the backend that gave them, are inputs.
- The probes and the transcoder (`subprocess.run`), `shutil.move`, `tempfile.mkdtemp`, `os.path.exists`, `os.listdir`, `os.remove`/`rmdir` and the creation of the download directory: process and filesystem I/O. The model computes what is run, and where files go.
- The probe's text parsing (`float(...strip())`, `map(int, ...split(','))`): a failed probe is the `None` case, and a successful one supplies numbers.
- The exception handlers that answer 400 with the error text: the model gives the route and its arguments, and `Download.ParseHeight` gives the ValueError a bad label raises.
- Sending headers, the 512 KiB streaming loops and the JSON encoding of the answers: socket I/O.
- The body of POST `/fetch` (reading Content-Length bytes, `json.loads`): I/O and a JSON parser. Its result is the `url` given to `get_video_info`.
- The HTTP server, threads and the port fallback in `main`; argument parsing; `print` logging.
- The HTML page and its script, except `fmtTime`: DOM and fetch code. The progress figures are floating-point computations on `Date.now()`.
- Floating point. Durations, `round`, `math.ceil` and `fmtTime` work on exact reals. NaN, the infinities, binary rounding and JavaScript's exponent notation for large numbers are not modelled.
- Text.ParseInt: `int()` also accepts surrounding whitespace, `_` between digits and non-ASCII decimal digits such as `'٣'`, and since CPython 3.11 it raises ValueError on more than 4300 digits. The model accepts an optional sign and ASCII digits only, of any length.
- Qualities.GetVideoInfo: a `formats` key that holds null makes the comprehension raise TypeError, and a height that is not an integer is printed by Python's own `str`. The model takes a list of formats with integer heights.
- UrlParsing.UrlParse: the validation of bracketed IPv6 hosts and the NFKC check of the network location are not modelled. Neither can occur in a target that starts with `/`.
- Regular expressions beyond the three fixed patterns of `parse_video_id`.

## Findings

| source | as written | input that shows it | evidently intended | confidence | as-written member | corrected member |
|---|---|---|---|---|---|---|
| youtube_downloader_test.py:171 | `parse_qs` already percent-decodes each value, and the handler calls `unquote` on it a second time. It does the same at youtube_downloader_test.py:159 and youtube_downloader_video.py:83 | A segment stored under a directory named `d%41`: `/split` lists it as `/segment?path=/d%2541/v.mp4`, and `/segment` then looks for `/dA/v.mp4` and answers 404 | decode each argument once, so that every `/split` link serves its own segment | not executed | Handlers.SegmentLinkMissesPercentPath | Handlers.SegmentLinkRoutesBack |
