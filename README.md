# YT Course Taker: the description-to-segments pipeline and the segment viewer

The system turns a pasted YouTube URL into a "course". The `POST` route
(app/api/youtube/route.js) works in five steps:

1. It extracts the eleven-character video id from the URL.
2. It asks the YouTube Data API for the video's title, description and
   duration.
3. It scans the description for lines that start with a time code
   (`M:SS` or `H:MM:SS`) followed by a title.
4. It turns those chapter candidates into contiguous segments that end at
   the video's ISO 8601 duration.
5. It answers with the course, or with an error and an HTTP status.

The course viewer (components/CourseViewer.js) keeps its own copy of the
segments and the index of the segment on show. It flips a segment's
completion, moves between segments, and does "complete and play next". It
hands every changed segment to the course page, which stores it whole
(`handleSegmentUpdate` in app/dashboard/(main)/course/[courseId]/page.js).

This Dafny project models those two cores and proves what they promise.

Modules:

- `JsStrings` covers the parts of the JavaScript string API the code
  relies on: `\s` and `\d`, `split`, `indexOf`, `replace` with a string
  pattern, `trim`, and `Number` on digit strings.
- `TimeCode` holds `convertTimestampToSeconds` and a matcher for
  `(\d{1,2}:)?\d{1,2}:\d{2}`.
- `IsoDuration` holds `parseISO8601Duration`.
- `ChapterLine` is the per-line callback of `parseTimestamps`, and
  `Scanner` is its loop.
- `VideoId` holds `extractVideoId`. Its URL regex is a matcher that
  follows the RegExp engine's backtracking order.
- `SegmentBuilder` is the `map` that adds end times and durations.
- `YoutubeRoute` is the gate chain of `POST`.
- `CourseViewer` holds `formatDuration`, the completed count and
  percentage, and the `Viewer` class: the segments, the current index,
  the player's readiness, and logs of the updates handed to the page and
  the seeks handed to the player.

## Model

| member | source | states |
|---|---|---|
| JsStrings.Decimal | components/CourseViewer.js:22 | `String(n)` of a natural number is a non-empty digit string, one digit long exactly when `n < 10`, with no leading zero |
| JsStrings.DecimalRoundTrip | components/CourseViewer.js:22 | reading the decimal text of `n` back as a number gives `n` |
| JsStrings.IndexOf | app/api/youtube/route.js:30 | `indexOf` finds an occurrence and no earlier one; `None` exactly when the pattern occurs nowhere |
| JsStrings.IndexOfAt | app/api/youtube/route.js:30 | a pattern found at `w` whose first character appears nowhere before `w` is first found at `w` |
| JsStrings.ReplaceFirst | app/api/youtube/route.js:29-30 | with no occurrence the text is unchanged; otherwise, at the first occurrence `i` (one with none before it), the result is the text before `i`, the replacement, and the text after the pattern |
| JsStrings.ReplaceAtIndexOf | app/api/youtube/route.js:29-30 | the replacement happens exactly where `indexOf` finds the pattern |
| JsStrings.ReplaceFirstRestores | app/api/youtube/route.js:29-30 | the replacement can be undone: putting the pattern back in place of the replacement at the first occurrence gives the original text |
| JsStrings.TrimStart | app/api/youtube/route.js:28 | drops exactly the leading white space: a suffix that does not start with white space, with everything dropped white |
| JsStrings.TrimEnd | app/api/youtube/route.js:32 | drops exactly the trailing white space: a prefix that does not end with white space, with everything dropped white |
| JsStrings.Split | app/api/youtube/route.js:22 | `split` with one character gives at least one piece, and no piece holds the separator |
| JsStrings.SplitPiecesFromSource | app/api/youtube/route.js:13 | every character of every piece comes from the split text |
| JsStrings.SplitJoin | app/api/youtube/route.js:22 | joining the pieces with the separator gives back the original text |
| JsStrings.SplitLength | app/api/youtube/route.js:13 | the number of pieces is one more than the number of separators |
| TimeCode.ClockFieldsAreDigits | app/api/youtube/route.js:13 | every colon-separated field of a time code is a digit string, so `Number` reads each one |
| TimeCode.TwoFieldsDecode | app/api/youtube/route.js:15 | `M:SS` splits into two fields and decodes to minutes*60 + seconds |
| TimeCode.ThreeFieldsDecode | app/api/youtube/route.js:14 | `H:MM:SS` splits into three fields and decodes to hours*3600 + minutes*60 + seconds |
| TimeCode.MinSecValue | app/api/youtube/route.js:12-15 | a concrete `M:SS` text built from two digit fields decodes to the given minutes*60 + seconds |
| TimeCode.HoursValue | app/api/youtube/route.js:12-14 | a concrete `H:MM:SS` text built from three digit fields decodes to the given hours*3600 + minutes*60 + seconds |
| TimeCode.ConvertTimestampToSeconds | app/api/youtube/route.js:12-17 | text with neither one nor two colons, so neither two nor three fields, falls back to 0 |
| TimeCode.MinSecAt | app/api/youtube/route.js:26 | `\d{1,2}:\d{2}` at `i`, two digits tried before one: the match found is one, and `None` means no prefix is one |
| TimeCode.TimeCodeAt | app/api/youtube/route.js:26 | `(\d{1,2}:)?\d{1,2}:\d{2}` at `i`: a match is found exactly when some prefix of the rest is a time code, the match found is a time code, and no longer prefix is one (the greedy, longest match) |
| TimeCode.LongestWithHours | app/api/youtube/route.js:26 | once the optional hours group matched, no text longer than the match is a time code |
| TimeCode.LongestWithoutHours | app/api/youtube/route.js:26 | when the hours group cannot match, no text longer than the `M:SS` match is a time code |
| TimeCode.TimeCodeNeverFallsBack | app/api/youtube/route.js:12-17 | a matched time code has one or two colons, so the decoder never reaches its fallback to 0 |
| TimeCode.MinSecDecodes | app/api/youtube/route.js:12-15 | a matched `M:SS` or `MM:SS` decodes to its minutes*60 + seconds |
| TimeCode.HoursDecode | app/api/youtube/route.js:12-14 | a matched time code with an hours field decodes to hours*3600 + minutes*60 + seconds |
| IsoDuration.UnitGroup | app/api/youtube/route.js:45 | one optional group `(?:(\d+)U)?`: when it matches, the text is a non-empty digit run, the unit letter and the rest, and the captured number is the run's value; it fails to match exactly when no non-empty digit prefix is followed by the unit letter, and then nothing is consumed |
| IsoDuration.DigitRun | app/api/youtube/route.js:45 | the greedy `\d+` takes a digit prefix and stops at the first non-digit or at the end |
| IsoDuration.NoGroup | app/api/youtube/route.js:45 | when the group is tried and does not match, no digit prefix is followed by the unit letter |
| IsoDuration.GroupsSeconds | app/api/youtube/route.js:45-48 | text after "PT" that does not start with a digit reads as 0 seconds: every group is absent |
| IsoDuration.ParseIsoDuration | app/api/youtube/route.js:44-48 | the result is `None` (the match is null and reading it throws) exactly when the text contains no "PT" |
| IsoDuration.ReadPresent | app/api/youtube/route.js:45-47 | a group over the text of its own component reads the number back and consumes exactly that component |
| IsoDuration.GroupsRoundTrip | app/api/youtube/route.js:45-47 | the three groups read any subset of components back as their sum in seconds, an absent one counting 0 |
| IsoDuration.IsoRoundTrip | app/api/youtube/route.js:44-48 | decoding `PT#H#M#S`, with any subset of components present, gives H*3600 + M*60 + S |
| IsoDuration.ZeroDuration | app/api/youtube/route.js:44-48 | "PT0S" decodes to 0 |
| IsoDuration.DayDurationRejected | app/api/youtube/route.js:45 | "P1DT2H" holds no "PT", so it is not decoded |
| IsoDuration.ExampleFifteenMinutes | app/api/youtube/route.js:44-48 | "PT15M0S" decodes to 900 |
| ChapterLine.StripSeparators | app/api/youtube/route.js:31 | `replace(/^[\s-–—]*/, "")` drops exactly the leading run of white space and dashes |
| ChapterLine.LeadingSpace | app/api/youtube/route.js:26 | the greedy `(\s*)` takes all of the leading white space and stops at the first other character |
| ChapterLine.MatchLeadingTimeCode | app/api/youtube/route.js:26 | the match is the leading white space plus a time code, and the longest one; null exactly when no time code follows the leading white space |
| ChapterLine.LineCandidate | app/api/youtube/route.js:26-38 | a line contributes only when it matched, and every kept title is non-empty, starts with no separator and ends with no white space |
| ChapterLine.TrimmedMatchIsTimeCode | app/api/youtube/route.js:28 | trimming the match leaves exactly the time code, which is made of digits and colons |
| ChapterLine.FirstOccurrenceOfCode | app/api/youtube/route.js:28-30 | the first occurrence of the trimmed time code in the line is where the match found it |
| ChapterLine.RemovedCode | app/api/youtube/route.js:29-30 | removing the time code leaves the leading white space followed by the rest of the line |
| ChapterLine.LineCandidateReference | app/api/youtube/route.js:26-38 | independent reading of a line: the title is the rest after the time code, with leading separators and trailing white space dropped, and the start is the time code's value |
| ChapterLine.EmptyTitleIffOnlySeparators | app/api/youtube/route.js:29-33 | the title is empty exactly when the rest of the line consists of separators only |
| ChapterLine.LineContributesIff | app/api/youtube/route.js:26-38 | a line contributes exactly when it starts with a time code and something other than separators follows it |
| ChapterLine.ExampleChapter | app/api/youtube/route.js:26-38 | "1:23 - Introduction" is the chapter "Introduction" at 83 seconds |
| ChapterLine.ExampleHoursChapter | app/api/youtube/route.js:26-38 | "1:02:03 Intro" is the chapter "Intro" at 3723 seconds: the greedy match takes the hours field |
| ChapterLine.ExampleBareTimeCode | app/api/youtube/route.js:33 | a line holding only "5:00" yields nothing |
| ChapterLine.ExampleNoTimeCode | app/api/youtube/route.js:26-27 | "Introduction" yields nothing |
| Scanner.FilterMapOrigin | app/api/youtube/route.js:24-40 | in a `forEach` that pushes at most once per entry, result `k` comes from entry `Contributors[k]`; those indices increase strictly, and an index is among them exactly when its entry gives a result |
| Scanner.ScanLines | app/api/youtube/route.js:22-39 | at most one candidate per line |
| Scanner.ScanLinesOrigin | app/api/youtube/route.js:22-39 | at most one candidate per line, kept in line order and never sorted; a line is a source exactly when it contributes; every title has the title shape |
| Scanner.Candidates | app/api/youtube/route.js:19-42 | at most one candidate per line of the description, so at most one more than its count of line breaks |
| Scanner.ExampleCandidates | app/api/youtube/route.js:19-42 | the lines "0:00 Intro", "2:30 Deep Dive" and "10:00 Outro" give the chapters at 0, 150 and 600 seconds, in line order |
| Scanner.ParseTimestamps | app/api/youtube/route.js:19-42 | the loop over the lines returns exactly the candidates of the description, as `ScanLines` defines them |
| Scanner.ScanStep | app/api/youtube/route.js:24-38 | scanning one more line appends that line's candidate, if it has one |
| Scanner.NoCandidatesIff | app/api/youtube/route.js:24-40 | no candidates exactly when no line contributes one |
| VideoId.SlashEnd | app/api/youtube/route.js:7 | the greedy `[^\/]+` stops at the first slash, or at the end of the text |
| VideoId.LineEnd | app/api/youtube/route.js:7 | a greedy `.` run stops at the first line terminator, or at the end of the text |
| VideoId.LastTail | app/api/youtube/route.js:7 | backing off a greedy quantifier settles on the largest position where the rest of the pattern matches; `None` exactly when there is none |
| VideoId.PathAlternative | app/api/youtube/route.js:7 | a match of `[^\/]+\/.+\/` puts an identifier right after a slash, past the first path segment |
| VideoId.QueryAlternative | app/api/youtube/route.js:7 | a match of `.*[?&]v=` puts an identifier right after it |
| VideoId.MatchAt | app/api/youtube/route.js:7 | a match at `p` starts with one of the two host names and puts an identifier where it ends |
| VideoId.FirstMatch | app/api/youtube/route.js:6-8 | the unanchored search returns the capture position of the match at the leftmost start from `p` on where the pattern matches, and finds none exactly when it matches at no position from `p` on |
| VideoId.ExtractVideoId | app/api/youtube/route.js:4-10 | the result is null or eleven characters, none of them `"`, `&`, `?`, `/` or a space; null exactly when the pattern matches at no start position, and otherwise the eleven characters captured by the match at the leftmost start |
| VideoId.MatchStartsAtY | app/api/youtube/route.js:7 | every match starts at a 'y' |
| VideoId.SkipNoMatch | app/api/youtube/route.js:6-8 | the unanchored search skips start positions where nothing matches |
| VideoId.NoYNoId | app/api/youtube/route.js:4-10 | a text without the letter 'y' gives null |
| VideoId.HostFirst | app/api/youtube/route.js:6-8 | with no 'y' before the host, the result is the identifier from the attempt at the host |
| VideoId.ShortLinkId | app/api/youtube/route.js:7 | "youtu.be/" and an identifier give that identifier, whatever follows |
| VideoId.PathNeedsTwoSlashes | app/api/youtube/route.js:7 | with no two slashes after the host, the path alternative cannot match |
| VideoId.WatchLinkId | app/api/youtube/route.js:7 | "youtube.com/watch?v=" and an identifier give that identifier when no slash follows and no `?` or `&` in the rest is directly followed by `v` (so `&vq=hd720` is not covered) |
| VideoId.EmbedLinkId | app/api/youtube/route.js:7 | "youtube.com/embed/" and an identifier give that identifier when no slash follows |
| VideoId.VLinkId | app/api/youtube/route.js:7 | "youtube.com/v/" and an identifier give that identifier when no slash follows |
| VideoId.ELinkId | app/api/youtube/route.js:7 | "youtube.com/e/" and an identifier give that identifier when no slash follows: the `v/` and `embed/` alternatives fail first |
| VideoId.PathLinkId | app/api/youtube/route.js:7 | two path segments before the identifier: the path alternative, tried first, takes the identifier after the second slash |
| VideoId.ExampleWatchLink | app/api/youtube/route.js:4-10 | "https://www.youtube.com/watch?v=dQw4w9WgXcQ" gives "dQw4w9WgXcQ" |
| VideoId.ExampleShortLink | app/api/youtube/route.js:4-10 | "https://youtu.be/dQw4w9WgXcQ?t=10" gives "dQw4w9WgXcQ" |
| VideoId.ExampleNotAUrl | app/api/youtube/route.js:4-10 | "not a url" gives null |
| SegmentBuilder.BuildSegments | app/api/youtube/route.js:100-113 | same length, order, starts and titles as the candidates; each segment ends where the next starts and the last at the total; each duration is end minus start; `completed` false and `notes` empty |
| SegmentBuilder.Telescope | app/api/youtube/route.js:101-108 | contiguous durations add up to the last end minus the first start |
| SegmentBuilder.DurationsSumToTotal | app/api/youtube/route.js:101-108 | the built durations add up to the total duration minus the first chapter's start |
| SegmentBuilder.NonNegativeIffOrdered | app/api/youtube/route.js:101-108 | every duration is non-negative exactly when the starts never decrease and none lies past the total; nothing is clamped |
| SegmentBuilder.PositiveIffStrictlyOrdered | app/api/youtube/route.js:101-108 | every duration is positive exactly when the starts strictly increase and the last lies before the total |
| SegmentBuilder.OutOfOrderKept | app/api/youtube/route.js:100-113 | chapters listed out of order give a negative duration, which is kept |
| SegmentBuilder.ExampleThreeChapters | app/api/youtube/route.js:100-113 | three chapters of a ten-minute video give the three expected segments |
| YoutubeRoute.Status | app/api/youtube/route.js:55-126 | an upstream failure keeps the upstream status; every other error answer is 400, 404 or 500 |
| YoutubeRoute.ErrorText | app/api/youtube/route.js:55-126 | an error text starts with "API Error: " exactly when the error is an upstream failure |
| YoutubeRoute.Post | app/api/youtube/route.js:51-127 | a missing key is 500 with no fetch; a fetch asks only about the extracted id; a course carries the fetched id, an eleven-character id and a non-empty segment list |
| YoutubeRoute.MissingKeyFirst | app/api/youtube/route.js:55-59 | a missing key is answered 500 before anything else, with no fetch |
| YoutubeRoute.Answer | app/api/youtube/route.js:74-119 | past the request, a course carries the requested id and at least one segment |
| YoutubeRoute.Chapters | app/api/youtube/route.js:88-119 | a course built from a description always has at least one segment |
| YoutubeRoute.InvalidUrlBeforeFetch | app/api/youtube/route.js:62-68 | with a key, the answer is 400 with no fetch exactly when the extractor rejects the URL |
| YoutubeRoute.FetchKeyedById | app/api/youtube/route.js:70-73 | with a key and a recognised URL, the Data API is asked about exactly the extracted id |
| YoutubeRoute.UpstreamFailures | app/api/youtube/route.js:74-85 | a non-OK answer keeps its status and message; no items gives 404; a request that throws gives 500 |
| YoutubeRoute.TimestampGate | app/api/youtube/route.js:88-95 | a description without chapters gives "no valid timestamps" with status 400, for any duration |
| YoutubeRoute.NoTimestampsBeforeDuration | app/api/youtube/route.js:88-97 | no chapters gives "no valid timestamps" even when the duration cannot be parsed: the gate comes first |
| YoutubeRoute.UnparsableDurationFails | app/api/youtube/route.js:97-126 | chapters found but a duration without "PT": the throw is caught and the answer is 500 |
| YoutubeRoute.UnparsableChapters | app/api/youtube/route.js:97-126 | with chapters found and a duration whose match is null (no "PT"), the chapter step fails with ProcessingFailed, which the catch answers with 500 |
| YoutubeRoute.SuccessIff | app/api/youtube/route.js:51-119 | a course is answered exactly when every gate passes; it carries the id, the item's title and the built segments, which are contiguous, end at the duration and sum to it minus the first start |
| YoutubeRoute.ExampleCourse | app/api/youtube/route.js:51-127 | a short link and a description "0:00 Intro", "2:30 Deep Dive", "10:00 Outro" with duration "PT15M0S" give the course with segments 0-150, 150-600 and 600-900 |
| CourseViewer.PadTwo | components/CourseViewer.js:22 | `padStart(2, "0")`: a text of two or more characters is unchanged; a shorter one gets leading zeros up to length 2 |
| CourseViewer.FormatDuration | components/CourseViewer.js:18-23 | a negative input shows "0:00"; otherwise the text is a digit field, a colon and exactly two digits, and the minutes field is exactly `String(floor(s/60))`, with no leading zero |
| CourseViewer.FormatDurationFields | components/CourseViewer.js:20-22 | the minutes field reads as `floor(s/60)` and the two-digit field as `s mod 60` |
| CourseViewer.FormatDurationRoundTrip | components/CourseViewer.js:18-23 | read back as a time code, the text gives the same number of seconds |
| CourseViewer.ExampleFormat | components/CourseViewer.js:18-23 | 83 shows as "1:23" and 5 as "0:05" |
| CourseViewer.CompletedCount | components/CourseViewer.js:158 | the count is at most the number of segments |
| CourseViewer.CompletedCountIsSize | components/CourseViewer.js:158 | the count equals the number of indices whose segment is completed |
| CourseViewer.CompletionPercent | components/CourseViewer.js:239-243 | 0 with no segments; otherwise the exact ratio times 100 rounded to nearest, at most 100, 0 when nothing is done and 100 when all is |
| CourseViewer.ToggledAt | components/CourseViewer.js:109-113 | the toggled list has the same length and segment `i` has the opposite completion |
| CourseViewer.ToggleOnlyFlips | components/CourseViewer.js:107-112 | toggling flips `completed` on segment `i` and changes no other segment and no other field |
| CourseViewer.ToggleTwice | components/CourseViewer.js:107-112 | toggling the same segment twice restores the list |
| CourseViewer.ToggleCount | components/CourseViewer.js:107-112 | a toggle moves the completed count by exactly one, down if the segment was completed and up otherwise |
| CourseViewer.ApplyUpdate | components/CourseViewer.js:110-116 | the course page's `handleSegmentUpdate` (lines 46-57 of the course page) receiving one `onSegmentChange(index, segment)`: the stored segment at that index is replaced whole, and every other one is kept |
| CourseViewer.ApplyUpdates | components/CourseViewer.js:50-52 | the course page's `handleSegmentUpdate` (lines 46-57 of the course page) receiving the updates the viewer sends: a run of updates keeps the length, and a segment that no update names is unchanged |
| CourseViewer.ApplyUpdatesConcat | components/CourseViewer.js:50-52 | the course page's `handleSegmentUpdate` (lines 46-57 of the course page) receiving the updates sent by the note save and the toggle: applying two runs of updates one after the other is applying their concatenation |
| CourseViewer.Viewer.constructor | components/CourseViewer.js:25-33 | the viewer starts on segment 0 with the initial segments, nothing sent and the player not ready |
| CourseViewer.Viewer.PlayerReady | components/CourseViewer.js:268-270 | the player's `onReady` makes it ready and changes nothing else |
| CourseViewer.Viewer.ToggleCompletion | components/CourseViewer.js:107-119 | it succeeds exactly for an index that names a segment, and the new list is that segment toggled; the toggled segment is sent only outside guest mode with a callback; what was sent, applied to the old list, gives the viewer's new list |
| CourseViewer.Viewer.DisplaySegment | components/CourseViewer.js:64-74 | the index moves, and the player seeks to the segment's start, only when the index names a segment and the player is ready; otherwise nothing changes, so the index stays in range |
| CourseViewer.Viewer.ShowPrevious | components/CourseViewer.js:286-288 | the previous button moves back one, and hands the previous segment's start to the player, only from a later segment with the player ready; otherwise nothing changes; the segments, the updates sent and readiness never change |
| CourseViewer.Viewer.PlayNextAndComplete | components/CourseViewer.js:121-128 | the current segment ends up completed and no segment is un-completed; an update is sent exactly when the segment was not completed, outside guest mode and with a callback, and those sent updates applied to the old list give the new list; the index advances by one, and the next start is handed to the player, when it was not the last and the player is ready, and stays put otherwise |
| CourseViewer.Viewer.FlushNote | components/CourseViewer.js:46-62 | as written: a notes update is sent only when the note differs from the stored notes, outside guest mode and with a callback; the viewer's own segments are not changed |
| CourseViewer.Viewer.FlushNoteSynced | components/CourseViewer.js:46-62 | corrected: the same guards, and the note is also written into the viewer's segments, so that what was sent, applied to the old list, gives the viewer's list |
| CourseViewer.NoteThenToggleAsWritten | components/CourseViewer.js:46-54 | as written: after a note save and a toggle of the same segment, the store holds the old notes, not the saved note |
| CourseViewer.NoteThenToggleSynced | components/CourseViewer.js:46-54 | corrected: after the same steps the store holds the saved note and the flipped completion, and equals the viewer's segments |

## Left out

- The request to the YouTube Data API, `request.json()`, `process.env` and
  `NextResponse` are I/O. The Data API answer is the parameter `lookup`,
  reduced to the item's title, description and duration, no items, an
  error status with its message, or a request that threw. `Post` records
  which id it asked about.
- The API error message is a plain string that `lookup` supplies. An error
  body that fails to parse, or has no `error` field, makes the route throw
  into its catch; `lookup` reports that as `FetchFailed`, answered with 500.
  An `error` field without `message` gives `ApiError` with the message
  "undefined", as the template literal prints it.
- A `youtubeUrl` that is not a string makes `url.match` throw outside the
  `try`. The model takes a string.
- The global regex at app/api/youtube/route.js:21 is never used, so it is
  not modelled.
- Strings are sequences of Unicode scalar values. JavaScript counts UTF-16
  code units, so the eleven characters of a video id are eleven scalar
  values in the model. Two are the same for ids made of characters
  outside the astral planes.
- TimeCode.ConvertTimestampToSeconds: takes only text of digits and colons,
  which is all that the scanner passes to it. `Number` of any other text
  (`NaN`) is not modelled.
- CourseViewer.FormatDuration: takes whole seconds only. The `isNaN`
  branch and `Math.round` of fractional seconds are floating-point
  concerns. The route always produces whole durations.
- CourseViewer.CompletionPercent: rounds the exact ratio half up, as
  `Math.round` does. The floating-point division and multiplication that
  come before `Math.round` are not modelled.
- The 500 ms debounce of the note save (components/CourseViewer.js:46-62)
  is timing. `FlushNote` is the timer's body running once.
- The effect that reloads the note box from the current segment
  (components/CourseViewer.js:42-44) is not modelled.
- The player's progress polling (components/CourseViewer.js:76-105) is
  timers, DOM and floating-point time.
- The PDF export (components/CourseViewer.js:130-156) is a foreign
  library.
- The JSX rendering is not modelled.
- `playVideo` is not recorded; only the seek positions handed to the
  player are.
- Numbers are exact, unbounded integers. JavaScript numbers are IEEE
  doubles, so `Number`, `parseInt` and the sums of seconds agree with the
  model only while every value stays below 2^53; larger digit strings
  round in the source.
- CourseViewer.ApplyUpdate: an index past the end leaves the store
  unchanged. A JavaScript array assignment would extend the array, but the
  viewer never sends such an index.
- The guest page app/try/page.js is not part of this model, nor is the
  Firestore write in page.js:54-57. The store is the sequence
  `ApplyUpdates` builds.

## Findings

| source | as written | input that shows it | evidently intended | confidence | as-written member | corrected member |
|---|---|---|---|---|---|---|
| components/CourseViewer.js:46-54 | The debounced note save hands the page a copy of the segment with the new notes, but never writes the notes into the viewer's own `courseData.segments`. A later completion toggle on that segment builds its update from the stale copy (components/CourseViewer.js:109-116). The page stores segments whole (app/dashboard/(main)/course/[courseId]/page.js:49-56), so the saved note is overwritten with the old one. | Segment 0 has notes "" and the user types "x"; the save fires; then "Mark as Complete" is pressed on segment 0. The store ends with completed flipped and notes "". | The viewer's copy takes the saved note as well, so the store and the viewer agree and later updates carry it. | not executed | CourseViewer.NoteThenToggleAsWritten | CourseViewer.NoteThenToggleSynced |
