# YouTube downloader server: a verified model of its core

`server.js` is a small Express server that downloads YouTube videos through
yt-dlp, optionally trims them with ffmpeg, sends the result to the client
and cleans up its working directory. Underneath the plumbing it holds a
small amount of logic, and this project models that logic in Dafny and
proves properties of it:

- `calculateDuration`, the length of a trim range as a zero-padded
  `HH:MM:SS` string (`duration.dfy`);
- `extractVideoId`, the two-pattern id matcher, as a scan over the string
  with a declarative reading of the first pattern beside it
  (`video_id.dfy`);
- the names and command lines built for yt-dlp and ffmpeg: the temp and
  output names derived from the request timestamp, the mp3 and video
  branches, and the `-f` format selection (`commands.dfy`);
- the `/download` handler and `sendFileAndCleanup` as a function from the
  request and the answers of the outside world (yt-dlp's success, the
  directory listing, ffmpeg's success) to the trace of events the handler
  performs: commands run, entries deleted and the reply sent
  (`pipeline.dfy`);
- the download directory as a class holding a map from entry name to
  modification time, with the `cleanupOldFiles` sweep as a loop that
  deletes and counts expired entries, and a method that performs a
  request's deletions step by step (`download_dir.dfy`).

`text.dfy` holds the JavaScript string operations these rely on
(`String(n)`, `Number` on digit strings, `padStart`, `split` on one
character, `startsWith`), and `wrappers.dfy` the `Option` type standing for
`null`.

Three behaviours of the code are easy to misread; the model follows the
code:

- A reader might expect a request carrying only one of `startTime` and
  `endTime` to be rejected before any process runs. The code checks
  `startTime && endTime` (server.js:103) and otherwise delivers the
  untrimmed file (server.js:119-120): a lone time is ignored.
- A reader might expect the sweep to delete files aged five minutes or
  more. The comparison is strict (server.js:32): a file exactly five
  minutes old survives.
- A reader might expect unknown `format` and `quality` values to fall back
  to defaults. Only absent or empty values do (server.js:50-51); any other
  value is used as given: an unknown format takes the video branch and names
  the delivered file with that extension, and an unknown quality has its
  first `p` removed and is put in the height bound.

## Model

| member | source | states |
|---|---|---|
| Text.NatToString | server.js:139 | `String(h)` and its like write a non-empty run of decimal digits without a leading zero, a single digit exactly below 10; `Number` reads it back (Text.NumberOfNatToString) |
| Text.Number | server.js:131-134 | `Number` on a digit string (an empty field reads as 0); a digit string without a leading zero is exactly what `String` writes for that number |
| Text.Split | server.js:131-132 | `split(':')` returns at least one field; splitting what the renderer writes gives back its three fields (Duration.SplitThree) |
| Text.PadStart | server.js:139 | `padStart(2, '0')` pads on the left with zeros to width 2 and never truncates: a longer string is returned unchanged |
| Duration.CalculateDuration | server.js:130-139 | for clock strings with end not before start, the result is again a clock string, and parsing it with the same `split`/`Number` reading gives exactly `endSec - startSec` |
| Duration.FieldReadsBack | server.js:139 | a rendered field reads back as its number and is two digits wide exactly below 100, wider otherwise |
| Duration.RenderParses | server.js:131-139 | what the renderer writes, the clock parser reads back: three fields, each with its own number, and `h*3600 + m*60 + s` seconds |
| Duration.Decompose | server.js:135-138 | hours, minutes and seconds recombine to the duration, with minutes and seconds below 60 |
| Duration.DurationIsDifference | server.js:130-139 | for clock strings with end not before start, the result is a clock string of three fields, minutes and seconds two digits each and below 60, hours at least two digits, and it reads back as exactly `endSec - startSec` |
| Duration.HoursFieldWidth | server.js:136-139 | the hours field has two digits exactly when the duration is under 100 hours; `padStart` does not truncate longer ones |
| Duration.DurationExampleSeconds | server.js:130-139 | `00:01:10` to `00:02:05` gives `00:00:55` |
| Duration.DurationExampleHours | server.js:130-139 | `01:00:00` to `02:30:15` gives `01:30:15` |
| VideoId.RunEnd | server.js:161 | the greedy run `[^&\n?#]+` ends at the first delimiter or at the end of the string |
| VideoId.SearchFrom | server.js:164-166 | a match found by the left-to-right search of pattern 1 is non-empty and holds no delimiter |
| VideoId.ExtractVideoId | server.js:159-169 | the result is null or a non-empty string without `&`, `?`, `#` or newline |
| VideoId.MarkersExclusive | server.js:161 | at most one of the three markers occurs at any position, so the alternation's order never matters |
| VideoId.MaximalRunUnique | server.js:161 | the longest delimiter-free run from a position is unique |
| VideoId.MatchAtCharacterised | server.js:161 | the scan at one position succeeds exactly when a marker there is followed by a non-delimiter, and then captures the maximal run |
| VideoId.LeftmostMarkerWins | server.js:160-166 | when a marker occurs with a non-empty run and none occurs further left, the result is the maximal run after that leftmost occurrence |
| VideoId.MarkerResultIsLeftmost | server.js:160-166 | conversely, an id found by pattern 1 is the maximal run after the leftmost marker occurrence with a non-empty run |
| VideoId.NoMarkerFallsBack | server.js:162-168 | without such an occurrence the whole string is returned when it is exactly 11 characters of `[A-Za-z0-9_-]`, null otherwise |
| VideoId.NoMarkerInBareId | server.js:161-162 | none of the three markers occurs inside a string that matches pattern 2, since each holds a `.` that is no id character |
| VideoId.BareIdReturned | server.js:162-166 | every string of exactly 11 characters of `[A-Za-z0-9_-]` is returned unchanged |
| VideoId.MarkerThenId | server.js:160-166 | a URL with no `y` before a marker that is followed by an id and then a delimiter or the end yields that id |
| VideoId.WatchUrlExample | server.js:159-169 | `https://youtube.com/watch?v=dQw4w9WgXcQ&t=5` yields `dQw4w9WgXcQ` |
| VideoId.BareIdExample | server.js:162-166 | the bare id `dQw4w9WgXcQ` is returned unchanged |
| VideoId.NotAUrlExample | server.js:159-169 | `not a url` yields null |
| Commands.TempName | server.js:64-65 | the temp prefix `${timestamp}_temp`: its leading digits read back as the timestamp, followed by `_temp` |
| Commands.OutputName | server.js:66 | the output name `${timestamp}_output.${format}`: its leading digits read back as the timestamp, followed by `_output.` and the format |
| Commands.TimestampReadsBack | server.js:64-66 | a name made of the timestamp's digits and a tail starting with `_` has exactly those digits as its leading run, which read back as the timestamp |
| Commands.RemoveFirst | server.js:79 | removing the first `p` leaves a string without `p` unchanged and otherwise shortens it by one |
| Commands.RemoveFirstAtFirst | server.js:79 | only the first occurrence is removed: `a + "p" + b` with no `p` in `a` becomes `a + b` |
| Commands.HeightBound | server.js:79 | `quality.replace('p', '')`: a quality without `p` is used unchanged, any other loses exactly one character |
| Commands.FormatSelection | server.js:75-81 | the unbounded selection `bestvideo[ext=mp4]+bestaudio[ext=m4a]/best[ext=mp4]/best` is chosen exactly for `highest`; every other quality gets the height-bounded one |
| Commands.HeightBoundExamples | server.js:79 | `480p` gives `480`, `1080pp` gives `1080p`, `720` stays `720` |
| Commands.TierHeightBound | server.js:79-80 | a tier `<n>p` has height bound `<n>`, which reads back as `n` |
| Commands.TierSelection | server.js:78-81 | for a tier `<n>p`, `n` caps both the merged `bestvideo` clause and the `best` fallback |
| Commands.AudioExactlyForMp3 | server.js:71-84 | the yt-dlp command extracts mp3 audio exactly when the format is `mp3`; every other format takes the video branch |
| Commands.FetchCommand | server.js:71-84 | the yt-dlp command line; whatever the format, it ends with the output template `-o "<dir>/<timestamp>_temp.%(ext)s"` and the quoted URL |
| Commands.TrimCommand | server.js:106-107 | the ffmpeg command line on the downloaded file, seeking to `startTime` for `calculateDuration(startTime, endTime)` into the output file; it carries no contract of its own, and its use is stated by Pipeline.TrimCommandLine |
| Commands.NamesDistinct | server.js:64-66 | requests with different timestamps get different temp and output names |
| Commands.OutputNameTimestamp | server.js:66 | an output name determines its timestamp, whatever the formats |
| Commands.TimestampPrefix | server.js:95 | a name starting with `${t}_` belongs to timestamp `t` exactly, since digits never contain `_` |
| Commands.TempPrefixIsPerRequest | server.js:95 | `${t'}_temp...` starts with `${t}_temp` only when `t' == t`, and no output name starts with a temp prefix |
| Pipeline.Handle | server.js:48-128 | the handler: an invalid request is answered at once and a valid one runs yt-dlp first; every trace is answered exactly once, at its end, by an error reply or by a file sent and then deleted |
| Pipeline.AfterFetch | server.js:88-121 | the steps after the yt-dlp run end answered, and delete nothing unless the download was found; then the downloaded file, plus the trimmed output when a trim succeeded |
| Pipeline.TrimAndSend | server.js:103-118 | the trim branch ends answered and deletes the downloaded file, plus the output file when ffmpeg succeeded |
| Pipeline.Send | server.js:142-157 | sending a file answers the request with that file and then deletes it, and nothing else |
| Pipeline.WithPrefix | server.js:95 | the filtered listing holds exactly the listed names that start with the prefix |
| Pipeline.FirstFileIsFirstMatch | server.js:95-101 | `files[0]` is the first listed name with the temp prefix |
| Pipeline.SomeMatchHasFirst | server.js:95-99 | the filtered listing is non-empty exactly when some listed name has the prefix |
| Pipeline.QueryDefaults | server.js:50-51 | an absent or empty `format` and `quality` give the yt-dlp command for `mp4` at `480p`, and an untrimmed download is delivered as `${videoId}.mp4` |
| Pipeline.QueryValuesUsed | server.js:50-51 | a non-empty `format` and `quality` are used as given, whatever they are: in the yt-dlp command and as the extension of an untrimmed delivery |
| Pipeline.ValidationFirst | server.js:55-62 | an absent or empty URL gives 400 "URL is required", a URL without an id 400 "Invalid YouTube URL", both before any command; a command runs exactly when the request is valid, and the first is the yt-dlp command for the defaulted format and quality |
| Pipeline.FetchFailure | server.js:88-93 | a failed yt-dlp run is answered with 500 "Download failed. YouTube may be blocking the request." and nothing else happens |
| Pipeline.LocatesDownload | server.js:95-101 | with no listed name starting with `${timestamp}_temp` the answer is 500 "Downloaded file not found"; otherwise the first such name is deleted on every path |
| Pipeline.TrimsOnlyWithBothTimes | server.js:103-121 | ffmpeg runs exactly when the download was found and both `startTime` and `endTime` are truthy; a lone time is ignored |
| Pipeline.UntrimmedDelivery | server.js:119-121 | without trimming, the downloaded file is sent as `${videoId}.${format}` and then deleted |
| Pipeline.TrimmedDelivery | server.js:109-118 | with trimming, the downloaded file is deleted right after ffmpeg ends and before its outcome is looked at; failure gives 500 "Trimming failed", success sends `${timestamp}_output.${format}` as `trimmed_${videoId}.${format}` and then deletes it |
| Pipeline.TrimCommandLine | server.js:106-107 | for clock strings in order, ffmpeg is run on the downloaded file from `startTime` for the computed duration into the output file |
| Pipeline.AnswerExists | server.js:48-128 | every path of the handler ends in a reply call, `res.json` or `res.download` |
| Pipeline.SendIsLastButCleanup | server.js:142-157 | a request is answered once; after a file is sent, the only remaining step is deleting that file, whatever became of the transfer; an error reply is the last step |
| Pipeline.DeletedFiles | server.js:101-150 | a request deletes nothing if it stops before a download is found, the downloaded file otherwise, and also the trimmed output when a trim succeeded |
| Pipeline.DeletesOwnFiles | server.js:95-150 | every name the handler deletes starts with this request's temp prefix or is its output name string |
| Pipeline.SparesOtherRequests | server.js:95-101 | no temp or output name of a request made at another timestamp is among the names the handler deletes |
| DownloadDir.Directory.Unlink | server.js:148-151 | a successful deletion removes the entry if present and leaves the rest |
| DownloadDir.Directory.CleanupOldFiles | server.js:23-37 | visiting the entries one at a time in any order, the sweep leaves exactly the directory `Swept` describes and counts exactly the removed entries |
| DownloadDir.Directory.Apply | server.js:110-154 | performing a trace's deletions one at a time removes exactly the entries the trace deletes, except those whose deletion throws, which the handler swallows and which stay |
| DownloadDir.Directory.Download | server.js:48-154 | serving a request answers with the handler's reply and deletes exactly the handler's entries from the directory, except those whose deletion throws |
| DownloadDir.GoneExactlyWhenExpired | server.js:28-37 | after a sweep an entry is gone exactly when `now - mtime > 300000` and deleting it did not fail; survivors keep their times |
| DownloadDir.FiveMinutesExactly | server.js:32 | an entry exactly five minutes old survives; one a millisecond older is deleted |
| DownloadDir.CountIsShrinkage | server.js:27-34 | the count plus the entries left equals the entries before |
| DownloadDir.SweepIdempotent | server.js:20-21 | a second sweep at the same time deletes nothing more |
| DownloadDir.LaterSweepAbsorbs | server.js:20-21 | a sweep followed by a later one leaves what the later one alone leaves |
| DownloadDir.SweepExample | server.js:23-37 | files aged 1, 4, 6 and 10 minutes: two are deleted and the two youngest remain |

## Left out

- Duration.CalculateDuration: requires clock strings whose first three `:`-separated fields are decimal digits and an end not before the start. Other text is not covered: `Number` reads some of it as NaN, but much of it as finite numbers (`" 1"`, `"+1"`, `"1.5"`, `".5"`, `"1e1"`, `"0x10"`), so `0:0:1.5` to `0:0:10` gives the source a duration of 8.5 and `-t 00:00:8.5`; fractional, signed or exponent fields, and JavaScript's `%` and `Math.floor` on a negative duration, are floating-point behaviour the model does not cover.
- Duration.CalculateDuration: the fields are exact naturals; JavaScript numbers lose precision above 2^53, and `String` writes hours of 1e21 and more in exponent notation, so for such clock strings the source's result differs from the model's.
- Pipeline.TrimLine: when the times are truthy but outside the clock strings above, the trim event records no command line. For such times the source still runs ffmpeg, with a duration that may be a finite number (`00:00:8.5` above), NaN or negative; the event and its deletions are still modelled.
- Express, CORS, static files, the `/` and `/health` routes and server start-up (server.js:1-10, 171-200) are framework glue with no logic of their own.
- Running yt-dlp and ffmpeg, their 300-second timeout and 100 MB output cap (server.js:88, 109) become the success flags of `Pipeline.World`; the version probes at start-up and shell quoting of the command strings are not modelled.
- The choice of the download directory and of the yt-dlp program (server.js:12-18, 46) are parameters of `Pipeline.Env`.
- `Date.now()`, `setInterval` and the three-second `setTimeout` before the post-send deletion (server.js:20-21, 26, 64, 147) are parameters or ordering only.
- What yt-dlp and ffmpeg write into the directory is not added to the directory map; the listing after the download is an input.
- DownloadDir.Directory.CleanupOldFiles: modification times are whole milliseconds, while `stats.mtimeMs` (server.js:31-32) is a fractional number; an entry 300000.5 ms old, which the source deletes, has no counterpart in the model.
- DownloadDir.Directory.Unlink: models a deletion that succeeds; the `unlinkSync` failures the handler swallows (server.js:110, 152-154) are the `failing` parameter of `Apply` and `Download`.
- `statSync` or `unlinkSync` throwing during a sweep is the `failing` parameter; `readdirSync` throwing (server.js:41-43) ends the sweep with nothing deleted, which is not modelled.
- The `catch` at server.js:124-127 answers 500 "Server error occurred" to a synchronous exception anywhere in the `try` at server.js:68-122, which also encloses the `exec` call at server.js:88. No modelled trace ends with that answer: every valid request is assumed to start yt-dlp. One input that reaches it: a `url` with `%00` carries a NUL character, which `[^&\n?#]+` accepts and which `exec` refuses synchronously.
- Pipeline.Handle: the yt-dlp callback (server.js:88-122) runs after the `try` at server.js:68 has ended, so an exception thrown inside it is caught by nothing and ends the Node process: the request gets no reply, `files[0]` is not deleted, and every other request in flight is lost. Two such throws are not modelled: `fs.readdirSync` at server.js:95 (for instance EMFILE under load, or ENOENT once the download directory is removed), and `exec(trimCommand)` at server.js:109 refusing the command synchronously, as it does for `format=mp4%00` with both times present, since `path.join` at server.js:66 keeps the NUL in the output path and so in the ffmpeg command. For these inputs the model instead records the trim, a reply and the deletion of `files[0]`.
- `path.join` normalisation: paths are `dir + "/" + name`, and entries are handled by name.
- Pipeline.DeletesOwnFiles: holds of the name strings only. `format` is unchecked query input and `path.join` (server.js:66) resolves `..` in it: with `format=x/../y.mp4` the output path is `<dir>/y.mp4`, and with `x/../../../tmp/z.mp4` it lies outside the directory; ffmpeg writes that file and the handler sends and deletes it (server.js:107, 117, 150), which the model records as deleting the name `${timestamp}_output.x/../y.mp4`.
- Pipeline.SparesOtherRequests: for the same reason it speaks of names; a `format` with `..` can make the trimmed output path, and hence the deleted file, any entry of the directory or a file outside it.
- The error of the file transfer is not an input: it only selects a log message (server.js:144-146).
- Pipeline.AnswerExists: a reply in the trace is a call to `res.json` or `res.download`. A transfer error is passed to the callback and only logged (server.js:143-146), so when the entry is already gone, for instance deleted by a concurrent sweep, the client may receive no file; the model does not capture what reaches the client.
- Query parameters given more than once (which Express turns into arrays) are not modelled; every parameter is a string or absent.
- Concurrency between requests and the race between the sweep and in-flight requests on the shared directory are event-loop interleaving, not sequential logic.
- Console logging.
