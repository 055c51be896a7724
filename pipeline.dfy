/** The decisions of the `/download` handler and of `sendFileAndCleanup`:
    validation, the yt-dlp run, locating the downloaded file by its prefix,
    the optional ffmpeg trim, delivery, and which directory entries are
    deleted on the way. The outside world is reduced to inputs: whether the
    yt-dlp run succeeded, what the download directory lists afterwards, and
    whether the ffmpeg run succeeded. The handler's behaviour is a trace of
    events in the order the source performs them. */
module Pipeline {
  import opened Wrappers
  import opened Text
  import VideoId
  import Duration
  import Commands

  /** The query string of a request; `None` is an absent parameter. */
  datatype Query = Query(url: Option<string>, format: Option<string>, quality: Option<string>,
                         startTime: Option<string>, endTime: Option<string>)

  /** What the handler is given besides the query: the yt-dlp program, the
      download directory and `Date.now()` at the time of the request. */
  datatype Env = Env(ytDlp: string, dir: string, timestamp: nat)

  /** What the outside world answers: the yt-dlp run's success, the names the
      download directory lists once it is done (in `readdirSync` order), and
      the ffmpeg run's success. */
  datatype World = World(fetchOk: bool, listing: seq<string>, trimOk: bool)

  /** A JavaScript string value is truthy when it is present and non-empty. */
  predicate Truthy(v: Option<string>) {
    v.Some? && v.value != ""
  }

  /** `v || fallback`. */
  function OrElse(v: Option<string>, fallback: string): string {
    if Truthy(v) then v.value else fallback
  }

  datatype Response =
    | Failure(status: nat, error: string)       // a JSON `{ error }` body with a status
    | Attachment(name: string, fileName: string) // a directory entry sent under a download name

  /** The handler's observable steps. `Unlink` removes a directory entry if
      it exists; a missing entry is skipped silently. A `Trim` whose times lie
      outside the clock strings of `Duration` carries no command. */
  datatype Event =
    | Fetch(command: string)
    | Trim(trimCommand: Option<string>)
    | Unlink(name: string)
    | Reply(response: Response)

  const UrlRequired: string := "URL is required"
  const InvalidUrl: string := "Invalid YouTube URL"
  const FetchFailed: string := "Download failed. YouTube may be blocking the request."
  const NotFound: string := "Downloaded file not found"
  const TrimFailed: string := "Trimming failed"

  /** `listing.filter(f => f.startsWith(prefix))`. */
  function WithPrefix(listing: seq<string>, prefix: string): (files: seq<string>)
    ensures forall i :: 0 <= i < |files| ==> StartsWith(files[i], prefix)
    ensures forall f :: f in files <==> f in listing && StartsWith(f, prefix)
  {
    if listing == [] then []
    else if StartsWith(listing[0], prefix) then [listing[0]] + WithPrefix(listing[1..], prefix)
    else WithPrefix(listing[1..], prefix)
  }

  /** The ffmpeg command line, when the two times are clock strings in order. */
  function TrimLine(dir: string, downloaded: string, startTime: string, endTime: string,
                    output: string): Option<string>
  {
    if Duration.WellFormedClock(startTime) && Duration.WellFormedClock(endTime)
       && Duration.Seconds(startTime) <= Duration.Seconds(endTime)
    then Some(Commands.TrimCommand(Commands.JoinPath(dir, downloaded), startTime, endTime,
                                   Commands.JoinPath(dir, output)))
    else None
  }

  /** `sendFileAndCleanup`: the file is sent, and once the transfer has
      finished it is deleted. The transfer's error is only logged, so it
      changes nothing here. */
  function Send(name: string, fileName: string): (r: seq<Event>)
    ensures Answered(r) && Reply(Attachment(name, fileName)) in r
    ensures Unlinked(r) == {name}
  {
    UnlinkedPair(Reply(Attachment(name, fileName)), Unlink(name));
    [Reply(Attachment(name, fileName)), Unlink(name)]
  }

  /** The trim branch: the downloaded file is deleted as soon as ffmpeg ends,
      before its outcome is looked at. */
  function TrimAndSend(dir: string, downloaded: string, output: string, startTime: string,
                       endTime: string, id: string, format: string, trimOk: bool): (r: seq<Event>)
    ensures Answered(r)
    ensures Unlinked(r) == if trimOk then {downloaded, output} else {downloaded}
  {
    var head := [Trim(TrimLine(dir, downloaded, startTime, endTime, output)), Unlink(downloaded)];
    var rest := if trimOk then Send(output, "trimmed_" + id + "." + format)
                else [Reply(Failure(500, TrimFailed))];
    AnsweredAfter(head, rest);
    UnlinkedAppend(head, rest);
    UnlinkedPair(head[0], head[1]);
    UnlinkedPair(rest[0], rest[0]);
    head + rest
  }

  /** Everything after the yt-dlp run. Nothing is deleted unless the
      download was found; then the downloaded file is, and the trimmed output
      too when a trim succeeded. */
  function AfterFetch(q: Query, env: Env, w: World, id: string, format: string): (r: seq<Event>)
    ensures Answered(r)
    ensures var files := WithPrefix(w.listing, Commands.TempName(env.timestamp));
            var found := w.fetchOk && files != [];
            var trim := Truthy(q.startTime) && Truthy(q.endTime);
            && (!found ==> Unlinked(r) == {})
            && (found && !(trim && w.trimOk) ==> Unlinked(r) == {files[0]})
            && (found && trim && w.trimOk ==> Unlinked(r) == {files[0], Commands.OutputName(env.timestamp, format)})
  {
    if !w.fetchOk then
      UnlinkedPair(Reply(Failure(500, FetchFailed)), Reply(Failure(500, FetchFailed)));
      [Reply(Failure(500, FetchFailed))]
    else
      var files := WithPrefix(w.listing, Commands.TempName(env.timestamp));
      if files == [] then
        UnlinkedPair(Reply(Failure(500, NotFound)), Reply(Failure(500, NotFound)));
        [Reply(Failure(500, NotFound))]
      else if Truthy(q.startTime) && Truthy(q.endTime) then
        TrimAndSend(env.dir, files[0], Commands.OutputName(env.timestamp, format),
                    q.startTime.value, q.endTime.value, id, format, w.trimOk)
      else Send(files[0], id + "." + format)
  }

  /** The `/download` handler. An invalid request is answered at once; a
      valid one runs yt-dlp first. Either way the trace ends answered. */
  function Handle(q: Query, env: Env, w: World): (t: seq<Event>)
    ensures Answered(t)
    ensures !Valid(q) <==> t[0].Reply?
    ensures Valid(q) <==> t[0].Fetch?
  {
    if !Truthy(q.url) then [Reply(Failure(400, UrlRequired))]
    else
      var id := VideoId.ExtractVideoId(q.url.value);
      if id.None? then [Reply(Failure(400, InvalidUrl))]
      else
        var format := OrElse(q.format, "mp4");
        var quality := OrElse(q.quality, "480p");
        var rest := AfterFetch(q, env, w, id.value, format);
        var t := [Fetch(Commands.FetchCommand(env.ytDlp, env.dir, env.timestamp, format, quality, q.url.value))]
                 + rest;
        AnsweredAfter([t[0]], rest);
        assert t == [t[0]] + rest;
        t
  }

  // ---------------------------------------------------------------------
  // Views of a trace.

  /** The request passes validation: a truthy URL with a recognisable id. */
  predicate Valid(q: Query) {
    Truthy(q.url) && VideoId.ExtractVideoId(q.url.value).Some?
  }

  predicate RunsCommand(trace: seq<Event>) {
    exists i :: 0 <= i < |trace| && (trace[i].Fetch? || trace[i].Trim?)
  }

  predicate Trims(trace: seq<Event>) {
    exists i :: 0 <= i < |trace| && trace[i].Trim?
  }

  /** A trace is answered exactly once, at its end: by an error reply as
      its last event, or by a file sent and then deleted as its last two. */
  predicate Answered(t: seq<Event>) {
    || (|t| >= 1 && t[|t| - 1].Reply? && t[|t| - 1].response.Failure?
        && forall j :: 0 <= j < |t| - 1 ==> !t[j].Reply?)
    || (|t| >= 2 && t[|t| - 2].Reply? && t[|t| - 2].response.Attachment?
        && t[|t| - 1] == Unlink(t[|t| - 2].response.name)
        && forall j :: 0 <= j < |t| - 2 ==> !t[j].Reply?)
  }

  /** Steps without a reply before an answered trace leave it answered. */
  lemma AnsweredAfter(a: seq<Event>, b: seq<Event>)
    requires forall j :: 0 <= j < |a| ==> !a[j].Reply?
    requires Answered(b)
    ensures Answered(a + b)
  {
    var t := a + b;
    assert t[|t| - 1] == b[|b| - 1];
    if |b| >= 2 {
      assert t[|t| - 2] == b[|b| - 2];
    }
    forall j | 0 <= j < |t| && !(j < |a|)
      ensures t[j] == b[j - |a|]
    {
    }
  }

  /** In an answered trace the reply is unique; a sent file is followed only
      by its deletion, and an error reply comes last. */
  lemma AnsweredReplies(t: seq<Event>, k: int)
    requires Answered(t) && 0 <= k < |t| && t[k].Reply?
    ensures forall j :: 0 <= j < |t| && j != k ==> !t[j].Reply?
    ensures t[k].response.Attachment? ==> t[k + 1..] == [Unlink(t[k].response.name)]
    ensures t[k].response.Failure? ==> k == |t| - 1
  {
  }

  /** The names a trace deletes. */
  function Unlinked(trace: seq<Event>): set<string> {
    if trace == [] then {}
    else (if trace[0].Unlink? then {trace[0].name} else {}) + Unlinked(trace[1..])
  }

  /** The position of the first listed name carrying the prefix. */
  predicate FirstWithPrefix(listing: seq<string>, prefix: string, i: int) {
    0 <= i < |listing| && StartsWith(listing[i], prefix)
    && forall j :: 0 <= j < i ==> !StartsWith(listing[j], prefix)
  }

  // ---------------------------------------------------------------------
  // Properties.

  /** `files[0]` is the first listed name with the prefix. */
  lemma {:induction false} FirstFileIsFirstMatch(listing: seq<string>, prefix: string, i: int)
    requires FirstWithPrefix(listing, prefix, i)
    ensures WithPrefix(listing, prefix) != [] && WithPrefix(listing, prefix)[0] == listing[i]
  {
    if i > 0 {
      assert !StartsWith(listing[0], prefix);
      assert FirstWithPrefix(listing[1..], prefix, i - 1) by {
        forall j | 0 <= j < i - 1
          ensures !StartsWith(listing[1..][j], prefix)
        {
          assert listing[1..][j] == listing[j + 1];
        }
      }
      FirstFileIsFirstMatch(listing[1..], prefix, i - 1);
    }
  }

  /** Some listed name has the prefix exactly when there is a first one. */
  lemma {:induction false} SomeMatchHasFirst(listing: seq<string>, prefix: string)
    ensures WithPrefix(listing, prefix) != [] <==> exists i :: FirstWithPrefix(listing, prefix, i)
  {
    if WithPrefix(listing, prefix) != [] {
      var f := WithPrefix(listing, prefix)[0];
      var k :| 0 <= k < |listing| && listing[k] == f && StartsWith(f, prefix);
      var i := FirstIndex(listing, prefix, k);
      assert FirstWithPrefix(listing, prefix, i);
    } else {
      forall i | 0 <= i < |listing|
        ensures !StartsWith(listing[i], prefix)
      {
        assert listing[i] in listing;
      }
    }
  }

  /** Walks down from a match to the first one. */
  function FirstIndex(listing: seq<string>, prefix: string, k: nat): (i: nat)
    requires k < |listing| && StartsWith(listing[k], prefix)
    ensures FirstWithPrefix(listing, prefix, i) && i <= k
    decreases k
  {
    if forall j :: 0 <= j < k ==> !StartsWith(listing[j], prefix) then k
    else
      var j :| 0 <= j < k && StartsWith(listing[j], prefix);
      FirstIndex(listing, prefix, j)
  }

  /** An absent or empty URL, and a URL without a video id, are answered
      with 400 before any command runs; a valid request always runs yt-dlp
      first. */
  lemma ValidationFirst(q: Query, env: Env, w: World)
    ensures !Truthy(q.url) ==> Handle(q, env, w) == [Reply(Failure(400, UrlRequired))]
    ensures Truthy(q.url) && !Valid(q) ==> Handle(q, env, w) == [Reply(Failure(400, InvalidUrl))]
    ensures RunsCommand(Handle(q, env, w)) <==> Valid(q)
    ensures Valid(q) ==>
              Handle(q, env, w)[0]
              == Fetch(Commands.FetchCommand(env.ytDlp, env.dir, env.timestamp, OrElse(q.format, "mp4"),
                                             OrElse(q.quality, "480p"), q.url.value))
  {
    var t := Handle(q, env, w);
    if Valid(q) {
      assert t[0].Fetch?;
    } else {
      assert |t| == 1 && t[0].Reply?;
    }
  }

  /** `req.query.format || 'mp4'` and `req.query.quality || '480p'`: without
      a format and a quality (absent or empty) a valid request runs the
      yt-dlp command for `mp4` at `480p`, and an untrimmed download is
      delivered as `${videoId}.mp4`. */
  lemma QueryDefaults(q: Query, env: Env, w: World, i: int)
    requires Valid(q) && !Truthy(q.format) && !Truthy(q.quality)
    ensures Handle(q, env, w)[0]
            == Fetch(Commands.FetchCommand(env.ytDlp, env.dir, env.timestamp, "mp4", "480p", q.url.value))
    ensures w.fetchOk && !(Truthy(q.startTime) && Truthy(q.endTime))
            && FirstWithPrefix(w.listing, Commands.TempName(env.timestamp), i)
            ==> Handle(q, env, w)[1]
                == Reply(Attachment(w.listing[i], VideoId.ExtractVideoId(q.url.value).value + ".mp4"))
  {
    FirstCommand(q, env, w, "mp4", "480p");
    if w.fetchOk && !(Truthy(q.startTime) && Truthy(q.endTime))
       && FirstWithPrefix(w.listing, Commands.TempName(env.timestamp), i) {
      UntrimmedDelivery(q, env, w, i);
      var id := VideoId.ExtractVideoId(q.url.value).value;
      assert id + "." + "mp4" == id + ".mp4";
    }
  }

  /** The first step of a valid request, for the format and quality it ends
      up with. */
  lemma FirstCommand(q: Query, env: Env, w: World, format: string, quality: string)
    requires Valid(q) && OrElse(q.format, "mp4") == format && OrElse(q.quality, "480p") == quality
    ensures Handle(q, env, w)[0]
            == Fetch(Commands.FetchCommand(env.ytDlp, env.dir, env.timestamp, format, quality, q.url.value))
  {
  }

  /** A non-empty format and quality are used exactly as given, whatever
      they are: the command is built from them and an untrimmed download is
      delivered with the given format as its extension. */
  lemma QueryValuesUsed(q: Query, env: Env, w: World, i: int)
    requires Valid(q) && Truthy(q.format) && Truthy(q.quality)
    ensures Handle(q, env, w)[0]
            == Fetch(Commands.FetchCommand(env.ytDlp, env.dir, env.timestamp, q.format.value, q.quality.value,
                                           q.url.value))
    ensures w.fetchOk && !(Truthy(q.startTime) && Truthy(q.endTime))
            && FirstWithPrefix(w.listing, Commands.TempName(env.timestamp), i)
            ==> Handle(q, env, w)[1]
                == Reply(Attachment(w.listing[i], VideoId.ExtractVideoId(q.url.value).value + "." + q.format.value))
  {
    if w.fetchOk && !(Truthy(q.startTime) && Truthy(q.endTime))
       && FirstWithPrefix(w.listing, Commands.TempName(env.timestamp), i) {
      UntrimmedDelivery(q, env, w, i);
    }
  }

  /** A failed yt-dlp run is answered with 500 and nothing else happens. */
  lemma FetchFailure(q: Query, env: Env, w: World)
    requires Valid(q) && !w.fetchOk
    ensures |Handle(q, env, w)| == 2
    ensures Handle(q, env, w)[1] == Reply(Failure(500, FetchFailed))
  {
  }

  /** After a successful run: with no listed name starting with
      `${timestamp}_temp` the answer is 500 and nothing is deleted; otherwise
      the first such name is the downloaded file, and it is deleted on every
      path. */
  lemma LocatesDownload(q: Query, env: Env, w: World)
    requires Valid(q) && w.fetchOk
    ensures WithPrefix(w.listing, Commands.TempName(env.timestamp)) == []
            ==> Handle(q, env, w)[1..] == [Reply(Failure(500, NotFound))]
    ensures forall i :: FirstWithPrefix(w.listing, Commands.TempName(env.timestamp), i) ==>
              w.listing[i] in Unlinked(Handle(q, env, w))
  {
    var t := Handle(q, env, w);
    var id := VideoId.ExtractVideoId(q.url.value).value;
    assert t[1..] == AfterFetch(q, env, w, id, OrElse(q.format, "mp4"));
    DeletedFiles(q, env, w);
    forall i | FirstWithPrefix(w.listing, Commands.TempName(env.timestamp), i)
      ensures w.listing[i] in Unlinked(t)
    {
      FirstFileIsFirstMatch(w.listing, Commands.TempName(env.timestamp), i);
    }
  }

  /** ffmpeg runs exactly when the downloaded file was found and both
      `startTime` and `endTime` are truthy; a lone time is ignored. */
  lemma TrimsOnlyWithBothTimes(q: Query, env: Env, w: World)
    ensures Trims(Handle(q, env, w))
            <==> Valid(q) && w.fetchOk && WithPrefix(w.listing, Commands.TempName(env.timestamp)) != []
                 && Truthy(q.startTime) && Truthy(q.endTime)
  {
    var t := Handle(q, env, w);
    if Valid(q) && w.fetchOk && WithPrefix(w.listing, Commands.TempName(env.timestamp)) != [] {
      if Truthy(q.startTime) && Truthy(q.endTime) {
        assert t[1].Trim?;
      } else {
        assert |t| == 3 && !t[0].Trim? && !t[1].Trim? && !t[2].Trim?;
      }
    } else if Valid(q) {
      assert |t| == 2 && !t[0].Trim? && !t[1].Trim?;
    } else {
      assert |t| == 1 && !t[0].Trim?;
    }
  }

  /** Without trimming, the downloaded file itself is sent as
      `${videoId}.${format}` and then deleted. */
  lemma UntrimmedDelivery(q: Query, env: Env, w: World, i: int)
    requires Valid(q) && w.fetchOk && !(Truthy(q.startTime) && Truthy(q.endTime))
    requires FirstWithPrefix(w.listing, Commands.TempName(env.timestamp), i)
    ensures Handle(q, env, w)[1..]
            == [Reply(Attachment(w.listing[i], VideoId.ExtractVideoId(q.url.value).value + "." + OrElse(q.format, "mp4"))),
                Unlink(w.listing[i])]
  {
    FirstFileIsFirstMatch(w.listing, Commands.TempName(env.timestamp), i);
  }

  /** With trimming, the downloaded file is deleted right after ffmpeg ends
      and before its outcome decides the answer: 500 on failure, otherwise
      `${timestamp}_output.${format}` sent as `trimmed_${videoId}.${format}`
      and then deleted. */
  lemma TrimmedDelivery(q: Query, env: Env, w: World, i: int)
    requires Valid(q) && w.fetchOk && Truthy(q.startTime) && Truthy(q.endTime)
    requires FirstWithPrefix(w.listing, Commands.TempName(env.timestamp), i)
    ensures var t := Handle(q, env, w);
            var format := OrElse(q.format, "mp4");
            var output := Commands.OutputName(env.timestamp, format);
            var id := VideoId.ExtractVideoId(q.url.value).value;
            && t[1].Trim? && t[2] == Unlink(w.listing[i])
            && (!w.trimOk ==> t[3..] == [Reply(Failure(500, TrimFailed))])
            && (w.trimOk ==> t[3..] == [Reply(Attachment(output, "trimmed_" + id + "." + format)), Unlink(output)])
  {
    FirstFileIsFirstMatch(w.listing, Commands.TempName(env.timestamp), i);
    var t := Handle(q, env, w);
    var format := OrElse(q.format, "mp4");
    var id := VideoId.ExtractVideoId(q.url.value).value;
    var output := Commands.OutputName(env.timestamp, format);
    var rest := AfterFetch(q, env, w, id, format);
    assert t == [t[0]] + rest;
    assert rest == TrimAndSend(env.dir, w.listing[i], output, q.startTime.value, q.endTime.value,
                               id, format, w.trimOk);
    TrimAndSendSteps(env.dir, w.listing[i], output, q.startTime.value, q.endTime.value, id, format, w.trimOk);
    assert t[1..] == rest;
  }

  lemma TrimAndSendSteps(dir: string, downloaded: string, output: string, startTime: string,
                         endTime: string, id: string, format: string, trimOk: bool)
    ensures var r := TrimAndSend(dir, downloaded, output, startTime, endTime, id, format, trimOk);
            && r[0].Trim? && r[1] == Unlink(downloaded)
            && (!trimOk ==> r[2..] == [Reply(Failure(500, TrimFailed))])
            && (trimOk ==> r[2..] == [Reply(Attachment(output, "trimmed_" + id + "." + format)), Unlink(output)])
  {
    var r := TrimAndSend(dir, downloaded, output, startTime, endTime, id, format, trimOk);
    var head := [Trim(TrimLine(dir, downloaded, startTime, endTime, output)), Unlink(downloaded)];
    var rest := if trimOk then Send(output, "trimmed_" + id + "." + format)
                else [Reply(Failure(500, TrimFailed))];
    assert r == head + rest;
    assert r[2..] == rest;
  }

  /** With clock strings in order, the trim step runs
      `ffmpeg -i <downloaded> -ss <start> -t <duration> ... <output>`. */
  lemma TrimCommandLine(q: Query, env: Env, w: World, i: int)
    requires Valid(q) && w.fetchOk && Truthy(q.startTime) && Truthy(q.endTime)
    requires FirstWithPrefix(w.listing, Commands.TempName(env.timestamp), i)
    requires Duration.WellFormedClock(q.startTime.value) && Duration.WellFormedClock(q.endTime.value)
    requires Duration.Seconds(q.startTime.value) <= Duration.Seconds(q.endTime.value)
    ensures Handle(q, env, w)[1]
            == Trim(Some(Commands.TrimCommand(
                 Commands.JoinPath(env.dir, w.listing[i]), q.startTime.value, q.endTime.value,
                 Commands.JoinPath(env.dir, Commands.OutputName(env.timestamp, OrElse(q.format, "mp4"))))))
  {
    FirstFileIsFirstMatch(w.listing, Commands.TempName(env.timestamp), i);
  }

  /** Every request is answered. */
  lemma AnswerExists(q: Query, env: Env, w: World)
    ensures exists k :: 0 <= k < |Handle(q, env, w)| && Handle(q, env, w)[k].Reply?
  {
    var t := Handle(q, env, w);
    if !t[|t| - 1].Reply? {
      assert t[|t| - 2].Reply?;
    }
  }

  /** Once a file is sent, the only thing left to do is delete that file,
      whatever became of the transfer. */
  lemma SendIsLastButCleanup(q: Query, env: Env, w: World, k: int)
    requires 0 <= k < |Handle(q, env, w)| && Handle(q, env, w)[k].Reply?
    ensures forall j :: 0 <= j < |Handle(q, env, w)| && j != k ==> !Handle(q, env, w)[j].Reply?
    ensures Handle(q, env, w)[k].response.Attachment?
            ==> Handle(q, env, w)[k + 1..] == [Unlink(Handle(q, env, w)[k].response.name)]
    ensures Handle(q, env, w)[k].response.Failure? ==> k == |Handle(q, env, w)| - 1
  {
    AnsweredReplies(Handle(q, env, w), k);
  }

  lemma {:induction false} UnlinkedAppend(a: seq<Event>, b: seq<Event>)
    ensures Unlinked(a + b) == Unlinked(a) + Unlinked(b)
  {
    if a == [] {
      assert a + b == b;
    } else {
      assert (a + b)[1..] == a[1..] + b;
      UnlinkedAppend(a[1..], b);
    }
  }

  lemma UnlinkedPair(a: Event, b: Event)
    ensures Unlinked([a]) == if a.Unlink? then {a.name} else {}
    ensures Unlinked([a, b]) == Unlinked([a]) + Unlinked([b])
  {
    assert [a, b][1..] == [b];
    assert [b][1..] == [];
  }

  /** Exactly which entries a request deletes: none when it stops before a
      download was found; the downloaded file otherwise; and, when a trim
      succeeded, the trimmed output as well. */
  lemma DeletedFiles(q: Query, env: Env, w: World)
    ensures var t := Handle(q, env, w);
            var files := WithPrefix(w.listing, Commands.TempName(env.timestamp));
            var found := Valid(q) && w.fetchOk && files != [];
            var trim := Truthy(q.startTime) && Truthy(q.endTime);
            && (!found ==> Unlinked(t) == {})
            && (found && !(trim && w.trimOk) ==> Unlinked(t) == {files[0]})
            && (found && trim && w.trimOk
                ==> Unlinked(t) == {files[0], Commands.OutputName(env.timestamp, OrElse(q.format, "mp4"))})
  {
    var t := Handle(q, env, w);
    if Valid(q) {
      var id := VideoId.ExtractVideoId(q.url.value).value;
      var format := OrElse(q.format, "mp4");
      var rest := AfterFetch(q, env, w, id, format);
      assert t == [t[0]] + rest;
      UnlinkedAppend([t[0]], rest);
      UnlinkedPair(t[0], t[0]);
    }
  }

  /** The request deletes only its own files: the downloaded file, which
      starts with `${timestamp}_temp`, and the trimmed output
      `${timestamp}_output.${format}`. */
  lemma DeletesOwnFiles(q: Query, env: Env, w: World)
    ensures forall n :: n in Unlinked(Handle(q, env, w)) ==>
              || StartsWith(n, Commands.TempName(env.timestamp))
              || n == Commands.OutputName(env.timestamp, OrElse(q.format, "mp4"))
  {
    DeletedFiles(q, env, w);
  }

  /** Consequently no file of a request made at another time is ever
      deleted: neither what yt-dlp wrote for it nor its trimmed output. */
  lemma SparesOtherRequests(q: Query, env: Env, w: World, other: nat, ext: string, format: string)
    requires other != env.timestamp
    ensures Commands.TempName(other) + ext !in Unlinked(Handle(q, env, w))
    ensures Commands.OutputName(other, format) !in Unlinked(Handle(q, env, w))
  {
    DeletesOwnFiles(q, env, w);
    var own := OrElse(q.format, "mp4");
    Commands.TempPrefixIsPerRequest(env.timestamp, other, ext, format);
    Commands.TempPrefixIsPerRequest(other, env.timestamp, ext, own);
    Commands.StartsWithConcat(Commands.TempName(other), ext);
    Commands.OutputNameTimestamp(other, format, env.timestamp, own);
  }
}
