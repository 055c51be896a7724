/** The names and command lines the `/download` handler builds: the
    per-request file names derived from the timestamp, the yt-dlp format
    selection and command, and the ffmpeg trim command. The commands are only
    built here; running them is outside the model. */
module Commands {
  import opened Text
  import Duration

  /** `${timestamp}_temp`: the prefix of whatever file yt-dlp writes. The
      timestamp reads back from the name's leading digits. */
  function TempName(timestamp: nat): (r: string)
    ensures AllDigits(r[..LeadingDigits(r)]) && Number(r[..LeadingDigits(r)]) == timestamp
    ensures r[LeadingDigits(r)..] == "_temp"
  {
    var d := NatToString(timestamp);
    TimestampReadsBack(timestamp, "_temp");
    d + "_temp"
  }

  /** `${timestamp}_output.${format}`: where ffmpeg writes a trimmed file. */
  function OutputName(timestamp: nat, format: string): (r: string)
    ensures AllDigits(r[..LeadingDigits(r)]) && Number(r[..LeadingDigits(r)]) == timestamp
    ensures r[LeadingDigits(r)..] == "_output." + format
  {
    TimestampReadsBack(timestamp, "_output." + format);
    NatToString(timestamp) + ("_output." + format)
  }

  /** A name made of the timestamp's digits and a tail starting with `_`
      gives the timestamp back. */
  lemma TimestampReadsBack(timestamp: nat, tail: string)
    requires tail != [] && tail[0] == '_'
    ensures var r := NatToString(timestamp) + tail;
            && LeadingDigits(r) == |NatToString(timestamp)|
            && AllDigits(r[..LeadingDigits(r)]) && Number(r[..LeadingDigits(r)]) == timestamp
            && r[LeadingDigits(r)..] == tail
  {
    var d := NatToString(timestamp);
    var r := d + tail;
    assert r[|d|] == '_';
    LeadingDigitsUnique(r, |d|);
    assert r[..|d|] == d;
    NumberOfNatToString(timestamp);
  }

  /** `path.join(dir, name)` for a plain entry name. */
  function JoinPath(dir: string, name: string): string {
    dir + "/" + name
  }

  /** `s.replace(c, "")` with a one-character string pattern: only the first
      occurrence is removed. */
  function RemoveFirst(s: string, c: char): (r: string)
    ensures c !in s ==> r == s
    ensures c in s ==> |r| == |s| - 1
  {
    if s == [] then s
    else if s[0] == c then s[1..]
    else [s[0]] + RemoveFirst(s[1..], c)
  }

  /** Every string holding `c` splits as `a + [c] + b` with no `c` in `a`;
      removing the first `c` leaves `a + b`. */
  lemma {:induction false} RemoveFirstAtFirst(a: string, c: char, b: string)
    requires c !in a
    ensures RemoveFirst(a + [c] + b, c) == a + b
  {
    if a == [] {
      assert a + [c] + b == [c] + b;
    } else {
      assert (a + [c] + b)[1..] == a[1..] + [c] + b;
      RemoveFirstAtFirst(a[1..], c, b);
      assert [a[0]] + (a[1..] + b) == a + b;
    }
  }

  /** `quality.replace('p', '')`: the height bound of a quality tier. */
  function HeightBound(quality: string): (r: string)
    ensures 'p' !in quality ==> r == quality
    ensures 'p' in quality ==> |r| == |quality| - 1
  {
    RemoveFirst(quality, 'p')
  }

  const HighestSelection: string := "bestvideo[ext=mp4]+bestaudio[ext=m4a]/best[ext=mp4]/best"

  /** The `-f` argument of the video command. */
  function FormatSelection(quality: string): (r: string)
    ensures r == HighestSelection <==> quality == "highest"
  {
    if quality == "highest" then HighestSelection
    else
      var n := HeightBound(quality);
      "bestvideo[height<=" + n + "][ext=mp4]+bestaudio[ext=m4a]/best[height<=" + n + "]"
  }

  const UserAgentHeader: string := "--add-header \"User-Agent:Mozilla/5.0\""

  /** The trailing `-o "<temp>.%(ext)s" "<url>"` arguments, common to both
      commands. */
  function OutputArguments(dir: string, timestamp: nat, url: string): string {
    "-o \"" + JoinPath(dir, TempName(timestamp)) + ".%(ext)s\" \"" + url + "\""
  }

  /** The options between the program and the user-agent header: audio
      extraction for `mp3`, otherwise a video download merged into mp4. */
  const AudioOptions: string := " -x --audio-format mp3 --audio-quality 0 "

  function VideoOptions(quality: string): string {
    " -f \"" + FormatSelection(quality) + "\" --merge-output-format mp4 "
  }

  function Options(format: string, quality: string): string {
    if format == "mp3" then AudioOptions else VideoOptions(quality)
  }

  /** The yt-dlp command line. Both branches end with the same output
      template and URL. */
  function FetchCommand(ytDlp: string, dir: string, timestamp: nat, format: string,
                        quality: string, url: string): (r: string)
    ensures exists head :: r == head + " " + OutputArguments(dir, timestamp, url)
  {
    var head := ytDlp + Options(format, quality) + UserAgentHeader;
    head + " " + OutputArguments(dir, timestamp, url)
  }

  /** The ffmpeg command that cuts `[startTime, startTime + duration)` out of
      the downloaded file. */
  function TrimCommand(downloaded: string, startTime: string, endTime: string, output: string): string
    requires Duration.WellFormedClock(startTime) && Duration.WellFormedClock(endTime)
    requires Duration.Seconds(startTime) <= Duration.Seconds(endTime)
  {
    "ffmpeg -i \"" + downloaded + "\" -ss " + startTime + " -t "
    + Duration.CalculateDuration(startTime, endTime)
    + " -c:v libx264 -preset ultrafast -c:a aac \"" + output + "\""
  }

  // ---------------------------------------------------------------------
  // Properties.

  /** A tier written `<n>p` has height bound `<n>`, which reads back as `n`. */
  lemma TierHeightBound(n: nat)
    ensures HeightBound(NatToString(n) + "p") == NatToString(n)
    ensures Number(HeightBound(NatToString(n) + "p")) == n
  {
    DigitsHaveNoSeparator(NatToString(n), 'p');
    RemoveFirstAtFirst(NatToString(n), 'p', "");
    assert NatToString(n) + ['p'] + "" == NatToString(n) + "p";
    NumberOfNatToString(n);
  }

  /** A bound from a tier other than `highest` caps both clauses of the
      selection: the merged pair and the single-file fallback. */
  lemma TierSelection(n: nat)
    ensures FormatSelection(NatToString(n) + "p")
         == "bestvideo[height<=" + NatToString(n) + "][ext=mp4]+bestaudio[ext=m4a]/best[height<="
            + NatToString(n) + "]"
  {
    TierHeightBound(n);
    var q := NatToString(n) + "p";
    assert q[|q| - 1] == 'p';
  }

  /** Only the first `p` is removed. */
  lemma HeightBoundExamples()
    ensures HeightBound("480p") == "480"
    ensures HeightBound("1080pp") == "1080p"
    ensures HeightBound("720") == "720"
  {
    RemoveFirstAtFirst("480", 'p', "");
    assert "480" + ['p'] + "" == "480p";
    RemoveFirstAtFirst("1080", 'p', "p");
    assert "1080" + ['p'] + "p" == "1080pp";
  }

  /** The command extracts audio exactly when the format is `mp3`. */
  lemma AudioExactlyForMp3(ytDlp: string, dir: string, timestamp: nat, format: string,
                           quality: string, url: string)
    ensures StartsWith(FetchCommand(ytDlp, dir, timestamp, format, quality, url), ytDlp + AudioOptions)
            <==> format == "mp3"
  {
    var tail := UserAgentHeader + " " + OutputArguments(dir, timestamp, url);
    var opts := Options(format, quality);
    FetchCommandParts(ytDlp, dir, timestamp, format, quality, url);
    if format == "mp3" {
      assert ytDlp + (opts + tail) == (ytDlp + AudioOptions) + tail;
      StartsWithConcat(ytDlp + AudioOptions, tail);
    } else {
      FlagLetters(quality);
      DifferentFlag(ytDlp, opts + tail, AudioOptions, 2);
    }
  }

  /** The command as the program followed by everything after it. */
  lemma FetchCommandParts(ytDlp: string, dir: string, timestamp: nat, format: string,
                          quality: string, url: string)
    ensures FetchCommand(ytDlp, dir, timestamp, format, quality, url)
            == ytDlp + (Options(format, quality) + (UserAgentHeader + " " + OutputArguments(dir, timestamp, url)))
  {
    Regroup(ytDlp, Options(format, quality), UserAgentHeader, " ", OutputArguments(dir, timestamp, url));
  }

  lemma Regroup(a: string, b: string, c: string, d: string, e: string)
    ensures a + b + c + d + e == a + (b + (c + d + e))
  {
  }

  /** The third character tells the two option blocks apart: `-x` against `-f`. */
  lemma FlagLetters(quality: string)
    ensures |AudioOptions| > 2 && AudioOptions[2] == 'x'
    ensures |VideoOptions(quality)| > 2 && VideoOptions(quality)[2] == 'f'
  {
  }

  lemma StartsWithConcat(p: string, rest: string)
    ensures StartsWith(p + rest, p)
  {
    assert (p + rest)[..|p|] == p;
  }

  /** A string starting with `p` agrees with `p` at each index of `p`. */
  lemma StartsWithAgreesAt(s: string, p: string, k: nat)
    ensures StartsWith(s, p) && k < |p| ==> s[k] == p[k]
  {
    if StartsWith(s, p) && k < |p| {
      assert s[..|p|][k] == s[k];
    }
  }

  /** Strings with a common head that differ `k` characters after it do not
      start with one another. */
  lemma DifferentFlag(h: string, a: string, b: string, k: nat)
    ensures k < |a| && k < |b| && a[k] != b[k] ==> !StartsWith(h + a, h + b)
  {
    StartsWithAgreesAt(h + a, h + b, |h| + k);
    if k < |a| && k < |b| {
      assert (h + a)[|h| + k] == a[k];
      assert (h + b)[|h| + k] == b[k];
    }
  }

  /** Digits never contain `_`, so a string that starts with `${t}_` names
      timestamp `t` exactly. */
  lemma TimestampPrefix(a: nat, b: nat, rest: string)
    requires StartsWith(NatToString(b) + rest, NatToString(a) + "_")
    requires rest != [] && rest[0] == '_'
    ensures a == b
  {
    var x, y := NatToString(a), NatToString(b);
    var s := y + rest;
    assert s[|y|] == '_';
    LeadingDigitsUnique(s, |y|);
    assert (x + "_")[|x|] == '_';
    LeadingDigitsUnique(x + "_", |x|);
    LeadingDigitsOfPrefix(s, x + "_");
    assert x == s[..|x|] == y;
    NatToStringInjective(a, b);
  }

  /** The prefix filter picks up only what yt-dlp wrote for this very
      timestamp: `${t'}_temp<ext>` starts with `${t}_temp` only when
      `t' == t`, and a trimmed output never does. */
  lemma TempPrefixIsPerRequest(t: nat, t': nat, ext: string, format: string)
    ensures StartsWith(TempName(t') + ext, TempName(t)) ==> t == t'
    ensures !StartsWith(OutputName(t', format), TempName(t))
  {
    var x, y := NatToString(t), NatToString(t');
    assert TempName(t') + ext == y + ("_temp" + ext);
    StartsWithUnderscore(TempName(t') + ext, t, "_temp", y, "_temp" + ext);
    NatToStringInjective(t, t');
    assert TempName(t) == x + "_temp";
    assert OutputName(t', format) == y + ("_output." + format);
    StartsWithUnderscore(OutputName(t', format), t, "_temp", y, "_output." + format);
    assert ("_output." + format)[1] == 'o';
    StartsWithAgreesAt("_output." + format, "_temp", 1);
  }

  /** A string `y + rest` that starts with `${t}` + `tag` (a tag opening
      with `_`) has `y == String(t)`, and then `rest` starts with `tag`. */
  lemma StartsWithUnderscore(s: string, t: nat, tag: string, y: string, rest: string)
    requires tag != [] && tag[0] == '_'
    requires AllDigits(y) && rest != [] && rest[0] == '_' && s == y + rest
    ensures StartsWith(s, NatToString(t) + tag) ==> y == NatToString(t) && StartsWith(rest, tag)
  {
    var x := NatToString(t);
    assert s[|y|] == '_';
    LeadingDigitsUnique(s, |y|);
    assert (x + tag)[|x|] == '_';
    LeadingDigitsUnique(x + tag, |x|);
    LeadingDigitsOfPrefix(s, x + tag);
    if StartsWith(s, x + tag) {
      assert x == s[..|x|] == y;
      assert rest[..|tag|] == s[|x|..|x| + |tag|] == (x + tag)[|x|..];
    }
  }

  /** Distinct timestamps give distinct temp and output names. */
  lemma NamesDistinct(t: nat, t': nat, format: string)
    requires t != t'
    ensures TempName(t) != TempName(t')
    ensures OutputName(t, format) != OutputName(t', format)
  {
    NatToStringInjective(t, t');
    var x, y := NatToString(t), NatToString(t');
    StartsWithUnderscore(TempName(t'), t, "_temp", y, "_temp");
    StartsWithUnderscore(OutputName(t', format), t, "_output." + format, y, "_output." + format);
  }

  /** An output name determines its timestamp, whatever the formats. */
  lemma OutputNameTimestamp(a: nat, f: string, b: nat, g: string)
    ensures OutputName(a, f) == OutputName(b, g) ==> a == b
  {
    var s := OutputName(a, f);
    assert s == NatToString(a) + ("_output." + f);
    assert OutputName(b, g) == NatToString(b) + ("_output." + g);
    StartsWithConcat(OutputName(b, g), []);
    assert OutputName(b, g) + [] == OutputName(b, g);
    StartsWithUnderscore(s, b, "_output." + g, NatToString(a), "_output." + f);
    NatToStringInjective(a, b);
  }
}
