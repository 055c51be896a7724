/** `extractVideoId`: two regular expressions tried in order.
    1. `/(?:youtube\.com\/watch\?v=|youtu\.be\/|youtube\.com\/embed\/)([^&\n?#]+)/`,
       an unanchored search: at the leftmost position where one of the three
       markers is followed by at least one character that is not `&`, `\n`,
       `?` or `#`, the capture is the longest such run.
    2. `/^([a-zA-Z0-9_-]{11})$/`, the whole string as a bare 11-character id.
    The first pattern that matches gives the id; otherwise the result is null.
    The regular expressions are modelled as a scan over the string. */
module VideoId {
  import opened Wrappers

  const WatchMarker: string := "youtube.com/watch?v="
  const ShortMarker: string := "youtu.be/"
  const EmbedMarker: string := "youtube.com/embed/"

  predicate IsMarker(m: string) {
    m == WatchMarker || m == ShortMarker || m == EmbedMarker
  }

  /** The negated class `[^&\n?#]`. */
  predicate IsDelimiter(c: char) {
    c == '&' || c == '\n' || c == '?' || c == '#'
  }

  predicate NoDelimiter(id: string) {
    forall k :: 0 <= k < |id| ==> !IsDelimiter(id[k])
  }

  /** The class `[a-zA-Z0-9_-]`. */
  predicate IsIdChar(c: char) {
    ('a' <= c <= 'z') || ('A' <= c <= 'Z') || ('0' <= c <= '9') || c == '_' || c == '-'
  }

  /** Pattern 2: the whole string is exactly 11 id characters. */
  predicate IsBareId(s: string) {
    |s| == 11 && forall k :: 0 <= k < |s| ==> IsIdChar(s[k])
  }

  /** `m` occurs in `s` starting at index `i`. For `i <= |s|` this is
      `Text.StartsWith(s[i..], m)`; it is stated on the index so that the
      search below can speak of positions without slicing. */
  predicate HasAt(s: string, i: nat, m: string) {
    i + |m| <= |s| && s[i..i + |m|] == m
  }

  /** The alternation, tried at position `i` in its written order. */
  function MarkerAt(s: string, i: nat): (r: Option<string>)
    ensures r.Some? ==> IsMarker(r.value) && HasAt(s, i, r.value)
  {
    if HasAt(s, i, WatchMarker) then Some(WatchMarker)
    else if HasAt(s, i, ShortMarker) then Some(ShortMarker)
    else if HasAt(s, i, EmbedMarker) then Some(EmbedMarker)
    else None
  }

  /** The end of the greedy run `[^&\n?#]*` that starts at `j`. */
  function RunEnd(s: string, j: nat): (e: nat)
    requires j <= |s|
    ensures j <= e <= |s|
    ensures forall k :: j <= k < e ==> !IsDelimiter(s[k])
    ensures e < |s| ==> IsDelimiter(s[e])
    decreases |s| - j
  {
    if j == |s| || IsDelimiter(s[j]) then j else RunEnd(s, j + 1)
  }

  /** Pattern 1 tried at position `i`: the capture, when the marker is
      followed by a non-empty run. */
  function MatchAt(s: string, i: nat): Option<string> {
    match MarkerAt(s, i)
    case None => None
    case Some(m) =>
      var e := RunEnd(s, i + |m|);
      if e > i + |m| then Some(s[i + |m|..e]) else None
  }

  /** Pattern 1 searched from position `i` rightwards. */
  function SearchFrom(s: string, i: nat): (r: Option<string>)
    requires i <= |s|
    ensures r.Some? ==> r.value != [] && NoDelimiter(r.value)
    decreases |s| - i
  {
    if MatchAt(s, i).Some? then MatchAt(s, i)
    else if i == |s| then None
    else SearchFrom(s, i + 1)
  }

  function ExtractVideoId(url: string): (r: Option<string>)
    ensures r.Some? ==> r.value != [] && NoDelimiter(r.value)
  {
    match SearchFrom(url, 0)
    case Some(id) => Some(id)
    case None => if IsBareId(url) then Some(url) else None
  }

  // ---------------------------------------------------------------------
  // A declarative reading of pattern 1, independent of the scan.

  /** Marker `m` occurs at `i` and is followed by a character of the run. */
  ghost predicate MarkerMatch(s: string, i: nat, m: string) {
    IsMarker(m) && HasAt(s, i, m) && i + |m| < |s| && !IsDelimiter(s[i + |m|])
  }

  ghost predicate NoMarkerMatchBefore(s: string, i: nat) {
    forall i': nat, m: string :: i' < i ==> !MarkerMatch(s, i', m)
  }

  /** `id` is the longest delimiter-free run starting at `j`. */
  ghost predicate IsMaximalRun(s: string, j: nat, id: string) {
    j + |id| <= |s| && s[j..j + |id|] == id && NoDelimiter(id)
    && (j + |id| == |s| || IsDelimiter(s[j + |id|]))
  }

  /** At any position at most one of the three markers can occur, so the
      order of the alternation does not matter. */
  lemma MarkersExclusive(s: string, i: nat, m1: string, m2: string)
    requires IsMarker(m1) && IsMarker(m2)
    requires HasAt(s, i, m1) && HasAt(s, i, m2)
    ensures m1 == m2
  {
    HasAtChar(s, i, m1, 5);
    HasAtChar(s, i, m2, 5);
    if |m1| > 12 && |m2| > 12 {
      HasAtChar(s, i, m1, 12);
      HasAtChar(s, i, m2, 12);
    }
  }

  lemma MismatchRulesOut(s: string, i: nat, m: string, k: nat)
    requires k < |m| && i + k < |s| && s[i + k] != m[k]
    ensures !HasAt(s, i, m)
  {
    if i + |m| <= |s| {
      assert s[i..i + |m|][k] != m[k];
    }
  }

  lemma HasAtChar(s: string, i: nat, m: string, k: nat)
    requires HasAt(s, i, m) && k < |m|
    ensures s[i + k] == m[k]
  {
    assert s[i..i + |m|][k] == s[i + k];
  }

  lemma MaximalRunUnique(s: string, j: nat, a: string, b: string)
    requires IsMaximalRun(s, j, a) && IsMaximalRun(s, j, b)
    ensures a == b
  {
    MaximalRunEndsAtRunEnd(s, j, a);
    MaximalRunEndsAtRunEnd(s, j, b);
  }

  /** `RunEnd` finds exactly the end of the maximal run. */
  lemma {:induction false} MaximalRunEndsAtRunEnd(s: string, j: nat, id: string)
    requires IsMaximalRun(s, j, id)
    ensures RunEnd(s, j) == j + |id|
    decreases |id|
  {
    if id != [] {
      assert s[j] == id[0];
      assert s[j + 1..j + 1 + |id[1..]|] == id[1..];
      MaximalRunEndsAtRunEnd(s, j + 1, id[1..]);
    }
  }

  /** The scan at one position agrees with the declarative reading. */
  lemma MatchAtCharacterised(s: string, i: nat, m: string)
    requires IsMarker(m) && HasAt(s, i, m)
    ensures MatchAt(s, i).Some? <==> MarkerMatch(s, i, m)
    ensures MatchAt(s, i).Some? ==> IsMaximalRun(s, i + |m|, MatchAt(s, i).value)
  {
    MarkersExclusive(s, i, m, MarkerAt(s, i).value);
  }

  lemma {:induction false} SearchFromFindsFirst(s: string, i: nat, k: nat, m: string)
    requires i <= k && MarkerMatch(s, k, m)
    requires forall i', m' :: i <= i' < k ==> !MarkerMatch(s, i', m')
    ensures SearchFrom(s, i).Some? && IsMaximalRun(s, k + |m|, SearchFrom(s, i).value)
    decreases k - i
  {
    MatchAtCharacterised(s, k, m);
    if i < k {
      if MatchAt(s, i).Some? {
        var m' := MarkerAt(s, i).value;
        MatchAtCharacterised(s, i, m');
        assert false;
      }
      SearchFromFindsFirst(s, i + 1, k, m);
    }
  }

  lemma {:induction false} SearchFromSound(s: string, i: nat)
    requires i <= |s| && SearchFrom(s, i).Some?
    ensures exists k: nat, m: string :: i <= k && MarkerMatch(s, k, m)
              && (forall i', m' :: i <= i' < k ==> !MarkerMatch(s, i', m'))
              && IsMaximalRun(s, k + |m|, SearchFrom(s, i).value)
    decreases |s| - i
  {
    if MatchAt(s, i).Some? {
      var m := MarkerAt(s, i).value;
      MatchAtCharacterised(s, i, m);
      assert MarkerMatch(s, i, m) && IsMaximalRun(s, i + |m|, SearchFrom(s, i).value);
    } else {
      NoMatchHere(s, i);
      SearchFromSound(s, i + 1);
      var k: nat, m: string :| i + 1 <= k && MarkerMatch(s, k, m)
        && (forall i', m' :: i + 1 <= i' < k ==> !MarkerMatch(s, i', m'))
        && IsMaximalRun(s, k + |m|, SearchFrom(s, i + 1).value);
      assert forall i', m' :: i <= i' < k ==> !MarkerMatch(s, i', m');
    }
  }

  lemma NoMatchHere(s: string, i: nat)
    requires MatchAt(s, i).None?
    ensures forall m :: !MarkerMatch(s, i, m)
  {
    forall m | IsMarker(m) && HasAt(s, i, m) ensures !MarkerMatch(s, i, m) {
      MatchAtCharacterised(s, i, m);
    }
  }

  /** When a marker occurs with a non-empty run, the result is the longest
      run after the leftmost such occurrence. */
  lemma LeftmostMarkerWins(s: string, i: nat, m: string)
    requires MarkerMatch(s, i, m) && NoMarkerMatchBefore(s, i)
    ensures ExtractVideoId(s).Some?
    ensures IsMaximalRun(s, i + |m|, ExtractVideoId(s).value)
  {
    SearchFromFindsFirst(s, 0, i, m);
  }

  /** Conversely, an id found by pattern 1 comes from such an occurrence. */
  lemma MarkerResultIsLeftmost(s: string)
    requires SearchFrom(s, 0).Some?
    ensures exists i: nat, m: string :: MarkerMatch(s, i, m) && NoMarkerMatchBefore(s, i)
              && IsMaximalRun(s, i + |m|, ExtractVideoId(s).value)
  {
    SearchFromSound(s, 0);
  }

  /** Without a marker occurrence, pattern 2 decides: the whole string when
      it is a bare id, null otherwise. */
  lemma NoMarkerFallsBack(s: string)
    requires forall i: nat, m: string :: !MarkerMatch(s, i, m)
    ensures ExtractVideoId(s) == if IsBareId(s) then Some(s) else None
  {
    if SearchFrom(s, 0).Some? {
      SearchFromSound(s, 0);
    }
  }

  /** Every marker has a `.` at index 5 or 7, and `.` is no id character:
      no marker occurs inside a bare id. */
  lemma NoMarkerInBareId(s: string, i: nat, m: string)
    ensures IsBareId(s) && IsMarker(m) ==> !HasAt(s, i, m)
  {
    if IsBareId(s) && IsMarker(m) && HasAt(s, i, m) {
      HasAtChar(s, i, m, 5);
      HasAtChar(s, i, m, 7);
    }
  }

  /** Pattern 2: a string of exactly 11 characters of `[A-Za-z0-9_-]` is
      returned unchanged. */
  lemma BareIdReturned(s: string)
    requires IsBareId(s)
    ensures ExtractVideoId(s) == Some(s)
  {
    forall i: nat, m: string
      ensures !MarkerMatch(s, i, m)
    {
      NoMarkerInBareId(s, i, m);
    }
    NoMarkerFallsBack(s);
  }

  // ---------------------------------------------------------------------
  // Examples.

  /** A marker whose `y` is the first `y` of the string, followed by a
      non-empty run `id`, yields `id`. */
  lemma FirstYMarker(s: string, i: nat, m: string, id: string)
    requires IsMarker(m) && HasAt(s, i, m)
    requires forall k :: 0 <= k < i ==> s[k] != 'y'
    requires id != [] && IsMaximalRun(s, i + |m|, id)
    ensures ExtractVideoId(s) == Some(id)
  {
    assert s[i + |m|] == id[0];
    forall i': nat, m': string | i' < i && IsMarker(m') ensures !MarkerMatch(s, i', m') {
      MismatchRulesOut(s, i', m', 0);
    }
    LeftmostMarkerWins(s, i, m);
    MaximalRunUnique(s, i + |m|, id, ExtractVideoId(s).value);
  }

  /** A URL with no `y` before the marker yields the delimiter-terminated id
      that follows the marker. */
  lemma MarkerThenId(prefix: string, m: string, id: string, rest: string)
    requires IsMarker(m)
    requires forall k :: 0 <= k < |prefix| ==> prefix[k] != 'y'
    requires id != [] && NoDelimiter(id)
    requires rest == [] || IsDelimiter(rest[0])
    ensures ExtractVideoId(prefix + m + id + rest) == Some(id)
  {
    var s := prefix + m + id + rest;
    assert s == prefix + m + (id + rest);
    Embedded(prefix, m, id + rest);
    RunAfter(prefix + m, id, rest);
    forall k | 0 <= k < |prefix| ensures s[k] != 'y' {
      assert s[k] == prefix[k];
    }
    FirstYMarker(s, |prefix|, m, id);
  }

  lemma Embedded(a: string, b: string, c: string)
    ensures HasAt(a + b + c, |a|, b)
  {
    assert (a + b + c)[|a|..|a| + |b|] == b;
  }

  lemma RunAfter(p: string, id: string, rest: string)
    requires NoDelimiter(id) && (rest == [] || IsDelimiter(rest[0]))
    ensures IsMaximalRun(p + id + rest, |p|, id)
  {
    var s := p + id + rest;
    assert s[|p|..|p| + |id|] == id;
    if rest != [] {
      assert s[|p| + |id|] == rest[0];
    }
  }

  lemma WatchUrlExample(url: string)
    requires url == "https://" + "youtube.com/watch?v=" + "dQw4w9WgXcQ" + "&t=5"
    ensures ExtractVideoId(url) == Some("dQw4w9WgXcQ")
  {
    MarkerThenId("https://", WatchMarker, "dQw4w9WgXcQ", "&t=5");
  }

  /** A string with no `y` holds no marker. */
  lemma NoMarkerWithoutY(s: string)
    requires forall k :: 0 <= k < |s| ==> s[k] != 'y'
    ensures forall i: nat, m: string :: !MarkerMatch(s, i, m)
  {
    forall i: nat, m: string | IsMarker(m) && i < |s| ensures !MarkerMatch(s, i, m) {
      MismatchRulesOut(s, i, m, 0);
    }
  }

  lemma BareIdExample()
    ensures ExtractVideoId("dQw4w9WgXcQ") == Some("dQw4w9WgXcQ")
  {
    NoMarkerWithoutY("dQw4w9WgXcQ");
    NoMarkerFallsBack("dQw4w9WgXcQ");
  }

  lemma NotAUrlExample()
    ensures ExtractVideoId("not a url") == None
  {
    NoMarkerWithoutY("not a url");
    NoMarkerFallsBack("not a url");
  }
}
