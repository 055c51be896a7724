/** The download directory, shared by every request: a map from entry name
    to modification time in milliseconds. `cleanupOldFiles` sweeps it every
    five minutes; the `/download` handler deletes its own files from it. */
module DownloadDir {
  import Pipeline

  /** Five minutes, in milliseconds. */
  const MaxAge: int := 5 * 60 * 1000

  /** Older than five minutes at time `now`; an entry exactly five minutes
      old is not. */
  predicate Expired(mtime: int, now: int) {
    now - mtime > MaxAge
  }

  /** The entries a sweep at `now` deletes. `failing` holds the entries on
      which `statSync` or `unlinkSync` throws: the sweep skips those without
      counting them. */
  function Removed(entries: map<string, int>, now: int, failing: set<string>): set<string> {
    set n | n in entries && Expired(entries[n], now) && n !in failing
  }

  /** The directory after a sweep at `now`. */
  function Swept(entries: map<string, int>, now: int, failing: set<string>): map<string, int> {
    entries - Removed(entries, now, failing)
  }

  class Directory {
    var entries: map<string, int>

    constructor(entries: map<string, int>)
      ensures this.entries == entries
    {
      this.entries := entries;
    }

    /** A successful `unlinkSync`: deletes the entry if it exists; a missing
        one is ignored. Its callers skip the entries on which it fails. */
    method Unlink(name: string)
      modifies this
      ensures entries == old(entries) - {name}
    {
      if name in entries {
        entries := entries - {name};
      }
    }

    /** `cleanupOldFiles`: visits the entries one by one, in whatever order
        the listing gives, deletes each expired one and counts it. */
    method CleanupOldFiles(now: int, failing: set<string>) returns (cleaned: nat)
      modifies this
      ensures entries == Swept(old(entries), now, failing)
      ensures cleaned == |Removed(old(entries), now, failing)|
    {
      ghost var before := entries;
      ghost var removed := Removed(before, now, failing);
      ghost var visited: set<string> := {};
      var files := entries.Keys;
      cleaned := 0;
      while files != {}
        invariant files + visited == before.Keys && files !! visited
        invariant entries == before - (removed * visited)
        invariant cleaned == |removed * visited|
        decreases |files|
      {
        var file :| file in files;
        assert file in entries && entries[file] == before[file];
        assert file in removed <==> file !in failing && Expired(entries[file], now);
        SweepStep(before, removed, visited, file);
        if file !in failing && Expired(entries[file], now) {
          Unlink(file);
          cleaned := cleaned + 1;
        }
        files := files - {file};
        visited := visited + {file};
      }
      assert removed * visited == removed;
    }

    /** Performs the deletions of a handler trace, one event at a time.
        `failing` holds the entries on which `unlinkSync` throws: the handler
        swallows the error and the entry stays. */
    method Apply(trace: seq<Pipeline.Event>, failing: set<string>)
      modifies this
      ensures entries == old(entries) - (Pipeline.Unlinked(trace) - failing)
    {
      var i := 0;
      while i < |trace|
        invariant 0 <= i <= |trace|
        invariant entries == old(entries) - (Pipeline.Unlinked(trace[..i]) - failing)
      {
        Pipeline.UnlinkedAppend(trace[..i], [trace[i]]);
        Pipeline.UnlinkedPair(trace[i], trace[i]);
        assert trace[..i + 1] == trace[..i] + [trace[i]];
        if trace[i].Unlink? && trace[i].name !in failing {
          Unlink(trace[i].name);
        }
        i := i + 1;
      }
      assert trace[..|trace|] == trace;
    }

    /** Serves one `/download` request against this directory: the answer
        is the handler's, and the handler's deletions happen except those
        that fail. */
    method Download(q: Pipeline.Query, env: Pipeline.Env, w: Pipeline.World, failing: set<string>)
      returns (response: Pipeline.Response)
      modifies this
      ensures Pipeline.Reply(response) in Pipeline.Handle(q, env, w)
      ensures entries == old(entries) - (Pipeline.Unlinked(Pipeline.Handle(q, env, w)) - failing)
    {
      var trace := Pipeline.Handle(q, env, w);
      Pipeline.AnswerExists(q, env, w);
      var k :| 0 <= k < |trace| && trace[k].Reply?;
      Apply(trace, failing);
      response := trace[k].response;
    }
  }

  /** One visited entry: the deleted set grows by it exactly when it is one
      of those the sweep removes. */
  lemma SweepStep(before: map<string, int>, removed: set<string>, visited: set<string>, file: string)
    requires file !in visited
    ensures file in removed ==> before - (removed * (visited + {file})) == (before - (removed * visited)) - {file}
    ensures file in removed ==> |removed * (visited + {file})| == |removed * visited| + 1
    ensures file !in removed ==> removed * (visited + {file}) == removed * visited
  {
    if file in removed {
      assert removed * (visited + {file}) == (removed * visited) + {file};
    }
  }

  // ---------------------------------------------------------------------
  // Properties of the sweep.

  /** An entry is gone after a sweep exactly when it was older than five
      minutes and could be deleted; every survivor keeps its time. */
  lemma GoneExactlyWhenExpired(entries: map<string, int>, now: int, failing: set<string>, n: string)
    requires n in entries
    ensures n !in Swept(entries, now, failing) <==> Expired(entries[n], now) && n !in failing
    ensures n in Swept(entries, now, failing) ==> Swept(entries, now, failing)[n] == entries[n]
  {
  }

  /** The boundary is strict: an entry exactly five minutes old survives,
      one a millisecond older does not (unless deleting it fails). */
  lemma FiveMinutesExactly(entries: map<string, int>, now: int, failing: set<string>, n: string)
    requires n in entries && n !in failing
    ensures entries[n] == now - MaxAge ==> n in Swept(entries, now, failing)
    ensures entries[n] == now - MaxAge - 1 ==> n !in Swept(entries, now, failing)
  {
  }

  /** The count is the number of entries that disappeared. */
  lemma CountIsShrinkage(entries: map<string, int>, now: int, failing: set<string>)
    ensures |Removed(entries, now, failing)| + |Swept(entries, now, failing).Keys| == |entries.Keys|
  {
    var r := Removed(entries, now, failing);
    assert Swept(entries, now, failing).Keys == entries.Keys - r;
    SubsetSize(entries.Keys, r);
  }

  lemma {:induction false} SubsetSize<T>(a: set<T>, b: set<T>)
    requires b <= a
    ensures |a - b| + |b| == |a|
  {
    if b != {} {
      var x :| x in b;
      assert a - (b - {x}) == (a - b) + {x};
      SubsetSize(a, b - {x});
    }
  }

  /** A second sweep at the same time removes nothing more. */
  lemma SweepIdempotent(entries: map<string, int>, now: int, failing: set<string>)
    ensures Removed(Swept(entries, now, failing), now, failing) == {}
    ensures Swept(Swept(entries, now, failing), now, failing) == Swept(entries, now, failing)
  {
    var s := Swept(entries, now, failing);
    assert Removed(s, now, failing) == {};
    assert s - {} == s;
  }

  /** Sweeping at `now` and again at a later time leaves what one sweep at
      the later time leaves: earlier sweeps never keep an entry alive. */
  lemma LaterSweepAbsorbs(entries: map<string, int>, now: int, later: int, failing: set<string>)
    requires now <= later
    ensures Swept(Swept(entries, now, failing), later, failing) == Swept(entries, later, failing)
  {
    var a := Swept(Swept(entries, now, failing), later, failing);
    var b := Swept(entries, later, failing);
    assert a.Keys == b.Keys;
  }

  /** Four files 1, 4, 6 and 10 minutes old: the sweep deletes the two older
      than five minutes. */
  method SweepExample() returns (cleaned: nat, left: set<string>)
    ensures cleaned == 2 && left == {"a", "b"}
  {
    var now := 3600000;
    var dir := new Directory(map["a" := now - 60000, "b" := now - 240000,
                                 "c" := now - 360000, "d" := now - 600000]);
    ghost var start := dir.entries;
    cleaned := dir.CleanupOldFiles(now, {});
    assert Removed(start, now, {}) == {"c", "d"};
    left := dir.entries.Keys;
    assert left == {"a", "b"};
  }
}
