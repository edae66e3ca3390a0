/** What the log of a pairing run looks like: an archive search stops at its first
    successful download; every image download directly follows the report of its
    code; archives are fetched only after their image is there; and no code is
    reported or fetched twice in one run, nor one the gate refuses. */
module RunLog {
  import opened Text
  import opened Parser
  import opened Paths
  import opened Pairing

  /** The events logged on the way from `a` to `c` through `b` are those logged
      from `a` to `b` and then from `b` to `c`. */
  lemma Between(a: seq<Event>, b: seq<Event>, c: seq<Event>)
    requires a <= b <= c
    ensures c[|a|..] == b[|a|..] + c[|b|..]
  {
  }

  // ----- archive search -------------------------------------------------------

  /** The events of one archive search: archive downloads and abandoned dialogs
      only; every download before the last event failed; and the search succeeded
      exactly when its last event is a download that did not fail. */
  ghost predicate ArchiveLog(events: seq<Event>, found: bool) {
    (forall j :: 0 <= j < |events| ==>
       events[j] == SourceError || (events[j].Fetch? && events[j].kind == Archive))
    && (forall j :: 0 <= j < |events| - 1 && events[j].Fetch? ==> events[j].outcome == Failed)
    && (found <==> |events| > 0 && events[|events| - 1].Fetch? && events[|events| - 1].outcome != Failed)
  }

  /** An unsuccessful stretch of a search followed by more of it is one search. */
  lemma ArchiveLogConcat(a: seq<Event>, b: seq<Event>, found: bool)
    requires ArchiveLog(a, false) && ArchiveLog(b, found)
    ensures ArchiveLog(a + b, found)
  {
    if b == [] {
      assert a + b == a;
    } else {
      forall j | 0 <= j < |a + b| - 1 && (a + b)[j].Fetch?
        ensures (a + b)[j].outcome == Failed
      {
        if j >= |a| {
          assert (a + b)[j] == b[j - |a|];
        } else if j < |a| - 1 {
          assert (a + b)[j] == a[j];
        }
      }
    }
  }

  /** A single archive download is a search, successful unless it failed. */
  lemma OneFetchLog(path: string, o: Outcome)
    ensures ArchiveLog([Fetch(Archive, path, o)], o != Failed)
  {
  }

  /** A failed archive download logged between `a` and `b`, then a search from
      `b` to `c`, make one search from `a` to `c`. */
  lemma AfterFailedFetch(a: seq<Event>, b: seq<Event>, c: seq<Event>, path: string, found: bool)
    requires a <= b <= c && b[|a|..] == [Fetch(Archive, path, Failed)]
    requires ArchiveLog(c[|b|..], found)
    ensures ArchiveLog(c[|a|..], found)
  {
    Between(a, b, c);
    OneFetchLog(path, Failed);
    ArchiveLogConcat(b[|a|..], c[|b|..], found);
  }

  /** The message loop of the archive search downloads nothing but archives, and
      every download it logs but the last failed; it ends with success exactly
      when its last download succeeded or found its file already there. That it
      tries every candidate is `ArchiveMessagesTried`. */
  lemma {:induction false} ArchiveMessagesLog(st: State, env: Env, description: string, ms: seq<Msg>)
    ensures var r := ArchiveMessages(st, env, description, ms);
            st.log <= r.st.log && ArchiveLog(r.st.log[|st.log|..], r.end.Found?)
    decreases |ms|
  {
    var r := ArchiveMessages(st, env, description, ms);
    if ms == [] {
      assert r.st.log[|st.log|..] == [];
    } else {
      var st1 := Poll(st, env);
      if !st1.running {
        assert r.st.log[|st.log|..] == [];
      } else {
        match ArchiveCandidate(ms[0])
        case None =>
          ArchiveMessagesLog(st1, env, description, ms[1..]);
        case Some(ext) =>
          var path := Join(env.archivesDir, description + ext);
          var d := Download(st1, env, ms[0], path, Archive);
          var o := if path in st1.existing then Skipped else if d.ok then Downloaded else Failed;
          assert d.st.log[|st.log|..] == [Fetch(Archive, path, o)];
          OneFetchLog(path, o);
          if !d.ok {
            ArchiveMessagesLog(d.st, env, description, ms[1..]);
            AfterFailedFetch(st.log, d.st.log, r.st.log, path, r.end.Found?);
          }
      }
    }
  }

  /** `search_and_download_archive_for_code` as a whole: the same holds across
      dialogs, an abandoned dialog adding only its error to the log. A download
      that does not fail ends the search with success, and every download of a
      search that ends without success failed. */
  lemma {:induction false} ArchiveDialogsLog(
    st: State, env: Env, code: string, description: string, ds: seq<Dialog>)
    ensures var r := ArchiveDialogs(st, env, code, description, ds);
            st.log <= r.st.log && ArchiveLog(r.st.log[|st.log|..], r.end.Found?)
    decreases |ds|
  {
    var r := ArchiveDialogs(st, env, code, description, ds);
    if ds == [] {
      assert r.st.log[|st.log|..] == [];
    } else {
      var st1 := Poll(st, env);
      if !st1.running {
        assert r.st.log[|st.log|..] == [];
      } else {
        var stream := env.remote.search(ds[0], code);
        var m := ArchiveMessages(st1, env, description, stream.messages);
        ArchiveMessagesLog(st1, env, description, stream.messages);
        if m.end.Exhausted? {
          var st2 := if stream.raised then m.st.(log := m.st.log + [SourceError]) else m.st;
          ArchiveDialogsLog(st2, env, code, description, ds[1..]);
          LogThenRest(st.log, m.st.log, st2.log, r.st.log, r.end.Found?);
        }
      }
    }
  }

  /** The step of `ArchiveDialogsLog` past a first dialog whose search took the
      log from `before` to `searched` without success; `mid` adds the error of an
      abandoned dialog, if any, and the rest of the search takes the log on to
      `after`. */
  lemma LogThenRest(before: seq<Event>, searched: seq<Event>, mid: seq<Event>, after: seq<Event>, found: bool)
    requires before <= searched && ArchiveLog(searched[|before|..], false)
    requires mid == searched || mid == searched + [SourceError]
    requires mid <= after && ArchiveLog(after[|mid|..], found)
    ensures before <= after && ArchiveLog(after[|before|..], found)
  {
    var head := mid[|before|..];
    assert after[|before|..] == head + after[|mid|..];
    if mid != searched {
      assert head == searched[|before|..] + [SourceError];
      ArchiveLogConcat(searched[|before|..], [SourceError], false);
    }
    ArchiveLogConcat(head, after[|mid|..], found);
  }

  /** The message loop of the archive search, entered while running, ends
      stopped exactly when `is_running` has been read as false. */
  lemma {:induction false} ArchiveMessagesStops(st: State, env: Env, description: string, ms: seq<Msg>)
    requires st.running
    ensures var r := ArchiveMessages(st, env, description, ms);
            r.end.Stopped? <==> !r.st.running
    decreases |ms|
  {
    if ms != [] {
      var st1 := Poll(st, env);
      if st1.running {
        match ArchiveCandidate(ms[0])
        case None =>
          ArchiveMessagesStops(st1, env, description, ms[1..]);
        case Some(ext) =>
          var d := Download(st1, env, ms[0], Join(env.archivesDir, description + ext), Archive);
          if !d.ok {
            ArchiveMessagesStops(d.st, env, description, ms[1..]);
          }
      }
    }
  }

  /** `search_and_download_archive_for_code`, entered while running, returns false
      because of a stop exactly when `is_running` has been read as false; when it
      returns true, or runs out of dialogs, the run is still going. */
  lemma {:induction false} ArchiveDialogsStops(
    st: State, env: Env, code: string, description: string, ds: seq<Dialog>)
    requires st.running
    ensures var r := ArchiveDialogs(st, env, code, description, ds);
            r.end.Stopped? <==> !r.st.running
    decreases |ds|
  {
    if ds != [] {
      var st1 := Poll(st, env);
      if st1.running {
        var stream := env.remote.search(ds[0], code);
        var m := ArchiveMessages(st1, env, description, stream.messages);
        ArchiveMessagesStops(st1, env, description, stream.messages);
        if m.end.Exhausted? {
          var st2 := if stream.raised then m.st.(log := m.st.log + [SourceError]) else m.st;
          ArchiveDialogsStops(st2, env, code, description, ds[1..]);
        }
      }
    }
  }

  /** Where the archive search saves message `m`, when `m` is a candidate: the
      archives directory joined with the image's description followed by the
      extension of the attached name, or `.rar` when it has none. */
  function CandidatePath(env: Env, description: string, m: Msg): Option<string> {
    match ArchiveCandidate(m)
    case None => None
    case Some(ext) => Some(Join(env.archivesDir, description + ext))
  }

  /** `CandidatePath` for one search, as a function of the message alone. */
  function SearchPaths(env: Env, description: string): Msg -> Option<string> {
    m => CandidatePath(env, description, m)
  }

  /** Every download in `events` saves one of `ms` where `path` says. */
  ghost predicate SavedFrom(events: seq<Event>, path: Msg -> Option<string>, ms: seq<Msg>) {
    forall e :: e in events && e.Fetch? ==> exists m :: m in ms && path(m) == Some(e.path)
  }

  /** Every download in `events` saves one of the messages found by searching
      one of `ds` for `code`, where `path` says. */
  ghost predicate SavedFromDialogs(
    events: seq<Event>, path: Msg -> Option<string>, search: (Dialog, string) -> Stream,
    code: string, ds: seq<Dialog>)
  {
    forall e :: e in events && e.Fetch? ==>
      exists k :: 0 <= k < |ds| && exists m :: m in search(ds[k], code).messages && path(m) == Some(e.path)
  }

  /** Every download of the message loop of the archive search saves one of its
      messages where `CandidatePath` says. */
  lemma {:induction false} ArchiveMessagesPaths(st: State, env: Env, description: string, ms: seq<Msg>)
    ensures var r := ArchiveMessages(st, env, description, ms);
            st.log <= r.st.log && SavedFrom(r.st.log[|st.log|..], SearchPaths(env, description), ms)
    decreases |ms|
  {
    var r := ArchiveMessages(st, env, description, ms);
    var paths := SearchPaths(env, description);
    var st1 := Poll(st, env);
    if ms == [] || !st1.running {
      assert r.st.log[|st.log|..] == [];
    } else {
      match ArchiveCandidate(ms[0])
      case None =>
        ArchiveMessagesPaths(st1, env, description, ms[1..]);
        SavedFromMore(r.st.log[|st.log|..], paths, ms);
      case Some(ext) =>
        var path := Join(env.archivesDir, description + ext);
        var d := Download(st1, env, ms[0], path, Archive);
        assert paths(ms[0]) == Some(path);
        if d.ok {
          assert r.st.log[|d.st.log|..] == [];
        } else {
          ArchiveMessagesPaths(d.st, env, description, ms[1..]);
        }
        FetchThenRest(st.log, d.st.log, r.st.log, paths, ms, path);
    }
  }

  /** A download `SavedFrom` the messages past the first is one from all of them. */
  lemma SavedFromMore(events: seq<Event>, path: Msg -> Option<string>, ms: seq<Msg>)
    requires ms != [] && SavedFrom(events, path, ms[1..])
    ensures SavedFrom(events, path, ms)
  {
    forall e | e in events && e.Fetch?
      ensures exists m :: m in ms && path(m) == Some(e.path)
    {
      var m :| m in ms[1..] && path(m) == Some(e.path);
      assert m in ms;
    }
  }

  /** One download to the first message's path, then downloads `SavedFrom` the
      rest, are all `SavedFrom` the whole of `ms`. */
  lemma FetchThenRest(
    before: seq<Event>, mid: seq<Event>, after: seq<Event>,
    path: Msg -> Option<string>, ms: seq<Msg>, p: string)
    requires ms != [] && path(ms[0]) == Some(p)
    requires |mid| == |before| + 1 && mid[..|before|] == before
    requires mid[|before|].Fetch? && mid[|before|].path == p
    requires mid <= after && SavedFrom(after[|mid|..], path, ms[1..])
    ensures before <= after && SavedFrom(after[|before|..], path, ms)
  {
    forall e | e in after[|before|..] && e.Fetch?
      ensures exists m :: m in ms && path(m) == Some(e.path)
    {
      var i :| 0 <= i < |after[|before|..]| && after[|before|..][i] == e;
      if i == 0 {
        assert e == mid[|before|];
      } else {
        assert e == after[|mid|..][i - 1];
        var m :| m in ms[1..] && path(m) == Some(e.path);
        assert m in ms;
      }
    }
  }

  /** `search_and_download_archive_for_code` saves only archives found by
      searching one of the dialogs for the code, each where `CandidatePath` says. */
  lemma {:induction false} ArchiveDialogsPaths(
    st: State, env: Env, code: string, description: string, ds: seq<Dialog>)
    ensures var r := ArchiveDialogs(st, env, code, description, ds);
            st.log <= r.st.log
            && SavedFromDialogs(r.st.log[|st.log|..], SearchPaths(env, description), env.remote.search, code, ds)
    decreases |ds|
  {
    var r := ArchiveDialogs(st, env, code, description, ds);
    var paths := SearchPaths(env, description);
    var st1 := Poll(st, env);
    if ds == [] || !st1.running {
      assert r.st.log[|st.log|..] == [];
    } else {
      var stream := env.remote.search(ds[0], code);
      var a := ArchiveMessages(st1, env, description, stream.messages);
      ArchiveMessagesPaths(st1, env, description, stream.messages);
      if !a.end.Exhausted? {
        SavedThenRest(st.log, a.st.log, a.st.log, r.st.log, paths, env.remote.search, code, ds);
      } else {
        var st2 := if stream.raised then a.st.(log := a.st.log + [SourceError]) else a.st;
        ArchiveDialogsPaths(st2, env, code, description, ds[1..]);
        SavedThenRest(st.log, a.st.log, st2.log, r.st.log, paths, env.remote.search, code, ds);
      }
    }
  }

  /** Downloads `SavedFrom` the first dialog's messages, maybe a `SourceError`,
      then downloads `SavedFromDialogs` the rest, are all `SavedFromDialogs` of
      `ds`. */
  lemma SavedThenRest(
    before: seq<Event>, searched: seq<Event>, mid: seq<Event>, after: seq<Event>,
    path: Msg -> Option<string>, search: (Dialog, string) -> Stream, code: string, ds: seq<Dialog>)
    requires ds != []
    requires before <= searched && SavedFrom(searched[|before|..], path, search(ds[0], code).messages)
    requires mid == searched || mid == searched + [SourceError]
    requires mid <= after
    requires mid == after || SavedFromDialogs(after[|mid|..], path, search, code, ds[1..])
    ensures before <= after && SavedFromDialogs(after[|before|..], path, search, code, ds)
  {
    forall e | e in after[|before|..] && e.Fetch?
      ensures exists k :: 0 <= k < |ds| && exists m :: m in search(ds[k], code).messages && path(m) == Some(e.path)
    {
      var i :| 0 <= i < |after[|before|..]| && after[|before|..][i] == e;
      if |before| + i < |searched| {
        assert e == searched[|before|..][i];
        var m :| m in search(ds[0], code).messages && path(m) == Some(e.path);
        assert 0 <= 0 < |ds|;
      } else if |before| + i < |mid| {
        assert false;
      } else {
        assert e == after[|mid|..][|before| + i - |mid|];
        var k :| 0 <= k < |ds[1..]| && exists m :: m in search(ds[1..][k], code).messages && path(m) == Some(e.path);
        assert ds[1..][k] == ds[k + 1];
      }
    }
  }

  // ----- archive search completeness ------------------------------------------

  /** What trying message `m` logs when its download fails: one failed archive
      download to its path when it is a candidate, nothing otherwise. */
  function Attempt(path: Msg -> Option<string>, m: Msg): seq<Event> {
    match path(m)
    case None => []
    case Some(p) => [Fetch(Archive, p, Failed)]
  }

  /** The log of trying every message of `ms` in order, every download failing. */
  function Attempts(path: Msg -> Option<string>, ms: seq<Msg>): seq<Event>
    decreases |ms|
  {
    if ms == [] then [] else Attempt(path, ms[0]) + Attempts(path, ms[1..])
  }

  /** Fetching any candidate of `ms` to its path fails, by the oracle `ok`. */
  ghost predicate Unfetchable(path: Msg -> Option<string>, ok: (Msg, string) -> bool, ms: seq<Msg>) {
    forall j :: 0 <= j < |ms| && path(ms[j]).Some? ==> !ok(ms[j], path(ms[j]).value)
  }

  /** `events` are the failed attempts on the messages of `ms` before some `n`:
      the scan was stopped before it reached message `n`. */
  ghost predicate StoppedAt(
    events: seq<Event>, path: Msg -> Option<string>, ok: (Msg, string) -> bool, ms: seq<Msg>)
  {
    exists n :: 0 <= n <= |ms| && events == Attempts(path, ms[..n]) && Unfetchable(path, ok, ms[..n])
  }

  /** `events` are the failed attempts on the messages of `ms` before some
      candidate `ms[i]`, then a download of that candidate that did not fail: its
      file was already there, or fetching that very message succeeded. */
  ghost predicate FoundAt(
    events: seq<Event>, path: Msg -> Option<string>, ok: (Msg, string) -> bool, ms: seq<Msg>)
  {
    exists i, o :: 0 <= i < |ms| && path(ms[i]).Some? && o != Failed
      && events == Attempts(path, ms[..i]) + [Fetch(Archive, path(ms[i]).value, o)]
      && Unfetchable(path, ok, ms[..i]) && (o == Downloaded ==> ok(ms[i], path(ms[i]).value))
  }

  /** A scan stopped before its first message logs nothing. */
  lemma StoppedFirst(path: Msg -> Option<string>, ok: (Msg, string) -> bool, ms: seq<Msg>)
    ensures StoppedAt([], path, ok, ms)
  {
    assert [] == Attempts(path, ms[..0]) && Unfetchable(path, ok, ms[..0]);
  }

  /** A scan that ends with its first message logs one download of it. */
  lemma FoundFirst(path: Msg -> Option<string>, ok: (Msg, string) -> bool, ms: seq<Msg>, o: Outcome)
    requires ms != [] && path(ms[0]).Some? && o != Failed
    requires o == Downloaded ==> ok(ms[0], path(ms[0]).value)
    ensures FoundAt([Fetch(Archive, path(ms[0]).value, o)], path, ok, ms)
  {
    assert [Fetch(Archive, path(ms[0]).value, o)] == Attempts(path, ms[..0]) + [Fetch(Archive, path(ms[0]).value, o)];
    assert Unfetchable(path, ok, ms[..0]);
  }

  /** The log of a message scan over `ms` that ended with `end`, exactly. */
  ghost predicate ScanLog(
    events: seq<Event>, path: Msg -> Option<string>, ok: (Msg, string) -> bool, ms: seq<Msg>, end: End)
  {
    match end
    case Exhausted => events == Attempts(path, ms) && Unfetchable(path, ok, ms)
    case Stopped => StoppedAt(events, path, ok, ms)
    case Found => FoundAt(events, path, ok, ms)
  }

  /** A candidate whose fetch fails, then messages none of which can be fetched. */
  lemma UnfetchableCons(path: Msg -> Option<string>, ok: (Msg, string) -> bool, ms: seq<Msg>, n: nat)
    requires n < |ms| && (path(ms[0]).Some? ==> !ok(ms[0], path(ms[0]).value))
    requires Unfetchable(path, ok, ms[1..][..n])
    ensures Unfetchable(path, ok, ms[..n + 1])
  {
    var pre := ms[..n + 1];
    forall j | 0 <= j < |pre| && path(pre[j]).Some?
      ensures !ok(pre[j], path(pre[j]).value)
    {
      if j > 0 {
        assert pre[j] == ms[1..][..n][j - 1];
      }
    }
  }

  /** A log that ends with `events` after `head` is the rest of the log after `head`. */
  lemma ConsThenRest(before: seq<Event>, mid: seq<Event>, after: seq<Event>, head: seq<Event>)
    requires mid == before + head && mid <= after
    ensures before <= after && after[|before|..] == head + after[|mid|..]
  {
    assert after == mid + after[|mid|..];
  }

  /** A scan of the messages past the first, after the attempt on the first. */
  lemma ScanLogCons(
    events: seq<Event>, path: Msg -> Option<string>, ok: (Msg, string) -> bool, ms: seq<Msg>, end: End)
    requires ms != [] && (path(ms[0]).Some? ==> !ok(ms[0], path(ms[0]).value))
    requires ScanLog(events, path, ok, ms[1..], end)
    ensures ScanLog(Attempt(path, ms[0]) + events, path, ok, ms, end)
  {
    var head := Attempt(path, ms[0]);
    match end
    case Exhausted =>
      assert ms[1..][..|ms| - 1] == ms[1..] && ms[..|ms|] == ms;
      UnfetchableCons(path, ok, ms, |ms| - 1);
    case Stopped =>
      var n :| 0 <= n <= |ms[1..]| && events == Attempts(path, ms[1..][..n])
               && Unfetchable(path, ok, ms[1..][..n]);
      assert ms[..n + 1][1..] == ms[1..][..n];
      assert head + events == Attempts(path, ms[..n + 1]);
      UnfetchableCons(path, ok, ms, n);
    case Found =>
      var i, o :| 0 <= i < |ms[1..]| && path(ms[1..][i]).Some? && o != Failed
                  && events == Attempts(path, ms[1..][..i]) + [Fetch(Archive, path(ms[1..][i]).value, o)]
                  && Unfetchable(path, ok, ms[1..][..i]) && (o == Downloaded ==> ok(ms[1..][i], path(ms[1..][i]).value));
      assert ms[..i + 1][1..] == ms[1..][..i];
      assert ms[1..][i] == ms[i + 1];
      assert head + events == Attempts(path, ms[..i + 1]) + [Fetch(Archive, path(ms[i + 1]).value, o)];
      UnfetchableCons(path, ok, ms, i);
  }

  /** The message loop of the archive search logs exactly this: one failed
      download for each candidate it reaches, in order, and nothing for the other
      messages; when it succeeds, the last event is a download of the candidate
      that ended it, every candidate before it having been tried and failed; when
      it runs out of messages, every candidate was tried and failed; when it is
      stopped, every candidate before the stop was tried and failed. */
  lemma {:induction false} ArchiveMessagesTried(st: State, env: Env, description: string, ms: seq<Msg>)
    ensures var r := ArchiveMessages(st, env, description, ms);
            st.log <= r.st.log
            && ScanLog(r.st.log[|st.log|..], SearchPaths(env, description), env.remote.fetchOk, ms, r.end)
    decreases |ms|
  {
    var r := ArchiveMessages(st, env, description, ms);
    var paths := SearchPaths(env, description);
    var st1 := Poll(st, env);
    if ms == [] {
      assert r.st.log[|st.log|..] == [];
    } else if !st1.running {
      assert r.st.log[|st.log|..] == [];
      StoppedFirst(paths, env.remote.fetchOk, ms);
    } else {
      match ArchiveCandidate(ms[0])
      case None =>
        ArchiveMessagesTried(st1, env, description, ms[1..]);
        assert Attempt(paths, ms[0]) == [];
        ScanLogCons(r.st.log[|st.log|..], paths, env.remote.fetchOk, ms, r.end);
      case Some(ext) =>
        var path := Join(env.archivesDir, description + ext);
        var d := Download(st1, env, ms[0], path, Archive);
        assert paths(ms[0]) == Some(path);
        if d.ok {
          var o := if path in st1.existing then Skipped else Downloaded;
          assert r.st.log[|st.log|..] == [Fetch(Archive, path, o)];
          FoundFirst(paths, env.remote.fetchOk, ms, o);
        } else {
          ArchiveMessagesTried(d.st, env, description, ms[1..]);
          ConsThenRest(st.log, d.st.log, r.st.log, Attempt(paths, ms[0]));
          ScanLogCons(r.st.log[|d.st.log|..], paths, env.remote.fetchOk, ms, r.end);
        }
    }
  }

  /** Two candidates that share a path are both tried when a scan runs out of
      messages: the log holds two failed downloads, and neither message can be
      fetched. */
  lemma BothCandidatesTried(
    events: seq<Event>, path: Msg -> Option<string>, ok: (Msg, string) -> bool, m1: Msg, m2: Msg)
    requires path(m1).Some? && path(m2).Some?
    requires ScanLog(events, path, ok, [m1, m2], Exhausted)
    ensures events == [Fetch(Archive, path(m1).value, Failed), Fetch(Archive, path(m2).value, Failed)]
    ensures !ok(m1, path(m1).value) && !ok(m2, path(m2).value)
  {
    var ms := [m1, m2];
    assert ms[1..] == [m2] && [m2][1..] == [];
    assert Unfetchable(path, ok, ms);
    assert ms[0] == m1 && ms[1] == m2;
    assert Attempts(path, [m2]) == Attempt(path, m2) + Attempts(path, []);
    assert Attempts(path, ms) == Attempt(path, m1) + Attempts(path, [m2]);
  }

  /** A successful scan that logs a single download, over messages the first of
      which is a candidate, downloaded that first candidate: it is where the
      download went, and when it was fetched rather than found on disk, fetching
      that very message succeeded. */
  lemma FirstCandidateFound(
    events: seq<Event>, path: Msg -> Option<string>, ok: (Msg, string) -> bool, ms: seq<Msg>)
    requires ms != [] && path(ms[0]).Some?
    requires ScanLog(events, path, ok, ms, Found) && |events| == 1
    ensures events[0].Fetch? && events[0].path == path(ms[0]).value && events[0].outcome != Failed
    ensures events[0].outcome == Downloaded ==> ok(ms[0], path(ms[0]).value)
  {
    var i, o :| 0 <= i < |ms| && path(ms[i]).Some? && o != Failed
                && events == Attempts(path, ms[..i]) + [Fetch(Archive, path(ms[i]).value, o)]
                && Unfetchable(path, ok, ms[..i]) && (o == Downloaded ==> ok(ms[i], path(ms[i]).value));
    assert i == 0;
  }

  /** The log of searching one dialog whose every download fails: the attempts on
      its messages, then the error when iterating them raised. */
  function DialogAttempts(path: Msg -> Option<string>, stream: Stream): seq<Event> {
    Attempts(path, stream.messages) + (if stream.raised then [SourceError] else [])
  }

  /** The log of searching every dialog of `ds` for `code`, every download failing. */
  function SearchAttempts(
    path: Msg -> Option<string>, search: (Dialog, string) -> Stream, code: string, ds: seq<Dialog>): seq<Event>
    decreases |ds|
  {
    if ds == [] then []
    else DialogAttempts(path, search(ds[0], code)) + SearchAttempts(path, search, code, ds[1..])
  }

  /** Fetching any candidate of any of the dialogs `ds` searched for `code` fails. */
  ghost predicate AllUnfetchable(path: Msg -> Option<string>, remote: Remote, code: string, ds: seq<Dialog>) {
    forall k :: 0 <= k < |ds| ==> Unfetchable(path, remote.fetchOk, remote.search(ds[k], code).messages)
  }

  /** `events` are the failed searches of the dialogs before some dialog `ds[k]`,
      then a scan of its messages that ended with `end`. */
  ghost predicate EndsIn(
    events: seq<Event>, path: Msg -> Option<string>, remote: Remote, code: string, ds: seq<Dialog>, end: End)
  {
    exists k, rest :: 0 <= k < |ds| && events == SearchAttempts(path, remote.search, code, ds[..k]) + rest
                      && AllUnfetchable(path, remote, code, ds[..k])
                      && ScanLog(rest, path, remote.fetchOk, remote.search(ds[k], code).messages, end)
  }

  /** The log of an archive search over `ds` that ended with `end`, exactly. */
  ghost predicate SearchLog(
    events: seq<Event>, path: Msg -> Option<string>, remote: Remote, code: string, ds: seq<Dialog>, end: End)
  {
    if end.Exhausted? then
      events == SearchAttempts(path, remote.search, code, ds) && AllUnfetchable(path, remote, code, ds)
    else EndsIn(events, path, remote, code, ds, end)
  }

  /** A search of the dialogs past the first, after a failed search of the first. */
  lemma SearchLogCons(
    events: seq<Event>, path: Msg -> Option<string>, remote: Remote, code: string, ds: seq<Dialog>, end: End)
    requires ds != [] && Unfetchable(path, remote.fetchOk, remote.search(ds[0], code).messages)
    requires SearchLog(events, path, remote, code, ds[1..], end)
    ensures SearchLog(DialogAttempts(path, remote.search(ds[0], code)) + events, path, remote, code, ds, end)
  {
    if end.Exhausted? {
      assert ds[1..][..|ds| - 1] == ds[1..] && ds[..|ds|] == ds;
      AllUnfetchableCons(path, remote, code, ds, |ds| - 1);
    } else {
      var head := DialogAttempts(path, remote.search(ds[0], code));
      var k, rest :| 0 <= k < |ds[1..]| && events == SearchAttempts(path, remote.search, code, ds[1..][..k]) + rest
                     && AllUnfetchable(path, remote, code, ds[1..][..k])
                     && ScanLog(rest, path, remote.fetchOk, remote.search(ds[1..][k], code).messages, end);
      assert ds[1..][k] == ds[k + 1];
      SearchAttemptsCons(path, remote.search, code, ds, k);
      Regroup(head, SearchAttempts(path, remote.search, code, ds[1..][..k]), rest);
      AllUnfetchableCons(path, remote, code, ds, k);
    }
  }

  /** A first dialog none of whose candidates can be fetched, then `k` more. */
  lemma AllUnfetchableCons(path: Msg -> Option<string>, remote: Remote, code: string, ds: seq<Dialog>, k: nat)
    requires k < |ds| && Unfetchable(path, remote.fetchOk, remote.search(ds[0], code).messages)
    requires AllUnfetchable(path, remote, code, ds[1..][..k])
    ensures AllUnfetchable(path, remote, code, ds[..k + 1])
  {
    var pre := ds[..k + 1];
    forall j | 0 <= j < |pre|
      ensures Unfetchable(path, remote.fetchOk, remote.search(pre[j], code).messages)
    {
      if j > 0 {
        assert pre[j] == ds[1..][..k][j - 1];
      }
    }
  }

  /** The failed searches of the first `k + 1` dialogs are those of the first,
      then those of the next `k`. */
  lemma SearchAttemptsCons(
    path: Msg -> Option<string>, search: (Dialog, string) -> Stream, code: string, ds: seq<Dialog>, k: nat)
    requires k < |ds|
    ensures SearchAttempts(path, search, code, ds[..k + 1])
            == DialogAttempts(path, search(ds[0], code)) + SearchAttempts(path, search, code, ds[1..][..k])
  {
    assert ds[..k + 1][1..] == ds[1..][..k];
  }

  /** Regrouping a log of three parts. */
  lemma Regroup(p: seq<Event>, q: seq<Event>, r: seq<Event>)
    ensures p + (q + r) == p + q + r
  {
  }

  /** The log after a failed search of one dialog: its attempts, then its error. */
  lemma SearchedFirst(
    before: seq<Event>, scanned: seq<Event>, mid: seq<Event>, path: Msg -> Option<string>, stream: Stream)
    requires before <= scanned && scanned[|before|..] == Attempts(path, stream.messages)
    requires mid == if stream.raised then scanned + [SourceError] else scanned
    ensures mid == before + DialogAttempts(path, stream)
  {
    assert scanned == before + Attempts(path, stream.messages);
  }

  /** A search that ends within the first dialog. */
  lemma SearchLogFirst(
    events: seq<Event>, path: Msg -> Option<string>, remote: Remote, code: string, ds: seq<Dialog>, end: End)
    requires ds != [] && !end.Exhausted?
    requires ScanLog(events, path, remote.fetchOk, remote.search(ds[0], code).messages, end)
    ensures SearchLog(events, path, remote, code, ds, end)
  {
    assert events == SearchAttempts(path, remote.search, code, ds[..0]) + events;
  }

  /** `search_and_download_archive_for_code` logs exactly this: the dialogs are
      searched in order; each dialog before the one the search ends in logs one
      failed download for each of its candidates, in order, then its error when
      iterating it raised; in the dialog it ends in, the message loop logs as
      `ArchiveMessagesTried` says. A search that returns true therefore
      downloaded the first candidate, in dialog and message order, whose download
      did not fail, and one that returns false without a stop tried every
      candidate of every dialog. */
  lemma {:induction false} ArchiveDialogsTried(
    st: State, env: Env, code: string, description: string, ds: seq<Dialog>)
    ensures var r := ArchiveDialogs(st, env, code, description, ds);
            st.log <= r.st.log
            && SearchLog(r.st.log[|st.log|..], SearchPaths(env, description), env.remote, code, ds, r.end)
    decreases |ds|
  {
    var r := ArchiveDialogs(st, env, code, description, ds);
    var paths := SearchPaths(env, description);
    var st1 := Poll(st, env);
    if ds == [] {
      assert r.st.log[|st.log|..] == [];
    } else if !st1.running {
      var ms := env.remote.search(ds[0], code).messages;
      assert r.st.log[|st.log|..] == Attempts(paths, ms[..0]);
      SearchLogFirst(r.st.log[|st.log|..], paths, env.remote, code, ds, r.end);
    } else {
      var stream := env.remote.search(ds[0], code);
      var a := ArchiveMessages(st1, env, description, stream.messages);
      ArchiveMessagesTried(st1, env, description, stream.messages);
      if !a.end.Exhausted? {
        SearchLogFirst(r.st.log[|st.log|..], paths, env.remote, code, ds, r.end);
      } else {
        var st2 := if stream.raised then a.st.(log := a.st.log + [SourceError]) else a.st;
        ArchiveDialogsTried(st2, env, code, description, ds[1..]);
        SearchedFirst(st.log, a.st.log, st2.log, paths, stream);
        ConsThenRest(st.log, st2.log, r.st.log, DialogAttempts(paths, stream));
        SearchLogCons(r.st.log[|st2.log|..], paths, env.remote, code, ds, r.end);
      }
    }
  }
  // ----- order of events ------------------------------------------------------

  /** Where the pairing loop stands between events: no image pending, an image
      whose code was just reported and is about to be downloaded, or an image
      that is there and whose archive may be searched for. */
  datatype Phase = Idle | Matched(code: string) | Pairing(code: string)

  /** An image is pending only right after its code is reported. */
  predicate Settled(p: Phase) {
    !p.Matched?
  }

  /** The order the pairing loop logs events in, one event at a time; `None`
      rejects the event. A code is reported only when no image is pending, the
      only event after it is the download of its image, archives are downloaded
      only once that image is there, and an archive is reported missing only for
      the image in hand. */
  function Next(p: Phase, e: Event): Option<Phase> {
    match e
    case FoundImage(c) => if p.Matched? then None else Some(Matched(c))
    case Fetch(kind, _, o) =>
      if kind == Image then
        if p.Matched? then Some(if o == Failed then Idle else Pairing(p.code)) else None
      else if p.Pairing? then Some(p) else None
    case ArchiveMissing(c) => if p == Pairing(c) then Some(p) else None
    case SourceError => if p.Matched? then None else Some(p)
  }

  /** Runs `Next` over a log. */
  function Replay(p: Phase, events: seq<Event>): Option<Phase>
    decreases |events|
  {
    if events == [] then Some(p)
    else
      match Next(p, events[0])
      case None => None
      case Some(q) => Replay(q, events[1..])
  }

  lemma {:induction false} ReplayConcat(p: Phase, a: seq<Event>, b: seq<Event>)
    requires Replay(p, a).Some?
    ensures Replay(p, a + b) == Replay(Replay(p, a).value, b)
    decreases |a|
  {
    if a == [] {
      assert a + b == b;
    } else {
      assert (a + b)[1..] == a[1..] + b;
      ReplayConcat(Next(p, a[0]).value, a[1..], b);
    }
  }

  /** The events of an archive search keep the image in hand. */
  lemma {:induction false} ArchiveReplay(code: string, events: seq<Event>)
    requires forall j :: 0 <= j < |events| ==>
               events[j] == SourceError || (events[j].Fetch? && events[j].kind == Archive)
    ensures Replay(Pairing(code), events) == Some(Pairing(code))
    decreases |events|
  {
    if events != [] {
      ArchiveReplay(code, events[1..]);
    }
  }

  /** What the archive search for a code in hand logs: no report of a code, and
      nothing that lets go of the code. */
  lemma PairArchiveLog(st: State, env: Env, code: string, description: string)
    ensures var r := PairArchive(st, env, code, description);
            st.log <= r.log
            && var tail := r.log[|st.log|..];
            (forall j :: 0 <= j < |tail| ==> !tail[j].FoundImage?)
            && Replay(Pairing(code), tail) == Some(Pairing(code))
  {
    var r := PairArchive(st, env, code, description);
    var a := ArchiveDialogs(st, env, code, description, env.remote.dialogs);
    ArchiveDialogsLog(st, env, code, description, env.remote.dialogs);
    var search := a.st.log[|st.log|..];
    if !a.end.Found? {
      assert r.log[|st.log|..] == search + [ArchiveMissing(code)];
    }
    ArchiveTail(code, search, !a.end.Found?);
  }

  /** The events of an archive search, followed by the report of a missing
      archive when there is one, report no code and keep the image in hand. */
  lemma ArchiveTail(code: string, search: seq<Event>, missing: bool)
    requires forall j :: 0 <= j < |search| ==>
               search[j] == SourceError || (search[j].Fetch? && search[j].kind == Archive)
    ensures var tail := if missing then search + [ArchiveMissing(code)] else search;
            (forall j :: 0 <= j < |tail| ==> !tail[j].FoundImage?)
            && Replay(Pairing(code), tail) == Some(Pairing(code))
  {
    ArchiveReplay(code, search);
    if missing {
      ReplayConcat(Pairing(code), search, [ArchiveMissing(code)]);
    }
  }

  /** A photo whose code passes the gate is reported and then downloaded to the
      images directory joined with its description followed by the file's own
      extension; its code is processed whatever the download's outcome. */
  lemma ImageDestination(st: State, env: Env, processed: set<string>, m: Msg, parsed: Parsed)
    requires Usable(parsed.code, processed)
    ensures var r := PairStep(st, env, processed, m, parsed);
            |st.log| + 2 <= |r.st.log|
            && r.st.log[|st.log|] == FoundImage(parsed.code.value)
            && r.st.log[|st.log| + 1].Fetch? && r.st.log[|st.log| + 1].kind == Image
            && r.st.log[|st.log| + 1].path == Join(env.imagesDir, parsed.description + ImageExtension(m))
            && r.processed == processed + {parsed.code.value}
  {
    var r := PairStep(st, env, processed, m, parsed);
    var code := parsed.code.value;
    var path := Join(env.imagesDir, parsed.description + ImageExtension(m));
    var st0 := st.(log := st.log + [FoundImage(code)]);
    var d := Download(st0, env, m, path, Image);
    var o :| d.st.log == st0.log + [Fetch(Image, path, o)];
    var st2 := if d.ok then Poll(d.st, env) else d.st;
    if d.ok && st2.running {
      PairArchiveLog(st2, env, code, parsed.description);
    }
    assert d.st.log <= r.st.log;
    assert d.st.log[|st.log|] == FoundImage(code) && d.st.log[|st.log| + 1] == Fetch(Image, path, o);
  }

  /** By `ImageDestination`, the photo named `CAT001 funny cats.jpg` with
      extension `.jpg` is saved, under the images directory `images`, as
      `images/funny cats jpg.jpg`: the dot of the name's own extension became a
      space in the description, and the extension is appended once more. */
  lemma ExampleImagePath()
    ensures var parsed := ExtractCodeAndDescription("CAT001 funny cats.jpg");
            parsed.code == Some("CAT001")
            && Join("images", parsed.description + ".jpg") == "images/funny cats jpg.jpg"
  {
    ExampleWithExtension();
    ExampleJoin();
  }

  lemma ExampleJoin()
    ensures Join("images", "funny cats jpg" + ".jpg") == "images/funny cats jpg.jpg"
  {
  }

  /** A reported code and its image download take a settled phase to the image in
      hand, or back to idle when the download failed. */
  lemma ImageReplay(p: Phase, code: string, path: string, o: Outcome)
    requires Settled(p)
    ensures Replay(p, [FoundImage(code), Fetch(Image, path, o)])
            == Some(if o == Failed then Idle else Pairing(code))
  {
    var head := [FoundImage(code), Fetch(Image, path, o)];
    var q := if o == Failed then Idle else Pairing(code);
    assert head[1..] == [Fetch(Image, path, o)] && head[1..][1..] == [];
    assert Replay(q, []) == Some(q);
    assert Replay(Matched(code), head[1..]) == Some(q);
  }

  /** One photo of the pairing loop logs, from a settled phase, a stretch the
      automaton accepts and leaves settled. */
  lemma PairStepOrder(st: State, env: Env, processed: set<string>, m: Msg, parsed: Parsed, p: Phase)
    requires Settled(p)
    ensures var r := PairStep(st, env, processed, m, parsed);
            st.log <= r.st.log
            && var q := Replay(p, r.st.log[|st.log|..]); q.Some? && Settled(q.value)
  {
    var r := PairStep(st, env, processed, m, parsed);
    if !Usable(parsed.code, processed) {
      assert r.st.log[|st.log|..] == [];
    } else {
      var path := Join(env.imagesDir, parsed.description + ImageExtension(m));
      FetchPairOrder(st, env, m, path, parsed.code.value, parsed.description, p);
    }
  }

  /** After an image download, the archive search runs only if the image is there
      and the read of `is_running` made then is true. When the image download
      failed, or that read is false, only the image download is logged: no
      archive download, no abandoned dialog and no missing-archive report. */
  lemma ArchiveSearchNeedsRunning(
    st: State, env: Env, m: Msg, path: string, code: string, description: string)
    ensures var d := Download(st, env, m, path, Image);
            var r := FetchPair(st, env, m, path, code, description);
            (!d.ok || !Poll(d.st, env).running) ==>
              r.log == st.log + [Fetch(Image, path, if path in st.existing then Skipped
                                                    else if d.ok then Downloaded else Failed)]
  {
  }

  /** Once `is_running` reads false it stays false, so none of the loops logs
      anything from a state whose flag is cleared: no download and no report
      follows a read of false. */
  lemma NothingAfterStop(
    st: State, env: Env, processed: set<string>, ms: seq<Msg>, ds: seq<Dialog>,
    code: string, description: string)
    requires !st.running
    ensures PairsMessages(st, env, processed, ms).st.log == st.log
    ensures PairsDialogs(st, env, processed, ds).st.log == st.log
    ensures ArchiveMessages(st, env, description, ms).st.log == st.log
    ensures ArchiveDialogs(st, env, code, description, ds).st.log == st.log
  {
  }

  /** Reporting a code and then fetching its image, with its archive search when
      the image is there, logs from a settled phase a stretch the automaton
      accepts and leaves settled. */
  lemma FetchPairOrder(st: State, env: Env, m: Msg, path: string, code: string, description: string,
                       p: Phase)
    requires Settled(p)
    ensures var r := FetchPair(st.(log := st.log + [FoundImage(code)]), env, m, path, code, description);
            st.log <= r.log
            && var q := Replay(p, r.log[|st.log|..]); q.Some? && Settled(q.value)
  {
    var st0 := st.(log := st.log + [FoundImage(code)]);
    var r := FetchPair(st0, env, m, path, code, description);
    var d := Download(st0, env, m, path, Image);
    var o :| d.st.log == st0.log + [Fetch(Image, path, o)] && (o == Failed <==> !d.ok);
    var head := [FoundImage(code), Fetch(Image, path, o)];
    assert d.st.log == st.log + head;
    ImageReplay(p, code, path, o);
    var st2 := if d.ok then Poll(d.st, env) else d.st;
    if d.ok && st2.running {
      PairArchiveLog(st2, env, code, description);
      var tail := r.log[|st2.log|..];
      Between(st.log, st2.log, r.log);
      assert r.log[|st.log|..] == head + tail;
      ReplayConcat(p, head, tail);
    } else {
      assert r.log[|st.log|..] == head;
    }
  }

  lemma PhotoStepOrder(st: State, env: Env, processed: set<string>, m: Msg, p: Phase)
    requires Settled(p)
    ensures var r := PhotoStep(st, env, processed, m);
            st.log <= r.st.log
            && var q := Replay(p, r.st.log[|st.log|..]); q.Some? && Settled(q.value)
  {
    if m.hasPhoto {
      PairStepOrder(st, env, processed, m, ExtractCodeAndDescription(RawName(m)), p);
    } else {
      assert PhotoStep(st, env, processed, m).st.log[|st.log|..] == [];
    }
  }

  lemma {:induction false} PairsMessagesOrder(
    st: State, env: Env, processed: set<string>, ms: seq<Msg>, p: Phase)
    requires Settled(p)
    ensures var r := PairsMessages(st, env, processed, ms);
            st.log <= r.st.log
            && var q := Replay(p, r.st.log[|st.log|..]); q.Some? && Settled(q.value)
    decreases |ms|
  {
    var r := PairsMessages(st, env, processed, ms);
    var st1 := Poll(st, env);
    if ms == [] || !st1.running {
      assert r.st.log[|st.log|..] == [];
    } else {
      var w := PhotoStep(st1, env, processed, ms[0]);
      PhotoStepOrder(st1, env, processed, ms[0], p);
      var head := w.st.log[|st.log|..];
      var q := Replay(p, head).value;
      PairsMessagesOrder(w.st, env, w.processed, ms[1..], q);
      Between(st.log, w.st.log, r.st.log);
      ReplayConcat(p, head, r.st.log[|w.st.log|..]);
    }
  }

  lemma {:induction false} PairsDialogsOrder(
    st: State, env: Env, processed: set<string>, ds: seq<Dialog>, p: Phase)
    requires Settled(p)
    ensures var r := PairsDialogs(st, env, processed, ds);
            st.log <= r.st.log
            && var q := Replay(p, r.st.log[|st.log|..]); q.Some? && Settled(q.value)
    decreases |ds|
  {
    var r := PairsDialogs(st, env, processed, ds);
    var st1 := Poll(st, env);
    if ds == [] || !st1.running {
      assert r.st.log[|st.log|..] == [];
    } else {
      var stream := env.remote.search(ds[0], env.query);
      var w := PairsMessages(st1, env, processed, stream.messages);
      var st2 := if stream.raised && !w.stopped then w.st.(log := w.st.log + [SourceError]) else w.st;
      DialogOrder(st1, env, processed, stream, p);
      var head := st2.log[|st.log|..];
      var q := Replay(p, head).value;
      PairsDialogsOrder(st2, env, w.processed, ds[1..], q);
      Between(st.log, st2.log, r.st.log);
      ReplayConcat(p, head, r.st.log[|st2.log|..]);
    }
  }

  /** The messages one dialog yields, with the error that abandons the dialog
      when there is one, log from a settled phase a stretch the automaton accepts
      and leaves settled. */
  lemma DialogOrder(st: State, env: Env, processed: set<string>, stream: Stream, p: Phase)
    requires Settled(p)
    ensures var w := PairsMessages(st, env, processed, stream.messages);
            var st2 := if stream.raised && !w.stopped then w.st.(log := w.st.log + [SourceError]) else w.st;
            st.log <= st2.log
            && var q := Replay(p, st2.log[|st.log|..]); q.Some? && Settled(q.value)
  {
    var w := PairsMessages(st, env, processed, stream.messages);
    PairsMessagesOrder(st, env, processed, stream.messages, p);
    if stream.raised && !w.stopped {
      ReplayConcat(p, w.st.log[|st.log|..], [SourceError]);
      assert (w.st.log + [SourceError])[|st.log|..] == w.st.log[|st.log|..] + [SourceError];
    }
  }

  /** The log of a whole run is accepted from the start: each reported code is
      followed at once by its image download, archives are downloaded only after
      a successful image download, and no image is left pending at the end. */
  lemma RunOrder(st: State, env: Env)
    requires !st.running
    ensures var r := StartDownload(st, env);
            st.log <= r.log
            && var q := Replay(Idle, r.log[|st.log|..]); q.Some? && Settled(q.value)
  {
    var reset := st.(images := 0, archives := 0, failed := 0, running := true);
    PairsDialogsOrder(reset, env, {}, env.remote.dialogs, Idle);
  }

  /** Read off an accepted log that ends settled: every report of a code is
      followed at once by an image download, and every image download comes right
      after a report (or first of all, when an image was pending at the start). */
  lemma {:induction false} ReplayPairs(p: Phase, events: seq<Event>)
    requires Replay(p, events).Some? && Settled(Replay(p, events).value)
    ensures forall j :: 0 <= j < |events| && events[j].FoundImage? ==>
              j + 1 < |events| && events[j + 1].Fetch? && events[j + 1].kind == Image
    ensures forall j :: 0 <= j < |events| && events[j].Fetch? && events[j].kind == Image ==>
              if j == 0 then p.Matched? else events[j - 1].FoundImage?
    decreases |events|
  {
    if events != [] {
      var q := Next(p, events[0]).value;
      var rest := events[1..];
      ReplayPairs(q, rest);
      forall j | 0 <= j < |events| && events[j].FoundImage?
        ensures j + 1 < |events| && events[j + 1].Fetch? && events[j + 1].kind == Image
      {
        if j == 0 {
          assert rest != [];
          assert Next(q, rest[0]).Some?;
        } else {
          assert rest[j - 1] == events[j];
        }
      }
      forall j | 0 <= j < |events| && events[j].Fetch? && events[j].kind == Image
        ensures if j == 0 then p.Matched? else events[j - 1].FoundImage?
      {
        if j > 0 {
          assert rest[j - 1] == events[j];
        }
      }
    }
  }

  /** One image download per code and run: in the log of a run, every image
      download comes right after the report of its code, every report is followed
      by its image download, and two image downloads never follow the same code. */
  lemma OneImagePerCode(st: State, env: Env)
    requires !st.running
    ensures var r := StartDownload(st, env);
            st.log <= r.log
            && var run := r.log[|st.log|..];
            (forall j :: 0 <= j < |run| && run[j].FoundImage? ==>
               j + 1 < |run| && run[j + 1].Fetch? && run[j + 1].kind == Image)
            && (forall j :: 0 <= j < |run| && run[j].Fetch? && run[j].kind == Image ==>
                  0 < j && run[j - 1].FoundImage?)
            && (forall i, j ::
                  (0 < i < j < |run| && run[i].Fetch? && run[i].kind == Image
                   && run[j].Fetch? && run[j].kind == Image)
                  ==> run[i - 1].code != run[j - 1].code)
  {
    RunOrder(st, env);
    RunDedup(st, env);
    var r := StartDownload(st, env);
    var run := r.log[|st.log|..];
    ReplayPairs(Idle, run);
  }

  // ----- deduplication and the code gate --------------------------------------

  /** The codes a log reports as found. */
  function Finds(events: seq<Event>): set<string> {
    set e | e in events && e.FoundImage? :: e.code
  }

  /** No code is reported twice. */
  ghost predicate DistinctFinds(events: seq<Event>) {
    forall i, j :: 0 <= i < j < |events| && events[i].FoundImage? && events[j].FoundImage? ==>
      events[i].code != events[j].code
  }

  /** A code that passes the gate of the pairing loop: at least three characters,
      no `*`. */
  predicate GoodCode(code: string) {
    |code| >= 3 && '*' !in code
  }

  /** A stretch of the pairing loop that starts with the codes `before` processed
      and ends with `after` processed: it reports each code at most once, only
      codes not processed before and passing the gate, and it processes exactly
      the codes it reports. */
  ghost predicate Deduplicated(events: seq<Event>, before: set<string>, after: set<string>) {
    Finds(events) !! before
    && after == before + Finds(events)
    && DistinctFinds(events)
    && forall c :: c in Finds(events) ==> GoodCode(c)
  }

  lemma DeduplicatedConcat(a: seq<Event>, b: seq<Event>, s1: set<string>, s2: set<string>, s3: set<string>)
    requires Deduplicated(a, s1, s2) && Deduplicated(b, s2, s3)
    ensures Deduplicated(a + b, s1, s3)
  {
    assert Finds(a + b) == Finds(a) + Finds(b) by {
      forall c | c in Finds(a + b) ensures c in Finds(a) + Finds(b) {
        var e :| e in a + b && e.FoundImage? && e.code == c;
        assert e in a || e in b;
      }
      forall c | c in Finds(a) + Finds(b) ensures c in Finds(a + b) {
        var e :| (e in a || e in b) && e.FoundImage? && e.code == c;
        assert e in a + b;
      }
    }
    forall i, j | 0 <= i < j < |a + b| && (a + b)[i].FoundImage? && (a + b)[j].FoundImage?
      ensures (a + b)[i].code != (a + b)[j].code
    {
      if j < |a| {
        assert (a + b)[i] == a[i] && (a + b)[j] == a[j];
      } else if i >= |a| {
        assert (a + b)[i] == b[i - |a|] && (a + b)[j] == b[j - |a|];
      } else {
        assert (a + b)[i] == a[i] && (a + b)[j] == b[j - |a|];
        assert a[i] in a && b[j - |a|] in b;
        assert a[i].code in Finds(a) && b[j - |a|].code in Finds(b);
      }
    }
  }

  /** A log with no report of a code processes none. */
  lemma NoFinds(events: seq<Event>, s: set<string>)
    requires forall j :: 0 <= j < |events| ==> !events[j].FoundImage?
    ensures Deduplicated(events, s, s)
  {
    assert forall e :: e in events ==> !e.FoundImage?;
  }

  /** A code reported and then its image downloaded. */
  lemma ReportedOnce(code: string, processed: set<string>, e: Event)
    requires GoodCode(code) && code !in processed && !e.FoundImage?
    ensures Deduplicated([FoundImage(code), e], processed, processed + {code})
  {
    var events := [FoundImage(code), e];
    assert FoundImage(code) in events;
    assert forall x :: x in events ==> x == FoundImage(code) || x == e;
  }

  /** One photo: a code is reported, and processed, only when it passes the gate
      and was not processed before. */
  lemma PairStepDedup(st: State, env: Env, processed: set<string>, m: Msg, parsed: Parsed)
    ensures var r := PairStep(st, env, processed, m, parsed);
            st.log <= r.st.log && Deduplicated(r.st.log[|st.log|..], processed, r.processed)
  {
    var r := PairStep(st, env, processed, m, parsed);
    if !Usable(parsed.code, processed) {
      NoFinds(r.st.log[|st.log|..], processed);
    } else {
      var code := parsed.code.value;
      var done := processed + {code};
      var path := Join(env.imagesDir, parsed.description + ImageExtension(m));
      var st0 := st.(log := st.log + [FoundImage(code)]);
      var d := Download(st0, env, m, path, Image);
      var o :| d.st.log == st0.log + [Fetch(Image, path, o)];
      var head := [FoundImage(code), Fetch(Image, path, o)];
      assert d.st.log == st.log + head;
      ReportedOnce(code, processed, Fetch(Image, path, o));
      var st2 := if d.ok then Poll(d.st, env) else d.st;
      if d.ok && st2.running {
        PairArchiveLog(st2, env, code, parsed.description);
        var tail := r.st.log[|st2.log|..];
        NoFinds(tail, done);
        Between(st.log, st2.log, r.st.log);
        assert r.st.log[|st.log|..] == head + tail;
        DeduplicatedConcat(head, tail, processed, done, done);
      } else {
        assert r.st.log[|st.log|..] == head;
      }
    }
  }

  lemma PhotoStepDedup(st: State, env: Env, processed: set<string>, m: Msg)
    ensures var r := PhotoStep(st, env, processed, m);
            st.log <= r.st.log && Deduplicated(r.st.log[|st.log|..], processed, r.processed)
  {
    if m.hasPhoto {
      PairStepDedup(st, env, processed, m, ExtractCodeAndDescription(RawName(m)));
    } else {
      NoFinds(PhotoStep(st, env, processed, m).st.log[|st.log|..], processed);
    }
  }

  lemma {:induction false} PairsMessagesDedup(st: State, env: Env, processed: set<string>, ms: seq<Msg>)
    ensures var r := PairsMessages(st, env, processed, ms);
            st.log <= r.st.log && Deduplicated(r.st.log[|st.log|..], processed, r.processed)
    decreases |ms|
  {
    var r := PairsMessages(st, env, processed, ms);
    var st1 := Poll(st, env);
    if ms == [] || !st1.running {
      NoFinds(r.st.log[|st.log|..], processed);
    } else {
      var w := PhotoStep(st1, env, processed, ms[0]);
      PhotoStepDedup(st1, env, processed, ms[0]);
      PairsMessagesDedup(w.st, env, w.processed, ms[1..]);
      Between(st.log, w.st.log, r.st.log);
      DeduplicatedConcat(w.st.log[|st.log|..], r.st.log[|w.st.log|..], processed, w.processed, r.processed);
    }
  }

  lemma {:induction false} PairsDialogsDedup(st: State, env: Env, processed: set<string>, ds: seq<Dialog>)
    ensures var r := PairsDialogs(st, env, processed, ds);
            st.log <= r.st.log && Deduplicated(r.st.log[|st.log|..], processed, r.processed)
    decreases |ds|
  {
    var r := PairsDialogs(st, env, processed, ds);
    var st1 := Poll(st, env);
    if ds == [] || !st1.running {
      NoFinds(r.st.log[|st.log|..], processed);
    } else {
      var stream := env.remote.search(ds[0], env.query);
      var w := PairsMessages(st1, env, processed, stream.messages);
      PairsMessagesDedup(st1, env, processed, stream.messages);
      var st2 := if stream.raised && !w.stopped then w.st.(log := w.st.log + [SourceError]) else w.st;
      if stream.raised && !w.stopped {
        NoFinds([SourceError], w.processed);
        DeduplicatedConcat(w.st.log[|st.log|..], [SourceError], processed, w.processed, w.processed);
        assert st2.log[|st.log|..] == w.st.log[|st.log|..] + [SourceError];
      }
      PairsDialogsDedup(st2, env, w.processed, ds[1..]);
      Between(st.log, st2.log, r.st.log);
      DeduplicatedConcat(st2.log[|st.log|..], r.st.log[|st2.log|..], processed, w.processed, r.processed);
    }
  }

  /** In one run of `search_and_download_pairs` no code is reported twice, every
      reported code passes the gate, and (by `RunOrder`) each is followed by
      exactly one image download: one image per code and run. */
  lemma RunDedup(st: State, env: Env)
    requires !st.running
    ensures var r := StartDownload(st, env);
            st.log <= r.log
            && var run := r.log[|st.log|..];
            DistinctFinds(run) && forall c :: c in Finds(run) ==> GoodCode(c)
  {
    var reset := st.(images := 0, archives := 0, failed := 0, running := true);
    PairsDialogsDedup(reset, env, {}, env.remote.dialogs);
  }
}
