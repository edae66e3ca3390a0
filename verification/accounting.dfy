/** The three counters of a run against its log: every counter moves exactly when
    a download event of its kind is logged, so after `start_download` resets them
    they count the downloads the log reports. */
module Accounting {
  import opened Text
  import opened Parser
  import opened Paths
  import opened Pairing

  /** How many download events of `kind` ending in `outcome` the log holds. */
  function Tally(log: seq<Event>, kind: Kind, outcome: Outcome): (n: nat)
    ensures n <= |log|
  {
    if log == [] then 0
    else
      var e := log[|log| - 1];
      Tally(log[..|log| - 1], kind, outcome)
      + (if e.Fetch? && e.kind == kind && e.outcome == outcome then 1 else 0)
  }

  /** Downloads that failed, of either kind. */
  function Failures(log: seq<Event>): nat {
    Tally(log, Image, Failed) + Tally(log, Archive, Failed)
  }

  /** Tallies add up over concatenated logs. */
  lemma {:induction false} TallyAppend(a: seq<Event>, b: seq<Event>, kind: Kind, outcome: Outcome)
    ensures Tally(a + b, kind, outcome) == Tally(a, kind, outcome) + Tally(b, kind, outcome)
    decreases |b|
  {
    if b == [] {
      assert a + b == a;
    } else {
      var b' := b[..|b| - 1];
      assert (a + b)[..|a + b| - 1] == a + b';
      TallyAppend(a, b', kind, outcome);
    }
  }

  /** Logging one more event adds it to the one tally it matches, if any. */
  lemma TallyNext(log: seq<Event>, e: Event)
    ensures forall kind, outcome :: Tally(log + [e], kind, outcome)
              == Tally(log, kind, outcome) + (if e.Fetch? && e.kind == kind && e.outcome == outcome then 1 else 0)
  {
    assert (log + [e])[..|log|] == log;
  }

  /** `st2` follows from `st1` by logging and counting in step: each counter moved
      by as much as the log's tally of its downloads, the log and the files on
      disk only grew, and a run once stopped stays stopped. */
  ghost predicate Accounted(st1: State, st2: State) {
    st1.log <= st2.log
    && st2.images - Tally(st2.log, Image, Downloaded) == st1.images - Tally(st1.log, Image, Downloaded)
    && st2.archives - Tally(st2.log, Archive, Downloaded)
       == st1.archives - Tally(st1.log, Archive, Downloaded)
    && st2.failed - Failures(st2.log) == st1.failed - Failures(st1.log)
    && st1.existing <= st2.existing
    && st1.polls <= st2.polls
    && (st2.running ==> st1.running)
  }

  lemma AccountedTrans(st1: State, st2: State, st3: State)
    requires Accounted(st1, st2) && Accounted(st2, st3)
    ensures Accounted(st1, st3)
  {
  }

  /** Logging an event that is not a download leaves every tally as it was. */
  lemma NoteAccounted(st: State, e: Event)
    requires !e.Fetch?
    ensures Accounted(st, st.(log := st.log + [e]))
  {
    assert (st.log + [e])[..|st.log|] == st.log;
  }

  /** `download_with_progress` keeps the counters in step with the log. */
  lemma DownloadAccounted(st: State, env: Env, m: Msg, path: string, kind: Kind)
    ensures Accounted(st, Download(st, env, m, path, kind).st)
  {
    var r := Download(st, env, m, path, kind);
    TallyNext(st.log, r.st.log[|st.log|]);
  }

  lemma {:induction false} ArchiveMessagesAccounted(st: State, env: Env, description: string, ms: seq<Msg>)
    ensures Accounted(st, ArchiveMessages(st, env, description, ms).st)
    decreases |ms|
  {
    if ms != [] {
      var st1 := Poll(st, env);
      if st1.running {
        match ArchiveCandidate(ms[0])
        case None =>
          ArchiveMessagesAccounted(st1, env, description, ms[1..]);
        case Some(ext) =>
          var path := Join(env.archivesDir, description + ext);
          var d := Download(st1, env, ms[0], path, Archive);
          DownloadAccounted(st1, env, ms[0], path, Archive);
          if !d.ok {
            ArchiveMessagesAccounted(d.st, env, description, ms[1..]);
          }
      }
    }
  }

  lemma {:induction false} ArchiveDialogsAccounted(
    st: State, env: Env, code: string, description: string, ds: seq<Dialog>)
    ensures Accounted(st, ArchiveDialogs(st, env, code, description, ds).st)
    decreases |ds|
  {
    if ds != [] {
      var st1 := Poll(st, env);
      if st1.running {
        var stream := env.remote.search(ds[0], code);
        var r := ArchiveMessages(st1, env, description, stream.messages);
        ArchiveMessagesAccounted(st1, env, description, stream.messages);
        if r.end.Exhausted? {
          var st2 := if stream.raised then r.st.(log := r.st.log + [SourceError]) else r.st;
          if stream.raised {
            NoteAccounted(r.st, SourceError);
          }
          ArchiveDialogsAccounted(st2, env, code, description, ds[1..]);
          AccountedTrans(st1, st2, ArchiveDialogs(st2, env, code, description, ds[1..]).st);
        }
      }
    }
  }

  lemma PhotoStepAccounted(st: State, env: Env, processed: set<string>, m: Msg)
    ensures Accounted(st, PhotoStep(st, env, processed, m).st)
  {
    if m.hasPhoto {
      PairStepAccounted(st, env, processed, m, ExtractCodeAndDescription(RawName(m)));
    }
  }

  lemma PairStepAccounted(st: State, env: Env, processed: set<string>, m: Msg, parsed: Parsed)
    ensures Accounted(st, PairStep(st, env, processed, m, parsed).st)
  {
    if Usable(parsed.code, processed) {
      var code := parsed.code.value;
      var path := Join(env.imagesDir, parsed.description + ImageExtension(m));
      var st0 := st.(log := st.log + [FoundImage(code)]);
      NoteAccounted(st, FoundImage(code));
      var d := Download(st0, env, m, path, Image);
      DownloadAccounted(st0, env, m, path, Image);
      var st2 := if d.ok then Poll(d.st, env) else d.st;
      if d.ok && st2.running {
        PairArchiveAccounted(st2, env, code, parsed.description);
        AccountedTrans(st0, st2, PairArchive(st2, env, code, parsed.description));
      }
    }
  }

  lemma PairArchiveAccounted(st: State, env: Env, code: string, description: string)
    ensures Accounted(st, PairArchive(st, env, code, description))
  {
    var a := ArchiveDialogs(st, env, code, description, env.remote.dialogs);
    ArchiveDialogsAccounted(st, env, code, description, env.remote.dialogs);
    if !a.end.Found? {
      NoteAccounted(a.st, ArchiveMissing(code));
    }
  }

  lemma {:induction false} PairsMessagesAccounted(st: State, env: Env, processed: set<string>, ms: seq<Msg>)
    ensures Accounted(st, PairsMessages(st, env, processed, ms).st)
    decreases |ms|
  {
    if ms != [] {
      var st1 := Poll(st, env);
      if st1.running {
        var w := PhotoStep(st1, env, processed, ms[0]);
        PhotoStepAccounted(st1, env, processed, ms[0]);
        PairsMessagesAccounted(w.st, env, w.processed, ms[1..]);
      }
    }
  }

  lemma {:induction false} PairsDialogsAccounted(st: State, env: Env, processed: set<string>, ds: seq<Dialog>)
    ensures Accounted(st, PairsDialogs(st, env, processed, ds).st)
    decreases |ds|
  {
    if ds != [] {
      var st1 := Poll(st, env);
      if st1.running {
        var stream := env.remote.search(ds[0], env.query);
        var w := PairsMessages(st1, env, processed, stream.messages);
        PairsMessagesAccounted(st1, env, processed, stream.messages);
        var st2 := if stream.raised && !w.stopped then w.st.(log := w.st.log + [SourceError]) else w.st;
        if stream.raised && !w.stopped {
          NoteAccounted(w.st, SourceError);
        }
        PairsDialogsAccounted(st2, env, w.processed, ds[1..]);
        AccountedTrans(st1, st2, PairsDialogs(st2, env, w.processed, ds[1..]).st);
      }
    }
  }

  /** After `start_download` each counter equals the number of downloads of its kind
      the run logged, and the failed counter the number of failed downloads; the
      log of earlier runs is kept, and the run ends with the flag cleared. */
  lemma RunCounters(st: State, env: Env)
    requires !st.running
    ensures var r := StartDownload(st, env);
            st.log <= r.log && !r.running
            && var run := r.log[|st.log|..];
            r.images == Tally(run, Image, Downloaded)
            && r.archives == Tally(run, Archive, Downloaded)
            && r.failed == Failures(run)
  {
    var reset := st.(images := 0, archives := 0, failed := 0, running := true);
    var w := PairsDialogs(reset, env, {}, env.remote.dialogs);
    PairsDialogsAccounted(reset, env, {}, env.remote.dialogs);
    var run := w.st.log[|st.log|..];
    assert w.st.log == st.log + run;
    TallyAppend(st.log, run, Image, Downloaded);
    TallyAppend(st.log, run, Archive, Downloaded);
    TallyAppend(st.log, run, Image, Failed);
    TallyAppend(st.log, run, Archive, Failed);
  }

  /** A second `start_download` while one is running changes nothing. */
  lemma StartWhileRunning(st: State, env: Env)
    requires st.running
    ensures StartDownload(st, env) == st
  {
  }
}
