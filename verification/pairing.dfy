/** The pairing run of the scraper as functions over values: one run state, the
    remote side as data and oracles, and one function per loop of
    `search_and_download_pairs`, `search_and_download_archive_for_code` and
    `download_with_progress`. The class in `Scraper` is proved to compute these. */
module Pairing {
  import opened Text
  import opened Parser
  import opened Paths

  /** A message as a search yields it: its id, whether its media is a photo or a
      document, the name and extension of its attached file (`message.file`) and
      its text. */
  datatype Msg = Msg(
    id: int,
    hasPhoto: bool,
    hasDocument: bool,
    fileName: Option<string>,
    fileExt: Option<string>,
    text: Option<string>)

  /** A dialog (chat or channel) the account can read. */
  type Dialog = nat

  /** What iterating one search in one dialog yields: the messages, in order, and
      whether the iteration then raised (a rate limit, an RPC error or any other
      exception: all three abandon the dialog alike). */
  datatype Stream = Stream(messages: seq<Msg>, raised: bool)

  /** The Telegram client as the scraper uses it: the dialogs in order, the result
      of searching one dialog for a text, and whether fetching a message's media to
      a path succeeds. */
  datatype Remote = Remote(
    dialogs: seq<Dialog>,
    search: (Dialog, string) -> Stream,
    fetchOk: (Msg, string) -> bool)

  /** Everything fixed for one run: the client, the two target directories, the
      search query, and when (at which read of `is_running`) a stop is requested,
      if ever. */
  datatype Env = Env(
    remote: Remote,
    imagesDir: string,
    archivesDir: string,
    query: string,
    stopAt: Option<nat>)

  datatype Kind = Image | Archive

  /** The three ways `download_with_progress` ends. */
  datatype Outcome = Downloaded | Skipped | Failed

  /** What the run reports in its log, as far as the model tracks it. */
  datatype Event =
    | FoundImage(code: string)                             // "Found image with code"
    | Fetch(kind: Kind, path: string, outcome: Outcome)    // one download_with_progress call
    | ArchiveMissing(code: string)                         // "No archive found for code"
    | SourceError                                          // a dialog abandoned on an exception

  /** The mutable state of a run: the `is_running` flag, how often it has been
      read, the three counters, the files present on disk, and the log. */
  datatype State = State(
    running: bool,
    polls: nat,
    images: nat,
    archives: nat,
    failed: nat,
    existing: set<string>,
    log: seq<Event>)

  /** One read of `is_running`. A stop requested before this read is seen now, and
      a flag once false stays false. */
  function Poll(st: State, env: Env): (r: State)
    ensures r.running ==> st.running
    ensures r == st.(running := r.running, polls := st.polls + 1)
  {
    st.(running := st.running && env.stopAt != Some(st.polls), polls := st.polls + 1)
  }

  /** Result of `download_with_progress`: its return value and the new state. */
  datatype Step = Step(ok: bool, st: State)

  /** `download_with_progress`. An existing file is skipped and reported as
      success with no counter touched; otherwise exactly one counter rises by one:
      the images or archives counter when the fetch succeeds (then the file
      exists), the failed counter when it does not, and only then is the result
      false. The one event logged records the outcome. */
  function Download(st: State, env: Env, m: Msg, path: string, kind: Kind): (r: Step)
    ensures r.st.running == st.running && r.st.polls == st.polls
    ensures path in st.existing ==>
              r.ok && r.st.images == st.images && r.st.archives == st.archives
              && r.st.failed == st.failed
    ensures path !in st.existing ==>
              r.st.images + r.st.archives + r.st.failed == st.images + st.archives + st.failed + 1
    ensures r.st.images >= st.images && r.st.archives >= st.archives && r.st.failed >= st.failed
    ensures !r.ok <==> r.st.failed == st.failed + 1
    ensures path !in st.existing ==> r.ok == env.remote.fetchOk(m, path)
    ensures r.ok && path !in st.existing ==>
              (if kind == Image then r.st.images == st.images + 1 else r.st.archives == st.archives + 1)
    ensures r.st.existing == if r.ok then st.existing + {path} else st.existing
    ensures r.st.log == st.log + [Fetch(kind, path, if path in st.existing then Skipped
                                                    else if r.ok then Downloaded else Failed)]
  {
    if path in st.existing then
      Step(true, st.(log := st.log + [Fetch(kind, path, Skipped)]))
    else if env.remote.fetchOk(m, path) then
      var counted :=
        if kind == Image then st.(images := st.images + 1) else st.(archives := st.archives + 1);
      Step(true, counted.(existing := st.existing + {path},
                          log := st.log + [Fetch(kind, path, Downloaded)]))
    else
      Step(false, st.(failed := st.failed + 1, log := st.log + [Fetch(kind, path, Failed)]))
  }

  /** An archive download leaves the images counter alone, raises the archives
      counter by at most one, and on failure saves nothing. */
  lemma ArchiveDownloadCounts(st: State, env: Env, m: Msg, path: string)
    ensures var d := Download(st, env, m, path, Archive);
            && d.st.images == st.images && st.existing <= d.st.existing
            && d.st.archives <= st.archives + 1
            && (!d.ok ==> d.st.archives == st.archives && d.st.existing == st.existing)
  {
  }

  /** The file name an archive candidate carries (`message.file.name or ''`). */
  function AttachedName(m: Msg): string {
    if m.fileName.Some? then m.fileName.value else ""
  }

  /** Whether a message found by the archive search is an archive to fetch, and if
      so the extension to save it under. */
  function ArchiveCandidate(m: Msg): Option<string> {
    if !m.hasDocument then None
    else
      var name := AttachedName(m);
      if !IsArchive(name) then None else Some(ArchiveExtension(name))
  }

  /** Exactly the documents whose name passes `is_archive` are fetched, each under
      an extension that is itself, ignoring case, an archive suffix, and that is
      the tail of the name or `.rar`; a plain name, one that starts with something
      other than a dot and holds no separator, keeps its own extension. */
  lemma CandidateExtension(m: Msg)
    ensures ArchiveCandidate(m).Some? <==> m.hasDocument && IsArchive(AttachedName(m))
    ensures ArchiveCandidate(m).Some? ==>
              var e := ArchiveCandidate(m).value;
              && e != [] && e[0] == '.' && HasArchiveSuffix(ToLower(e))
              && (e == ".rar" || EndsWith(AttachedName(m), e))
    ensures ArchiveCandidate(m).Some? && AttachedName(m)[0] != '.' && '/' !in AttachedName(m) ==>
              EndsWith(AttachedName(m), ArchiveCandidate(m).value)
  {
    var name := AttachedName(m);
    if m.hasDocument && IsArchive(name) {
      ArchiveKeepsExtension(name);
      if name[0] != '.' && '/' !in name {
        OwnArchiveExtension(name);
      }
    }
  }

  /** How a scan for an archive ends: an archive was fetched (or already there),
      the run was stopped, or the messages or dialogs ran out. */
  datatype End = Found | Stopped | Exhausted

  datatype Scan = Scan(end: End, st: State)

  /** The inner loop of `search_and_download_archive_for_code` over the messages
      one dialog yields for the code. It fetches no image and deletes no file; it
      saves at most one archive, and none unless it ends with success. */
  function ArchiveMessages(st: State, env: Env, description: string, ms: seq<Msg>): (r: Scan)
    ensures r.st.images == st.images && st.existing <= r.st.existing
    ensures r.st.archives <= st.archives + 1
    ensures !r.end.Found? ==> r.st.archives == st.archives && r.st.existing == st.existing
    decreases |ms|
  {
    if ms == [] then Scan(Exhausted, st)
    else
      var st1 := Poll(st, env);
      if !st1.running then Scan(Stopped, st1)
      else
        match ArchiveCandidate(ms[0])
        case None => ArchiveMessages(st1, env, description, ms[1..])
        case Some(ext) =>
          var path := Join(env.archivesDir, description + ext);
          var d := Download(st1, env, ms[0], path, Archive);
          ArchiveDownloadCounts(st1, env, ms[0], path);
          if d.ok then Scan(Found, d.st) else ArchiveMessages(d.st, env, description, ms[1..])
  }

  /** The outer loop of `search_and_download_archive_for_code`: the dialogs `ds`
      searched for `code`, in order, until an archive is fetched or the run stops.
      Across all dialogs it still saves at most one archive, none unless it
      succeeds, and no image. */
  function ArchiveDialogs(st: State, env: Env, code: string, description: string, ds: seq<Dialog>): (r: Scan)
    ensures r.st.images == st.images && st.existing <= r.st.existing
    ensures r.st.archives <= st.archives + 1
    ensures !r.end.Found? ==> r.st.archives == st.archives && r.st.existing == st.existing
    decreases |ds|
  {
    if ds == [] then Scan(Exhausted, st)
    else
      var st1 := Poll(st, env);
      if !st1.running then Scan(Stopped, st1)
      else
        var stream := env.remote.search(ds[0], code);
        var r := ArchiveMessages(st1, env, description, stream.messages);
        if !r.end.Exhausted? then r
        else
          var st2 := if stream.raised then r.st.(log := r.st.log + [SourceError]) else r.st;
          ArchiveDialogs(st2, env, code, description, ds[1..])
  }

  /** `message.text.strip().replace("\n", " ")`: the stripped text, as long as it,
      with every newline a space and every other character kept in place; no
      surrounding whitespace and no newline remain. */
  function OneLine(text: string): (r: string)
    ensures |r| == |Strip(text)| && '\n' !in r && Trimmed(r)
    ensures forall j :: 0 <= j < |r| && Strip(text)[j] != '\n' ==> r[j] == Strip(text)[j]
    ensures forall j :: 0 <= j < |r| && Strip(text)[j] == '\n' ==> r[j] == ' '
  {
    var t := Strip(text);
    seq(|t|, j requires 0 <= j < |t| => if t[j] == '\n' then ' ' else t[j])
  }

  /** The name a photo message is parsed from: its file name, else its text on one
      line, else its id followed by `.jpg`. A name not taken from the file has no
      newline and no surrounding whitespace, and the name is empty only when the
      file has none and the text is whitespace alone. */
  function RawName(m: Msg): (r: string)
    ensures (m.fileName.None? || m.fileName.value == []) ==> '\n' !in r && Trimmed(r)
    ensures r == [] ==> m.text.Some? && m.text.value != [] && Strip(m.text.value) == []
  {
    if m.fileName.Some? && m.fileName.value != [] then m.fileName.value
    else if m.text.Some? && m.text.value != [] then OneLine(m.text.value)
    else IntToString(m.id) + ".jpg"
  }

  /** A photo with neither a file name nor text is named after its id with `.jpg`
      appended; that name has no whitespace, so it never yields a code and the
      pairing loop passes the photo by without a trace. */
  lemma FallbackNameSkipped(st: State, env: Env, processed: set<string>, m: Msg)
    requires m.fileName.None? || m.fileName.value == []
    requires m.text.None? || m.text.value == []
    ensures RawName(m) == IntToString(m.id) + ".jpg"
    ensures ExtractCodeAndDescription(RawName(m)).code.None?
    ensures PhotoStep(st, env, processed, m) == Walk(st, processed, false)
  {
    var name := IntToString(m.id) + ".jpg";
    assert NoSpace(name) by {
      assert forall j :: |IntToString(m.id)| <= j < |name| ==> name[j] in ".jpg";
    }
    NoSpaceNoCode(name);
  }

  /** The extension an image is saved under: the file's own, else `.jpg`. It is
      never empty. */
  function ImageExtension(m: Msg): (r: string)
    ensures r != [] && (r == ".jpg" || m.fileExt == Some(r))
    ensures m.fileExt.Some? && m.fileExt.value != [] ==> r == m.fileExt.value
  {
    if m.fileExt.Some? && m.fileExt.value != [] then m.fileExt.value else ".jpg"
  }

  /** The gate a parsed code must pass before its image is fetched: a code of at
      least three characters without `*`, not processed yet, so that once it is
      added to the processed set it never passes again. */
  predicate Usable(code: Option<string>, processed: set<string>)
    ensures Usable(code, processed) ==> code.Some? && |code.value| >= 3 && '*' !in code.value
    ensures code.Some? && code.value in processed ==> !Usable(code, processed)
  {
    code.Some? && code.value != [] && |code.value| >= 3 && '*' !in code.value
    && code.value !in processed
  }

  /** Where a pairing loop stands: the state, the codes already processed, and
      whether the loop was left because the run was stopped. */
  datatype Walk = Walk(st: State, processed: set<string>, stopped: bool)

  /** The body of the message loop of `search_and_download_pairs` once
      `is_running` has been read as true: only photos are looked at, and a photo's
      code is parsed from its name. */
  function PhotoStep(st: State, env: Env, processed: set<string>, m: Msg): (r: Walk)
    ensures !r.stopped && processed <= r.processed
    ensures r.processed != processed ==> m.hasPhoto
  {
    if !m.hasPhoto then Walk(st, processed, false)
    else PairStep(st, env, processed, m, ExtractCodeAndDescription(RawName(m)))
  }

  /** The rest of that body for a photo whose name parsed as `parsed`: the code
      gate and dedup, the image download, and the archive search when the image is
      there and (on a read of `is_running` made only then) the run goes on. */
  function PairStep(st: State, env: Env, processed: set<string>, m: Msg, parsed: Parsed): (r: Walk)
    ensures !r.stopped
    ensures r.processed != processed ==>
              Usable(parsed.code, processed) && r.processed == processed + {parsed.code.value}
  {
    if !Usable(parsed.code, processed) then Walk(st, processed, false)
    else
      var code := parsed.code.value;
      var path := Join(env.imagesDir, parsed.description + ImageExtension(m));
      Walk(FetchPair(st.(log := st.log + [FoundImage(code)]), env, m, path, code, parsed.description),
           processed + {code}, false)
  }

  /** What follows the report of a code: the image download, then, only if it
      succeeded and `is_running` still reads true, the archive search. */
  function FetchPair(st: State, env: Env, m: Msg, imagePath: string, code: string, description: string): State {
    var d := Download(st, env, m, imagePath, Image);
    if !d.ok then d.st
    else
      var st2 := Poll(d.st, env);
      if st2.running then PairArchive(st2, env, code, description) else st2
  }

  /** The archive search for a code whose image is there, reporting the archive
      missing when the search does not succeed. */
  function PairArchive(st: State, env: Env, code: string, description: string): State {
    var a := ArchiveDialogs(st, env, code, description, env.remote.dialogs);
    if a.end.Found? then a.st else a.st.(log := a.st.log + [ArchiveMissing(code)])
  }

  /** The message loop of `search_and_download_pairs` over the messages one dialog
      yields for the query. */
  function PairsMessages(st: State, env: Env, processed: set<string>, ms: seq<Msg>): (r: Walk)
    ensures processed <= r.processed
    ensures r.stopped ==> !r.st.running
    decreases |ms|
  {
    if ms == [] then Walk(st, processed, false)
    else
      var st1 := Poll(st, env);
      if !st1.running then Walk(st1, processed, true)
      else
        var w := PhotoStep(st1, env, processed, ms[0]);
        PairsMessages(w.st, env, w.processed, ms[1..])
  }

  /** The dialog loop of `search_and_download_pairs`. */
  function PairsDialogs(st: State, env: Env, processed: set<string>, ds: seq<Dialog>): (r: Walk)
    ensures processed <= r.processed
    ensures r.stopped ==> !r.st.running
    decreases |ds|
  {
    if ds == [] then Walk(st, processed, false)
    else
      var st1 := Poll(st, env);
      if !st1.running then Walk(st1, processed, true)
      else
        var stream := env.remote.search(ds[0], env.query);
        var w := PairsMessages(st1, env, processed, stream.messages);
        var st2 :=
          if stream.raised && !w.stopped then w.st.(log := w.st.log + [SourceError]) else w.st;
        PairsDialogs(st2, env, w.processed, ds[1..])
  }

  /** `search_and_download_pairs`, with a fresh set of processed codes. */
  function SearchPairs(st: State, env: Env): State {
    PairsDialogs(st, env, {}, env.remote.dialogs).st
  }

  /** `start_download` once its configuration checks pass: a run already in
      progress is left alone; otherwise the counters are reset, the run is
      flagged, the pairs are searched, and the flag is cleared at the end. */
  function StartDownload(st: State, env: Env): State {
    if st.running then st
    else
      var reset := st.(images := 0, archives := 0, failed := 0, running := true);
      SearchPairs(reset, env).(running := false)
  }
}
