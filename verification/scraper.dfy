/** The scraper object: its `is_running` flag and download counters, updated in
    place by the download loops, with the file system and the log as fields too.
    Every method is proved to compute the matching function of `Pairing`, so the
    properties proved there (`Accounting`, `RunLog`) hold of the object. */
module Scraper {
  import opened Text
  import opened Parser
  import opened Paths
  import opened Pairing

  class Scraper {
    /** The Telegram client of the run. */
    const remote: Remote
    /** The directories and the search query from the configuration form. */
    const imagesPath: string
    const archivesPath: string
    const searchQuery: string
    /** The read of `is_running` at which the user's stop request lands, if any. */
    const stopAt: Option<nat>

    var isRunning: bool
    /** How many times `is_running` has been read. */
    var polls: nat
    var downloadedImages: nat
    var downloadedArchives: nat
    var failedDownloads: nat
    /** The paths that exist on disk. */
    var existing: set<string>
    var log: seq<Event>

    function Config(): Env {
      Env(remote, imagesPath, archivesPath, searchQuery, stopAt)
    }

    function Snapshot(): State
      reads this
    {
      State(isRunning, polls, downloadedImages, downloadedArchives, failedDownloads, existing, log)
    }

    /** A scraper that is not running, with zero counters and an empty log. */
    constructor(remote: Remote, imagesPath: string, archivesPath: string, searchQuery: string,
                stopAt: Option<nat>, existing: set<string>)
      ensures Config() == Env(remote, imagesPath, archivesPath, searchQuery, stopAt)
      ensures Snapshot() == State(false, 0, 0, 0, 0, existing, [])
    {
      this.remote := remote;
      this.imagesPath := imagesPath;
      this.archivesPath := archivesPath;
      this.searchQuery := searchQuery;
      this.stopAt := stopAt;
      this.isRunning := false;
      this.polls := 0;
      this.downloadedImages := 0;
      this.downloadedArchives := 0;
      this.failedDownloads := 0;
      this.existing := existing;
      this.log := [];
    }

    /** One read of `self.is_running`, which a stop request may have cleared. */
    method ReadRunning() returns (running: bool)
      modifies this
      ensures Snapshot() == Poll(old(Snapshot()), Config())
      ensures running == isRunning
    {
      isRunning := isRunning && stopAt != Some(polls);
      polls := polls + 1;
      running := isRunning;
    }

    method DownloadWithProgress(message: Msg, filePath: string, fileType: Kind) returns (ok: bool)
      modifies this
      ensures var d := Download(old(Snapshot()), Config(), message, filePath, fileType);
              ok == d.ok && Snapshot() == d.st
    {
      if filePath in existing {
        log := log + [Fetch(fileType, filePath, Skipped)];
        return true;
      }
      var fetched := remote.fetchOk(message, filePath);
      if fetched {
        if fileType == Image {
          downloadedImages := downloadedImages + 1;
        } else {
          downloadedArchives := downloadedArchives + 1;
        }
        existing := existing + {filePath};
        log := log + [Fetch(fileType, filePath, Downloaded)];
        return true;
      }
      failedDownloads := failedDownloads + 1;
      log := log + [Fetch(fileType, filePath, Failed)];
      return false;
    }

    method SearchAndDownloadArchiveForCode(code: string, fileName: string) returns (found: bool)
      modifies this
      ensures var r := ArchiveDialogs(old(Snapshot()), Config(), code, fileName, remote.dialogs);
              found == r.end.Found? && Snapshot() == r.st
    {
      ghost var target := ArchiveDialogs(Snapshot(), Config(), code, fileName, remote.dialogs);
      var dialogs := remote.dialogs;
      var i := 0;
      while i < |dialogs|
        invariant 0 <= i <= |dialogs|
        invariant ArchiveDialogs(Snapshot(), Config(), code, fileName, dialogs[i..]) == target
      {
        assert dialogs[i..][0] == dialogs[i] && dialogs[i..][1..] == dialogs[i + 1..];
        var running := ReadRunning();
        if !running {
          return false;
        }
        var stream := remote.search(dialogs[i], code);
        var end := ScanArchiveMessages(stream.messages, fileName);
        if end.Found? {
          return true;
        } else if end.Stopped? {
          return false;
        }
        if stream.raised {
          log := log + [SourceError];
        }
        i := i + 1;
      }
      return false;
    }

    /** The message loop of `search_and_download_archive_for_code` over the
        messages of one dialog: whether it found an archive, was stopped, or ran
        out of messages. */
    method ScanArchiveMessages(messages: seq<Msg>, fileName: string) returns (end: End)
      modifies this
      ensures var r := ArchiveMessages(old(Snapshot()), Config(), fileName, messages);
              end == r.end && Snapshot() == r.st
    {
      ghost var scan := ArchiveMessages(Snapshot(), Config(), fileName, messages);
      var j := 0;
      while j < |messages|
        invariant 0 <= j <= |messages|
        invariant ArchiveMessages(Snapshot(), Config(), fileName, messages[j..]) == scan
      {
        var running := ReadRunning();
        if !running {
          return Stopped;
        }
        var message := messages[j];
        j := j + 1;
        if !message.hasDocument {
          continue;
        }
        var completeFileName := "";
        if message.fileName.Some? {
          completeFileName := message.fileName.value;
        }
        if !IsArchive(completeFileName) {
          continue;
        }
        var ext := SplitExt(completeFileName).1;
        if ext == [] {
          ext := ".rar";
        }
        var archivePath := Join(archivesPath, fileName + ext);
        var success := DownloadWithProgress(message, archivePath, Archive);
        if success {
          return Found;
        }
      }
      return Exhausted;
    }

    method SearchAndDownloadPairs()
      modifies this
      ensures Snapshot() == SearchPairs(old(Snapshot()), Config())
    {
      var searchName := searchQuery;
      var processedCodes: set<string> := {};
      var dialogs := remote.dialogs;
      var i := 0;
      while i < |dialogs|
        invariant 0 <= i <= |dialogs|
        invariant PairsDialogs(Snapshot(), Config(), processedCodes, dialogs[i..]).st
                  == SearchPairs(old(Snapshot()), Config())
      {
        var running := ReadRunning();
        if !running {
          break;
        }
        var stream := remote.search(dialogs[i], searchName);
        var messages := stream.messages;
        ghost var walk := PairsMessages(Snapshot(), Config(), processedCodes, messages);
        var stopped := false;
        var j := 0;
        while j < |messages|
          invariant 0 <= j <= |messages|
          invariant PairsMessages(Snapshot(), Config(), processedCodes, messages[j..]) == walk
        {
          running := ReadRunning();
          if !running {
            stopped := true;
            break;
          }
          var message := messages[j];
          j := j + 1;
          ghost var photo := PhotoStep(Snapshot(), Config(), processedCodes, message);
          processedCodes := HandlePhoto(message, processedCodes);
          assert Snapshot() == photo.st && processedCodes == photo.processed;
        }
        if stream.raised && !stopped {
          log := log + [SourceError];
        }
        i := i + 1;
      }
    }

    /** The body of the message loop of `search_and_download_pairs` after
        `is_running` was read as true; returns the processed codes. */
    method HandlePhoto(message: Msg, processedCodes: set<string>) returns (processed: set<string>)
      modifies this
      ensures var w := PhotoStep(old(Snapshot()), Config(), processedCodes, message);
              Snapshot() == w.st && processed == w.processed
    {
      processed := processedCodes;
      if !message.hasPhoto {
        return;
      }
      var fileName: string;
      if message.fileName.Some? && message.fileName.value != [] {
        fileName := message.fileName.value;
      } else if message.text.Some? && message.text.value != [] {
        fileName := OneLine(message.text.value);
      } else {
        fileName := IntToString(message.id) + ".jpg";
      }
      var parsed := ExtractCodeAndDescription(fileName);
      processed := HandleCode(message, processed, parsed);
    }

    /** The rest of that body once the photo's name is parsed: the code gate and
        dedup, the image download, and the archive search. */
    method HandleCode(message: Msg, processedCodes: set<string>, parsed: Parsed)
      returns (processed: set<string>)
      modifies this
      ensures var w := PairStep(old(Snapshot()), Config(), processedCodes, message, parsed);
              Snapshot() == w.st && processed == w.processed
    {
      processed := processedCodes;
      var code := parsed.code;
      var cleanName := parsed.description;
      if code.None? || code.value == [] || |code.value| < 3 || '*' in code.value
         || code.value in processed {
        return;
      }
      processed := processed + {code.value};
      var fileExt := ".jpg";
      if message.fileExt.Some? {
        fileExt := if message.fileExt.value != [] then message.fileExt.value else ".jpg";
      }
      var imagePath := Join(imagesPath, cleanName + fileExt);
      assert imagePath == Join(imagesPath, cleanName + ImageExtension(message));
      log := log + [FoundImage(code.value)];
      FetchImageAndArchive(message, imagePath, code.value, cleanName);
    }

    /** After the code is reported: the image download, then, when the image is
        there and the run goes on, the archive search, reporting the archive
        missing when the search does not succeed. */
    method FetchImageAndArchive(message: Msg, imagePath: string, code: string, cleanName: string)
      modifies this
      ensures Snapshot() == FetchPair(old(Snapshot()), Config(), message, imagePath, code, cleanName)
    {
      var imageSuccess := DownloadWithProgress(message, imagePath, Image);
      if imageSuccess {
        var running := ReadRunning();
        if running {
          ghost var pairing := Snapshot();
          var archiveFound := SearchAndDownloadArchiveForCode(code, cleanName);
          if !archiveFound {
            log := log + [ArchiveMissing(code)];
          }
          assert Snapshot() == PairArchive(pairing, Config(), code, cleanName);
        }
      }
    }

    method StartDownload()
      modifies this
      ensures Snapshot() == Pairing.StartDownload(old(Snapshot()), Config())
    {
      if isRunning {
        return;
      }
      downloadedImages := 0;
      downloadedArchives := 0;
      failedDownloads := 0;
      isRunning := true;
      SearchAndDownloadPairs();
      isRunning := false;
    }

    method StopDownload()
      modifies this
      ensures Snapshot() == old(Snapshot()).(running := false)
    {
      isRunning := false;
    }
  }
}
