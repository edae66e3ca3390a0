# Telegram archive/images scraper — a Dafny model

The scraper (`telegram_archive_images_scraper.py`) searches every Telegram dialog
the account can read for photos matching a query. It reads a product code and a
description from each photo's name and saves the photo under the description in
the images directory. For each saved image it then searches all dialogs again for
an archive (`.rar`, `.zip`, `.7z`, `.tar`, `.gz`, `.bz2`) posted under the same
code, and saves the first one it can fetch under the same description in the
archives directory. Three counters track downloaded images, downloaded archives
and failed downloads. An `is_running` flag, cleared by the Stop button, is read
before every dialog and every message.

The model has two parts, as the program does.

- **The filename parser** (`Text`, `Parser`, `Paths`): `extract_code_and_description`,
  `sanitize_filename` and `is_archive` are pure functions over strings. The model
  also covers the `posixpath` `splitext`/`join` calls and `str(int)`. Python's
  `str.isspace()` set is one predicate, shared by the regular-expression class
  `\s` and by `strip()`.
- **The pairing run** (`Pairing`, `Scraper`): the three download routines.
  - `Pairing` defines each loop as a function over an explicit run state: the
    flag, how often it has been read, the three counters, the files present on
    disk and a log of events.
  - `Scraper.Scraper` is a class with those fields. Its methods keep the
    program's nested loops, `break`, `continue` and early `return`. Each method
    is proved to compute the matching `Pairing` function.
- **Properties of the run**:
  - `Accounting` proves that the counters count what the log reports.
  - `RunLog` proves the order of events: an image download follows the report
    of its code at once, and archives are searched for only after their image is
    there.
  - `RunLog` also proves that an archive search tries, in order, every archive
    candidate the dialogs yield, until a download succeeds or finds its file
    already there. It also proves that no code is reported twice in a run, and
    where images and archives are saved.

The Telegram client is data.
- A run sees the dialogs in order.
- Searching a dialog for a text gives a `Stream`: the messages in order, and
  whether iterating them then raised.
- Whether fetching a message's media to a path succeeds is a function.
- When the user presses Stop is a schedule: the read of `is_running` at which
  the stop is first seen (`Env.stopAt`).

## Behaviour as the code has it

- Downloads are strictly sequential. Every `download_with_progress` call is
  awaited before the loop goes on, so the semaphore created in
  `_download_process` never limits anything. The model has no concurrency.
- A rate limit, an RPC error and any other exception (`:569-575`, `:606-612`)
  all act alike: the rest of the current dialog is abandoned and the loop moves
  on to the next dialog. Nothing is retried, not even after a rate-limit wait.
  The model logs one `SourceError` event for the abandoned dialog.
- A photo named `CAT001 funny cats.jpg` with extension `.jpg` is saved as
  `images/funny cats jpg.jpg`. `sanitize_filename` turns the dot of the name's
  own extension into a space, and the file's extension is appended again
  (`Parser.ExampleWithExtension`, `RunLog.ExampleImagePath`). Its archive, when
  it is a `.rar`, becomes `archives/funny cats jpg.rar`.
- The archive search is entered when the image call returned true. That
  includes an image that was skipped because its file already existed. It also
  takes a further read of `is_running` (`:560`), so a stop can land there.
- A code is added to the processed set before its image is fetched, so a failed
  image download is never retried for that code in the same run.
- A photo with neither a file name nor text is named `<id>.jpg`. That name has
  no whitespace, so it never yields a code and the photo is always passed over
  (`Pairing.FallbackNameSkipped`).

## Model

| member | source | states |
|---|---|---|
| Text.Strip | telegram_archive_images_scraper.py:618 | `strip()` leaves no whitespace at either end, is no longer than its input, and is a slice of the input with only whitespace around it |
| Text.StripTrimmed | telegram_archive_images_scraper.py:618 | stripping a string with no surrounding whitespace leaves it unchanged |
| Text.StripUnique | telegram_archive_images_scraper.py:618 | a slice with no whitespace at either end and only whitespace around it is exactly what `strip()` returns |
| Text.StripSkipLeading | telegram_archive_images_scraper.py:625 | dropping leading whitespace before stripping (as the regex gap does for group 2) changes nothing |
| Parser.DotsToSpaces | telegram_archive_images_scraper.py:635 | every dot and dash becomes a space; every other character keeps its place |
| Parser.DropForbidden | telegram_archive_images_scraper.py:636 | the deletion keeps exactly the characters of the input outside `<>:"/\|?*`, newline and CR, and is no longer than its input |
| Parser.DropForbiddenConcat | telegram_archive_images_scraper.py:636 | the deletion of a concatenation is the deletion of each part in turn, so with `DropForbiddenChar` the kept characters keep their order and multiplicity |
| Parser.DropForbiddenChar | telegram_archive_images_scraper.py:636 | one character is deleted exactly when it is one of the forbidden ones |
| Parser.DropForbiddenNone | telegram_archive_images_scraper.py:636 | a string without those characters is left unchanged |
| Parser.SanitizeFilename | telegram_archive_images_scraper.py:633-637 | the result has no `.`, `-`, `<`, `>`, `:`, `"`, `/`, `\`, `\|`, `?`, `*`, newline or CR, has no surrounding whitespace, is no longer than the name, and every character comes from the name or is a space |
| Parser.SanitizeFixpoint | telegram_archive_images_scraper.py:633-637 | a name is left unchanged exactly when it has none of those characters and no surrounding whitespace |
| Parser.SanitizeIdempotent | telegram_archive_images_scraper.py:633-637 | sanitizing twice is sanitizing once |
| Parser.SanitizeWithoutForbidden | telegram_archive_images_scraper.py:635-637 | a name with no deleted character and nothing to strip only has its dots and dashes turned into spaces |
| Parser.CutComment | telegram_archive_images_scraper.py:627 | `re.sub('#.*', '', DOTALL)` keeps the longest prefix without `#`: no `#` in the result, and the input continues with `#` wherever the result stops short |
| Parser.CutCommentAt | telegram_archive_images_scraper.py:627 | the cut lands exactly at the first `#` |
| Parser.CutCommentNone | telegram_archive_images_scraper.py:627 | without `#` nothing is cut |
| Parser.CollapseSpaces | telegram_archive_images_scraper.py:628 | `re.sub('\s+', ' ')` keeps the non-whitespace characters in order, leaves only single spaces as whitespace, never two in a row, keeps emptiness and whether the string starts with whitespace |
| Parser.CollapseGap | telegram_archive_images_scraper.py:628 | a whitespace run between two words becomes exactly one space and each side is collapsed on its own, so the words keep their order |
| Parser.CollapseSplit | telegram_archive_images_scraper.py:628 | a string that ends in a word collapses independently of what follows it |
| Parser.CollapseFixpoint | telegram_archive_images_scraper.py:628 | a string whose whitespace is already single spaces is unchanged |
| Parser.NonSpacesSkip | telegram_archive_images_scraper.py:628 | leading whitespace does not change the non-whitespace content |
| Parser.TokenMatch | telegram_archive_images_scraper.py:620 | `^([^\s]+)\s+([\s\S]+)$` matches as group 1 a non-empty whitespace-free prefix, then a whitespace gap as long as it can be while group 2 stays non-empty; when it fails no split of that shape exists |
| Parser.TokenMaximal | telegram_archive_images_scraper.py:620 | no whitespace-free prefix is longer than the leading token |
| Parser.NoSplit | telegram_archive_images_scraper.py:620-621 | a string whose leading token is empty or leaves fewer than two characters has no split of the regex's shape |
| Parser.TrimmedMatch | telegram_archive_images_scraper.py:618-621 | on a stripped name the regex fails exactly when the name holds no whitespace, and when it matches group 1 is followed by whitespace and group 2 starts with a non-whitespace character |
| Parser.ExtractCodeAndDescription | telegram_archive_images_scraper.py:616-631 | no code exactly when the stripped name has no whitespace, and then the description is the sanitized stripped name; a code is the maximal leading whitespace-free run of the stripped name, followed by whitespace; a description after a code holds no `#` |
| Parser.CleanDescription | telegram_archive_images_scraper.py:625-629 | the description built from group 2 holds no `#` |
| Parser.MatchAfterToken | telegram_archive_images_scraper.py:620 | after a whitespace-free code and whitespace, group 1 is the code and group 2 starts at the first non-whitespace character |
| Parser.ExtractMatched | telegram_archive_images_scraper.py:620-631 | once the match is known, the result is the code with the collapsed, sanitized, comment-free group 2 |
| Parser.CommentFreePart | telegram_archive_images_scraper.py:625-627 | stripping and cutting at a `#` leaves exactly the stripped text before it |
| Parser.CommentIgnored | telegram_archive_images_scraper.py:627 | whatever follows the first `#` after the code has no effect on the result, for any leading whitespace and any whitespace character after the code |
| Parser.CommentedParts | telegram_archive_images_scraper.py:618-627 | on `code + [g] + d + "#" + rest`, with `g` any whitespace character, the match ends after the code's gap and the cut text strips to the stripped `d` |
| Parser.CommentedStripped | telegram_archive_images_scraper.py:620-627 | the same on the stripped name |
| Parser.NoComment | telegram_archive_images_scraper.py:625-631 | without `#` the description is the rest with whitespace collapsed, then sanitized |
| Parser.PlainDescription | telegram_archive_images_scraper.py:625-637 | a rest of single-spaced words without `#` or deleted characters yields that rest with dots and dashes turned into spaces |
| Parser.ExampleWithExtension | telegram_archive_images_scraper.py:616-631 | `CAT001 funny cats.jpg` yields code `CAT001` and description `funny cats jpg` |
| Parser.FunnyCatsWords | telegram_archive_images_scraper.py:625-636 | `funny cats.jpg` is single-spaced words with no `#` and no deleted character |
| Parser.FunnyCatsDots | telegram_archive_images_scraper.py:635 | its dot becomes a space, giving `funny cats jpg` |
| Parser.ExampleWithoutCode | telegram_archive_images_scraper.py:621-622 | `onlytext` yields no code and description `onlytext` |
| Parser.NoSpaceNoCode | telegram_archive_images_scraper.py:618-622 | a name without whitespace never yields a code |
| Parser.SafeWordHasNoCode | telegram_archive_images_scraper.py:618-622 | a whitespace-free name with no character sanitizing changes is returned as its own description, with no code |
| Parser.IsArchive | telegram_archive_images_scraper.py:639-643 | an archive name has at least three characters and a dot |
| Parser.ArchiveNameHasDot | telegram_archive_images_scraper.py:643 | a name whose lower-cased form ends with an archive suffix has at least three characters and a dot |
| Parser.IsArchiveIgnoresCase | telegram_archive_images_scraper.py:639-643 | `is_archive` gives the same answer for a name and its lower-cased form, and is false for the empty name |
| Parser.UpperCaseArchive | telegram_archive_images_scraper.py:643 | `CAT001.RAR` is an archive |
| Parser.ImageNotArchive | telegram_archive_images_scraper.py:643 | `cat.jpg` is not an archive |
| Parser.BareRarNotArchive | telegram_archive_images_scraper.py:643 | `rar`, with no dot, is not an archive |
| Parser.NatToString | telegram_archive_images_scraper.py:540 | `str` of a natural number is a non-empty string of decimal digits, one digit exactly below ten |
| Parser.NatToStringValue | telegram_archive_images_scraper.py:540 | the digits denote the number: reading them back gives it |
| Parser.IntToString | telegram_archive_images_scraper.py:540 | `str` of an integer is non-empty, has no whitespace, and starts with `-` exactly for a negative number |
| Paths.RFind | telegram_archive_images_scraper.py:599 | the last index of the character, or -1 when it does not occur |
| Paths.SplitExt | telegram_archive_images_scraper.py:599 | `os.path.splitext`: root and extension concatenate to the path; the extension is non-empty exactly when the last component has a dot after some character other than a dot, and it is then the tail from that last dot: one dot followed by neither dot nor separator |
| Paths.Join | telegram_archive_images_scraper.py:553 | `os.path.join`: an absolute second argument is the result; otherwise the result is the first argument, then a `/` only when the first is non-empty and does not end with one, then the second; either way it ends with the second argument |
| Paths.ArchiveExtension | telegram_archive_images_scraper.py:599 | the extension an archive is saved under is one dot followed by neither dot nor separator |
| Paths.ArchiveKeepsExtension | telegram_archive_images_scraper.py:599 | the extension an archive is saved under is `.rar` or the tail of its own name, and is, ignoring case, one of the six archive suffixes |
| Paths.OwnArchiveExtension | telegram_archive_images_scraper.py:599 | an archive name that starts with something other than a dot and has no separator is saved under its own `splitext` extension, never the `.rar` fallback: the tail from its last dot, which ends the name and is an archive suffix ignoring case |
| Paths.SuffixIsExtension | telegram_archive_images_scraper.py:599 | when the lower-cased name ends with a suffix of one dot and no other dot, a non-empty extension is that suffix up to case |
| Paths.LastDotOfExtension | telegram_archive_images_scraper.py:599 | a non-empty extension starts at the last dot of the name |
| Paths.LastDotOfSuffix | telegram_archive_images_scraper.py:643 | lower-casing keeps dots in place, so such a suffix marks the name's last dot |
| Pairing.Poll | telegram_archive_images_scraper.py:520 | a read of `is_running` never turns the run back on, and changes nothing else but the read count |
| Pairing.Download | telegram_archive_images_scraper.py:484-512 | an existing path returns true with every counter unchanged; otherwise exactly one counter rises by one, the kind's counter on success and the failed counter on an exception; false is returned only on failure; a fetch that is not skipped succeeds exactly when fetching the message to the path succeeds; a successful fetch adds the file; exactly one download event is logged, skipped exactly for an existing path and failed exactly when false is returned |
| Pairing.CandidateExtension | telegram_archive_images_scraper.py:588-599 | a message is an archive candidate exactly when it is a document whose name passes `is_archive`; its extension is then a dot-led archive suffix ignoring case, `.rar` or the tail of the name, and for a plain name always the tail of the name |
| Pairing.ArchiveDownloadCounts | telegram_archive_images_scraper.py:484-512 | an archive download never touches the image counter, never removes a file, raises the archive counter by at most one, and when it fails leaves the archive counter and the files alone |
| Pairing.ArchiveMessages | telegram_archive_images_scraper.py:584-604 | the message loop of the archive search never touches the image counter or removes a file, saves at most one archive, and saves none unless it ends with success |
| Pairing.ArchiveDialogs | telegram_archive_images_scraper.py:579-614 | the same for the whole archive search: at most one archive per code, and none unless it returns true |
| Pairing.OneLine | telegram_archive_images_scraper.py:538 | the stripped text with every newline turned into a space: as long as the stripped text, no newline, no surrounding whitespace, every other character in its place |
| Pairing.RawName | telegram_archive_images_scraper.py:534-540 | a name not taken from the file has no newline and no surrounding whitespace; the name is empty only when the message has no file name and a non-empty text that is all whitespace |
| Pairing.ImageExtension | telegram_archive_images_scraper.py:549-551 | the image's extension is the file's own when it has a non-empty one, `.jpg` otherwise |
| Pairing.Usable | telegram_archive_images_scraper.py:543-544 | a usable code is present, has at least three characters and no `*`, and a code already processed is never usable |
| Pairing.PhotoStep | telegram_archive_images_scraper.py:529-564 | one message never stops the loop and never forgets a processed code; only a photo adds one |
| Pairing.PairStep | telegram_archive_images_scraper.py:542-564 | a photo adds a code to the processed set only when the code passes the gate, and then that code alone |
| Pairing.PairsMessages | telegram_archive_images_scraper.py:525-567 | the message loop never forgets a processed code, and ends stopped only when `is_running` was read as false |
| Pairing.PairsDialogs | telegram_archive_images_scraper.py:519-575 | the same for the dialog loop |
| Pairing.FallbackNameSkipped | telegram_archive_images_scraper.py:534-544 | a photo with neither name nor text is named `<id>.jpg`, yields no code, and leaves the state and the processed codes unchanged |
| Accounting.DownloadAccounted | telegram_archive_images_scraper.py:484-512 | one download moves each counter by as much as its tally of logged download events |
| Accounting.ArchiveMessagesAccounted | telegram_archive_images_scraper.py:584-604 | the message loop of the archive search keeps the counters in step with the log |
| Accounting.ArchiveDialogsAccounted | telegram_archive_images_scraper.py:579-614 | the whole archive search keeps the counters in step with the log |
| Accounting.PairArchiveAccounted | telegram_archive_images_scraper.py:560-564 | the archive search after an image keeps the counters in step with the log |
| Accounting.PairStepAccounted | telegram_archive_images_scraper.py:543-564 | one gated photo keeps the counters in step with the log |
| Accounting.PhotoStepAccounted | telegram_archive_images_scraper.py:530-564 | one message keeps the counters in step with the log |
| Accounting.PairsMessagesAccounted | telegram_archive_images_scraper.py:525-567 | the message loop of one dialog keeps the counters in step with the log |
| Accounting.PairsDialogsAccounted | telegram_archive_images_scraper.py:519-575 | the dialog loop keeps the counters in step with the log |
| Accounting.RunCounters | telegram_archive_images_scraper.py:412-418 | after a run the three counters equal the numbers of downloaded images, downloaded archives and failed downloads the run logged; the earlier log is kept and the flag ends cleared |
| Accounting.StartWhileRunning | telegram_archive_images_scraper.py:408-410 | starting while a run is in progress changes nothing |
| RunLog.ArchiveMessagesLog | telegram_archive_images_scraper.py:584-604 | the message loop of the archive search logs only archive downloads; every one before the last failed; it reports success exactly when its last download did not fail |
| RunLog.ArchiveDialogsLog | telegram_archive_images_scraper.py:579-614 | across dialogs the same holds, an abandoned dialog adding only its error: a download that does not fail ends the search with success, and every download of a search that ends without success failed |
| RunLog.ArchiveMessagesTried | telegram_archive_images_scraper.py:584-604 | the message loop's log is exactly: one failed download per candidate reached, in message order, each of a message whose fetch fails; a loop that runs out of messages reached them all, a stopped one those before the stop, and a successful one those before some candidate, then that candidate's download, which found its file already there or fetched that very message |
| RunLog.BothCandidatesTried | telegram_archive_images_scraper.py:584-604 | two candidates with the same path are both tried, and both logged as failed, when the loop runs out of messages |
| RunLog.FirstCandidateFound | telegram_archive_images_scraper.py:584-604 | a successful loop that logs one download, over messages led by a candidate, downloaded that first candidate |
| RunLog.ArchiveDialogsTried | telegram_archive_images_scraper.py:579-614 | the search's log is exactly: the dialogs in order, each dialog before the one the search ends in logging a failed download for each of its candidates (none of which can be fetched) and then its error if its iteration raised; in the last dialog reached, the message loop logs as above; so a search that returns false without a stop tried every candidate of every dialog, and one that returns true fetched the first candidate, in dialog and message order, whose download did not fail |
| RunLog.ArchiveMessagesStops | telegram_archive_images_scraper.py:585-586 | the message loop ends stopped exactly when `is_running` was read as false |
| RunLog.ArchiveDialogsStops | telegram_archive_images_scraper.py:579-586 | the archive search returns false for a stop exactly when `is_running` was read as false |
| RunLog.ArchiveMessagesPaths | telegram_archive_images_scraper.py:588-602 | every archive the message loop downloads is one of its messages, a document whose name passes `is_archive`, saved at the archives directory joined with the description and that name's extension (or `.rar`) |
| RunLog.ArchiveDialogsPaths | telegram_archive_images_scraper.py:579-612 | every archive the search downloads comes from searching one of the dialogs for the code, saved as above, whether a dialog was abandoned on an exception or not |
| RunLog.PairArchiveLog | telegram_archive_images_scraper.py:560-564 | the archive search after an image reports no code and keeps the image's code in hand, ending with the missing-archive report only for that code |
| RunLog.ImageDestination | telegram_archive_images_scraper.py:543-558 | a code that passes the gate is reported, then its image is downloaded to the images directory joined with the description and the file's extension (or `.jpg`), and the code is processed whatever the outcome |
| RunLog.ExampleImagePath | telegram_archive_images_scraper.py:553 | `CAT001 funny cats.jpg` with `.jpg` in directory `images` is saved as `images/funny cats jpg.jpg` |
| RunLog.PairStepOrder | telegram_archive_images_scraper.py:543-564 | one gated photo logs a stretch the event-order automaton accepts and leaves with no image pending |
| RunLog.ArchiveSearchNeedsRunning | telegram_archive_images_scraper.py:558-564 | when the image download failed, or the read of `is_running` after it is false, only the image download is logged: no archive search and no missing-archive report |
| RunLog.NothingAfterStop | telegram_archive_images_scraper.py:520-586 | from a state whose flag reads false, none of the four loops logs anything |
| RunLog.FetchPairOrder | telegram_archive_images_scraper.py:555-564 | a report, its image download, and the archive search only after a successful image, in that order |
| RunLog.PhotoStepOrder | telegram_archive_images_scraper.py:530-564 | the same for any message |
| RunLog.PairsMessagesOrder | telegram_archive_images_scraper.py:525-567 | the same for the message loop of a dialog |
| RunLog.DialogOrder | telegram_archive_images_scraper.py:523-575 | the same for one dialog, including its abandonment on an exception |
| RunLog.PairsDialogsOrder | telegram_archive_images_scraper.py:519-575 | the same for the dialog loop |
| RunLog.RunOrder | telegram_archive_images_scraper.py:514-575 | a run's log is accepted from the start: each code report is followed by its image download, archives are fetched only after a successful image download, and a missing archive is reported only for the image in hand |
| RunLog.OneImagePerCode | telegram_archive_images_scraper.py:543-558 | in a run every image download directly follows the report of its code, every report is followed by one, and two image downloads never follow the same code |
| RunLog.PairStepDedup | telegram_archive_images_scraper.py:543-546 | a code is reported and processed only when it has at least three characters, no `*` and was not processed before; it is processed exactly when reported |
| RunLog.PhotoStepDedup | telegram_archive_images_scraper.py:530-546 | the same for any message |
| RunLog.PairsMessagesDedup | telegram_archive_images_scraper.py:525-546 | the same for the message loop of a dialog, no code reported twice |
| RunLog.PairsDialogsDedup | telegram_archive_images_scraper.py:517-546 | the same for the dialog loop |
| RunLog.RunDedup | telegram_archive_images_scraper.py:516-546 | in a run no code is reported twice, and every reported code passes the gate |
| Scraper.Scraper.constructor | telegram_archive_images_scraper.py:41-46 | a new scraper is not running, has zero counters and an empty log |
| Scraper.Scraper.ReadRunning | telegram_archive_images_scraper.py:520 | a read of `is_running` is `Pairing.Poll` |
| Scraper.Scraper.DownloadWithProgress | telegram_archive_images_scraper.py:484-512 | the method returns and updates the fields as `Pairing.Download` says |
| Scraper.Scraper.SearchAndDownloadArchiveForCode | telegram_archive_images_scraper.py:577-614 | the nested loops with early returns compute `Pairing.ArchiveDialogs` |
| Scraper.Scraper.ScanArchiveMessages | telegram_archive_images_scraper.py:584-604 | the inner loop with `continue` and early return computes `Pairing.ArchiveMessages` |
| Scraper.Scraper.SearchAndDownloadPairs | telegram_archive_images_scraper.py:514-575 | the nested loops with `break` and the in-place processed set compute `Pairing.SearchPairs` |
| Scraper.Scraper.HandlePhoto | telegram_archive_images_scraper.py:529-542 | the photo check and name derivation compute `Pairing.PhotoStep` |
| Scraper.Scraper.HandleCode | telegram_archive_images_scraper.py:543-558 | the gate, dedup, image path and report compute `Pairing.PairStep` |
| Scraper.Scraper.FetchImageAndArchive | telegram_archive_images_scraper.py:558-564 | the image download and the conditional archive search compute `Pairing.FetchPair` |
| Scraper.Scraper.StartDownload | telegram_archive_images_scraper.py:408-418 | the method computes `Pairing.StartDownload`, so `RunCounters`, `RunOrder`, `RunDedup` and `OneImagePerCode` hold of the object |
| Scraper.Scraper.StopDownload | telegram_archive_images_scraper.py:445-449 | a stop clears the flag and changes nothing else |

## Left out

- The Tk GUI, the authentication dialog, configuration save/load/validation
  and directory creation: user interface and file I/O.
- Session setup, the connection test, the `download_async` thread and the
  connect/authorise/disconnect steps of `_download_process`: network client and
  threading. `StartDownload` models `start_download` after its configuration and
  session-file checks have passed. A failure to connect, which ends a run before
  any search, is not modelled.
- `Paths.Join` and `Paths.SplitExt` model `posixpath`, the `os.path` of Unix
  systems. On Windows `os.path` is `ntpath`, which also splits at `\` and
  drive letters; that variant is not modelled.
- `_reset_ui` is modelled only as the flag it clears at the end of a run.
- Telethon itself (`iter_dialogs`, `iter_messages`, `download_media`) is
  replaced by data and oracles.
  - The oracles are deterministic: searching the same dialog for the same text
    always yields the same messages.
  - A failed fetch leaves no file behind.
  - The list of dialogs is given, the same for both loops that iterate it.
    Iterating it never raises. In the program, `iter_dialogs` sits outside the
    `try` of both loops. An exception from the pairing loop's iteration (`:519`)
    ends the whole run. One from the archive search's iteration (`:579`)
    propagates out of the call at `:562` into the pairing loop's `try` (`:523`).
    The rest of the current dialog is then abandoned and the missing-archive
    report (`:563-564`) is skipped. Neither path is modelled.
- The semaphore, `asyncio.sleep` pacing and the rate-limit wait: concurrency and
  timing, with no effect on the modelled state.
- The text of log lines and `update_stats`: the log keeps only the events the
  properties talk about (code reported, download and its outcome, archive
  missing, dialog abandoned).
- A stop request is modelled as the read of `is_running` at which it is first
  seen. A request that arrives between two reads is seen at the next read, as in
  the program.
- Text.ToLower: lower-cases ASCII letters only. Python's `str.lower()` also maps
  non-ASCII letters, but none of them to text that ends one of the six archive
  suffixes, so `is_archive` answers alike.
- Message media is modelled as two flags, photo and document; `message.media`
  being present is taken as implied by either.
- `chunk_size`, `max_concurrent_downloads` and the other settings that do not
  affect the modelled behaviour.
