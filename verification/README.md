# m3u8-dl in Dafny

A model of the downloading core of `m3u8-dl.py`, a command-line HLS
downloader. The program takes the segment list of an m3u8 playlist and a
pool of threads. The threads take segments from a shared queue. Each segment
gets a take index and is downloaded with up to eleven attempts. A segment
already downloaded under the same uri is recorded without a fetch. The
segment files are then merged in index order into one output file, and the
temporary folder `.tmpts` and the saved playlist `output.m3u8` are removed.

Modules:

- `Text`: Python's `str.strip` (with the `str.isspace` character set),
  `str.index`, `str.endswith`, and `split('/')[-1]`.
- `Headers`: the fold of the `-H` header strings into the request header
  map.
- `Fetch`: `TsFile.check_valid`, `download_file`, `get_path_by_url`, and the
  recursive retry of `_download_ts` with its dedup list. A segment file
  whose name is empty, `.` or `..` names a directory, so `open` raises on
  every attempt (`Writable`). The module also holds a corrected naming:
  `SafeName` names each segment file `seg-` plus the uri with `%` and `/`
  percent-escaped, and `Renamed` runs with it in place of `urlPath`.
- `Worker`: the queue, the take counter `ts_index`, `_keep_download`, and the
  thread pool of `get_tsfiles`. Threads are an interleaving of whole-segment
  steps picked by a schedule, followed by the `join` loop. The module also
  holds the invariant every step keeps.
- `Merge`: the sort by index and the concatenation of `merge`.
- `Run`: the base-url normalisation of the command line, `cleanup`, and
  `execute`, which first folds the `-H` strings in the constructor of
  `M3u8Downloader`: as written, with its success test corrected, and with the
  corrected segment naming (see Findings). `PlaylistOutput` is the bytes the
  playlist should produce: for each entry in order, the body of the first
  accepted attempt of the take that first met its uri.

Parameters of the model:

- The file system is a `map<string, seq<byte>>` from paths to contents.
- `urlparse(uri).path` is the uninterpreted function `Env.urlPath`.
- `Env.parses(uri)` says whether `urlparse(uri)` and `urljoin(base_url, uri)`
  both accept the uri. Both raise `ValueError` on, for example, an
  unbalanced `[` in the host (`http://[::1/seg.ts`).
- `Env.canCreate(path)` says whether `open(path, 'wb')` can create the
  output file. It fails for a missing parent folder, a directory of that
  name, or a lack of permission.
- The network is `Env.net(index, trycnt)`. It gives the outcome of attempt
  `trycnt` for the segment taken with index `index`: either a transport
  error, or a response with an optional Content-Type and a body.

## Model

| member | source | states |
|---|---|---|
| Text.Strip | m3u8-dl.py:152-153 | `strip` never lengthens its input; exactly what it removes is stated by Text.StripShape |
| Text.StripShape | m3u8-dl.py:152-153 | `strip` removes only leading and trailing whitespace: the result is a slice of the input, with whitespace before and after it and none at its ends |
| Text.StripPadded | m3u8-dl.py:152-153 | stripping a trimmed text with any whitespace padding on both sides gives exactly that text |
| Text.StripIdempotent | m3u8-dl.py:152-153 | stripping twice equals stripping once |
| Text.IndexOf | m3u8-dl.py:151 | `str.index` finds the first occurrence: every character before it differs, and it is absent only if no character matches |
| Text.LastComponentShape | m3u8-dl.py:77 | `Text.LastComponent`, the `split('/')[-1]` of a path, holds no `/`, is a suffix of the path, and is preceded by `/` unless it is the whole path |
| Text.LastComponentAfterSlash | m3u8-dl.py:77 | the last component is exactly the text after the last `/` |
| Text.LastComponentNoSlash | m3u8-dl.py:77 | a path without `/` is its own last component |
| Text.LastComponentOfJoin | m3u8-dl.py:75-77 | the last component of `folder/name` is `name` for any folder, so joining and splitting round-trip |
| Headers.ParseHeader | m3u8-dl.py:149-153 | a header string fails with the `ValueError` of `index` exactly when it has no colon |
| Headers.ParseHeaderSplits | m3u8-dl.py:151-153 | the name is the stripped text before the FIRST colon and the value the stripped text after it |
| Headers.SplitAtFirstColon | m3u8-dl.py:151-153 | a value may contain colons: everything after the first colon is the value |
| Headers.HeaderRoundTrip | m3u8-dl.py:149-154 | writing `Name: Value` with a colon-free name and trimmed parts and parsing it back gives that name and value |
| Headers.ParseAll | m3u8-dl.py:149-153 | parsing the header list succeeds exactly when every string has a colon, and then gives a list of the same length whose i-th entry is the parse of the i-th string |
| Headers.ParseAllFirstError | m3u8-dl.py:149-151 | the first header without a colon is the one reported |
| Headers.ToMapKeys | m3u8-dl.py:154 | the header map's keys are exactly the parsed names |
| Headers.ToMapLastWins | m3u8-dl.py:154 | for a repeated name, the value of its last occurrence wins |
| Headers.FoldHeadersMap | m3u8-dl.py:149-154 | the whole fold `Headers.FoldHeaders`: it succeeds exactly when every string has a colon, its keys are the names, and the last value wins |
| Fetch.DownloadFile | m3u8-dl.py:36-45 | a download is refused exactly when `Fetch.CheckValid` rejects the Content-Type, that is when it is `text/html`; a missing header, a transport error, or a file name that `open` cannot create is a generic exception; otherwise the body is written unchanged |
| Fetch.CheckIsExactComparison | m3u8-dl.py:90-95 | `Fetch.CheckValid` is an exact string comparison: `text/html; charset=utf-8` and `TEXT/HTML` pass it |
| Fetch.SegmentPathShape | m3u8-dl.py:75-77 | `Fetch.SegmentPath`, the file of a segment, lies in `.tmpts` and is named after the last path component of the uri |
| Fetch.SamePathForSameName | m3u8-dl.py:75-77 | two uris with the same last path component share one segment file |
| Fetch.DownloadTs | m3u8-dl.py:216-240 | above the retry ceiling it raises at once; a uri the url functions reject always ends in the max-try error, even when it is in the dedup list; a uri that parses and is in the dedup list is recorded without a fetch; otherwise a recorded segment was fetched by an attempt at most `max_try` whose response was accepted and whose file could be opened, its uri joined the dedup list, its handle joined `tsfiles`, and its file holds that attempt's body |
| Fetch.DownloadTsAbortsIff | m3u8-dl.py:216-240 | unless the uri parses and is in the dedup list, the max-try error is raised exactly when every attempt from `trycnt` to `max_try` fails: the url functions reject the uri, the response is refused, some other exception is raised, or the file name cannot be opened |
| Fetch.DownloadTsAbortAttempts | m3u8-dl.py:218-240 | a max-try error made one attempt per allowed try |
| Fetch.DownloadTsFirstSuccess | m3u8-dl.py:227-240 | a recorded segment was recorded on its FIRST successful attempt: every earlier attempt failed |
| Fetch.EleventhAttemptStillRecords | m3u8-dl.py:216-240 | boundary of the ceiling `max_try = 10` (line 135): ten failures and then a success still record the segment, after eleven fetches |
| Fetch.ElevenFailuresAbort | m3u8-dl.py:216-240 | eleven failures raise the max-try error after exactly eleven attempts |
| Fetch.UnparsableAborts | m3u8-dl.py:220-240 | a uri that `urlparse` or `urljoin` rejects is never recorded, even when it is already in the dedup list: the `ValueError` is caught at line 236 on every attempt, and the max-try error follows after eleven |
| Fetch.DirectoryNameAborts | m3u8-dl.py:36-45 | a new uri whose file name is empty, `.` or `..` is never recorded: `open` raises on every attempt and the max-try error comes after eleven fetches |
| Fetch.DirectoryNames | m3u8-dl.py:75-77 | a path ending in `/`, an empty path and a path ending in `..` give directory names; a path ending in `seg.ts` does not |
| Fetch.DownloadTsBody | m3u8-dl.py:216-240 | a new uri that is recorded leaves in its segment file the body of the first attempt from `trycnt` on whose response was accepted |
| Fetch.HtmlAlwaysAborts | m3u8-dl.py:216-240 | a segment always served as `text/html` is never recorded |
| Worker.Step | m3u8-dl.py:199-214 | one loop iteration: an empty queue sets `is_task_success` and ends the thread; otherwise the front segment leaves the queue with the next index, and the thread breaks out on the max-try error with the shared state unchanged; other threads are untouched |
| Worker.KeepDownload | m3u8-dl.py:199-214 | a thread's loop always ends and leaves every other thread's status as it was |
| Worker.KeepDownloadTakes | m3u8-dl.py:199-214 | the loop takes segments only from the front of the queue, leaves the untaken rest in order, advances the take counter by the number taken, and sets `is_task_success` exactly when it ends on an empty queue |
| Worker.RunSchedule | m3u8-dl.py:189-194 | the interleaved threads: a thread the schedule never picks keeps its status |
| Worker.JoinFrom | m3u8-dl.py:195-196 | the `join` loop leaves no thread running |
| Worker.GetTsFiles | m3u8-dl.py:182-197 | after `get_tsfiles` every thread has stopped |
| Worker.CountAbortedZero | m3u8-dl.py:213-214 | the count of threads that gave up is zero exactly when none did |
| Worker.InitInv | m3u8-dl.py:155-157 | a run with an empty dedup list starts in the pool invariant |
| Worker.StepInv | m3u8-dl.py:199-240 | every step keeps the pool invariant: the queue is the untaken rest of the list; each handle is the one built for segment `index - 1` and its file exists; indices are distinct; the dedup list has no duplicates and each of its uris has a file; each take produced a handle or a thread that gave up; `is_task_success` is set exactly when some thread drained the queue |
| Worker.StepDrainInv | m3u8-dl.py:208-210 | the drain case keeps the invariant |
| Worker.StepAbortInv | m3u8-dl.py:213-214 | the max-try case keeps the invariant |
| Worker.StepRecordInv | m3u8-dl.py:204-230 | the record case keeps the invariant |
| Worker.AppendHandleOk | m3u8-dl.py:224-230 | appending the handle of a newly taken segment keeps handles well-formed and indices distinct |
| Worker.RecordDedupOk | m3u8-dl.py:227-230 | recording keeps the dedup list duplicate-free and backed by files |
| Worker.KeepDownloadInv | m3u8-dl.py:199-214 | a thread's whole loop keeps the invariant |
| Worker.RunScheduleInv | m3u8-dl.py:189-194 | any interleaving of threads keeps the invariant |
| Worker.GetTsFilesInv | m3u8-dl.py:182-197 | the invariant holds at the end of every pool run |
| Worker.InitContents | m3u8-dl.py:155-157 | a run with an empty dedup list starts in the content invariant |
| Worker.StepFetchContents | m3u8-dl.py:216-240 | while no thread has given up and no two uris of the list share a file, fetching a new uri writes the body its first take should contribute and every other dedup entry's file keeps its body |
| Worker.StepDedupContents | m3u8-dl.py:227-230 | a take whose uri is already in the dedup list keeps the content invariant: it writes nothing, so every dedup entry's file keeps its body |
| Worker.GetTsFilesContents | m3u8-dl.py:182-197 | a pool run keeps the content invariant: handles and dedup entries come from the list, every take is in the dedup list while no thread gave up, and with distinct file names each dedup entry's file holds its body |
| Worker.StepOutside | m3u8-dl.py:221-228 | a step writes only inside the temporary folder |
| Worker.GetTsFilesOutside | m3u8-dl.py:182-197 | a pool run leaves every file outside `.tmpts` as it was |
| Worker.SucceededUnlessAborted | m3u8-dl.py:199-214 | with at least one thread, a run where no thread gave up ends in success |
| Worker.NoThreadsNoSuccess | m3u8-dl.py:189-196 | with zero threads nothing runs and `is_task_success` stays false |
| Worker.CompleteWhenSucceeded | m3u8-dl.py:199-240 | after a corrected success there is one handle per segment, with distinct indices 1..N, the handle with index k points at segment k's file, and that file exists |
| Merge.Insert | m3u8-dl.py:245 | inserting into a sorted list keeps it sorted, and the new handle or the old head comes first |
| Merge.InsertPerm | m3u8-dl.py:245 | insertion adds exactly one copy of the handle |
| Merge.InsertIndices | m3u8-dl.py:245 | insertion adds exactly the new index, and keeps indices distinct when it is new |
| Merge.SortByIndex | m3u8-dl.py:245 | the sort yields a permutation sorted by index, with the same indices, distinct if they were |
| Merge.ConcatFiles | m3u8-dl.py:246-250 | copying files in list order succeeds exactly when every file exists |
| Merge.Merge | m3u8-dl.py:243-250 | merge succeeds exactly when every handle's file exists |
| Merge.SortedUnique | m3u8-dl.py:245 | with distinct indices the sorted order is unique |
| Merge.MergeOrderIndependent | m3u8-dl.py:243-250 | the merged output does not depend on the order in which threads appended handles |
| Merge.MergeOfComplete | m3u8-dl.py:243-250 | order preservation: handles carrying indices 1..N once, the one with index k pointing at `paths[k-1]`, merge to the files of `paths` in order |
| Merge.CompleteIndices | m3u8-dl.py:245 | a sorted list of N distinct indices from 1..N holds index k+1 at position k |
| Merge.SizePermutation | m3u8-dl.py:245 | sorting does not change the total size |
| Merge.MergeLength | m3u8-dl.py:243-250 | the output is as long as all segment files together |
| Run.BaseUrl | m3u8-dl.py:337-338 | the base url ends with `/`; it is the input unchanged exactly when the input already ended with `/`, otherwise the input plus one `/` |
| Run.BaseUrlIdempotent | m3u8-dl.py:337-338 | normalising twice equals normalising once |
| Run.Cleanup | m3u8-dl.py:252-257 | cleanup removes every file in `.tmpts` and the playlist and keeps every other file; it raises exactly when the playlist file is missing |
| Run.Finish | m3u8-dl.py:292-296 | the tail of `execute`. When it merges, an output that cannot be created raises before anything is read, and a returned outcome reports the merge flag and carries the pool state. Without a merge it returns exactly when the playlist file exists. A returning call leaves no segment file and no playlist. Every other file stays as it was, and the output does too unless it merged |
| Run.ExecuteAsWritten | m3u8-dl.py:274-302 | a `-H` string without a colon makes the constructor raise that header's error, and only then; with well-formed headers an empty playlist raises NoStream, and only then |
| Run.Execute | m3u8-dl.py:274-302 | as above, and success is reported exactly when some thread drained the queue and none gave up |
| Run.MergeNeverFails | m3u8-dl.py:243-250 | after a pool run every handle's file exists, so merge never meets a missing file |
| Run.ExecuteReturns | m3u8-dl.py:274-302 | with a non-empty playlist, `execute` raises only on a bad header, a missing playlist file, or an output that cannot be created; with good headers and the playlist present, it returns exactly when the run is not taken as successful or the output can be created |
| Run.ExecuteAsWrittenReturns | m3u8-dl.py:274-302 | the same for `execute` as written, with `is_task_success` as the success test |
| Run.FinishOutput | m3u8-dl.py:291-293 | after a pool run in which every segment was recorded and no thread gave up, the merge succeeds and the output holds the segment file of every playlist entry in playlist order; entries whose uris share a file contribute that one file each time |
| Run.SegmentFilesHoldBodies | m3u8-dl.py:243-250 | after such a run, with distinct file names, the segment files concatenated in playlist order are exactly the playlist's bodies |
| Run.FinishBodies | m3u8-dl.py:291-296 | with distinct file names the merged output holds exactly the playlist's bodies, in playlist order |
| Run.ExecuteOutput | m3u8-dl.py:287-302 | when success is reported, the output holds the segment file of every playlist entry in playlist order, and, when no two uris share a file name, exactly the playlist's bodies |
| Run.ExecuteRenamedOutput | m3u8-dl.py:287-302 | with the corrected naming, a reported success always writes exactly the playlist's bodies, in playlist order |
| Run.ExecuteAsWrittenCleansUp | m3u8-dl.py:292-296 | as written, a returning `execute` reports exactly `is_task_success`, leaves no segment file and no playlist, and keeps every other file as it was; it keeps the output too unless it merged |
| Run.ExecuteCleansUp | m3u8-dl.py:252-257 | afterwards no temporary segment file or playlist remains, and every other file is as it was, except the output when success was reported |
| Run.ExecuteReportsAborts | m3u8-dl.py:292-302 | with at least one thread, the corrected run reports success exactly when no thread gave up |
| Run.AbortedPoolRun | m3u8-dl.py:199-214 | the two-thread schedule of the counterexample: one thread gives up, the other drains the queue and sets `is_task_success` |
| Run.AbortedRunStillReportsSuccess | m3u8-dl.py:199-214 | as written, that run is reported as a success and merged, with segment `a.ts` missing from the output |
| Run.CollidePoolRun | m3u8-dl.py:199-240 | the one-thread run of the collision: both uris are recorded, each with its own handle, and the shared file holds only the second body |
| Run.CollidePlaylist | m3u8-dl.py:243-250 | the bodies that list should produce are `[1, 2]` |
| Run.CollidingNamesRepeatBody | m3u8-dl.py:75-77 | as written, `seg.ts?n=1` and `seg.ts?n=2` share `.tmpts/seg.ts`: the run is reported as a success and the output is `[2, 2]`, not `[1, 2]` |
| Run.RenamedCollidePoolRun | m3u8-dl.py:199-240 | under the corrected naming the one-thread run of the collision list records both segments and ends in success |
| Run.CollidingNamesRenamed | m3u8-dl.py:274-302 | with the corrected naming the same list is reported as a success and the output is `[1, 2]` |
| Run.AbortedRunReportedAsFailure | m3u8-dl.py:292-302 | the corrected run reports the same run as a failure and writes no output |

## Left out

- Threads and the lock: a worker step handles one whole segment
  atomically. Races inside `_download_ts` are not modelled, such as two
  threads fetching the same uri before either appends it to the dedup list.
  Any interleaving of whole-segment steps is covered.
- `requests`, sockets, TLS and `sslverify`: the network is the function
  `Env.net`. A stream that breaks mid-body and leaves a partial file before
  the retry is not modelled. Each attempt either fails or yields its whole
  body.
- The url that `urljoin` builds from the base url is not modelled: a handle
  keeps the raw uri, and the url actually fetched is not part of the model.
  Whether `urljoin` and `urlparse` raise is the parameter `Env.parses`, and
  `urlparse(uri).path` is `Env.urlPath`.
- The header map is not passed on to the requests. The headers' effect on
  the server's answers is folded into `Env.net`.
- `get_m3u8file`, `M3u8File` and the `m3u8` library: the model starts from
  the parsed segment uri list and a file system that may hold the saved
  playlist.
- The progress callback, `print`, `monitor_proc`, the pickled context
  `M3u8Context`, and the commented-out signal handling are not modelled.
- Argument parsing: a command line without `-H` passes `None` as the header
  list, which makes the constructor raise. The header fold models only a
  list of strings.
- Directories are not modelled: `rmtree` removes every path under `.tmpts/`,
  and `os.mkdir` of the folder is implicit.
- Fetch.DownloadTs: of the ways `open` can fail, only a file name that
  names a directory (empty, `.` or `..`) is modelled. Permission errors, a
  full disk, and names the file system rejects are not.
- Run.Finish: the merge reads all segment files before it writes the output.
  In the source the output is opened and truncated first, so an output path
  that is itself a segment file would read back truncated; that case is not
  modelled.
- Run.Cleanup: paths are compared as strings, not resolved by a file
  system. An output written as another spelling of `output.m3u8` (such as
  `./output.m3u8`), or of a path under `.tmpts/` (such as `./.tmpts/v.mp4`,
  an absolute path, or a case variant on a case-insensitive file system),
  is deleted by the source's `unlink` or `rmtree` but kept by the model.
  The same holds for `Run.Finish`, `Run.ExecuteOutput`,
  `Run.ExecuteRenamedOutput`, `Run.ExecuteCleansUp` and
  `Run.ExecuteAsWrittenCleansUp`, whose guarantees about the output apply
  only to an output spelled differently from every such path.
- An empty playlist raises NoStream in `parse_m3u8file`, before `cleanup`,
  so the temporary folder and the playlist stay behind. The model follows
  the code here; it does not clean up on that path.
- Worker.GetTsFiles: the `join` loop runs the threads one after another
  after the scheduled prefix; it does not interleave them further.
  Interleavings are covered by the schedule prefix, which may be any
  sequence of thread ids.

## Findings

| source | as written | input that shows it | evidently intended | confidence | as-written member | corrected member |
|---|---|---|---|---|---|---|
| m3u8-dl.py:199-214 | a thread that hits the max-try error breaks out without touching `is_task_success`; any other thread that later finds the queue empty sets it to true, so `execute` merges and reports success with a segment missing | two threads; segment `a.ts` (index 1) always served as `text/html`; segment `b.ts` served as video; thread 0 takes `a.ts` and gives up after eleven attempts, thread 1 takes `b.ts` and then drains the queue; the output holds only `b.ts` and no failure is printed | the run should count as successful only if every segment was recorded; a thread that gives up should make it fail | not executed | Run.AbortedRunStillReportsSuccess | Run.ExecuteOutput |
| m3u8-dl.py:75-77 | a segment file is named after the last component of the uri's path only, so two different uris with the same last component share one file; the second fetch overwrites the first, and since both handles point at that file the output repeats the second body | one thread; segments `seg.ts?n=1` and `seg.ts?n=2`, both with path `seg.ts`; the first serves body `[1]`, the second `[2]`; the run is reported as a success and the output is `[2, 2]` | each playlist entry should contribute its own body, so the output should be `[1, 2]`; file names should be distinct for distinct uris | not executed | Run.CollidingNamesRepeatBody | Run.ExecuteRenamedOutput |
