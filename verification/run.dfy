/** The top level of the downloader: the base-url normalisation of the
    command line, `M3u8Downloader.cleanup`, and `execute`, which downloads
    the segments, merges them when the run succeeded, and cleans up. */
module Run {
  import opened Wrappers
  import opened Fetch
  import opened Worker
  import opened Merge
  import Text
  import Headers

  /** `M3u8Downloader.m3u8_filename`, where the playlist was saved. */
  const ManifestName: string := "output.m3u8"

  /** The base url the command line stores: a trailing `/` is added unless
      one is already there. */
  function BaseUrl(url: string): (r: string)
    ensures Text.EndsWith(r, "/")
    ensures r == url <==> Text.EndsWith(url, "/")
    ensures r == url || r == url + "/"
  {
    if Text.EndsWith(url, "/") then url
    else
      assert (url + "/")[|url + "/"| - 1..] == "/";
      url + "/"
  }

  /** Normalising twice changes nothing. */
  lemma BaseUrlIdempotent(url: string)
    ensures BaseUrl(BaseUrl(url)) == BaseUrl(url)
  {
  }

  /** Why `execute` ends with an exception: the constructor meets a `-H`
      string without a colon, the playlist lists no segment, `os.unlink`
      finds no playlist file, `merge` cannot create the output file, or
      `merge` cannot open a segment file. */
  datatype RunError =
    | BadHeader(header: Headers.HeaderError)
    | NoStream
    | MissingManifest
    | OutputFailed(path: string)
    | MergeFailed(path: string)

  /** How `execute` returned: whether it took the run as successful (it
      then merged and printed no failure message), the downloader's final
      state, and the files left behind. */
  datatype Outcome = Outcome(reported: bool, state: Downloader, files: map<string, seq<byte>>)

  /** `cleanup`: the temporary segment folder and the saved playlist are
      removed; removing a playlist that is not there raises. */
  function Cleanup(files: map<string, seq<byte>>): (r: Result<map<string, seq<byte>>, RunError>)
    ensures r.Success? <==> ManifestName in files
    ensures r.Failure? ==> r.error == MissingManifest
    ensures r.Success? ==> forall p :: p in r.value <==> p in files && !InTsFolder(p) && p != ManifestName
    ensures r.Success? ==> forall p :: p in r.value ==> r.value[p] == files[p]
  {
    if ManifestName !in files then Failure(MissingManifest)
    else Success(map p | p in files && !InTsFolder(p) && p != ManifestName :: files[p])
  }

  /** The file of each segment of the list, in list order. */
  function SegmentPaths(urlPath: string -> string, segments: seq<string>): (r: seq<string>)
    ensures |r| == |segments|
    ensures forall i :: 0 <= i < |segments| ==> r[i] == SegmentPath(urlPath, segments[i])
  {
    seq(|segments|, i requires 0 <= i < |segments| => SegmentPath(urlPath, segments[i]))
  }

  /** The pool run of `get_tsfiles` on a freshly parsed playlist, with an
      empty dedup list. */
  function Pool(segments: seq<string>, threads: nat, files: map<string, seq<byte>>,
                sched: seq<nat>, env: Env): (r: Downloader)
  {
    GetTsFiles(Init(segments, threads, [], files), sched, env)
  }

  /** What holds after every pool run: the invariant, every thread stopped,
      and the files outside the temporary folder untouched. */
  lemma PoolFacts(segments: seq<string>, threads: nat, files: map<string, seq<byte>>,
                  sched: seq<nat>, env: Env)
    ensures var s := Pool(segments, threads, files, sched, env);
      && Inv(segments, s, env)
      && |s.workers| == threads
      && (forall v :: 0 <= v < threads ==> s.workers[v] != Running)
      && SameOutside(files, s.shared.files)
      && Contents(segments, s, env)
  {
    var s0 := Init(segments, threads, [], files);
    InitInv(segments, threads, files, env);
    InitContents(segments, threads, files, env);
    GetTsFilesInv(segments, s0, sched, env);
    GetTsFilesContents(segments, s0, sched, env);
    GetTsFilesOutside(s0, sched, env);
  }

  /** The tail of `execute` after the pool run: when `merge` holds, open
      the output, which raises when it cannot be created, and merge into
      it; then clean up. Whatever the outcome, a returning call leaves no
      segment file and no playlist, and every other file as it was, except
      the output of a merge. */
  function Finish(s: Downloader, merge: bool, output: string, creatable: bool): (r: Result<Outcome, RunError>)
    ensures r.Failure? ==>
      r.error == MissingManifest || r.error.MergeFailed? || (merge && !creatable && r.error == OutputFailed(output))
    ensures merge && !creatable ==> r == Failure(OutputFailed(output))
    ensures !merge ==> (r.Success? <==> ManifestName in s.shared.files)
    ensures r.Success? ==> r.value.reported == merge && r.value.state == s
    ensures r.Success? ==> forall p :: p in r.value.files ==> !InTsFolder(p) && p != ManifestName
    ensures r.Success? ==> forall p :: !InTsFolder(p) && p != ManifestName && (p != output || !merge) ==>
      (p in r.value.files <==> p in s.shared.files) && (p in s.shared.files ==> r.value.files[p] == s.shared.files[p])
  {
    if merge && !creatable then Failure(OutputFailed(output))
    else if merge then
      match Merge.Merge(s.shared.tsfiles, s.shared.files)
      case Failure(MissingFile(p)) => Failure(MergeFailed(p))
      case Success(bytes) => Tidy(s, true, s.shared.files[output := bytes])
    else Tidy(s, false, s.shared.files)
  }

  function Tidy(s: Downloader, reported: bool, files: map<string, seq<byte>>): (r: Result<Outcome, RunError>)
    ensures r.Success? <==> ManifestName in files
    ensures r.Failure? ==> r.error == MissingManifest
    ensures r.Success? ==> r.value.reported == reported && r.value.state == s
    ensures r.Success? ==> r.value.files == Cleanup(files).value
  {
    match Cleanup(files)
    case Failure(e) => Failure(e)
    case Success(f) => Success(Outcome(reported, s, f))
  }

  /** `execute` as the source writes it: the constructor folds the `-H`
      strings first, and the merge and the success message follow
      `is_task_success`. An empty playlist raises before `cleanup`. */
  function ExecuteAsWritten(headers: seq<string>, segments: seq<string>, threads: nat, output: string,
                            files: map<string, seq<byte>>, sched: seq<nat>, env: Env): (r: Result<Outcome, RunError>)
    ensures r.Failure? && r.error.BadHeader? <==> Headers.FoldHeaders(headers).Failure?
    ensures r.Failure? && r.error.BadHeader? ==> r.error.header == Headers.FoldHeaders(headers).error
    ensures r == Failure(NoStream) <==> Headers.FoldHeaders(headers).Success? && |segments| == 0
  {
    match Headers.FoldHeaders(headers)
    case Failure(e) => Failure(BadHeader(e))
    case Success(_) =>
      if |segments| == 0 then Failure(NoStream)
      else
        var s := Pool(segments, threads, files, sched, env);
        Finish(s, s.success, output, env.canCreate(output))
  }

  /** `execute` with the success test corrected: the run counts as
      successful only when no thread gave up on a segment. */
  function Execute(headers: seq<string>, segments: seq<string>, threads: nat, output: string,
                   files: map<string, seq<byte>>, sched: seq<nat>, env: Env): (r: Result<Outcome, RunError>)
    ensures r.Failure? && r.error.BadHeader? <==> Headers.FoldHeaders(headers).Failure?
    ensures r.Failure? && r.error.BadHeader? ==> r.error.header == Headers.FoldHeaders(headers).error
    ensures r == Failure(NoStream) <==> Headers.FoldHeaders(headers).Success? && |segments| == 0
    ensures r.Success? ==> r.value.reported == Succeeded(r.value.state)
  {
    match Headers.FoldHeaders(headers)
    case Failure(e) => Failure(BadHeader(e))
    case Success(_) =>
      if |segments| == 0 then Failure(NoStream)
      else
        var s := Pool(segments, threads, files, sched, env);
        Finish(s, Succeeded(s), output, env.canCreate(output))
  }

  /** Every handle of a pool run points at an existing file, so `merge`
      never meets a missing segment file. */
  lemma MergeNeverFails(s: Downloader, orig: seq<string>, env: Env)
    requires Inv(orig, s, env)
    ensures Merge.Merge(s.shared.tsfiles, s.shared.files).Success?
  {
    forall h | h in s.shared.tsfiles
      ensures h.path in s.shared.files
    {
      var i :| 0 <= i < |s.shared.tsfiles| && s.shared.tsfiles[i] == h;
      assert HandleOk(orig, s.tsIndex, s.shared.files, s.shared.tsfiles[i], env);
    }
  }

  lemma ManifestOutside()
    ensures !InTsFolder(ManifestName)
  {
    assert ManifestName[0] != (TsFolder + "/")[0];
  }

  /** The pool run leaves the saved playlist where it was, and every handle
      it records points at an existing file. */
  lemma PoolKeepsManifest(segments: seq<string>, threads: nat, files: map<string, seq<byte>>,
                          sched: seq<nat>, env: Env)
    ensures var s := Pool(segments, threads, files, sched, env);
      && Inv(segments, s, env)
      && (ManifestName in s.shared.files <==> ManifestName in files)
  {
    PoolFacts(segments, threads, files, sched, env);
    ManifestOutside();
  }

  /** After a pool run, merging and cleaning up raise only when the
      playlist file is missing or the output of a merge cannot be
      created. */
  lemma FinishReturns(s: Downloader, merge: bool, output: string, creatable: bool, orig: seq<string>, env: Env)
    requires Inv(orig, s, env)
    ensures var r := Finish(s, merge, output, creatable);
      && (r.Failure? ==> r.error == MissingManifest || (merge && !creatable && r.error == OutputFailed(output)))
      && (ManifestName in s.shared.files ==> (r.Success? <==> !merge || creatable))
  {
    MergeNeverFails(s, orig, env);
  }

  /** With segments to fetch, the corrected `execute` raises only on a bad
      header, a missing playlist file, or an output that cannot be created
      after a successful run; with the headers well formed and the playlist
      saved, it returns exactly when the run failed or the output can be
      created. */
  lemma ExecuteReturns(headers: seq<string>, segments: seq<string>, threads: nat, output: string,
                       files: map<string, seq<byte>>, sched: seq<nat>, env: Env)
    requires |segments| > 0
    ensures var r := Execute(headers, segments, threads, output, files, sched, env);
      && (r.Failure? ==> r.error.BadHeader? || r.error == MissingManifest || (r.error == OutputFailed(output) && !env.canCreate(output)))
      && (Headers.FoldHeaders(headers).Success? && ManifestName in files ==>
            (r.Success? <==> !Succeeded(Pool(segments, threads, files, sched, env)) || env.canCreate(output)))
  {
    var s := Pool(segments, threads, files, sched, env);
    PoolKeepsManifest(segments, threads, files, sched, env);
    FinishReturns(s, Succeeded(s), output, env.canCreate(output), segments, env);
  }

  /** The same holds of `execute` as written, with `is_task_success` as the
      merge test. */
  lemma ExecuteAsWrittenReturns(headers: seq<string>, segments: seq<string>, threads: nat, output: string,
                                files: map<string, seq<byte>>, sched: seq<nat>, env: Env)
    requires |segments| > 0
    ensures var r := ExecuteAsWritten(headers, segments, threads, output, files, sched, env);
      && (r.Failure? ==> r.error.BadHeader? || r.error == MissingManifest || (r.error == OutputFailed(output) && !env.canCreate(output)))
      && (Headers.FoldHeaders(headers).Success? && ManifestName in files ==>
            (r.Success? <==> !Pool(segments, threads, files, sched, env).success || env.canCreate(output)))
  {
    var s := Pool(segments, threads, files, sched, env);
    PoolKeepsManifest(segments, threads, files, sched, env);
    FinishReturns(s, s.success, output, env.canCreate(output), segments, env);
  }

  /** Merging after a pool run in which no thread gave up succeeds and
      writes, under the output name, the segment file of every list entry,
      in list order; entries whose uris share a file contribute that one
      file each time. */
  lemma FinishOutput(s: Downloader, orig: seq<string>, env: Env, output: string)
    requires Inv(orig, s, env) && Succeeded(s)
    requires !InTsFolder(output) && output != ManifestName && ManifestName in s.shared.files
    ensures var r := Finish(s, true, output, true);
      && r.Success?
      && |s.shared.tsfiles| == |orig|
      && output in r.value.files
      && r.value.files[output] == ConcatPaths(SegmentPaths(env.urlPath, orig), s.shared.files)
  {
    CompleteWhenSucceeded(orig, s, env);
    MergeOfComplete(s.shared.tsfiles, SegmentPaths(env.urlPath, orig), s.shared.files);
  }

  /** What the output should hold: the body each segment of the list
      should contribute, in list order. */
  function PlaylistOutput(orig: seq<string>, net: (nat, nat) -> Attempt): (r: seq<byte>) {
    BodiesFrom(orig, net, 0)
  }

  function BodiesFrom(orig: seq<string>, net: (nat, nat) -> Attempt, k: nat): (r: seq<byte>)
    requires k <= |orig|
    decreases |orig| - k
  {
    if k == |orig| then [] else SegmentBody(orig, orig[k], net) + BodiesFrom(orig, net, k + 1)
  }

  /** Concatenating the segment files from position `k` on yields the
      bodies from `k` on when each file holds its segment's body. */
  lemma {:induction false} ConcatBodies(orig: seq<string>, urlPath: string -> string,
                                        files: map<string, seq<byte>>, net: (nat, nat) -> Attempt, k: nat)
    requires k <= |orig|
    requires forall j :: k <= j < |orig| ==>
      SegmentPath(urlPath, orig[j]) in files && files[SegmentPath(urlPath, orig[j])] == SegmentBody(orig, orig[j], net)
    ensures ConcatPaths(SegmentPaths(urlPath, orig)[k..], files) == BodiesFrom(orig, net, k)
    decreases |orig| - k
  {
    if k < |orig| {
      var paths := SegmentPaths(urlPath, orig);
      ConcatBodies(orig, urlPath, files, net, k + 1);
      assert paths[k..][1..] == paths[k + 1..];
    }
  }

  /** After a pool run in which no thread gave up and no two uris share a
      file, the segment files in list order hold the bodies the list
      should contribute. */
  lemma SegmentFilesHoldBodies(orig: seq<string>, s: Downloader, env: Env)
    requires Inv(orig, s, env) && Contents(orig, s, env) && Succeeded(s)
    requires NamesDistinct(orig, env.urlPath)
    ensures ConcatPaths(SegmentPaths(env.urlPath, orig), s.shared.files) == PlaylistOutput(orig, env.net)
  {
    assert |s.queue| == 0;
    assert s.tsIndex == |orig|;
    forall j | 0 <= j < |orig|
      ensures SegmentPath(env.urlPath, orig[j]) in s.shared.files
      ensures s.shared.files[SegmentPath(env.urlPath, orig[j])] == SegmentBody(orig, orig[j], env.net)
    {
      assert orig[j] in s.shared.downloaded;
    }
    ConcatBodies(orig, env.urlPath, s.shared.files, env.net, 0);
    assert SegmentPaths(env.urlPath, orig)[0..] == SegmentPaths(env.urlPath, orig);
  }

  /** The merge after such a run writes exactly the bodies of the list, in
      list order. */
  lemma FinishBodies(s: Downloader, orig: seq<string>, env: Env, output: string)
    requires Inv(orig, s, env) && Contents(orig, s, env) && Succeeded(s)
    requires NamesDistinct(orig, env.urlPath)
    requires !InTsFolder(output) && output != ManifestName && ManifestName in s.shared.files
    ensures var r := Finish(s, true, output, true);
      && r.Success?
      && output in r.value.files
      && r.value.files[output] == PlaylistOutput(orig, env.net)
  {
    FinishOutput(s, orig, env, output);
    SegmentFilesHoldBodies(orig, s, env);
  }

  /** Order preservation end to end: when the corrected `execute` reports
      success, the output holds the segment file of every list entry, in
      list order; when no two uris of the list share a file, it holds
      exactly the bodies the list should contribute. */
  lemma ExecuteOutput(headers: seq<string>, segments: seq<string>, threads: nat, output: string,
                      files: map<string, seq<byte>>, sched: seq<nat>, env: Env)
    requires !InTsFolder(output) && output != ManifestName
    ensures var r := Execute(headers, segments, threads, output, files, sched, env);
      r.Success? && r.value.reported ==>
        var s := r.value.state;
        && |s.shared.tsfiles| == |segments|
        && output in r.value.files
        && r.value.files[output] == ConcatPaths(SegmentPaths(env.urlPath, segments), s.shared.files)
        && (NamesDistinct(segments, env.urlPath) ==> r.value.files[output] == PlaylistOutput(segments, env.net))
  {
    var r := Execute(headers, segments, threads, output, files, sched, env);
    if r.Success? && r.value.reported {
      var s := Pool(segments, threads, files, sched, env);
      PoolFacts(segments, threads, files, sched, env);
      ManifestOutside();
      FinishOutput(s, segments, env, output);
      if NamesDistinct(segments, env.urlPath) {
        SegmentFilesHoldBodies(segments, s, env);
      }
    }
  }

  /** `execute` with both corrections: success needs every thread to have
      drained the queue, and each segment file is named after its whole
      uri. */
  function ExecuteRenamed(headers: seq<string>, segments: seq<string>, threads: nat, output: string,
                          files: map<string, seq<byte>>, sched: seq<nat>, env: Env): (r: Result<Outcome, RunError>)
  {
    Execute(headers, segments, threads, output, files, sched, Renamed(env))
  }

  /** With the corrected naming, a reported success always writes exactly
      the bodies of the list, in list order: two uris can no longer share
      a file, and no segment file names a directory. */
  lemma ExecuteRenamedOutput(headers: seq<string>, segments: seq<string>, threads: nat, output: string,
                             files: map<string, seq<byte>>, sched: seq<nat>, env: Env)
    requires !InTsFolder(output) && output != ManifestName
    ensures var r := ExecuteRenamed(headers, segments, threads, output, files, sched, env);
      r.Success? && r.value.reported ==>
        output in r.value.files && r.value.files[output] == PlaylistOutput(segments, env.net)
  {
    RenamedNamesDistinct(segments);
    ExecuteOutput(headers, segments, threads, output, files, sched, Renamed(env));
  }

  /** Whatever happened, a returning `execute` leaves no segment file and
      no playlist behind, and every other file except the output as it
      was; the output is untouched too when the run was not reported as
      successful. */
  lemma ExecuteCleansUp(headers: seq<string>, segments: seq<string>, threads: nat, output: string,
                        files: map<string, seq<byte>>, sched: seq<nat>, env: Env)
    ensures var r := Execute(headers, segments, threads, output, files, sched, env);
      r.Success? ==>
        && (forall p :: p in r.value.files ==> !InTsFolder(p) && p != ManifestName)
        && (forall p :: !InTsFolder(p) && p != ManifestName && (p != output || !r.value.reported) ==>
              (p in r.value.files <==> p in files) && (p in files ==> r.value.files[p] == files[p]))
  {
    var r := Execute(headers, segments, threads, output, files, sched, env);
    if r.Success? {
      PoolFacts(segments, threads, files, sched, env);
    }
  }

  /** The same holds of `execute` as written: it merges only when
      `is_task_success` is set, and it always cleans up. */
  lemma ExecuteAsWrittenCleansUp(headers: seq<string>, segments: seq<string>, threads: nat, output: string,
                                 files: map<string, seq<byte>>, sched: seq<nat>, env: Env)
    ensures var r := ExecuteAsWritten(headers, segments, threads, output, files, sched, env);
      r.Success? ==>
        && r.value.reported == r.value.state.success
        && (forall p :: p in r.value.files ==> !InTsFolder(p) && p != ManifestName)
        && (forall p :: !InTsFolder(p) && p != ManifestName && (p != output || !r.value.reported) ==>
              (p in r.value.files <==> p in files) && (p in files ==> r.value.files[p] == files[p]))
  {
    var r := ExecuteAsWritten(headers, segments, threads, output, files, sched, env);
    if r.Success? {
      PoolFacts(segments, threads, files, sched, env);
    }
  }

  /** With at least one thread, the corrected `execute` reports success
      exactly when no thread gave up on a segment. */
  lemma ExecuteReportsAborts(headers: seq<string>, segments: seq<string>, threads: nat, output: string,
                             files: map<string, seq<byte>>, sched: seq<nat>, env: Env)
    requires threads > 0
    ensures var r := Execute(headers, segments, threads, output, files, sched, env);
      r.Success? ==> (r.value.reported <==> Aborted !in r.value.state.workers)
  {
    var r := Execute(headers, segments, threads, output, files, sched, env);
    if r.Success? {
      var s := Pool(segments, threads, files, sched, env);
      PoolFacts(segments, threads, files, sched, env);
      SucceededUnlessAborted(segments, s, env);
    }
  }

  /** The environment of the counterexample: segment 1 is always served as
      HTML, segment 2 succeeds at once with one byte. */
  function HtmlFirstEnv(): (r: Env) {
    Env(u => u, u => true,
        (i: nat, t: nat) => if i == 1 then Response(Some(HtmlType), []) else Response(Some("video/mp2t"), [7]),
        p => true)
  }

  /** The handle and shared state after thread 1 has recorded `b.ts`. */
  function HandleB(): (r: Handle) {
    Handle("b.ts", ".tmpts/b.ts", 2)
  }

  /** First step of the counterexample: thread 0 takes `a.ts` with index 1
      and gives up after eleven HTML responses. */
  lemma FirstStepAborts(s0: Downloader, env: Env)
    requires env == HtmlFirstEnv()
    requires s0.queue == ["a.ts", "b.ts"] && s0.tsIndex == 0 && s0.workers == [Running, Running]
    requires s0.shared.downloaded == []
    ensures Step(s0, 0, env) == s0.(queue := ["b.ts"], tsIndex := 1, workers := [Aborted, Running])
  {
    HtmlAlwaysAborts("a.ts", 1, s0.shared, env);
    assert s0.queue[1..] == ["b.ts"];
  }

  /** Second step: thread 1 takes `b.ts` with index 2 and records it after
      one fetch. */
  lemma SecondStepRecords(s1: Downloader, env: Env)
    requires env == HtmlFirstEnv()
    requires s1.queue == ["b.ts"] && s1.tsIndex == 1 && s1.workers == [Aborted, Running]
    requires s1.shared.downloaded == [] && s1.shared.tsfiles == []
    ensures Step(s1, 1, env) == s1.(queue := [], tsIndex := 2,
      shared := Shared(["b.ts"], [HandleB()], s1.shared.files[".tmpts/b.ts" := [7]]))
  {
    Text.LastComponentNoSlash("b.ts");
    assert SegmentPath(env.urlPath, "b.ts") == ".tmpts/b.ts";
    assert DownloadFile(env.net(2, 0), true) == Fetched([7]);
    assert s1.queue[1..] == [];
  }

  /** The join: thread 0 has stopped, thread 1 finds the queue empty. */
  lemma JoinDrains(s2: Downloader, w: nat, env: Env)
    requires s2.queue == [] && s2.workers == [Aborted, Running] && w == 0
    ensures JoinFrom(s2, w, env) == s2.(success := true, workers := [Aborted, Drained])
  {
    JoinStopped(s2, w, env);
    JoinLast(s2, w + 1, env);
    assert s2.workers[1 := Drained] == [Aborted, Drained];
  }

  lemma JoinStopped(s: Downloader, w: nat, env: Env)
    requires w < |s.workers| && s.workers[w] != Running
    ensures JoinFrom(s, w, env) == JoinFrom(s, w + 1, env)
  {
    assert KeepDownload(s, w, env) == s;
  }

  lemma JoinLast(s: Downloader, w: nat, env: Env)
    requires s.queue == [] && w + 1 == |s.workers| && s.workers[w] == Running
    ensures JoinFrom(s, w, env) == s.(success := true, workers := s.workers[w := Drained])
  {
    var s3 := s.(success := true, workers := s.workers[w := Drained]);
    assert Step(s, w, env) == s3;
    assert KeepDownload(s3, w, env) == s3;
    assert KeepDownload(s, w, env) == s3;
    assert JoinFrom(s3, w + 1, env) == s3;
  }

  /** The pool run of the counterexample: thread 0 takes `a.ts` and gives
      up, thread 1 takes `b.ts`, then finds the queue empty and sets
      `is_task_success`. */
  lemma AbortedPoolRun(segments: seq<string>, files: map<string, seq<byte>>, sched: seq<nat>, env: Env)
    requires segments == ["a.ts", "b.ts"] && sched == [0, 1] && env == HtmlFirstEnv()
    ensures var s := Pool(segments, 2, files, sched, env);
      && s.success
      && s.workers == [Aborted, Drained]
      && s.shared.tsfiles == [HandleB()]
      && s.shared.files == files[".tmpts/b.ts" := [7]]
  {
    var s0 := Init(segments, 2, [], files);
    assert s0.workers == [Running, Running];
    FirstStepAborts(s0, env);
    var s1 := Step(s0, 0, env);
    SecondStepRecords(s1, env);
    var s2 := Step(s1, 1, env);
    assert RunSchedule(s0, sched, env) == RunSchedule(s1, sched[1..], env);
    assert sched[1..][1..] == [];
    assert RunSchedule(s1, sched[1..], env) == RunSchedule(s2, [], env);
    JoinDrains(s2, 0, env);
  }

  /** As written, the run above is reported as a success and merged,
      although segment `a.ts` never arrived: the output holds only the
      bytes of `b.ts`. */
  lemma AbortedRunStillReportsSuccess(headers: seq<string>, segments: seq<string>, files: map<string, seq<byte>>, sched: seq<nat>, env: Env)
    requires headers == [] && segments == ["a.ts", "b.ts"] && sched == [0, 1] && env == HtmlFirstEnv()
    requires files == map[ManifestName := []]
    ensures var r := ExecuteAsWritten(headers, segments, 2, "out.mp4", files, sched, env);
      && r.Success?
      && r.value.reported
      && |r.value.state.shared.tsfiles| < |segments|
      && r.value.files == map["out.mp4" := [7]]
  {
    AbortedPoolRun(segments, files, sched, env);
    var s := Pool(segments, 2, files, sched, env);
    MergeSingle(HandleB(), s.shared.files);
    assert Finish(s, true, "out.mp4", true) == Tidy(s, true, s.shared.files["out.mp4" := [7]]);
    CounterexampleCleanup(files);
  }

  /** The corrected `execute` reports the same run as a failure and writes
      no output. */
  lemma AbortedRunReportedAsFailure(headers: seq<string>, segments: seq<string>, files: map<string, seq<byte>>, sched: seq<nat>, env: Env)
    requires headers == [] && segments == ["a.ts", "b.ts"] && sched == [0, 1] && env == HtmlFirstEnv()
    requires files == map[ManifestName := []]
    ensures var r := Execute(headers, segments, 2, "out.mp4", files, sched, env);
      && r.Success?
      && !r.value.reported
      && r.value.files == map[]
  {
    AbortedPoolRun(segments, files, sched, env);
    var s := Pool(segments, 2, files, sched, env);
    assert !Succeeded(s);
    CounterexampleCleanup(files);
  }

  /** Cleaning up after the counterexample leaves exactly the output, when
      one was written. */
  lemma CounterexampleCleanup(files: map<string, seq<byte>>)
    requires files == map[ManifestName := []]
    ensures Cleanup(files[".tmpts/b.ts" := [7]]) == Success(map[])
    ensures Cleanup(files[".tmpts/b.ts" := [7]]["out.mp4" := [7]]) == Success(map["out.mp4" := [7]])
  {
    ManifestOutside();
    assert InTsFolder(".tmpts/b.ts");
    assert !InTsFolder("out.mp4") by {
      assert "out.mp4"[0] != (TsFolder + "/")[0];
    }
    var f := files[".tmpts/b.ts" := [7]]["out.mp4" := [7]];
    assert f.Keys == {ManifestName, ".tmpts/b.ts", "out.mp4"};
    var c := Cleanup(f).value;
    assert c.Keys == {"out.mp4"};
    assert c["out.mp4"] == [7];
    assert c == map["out.mp4" := [7]];
  }

  /** Merging one handle yields its file. */
  lemma MergeSingle(h: Handle, files: map<string, seq<byte>>)
    requires h.path in files
    ensures Merge.Merge([h], files) == Success(files[h.path])
  {
    assert SortByIndex([h]) == [h] by {
      assert [h][..0] == [];
      assert Insert([], h) == [h];
    }
    assert [h][1..] == [];
    assert ConcatFiles([h], files) == Success(files[h.path] + []);
    assert files[h.path] + [] == files[h.path];
  }

  /** The environment of the name collision: both uris have the path
      `seg.ts`, and every attempt succeeds with a body naming its take. */
  function CollideEnv(): (r: Env) {
    Env(u => "seg.ts", u => true, (i: nat, t: nat) => Response(Some("video/mp2t"), if i == 1 then [1] else [2]), p => true)
  }

  const SegFile: string := ".tmpts/seg.ts"

  /** Take 1 fetches `seg.ts?n=1` and writes `[1]` to the shared file. */
  lemma CollideFirstStep(s0: Downloader, env: Env)
    requires env == CollideEnv()
    requires s0.queue == ["seg.ts?n=1", "seg.ts?n=2"] && s0.tsIndex == 0 && s0.workers == [Running]
    requires s0.shared.downloaded == [] && s0.shared.tsfiles == []
    ensures Step(s0, 0, env) == s0.(queue := ["seg.ts?n=2"], tsIndex := 1,
      shared := Shared(["seg.ts?n=1"], [Handle("seg.ts?n=1", SegFile, 1)], s0.shared.files[SegFile := [1]]))
  {
    Text.LastComponentNoSlash("seg.ts");
    assert SegmentPath(env.urlPath, "seg.ts?n=1") == SegFile;
    assert DownloadFile(env.net(1, 0), true) == Fetched([1]);
    assert s0.queue[1..] == ["seg.ts?n=2"];
  }

  /** Take 2 fetches `seg.ts?n=2`, a uri not yet downloaded, and overwrites
      the same file with `[2]`. */
  lemma CollideSecondStep(s1: Downloader, env: Env)
    requires env == CollideEnv()
    requires s1.queue == ["seg.ts?n=2"] && s1.tsIndex == 1 && s1.workers == [Running]
    requires s1.shared.downloaded == ["seg.ts?n=1"]
    ensures Step(s1, 0, env) == s1.(queue := [], tsIndex := 2,
      shared := Shared(["seg.ts?n=1", "seg.ts?n=2"], s1.shared.tsfiles + [Handle("seg.ts?n=2", SegFile, 2)],
                       s1.shared.files[SegFile := [2]]))
  {
    Text.LastComponentNoSlash("seg.ts");
    assert SegmentPath(env.urlPath, "seg.ts?n=2") == SegFile;
    assert "seg.ts?n=2" !in s1.shared.downloaded by {
      assert "seg.ts?n=2"[9] != "seg.ts?n=1"[9];
    }
    assert DownloadFile(env.net(2, 0), true) == Fetched([2]);
    assert s1.queue[1..] == [];
  }

  /** The one-thread pool run of the collision: both takes are recorded and
      the file holds the second body only. */
  lemma CollidePoolRun(segments: seq<string>, files: map<string, seq<byte>>, sched: seq<nat>, env: Env)
    requires segments == ["seg.ts?n=1", "seg.ts?n=2"] && sched == [] && env == CollideEnv()
    ensures var s := Pool(segments, 1, files, sched, env);
      && Succeeded(s)
      && s.shared.tsfiles == [Handle("seg.ts?n=1", SegFile, 1), Handle("seg.ts?n=2", SegFile, 2)]
      && s.shared.files == files[SegFile := [2]]
  {
    var s0 := Init(segments, 1, [], files);
    assert s0.workers == [Running];
    CollideFirstStep(s0, env);
    var s1 := Step(s0, 0, env);
    CollideSecondStep(s1, env);
    var s2 := Step(s1, 0, env);
    assert files[SegFile := [1]][SegFile := [2]] == files[SegFile := [2]];
    JoinLast(s2, 0, env);
    assert KeepDownload(s0, 0, env) == KeepDownload(s1, 0, env);
    assert KeepDownload(s1, 0, env) == KeepDownload(s2, 0, env);
  }

  /** What the collision's list should produce: `[1]` then `[2]`. */
  lemma CollidePlaylist(segments: seq<string>, env: Env)
    requires segments == ["seg.ts?n=1", "seg.ts?n=2"] && env == CollideEnv()
    ensures PlaylistOutput(segments, env.net) == [1, 2]
  {
    assert segments[1] != segments[0] by {
      assert segments[1][9] != segments[0][9];
    }
    assert Text.IndexOf(segments, segments[0]) == Some(0);
    assert Text.IndexOf(segments, segments[1]) == Some(1);
    assert CheckValid("video/mp2t");
    assert Accepted(env.net, 1, 0) && Accepted(env.net, 2, 0);
    assert AcceptedBody(env.net, 1, 0) == [1];
    assert AcceptedBody(env.net, 2, 0) == [2];
    assert BodiesFrom(segments, env.net, 1) == [2] + BodiesFrom(segments, env.net, 2);
  }

  /** As written, two uris whose paths end in the same name share one
      segment file: the run is reported as a success and the output repeats
      the body of the second segment, `[2, 2]`, where the list asks for
      `[1, 2]`. */
  lemma CollidingNamesRepeatBody(headers: seq<string>, segments: seq<string>, files: map<string, seq<byte>>, sched: seq<nat>, env: Env)
    requires headers == [] && segments == ["seg.ts?n=1", "seg.ts?n=2"] && sched == [] && env == CollideEnv()
    requires files == map[ManifestName := []]
    ensures var r := ExecuteAsWritten(headers, segments, 1, "out.mp4", files, sched, env);
      && r.Success?
      && r.value.reported
      && r.value.files == map["out.mp4" := [2, 2]]
      && r.value.files["out.mp4"] != PlaylistOutput(segments, env.net)
  {
    CollidePoolRun(segments, files, sched, env);
    CollidePlaylist(segments, env);
    var s := Pool(segments, 1, files, sched, env);
    CollideMerge(s.shared.tsfiles, s.shared.files);
    assert Finish(s, true, "out.mp4", true) == Tidy(s, true, s.shared.files["out.mp4" := [2, 2]]);
    CollideCleanup(files);
  }

  /** Merging the two handles of the shared file concatenates that file
      twice. */
  lemma CollideMerge(hs: seq<Handle>, files: map<string, seq<byte>>)
    requires hs == [Handle("seg.ts?n=1", SegFile, 1), Handle("seg.ts?n=2", SegFile, 2)]
    requires SegFile in files && files[SegFile] == [2]
    ensures Merge.Merge(hs, files) == Success([2, 2])
  {
    assert DistinctIndices(hs);
    assert forall h :: h in hs ==> h == hs[0] || h == hs[1];
    MergeOfComplete(hs, [SegFile, SegFile], files);
    ConcatTwice(SegFile, files);
    assert files[SegFile] + files[SegFile] == [2, 2];
  }

  /** Concatenating one file twice. */
  lemma ConcatTwice(p: string, files: map<string, seq<byte>>)
    requires p in files
    ensures ConcatPaths([p, p], files) == files[p] + files[p]
  {
    assert [p, p][1..] == [p];
    assert [p][1..] == [];
    assert ConcatPaths([p], files) == files[p] + [];
  }

  lemma CollideCleanup(files: map<string, seq<byte>>)
    requires files == map[ManifestName := []]
    ensures Cleanup(files[SegFile := [2]]["out.mp4" := [2, 2]]) == Success(map["out.mp4" := [2, 2]])
  {
    ManifestOutside();
    assert InTsFolder(SegFile);
    assert !InTsFolder("out.mp4") by {
      assert "out.mp4"[0] != (TsFolder + "/")[0];
    }
    var f := files[SegFile := [2]]["out.mp4" := [2, 2]];
    assert f.Keys == {ManifestName, SegFile, "out.mp4"};
    var c := Cleanup(f).value;
    assert c.Keys == {"out.mp4"};
    assert c == map["out.mp4" := [2, 2]];
  }

  /** Under the corrected naming every take of the collision list is
      recorded: the uri parses, the response is video, and its own file
      can be opened; the thread goes on with the rest of the queue. */
  lemma RenamedTakeRecords(s: Downloader, env: Env)
    requires env == Renamed(CollideEnv()) && |s.queue| > 0 && s.workers == [Running] && !s.success
    ensures var r := Step(s, 0, env);
      r.queue == s.queue[1..] && r.workers == [Running] && !r.success
  {
    var u := s.queue[0];
    if !Deduped(env, s.shared, u) {
      RenamedPath(u);
      assert Succeeds(env, u, s.tsIndex + 1, 0);
      DownloadTsAbortsIff(u, s.tsIndex + 1, s.shared, 0, env);
    }
    var r := Step(s, 0, env);
    assert r.workers[0] == Running;
  }

  /** The one-thread run of the collision list under the corrected naming
      takes both segments and drains the queue without giving up. */
  lemma RenamedCollidePoolRun(segments: seq<string>, files: map<string, seq<byte>>, env: Env)
    requires segments == ["seg.ts?n=1", "seg.ts?n=2"] && env == Renamed(CollideEnv())
    ensures Succeeded(Pool(segments, 1, files, [], env))
  {
    var s0 := Init(segments, 1, [], files);
    assert s0.workers == [Running] && !s0.success;
    RenamedTakeRecords(s0, env);
    var s1 := Step(s0, 0, env);
    RenamedTakeRecords(s1, env);
    var s2 := Step(s1, 0, env);
    assert s2.queue == [];
    JoinLast(s2, 0, env);
    assert KeepDownload(s0, 0, env) == KeepDownload(s1, 0, env);
    assert KeepDownload(s1, 0, env) == KeepDownload(s2, 0, env);
  }

  /** With the corrected naming the same list is reported as a success and
      yields `[1, 2]`. */
  lemma CollidingNamesRenamed(headers: seq<string>, segments: seq<string>, files: map<string, seq<byte>>, sched: seq<nat>, env: Env)
    requires headers == [] && segments == ["seg.ts?n=1", "seg.ts?n=2"] && sched == [] && env == CollideEnv()
    requires files == map[ManifestName := []]
    ensures var r := ExecuteRenamed(headers, segments, 1, "out.mp4", files, sched, env);
      && r.Success?
      && r.value.reported
      && "out.mp4" in r.value.files
      && r.value.files["out.mp4"] == [1, 2]
  {
    assert !InTsFolder("out.mp4") by {
      assert "out.mp4"[0] != (TsFolder + "/")[0];
    }
    assert Headers.FoldHeaders(headers).Success?;
    RenamedCollidePoolRun(segments, files, Renamed(env));
    ExecuteReturns(headers, segments, 1, "out.mp4", files, sched, Renamed(env));
    ExecuteRenamedOutput(headers, segments, 1, "out.mp4", files, sched, env);
    CollidePlaylist(segments, env);
  }
}
