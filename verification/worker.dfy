/** The worker pool of `M3u8Downloader`: the shared segment queue with its
    take counter `ts_index`, the `_keep_download` loop of one worker, and
    the pool run by `get_tsfiles`. Threads are modelled as an interleaving
    of whole-segment steps chosen by a schedule. */
module Worker {
  import opened Wrappers
  import opened Fetch
  import Text

  /** Where a worker's `_keep_download` loop is: still taking segments,
      returned after finding the queue empty, or broken out after the
      max-try error. */
  datatype Status = Running | Drained | Aborted

  /** The downloader's state: the queue `tssegments` (segment uris), the
      take counter `ts_index`, the shared lists and files,
      `is_task_success`, and one status per thread. */
  datatype Downloader = Downloader(
    queue: seq<string>,
    tsIndex: nat,
    shared: Shared,
    success: bool,
    workers: seq<Status>)

  /** The state after the constructor and `parse_m3u8file`, with `threads`
      workers about to start. */
  function Init(segments: seq<string>, threads: nat, downloaded: seq<string>,
                files: map<string, seq<byte>>): (r: Downloader)
  {
    Downloader(segments, 0, Shared(downloaded, [], files), false, seq(threads, _ => Running))
  }

  predicate Live(s: Downloader, w: nat) {
    w < |s.workers| && s.workers[w] == Running
  }

  /** One iteration of worker `w`'s loop: take the front segment under the
      lock and give it the next index, then run `_download_ts` on it; on
      an empty queue set `is_task_success` and return; on the max-try
      error break out without touching `is_task_success`. */
  function Step(s: Downloader, w: nat, env: Env): (r: Downloader)
    ensures |r.workers| == |s.workers|
    ensures forall v :: 0 <= v < |s.workers| && v != w ==> r.workers[v] == s.workers[v]
    ensures !Live(s, w) ==> r == s
    ensures Live(s, w) && |s.queue| == 0 ==>
      r == s.(success := true, workers := s.workers[w := Drained])
    ensures Live(s, w) && |s.queue| > 0 ==>
      var d := DownloadTs(s.queue[0], s.tsIndex + 1, s.shared, 0, env);
      && r.queue == s.queue[1..]
      && r.tsIndex == s.tsIndex + 1
      && r.success == s.success
      && (d.MaxTryExceeded? ==> r.workers[w] == Aborted && r.shared == s.shared)
      && (d.Recorded? ==> r.workers[w] == Running && r.shared == d.shared)
  {
    if !Live(s, w) then s
    else if |s.queue| == 0 then s.(success := true, workers := s.workers[w := Drained])
    else
      var index := s.tsIndex + 1;
      var taken := s.(queue := s.queue[1..], tsIndex := index);
      match DownloadTs(s.queue[0], index, s.shared, 0, env)
      case Recorded(sh, _) => taken.(shared := sh)
      case MaxTryExceeded(_) => taken.(workers := s.workers[w := Aborted])
  }

  /** `_keep_download` for worker `w`: steps until it returns or breaks. */
  function KeepDownload(s: Downloader, w: nat, env: Env): (r: Downloader)
    ensures |r.workers| == |s.workers|
    ensures forall v :: 0 <= v < |s.workers| && v != w ==> r.workers[v] == s.workers[v]
    ensures !Live(r, w)
    decreases |s.queue| + (if Live(s, w) then 1 else 0)
  {
    if !Live(s, w) then s
    else KeepDownload(Step(s, w, env), w, env)
  }

  /** From `s` to `r`, thread `w` took segments from the front of the queue
      with consecutive indices, and `is_task_success` was set exactly when
      the thread, running at `s`, ended by finding the queue empty. */
  predicate Takes(s: Downloader, r: Downloader, w: nat) {
    && |r.workers| == |s.workers|
    && |r.queue| <= |s.queue|
    && (forall i :: 0 <= i < |r.queue| ==> r.queue[i] == s.queue[|s.queue| - |r.queue| + i])
    && r.tsIndex == s.tsIndex + (|s.queue| - |r.queue|)
    && r.success == (s.success || (Live(s, w) && r.workers[w] == Drained))
    && (Live(s, w) && r.workers[w] == Drained ==> |r.queue| == 0)
  }

  /** A thread's loop takes segments from the front of the queue with
      consecutive indices and sets `is_task_success` exactly when it ends
      by finding the queue empty. */
  lemma {:induction false} KeepDownloadTakes(s: Downloader, w: nat, env: Env)
    ensures Takes(s, KeepDownload(s, w, env), w)
    decreases |s.queue| + (if Live(s, w) then 1 else 0)
  {
    if Live(s, w) {
      var s' := Step(s, w, env);
      StepTakes(s, w, env);
      KeepDownloadTakes(s', w, env);
      TakesTrans(s, s', KeepDownload(s', w, env), w);
    }
  }

  /** One step of a running thread takes at most the front segment. */
  lemma StepTakes(s: Downloader, w: nat, env: Env)
    requires Live(s, w)
    ensures Takes(s, Step(s, w, env), w)
  {
  }

  lemma TakesTrans(s: Downloader, s': Downloader, r: Downloader, w: nat)
    requires Live(s, w) && Takes(s, s', w) && Takes(s', r, w)
    requires !Live(s', w) ==> r == s'
    ensures Takes(s, r, w)
  {
  }

  /** Runs the steps a schedule of thread ids picks, in order. A thread the
      schedule never picks keeps its status. */
  function RunSchedule(s: Downloader, sched: seq<nat>, env: Env): (r: Downloader)
    ensures |r.workers| == |s.workers|
    ensures forall v :: 0 <= v < |s.workers| && v !in sched ==> r.workers[v] == s.workers[v]
    decreases |sched|
  {
    if |sched| == 0 then s else RunSchedule(Step(s, sched[0], env), sched[1..], env)
  }

  /** The `join` loop of `get_tsfiles`: lets workers `w`, `w + 1`, ... run
      to the end of their loops. */
  function JoinFrom(s: Downloader, w: nat, env: Env): (r: Downloader)
    ensures |r.workers| == |s.workers|
    ensures forall v :: w <= v < |s.workers| ==> r.workers[v] != Running
    ensures forall v :: 0 <= v < w && v < |s.workers| ==> r.workers[v] == s.workers[v]
    decreases |s.workers| - w
  {
    if w >= |s.workers| then s
    else
      var s' := KeepDownload(s, w, env);
      assert s'.workers[w] != Running;
      JoinFrom(s', w + 1, env)
  }

  /** `get_tsfiles`: the threads interleave as `sched` says, then every
      thread runs to the end of its loop. Every complete interleaving of
      whole-segment steps is the result for some schedule. */
  function GetTsFiles(s: Downloader, sched: seq<nat>, env: Env): (r: Downloader)
    ensures |r.workers| == |s.workers|
    ensures forall v :: 0 <= v < |r.workers| ==> r.workers[v] != Running
  {
    JoinFrom(RunSchedule(s, sched, env), 0, env)
  }

  /** Number of threads that broke out on the max-try error. */
  function CountAborted(ws: seq<Status>): (r: nat)
    decreases |ws|
  {
    if |ws| == 0 then 0
    else CountAborted(ws[..|ws| - 1]) + (if ws[|ws| - 1] == Aborted then 1 else 0)
  }

  lemma {:induction false} CountAbortedZero(ws: seq<Status>)
    ensures CountAborted(ws) == 0 <==> Aborted !in ws
    decreases |ws|
  {
    if |ws| > 0 {
      var pre := ws[..|ws| - 1];
      CountAbortedZero(pre);
      assert ws == pre + [ws[|ws| - 1]];
    }
  }

  /** A running thread that stops changes the count by one exactly when it
      stops on the max-try error. */
  lemma {:induction false} CountAbortedUpdate(ws: seq<Status>, w: nat, st: Status)
    requires w < |ws| && ws[w] == Running
    ensures CountAborted(ws[w := st]) == CountAborted(ws) + (if st == Aborted then 1 else 0)
    decreases |ws|
  {
    var pre := ws[..|ws| - 1];
    var ws' := ws[w := st];
    if w < |ws| - 1 {
      CountAbortedUpdate(pre, w, st);
      assert ws'[..|ws'| - 1] == pre[w := st];
    } else {
      assert ws'[..|ws'| - 1] == pre;
    }
  }

  /** Every uri in the dedup list has its segment file. */
  ghost predicate DownloadedHaveFiles(sh: Shared, env: Env) {
    forall u :: u in sh.downloaded ==> SegmentPath(env.urlPath, u) in sh.files
  }

  ghost predicate NoDuplicates(xs: seq<string>) {
    forall i, j :: 0 <= i < j < |xs| ==> xs[i] != xs[j]
  }

  /** What holds of the downloader state throughout a run that started from
      the segment list `orig`: the queue is what is left of `orig` after
      `tsIndex` takes; each handle records a taken segment under its own
      index and points at an existing file; every take either produced a
      handle or made a thread abort; and `is_task_success` is set exactly
      when some thread found the queue empty. */
  ghost predicate Inv(orig: seq<string>, s: Downloader, env: Env) {
    var sh := s.shared;
    && s.tsIndex <= |orig|
    && s.queue == orig[s.tsIndex..]
    && (forall i :: 0 <= i < |sh.tsfiles| ==> HandleOk(orig, s.tsIndex, sh.files, sh.tsfiles[i], env))
    && DistinctIndices(sh.tsfiles)
    && DownloadedHaveFiles(sh, env)
    && NoDuplicates(sh.downloaded)
    && |sh.tsfiles| + CountAborted(s.workers) == s.tsIndex
    && (s.success <==> Drained in s.workers)
    && (Drained in s.workers ==> |s.queue| == 0)
  }

  /** Handle `h` is the one built for the segment taken with its index, and
      its file exists. */
  ghost predicate HandleOk(orig: seq<string>, tsIndex: nat, files: map<string, seq<byte>>, h: Handle, env: Env) {
    && 1 <= h.index <= tsIndex && h.index <= |orig|
    && h == HandleFor(orig[h.index - 1], h.index, env)
    && h.path in files
  }

  /** A run starts in the invariant when the dedup list is empty, as
      `execute` passes it. */
  lemma InitInv(orig: seq<string>, threads: nat, files: map<string, seq<byte>>, env: Env)
    ensures Inv(orig, Init(orig, threads, [], files), env)
  {
    var ws := seq(threads, _ => Running);
    assert Aborted !in ws;
    CountAbortedZero(ws);
  }

  /** Finding the queue empty keeps the invariant. */
  lemma StepDrainInv(orig: seq<string>, s: Downloader, w: nat, env: Env)
    requires Inv(orig, s, env) && Live(s, w) && |s.queue| == 0
    ensures Inv(orig, Step(s, w, env), env)
  {
    var r := Step(s, w, env);
    CountAbortedUpdate(s.workers, w, Drained);
    assert r.workers[w] == Drained;
  }

  /** A take that ends in the max-try error keeps the invariant. */
  lemma StepAbortInv(orig: seq<string>, s: Downloader, w: nat, env: Env)
    requires Inv(orig, s, env) && Live(s, w) && |s.queue| > 0
    requires DownloadTs(s.queue[0], s.tsIndex + 1, s.shared, 0, env).MaxTryExceeded?
    ensures Inv(orig, Step(s, w, env), env)
  {
    var r := Step(s, w, env);
    var sh := s.shared;
    assert r.queue == orig[r.tsIndex..];
    assert Drained !in s.workers;
    CountAbortedUpdate(s.workers, w, Aborted);
    assert Drained !in r.workers by {
      forall v | 0 <= v < |r.workers|
        ensures r.workers[v] != Drained
      {
        if v != w { assert r.workers[v] == s.workers[v]; }
      }
    }
    forall i | 0 <= i < |sh.tsfiles|
      ensures HandleOk(orig, r.tsIndex, r.shared.files, r.shared.tsfiles[i], env)
    {
      assert HandleOk(orig, s.tsIndex, sh.files, sh.tsfiles[i], env);
    }
  }

  /** Appending the handle of a newly taken segment keeps every handle
      well-formed and the indices distinct. */
  lemma AppendHandleOk(orig: seq<string>, tsIndex: nat, sh: Shared, sh': Shared, h: Handle, env: Env)
    requires tsIndex < |orig| && h == HandleFor(orig[tsIndex], tsIndex + 1, env)
    requires forall i :: 0 <= i < |sh.tsfiles| ==> HandleOk(orig, tsIndex, sh.files, sh.tsfiles[i], env)
    requires DistinctIndices(sh.tsfiles)
    requires sh'.tsfiles == sh.tsfiles + [h]
    requires sh.files.Keys <= sh'.files.Keys && h.path in sh'.files
    ensures forall i :: 0 <= i < |sh'.tsfiles| ==> HandleOk(orig, tsIndex + 1, sh'.files, sh'.tsfiles[i], env)
    ensures DistinctIndices(sh'.tsfiles)
  {
    forall i | 0 <= i < |sh'.tsfiles|
      ensures HandleOk(orig, tsIndex + 1, sh'.files, sh'.tsfiles[i], env)
    {
      if i < |sh.tsfiles| {
        assert HandleOk(orig, tsIndex, sh.files, sh.tsfiles[i], env);
      }
    }
    forall i, j | 0 <= i < j < |sh'.tsfiles|
      ensures sh'.tsfiles[i].index != sh'.tsfiles[j].index
    {
      if j == |sh.tsfiles| {
        assert HandleOk(orig, tsIndex, sh.files, sh.tsfiles[i], env);
      }
    }
  }

  /** Recording a segment keeps the dedup list duplicate-free and backed by
      files, and only ever adds files. */
  lemma RecordDedupOk(uri: string, index: nat, sh: Shared, env: Env)
    requires DownloadedHaveFiles(sh, env) && NoDuplicates(sh.downloaded)
    requires DownloadTs(uri, index, sh, 0, env).Recorded?
    ensures var sh' := DownloadTs(uri, index, sh, 0, env).shared;
      && DownloadedHaveFiles(sh', env) && NoDuplicates(sh'.downloaded)
      && sh.files.Keys <= sh'.files.Keys
      && SegmentPath(env.urlPath, uri) in sh'.files
      && sh'.tsfiles == sh.tsfiles + [HandleFor(uri, index, env)]
  {
  }

  /** A take whose segment is recorded keeps the invariant. */
  lemma StepRecordInv(orig: seq<string>, s: Downloader, w: nat, env: Env)
    requires Inv(orig, s, env) && Live(s, w) && |s.queue| > 0
    requires DownloadTs(s.queue[0], s.tsIndex + 1, s.shared, 0, env).Recorded?
    ensures Inv(orig, Step(s, w, env), env)
  {
    var r := Step(s, w, env);
    var uri := s.queue[0];
    var index := s.tsIndex + 1;
    assert uri == orig[index - 1];
    assert r.queue == orig[index..];
    assert r.workers == s.workers;
    assert DownloadedHaveFiles(s.shared, env) && NoDuplicates(s.shared.downloaded);
    RecordDedupOk(uri, index, s.shared, env);
    AppendHandleOk(orig, s.tsIndex, s.shared, r.shared, HandleFor(uri, index, env), env);
  }

  /** Every step keeps the invariant. */
  lemma StepInv(orig: seq<string>, s: Downloader, w: nat, env: Env)
    requires Inv(orig, s, env)
    ensures Inv(orig, Step(s, w, env), env)
  {
    if Live(s, w) {
      if |s.queue| == 0 {
        StepDrainInv(orig, s, w, env);
      } else if DownloadTs(s.queue[0], s.tsIndex + 1, s.shared, 0, env).MaxTryExceeded? {
        StepAbortInv(orig, s, w, env);
      } else {
        StepRecordInv(orig, s, w, env);
      }
    }
  }

  lemma {:induction false} KeepDownloadInv(orig: seq<string>, s: Downloader, w: nat, env: Env)
    requires Inv(orig, s, env)
    ensures Inv(orig, KeepDownload(s, w, env), env)
    decreases |s.queue| + (if Live(s, w) then 1 else 0)
  {
    if Live(s, w) {
      StepInv(orig, s, w, env);
      KeepDownloadInv(orig, Step(s, w, env), w, env);
    }
  }

  lemma {:induction false} RunScheduleInv(orig: seq<string>, s: Downloader, sched: seq<nat>, env: Env)
    requires Inv(orig, s, env)
    ensures Inv(orig, RunSchedule(s, sched, env), env)
    decreases |sched|
  {
    if |sched| > 0 {
      StepInv(orig, s, sched[0], env);
      RunScheduleInv(orig, Step(s, sched[0], env), sched[1..], env);
    }
  }

  lemma {:induction false} JoinFromInv(orig: seq<string>, s: Downloader, w: nat, env: Env)
    requires Inv(orig, s, env)
    ensures Inv(orig, JoinFrom(s, w, env), env)
    decreases |s.workers| - w
  {
    if w < |s.workers| {
      KeepDownloadInv(orig, s, w, env);
      JoinFromInv(orig, KeepDownload(s, w, env), w + 1, env);
    }
  }

  /** The invariant holds at the end of every pool run. */
  lemma GetTsFilesInv(orig: seq<string>, s: Downloader, sched: seq<nat>, env: Env)
    requires Inv(orig, s, env)
    ensures Inv(orig, GetTsFiles(s, sched, env), env)
  {
    RunScheduleInv(orig, s, sched, env);
    JoinFromInv(orig, RunSchedule(s, sched, env), 0, env);
  }

  lemma SameOutsideTrans(f: map<string, seq<byte>>, g: map<string, seq<byte>>, h: map<string, seq<byte>>)
    requires SameOutside(f, g) && SameOutside(g, h)
    ensures SameOutside(f, h)
  {
  }

  /** A step writes only segment files, which lie in the temporary folder. */
  lemma StepOutside(s: Downloader, w: nat, env: Env)
    ensures SameOutside(s.shared.files, Step(s, w, env).shared.files)
  {
    if Live(s, w) && |s.queue| > 0 {
      var uri := s.queue[0];
      var d := DownloadTs(uri, s.tsIndex + 1, s.shared, 0, env);
      if d.Recorded? {
        if uri !in s.shared.downloaded {
          SegmentPathShape(env.urlPath, uri);
          WriteOutside(s.shared.files, SegmentPath(env.urlPath, uri), env.net(s.tsIndex + 1, d.attempts - 1).body);
        }
      }
    }
  }

  lemma {:induction false} KeepDownloadOutside(s: Downloader, w: nat, env: Env)
    ensures SameOutside(s.shared.files, KeepDownload(s, w, env).shared.files)
    decreases |s.queue| + (if Live(s, w) then 1 else 0)
  {
    if Live(s, w) {
      var s' := Step(s, w, env);
      StepOutside(s, w, env);
      KeepDownloadOutside(s', w, env);
      SameOutsideTrans(s.shared.files, s'.shared.files, KeepDownload(s', w, env).shared.files);
    }
  }

  lemma {:induction false} RunScheduleOutside(s: Downloader, sched: seq<nat>, env: Env)
    ensures SameOutside(s.shared.files, RunSchedule(s, sched, env).shared.files)
    decreases |sched|
  {
    if |sched| > 0 {
      var s' := Step(s, sched[0], env);
      StepOutside(s, sched[0], env);
      RunScheduleOutside(s', sched[1..], env);
      SameOutsideTrans(s.shared.files, s'.shared.files, RunSchedule(s', sched[1..], env).shared.files);
    }
  }

  lemma {:induction false} JoinFromOutside(s: Downloader, w: nat, env: Env)
    ensures SameOutside(s.shared.files, JoinFrom(s, w, env).shared.files)
    decreases |s.workers| - w
  {
    if w < |s.workers| {
      var s' := KeepDownload(s, w, env);
      KeepDownloadOutside(s, w, env);
      JoinFromOutside(s', w + 1, env);
      SameOutsideTrans(s.shared.files, s'.shared.files, JoinFrom(s', w + 1, env).shared.files);
    }
  }

  /** Downloading the segments leaves every file outside the temporary
      folder as it was. */
  lemma GetTsFilesOutside(s: Downloader, sched: seq<nat>, env: Env)
    ensures SameOutside(s.shared.files, GetTsFiles(s, sched, env).shared.files)
  {
    var s' := RunSchedule(s, sched, env);
    RunScheduleOutside(s, sched, env);
    JoinFromOutside(s', 0, env);
    SameOutsideTrans(s.shared.files, s'.shared.files, GetTsFiles(s, sched, env).shared.files);
  }

  /** The take index of the first occurrence of `u` in the list. */
  function FirstTake(orig: seq<string>, u: string): (k: nat)
    requires u in orig
  {
    Text.IndexOf(orig, u).value + 1
  }

  /** The bytes segment `u` should contribute: the body of the first accepted
      attempt of the take that first met it. A later occurrence of the same
      uri is recorded from the dedup list and reuses that file. */
  function SegmentBody(orig: seq<string>, u: string, net: (nat, nat) -> Attempt): (r: seq<byte>)
    requires u in orig
  {
    AcceptedBody(net, FirstTake(orig, u), 0)
  }

  /** What the segment files hold during a run from `orig` with an empty
      dedup list: every handle's uri and every dedup entry come from the
      list; while no thread has given up, every taken segment is in the
      dedup list, and, when no two uris share a file, each dedup entry's
      file holds the body that entry should contribute. */
  ghost predicate Contents(orig: seq<string>, s: Downloader, env: Env) {
    var sh := s.shared;
    && (forall i :: 0 <= i < |sh.tsfiles| ==> sh.tsfiles[i].uri in sh.downloaded)
    && (forall u :: u in sh.downloaded ==> u in orig)
    && (Aborted !in s.workers ==>
          forall j :: 0 <= j < s.tsIndex && j < |orig| ==> orig[j] in sh.downloaded)
    && (Aborted !in s.workers && NamesDistinct(orig, env.urlPath) ==>
          forall u :: u in sh.downloaded ==>
            && SegmentPath(env.urlPath, u) in sh.files
            && sh.files[SegmentPath(env.urlPath, u)] == SegmentBody(orig, u, env.net))
  }

  lemma InitContents(orig: seq<string>, threads: nat, files: map<string, seq<byte>>, env: Env)
    ensures Contents(orig, Init(orig, threads, [], files), env)
  {
  }

  /** Finding the queue empty keeps the contents. */
  lemma StepDrainContents(orig: seq<string>, s: Downloader, w: nat, env: Env)
    requires Contents(orig, s, env) && Live(s, w) && |s.queue| == 0
    ensures Contents(orig, Step(s, w, env), env)
  {
    var r := Step(s, w, env);
    if Aborted in r.workers {
      var v :| 0 <= v < |r.workers| && r.workers[v] == Aborted;
      assert v != w && s.workers[v] == Aborted;
    }
  }

  /** A take that ends in the max-try error keeps the contents. */
  lemma StepAbortContents(orig: seq<string>, s: Downloader, w: nat, env: Env)
    requires Contents(orig, s, env) && Live(s, w) && |s.queue| > 0
    requires DownloadTs(s.queue[0], s.tsIndex + 1, s.shared, 0, env).MaxTryExceeded?
    ensures Contents(orig, Step(s, w, env), env)
  {
    assert Step(s, w, env).workers[w] == Aborted;
  }

  /** A take recorded from the dedup list keeps the contents. */
  lemma StepDedupContents(orig: seq<string>, s: Downloader, w: nat, env: Env)
    requires Inv(orig, s, env) && Contents(orig, s, env) && Live(s, w) && |s.queue| > 0
    requires Deduped(env, s.shared, s.queue[0])
    ensures Contents(orig, Step(s, w, env), env)
  {
    var r := Step(s, w, env);
    assert s.queue[0] == orig[s.tsIndex];
    assert r.shared.downloaded == s.shared.downloaded && r.shared.files == s.shared.files;
    assert r.workers == s.workers;
  }

  /** The list position of the first `u` is the one every earlier position
      differs from. */
  lemma FirstTakeAt(orig: seq<string>, u: string, k: nat)
    requires 1 <= k <= |orig| && orig[k - 1] == u
    requires forall j :: 0 <= j < k - 1 ==> orig[j] != u
    ensures FirstTake(orig, u) == k
  {
  }

  /** A take that fetches its segment keeps the contents: the file it
      writes holds the body of its first accepted attempt, and it is the
      first take of that uri while no thread has given up. */
  lemma StepFetchContents(orig: seq<string>, s: Downloader, w: nat, env: Env)
    requires Inv(orig, s, env) && Contents(orig, s, env) && Live(s, w) && |s.queue| > 0
    requires s.queue[0] !in s.shared.downloaded
    requires DownloadTs(s.queue[0], s.tsIndex + 1, s.shared, 0, env).Recorded?
    ensures Contents(orig, Step(s, w, env), env)
  {
    var r := Step(s, w, env);
    var sh := s.shared;
    var u := s.queue[0];
    var k := s.tsIndex + 1;
    var p := SegmentPath(env.urlPath, u);
    assert u == orig[k - 1];
    DownloadTsBody(u, k, sh, 0, env);
    assert r.shared == DownloadTs(u, k, sh, 0, env).shared;
    assert r.shared.downloaded == sh.downloaded + [u];
    assert r.shared.tsfiles == sh.tsfiles + [HandleFor(u, k, env)];
    assert r.workers == s.workers;
    var f := r.shared.files;
    assert f.Keys == sh.files.Keys + {p};
    assert forall q :: q in sh.files && q != p ==> f[q] == sh.files[q];
    if Aborted !in s.workers {
      assert forall j :: 0 <= j < k - 1 ==> orig[j] != u;
      if NamesDistinct(orig, env.urlPath) {
        FirstTakeAt(orig, u, k);
        assert f[p] == SegmentBody(orig, u, env.net);
        forall v | v in r.shared.downloaded
          ensures SegmentPath(env.urlPath, v) in f && f[SegmentPath(env.urlPath, v)] == SegmentBody(orig, v, env.net)
        {
          if v != u {
            assert v in sh.downloaded;
            assert SegmentPath(env.urlPath, v) != p;
          }
        }
      }
    }
  }

  /** Every step keeps the contents. */
  lemma StepContents(orig: seq<string>, s: Downloader, w: nat, env: Env)
    requires Inv(orig, s, env) && Contents(orig, s, env)
    ensures Contents(orig, Step(s, w, env), env)
  {
    if Live(s, w) {
      if |s.queue| == 0 {
        StepDrainContents(orig, s, w, env);
      } else if DownloadTs(s.queue[0], s.tsIndex + 1, s.shared, 0, env).MaxTryExceeded? {
        StepAbortContents(orig, s, w, env);
      } else if Deduped(env, s.shared, s.queue[0]) {
        StepDedupContents(orig, s, w, env);
      } else {
        StepFetchContents(orig, s, w, env);
      }
    }
  }

  lemma {:induction false} KeepDownloadContents(orig: seq<string>, s: Downloader, w: nat, env: Env)
    requires Inv(orig, s, env) && Contents(orig, s, env)
    ensures Contents(orig, KeepDownload(s, w, env), env)
    decreases |s.queue| + (if Live(s, w) then 1 else 0)
  {
    if Live(s, w) {
      StepInv(orig, s, w, env);
      StepContents(orig, s, w, env);
      KeepDownloadContents(orig, Step(s, w, env), w, env);
    }
  }

  lemma {:induction false} RunScheduleContents(orig: seq<string>, s: Downloader, sched: seq<nat>, env: Env)
    requires Inv(orig, s, env) && Contents(orig, s, env)
    ensures Contents(orig, RunSchedule(s, sched, env), env)
    decreases |sched|
  {
    if |sched| > 0 {
      StepInv(orig, s, sched[0], env);
      StepContents(orig, s, sched[0], env);
      RunScheduleContents(orig, Step(s, sched[0], env), sched[1..], env);
    }
  }

  lemma {:induction false} JoinFromContents(orig: seq<string>, s: Downloader, w: nat, env: Env)
    requires Inv(orig, s, env) && Contents(orig, s, env)
    ensures Contents(orig, JoinFrom(s, w, env), env)
    decreases |s.workers| - w
  {
    if w < |s.workers| {
      KeepDownloadInv(orig, s, w, env);
      KeepDownloadContents(orig, s, w, env);
      JoinFromContents(orig, KeepDownload(s, w, env), w + 1, env);
    }
  }

  /** The contents hold at the end of every pool run. */
  lemma GetTsFilesContents(orig: seq<string>, s: Downloader, sched: seq<nat>, env: Env)
    requires Inv(orig, s, env) && Contents(orig, s, env)
    ensures Contents(orig, GetTsFiles(s, sched, env), env)
  {
    RunScheduleInv(orig, s, sched, env);
    RunScheduleContents(orig, s, sched, env);
    JoinFromContents(orig, RunSchedule(s, sched, env), 0, env);
  }

  /** The outcome `execute` should act on: some thread drained the queue and
      no thread gave up on a segment. */
  predicate Succeeded(s: Downloader) {
    s.success && Aborted !in s.workers
  }

  /** With at least one thread, a pool run in which no thread gave up ends
      in success: every thread then drained the queue. */
  lemma SucceededUnlessAborted(orig: seq<string>, s: Downloader, env: Env)
    requires Inv(orig, s, env) && |s.workers| > 0
    requires forall v :: 0 <= v < |s.workers| ==> s.workers[v] != Running
    ensures Succeeded(s) <==> Aborted !in s.workers
  {
    if Aborted !in s.workers {
      assert s.workers[0] == Drained;
    }
  }

  /** Without threads nothing runs and the run never succeeds. */
  lemma NoThreadsNoSuccess(segments: seq<string>, files: map<string, seq<byte>>, sched: seq<nat>, env: Env)
    ensures !GetTsFiles(Init(segments, 0, [], files), sched, env).success
  {
    var orig := segments;
    var s := Init(segments, 0, [], files);
    InitInv(orig, 0, files, env);
    GetTsFilesInv(orig, s, sched, env);
  }

  /** A successful run has a handle for every segment of the list: handle
      with index k is segment k of the list, and its file exists. */
  lemma CompleteWhenSucceeded(orig: seq<string>, s: Downloader, env: Env)
    requires Inv(orig, s, env) && Succeeded(s)
    ensures |s.shared.tsfiles| == |orig|
    ensures DistinctIndices(s.shared.tsfiles)
    ensures forall h :: h in s.shared.tsfiles ==>
      && 1 <= h.index <= |orig|
      && h.path == SegmentPath(env.urlPath, orig[h.index - 1])
      && h.path in s.shared.files
  {
    CountAbortedZero(s.workers);
    forall h | h in s.shared.tsfiles
      ensures 1 <= h.index <= |orig| && h.path == SegmentPath(env.urlPath, orig[h.index - 1]) && h.path in s.shared.files
    {
      var i :| 0 <= i < |s.shared.tsfiles| && s.shared.tsfiles[i] == h;
      assert HandleOk(orig, s.tsIndex, s.shared.files, s.shared.tsfiles[i], env);
    }
  }
}
