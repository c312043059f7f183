/** Fetching one segment: the content check of `TsFile.check_valid`, the
    outcome of `download_file`, and the recursive retry of
    `M3u8Downloader._download_ts` with its dedup list. */
module Fetch {
  import opened Wrappers
  import Text

  type byte = b: int | 0 <= b < 256

  /** `M3u8Downloader.max_try`: retries allowed after the first attempt. */
  const MaxTry: nat := 10

  /** `M3u8Downloader.ts_tmpfolder`, where segment files are written. */
  const TsFolder: string := ".tmpts"

  /** The only Content-Type the segment check refuses. */
  const HtmlType: string := "text/html"

  /** What one `requests.get` of a segment produced: an exception from the
      transport, or a response with its Content-Type header (if any) and
      its body. */
  datatype Attempt =
    | TransportError
    | Response(contentType: Option<string>, body: seq<byte>)

  /** How one `download_file` call ended: the body written to the segment
      file, `DownloadFileNotValidException`, or any other exception (from
      the transport, the header lookup, or opening the file). */
  datatype FetchOutcome = Fetched(body: seq<byte>) | NotValid | OtherError

  /** `TsFile.check_valid`: a response is refused only when its Content-Type
      is exactly `text/html`. */
  predicate CheckValid(contentType: string) {
    contentType != HtmlType
  }

  /** `download_file` called with `check_valid`, writing to a file that
      can be opened or not. A response without a Content-Type header makes
      the header lookup raise `KeyError`; a response the check accepts is
      then written, and opening a file that names a directory raises. The
      retry loop treats both like any other exception. */
  function DownloadFile(a: Attempt, writable: bool): (r: FetchOutcome)
    ensures r.NotValid? <==> a.Response? && a.contentType == Some(HtmlType)
    ensures r.Fetched? <==> a.Response? && a.contentType.Some? && a.contentType.value != HtmlType && writable
    ensures r.Fetched? ==> r.body == a.body
  {
    match a
    case TransportError => OtherError
    case Response(None, _) => OtherError
    case Response(Some(ct), body) =>
      if !CheckValid(ct) then NotValid
      else if writable then Fetched(body)
      else OtherError
  }

  /** The check is an exact string comparison: HTML with parameters, or in
      another letter case, is accepted as a segment. */
  lemma CheckIsExactComparison(body: seq<byte>)
    ensures DownloadFile(Response(Some("text/html; charset=utf-8"), body), true) == Fetched(body)
    ensures DownloadFile(Response(Some("TEXT/HTML"), body), true) == Fetched(body)
    ensures DownloadFile(Response(Some("text/html"), body), true) == NotValid
  {
  }

  /** The collaborators the model does not interpret: `urlparse(uri).path`;
      whether `urlparse(uri)` and `urljoin(base_url, uri)` both accept the
      uri (they raise `ValueError` on, say, an unbalanced `[` in the host);
      the network, giving the outcome of attempt `trycnt` of the segment
      with take index `index`; and whether `open(path, 'wb')` can create
      the output file `path`. */
  datatype Env = Env(urlPath: string -> string, parses: string -> bool,
                     net: (nat, nat) -> Attempt, canCreate: string -> bool)

  /** A path inside the temporary segment folder. */
  predicate InTsFolder(p: string) {
    |TsFolder| < |p| && p[..|TsFolder| + 1] == TsFolder + "/"
  }

  /** `M3u8File.get_path_by_url(uri, ts_tmpfolder)`. */
  function SegmentPath(urlPath: string -> string, uri: string): (r: string) {
    TsFolder + "/" + Text.LastComponent(urlPath(uri))
  }

  /** The segment file lies inside the temporary folder and is named after
      the last component of the uri's path. */
  lemma SegmentPathShape(urlPath: string -> string, uri: string)
    ensures InTsFolder(SegmentPath(urlPath, uri))
    ensures Text.LastComponent(SegmentPath(urlPath, uri)) == Text.LastComponent(urlPath(uri))
  {
    var name := Text.LastComponent(urlPath(uri));
    Text.LastComponentShape(urlPath(uri));
    Text.LastComponentOfJoin(TsFolder, name);
    assert (TsFolder + "/" + name)[..|TsFolder| + 1] == TsFolder + "/";
  }

  /** The segment file name depends only on the last path component, so two
      different uris ending in the same file name share one file. This is
      only the root cause; the wrong output it leads to is shown by
      `Run.CollidingNamesRepeatBody`. */
  lemma SamePathForSameName(urlPath: string -> string, u1: string, u2: string)
    requires Text.LastComponent(urlPath(u1)) == Text.LastComponent(urlPath(u2))
    ensures SegmentPath(urlPath, u1) == SegmentPath(urlPath, u2)
  {
  }

  /** No two different uris of the list share a segment file. */
  predicate NamesDistinct(orig: seq<string>, urlPath: string -> string) {
    forall u, v :: u in orig && v in orig && u != v ==> SegmentPath(urlPath, u) != SegmentPath(urlPath, v)
  }

  /** The corrected file name of a segment: the whole uri, escaped, behind
      a prefix that keeps it from being empty or a dot entry. */
  function SafeName(uri: string): (r: string) {
    "seg-" + Text.Escape(uri)
  }

  /** The downloader with the corrected naming. `get_path_by_url` keeps the
      last component of the path it is given; giving it `SafeName(uri)`,
      which holds no `/`, names the file after the whole uri. The url is
      still joined with `urljoin`, so `parses` is kept. */
  function Renamed(env: Env): (r: Env) {
    env.(urlPath := SafeName)
  }

  /** Under the corrected naming the segment file is `SafeName(uri)` in the
      temporary folder, and it can always be opened. */
  lemma RenamedPath(uri: string)
    ensures SegmentPath(SafeName, uri) == TsFolder + "/" + SafeName(uri)
    ensures Writable(SafeName, uri)
  {
    Text.EscapeNoSlash(uri);
    assert '/' !in SafeName(uri);
    Text.LastComponentNoSlash(SafeName(uri));
    assert SafeName(uri)[0] == 's';
  }

  /** Under the corrected naming the file determines the uri. */
  lemma SafePathInjective(u: string, v: string)
    requires SegmentPath(SafeName, u) == SegmentPath(SafeName, v)
    ensures u == v
  {
    RenamedPath(u);
    RenamedPath(v);
    var pre := TsFolder + "/" + "seg-";
    var eu, ev := Text.Escape(u), Text.Escape(v);
    assert TsFolder + "/" + SafeName(u) == pre + eu;
    assert TsFolder + "/" + SafeName(v) == pre + ev;
    assert eu == (pre + eu)[|pre|..];
    assert ev == (pre + ev)[|pre|..];
    Text.UnescapeEscape(u);
    Text.UnescapeEscape(v);
  }

  /** Under the corrected naming no two uris share a file. */
  lemma RenamedNamesDistinct(orig: seq<string>)
    ensures NamesDistinct(orig, SafeName)
  {
    forall u, v | u in orig && v in orig && u != v
      ensures SegmentPath(SafeName, u) != SegmentPath(SafeName, v)
    {
      if SegmentPath(SafeName, u) == SegmentPath(SafeName, v) {
        SafePathInjective(u, v);
      }
    }
  }

  /** A `TsFile` kept for merging: the segment uri, the file its bytes are
      in, and its take index. */
  datatype Handle = Handle(uri: string, path: string, index: nat)

  /** No two handles carry the same index. */
  predicate DistinctIndices(hs: seq<Handle>) {
    forall i, j :: 0 <= i < j < |hs| ==> hs[i].index != hs[j].index
  }

  /** State the workers share: the dedup list `downloaded_ts_urls`, the
      handle list `tsfiles`, and the file system. */
  datatype Shared = Shared(downloaded: seq<string>, tsfiles: seq<Handle>, files: map<string, seq<byte>>)

  /** The handle `_download_ts` builds for a segment. */
  function HandleFor(uri: string, index: nat, env: Env): (r: Handle) {
    Handle(uri, SegmentPath(env.urlPath, uri), index)
  }

  /** Attempt `t` of segment `index` gets a body the check accepts. */
  predicate Accepted(net: (nat, nat) -> Attempt, index: nat, t: nat) {
    DownloadFile(net(index, t), true).Fetched?
  }

  /** A last path component `open(name, 'wb')` can create a file under
      inside the segment folder: an empty one leaves the folder itself,
      and `.` and `..` name directories, so opening them raises. */
  predicate NamesFile(name: string) {
    name != "" && name != "." && name != ".."
  }

  /** The segment file of `uri` can be opened for writing. */
  predicate Writable(urlPath: string -> string, uri: string) {
    NamesFile(Text.LastComponent(urlPath(uri)))
  }

  /** The steps before the file is written cannot raise: the uri parses
      and its segment file can be opened. */
  predicate Openable(env: Env, uri: string) {
    env.parses(uri) && Writable(env.urlPath, uri)
  }

  /** The dedup list applies: `_download_ts` gets past the url functions
      and finds the uri already downloaded. */
  predicate Deduped(env: Env, sh: Shared, uri: string) {
    env.parses(uri) && uri in sh.downloaded
  }

  /** Attempt `t` of segment `index` writes the segment file: the uri
      parses, the check accepts the response, and the file can be opened. */
  predicate Succeeds(env: Env, uri: string, index: nat, t: nat) {
    DownloadFile(env.net(index, t), Openable(env, uri)).Fetched?
  }

  /** The body of the first attempt from `t` on that the check accepts;
      empty when none up to `MaxTry` is. */
  function AcceptedBody(net: (nat, nat) -> Attempt, index: nat, t: nat): (r: seq<byte>)
    decreases MaxTry + 1 - t
  {
    if t > MaxTry then []
    else if Accepted(net, index, t) then net(index, t).body
    else AcceptedBody(net, index, t + 1)
  }

  /** How `_download_ts` ended: the segment was recorded after `attempts`
      attempts, or `M3u8DownloaderMaxTryException` was raised after
      `attempts` attempts. */
  datatype TsResult = Recorded(shared: Shared, attempts: nat) | MaxTryExceeded(attempts: nat)

  /** `_download_ts`. The url functions run first, and a uri they reject
      raises on every attempt. A uri that parses and is already in the
      dedup list is recorded without a fetch; otherwise a fetch that
      succeeds writes the segment file, then the uri joins the dedup list
      and the handle joins `tsfiles`; a refused or failed fetch, a uri that
      does not parse, or a segment file that cannot be opened retries with
      `trycnt + 1`, and the call with `trycnt` above `MaxTry` raises at
      once. */
  function DownloadTs(uri: string, index: nat, sh: Shared, trycnt: nat, env: Env): (r: TsResult)
    ensures trycnt > MaxTry ==> r == MaxTryExceeded(0)
    ensures trycnt <= MaxTry && Deduped(env, sh, uri) ==>
      r == Recorded(sh.(tsfiles := sh.tsfiles + [HandleFor(uri, index, env)]), 0)
    ensures !env.parses(uri) ==> r.MaxTryExceeded?
    ensures r.Recorded? && uri !in sh.downloaded ==>
      var t := trycnt + r.attempts - 1;
      && 1 <= r.attempts && t <= MaxTry
      && Succeeds(env, uri, index, t)
      && r.shared == Shared(sh.downloaded + [uri], sh.tsfiles + [HandleFor(uri, index, env)],
                            sh.files[SegmentPath(env.urlPath, uri) := env.net(index, t).body])
    decreases MaxTry + 1 - trycnt
  {
    if trycnt > MaxTry then MaxTryExceeded(0)
    else
      var h := HandleFor(uri, index, env);
      if Deduped(env, sh, uri) then Recorded(sh.(tsfiles := sh.tsfiles + [h]), 0)
      else
        match DownloadFile(env.net(index, trycnt), Openable(env, uri))
        case Fetched(body) =>
          Recorded(Shared(sh.downloaded + [uri], sh.tsfiles + [h], sh.files[h.path := body]), 1)
        case _ =>
          match DownloadTs(uri, index, sh, trycnt + 1, env)
          case Recorded(sh', n) => Recorded(sh', n + 1)
          case MaxTryExceeded(n) => MaxTryExceeded(n + 1)
  }

  /** The retries of `_download_ts` when the dedup list does not apply: it
      raises the max-try error exactly when every attempt from `trycnt` to
      `MaxTry` fails. */
  lemma {:induction false} DownloadTsAbortsIff(uri: string, index: nat, sh: Shared, trycnt: nat, env: Env)
    requires !Deduped(env, sh, uri)
    ensures DownloadTs(uri, index, sh, trycnt, env).MaxTryExceeded? <==>
      forall t :: trycnt <= t <= MaxTry ==> !Succeeds(env, uri, index, t)
    decreases MaxTry + 1 - trycnt
  {
    if trycnt <= MaxTry && !Succeeds(env, uri, index, trycnt) {
      DownloadTsAbortsIff(uri, index, sh, trycnt + 1, env);
      assert DownloadTs(uri, index, sh, trycnt, env).MaxTryExceeded? ==
             DownloadTs(uri, index, sh, trycnt + 1, env).MaxTryExceeded?;
      forall t | trycnt <= t <= MaxTry && (forall u :: trycnt + 1 <= u <= MaxTry ==> !Succeeds(env, uri, index, u))
        ensures !Succeeds(env, uri, index, t)
      {
        if t > trycnt {
          assert trycnt + 1 <= t;
        }
      }
    }
  }

  /** A max-try error raised from `trycnt` made one attempt per allowed
      try. */
  lemma {:induction false} DownloadTsAbortAttempts(uri: string, index: nat, sh: Shared, trycnt: nat, env: Env)
    requires !Deduped(env, sh, uri) && trycnt <= MaxTry
    requires DownloadTs(uri, index, sh, trycnt, env).MaxTryExceeded?
    ensures DownloadTs(uri, index, sh, trycnt, env).attempts == MaxTry + 1 - trycnt
    decreases MaxTry + 1 - trycnt
  {
    if trycnt < MaxTry {
      DownloadTsAbortAttempts(uri, index, sh, trycnt + 1, env);
    }
  }

  /** A recorded segment was recorded on its first successful attempt. */
  lemma {:induction false} DownloadTsFirstSuccess(uri: string, index: nat, sh: Shared, trycnt: nat, env: Env)
    requires uri !in sh.downloaded
    requires DownloadTs(uri, index, sh, trycnt, env).Recorded?
    ensures var t := trycnt + DownloadTs(uri, index, sh, trycnt, env).attempts - 1;
      forall u :: trycnt <= u < t ==> !Succeeds(env, uri, index, u)
    decreases MaxTry + 1 - trycnt
  {
    if !Succeeds(env, uri, index, trycnt) {
      DownloadTsFirstSuccess(uri, index, sh, trycnt + 1, env);
    }
  }

  /** Boundary of the retry ceiling: a segment that fails its first ten
      attempts and succeeds on the eleventh is recorded after eleven
      attempts. */
  lemma EleventhAttemptStillRecords(uri: string, index: nat, sh: Shared, env: Env)
    requires uri !in sh.downloaded
    requires forall t :: 0 <= t < MaxTry ==> !Succeeds(env, uri, index, t)
    requires Succeeds(env, uri, index, MaxTry)
    ensures DownloadTs(uri, index, sh, 0, env).Recorded?
    ensures DownloadTs(uri, index, sh, 0, env).attempts == MaxTry + 1
  {
    DownloadTsAbortsIff(uri, index, sh, 0, env);
    DownloadTsFirstSuccess(uri, index, sh, 0, env);
  }

  /** Boundary of the retry ceiling: a segment that fails all eleven
      attempts raises the max-try error after exactly eleven attempts. */
  lemma ElevenFailuresAbort(uri: string, index: nat, sh: Shared, env: Env)
    requires !Deduped(env, sh, uri)
    requires forall t :: 0 <= t <= MaxTry ==> !Succeeds(env, uri, index, t)
    ensures DownloadTs(uri, index, sh, 0, env) == MaxTryExceeded(MaxTry + 1)
  {
    DownloadTsAbortsIff(uri, index, sh, 0, env);
    DownloadTsAbortAttempts(uri, index, sh, 0, env);
  }

  /** A segment whose file would be the folder itself or a dot entry is
      never recorded, whatever the server sends: every attempt fetches,
      fails to open the file, and retries until the max-try error. */
  lemma DirectoryNameAborts(uri: string, index: nat, sh: Shared, env: Env)
    requires uri !in sh.downloaded && !Writable(env.urlPath, uri)
    ensures DownloadTs(uri, index, sh, 0, env) == MaxTryExceeded(MaxTry + 1)
  {
    ElevenFailuresAbort(uri, index, sh, env);
  }

  /** A uri the url functions reject is never recorded, even when it is in
      the dedup list: every attempt raises before the request, and the
      max-try error comes after eleven attempts. */
  lemma UnparsableAborts(uri: string, index: nat, sh: Shared, env: Env)
    requires !env.parses(uri)
    ensures DownloadTs(uri, index, sh, 0, env) == MaxTryExceeded(MaxTry + 1)
  {
    ElevenFailuresAbort(uri, index, sh, env);
  }

  /** Paths whose last component names a directory: a trailing `/`, an
      empty path (a uri that is only a query), and the dot entries. */
  lemma DirectoryNames()
    ensures !Writable(u => "/dir/", "http://cdn/dir/")
    ensures !Writable(u => "", "?seg=1")
    ensures !Writable(u => "/dir/..", "../dir/..")
    ensures Writable(u => "/dir/seg.ts", "http://cdn/dir/seg.ts")
  {
    Text.LastComponentAfterSlash("/dir/..", 4);
    Text.LastComponentAfterSlash("/dir/seg.ts", 4);
  }

  /** The body written for a recorded segment is that of its first
      accepted attempt. */
  lemma {:induction false} DownloadTsBody(uri: string, index: nat, sh: Shared, trycnt: nat, env: Env)
    requires uri !in sh.downloaded
    requires DownloadTs(uri, index, sh, trycnt, env).Recorded?
    ensures var f := DownloadTs(uri, index, sh, trycnt, env).shared.files;
      SegmentPath(env.urlPath, uri) in f && f[SegmentPath(env.urlPath, uri)] == AcceptedBody(env.net, index, trycnt)
    decreases MaxTry + 1 - trycnt
  {
    if !Accepted(env.net, index, trycnt) {
      DownloadTsBody(uri, index, sh, trycnt + 1, env);
    }
  }

  /** A segment served as `text/html` on every attempt is never recorded,
      whatever the bodies hold. */
  lemma HtmlAlwaysAborts(uri: string, index: nat, sh: Shared, env: Env)
    requires uri !in sh.downloaded
    requires forall t :: env.net(index, t).Response? && env.net(index, t).contentType == Some(HtmlType)
    ensures DownloadTs(uri, index, sh, 0, env) == MaxTryExceeded(MaxTry + 1)
  {
    forall t | 0 <= t <= MaxTry
      ensures !Succeeds(env, uri, index, t)
    {
      assert env.net(index, t).contentType == Some(HtmlType);
    }
    ElevenFailuresAbort(uri, index, sh, env);
  }

  /** Two file systems agree on every path outside the temporary segment
      folder. */
  ghost predicate SameOutside(f: map<string, seq<byte>>, g: map<string, seq<byte>>) {
    forall p :: !InTsFolder(p) ==> (p in f <==> p in g) && (p in f ==> f[p] == g[p])
  }

  /** Writing a file inside the temporary folder leaves the rest as it was. */
  lemma WriteOutside(f: map<string, seq<byte>>, path: string, v: seq<byte>)
    requires InTsFolder(path)
    ensures SameOutside(f, f[path := v])
  {
  }
}
