/** `M3u8Downloader.merge`: the handles are sorted by index and the
    segment files are concatenated, in that order, into the output. */
module Merge {
  import opened Wrappers
  import opened Fetch

  predicate SortedByIndex(hs: seq<Handle>) {
    forall i, j :: 0 <= i < j < |hs| ==> hs[i].index <= hs[j].index
  }

  /** The indices the handles carry. */
  function IndexSet(hs: seq<Handle>): (r: set<nat>) {
    set i | 0 <= i < |hs| :: hs[i].index
  }

  lemma IndexSetCons(x: Handle, t: seq<Handle>)
    ensures IndexSet([x] + t) == {x.index} + IndexSet(t)
  {
    var r := [x] + t;
    forall v | v in IndexSet(r)
      ensures v in {x.index} + IndexSet(t)
    {
      var i :| 0 <= i < |r| && r[i].index == v;
      if i > 0 {
        assert t[i - 1].index == v;
      }
    }
    forall v | v in IndexSet(t)
      ensures v in IndexSet(r)
    {
      var i :| 0 <= i < |t| && t[i].index == v;
      assert r[i + 1].index == v;
    }
    assert r[0].index == x.index;
  }

  /** A handle in front of a list with distinct indices keeps them
      distinct when its index is new. */
  lemma DistinctCons(x: Handle, t: seq<Handle>)
    requires DistinctIndices(t) && x.index !in IndexSet(t)
    ensures DistinctIndices([x] + t)
  {
    var r := [x] + t;
    forall i, j | 0 <= i < j < |r|
      ensures r[i].index != r[j].index
    {
      assert r[j] == t[j - 1];
      assert r[j].index in IndexSet(t);
    }
  }

  /** Puts `h` into a sorted list after every handle whose index is not
      larger, so handles with equal indices keep their order. */
  function Insert(sorted: seq<Handle>, h: Handle): (r: seq<Handle>)
    requires SortedByIndex(sorted)
    ensures SortedByIndex(r)
    ensures |r| == |sorted| + 1
    ensures r[0] == h || (|sorted| > 0 && r[0] == sorted[0])
    decreases |sorted|
  {
    if |sorted| == 0 || h.index < sorted[0].index then
      [h] + sorted
    else
      var rest := Insert(sorted[1..], h);
      assert sorted[0].index <= rest[0].index;
      [sorted[0]] + rest
  }

  /** Inserting adds exactly one copy of `h` and keeps every other handle. */
  lemma {:induction false} InsertPerm(sorted: seq<Handle>, h: Handle)
    requires SortedByIndex(sorted)
    ensures multiset(Insert(sorted, h)) == multiset(sorted) + multiset{h}
    decreases |sorted|
  {
    if |sorted| > 0 && h.index >= sorted[0].index {
      InsertPerm(sorted[1..], h);
      assert sorted == [sorted[0]] + sorted[1..];
    }
  }

  /** Inserting adds exactly the new index, and keeps indices distinct when
      it is new. */
  lemma {:induction false} InsertIndices(sorted: seq<Handle>, h: Handle)
    requires SortedByIndex(sorted)
    ensures IndexSet(Insert(sorted, h)) == IndexSet(sorted) + {h.index}
    ensures DistinctIndices(sorted) && h.index !in IndexSet(sorted) ==> DistinctIndices(Insert(sorted, h))
    decreases |sorted|
  {
    if |sorted| == 0 || h.index < sorted[0].index {
      IndexSetCons(h, sorted);
      if DistinctIndices(sorted) && h.index !in IndexSet(sorted) {
        DistinctCons(h, sorted);
      }
    } else {
      var t := sorted[1..];
      var rest := Insert(t, h);
      InsertIndices(t, h);
      assert sorted == [sorted[0]] + t;
      IndexSetCons(sorted[0], t);
      IndexSetCons(sorted[0], rest);
      if DistinctIndices(sorted) && h.index !in IndexSet(sorted) {
        assert sorted[0].index !in IndexSet(t);
        DistinctCons(sorted[0], rest);
      }
    }
  }

  /** `tsfiles.sort(key=lambda x: x.index)`: a sorted permutation, with
      distinct indices when the input has them. */
  function SortByIndex(hs: seq<Handle>): (r: seq<Handle>)
    ensures SortedByIndex(r)
    ensures multiset(r) == multiset(hs)
    ensures |r| == |hs|
    ensures IndexSet(r) == IndexSet(hs)
    ensures DistinctIndices(hs) ==> DistinctIndices(r)
    decreases |hs|
  {
    if |hs| == 0 then []
    else
      var pre := hs[..|hs| - 1];
      var last := hs[|hs| - 1];
      assert hs == pre + [last];
      assert IndexSet(hs) == IndexSet(pre) + {last.index};
      assert DistinctIndices(hs) ==> DistinctIndices(pre) && last.index !in IndexSet(pre);
      var sp := SortByIndex(pre);
      InsertIndices(sp, last);
      InsertPerm(sp, last);
      var r := Insert(sp, last);
      assert |r| == |multiset(r)|;
      r
  }

  /** Reading a segment file that does not exist raises. */
  datatype MergeError = MissingFile(path: string)

  /** Copies the files of `hs`, in list order, into one stream; the first
      missing file raises. */
  function ConcatFiles(hs: seq<Handle>, files: map<string, seq<byte>>): (r: Result<seq<byte>, MergeError>)
    ensures r.Success? <==> forall i :: 0 <= i < |hs| ==> hs[i].path in files
    decreases |hs|
  {
    if |hs| == 0 then Success([])
    else if hs[0].path !in files then Failure(MissingFile(hs[0].path))
    else
      assert forall i :: 1 <= i < |hs| ==> hs[i] == hs[1..][i - 1];
      match ConcatFiles(hs[1..], files)
      case Failure(e) => Failure(e)
      case Success(rest) => Success(files[hs[0].path] + rest)
  }

  /** `merge`. */
  function Merge(hs: seq<Handle>, files: map<string, seq<byte>>): (r: Result<seq<byte>, MergeError>)
    ensures r.Success? <==> forall h :: h in hs ==> h.path in files
  {
    var sorted := SortByIndex(hs);
    assert forall h :: h in hs <==> h in sorted by {
      forall h ensures h in hs <==> h in sorted {
        assert h in hs <==> h in multiset(hs);
        assert h in sorted <==> h in multiset(sorted);
      }
    }
    ConcatFiles(sorted, files)
  }

  lemma MultisetTail(a: seq<Handle>)
    requires |a| > 0
    ensures multiset(a[1..]) == multiset(a) - multiset{a[0]}
  {
    assert a == [a[0]] + a[1..];
  }

  /** Two sorted lists with distinct indices and the same elements are
      equal: the sorted order is unique. */
  lemma {:induction false} SortedUnique(a: seq<Handle>, b: seq<Handle>)
    requires SortedByIndex(a) && SortedByIndex(b)
    requires DistinctIndices(a)
    requires multiset(a) == multiset(b)
    ensures a == b
    decreases |a|
  {
    assert |a| == |multiset(a)| == |multiset(b)| == |b|;
    if |a| > 0 {
      SortedHeads(a, b);
      MultisetTail(a);
      MultisetTail(b);
      SortedUnique(a[1..], b[1..]);
      assert a == [a[0]] + a[1..] && b == [b[0]] + b[1..];
    }
  }

  /** Two such lists start with the same handle: each head is in the other
      list and no index there is smaller. */
  lemma SortedHeads(a: seq<Handle>, b: seq<Handle>)
    requires SortedByIndex(a) && SortedByIndex(b)
    requires DistinctIndices(a)
    requires multiset(a) == multiset(b) && |a| > 0 && |b| > 0
    ensures a[0] == b[0]
  {
    assert a[0] in multiset(b);
    var k :| 0 <= k < |b| && b[k] == a[0];
    assert b[0].index <= a[0].index;
    assert b[0] in multiset(a);
    var m :| 0 <= m < |a| && a[m] == b[0];
    assert a[0].index <= a[m].index;
  }

  /** The merged output does not depend on the order in which the workers
      appended their handles. */
  lemma MergeOrderIndependent(a: seq<Handle>, b: seq<Handle>, files: map<string, seq<byte>>)
    requires multiset(a) == multiset(b)
    requires DistinctIndices(a)
    ensures Merge(a, files) == Merge(b, files)
  {
    SortedUnique(SortByIndex(a), SortByIndex(b));
  }

  /** The files at `paths`, concatenated in order (missing files count as
      empty). */
  function ConcatPaths(paths: seq<string>, files: map<string, seq<byte>>): (r: seq<byte>)
    decreases |paths|
  {
    if |paths| == 0 then []
    else (if paths[0] in files then files[paths[0]] else []) + ConcatPaths(paths[1..], files)
  }

  /** In a sorted list with distinct indices, indices grow at least as fast
      as positions. */
  lemma {:induction false} IndexGap(s: seq<Handle>, i: nat, j: nat)
    requires SortedByIndex(s) && DistinctIndices(s)
    requires i <= j < |s|
    ensures s[j].index - s[i].index >= j - i
    decreases j - i
  {
    if i < j {
      IndexGap(s, i, j - 1);
      assert s[j - 1].index != s[j].index;
    }
  }

  /** Order preservation: when the handles carry the indices 1..N exactly
      once and the handle with index k points at `paths[k - 1]`, merging
      yields the files of `paths` in order, whatever order the handles were
      appended in. */
  lemma MergeOfComplete(hs: seq<Handle>, paths: seq<string>, files: map<string, seq<byte>>)
    requires |hs| == |paths| && DistinctIndices(hs)
    requires forall h :: h in hs ==> 1 <= h.index <= |paths| && h.path == paths[h.index - 1]
    requires forall h :: h in hs ==> h.path in files
    ensures Merge(hs, files) == Success(ConcatPaths(paths, files))
  {
    var sorted := SortByIndex(hs);
    forall k | 0 <= k < |sorted|
      ensures sorted[k] in hs
    {
      assert sorted[k] in multiset(hs);
    }
    CompleteIndices(sorted);
    forall i | 0 <= i < |paths|
      ensures sorted[i].path == paths[i] && paths[i] in files
    {
      assert sorted[i].index == i + 1;
    }
    ConcatSorted(sorted, paths, files);
  }

  /** A sorted list of n handles with distinct indices in 1..n carries
      index k + 1 at position k. */
  lemma CompleteIndices(sorted: seq<Handle>)
    requires SortedByIndex(sorted) && DistinctIndices(sorted)
    requires forall k :: 0 <= k < |sorted| ==> 1 <= sorted[k].index <= |sorted|
    ensures forall k :: 0 <= k < |sorted| ==> sorted[k].index == k + 1
  {
    forall k | 0 <= k < |sorted|
      ensures sorted[k].index == k + 1
    {
      IndexGap(sorted, 0, k);
      IndexGap(sorted, k, |sorted| - 1);
    }
  }

  /** Handles whose paths are `paths`, in order, concatenate to the files
      of `paths`. */
  lemma {:induction false} ConcatSorted(sorted: seq<Handle>, paths: seq<string>, files: map<string, seq<byte>>)
    requires |sorted| == |paths|
    requires forall i :: 0 <= i < |paths| ==> sorted[i].path == paths[i] && paths[i] in files
    ensures ConcatFiles(sorted, files) == Success(ConcatPaths(paths, files))
    decreases |paths|
  {
    if |paths| > 0 {
      ConcatSorted(sorted[1..], paths[1..], files);
    }
  }

  /** Total size of the handles' files. */
  function Size(hs: seq<Handle>, files: map<string, seq<byte>>): (r: nat)
    decreases |hs|
  {
    if |hs| == 0 then 0
    else FileSize(hs[0], files) + Size(hs[1..], files)
  }

  lemma {:induction false} SizeAppend(a: seq<Handle>, b: seq<Handle>, files: map<string, seq<byte>>)
    ensures Size(a + b, files) == Size(a, files) + Size(b, files)
    decreases |a|
  {
    if |a| == 0 {
      assert a + b == b;
    } else {
      assert (a + b)[0] == a[0];
      assert (a + b)[1..] == a[1..] + b;
      SizeAppend(a[1..], b, files);
    }
  }

  /** Size of one handle's file. */
  function FileSize(h: Handle, files: map<string, seq<byte>>): (r: nat) {
    if h.path in files then |files[h.path]| else 0
  }

  lemma MultisetRemove(b: seq<Handle>, k: nat)
    requires k < |b|
    ensures multiset(b[..k] + b[k + 1..]) == multiset(b) - multiset{b[k]}
  {
    assert b == b[..k] + [b[k]] + b[k + 1..];
  }

  /** Taking one handle out of a list takes its file's size off the total. */
  lemma SizeRemove(b: seq<Handle>, k: nat, files: map<string, seq<byte>>)
    requires k < |b|
    ensures Size(b, files) == FileSize(b[k], files) + Size(b[..k] + b[k + 1..], files)
  {
    assert b == b[..k] + ([b[k]] + b[k + 1..]);
    SizeAppend(b[..k], [b[k]] + b[k + 1..], files);
    SizeAppend(b[..k], b[k + 1..], files);
    assert ([b[k]] + b[k + 1..])[1..] == b[k + 1..];
  }

  /** The total size does not depend on the order of the handles. */
  lemma {:induction false} SizePermutation(a: seq<Handle>, b: seq<Handle>, files: map<string, seq<byte>>)
    requires multiset(a) == multiset(b)
    ensures Size(a, files) == Size(b, files)
    decreases |a|
  {
    assert |a| == |multiset(a)| == |multiset(b)| == |b|;
    if |a| > 0 {
      assert a[0] in multiset(b);
      var k :| 0 <= k < |b| && b[k] == a[0];
      var rest := b[..k] + b[k + 1..];
      MultisetTail(a);
      MultisetRemove(b, k);
      SizePermutation(a[1..], rest, files);
      SizeRemove(b, k, files);
    }
  }

  lemma {:induction false} ConcatFilesLength(hs: seq<Handle>, files: map<string, seq<byte>>)
    requires ConcatFiles(hs, files).Success?
    ensures |ConcatFiles(hs, files).value| == Size(hs, files)
    decreases |hs|
  {
    if |hs| > 0 {
      ConcatFilesLength(hs[1..], files);
    }
  }

  /** The merged output is as long as all segment files together. */
  lemma MergeLength(hs: seq<Handle>, files: map<string, seq<byte>>)
    requires Merge(hs, files).Success?
    ensures |Merge(hs, files).value| == Size(hs, files)
  {
    ConcatFilesLength(SortByIndex(hs), files);
    SizePermutation(SortByIndex(hs), hs, files);
  }
}
