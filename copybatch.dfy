/**
 * `copyFileOrDirectoryByPattern` and `mirrorFiles`: `copyFileOrDirectory`
 * (or, for a mirrored deletion, `deleteFileOrDirectory`) on every path of
 * a list, with the progress total added up first. The wildcard expansion
 * and the recursive listing that produce the list are not part of this
 * model; their result is the parameter `fileList`.
 *
 * One copy is a safety step (`Copy.KeepsOutside` for its destination and
 * `ChangedFromFiles`); both compose, so a whole batch keeps them. One copy
 * into an empty destination with no fault also copies every file
 * (`CopyItem`); a batch does not carry that over, since after its first
 * item the destination is no longer empty.
 */
module CopyBatch {
  import opened Wrappers
  import opened Paths
  import opened FileSystem
  import opened DirFuncs
  import opened CopyFile
  import opened Move
  import opened Copy
  import Sizes
  import Delete

  // ---------------------------------------------------------------------
  // What a batch of copies guarantees.

  /** Bytes that are empty or a prefix of some regular file of `t0`. */
  ghost predicate FromSomeFile(t0: Tree, data: seq<bv8>) {
    data == [] || exists j :: IsFileIn(t0, j) && data <= t0[j].data
  }

  /** Every entry that differs from `t0` is a directory, or a regular file holding bytes of some file of `t0`. */
  ghost predicate ChangedFromFiles(t0: Tree, t: Tree) {
    forall k :: k in t && !(k in t0 && t[k] == t0[k]) ==>
      t[k] == Dir || (t[k].File? && FromSomeFile(t0, t[k].data))
  }

  /** Outside all of `roots` nothing is lost or changed, and the only new entries are directories. */
  ghost predicate KeptOutside(t0: Tree, t: Tree, roots: seq<Key>) {
    && (forall k :: k in t0 && NotUnder(k, roots) ==> k in t && t[k] == t0[k])
    && (forall k :: k in t && k !in t0 && NotUnder(k, roots) ==> t[k] == Dir)
  }

  lemma FromSomeFileTrans(t0: Tree, t1: Tree, data: seq<bv8>)
    requires ChangedFromFiles(t0, t1) && FromSomeFile(t1, data)
    ensures FromSomeFile(t0, data)
  {
    if data != [] {
      var j :| IsFileIn(t1, j) && data <= t1[j].data;
      if !(j in t0 && t1[j] == t0[j]) {
        assert t1[j].data != [];
        var j' :| IsFileIn(t0, j') && t1[j].data <= t0[j'].data;
        assert data <= t0[j'].data;
      }
    }
  }

  /** Two batches in a row: what changed still comes from the files of the first tree. */
  lemma ChangedTrans(t0: Tree, t1: Tree, t2: Tree)
    requires ChangedFromFiles(t0, t1) && ChangedFromFiles(t1, t2)
    ensures ChangedFromFiles(t0, t2)
  {
    forall k | k in t2 && !(k in t0 && t2[k] == t0[k]) && t2[k].File?
      ensures FromSomeFile(t0, t2[k].data)
    {
      if !(k in t1 && t2[k] == t1[k]) {
        FromSomeFileTrans(t0, t1, t2[k].data);
      }
    }
  }

  /** Two copies into the same destination keep everything outside it. */
  lemma KeepsOutsideTrans(t0: Tree, t1: Tree, t2: Tree, d: Key)
    requires KeepsOutside(t0, t1, d) && KeepsOutside(t1, t2, d)
    ensures KeepsOutside(t0, t2, d)
  {
  }

  /** A copy into `d` after a batch into `roots`: the batch into `roots + [d]` keeps what is outside all of them. */
  lemma KeptOutsideStep(t0: Tree, t1: Tree, t2: Tree, roots: seq<Key>, d: Key)
    requires KeptOutside(t0, t1, roots) && KeepsOutside(t1, t2, d)
    ensures KeptOutside(t0, t2, roots + [d])
  {
    forall k | NotUnder(k, roots + [d]) ensures NotUnder(k, roots) && !(d <= k) {
      assert (roots + [d])[|roots|] == d;
      forall i | 0 <= i < |roots| ensures !(roots[i] <= k) {
        assert (roots + [d])[i] == roots[i];
      }
    }
  }

  /** The walk's guarantee, read as one step of a batch. */
  lemma TreeCopyStep(t0: Tree, t: Tree, s: Key, d: Key, r: map<Key, nat>, copied: seq<Key>)
    requires CopySafe(t0, t, s, d, r, copied)
    ensures KeepsOutside(t0, t, d) && ChangedFromFiles(t0, t)
  {
    forall k | k in t && !(k in t0 && t[k] == t0[k]) && t[k].File? ensures FromSomeFile(t0, t[k].data) {
      if d <= k {
        var m := Origin(t0, s, d, k);
        assert IsFileIn(t0, m) && t[k].data <= t0[m].data;
      }
    }
  }

  /**
   * The file branch of `copyFileOrDirectory` (parent directories, then
   * `copySingleFile`), read as one step of a batch. Source and destination
   * may name the same entry, which the copy then empties.
   */
  lemma FileCopyStep(t: Tree, locked: set<Key>, unreadable: set<Key>, flakyOpens: map<Key, nat>,
                     readErrorAt: map<Key, nat>, writeErrorAt: map<Key, nat>, abort: bool,
                     fromFile: string, toFile: string)
    requires StartsWith(toFile, ROOT_PATH) && !EndsWithSlash(toFile)
    ensures var t' := FileCopy(t, locked, unreadable, flakyOpens, readErrorAt, writeErrorAt, abort, fromFile, toFile).0;
      KeepsOutside(t, t', Comps(toFile)) && ChangedFromFiles(t, t')
  {
    var x, f := Comps(toFile), Comps(fromFile);
    var tA := MkdirChain(t, Comps(ROOT_PATH), ParentChain(toFile));
    var t' := FileCopy(t, locked, unreadable, flakyOpens, readErrorAt, writeErrorAt, abort, fromFile, toFile).0;
    forall k | k != x && (k in t || k in t')
      ensures k in t ==> k in t' && t'[k] == t[k]
      ensures k in t' && k !in t ==> t'[k] == Dir && k < x
    {
      ParentChainShape(t, toFile, k);
      SingleCopyOthers(tA, locked, unreadable, flakyOpens, readErrorAt, writeErrorAt, abort, fromFile, toFile, k);
    }
    ParentChainShape(t, toFile, x);
    if f == x {
      SingleCopySelf(tA, locked, unreadable, flakyOpens, readErrorAt, writeErrorAt, abort, fromFile, toFile);
    } else {
      ParentChainShape(t, toFile, f);
      SingleCopyDest(tA, locked, unreadable, flakyOpens, readErrorAt, writeErrorAt, abort, fromFile, toFile);
      if x in t' && !(x in t && t'[x] == t[x]) && IsFileIn(tA, f) {
        assert IsFileIn(t, f) && t'[x].data <= t[f].data;
      }
    }
  }

  /** The log lines of the walk: the same number on each log, appended. */
  lemma WalkLogsInStep(ls0: seq<string>, ld0: seq<string>, ls: seq<string>, ld: seq<string>, hasS: bool, hasD: bool,
                       s: Key, d: Key, copied: seq<Key>)
    requires CopyLogs(ls0, ld0, ls, ld, hasS, hasD, s, d, copied)
    requires !hasS ==> ls == ls0
    requires !hasD ==> ld == ld0
    ensures InStep(ls0, ld0, ls, ld, hasS && hasD)
  {
  }

  // ---------------------------------------------------------------------
  // One copy of a batch.

  /** One `copyFileOrDirectory` with the running byte count of a batch, as one step of it. */
  method CopyItem(fs: Volume, status: Status, fromPath: string, toPath: string, bytes: nat, totalSize: int,
                  logSource: Log?, logDestination: Log?) returns (bytes': nat)
    requires fs.Valid() && StartsWith(toPath, ROOT_PATH) && (logSource == null || logSource != logDestination)
    requires EndsWithSlash(toPath) ==> Disjoint(Comps(fromPath), Comps(toPath))
    modifies fs, status, logSource, logDestination
    ensures fs.Valid() && status.abortFileOp == old(status.abortFileOp) && bytes' >= bytes
    ensures KeepsOutside(old(fs.nodes), fs.nodes, Comps(toPath)) && ChangedFromFiles(old(fs.nodes), fs.nodes)
    ensures InStep(old(Lines(logSource)), old(Lines(logDestination)), Lines(logSource), Lines(logDestination),
                   logSource != null && logDestination != null)
    ensures !EndsWithSlash(toPath) ==>
      fs.nodes == FileCopy(old(fs.nodes), fs.locked, fs.unreadable, fs.flakyOpens, fs.readErrorAt, fs.writeErrorAt,
                           status.abortFileOp, fromPath, toPath).0
    ensures var s, d := Comps(fromPath), Comps(toPath);
      (EndsWithSlash(toPath) && CopyClean(old(fs.nodes), fs.locked, fs.unreadable, fs.flakyOpens, fs.writeErrorAt, s, d)
       && DestOpen(old(fs.nodes), d) && !status.abortFileOp) ==>
        TreeCopied(old(fs.nodes), fs.nodes, s, d, fs.readErrorAt)
  {
    ghost var t, ls, ld := fs.nodes, Lines(logSource), Lines(logDestination);
    ghost var o, copied;
    bytes', o, copied := CopyFileOrDirectory(fs, status, fromPath, toPath, Some(bytes), totalSize,
                                             logSource, logDestination);
    if EndsWithSlash(toPath) {
      TreeCopyStep(t, fs.nodes, Comps(fromPath), Comps(toPath), fs.readErrorAt, copied);
      WalkLogsInStep(ls, ld, Lines(logSource), Lines(logDestination), logSource != null, logDestination != null,
                     Comps(fromPath), Comps(toPath), copied);
      if CopyClean(t, fs.locked, fs.unreadable, fs.flakyOpens, fs.writeErrorAt, Comps(fromPath), Comps(toPath))
         && DestOpen(t, Comps(toPath)) && !status.abortFileOp {
        CleanCopyAll(t, fs.nodes, Comps(fromPath), Comps(toPath), fs.readErrorAt, copied);
      }
    } else {
      FileCopyStep(t, fs.locked, fs.unreadable, fs.flakyOpens, fs.readErrorAt, fs.writeErrorAt, status.abortFileOp,
                   fromPath, toPath);
    }
  }

  // ---------------------------------------------------------------------
  // The progress total.

  /** The sizes `getTotalSize` reports for `paths`, added up. */
  ghost function SizeOfAll(t: Tree, un: set<Key>, paths: seq<string>): nat
    decreases |paths|
  {
    if paths == [] then 0
    else SizeOfAll(t, un, paths[..|paths| - 1]) + Sizes.TotalSize(t, un, Comps(paths[|paths| - 1]))
  }

  /** The total of a list is the totals of its two parts added up. */
  lemma {:induction false} SizeOfAllAppend(t: Tree, un: set<Key>, a: seq<string>, b: seq<string>)
    ensures SizeOfAll(t, un, a + b) == SizeOfAll(t, un, a) + SizeOfAll(t, un, b)
    decreases |b|
  {
    if b == [] {
      assert a + b == a;
    } else {
      var b' := b[..|b| - 1];
      assert (a + b)[..|a + b| - 1] == a + b' && (a + b)[|a + b| - 1] == b[|b| - 1];
      SizeOfAllAppend(t, un, a, b');
    }
  }

  /** No path's size exceeds the total, so the progress of a batch stays within 100 per cent. */
  lemma {:induction false} SizeOfAllBounds(t: Tree, un: set<Key>, paths: seq<string>, i: nat)
    requires i < |paths|
    ensures Sizes.TotalSize(t, un, Comps(paths[i])) <= SizeOfAll(t, un, paths)
    decreases |paths|
  {
    if i < |paths| - 1 {
      assert paths[..|paths| - 1][i] == paths[i];
      SizeOfAllBounds(t, un, paths[..|paths| - 1], i);
    }
  }

  /** The first loop of `copyFileOrDirectoryByPattern`: `getTotalSize` of every path, added up. */
  method SumTotalSizes(fs: Volume, paths: seq<string>) returns (totalSize: nat)
    requires fs.Valid()
    ensures totalSize == SizeOfAll(fs.nodes, fs.unreadable, paths)
  {
    totalSize := 0;
    for i := 0 to |paths|
      invariant totalSize == SizeOfAll(fs.nodes, fs.unreadable, paths[..i])
    {
      var size := Sizes.GetTotalSize(fs, paths[i]);
      assert paths[..i + 1][..i] == paths[..i];
      totalSize := totalSize + size;
    }
    assert paths[..|paths|] == paths;
  }

  // ---------------------------------------------------------------------
  // copyFileOrDirectoryByPattern.

  /**
   * `copyFileOrDirectoryByPattern`: every path of the list is copied to
   * `toDirectory`, the byte count running on from one copy to the next
   * against the total of the whole list.
   */
  method CopyFileOrDirectoryByPattern(fs: Volume, status: Status, fileList: seq<string>, toDirectory: string,
                                      logSource: Log?, logDestination: Log?)
    requires fs.Valid() && StartsWith(toDirectory, ROOT_PATH) && (logSource == null || logSource != logDestination)
    requires EndsWithSlash(toDirectory) ==>
      forall i :: 0 <= i < |fileList| ==> Disjoint(Comps(fileList[i]), Comps(toDirectory))
    modifies fs, status, logSource, logDestination
    ensures fs.Valid() && status.abortFileOp == old(status.abortFileOp)
    ensures KeepsOutside(old(fs.nodes), fs.nodes, Comps(toDirectory)) && ChangedFromFiles(old(fs.nodes), fs.nodes)
    ensures InStep(old(Lines(logSource)), old(Lines(logDestination)), Lines(logSource), Lines(logDestination),
                   logSource != null && logDestination != null)
  {
    ghost var t0, ls0, ld0 := fs.nodes, Lines(logSource), Lines(logDestination);
    ghost var both := logSource != null && logDestination != null;
    var totalSize := SumTotalSizes(fs, fileList);
    var totalBytesCopied := 0;
    assert ChangedFromFiles(t0, t0);
    assert InStep(ls0, ld0, ls0, ld0, both);
    for i := 0 to |fileList|
      invariant fs.Valid() && status.abortFileOp == old(status.abortFileOp)
      invariant KeepsOutside(t0, fs.nodes, Comps(toDirectory)) && ChangedFromFiles(t0, fs.nodes)
      invariant InStep(ls0, ld0, Lines(logSource), Lines(logDestination), both)
    {
      ghost var t1, ls1, ld1 := fs.nodes, Lines(logSource), Lines(logDestination);
      totalBytesCopied := CopyItem(fs, status, fileList[i], toDirectory, totalBytesCopied, totalSize,
                                   logSource, logDestination);
      KeepsOutsideTrans(t0, t1, fs.nodes, Comps(toDirectory));
      ChangedTrans(t0, t1, fs.nodes);
      InStepTrans(ls0, ld0, ls1, ld1, Lines(logSource), Lines(logDestination), both);
    }
  }

  // ---------------------------------------------------------------------
  // mirrorFiles.

  /** The path in the target directory that corresponds to `p`: the source prefix replaced by the target. */
  function MirrorPath(p: string, sourcePath: string, targetPath: string): (u: string)
    requires |sourcePath| <= |p|
    ensures StartsWith(u, targetPath) && u[|targetPath|..] == p[|sourcePath|..]
  {
    targetPath + p[|sourcePath|..]
  }

  /** Every path of the list is at least as long as the source prefix that `substr` cuts off. */
  ghost predicate Mirrorable(fileList: seq<string>, sourcePath: string) {
    forall i :: 0 <= i < |fileList| ==> |sourcePath| <= |fileList[i]|
  }

  /** The corresponding target of every path of the list, in order. */
  function MirrorTargets(fileList: seq<string>, sourcePath: string, targetPath: string): (r: seq<string>)
    requires Mirrorable(fileList, sourcePath)
    ensures |r| == |fileList|
    ensures forall i :: 0 <= i < |fileList| ==> r[i] == MirrorPath(fileList[i], sourcePath, targetPath)
  {
    seq(|fileList|, i requires 0 <= i < |fileList| => MirrorPath(fileList[i], sourcePath, targetPath))
  }

  /**
   * The (source, target) pairs `mirrorFiles` copies in copy mode: every
   * path whose target is a different string, in order.
   */
  function MirrorPairs(fileList: seq<string>, sourcePath: string, targetPath: string): seq<Job>
    requires Mirrorable(fileList, sourcePath)
    decreases |fileList|
  {
    if fileList == [] then []
    else
      var p := fileList[|fileList| - 1];
      var u := MirrorPath(p, sourcePath, targetPath);
      MirrorPairs(fileList[..|fileList| - 1], sourcePath, targetPath) + if p != u then [Job(p, u)] else []
  }

  /** The sources of a list of pairs. */
  function Sources(pairs: seq<Job>): (r: seq<string>)
    ensures |r| == |pairs| && forall i :: 0 <= i < |pairs| ==> r[i] == pairs[i].src
  {
    seq(|pairs|, i requires 0 <= i < |pairs| => pairs[i].src)
  }

  /** The keys of the targets of a list of pairs. */
  function TargetKeys(pairs: seq<Job>): (r: seq<Key>)
    ensures |r| == |pairs| && forall i :: 0 <= i < |pairs| ==> r[i] == Comps(pairs[i].dst)
  {
    seq(|pairs|, i requires 0 <= i < |pairs| => Comps(pairs[i].dst))
  }

  /** Every pair `mirrorFiles` copies has a target that is a different string from its source, in the target directory. */
  lemma {:induction false} MirrorPairsShape(fileList: seq<string>, sourcePath: string, targetPath: string)
    requires Mirrorable(fileList, sourcePath)
    ensures forall j :: 0 <= j < |MirrorPairs(fileList, sourcePath, targetPath)| ==>
      var pr := MirrorPairs(fileList, sourcePath, targetPath)[j];
      pr.src in fileList && pr.dst == MirrorPath(pr.src, sourcePath, targetPath) && pr.src != pr.dst
    decreases |fileList|
  {
    if fileList != [] {
      var init := fileList[..|fileList| - 1];
      MirrorPairsShape(init, sourcePath, targetPath);
      forall p | p in init ensures p in fileList { }
    }
  }

  /** A path of the list is copied exactly when its target is a different string. */
  lemma {:induction false} MirrorPairsComplete(fileList: seq<string>, sourcePath: string, targetPath: string, i: nat)
    requires Mirrorable(fileList, sourcePath) && i < |fileList|
    requires fileList[i] != MirrorPath(fileList[i], sourcePath, targetPath)
    ensures Job(fileList[i], MirrorPath(fileList[i], sourcePath, targetPath)) in MirrorPairs(fileList, sourcePath, targetPath)
    decreases |fileList|
  {
    if i < |fileList| - 1 {
      var init := fileList[..|fileList| - 1];
      assert init[i] == fileList[i];
      MirrorPairsComplete(init, sourcePath, targetPath, i);
    }
  }

  /** One more path of the list, in copy mode. */
  lemma MirrorPairsSnoc(fileList: seq<string>, sourcePath: string, targetPath: string, i: nat)
    requires Mirrorable(fileList, sourcePath) && i < |fileList|
    ensures Mirrorable(fileList[..i], sourcePath) && Mirrorable(fileList[..i + 1], sourcePath)
    ensures var p := fileList[i];
      var u := MirrorPath(p, sourcePath, targetPath);
      MirrorPairs(fileList[..i + 1], sourcePath, targetPath)
        == MirrorPairs(fileList[..i], sourcePath, targetPath) + if p != u then [Job(p, u)] else []
  {
    assert fileList[..i + 1][..i] == fileList[..i];
  }

  /** The extra pair's target key. */
  lemma TargetKeysSnoc(pairs: seq<Job>, extra: seq<Job>)
    ensures TargetKeys(pairs + extra) == TargetKeys(pairs) + TargetKeys(extra)
    ensures Sources(pairs + extra) == Sources(pairs) + Sources(extra)
  {
  }

  /** The first loop of `mirrorFiles` in copy mode: `getTotalSize` of every source whose target differs. */
  method MirrorTotalSize(fs: Volume, fileList: seq<string>, sourcePath: string, targetPath: string)
      returns (totalSize: nat)
    requires fs.Valid() && Mirrorable(fileList, sourcePath)
    ensures totalSize == SizeOfAll(fs.nodes, fs.unreadable, Sources(MirrorPairs(fileList, sourcePath, targetPath)))
  {
    totalSize := 0;
    for i := 0 to |fileList|
      invariant Mirrorable(fileList[..i], sourcePath)
      invariant totalSize == SizeOfAll(fs.nodes, fs.unreadable, Sources(MirrorPairs(fileList[..i], sourcePath, targetPath)))
    {
      var p := fileList[i];
      ghost var before := MirrorPairs(fileList[..i], sourcePath, targetPath);
      MirrorPairsSnoc(fileList, sourcePath, targetPath, i);
      if p != targetPath + p[|sourcePath|..] {
        var size := Sizes.GetTotalSize(fs, p);
        TargetKeysSnoc(before, [Job(p, MirrorPath(p, sourcePath, targetPath))]);
        SizeOfAllAppend(fs.nodes, fs.unreadable, Sources(before), [p]);
        totalSize := totalSize + size;
      } else {
        assert before + [] == before;
      }
    }
    assert fileList[..|fileList|] == fileList;
  }

  /** What copy mode needs of each path: a target that, ending with '/', lies apart from the path. */
  ghost predicate MirrorCopyOk(fileList: seq<string>, sourcePath: string, targetPath: string) {
    && Mirrorable(fileList, sourcePath) && StartsWith(targetPath, ROOT_PATH)
    && forall i :: 0 <= i < |fileList| ==>
      var u := MirrorPath(fileList[i], sourcePath, targetPath);
      fileList[i] != u && EndsWithSlash(u) ==> Disjoint(Comps(fileList[i]), Comps(u))
  }

  /** Copy mode: every path whose target is a different string is copied onto its target. */
  method MirrorCopy(fs: Volume, status: Status, fileList: seq<string>, sourcePath: string, targetPath: string,
                    totalSize: int)
    requires fs.Valid() && MirrorCopyOk(fileList, sourcePath, targetPath)
    modifies fs, status
    ensures fs.Valid() && status.abortFileOp == old(status.abortFileOp)
    ensures KeptOutside(old(fs.nodes), fs.nodes, TargetKeys(MirrorPairs(fileList, sourcePath, targetPath)))
    ensures ChangedFromFiles(old(fs.nodes), fs.nodes)
  {
    ghost var t0 := fs.nodes;
    var totalBytesCopied := 0;
    assert ChangedFromFiles(t0, t0);
    for i := 0 to |fileList|
      invariant fs.Valid() && status.abortFileOp == old(status.abortFileOp) && Mirrorable(fileList[..i], sourcePath)
      invariant KeptOutside(t0, fs.nodes, TargetKeys(MirrorPairs(fileList[..i], sourcePath, targetPath)))
      invariant ChangedFromFiles(t0, fs.nodes)
    {
      totalBytesCopied := MirrorCopyPass(fs, status, fileList, sourcePath, targetPath, i, totalBytesCopied, totalSize,
                                         t0);
    }
    assert fileList[..|fileList|] == fileList;
  }

  /** One pass of the copy-mode loop: the path is copied unless its target is the same string. */
  method MirrorCopyPass(fs: Volume, status: Status, fileList: seq<string>, sourcePath: string, targetPath: string,
                        i: nat, bytes: nat, totalSize: int, ghost t0: Tree) returns (bytes': nat)
    requires fs.Valid() && MirrorCopyOk(fileList, sourcePath, targetPath) && i < |fileList|
    requires Mirrorable(fileList[..i], sourcePath)
    requires KeptOutside(t0, fs.nodes, TargetKeys(MirrorPairs(fileList[..i], sourcePath, targetPath)))
    requires ChangedFromFiles(t0, fs.nodes)
    modifies fs, status
    ensures fs.Valid() && status.abortFileOp == old(status.abortFileOp) && Mirrorable(fileList[..i + 1], sourcePath)
    ensures KeptOutside(t0, fs.nodes, TargetKeys(MirrorPairs(fileList[..i + 1], sourcePath, targetPath)))
    ensures ChangedFromFiles(t0, fs.nodes)
  {
    var p := fileList[i];
    var updatedPath := targetPath + p[|sourcePath|..];
    ghost var t1 := fs.nodes;
    bytes' := bytes;
    if p != updatedPath {
      assert updatedPath[..|ROOT_PATH|] == targetPath[..|ROOT_PATH|];
      bytes' := CopyItem(fs, status, p, updatedPath, bytes, totalSize, null, null);
    }
    MirrorStep(t0, t1, fs.nodes, fileList, sourcePath, targetPath, i);
  }

  /** The bookkeeping of one copy-mode pass, on the trees before and after it. */
  lemma MirrorStep(t0: Tree, t1: Tree, t2: Tree, fileList: seq<string>, sourcePath: string, targetPath: string, i: nat)
    requires Mirrorable(fileList, sourcePath) && i < |fileList|
    requires KeptOutside(t0, t1, TargetKeys(MirrorPairs(fileList[..i], sourcePath, targetPath)))
    requires ChangedFromFiles(t0, t1)
    requires var u := MirrorPath(fileList[i], sourcePath, targetPath);
      if fileList[i] != u then KeepsOutside(t1, t2, Comps(u)) && ChangedFromFiles(t1, t2) else t2 == t1
    ensures Mirrorable(fileList[..i + 1], sourcePath)
    ensures KeptOutside(t0, t2, TargetKeys(MirrorPairs(fileList[..i + 1], sourcePath, targetPath)))
    ensures ChangedFromFiles(t0, t2)
  {
    var p := fileList[i];
    var u := MirrorPath(p, sourcePath, targetPath);
    var before := MirrorPairs(fileList[..i], sourcePath, targetPath);
    MirrorPairsSnoc(fileList, sourcePath, targetPath, i);
    if p != u {
      TargetKeysSnoc(before, [Job(p, u)]);
      assert TargetKeys([Job(p, u)]) == [Comps(u)];
      KeptOutsideStep(t0, t1, t2, TargetKeys(before), Comps(u));
      ChangedTrans(t0, t1, t2);
    } else {
      assert before + [] == before;
    }
  }

  /** Delete mode: the target of every path is handed to `deleteFileOrDirectory`, in order. */
  method MirrorDelete(fs: Volume, fileList: seq<string>, sourcePath: string, targetPath: string)
    requires fs.Valid() && Mirrorable(fileList, sourcePath)
    requires Delete.Deletable(fs.nodes, fs.locked, fs.unreadable, MirrorTargets(fileList, sourcePath, targetPath))
    modifies fs
    ensures fs.Valid()
    ensures fs.nodes == Delete.DeleteAll(old(fs.nodes), fs.locked, fs.unreadable,
                                         MirrorTargets(fileList, sourcePath, targetPath))
  {
    ghost var t0 := fs.nodes;
    ghost var targets := MirrorTargets(fileList, sourcePath, targetPath);
    ghost var gone: set<Key> := {};
    assert targets[..0] == [];
    for i := 0 to |fileList|
      invariant fs.Valid() && MirrorDeleted(t0, fs.nodes, fs.locked, fs.unreadable, targets, i, gone)
    {
      ghost var t, gone0 := fs.nodes, gone;
      var updatedPath := targetPath + fileList[i][|sourcePath|..];
      assert updatedPath == targets[i];
      if EndsWithSlash(updatedPath) {
        Delete.WalkEndsShrinks(t0, fs.locked, fs.unreadable, Comps(updatedPath), gone);
      }
      Delete.DeleteFileOrDirectory(fs, updatedPath, null);
      gone := gone + Delete.DeletedBy(t, fs.locked, fs.unreadable, updatedPath);
      MirrorDeleteStep(t0, t, fs.nodes, fs.locked, fs.unreadable, targets, i, gone0, gone);
    }
    assert targets[..|fileList|] == targets;
  }

  /** Delete mode after the first `i` targets: their deletions in order, which removed the keys `gone`. */
  ghost predicate MirrorDeleted(t0: Tree, t: Tree, locked: set<Key>, unreadable: set<Key>, targets: seq<string>,
                                i: nat, gone: set<Key>)
  {
    i <= |targets| && t == Delete.DeleteAll(t0, locked, unreadable, targets[..i]) && gone <= t0.Keys && t == t0 - gone
  }

  lemma MirrorDeleteStep(t0: Tree, t: Tree, t': Tree, locked: set<Key>, unreadable: set<Key>, targets: seq<string>,
                         i: nat, gone: set<Key>, gone': set<Key>)
    requires MirrorDeleted(t0, t, locked, unreadable, targets, i, gone) && i < |targets|
    requires t' == t - Delete.DeletedBy(t, locked, unreadable, targets[i])
    requires gone' == gone + Delete.DeletedBy(t, locked, unreadable, targets[i])
    ensures MirrorDeleted(t0, t', locked, unreadable, targets, i + 1, gone')
  {
    assert targets[..i + 1][..i] == targets[..i];
    Delete.PatternStep(t0, locked, unreadable, gone, targets[i], [], [], [], false);
  }

  /**
   * `mirrorFiles`: in "delete" mode the target of every path is deleted; in
   * "copy" mode every path whose target is a different string is copied
   * onto it, against the total size of those paths; any other mode does
   * nothing. The mode is the same on every pass of the source's loop, so
   * the loop is written once per mode.
   */
  method MirrorFiles(fs: Volume, status: Status, fileList: seq<string>, sourcePath: string, targetPath: string,
                     mode: string)
    requires fs.Valid() && Mirrorable(fileList, sourcePath)
    requires mode == "delete" ==>
      Delete.Deletable(fs.nodes, fs.locked, fs.unreadable, MirrorTargets(fileList, sourcePath, targetPath))
    requires mode == "copy" ==> MirrorCopyOk(fileList, sourcePath, targetPath)
    modifies fs, status
    ensures fs.Valid()
    ensures mode == "delete" ==>
      fs.nodes == Delete.DeleteAll(old(fs.nodes), fs.locked, fs.unreadable, MirrorTargets(fileList, sourcePath, targetPath))
    ensures mode == "copy" ==>
      && KeptOutside(old(fs.nodes), fs.nodes, TargetKeys(MirrorPairs(fileList, sourcePath, targetPath)))
      && ChangedFromFiles(old(fs.nodes), fs.nodes)
    ensures mode != "delete" && mode != "copy" ==> fs.nodes == old(fs.nodes)
  {
    var totalSize := 0;
    if mode == "copy" {
      totalSize := MirrorTotalSize(fs, fileList, sourcePath, targetPath);
    }
    if mode == "delete" {
      MirrorDelete(fs, fileList, sourcePath, targetPath);
    } else if mode == "copy" {
      MirrorCopy(fs, status, fileList, sourcePath, targetPath, totalSize);
    }
  }

  // ---------------------------------------------------------------------
  // The copy-mode guard compares strings, not the entries they name.

  /**
   * Mirroring `a` onto `a + "/"`: the target of `a/n` is `a//n`, a
   * different string naming the same entry, so the guard of copy mode lets
   * the copy through.
   */
  lemma MirrorOntoItself(a: string, n: string)
    requires IsName(n)
    ensures var p := a + "/" + n;
      var u := MirrorPath(p, a, a + "/");
      p != u && Comps(p) == Comps(u)
  {
    var p := a + "/" + n;
    var u := MirrorPath(p, a, a + "/");
    assert p[|a|..] == "/" + n;
    assert u == (a + "/") + "/" + n;
    CompsJoin(a + "/", n);
    CompsSlash(a);
    CompsName(n);
    CompsChild(a, n);
  }

  /**
   * As written, copy mode on such a pair empties or removes the file it
   * mirrors: a regular file with bytes loses them.
   */
  lemma MirrorLosesFile(t: Tree, locked: set<Key>, unreadable: set<Key>, flakyOpens: map<Key, nat>,
                        readErrorAt: map<Key, nat>, writeErrorAt: map<Key, nat>, abort: bool, a: string, n: string)
    requires IsName(n) && StartsWith(a + "/", ROOT_PATH)
    requires IsFileIn(t, Comps(a + "/" + n)) && Comps(a + "/" + n) !in locked
    ensures var p := a + "/" + n;
      var u := MirrorPath(p, a, a + "/");
      var r := FileCopy(t, locked, unreadable, flakyOpens, readErrorAt, writeErrorAt, abort, p, u).0;
      && MirrorCopyOk([p], a, a + "/") && p != u
      && (Comps(p) !in r || r[Comps(p)] == File([]))
  {
    var p := a + "/" + n;
    var u := MirrorPath(p, a, a + "/");
    MirrorPairShape(a, n, p, u);
    SelfFileCopyEmpties(t, locked, unreadable, flakyOpens, readErrorAt, writeErrorAt, abort, p, u);
  }

  /** The pair `a/n`, `a//n`: copy mode accepts it, and the target is a file path on the volume naming the same entry. */
  lemma MirrorPairShape(a: string, n: string, p: string, u: string)
    requires IsName(n) && StartsWith(a + "/", ROOT_PATH)
    requires p == a + "/" + n && |a| <= |p| && u == MirrorPath(p, a, a + "/")
    ensures MirrorCopyOk([p], a, a + "/") && p != u && Comps(p) == Comps(u)
    ensures StartsWith(u, ROOT_PATH) && !EndsWithSlash(u)
  {
    MirrorOntoItself(a, n);
    MirrorSelfTarget(a, n, p, u);
    PrefixExtends(a + "/", "/" + n, ROOT_PATH);
    SingleMirrorOk(p, a, a + "/");
  }

  lemma MirrorSelfTarget(a: string, n: string, p: string, u: string)
    requires IsName(n) && p == a + "/" + n && |a| <= |p| && u == MirrorPath(p, a, a + "/")
    ensures u == (a + "/") + ("/" + n) && !EndsWithSlash(u)
  {
    assert p[|a|..] == "/" + n;
    assert u[|u| - 1] == n[|n| - 1] && n[|n| - 1] in n;
  }

  /** A one-path list whose target is a file path passes copy mode's check. */
  lemma SingleMirrorOk(p: string, sourcePath: string, targetPath: string)
    requires |sourcePath| <= |p| && StartsWith(targetPath, ROOT_PATH)
    requires !EndsWithSlash(MirrorPath(p, sourcePath, targetPath))
    ensures MirrorCopyOk([p], sourcePath, targetPath)
  {
  }

  lemma PrefixExtends(x: string, y: string, pre: string)
    requires StartsWith(x, pre)
    ensures StartsWith(x + y, pre)
  {
    assert (x + y)[..|pre|] == x[..|pre|];
  }

  /** A file copy onto another name of its own source file empties or removes that file. */
  lemma SelfFileCopyEmpties(t: Tree, locked: set<Key>, unreadable: set<Key>, flakyOpens: map<Key, nat>,
                            readErrorAt: map<Key, nat>, writeErrorAt: map<Key, nat>, abort: bool, p: string, u: string)
    requires StartsWith(u, ROOT_PATH) && !EndsWithSlash(u) && Comps(p) == Comps(u)
    requires IsFileIn(t, Comps(p)) && Comps(p) !in locked
    ensures var r := FileCopy(t, locked, unreadable, flakyOpens, readErrorAt, writeErrorAt, abort, p, u).0;
      Comps(p) !in r || r[Comps(p)] == File([])
  {
    ParentChainShape(t, u, Comps(u));
    var tA := MkdirChain(t, Comps(ROOT_PATH), ParentChain(u));
    SelfCopyEmpties(tA, locked, unreadable, flakyOpens, readErrorAt, writeErrorAt, abort, p, u);
  }

  /** The evidently intended guard: copy only when the target names a different entry. */
  predicate MirrorCopies(p: string, u: string) {
    Comps(p) != Comps(u)
  }

  /** With the corrected guard, a file copy of copy mode leaves the path it copies from as it was. */
  lemma KeyGuardKeepsSource(t: Tree, locked: set<Key>, unreadable: set<Key>, flakyOpens: map<Key, nat>,
                            readErrorAt: map<Key, nat>, writeErrorAt: map<Key, nat>, abort: bool, p: string, u: string)
    requires MirrorCopies(p, u) && StartsWith(u, ROOT_PATH) && !EndsWithSlash(u)
    ensures var r := FileCopy(t, locked, unreadable, flakyOpens, readErrorAt, writeErrorAt, abort, p, u).0;
      var f := Comps(p);
      f in t ==> f in r && r[f] == t[f]
  {
    var f := Comps(p);
    var tA := MkdirChain(t, Comps(ROOT_PATH), ParentChain(u));
    ParentChainShape(t, u, f);
    SingleCopyOthers(tA, locked, unreadable, flakyOpens, readErrorAt, writeErrorAt, abort, p, u, f);
  }
}
