/**
 * `copyFileOrDirectory`, `copyFileOrDirectoryByPattern` and `mirrorFiles`.
 *
 * A destination path without a trailing '/' is one `copySingleFile`. One
 * with a trailing '/' starts a breadth-first walk over (source, destination)
 * pairs: a regular file is copied into the parent of its pair's destination
 * under its own name, a directory queues its entries, anything else is
 * skipped. Whatever faults occur, outside the destination nothing changes
 * but the directories created above it, below it every change comes from
 * the matching source file, and every logged copy holds its source's
 * bytes. When no fault can occur and the destination starts empty
 * (`CopyClean`), every regular file below the source is copied.
 */
module Copy {
  import opened Wrappers
  import opened Paths
  import opened FileSystem
  import opened DirFuncs
  import opened CopyFile
  import opened Move
  import Sizes
  import Delete

  // ---------------------------------------------------------------------
  // Where things go.

  /**
   * Where the walk from `s` to `d` copies the regular file `m`: the
   * top-level file goes inside `d` under its own name, a file below the
   * source to the same place below `d`.
   */
  function FileDest(s: Key, d: Key, m: Key): Key
    requires s <= m
  {
    if m == s && |s| > 0 then d + [s[|s| - 1]] else Dest(s, d, m)
  }

  /** The source entry a destination entry `k` is copied from. */
  function Origin(t0: Tree, s: Key, d: Key, k: Key): Key
    requires d <= k
  {
    if IsFileIn(t0, s) then s else Src(s, d, k)
  }

  // ---------------------------------------------------------------------
  // What the walk guarantees.

  /** Outside the destination nothing is lost or changed; the only new entries there are directories above it. */
  ghost predicate KeepsOutside(t0: Tree, t: Tree, d: Key) {
    && (forall k :: k in t0 && !(d <= k) ==> k in t && t[k] == t0[k])
    && (forall k :: k in t && k !in t0 && !(d <= k) ==> t[k] == Dir && k < d)
  }

  /**
   * Below the destination an entry that changed is a directory, or a
   * regular file holding a prefix of the regular file it is copied from.
   */
  ghost predicate DestFromSource(t0: Tree, t: Tree, s: Key, d: Key) {
    forall k :: k in t && d <= k && !(k in t0 && t[k] == t0[k]) ==>
      || t[k] == Dir
      || (t[k].File? && IsFileIn(t0, Origin(t0, s, d, k)) && t[k].data <= t0[Origin(t0, s, d, k)].data)
  }

  /** An entry below the destination disappears only where a regular file is copied onto it. */
  ghost predicate DestLostToCopies(t0: Tree, t: Tree, s: Key, d: Key) {
    forall k :: k in t0 && k !in t && d <= k ==> IsFileIn(t0, Origin(t0, s, d, k))
  }

  /**
   * Every logged copy holds a prefix of its source file: the whole file
   * unless a read of that file failed.
   */
  ghost predicate CopiesHold(t0: Tree, t: Tree, s: Key, d: Key, readErrorAt: map<Key, nat>, copied: seq<Key>) {
    forall i :: 0 <= i < |copied| ==>
      var m := copied[i];
      && s <= m && IsFileIn(t0, m) && FileDest(s, d, m) in t && t[FileDest(s, d, m)].File?
      && t[FileDest(s, d, m)].data <= t0[m].data
      && (m !in readErrorAt ==> t[FileDest(s, d, m)].data == t0[m].data)
  }

  /** What the walk of `copyFileOrDirectory` guarantees, `copied` being the files it logged. */
  ghost predicate CopySafe(t0: Tree, t: Tree, s: Key, d: Key, readErrorAt: map<Key, nat>, copied: seq<Key>) {
    && KeepsOutside(t0, t, d) && DestFromSource(t0, t, s, d) && DestLostToCopies(t0, t, s, d)
    && CopiesHold(t0, t, s, d, readErrorAt, copied)
  }

  /** With disjoint paths, the copy leaves its source exactly as it was. */
  lemma SourceUntouched(t0: Tree, t: Tree, s: Key, d: Key, readErrorAt: map<Key, nat>, copied: seq<Key>, k: Key)
    requires Disjoint(s, d) && CopySafe(t0, t, s, d, readErrorAt, copied) && s <= k
    ensures (k in t <==> k in t0) && (k in t ==> t[k] == t0[k])
  {
    assert !(d <= k);
  }

  // ---------------------------------------------------------------------
  // One step of the walk on the tree.

  /** Creating the top destination directory keeps the guarantee with nothing copied. */
  lemma CopyStart(t0: Tree, s: Key, toPath: string, readErrorAt: map<Key, nat>)
    requires StartsWith(toPath, ROOT_PATH)
    ensures CopySafe(t0, MkdirChain(t0, Comps(ROOT_PATH), Comps(StripRoot(toPath))), s, Comps(toPath), readErrorAt, [])
  {
    var b, cs, d := Comps(ROOT_PATH), Comps(StripRoot(toPath)), Comps(toPath);
    var t1 := MkdirChain(t0, b, cs);
    RootSplit(toPath);
    forall k | k in t1 || k in t0
      ensures k in t0 ==> k in t1 && t1[k] == t0[k]
      ensures k in t1 && k !in t0 ==> t1[k] == Dir && k <= d
    {
      MkdirChainGrows(t0, b, cs, k);
      if k in t1 && k !in t0 {
        var i :| 1 <= i <= |cs| && k == b + cs[..i];
        assert (b + cs)[..|b| + i] == k;
      }
    }
    assert KeepsOutside(t0, t1, d) by {
      forall k | k in t1 && k !in t0 && !(d <= k) ensures t1[k] == Dir && k < d { }
    }
  }

  /**
   * What one `copySingleFile`, after the `createDirectory` of the
   * destination's parent, does to the tree: only `x` changes, apart from
   * new directories above it, and a changed `x` holds a prefix of `src`.
   */
  ghost predicate StepDelta(t: Tree, t': Tree, x: Key, src: Key) {
    && (forall k :: k in t && k != x ==> k in t' && t'[k] == t[k])
    && (forall k :: k in t' && k !in t && k != x ==> t'[k] == Dir && k < x)
    && (x in t' && !(x in t && t'[x] == t[x]) ==> IsFileIn(t, src) && t'[x].File? && t'[x].data <= t[src].data)
  }

  /** The file branch of the walk, as one tree step. */
  function FileCopy(t: Tree, locked: set<Key>, unreadable: set<Key>, flakyOpens: map<Key, nat>,
                    readErrorAt: map<Key, nat>, writeErrorAt: map<Key, nat>, abort: bool,
                    fromFile: string, toFile: string): (Tree, Outcome)
  {
    SingleCopy(MkdirChain(t, Comps(ROOT_PATH), ParentChain(toFile)), locked, unreadable, flakyOpens,
               readErrorAt, writeErrorAt, abort, fromFile, toFile)
  }

  lemma FileCopyDelta(t: Tree, locked: set<Key>, unreadable: set<Key>, flakyOpens: map<Key, nat>,
                      readErrorAt: map<Key, nat>, writeErrorAt: map<Key, nat>, abort: bool,
                      fromFile: string, toFile: string)
    requires StartsWith(toFile, ROOT_PATH) && !EndsWithSlash(toFile) && Comps(fromFile) != Comps(toFile)
    requires IsFileIn(t, Comps(fromFile))
    ensures StepDelta(t, FileCopy(t, locked, unreadable, flakyOpens, readErrorAt, writeErrorAt, abort, fromFile, toFile).0,
                      Comps(toFile), Comps(fromFile))
  {
    var x, f := Comps(toFile), Comps(fromFile);
    var tA := MkdirChain(t, Comps(ROOT_PATH), ParentChain(toFile));
    var t' := FileCopy(t, locked, unreadable, flakyOpens, readErrorAt, writeErrorAt, abort, fromFile, toFile).0;
    forall k | k != x && (k in t || k in t')
      ensures k in t ==> k in t' && t'[k] == t[k]
      ensures k in t' && k !in t ==> t'[k] == Dir && k < x
    {
      ParentChainShape(t, toFile, k);
      SingleCopyOthers(tA, locked, unreadable, flakyOpens, readErrorAt, writeErrorAt, abort, fromFile, toFile, k);
    }
    ParentChainShape(t, toFile, x);
    ParentChainShape(t, toFile, f);
    SingleCopyDest(tA, locked, unreadable, flakyOpens, readErrorAt, writeErrorAt, abort, fromFile, toFile);
  }

  /** A copy step from a source file onto its own destination keeps the guarantee. */
  lemma FileStep(t0: Tree, t: Tree, t': Tree, s: Key, d: Key, readErrorAt: map<Key, nat>, copied: seq<Key>, m: Key)
    requires Disjoint(s, d) && s <= m && IsFileIn(t0, m) && CopySafe(t0, t, s, d, readErrorAt, copied)
    requires m == s || s < m
    requires Origin(t0, s, d, FileDest(s, d, m)) == m && d <= FileDest(s, d, m)
    requires forall i :: 0 <= i < |copied| ==> FileDest(s, d, copied[i]) != FileDest(s, d, m)
    requires StepDelta(t, t', FileDest(s, d, m), m)
    ensures CopySafe(t0, t', s, d, readErrorAt, copied)
  {
    var x := FileDest(s, d, m);
    SourceUntouched(t0, t, s, d, readErrorAt, copied, m);
    assert KeepsOutside(t0, t', d) by {
      forall k | k in t' && k !in t0 && !(d <= k) ensures t'[k] == Dir && k < d {
        if k !in t {
          assert k < x;
        }
      }
    }
    assert DestFromSource(t0, t', s, d) by {
      forall k | k in t' && d <= k && !(k in t0 && t'[k] == t0[k])
        ensures || t'[k] == Dir
                || (t'[k].File? && IsFileIn(t0, Origin(t0, s, d, k)) && t'[k].data <= t0[Origin(t0, s, d, k)].data)
      {
        if k == x && !(x in t && t'[x] == t[x]) {
          assert t[m] == t0[m];
        }
      }
    }
  }

  /** A copy that `copySingleFile` reports complete is added to the logged copies. */
  lemma FileStepLogged(t0: Tree, t: Tree, s: Key, d: Key, readErrorAt: map<Key, nat>, copied: seq<Key>, m: Key)
    requires s <= m && IsFileIn(t0, m) && CopiesHold(t0, t, s, d, readErrorAt, copied)
    requires FileDest(s, d, m) in t && t[FileDest(s, d, m)].File? && t[FileDest(s, d, m)].data <= t0[m].data
    requires m !in readErrorAt ==> t[FileDest(s, d, m)].data == t0[m].data
    ensures CopiesHold(t0, t, s, d, readErrorAt, copied + [m])
  {
    forall i | 0 <= i < |copied| + 1 ensures (copied + [m])[i] == if i < |copied| then copied[i] else m { }
  }

  // ---------------------------------------------------------------------
  // The queue of (source, destination) pairs.

  /** The pairs the listing `es` of `job`'s directory appends to the queue, in listing order. */
  function ChildJobs(job: Job, es: seq<Entry>): (r: seq<Job>)
    ensures |r| == |es|
  {
    seq(|es|, i requires 0 <= i < |es| => Job(job.src + "/" + es[i].name, job.dst + "/" + es[i].name))
  }

  /** The inner `readdir` loop: one pair per entry, joined onto both paths of `job`. */
  method PushEntries(directories: seq<Job>, job: Job, es: seq<Entry>) returns (r: seq<Job>)
    ensures r == directories + ChildJobs(job, es)
  {
    r := directories;
    var i := 0;
    while i < |es|
      invariant i <= |es| && r == directories + ChildJobs(job, es)[..i]
    {
      assert ChildJobs(job, es)[..i + 1] == ChildJobs(job, es)[..i] + [ChildJobs(job, es)[i]];
      r := r + [Job(job.src + "/" + es[i].name, job.dst + "/" + es[i].name)];
      i := i + 1;
    }
  }

  /**
   * The shape of the queue: `ks` are the source keys of the queued pairs,
   * the first being the source itself and every later one a distinct key
   * strictly below it with a destination joined without a trailing '/'.
   * When the source is a regular file nothing else is ever queued.
   */
  ghost predicate QueueShape(t0: Tree, s: Key, d: Key, jobs: seq<Job>, ks: seq<Key>) {
    && Disjoint(s, d) && JobsName(s, d, jobs, ks) && |ks| > 0 && ks[0] == s && Distinct(ks)
    && EndsWithSlash(jobs[0].dst)
    && (forall i :: 0 <= i < |ks| ==> StartsWith(jobs[i].dst, ROOT_PATH))
    && (forall i :: 0 < i < |ks| ==> s < ks[i] && ks[i] in t0 && !EndsWithSlash(jobs[i].dst))
    && (IsFileIn(t0, s) ==> |ks| == 1)
  }

  /**
   * How far the walk is: the first `idx` keys have been taken and are
   * exactly the keys in `taken`, every queued key but the first is a child
   * of a taken one (so none is queued twice), and the copied files are
   * among the taken keys.
   */
  ghost predicate QueueTaken(ks: seq<Key>, idx: nat, taken: set<Key>, copied: seq<Key>) {
    && idx <= |ks|
    && (forall i :: 0 < i < |ks| ==> |ks[i]| > 0 && Parent(ks[i]) in taken)
    && (forall i :: 0 <= i < |ks| ==> (ks[i] in taken <==> i < idx))
    && (forall k :: k in taken ==> k in ks)
    && (forall i :: 0 <= i < |copied| ==> copied[i] in taken)
  }

  ghost predicate QueueBook(t0: Tree, s: Key, d: Key, jobs: seq<Job>, ks: seq<Key>, idx: nat,
                            taken: set<Key>, copied: seq<Key>) {
    QueueShape(t0, s, d, jobs, ks) && QueueTaken(ks, idx, taken, copied)
  }

  /** How many keys of the source tree the walk has not yet taken. */
  ghost function Left(t0: Tree, s: Key, taken: set<Key>): nat {
    |(Subtree(t0, s) + {s}) - taken|
  }

  lemma QueueStart(t0: Tree, fromPath: string, toPath: string)
    requires Disjoint(Comps(fromPath), Comps(toPath)) && EndsWithSlash(toPath) && StartsWith(toPath, ROOT_PATH)
    ensures QueueBook(t0, Comps(fromPath), Comps(toPath), [Job(fromPath, toPath)], [Comps(fromPath)], 0, {}, [])
  {
    var s, d := Comps(fromPath), Comps(toPath);
    assert Dest(s, d, s) == d by { assert s[|s|..] == []; }
  }

  /** Taking the next pair marks its key taken, and fewer keys are left. */
  lemma TakeBook(t0: Tree, s: Key, d: Key, jobs: seq<Job>, ks: seq<Key>, idx: nat, taken: set<Key>, copied: seq<Key>)
    requires QueueBook(t0, s, d, jobs, ks, idx, taken, copied) && idx < |ks|
    ensures ks[idx] !in taken
    ensures QueueBook(t0, s, d, jobs, ks, idx + 1, taken + {ks[idx]}, copied)
    ensures Left(t0, s, taken + {ks[idx]}) < Left(t0, s, taken)
  {
    TakeTaken(ks, idx, taken, copied);
    var k := ks[idx];
    assert k in Subtree(t0, s) + {s} by {
      if idx > 0 { assert k in t0 && s <= k; }
    }
    LeftDrops(t0, s, k, taken);
  }

  lemma LeftDrops(t0: Tree, s: Key, k: Key, taken: set<Key>)
    requires k in Subtree(t0, s) + {s} && k !in taken
    ensures Left(t0, s, taken + {k}) < Left(t0, s, taken)
  {
    var A := Subtree(t0, s) + {s};
    assert A - taken == (A - (taken + {k})) + {k};
  }

  lemma TakeTaken(ks: seq<Key>, idx: nat, taken: set<Key>, copied: seq<Key>)
    requires QueueTaken(ks, idx, taken, copied) && Distinct(ks) && idx < |ks|
    ensures ks[idx] !in taken
    ensures QueueTaken(ks, idx + 1, taken + {ks[idx]}, copied)
  {
    forall i | 0 <= i < |ks| ensures ks[i] in taken + {ks[idx]} <==> i < idx + 1 {
      if i != idx { assert ks[i] != ks[idx]; }
    }
  }

  /** A copied file is recorded. */
  lemma CopiedBook(ks: seq<Key>, idx: nat, taken: set<Key>, copied: seq<Key>, k: Key)
    requires QueueTaken(ks, idx, taken, copied) && k in taken
    ensures QueueTaken(ks, idx, taken, copied + [k])
  {
    assert forall i :: 0 <= i < |copied| ==> (copied + [k])[i] == copied[i];
  }

  /** The pairs a listing queues name the children of the listed key, and their destinations. */
  lemma ChildJobsNamed(s: Key, d: Key, job: Job, k: Key, es: seq<Entry>)
    requires s <= k && Comps(job.src) == k && Comps(job.dst) == Dest(s, d, k)
    requires forall i :: 0 <= i < |es| ==> IsName(es[i].name)
    ensures JobsName(s, d, ChildJobs(job, es), Delete.ChildKeySeq(k, es))
    ensures forall i :: 0 <= i < |es| ==> !EndsWithSlash(ChildJobs(job, es)[i].dst)
    ensures StartsWith(job.dst, ROOT_PATH) ==> forall i :: 0 <= i < |es| ==> StartsWith(ChildJobs(job, es)[i].dst, ROOT_PATH)
  {
    forall i | 0 <= i < |es|
      ensures var c := Delete.ChildKeySeq(k, es)[i];
        s <= c && Comps(ChildJobs(job, es)[i].src) == c && Comps(ChildJobs(job, es)[i].dst) == Dest(s, d, c)
      ensures !EndsWithSlash(ChildJobs(job, es)[i].dst)
      ensures StartsWith(job.dst, ROOT_PATH) ==> StartsWith(ChildJobs(job, es)[i].dst, ROOT_PATH)
    {
      var n := es[i].name;
      CompsChild(job.src, n);
      CompsChild(job.dst, n);
      DestChild(s, d, k, n);
      var p := job.dst + "/" + n;
      assert p[|p| - 1] == n[|n| - 1];
      assert |ROOT_PATH| <= |job.dst| ==> p[..|ROOT_PATH|] == job.dst[..|ROOT_PATH|];
    }
  }

  /** Appending two queues that name two key sequences. */
  lemma JobsNameAppend(s: Key, d: Key, a: seq<Job>, ka: seq<Key>, b: seq<Job>, kb: seq<Key>)
    requires JobsName(s, d, a, ka) && JobsName(s, d, b, kb)
    ensures JobsName(s, d, a + b, ka + kb)
  {
    var ab, kab := a + b, ka + kb;
    forall i | 0 <= i < |kab|
      ensures s <= kab[i] && Comps(ab[i].src) == kab[i] && Comps(ab[i].dst) == Dest(s, d, kab[i])
    {
      if i < |ka| {
        assert ab[i] == a[i] && kab[i] == ka[i];
      } else {
        assert ab[i] == b[i - |a|] && kab[i] == kb[i - |ka|];
      }
    }
  }

  /** The children of the key just taken are queued for the first time. */
  lemma ChildrenFresh(t0: Tree, s: Key, d: Key, jobs: seq<Job>, ks: seq<Key>, idx: nat, taken: set<Key>,
                      copied: seq<Key>, es: seq<Entry>)
    requires QueueBook(t0, s, d, jobs, ks, idx, taken, copied) && idx < |ks| && ks[idx] !in taken
    requires DistinctNames(es)
    ensures Distinct(ks + Delete.ChildKeySeq(ks[idx], es))
    ensures forall c :: c in Delete.ChildKeySeq(ks[idx], es) ==> c !in taken + {ks[idx]}
  {
    var k := ks[idx];
    var C := Delete.ChildKeySeq(k, es);
    forall j | 0 <= j < |C| ensures C[j] !in ks && C[j] != k && |C[j]| > |s| && Parent(C[j]) == k {
      assert C[j] == k + [es[j].name];
      assert Parent(C[j]) == k;
    }
    forall i, j | 0 <= i < j < |ks| + |C| ensures (ks + C)[i] != (ks + C)[j] {
      if j >= |ks| && i >= |ks| {
        assert C[i - |ks|] == k + [es[i - |ks|].name] && C[j - |ks|] == k + [es[j - |ks|].name];
      } else if j >= |ks| {
        assert (ks + C)[i] in ks;
      }
    }
  }

  /** The children queued by a listing of `k`: below the source, in the source tree, with `k` as parent. */
  lemma ChildrenShape(t0: Tree, t: Tree, s: Key, d: Key, r: map<Key, nat>, copied: seq<Key>, k: Key, es: seq<Entry>)
    requires Disjoint(s, d) && CopySafe(t0, t, s, d, r, copied) && s <= k && IsListing(t, k, es)
    ensures forall c :: c in Delete.ChildKeySeq(k, es) ==> s < c && c in t0 && |c| > 0 && Parent(c) == k
  {
    forall j | 0 <= j < |es| ensures var c := Delete.ChildKeySeq(k, es)[j]; s < c && c in t0 && Parent(c) == k {
      var c := k + [es[j].name];
      assert Parent(c) == k;
      SourceUntouched(t0, t, s, d, r, copied, c);
    }
  }

  /** The taken-keys bookkeeping after queueing the fresh children of the taken key `k`. */
  lemma ListTaken(ks: seq<Key>, idx: nat, taken: set<Key>, copied: seq<Key>, k: Key, C: seq<Key>)
    requires QueueTaken(ks, idx, taken, copied) && k in taken && idx <= |ks|
    requires forall c :: c in C ==> |c| > 0 && Parent(c) == k && c !in taken
    ensures QueueTaken(ks + C, idx, taken, copied)
  {
    forall i | 0 <= i < |ks| + |C| ensures (ks + C)[i] == if i < |ks| then ks[i] else C[i - |ks|] { }
    forall i | |ks| <= i < |ks| + |C| ensures (ks + C)[i] in C { }
  }

  /** Listing the directory of the next pair takes its key and queues its children. */
  lemma ListBook(t0: Tree, t: Tree, s: Key, d: Key, r: map<Key, nat>, jobs: seq<Job>, ks: seq<Key>, idx: nat,
                 taken: set<Key>, copied: seq<Key>, es: seq<Entry>)
    requires QueueBook(t0, s, d, jobs, ks, idx, taken, copied) && idx < |ks| && CopySafe(t0, t, s, d, r, copied)
    requires IsListing(t, ks[idx], es) && IsDirIn(t, ks[idx])
    ensures QueueBook(t0, s, d, jobs + ChildJobs(jobs[idx], es), ks + Delete.ChildKeySeq(ks[idx], es), idx + 1,
                      taken + {ks[idx]}, copied)
  {
    var k := ks[idx];
    TakeBook(t0, s, d, jobs, ks, idx, taken, copied);
    ChildrenFresh(t0, s, d, jobs, ks, idx, taken, copied, es);
    ChildrenShape(t0, t, s, d, r, copied, k, es);
    ListShape(t0, t, s, d, r, jobs, ks, idx, copied, es);
    ListTaken(ks, idx + 1, taken + {k}, copied, k, Delete.ChildKeySeq(k, es));
  }

  /** The queue keeps its shape when the children of a listed directory are appended. */
  lemma ListShape(t0: Tree, t: Tree, s: Key, d: Key, r: map<Key, nat>, jobs: seq<Job>, ks: seq<Key>, idx: nat,
                  copied: seq<Key>, es: seq<Entry>)
    requires QueueShape(t0, s, d, jobs, ks) && idx < |ks| && CopySafe(t0, t, s, d, r, copied)
    requires IsListing(t, ks[idx], es) && IsDirIn(t, ks[idx])
    requires Distinct(ks + Delete.ChildKeySeq(ks[idx], es))
    requires forall c :: c in Delete.ChildKeySeq(ks[idx], es) ==> s < c && c in t0
    ensures QueueShape(t0, s, d, jobs + ChildJobs(jobs[idx], es), ks + Delete.ChildKeySeq(ks[idx], es))
  {
    var k, job := ks[idx], jobs[idx];
    var C, J := Delete.ChildKeySeq(k, es), ChildJobs(job, es);
    SourceUntouched(t0, t, s, d, r, copied, k);
    ChildJobsNamed(s, d, job, k, es);
    AppendJobs(s, d, jobs, ks, J, C);
    forall i | 0 < i < |ks| + |C| ensures s < (ks + C)[i] && (ks + C)[i] in t0 {
      if i >= |ks| {
        assert (ks + C)[i] == C[i - |ks|];
      }
    }
  }

  /** Appending queued pairs whose destinations are under the root and end without '/'. */
  lemma AppendJobs(s: Key, d: Key, jobs: seq<Job>, ks: seq<Key>, J: seq<Job>, C: seq<Key>)
    requires JobsName(s, d, jobs, ks) && JobsName(s, d, J, C) && |ks| > 0
    requires forall i :: 0 <= i < |ks| ==> StartsWith(jobs[i].dst, ROOT_PATH)
    requires forall i :: 0 < i < |ks| ==> !EndsWithSlash(jobs[i].dst)
    requires forall i :: 0 <= i < |C| ==> StartsWith(J[i].dst, ROOT_PATH) && !EndsWithSlash(J[i].dst)
    ensures JobsName(s, d, jobs + J, ks + C) && (jobs + J)[0] == jobs[0]
    ensures forall i :: 0 <= i < |ks| + |C| ==> StartsWith((jobs + J)[i].dst, ROOT_PATH)
    ensures forall i :: 0 < i < |ks| + |C| ==> !EndsWithSlash((jobs + J)[i].dst)
  {
    JobsNameAppend(s, d, jobs, ks, J, C);
    forall i | 0 <= i < |ks| + |C| ensures (jobs + J)[i] == if i < |ks| then jobs[i] else J[i - |ks|] { }
  }

  // ---------------------------------------------------------------------
  // The file branch of the walk.

  /** The path the walk copies the key `k` of the pair `job` to: `k`'s place under the destination. */
  lemma FileTarget(s: Key, d: Key, job: Job, k: Key, first: bool)
    requires Disjoint(s, d) && s <= k && |k| > 0 && Comps(job.src) == k && Comps(job.dst) == Dest(s, d, k)
    requires StartsWith(job.dst, ROOT_PATH)
    requires first ==> k == s && EndsWithSlash(job.dst)
    requires !first ==> s < k && !EndsWithSlash(job.dst)
    ensures var toFile := GetParentDirFromPath(job.dst) + "/" + GetNameFromPath(job.src);
      && Comps(toFile) == FileDest(s, d, k) && d <= FileDest(s, d, k)
      && StartsWith(toFile, ROOT_PATH) && !EndsWithSlash(toFile) && Comps(job.src) != Comps(toFile)
  {
    TargetComps(s, d, job, k, first);
    TargetPath(job.dst, GetNameFromPath(job.src));
  }

  lemma TargetComps(s: Key, d: Key, job: Job, k: Key, first: bool)
    requires s <= k && |k| > 0 && Comps(job.src) == k && Comps(job.dst) == Dest(s, d, k)
    requires first ==> k == s && EndsWithSlash(job.dst)
    requires !first ==> s < k && !EndsWithSlash(job.dst)
    ensures Comps(GetParentDirFromPath(job.dst) + "/" + GetNameFromPath(job.src)) == FileDest(s, d, k)
  {
    var n := GetNameFromPath(job.src);
    assert IsName(n) && n == k[|k| - 1];
    CompsChild(GetParentDirFromPath(job.dst), n);
    if first {
      TargetCompsTop(s, d, job.dst, n);
    } else {
      TargetCompsBelow(s, d, job.dst, k);
    }
  }

  /** The top-level file goes inside the destination directory itself. */
  lemma TargetCompsTop(s: Key, d: Key, dst: string, n: string)
    requires |s| > 0 && n == s[|s| - 1] && Comps(dst) == Dest(s, d, s) && EndsWithSlash(dst)
    ensures Comps(GetParentDirFromPath(dst)) + [n] == FileDest(s, d, s)
  {
    assert SegStart(dst) == |dst|;
    assert GetParentDirFromPath(dst) == dst;
    assert s[|s|..] == [];
    assert Dest(s, d, s) == d;
  }

  /** A file below the source goes into the parent of its pair's destination, under its own name. */
  lemma TargetCompsBelow(s: Key, d: Key, dst: string, k: Key)
    requires s < k && Comps(dst) == Dest(s, d, k) && !EndsWithSlash(dst)
    ensures Comps(GetParentDirFromPath(dst)) + [k[|k| - 1]] == FileDest(s, d, k)
  {
    var x := Dest(s, d, k);
    assert |x| > 0 && x[|x| - 1] == k[|k| - 1];
    ParentAndFileName(dst);
    assert Comps(GetParentDirFromPath(dst)) == x[..|x| - 1];
    assert x[..|x| - 1] + [x[|x| - 1]] == x;
  }

  lemma TargetPath(dst: string, n: string)
    requires StartsWith(dst, ROOT_PATH) && IsName(n)
    ensures var toFile := GetParentDirFromPath(dst) + "/" + n;
      StartsWith(toFile, ROOT_PATH) && !EndsWithSlash(toFile)
  {
    var parent := GetParentDirFromPath(dst);
    var toFile := parent + "/" + n;
    assert dst[5] == '/' by { assert dst[..6] == ROOT_PATH; }
    assert toFile[..6] == ROOT_PATH by { assert |parent| >= 6 && parent[..6] == dst[..6]; }
    assert toFile[|toFile| - 1] == n[|n| - 1];
  }

  /**
   * The taken key is a regular file of the source tree that no earlier copy
   * went to, and it is where its destination is copied from.
   */
  lemma FileFresh(t0: Tree, t: Tree, s: Key, d: Key, r: map<Key, nat>, jobs: seq<Job>, ks: seq<Key>, idx: nat,
                  taken: set<Key>, copied: seq<Key>)
    requires QueueBook(t0, s, d, jobs, ks, idx, taken, copied) && idx < |ks| && ks[idx] !in taken
    requires CopySafe(t0, t, s, d, r, copied) && IsFileIn(t, ks[idx]) && |ks[idx]| > 0
    ensures IsFileIn(t0, ks[idx]) && t0[ks[idx]] == t[ks[idx]] && (ks[idx] == s || s < ks[idx])
    ensures d <= FileDest(s, d, ks[idx]) && Origin(t0, s, d, FileDest(s, d, ks[idx])) == ks[idx]
    ensures forall i :: 0 <= i < |copied| ==> s <= copied[i] && FileDest(s, d, copied[i]) != FileDest(s, d, ks[idx])
  {
    var k := ks[idx];
    SourceUntouched(t0, t, s, d, r, copied, k);
    SrcOfDest(s, d, k);
    if idx == 0 {
      assert taken == {};
    } else {
      assert k != s && !IsFileIn(t0, s);
      forall i | 0 <= i < |copied| ensures FileDest(s, d, copied[i]) != FileDest(s, d, k) {
        var c := copied[i];
        assert c in taken && c != k && IsFileIn(t0, c);
        SrcOfDest(s, d, c);
      }
    }
  }

  /** What one file pair does: the copy keeps the guarantee and, when it completes, is recorded. */
  lemma FilePass(t0: Tree, t: Tree, t': Tree, o: Outcome, s: Key, d: Key, r: map<Key, nat>, jobs: seq<Job>,
                 ks: seq<Key>, idx: nat, taken: set<Key>, copied: seq<Key>,
                 locked: set<Key>, unreadable: set<Key>, flakyOpens: map<Key, nat>, writeErrorAt: map<Key, nat>,
                 abort: bool, toFile: string)
    requires QueueBook(t0, s, d, jobs, ks, idx, taken, copied) && idx < |ks| && CopySafe(t0, t, s, d, r, copied)
    requires IsFileIn(t, ks[idx]) && |ks[idx]| > 0
    requires toFile == GetParentDirFromPath(jobs[idx].dst) + "/" + GetNameFromPath(jobs[idx].src)
    requires (t', o) == FileCopy(t, locked, unreadable, flakyOpens, r, writeErrorAt, abort, jobs[idx].src, toFile)
    ensures s <= ks[idx] && Comps(toFile) == FileDest(s, d, ks[idx]) && d <= FileDest(s, d, ks[idx])
    ensures StartsWith(toFile, ROOT_PATH) && !EndsWithSlash(toFile)
    ensures IsFileIn(t0, ks[idx]) && t0[ks[idx]] == t[ks[idx]] && (ks[idx] == s || s < ks[idx])
    ensures StepDelta(t, t', FileDest(s, d, ks[idx]), ks[idx])
    ensures var copied' := if o.Copied? && o.p.Finished? then copied + [ks[idx]] else copied;
      QueueBook(t0, s, d, jobs, ks, idx + 1, taken + {ks[idx]}, copied') && CopySafe(t0, t', s, d, r, copied')
  {
    var k, src := ks[idx], jobs[idx].src;
    TakeBook(t0, s, d, jobs, ks, idx, taken, copied);
    FileTarget(s, d, jobs[idx], k, idx == 0);
    FileFresh(t0, t, s, d, r, jobs, ks, idx, taken, copied);
    FileCopyDelta(t, locked, unreadable, flakyOpens, r, writeErrorAt, abort, src, toFile);
    FileStep(t0, t, t', s, d, r, copied, k);
    if o.Copied? && o.p.Finished? {
      var tA := MkdirChain(t, Comps(ROOT_PATH), ParentChain(toFile));
      SingleCopyComplete(tA, locked, unreadable, flakyOpens, r, writeErrorAt, abort, src, toFile);
      ParentChainShape(t, toFile, k);
      FileStepLogged(t0, t', s, d, r, copied, k);
      CopiedBook(ks, idx + 1, taken + {k}, copied, k);
    }
  }

  // ---------------------------------------------------------------------
  // The fault-free walk copies every file.

  /** Nothing lies strictly below `d`. */
  ghost predicate NothingBelow(t: Tree, d: Key) {
    forall y :: y in t ==> !(d < y)
  }

  /**
   * The walk meets no fault: every entry at or below the source is
   * readable and opens within the retries, nothing at or below the
   * destination is locked or fails a write, and the destination has
   * nothing below it yet.
   */
  ghost predicate CopyClean(t0: Tree, locked: set<Key>, unreadable: set<Key>, flakyOpens: map<Key, nat>,
                            writeErrorAt: map<Key, nat>, s: Key, d: Key) {
    && (forall k :: k in t0 && s <= k ==> k !in unreadable && (k in flakyOpens ==> flakyOpens[k] <= MAX_RETRIES))
    && (forall k :: k in locked ==> !(d <= k))
    && (forall k :: k in writeErrorAt ==> !(d <= k))
    && NothingBelow(t0, d)
  }

  /** Every prefix of the destination key, from the volume root down, is a directory. */
  ghost predicate DirsAbove(t: Tree, d: Key) {
    forall i :: 1 <= i <= |d| ==> IsDirIn(t, d[..i])
  }

  /**
   * `createDirectory` can make the destination: the volume root is a
   * directory and every deeper prefix is absent or a directory.
   */
  ghost predicate DestOpen(t: Tree, d: Key) {
    && |d| > 0 && IsDirIn(t, d[..1])
    && forall i :: 1 < i <= |d| ==> d[..i] !in t || IsDirIn(t, d[..i])
  }

  /** Every regular file at or below the source is among the logged copies. */
  ghost predicate AllCopied(t0: Tree, s: Key, copied: seq<Key>) {
    forall k :: k in t0 && s <= k && IsFileIn(t0, k) ==> k in copied
  }

  /**
   * What the fault-free walk keeps: the destination's directories stand,
   * every directory below the destination stands for a source directory,
   * every child of a listed source directory has been queued, and every
   * taken regular file has been copied.
   */
  ghost predicate CopyReach(t0: Tree, t: Tree, s: Key, d: Key, ks: seq<Key>, taken: set<Key>, copied: seq<Key>) {
    DirsAbove(t, d) && DirsMirror(t0, t, s, d) && ChildrenQueued(t0, ks, taken) && FilesCopied(t0, taken, copied)
  }

  /** Every directory strictly below the destination stands for a directory of the source. */
  ghost predicate DirsMirror(t0: Tree, t: Tree, s: Key, d: Key) {
    forall y :: y in t && d < y && t[y].Dir? ==> IsDirIn(t0, Src(s, d, y))
  }

  /** Every child of a taken source directory is queued. */
  ghost predicate ChildrenQueued(t0: Tree, ks: seq<Key>, taken: set<Key>) {
    forall c :: c in t0 && |c| > 0 && Parent(c) in taken && IsDirIn(t0, Parent(c)) ==> c in ks
  }

  /** Every taken regular file has been copied. */
  ghost predicate FilesCopied(t0: Tree, taken: set<Key>, copied: seq<Key>) {
    forall k :: k in taken && IsFileIn(t0, k) ==> k in copied
  }

  /** `createDirectory` of a destination that can be made leaves its prefixes directories and nothing below it. */
  lemma ReachDest(t0: Tree, toPath: string)
    requires StartsWith(toPath, ROOT_PATH) && DestOpen(t0, Comps(toPath)) && NothingBelow(t0, Comps(toPath))
    ensures var t1 := MkdirChain(t0, Comps(ROOT_PATH), Comps(StripRoot(toPath)));
      DirsAbove(t1, Comps(toPath)) && NothingBelow(t1, Comps(toPath))
  {
    var b, cs, d := Comps(ROOT_PATH), Comps(StripRoot(toPath)), Comps(toPath);
    var t1 := MkdirChain(t0, b, cs);
    RootSplit(toPath);
    RootKey();
    assert d[..1] == b;
    forall i | 1 <= i <= |cs| ensures b + cs[..i] == d[..1 + i] { }
    CreateDirectoryCreates(t0, toPath);
    forall i | 1 <= i <= |d| ensures IsDirIn(t1, d[..i]) {
      if i == 1 {
        MkdirChainGrows(t0, b, cs, b);
      } else {
        assert d[..i] == b + cs[..i - 1];
      }
    }
    forall y | y in t1 ensures !(d < y) {
      MkdirChainGrows(t0, b, cs, y);
      if y !in t0 {
        var i :| 1 <= i <= |cs| && y == b + cs[..i];
        assert y == d[..1 + i];
      }
    }
  }

  /** A key strictly between the destination and the copy of `k` stands for a strict ancestor of `k`. */
  lemma SrcAncestor(s: Key, d: Key, k: Key, y: Key)
    requires s < k && d < y < Dest(s, d, k)
    ensures Src(s, d, y) < k && |Src(s, d, y)| > |s|
  {
    var x := Dest(s, d, k);
    SrcOfDest(s, d, k);
    assert Src(s, d, y) == k[..|s| + |y| - |d|];
  }

  /** Two prefixes of one key: the shorter is a prefix of the longer. */
  lemma PrefixesOrdered(a: Key, b: Key, x: Key)
    requires a <= x && b <= x && |a| <= |b|
    ensures a <= b
  {
    assert a == x[..|a|] && b[..|a|] == x[..|a|];
  }

  /**
   * Where the walk copies a file to, every parent `createDirectory` makes
   * is absent or a directory: above the destination by the destination's
   * directories, below it because the only regular files there are copies
   * of regular files, never of a source file's ancestors.
   */
  lemma ChainOpen(t0: Tree, t: Tree, s: Key, d: Key, k: Key, b: Key, cs: seq<string>, n: string)
    requires WellFormed(t0) && Disjoint(s, d) && s <= k && IsFileIn(t0, k) && NothingBelow(t0, d)
    requires b + cs + [n] == FileDest(s, d, k) && d <= FileDest(s, d, k)
    requires DestFromSource(t0, t, s, d) && DirsAbove(t, d)
    ensures NoPrefixBlocked(t, b, cs)
  {
    var x := FileDest(s, d, k);
    assert s == k ==> |x| == |d| + 1;
    forall i | 1 <= i <= |cs| ensures b + cs[..i] !in t || IsDirIn(t, b + cs[..i]) {
      var y := b + cs[..i];
      PrefixBelow(b, cs, i, n);
      if |y| <= |d| {
        PrefixesOrdered(y, d, x);
        assert y == d[..|y|];
      } else if y in t {
        PrefixesOrdered(d, y, x);
        assert s != k && !(y in t0);
        NoOrphans(t0, s, k);
        SrcAncestor(s, d, k, y);
        NoOrphans(t0, Src(s, d, y), k);
      }
    }
  }

  /** The copy of `k` can be opened for writing once its parents are made. */
  lemma DestWritable(t0: Tree, t: Tree, tA: Tree, locked: set<Key>, s: Key, d: Key, k: Key, b: Key, cs: seq<string>, n: string)
    requires WellFormed(t0) && Disjoint(s, d) && s <= k && IsFileIn(t0, k) && NothingBelow(t0, d)
    requires b + cs + [n] == FileDest(s, d, k) && d <= FileDest(s, d, k) && |b| > 0 && IsDirIn(t, b)
    requires forall j :: j in locked ==> !(d <= j)
    requires DestFromSource(t0, t, s, d)
    requires DirsMirror(t0, t, s, d)
    requires tA == MkdirChain(t, b, cs) && AllPrefixesDirs(tA, b, cs)
    requires forall j :: j in tA && j !in t ==> j < FileDest(s, d, k)
    requires forall j :: j in t ==> j in tA && tA[j] == t[j]
    ensures WriteOpens(tA, locked, FileDest(s, d, k))
  {
    var x := FileDest(s, d, k);
    assert d < x;
    if x in t {
      assert !IsDirIn(t0, Src(s, d, x)) by {
        if k == s {
          assert Parent(Src(s, d, x)) == s;
        } else {
          SrcOfDest(s, d, k);
        }
      }
    } else {
      assert Parent(x) == b + cs;
      if cs == [] {
        assert b + cs == b;
      } else {
        assert cs[..|cs|] == cs;
      }
    }
  }

  /** Making the parents of a file's destination keeps every entry, adds only entries above it, and is done once. */
  lemma ChainShape(t: Tree, toFile: string)
    requires StartsWith(toFile, ROOT_PATH) && !EndsWithSlash(toFile)
    ensures var tA := MkdirChain(t, Comps(ROOT_PATH), ParentChain(toFile));
      && (forall j :: j in t ==> j in tA && tA[j] == t[j])
      && (forall j :: j in tA && j !in t ==> j < Comps(toFile))
      && MkdirChain(tA, Comps(ROOT_PATH), ParentChain(toFile)) == tA
  {
    var b, cs := Comps(ROOT_PATH), ParentChain(toFile);
    var tA := MkdirChain(t, b, cs);
    MkdirChainRerun(t, b, cs, |cs|);
    assert cs[..|cs|] == cs;
    forall j | j in tA || j in t
      ensures j in t ==> j in tA && tA[j] == t[j]
      ensures j in tA && j !in t ==> j < Comps(toFile)
    {
      ParentChainShape(t, toFile, j);
    }
  }

  /** Without a fault, the destination of a source file can be opened for writing once its parents are made. */
  lemma DestReady(t0: Tree, t: Tree, locked: set<Key>, s: Key, d: Key, k: Key, toFile: string)
    requires WellFormed(t0) && Disjoint(s, d) && s <= k && IsFileIn(t0, k) && NothingBelow(t0, d)
    requires forall j :: j in locked ==> !(d <= j)
    requires DestFromSource(t0, t, s, d) && DirsAbove(t, d)
    requires DirsMirror(t0, t, s, d)
    requires Comps(toFile) == FileDest(s, d, k) && d <= FileDest(s, d, k)
    requires StartsWith(toFile, ROOT_PATH) && !EndsWithSlash(toFile)
    ensures WriteOpens(MkdirChain(t, Comps(ROOT_PATH), ParentChain(toFile)), locked, Comps(toFile))
  {
    var b, cs, x, n := Comps(ROOT_PATH), ParentChain(toFile), Comps(toFile), GetFileName(toFile);
    ChainOfParent(toFile);
    RootKey();
    assert |d| > 0 && d[..1] == x[..1] == b;
    assert IsDirIn(t, d[..1]);
    ChainOpen(t0, t, s, d, k, b, cs, n);
    MkdirChainCreates(t, b, cs);
    ChainShape(t, toFile);
    DestWritable(t0, t, MkdirChain(t, b, cs), locked, s, d, k, b, cs, n);
  }

  /** Without a fault, copying one regular file of the source finishes. */
  lemma ReachCopies(t0: Tree, t: Tree, locked: set<Key>, unreadable: set<Key>, flakyOpens: map<Key, nat>,
                    r: map<Key, nat>, writeErrorAt: map<Key, nat>, s: Key, d: Key, k: Key,
                    fromFile: string, toFile: string)
    requires WellFormed(t0) && Disjoint(s, d) && s <= k && IsFileIn(t0, k) && k in t && t[k] == t0[k]
    requires CopyClean(t0, locked, unreadable, flakyOpens, writeErrorAt, s, d)
    requires DestFromSource(t0, t, s, d) && DirsAbove(t, d)
    requires DirsMirror(t0, t, s, d)
    requires Comps(fromFile) == k && Comps(toFile) == FileDest(s, d, k) && d <= FileDest(s, d, k)
    requires StartsWith(toFile, ROOT_PATH) && !EndsWithSlash(toFile)
    ensures var o := FileCopy(t, locked, unreadable, flakyOpens, r, writeErrorAt, false, fromFile, toFile).1;
      o.Copied? && o.p.Finished?
  {
    var tA := MkdirChain(t, Comps(ROOT_PATH), ParentChain(toFile));
    ChainShape(t, toFile);
    DestReady(t0, t, locked, s, d, k, toFile);
    SingleCopyFinishes(tA, locked, unreadable, flakyOpens, r, writeErrorAt, fromFile, toFile);
  }

  /** The walk starts fault-free with only the source queued. */
  lemma ReachStart(t0: Tree, t: Tree, s: Key, d: Key)
    requires DirsAbove(t, d) && NothingBelow(t, d)
    ensures CopyReach(t0, t, s, d, [s], {}, [])
  {
  }

  /** A completed file copy keeps the fault-free bookkeeping. */
  lemma ReachFile(t0: Tree, t: Tree, t': Tree, s: Key, d: Key, ks: seq<Key>, taken: set<Key>, copied: seq<Key>, k: Key)
    requires WellFormed(t0) && Disjoint(s, d) && s <= k && IsFileIn(t0, k)
    requires CopyReach(t0, t, s, d, ks, taken, copied)
    requires StepDelta(t, t', FileDest(s, d, k), k)
    ensures CopyReach(t0, t', s, d, ks, taken + {k}, copied + [k])
  {
    var x := FileDest(s, d, k);
    assert s == k ==> |x| == |d| + 1;
    assert s != k ==> s < k && |x| > |d|;
    forall y | y in t' && d < y && t'[y].Dir? ensures IsDirIn(t0, Src(s, d, y)) {
      if y !in t {
        assert y < x && s != k;
        SrcAncestor(s, d, k, y);
        NoOrphans(t0, Src(s, d, y), k);
      }
    }
    assert forall j :: j in copied ==> j in copied + [k];
    assert forall j :: j in ks ==> j in ks;
  }

  /** Without a fault, the file pass copies its file and keeps the fault-free bookkeeping. */
  lemma ReachFileStep(t0: Tree, t: Tree, t': Tree, o: Outcome, locked: set<Key>, unreadable: set<Key>,
                      flakyOpens: map<Key, nat>, r: map<Key, nat>, writeErrorAt: map<Key, nat>, s: Key, d: Key,
                      ks: seq<Key>, taken: set<Key>, copied: seq<Key>, k: Key, fromFile: string, toFile: string)
    requires WellFormed(t0) && CopyClean(t0, locked, unreadable, flakyOpens, writeErrorAt, s, d)
    requires CopyReach(t0, t, s, d, ks, taken, copied) && DestFromSource(t0, t, s, d)
    requires Disjoint(s, d) && s <= k && IsFileIn(t0, k) && k in t && t[k] == t0[k]
    requires Comps(fromFile) == k && Comps(toFile) == FileDest(s, d, k) && d <= FileDest(s, d, k)
    requires StartsWith(toFile, ROOT_PATH) && !EndsWithSlash(toFile)
    requires (t', o) == FileCopy(t, locked, unreadable, flakyOpens, r, writeErrorAt, false, fromFile, toFile)
    requires StepDelta(t, t', FileDest(s, d, k), k)
    ensures o.Copied? && o.p.Finished?
    ensures CopyReach(t0, t', s, d, ks, taken + {k}, copied + [k])
  {
    ReachCopies(t0, t, locked, unreadable, flakyOpens, r, writeErrorAt, s, d, k, fromFile, toFile);
    ReachFile(t0, t, t', s, d, ks, taken, copied, k);
  }

  /** Listing a directory of the source queues every child it has in the source tree. */
  lemma ReachList(t0: Tree, t: Tree, r: map<Key, nat>, s: Key, d: Key, ks: seq<Key>, taken: set<Key>,
                  copied: seq<Key>, k: Key, es: seq<Entry>)
    requires Disjoint(s, d) && s <= k && IsDirIn(t0, k) && CopySafe(t0, t, s, d, r, copied) && IsListing(t, k, es)
    requires CopyReach(t0, t, s, d, ks, taken, copied)
    ensures CopyReach(t0, t, s, d, ks + Delete.ChildKeySeq(k, es), taken + {k}, copied)
  {
    forall c | c in t0 && k <= c ensures c in t {
      SourceUntouched(t0, t, s, d, r, copied, c);
    }
    ListQueues(t0, t, ks, taken, k, es);
  }

  lemma ListQueues(t0: Tree, t: Tree, ks: seq<Key>, taken: set<Key>, k: Key, es: seq<Entry>)
    requires IsListing(t, k, es) && (forall c :: c in t0 && k <= c ==> c in t)
    requires ChildrenQueued(t0, ks, taken)
    ensures ChildrenQueued(t0, ks + Delete.ChildKeySeq(k, es), taken + {k})
  {
    var C := Delete.ChildKeySeq(k, es);
    Delete.ChildKeySeqKeys(k, es);
    forall c | c in t0 && |c| > 0 && Parent(c) in taken + {k} && IsDirIn(t0, Parent(c)) ensures c in ks + C {
      if Parent(c) == k {
        assert k <= c;
        assert c in ChildKeys(t, k);
        var i :| 0 <= i < |es| && C[i] == c;
        assert (ks + C)[|ks| + i] == c;
      } else {
        assert c in ks;
        var i :| 0 <= i < |ks| && ks[i] == c;
        assert (ks + C)[i] == c;
      }
    }
  }

  /** Taking a key that is neither a regular file nor a directory of the source keeps the bookkeeping. */
  lemma ReachSkip(t0: Tree, t: Tree, s: Key, d: Key, ks: seq<Key>, taken: set<Key>, copied: seq<Key>, k: Key)
    requires !IsDirIn(t0, k) && !IsFileIn(t0, k)
    requires CopyReach(t0, t, s, d, ks, taken, copied)
    ensures CopyReach(t0, t, s, d, ks, taken + {k}, copied)
  {
  }

  /** Once every queued key is taken, every regular file at or below the source has been copied. */
  lemma ReachEnd(t0: Tree, t: Tree, s: Key, d: Key, ks: seq<Key>, taken: set<Key>, copied: seq<Key>)
    requires WellFormed(t0) && |s| > 0 && |ks| > 0 && ks[0] == s
    requires forall i :: 0 <= i < |ks| ==> ks[i] in taken
    requires CopyReach(t0, t, s, d, ks, taken, copied)
    ensures AllCopied(t0, s, copied)
  {
    forall k | k in t0 && s <= k ensures k in taken {
      ReachedKey(t0, t, s, d, ks, taken, copied, k);
    }
  }

  lemma {:induction false} ReachedKey(t0: Tree, t: Tree, s: Key, d: Key, ks: seq<Key>, taken: set<Key>,
                                      copied: seq<Key>, k: Key)
    requires WellFormed(t0) && |s| > 0 && |ks| > 0 && ks[0] == s
    requires forall i :: 0 <= i < |ks| ==> ks[i] in taken
    requires CopyReach(t0, t, s, d, ks, taken, copied)
    requires k in t0 && s <= k
    ensures k in taken
    decreases |k|
  {
    if k != s {
      var p := Parent(k);
      assert |k| > 1 && s <= p;
      ReachedKey(t0, t, s, d, ks, taken, copied, p);
      var i :| 0 <= i < |ks| && ks[i] == k;
    } else {
      assert ks[0] in taken;
    }
  }

  /**
   * Every regular file at or below the source sits at its destination as
   * a regular file holding a prefix of its data, and all of it where no
   * read fails.
   */
  ghost predicate TreeCopied(t0: Tree, t: Tree, s: Key, d: Key, r: map<Key, nat>) {
    forall k :: k in t0 && s <= k && IsFileIn(t0, k) ==>
      && FileDest(s, d, k) in t && t[FileDest(s, d, k)].File? && t[FileDest(s, d, k)].data <= t0[k].data
      && (k !in r ==> t[FileDest(s, d, k)].data == t0[k].data)
  }

  /** A safe walk that logged every file leaves the whole source copied. */
  lemma CleanCopyAll(t0: Tree, t: Tree, s: Key, d: Key, r: map<Key, nat>, copied: seq<Key>)
    requires CopySafe(t0, t, s, d, r, copied) && AllCopied(t0, s, copied)
    ensures TreeCopied(t0, t, s, d, r)
  {
    forall k | k in t0 && s <= k && IsFileIn(t0, k)
      ensures FileDest(s, d, k) in t && t[FileDest(s, d, k)].File? && t[FileDest(s, d, k)].data <= t0[k].data
      ensures k !in r ==> t[FileDest(s, d, k)].data == t0[k].data
    {
      CleanCopyHolds(t0, t, s, d, r, copied, k);
    }
  }

  /**
   * With every file copied, each regular file at or below the source has a
   * copy holding a prefix of its bytes, all of them unless a read failed.
   */
  lemma CleanCopyHolds(t0: Tree, t: Tree, s: Key, d: Key, r: map<Key, nat>, copied: seq<Key>, k: Key)
    requires CopySafe(t0, t, s, d, r, copied) && AllCopied(t0, s, copied)
    requires k in t0 && s <= k && IsFileIn(t0, k)
    ensures FileDest(s, d, k) in t && t[FileDest(s, d, k)].File? && t[FileDest(s, d, k)].data <= t0[k].data
    ensures k !in r ==> t[FileDest(s, d, k)].data == t0[k].data
  {
    var i :| 0 <= i < |copied| && copied[i] == k;
  }

  // ---------------------------------------------------------------------
  // The logs of the walk.

  /** The lines a log gained name where the keys `ks` were copied to. */
  ghost predicate LogFileDests(before: seq<string>, after: seq<string>, s: Key, d: Key, ks: seq<Key>) {
    && |before| <= |after| && after[..|before|] == before && |after| - |before| == |ks|
    && forall i :: 0 <= i < |ks| ==> s <= ks[i] && Comps(after[|before| + i]) == FileDest(s, d, ks[i])
  }

  /** The source log names the copied files and the destination log their copies, in order. */
  ghost predicate CopyLogs(ls0: seq<string>, ld0: seq<string>, ls: seq<string>, ld: seq<string>,
                           hasS: bool, hasD: bool, s: Key, d: Key, copied: seq<Key>) {
    && (hasS ==> LogNames(ls0, ls, copied))
    && (hasD ==> LogFileDests(ld0, ld, s, d, copied))
  }

  lemma LogsStay(ls0: seq<string>, ld0: seq<string>, hasS: bool, hasD: bool, s: Key, d: Key)
    ensures CopyLogs(ls0, ld0, ls0, ld0, hasS, hasD, s, d, [])
  {
    assert ls0[|ls0|..] == [];
  }

  /** A completed copy adds its source to one log and its destination to the other. */
  lemma LogsPass(ls0: seq<string>, ld0: seq<string>, ls: seq<string>, ld: seq<string>, hasS: bool, hasD: bool,
                 s: Key, d: Key, copied: seq<Key>, k: Key, src: string, toFile: string, finished: bool,
                 ls': seq<string>, ld': seq<string>)
    requires CopyLogs(ls0, ld0, ls, ld, hasS, hasD, s, d, copied)
    requires s <= k && Comps(src) == k && Comps(toFile) == FileDest(s, d, k)
    requires hasS ==> ls' == ls + (if finished then [src] else [])
    requires hasD ==> ld' == ld + (if finished then [toFile] else [])
    ensures CopyLogs(ls0, ld0, ls', ld', hasS, hasD, s, d, if finished then copied + [k] else copied)
  {
    if finished {
      if hasS { LogNamesSnoc(ls0, ls, copied, src, k); }
      if hasD { assert (ld + [toFile])[..|ld0|] == ld[..|ld0|]; }
    } else {
      assert ls + [] == ls && ld + [] == ld;
    }
  }

  // ---------------------------------------------------------------------
  // The walk.

  /** Everything the walk keeps between two passes. */
  ghost predicate WalkState(t0: Tree, t: Tree, r: map<Key, nat>, s: Key, d: Key, jobs: seq<Job>, ks: seq<Key>,
                            idx: nat, taken: set<Key>, copied: seq<Key>, ls0: seq<string>, ld0: seq<string>,
                            ls: seq<string>, ld: seq<string>, hasS: bool, hasD: bool) {
    && QueueBook(t0, s, d, jobs, ks, idx, taken, copied) && CopySafe(t0, t, s, d, r, copied)
    && CopyLogs(ls0, ld0, ls, ld, hasS, hasD, s, d, copied)
  }

  /**
   * The file branch: the destination is the parent of the pair's
   * destination joined with the file's name; its parent is created, the
   * file is copied and, when the total is known, the progress published.
   */
  method CopyJobFile(fs: Volume, status: Status, job: Job, bytes: nat, totalSize: int, logSource: Log?, logDestination: Log?)
      returns (bytes': nat, ghost toFile: string, ghost o: Outcome)
    requires fs.Valid() && (logSource == null || logSource != logDestination)
    modifies fs, status, logSource, logDestination
    ensures fs.Valid() && status.abortFileOp == old(status.abortFileOp)
    ensures toFile == GetParentDirFromPath(job.dst) + "/" + GetNameFromPath(job.src)
    ensures (fs.nodes, o) == FileCopy(old(fs.nodes), fs.locked, fs.unreadable, fs.flakyOpens, fs.readErrorAt,
                                      fs.writeErrorAt, status.abortFileOp, job.src, toFile)
    ensures bytes' == bytes + (if o.Copied? then o.p.bytes else 0)
    ensures totalSize > 0 ==> status.copyPercentage == Percent(bytes', totalSize)
    ensures logSource != null ==> logSource.lines == old(logSource.lines) + (if o.Copied? && o.p.Finished? then [job.src] else [])
    ensures logDestination != null ==>
      logDestination.lines == old(logDestination.lines) + (if o.Copied? && o.p.Finished? then [toFile] else [])
  {
    var filename := GetNameFromPath(job.src);
    var toFilePath := GetParentDirFromPath(job.dst) + "/" + filename;
    toFile := toFilePath;
    CreateDirectory(fs, GetParentDirFromPath(toFilePath));
    bytes', o := CopySingleFile(fs, status, job.src, toFilePath, bytes, totalSize, logSource, logDestination);
    if totalSize > 0 {
      status.copyPercentage := Percent(bytes', totalSize);
    }
  }

  /** The file branch of one pass, with what it keeps of the walk's bookkeeping. */
  method CopyFilePass(fs: Volume, status: Status, jobs: seq<Job>, idx: nat, bytes: nat, totalSize: int,
                      logSource: Log?, logDestination: Log?,
                      ghost t0: Tree, ghost s: Key, ghost d: Key, ghost ks: seq<Key>, ghost taken: set<Key>,
                      ghost copied: seq<Key>, ghost ls0: seq<string>, ghost ld0: seq<string>, ghost clean: bool)
      returns (bytes': nat, ghost copied': seq<Key>)
    requires fs.Valid() && (logSource == null || logSource != logDestination)
    requires QueueBook(t0, s, d, jobs, ks, idx, taken, copied) && idx < |ks| && IsFileIn(fs.nodes, ks[idx])
    requires CopySafe(t0, fs.nodes, s, d, fs.readErrorAt, copied)
    requires CopyLogs(ls0, ld0, Lines(logSource), Lines(logDestination), logSource != null, logDestination != null,
                      s, d, copied)
    requires clean ==> WellFormed(t0) && CopyClean(t0, fs.locked, fs.unreadable, fs.flakyOpens, fs.writeErrorAt, s, d)
    requires clean ==> !status.abortFileOp && CopyReach(t0, fs.nodes, s, d, ks, taken, copied)
    modifies fs, status, logSource, logDestination
    ensures fs.Valid() && status.abortFileOp == old(status.abortFileOp) && bytes' >= bytes
    ensures QueueBook(t0, s, d, jobs, ks, idx + 1, taken + {ks[idx]}, copied')
    ensures CopySafe(t0, fs.nodes, s, d, fs.readErrorAt, copied')
    ensures CopyLogs(ls0, ld0, Lines(logSource), Lines(logDestination), logSource != null, logDestination != null,
                     s, d, copied')
    ensures clean ==> CopyReach(t0, fs.nodes, s, d, ks, taken + {ks[idx]}, copied')
  {
    var job := jobs[idx];
    ghost var k := ks[idx];
    ghost var t, ls, ld := fs.nodes, Lines(logSource), Lines(logDestination);
    ghost var toFile, o;
    bytes', toFile, o := CopyJobFile(fs, status, job, bytes, totalSize, logSource, logDestination);
    FilePass(t0, t, fs.nodes, o, s, d, fs.readErrorAt, jobs, ks, idx, taken, copied,
             fs.locked, fs.unreadable, fs.flakyOpens, fs.writeErrorAt, status.abortFileOp, toFile);
    if clean {
      ReachFileStep(t0, t, fs.nodes, o, fs.locked, fs.unreadable, fs.flakyOpens, fs.readErrorAt, fs.writeErrorAt,
                    s, d, ks, taken, copied, k, job.src, toFile);
    }
    ghost var finished := o.Copied? && o.p.Finished?;
    LogsPass(ls0, ld0, ls, ld, logSource != null, logDestination != null, s, d, copied, k, job.src, toFile,
             finished, Lines(logSource), Lines(logDestination));
    copied' := if finished then copied + [k] else copied;
  }

  /** One pass of the walk: take the next pair; copy it if it is a regular file, queue its entries if a directory. */
  method CopyPass(fs: Volume, status: Status, jobs: seq<Job>, idx: nat, bytes: nat, totalSize: int,
                  logSource: Log?, logDestination: Log?,
                  ghost t0: Tree, ghost s: Key, ghost d: Key, ghost ks: seq<Key>, ghost taken: set<Key>,
                  ghost copied: seq<Key>, ghost ls0: seq<string>, ghost ld0: seq<string>, ghost clean: bool)
      returns (jobs': seq<Job>, bytes': nat, ghost ks': seq<Key>, ghost copied': seq<Key>)
    requires fs.Valid() && (logSource == null || logSource != logDestination) && idx < |ks|
    requires WalkState(t0, fs.nodes, fs.readErrorAt, s, d, jobs, ks, idx, taken, copied, ls0, ld0,
                       Lines(logSource), Lines(logDestination), logSource != null, logDestination != null)
    requires clean ==> WellFormed(t0) && CopyClean(t0, fs.locked, fs.unreadable, fs.flakyOpens, fs.writeErrorAt, s, d)
    requires clean ==> !status.abortFileOp && CopyReach(t0, fs.nodes, s, d, ks, taken, copied)
    modifies fs, status, logSource, logDestination
    ensures fs.Valid() && status.abortFileOp == old(status.abortFileOp) && bytes' >= bytes
    ensures WalkState(t0, fs.nodes, fs.readErrorAt, s, d, jobs', ks', idx + 1, taken + {ks[idx]}, copied', ls0, ld0,
                      Lines(logSource), Lines(logDestination), logSource != null, logDestination != null)
    ensures Left(t0, s, taken + {ks[idx]}) < Left(t0, s, taken)
    ensures clean ==> CopyReach(t0, fs.nodes, s, d, ks', taken + {ks[idx]}, copied')
  {
    var job := jobs[idx];
    ghost var k := ks[idx];
    jobs', bytes', ks', copied' := jobs, bytes, ks, copied;
    TakeBook(t0, s, d, jobs, ks, idx, taken, copied);
    assert s <= k;
    SourceUntouched(t0, fs.nodes, s, d, fs.readErrorAt, copied, k);
    var st := fs.Stat(job.src);
    if st.None? {
      if clean {
        ReachSkip(t0, fs.nodes, s, d, ks, taken, copied, k);
      }
      return;
    }
    if st.value.File? {
      bytes', copied' := CopyFilePass(fs, status, jobs, idx, bytes, totalSize, logSource, logDestination,
                                      t0, s, d, ks, taken, copied, ls0, ld0, clean);
    } else if st.value.Dir? {
      jobs', ks' := CopyDirPass(fs, jobs, idx, t0, s, d, ks, taken, copied, clean);
    } else if clean {
      ReachSkip(t0, fs.nodes, s, d, ks, taken, copied, k);
    }
  }

  /** The directory branch of one pass: list the directory and queue a pair per entry. */
  method CopyDirPass(fs: Volume, jobs: seq<Job>, idx: nat, ghost t0: Tree, ghost s: Key, ghost d: Key,
                     ghost ks: seq<Key>, ghost taken: set<Key>, ghost copied: seq<Key>, ghost clean: bool)
      returns (jobs': seq<Job>, ghost ks': seq<Key>)
    requires fs.Valid() && QueueBook(t0, s, d, jobs, ks, idx, taken, copied) && idx < |ks|
    requires CopySafe(t0, fs.nodes, s, d, fs.readErrorAt, copied) && IsDirIn(fs.nodes, ks[idx])
    requires IsDirIn(t0, ks[idx]) && s <= ks[idx]
    requires clean ==> CopyClean(t0, fs.locked, fs.unreadable, fs.flakyOpens, fs.writeErrorAt, s, d)
    requires clean ==> CopyReach(t0, fs.nodes, s, d, ks, taken, copied)
    ensures QueueBook(t0, s, d, jobs', ks', idx + 1, taken + {ks[idx]}, copied)
    ensures clean ==> CopyReach(t0, fs.nodes, s, d, ks', taken + {ks[idx]}, copied)
  {
    var job := jobs[idx];
    ghost var k := ks[idx];
    var listing := fs.Readdir(job.src);
    jobs', ks' := jobs, ks;
    if listing.Some? {
      ListBook(t0, fs.nodes, s, d, fs.readErrorAt, jobs, ks, idx, taken, copied, listing.value);
      jobs' := PushEntries(jobs, job, listing.value);
      ks' := ks + Delete.ChildKeySeq(k, listing.value);
      if clean {
        ReachList(t0, fs.nodes, fs.readErrorAt, s, d, ks, taken, copied, k, listing.value);
      }
    } else {
      TakeBook(t0, s, d, jobs, ks, idx, taken, copied);
    }
  }

  /** The walk starts with only the source queued, nothing taken and nothing copied. */
  lemma CopyWalkStart(t0: Tree, t: Tree, r: map<Key, nat>, fromPath: string, toPath: string,
                      ls0: seq<string>, ld0: seq<string>, hasS: bool, hasD: bool,
                      locked: set<Key>, unreadable: set<Key>, flakyOpens: map<Key, nat>, writeErrorAt: map<Key, nat>)
    requires EndsWithSlash(toPath) && StartsWith(toPath, ROOT_PATH) && Disjoint(Comps(fromPath), Comps(toPath))
    requires CopySafe(t0, t, Comps(fromPath), Comps(toPath), r, [])
    ensures var s, d := Comps(fromPath), Comps(toPath);
      WalkState(t0, t, r, s, d, [Job(fromPath, toPath)], [s], 0, {}, [], ls0, ld0, ls0, ld0, hasS, hasD)
    ensures var s, d := Comps(fromPath), Comps(toPath);
      (CopyClean(t0, locked, unreadable, flakyOpens, writeErrorAt, s, d) && DestOpen(t0, d) &&
       t == MkdirChain(t0, Comps(ROOT_PATH), Comps(StripRoot(toPath)))) ==> CopyReach(t0, t, s, d, [s], {}, [])
  {
    QueueStart(t0, fromPath, toPath);
    LogsStay(ls0, ld0, hasS, hasD, Comps(fromPath), Comps(toPath));
    if CopyClean(t0, locked, unreadable, flakyOpens, writeErrorAt, Comps(fromPath), Comps(toPath)) &&
       DestOpen(t0, Comps(toPath)) && t == MkdirChain(t0, Comps(ROOT_PATH), Comps(StripRoot(toPath))) {
      ReachDest(t0, toPath);
    }
  }

  /**
   * The walk once the destination directory exists: take pairs until the
   * queue is used up. An abort request, checked before each pair, ends it
   * with -1 as the published progress.
   */
  method CopyWalk(fs: Volume, status: Status, fromPath: string, toPath: string, bytes0: nat, totalSize: int,
                  logSource: Log?, logDestination: Log?, ghost t0: Tree, ghost ls0: seq<string>, ghost ld0: seq<string>)
      returns (aborted: bool, bytes: nat, ghost copied: seq<Key>)
    requires fs.Valid() && (logSource == null || logSource != logDestination)
    requires EndsWithSlash(toPath) && StartsWith(toPath, ROOT_PATH) && Disjoint(Comps(fromPath), Comps(toPath))
    requires CopySafe(t0, fs.nodes, Comps(fromPath), Comps(toPath), fs.readErrorAt, [])
    requires Lines(logSource) == ls0 && Lines(logDestination) == ld0
    modifies fs, status, logSource, logDestination
    ensures fs.Valid() && status.abortFileOp == old(status.abortFileOp) && aborted == status.abortFileOp
    ensures bytes >= bytes0
    ensures aborted ==> fs.nodes == old(fs.nodes) && copied == [] && status.copyPercentage == -1
    ensures aborted ==> Lines(logSource) == ls0 && Lines(logDestination) == ld0
    ensures CopySafe(t0, fs.nodes, Comps(fromPath), Comps(toPath), fs.readErrorAt, copied)
    ensures CopyLogs(ls0, ld0, Lines(logSource), Lines(logDestination),
                     logSource != null, logDestination != null, Comps(fromPath), Comps(toPath), copied)
    ensures var s, d := Comps(fromPath), Comps(toPath);
      && WellFormed(t0) && CopyClean(t0, fs.locked, fs.unreadable, fs.flakyOpens, fs.writeErrorAt, s, d)
      && DestOpen(t0, d) && old(fs.nodes) == MkdirChain(t0, Comps(ROOT_PATH), Comps(StripRoot(toPath))) && !aborted
      ==> AllCopied(t0, s, copied)
  {
    ghost var s, d := Comps(fromPath), Comps(toPath);
    copied := [];
    bytes := bytes0;
    aborted := false;
    CopyWalkStart(t0, fs.nodes, fs.readErrorAt, fromPath, toPath, ls0, ld0, logSource != null, logDestination != null,
                  fs.locked, fs.unreadable, fs.flakyOpens, fs.writeErrorAt);
    // The flag cannot change during the call, so the check the walk makes
    // before every pass decides at the first one.
    if status.abortFileOp {
      status.copyPercentage := -1;
      aborted := true;
      return;
    }
    bytes, copied := CopyQueue(fs, status, [Job(fromPath, toPath)], bytes0, totalSize, logSource, logDestination,
                               t0, s, d, [s], ls0, ld0);
  }

  /** The loop of the walk: take pairs until the queue is used up. */
  method CopyQueue(fs: Volume, status: Status, jobs0: seq<Job>, bytes0: nat, totalSize: int,
                   logSource: Log?, logDestination: Log?, ghost t0: Tree, ghost s: Key, ghost d: Key,
                   ghost ks0: seq<Key>, ghost ls0: seq<string>, ghost ld0: seq<string>)
      returns (bytes: nat, ghost copied: seq<Key>)
    requires fs.Valid() && (logSource == null || logSource != logDestination) && !status.abortFileOp
    requires WalkState(t0, fs.nodes, fs.readErrorAt, s, d, jobs0, ks0, 0, {}, [], ls0, ld0,
                       Lines(logSource), Lines(logDestination), logSource != null, logDestination != null)
    modifies fs, status, logSource, logDestination
    ensures fs.Valid() && status.abortFileOp == old(status.abortFileOp) && bytes >= bytes0
    ensures CopySafe(t0, fs.nodes, s, d, fs.readErrorAt, copied)
    ensures CopyLogs(ls0, ld0, Lines(logSource), Lines(logDestination), logSource != null, logDestination != null,
                     s, d, copied)
    ensures (WellFormed(t0) && CopyClean(t0, fs.locked, fs.unreadable, fs.flakyOpens, fs.writeErrorAt, s, d) &&
             old(CopyReach(t0, fs.nodes, s, d, ks0, {}, []))) ==> AllCopied(t0, s, copied)
  {
    ghost var clean := && WellFormed(t0) && CopyClean(t0, fs.locked, fs.unreadable, fs.flakyOpens, fs.writeErrorAt, s, d)
                       && CopyReach(t0, fs.nodes, s, d, ks0, {}, []);
    var directories := jobs0;
    ghost var ks := ks0;
    ghost var taken: set<Key> := {};
    copied := [];
    var idx := 0;
    bytes := bytes0;
    while idx < |directories|
      invariant fs.Valid() && status.abortFileOp == old(status.abortFileOp) && !status.abortFileOp && bytes >= bytes0
      invariant WalkState(t0, fs.nodes, fs.readErrorAt, s, d, directories, ks, idx, taken, copied, ls0, ld0,
                          Lines(logSource), Lines(logDestination), logSource != null, logDestination != null)
      invariant clean ==> WellFormed(t0) && CopyClean(t0, fs.locked, fs.unreadable, fs.flakyOpens, fs.writeErrorAt, s, d)
      invariant clean ==> CopyReach(t0, fs.nodes, s, d, ks, taken, copied)
      decreases Left(t0, s, taken)
    {
      ghost var k := ks[idx];
      directories, bytes, ks, copied := CopyPass(fs, status, directories, idx, bytes, totalSize, logSource, logDestination,
                                                 t0, s, d, ks, taken, copied, ls0, ld0, clean);
      taken := taken + {k};
      idx := idx + 1;
    }
    if clean {
      ReachEnd(t0, fs.nodes, s, d, ks, taken, copied);
    }
  }

  /**
   * `copyFileOrDirectory`. A top-level call (no running byte count) first
   * measures the source with `getTotalSize` and publishes 100 when its walk
   * ends. A destination without a trailing '/' is one `copySingleFile`
   * after its parent is created; otherwise the destination directory is
   * created and the walk copies into it. The count of bytes copied so far
   * is returned.
   */
  method CopyFileOrDirectory(fs: Volume, status: Status, fromPath: string, toPath: string,
                             totalBytesCopied: Option<nat>, totalSize: int, logSource: Log?, logDestination: Log?)
      returns (bytesCopied: nat, ghost o: Outcome, ghost copied: seq<Key>)
    requires fs.Valid() && |toPath| > 0 && (logSource == null || logSource != logDestination)
    requires EndsWithSlash(toPath) ==> StartsWith(toPath, ROOT_PATH) && Disjoint(Comps(fromPath), Comps(toPath))
    modifies fs, status, logSource, logDestination
    ensures fs.Valid() && status.abortFileOp == old(status.abortFileOp)
    ensures var start := if totalBytesCopied.Some? then totalBytesCopied.value else 0;
      var size := if totalBytesCopied.Some? then totalSize else Sizes.TotalSize(old(fs.nodes), fs.unreadable, Comps(fromPath));
      !EndsWithSlash(toPath) ==>
        && (fs.nodes, o) == FileCopy(old(fs.nodes), fs.locked, fs.unreadable, fs.flakyOpens, fs.readErrorAt,
                                     fs.writeErrorAt, status.abortFileOp, fromPath, toPath)
        && bytesCopied == start + (if o.Copied? then o.p.bytes else 0)
        && status.copyPercentage == Progress(old(status.copyPercentage), o, start, size)
        && (logSource != null ==>
              logSource.lines == old(logSource.lines) + (if o.Copied? && o.p.Finished? then [fromPath] else []))
        && (logDestination != null ==>
              logDestination.lines == old(logDestination.lines) + (if o.Copied? && o.p.Finished? then [toPath] else []))
    ensures var start := if totalBytesCopied.Some? then totalBytesCopied.value else 0;
      var s, d := Comps(fromPath), Comps(toPath);
      EndsWithSlash(toPath) ==>
        && bytesCopied >= start
        && (status.abortFileOp ==>
              && fs.nodes == MkdirChain(old(fs.nodes), Comps(ROOT_PATH), Comps(StripRoot(toPath)))
              && copied == [] && status.copyPercentage == -1)
        && CopySafe(old(fs.nodes), fs.nodes, s, d, fs.readErrorAt, copied)
        && CopyLogs(old(Lines(logSource)), old(Lines(logDestination)), Lines(logSource), Lines(logDestination),
                    logSource != null, logDestination != null, s, d, copied)
        && (!status.abortFileOp && totalBytesCopied.None? ==> status.copyPercentage == 100)
        && ((CopyClean(old(fs.nodes), fs.locked, fs.unreadable, fs.flakyOpens, fs.writeErrorAt, s, d) &&
             DestOpen(old(fs.nodes), d) && !status.abortFileOp) ==> AllCopied(old(fs.nodes), s, copied))
  {
    var start, size := 0, totalSize;
    if totalBytesCopied.Some? {
      start := totalBytesCopied.value;
    } else {
      size := Sizes.GetTotalSize(fs, fromPath);
    }
    o, copied := NotOpened, [];
    if toPath[|toPath| - 1] != '/' {
      CreateDirectory(fs, GetParentDirFromPath(toPath));
      bytesCopied, o := CopySingleFile(fs, status, fromPath, toPath, start, size, logSource, logDestination);
      return;
    }
    bytesCopied, copied := CopyTree(fs, status, fromPath, toPath, start, size, totalBytesCopied.None?,
                                    logSource, logDestination, Lines(logSource), Lines(logDestination));
  }

  /**
   * The branch of `CopyFileOrDirectory` for a destination ending in '/':
   * create the destination directory, walk the source, and report 100 per
   * cent at the end of a top-level call that was not aborted.
   */
  method CopyTree(fs: Volume, status: Status, fromPath: string, toPath: string, start: nat, size: int, top: bool,
                  logSource: Log?, logDestination: Log?, ghost ls0: seq<string>, ghost ld0: seq<string>)
      returns (bytesCopied: nat, ghost copied: seq<Key>)
    requires fs.Valid() && (logSource == null || logSource != logDestination)
    requires EndsWithSlash(toPath) && StartsWith(toPath, ROOT_PATH) && Disjoint(Comps(fromPath), Comps(toPath))
    requires Lines(logSource) == ls0 && Lines(logDestination) == ld0
    modifies fs, status, logSource, logDestination
    ensures fs.Valid() && status.abortFileOp == old(status.abortFileOp) && bytesCopied >= start
    ensures status.abortFileOp ==>
      && fs.nodes == MkdirChain(old(fs.nodes), Comps(ROOT_PATH), Comps(StripRoot(toPath)))
      && copied == [] && status.copyPercentage == -1
    ensures CopySafe(old(fs.nodes), fs.nodes, Comps(fromPath), Comps(toPath), fs.readErrorAt, copied)
    ensures CopyLogs(ls0, ld0, Lines(logSource), Lines(logDestination),
                     logSource != null, logDestination != null, Comps(fromPath), Comps(toPath), copied)
    ensures !status.abortFileOp && top ==> status.copyPercentage == 100
    ensures var s, d := Comps(fromPath), Comps(toPath);
      (CopyClean(old(fs.nodes), fs.locked, fs.unreadable, fs.flakyOpens, fs.writeErrorAt, s, d) &&
       DestOpen(old(fs.nodes), d) && !status.abortFileOp) ==> AllCopied(old(fs.nodes), s, copied)
  {
    ghost var t0 := fs.nodes;
    CreateDirectory(fs, toPath);
    CopyStart(t0, Comps(fromPath), toPath, fs.readErrorAt);
    var aborted;
    aborted, bytesCopied, copied := CopyWalk(fs, status, fromPath, toPath, start, size, logSource, logDestination, t0,
                                             ls0, ld0);
    if top && !aborted {
      status.copyPercentage := 100;
    }
  }
}
