/**
 * Path predicates, directory creation and the log and status objects the
 * engine shares (the first part of path_funcs.cpp).
 */
module DirFuncs {
  import opened Wrappers
  import opened Paths
  import opened FileSystem

  /** The two process-wide atomics through which a copy publishes its state. */
  class Status {
    var abortFileOp: bool
    var copyPercentage: int

    constructor ()
      ensures !abortFileOp && copyPercentage == -1
    {
      abortFileOp := false;
      copyPercentage := -1;
    }
  }

  /** An open log file: the lines appended to it so far. */
  class Log {
    var lines: seq<string>

    constructor ()
      ensures lines == []
    {
      lines := [];
    }
  }

  /** `writeLog`: appends one line to an open log; a null log is one that could not be opened. */
  method WriteLog(log: Log?, line: string)
    modifies log
    ensures log != null ==> log.lines == old(log.lines) + [line]
  {
    if log != null {
      log.lines := log.lines + [line];
    }
  }

  /** `isDirectory`: `stat` succeeds and reports a directory. */
  predicate IsDirectory(fs: Volume, p: string)
    reads fs
    ensures IsDirectory(fs, p) <==> IsDirIn(fs.nodes, Comps(p))
  {
    var st := fs.Stat(p);
    st.Some? && st.value.Dir?
  }

  /** `isFile`: `stat` succeeds and reports a regular file. */
  predicate IsFile(fs: Volume, p: string)
    reads fs
    ensures IsFile(fs, p) <==> IsFileIn(fs.nodes, Comps(p))
  {
    var st := fs.Stat(p);
    st.Some? && st.value.File?
  }

  /** `isFileOrDirectory`: `stat` succeeds, whatever the entry is. */
  predicate IsFileOrDirectory(fs: Volume, p: string)
    reads fs
    ensures IsFileOrDirectory(fs, p) <==> Comps(p) in fs.nodes
  {
    fs.Stat(p).Some?
  }

  /** A path names at most one kind of entry, and "exists" covers links and devices too. */
  lemma StatKinds(fs: Volume, p: string)
    ensures !(IsFile(fs, p) && IsDirectory(fs, p))
    ensures IsFileOrDirectory(fs, p) <==>
      IsFile(fs, p) || IsDirectory(fs, p) || (Comps(p) in fs.nodes && fs.nodes[Comps(p)].Special?)
  {
  }

  /** What one `mkdir` does to the tree. */
  function MkdirEffect(t: Tree, k: Key): Tree {
    if k in t || k == [] || !ParentIsDir(t, k) then t else t[k := Dir]
  }

  /** The `mkdir` of each `b + cs[..i]`, for i = 1 .. |cs|, in that order. */
  function MkdirChain(t: Tree, b: Key, cs: seq<string>): Tree {
    if cs == [] then t else MkdirEffect(MkdirChain(t, b, cs[..|cs| - 1]), b + cs)
  }

  /** `createSingleDirectory`: one `mkdir`, with EEXIST and every other failure ignored. */
  method CreateSingleDirectory(fs: Volume, p: string)
    requires fs.Valid()
    modifies fs
    ensures fs.Valid()
    ensures fs.nodes == MkdirEffect(old(fs.nodes), Comps(p))
  {
    var _ := fs.Mkdir(p);
  }

  /** The key of the volume root, which `createDirectory` never creates itself. */
  lemma RootKey()
    ensures Comps(ROOT_PATH) == ["sdmc:"]
  {
    CompsName("sdmc:");
    assert "sdmc:" + "/" == ROOT_PATH;
  }

  /** A path under the volume prefix names the volume's key followed by the rest. */
  lemma RootSplit(p: string)
    requires StartsWith(p, ROOT_PATH)
    ensures Comps(p) == Comps(ROOT_PATH) + Comps(StripRoot(p))
  {
    RootKey();
    var r := StripRoot(p);
    assert p == "sdmc:" + "/" + r;
    CompsJoin("sdmc:", r);
    CompsName("sdmc:");
  }

  /** The parent directory of a path under the volume prefix is under it too. */
  lemma ParentUnderRoot(p: string)
    requires StartsWith(p, ROOT_PATH)
    ensures StartsWith(GetParentDirFromPath(p), ROOT_PATH)
  {
    assert p[5] == ROOT_PATH[5] == '/';
    assert SegStart(p) > 5;
    assert GetParentDirFromPath(p)[..|ROOT_PATH|] == p[..|ROOT_PATH|];
  }

  /** The path with a leading "sdmc:/" removed, as `createDirectory` first does. */
  function StripRoot(p: string): (r: string)
    ensures StartsWith(p, ROOT_PATH) ==> ROOT_PATH + r == p
    ensures !StartsWith(p, ROOT_PATH) ==> r == p
  {
    if StartsWith(p, ROOT_PATH) then
      assert ROOT_PATH + p[|ROOT_PATH|..] == p;
      p[|ROOT_PATH|..]
    else p
  }

  /** `std::string::find(c, from)`: the first index at or after `from` holding `c`. */
  function FindChar(s: string, c: char, from: nat): (r: Option<nat>)
    requires from <= |s|
    ensures r.Some? ==> from <= r.value < |s| && s[r.value] == c
                        && forall i :: from <= i < r.value ==> s[i] != c
    ensures r.None? ==> forall i :: from <= i < |s| ==> s[i] != c
    decreases |s| - from
  {
    if from == |s| then None
    else if s[from] == c then Some(from)
    else FindChar(s, c, from + 1)
  }

  lemma SlashFree(s: string, lo: nat, hi: nat)
    requires lo <= hi <= |s| && forall i :: lo <= i < hi ==> s[i] != '/'
    ensures '/' !in s[lo..hi]
  {
    forall j | 0 <= j < hi - lo ensures s[lo..hi][j] != '/' {
      assert s[lo..hi][j] == s[lo + j];
    }
  }

  /** The components of a prefix ending at a '/' grow by the segment before it, if any. */
  lemma PrefixStep(path: string, pos: nat, np: nat)
    requires pos <= np < |path| && path[np] == '/'
    requires pos == 0 || path[pos - 1] == '/'
    requires forall i :: pos <= i < np ==> path[i] != '/'
    ensures Comps(path[..np + 1]) == Comps(path[..pos]) + (if np == pos then [] else [path[pos..np]])
  {
    SlashFree(path, pos, np);
    var a, seg := path[..pos], path[pos..np];
    assert path[..np + 1] == a + seg + "/";
    CompsSlash(a + seg);
    if np == pos {
      assert a + seg == a;
    } else if pos == 0 {
      assert a + seg == seg;
      CompsName(seg);
      CompsEmpty();
    } else {
      CompsAfterSlash(a, seg);
    }
  }

  /** The text after the last '/' is the last component, if it is not empty. */
  lemma PrefixLast(path: string, pos: nat)
    requires pos <= |path|
    requires pos == 0 || path[pos - 1] == '/'
    requires forall i :: pos <= i < |path| ==> path[i] != '/'
    ensures Comps(path) == Comps(path[..pos]) + (if pos < |path| then [path[pos..]] else [])
  {
    if pos == |path| {
      assert path[..pos] == path;
    } else {
      PrefixSeg(path, pos);
    }
  }

  lemma PrefixSeg(path: string, pos: nat)
    requires pos < |path| && (pos == 0 || path[pos - 1] == '/')
    requires forall i :: pos <= i < |path| ==> path[i] != '/'
    ensures Comps(path) == Comps(path[..pos]) + [path[pos..]]
  {
    SlashFreeFrom(path, pos);
    TakeDrop(path, pos);
    LastSeg(path, path[..pos], path[pos..]);
  }

  lemma SlashFreeFrom(s: string, lo: nat)
    requires lo <= |s| && forall i :: lo <= i < |s| ==> s[i] != '/'
    ensures '/' !in s[lo..]
  {
    forall j | 0 <= j < |s| - lo ensures s[lo..][j] != '/' {
      assert s[lo..][j] == s[lo + j];
    }
  }

  lemma TakeDrop(s: string, n: nat)
    requires n <= |s|
    ensures s == s[..n] + s[n..]
  {
  }

  lemma LastSeg(path: string, a: string, seg: string)
    requires a == "" || EndsWithSlash(a)
    requires IsName(seg) && path == a + seg
    ensures Comps(path) == Comps(a) + [seg]
  {
    if a == "" {
      assert a + seg == seg;
      CompsName(seg);
      CompsEmpty();
    } else {
      CompsAfterSlash(a, seg);
    }
  }

  /**
   * The state of the `createDirectory` loop over `path` after the segments
   * before `pos`: `parentPath` names `b` plus their components `done`, the
   * tree is the chain of `mkdir`s of those prefixes, and `next` is the next
   * '/' at or after `pos`.
   */
  ghost predicate CreateInv(t0: Tree, b: Key, t: Tree, path: string, pos: nat,
                            parentPath: string, done: seq<string>, next: Option<nat>)
  {
    && pos <= |path| && (pos == 0 || path[pos - 1] == '/')
    && (next.Some? ==> pos <= next.value < |path| && path[next.value] == '/')
    && (next.Some? ==> forall i :: pos <= i < next.value ==> path[i] != '/')
    && (next.None? ==> forall i :: pos <= i < |path| ==> path[i] != '/')
    && EndsWithSlash(parentPath)
    && done == Comps(path[..pos])
    && Comps(parentPath) == b + done
    && t == MkdirChain(t0, b, done)
  }

  /**
   * One pass of the `createDirectory` loop: the segment from `pos` up to the
   * next '/' is appended to `parentPath` with its '/' and created, unless it
   * is empty; then the following '/' is looked up.
   */
  method CreateSegment(fs: Volume, path: string, pos: nat, parentPath: string, next: Option<nat>,
                       ghost t0: Tree, ghost b: Key, ghost done: seq<string>)
      returns (pos': nat, parentPath': string, next': Option<nat>, ghost done': seq<string>)
    requires fs.Valid() && next.Some?
    requires CreateInv(t0, b, fs.nodes, path, pos, parentPath, done, next)
    modifies fs
    ensures fs.Valid() && pos < pos'
    ensures CreateInv(t0, b, fs.nodes, path, pos', parentPath', done', next')
  {
    var np := next.value;
    pos' := np + 1;
    next' := FindChar(path, '/', pos');
    parentPath', done' := parentPath, done;
    if np != pos {
      var seg := path[pos..np];
      parentPath' := parentPath + seg + "/";
      done' := done + [seg];
      CreateSingleDirectory(fs, parentPath');
    }
    SegmentStep(t0, b, old(fs.nodes), fs.nodes, path, pos, parentPath, done, next, next');
  }

  /** What one pass of the `createDirectory` loop keeps. */
  lemma SegmentStep(t0: Tree, b: Key, t: Tree, t': Tree, path: string, pos: nat,
                    parentPath: string, done: seq<string>, next: Option<nat>, next': Option<nat>)
    requires next.Some? && CreateInv(t0, b, t, path, pos, parentPath, done, next)
    requires next' == FindChar(path, '/', next.value + 1)
    requires next.value == pos ==> t' == t
    requires next.value != pos ==>
      t' == MkdirEffect(t, Comps(parentPath + path[pos..next.value] + "/"))
    ensures var np := next.value;
      if np == pos then
        CreateInv(t0, b, t', path, np + 1, parentPath, done, next')
      else
        CreateInv(t0, b, t', path, np + 1, parentPath + path[pos..np] + "/", done + [path[pos..np]], next')
  {
    if next.value == pos {
      EmptySegmentStep(t0, b, t, path, pos, parentPath, done, next, next');
    } else {
      SegmentCreateStep(t0, b, t, t', path, pos, next.value, parentPath, done, next, next');
    }
  }

  lemma EmptySegmentStep(t0: Tree, b: Key, t: Tree, path: string, pos: nat,
                         parentPath: string, done: seq<string>, next: Option<nat>, next': Option<nat>)
    requires next == Some(pos) && CreateInv(t0, b, t, path, pos, parentPath, done, next)
    requires next' == FindChar(path, '/', pos + 1)
    ensures CreateInv(t0, b, t, path, pos + 1, parentPath, done, next')
  {
    PrefixStep(path, pos, pos);
  }

  lemma SegmentCreateStep(t0: Tree, b: Key, t: Tree, t': Tree, path: string, pos: nat, np: nat,
                          parentPath: string, done: seq<string>, next: Option<nat>, next': Option<nat>)
    requires next == Some(np) && CreateInv(t0, b, t, path, pos, parentPath, done, next) && np != pos
    requires next' == FindChar(path, '/', np + 1)
    requires t' == MkdirEffect(t, Comps(parentPath + path[pos..np] + "/"))
    ensures CreateInv(t0, b, t', path, np + 1, parentPath + path[pos..np] + "/", done + [path[pos..np]], next')
  {
    PrefixStep(path, pos, np);
    var seg := path[pos..np];
    SlashFree(path, pos, np);
    ChildStep(parentPath, seg);
    MkdirChainSnoc(t0, b, done, seg);
  }

  /** The last pass of the `createDirectory` loop: the text after the last '/', if any. */
  method CreateLastSegment(fs: Volume, path: string, pos: nat, parentPath: string,
                           ghost t0: Tree, ghost b: Key, ghost done: seq<string>)
    requires fs.Valid()
    requires CreateInv(t0, b, fs.nodes, path, pos, parentPath, done, None)
    modifies fs
    ensures fs.Valid() && fs.nodes == MkdirChain(t0, b, Comps(path))
  {
    PrefixLast(path, pos);
    if pos == |path| {
      assert done + [] == done;
    } else {
      var seg := path[pos..];
      SlashFree(path, pos, |path|);
      CompsAfterSlash(parentPath, seg);
      MkdirChainSnoc(t0, b, done, seg);
      CreateSingleDirectory(fs, parentPath + seg);
    }
  }

  /**
   * `createDirectory`: strips a leading "sdmc:/" and creates, below the
   * volume root, every non-empty '/'-separated segment of the rest in turn;
   * an empty segment between two '/' is skipped.
   */
  method CreateDirectory(fs: Volume, directoryPath: string)
    requires fs.Valid()
    modifies fs
    ensures fs.Valid()
    ensures fs.nodes == MkdirChain(old(fs.nodes), Comps(ROOT_PATH), Comps(StripRoot(directoryPath)))
  {
    CreateUnder(fs, ROOT_PATH, StripRoot(directoryPath));
  }

  /**
   * The loop of `createDirectory`: `base` is the directory it builds under
   * ("sdmc:/"), `path` the rest of the argument.
   */
  method CreateUnder(fs: Volume, base: string, path: string)
    requires fs.Valid() && EndsWithSlash(base)
    modifies fs
    ensures fs.Valid()
    ensures fs.nodes == MkdirChain(old(fs.nodes), Comps(base), Comps(path))
  {
    var parentPath := base;
    var pos := 0;
    var next := FindChar(path, '/', 0);
    assert path[..0] == "";
    CompsEmpty();
    ghost var b := Comps(base);
    ghost var t0 := fs.nodes;
    ghost var done: seq<string> := [];
    while next.Some?
      invariant fs.Valid()
      invariant CreateInv(t0, b, fs.nodes, path, pos, parentPath, done, next)
      decreases |path| - pos
    {
      pos, parentPath, next, done := CreateSegment(fs, path, pos, parentPath, next, t0, b, done);
    }
    CreateLastSegment(fs, path, pos, parentPath, t0, b, done);
  }

  lemma ChildStep(parent: string, seg: string)
    requires EndsWithSlash(parent) && IsName(seg)
    ensures EndsWithSlash(parent + seg + "/")
    ensures Comps(parent + seg + "/") == Comps(parent) + [seg]
  {
    CompsAfterSlash(parent, seg);
    CompsSlash(parent + seg);
  }

  lemma MkdirChainSnoc(t: Tree, b: Key, cs: seq<string>, c: string)
    ensures MkdirChain(t, b, cs + [c]) == MkdirEffect(MkdirChain(t, b, cs), b + cs + [c])
  {
    assert (cs + [c])[..|cs|] == cs;
    assert b + (cs + [c]) == b + cs + [c];
  }

  /** A chain only adds entries, each a directory named by one of its prefixes. */
  lemma {:induction false} MkdirChainGrows(t: Tree, b: Key, cs: seq<string>, x: Key)
    ensures x in t ==> x in MkdirChain(t, b, cs) && MkdirChain(t, b, cs)[x] == t[x]
    ensures x in MkdirChain(t, b, cs) && x !in t ==>
      MkdirChain(t, b, cs)[x] == Dir && exists i :: 1 <= i <= |cs| && x == b + cs[..i]
  {
    if cs != [] {
      var cs' := cs[..|cs| - 1];
      MkdirChainGrows(t, b, cs', x);
      if x in MkdirChain(t, b, cs) && x !in t && x !in MkdirChain(t, b, cs') {
        assert x == b + cs[..|cs|];
      } else if x in MkdirChain(t, b, cs) && x !in t {
        var i :| 1 <= i <= |cs'| && x == b + cs'[..i];
        assert cs'[..i] == cs[..i];
      }
    }
  }

  /** A chain of names keeps the tree well formed. */
  lemma {:induction false} MkdirChainWellFormed(t: Tree, b: Key, cs: seq<string>)
    requires WellFormed(t)
    requires forall i :: 0 <= i < |b| ==> IsName(b[i])
    requires forall i :: 0 <= i < |cs| ==> IsName(cs[i])
    ensures WellFormed(MkdirChain(t, b, cs))
  {
    if cs != [] {
      var cs' := cs[..|cs| - 1];
      MkdirChainWellFormed(t, b, cs');
      var prev := MkdirChain(t, b, cs');
      var k := b + cs;
      if MkdirChain(t, b, cs) != prev {
        var t' := prev[k := Dir];
        forall j | j in t' && |j| > 1 ensures Parent(j) in t' && t'[Parent(j)].Dir? {
          if j != k {
            assert Parent(j) in prev && prev[Parent(j)].Dir?;
          }
        }
      }
    }
  }

  /** An entry no longer than `b + cs[..m]` is touched by none of the later steps. */
  lemma {:induction false} MkdirChainShort(t: Tree, b: Key, cs: seq<string>, m: nat, x: Key)
    requires m <= |cs| && |x| <= |b| + m
    ensures x in MkdirChain(t, b, cs) <==> x in MkdirChain(t, b, cs[..m])
    ensures x in MkdirChain(t, b, cs) ==> MkdirChain(t, b, cs)[x] == MkdirChain(t, b, cs[..m])[x]
    decreases |cs|
  {
    if |cs| > m {
      var cs' := cs[..|cs| - 1];
      assert cs'[..m] == cs[..m];
      MkdirChainShort(t, b, cs', m, x);
    } else {
      assert cs[..m] == cs;
    }
  }

  lemma {:induction false} MkdirChainPrefix(t: Tree, b: Key, cs: seq<string>, m: nat)
    requires m <= |cs|
    ensures MkdirChain(t, b, cs[..m]) == if m == 0 then t else MkdirEffect(MkdirChain(t, b, cs[..m - 1]), b + cs[..m])
  {
    if m > 0 {
      assert cs[..m][..m - 1] == cs[..m - 1];
    }
  }

  /** Every step of a second run finds its entry already made, or fails the same way. */
  lemma {:induction false} MkdirChainRerun(t: Tree, b: Key, cs: seq<string>, j: nat)
    requires j <= |cs|
    ensures MkdirChain(MkdirChain(t, b, cs), b, cs[..j]) == MkdirChain(t, b, cs)
  {
    var tn := MkdirChain(t, b, cs);
    if j == 0 {
      assert cs[..0] == [];
    } else {
      MkdirChainRerun(t, b, cs, j - 1);
      MkdirChainPrefix(tn, b, cs, j);
      var k := b + cs[..j];
      var tj := MkdirChain(t, b, cs[..j - 1]);
      MkdirChainPrefix(t, b, cs, j);
      MkdirChainShort(t, b, cs, j, k);
      if k !in tn && k != [] {
        assert k !in MkdirEffect(tj, k);
        assert !ParentIsDir(tj, k);
        if |k| > 1 {
          var p := Parent(k);
          MkdirChainShort(t, b, cs, j - 1, p);
          assert cs[..j][..j - 1] == cs[..j - 1];
          assert (cs[..j])[..j - 1] == cs[..j - 1];
          MkdirChainShort(t, b, cs[..j], j - 1, p);
        }
        assert !ParentIsDir(tn, k);
      }
    }
  }

  /** Calling `createDirectory` twice changes nothing the first call did not. */
  lemma CreateDirectoryIdempotent(t: Tree, p: string)
    ensures var once := MkdirChain(t, Comps(ROOT_PATH), Comps(StripRoot(p)));
      MkdirChain(once, Comps(ROOT_PATH), Comps(StripRoot(p))) == once
  {
    var cs := Comps(StripRoot(p));
    MkdirChainRerun(t, Comps(ROOT_PATH), cs, |cs|);
    assert cs[..|cs|] == cs;
  }

  /** No prefix `b + cs[..i]` is taken by something other than a directory. */
  ghost predicate NoPrefixBlocked(t: Tree, b: Key, cs: seq<string>) {
    forall i :: 1 <= i <= |cs| ==> b + cs[..i] !in t || IsDirIn(t, b + cs[..i])
  }

  /** Every prefix `b + cs[..i]` is a directory. */
  ghost predicate AllPrefixesDirs(t: Tree, b: Key, cs: seq<string>) {
    forall i :: 1 <= i <= |cs| ==> IsDirIn(t, b + cs[..i])
  }

  /**
   * When the volume root is a directory and no prefix is taken by a
   * non-directory, every prefix `b + cs[..i]` is a directory afterwards.
   */
  lemma {:induction false} MkdirChainCreates(t: Tree, b: Key, cs: seq<string>)
    requires IsDirIn(t, b) && |b| > 0 && NoPrefixBlocked(t, b, cs)
    ensures AllPrefixesDirs(MkdirChain(t, b, cs), b, cs)
  {
    if cs != [] {
      var cs' := cs[..|cs| - 1];
      assert forall i :: 1 <= i <= |cs'| ==> cs'[..i] == cs[..i];
      MkdirChainCreates(t, b, cs');
      var prev := MkdirChain(t, b, cs');
      var k := b + cs;
      assert k == b + cs[..|cs|];
      MkdirChainGrows(t, b, cs', b);
      MkdirChainGrows(t, b, cs', k);
      if k !in prev {
        assert Parent(k) == if |cs'| == 0 then b else b + cs'[..|cs'|];
        assert ParentIsDir(prev, k);
      }
      forall i | 1 <= i <= |cs| ensures IsDirIn(MkdirChain(t, b, cs), b + cs[..i]) {
        if i < |cs| {
          assert IsDirIn(prev, b + cs'[..i]);
        }
      }
    }
  }

  /** `createDirectory` on a path under the volume root leaves every segment a directory. */
  lemma CreateDirectoryCreates(t: Tree, p: string)
    requires IsDirIn(t, Comps(ROOT_PATH)) && NoPrefixBlocked(t, Comps(ROOT_PATH), Comps(StripRoot(p)))
    ensures AllPrefixesDirs(MkdirChain(t, Comps(ROOT_PATH), Comps(StripRoot(p))), Comps(ROOT_PATH), Comps(StripRoot(p)))
  {
    RootKey();
    MkdirChainCreates(t, Comps(ROOT_PATH), Comps(StripRoot(p)));
  }
}
