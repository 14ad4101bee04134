/**
 * `moveFile`, `moveDirectory`, `moveFileOrDirectory` and
 * `moveFilesOrDirectoriesByPattern`: renaming entries, and moving a
 * directory's contents entry by entry into another directory.
 */
module Move {
  import opened Wrappers
  import opened Paths
  import opened FileSystem
  import opened DirFuncs

  // ---------------------------------------------------------------------
  // moveFile.

  /** The tree after `rename(s, d)`, and whether it succeeded. */
  function RenameEffect(t: Tree, locked: set<Key>, s: Key, d: Key): (Tree, bool) {
    var ok := s in t && s !in locked && d !in t && ParentIsDir(t, d) && !(s <= d);
    (if ok then MoveSubtree(t, s, d) else t, ok)
  }

  /** The path `moveFile` renames the source to: into a directory, or to the path itself. */
  function MoveTarget(sourcePath: string, destinationPath: string): string {
    if EndsWithSlash(destinationPath) then destinationPath + GetFileName(sourcePath) else destinationPath
  }

  /**
   * The tree `moveFile` renames in: into a directory, the directory is
   * created when missing and then the target removed; onto a path, the
   * target is removed and then its parent created.
   */
  function Prepared(t: Tree, locked: set<Key>, sourcePath: string, destinationPath: string): Tree {
    var target := Comps(MoveTarget(sourcePath, destinationPath));
    if EndsWithSlash(destinationPath) then
      RemoveEffect(if IsDirIn(t, Comps(destinationPath)) then t
                   else MkdirChain(t, Comps(ROOT_PATH), Comps(StripRoot(destinationPath))), locked, target)
    else
      MkdirChain(RemoveEffect(t, locked, target), Comps(ROOT_PATH), Comps(StripRoot(GetParentDirFromPath(destinationPath))))
  }

  /** What `moveFile` does to the tree and whether its rename succeeded. */
  function MoveFileTree(t: Tree, locked: set<Key>, sourcePath: string, destinationPath: string): (Tree, bool) {
    var s := Comps(sourcePath);
    if s !in t then (t, false)
    else RenameEffect(Prepared(t, locked, sourcePath, destinationPath), locked, s, Comps(MoveTarget(sourcePath, destinationPath)))
  }

  /** The steps of `moveFile` between the existence check and the rename. */
  method Prepare(fs: Volume, sourcePath: string, destinationPath: string) returns (target: string)
    requires fs.Valid() && |destinationPath| > 0
    modifies fs
    ensures fs.Valid() && target == MoveTarget(sourcePath, destinationPath)
    ensures fs.nodes == Prepared(old(fs.nodes), fs.locked, sourcePath, destinationPath)
  {
    if destinationPath[|destinationPath| - 1] == '/' {
      if !IsDirectory(fs, destinationPath) {
        CreateDirectory(fs, destinationPath);
      }
      target := destinationPath + GetFileName(sourcePath);
      var _ := fs.Remove(target);
    } else {
      target := destinationPath;
      var _ := fs.Remove(destinationPath);
      CreateDirectory(fs, GetParentDirFromPath(destinationPath));
    }
  }

  /**
   * `moveFile`: when the source exists, rename it as MoveFileTree says and,
   * on success, log the source path and the target path.
   */
  method MoveFile(fs: Volume, sourcePath: string, destinationPath: string, logSource: Log?, logDestination: Log?)
      returns (ok: bool)
    requires fs.Valid() && |destinationPath| > 0 && (logSource == null || logSource != logDestination)
    modifies fs, logSource, logDestination
    ensures fs.Valid()
    ensures (fs.nodes, ok) == MoveFileTree(old(fs.nodes), fs.locked, sourcePath, destinationPath)
    ensures logSource != null ==> logSource.lines == old(logSource.lines) + (if ok then [sourcePath] else [])
    ensures logDestination != null ==>
      logDestination.lines == old(logDestination.lines) + (if ok then [MoveTarget(sourcePath, destinationPath)] else [])
  {
    ok := false;
    if !IsFileOrDirectory(fs, sourcePath) {
      return;
    }
    var target := Prepare(fs, sourcePath, destinationPath);
    ok := fs.Rename(sourcePath, target);
    if ok {
      WriteLog(logSource, sourcePath);
      WriteLog(logDestination, target);
    }
  }

  /** The steps before the rename keep the tree well formed. */
  lemma PreparedWellFormed(t: Tree, locked: set<Key>, sourcePath: string, destinationPath: string)
    requires WellFormed(t)
    ensures WellFormed(Prepared(t, locked, sourcePath, destinationPath))
  {
    var target := Comps(MoveTarget(sourcePath, destinationPath));
    RootKey();
    assert IsName("sdmc:");
    if EndsWithSlash(destinationPath) {
      MkdirChainWellFormed(t, Comps(ROOT_PATH), Comps(StripRoot(destinationPath)));
      var t1 := if IsDirIn(t, Comps(destinationPath)) then t else MkdirChain(t, Comps(ROOT_PATH), Comps(StripRoot(destinationPath)));
      RemoveEffectWellFormed(t1, locked, target);
    } else {
      RemoveEffectWellFormed(t, locked, target);
      MkdirChainWellFormed(RemoveEffect(t, locked, target), Comps(ROOT_PATH),
                           Comps(StripRoot(GetParentDirFromPath(destinationPath))));
    }
  }

  /** The steps before the rename keep every entry other than the target. */
  lemma PreparedKeeps(t: Tree, locked: set<Key>, sourcePath: string, destinationPath: string, k: Key)
    requires k in t && k != Comps(MoveTarget(sourcePath, destinationPath))
    ensures var t2 := Prepared(t, locked, sourcePath, destinationPath);
      k in t2 && t2[k] == t[k]
  {
    var target := Comps(MoveTarget(sourcePath, destinationPath));
    if EndsWithSlash(destinationPath) {
      MkdirChainGrows(t, Comps(ROOT_PATH), Comps(StripRoot(destinationPath)), k);
    } else {
      MkdirChainGrows(RemoveEffect(t, locked, target), Comps(ROOT_PATH),
                      Comps(StripRoot(GetParentDirFromPath(destinationPath))), k);
    }
  }

  /**
   * A successful `moveFile` leaves the source's entry at the target and
   * nothing at the source; a failed one leaves the source as it was, unless
   * the target is the source itself.
   */
  lemma MoveFileOutcome(t: Tree, locked: set<Key>, sourcePath: string, destinationPath: string)
    requires WellFormed(t)
    ensures var s, target := Comps(sourcePath), Comps(MoveTarget(sourcePath, destinationPath));
      var r := MoveFileTree(t, locked, sourcePath, destinationPath);
      && (r.1 ==> s in t && s !in r.0 && target in r.0 && r.0[target] == t[s])
      && (!r.1 && s in t && target != s ==> s in r.0 && r.0[s] == t[s])
  {
    var s, target := Comps(sourcePath), Comps(MoveTarget(sourcePath, destinationPath));
    if s in t {
      if target != s {
        PreparedKeeps(t, locked, sourcePath, destinationPath, s);
      }
      var t2 := Prepared(t, locked, sourcePath, destinationPath);
      if RenameEffect(t2, locked, s, target).1 {
        MoveSubtreeAt(t2, s, target, target);
        assert target[|target|..] == [] && s + target[|target|..] == s;
        MoveSubtreeAt(t2, s, target, s);
        if target <= s {
          PreparedWellFormed(t, locked, sourcePath, destinationPath);
          AncestorPresent(t2, target, s);
        }
      }
    }
  }

  /**
   * Moving a file onto its own path (`moveFile("a/x", "a/x")`, or into the
   * directory it is already in, `moveFile("a/x", "a/")`) removes it: the
   * target is removed first, and the rename then has no source.
   */
  lemma MoveOntoItselfDeletes(t: Tree, locked: set<Key>, sourcePath: string, destinationPath: string)
    requires WellFormed(t) && IsFileIn(t, Comps(sourcePath)) && Comps(sourcePath) !in locked
    requires Comps(MoveTarget(sourcePath, destinationPath)) == Comps(sourcePath)
    ensures var s, r := Comps(sourcePath), MoveFileTree(t, locked, sourcePath, destinationPath);
      !r.1 && !IsFileIn(r.0, s)
  {
    var s := Comps(sourcePath);
    var t1 := if IsDirIn(t, Comps(destinationPath)) then t
              else MkdirChain(t, Comps(ROOT_PATH), Comps(StripRoot(destinationPath)));
    MkdirChainGrows(t, Comps(ROOT_PATH), Comps(StripRoot(destinationPath)), s);
    assert IsFileIn(t1, s);
    var t2 := RemoveEffect(t, locked, s);
    MkdirChainGrows(t2, Comps(ROOT_PATH), Comps(StripRoot(GetParentDirFromPath(destinationPath))), s);
  }

  /**
   * `moveFile` as it is evidently meant: the target is removed only when it
   * is not the source itself, so a move never loses the source.
   */
  function SafeMoveFileTree(t: Tree, locked: set<Key>, sourcePath: string, destinationPath: string): (Tree, bool) {
    if Comps(MoveTarget(sourcePath, destinationPath)) == Comps(sourcePath) then (t, false)
    else MoveFileTree(t, locked, sourcePath, destinationPath)
  }

  /** The corrected move either puts the source's entry at the target or leaves it where it was. */
  lemma SafeMoveKeepsSource(t: Tree, locked: set<Key>, sourcePath: string, destinationPath: string)
    requires WellFormed(t) && Comps(sourcePath) in t
    ensures var s, target := Comps(sourcePath), Comps(MoveTarget(sourcePath, destinationPath));
      var r := SafeMoveFileTree(t, locked, sourcePath, destinationPath);
      if r.1 then s !in r.0 && target in r.0 && r.0[target] == t[s] else s in r.0 && r.0[s] == t[s]
  {
    MoveFileOutcome(t, locked, sourcePath, destinationPath);
  }

  // ---------------------------------------------------------------------
  // moveDirectory: what one walk step may do to the tree.

  /** Where the walk puts the entry `k` of the source tree `s`. */
  function Dest(s: Key, d: Key, k: Key): Key
    requires s <= k
  {
    d + k[|s|..]
  }

  /** The source entry a destination entry `k` would be moved from. */
  function Src(s: Key, d: Key, k: Key): Key
    requires d <= k
  {
    s + k[|d|..]
  }

  lemma SrcOfDest(s: Key, d: Key, k: Key)
    requires s <= k
    ensures d <= Dest(s, d, k) && Src(s, d, Dest(s, d, k)) == k
  {
    assert Dest(s, d, k)[|d|..] == k[|s|..];
  }

  lemma DestChild(s: Key, d: Key, k: Key, n: string)
    requires s <= k
    ensures s <= k + [n] && Dest(s, d, k + [n]) == Dest(s, d, k) + [n]
  {
    assert (k + [n])[|s|..] == k[|s|..] + [n];
  }

  /** Below one of two disjoint keys is never below the other. */
  lemma BelowOne(s: Key, d: Key, k: Key)
    requires Disjoint(s, d)
    ensures d <= k ==> !(s <= k)
    ensures s <= k ==> !(d <= k)
  {
  }

  /** Entries below neither key are as they were. */
  ghost predicate Outside(t0: Tree, t: Tree, s: Key, d: Key) {
    forall k :: !(s <= k) && !(d <= k) ==> (k in t <==> k in t0) && (k in t ==> t[k] == t0[k])
  }

  /** Below the source, entries only disappear. */
  ghost predicate SourceShrinks(t0: Tree, t: Tree, s: Key) {
    forall k :: k in t && s <= k ==> k in t0 && t[k] == t0[k]
  }

  /** Each moved entry was a non-directory below the source, and now sits, unchanged, at its destination. */
  ghost predicate MovedOk(t0: Tree, t: Tree, s: Key, d: Key, moved: set<Key>) {
    forall m :: m in moved ==>
      s < m && m in t0 && !t0[m].Dir? && m !in t && Dest(s, d, m) in t && t[Dest(s, d, m)] == t0[m]
  }

  /** Every non-directory below the source that was not moved is still there. */
  ghost predicate FilesKept(t0: Tree, t: Tree, s: Key, moved: set<Key>) {
    forall k :: k in t0 && s <= k && !t0[k].Dir? && k !in moved ==> k in t
  }

  /** Below the destination, an entry is a moved-in one, a directory, or as it was. */
  ghost predicate DestOk(t0: Tree, t: Tree, s: Key, d: Key, moved: set<Key>) {
    forall k :: k in t && d <= k && Src(s, d, k) !in moved ==> t[k].Dir? || (k in t0 && t[k] == t0[k])
  }

  /** An entry below the destination disappears only where the source has a non-directory of that name. */
  ghost predicate DestLost(t0: Tree, t: Tree, s: Key, d: Key) {
    forall k :: k in t0 && k !in t && d <= k ==> Src(s, d, k) in t0 && !t0[Src(s, d, k)].Dir?
  }

  /** What `moveDirectory` guarantees about the tree, with `moved` the source entries it renamed. */
  ghost predicate MoveSafe(t0: Tree, t: Tree, s: Key, d: Key, moved: set<Key>) {
    && Outside(t0, t, s, d) && SourceShrinks(t0, t, s) && MovedOk(t0, t, s, d, moved)
    && FilesKept(t0, t, s, moved) && DestOk(t0, t, s, d, moved) && DestLost(t0, t, s, d)
  }

  /** During the walk nothing below the source disappears except what was moved. */
  ghost predicate WalkKeeps(t0: Tree, t: Tree, s: Key, moved: set<Key>) {
    forall k :: k in t0 && s <= k && k !in moved ==> k in t
  }

  /**
   * The `mkdir` of the destination keeps the guarantee: the trees are apart,
   * or the source is not a directory and so has nothing below it.
   */
  lemma SafeStart(t0: Tree, s: Key, d: Key)
    requires WellFormed(t0) && s in t0 && (IsDirIn(t0, s) ==> Disjoint(s, d))
    ensures MoveSafe(t0, MkdirEffect(t0, d), s, d, {}) && WalkKeeps(t0, MkdirEffect(t0, d), s, {})
  {
    if IsDirIn(t0, s) {
      BelowOne(s, d, d);
    } else if d !in t0 && d != [] && ParentIsDir(t0, d) && s <= d {
      assert s != d && |d| > 1;
      var p := Parent(d);
      assert p[..|s|] == s;
      if p == s {
      } else {
        NoOrphans(t0, s, p);
      }
    }
  }

  /** A `mkdir` below the destination keeps the guarantee. */
  lemma MkdirStep(t0: Tree, t: Tree, s: Key, d: Key, moved: set<Key>, x: Key)
    requires Disjoint(s, d) && d <= x
    requires MoveSafe(t0, t, s, d, moved) && WalkKeeps(t0, t, s, moved)
    ensures MoveSafe(t0, MkdirEffect(t, x), s, d, moved) && WalkKeeps(t0, MkdirEffect(t, x), s, moved)
  {
    BelowOne(s, d, x);
  }

  /** A `remove` of the destination of a source entry not yet moved keeps the guarantee. */
  lemma RemoveDestStep(t0: Tree, t: Tree, locked: set<Key>, s: Key, d: Key, moved: set<Key>, c: Key)
    requires Disjoint(s, d) && s < c && c in t0 && !t0[c].Dir? && c !in moved
    requires MoveSafe(t0, t, s, d, moved) && WalkKeeps(t0, t, s, moved)
    ensures var t1 := RemoveEffect(t, locked, Dest(s, d, c));
      MoveSafe(t0, t1, s, d, moved) && WalkKeeps(t0, t1, s, moved)
  {
    var x := Dest(s, d, c);
    SrcOfDest(s, d, c);
    BelowOne(s, d, x);
    var t1 := RemoveEffect(t, locked, x);
    forall m | m in moved ensures Dest(s, d, m) != x {
      SrcOfDest(s, d, m);
    }
  }

  /** Renaming a source non-directory onto its destination keeps the guarantee, with it moved. */
  lemma RenameStep(t0: Tree, t: Tree, locked: set<Key>, s: Key, d: Key, moved: set<Key>, c: Key)
    requires WellFormed(t) && Disjoint(s, d) && s < c && c in t0 && !t0[c].Dir? && c !in moved
    requires MoveSafe(t0, t, s, d, moved) && WalkKeeps(t0, t, s, moved)
    ensures var r := RenameEffect(t, locked, c, Dest(s, d, c));
      var moved' := if r.1 then moved + {c} else moved;
      MoveSafe(t0, r.0, s, d, moved') && WalkKeeps(t0, r.0, s, moved')
  {
    var x := Dest(s, d, c);
    if RenameEffect(t, locked, c, x).1 {
      MoveSubtreeOfNonDir(t, c, x);
      RenamedLeaf(t0, t, s, d, moved, c);
    }
  }

  /** The tree once the non-directory `c` is renamed to its destination. */
  lemma RenamedLeaf(t0: Tree, t: Tree, s: Key, d: Key, moved: set<Key>, c: Key)
    requires Disjoint(s, d) && s < c && c in t && c in t0 && !t0[c].Dir? && c !in moved
    requires MoveSafe(t0, t, s, d, moved) && WalkKeeps(t0, t, s, moved)
    ensures var t2 := (t - {c})[Dest(s, d, c) := t[c]];
      MoveSafe(t0, t2, s, d, moved + {c}) && WalkKeeps(t0, t2, s, moved + {c})
  {
    var x := Dest(s, d, c);
    SrcOfDest(s, d, c);
    BelowOne(s, d, x);
    BelowOne(s, d, c);
    var t2 := (t - {c})[x := t[c]];
    forall m | m in moved ensures Dest(s, d, m) != x && m != c && m != x && Dest(s, d, m) != c {
      SrcOfDest(s, d, m);
      BelowOne(s, d, Dest(s, d, m));
    }
    RenamedMovedOk(t0, t, s, d, moved, c);
    assert DestOk(t0, t2, s, d, moved + {c});
  }

  lemma RenamedMovedOk(t0: Tree, t: Tree, s: Key, d: Key, moved: set<Key>, c: Key)
    requires s < c && c in t && c in t0 && t[c] == t0[c] && !t0[c].Dir? && c !in moved
    requires MovedOk(t0, t, s, d, moved)
    requires Dest(s, d, c) != c
    requires forall m :: m in moved ==>
      Dest(s, d, m) != Dest(s, d, c) && m != c && m != Dest(s, d, c) && Dest(s, d, m) != c
    ensures MovedOk(t0, (t - {c})[Dest(s, d, c) := t[c]], s, d, moved + {c})
  {
    var t2 := (t - {c})[Dest(s, d, c) := t[c]];
    forall m | m in moved + {c}
      ensures s < m && m in t0 && !t0[m].Dir? && m !in t2 && Dest(s, d, m) in t2 && t2[Dest(s, d, m)] == t0[m]
    {
      if m != c {
        assert m in moved;
        assert m !in t && Dest(s, d, m) in t;
      }
    }
  }

  /** An `rmdir` of a directory below the source keeps the guarantee. */
  lemma RmdirStep(t0: Tree, t: Tree, locked: set<Key>, s: Key, d: Key, moved: set<Key>, k: Key)
    requires Disjoint(s, d) && s <= k && MoveSafe(t0, t, s, d, moved)
    ensures var t' := if k in t && k !in locked && t[k].Dir? && ChildKeys(t, k) == {} then t - {k} else t;
      MoveSafe(t0, t', s, d, moved)
  {
    BelowOne(s, d, k);
  }

  // ---------------------------------------------------------------------
  // moveDirectory: the walk.

  /** One pending directory of the walk: a source directory and the directory its entries go to. */
  datatype Job = Job(src: string, dst: string)

  /** The jobs name the keys `ks`, each below the source, with its destination alongside. */
  ghost predicate JobsName(s: Key, d: Key, stack: seq<Job>, ks: seq<Key>) {
    |stack| == |ks| &&
    forall i :: 0 <= i < |ks| ==> s <= ks[i] && Comps(stack[i].src) == ks[i] && Comps(stack[i].dst) == Dest(s, d, ks[i])
  }

  /** Every path queued for `rmdir` lies below the source. */
  ghost predicate DirsBelow(s: Key, dirs: seq<string>) {
    forall i :: 0 <= i < |dirs| ==> s <= Comps(dirs[i])
  }

  /** The lines a log gained name the keys `ks`. */
  ghost predicate LogNames(before: seq<string>, after: seq<string>, ks: seq<Key>) {
    |before| <= |after| && after[..|before|] == before && Names(after[|before|..], ks)
  }

  /** The lines a log gained name the destinations of the keys `ks`. */
  ghost predicate LogDests(before: seq<string>, after: seq<string>, s: Key, d: Key, ks: seq<Key>) {
    && |before| <= |after| && after[..|before|] == before && |after| - |before| == |ks|
    && forall i :: 0 <= i < |ks| ==> s <= ks[i] && Comps(after[|before| + i]) == Dest(s, d, ks[i])
  }

  ghost predicate LogsOk(logSource: Log?, logDestination: Log?, ls0: seq<string>, ld0: seq<string>,
                         s: Key, d: Key, logged: seq<Key>)
    reads logSource, logDestination
  {
    && (logSource != null ==> LogNames(ls0, logSource.lines, logged))
    && (logDestination != null ==> LogDests(ld0, logDestination.lines, s, d, logged))
  }

  lemma LogNamesSnoc(before: seq<string>, after: seq<string>, ks: seq<Key>, p: string, k: Key)
    requires LogNames(before, after, ks) && Comps(p) == k
    ensures LogNames(before, after + [p], ks + [k])
  {
    assert (after + [p])[..|before|] == after[..|before|];
    assert (after + [p])[|before|..] == after[|before|..] + [p];
  }

  lemma LogDestsSnoc(before: seq<string>, after: seq<string>, s: Key, d: Key, ks: seq<Key>, p: string, k: Key)
    requires LogDests(before, after, s, d, ks) && s <= k && Comps(p) == Dest(s, d, k)
    ensures LogDests(before, after + [p], s, d, ks + [k])
  {
    assert (after + [p])[..|before|] == after[..|before|];
  }

  /** Both logs gain the paths of one more moved entry. */
  lemma LogsSnoc(ls0: seq<string>, ld0: seq<string>, s: Key, d: Key, logged0: seq<Key>, L: seq<Key>, c: Key,
                 p: string, q: string, ls: seq<string>, ld: seq<string>)
    requires s <= c && Comps(p) == c && Comps(q) == Dest(s, d, c)
    ensures LogNames(ls0, ls, logged0 + L) ==> LogNames(ls0, ls + [p], logged0 + (L + [c]))
    ensures LogDests(ld0, ld, s, d, logged0 + L) ==> LogDests(ld0, ld + [q], s, d, logged0 + (L + [c]))
  {
    AssocKeys(logged0, L, c);
    if LogNames(ls0, ls, logged0 + L) {
      LogNamesSnoc(ls0, ls, logged0 + L, p, c);
    }
    if LogDests(ld0, ld, s, d, logged0 + L) {
      LogDestsSnoc(ld0, ld, s, d, logged0 + L, q, c);
    }
  }

  lemma ElemsSnoc(q: seq<Key>, x: Key)
    ensures Elems(q + [x]) == Elems(q) + {x}
  {
  }

  /**
   * Which keys the walk has seen: `ks` are the queued directories, `done`
   * the listed ones, `logged` the moved entries. Each is below the source,
   * and every one but the source itself has its parent in `done`.
   */
  ghost predicate Tracked(t0: Tree, s: Key, ks: seq<Key>, done: set<Key>, logged: seq<Key>) {
    && Distinct(ks)
    && (forall k :: k in ks ==> k in t0 && s <= k && k !in done)
    && (forall k :: k in done ==> k in t0 && s <= k)
    && (forall k :: k in ks && k != s ==> |k| > 0 && Parent(k) in done)
    && (forall k :: k in done && k != s ==> |k| > 0 && Parent(k) in done)
    && (forall m :: m in logged ==> |m| > 0 && Parent(m) in done)
  }

  /** Each key comes after the key of its parent. */
  ghost predicate ParentsFirst(dks: seq<Key>) {
    forall i, j :: 0 <= i < |dks| && 0 <= j < |dks| && |dks[j]| > 0 && Parent(dks[j]) == dks[i] ==> i < j
  }

  /**
   * The keys `dks` of the paths queued for `rmdir`: every directory queued
   * or listed except the source itself, once each, parents first.
   */
  ghost predicate QueueOrder(s: Key, dks: seq<Key>, ks: seq<Key>, done: set<Key>) {
    Distinct(dks) && (forall x :: x in dks <==> x != s && (x in ks || x in done)) && ParentsFirst(dks)
  }

  /**
   * The walk's bookkeeping between two passes; `moved` is the set of logged
   * keys and `dks` the keys of the queued `rmdir` paths. The two trees are
   * apart whenever the source is a directory.
   */
  ghost predicate WalkBook(t0: Tree, s: Key, d: Key, stack: seq<Job>, ks: seq<Key>, done: set<Key>,
                           dirs: seq<string>, dks: seq<Key>, logged: seq<Key>, moved: set<Key>) {
    && |s| > 0 && (IsDirIn(t0, s) ==> Disjoint(s, d)) && JobsName(s, d, stack, ks) && Tracked(t0, s, ks, done, logged)
    && DirsBelow(s, dirs) && Names(dirs, dks) && QueueOrder(s, dks, ks, done) && moved == Elems(logged)
  }

  /** The entries of a listing of `k`, as they are in the original tree. */
  ghost predicate Entries(t0: Tree, k: Key, es: seq<Entry>) {
    && DistinctNames(es)
    && forall j :: 0 <= j < |es| ==>
      (IsName(es[j].name) && k + [es[j].name] in t0 && (es[j].isDir <==> t0[k + [es[j].name]].Dir?))
  }

  lemma ListedInSource(t0: Tree, t: Tree, s: Key, k: Key, es: seq<Entry>)
    requires IsListing(t, k, es) && SourceShrinks(t0, t, s) && s <= k
    ensures Entries(t0, k, es)
  {
    forall j | 0 <= j < |es| ensures k + [es[j].name] in t0 && t0[k + [es[j].name]] == t[k + [es[j].name]] {
      DestChild(s, s, k, es[j].name);
    }
  }

  /** The keys the listing of `k` added: directories queued and entries moved, all children of `k`. */
  ghost predicate Added(t0: Tree, s: Key, k: Key, doneOld: set<Key>, P: seq<Key>, L: seq<Key>) {
    && (forall c :: c in P ==> c in t0 && s <= c && |c| > 0 && Parent(c) == k && c !in doneOld && c != k)
    && (forall m :: m in L ==> |m| > 0 && Parent(m) == k)
  }

  /** Listing the popped key `k` moves it to `done` and queues its new children. */
  lemma PassDone(t0: Tree, s: Key, ks0: seq<Key>, k: Key, doneOld: set<Key>, logged0: seq<Key>, P: seq<Key>, L: seq<Key>)
    requires Tracked(t0, s, ks0 + [k], doneOld, logged0) && Distinct(ks0 + P) && Added(t0, s, k, doneOld, P, L)
    ensures Tracked(t0, s, ks0 + P, doneOld + {k}, logged0 + L)
    ensures |Subtree(t0, s) - (doneOld + {k})| < |Subtree(t0, s) - doneOld|
  {
    assert k in ks0 + [k];
    forall c | c in ks0 ensures c != k {
      var i :| 0 <= i < |ks0| && ks0[i] == c;
      assert (ks0 + [k])[i] == c && (ks0 + [k])[|ks0|] == k;
    }
    forall c | c in ks0 ensures c in ks0 + [k] { }
    var U := Subtree(t0, s);
    assert U - doneOld == (U - (doneOld + {k})) + {k};
  }

  /** The walk's bookkeeping in the loop over one listing, `seen` the keys of the entries handled so far. */
  ghost predicate EntriesBook(t0: Tree, s: Key, d: Key, k: Key, seen: set<Key>, doneOld: set<Key>,
                              ks0: seq<Key>, P: seq<Key>, stack: seq<Job>, dirs: seq<string>, dks0: seq<Key>,
                              logged0: seq<Key>, L: seq<Key>, moved: set<Key>) {
    && Disjoint(s, d) && s <= k
    && Added(t0, s, k, doneOld, P, L)
    && (forall c :: c in P ==> c in seen)
    && (forall m :: m in L ==> m in seen)
    && Distinct(ks0 + P) && JobsName(s, d, stack, ks0 + P) && DirsBelow(s, dirs) && Names(dirs, dks0 + P)
    && moved == Elems(logged0 + L)
  }

  /** The guarantee, and that the walk has removed nothing but what it moved. */
  ghost predicate Safe(t0: Tree, t: Tree, s: Key, d: Key, moved: set<Key>) {
    MoveSafe(t0, t, s, d, moved) && WalkKeeps(t0, t, s, moved)
  }

  // ---------------------------------------------------------------------
  // moveDirectory: the walk when nothing can fail.

  /**
   * The conditions under which no step of the walk fails: the source is a
   * directory with nothing locked or unreadable at or below it, the two
   * trees are apart, and the destination is a directory, or can be made,
   * with nothing below it.
   */
  ghost predicate MoveClean(t0: Tree, locked: set<Key>, unreadable: set<Key>, s: Key, d: Key) {
    && IsDirIn(t0, s) && Disjoint(s, d) && |d| > 0
    && (forall k :: k in t0 && s <= k ==> k !in locked && k !in unreadable)
    && (forall k :: k in t0 ==> !(d < k))
    && (IsDirIn(t0, d) || (d !in t0 && ParentIsDir(t0, d)))
  }

  /** Every directory strictly below the destination stands for a source directory. */
  ghost predicate DestDirs(t0: Tree, t: Tree, s: Key, d: Key) {
    forall x :: x in t && d < x && t[x].Dir? ==> Src(s, d, x) in t0 && t0[Src(s, d, x)].Dir?
  }

  /**
   * The fault-free walk between two passes: the source is queued or listed;
   * every queued or listed key is a source directory whose destination is a
   * directory; and each child of a listed key is queued or listed when it is
   * a directory, moved otherwise.
   */
  ghost predicate WalkClean(t0: Tree, t: Tree, s: Key, d: Key, ks: seq<Key>, done: set<Key>, moved: set<Key>) {
    && (s in done || s in ks)
    && (forall j :: j in ks ==> j in t0 && t0[j].Dir? && s <= j && IsDirIn(t, Dest(s, d, j)))
    && (forall j :: j in done ==> j in t0 && t0[j].Dir?)
    && (forall c :: c in t0 && |c| > 0 && Parent(c) in done ==>
          (t0[c].Dir? ==> c in done || c in ks) && (!t0[c].Dir? ==> c in moved))
    && DestDirs(t0, t, s, d) && DoneMade(t, s, d, done)
  }

  /** The destination of every listed key is a directory. */
  ghost predicate DoneMade(t: Tree, s: Key, d: Key, done: set<Key>) {
    forall j :: j in done ==> s <= j && IsDirIn(t, Dest(s, d, j))
  }

  /** A `mkdir` takes no directory away. */
  lemma MkdirKeepsMade(t: Tree, s: Key, d: Key, done: set<Key>, x: Key)
    requires DoneMade(t, s, d, done)
    ensures DoneMade(MkdirEffect(t, x), s, d, done)
  {
  }

  /**
   * Removing the destination of a source non-directory and renaming the
   * entry there leaves the destination of every other source key as it was.
   */
  lemma FileStepKeepsMade(t0: Tree, t: Tree, locked: set<Key>, s: Key, d: Key, c: Key, done: set<Key>)
    requires WellFormed(t) && Disjoint(s, d) && s <= c && c !in done && DoneMade(t, s, d, done)
    requires SourceShrinks(t0, t, s) && c in t0 && !t0[c].Dir?
    ensures DoneMade(RenameEffect(RemoveEffect(t, locked, Dest(s, d, c)), locked, c, Dest(s, d, c)).0, s, d, done)
  {
    var x := Dest(s, d, c);
    var t1 := RemoveEffect(t, locked, x);
    SrcOfDest(s, d, c);
    forall j | j in done ensures IsDirIn(t1, Dest(s, d, j)) {
      SrcOfDest(s, d, j);
    }
    var r := RenameEffect(t1, locked, c, x);
    if r.1 {
      RemoveEffectWellFormed(t, locked, x);
      BelowOne(s, d, x);
      MoveSubtreeOfNonDir(t1, c, x);
      forall j | j in done ensures IsDirIn(r.0, Dest(s, d, j)) {
        SrcOfDest(s, d, j);
        BelowOne(s, d, Dest(s, d, j));
      }
    }
  }

  /** Removing an entry below the source leaves every destination directory. */
  lemma RmdirKeepsMade(t: Tree, t': Tree, s: Key, d: Key, done: set<Key>, q: Key)
    requires Disjoint(s, d) && s <= q && DoneMade(t, s, d, done) && (t' == t || t' == t - {q})
    ensures DoneMade(t', s, d, done)
  {
    forall j | j in done ensures IsDirIn(t', Dest(s, d, j)) {
      SrcOfDest(s, d, j);
      BelowOne(s, d, Dest(s, d, j));
    }
  }

  /** The fault-free walk inside the listing of `k`: each entry seen so far is queued or moved, by its kind. */
  ghost predicate EntriesClean(t0: Tree, t: Tree, s: Key, d: Key, k: Key, seen: set<Key>,
                               ks0: seq<Key>, P: seq<Key>, L: seq<Key>) {
    && s <= k && IsDirIn(t, Dest(s, d, k))
    && (forall j :: j in ks0 + P ==> j in t0 && t0[j].Dir? && s <= j && IsDirIn(t, Dest(s, d, j)))
    && (forall c :: c in seen ==> c in t0 && (t0[c].Dir? ==> c in P) && (!t0[c].Dir? ==> c in L))
    && DestDirs(t0, t, s, d)
  }

  /** Every directory at or below the source was listed and every other entry moved. */
  ghost predicate AllListed(t0: Tree, s: Key, done: set<Key>, moved: set<Key>) {
    forall k :: k in t0 && s <= k ==> (t0[k].Dir? ==> k in done) && (!t0[k].Dir? ==> k in moved)
  }

  /** At the start only the source is queued, and its destination is a directory once made. */
  lemma CleanStart(t0: Tree, locked: set<Key>, unreadable: set<Key>, s: Key, d: Key)
    requires MoveClean(t0, locked, unreadable, s, d)
    ensures WalkClean(t0, MkdirEffect(t0, d), s, d, [s], {}, {})
  {
    assert s[|s|..] == [] && d + [] == d;
  }

  /** A queued key is a readable directory of the current tree. */
  lemma CleanListable(t0: Tree, t: Tree, locked: set<Key>, unreadable: set<Key>, s: Key, d: Key,
                      ks: seq<Key>, done: set<Key>, moved: set<Key>, k: Key)
    requires MoveClean(t0, locked, unreadable, s, d) && WalkClean(t0, t, s, d, ks, done, moved)
    requires Safe(t0, t, s, d, moved) && k in ks
    ensures k in t && t[k].Dir? && k !in unreadable
  {
  }

  lemma EntriesStartClean(t0: Tree, t: Tree, s: Key, d: Key, ks0: seq<Key>, k: Key, done: set<Key>, moved: set<Key>)
    requires WalkClean(t0, t, s, d, ks0 + [k], done, moved)
    ensures EntriesClean(t0, t, s, d, k, {}, ks0, [], [])
  {
    assert k in ks0 + [k];
    assert ks0 + [] == ks0;
    forall j | j in ks0 ensures j in ks0 + [k] { }
  }

  /** The `mkdir` for a source directory finds or makes a directory and the entry is queued. */
  lemma CleanDirStep(t0: Tree, t: Tree, locked: set<Key>, unreadable: set<Key>, s: Key, d: Key, k: Key,
                     seen: set<Key>, ks0: seq<Key>, P: seq<Key>, L: seq<Key>, moved: set<Key>, n: string)
    requires MoveClean(t0, locked, unreadable, s, d) && EntriesClean(t0, t, s, d, k, seen, ks0, P, L)
    requires DestOk(t0, t, s, d, moved)
    requires k + [n] in t0 && t0[k + [n]].Dir? && k + [n] !in moved
    ensures var c := k + [n]; var x := Dest(s, d, c);
      && (x in t || (x != [] && ParentIsDir(t, x)))
      && EntriesClean(t0, MkdirEffect(t, x), s, d, k, seen + {c}, ks0, P + [c], L)
  {
    var c := k + [n];
    DestChild(s, d, k, n);
    SrcOfDest(s, d, c);
    var x := Dest(s, d, c);
    assert Parent(x) == Dest(s, d, k) && |x| > 1;
    assert d < x;
    var t' := MkdirEffect(t, x);
    assert IsDirIn(t', x);
    forall j | j in ks0 + (P + [c]) ensures j in t0 && t0[j].Dir? && s <= j && IsDirIn(t', Dest(s, d, j)) {
      if j != c {
        assert j in ks0 + P;
      }
    }
  }

  /** A source non-directory finds nothing at its destination, and its rename succeeds. */
  lemma CleanFileStep(t0: Tree, t: Tree, locked: set<Key>, unreadable: set<Key>, s: Key, d: Key, k: Key,
                      seen: set<Key>, ks0: seq<Key>, P: seq<Key>, L: seq<Key>, moved: set<Key>, n: string)
    requires WellFormed(t) && MoveClean(t0, locked, unreadable, s, d) && EntriesClean(t0, t, s, d, k, seen, ks0, P, L)
    requires Safe(t0, t, s, d, moved)
    requires k + [n] in t0 && !t0[k + [n]].Dir? && k + [n] !in moved
    ensures var c := k + [n]; var x := Dest(s, d, c);
      var r := RenameEffect(RemoveEffect(t, locked, x), locked, c, x);
      r.1 && EntriesClean(t0, r.0, s, d, k, seen + {c}, ks0, P, L + [c])
  {
    var c := k + [n];
    DestChild(s, d, k, n);
    SrcOfDest(s, d, c);
    var x := Dest(s, d, c);
    BelowOne(s, d, x);
    assert Parent(x) == Dest(s, d, k) && |x| > 1;
    assert d < x && x !in t0;
    assert x !in t;
    assert c in t && t[c] == t0[c];
    MoveSubtreeOfNonDir(t, c, x);
    var t' := (t - {c})[x := t[c]];
    SrcOfDest(s, d, k);
    BelowOne(s, d, Dest(s, d, k));
    forall j | j in ks0 + P ensures IsDirIn(t', Dest(s, d, j)) {
      SrcOfDest(s, d, j);
      BelowOne(s, d, Dest(s, d, j));
    }
  }

  /** After the listing of `k`, each child of `k` in the source is queued or moved. */
  lemma PassEndClean(t0: Tree, tL: Tree, t: Tree, s: Key, d: Key, k: Key, es: seq<Entry>, done: set<Key>,
                     ks0: seq<Key>, P: seq<Key>, logged: seq<Key>, L: seq<Key>, moved0: set<Key>, moved: set<Key>)
    requires WalkClean(t0, tL, s, d, ks0 + [k], done, moved0)
    requires Tracked(t0, s, ks0 + [k], done, logged) && moved0 == Elems(logged)
    requires WalkKeeps(t0, tL, s, moved0) && IsListing(tL, k, es)
    requires EntriesClean(t0, t, s, d, k, EntryKeys(k, es), ks0, P, L) && DoneMade(t, s, d, done)
    requires moved == Elems(logged + L)
    ensures WalkClean(t0, t, s, d, ks0 + P, done + {k}, moved)
  {
    assert k in ks0 + [k];
    forall c | c in t0 && |c| > 0 && Parent(c) in done + {k}
      ensures (t0[c].Dir? ==> c in done + {k} || c in ks0 + P) && (!t0[c].Dir? ==> c in moved)
    {
      if Parent(c) in done {
        assert c in ks0 + [k] ==> c == k || c in ks0;
      } else {
        assert k <= c && s <= c;
        assert c !in moved0;
        assert c in ChildKeys(tL, k);
      }
    }
  }

  /** At the end of the fault-free walk every key at or below the source has been listed or moved. */
  lemma WalkComplete(t0: Tree, t: Tree, s: Key, d: Key, done: set<Key>, moved: set<Key>)
    requires WellFormed(t0) && WalkClean(t0, t, s, d, [], done, moved)
    ensures AllListed(t0, s, done, moved)
  {
    forall k | k in t0 && s <= k ensures (t0[k].Dir? ==> k in done) && (!t0[k].Dir? ==> k in moved) {
      ListedKey(t0, t, s, d, done, moved, k);
    }
  }

  lemma {:induction false} ListedKey(t0: Tree, t: Tree, s: Key, d: Key, done: set<Key>, moved: set<Key>, k: Key)
    requires WellFormed(t0) && WalkClean(t0, t, s, d, [], done, moved) && k in t0 && s <= k
    ensures (t0[k].Dir? ==> k in done) && (!t0[k].Dir? ==> k in moved)
    decreases |k|
  {
    if k != s {
      assert s in done && s in t0;
      var p := Parent(k);
      assert |k| > 1 && p[..|s|] == s;
      ListedKey(t0, t, s, d, done, moved, p);
    }
  }

  /** When the fault-free walk is over, the `rmdir` pass starts with every queued directory still there. */
  lemma RmStart(t0: Tree, t: Tree, locked: set<Key>, s: Key, d: Key, dks: seq<Key>, done: set<Key>, moved: set<Key>)
    requires Distinct(dks) && ParentsFirst(dks) && (forall x :: x in dks <==> x != s && x in done)
    requires s in done && (forall k :: k in done ==> k in t0 && s <= k && t0[k].Dir?)
    requires AllListed(t0, s, done, moved) && (forall k :: k in t0 && s <= k ==> k !in locked)
    requires SourceShrinks(t0, t, s) && MovedOk(t0, t, s, d, moved) && WalkKeeps(t0, t, s, moved)
    ensures RmState(t, s, dks, |dks|, locked)
  {
    assert dks[..|dks|] == dks;
    forall x | 0 <= x < |dks| ensures dks[x] in done {
      assert dks[x] in dks;
    }
    forall j | j in t && s <= j ensures j == s || j in dks[..|dks|] {
      assert j in t0 && t[j] == t0[j];
      assert !t0[j].Dir? ==> j in moved;
    }
  }

  /**
   * The body of the `readdir` loop for one entry: a directory gets a
   * `mkdir` at the destination (on success or EEXIST it is queued); anything
   * else has its destination removed and is renamed there, and logged when
   * the rename succeeds.
   */
  method MoveEntry(fs: Volume, fullPathSrc: string, fullPathDst: string, isDir: bool, logSource: Log?, logDestination: Log?)
      returns (pushed: bool, moved: bool)
    requires fs.Valid() && (logSource == null || logSource != logDestination)
    modifies fs, logSource, logDestination
    ensures fs.Valid()
    ensures var t, c, x := old(fs.nodes), Comps(fullPathSrc), Comps(fullPathDst);
      if isDir then !moved && fs.nodes == MkdirEffect(t, x) && (pushed <==> x in t || (x != [] && ParentIsDir(t, x)))
      else !pushed && (fs.nodes, moved) == RenameEffect(RemoveEffect(t, fs.locked, x), fs.locked, c, x)
    ensures logSource != null ==>
      logSource.lines == if moved then old(logSource.lines) + [fullPathSrc] else old(logSource.lines)
    ensures logDestination != null ==>
      logDestination.lines == if moved then old(logDestination.lines) + [fullPathDst] else old(logDestination.lines)
  {
    pushed, moved := false, false;
    if isDir {
      var r := fs.Mkdir(fullPathDst);
      pushed := r != MkdirFailed;
    } else {
      var _ := fs.Remove(fullPathDst);
      moved := fs.Rename(fullPathSrc, fullPathDst);
      if moved {
        WriteLog(logSource, fullPathSrc);
        WriteLog(logDestination, fullPathDst);
      }
    }
  }

  lemma DistinctSnoc(q: seq<Key>, x: Key)
    requires Distinct(q) && x !in q
    ensures Distinct(q + [x])
  {
  }

  lemma AssocKeys(a: seq<Key>, b: seq<Key>, x: Key)
    ensures a + (b + [x]) == a + b + [x]
  {
  }

  /** The child `c` of the listed key has not been queued, listed or moved before. */
  lemma FreshChild(t0: Tree, s: Key, k: Key, n: string, seen: set<Key>, doneOld: set<Key>,
                   ks0: seq<Key>, P: seq<Key>, logged0: seq<Key>, L: seq<Key>)
    requires s <= k && k + [n] !in seen
    requires Tracked(t0, s, ks0 + [k], doneOld, logged0)
    requires forall c :: c in P ==> c in seen
    requires forall m :: m in L ==> m in seen
    ensures var c := k + [n];
      && s < c && |c| > 0 && Parent(c) == k && c != k
      && c !in ks0 + P && c !in logged0 + L && c !in doneOld
  {
    var c := k + [n];
    DestChild(s, s, k, n);
    assert Parent(c) == k;
    assert k in ks0 + [k];
    assert forall x :: x in ks0 ==> x in ks0 + [k];
  }

  /** A directory entry is queued when its destination could be made. */
  lemma DirBook(t0: Tree, s: Key, d: Key, k: Key, seen: set<Key>, doneOld: set<Key>,
                ks0: seq<Key>, P: seq<Key>, stack: seq<Job>, dirs: seq<string>, dks0: seq<Key>,
                logged0: seq<Key>, L: seq<Key>, moved: set<Key>, job: Job, c: Key)
    requires c in t0 && EntriesBook(t0, s, d, k, seen, doneOld, ks0, P, stack, dirs, dks0, logged0, L, moved)
    requires s < c && |c| > 0 && Parent(c) == k && c != k && c !in ks0 + P && c !in doneOld
    requires Comps(job.src) == c && Comps(job.dst) == Dest(s, d, c)
    ensures EntriesBook(t0, s, d, k, seen + {c}, doneOld, ks0, P + [c], stack + [job], dirs + [job.src], dks0,
                        logged0, L, moved)
  {
    DistinctSnoc(ks0 + P, c);
    AssocKeys(ks0, P, c);
    AssocKeys(dks0, P, c);
  }

  /** Skipping an entry keeps the bookkeeping. */
  lemma SkipBook(t0: Tree, s: Key, d: Key, k: Key, seen: set<Key>, doneOld: set<Key>,
                 ks0: seq<Key>, P: seq<Key>, stack: seq<Job>, dirs: seq<string>, dks0: seq<Key>,
                 logged0: seq<Key>, L: seq<Key>, moved: set<Key>, c: Key)
    requires EntriesBook(t0, s, d, k, seen, doneOld, ks0, P, stack, dirs, dks0, logged0, L, moved)
    ensures EntriesBook(t0, s, d, k, seen + {c}, doneOld, ks0, P, stack, dirs, dks0, logged0, L, moved)
  {
  }

  /** An entry whose rename succeeded is recorded as moved. */
  lemma LeafBook(t0: Tree, s: Key, d: Key, k: Key, seen: set<Key>, doneOld: set<Key>,
                 ks0: seq<Key>, P: seq<Key>, stack: seq<Job>, dirs: seq<string>, dks0: seq<Key>,
                 logged0: seq<Key>, L: seq<Key>, moved: set<Key>, c: Key)
    requires EntriesBook(t0, s, d, k, seen, doneOld, ks0, P, stack, dirs, dks0, logged0, L, moved)
    requires |c| > 0 && Parent(c) == k
    ensures EntriesBook(t0, s, d, k, seen + {c}, doneOld, ks0, P, stack, dirs, dks0, logged0, L + [c], moved + {c})
  {
    AssocKeys(logged0, L, c);
    ElemsSnoc(logged0 + L, c);
  }

  /** The loop body for entry `i` of the listing of `k`. */
  method MoveOne(fs: Volume, job: Job, es: seq<Entry>, i: nat, logSource: Log?, logDestination: Log?,
                 stack: seq<Job>, dirs: seq<string>,
                 ghost t0: Tree, ghost s: Key, ghost d: Key, ghost k: Key, ghost doneOld: set<Key>,
                 ghost ks0: seq<Key>, ghost P: seq<Key>, ghost dks0: seq<Key>, ghost logged0: seq<Key>,
                 ghost L: seq<Key>, ghost moved: set<Key>, ghost seen: set<Key>,
                 ghost ls0: seq<string>, ghost ld0: seq<string>, ghost clean: bool)
      returns (stack': seq<Job>, dirs': seq<string>, ghost P': seq<Key>, ghost L': seq<Key>, ghost moved': set<Key>,
               ghost seen': set<Key>)
    requires fs.Valid() && (logSource == null || logSource != logDestination)
    requires i < |es| && Entries(t0, k, es) && s <= k && Comps(job.src) == k && Comps(job.dst) == Dest(s, d, k)
    requires Tracked(t0, s, ks0 + [k], doneOld, logged0)
    requires seen == EntryKeys(k, es[..i]) && DistinctNames(es)
    requires EntriesBook(t0, s, d, k, seen, doneOld, ks0, P, stack, dirs, dks0, logged0, L, moved)
    requires Safe(t0, fs.nodes, s, d, moved)
    requires LogsOk(logSource, logDestination, ls0, ld0, s, d, logged0 + L)
    requires clean ==> MoveClean(t0, fs.locked, fs.unreadable, s, d) && EntriesClean(t0, fs.nodes, s, d, k, seen, ks0, P, L)
    requires clean ==> DoneMade(fs.nodes, s, d, doneOld)
    modifies fs, logSource, logDestination
    ensures fs.Valid()
    ensures seen' == EntryKeys(k, es[..i + 1])
    ensures EntriesBook(t0, s, d, k, seen', doneOld, ks0, P', stack', dirs', dks0, logged0, L', moved')
    ensures Safe(t0, fs.nodes, s, d, moved')
    ensures LogsOk(logSource, logDestination, ls0, ld0, s, d, logged0 + L')
    ensures clean ==> EntriesClean(t0, fs.nodes, s, d, k, seen', ks0, P', L') && DoneMade(fs.nodes, s, d, doneOld)
  {
    var name := es[i].name;
    ghost var c := k + [name];
    var fullPathSrc := StripSlash(job.src) + "/" + name;
    var fullPathDst := StripSlash(job.dst) + "/" + name;
    CompsChild(StripSlash(job.src), name);
    CompsChild(StripSlash(job.dst), name);
    DestChild(s, d, k, name);
    SrcOfDest(s, d, c);
    EntryKeysFresh(k, es, i);
    FreshChild(t0, s, k, name, seen, doneOld, ks0, P, logged0, L);
    ghost var t := fs.nodes;
    var pushed, mv := MoveEntry(fs, fullPathSrc, fullPathDst, es[i].isDir, logSource, logDestination);
    stack', dirs', P', L', moved', seen' := stack, dirs, P, L, moved, seen + {c};
    if es[i].isDir {
      var next := Job(fullPathSrc, fullPathDst);
      MkdirStep(t0, t, s, d, moved, Dest(s, d, c));
      if clean {
        CleanDirStep(t0, t, fs.locked, fs.unreadable, s, d, k, seen, ks0, P, L, moved, name);
        MkdirKeepsMade(t, s, d, doneOld, Dest(s, d, c));
      }
      if pushed {
        DirBook(t0, s, d, k, seen, doneOld, ks0, P, stack, dirs, dks0, logged0, L, moved, next, c);
        stack', dirs', P' := stack + [next], dirs + [fullPathSrc], P + [c];
      } else {
        SkipBook(t0, s, d, k, seen, doneOld, ks0, P, stack, dirs, dks0, logged0, L, moved, c);
      }
    } else {
      RemoveDestStep(t0, t, fs.locked, s, d, moved, c);
      RemoveEffectWellFormed(t, fs.locked, Dest(s, d, c));
      RenameStep(t0, RemoveEffect(t, fs.locked, Dest(s, d, c)), fs.locked, s, d, moved, c);
      if clean {
        CleanFileStep(t0, t, fs.locked, fs.unreadable, s, d, k, seen, ks0, P, L, moved, name);
        FileStepKeepsMade(t0, t, fs.locked, s, d, c, doneOld);
      }
      if !mv {
        SkipBook(t0, s, d, k, seen, doneOld, ks0, P, stack, dirs, dks0, logged0, L, moved, c);
      } else {
        LeafBook(t0, s, d, k, seen, doneOld, ks0, P, stack, dirs, dks0, logged0, L, moved, c);
        L', moved' := L + [c], moved + {c};
        LogsSnoc(ls0, ld0, s, d, logged0, L, c, fullPathSrc, fullPathDst,
                 if logSource != null then old(logSource.lines) else [],
                 if logDestination != null then old(logDestination.lines) else []);
      }
    }
  }

  lemma DistinctInit(q: seq<Key>, x: Key)
    requires Distinct(q + [x])
    ensures Distinct(q)
  {
    forall i, j | 0 <= i < j < |q| ensures q[i] != q[j] {
      assert (q + [x])[i] == q[i] && (q + [x])[j] == q[j];
    }
  }

  lemma JobsPop(s: Key, d: Key, stack: seq<Job>, ks: seq<Key>)
    requires JobsName(s, d, stack, ks) && |ks| > 0
    ensures JobsName(s, d, stack[..|stack| - 1], ks[..|ks| - 1])
    ensures ks == ks[..|ks| - 1] + [ks[|ks| - 1]]
  {
  }

  /** The bookkeeping before the first entry of a listing. */
  lemma EntriesStart(t0: Tree, s: Key, d: Key, k: Key, doneOld: set<Key>, ks0: seq<Key>, stack: seq<Job>,
                     dirs: seq<string>, dks0: seq<Key>, logged0: seq<Key>, moved: set<Key>)
    requires Disjoint(s, d) && s <= k && Tracked(t0, s, ks0 + [k], doneOld, logged0)
    requires JobsName(s, d, stack, ks0) && DirsBelow(s, dirs) && Names(dirs, dks0) && moved == Elems(logged0)
    ensures EntriesBook(t0, s, d, k, {}, doneOld, ks0, [], stack, dirs, dks0, logged0, [], moved)
  {
    DistinctInit(ks0, k);
    assert ks0 + [] == ks0 && logged0 + [] == logged0 && dks0 + [] == dks0;
  }

  /** The `readdir` loop over the listing `es` of the popped job's directory `k`. */
  method MoveEntries(fs: Volume, job: Job, es: seq<Entry>, logSource: Log?, logDestination: Log?,
                     stack0: seq<Job>, dirs0: seq<string>,
                     ghost t0: Tree, ghost s: Key, ghost d: Key, ghost k: Key, ghost doneOld: set<Key>,
                     ghost ks0: seq<Key>, ghost dks0: seq<Key>, ghost logged0: seq<Key>, ghost moved0: set<Key>,
                     ghost ls0: seq<string>, ghost ld0: seq<string>, ghost clean: bool)
      returns (stack: seq<Job>, dirs: seq<string>, ghost P: seq<Key>, ghost L: seq<Key>, ghost moved: set<Key>)
    requires fs.Valid() && (logSource == null || logSource != logDestination)
    requires Entries(t0, k, es) && s <= k && Comps(job.src) == k && Comps(job.dst) == Dest(s, d, k)
    requires Disjoint(s, d) && Tracked(t0, s, ks0 + [k], doneOld, logged0)
    requires JobsName(s, d, stack0, ks0) && DirsBelow(s, dirs0) && Names(dirs0, dks0) && moved0 == Elems(logged0)
    requires Safe(t0, fs.nodes, s, d, moved0)
    requires LogsOk(logSource, logDestination, ls0, ld0, s, d, logged0)
    requires clean ==> MoveClean(t0, fs.locked, fs.unreadable, s, d) && EntriesClean(t0, fs.nodes, s, d, k, {}, ks0, [], [])
    requires clean ==> DoneMade(fs.nodes, s, d, doneOld)
    modifies fs, logSource, logDestination
    ensures fs.Valid()
    ensures EntriesBook(t0, s, d, k, EntryKeys(k, es), doneOld, ks0, P, stack, dirs, dks0, logged0, L, moved)
    ensures Safe(t0, fs.nodes, s, d, moved)
    ensures LogsOk(logSource, logDestination, ls0, ld0, s, d, logged0 + L)
    ensures clean ==> EntriesClean(t0, fs.nodes, s, d, k, EntryKeys(k, es), ks0, P, L) && DoneMade(fs.nodes, s, d, doneOld)
  {
    EntriesStart(t0, s, d, k, doneOld, ks0, stack0, dirs0, dks0, logged0, moved0);
    assert logged0 + [] == logged0;
    stack, dirs, P, L, moved := RunEntries(fs, job, es, logSource, logDestination, stack0, dirs0,
                                           t0, s, d, k, doneOld, ks0, dks0, logged0, moved0, ls0, ld0, clean);
  }

  method RunEntries(fs: Volume, job: Job, es: seq<Entry>, logSource: Log?, logDestination: Log?,
                    stack0: seq<Job>, dirs0: seq<string>,
                    ghost t0: Tree, ghost s: Key, ghost d: Key, ghost k: Key, ghost doneOld: set<Key>,
                    ghost ks0: seq<Key>, ghost dks0: seq<Key>, ghost logged0: seq<Key>, ghost moved0: set<Key>,
                    ghost ls0: seq<string>, ghost ld0: seq<string>, ghost clean: bool)
      returns (stack: seq<Job>, dirs: seq<string>, ghost P: seq<Key>, ghost L: seq<Key>, ghost moved: set<Key>)
    requires fs.Valid() && (logSource == null || logSource != logDestination)
    requires Entries(t0, k, es) && s <= k && Comps(job.src) == k && Comps(job.dst) == Dest(s, d, k)
    requires Tracked(t0, s, ks0 + [k], doneOld, logged0)
    requires EntriesBook(t0, s, d, k, {}, doneOld, ks0, [], stack0, dirs0, dks0, logged0, [], moved0)
    requires Safe(t0, fs.nodes, s, d, moved0)
    requires LogsOk(logSource, logDestination, ls0, ld0, s, d, logged0 + [])
    requires clean ==> MoveClean(t0, fs.locked, fs.unreadable, s, d) && EntriesClean(t0, fs.nodes, s, d, k, {}, ks0, [], [])
    requires clean ==> DoneMade(fs.nodes, s, d, doneOld)
    modifies fs, logSource, logDestination
    ensures fs.Valid()
    ensures EntriesBook(t0, s, d, k, EntryKeys(k, es), doneOld, ks0, P, stack, dirs, dks0, logged0, L, moved)
    ensures Safe(t0, fs.nodes, s, d, moved)
    ensures LogsOk(logSource, logDestination, ls0, ld0, s, d, logged0 + L)
    ensures clean ==> EntriesClean(t0, fs.nodes, s, d, k, EntryKeys(k, es), ks0, P, L) && DoneMade(fs.nodes, s, d, doneOld)
  {
    stack, dirs, P, L, moved := stack0, dirs0, [], [], moved0;
    ghost var seen: set<Key> := {};
    var i := 0;
    while i < |es|
      invariant i <= |es| && fs.Valid() && seen == EntryKeys(k, es[..i])
      invariant EntriesBook(t0, s, d, k, seen, doneOld, ks0, P, stack, dirs, dks0, logged0, L, moved)
      invariant Safe(t0, fs.nodes, s, d, moved)
      invariant LogsOk(logSource, logDestination, ls0, ld0, s, d, logged0 + L)
      invariant clean ==> EntriesClean(t0, fs.nodes, s, d, k, seen, ks0, P, L) && DoneMade(fs.nodes, s, d, doneOld)
    {
      stack, dirs, P, L, moved, seen := MoveOne(fs, job, es, i, logSource, logDestination, stack, dirs,
                                                t0, s, d, k, doneOld, ks0, P, dks0, logged0, L, moved, seen,
                                                ls0, ld0, clean);
      i := i + 1;
    }
    assert es[..i] == es;
  }

  /** A key the walk lists lies in a source that is a directory. */
  lemma ListedSourceIsDir(t0: Tree, s: Key, k: Key)
    requires WellFormed(t0) && IsDirIn(t0, k) && s <= k && |s| > 0
    ensures IsDirIn(t0, s)
  {
    if s != k {
      NoOrphans(t0, s, k);
    }
  }

  /** One pass of the walk: pop a job, list its directory, handle every entry. */
  method WalkPass(fs: Volume, stack: seq<Job>, dirs: seq<string>, logSource: Log?, logDestination: Log?,
                  ghost t0: Tree, ghost s: Key, ghost d: Key, ghost ks: seq<Key>, ghost done: set<Key>,
                  ghost dks: seq<Key>, ghost logged: seq<Key>, ghost moved: set<Key>,
                  ghost ls0: seq<string>, ghost ld0: seq<string>, ghost clean: bool)
      returns (stack': seq<Job>, dirs': seq<string>, ghost ks': seq<Key>, ghost done': set<Key>,
               ghost dks': seq<Key>, ghost logged': seq<Key>, ghost moved': set<Key>)
    requires fs.Valid() && WellFormed(t0) && (logSource == null || logSource != logDestination) && |stack| > 0
    requires WalkBook(t0, s, d, stack, ks, done, dirs, dks, logged, moved) && Safe(t0, fs.nodes, s, d, moved)
    requires LogsOk(logSource, logDestination, ls0, ld0, s, d, logged)
    requires clean ==> MoveClean(t0, fs.locked, fs.unreadable, s, d) && WalkClean(t0, fs.nodes, s, d, ks, done, moved)
    modifies fs, logSource, logDestination
    ensures fs.Valid()
    ensures WalkBook(t0, s, d, stack', ks', done', dirs', dks', logged', moved') && Safe(t0, fs.nodes, s, d, moved')
    ensures LogsOk(logSource, logDestination, ls0, ld0, s, d, logged')
    ensures clean ==> WalkClean(t0, fs.nodes, s, d, ks', done', moved')
    ensures |Subtree(t0, s) - done'| < |Subtree(t0, s) - done|
  {
    var job := stack[|stack| - 1];
    ghost var k := ks[|ks| - 1];
    ghost var ks0 := ks[..|ks| - 1];
    JobsPop(s, d, stack, ks);
    var rest := stack[..|stack| - 1];
    ghost var tL := fs.nodes;
    if clean {
      CleanListable(t0, tL, fs.locked, fs.unreadable, s, d, ks, done, moved, k);
    }
    var listing := fs.Readdir(job.src);
    if listing.None? {
      PassSkip(t0, s, d, stack, ks, done, dirs, dks, logged, moved);
      stack', dirs', ks', done', dks', logged', moved' := rest, dirs, ks0, done + {k}, dks, logged, moved;
    } else {
      ghost var P, L;
      stack', dirs', P, L, moved' := ListedPass(fs, job, listing.value, logSource, logDestination, rest, dirs,
                                                t0, s, d, k, done, ks0, dks, logged, moved, ls0, ld0, clean);
      ks', done', dks', logged' := ks0 + P, done + {k}, dks + P, logged + L;
    }
  }

  /** The pass over a directory that could be listed: every entry is handled, then the directory is done. */
  method ListedPass(fs: Volume, job: Job, es: seq<Entry>, logSource: Log?, logDestination: Log?,
                    rest: seq<Job>, dirs: seq<string>,
                    ghost t0: Tree, ghost s: Key, ghost d: Key, ghost k: Key, ghost done: set<Key>,
                    ghost ks0: seq<Key>, ghost dks: seq<Key>, ghost logged: seq<Key>, ghost moved: set<Key>,
                    ghost ls0: seq<string>, ghost ld0: seq<string>, ghost clean: bool)
      returns (stack': seq<Job>, dirs': seq<string>, ghost P: seq<Key>, ghost L: seq<Key>, ghost moved': set<Key>)
    requires fs.Valid() && WellFormed(t0) && (logSource == null || logSource != logDestination)
    requires IsDirIn(fs.nodes, k) && IsListing(fs.nodes, k, es) && s <= k && Comps(job.src) == k && Comps(job.dst) == Dest(s, d, k)
    requires |s| > 0 && (IsDirIn(t0, s) ==> Disjoint(s, d)) && JobsName(s, d, rest, ks0) && Tracked(t0, s, ks0 + [k], done, logged)
    requires DirsBelow(s, dirs) && Names(dirs, dks) && QueueOrder(s, dks, ks0 + [k], done) && moved == Elems(logged)
    requires Safe(t0, fs.nodes, s, d, moved) && LogsOk(logSource, logDestination, ls0, ld0, s, d, logged)
    requires clean ==> MoveClean(t0, fs.locked, fs.unreadable, s, d) && WalkClean(t0, fs.nodes, s, d, ks0 + [k], done, moved)
    modifies fs, logSource, logDestination
    ensures fs.Valid()
    ensures WalkBook(t0, s, d, stack', ks0 + P, done + {k}, dirs', dks + P, logged + L, moved')
    ensures Safe(t0, fs.nodes, s, d, moved') && LogsOk(logSource, logDestination, ls0, ld0, s, d, logged + L)
    ensures clean ==> WalkClean(t0, fs.nodes, s, d, ks0 + P, done + {k}, moved')
    ensures |Subtree(t0, s) - (done + {k})| < |Subtree(t0, s) - done|
  {
    ghost var tL := fs.nodes;
    ListedInSource(t0, fs.nodes, s, k, es);
    ListedSourceIsDir(t0, s, k);
    if clean {
      EntriesStartClean(t0, tL, s, d, ks0, k, done, moved);
    }
    stack', dirs', P, L, moved' := MoveEntries(fs, job, es, logSource, logDestination, rest, dirs,
                                               t0, s, d, k, done, ks0, dks, logged, moved, ls0, ld0, clean);
    PassEnd(t0, s, d, k, EntryKeys(k, es), done, ks0, P, stack', dirs', dks, logged, L, moved');
    if clean {
      PassEndClean(t0, tL, fs.nodes, s, d, k, es, done, ks0, P, logged, L, moved, moved');
    }
  }

  /** A job whose directory cannot be opened is only marked done. */
  lemma PassSkip(t0: Tree, s: Key, d: Key, stack: seq<Job>, ks: seq<Key>, done: set<Key>,
                 dirs: seq<string>, dks: seq<Key>, logged: seq<Key>, moved: set<Key>)
    requires WalkBook(t0, s, d, stack, ks, done, dirs, dks, logged, moved) && |ks| > 0
    ensures var k, ks0 := ks[|ks| - 1], ks[..|ks| - 1];
      && WalkBook(t0, s, d, stack[..|stack| - 1], ks0, done + {k}, dirs, dks, logged, moved)
      && |Subtree(t0, s) - (done + {k})| < |Subtree(t0, s) - done|
  {
    var k, ks0 := ks[|ks| - 1], ks[..|ks| - 1];
    JobsPop(s, d, stack, ks);
    assert ks0 + [] == ks0 && logged + [] == logged;
    DistinctInit(ks0, k);
    PassDone(t0, s, ks0, k, done, logged, [], []);
    QueueSkip(s, dks, ks0, k, done);
  }

  lemma QueueSkip(s: Key, dks: seq<Key>, ks0: seq<Key>, k: Key, done: set<Key>)
    requires QueueOrder(s, dks, ks0 + [k], done)
    ensures QueueOrder(s, dks, ks0, done + {k})
  {
    assert forall x :: x in ks0 + [k] <==> x in ks0 || x == k;
  }

  /** After the listing of `k`, the walk's bookkeeping holds again with `k` done. */
  lemma PassEnd(t0: Tree, s: Key, d: Key, k: Key, seen: set<Key>, done: set<Key>, ks0: seq<Key>, P: seq<Key>,
                stack: seq<Job>, dirs: seq<string>, dks0: seq<Key>, logged: seq<Key>, L: seq<Key>, moved: set<Key>)
    requires |s| > 0 && Tracked(t0, s, ks0 + [k], done, logged) && QueueOrder(s, dks0, ks0 + [k], done)
    requires EntriesBook(t0, s, d, k, seen, done, ks0, P, stack, dirs, dks0, logged, L, moved)
    ensures WalkBook(t0, s, d, stack, ks0 + P, done + {k}, dirs, dks0 + P, logged + L, moved)
    ensures |Subtree(t0, s) - (done + {k})| < |Subtree(t0, s) - done|
  {
    PassDone(t0, s, ks0, k, done, logged, P, L);
    QueueStep(t0, s, k, done, ks0, P, dks0, logged, L);
  }

  /** The queued directories of one listing come after everything queued before, their parent included. */
  lemma QueueStep(t0: Tree, s: Key, k: Key, done: set<Key>, ks0: seq<Key>, P: seq<Key>, dks0: seq<Key>,
                  logged: seq<Key>, L: seq<Key>)
    requires Tracked(t0, s, ks0 + [k], done, logged) && QueueOrder(s, dks0, ks0 + [k], done)
    requires Added(t0, s, k, done, P, L) && Distinct(ks0 + P)
    ensures QueueOrder(s, dks0 + P, ks0 + P, done + {k})
  {
    QueueFresh(t0, s, k, done, ks0, P, dks0, logged, L);
    DistinctTail(ks0, P);
    QueueDistinct(dks0, P);
    QueueParents(dks0, P, k, done);
    forall c | c in P ensures c != s {
      assert |c| == |k| + 1;
    }
    assert forall x :: x in dks0 + P <==> x in dks0 || x in P;
    assert forall x :: x in ks0 + P <==> x in ks0 || x in P;
    assert forall x :: x in ks0 + [k] <==> x in ks0 || x == k;
  }

  /** The keys queued before are not among the new ones, and each has a listed parent. */
  lemma QueueFresh(t0: Tree, s: Key, k: Key, done: set<Key>, ks0: seq<Key>, P: seq<Key>, dks0: seq<Key>,
                   logged: seq<Key>, L: seq<Key>)
    requires Tracked(t0, s, ks0 + [k], done, logged) && forall x :: x in dks0 ==> x != s && (x in ks0 + [k] || x in done)
    requires Added(t0, s, k, done, P, L) && Distinct(ks0 + P)
    ensures forall x :: x in dks0 ==> x !in P && |x| > 0 && Parent(x) in done
  {
    assert k in ks0 + [k];
    forall x | x in dks0 ensures x !in P && |x| > 0 && Parent(x) in done {
      assert x in ks0 + [k] || x in done;
      forall j | 0 <= j < |P| ensures P[j] != x {
        assert (ks0 + P)[|ks0| + j] == P[j];
        if x in ks0 {
          var i :| 0 <= i < |ks0| && ks0[i] == x;
          assert (ks0 + P)[i] == x;
        }
      }
    }
  }

  lemma DistinctTail(a: seq<Key>, b: seq<Key>)
    requires Distinct(a + b)
    ensures Distinct(b)
  {
    forall i, j | 0 <= i < j < |b| ensures b[i] != b[j] {
      assert (a + b)[|a| + i] == b[i] && (a + b)[|a| + j] == b[j];
    }
  }

  lemma QueueDistinct(a: seq<Key>, b: seq<Key>)
    requires Distinct(a) && Distinct(b) && forall x :: x in a ==> x !in b
    ensures Distinct(a + b)
  {
    var q := a + b;
    forall i, j | 0 <= i < j < |q| ensures q[i] != q[j] {
      if j < |a| {
        assert q[i] == a[i] && q[j] == a[j];
      } else if i < |a| {
        assert q[i] == a[i] && a[i] in a && q[j] == b[j - |a|];
      } else {
        assert q[i] == b[i - |a|] && q[j] == b[j - |a|];
      }
    }
  }

  /** Appending children of `k`, none of them listed, keeps each key after its parent. */
  lemma QueueParents(a: seq<Key>, P: seq<Key>, k: Key, done: set<Key>)
    requires ParentsFirst(a) && forall x :: x in a ==> |x| > 0 && Parent(x) in done
    requires forall c :: c in P ==> |c| > 0 && Parent(c) == k && c !in done
    ensures ParentsFirst(a + P)
  {
    var q, n := a + P, |a|;
    assert forall j :: n <= j < |q| ==> q[j] == P[j - n] && q[j] in P;
    assert forall j :: 0 <= j < n ==> q[j] == a[j] && q[j] in a;
  }

  /** What lies below the source once the walk is over, and what `rmdir` may remove. */
  ghost predicate RmState(t: Tree, s: Key, dks: seq<Key>, i: nat, locked: set<Key>) {
    && i <= |dks| && Distinct(dks) && ParentsFirst(dks)
    && s !in locked && (forall x :: 0 <= x < |dks| ==> dks[x] !in locked && s < dks[x])
    && IsDirIn(t, s)
    && (forall x :: 0 <= x < i ==> IsDirIn(t, dks[x]))
    && (forall j :: j in t && s <= j ==> j == s || j in dks[..i])
  }

  /** The `rmdir` of the last directory still queued succeeds, since each of its children came later. */
  lemma RmStep(t: Tree, s: Key, dks: seq<Key>, i: nat, locked: set<Key>)
    requires RmState(t, s, dks, i, locked) && 0 < i
    ensures var q := dks[i - 1];
      && q in t && t[q].Dir? && q !in locked && ChildKeys(t, q) == {}
      && RmState(t - {q}, s, dks, i - 1, locked)
  {
    var q := dks[i - 1];
    forall j | j in t - {q} && s <= j ensures j == s || j in dks[..i - 1] {
      if j != s {
        assert j in dks[..i];
        var y :| 0 <= y < i && dks[..i][y] == j;
        assert dks[y] == j && y != i - 1;
        assert dks[..i - 1][y] == j;
      }
    }
  }

  /** With every queued directory gone, the source has no children and its `rmdir` empties the tree below it. */
  lemma RmLast(t: Tree, s: Key, dks: seq<Key>, locked: set<Key>)
    requires RmState(t, s, dks, 0, locked)
    ensures s in t && t[s].Dir? && s !in locked && ChildKeys(t, s) == {} && Subtree(t - {s}, s) == {}
  {
    assert dks[..0] == [];
    assert forall c :: c in ChildKeys(t, s) ==> c in t && s <= c && c != s;
  }

  /** Every queued `rmdir` path lies strictly below a source that is a directory. */
  lemma QueuedBelowDir(t0: Tree, s: Key, d: Key, dirs: seq<string>, dks: seq<Key>, done: set<Key>,
                       logged: seq<Key>, moved: set<Key>)
    requires WellFormed(t0) && WalkBook(t0, s, d, [], [], done, dirs, dks, logged, moved) && |dks| > 0
    ensures IsDirIn(t0, s) && Disjoint(s, d)
  {
    var x := dks[0];
    assert x in dks && x in done && x != s;
    NoOrphans(t0, s, x);
  }

  /**
   * The `rmdir` of every queued source directory, last queued first, then
   * of the source itself. In the fault-free walk every directory below the
   * source is queued after its parent and has been emptied of files, so each
   * `rmdir` succeeds and nothing is left below the source.
   */
  method RemoveDirs(fs: Volume, dirs: seq<string>, sourcePath: string, ghost t0: Tree, ghost s: Key, ghost d: Key,
                    ghost dks: seq<Key>, ghost done: set<Key>, ghost logged: seq<Key>, ghost moved: set<Key>,
                    ghost clean: bool)
    requires fs.Valid() && WellFormed(t0) && Comps(sourcePath) == s
    requires WalkBook(t0, s, d, [], [], done, dirs, dks, logged, moved) && Safe(t0, fs.nodes, s, d, moved)
    requires clean ==> && MoveClean(t0, fs.locked, fs.unreadable, s, d) && WalkClean(t0, fs.nodes, s, d, [], done, moved)
                       && AllListed(t0, s, done, moved)
    modifies fs
    ensures fs.Valid() && MoveSafe(t0, fs.nodes, s, d, moved)
    ensures clean ==> Subtree(fs.nodes, s) == {} && DirsMade(t0, fs.nodes, s, d)
  {
    if |dirs| > 0 {
      QueuedBelowDir(t0, s, d, dirs, dks, done, logged, moved);
    }
    if clean {
      RmStart(t0, fs.nodes, fs.locked, s, d, dks, done, moved);
    }
    RemoveQueued(fs, dirs, t0, s, d, dks, done, moved, clean);
    ghost var t := fs.nodes;
    if clean {
      RmLast(t, s, dks, fs.locked);
    }
    var _ := fs.Rmdir(sourcePath);
    if IsDirIn(t0, s) {
      RmdirStep(t0, t, fs.locked, s, d, moved, s);
    } else {
      assert s in t ==> t[s] == t0[s];
    }
    if clean {
      RmdirKeepsMade(t, fs.nodes, s, d, done, s);
      ListedMade(t0, fs.nodes, s, d, done, moved);
    }
  }

  /** The `rmdir` of the queued source directories, last queued first. */
  method RemoveQueued(fs: Volume, dirs: seq<string>, ghost t0: Tree, ghost s: Key, ghost d: Key,
                      ghost dks: seq<Key>, ghost done: set<Key>, ghost moved: set<Key>, ghost clean: bool)
    requires fs.Valid() && MoveSafe(t0, fs.nodes, s, d, moved) && (|dirs| > 0 ==> Disjoint(s, d))
    requires DirsBelow(s, dirs) && Names(dirs, dks)
    requires clean ==> Disjoint(s, d) && RmState(fs.nodes, s, dks, |dks|, fs.locked) && DoneMade(fs.nodes, s, d, done)
    modifies fs
    ensures fs.Valid() && MoveSafe(t0, fs.nodes, s, d, moved)
    ensures clean ==> RmState(fs.nodes, s, dks, 0, fs.locked) && DoneMade(fs.nodes, s, d, done)
  {
    var i := |dirs|;
    while i > 0
      invariant 0 <= i <= |dirs| && fs.Valid() && MoveSafe(t0, fs.nodes, s, d, moved)
      invariant clean ==> RmState(fs.nodes, s, dks, i, fs.locked) && DoneMade(fs.nodes, s, d, done)
    {
      i := i - 1;
      ghost var t := fs.nodes;
      var _ := fs.Rmdir(dirs[i]);
      RmdirStep(t0, t, fs.locked, s, d, moved, Comps(dirs[i]));
      if clean {
        RmStep(t, s, dks, i + 1, fs.locked);
        RmdirKeepsMade(t, fs.nodes, s, d, done, dks[i]);
      }
    }
  }

  /** Once every source directory is listed, each has a directory at its destination. */
  lemma ListedMade(t0: Tree, t: Tree, s: Key, d: Key, done: set<Key>, moved: set<Key>)
    requires AllListed(t0, s, done, moved) && DoneMade(t, s, d, done)
    ensures DirsMade(t0, t, s, d)
  {
  }

  /** The walk state at the start: only the source is queued. */
  lemma WalkStart(t0: Tree, s: Key, d: Key, sourcePath: string, destinationPath: string)
    requires WellFormed(t0) && (IsDirIn(t0, s) ==> Disjoint(s, d)) && s in t0 && Comps(sourcePath) == s && Comps(destinationPath) == d
    ensures WalkBook(t0, s, d, [Job(sourcePath, destinationPath)], [s], {}, [], [], [], {})
  {
    assert s[|s|..] == [] && d + [] == d;
    assert Elems([]) == {};
    assert Elems([s]) == {s};
  }

  lemma LogsStart(logSource: Log?, logDestination: Log?, s: Key, d: Key)
    ensures LogsOk(logSource, logDestination, if logSource != null then logSource.lines else [],
                   if logDestination != null then logDestination.lines else [], s, d, [])
  {
    if logSource != null {
      assert logSource.lines[..|logSource.lines|] == logSource.lines;
    }
    if logDestination != null {
      assert logDestination.lines[..|logDestination.lines|] == logDestination.lines;
    }
  }

  /** The depth-first walk of `moveDirectory`, from the source alone on the stack until the stack is empty. */
  method Walk(fs: Volume, sourcePath: string, destinationPath: string, logSource: Log?, logDestination: Log?,
              ghost t0: Tree, ghost s: Key, ghost d: Key, ghost ls0: seq<string>, ghost ld0: seq<string>,
              ghost clean: bool)
      returns (directoriesToRemove: seq<string>, ghost dks: seq<Key>, ghost done: set<Key>,
               ghost logged: seq<Key>, ghost moved: set<Key>)
    requires fs.Valid() && WellFormed(t0) && (logSource == null || logSource != logDestination)
    requires WalkBook(t0, s, d, [Job(sourcePath, destinationPath)], [s], {}, [], [], [], {})
    requires Safe(t0, fs.nodes, s, d, {}) && LogsOk(logSource, logDestination, ls0, ld0, s, d, [])
    requires clean ==> MoveClean(t0, fs.locked, fs.unreadable, s, d) && WalkClean(t0, fs.nodes, s, d, [s], {}, {})
    modifies fs, logSource, logDestination
    ensures fs.Valid() && WalkBook(t0, s, d, [], [], done, directoriesToRemove, dks, logged, moved)
    ensures Safe(t0, fs.nodes, s, d, moved) && LogsOk(logSource, logDestination, ls0, ld0, s, d, logged)
    ensures clean ==> WalkClean(t0, fs.nodes, s, d, [], done, moved) && AllListed(t0, s, done, moved)
  {
    var stack := [Job(sourcePath, destinationPath)];
    directoriesToRemove, dks, logged, moved := [], [], [], {};
    ghost var ks;
    ks, done := [s], {};
    while |stack| > 0
      invariant fs.Valid()
      invariant WalkBook(t0, s, d, stack, ks, done, directoriesToRemove, dks, logged, moved)
      invariant Safe(t0, fs.nodes, s, d, moved)
      invariant LogsOk(logSource, logDestination, ls0, ld0, s, d, logged)
      invariant clean ==> WalkClean(t0, fs.nodes, s, d, ks, done, moved)
      decreases |Subtree(t0, s) - done|
    {
      stack, directoriesToRemove, ks, done, dks, logged, moved :=
        WalkPass(fs, stack, directoriesToRemove, logSource, logDestination, t0, s, d, ks, done, dks, logged, moved,
                 ls0, ld0, clean);
    }
    if clean {
      WalkComplete(t0, fs.nodes, s, d, done, moved);
    }
  }

  /**
   * The outcome of `moveDirectory`: nothing happens when the source is
   * missing or the destination cannot be made; otherwise MoveSafe holds with
   * the logged entries as the moved ones.
   */
  ghost predicate DirMoved(t0: Tree, t: Tree, s: Key, d: Key, logged: seq<Key>) {
    if s !in t0 || (d !in t0 && !ParentIsDir(t0, d)) then t == t0 && logged == []
    else MoveSafe(t0, t, s, d, Elems(logged))
  }

  /** Every directory at or below the source, the source included, has a directory at its destination. */
  ghost predicate DirsMade(t0: Tree, t: Tree, s: Key, d: Key) {
    forall k :: k in t0 && s <= k && t0[k].Dir? ==> IsDirIn(t, Dest(s, d, k))
  }

  /**
   * A complete move: every non-directory below the source was moved, every
   * directory has been made at the destination, and nothing is left below
   * the source.
   */
  ghost predicate DirEmptied(t0: Tree, t: Tree, s: Key, d: Key, logged: seq<Key>) {
    && (forall k :: k in t0 && s <= k && !t0[k].Dir? ==> k in Elems(logged))
    && DirsMade(t0, t, s, d) && Subtree(t, s) == {}
  }

  /**
   * `moveDirectory`: when the source exists and the destination directory
   * exists or can be made, walk the source depth first, making each
   * subdirectory at the destination and renaming every other entry there
   * (after removing what the destination had under that name), logging each
   * rename that succeeds; then `rmdir` the source directories, deepest last
   * queued first, and the source itself. MoveSafe states what the tree then
   * is; `logged` lists the renamed source entries in order. When nothing
   * can fail (MoveClean), every file is moved, every directory is made at
   * the destination and the source is gone.
   */
  method MoveDirectory(fs: Volume, sourcePath: string, destinationPath: string, logSource: Log?, logDestination: Log?)
      returns (ghost logged: seq<Key>)
    requires fs.Valid()
    requires IsDirIn(fs.nodes, Comps(sourcePath)) ==> Disjoint(Comps(sourcePath), Comps(destinationPath))
    requires logSource == null || logSource != logDestination
    modifies fs, logSource, logDestination
    ensures fs.Valid()
    ensures DirMoved(old(fs.nodes), fs.nodes, Comps(sourcePath), Comps(destinationPath), logged)
    ensures MoveClean(old(fs.nodes), fs.locked, fs.unreadable, Comps(sourcePath), Comps(destinationPath)) ==>
      DirEmptied(old(fs.nodes), fs.nodes, Comps(sourcePath), Comps(destinationPath), logged)
    ensures logSource != null ==> LogNames(old(logSource.lines), logSource.lines, logged)
    ensures logDestination != null ==>
      LogDests(old(logDestination.lines), logDestination.lines, Comps(sourcePath), Comps(destinationPath), logged)
  {
    ghost var t0, s, d := fs.nodes, Comps(sourcePath), Comps(destinationPath);
    ghost var clean := MoveClean(t0, fs.locked, fs.unreadable, s, d);
    ghost var ls0 := if logSource != null then logSource.lines else [];
    ghost var ld0 := if logDestination != null then logDestination.lines else [];
    LogsStart(logSource, logDestination, s, d);
    logged := [];
    if fs.Stat(sourcePath).None? {
      return;
    }
    var made := fs.Mkdir(destinationPath);
    if made == MkdirFailed {
      return;
    }
    logged := MoveStarted(fs, sourcePath, destinationPath, logSource, logDestination, t0, s, d, ls0, ld0, clean);
  }

  /** The walk and the `rmdir` pass of `moveDirectory`, once the destination directory is there. */
  method MoveStarted(fs: Volume, sourcePath: string, destinationPath: string, logSource: Log?, logDestination: Log?,
                     ghost t0: Tree, ghost s: Key, ghost d: Key, ghost ls0: seq<string>, ghost ld0: seq<string>,
                     ghost clean: bool)
      returns (ghost logged: seq<Key>)
    requires fs.Valid() && WellFormed(t0) && (logSource == null || logSource != logDestination)
    requires s in t0 && (IsDirIn(t0, s) ==> Disjoint(s, d)) && Comps(sourcePath) == s && Comps(destinationPath) == d
    requires fs.nodes == MkdirEffect(t0, d) && LogsOk(logSource, logDestination, ls0, ld0, s, d, [])
    requires clean ==> MoveClean(t0, fs.locked, fs.unreadable, s, d)
    modifies fs, logSource, logDestination
    ensures fs.Valid() && MoveSafe(t0, fs.nodes, s, d, Elems(logged))
    ensures clean ==> DirEmptied(t0, fs.nodes, s, d, logged)
    ensures LogsOk(logSource, logDestination, ls0, ld0, s, d, logged)
  {
    SafeStart(t0, s, d);
    WalkStart(t0, s, d, sourcePath, destinationPath);
    if clean {
      CleanStart(t0, fs.locked, fs.unreadable, s, d);
    }
    var directoriesToRemove;
    ghost var dks, done, moved;
    directoriesToRemove, dks, done, logged, moved :=
      Walk(fs, sourcePath, destinationPath, logSource, logDestination, t0, s, d, ls0, ld0, clean);
    RemoveDirsLogged(fs, directoriesToRemove, sourcePath, logSource, logDestination, t0, s, d, dks, done, logged,
                     moved, clean);
  }

  /** The `rmdir` pass, with the logs it leaves alone. */
  method RemoveDirsLogged(fs: Volume, dirs: seq<string>, sourcePath: string, logSource: Log?, logDestination: Log?,
                          ghost t0: Tree, ghost s: Key, ghost d: Key, ghost dks: seq<Key>, ghost done: set<Key>,
                          ghost logged: seq<Key>, ghost moved: set<Key>, ghost clean: bool)
    requires fs.Valid() && WellFormed(t0) && Comps(sourcePath) == s
    requires WalkBook(t0, s, d, [], [], done, dirs, dks, logged, moved) && Safe(t0, fs.nodes, s, d, moved)
    requires clean ==> && MoveClean(t0, fs.locked, fs.unreadable, s, d) && WalkClean(t0, fs.nodes, s, d, [], done, moved)
                       && AllListed(t0, s, done, moved)
    modifies fs
    ensures fs.Valid() && MoveSafe(t0, fs.nodes, s, d, moved)
    ensures clean ==> Subtree(fs.nodes, s) == {} && DirsMade(t0, fs.nodes, s, d)
    ensures Lines(logSource) == old(Lines(logSource)) && Lines(logDestination) == old(Lines(logDestination))
  {
    RemoveDirs(fs, dirs, sourcePath, t0, s, d, dks, done, logged, moved, clean);
  }

  /**
   * Moving a directory onto itself (`moveDirectory("a/", "a/")`) deletes its
   * files: each entry's destination is the entry itself, so the `remove`
   * before the rename takes the file away, and the rename then has no source.
   */
  lemma SelfMoveLosesFile(t: Tree, locked: set<Key>, s: Key, c: Key)
    requires IsFileIn(t, c) && c !in locked && s < c
    ensures Dest(s, s, c) == c
    ensures var r := RenameEffect(RemoveEffect(t, locked, Dest(s, s, c)), locked, c, Dest(s, s, c));
      !r.1 && c !in r.0
  {
    assert s + c[|s|..] == c;
  }

  /**
   * `moveDirectory` as it is evidently meant: a directory is not moved into
   * itself or into a directory below it, and nothing happens then.
   */
  method MoveDirectoryChecked(fs: Volume, sourcePath: string, destinationPath: string, logSource: Log?,
                              logDestination: Log?)
      returns (ghost logged: seq<Key>)
    requires fs.Valid() && (logSource == null || logSource != logDestination)
    modifies fs, logSource, logDestination
    ensures fs.Valid()
    ensures CheckedMoved(old(fs.nodes), fs.nodes, fs.locked, fs.unreadable, Comps(sourcePath), Comps(destinationPath), logged)
    ensures logSource != null ==> LogNames(old(logSource.lines), logSource.lines, logged)
    ensures logDestination != null ==>
      LogDests(old(logDestination.lines), logDestination.lines, Comps(sourcePath), Comps(destinationPath), logged)
  {
    if IsDirectory(fs, sourcePath) && !Disjoint(Comps(sourcePath), Comps(destinationPath)) {
      logged := [];
      if logSource != null {
        assert logSource.lines[..|logSource.lines|] == logSource.lines;
      }
      if logDestination != null {
        assert logDestination.lines[..|logDestination.lines|] == logDestination.lines;
      }
      return;
    }
    logged := MoveDirectory(fs, sourcePath, destinationPath, logSource, logDestination);
  }

  /** The outcome of the checked move: nothing for overlapping trees, the directory move otherwise. */
  ghost predicate CheckedMoved(t0: Tree, t: Tree, locked: set<Key>, unreadable: set<Key>, s: Key, d: Key,
                               logged: seq<Key>) {
    if IsDirIn(t0, s) && !Disjoint(s, d) then t == t0 && logged == []
    else DirMoved(t0, t, s, d, logged) && (MoveClean(t0, locked, unreadable, s, d) ==> DirEmptied(t0, t, s, d, logged))
  }

  /** The checked move loses no file: each one below the source is where it was or, unchanged, at its destination. */
  lemma CheckedKeepsFiles(t0: Tree, t: Tree, locked: set<Key>, unreadable: set<Key>, s: Key, d: Key, logged: seq<Key>)
    requires CheckedMoved(t0, t, locked, unreadable, s, d, logged)
    ensures forall k :: k in t0 && s <= k && !t0[k].Dir? ==>
      (k in t && t[k] == t0[k]) || (Dest(s, d, k) in t && t[Dest(s, d, k)] == t0[k])
  {
    if !(IsDirIn(t0, s) && !Disjoint(s, d)) && !(s !in t0 || (d !in t0 && !ParentIsDir(t0, d))) {
      var moved := Elems(logged);
      forall k | k in t0 && s <= k && !t0[k].Dir?
        ensures (k in t && t[k] == t0[k]) || (Dest(s, d, k) in t && t[Dest(s, d, k)] == t0[k])
      {
        if k !in moved {
          assert k in t;
        }
      }
    }
  }

  // ---------------------------------------------------------------------
  // moveFileOrDirectory and moveFilesOrDirectoriesByPattern.

  /**
   * What one `moveFileOrDirectory` does to the tree: with both paths ending
   * in '/', the directory move, complete when nothing can fail; otherwise
   * the file move, with `logged` the source when its rename succeeded.
   */
  ghost predicate MoveOutcome(t0: Tree, t: Tree, locked: set<Key>, unreadable: set<Key>,
                              sourcePath: string, destinationPath: string, logged: seq<Key>) {
    var s, d := Comps(sourcePath), Comps(destinationPath);
    if EndsWithSlash(sourcePath) && EndsWithSlash(destinationPath) then
      && DirMoved(t0, t, s, d, logged)
      && (MoveClean(t0, locked, unreadable, s, d) ==> DirEmptied(t0, t, s, d, logged))
    else
      |logged| <= 1 && (t, logged != []) == MoveFileTree(t0, locked, sourcePath, destinationPath)
  }

  /**
   * `moveFileOrDirectory`: a directory move when both paths end in '/',
   * a `moveFile` otherwise. `logged` is what the source log gained, as keys.
   */
  method MoveFileOrDirectory(fs: Volume, sourcePath: string, destinationPath: string, logSource: Log?, logDestination: Log?)
      returns (ghost logged: seq<Key>)
    requires fs.Valid() && |sourcePath| > 0 && |destinationPath| > 0
    requires EndsWithSlash(sourcePath) && EndsWithSlash(destinationPath) && IsDirIn(fs.nodes, Comps(sourcePath)) ==>
      Disjoint(Comps(sourcePath), Comps(destinationPath))
    requires logSource == null || logSource != logDestination
    modifies fs, logSource, logDestination
    ensures fs.Valid()
    ensures MoveOutcome(old(fs.nodes), fs.nodes, fs.locked, fs.unreadable, sourcePath, destinationPath, logged)
    ensures EndsWithSlash(sourcePath) && EndsWithSlash(destinationPath) ==>
      && (logSource != null ==> LogNames(old(logSource.lines), logSource.lines, logged))
      && (logDestination != null ==>
            LogDests(old(logDestination.lines), logDestination.lines, Comps(sourcePath), Comps(destinationPath), logged))
    ensures !(EndsWithSlash(sourcePath) && EndsWithSlash(destinationPath)) ==>
      && (logSource != null ==>
            logSource.lines == old(logSource.lines) + if logged != [] then [sourcePath] else [])
      && (logDestination != null ==>
            logDestination.lines == old(logDestination.lines)
                                    + if logged != [] then [MoveTarget(sourcePath, destinationPath)] else [])
  {
    if sourcePath[|sourcePath| - 1] == '/' && destinationPath[|destinationPath| - 1] == '/' {
      logged := MoveDirectory(fs, sourcePath, destinationPath, logSource, logDestination);
    } else {
      var ok := MoveFile(fs, sourcePath, destinationPath, logSource, logDestination);
      logged := if ok then [Comps(sourcePath)] else [];
    }
  }

  /** Every file entry of `t` holds the contents of some entry of `t0`: moving never makes new data. */
  ghost predicate NoNewContent(t0: Tree, t: Tree) {
    forall k :: k in t && !t[k].Dir? ==> t[k] in t0.Values
  }

  /** No key of `roots` lies at or above `k`. */
  ghost predicate NotUnder(k: Key, roots: seq<Key>) {
    forall i :: 0 <= i < |roots| ==> !(roots[i] <= k)
  }

  /** Every non-directory of `t0` below none of `roots` is still there, unchanged. */
  ghost predicate Untouched(t0: Tree, t: Tree, roots: seq<Key>) {
    forall k :: k in t0 && !t0[k].Dir? && NotUnder(k, roots) ==> k in t && t[k] == t0[k]
  }

  lemma NoNewContentTrans(t0: Tree, t1: Tree, t2: Tree)
    requires NoNewContent(t0, t1) && NoNewContent(t1, t2)
    ensures NoNewContent(t0, t2)
  {
    forall k | k in t2 && !t2[k].Dir? ensures t2[k] in t0.Values {
      var j :| j in t1 && t1[j] == t2[k];
    }
  }

  lemma UntouchedTrans(t0: Tree, t1: Tree, t2: Tree, roots: seq<Key>, more: seq<Key>)
    requires Untouched(t0, t1, roots) && Untouched(t1, t2, more)
    ensures Untouched(t0, t2, roots + more)
  {
    forall k | k in t0 && !t0[k].Dir? && NotUnder(k, roots + more) ensures k in t2 && t2[k] == t0[k] {
      assert NotUnder(k, roots) by {
        forall i | 0 <= i < |roots| ensures !(roots[i] <= k) { assert (roots + more)[i] == roots[i]; }
      }
      assert NotUnder(k, more) by {
        forall i | 0 <= i < |more| ensures !(more[i] <= k) { assert (roots + more)[|roots| + i] == more[i]; }
      }
    }
  }

  /** A directory move keeps every file outside its source and destination and makes no new data. */
  lemma DirMovedKeeps(t0: Tree, t: Tree, s: Key, d: Key, logged: seq<Key>)
    requires DirMoved(t0, t, s, d, logged)
    ensures NoNewContent(t0, t) && Untouched(t0, t, [s, d])
  {
    if !(s !in t0 || (d !in t0 && !ParentIsDir(t0, d))) {
      var moved := Elems(logged);
      forall k | k in t && !t[k].Dir? ensures t[k] in t0.Values {
        if d <= k && Src(s, d, k) in moved {
          SrcOfDestBack(s, d, k);
          assert t[Dest(s, d, Src(s, d, k))] == t0[Src(s, d, k)];
        } else if d <= k {
          assert k in t0 && t[k] == t0[k];
        } else if s <= k {
          assert k in t0 && t[k] == t0[k];
        } else {
          assert k in t0 && t[k] == t0[k];
        }
      }
      forall k | k in t0 && !t0[k].Dir? && NotUnder(k, [s, d]) ensures k in t && t[k] == t0[k] {
        assert [s, d][0] == s && [s, d][1] == d;
      }
    }
  }

  lemma SrcOfDestBack(s: Key, d: Key, k: Key)
    requires d <= k
    ensures s <= Src(s, d, k) && Dest(s, d, Src(s, d, k)) == k
  {
    assert Src(s, d, k)[|s|..] == k[|d|..];
  }

  /** The steps before the rename only add directories and remove the target. */
  lemma PreparedShape(t: Tree, locked: set<Key>, sourcePath: string, destinationPath: string, k: Key)
    requires k in Prepared(t, locked, sourcePath, destinationPath)
    ensures var t2 := Prepared(t, locked, sourcePath, destinationPath);
      t2[k].Dir? || (k in t && t2[k] == t[k])
  {
    var target := Comps(MoveTarget(sourcePath, destinationPath));
    if EndsWithSlash(destinationPath) {
      MkdirChainGrows(t, Comps(ROOT_PATH), Comps(StripRoot(destinationPath)), k);
    } else {
      MkdirChainGrows(RemoveEffect(t, locked, target), Comps(ROOT_PATH),
                      Comps(StripRoot(GetParentDirFromPath(destinationPath))), k);
    }
  }

  /** The rename target lies at or below the destination path. */
  lemma TargetBelow(sourcePath: string, destinationPath: string)
    ensures Comps(destinationPath) <= Comps(MoveTarget(sourcePath, destinationPath))
  {
    if EndsWithSlash(destinationPath) {
      var n := GetFileName(sourcePath);
      if n == "" {
        assert destinationPath + n == destinationPath;
      } else {
        assert IsName(n);
        assert destinationPath == destinationPath[..|destinationPath| - 1] + "/";
        assert destinationPath + n == destinationPath[..|destinationPath| - 1] + "/" + n;
        CompsChild(destinationPath[..|destinationPath| - 1], n);
        CompsSlash(destinationPath[..|destinationPath| - 1]);
      }
    }
  }

  /** A file move makes no new data. */
  lemma MoveFileNoNew(t: Tree, locked: set<Key>, sourcePath: string, destinationPath: string)
    ensures NoNewContent(t, MoveFileTree(t, locked, sourcePath, destinationPath).0)
  {
    var s, target := Comps(sourcePath), Comps(MoveTarget(sourcePath, destinationPath));
    var r := MoveFileTree(t, locked, sourcePath, destinationPath);
    if s in t {
      var t2 := Prepared(t, locked, sourcePath, destinationPath);
      forall k | k in r.0 && !r.0[k].Dir? ensures r.0[k] in t.Values {
        var j := if RenameEffect(t2, locked, s, target).1 then MovedFrom(t2, s, target, k) else k;
        assert r.0[k] == t2[j];
        PreparedShape(t, locked, sourcePath, destinationPath, j);
      }
    }
  }

  /** A file move keeps every file outside its source and destination. */
  lemma MoveFileUntouched(t: Tree, locked: set<Key>, sourcePath: string, destinationPath: string)
    ensures Untouched(t, MoveFileTree(t, locked, sourcePath, destinationPath).0,
                      [Comps(sourcePath), Comps(destinationPath)])
  {
    var s, D, target := Comps(sourcePath), Comps(destinationPath), Comps(MoveTarget(sourcePath, destinationPath));
    var r := MoveFileTree(t, locked, sourcePath, destinationPath);
    if s in t {
      var t2 := Prepared(t, locked, sourcePath, destinationPath);
      TargetBelow(sourcePath, destinationPath);
      forall k | k in t && !t[k].Dir? && NotUnder(k, [s, D]) ensures k in r.0 && r.0[k] == t[k] {
        assert [s, D][0] == s && [s, D][1] == D;
        assert !(target <= k);
        PreparedKeeps(t, locked, sourcePath, destinationPath, k);
        MoveSubtreeAt(t2, s, target, k);
      }
    }
  }

  /** The key of the tree before a rename that a key of the renamed tree takes its entry from. */
  function MovedFrom(t: Tree, s: Key, d: Key, k: Key): (j: Key)
    requires k in MoveSubtree(t, s, d)
    ensures j in t && MoveSubtree(t, s, d)[k] == t[j]
  {
    MoveSubtreeAt(t, s, d, k);
    if d <= k && s + k[|d|..] in t then s + k[|d|..] else k
  }

  /** The paths one entry of the pattern list may touch: itself and both destinations it may be sent to. */
  function ItemRoots(p: string, destinationPath: string): seq<Key> {
    [Comps(p), Comps(destinationPath), Comps(destinationPath + GetNameFromPath(p) + "/")]
  }

  function PatternRoots(fileList: seq<string>, destinationPath: string): seq<Key> {
    if fileList == [] then []
    else PatternRoots(fileList[..|fileList| - 1], destinationPath)
         + ItemRoots(fileList[|fileList| - 1], destinationPath)
  }

  /** `before` is a prefix of `after`: a log only gains lines. */
  ghost predicate Extends(before: seq<string>, after: seq<string>) {
    |before| <= |after| && after[..|before|] == before
  }

  lemma ExtendsTrans(a: seq<string>, b: seq<string>, c: seq<string>)
    requires Extends(a, b) && Extends(b, c)
    ensures Extends(a, c) && |c| - |a| == (|c| - |b|) + (|b| - |a|)
  {
    assert c[..|a|] == c[..|b|][..|a|];
  }

  /** Untouched only weakens when more roots are excluded. */
  lemma UntouchedWeaken(t0: Tree, t: Tree, roots: seq<Key>, more: seq<Key>)
    requires Untouched(t0, t, roots)
    requires forall i :: 0 <= i < |roots| ==> roots[i] in more
    ensures Untouched(t0, t, more)
  {
    forall k | k in t0 && !t0[k].Dir? && NotUnder(k, more) ensures k in t && t[k] == t0[k] {
      forall i | 0 <= i < |roots| ensures !(roots[i] <= k) {
        var j :| 0 <= j < |more| && more[j] == roots[i];
      }
    }
  }

  /** One `moveFileOrDirectory` keeps files outside its two paths and makes no new data. */
  lemma StepKeeps(t1: Tree, t2: Tree, locked: set<Key>, p: string, dst: string, logged: seq<Key>)
    requires EndsWithSlash(p) && EndsWithSlash(dst) ==> DirMoved(t1, t2, Comps(p), Comps(dst), logged)
    requires !(EndsWithSlash(p) && EndsWithSlash(dst)) ==> (t2, logged != []) == MoveFileTree(t1, locked, p, dst)
    ensures NoNewContent(t1, t2) && Untouched(t1, t2, [Comps(p), Comps(dst)])
  {
    if EndsWithSlash(p) && EndsWithSlash(dst) {
      DirMovedKeeps(t1, t2, Comps(p), Comps(dst), logged);
    } else {
      MoveFileNoNew(t1, locked, p, dst);
      MoveFileUntouched(t1, locked, p, dst);
    }
  }

  /** The lines of a log, none when there is no log. */
  ghost function Lines(l: Log?): seq<string>
    reads l
  {
    if l == null then [] else l.lines
  }

  /** Both logs only gained lines and, when both are kept, the same number each. */
  ghost predicate InStep(ls0: seq<string>, ld0: seq<string>, ls: seq<string>, ld: seq<string>, both: bool) {
    Extends(ls0, ls) && Extends(ld0, ld) && (both ==> |ls| - |ls0| == |ld| - |ld0|)
  }

  lemma InStepTrans(ls0: seq<string>, ld0: seq<string>, ls1: seq<string>, ld1: seq<string>,
                    ls2: seq<string>, ld2: seq<string>, both: bool)
    requires InStep(ls0, ld0, ls1, ld1, both) && InStep(ls1, ld1, ls2, ld2, both)
    ensures InStep(ls0, ld0, ls2, ld2, both)
  {
    ExtendsTrans(ls0, ls1, ls2);
    ExtendsTrans(ld0, ld1, ld2);
  }

  /** The lines one `moveFileOrDirectory` adds to the two logs: `logged` lines to each. */
  lemma StepLogs(ls1: seq<string>, ld1: seq<string>, ls2: seq<string>, ld2: seq<string>, hasS: bool, hasD: bool,
                 dirMove: bool, s: Key, d: Key, logged: seq<Key>, lineS: string, lineD: string)
    requires !hasS ==> ls1 == ls2
    requires !hasD ==> ld1 == ld2
    requires hasS && dirMove ==> LogNames(ls1, ls2, logged)
    requires hasD && dirMove ==> LogDests(ld1, ld2, s, d, logged)
    requires !dirMove ==> |logged| <= 1
    requires hasS && !dirMove ==> ls2 == ls1 + if logged != [] then [lineS] else []
    requires hasD && !dirMove ==> ld2 == ld1 + if logged != [] then [lineD] else []
    ensures InStep(ls1, ld1, ls2, ld2, hasS && hasD)
  {
  }

  /** What one entry of the pattern list needs: non-empty, and apart from a destination it may move into. */
  ghost predicate ItemOk(p: string, destinationPath: string) {
    |p| > 0 && (EndsWithSlash(p) ==> Disjoint(Comps(p), Comps(destinationPath + GetNameFromPath(p) + "/")))
  }

  /** Where the pattern loop sends one entry: a directory to `destinationPath + name + "/"`, anything else to `destinationPath`. */
  function ItemTarget(isDir: bool, p: string, destinationPath: string): string {
    if isDir then destinationPath + GetNameFromPath(p) + "/" else destinationPath
  }

  /** One pass of the pattern loop: the entry is moved to where its kind sends it. */
  method MovePatternItem(fs: Volume, p: string, destinationPath: string, logSource: Log?, logDestination: Log?)
      returns (ghost logged: seq<Key>)
    requires fs.Valid() && |destinationPath| > 0 && ItemOk(p, destinationPath)
    requires logSource == null || logSource != logDestination
    modifies fs, logSource, logDestination
    ensures fs.Valid()
    ensures MoveOutcome(old(fs.nodes), fs.nodes, fs.locked, fs.unreadable, p,
                        ItemTarget(IsDirIn(old(fs.nodes), Comps(p)), p, destinationPath), logged)
    ensures NoNewContent(old(fs.nodes), fs.nodes) && Untouched(old(fs.nodes), fs.nodes, ItemRoots(p, destinationPath))
    ensures InStep(old(Lines(logSource)), old(Lines(logDestination)), Lines(logSource), Lines(logDestination),
                   logSource != null && logDestination != null)
  {
    ghost var t1 := fs.nodes;
    var target := ItemTarget(IsDirectory(fs, p), p, destinationPath);
    logged := MoveFileOrDirectory(fs, p, target, logSource, logDestination);
    StepKeeps(t1, fs.nodes, fs.locked, p, target, logged);
    UntouchedWeaken(t1, fs.nodes, [Comps(p), Comps(target)], ItemRoots(p, destinationPath));
    StepLogs(old(Lines(logSource)), old(Lines(logDestination)), Lines(logSource), Lines(logDestination),
             logSource != null, logDestination != null, EndsWithSlash(p) && EndsWithSlash(target),
             Comps(p), Comps(target), logged, p, MoveTarget(p, target));
  }

  /** The pattern loop's invariant after the first `i` entries, from tree `t0` and logs `ls0`, `ld0`. */
  ghost predicate PatternDone(t0: Tree, t: Tree, ls0: seq<string>, ld0: seq<string>, ls: seq<string>, ld: seq<string>,
                              both: bool, fileList: seq<string>, destinationPath: string, i: nat)
    requires i <= |fileList|
  {
    NoNewContent(t0, t) && Untouched(t0, t, PatternRoots(fileList[..i], destinationPath)) && InStep(ls0, ld0, ls, ld, both)
  }

  /** The loop state after one more entry. */
  lemma PatternStep(t0: Tree, t1: Tree, t2: Tree, ls0: seq<string>, ld0: seq<string>, ls1: seq<string>, ld1: seq<string>,
                    ls2: seq<string>, ld2: seq<string>, both: bool, fileList: seq<string>, destinationPath: string, i: nat)
    requires i < |fileList| && PatternDone(t0, t1, ls0, ld0, ls1, ld1, both, fileList, destinationPath, i)
    requires NoNewContent(t1, t2) && Untouched(t1, t2, ItemRoots(fileList[i], destinationPath))
    requires InStep(ls1, ld1, ls2, ld2, both)
    ensures PatternDone(t0, t2, ls0, ld0, ls2, ld2, both, fileList, destinationPath, i + 1)
  {
    assert fileList[..i + 1][..i] == fileList[..i];
    NoNewContentTrans(t0, t1, t2);
    UntouchedTrans(t0, t1, t2, PatternRoots(fileList[..i], destinationPath), ItemRoots(fileList[i], destinationPath));
    InStepTrans(ls0, ld0, ls1, ld1, ls2, ld2, both);
  }

  /** Before the first entry nothing has changed. */
  lemma PatternStart(t: Tree, ls: seq<string>, ld: seq<string>, both: bool, fileList: seq<string>, destinationPath: string)
    ensures PatternDone(t, t, ls, ld, ls, ld, both, fileList, destinationPath, 0)
  {
    Empty(t);
    assert fileList[..0] == [];
  }

  /**
   * The trees the pattern loop passes through: `trees[i + 1]` is what moving
   * entry `i` of `fileList` to its target made of `trees[i]`, with `logs[i]`
   * the source entries that move renamed.
   */
  ghost predicate PatternChain(trees: seq<Tree>, logs: seq<seq<Key>>, locked: set<Key>, unreadable: set<Key>,
                               fileList: seq<string>, destinationPath: string, n: nat) {
    && n <= |fileList| && |trees| == n + 1 && |logs| == n
    && forall i {:trigger logs[i]} :: 0 <= i < n ==>
      MoveOutcome(trees[i], trees[i + 1], locked, unreadable, fileList[i],
                  ItemTarget(IsDirIn(trees[i], Comps(fileList[i])), fileList[i], destinationPath), logs[i])
  }

  lemma ChainStep(trees: seq<Tree>, logs: seq<seq<Key>>, locked: set<Key>, unreadable: set<Key>,
                  fileList: seq<string>, destinationPath: string, n: nat, t: Tree, logged: seq<Key>)
    requires PatternChain(trees, logs, locked, unreadable, fileList, destinationPath, n) && n < |fileList|
    requires MoveOutcome(trees[n], t, locked, unreadable, fileList[n],
                         ItemTarget(IsDirIn(trees[n], Comps(fileList[n])), fileList[n], destinationPath), logged)
    ensures PatternChain(trees + [t], logs + [logged], locked, unreadable, fileList, destinationPath, n + 1)
  {
    var trees', logs' := trees + [t], logs + [logged];
    forall i | 0 <= i < n + 1
      ensures MoveOutcome(trees'[i], trees'[i + 1], locked, unreadable, fileList[i],
                          ItemTarget(IsDirIn(trees'[i], Comps(fileList[i])), fileList[i], destinationPath), logs'[i])
    {
      assert trees'[i] == trees[i] && logs'[i] == (if i < n then logs[i] else logged);
      assert trees'[i + 1] == (if i < n then trees[i + 1] else t);
    }
  }

  /**
   * `moveFilesOrDirectoriesByPattern`, over the list the wildcard expansion
   * produced: a directory goes to `destinationPath + name + "/"`, anything
   * else to `destinationPath`. No file data is made up, every file outside
   * the entries and their destinations stays as it was, and both logs only
   * gain lines, the same number each.
   */
  method MoveFilesOrDirectoriesByPattern(fs: Volume, fileList: seq<string>, destinationPath: string,
                                         logSource: Log?, logDestination: Log?)
      returns (ghost trees: seq<Tree>, ghost logs: seq<seq<Key>>)
    requires fs.Valid() && |destinationPath| > 0
    requires forall i :: 0 <= i < |fileList| ==> ItemOk(fileList[i], destinationPath)
    requires logSource == null || logSource != logDestination
    modifies fs, logSource, logDestination
    ensures fs.Valid()
    ensures PatternChain(trees, logs, fs.locked, fs.unreadable, fileList, destinationPath, |fileList|)
    ensures trees[0] == old(fs.nodes) && trees[|fileList|] == fs.nodes
    ensures NoNewContent(old(fs.nodes), fs.nodes)
    ensures Untouched(old(fs.nodes), fs.nodes, PatternRoots(fileList, destinationPath))
    ensures InStep(old(Lines(logSource)), old(Lines(logDestination)), Lines(logSource), Lines(logDestination),
                   logSource != null && logDestination != null)
  {
    ghost var t0 := fs.nodes;
    ghost var ls0, ld0 := Lines(logSource), Lines(logDestination);
    ghost var both := logSource != null && logDestination != null;
    PatternStart(t0, ls0, ld0, both, fileList, destinationPath);
    trees, logs := [t0], [];
    for i := 0 to |fileList|
      invariant fs.Valid()
      invariant PatternChain(trees, logs, fs.locked, fs.unreadable, fileList, destinationPath, i)
      invariant trees[0] == t0 && trees[i] == fs.nodes
      invariant PatternDone(t0, fs.nodes, ls0, ld0, Lines(logSource), Lines(logDestination), both, fileList, destinationPath, i)
    {
      trees, logs := PatternPass(fs, fileList, i, destinationPath, logSource, logDestination, t0, ls0, ld0, both,
                                 trees, logs);
    }
    assert fileList[..|fileList|] == fileList;
  }

  /** The body of the pattern loop for entry `i`, with the loop's bookkeeping. */
  method PatternPass(fs: Volume, fileList: seq<string>, i: nat, destinationPath: string, logSource: Log?,
                     logDestination: Log?, ghost t0: Tree, ghost ls0: seq<string>, ghost ld0: seq<string>,
                     ghost both: bool, ghost trees: seq<Tree>, ghost logs: seq<seq<Key>>)
      returns (ghost trees': seq<Tree>, ghost logs': seq<seq<Key>>)
    requires fs.Valid() && |destinationPath| > 0 && i < |fileList| && ItemOk(fileList[i], destinationPath)
    requires logSource == null || logSource != logDestination
    requires both == (logSource != null && logDestination != null)
    requires PatternChain(trees, logs, fs.locked, fs.unreadable, fileList, destinationPath, i)
    requires trees[0] == t0 && trees[i] == fs.nodes
    requires PatternDone(t0, fs.nodes, ls0, ld0, Lines(logSource), Lines(logDestination), both, fileList, destinationPath, i)
    modifies fs, logSource, logDestination
    ensures fs.Valid()
    ensures PatternChain(trees', logs', fs.locked, fs.unreadable, fileList, destinationPath, i + 1)
    ensures trees'[0] == t0 && trees'[i + 1] == fs.nodes
    ensures PatternDone(t0, fs.nodes, ls0, ld0, Lines(logSource), Lines(logDestination), both, fileList, destinationPath, i + 1)
  {
    ghost var t1, ls1, ld1 := fs.nodes, Lines(logSource), Lines(logDestination);
    ghost var logged := MovePatternItem(fs, fileList[i], destinationPath, logSource, logDestination);
    ChainStep(trees, logs, fs.locked, fs.unreadable, fileList, destinationPath, i, fs.nodes, logged);
    trees', logs' := trees + [fs.nodes], logs + [logged];
    PatternStep(t0, t1, fs.nodes, ls0, ld0, ls1, ld1, Lines(logSource), Lines(logDestination), both,
                fileList, destinationPath, i);
  }

  lemma Empty(t: Tree)
    ensures NoNewContent(t, t) && Untouched(t, t, [])
  {
    forall k | k in t && !t[k].Dir? ensures t[k] in t.Values { }
  }
}
