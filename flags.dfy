/**
 * `createFlagFiles`: for every path the wildcard expansion returned, an
 * empty regular file named after the path's last component, inside the
 * output directory. The expansion is not part of this model; its result
 * is the parameter `allMatches`.
 */
module FlagFiles {
  import opened Paths
  import opened FileSystem
  import opened DirFuncs
  import opened CopyFile

  /** The output prefix: the directory with a '/' appended unless it is empty or already ends with one. */
  function OutputPrefix(outputDir: string): (r: string)
    ensures r == "" || EndsWithSlash(r)
    ensures Comps(r) == Comps(outputDir)
  {
    if outputDir != "" && outputDir[|outputDir| - 1] != '/' then
      CompsSlash(outputDir);
      outputDir + "/"
    else outputDir
  }

  /** The flag file of a non-empty name is that name inside the output directory. */
  lemma FlagKey(outputDir: string, n: string)
    requires IsName(n)
    ensures Comps(OutputPrefix(outputDir) + n) == Comps(outputDir) + [n]
  {
    var prefix := OutputPrefix(outputDir);
    if prefix == "" {
      assert prefix + n == n;
      CompsName(n);
      CompsEmpty();
    } else {
      CompsAfterSlash(prefix, n);
    }
  }

  /** The tree after the flag loop over `paths`, with `d` the output directory: one `fopen(…, "wb")` per non-empty name. */
  ghost function Flagged(t: Tree, locked: set<Key>, d: Key, paths: seq<string>): Tree
    decreases |paths|
  {
    if paths == [] then t
    else
      var t' := Flagged(t, locked, d, paths[..|paths| - 1]);
      var name := GetNameFromPath(paths[|paths| - 1]);
      if name == "" then t' else Truncated(t', locked, d + [name])
  }

  /** The keys of the flag files for `paths`. */
  ghost function FlagKeys(d: Key, paths: seq<string>): set<Key> {
    set i | 0 <= i < |paths| && GetNameFromPath(paths[i]) != "" :: d + [GetNameFromPath(paths[i])]
  }

  lemma FlagKeysSnoc(d: Key, paths: seq<string>)
    requires paths != []
    ensures var init, name := paths[..|paths| - 1], GetNameFromPath(paths[|paths| - 1]);
      FlagKeys(d, paths) == FlagKeys(d, init) + if name == "" then {} else {d + [name]}
  {
    var init := paths[..|paths| - 1];
    forall k | k in FlagKeys(d, init) ensures k in FlagKeys(d, paths) {
      var i :| 0 <= i < |init| && GetNameFromPath(init[i]) != "" && k == d + [GetNameFromPath(init[i])];
      assert init[i] == paths[i];
    }
    forall k | k in FlagKeys(d, paths) && k !in FlagKeys(d, init) ensures k == d + [GetNameFromPath(paths[|paths| - 1])] {
      var i :| 0 <= i < |paths| && GetNameFromPath(paths[i]) != "" && k == d + [GetNameFromPath(paths[i])];
    }
  }

  /** Only the flag files change: every other entry is exactly as it was. */
  lemma {:induction false} FlaggedOthers(t: Tree, locked: set<Key>, d: Key, paths: seq<string>, k: Key)
    requires k !in FlagKeys(d, paths)
    ensures var r := Flagged(t, locked, d, paths);
      (k in r <==> k in t) && (k in t ==> r[k] == t[k])
    decreases |paths|
  {
    if paths != [] {
      FlagKeysSnoc(d, paths);
      FlaggedOthers(t, locked, d, paths[..|paths| - 1], k);
    }
  }

  /** A flag file that is there afterwards is an empty regular file, or the entry it was before. */
  lemma {:induction false} FlaggedEmpty(t: Tree, locked: set<Key>, d: Key, paths: seq<string>, k: Key)
    ensures var r := Flagged(t, locked, d, paths);
      k in r ==> (k in t && r[k] == t[k]) || r[k] == File([])
    decreases |paths|
  {
    if paths != [] {
      FlaggedEmpty(t, locked, d, paths[..|paths| - 1], k);
    }
  }

  /**
   * In an output directory, every flag file that `fopen(…, "wb")` can
   * open, because it is missing or an unlocked regular file, ends up an
   * empty regular file.
   */
  lemma {:induction false} FlaggedMade(t: Tree, locked: set<Key>, d: Key, paths: seq<string>, k: Key)
    requires IsDirIn(t, d) && k in FlagKeys(d, paths)
    requires if k in t then t[k].File? && k !in locked else true
    ensures var r := Flagged(t, locked, d, paths);
      k in r && r[k] == File([])
    decreases |paths|
  {
    var init, name := paths[..|paths| - 1], GetNameFromPath(paths[|paths| - 1]);
    FlagKeysSnoc(d, paths);
    var t' := Flagged(t, locked, d, init);
    assert d !in FlagKeys(d, init);
    FlaggedOthers(t, locked, d, init, d);
    if k in FlagKeys(d, init) {
      FlaggedMade(t, locked, d, init, k);
    } else {
      FlaggedOthers(t, locked, d, init, k);
      assert k == d + [name] && Parent(k) == d;
    }
  }

  /**
   * `createFlagFiles`: nothing at all for an empty match list; otherwise
   * `createDirectory` of the output directory, then one `fopen(…, "wb")`
   * per match with a non-empty last component, closed straight away.
   */
  method CreateFlagFiles(fs: Volume, allMatches: seq<string>, outputDir: string)
    requires fs.Valid()
    modifies fs
    ensures fs.Valid()
    ensures allMatches == [] ==> fs.nodes == old(fs.nodes)
    ensures allMatches != [] ==>
      fs.nodes == Flagged(MkdirChain(old(fs.nodes), Comps(ROOT_PATH), Comps(StripRoot(outputDir))), fs.locked,
                          Comps(outputDir), allMatches)
  {
    if allMatches == [] {
      return;
    }
    CreateDirectory(fs, outputDir);
    ghost var t1 := fs.nodes;
    var outputPrefix := OutputPrefix(outputDir);
    for i := 0 to |allMatches|
      invariant fs.Valid() && fs.nodes == Flagged(t1, fs.locked, Comps(outputDir), allMatches[..i])
    {
      assert allMatches[..i + 1][..i] == allMatches[..i];
      var baseName := GetNameFromPath(allMatches[i]);
      if baseName == "" {
        continue;
      }
      FlagKey(outputDir, baseName);
      var ok := fs.OpenForWrite(outputPrefix + baseName);
    }
    assert allMatches[..|allMatches|] == allMatches;
  }
}
