/**
 * `getTotalSize`: the size of a regular file, or the sum of the sizes of
 * the regular files a breadth-first walk of a directory finds. The walk
 * skips directories `opendir` refuses, and entries that are neither
 * regular files nor directories count for nothing.
 */
module Sizes {
  import opened Wrappers
  import opened Paths
  import opened FileSystem

  /** `st_size` of a regular file; every other entry, or none, counts for nothing. */
  function Size(t: Tree, k: Key): nat {
    if k in t && t[k].File? then |t[k].data| else 0
  }

  ghost function Pick(s: set<Key>): Key
    requires s != {}
  {
    var x :| x in s; x
  }

  /** The sizes of the entries in `s`, added up. */
  ghost function SumSizes(t: Tree, s: set<Key>): nat
    decreases |s|
  {
    if s == {} then 0 else var x := Pick(s); Size(t, x) + SumSizes(t, s - {x})
  }

  /** The sum does not depend on the order the entries are taken in. */
  lemma {:induction false} SumPick(t: Tree, s: set<Key>, y: Key)
    requires y in s
    ensures SumSizes(t, s) == Size(t, y) + SumSizes(t, s - {y})
    decreases |s|
  {
    var x := Pick(s);
    if y != x {
      SumPick(t, s - {x}, y);
      SumPick(t, s - {y}, x);
      assert s - {x} - {y} == s - {y} - {x};
    }
  }

  lemma SumAdd(t: Tree, s: set<Key>, y: Key)
    requires y !in s
    ensures SumSizes(t, s + {y}) == SumSizes(t, s) + Size(t, y)
  {
    SumPick(t, s + {y}, y);
    assert s + {y} - {y} == s;
  }

  /** The sizes of two disjoint sets add up. */
  lemma {:induction false} SumUnion(t: Tree, a: set<Key>, b: set<Key>)
    requires a !! b
    ensures SumSizes(t, a + b) == SumSizes(t, a) + SumSizes(t, b)
    decreases |b|
  {
    if b != {} {
      var y := Pick(b);
      SumUnion(t, a, b - {y});
      SumAdd(t, a + (b - {y}), y);
      assert a + (b - {y}) + {y} == a + b;
      SumPick(t, b, y);
    } else {
      assert a + b == a;
    }
  }

  /**
   * A directory the walk from `k` reaches: `k` itself, or a subdirectory
   * of a reached directory that `opendir` could open.
   */
  ghost predicate Reached(t: Tree, un: set<Key>, k: Key, d: Key)
    decreases |d|
  {
    && d in t && t[d].Dir? && k <= d
    && (d != k ==> |d| > |k| && Parent(d) !in un && Reached(t, un, k, Parent(d)))
  }

  /** The regular files sitting in a reached directory that could be opened. */
  ghost function VisibleFiles(t: Tree, un: set<Key>, k: Key): set<Key> {
    set f | f in t && t[f].File? && |f| > |k| && Parent(f) !in un && Reached(t, un, k, Parent(f))
  }

  /** What `getTotalSize` returns for the entry `k`. */
  ghost function TotalSize(t: Tree, un: set<Key>, k: Key): nat {
    if k !in t then 0
    else match t[k]
      case File(data) => |data|
      case Dir => SumSizes(t, VisibleFiles(t, un, k))
      case Special => 0
  }

  /** The regular files among `s`. */
  function FilesAmong(t: Tree, s: set<Key>): set<Key> {
    set c | c in s && c in t && t[c].File?
  }

  /** The directories among `s`. */
  function DirsAmong(t: Tree, s: set<Key>): set<Key> {
    set c | c in s && c in t && t[c].Dir?
  }

  /** The regular files of the directories in `done` that could be opened. */
  ghost function Listed(t: Tree, un: set<Key>, done: set<Key>): set<Key> {
    set f | f in t && t[f].File? && |f| > 0 && Parent(f) in done && Parent(f) !in un
  }

  // ---------------------------------------------------------------------
  // Properties of the specification.

  /** With nothing below `k` refused, the walk reaches every directory below `k`. */
  lemma {:induction false} AllReached(t: Tree, un: set<Key>, k: Key, d: Key)
    requires WellFormed(t) && IsDirIn(t, k) && d in Subtree(t, k) && t[d].Dir?
    requires forall j :: j in Subtree(t, k) ==> j !in un
    ensures Reached(t, un, k, d)
    decreases |d|
  {
    if d != k {
      assert |d| > |k| by { assert k <= d; }
      assert Parent(d) in t && t[Parent(d)].Dir?;
      assert k <= Parent(d);
      AllReached(t, un, k, Parent(d));
    }
  }

  /**
   * With nothing below `k` refused by `opendir`, the size of a directory
   * is the sum of the sizes of every regular file below it.
   */
  lemma AllReadableSize(t: Tree, un: set<Key>, k: Key)
    requires WellFormed(t) && IsDirIn(t, k)
    requires forall j :: j in Subtree(t, k) ==> j !in un
    ensures TotalSize(t, un, k) == SumSizes(t, FilesAmong(t, Subtree(t, k)))
  {
    forall f | f in FilesAmong(t, Subtree(t, k)) ensures f in VisibleFiles(t, un, k) {
      assert f != k;
      assert |f| > |k| by { assert k <= f; }
      assert Parent(f) in t && t[Parent(f)].Dir?;
      assert k <= Parent(f);
      AllReached(t, un, k, Parent(f));
    }
    assert VisibleFiles(t, un, k) == FilesAmong(t, Subtree(t, k));
  }

  /** From a directory `opendir` refuses, the walk reaches nothing else. */
  lemma {:induction false} RefusedReachesOnlyItself(t: Tree, un: set<Key>, k: Key, d: Key)
    requires k in un && Reached(t, un, k, d)
    ensures d == k
    decreases |d|
  {
    if d != k {
      RefusedReachesOnlyItself(t, un, k, Parent(d));
    }
  }

  /** A directory `opendir` refuses has size 0. */
  lemma RefusedSize(t: Tree, un: set<Key>, k: Key)
    requires IsDirIn(t, k) && k in un
    ensures TotalSize(t, un, k) == 0
  {
    forall f | f in VisibleFiles(t, un, k) ensures false {
      RefusedReachesOnlyItself(t, un, k, Parent(f));
    }
    assert VisibleFiles(t, un, k) == {};
  }

  /** Every file the walk counts lies below `k`: the size never exceeds the sum over the subtree. */
  lemma VisibleBelow(t: Tree, un: set<Key>, k: Key)
    ensures VisibleFiles(t, un, k) <= FilesAmong(t, Subtree(t, k))
  {
    forall f | f in VisibleFiles(t, un, k) ensures k <= f {
      assert k <= Parent(f) && Parent(f) <= f;
    }
  }

  // ---------------------------------------------------------------------
  // The walk.

  /** What the scan of one listing knows after `i` entries. */
  ghost predicate ScanInv(t: Tree, d: Key, es: seq<Entry>, i: nat, added: nat, pushed: seq<string>, pk: seq<Key>) {
    && i <= |es|
    && added == SumSizes(t, FilesAmong(t, EntryKeys(d, es[..i])))
    && Names(pushed, pk) && Distinct(pk)
    && Elems(pk) == DirsAmong(t, EntryKeys(d, es[..i]))
  }

  lemma ScanStep(t: Tree, d: Key, es: seq<Entry>, i: nat, added: nat, pushed: seq<string>, pk: seq<Key>,
                 cur: string)
    requires IsListing(t, d, es) && i < |es| && ScanInv(t, d, es, i, added, pushed, pk) && Comps(cur) == d
    ensures var c := d + [es[i].name];
      && Comps(cur + "/" + es[i].name) == c
      && (t[c].File? ==> ScanInv(t, d, es, i + 1, added + |t[c].data|, pushed, pk))
      && (t[c].Dir? ==> ScanInv(t, d, es, i + 1, added, pushed + [cur + "/" + es[i].name], pk + [c]))
      && (!t[c].File? && !t[c].Dir? ==> ScanInv(t, d, es, i + 1, added, pushed, pk))
  {
    var c := d + [es[i].name];
    CompsChild(cur, es[i].name);
    EntryKeysFresh(d, es, i);
    var before := EntryKeys(d, es[..i]);
    var after := EntryKeys(d, es[..i + 1]);
    if t[c].File? {
      assert FilesAmong(t, after) == FilesAmong(t, before) + {c};
      SumAdd(t, FilesAmong(t, before), c);
      assert DirsAmong(t, after) == DirsAmong(t, before);
    } else if t[c].Dir? {
      assert FilesAmong(t, after) == FilesAmong(t, before);
      assert DirsAmong(t, after) == DirsAmong(t, before) + {c};
    } else {
      assert FilesAmong(t, after) == FilesAmong(t, before);
      assert DirsAmong(t, after) == DirsAmong(t, before);
    }
  }

  /**
   * The `readdir` loop of one directory: add the size of each regular
   * child and queue the path of each child directory.
   */
  method ScanEntries(fs: Volume, cur: string, ghost d: Key, es: seq<Entry>)
      returns (added: nat, pushed: seq<string>, ghost pk: seq<Key>)
    requires fs.Valid() && Comps(cur) == d && IsListing(fs.nodes, d, es)
    ensures added == SumSizes(fs.nodes, FilesAmong(fs.nodes, ChildKeys(fs.nodes, d)))
    ensures Names(pushed, pk) && Distinct(pk)
    ensures Elems(pk) == DirsAmong(fs.nodes, ChildKeys(fs.nodes, d))
  {
    added, pushed, pk := 0, [], [];
    var i := 0;
    assert es[..0] == [];
    while i < |es|
      invariant ScanInv(fs.nodes, d, es, i, added, pushed, pk)
      decreases |es| - i
    {
      ScanStep(fs.nodes, d, es, i, added, pushed, pk, cur);
      var newPath := cur + "/" + es[i].name;
      var st := fs.Stat(newPath);
      if st.Some? && st.value.File? {
        added := added + |st.value.data|;
      } else if st.Some? && st.value.Dir? {
        pushed, pk := pushed + [newPath], pk + [d + [es[i].name]];
      }
      i := i + 1;
    }
    assert es[..|es|] == es;
  }

  /**
   * The directories taken off the queue (`done`) and those still on it
   * (`queued`): all reached, the root among them, each one's parent taken
   * off already, and every subdirectory of a listed directory in one of the two.
   */
  ghost predicate Frontier(t: Tree, un: set<Key>, k: Key, queued: set<Key>, done: set<Key>) {
    && queued !! done
    && (forall d :: d in queued + done ==> Reached(t, un, k, d))
    && k in queued + done
    && (forall d :: d in queued + done && d != k ==> |d| > 0 && Parent(d) in done)
    && (forall d, c :: d in done && d !in un && c in DirsAmong(t, ChildKeys(t, d)) ==> c in queued + done)
  }

  /** What the walk knows between two passes. */
  ghost predicate WalkInv(t: Tree, un: set<Key>, k: Key, dirs: seq<string>, q: seq<Key>, done: set<Key>,
                          total: nat) {
    && WellFormed(t) && IsDirIn(t, k)
    && Names(dirs, q) && Distinct(q)
    && Frontier(t, un, k, Elems(q), done)
    && total == SumSizes(t, Listed(t, un, done))
  }

  lemma WalkStart(t: Tree, un: set<Key>, k: Key, path: string)
    requires WellFormed(t) && IsDirIn(t, k) && Comps(path) == k
    ensures WalkInv(t, un, k, [path], [k], {}, 0)
  {
    assert Listed(t, un, {}) == {};
    assert Elems([k]) == {k};
  }

  lemma QueuePop(dirs: seq<string>, q: seq<Key>)
    requires Names(dirs, q) && Distinct(q) && |q| > 0
    ensures Names(dirs[1..], q[1..]) && Distinct(q[1..])
    ensures Elems(q[1..]) == Elems(q) - {q[0]}
  {
    assert forall i :: 0 <= i < |q| - 1 ==> q[1..][i] == q[i + 1];
    assert Elems(q) == Elems(q[1..]) + {q[0]} by {
      assert q == [q[0]] + q[1..];
    }
    assert q[0] !in Elems(q[1..]);
  }

  lemma QueueAppend(dirs: seq<string>, q: seq<Key>, pushed: seq<string>, pk: seq<Key>)
    requires Names(dirs, q) && Distinct(q) && Names(pushed, pk) && Distinct(pk)
    requires Elems(q) !! Elems(pk)
    ensures Names(dirs + pushed, q + pk) && Distinct(q + pk)
    ensures Elems(q + pk) == Elems(q) + Elems(pk)
  {
    var q' := q + pk;
    forall i, j | 0 <= i < j < |q'| ensures q'[i] != q'[j] {
      if i < |q| && |q| <= j {
        assert q'[i] in Elems(q) && q'[j] == pk[j - |q|] && q'[j] in Elems(pk);
      }
    }
  }

  /** Taking a refused directory off the queue keeps the frontier. */
  lemma FrontierRefused(t: Tree, un: set<Key>, k: Key, queued: set<Key>, done: set<Key>, d: Key)
    requires Frontier(t, un, k, queued, done) && d in queued && d in un
    ensures Frontier(t, un, k, queued - {d}, done + {d})
  {
  }

  /** The subdirectories of a directory on the queue are new to the walk. */
  lemma KidsAreNew(t: Tree, un: set<Key>, k: Key, queued: set<Key>, done: set<Key>, d: Key)
    requires Frontier(t, un, k, queued, done) && d in queued && d !in un
    ensures forall c :: c in DirsAmong(t, ChildKeys(t, d)) ==>
      c !in queued + done && c != k && Parent(c) == d && Reached(t, un, k, c)
  {
    forall c | c in DirsAmong(t, ChildKeys(t, d))
      ensures c !in queued + done && c != k && Parent(c) == d && Reached(t, un, k, c)
    {
      assert c[..|d|] == d && |c| == |d| + 1;
      assert Parent(c) == d;
      assert k <= d;
    }
  }

  /** Taking a listed directory off the queue and queueing its subdirectories keeps the frontier. */
  lemma FrontierListed(t: Tree, un: set<Key>, k: Key, queued: set<Key>, done: set<Key>, d: Key)
    requires Frontier(t, un, k, queued, done) && d in queued && d !in un
    ensures Frontier(t, un, k, queued - {d} + DirsAmong(t, ChildKeys(t, d)), done + {d})
  {
    KidsAreNew(t, un, k, queued, done, d);
  }

  /** The files counted grow by the regular children of a listed directory. */
  lemma ListedStep(t: Tree, un: set<Key>, done: set<Key>, d: Key)
    requires d !in done && d !in un
    ensures Listed(t, un, done + {d}) == Listed(t, un, done) + FilesAmong(t, ChildKeys(t, d))
    ensures Listed(t, un, done) !! FilesAmong(t, ChildKeys(t, d))
  {
    forall f | f in FilesAmong(t, ChildKeys(t, d)) ensures |f| > 0 && Parent(f) == d {
      assert f[..|d|] == d;
    }
  }

  /** A directory `opendir` refused: nothing is counted and nothing is queued. */
  lemma StepRefused(t: Tree, un: set<Key>, k: Key, dirs: seq<string>, q: seq<Key>, done: set<Key>, total: nat)
    requires WalkInv(t, un, k, dirs, q, done, total) && |q| > 0 && q[0] in un
    ensures WalkInv(t, un, k, dirs[1..], q[1..], done + {q[0]}, total)
    ensures |Subtree(t, k) - (done + {q[0]})| < |Subtree(t, k) - done|
  {
    var d := q[0];
    assert d in Elems(q);
    assert Listed(t, un, done + {d}) == Listed(t, un, done);
    QueuePop(dirs, q);
    FrontierRefused(t, un, k, Elems(q), done, d);
    Shrinks(t, un, k, done, d);
  }

  /** A listed directory: its regular children are counted and its subdirectories queued. */
  lemma StepListed(t: Tree, un: set<Key>, k: Key, dirs: seq<string>, q: seq<Key>, done: set<Key>, total: nat,
                   pushed: seq<string>, pk: seq<Key>)
    requires WalkInv(t, un, k, dirs, q, done, total) && |q| > 0 && q[0] !in un
    requires Names(pushed, pk) && Distinct(pk) && Elems(pk) == DirsAmong(t, ChildKeys(t, q[0]))
    ensures var added := SumSizes(t, FilesAmong(t, ChildKeys(t, q[0])));
      WalkInv(t, un, k, dirs[1..] + pushed, q[1..] + pk, done + {q[0]}, total + added)
    ensures |Subtree(t, k) - (done + {q[0]})| < |Subtree(t, k) - done|
  {
    var d := q[0];
    assert d in Elems(q);
    ListedStep(t, un, done, d);
    SumUnion(t, Listed(t, un, done), FilesAmong(t, ChildKeys(t, d)));
    QueuePop(dirs, q);
    KidsAreNew(t, un, k, Elems(q), done, d);
    QueueAppend(dirs[1..], q[1..], pushed, pk);
    FrontierListed(t, un, k, Elems(q), done, d);
    Shrinks(t, un, k, done, d);
  }

  /** Taking a reached directory off the queue shrinks what is left of the subtree. */
  lemma Shrinks(t: Tree, un: set<Key>, k: Key, done: set<Key>, d: Key)
    requires Reached(t, un, k, d) && d !in done
    ensures |Subtree(t, k) - (done + {d})| < |Subtree(t, k) - done|
  {
    assert d in Subtree(t, k) - done;
    assert Subtree(t, k) - (done + {d}) == (Subtree(t, k) - done) - {d};
  }

  /** Once the queue is empty, `done` holds every directory the walk reaches. */
  lemma {:induction false} DoneHoldsReached(t: Tree, un: set<Key>, k: Key, done: set<Key>, d: Key)
    requires Frontier(t, un, k, {}, done) && Reached(t, un, k, d)
    ensures d in done
    decreases |d|
  {
    if d != k {
      DoneHoldsReached(t, un, k, done, Parent(d));
      assert d[..|d| - 1] == Parent(d) && |d| == |Parent(d)| + 1;
      assert d in DirsAmong(t, ChildKeys(t, Parent(d)));
    }
  }

  lemma WalkEnd(t: Tree, un: set<Key>, k: Key, dirs: seq<string>, done: set<Key>, total: nat)
    requires WalkInv(t, un, k, dirs, [], done, total)
    ensures total == TotalSize(t, un, k)
  {
    assert Elems([]) == {};
    forall f | f in VisibleFiles(t, un, k) ensures f in Listed(t, un, done) {
      DoneHoldsReached(t, un, k, done, Parent(f));
    }
    forall f | f in Listed(t, un, done) ensures f in VisibleFiles(t, un, k) {
      assert Reached(t, un, k, Parent(f));
      assert |Parent(f)| >= |k| by { assert k <= Parent(f); }
    }
    assert Listed(t, un, done) == VisibleFiles(t, un, k);
  }

  /**
   * `getTotalSize`: `lstat` the path; a regular file gives its size, a
   * directory the sum the breadth-first walk finds, anything else (or a
   * failed `lstat`) 0.
   */
  method GetTotalSize(fs: Volume, path: string) returns (total: nat)
    requires fs.Valid()
    ensures total == TotalSize(fs.nodes, fs.unreadable, Comps(path))
  {
    var st := fs.Stat(path);
    if st.None? {
      return 0;
    }
    if st.value.File? {
      return |st.value.data|;
    }
    if !st.value.Dir? {
      return 0;
    }
    ghost var t, un, k := fs.nodes, fs.unreadable, Comps(path);
    total := 0;
    var directories := [path];
    ghost var q := [k];
    ghost var done: set<Key> := {};
    WalkStart(t, un, k, path);
    while |directories| > 0
      invariant WalkInv(t, un, k, directories, q, done, total)
      decreases |Subtree(t, k) - done|
    {
      directories, q, done, total := WalkPass(fs, directories, q, done, total, k);
    }
    WalkEnd(t, un, k, directories, done, total);
  }

  /** One pass of the walk: take the front directory off the queue and list it. */
  method WalkPass(fs: Volume, directories: seq<string>, ghost q: seq<Key>, ghost done: set<Key>, total: nat,
                  ghost k: Key)
      returns (directories': seq<string>, ghost q': seq<Key>, ghost done': set<Key>, total': nat)
    requires fs.Valid() && |directories| > 0
    requires WalkInv(fs.nodes, fs.unreadable, k, directories, q, done, total)
    ensures WalkInv(fs.nodes, fs.unreadable, k, directories', q', done', total')
    ensures |Subtree(fs.nodes, k) - done'| < |Subtree(fs.nodes, k) - done|
  {
    var currentPath := directories[0];
    ghost var d := q[0];
    assert Comps(currentPath) == d && d in Elems(q);
    assert Reached(fs.nodes, fs.unreadable, k, d);
    var listing := fs.Readdir(currentPath);
    if listing.None? {
      StepRefused(fs.nodes, fs.unreadable, k, directories, q, done, total);
      return directories[1..], q[1..], done + {d}, total;
    }
    var added, pushed, pk := ScanEntries(fs, currentPath, d, listing.value);
    StepListed(fs.nodes, fs.unreadable, k, directories, q, done, total, pushed, pk);
    return directories[1..] + pushed, q[1..] + pk, done + {d}, total + added;
  }
}
