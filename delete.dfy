/**
 * `deleteFileOrDirectory` and `deleteFileOrDirectoryByPattern`: removing one
 * file, or a whole directory tree with an explicit stack, and logging every
 * file removed.
 */
module Delete {
  import opened Wrappers
  import opened Paths
  import opened FileSystem
  import opened DirFuncs

  /**
   * What the tree walk (a path ending in '/') removes when it starts at `r`:
   * nothing for a missing entry or a link, a file unless it is locked, and
   * for a directory that can be opened everything below it plus the
   * directory itself unless it is locked.
   */
  function TreeDeleteSet(t: Tree, locked: set<Key>, unreadable: set<Key>, r: Key): set<Key> {
    if r !in t then {}
    else match t[r]
      case Special => {}
      case File(_) => if r in locked then {} else {r}
      case Dir => if r in unreadable then {} else (Subtree(t, r) - {r}) + (if r in locked then {} else {r})
  }

  /** What one call removes: the tree walk for a path ending in '/', else one regular file. */
  function DeletedBy(t: Tree, locked: set<Key>, unreadable: set<Key>, path: string): set<Key> {
    var r := Comps(path);
    if EndsWithSlash(path) then TreeDeleteSet(t, locked, unreadable, r)
    else if IsFileIn(t, r) && r !in locked then {r}
    else {}
  }

  /** The regular files among `s`. */
  function FilesOf(t: Tree, s: set<Key>): set<Key> {
    set k | k in s && k in t && t[k].File?
  }

  /**
   * Nothing strictly below `r` is locked, a link or device, or a directory
   * that cannot be opened. Without this the walk revisits the parent of such
   * an entry forever: the parent never empties, so it is listed again and
   * the entry pushed again.
   */
  ghost predicate Removable(t: Tree, locked: set<Key>, unreadable: set<Key>, r: Key) {
    forall k :: k in t && r < k ==> k !in locked && !t[k].Special? && (t[k].Dir? ==> k !in unreadable)
  }

  /** The walk from `r` ends: `r` is not a directory it can open, or everything below it can go. */
  ghost predicate WalkEnds(t: Tree, locked: set<Key>, unreadable: set<Key>, r: Key) {
    IsDirIn(t, r) && r !in unreadable ==> Removable(t, locked, unreadable, r)
  }

  /** Log lines naming, as keys, each of `files` once and nothing else. */
  ghost predicate LinesNameFiles(lines: seq<string>, files: set<Key>) {
    && (forall i, j :: 0 <= i < j < |lines| ==> Comps(lines[i]) != Comps(lines[j]))
    && (set i | 0 <= i < |lines| :: Comps(lines[i])) == files
  }

  /** The log grew by lines naming each of `files` once. */
  ghost predicate LogsFiles(before: seq<string>, after: seq<string>, files: set<Key>) {
    |before| <= |after| && after[..|before|] == before && LinesNameFiles(after[|before|..], files)
  }

  // ---------------------------------------------------------------------
  // The state of the walk, as the proof sees it.

  /** What stays fixed during one walk: the tree at the start, the device's refusals, the root key. */
  datatype Ctx = Ctx(t0: Tree, locked: set<Key>, unreadable: set<Key>, r: Key)

  /**
   * The walk after some passes: the tree `t`, the keys `ks` the stack names
   * with the flags `exp` of the positions whose directory has been listed
   * with children, the keys removed `gone`, and the keys of the lines
   * logged, in order.
   */
  datatype Walk = Walk(t: Tree, ks: seq<Key>, exp: seq<bool>, gone: set<Key>, logged: seq<Key>)

  function Expanded(ks: seq<Key>, exp: seq<bool>): set<Key> {
    set i | 0 <= i < |ks| && i < |exp| && exp[i] :: ks[i]
  }

  function KeysFrom(ks: seq<Key>, m: nat): set<Key> {
    set i | m <= i < |ks| :: ks[i]
  }

  /** The keys of the children a listing of `k` names, in listing order. */
  function ChildKeySeq(k: Key, es: seq<Entry>): (r: seq<Key>)
    ensures |r| == |es|
  {
    seq(|es|, i requires 0 <= i < |es| => k + [es[i].name])
  }

  function Falses(n: nat): (r: seq<bool>)
    ensures |r| == n && forall i :: 0 <= i < n ==> !r[i]
  {
    seq(n, i => false)
  }

  /** The parts of the walk invariant that tie the walk to what it removes. */
  ghost predicate WalkBase(c: Ctx, w: Walk) {
    && WalkEnds(c.t0, c.locked, c.unreadable, c.r)
    && w.gone <= TreeDeleteSet(c.t0, c.locked, c.unreadable, c.r)
    && w.t == c.t0 - w.gone
    && |w.exp| == |w.ks|
    && (|w.ks| > 0 ==> w.ks[0] == c.r && c.r !in w.gone)
    && (|w.ks| == 0 ==> w.gone == TreeDeleteSet(c.t0, c.locked, c.unreadable, c.r))
    && (|w.ks| > 0 && !w.exp[0] ==> |w.ks| == 1 && w.gone == {})
    && (|w.ks| > 0 && w.exp[0] ==> IsDirIn(c.t0, c.r) && c.r !in c.unreadable)
  }

  /** Everything above an expanded position lies strictly below it. */
  ghost predicate Ordered(ks: seq<Key>, exp: seq<bool>) {
    |exp| == |ks| && forall i, j :: 0 <= i < j < |ks| && exp[i] ==> ks[i] < ks[j]
  }

  /** The children an expanded directory still has are all above it. */
  ghost predicate Covered(t: Tree, ks: seq<Key>, exp: seq<bool>) {
    |exp| == |ks| && forall i :: 0 <= i < |ks| && exp[i] ==> ChildKeys(t, ks[i]) <= KeysFrom(ks, i + 1)
  }

  /** Each file removed is logged once. */
  ghost predicate Logged(t0: Tree, gone: set<Key>, logged: seq<Key>) {
    && (forall i, j :: 0 <= i < j < |logged| ==> logged[i] != logged[j])
    && (set i | 0 <= i < |logged| :: logged[i]) == FilesOf(t0, gone)
  }

  /**
   * The walk invariant. The stack is a depth-first frontier: everything
   * above an expanded position lies strictly below it, and an expanded
   * directory's remaining children are all above it.
   */
  ghost predicate WalkInv(c: Ctx, w: Walk) {
    && WalkBase(c, w)
    && Ordered(w.ks, w.exp)
    && Covered(w.t, w.ks, w.exp)
    && Logged(c.t0, w.gone, w.logged)
  }

  function Top(w: Walk): Key
    requires |w.ks| > 0
  {
    w.ks[|w.ks| - 1]
  }

  function Pop(w: Walk): Walk
    requires |w.ks| > 0 && |w.exp| == |w.ks|
  {
    w.(ks := w.ks[..|w.ks| - 1], exp := w.exp[..|w.ks| - 1])
  }

  /** The walk after the top entry has been removed, and logged when it was a file. */
  function Removed(w: Walk): Walk
    requires |w.ks| > 0 && |w.exp| == |w.ks|
  {
    var k := Top(w);
    Pop(w).(t := w.t - {k}, gone := w.gone + {k},
            logged := if k in w.t && w.t[k].File? then w.logged + [k] else w.logged)
  }

  /** The walk after the top directory has been listed and its children pushed. */
  function Expand(w: Walk, es: seq<Entry>): Walk
    requires |w.ks| > 0 && |w.exp| == |w.ks|
  {
    var n := |w.ks|;
    w.(ks := w.ks + ChildKeySeq(Top(w), es), exp := w.exp[n - 1 := true] + Falses(|es|))
  }

  /** What one pass of the loop found on top of the stack, and what it did with it. */
  datatype Pass = Vanished | Kept | Deleted | Listed(es: seq<Entry>)

  function Next(w: Walk, p: Pass): Walk
    requires |w.ks| > 0 && |w.exp| == |w.ks|
  {
    match p
    case Listed(es) => Expand(w, es)
    case Deleted => Removed(w)
    case _ => Pop(w)
  }

  /**
   * The pass is the one the device allows: `stat` fails; the entry stays (a
   * link, a locked file, a directory that cannot be opened or a locked empty
   * one); the entry goes (a file, an empty directory); or the directory is
   * listed with all its children.
   */
  ghost predicate PassOk(c: Ctx, w: Walk, p: Pass)
    requires |w.ks| > 0
  {
    var k := Top(w);
    match p
    case Vanished => k !in w.t
    case Kept =>
      && k in w.t
      && (|| w.t[k].Special?
          || (w.t[k].File? && k in c.locked)
          || (w.t[k].Dir? && k in c.unreadable)
          || (w.t[k].Dir? && k in c.locked && ChildKeys(w.t, k) == {}))
    case Deleted =>
      && k in w.t && k !in c.locked
      && (w.t[k].File? || (w.t[k].Dir? && k !in c.unreadable && ChildKeys(w.t, k) == {}))
    case Listed(es) =>
      && k in w.t && w.t[k].Dir? && k !in c.unreadable && |es| > 0
      && EntryKeys(k, es) == ChildKeys(w.t, k)
  }

  /** Entries present and not yet listed: the listings still to come. */
  ghost function Measure(w: Walk): nat {
    |w.t.Keys - Expanded(w.ks, w.exp)|
  }

  /** Each pass keeps the invariant, and either ends the walk or makes progress. */
  ghost predicate Progress(w: Walk, w': Walk) {
    |w'.ks| == 0 || Measure(w') < Measure(w) || (Measure(w') == Measure(w) && |w'.ks| < |w.ks|)
  }

  lemma SubsetCard(a: set<Key>, b: set<Key>)
    requires a <= b
    ensures |a| <= |b|
  {
    assert b == a + (b - a);
  }

  /** The start of the walk: the path itself on the stack, nothing removed. */
  lemma WalkStart(c: Ctx)
    requires WalkEnds(c.t0, c.locked, c.unreadable, c.r)
    ensures WalkInv(c, Walk(c.t0, [c.r], [false], {}, []))
  {
    assert c.t0 - {} == c.t0;
  }

  /** Entries above the root position lie strictly below the root. */
  lemma BelowRoot(c: Ctx, w: Walk, j: nat)
    requires WalkBase(c, w) && Ordered(w.ks, w.exp) && 0 < j < |w.ks|
    ensures w.exp[0] && c.r < w.ks[j]
  {
  }

  /** A directory with no children left has nothing left below it. */
  lemma EmptyDirEmptied(t0: Tree, gone: set<Key>, t: Tree, k: Key)
    requires t == t0 - gone && WellFormed(t) && k in t && ChildKeys(t, k) == {}
    ensures forall x :: x in t0 && k < x ==> x in gone
  {
    forall x | x in t0 && k < x ensures x in gone {
      if x !in gone {
        var y := x[..|k| + 1];
        assert k <= y && y <= x;
        AncestorPresent(t, y, x);
        var isChild := y in ChildKeys(t, k);
        assert false;
      }
    }
  }

  // Popping preserves the shape parts of the invariant, whatever was popped.

  lemma OrderedPop(ks: seq<Key>, exp: seq<bool>)
    requires Ordered(ks, exp) && |ks| > 0
    ensures Ordered(ks[..|ks| - 1], exp[..|ks| - 1])
  {
  }

  lemma CoveredPop(t: Tree, t': Tree, ks: seq<Key>, exp: seq<bool>)
    requires Covered(t, ks, exp) && |ks| > 0 && t'.Keys <= t.Keys
    requires ks[|ks| - 1] !in t' || |ks| == 1
    ensures Covered(t', ks[..|ks| - 1], exp[..|ks| - 1])
  {
    var n := |ks|;
    forall i | 0 <= i < n - 1 && exp[i] ensures ChildKeys(t', ks[i]) <= KeysFrom(ks[..n - 1], i + 1) {
      forall x | x in ChildKeys(t', ks[i]) ensures x in KeysFrom(ks[..n - 1], i + 1) {
        assert x in ChildKeys(t, ks[i]);
        var j :| i + 1 <= j < n && ks[j] == x;
        assert j != n - 1;
      }
    }
  }

  /** Popping an entry that is gone from the tree does not raise the measure. */
  lemma MeasurePop(t: Tree, t': Tree, ks: seq<Key>, exp: seq<bool>)
    requires |ks| > 0 && |exp| == |ks| && t'.Keys <= t.Keys && ks[|ks| - 1] !in t'
    ensures |t'.Keys - Expanded(ks[..|ks| - 1], exp[..|ks| - 1])| <= |t.Keys - Expanded(ks, exp)|
  {
    var n := |ks|;
    assert t'.Keys - Expanded(ks[..n - 1], exp[..n - 1]) <= t.Keys - Expanded(ks, exp);
    SubsetCard(t'.Keys - Expanded(ks[..n - 1], exp[..n - 1]), t.Keys - Expanded(ks, exp));
  }

  /** Popping an entry that is no longer in the tree. */
  lemma PopAbsent(c: Ctx, w: Walk)
    requires WalkInv(c, w) && |w.ks| > 0 && Top(w) !in w.t
    ensures WalkInv(c, Pop(w)) && Measure(Pop(w)) <= Measure(w)
  {
    if |w.ks| == 1 {
      assert c.r !in c.t0;
    }
    OrderedPop(w.ks, w.exp);
    CoveredPop(w.t, w.t, w.ks, w.exp);
    MeasurePop(w.t, w.t, w.ks, w.exp);
  }

  /**
   * Popping an entry that stays: a link, a locked file, a directory that
   * cannot be opened or a locked empty one. Only the root can be such an
   * entry, so the walk is over and has removed exactly its delete set.
   */
  lemma PopKept(c: Ctx, w: Walk)
    requires WalkInv(c, w) && WellFormed(w.t) && |w.ks| > 0 && PassOk(c, w, Kept)
    ensures |w.ks| == 1 && WalkInv(c, Pop(w))
  {
    KeptIsRoot(c, w);
    KeptBase(c, w);
    OrderedPop(w.ks, w.exp);
    CoveredPop(w.t, w.t, w.ks, w.exp);
  }

  lemma KeptIsRoot(c: Ctx, w: Walk)
    requires WalkBase(c, w) && Ordered(w.ks, w.exp) && |w.ks| > 0 && PassOk(c, w, Kept)
    ensures |w.ks| == 1
  {
  }

  lemma KeptBase(c: Ctx, w: Walk)
    requires WalkBase(c, w) && WellFormed(w.t) && |w.ks| == 1 && PassOk(c, w, Kept)
    ensures WalkBase(c, Pop(w))
  {
    var k := Top(w);
    assert k == c.r && w.t[k] == c.t0[k];
    if w.t[k].Dir? && k in c.locked && k !in c.unreadable {
      EmptyDirEmptied(c.t0, w.gone, w.t, k);
      assert TreeDeleteSet(c.t0, c.locked, c.unreadable, c.r) == Subtree(c.t0, k) - {k};
      forall x | x in Subtree(c.t0, k) - {k} ensures x in w.gone {
        assert x in c.t0 && k <= x && x != k;
      }
    }
  }

  /** Removing the top entry: a file, or an empty directory that could be opened. */
  lemma PopRemoved(c: Ctx, w: Walk)
    requires WalkInv(c, w) && WellFormed(w.t) && |w.ks| > 0 && PassOk(c, w, Deleted)
    ensures WalkInv(c, Removed(w)) && Measure(Removed(w)) <= Measure(w)
  {
    var k := Top(w);
    RemovedBase(c, w);
    OrderedPop(w.ks, w.exp);
    CoveredPop(w.t, w.t - {k}, w.ks, w.exp);
    RemovedLog(c, w);
    MeasurePop(w.t, w.t - {k}, w.ks, w.exp);
  }

  lemma RemovedBase(c: Ctx, w: Walk)
    requires WalkBase(c, w) && Ordered(w.ks, w.exp) && WellFormed(w.t) && |w.ks| > 0 && PassOk(c, w, Deleted)
    ensures WalkBase(c, Removed(w))
  {
    var n := |w.ks|;
    var k := Top(w);
    var w' := Removed(w);
    assert k in c.t0 && c.t0[k] == w.t[k] && k !in w.gone;
    assert w'.t == c.t0 - w'.gone;
    if n == 1 {
      if w.t[k].Dir? {
        EmptyDirEmptied(c.t0, w.gone, w.t, k);
        assert TreeDeleteSet(c.t0, c.locked, c.unreadable, c.r) == (Subtree(c.t0, k) - {k}) + {k};
        forall x | x in Subtree(c.t0, k) - {k} ensures x in w.gone {
          assert x in c.t0 && k <= x && x != k;
        }
      } else {
        assert !w.exp[0];
      }
    } else {
      BelowRoot(c, w, n - 1);
      assert k in Subtree(c.t0, c.r) - {c.r};
    }
  }

  lemma RemovedLog(c: Ctx, w: Walk)
    requires WalkBase(c, w) && Logged(c.t0, w.gone, w.logged) && |w.ks| > 0 && Top(w) in w.t
    ensures Logged(c.t0, Removed(w).gone, Removed(w).logged)
  {
    var k := Top(w);
    assert k in c.t0 && c.t0[k] == w.t[k] && k !in w.gone;
    var l, l' := w.logged, Removed(w).logged;
    if w.t[k].File? {
      assert l' == l + [k];
      assert k !in FilesOf(c.t0, w.gone);
      assert (set i | 0 <= i < |l'| :: l'[i]) == (set i | 0 <= i < |l| :: l[i]) + {k} by {
        assert forall i :: 0 <= i < |l| ==> l'[i] == l[i];
        assert l'[|l|] == k;
      }
    } else {
      assert FilesOf(c.t0, w.gone + {k}) == FilesOf(c.t0, w.gone);
    }
  }

  /** The keys a listing of `k` pushes are exactly its children. */
  lemma {:induction false} ChildKeySeqKeys(k: Key, es: seq<Entry>)
    ensures (set i | 0 <= i < |es| :: ChildKeySeq(k, es)[i]) == EntryKeys(k, es)
  {
    if es != [] {
      var es' := es[..|es| - 1];
      ChildKeySeqKeys(k, es');
      var s := ChildKeySeq(k, es);
      var s' := ChildKeySeq(k, es');
      assert forall i :: 0 <= i < |es'| ==> s[i] == s'[i];
      assert (set i | 0 <= i < |es| :: s[i]) == (set i | 0 <= i < |es'| :: s'[i]) + {s[|es| - 1]};
    }
  }

  /** Every key of `cs` lies strictly below `k`. */
  ghost predicate Below(k: Key, cs: seq<Key>) {
    forall m :: 0 <= m < |cs| ==> k < cs[m]
  }

  lemma ChildKeySeqBelow(k: Key, es: seq<Entry>)
    ensures Below(k, ChildKeySeq(k, es))
  {
    var cs := ChildKeySeq(k, es);
    forall m | 0 <= m < |cs| ensures k < cs[m] {
      assert cs[m] == k + [es[m].name];
    }
  }

  /**
   * Listing the top directory and pushing its children. The directory had
   * not been listed (a listed one on top has no children left), so the
   * measure drops.
   */
  lemma ExpandStep(c: Ctx, w: Walk, es: seq<Entry>)
    requires WalkInv(c, w) && |w.ks| > 0 && PassOk(c, w, Listed(es))
    ensures WalkInv(c, Expand(w, es)) && Measure(Expand(w, es)) < Measure(w)
  {
    var k := Top(w);
    ChildKeySeqKeys(k, es);
    assert ChildKeySeq(k, es)[0] in ChildKeys(w.t, k);
    TopNotExpanded(w.t, w.ks, w.exp);
    ExpandShape(w, es);
    ExpandBase(c, w, es);
    ExpandMeasure(w, es);
  }

  lemma ExpandShape(w: Walk, es: seq<Entry>)
    requires Ordered(w.ks, w.exp) && Covered(w.t, w.ks, w.exp) && |w.ks| > 0
    requires ChildKeys(w.t, Top(w)) <= set m | 0 <= m < |es| :: ChildKeySeq(Top(w), es)[m]
    ensures Ordered(Expand(w, es).ks, Expand(w, es).exp) && Covered(w.t, Expand(w, es).ks, Expand(w, es).exp)
  {
    var k := Top(w);
    var cs := ChildKeySeq(k, es);
    ChildKeySeqBelow(k, es);
    OrderedPush(w.ks, w.exp, k, cs);
    CoveredPush(w.t, w.ks, w.exp, cs);
  }

  lemma ExpandBase(c: Ctx, w: Walk, es: seq<Entry>)
    requires WalkBase(c, w) && Ordered(w.ks, w.exp) && |w.ks| > 0 && PassOk(c, w, Listed(es))
    ensures WalkBase(c, Expand(w, es))
  {
    var k := Top(w);
    if |w.ks| == 1 {
      assert c.t0[k] == w.t[k];
    } else {
      BelowRoot(c, w, |w.ks| - 1);
    }
  }

  lemma ExpandMeasure(w: Walk, es: seq<Entry>)
    requires Ordered(w.ks, w.exp) && |w.ks| > 0 && Top(w) in w.t && !w.exp[|w.ks| - 1]
    ensures Measure(Expand(w, es)) < Measure(w)
  {
    var k := Top(w);
    var w' := Expand(w, es);
    ExpandedPush(w.ks, w.exp, ChildKeySeq(k, es));
    var before := w.t.Keys - Expanded(w.ks, w.exp);
    assert k in before;
    assert w'.t.Keys - Expanded(w'.ks, w'.exp) == before - {k};
    assert before == (before - {k}) + {k};
  }

  /** A directory on top that has been listed has no children left, so it is not listed twice. */
  lemma TopNotExpanded(t: Tree, ks: seq<Key>, exp: seq<bool>)
    requires Covered(t, ks, exp) && |ks| > 0 && ChildKeys(t, ks[|ks| - 1]) != {}
    ensures !exp[|ks| - 1]
  {
    assert KeysFrom(ks, |ks|) == {};
  }

  lemma OrderedPush(ks: seq<Key>, exp: seq<bool>, k: Key, cs: seq<Key>)
    requires Ordered(ks, exp) && |ks| > 0 && ks[|ks| - 1] == k && Below(k, cs)
    ensures Ordered(ks + cs, exp[|ks| - 1 := true] + Falses(|cs|))
  {
    var n := |ks|;
    var ks', exp' := ks + cs, exp[n - 1 := true] + Falses(|cs|);
    forall i, j | 0 <= i < j < |ks'| && exp'[i] ensures ks'[i] < ks'[j] {
      if j >= n {
        assert ks'[j] == cs[j - n];
        if i < n - 1 {
          assert exp[i] && ks[i] < ks[n - 1];
        }
      }
    }
  }

  lemma CoveredPush(t: Tree, ks: seq<Key>, exp: seq<bool>, cs: seq<Key>)
    requires Covered(t, ks, exp) && |ks| > 0
    requires ChildKeys(t, ks[|ks| - 1]) <= set m | 0 <= m < |cs| :: cs[m]
    ensures Covered(t, ks + cs, exp[|ks| - 1 := true] + Falses(|cs|))
  {
    var n := |ks|;
    var ks', exp' := ks + cs, exp[n - 1 := true] + Falses(|cs|);
    forall i | 0 <= i < |ks'| && exp'[i] ensures ChildKeys(t, ks'[i]) <= KeysFrom(ks', i + 1) {
      if i == n - 1 {
        forall x | x in ChildKeys(t, ks[n - 1]) ensures x in KeysFrom(ks', n) {
          var m :| 0 <= m < |cs| && cs[m] == x;
          assert ks'[n + m] == x;
        }
      } else {
        assert ks'[i] == ks[i] && exp[i];
        forall j | i + 1 <= j < n ensures ks[j] in KeysFrom(ks', i + 1) {
          assert ks'[j] == ks[j];
        }
      }
    }
  }

  /** Listing the top adds it, and only it, to the listed keys. */
  lemma ExpandedPush(ks: seq<Key>, exp: seq<bool>, cs: seq<Key>)
    requires |exp| == |ks| && |ks| > 0
    ensures Expanded(ks + cs, exp[|ks| - 1 := true] + Falses(|cs|)) == Expanded(ks, exp) + {ks[|ks| - 1]}
  {
    var n := |ks|;
    var ks', exp' := ks + cs, exp[n - 1 := true] + Falses(|cs|);
    forall x | x in Expanded(ks, exp) ensures x in Expanded(ks', exp') {
      var j :| 0 <= j < n && exp[j] && ks[j] == x;
      assert exp'[j] && ks'[j] == x;
    }
    assert exp'[n - 1] && ks'[n - 1] == ks[n - 1];
    forall x | x in Expanded(ks', exp') ensures x in Expanded(ks, exp) + {ks[n - 1]} {
      var j :| 0 <= j < |ks'| && exp'[j] && ks'[j] == x;
      if j != n - 1 {
        assert j < n && exp[j] && ks[j] == x;
      }
    }
  }

  /** One pass of the loop, whichever it was. */
  lemma PassStep(c: Ctx, w: Walk, p: Pass)
    requires WalkInv(c, w) && WellFormed(w.t) && |w.ks| > 0 && PassOk(c, w, p)
    ensures WalkInv(c, Next(w, p)) && Progress(w, Next(w, p))
  {
    match p
    case Vanished => PopAbsent(c, w);
    case Kept => PopKept(c, w);
    case Deleted => PopRemoved(c, w);
    case Listed(es) => ExpandStep(c, w, es);
  }

  // ---------------------------------------------------------------------
  // The strings on the stack and in the log.

  /** The stack holds paths ending in '/' that name the keys of the walk. */
  ghost predicate StackNames(stack: seq<string>, ks: seq<Key>) {
    && |stack| == |ks|
    && (forall i :: 0 <= i < |stack| ==> EndsWithSlash(stack[i]))
    && (forall i :: 0 <= i < |stack| ==> Comps(stack[i]) == ks[i])
  }

  /** The paths the child loop pushes for a listing of `dir`: each child's path with a '/'. */
  function ChildPaths(dir: string, es: seq<Entry>): seq<string> {
    seq(|es|, i requires 0 <= i < |es| => dir + es[i].name + "/")
  }

  /**
   * The `readdir` loop of the walk: pushes `dir + name`, with a '/'
   * appended when it does not already end in one, for every entry.
   */
  method PushChildren(stack: seq<string>, dir: string, es: seq<Entry>) returns (stack': seq<string>)
    requires forall i :: 0 <= i < |es| ==> IsName(es[i].name)
    ensures stack' == stack + ChildPaths(dir, es)
  {
    stack' := stack;
    for n := 0 to |es|
      invariant stack' == stack + ChildPaths(dir, es[..n])
    {
      var filePath := dir + es[n].name;
      assert filePath[|filePath| - 1] == es[n].name[|es[n].name| - 1];
      assert es[n].name[|es[n].name| - 1] in es[n].name;
      stack' := stack' + [filePath + (if filePath[|filePath| - 1] == '/' then "" else "/")];
      assert ChildPaths(dir, es[..n + 1]) == ChildPaths(dir, es[..n]) + [dir + es[n].name + "/"];
    }
    assert es[..|es|] == es;
  }

  lemma PushedNames(stack: seq<string>, ks: seq<Key>, dir: string, k: Key, es: seq<Entry>)
    requires StackNames(stack, ks) && EndsWithSlash(dir) && Comps(dir) == k
    requires forall i :: 0 <= i < |es| ==> IsName(es[i].name)
    ensures StackNames(stack + ChildPaths(dir, es), ks + ChildKeySeq(k, es))
  {
    var s', ks' := stack + ChildPaths(dir, es), ks + ChildKeySeq(k, es);
    forall i | 0 <= i < |s'| ensures EndsWithSlash(s'[i]) && Comps(s'[i]) == ks'[i] {
      if i < |stack| {
        assert s'[i] == stack[i] && ks'[i] == ks[i];
      } else {
        var m := i - |stack|;
        assert s'[i] == dir + es[m].name + "/" && ks'[i] == k + [es[m].name];
        ChildStep(dir, es[m].name);
      }
    }
  }

  lemma PoppedNames(stack: seq<string>, ks: seq<Key>)
    requires StackNames(stack, ks) && |stack| > 0
    ensures StackNames(stack[..|stack| - 1], ks[..|ks| - 1])
  {
  }

  // ---------------------------------------------------------------------
  // The operations.

  /** The stack after a pass: the top popped, or the listed directory's children pushed above it. */
  function NextStack(stack: seq<string>, p: Pass): seq<string>
    requires |stack| > 0
  {
    if p.Listed? then stack + ChildPaths(stack[|stack| - 1], p.es) else stack[..|stack| - 1]
  }

  /** The line a pass logs: the path of a regular file it removed. */
  function NextLines(w: Walk, p: Pass, path: string): seq<string>
    requires |w.ks| > 0
  {
    if p.Deleted? && IsFileIn(w.t, Top(w)) then [path] else []
  }

  /**
   * One pass of the walk's `while (!stack.empty())` loop: `stat` the path on
   * top; pop and remove a file, logging it when the removal succeeds; list a
   * directory, pushing its children, or pop and remove it when it has none;
   * pop anything else. `p` records which of these the device allowed.
   */
  method WalkPass(fs: Volume, log: Log?, stack: seq<string>, ghost c: Ctx, ghost w: Walk)
      returns (stack': seq<string>, ghost p: Pass, ghost wrote: seq<string>)
    requires fs.Valid() && fs.nodes == w.t && fs.locked == c.locked && fs.unreadable == c.unreadable
    requires |stack| > 0 && |w.ks| == |stack| && |w.exp| == |w.ks| && Comps(stack[|stack| - 1]) == Top(w)
    modifies fs, log
    ensures fs.Valid() && PassOk(c, w, p) && fs.nodes == Next(w, p).t
    ensures p.Listed? ==> forall i :: 0 <= i < |p.es| ==> IsName(p.es[i].name)
    ensures stack' == NextStack(stack, p)
    ensures wrote == NextLines(w, p, stack[|stack| - 1])
    ensures log != null ==> log.lines == old(log.lines) + wrote
  {
    var currentPath := stack[|stack| - 1];
    p := Kept;
    wrote := [];
    stack' := stack[..|stack| - 1];
    var st := fs.Stat(currentPath);
    if st.None? {
      p := Vanished;
    } else if st.value.File? {
      var ok := fs.Remove(currentPath);
      if ok {
        WriteLog(log, currentPath);
        wrote := [currentPath];
        p := Deleted;
      }
    } else if st.value.Dir? {
      var entries := fs.Readdir(currentPath);
      if entries.Some? && |entries.value| == 0 {
        assert ChildKeys(fs.nodes, Top(w)) == {};
        var ok := fs.Rmdir(currentPath);
        if ok {
          p := Deleted;
        }
      } else if entries.Some? {
        stack' := PushChildren(stack, currentPath, entries.value);
        p := Listed(entries.value);
      }
    }
  }

  /** After a pass the stack and the log still name the keys of the walk. */
  lemma PassNames(w: Walk, p: Pass, stack: seq<string>, lines: seq<string>)
    requires |stack| > 0 && |w.exp| == |w.ks| && StackNames(stack, w.ks) && Names(lines, w.logged)
    requires p.Listed? ==> forall i :: 0 <= i < |p.es| ==> IsName(p.es[i].name)
    ensures StackNames(NextStack(stack, p), Next(w, p).ks)
    ensures Names(lines + NextLines(w, p, stack[|stack| - 1]), Next(w, p).logged)
  {
    var path := stack[|stack| - 1];
    if p.Listed? {
      PushedNames(stack, w.ks, path, Top(w), p.es);
    } else {
      PoppedNames(stack, w.ks);
    }
    if NextLines(w, p, path) == [] {
      assert lines + [] == lines;
    }
  }

  /**
   * `deleteFileOrDirectory`. A path without a trailing '/' removes one
   * regular file; one with a trailing '/' walks the tree below it with a
   * stack, removing files, listing directories and removing each directory
   * once it is empty. Every file removed is logged, by the path the walk
   * reached it through.
   */
  method DeleteFileOrDirectory(fs: Volume, pathToDelete: string, log: Log?)
    requires fs.Valid() && |pathToDelete| > 0
    requires EndsWithSlash(pathToDelete) ==> WalkEnds(fs.nodes, fs.locked, fs.unreadable, Comps(pathToDelete))
    modifies fs, log
    ensures fs.Valid()
    ensures fs.nodes == old(fs.nodes) - DeletedBy(old(fs.nodes), fs.locked, fs.unreadable, pathToDelete)
    ensures log != null ==>
      LogsFiles(old(log.lines), log.lines, FilesOf(old(fs.nodes), DeletedBy(old(fs.nodes), fs.locked, fs.unreadable, pathToDelete)))
  {
    var pathIsFile := pathToDelete[|pathToDelete| - 1] != '/';
    if pathIsFile {
      DeleteFile(fs, pathToDelete, log);
    } else {
      DeleteTree(fs, pathToDelete, log);
    }
  }

  /** The branch for a path without a trailing '/': one regular file, removed and logged. */
  method DeleteFile(fs: Volume, pathToDelete: string, log: Log?)
    requires fs.Valid() && !EndsWithSlash(pathToDelete)
    modifies fs, log
    ensures fs.Valid()
    ensures fs.nodes == old(fs.nodes) - DeletedBy(old(fs.nodes), fs.locked, fs.unreadable, pathToDelete)
    ensures log != null ==>
      LogsFiles(old(log.lines), log.lines, FilesOf(old(fs.nodes), DeletedBy(old(fs.nodes), fs.locked, fs.unreadable, pathToDelete)))
  {
    var k := Comps(pathToDelete);
    if IsFile(fs, pathToDelete) {
      var ok := fs.Remove(pathToDelete);
      if ok {
        WriteLog(log, pathToDelete);
        if log != null {
          assert log.lines[|old(log.lines)|..] == [pathToDelete];
          OneLine(pathToDelete);
        }
      }
    }
    if log != null {
      assert log.lines[..|old(log.lines)|] == old(log.lines);
    }
  }

  /** The branch for a path ending in '/': the stack walk over everything below it. */
  method DeleteTree(fs: Volume, pathToDelete: string, log: Log?)
    requires fs.Valid() && EndsWithSlash(pathToDelete)
    requires WalkEnds(fs.nodes, fs.locked, fs.unreadable, Comps(pathToDelete))
    modifies fs, log
    ensures fs.Valid()
    ensures fs.nodes == old(fs.nodes) - TreeDeleteSet(old(fs.nodes), fs.locked, fs.unreadable, Comps(pathToDelete))
    ensures log != null ==>
      LogsFiles(old(log.lines), log.lines, FilesOf(old(fs.nodes), TreeDeleteSet(old(fs.nodes), fs.locked, fs.unreadable, Comps(pathToDelete))))
  {
    ghost var c := Ctx(fs.nodes, fs.locked, fs.unreadable, Comps(pathToDelete));
    ghost var w := Walk(fs.nodes, [c.r], [false], {}, []);
    ghost var lines: seq<string> := [];
    ghost var lines0 := if log != null then log.lines else [];
    WalkStart(c);
    var stack := [pathToDelete];
    while |stack| > 0
      invariant fs.Valid() && fs.nodes == w.t && fs.locked == c.locked && fs.unreadable == c.unreadable
      invariant TreeLoop(c, w, stack, lines)
      invariant log != null ==> log.lines == lines0 + lines
      decreases if |w.ks| == 0 then 0 else 1, Measure(w), |w.ks|
    {
      ghost var s0, w0, lines1, p, wrote := stack, w, lines, Vanished, [];
      stack, p, wrote := WalkPass(fs, log, stack, c, w);
      w, lines := Next(w, p), lines + wrote;
      TreeStep(c, w0, p, s0, lines1, wrote, stack, w, lines);
      AppendAssoc(lines0, lines1, wrote);
    }
    if log != null {
      WalkLog(c.t0, w.gone, w.logged, lines0, lines);
    }
  }

  /** One pass of the walk keeps the loop's invariant and makes progress. */
  /** The stack walk's loop invariant: the walk's own, and the strings that name its keys. */
  ghost predicate TreeLoop(c: Ctx, w: Walk, stack: seq<string>, lines: seq<string>) {
    WalkInv(c, w) && StackNames(stack, w.ks) && Names(lines, w.logged)
  }

  lemma TreeStep(c: Ctx, w: Walk, p: Pass, s0: seq<string>, lines: seq<string>, wrote: seq<string>,
                 stack': seq<string>, w': Walk, lines': seq<string>)
    requires TreeLoop(c, w, s0, lines) && WellFormed(w.t) && |s0| > 0 && PassOk(c, w, p)
    requires p.Listed? ==> forall i :: 0 <= i < |p.es| ==> IsName(p.es[i].name)
    requires stack' == NextStack(s0, p) && wrote == NextLines(w, p, s0[|s0| - 1])
    requires w' == Next(w, p) && lines' == lines + wrote
    ensures TreeLoop(c, w', stack', lines') && Progress(w, w')
  {
    PassStep(c, w, p);
    PassNames(w, p, s0, lines);
  }

  lemma AppendAssoc(a: seq<string>, b: seq<string>, c: seq<string>)
    ensures a + b + c == a + (b + c)
  {
  }

  lemma OneLine(line: string)
    ensures LinesNameFiles([line], {Comps(line)})
  {
    var lines := [line];
    assert Comps(lines[0]) in (set i | 0 <= i < |lines| :: Comps(lines[i]));
  }

  lemma WalkLog(t0: Tree, gone: set<Key>, logged: seq<Key>, lines0: seq<string>, lines: seq<string>)
    requires Logged(t0, gone, logged) && Names(lines, logged)
    ensures LogsFiles(lines0, lines0 + lines, FilesOf(t0, gone))
  {
    var all := lines0 + lines;
    assert all[..|lines0|] == lines0 && all[|lines0|..] == lines;
    assert (set i | 0 <= i < |lines| :: Comps(lines[i])) == (set i | 0 <= i < |logged| :: logged[i]);
  }

  // ---------------------------------------------------------------------
  // What one call removes.

  /**
   * A path without a trailing '/' removes at most the entry it names, only
   * when that is a regular file, and never a directory.
   */
  lemma FileBranchRemovesOneFile(t: Tree, locked: set<Key>, unreadable: set<Key>, path: string)
    requires !EndsWithSlash(path)
    ensures DeletedBy(t, locked, unreadable, path) <= {Comps(path)}
    ensures DeletedBy(t, locked, unreadable, path) == {Comps(path)} <==> IsFileIn(t, Comps(path)) && Comps(path) !in locked
    ensures forall k :: k in DeletedBy(t, locked, unreadable, path) ==> IsFileIn(t, k)
  {
  }

  /** The tree branch removes only entries at or below the path, and only ones that exist. */
  lemma TreeBranchStaysBelow(t: Tree, locked: set<Key>, unreadable: set<Key>, r: Key)
    requires WalkEnds(t, locked, unreadable, r)
    ensures TreeDeleteSet(t, locked, unreadable, r) <= Subtree(t, r)
    ensures forall k :: k in TreeDeleteSet(t, locked, unreadable, r) ==> k in t && r <= k && k !in locked
  {
    forall k | k in TreeDeleteSet(t, locked, unreadable, r) ensures k in t && r <= k && k !in locked {
      if k != r {
        assert k in Subtree(t, r) && r < k;
      }
    }
  }

  /**
   * When every removal below a readable directory succeeds and the directory
   * itself is not locked, the tree branch removes the directory and
   * everything below it: afterwards nothing at or below the path exists.
   */
  lemma TreeBranchRemovesAll(t: Tree, locked: set<Key>, unreadable: set<Key>, r: Key)
    requires IsDirIn(t, r) && r !in unreadable && r !in locked && Removable(t, locked, unreadable, r)
    ensures TreeDeleteSet(t, locked, unreadable, r) == Subtree(t, r)
    ensures Subtree(t - TreeDeleteSet(t, locked, unreadable, r), r) == {}
  {
  }

  /** What one call removes exists before it. */
  lemma DeletedByPresent(t: Tree, locked: set<Key>, unreadable: set<Key>, path: string)
    ensures DeletedBy(t, locked, unreadable, path) <= t.Keys
  {
  }

  /** Removing entries keeps a walk terminating. */
  lemma WalkEndsShrinks(t: Tree, locked: set<Key>, unreadable: set<Key>, r: Key, gone: set<Key>)
    requires WalkEnds(t, locked, unreadable, r)
    ensures WalkEnds(t - gone, locked, unreadable, r)
  {
  }

  /** Deleting the same path twice: the second call finds nothing more to remove. */
  lemma {:induction false} DeleteIdempotent(t: Tree, locked: set<Key>, unreadable: set<Key>, path: string)
    requires WellFormed(t)
    requires EndsWithSlash(path) ==> WalkEnds(t, locked, unreadable, Comps(path))
    ensures var t' := t - DeletedBy(t, locked, unreadable, path);
      DeletedBy(t', locked, unreadable, path) == {}
  {
    var r := Comps(path);
    var t' := t - DeletedBy(t, locked, unreadable, path);
    if EndsWithSlash(path) && IsDirIn(t, r) && r !in unreadable && r in locked {
      assert t'[r] == Dir;
      forall k | k in Subtree(t', r) ensures k == r {
        assert k in t && r <= k;
      }
    }
  }

  // ---------------------------------------------------------------------
  // Deleting every match of a pattern.

  /** The tree after deleting each of `paths` in turn. */
  ghost function DeleteAll(t: Tree, locked: set<Key>, unreadable: set<Key>, paths: seq<string>): Tree
    decreases |paths|
  {
    if paths == [] then t
    else
      var t' := DeleteAll(t, locked, unreadable, paths[..|paths| - 1]);
      t' - DeletedBy(t', locked, unreadable, paths[|paths| - 1])
  }

  /** Every path can be handed to `deleteFileOrDirectory`: non-empty, and a tree walk from it ends. */
  ghost predicate Deletable(t: Tree, locked: set<Key>, unreadable: set<Key>, paths: seq<string>) {
    forall i :: 0 <= i < |paths| ==>
      |paths[i]| > 0 && (EndsWithSlash(paths[i]) ==> WalkEnds(t, locked, unreadable, Comps(paths[i])))
  }

  /** Log lines naming disjoint sets of files, one after the other, name their union. */
  lemma LogsCompose(a: seq<string>, b: seq<string>, c: seq<string>, f1: set<Key>, f2: set<Key>)
    requires LogsFiles(a, b, f1) && LogsFiles(b, c, f2) && f1 !! f2
    ensures LogsFiles(a, c, f1 + f2)
  {
    var x, y := b[|a|..], c[|b|..];
    assert c[..|b|][..|a|] == c[..|a|];
    assert c[|a|..] == x + y;
    LinesAppend(x, y, f1, f2);
  }

  lemma LinesAppend(x: seq<string>, y: seq<string>, f1: set<Key>, f2: set<Key>)
    requires LinesNameFiles(x, f1) && LinesNameFiles(y, f2) && f1 !! f2
    ensures LinesNameFiles(x + y, f1 + f2)
  {
    LinesAppendDistinct(x, y, f1, f2);
    LinesAppendNamed(x, y, f1, f2);
  }

  lemma LinesAppendDistinct(x: seq<string>, y: seq<string>, f1: set<Key>, f2: set<Key>)
    requires LinesNameFiles(x, f1) && LinesNameFiles(y, f2) && f1 !! f2
    ensures var xy := x + y; forall i, j :: 0 <= i < j < |xy| ==> Comps(xy[i]) != Comps(xy[j])
  {
    var xy := x + y;
    forall i, j | 0 <= i < j < |xy| ensures Comps(xy[i]) != Comps(xy[j]) {
      if j < |x| {
        assert xy[i] == x[i] && xy[j] == x[j];
      } else if i < |x| {
        assert xy[i] == x[i] && xy[j] == y[j - |x|];
        assert Comps(x[i]) in f1 && Comps(y[j - |x|]) in f2;
      } else {
        assert xy[i] == y[i - |x|] && xy[j] == y[j - |x|];
      }
    }
  }

  lemma LinesAppendNamed(x: seq<string>, y: seq<string>, f1: set<Key>, f2: set<Key>)
    requires (set i | 0 <= i < |x| :: Comps(x[i])) == f1 && (set i | 0 <= i < |y| :: Comps(y[i])) == f2
    ensures var xy := x + y; (set i | 0 <= i < |xy| :: Comps(xy[i])) == f1 + f2
  {
    var xy := x + y;
    var named := set i | 0 <= i < |xy| :: Comps(xy[i]);
    forall k | k in f1 ensures k in named {
      var i :| 0 <= i < |x| && Comps(x[i]) == k;
      assert xy[i] == x[i];
    }
    forall k | k in f2 ensures k in named {
      var i :| 0 <= i < |y| && Comps(y[i]) == k;
      assert xy[|x| + i] == y[i];
    }
    forall k | k in named ensures k in f1 + f2 {
      var i :| 0 <= i < |xy| && Comps(xy[i]) == k;
      if i < |x| {
        assert xy[i] == x[i];
      } else {
        assert xy[i] == y[i - |x|];
      }
    }
  }

  /** One path of the pattern: what it removes joins what the earlier paths removed. */
  lemma PatternStep(t0: Tree, locked: set<Key>, unreadable: set<Key>, gone: set<Key>, path: string,
                    lines0: seq<string>, before: seq<string>, after: seq<string>, logging: bool)
    requires gone <= t0.Keys
    requires logging ==> LogsFiles(lines0, before, FilesOf(t0, gone))
    requires logging ==> LogsFiles(before, after, FilesOf(t0 - gone, DeletedBy(t0 - gone, locked, unreadable, path)))
    ensures var d := DeletedBy(t0 - gone, locked, unreadable, path);
      && gone + d <= t0.Keys && (t0 - gone) - d == t0 - (gone + d)
      && (logging ==> LogsFiles(lines0, after, FilesOf(t0, gone + d)))
  {
    var t := t0 - gone;
    var d := DeletedBy(t, locked, unreadable, path);
    DeletedByPresent(t, locked, unreadable, path);
    assert FilesOf(t, d) == FilesOf(t0, d);
    if logging {
      LogsCompose(lines0, before, after, FilesOf(t0, gone), FilesOf(t0, d));
      assert FilesOf(t0, gone) + FilesOf(t0, d) == FilesOf(t0, gone + d);
    }
  }

  /** No lines, no files. */
  lemma LogsNothing(a: seq<string>)
    ensures LogsFiles(a, a, {})
  {
    assert a[..|a|] == a && a[|a|..] == [];
  }

  /**
   * `deleteFileOrDirectoryByPattern`: `deleteFileOrDirectory` on every path
   * the wildcard expansion returned, in order. The expansion is not part of
   * this model; its result is the parameter `fileList`.
   */
  method DeleteFileOrDirectoryByPattern(fs: Volume, fileList: seq<string>, log: Log?)
    requires fs.Valid() && Deletable(fs.nodes, fs.locked, fs.unreadable, fileList)
    modifies fs, log
    ensures fs.Valid()
    ensures fs.nodes == DeleteAll(old(fs.nodes), fs.locked, fs.unreadable, fileList)
    ensures fs.nodes.Keys <= old(fs.nodes.Keys)
    ensures log != null ==>
      LogsFiles(old(log.lines), log.lines, FilesOf(old(fs.nodes), old(fs.nodes).Keys - fs.nodes.Keys))
  {
    ghost var t0 := fs.nodes;
    ghost var gone: set<Key> := {};
    ghost var lines0 := if log != null then log.lines else [];
    LogsNothing(lines0);
    assert fileList[..0] == [];
    for i := 0 to |fileList|
      invariant fs.Valid() && fs.nodes == DeleteAll(t0, fs.locked, fs.unreadable, fileList[..i])
      invariant gone <= t0.Keys && fs.nodes == t0 - gone
      invariant log != null ==> LogsFiles(lines0, log.lines, FilesOf(t0, gone))
    {
      ghost var t := fs.nodes;
      ghost var before := if log != null then log.lines else [];
      if EndsWithSlash(fileList[i]) {
        WalkEndsShrinks(t0, fs.locked, fs.unreadable, Comps(fileList[i]), gone);
      }
      DeleteFileOrDirectory(fs, fileList[i], log);
      assert fileList[..i + 1][..i] == fileList[..i];
      ghost var after := if log != null then log.lines else [];
      PatternStep(t0, fs.locked, fs.unreadable, gone, fileList[i], lines0, before, after, log != null);
      gone := gone + DeletedBy(t, fs.locked, fs.unreadable, fileList[i]);
    }
    assert fileList[..|fileList|] == fileList;
    assert t0.Keys - fs.nodes.Keys == gone;
  }
}
