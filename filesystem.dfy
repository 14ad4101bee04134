/**
 * An in-memory model of the POSIX-like file system the engine runs on.
 *
 * Entries are keyed by their component sequence (see Paths.Comps). Every
 * primitive reports success the way its POSIX counterpart does and leaves
 * the tree well formed: every entry's parent is a directory. What the device
 * refuses is fixed when the model is built: `locked` entries cannot be
 * removed, renamed or truncated, `unreadable` ones cannot be opened,
 * `flakyOpens[k]` is how many times in a row opening `k` for reading
 * fails before it works, and `readErrorAt`/`writeErrorAt` give the call
 * (counted from 0 within one copy) on which a read of, or a write to, that
 * file fails.
 */
module FileSystem {
  import opened Wrappers
  import opened Paths

  type Key = seq<string>
  type Tree = map<Key, Node>

  datatype Node = File(data: seq<bv8>) | Dir | Special

  /** One directory entry as `readdir` reports it: a name and whether d_type is DT_DIR. */
  datatype Entry = Entry(name: string, isDir: bool)

  datatype MkdirResult = Created | AlreadyExists | MkdirFailed

  function Parent(k: Key): Key
    requires |k| > 0
  {
    k[..|k| - 1]
  }

  /** Every key is a non-empty sequence of names and every entry's parent is a directory. */
  ghost predicate WellFormed(t: Tree) {
    && (forall k :: k in t ==> |k| > 0 && forall i :: 0 <= i < |k| ==> IsName(k[i]))
    && (forall k {:trigger Parent(k)} :: k in t && |k| > 1 ==> Parent(k) in t && t[Parent(k)].Dir?)
  }

  predicate ParentIsDir(t: Tree, k: Key) {
    |k| == 1 || (|k| > 1 && Parent(k) in t && t[Parent(k)].Dir?)
  }

  /** The keys of the direct children of `k`. */
  function ChildKeys(t: Tree, k: Key): set<Key> {
    set j | j in t && |j| == |k| + 1 && k <= j
  }

  /** Every key at or below `k`. */
  function Subtree(t: Tree, k: Key): set<Key> {
    set j | j in t && k <= j
  }

  /** The keys `k + [name]` that a listing of `k` names. */
  function EntryKeys(k: Key, es: seq<Entry>): set<Key> {
    if es == [] then {} else EntryKeys(k, es[..|es| - 1]) + {k + [es[|es| - 1].name]}
  }

  /** The entry `readdir` reports for the child `c` of `k`. */
  function ListedEntry(t: Tree, k: Key, c: Key): (e: Entry)
    requires WellFormed(t) && c in ChildKeys(t, k)
    ensures IsName(e.name) && c == k + [e.name] && (e.isDir <==> t[c].Dir?)
  {
    assert c == k + [c[|k|]];
    Entry(c[|k|], t[c].Dir?)
  }

  predicate IsFileIn(t: Tree, k: Key) {
    k in t && t[k].File?
  }

  predicate IsDirIn(t: Tree, k: Key) {
    k in t && t[k].Dir?
  }

  /** Neither key lies at or below the other. */
  predicate Disjoint(a: Key, b: Key) {
    !(a <= b) && !(b <= a)
  }

  /** In a well-formed tree nothing lies below a key that is absent or not a directory. */
  lemma {:induction false} NoOrphans(t: Tree, k: Key, j: Key)
    requires WellFormed(t)
    requires |k| > 0 && k < j && j in t
    ensures IsDirIn(t, k)
    decreases |j|
  {
    var p := Parent(j);
    assert |j| > 1 ==> p in t && t[p].Dir?;
    if p == k {
    } else {
      assert k < p;
      NoOrphans(t, k, p);
    }
  }

  /** A key that is a prefix of a present key is itself present. */
  lemma AncestorPresent(t: Tree, k: Key, j: Key)
    requires WellFormed(t) && |k| > 0 && k <= j && j in t
    ensures k in t
  {
    if |k| < |j| { NoOrphans(t, k, j); } else { assert k == j; }
  }

  lemma SubtreeOfAbsent(t: Tree, k: Key)
    requires WellFormed(t) && |k| > 0 && k !in t
    ensures Subtree(t, k) == {}
  {
    forall j | j in t && k <= j ensures false {
      AncestorPresent(t, k, j);
    }
  }

  lemma SubtreeOfNonDir(t: Tree, k: Key)
    requires WellFormed(t) && k in t && !t[k].Dir?
    ensures Subtree(t, k) == {k}
  {
    forall j | j in t && k <= j ensures j == k {
      if |k| < |j| { NoOrphans(t, k, j); } else { assert j[..|k|] == j; }
    }
  }

  /** Removing an entry without children keeps the tree well formed. */
  lemma RemoveLeafWellFormed(t: Tree, k: Key)
    requires WellFormed(t) && k in t
    requires !t[k].Dir? || ChildKeys(t, k) == {}
    ensures WellFormed(t - {k})
  {
    var t' := t - {k};
    forall j | j in t' && |j| > 1 ensures Parent(j) in t' && t'[Parent(j)].Dir? {
      var p := Parent(j);
      assert p in t && t[p].Dir?;
      assert p == k ==> j in ChildKeys(t, k);
    }
  }

  /** The new keys of the entries at or below `s` once they are renamed to `d`. */
  function MovedKeys(t: Tree, s: Key, d: Key): set<Key> {
    set j | j in t && s <= j :: d + j[|s|..]
  }

  /**
   * The tree after renaming `s` (and everything below it) to `d`. The last
   * branch is never taken (see MoveSubtreeAt); it only keeps the map total.
   */
  function MoveSubtree(t: Tree, s: Key, d: Key): Tree {
    map k | k in (set j | j in t && !(s <= j)) + MovedKeys(t, s, d) ::
      if d <= k && s + k[|d|..] in t then t[s + k[|d|..]]
      else if k in t then t[k]
      else Dir
  }

  /** Which keys the renamed tree has and where each one's entry comes from. */
  lemma MoveSubtreeAt(t: Tree, s: Key, d: Key, k: Key)
    ensures k in MoveSubtree(t, s, d) <==> (k in t && !(s <= k)) || (d <= k && s + k[|d|..] in t)
    ensures d <= k && s + k[|d|..] in t ==> MoveSubtree(t, s, d)[k] == t[s + k[|d|..]]
    ensures k in t && !(s <= k) && !(d <= k && s + k[|d|..] in t) ==> MoveSubtree(t, s, d)[k] == t[k]
  {
    if d <= k && s + k[|d|..] in t {
      var j := s + k[|d|..];
      assert j[|s|..] == k[|d|..];
      assert d + j[|s|..] == k;
      assert k in MovedKeys(t, s, d);
    }
    if k in MovedKeys(t, s, d) {
      var j' :| j' in t && s <= j' && k == d + j'[|s|..];
      assert k[|d|..] == j'[|s|..];
      assert s + k[|d|..] == j';
    }
  }

  lemma MoveSubtreeNames(t: Tree, s: Key, d: Key, k: Key)
    requires WellFormed(t) && forall i :: 0 <= i < |d| ==> IsName(d[i])
    requires |d| > 0 && d <= k && s + k[|d|..] in t
    ensures |k| > 0 && forall i :: 0 <= i < |k| ==> IsName(k[i])
  {
    var j := s + k[|d|..];
    forall i | 0 <= i < |k| ensures IsName(k[i]) {
      if i >= |d| {
        assert k[i] == j[|s| + i - |d|];
      }
    }
  }

  lemma MoveSubtreeParent(t: Tree, s: Key, d: Key, k: Key)
    requires WellFormed(t) && s in t && d !in t && ParentIsDir(t, d) && !(s <= d) && |d| > 0
    requires k in MoveSubtree(t, s, d) && |k| > 1
    ensures Parent(k) in MoveSubtree(t, s, d) && MoveSubtree(t, s, d)[Parent(k)].Dir?
  {
    MoveSubtreeAt(t, s, d, k);
    if d <= k && s + k[|d|..] in t {
      MovedParent(t, s, d, k);
    } else {
      KeptParent(t, s, d, k);
    }
  }

  lemma MovedParent(t: Tree, s: Key, d: Key, k: Key)
    requires WellFormed(t) && s in t && ParentIsDir(t, d) && !(s <= d) && |d| > 0
    requires d <= k && s + k[|d|..] in t && |k| > 1
    ensures Parent(k) in MoveSubtree(t, s, d) && MoveSubtree(t, s, d)[Parent(k)].Dir?
  {
    if |k| == |d| {
      assert k == d;
      MovedRootParent(t, s, d);
    } else {
      MovedInnerParent(t, s, d, k);
    }
  }

  lemma MovedRootParent(t: Tree, s: Key, d: Key)
    requires WellFormed(t) && ParentIsDir(t, d) && !(s <= d) && |d| > 1
    ensures Parent(d) in MoveSubtree(t, s, d) && MoveSubtree(t, s, d)[Parent(d)].Dir?
  {
    var p := Parent(d);
    MoveSubtreeAt(t, s, d, p);
    assert p in t && t[p].Dir?;
    assert p <= d;
    assert !(d <= p);
  }

  lemma MovedInnerParent(t: Tree, s: Key, d: Key, k: Key)
    requires WellFormed(t) && s in t
    requires d <= k && |k| > |d| && s + k[|d|..] in t
    ensures Parent(k) in MoveSubtree(t, s, d) && MoveSubtree(t, s, d)[Parent(k)].Dir?
  {
    var p := Parent(k);
    var j := s + k[|d|..];
    var q := Parent(j);
    assert |s| > 0;
    assert q in t && t[q].Dir?;
    assert d <= p;
    assert p[|d|..] == k[|d|..|k| - 1];
    assert q == s + p[|d|..];
    MoveSubtreeAt(t, s, d, p);
  }

  lemma KeptParent(t: Tree, s: Key, d: Key, k: Key)
    requires WellFormed(t) && d !in t && |d| > 0
    requires k in t && !(s <= k) && |k| > 1
    ensures Parent(k) in MoveSubtree(t, s, d) && MoveSubtree(t, s, d)[Parent(k)].Dir?
  {
    var p := Parent(k);
    MoveSubtreeAt(t, s, d, p);
    assert p in t && t[p].Dir?;
    assert !(s <= p);
    assert !(d <= p) by {
      if d <= p {
        NoOrphans(t, d, k);
      }
    }
  }

  lemma MoveSubtreeWellFormed(t: Tree, s: Key, d: Key)
    requires WellFormed(t) && s in t && d !in t && ParentIsDir(t, d) && !(s <= d)
    requires forall i :: 0 <= i < |d| ==> IsName(d[i])
    ensures WellFormed(MoveSubtree(t, s, d))
  {
    var t' := MoveSubtree(t, s, d);
    forall k | k in t' ensures |k| > 0 && forall i :: 0 <= i < |k| ==> IsName(k[i]) {
      MoveSubtreeAt(t, s, d, k);
      if !(k in t && !(s <= k)) {
        MoveSubtreeNames(t, s, d, k);
      }
    }
    forall k | k in t' && |k| > 1 ensures Parent(k) in t' && t'[Parent(k)].Dir? {
      MoveSubtreeParent(t, s, d, k);
    }
  }

  /** Renaming a non-directory moves that one entry. */
  lemma MoveSubtreeOfNonDir(t: Tree, s: Key, d: Key)
    requires WellFormed(t) && s in t && !t[s].Dir? && d !in t
    ensures MoveSubtree(t, s, d) == (t - {s})[d := t[s]]
  {
    SubtreeOfNonDir(t, s);
    var t' := MoveSubtree(t, s, d);
    var r := (t - {s})[d := t[s]];
    forall k ensures (k in t' <==> k in r) && (k in t' ==> t'[k] == r[k]) {
      MoveSubtreeAt(t, s, d, k);
      if k == d {
        assert k[|d|..] == [];
        assert s + k[|d|..] == s;
      }
      if d <= k && s + k[|d|..] in t {
        var j := s + k[|d|..];
        assert j in Subtree(t, s);
        assert |k[|d|..]| == 0;
        assert k == d;
      }
    }
    assert t' == r;
  }

  /** What the `readdir` loop knows after listing `es` with `rest` still to come. */
  ghost predicate ListingInv(t: Tree, k: Key, rest: set<Key>, es: seq<Entry>) {
    && rest <= ChildKeys(t, k)
    && EntryKeys(k, es) == ChildKeys(t, k) - rest
    && ListedSoFar(t, k, rest, es)
  }

  /** The entries listed so far: children of `k` with their kind, none still to come, no name twice. */
  ghost predicate ListedSoFar(t: Tree, k: Key, rest: set<Key>, es: seq<Entry>) {
    && (forall i :: 0 <= i < |es| ==> IsName(es[i].name) && k + [es[i].name] in t
                                      && (es[i].isDir <==> t[k + [es[i].name]].Dir?))
    && (forall i :: 0 <= i < |es| ==> k + [es[i].name] !in rest)
    && (forall i, j :: 0 <= i < j < |es| ==> es[i].name != es[j].name)
  }

  lemma ListingStep(t: Tree, k: Key, rest: set<Key>, es: seq<Entry>, c: Key)
    requires WellFormed(t) && ListingInv(t, k, rest, es) && c in rest
    ensures ListingInv(t, k, rest - {c}, es + [ListedEntry(t, k, c)])
  {
    var e := ListedEntry(t, k, c);
    EntryKeysSnoc(k, es, e);
    ListedSoFarStep(t, k, rest, es, c, e);
  }

  lemma EntryKeysSnoc(k: Key, es: seq<Entry>, e: Entry)
    ensures EntryKeys(k, es + [e]) == EntryKeys(k, es) + {k + [e.name]}
  {
    assert (es + [e])[..|es|] == es;
  }

  lemma ListedSoFarStep(t: Tree, k: Key, rest: set<Key>, es: seq<Entry>, c: Key, e: Entry)
    requires ListedSoFar(t, k, rest, es) && c in rest && c in t
    requires IsName(e.name) && c == k + [e.name] && (e.isDir <==> t[c].Dir?)
    ensures ListedSoFar(t, k, rest - {c}, es + [e])
  {
    var es' := es + [e];
    forall i | 0 <= i < |es| ensures es'[i] == es[i] && es[i].name != e.name {
      assert k + [es[i].name] !in rest;
    }
  }

  /** The `readdir` loop over one directory of `t`. */
  method ListChildren(t: Tree, k: Key) returns (es: seq<Entry>)
    requires WellFormed(t)
    ensures forall i :: 0 <= i < |es| ==> IsName(es[i].name) && k + [es[i].name] in t
                                          && (es[i].isDir <==> t[k + [es[i].name]].Dir?)
    ensures forall i, j :: 0 <= i < j < |es| ==> es[i].name != es[j].name
    ensures EntryKeys(k, es) == ChildKeys(t, k)
  {
    var rest := ChildKeys(t, k);
    es := [];
    while rest != {}
      invariant ListingInv(t, k, rest, es)
      decreases |rest|
    {
      var c :| c in rest;
      ListingStep(t, k, rest, es, c);
      es := es + [ListedEntry(t, k, c)];
      rest := rest - {c};
    }
  }

  /** The tree after C `remove(k)`. */
  function RemoveEffect(t: Tree, locked: set<Key>, k: Key): Tree {
    if k in t && k !in locked && (!t[k].Dir? || ChildKeys(t, k) == {}) then t - {k} else t
  }

  lemma RemoveEffectWellFormed(t: Tree, locked: set<Key>, k: Key)
    requires WellFormed(t)
    ensures WellFormed(RemoveEffect(t, locked, k))
  {
    if RemoveEffect(t, locked, k) != t {
      RemoveLeafWellFormed(t, k);
    }
  }

  /** The keys in a sequence. */
  function Elems(q: seq<Key>): set<Key> {
    set x | x in q
  }

  ghost predicate Distinct(q: seq<Key>) {
    forall i, j :: 0 <= i < j < |q| ==> q[i] != q[j]
  }

  /** Each path names the key at the same place. */
  ghost predicate Names(ps: seq<string>, ks: seq<Key>) {
    |ps| == |ks| && forall i :: 0 <= i < |ks| ==> Comps(ps[i]) == ks[i]
  }

  /** What `readdir` reports for `d`, as `Volume.Readdir` promises it. */
  ghost predicate IsListing(t: Tree, d: Key, es: seq<Entry>) {
    && (forall i :: 0 <= i < |es| ==> IsName(es[i].name) && d + [es[i].name] in t
                                      && (es[i].isDir <==> t[d + [es[i].name]].Dir?))
    && DistinctNames(es)
    && EntryKeys(d, es) == ChildKeys(t, d)
  }

  ghost predicate DistinctNames(es: seq<Entry>) {
    forall i, j :: 0 <= i < j < |es| ==> es[i].name != es[j].name
  }

  /** A key no entry names is not among the listing's keys. */
  lemma {:induction false} EntryKeysOnly(d: Key, es: seq<Entry>, c: Key)
    requires forall j :: 0 <= j < |es| ==> c != d + [es[j].name]
    ensures c !in EntryKeys(d, es)
    decreases |es|
  {
    if es != [] {
      var n := |es| - 1;
      assert forall j :: 0 <= j < n ==> es[..n][j] == es[j];
      EntryKeysOnly(d, es[..n], c);
    }
  }

  /** The entry at `i` names a key the earlier entries do not. */
  lemma EntryKeysFresh(d: Key, es: seq<Entry>, i: nat)
    requires DistinctNames(es) && i < |es|
    ensures d + [es[i].name] !in EntryKeys(d, es[..i])
    ensures EntryKeys(d, es[..i + 1]) == EntryKeys(d, es[..i]) + {d + [es[i].name]}
  {
    forall j | 0 <= j < i ensures d + [es[i].name] != d + [es[..i][j].name] {
      assert es[..i][j] == es[j];
      assert (d + [es[j].name])[|d|] == es[j].name;
    }
    EntryKeysOnly(d, es[..i], d + [es[i].name]);
    assert es[..i + 1][..i] == es[..i];
  }

  /** The file system of one storage volume, with the refusals the device makes. */
  class Volume {
    var nodes: Tree
    const locked: set<Key>
    const unreadable: set<Key>
    const flakyOpens: map<Key, nat>
    const readErrorAt: map<Key, nat>
    const writeErrorAt: map<Key, nat>

    ghost predicate Valid()
      reads this
    {
      WellFormed(nodes)
    }

    constructor (initial: Tree, locked: set<Key>, unreadable: set<Key>,
                 flakyOpens: map<Key, nat>, readErrorAt: map<Key, nat>, writeErrorAt: map<Key, nat>)
      requires WellFormed(initial)
      ensures Valid() && nodes == initial
      ensures this.locked == locked && this.unreadable == unreadable
      ensures this.flakyOpens == flakyOpens && this.readErrorAt == readErrorAt
      ensures this.writeErrorAt == writeErrorAt
    {
      nodes := initial;
      this.locked := locked;
      this.unreadable := unreadable;
      this.flakyOpens := flakyOpens;
      this.readErrorAt := readErrorAt;
      this.writeErrorAt := writeErrorAt;
    }

    /** `stat`/`lstat`: the entry a path names, if any (links are opaque `Special` entries). */
    function Stat(p: string): (r: Option<Node>)
      reads this
      ensures r.Some? <==> Comps(p) in nodes
      ensures r.Some? ==> r.value == nodes[Comps(p)]
    {
      var k := Comps(p);
      if k in nodes then Some(nodes[k]) else None
    }

    /** `mkdir`: EEXIST when the entry exists, a failure when the parent is not a directory. */
    method Mkdir(p: string) returns (r: MkdirResult)
      requires Valid()
      modifies this
      ensures Valid()
      ensures var k := Comps(p);
        if k in old(nodes) then r == AlreadyExists && nodes == old(nodes)
        else if k != [] && ParentIsDir(old(nodes), k) then r == Created && nodes == old(nodes)[k := Dir]
        else r == MkdirFailed && nodes == old(nodes)
    {
      var k := Comps(p);
      if k in nodes {
        r := AlreadyExists;
      } else if k != [] && ParentIsDir(nodes, k) {
        nodes := nodes[k := Dir];
        r := Created;
      } else {
        r := MkdirFailed;
      }
    }

    /** C `remove`: unlinks a file or link, or removes an empty directory. */
    method Remove(p: string) returns (ok: bool)
      requires Valid()
      modifies this
      ensures Valid()
      ensures var k := Comps(p);
        ok == (k in old(nodes) && k !in locked && (!old(nodes)[k].Dir? || ChildKeys(old(nodes), k) == {}))
      ensures nodes == if ok then old(nodes) - {Comps(p)} else old(nodes)
    {
      var k := Comps(p);
      ok := k in nodes && k !in locked && (!nodes[k].Dir? || ChildKeys(nodes, k) == {});
      if ok {
        RemoveLeafWellFormed(nodes, k);
        nodes := nodes - {k};
      }
    }

    /** `rmdir`: removes an empty directory. */
    method Rmdir(p: string) returns (ok: bool)
      requires Valid()
      modifies this
      ensures Valid()
      ensures var k := Comps(p);
        ok == (k in old(nodes) && k !in locked && old(nodes)[k].Dir? && ChildKeys(old(nodes), k) == {})
      ensures nodes == if ok then old(nodes) - {Comps(p)} else old(nodes)
    {
      var k := Comps(p);
      ok := k in nodes && k !in locked && nodes[k].Dir? && ChildKeys(nodes, k) == {};
      if ok {
        RemoveLeafWellFormed(nodes, k);
        nodes := nodes - {k};
      }
    }

    /**
     * `rename`: moves an entry, with everything below it, to a new name. The
     * model never replaces an existing destination; every caller in the engine
     * removes the destination first.
     */
    method Rename(src: string, dst: string) returns (ok: bool)
      requires Valid()
      modifies this
      ensures Valid()
      ensures var s, d := Comps(src), Comps(dst);
        ok == (s in old(nodes) && s !in locked && d !in old(nodes) && ParentIsDir(old(nodes), d) && !(s <= d))
      ensures nodes == if ok then MoveSubtree(old(nodes), Comps(src), Comps(dst)) else old(nodes)
    {
      var s, d := Comps(src), Comps(dst);
      ok := s in nodes && s !in locked && d !in nodes && ParentIsDir(nodes, d) && !(s <= d);
      if ok {
        MoveSubtreeWellFormed(nodes, s, d);
        nodes := MoveSubtree(nodes, s, d);
      }
    }

    /**
     * `opendir` plus the `readdir` loop: every child of a readable directory
     * once, in an order the model does not fix; None when `opendir` fails.
     */
    method Readdir(p: string) returns (r: Option<seq<Entry>>)
      requires Valid()
      ensures var k := Comps(p);
        r.Some? <==> (k in nodes && nodes[k].Dir? && k !in unreadable)
      ensures r.Some? ==> var k, es := Comps(p), r.value;
        && (forall i :: 0 <= i < |es| ==> IsName(es[i].name) && k + [es[i].name] in nodes
                                          && (es[i].isDir <==> nodes[k + [es[i].name]].Dir?))
        && (forall i, j :: 0 <= i < j < |es| ==> es[i].name != es[j].name)
        && EntryKeys(k, es) == ChildKeys(nodes, k)
    {
      var k := Comps(p);
      if !(k in nodes && nodes[k].Dir? && k !in unreadable) {
        return None;
      }
      var es := ListChildren(nodes, k);
      r := Some(es);
    }

    /** `fopen(p, "rb")` on attempt number `attempt` of one copy. */
    predicate CanOpenForRead(p: string, attempt: nat)
      reads this
    {
      var k := Comps(p);
      && k in nodes && nodes[k].File? && k !in unreadable
      && (k in flakyOpens ==> attempt >= flakyOpens[k])
    }

    /** `fopen(p, "wb")`: creates or truncates a regular file. */
    method OpenForWrite(p: string) returns (ok: bool)
      requires Valid()
      modifies this
      ensures Valid()
      ensures var k := Comps(p);
        ok == (if k in old(nodes) then old(nodes)[k].File? && k !in locked
               else k != [] && ParentIsDir(old(nodes), k))
      ensures nodes == if ok then old(nodes)[Comps(p) := File([])] else old(nodes)
    {
      var k := Comps(p);
      ok := if k in nodes then nodes[k].File? && k !in locked else k != [] && ParentIsDir(nodes, k);
      if ok {
        if k in nodes {
        }
        nodes := nodes[k := File([])];
      }
    }

    /**
     * `fread` of up to `chunk` bytes at `offset` on call number `call`: None
     * is a read error, an empty sequence is end of file.
     */
    function Fread(p: string, offset: nat, chunk: nat, call: nat): (r: Option<seq<bv8>>)
      reads this
      requires IsFileIn(nodes, Comps(p))
    {
      var k := Comps(p);
      var data := nodes[k].data;
      if k in readErrorAt && readErrorAt[k] == call then None
      else if offset >= |data| then Some([])
      else if offset + chunk <= |data| then Some(data[offset..offset + chunk])
      else Some(data[offset..])
    }

    /** `fwrite` on call number `call`: all of `bytes`, or nothing when the device fails that call. */
    method Fwrite(p: string, bytes: seq<bv8>, call: nat) returns (written: nat)
      requires Valid() && IsFileIn(nodes, Comps(p))
      modifies this
      ensures Valid()
      ensures var k := Comps(p);
        if k in writeErrorAt && writeErrorAt[k] == call then written == 0 && nodes == old(nodes)
        else written == |bytes| && nodes == old(nodes)[k := File(old(nodes)[k].data + bytes)]
    {
      var k := Comps(p);
      if k in writeErrorAt && writeErrorAt[k] == call {
        written := 0;
      } else {
        nodes := nodes[k := File(nodes[k].data + bytes)];
        written := |bytes|;
      }
    }
  }
}
