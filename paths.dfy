/**
 * Path strings and the rule by which the file system resolves them.
 *
 * A path is resolved by its non-empty '/'-separated components, so a
 * trailing '/' and repeated '//' do not change the entry a path names.
 * The engine relies on this: the delete loop appends '/' to every child,
 * files included, and the size and copy walks join with "/" onto paths
 * that already end in '/'.
 */
module Paths {

  /** The volume prefix that directory creation strips and rebuilds from. */
  const ROOT_PATH: string := "sdmc:/"

  /** A single path component: non-empty and free of '/'. */
  predicate IsName(n: string) {
    |n| > 0 && '/' !in n
  }

  predicate EndsWithSlash(p: string) {
    |p| > 0 && p[|p| - 1] == '/'
  }

  predicate StartsWith(s: string, prefix: string) {
    |prefix| <= |s| && s[..|prefix|] == prefix
  }

  /** Index just after the last '/' of `p`, or 0 when `p` has none. */
  function SegStart(p: string): (r: nat)
    ensures r <= |p|
    ensures r == 0 || p[r - 1] == '/'
    ensures forall i :: r <= i < |p| ==> p[i] != '/'
  {
    if p == [] then 0
    else if p[|p| - 1] == '/' then |p|
    else SegStart(p[..|p| - 1])
  }

  /** The non-empty components of `p`, in order. */
  function Comps(p: string): (r: seq<string>)
    ensures forall i :: 0 <= i < |r| ==> IsName(r[i])
    decreases |p|
  {
    if p == [] then []
    else if p[|p| - 1] == '/' then Comps(p[..|p| - 1])
    else
      var k := SegStart(p);
      assert '/' !in p[k..] by {
        forall j | 0 <= j < |p[k..]| ensures p[k..][j] != '/' { assert p[k..][j] == p[k + j]; }
      }
      Comps(p[..k]) + [p[k..]]
  }

  lemma CompsEmpty()
    ensures Comps("") == [] && Comps("/") == []
  {
    assert "/"[..0] == "";
  }

  /** A trailing '/' does not change what a path names. */
  lemma CompsSlash(a: string)
    ensures Comps(a + "/") == Comps(a)
  {
    var s := a + "/";
    assert s[..|s| - 1] == a;
  }

  lemma SegStartAfterSlash(a: string, n: string)
    requires EndsWithSlash(a) && IsName(n)
    ensures SegStart(a + n) == |a|
    decreases |n|
  {
    var s := a + n;
    if |n| == 1 {
      assert s[..|s| - 1] == a;
      assert s[|s| - 1] == n[0];
      assert n[0] in n;
    } else {
      var n' := n[..|n| - 1];
      assert s[..|s| - 1] == a + n';
      assert n[|n| - 1] in n;
      assert forall c :: c in n' ==> c in n;
      SegStartAfterSlash(a, n');
    }
  }

  lemma CompsAfterSlash(a: string, n: string)
    requires EndsWithSlash(a) && IsName(n)
    ensures Comps(a + n) == Comps(a) + [n]
  {
    var s := a + n;
    SegStartAfterSlash(a, n);
    assert n[|n| - 1] in n;
    assert s[|s| - 1] == n[|n| - 1];
    assert s[..|a|] == a;
    assert s[|a|..] == n;
  }

  /** Joining a component with "/" adds exactly that component. */
  lemma CompsChild(a: string, n: string)
    requires IsName(n)
    ensures Comps(a + "/" + n) == Comps(a) + [n]
    ensures Comps(a + "/" + n + "/") == Comps(a) + [n]
  {
    CompsAfterSlash(a + "/", n);
    CompsSlash(a);
    CompsSlash(a + "/" + n);
  }

  lemma CompsName(n: string)
    requires IsName(n)
    ensures Comps(n) == [n]
    ensures Comps(n + "/") == [n]
  {
    SegStartAfterSlash("/", n);
    CompsChild("", n);
    assert "" + "/" + n == "/" + n;
    CompsEmpty();
    var s := n;
    assert SegStart(s) == 0 by {
      assert forall i :: 0 <= i < |s| ==> s[i] != '/' by {
        forall i | 0 <= i < |s| ensures s[i] != '/' { assert s[i] in n; }
      }
      SegStartNone(s);
    }
    assert s[..0] == "" && s[0..] == s;
    CompsSlash(n);
  }

  lemma SegStartNone(s: string)
    requires forall i :: 0 <= i < |s| ==> s[i] != '/'
    ensures SegStart(s) == 0
  {
    if s != [] {
      SegStartNone(s[..|s| - 1]);
    }
  }

  /** Joining two paths with "/" concatenates their components. */
  lemma {:induction false} CompsJoin(a: string, b: string)
    ensures Comps(a + "/" + b) == Comps(a) + Comps(b)
    decreases |b|
  {
    if b == [] {
      assert a + "/" + b == a + "/";
      CompsSlash(a);
    } else if b[|b| - 1] == '/' {
      var b' := b[..|b| - 1];
      assert a + "/" + b == (a + "/" + b') + "/";
      CompsSlash(a + "/" + b');
      CompsJoin(a, b');
      assert b == b' + "/";
      CompsSlash(b');
    } else {
      var k := SegStart(b);
      var n := b[k..];
      assert IsName(n) by {
        forall j | 0 <= j < |n| ensures n[j] != '/' { assert n[j] == b[k + j]; }
      }
      var b0 := b[..k];
      assert b == b0 + n;
      if k == 0 {
        assert a + "/" + b == (a + "/") + n;
        CompsAfterSlash(a + "/", n);
        CompsSlash(a);
        CompsName(n);
      } else {
        assert EndsWithSlash(b0);
        assert a + "/" + b == (a + "/" + b0) + n;
        CompsAfterSlash(a + "/" + b0, n);
        CompsJoin(a, b0);
        CompsAfterSlash(b0, n);
      }
    }
  }

  /** Strip one trailing '/', as the move walk does before joining a name. */
  function StripSlash(p: string): (r: string)
    ensures Comps(r) == Comps(p)
  {
    if EndsWithSlash(p) then
      assert p == p[..|p| - 1] + "/";
      CompsSlash(p[..|p| - 1]);
      p[..|p| - 1]
    else p
  }

  /**
   * Everything up to and including the last '/', or "" when there is none.
   * The repository's helper is not part of this model; this is the rule the
   * engine's callers rely on.
   */
  function GetParentDirFromPath(p: string): (r: string)
    ensures StartsWith(p, r)
    ensures r == "" || EndsWithSlash(r)
  {
    p[..SegStart(p)]
  }

  /** Everything after the last '/' (empty when `p` ends in '/'). */
  function GetFileName(p: string): (r: string)
    ensures GetParentDirFromPath(p) + r == p
    ensures '/' !in r
  {
    var k := SegStart(p);
    assert p[..k] + p[k..] == p;
    assert forall j :: 0 <= j < |p[k..]| ==> p[k..][j] == p[k + j];
    p[k..]
  }

  /** The last non-empty component, ignoring trailing '/'; "" when there is none. */
  function GetNameFromPath(p: string): (r: string)
    ensures r == "" <==> Comps(p) == []
    ensures r != "" ==> IsName(r) && Comps(p)[|Comps(p)| - 1] == r
  {
    var c := Comps(p);
    if c == [] then "" else c[|c| - 1]
  }

  /** A path without a trailing '/' names its parent directory plus its file name. */
  lemma ParentAndFileName(p: string)
    requires Comps(p) != [] && !EndsWithSlash(p)
    ensures IsName(GetFileName(p))
    ensures Comps(p) == Comps(GetParentDirFromPath(p)) + [GetFileName(p)]
  {
    var k := SegStart(p);
    assert p[..k] + p[k..] == p;
  }
}
