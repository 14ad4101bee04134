/**
 * String-list utilities: prefix filtering of item lists, the bracketed
 * comma-list parser, line lookup in a list file and the duplicate-line
 * comparisons between list files.
 *
 * A file is given by its text (`None` when it cannot be opened); reading
 * it line by line yields the chunks `fgets` returns, each one line with
 * its newline.
 */
module ListFuncs {
  import opened Wrappers
  import opened Paths

  // ---------------------------------------------------------------------
  // Prefix removal

  /** The items that do not start with `entry`, in their original order. */
  function Unprefixed(entry: string, items: seq<string>): (r: seq<string>)
    ensures |r| <= |items|
  {
    if items == [] then []
    else
      var init := Unprefixed(entry, items[..|items| - 1]);
      if StartsWith(items[|items| - 1], entry) then init else init + [items[|items| - 1]]
  }

  /** An item survives exactly as often as it occurs, unless `entry` is its prefix. */
  lemma {:induction false} UnprefixedCount(entry: string, items: seq<string>, x: string)
    ensures multiset(Unprefixed(entry, items))[x] == if StartsWith(x, entry) then 0 else multiset(items)[x]
  {
    if items != [] {
      var init := items[..|items| - 1];
      assert items == init + [items[|items| - 1]];
      UnprefixedCount(entry, init, x);
    }
  }

  lemma UnprefixedMembers(entry: string, items: seq<string>, x: string)
    ensures x in Unprefixed(entry, items) <==> x in items && !StartsWith(x, entry)
  {
    UnprefixedCount(entry, items, x);
  }

  /** Removal works piecewise, so the survivors keep their relative order. */
  lemma {:induction false} UnprefixedConcat(entry: string, a: seq<string>, b: seq<string>)
    ensures Unprefixed(entry, a + b) == Unprefixed(entry, a) + Unprefixed(entry, b)
    decreases |b|
  {
    if b != [] {
      var b' := b[..|b| - 1];
      assert (a + b)[..|a + b| - 1] == a + b';
      UnprefixedConcat(entry, a, b');
    } else {
      assert a + b == a;
    }
  }

  /** Every string starts with the empty string, so an empty entry removes everything. */
  lemma {:induction false} UnprefixedEmptyEntry(items: seq<string>)
    ensures Unprefixed("", items) == []
  {
    if items != [] {
      UnprefixedEmptyEntry(items[..|items| - 1]);
    }
  }

  /**
   * `removeEntryFromList`: compact the first `len` items in place, keeping
   * those `entry` is not a prefix of; the new length is returned.
   */
  method RemoveEntryFromList(entry: string, a: array<string>, len: nat) returns (n: nat)
    requires len <= a.Length
    modifies a
    ensures n <= len
    ensures a[..n] == Unprefixed(entry, old(a[..len]))
    ensures a[len..] == old(a[len..])
  {
    n := 0;
    var i := 0;
    while i < len
      invariant n <= i <= len
      invariant a[..n] == Unprefixed(entry, old(a[..len])[..i])
      invariant a[i..] == old(a[i..])
    {
      assert old(a[..len])[..i + 1][..i] == old(a[..len])[..i];
      if !StartsWith(a[i], entry) {
        a[n] := a[i];
        n := n + 1;
      }
      i := i + 1;
    }
    assert old(a[..len])[..len] == old(a[..len]);
  }

  /** The items left after removing, one filter entry after another. */
  function FilterSeq(filters: seq<string>, items: seq<string>): seq<string> {
    if filters == [] then items
    else Unprefixed(filters[|filters| - 1], FilterSeq(filters[..|filters| - 1], items))
  }

  /** The items no filter entry is a prefix of, in one pass. */
  function Kept(filters: seq<string>, items: seq<string>): seq<string> {
    if items == [] then []
    else
      var init := Kept(filters, items[..|items| - 1]);
      var x := items[|items| - 1];
      if exists f :: f in filters && StartsWith(x, f) then init else init + [x]
  }

  lemma {:induction false} KeptStep(filters: seq<string>, e: string, items: seq<string>)
    ensures Unprefixed(e, Kept(filters, items)) == Kept(filters + [e], items)
  {
    if items != [] {
      var init := items[..|items| - 1];
      var x := items[|items| - 1];
      KeptStep(filters, e, init);
      var k := Kept(filters, init);
      if exists f :: f in filters && StartsWith(x, f) {
        var f :| f in filters && StartsWith(x, f);
        assert f in filters + [e];
      } else if StartsWith(x, e) {
        assert e in filters + [e];
        UnprefixedConcat(e, k, [x]);
      } else {
        forall f | f in filters + [e] ensures !StartsWith(x, f) {
          if f != e { assert f in filters; }
        }
        UnprefixedConcat(e, k, [x]);
        assert Unprefixed(e, [x]) == [x] by { assert [x][..0] == []; }
      }
    }
  }

  /** Filtering by each entry in turn keeps exactly the items no entry prefixes. */
  lemma {:induction false} FilterSeqIsKept(filters: seq<string>, items: seq<string>)
    ensures FilterSeq(filters, items) == Kept(filters, items)
  {
    if filters == [] {
      KeptNone(items);
    } else {
      var fs := filters[..|filters| - 1];
      FilterSeqIsKept(fs, items);
      KeptStep(fs, filters[|filters| - 1], items);
      assert fs + [filters[|filters| - 1]] == filters;
    }
  }

  lemma {:induction false} KeptNone(items: seq<string>)
    ensures Kept([], items) == items
  {
    if items != [] {
      KeptNone(items[..|items| - 1]);
    }
  }

  lemma {:induction false} KeptMembers(filters: seq<string>, items: seq<string>, x: string)
    ensures x in Kept(filters, items) <==> x in items && forall f :: f in filters ==> !StartsWith(x, f)
  {
    if items != [] {
      var init := items[..|items| - 1];
      KeptMembers(filters, init, x);
      assert items == init + [items[|items| - 1]];
    }
  }

  /** `filterItemsList`: remove the items prefixed by each filter entry in turn. */
  method FilterItemsList(filters: seq<string>, a: array<string>, len: nat) returns (n: nat)
    requires len <= a.Length
    modifies a
    ensures n <= len
    ensures a[..n] == FilterSeq(filters, old(a[..len]))
    ensures a[len..] == old(a[len..])
  {
    n := len;
    for k := 0 to |filters|
      invariant n <= len
      invariant a[..n] == FilterSeq(filters[..k], old(a[..len]))
      invariant a[len..] == old(a[len..])
    {
      assert filters[..k + 1][..k] == filters[..k];
      n := RemoveEntryFromList(filters[k], a, n);
    }
    assert filters[..|filters|] == filters;
  }

  // ---------------------------------------------------------------------
  // String cleaning (the repository's string helpers are not part of this
  // model; these are the definitions the parser is stated with)

  predicate IsSpace(c: char) {
    c == ' ' || c == '\t' || c == '\n' || c == '\r' || c == '\U{0C}' || c == '\U{0B}'
  }

  /** The index of the first character at or after `k` that is not white space. */
  function SpacesFrom(s: string, k: nat): (i: nat)
    requires k <= |s|
    ensures k <= i <= |s| && (i < |s| ==> !IsSpace(s[i]))
    decreases |s| - k
  {
    if k < |s| && IsSpace(s[k]) then SpacesFrom(s, k + 1) else k
  }

  /** The index just after the last character before `k` that is not white space. */
  function SpacesBefore(s: string, k: nat): (i: nat)
    requires k <= |s|
    ensures i <= k && (i > 0 ==> !IsSpace(s[i - 1]))
  {
    if k > 0 && IsSpace(s[k - 1]) then SpacesBefore(s, k - 1) else k
  }

  function TrimLeft(s: string): (r: string)
    ensures |r| <= |s| && r == s[|s| - |r|..]
    ensures r == [] || !IsSpace(r[0])
  {
    s[SpacesFrom(s, 0)..]
  }

  function TrimRight(s: string): (r: string)
    ensures |r| <= |s| && r == s[..|r|]
    ensures r == [] || !IsSpace(r[|r| - 1])
  {
    s[..SpacesBefore(s, |s|)]
  }

  /** Leading and trailing white space removed. */
  function Trim(s: string): (r: string)
    ensures r == [] || (!IsSpace(r[0]) && !IsSpace(r[|r| - 1]))
  {
    var l := TrimLeft(s);
    var r := TrimRight(l);
    assert r != [] ==> r[0] == l[0];
    r
  }

  /** One pair of matching surrounding quotes removed. */
  function RemoveQuotes(s: string): string {
    if |s| >= 2 && (s[0] == '"' || s[0] == '\'') && s[|s| - 1] == s[0] then s[1..|s| - 1] else s
  }

  function Clean(s: string): string {
    RemoveQuotes(Trim(s))
  }

  // ---------------------------------------------------------------------
  // Bracketed comma lists

  /** `find(',', k)`: the index of the first ',' at or after `k`, or `|s|` when there is none. */
  function CommaFrom(s: string, k: nat): (i: nat)
    requires k <= |s|
    ensures k <= i <= |s| && (i < |s| ==> s[i] == ',')
    decreases |s| - k
  {
    if k == |s| || s[k] == ',' then k else CommaFrom(s, k + 1)
  }

  /** No comma lies between `k` and the one `CommaFrom` finds. */
  lemma {:induction false} BeforeComma(s: string, k: nat)
    requires k <= |s|
    ensures forall j :: k <= j < CommaFrom(s, k) ==> s[j] != ','
    decreases |s| - k
  {
    if k < |s| && s[k] != ',' {
      BeforeComma(s, k + 1);
    }
  }

  /** The text of `s[k..]` between commas, in order. */
  function PiecesFrom(s: string, k: nat): (ps: seq<string>)
    requires k <= |s|
    ensures |ps| > 0
    decreases |s| - k
  {
    var e := CommaFrom(s, k);
    if e == |s| then [s[k..]] else [s[k..e]] + PiecesFrom(s, e + 1)
  }

  /** The text between commas, in order: one more piece than there are commas. */
  function Pieces(s: string): (ps: seq<string>)
    ensures |ps| > 0
  {
    PiecesFrom(s, 0)
  }

  function JoinCommas(ps: seq<string>): string
    requires |ps| > 0
  {
    if |ps| == 1 then ps[0] else ps[0] + "," + JoinCommas(ps[1..])
  }

  /** One step of `PiecesFrom`: the piece up to the next comma, then the pieces after it. */
  lemma PiecesFromStep(s: string, k: nat)
    requires k <= |s|
    ensures CommaFrom(s, k) == |s| ==> PiecesFrom(s, k) == [s[k..]]
    ensures CommaFrom(s, k) < |s| ==> PiecesFrom(s, k) == [s[k..CommaFrom(s, k)]] + PiecesFrom(s, CommaFrom(s, k) + 1)
  {
  }

  lemma {:induction false} PiecesFromJoin(s: string, k: nat)
    requires k <= |s|
    ensures JoinCommas(PiecesFrom(s, k)) == s[k..]
    decreases |s| - k
  {
    var e := CommaFrom(s, k);
    PiecesFromStep(s, k);
    if e < |s| {
      PiecesFromJoin(s, e + 1);
      var ps := PiecesFrom(s, k);
      assert ps[0] == s[k..e] && ps[1..] == PiecesFrom(s, e + 1);
      assert JoinCommas(ps) == s[k..e] + "," + s[e + 1..];
      assert s[k..] == s[k..e] + "," + s[e + 1..];
    }
  }

  /** Joining the pieces with commas gives the text back. */
  lemma PiecesJoin(s: string)
    ensures JoinCommas(Pieces(s)) == s
  {
    PiecesFromJoin(s, 0);
    assert s[0..] == s;
  }

  /** The text up to the next comma holds no comma. */
  lemma HeadNoComma(s: string, k: nat)
    requires k <= |s|
    ensures ',' !in s[k..CommaFrom(s, k)] && multiset(s[k..CommaFrom(s, k)])[','] == 0
  {
    var h := s[k..CommaFrom(s, k)];
    BeforeComma(s, k);
    forall j | 0 <= j < |h| ensures h[j] != ',' {
      assert h[j] == s[k + j];
    }
  }

  lemma {:induction false} PiecesFromCount(s: string, k: nat)
    requires k <= |s|
    ensures |PiecesFrom(s, k)| == multiset(s[k..])[','] + 1
    decreases |s| - k
  {
    var e := CommaFrom(s, k);
    PiecesFromStep(s, k);
    HeadNoComma(s, k);
    if e == |s| {
      assert s[k..e] == s[k..];
    } else {
      PiecesFromCount(s, e + 1);
      CommasAround(s, k, e);
    }
  }

  /** A comma at `e` adds one to the commas on either side of it. */
  lemma CommasAround(s: string, k: nat, e: nat)
    requires k <= e < |s| && s[e] == ','
    ensures multiset(s[k..])[','] == multiset(s[k..e])[','] + 1 + multiset(s[e + 1..])[',']
  {
    assert s[k..] == s[k..e] + [','] + s[e + 1..];
    assert multiset(s[k..]) == multiset(s[k..e]) + multiset([',']) + multiset(s[e + 1..]);
  }

  lemma {:induction false} PiecesFromNoComma(s: string, k: nat)
    requires k <= |s|
    ensures forall m :: 0 <= m < |PiecesFrom(s, k)| ==> ',' !in PiecesFrom(s, k)[m]
    decreases |s| - k
  {
    var e := CommaFrom(s, k);
    PiecesFromStep(s, k);
    HeadNoComma(s, k);
    if e < |s| {
      var tail := PiecesFrom(s, e + 1);
      PiecesFromNoComma(s, e + 1);
      var ps := PiecesFrom(s, k);
      forall m | 0 <= m < |ps| ensures ',' !in ps[m] {
        if m > 0 {
          assert ps[m] == tail[m - 1];
        }
      }
    }
  }

  /** There is one piece more than there are commas, and no piece holds a comma. */
  lemma PiecesCommas(s: string)
    ensures |Pieces(s)| == multiset(s)[','] + 1
    ensures forall m :: 0 <= m < |Pieces(s)| ==> ',' !in Pieces(s)[m]
  {
    PiecesFromCount(s, 0);
    PiecesFromNoComma(s, 0);
    assert s[0..] == s;
  }

  predicate Wrapped(s: string) {
    |s| >= 2 && ((s[0] == '(' && s[|s| - 1] == ')') || (s[0] == '[' && s[|s| - 1] == ']'))
  }

  function MapClean(ps: seq<string>): (r: seq<string>)
    ensures |r| == |ps| && forall k :: 0 <= k < |ps| ==> r[k] == Clean(ps[k])
  {
    if ps == [] then [] else MapClean(ps[..|ps| - 1]) + [Clean(ps[|ps| - 1])]
  }

  /** The pieces that become items: all of them, except an empty last one. */
  function ItemPieces(v: string): (ps: seq<string>) {
    var ps := Pieces(v);
    if ps[|ps| - 1] == "" then ps[..|ps| - 1] else ps
  }

  /** What `stringToList` returns for `s`. */
  function ListOf(s: string): seq<string> {
    if Wrapped(s) then MapClean(ItemPieces(s[1..|s| - 1])) else []
  }

  /** The item pieces are the pieces, less an empty last one. */
  lemma ItemPiecesShape(v: string)
    ensures var ps := Pieces(v);
      && |ItemPieces(v)| == multiset(v)[','] + (if ps[|ps| - 1] == "" then 0 else 1)
      && ItemPieces(v) == ps[..|ItemPieces(v)|]
  {
    PiecesCommas(v);
  }

  /**
   * Text that is not wrapped in "()" or "[]" gives no items; wrapped text
   * gives one cleaned item per comma and one more when the text after the
   * last comma is not empty.
   */
  lemma ListOfShape(s: string)
    ensures !Wrapped(s) ==> ListOf(s) == []
    ensures Wrapped(s) ==>
      var v := s[1..|s| - 1];
      var ps := Pieces(v);
      && |ListOf(s)| == multiset(v)[','] + (if ps[|ps| - 1] == "" then 0 else 1)
      && forall k :: 0 <= k < |ListOf(s)| ==> ListOf(s)[k] == Clean(ps[k])
  {
    if Wrapped(s) {
      var v := s[1..|s| - 1];
      ItemPiecesShape(v);
      var ip := ItemPieces(v);
      assert ListOf(s) == MapClean(ip);
      forall k | 0 <= k < |ListOf(s)| ensures ListOf(s)[k] == Clean(Pieces(v)[k]) {
        assert ip[k] == Pieces(v)[k];
      }
    }
  }

  /** `stringToList`: split the bracketed text at each comma and clean every item. */
  method StringToList(str: string) returns (result: seq<string>)
    ensures result == ListOf(str)
  {
    result := [];
    if |str| == 0 {
      return;
    }
    if !((str[0] == '(' && str[|str| - 1] == ')') || (str[0] == '[' && str[|str| - 1] == ']')) {
      return;
    }
    var values := str[1..|str| - 1];
    ghost var done: seq<string> := [];
    var start := 0;
    var end := CommaFrom(values, 0);
    while end < |values|
      invariant start <= end <= |values| && end == CommaFrom(values, start)
      invariant Parsed(values, done, start, result)
      decreases |values| - start
    {
      var item := values[start..end];
      ghost var done0, start0, result0 := done, start, result;
      result := result + [Clean(item)];
      done := done + [item];
      start := end + 1;
      ParseStep(values, done0, start0, end, item, result0, done, start, result);
      end := CommaFrom(values, start);
    }
    ParseEnd(str, values, done, start, result);
    if start < |values| {
      result := result + [Clean(values[start..])];
    }
  }

  /** The loop so far: `done` are the pieces before `start`, and `result` holds them cleaned. */
  ghost predicate Parsed(v: string, done: seq<string>, start: nat, result: seq<string>) {
    SplitSoFar(v, done, start) && result == MapClean(done)
  }

  /** The pieces of `v` are `done` followed by the pieces from `start` on. */
  ghost predicate SplitSoFar(v: string, done: seq<string>, start: nat) {
    start <= |v| && Pieces(v) == done + PiecesFrom(v, start)
  }

  lemma ParseStep(v: string, done: seq<string>, start: nat, end: nat, item: string, result: seq<string>,
                  done': seq<string>, start': nat, result': seq<string>)
    requires start <= end < |v| && end == CommaFrom(v, start) && item == v[start..end]
    requires Parsed(v, done, start, result)
    requires done' == done + [item] && start' == end + 1 && result' == result + [Clean(item)]
    ensures Parsed(v, done', start', result')
  {
    PiecesAdvance(v, done, start, end, item);
    MapCleanAppend(done, item);
  }

  /** After the last comma: the rest of the text is the last piece, kept unless it is empty. */
  lemma ParseEnd(str: string, v: string, done: seq<string>, start: nat, result: seq<string>)
    requires Wrapped(str) && v == str[1..|str| - 1]
    requires start <= |v| && CommaFrom(v, start) == |v| && Parsed(v, done, start, result)
    ensures start < |v| ==> ListOf(str) == result + [Clean(v[start..])]
    ensures start == |v| ==> ListOf(str) == result
  {
    PiecesFinish(v, done, start);
    if start < |v| {
      MapCleanAppend(done, v[start..]);
    }
  }

  lemma PiecesAdvance(v: string, done: seq<string>, start: nat, end: nat, item: string)
    requires start <= end < |v| && end == CommaFrom(v, start) && item == v[start..end]
    requires SplitSoFar(v, done, start)
    ensures SplitSoFar(v, done + [item], end + 1)
  {
    assert PiecesFrom(v, start) == [item] + PiecesFrom(v, end + 1);
    Regroup(Pieces(v), done, PiecesFrom(v, start), item, PiecesFrom(v, end + 1));
  }

  lemma Regroup<T>(all: seq<T>, done: seq<T>, rest: seq<T>, item: T, tail: seq<T>)
    requires all == done + rest && rest == [item] + tail
    ensures all == (done + [item]) + tail
  {
    assert done + ([item] + tail) == (done + [item]) + tail;
  }

  lemma PiecesFinish(v: string, done: seq<string>, start: nat)
    requires start <= |v| && CommaFrom(v, start) == |v|
    requires SplitSoFar(v, done, start)
    ensures ItemPieces(v) == if start < |v| then done + [v[start..]] else done
  {
    assert PiecesFrom(v, start) == [v[start..]];
    var ps := Pieces(v);
    assert ps[|ps| - 1] == v[start..];
    if start == |v| {
      assert ps[..|ps| - 1] == done;
    }
  }

  lemma MapCleanAppend(ps: seq<string>, p: string)
    ensures MapClean(ps + [p]) == MapClean(ps) + [Clean(p)]
  {
    assert (ps + [p])[..|ps|] == ps;
  }

  // ---------------------------------------------------------------------
  // Reading list files

  /** Index just after the first newline of `s`, or `|s|` when there is none. */
  function LineEnd(s: string): (i: nat)
    ensures 0 < i <= |s| || (s == [] && i == 0)
    ensures i < |s| <==> i > 0 && s[i - 1] == '\n' && i < |s|
    ensures forall j :: 0 <= j < i - 1 ==> s[j] != '\n'
    ensures i > 0 && s[i - 1] != '\n' ==> i == |s|
  {
    if s == [] then 0
    else if s[0] == '\n' then 1
    else 1 + LineEnd(s[1..])
  }

  /** The chunks successive `fgets` calls return: each line with its newline. */
  function Chunks(text: string): (cs: seq<string>)
    decreases |text|
  {
    if text == [] then []
    else
      var i := LineEnd(text);
      [text[..i]] + Chunks(text[i..])
  }

  function Concat(cs: seq<string>): string {
    if cs == [] then "" else cs[0] + Concat(cs[1..])
  }

  /** Reading covers the file: the chunks concatenate to the text. */
  lemma {:induction false} ChunksConcat(text: string)
    ensures Concat(Chunks(text)) == text
    decreases |text|
  {
    if text != [] {
      var i := LineEnd(text);
      ChunksConcat(text[i..]);
      assert text == text[..i] + text[i..];
    }
  }

  /**
   * No chunk is empty, only the last character of a chunk can be a
   * newline, and every chunk before the last ends with one.
   */
  lemma {:induction false} ChunksShape(text: string, k: nat)
    requires k < |Chunks(text)|
    ensures var c := Chunks(text)[k];
      && c != []
      && (forall j :: 0 <= j < |c| - 1 ==> c[j] != '\n')
      && (k < |Chunks(text)| - 1 ==> c[|c| - 1] == '\n')
    decreases |text|
  {
    var i := LineEnd(text);
    if k > 0 {
      ChunksShape(text[i..], k - 1);
    } else if |Chunks(text)| > 1 {
      assert text[i..] != [];
    }
  }

  /** A chunk without its trailing newline, as the readers store it. */
  function StripNewline(c: string): (r: string)
    ensures c != [] && c[|c| - 1] == '\n' ==> r == c[..|c| - 1]
    ensures !(c != [] && c[|c| - 1] == '\n') ==> r == c
  {
    if c != [] && c[|c| - 1] == '\n' then c[..|c| - 1] else c
  }

  /** What `getEntryFromListFile` returns: line `index` without its newline, or "". */
  function EntryAt(file: Option<string>, index: nat): string {
    if file.None? then ""
    else
      var cs := Chunks(file.value);
      if index < |cs| then StripNewline(cs[index]) else ""
  }

  /** An entry read from a file never holds a newline. */
  lemma EntryHasNoNewline(file: Option<string>, index: nat)
    ensures '\n' !in EntryAt(file, index)
  {
    if file.Some? && index < |Chunks(file.value)| {
      var c := Chunks(file.value)[index];
      ChunksShape(file.value, index);
      var r := StripNewline(c);
      forall j | 0 <= j < |r| ensures r[j] != '\n' {
        assert r[j] == c[j];
      }
    }
  }

  /** `getEntryFromListFile`: read chunk by chunk up to `index`. */
  method GetEntryFromListFile(file: Option<string>, index: nat) returns (line: string)
    ensures line == EntryAt(file, index)
  {
    if file.None? {
      return "";
    }
    var rest := file.value;
    ghost var cs := Chunks(file.value);
    var i := 0;
    while true
      invariant i <= index && i <= |cs|
      invariant Chunks(rest) == cs[i..]
      decreases index - i
    {
      if rest == [] {
        return "";
      }
      var e := LineEnd(rest);
      var chunk := rest[..e];
      assert cs[i] == chunk;
      if i == index {
        line := StripNewline(chunk);
        return;
      }
      rest := rest[e..];
      i := i + 1;
    }
  }

  /** The lines of a file as `readSetFromFile` collects them; empty when it cannot be opened. */
  function LineSet(file: Option<string>): set<string> {
    if file.None? then {}
    else set c | c in Chunks(file.value) :: StripNewline(c)
  }

  /** `compareFilesLists`: the lines the two files have in common. */
  method CompareFilesLists(file1: Option<string>, file2: Option<string>) returns (duplicates: set<string>)
    ensures duplicates == LineSet(file1) * LineSet(file2)
  {
    var set1 := LineSet(file1);
    var set2 := LineSet(file2);
    duplicates := Intersect(set1, set2);
  }

  /** Keep every entry of `set1` that `set2` also holds, one entry at a time. */
  method Intersect(set1: set<string>, set2: set<string>) returns (duplicates: set<string>)
    ensures duplicates == set1 * set2
  {
    duplicates := {};
    var todo := set1;
    while todo != {}
      invariant todo <= set1
      invariant duplicates == (set1 - todo) * set2
      decreases |todo|
    {
      var entry :| entry in todo;
      IntersectStep(set1, todo, set2, entry);
      if entry in set2 {
        duplicates := duplicates + {entry};
      }
      todo := todo - {entry};
    }
  }

  lemma IntersectStep(s1: set<string>, todo: set<string>, s2: set<string>, e: string)
    requires e in todo && todo <= s1
    ensures (s1 - (todo - {e})) * s2 == (s1 - todo) * s2 + (if e in s2 then {e} else {})
  {
  }

  /** The file behind a path: `None` when no file is there. */
  function Open(files: map<string, string>, path: string): Option<string> {
    if path in files then Some(files[path]) else None
  }

  /** The lines of every listed file except those at `skip`. */
  function WildcardLines(paths: seq<string>, files: map<string, string>, skip: string): set<string> {
    if paths == [] then {}
    else
      var init := WildcardLines(paths[..|paths| - 1], files, skip);
      var p := paths[|paths| - 1];
      if p == skip then init else init + LineSet(Open(files, p))
  }

  lemma {:induction false} WildcardLinesMembers(paths: seq<string>, files: map<string, string>, skip: string, x: string)
    ensures x in WildcardLines(paths, files, skip) <==>
      exists k :: 0 <= k < |paths| && paths[k] != skip && x in LineSet(Open(files, paths[k]))
  {
    if paths != [] {
      var init := paths[..|paths| - 1];
      WildcardLinesMembers(init, files, skip, x);
      if x in WildcardLines(paths, files, skip) && x !in WildcardLines(init, files, skip) {
        assert paths[|paths| - 1] != skip && x in LineSet(Open(files, paths[|paths| - 1]));
      }
      if exists k :: 0 <= k < |paths| && paths[k] != skip && x in LineSet(Open(files, paths[k])) {
        var k :| 0 <= k < |paths| && paths[k] != skip && x in LineSet(Open(files, paths[k]));
        if k < |init| {
          assert init[k] == paths[k];
        }
      }
    }
  }

  /**
   * `compareWildcardFilesLists`: gather the lines of every wildcard match
   * other than `txtPath`, then collect the lines of `txtPath` among them.
   * The matches are given, since expanding the wildcard lists a directory.
   */
  method CompareWildcardFilesLists(matches: seq<string>, files: map<string, string>, txtPath: string)
    returns (duplicates: set<string>)
    ensures duplicates == LineSet(Open(files, txtPath)) * WildcardLines(matches, files, txtPath)
  {
    var all: set<string> := {};
    for k := 0 to |matches|
      invariant all == WildcardLines(matches[..k], files, txtPath)
    {
      assert matches[..k + 1][..k] == matches[..k];
      if matches[k] == txtPath {
        continue;
      }
      all := all + LineSet(Open(files, matches[k]));
    }
    assert matches[..|matches|] == matches;
    duplicates := {};
    var file := Open(files, txtPath);
    if file.None? {
      return;
    }
    var cs := Chunks(file.value);
    for k := 0 to |cs|
      invariant duplicates == (set c | c in cs[..k] :: StripNewline(c)) * all
    {
      var entry := StripNewline(cs[k]);
      assert cs[..k + 1] == cs[..k] + [cs[k]];
      if entry in all {
        duplicates := duplicates + {entry};
      }
    }
    assert cs[..|cs|] == cs;
  }
}
