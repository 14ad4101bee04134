/**
 * `copySingleFile`: open both files (retrying), copy the source chunk by
 * chunk, publish the progress, and log the pair once the copy is complete.
 */
module CopyFile {
  import opened Wrappers
  import opened Paths
  import opened FileSystem
  import opened DirFuncs

  /** The size of one `fread`. */
  const COPY_BUFFER_SIZE: nat := 4096 * 4
  /** How many failed opening rounds are retried; the round after the last retry gives up. */
  const MAX_RETRIES: nat := 10

  // ---------------------------------------------------------------------
  // Opening.

  /** `fopen(k, "rb")` on attempt number `a`. */
  predicate SrcOpens(t: Tree, unreadable: set<Key>, flakyOpens: map<Key, nat>, k: Key, a: nat) {
    && k in t && t[k].File? && k !in unreadable
    && (k in flakyOpens ==> a >= flakyOpens[k])
  }

  /** `fopen(k, "wb")`: there is a regular file to truncate, or one can be created. */
  predicate WriteOpens(t: Tree, locked: set<Key>, k: Key) {
    if k in t then t[k].File? && k !in locked else k != [] && ParentIsDir(t, k)
  }

  /** The tree after `fopen(k, "wb")`. */
  function Truncated(t: Tree, locked: set<Key>, k: Key): Tree {
    if WriteOpens(t, locked, k) then t[k := File([])] else t
  }

  /**
   * The opening rounds from round `a` on: each opens the source, then the
   * destination (creating or truncating it), and closes both unless both
   * opened. Gives the tree afterwards and the round that opened both.
   */
  function Opening(t: Tree, locked: set<Key>, unreadable: set<Key>, flakyOpens: map<Key, nat>,
                   from: Key, to: Key, a: nat): (Tree, Option<nat>)
    requires a <= MAX_RETRIES
    decreases MAX_RETRIES - a
  {
    var srcOk := SrcOpens(t, unreadable, flakyOpens, from, a);
    var dstOk := WriteOpens(t, locked, to);
    var t' := Truncated(t, locked, to);
    if srcOk && dstOk then (t', Some(a))
    else if a + 1 > MAX_RETRIES then (t', None)
    else Opening(t', locked, unreadable, flakyOpens, from, to, a + 1)
  }

  /**
   * The opening rounds change at most the destination, which they leave
   * an empty regular file; when they succeed, the source is a regular file
   * and the round is at most MAX_RETRIES.
   */
  lemma {:induction false} OpeningShape(t: Tree, locked: set<Key>, unreadable: set<Key>, flakyOpens: map<Key, nat>,
                                        from: Key, to: Key, a: nat)
    requires a <= MAX_RETRIES
    ensures var o := Opening(t, locked, unreadable, flakyOpens, from, to, a);
      var t' := o.0;
      var r := o.1;
      && (t' == t || (to !in t && t' == t[to := File([])]) || (to in t && t[to].File? && t' == t[to := File([])]))
      && (r.Some? ==> a <= r.value <= MAX_RETRIES && IsFileIn(t', from) && to in t' && t'[to] == File([]))
    decreases MAX_RETRIES - a
  {
    var t' := Truncated(t, locked, to);
    if !(SrcOpens(t, unreadable, flakyOpens, from, a) && WriteOpens(t, locked, to)) && a + 1 <= MAX_RETRIES {
      OpeningShape(t', locked, unreadable, flakyOpens, from, to, a + 1);
    }
  }

  /**
   * The rounds succeed whenever the source is a readable regular file that
   * opens within the retries and the destination can be written: at the
   * round the source first opens on.
   */
  lemma {:induction false} OpeningSucceeds(t: Tree, locked: set<Key>, unreadable: set<Key>, flakyOpens: map<Key, nat>,
                                           from: Key, to: Key, a: nat)
    requires a <= MAX_RETRIES && IsFileIn(t, from) && from !in unreadable
    requires from in flakyOpens ==> flakyOpens[from] <= MAX_RETRIES
    requires WriteOpens(t, locked, to) && to !in locked
    ensures var r := Opening(t, locked, unreadable, flakyOpens, from, to, a).1;
      r == Some(if from in flakyOpens && flakyOpens[from] > a then flakyOpens[from] else a)
    decreases MAX_RETRIES - a
  {
    if !SrcOpens(t, unreadable, flakyOpens, from, a) {
      var t' := Truncated(t, locked, to);
      assert IsFileIn(t', from) && WriteOpens(t', locked, to);
      OpeningSucceeds(t', locked, unreadable, flakyOpens, from, to, a + 1);
    }
  }

  /**
   * The converse: the rounds give up when the source cannot be read, when
   * it opens only after the last retry, or when the destination cannot be
   * written, since a failed truncation leaves the tree as it was.
   */
  lemma {:induction false} OpeningFails(t: Tree, locked: set<Key>, unreadable: set<Key>, flakyOpens: map<Key, nat>,
                                        from: Key, to: Key, a: nat)
    requires a <= MAX_RETRIES
    requires || from in unreadable
             || (from in flakyOpens && flakyOpens[from] > MAX_RETRIES)
             || !WriteOpens(t, locked, to)
    ensures Opening(t, locked, unreadable, flakyOpens, from, to, a).1 == None
    decreases MAX_RETRIES - a
  {
    if a + 1 <= MAX_RETRIES {
      var t' := Truncated(t, locked, to);
      assert !WriteOpens(t, locked, to) ==> t' == t;
      OpeningFails(t', locked, unreadable, flakyOpens, from, to, a + 1);
    }
  }

  // ---------------------------------------------------------------------
  // Copying the bytes.

  /** How the chunk loop ended, with the bytes of the chunks it wrote. */
  datatype Pumped = Finished(bytes: nat) | Aborted(bytes: nat) | WriteFailed(bytes: nat)

  /**
   * The chunk loop from the call numbered `n`, with `rest` still unread:
   * an empty or failed read ends it; otherwise an abort request, or a
   * write the device fails, stops the copy before the chunk is written.
   */
  function Pump(rest: seq<bv8>, n: nat, readErr: Option<nat>, writeErr: Option<nat>, abort: bool): (p: Pumped)
    decreases |rest|
  {
    if readErr == Some(n) || rest == [] then Finished(0)
    else if abort then Aborted(0)
    else if writeErr == Some(n) then WriteFailed(0)
    else
      var c := if |rest| < COPY_BUFFER_SIZE then |rest| else COPY_BUFFER_SIZE;
      match Pump(rest[c..], n + 1, readErr, writeErr, abort)
      case Finished(b) => Finished(c + b)
      case Aborted(b) => Aborted(c + b)
      case WriteFailed(b) => WriteFailed(c + b)
  }

  /** The loop never claims more bytes than there are. */
  lemma {:induction false} PumpBounded(rest: seq<bv8>, n: nat, readErr: Option<nat>, writeErr: Option<nat>, abort: bool)
    ensures Pump(rest, n, readErr, writeErr, abort).bytes <= |rest|
    decreases |rest|
  {
    if !(readErr == Some(n) || rest == [] || abort || writeErr == Some(n)) {
      var c := if |rest| < COPY_BUFFER_SIZE then |rest| else COPY_BUFFER_SIZE;
      PumpBounded(rest[c..], n + 1, readErr, writeErr, abort);
    }
  }

  /** Without an abort request or a write error the loop finishes, whether or not a read fails. */
  lemma {:induction false} PumpFinishes(rest: seq<bv8>, n: nat, readErr: Option<nat>)
    ensures Pump(rest, n, readErr, None, false).Finished?
    decreases |rest|
  {
    if readErr != Some(n) && rest != [] {
      var c := if |rest| < COPY_BUFFER_SIZE then |rest| else COPY_BUFFER_SIZE;
      PumpFinishes(rest[c..], n + 1, readErr);
    }
  }

  /** Without an abort request or a device error the whole file is copied. */
  lemma {:induction false} PumpAll(rest: seq<bv8>, n: nat)
    ensures Pump(rest, n, None, None, false) == Finished(|rest|)
    decreases |rest|
  {
    if rest != [] {
      var c := if |rest| < COPY_BUFFER_SIZE then |rest| else COPY_BUFFER_SIZE;
      PumpAll(rest[c..], n + 1);
    }
  }

  /** An abort request seen before a non-empty, readable first chunk stops the copy before any write. */
  lemma AbortWritesNothing(rest: seq<bv8>, n: nat, readErr: Option<nat>, writeErr: Option<nat>)
    requires rest != [] && readErr != Some(n)
    ensures Pump(rest, n, readErr, writeErr, true) == Aborted(0)
  {
  }

  /**
   * A read error on call `n + r` ends the loop as if the file ended there:
   * exactly the first `r` chunks are copied, and the result is reported as
   * a finished copy.
   */
  lemma {:induction false} PumpReadError(rest: seq<bv8>, n: nat, r: nat)
    ensures var want := if r * COPY_BUFFER_SIZE < |rest| then r * COPY_BUFFER_SIZE else |rest|;
      Pump(rest, n, Some(n + r), None, false) == Finished(want)
    decreases r
  {
    if r > 0 && rest != [] {
      var c := if |rest| < COPY_BUFFER_SIZE then |rest| else COPY_BUFFER_SIZE;
      PumpReadError(rest[c..], n + 1, r - 1);
      assert r * COPY_BUFFER_SIZE == COPY_BUFFER_SIZE + (r - 1) * COPY_BUFFER_SIZE;
    }
  }

  /** The copy as a whole: the tree afterwards, and how it ended. */
  datatype Outcome = NotOpened | Copied(p: Pumped)

  /** The key of the directory `copySingleFile` first creates for the destination. */
  function ParentChain(toFile: string): seq<string> {
    Comps(StripRoot(GetParentDirFromPath(toFile)))
  }

  /** What `copySingleFile` does to the tree, and how it ends. */
  function SingleCopy(t0: Tree, locked: set<Key>, unreadable: set<Key>, flakyOpens: map<Key, nat>,
                      readErrorAt: map<Key, nat>, writeErrorAt: map<Key, nat>, abort: bool,
                      fromFile: string, toFile: string): (Tree, Outcome)
  {
    var from := Comps(fromFile);
    var to := Comps(toFile);
    var t1 := MkdirChain(t0, Comps(ROOT_PATH), ParentChain(toFile));
    var opening := Opening(t1, locked, unreadable, flakyOpens, from, to, 0);
    AfterOpening(opening.0, opening.1, locked, readErrorAt, writeErrorAt, abort, from, to)
  }

  /**
   * The copy once the opening rounds are over: nothing more when they
   * failed; otherwise the chunk loop, whose partial result is removed unless
   * it finished.
   */
  function AfterOpening(t2: Tree, round: Option<nat>, locked: set<Key>, readErrorAt: map<Key, nat>,
                        writeErrorAt: map<Key, nat>, abort: bool, from: Key, to: Key): (Tree, Outcome)
  {
    if round.None? || !IsFileIn(t2, from) then (t2, NotOpened)
    else
      var data := t2[from].data;
      var readErr := if from in readErrorAt then Some(readErrorAt[from]) else None;
      var writeErr := if to in writeErrorAt then Some(writeErrorAt[to]) else None;
      var p := Pump(data, 0, readErr, writeErr, abort);
      if p.Finished? && p.bytes <= |data| then (t2[to := File(data[..p.bytes])], Copied(p))
      else (RemoveEffect(t2[to := File(data[..if p.bytes <= |data| then p.bytes else |data|])], locked, to), Copied(p))
  }

  /** The progress `copySingleFile` publishes last, given what it published before. */
  function Progress(before: int, o: Outcome, totalBytesCopied: nat, totalSize: int): int {
    match o
    case NotOpened => before
    case Copied(p) =>
      if !p.Finished? then -1
      else if p.bytes > 0 && totalSize > 0 then Percent(totalBytesCopied + p.bytes, totalSize)
      else before
  }

  // ---------------------------------------------------------------------
  // The operation.

  /** The opening loop: round after round until both files open or the retries run out. */
  method OpenBoth(fs: Volume, fromFile: string, toFile: string) returns (ok: bool, ghost round: Option<nat>)
    requires fs.Valid()
    modifies fs
    ensures fs.Valid()
    ensures (fs.nodes, round) == Opening(old(fs.nodes), fs.locked, fs.unreadable, fs.flakyOpens,
                                         Comps(fromFile), Comps(toFile), 0)
    ensures ok == round.Some?
  {
    var retryCount := 0;
    ghost var t0 := fs.nodes;
    while true
      invariant fs.Valid() && retryCount <= MAX_RETRIES
      invariant Opening(t0, fs.locked, fs.unreadable, fs.flakyOpens, Comps(fromFile), Comps(toFile), 0)
             == Opening(fs.nodes, fs.locked, fs.unreadable, fs.flakyOpens, Comps(fromFile), Comps(toFile), retryCount)
      decreases MAX_RETRIES - retryCount
    {
      ghost var t := fs.nodes;
      var srcOk := fs.CanOpenForRead(fromFile, retryCount);
      var dstOk := fs.OpenForWrite(toFile);
      assert fs.nodes == Truncated(t, fs.locked, Comps(toFile));
      if !srcOk || !dstOk {
        retryCount := retryCount + 1;
        if retryCount > MAX_RETRIES {
          return false, None;
        }
        continue;
      }
      return true, Some(retryCount);
    }
  }

  /** The percentage published after `copied` of `totalSize` bytes. */
  function Percent(copied: nat, totalSize: int): int
    requires totalSize > 0
  {
    100 * copied / totalSize
  }

  /**
   * The write loop for one chunk: `fwrite` until every byte is written; a
   * call that writes nothing is a failure.
   */
  method WriteChunk(fs: Volume, toFile: string, bytes: seq<bv8>, call: nat) returns (ok: bool)
    requires fs.Valid() && IsFileIn(fs.nodes, Comps(toFile))
    modifies fs
    ensures fs.Valid()
    ensures var to := Comps(toFile);
      ok == (bytes == [] || !(to in fs.writeErrorAt && fs.writeErrorAt[to] == call))
    ensures ok ==> fs.nodes == old(fs.nodes)[Comps(toFile) := File(old(fs.nodes)[Comps(toFile)].data + bytes)]
    ensures !ok ==> fs.nodes == old(fs.nodes)
  {
    var to := Comps(toFile);
    ghost var before := fs.nodes[to].data;
    var bytesWritten := 0;
    while bytesWritten < |bytes|
      invariant fs.Valid() && bytesWritten <= |bytes|
      invariant bytesWritten == 0 || bytesWritten == |bytes|
      invariant bytesWritten == 0 ==> fs.nodes == old(fs.nodes)
      invariant bytesWritten > 0 ==> !(to in fs.writeErrorAt && fs.writeErrorAt[to] == call)
      invariant bytesWritten > 0 ==> fs.nodes == old(fs.nodes)[to := File(before + bytes)]
      decreases |bytes| - bytesWritten
    {
      var written := fs.Fwrite(toFile, bytes[bytesWritten..], call);
      if written == 0 {
        return false;
      }
      bytesWritten := bytesWritten + written;
    }
    ok := true;
    if bytes == [] {
      assert before + bytes == before;
    }
  }

  /** What the chunk loop knows before the call numbered `call`, with `offset` bytes copied. */
  ghost predicate PumpInv(t0: Tree, t: Tree, from: Key, to: Key, data: seq<bv8>, offset: nat, call: nat,
                          readErr: Option<nat>, writeErr: Option<nat>, abort: bool) {
    && offset <= |data|
    && t == t0[to := File(data[..offset])]
    && Pump(data, 0, readErr, writeErr, abort) == Plus(offset, Pump(data[offset..], call, readErr, writeErr, abort))
  }

  /** How the chunk loop left the destination once it stopped with `p`. */
  ghost predicate PumpPost(t0: Tree, t: Tree, locked: set<Key>, to: Key, data: seq<bv8>, p: Pumped) {
    && p.bytes <= |data|
    && (p.Finished? ==> t == t0[to := File(data[..p.bytes])])
    && (!p.Finished? ==> t == RemoveEffect(t0[to := File(data[..p.bytes])], locked, to))
  }

  /** The chunk loop is still running before call `call`, with `offset` bytes copied and published. */
  ghost predicate Running(t0: Tree, t: Tree, from: Key, to: Key, data: seq<bv8>, offset: nat, call: nat,
                          readErr: Option<nat>, writeErr: Option<nat>, abort: bool,
                          bytesCopied: nat, total0: nat, pct: int, pct0: int, totalSize: int) {
    && IsFileIn(t, from)
    && PumpInv(t0, t, from, to, data, offset, call, readErr, writeErr, abort)
    && (from == to ==> data == [])
    && (from != to ==> t[from].data == data)
    && bytesCopied == total0 + offset
    && pct == if offset > 0 && totalSize > 0 then Percent(bytesCopied, totalSize) else pct0
  }

  /** The chunk loop has stopped with `p`. */
  ghost predicate Stopped(t0: Tree, t: Tree, locked: set<Key>, to: Key, data: seq<bv8>, p: Pumped,
                          readErr: Option<nat>, writeErr: Option<nat>, abort: bool,
                          bytesCopied: nat, total0: nat, pct: int, pct0: int, totalSize: int) {
    && p == Pump(data, 0, readErr, writeErr, abort)
    && PumpPost(t0, t, locked, to, data, p)
    && bytesCopied == total0 + p.bytes
    && pct == Progress(pct0, Copied(p), total0, totalSize)
  }

  /** How one pass of the chunk loop leaves it: stopped with `p`, or running further on. */
  ghost predicate ChunkPost(t0: Tree, t: Tree, locked: set<Key>, from: Key, to: Key, data: seq<bv8>,
                            readErr: Option<nat>, writeErr: Option<nat>, abort: bool,
                            total0: nat, pct0: int, totalSize: int,
                            offset: nat, stop: bool, p: Pumped, offset': nat, call': nat, bytesCopied': nat, pct': int) {
    if stop then
      && offset' == offset
      && Stopped(t0, t, locked, to, data, p, readErr, writeErr, abort, bytesCopied', total0, pct', pct0, totalSize)
    else
      && offset < offset' <= |data|
      && Running(t0, t, from, to, data, offset', call', readErr, writeErr, abort, bytesCopied', total0, pct', pct0, totalSize)
  }

  /**
   * The chunk loop: read up to COPY_BUFFER_SIZE bytes, stop on an empty or
   * failed read; stop on an abort request or a failed write after removing
   * the destination and publishing -1; otherwise count the bytes and
   * publish the progress.
   */
  method PumpFile(fs: Volume, status: Status, fromFile: string, toFile: string,
                  totalBytesCopied: nat, totalSize: int) returns (p: Pumped, bytesCopied: nat)
    requires fs.Valid() && IsFileIn(fs.nodes, Comps(fromFile)) && IsFileIn(fs.nodes, Comps(toFile))
    requires fs.nodes[Comps(toFile)].data == []
    modifies fs, status
    ensures fs.Valid() && status.abortFileOp == old(status.abortFileOp)
    ensures var from := Comps(fromFile);
      var to := Comps(toFile);
      var readErr := if from in fs.readErrorAt then Some(fs.readErrorAt[from]) else None;
      var writeErr := if to in fs.writeErrorAt then Some(fs.writeErrorAt[to]) else None;
      Stopped(old(fs.nodes), fs.nodes, fs.locked, to, old(fs.nodes)[from].data, p, readErr, writeErr,
              status.abortFileOp, bytesCopied, totalBytesCopied, status.copyPercentage,
              old(status.copyPercentage), totalSize)
  {
    var from, to := Comps(fromFile), Comps(toFile);
    ghost var t0 := fs.nodes;
    ghost var data := t0[from].data;
    ghost var readErr := if from in fs.readErrorAt then Some(fs.readErrorAt[from]) else None;
    ghost var writeErr := if to in fs.writeErrorAt then Some(fs.writeErrorAt[to]) else None;
    ghost var pct0 := status.copyPercentage;
    var abort := status.abortFileOp;
    var call := 0;
    var offset := 0;
    bytesCopied := totalBytesCopied;
    if from == to {
      assert data == [];
    }
    assert data[0..] == data && data[..0] == [];
    assert t0[to := File(data[..0])] == t0;
    var stop := false;
    p := Finished(0);
    while !stop
      invariant fs.Valid() && status.abortFileOp == abort && offset <= |data|
      invariant !stop ==> Running(t0, fs.nodes, from, to, data, offset, call, readErr, writeErr, abort,
                                  bytesCopied, totalBytesCopied, status.copyPercentage, pct0, totalSize)
      invariant stop ==> Stopped(t0, fs.nodes, fs.locked, to, data, p, readErr, writeErr, abort,
                                 bytesCopied, totalBytesCopied, status.copyPercentage, pct0, totalSize)
      decreases |data| - offset, if stop then 0 else 1
    {
      stop, p, offset, call, bytesCopied :=
        PumpChunk(fs, status, fromFile, toFile, from, to, offset, call, bytesCopied, totalBytesCopied, totalSize,
                  t0, data, readErr, writeErr, pct0, abort);
    }
  }

  /** One pass of the chunk loop. */
  method PumpChunk(fs: Volume, status: Status, fromFile: string, toFile: string, ghost from: Key, ghost to: Key,
                   offset: nat, call: nat, bytesCopied: nat, ghost total0: nat, totalSize: int,
                   ghost t0: Tree, ghost data: seq<bv8>,
                   ghost readErr: Option<nat>, ghost writeErr: Option<nat>, ghost pct0: int, abort: bool)
      returns (stop: bool, p: Pumped, offset': nat, call': nat, bytesCopied': nat)
    requires from == Comps(fromFile) && to == Comps(toFile)
    requires fs.Valid() && abort == status.abortFileOp
    requires readErr == if from in fs.readErrorAt then Some(fs.readErrorAt[from]) else None
    requires writeErr == if to in fs.writeErrorAt then Some(fs.writeErrorAt[to]) else None
    requires Running(t0, fs.nodes, from, to, data, offset, call, readErr, writeErr, abort,
                     bytesCopied, total0, status.copyPercentage, pct0, totalSize)
    modifies fs, status
    ensures fs.Valid() && status.abortFileOp == abort
    ensures ChunkPost(t0, fs.nodes, fs.locked, from, to, data, readErr, writeErr, abort, total0, pct0, totalSize,
                      offset, stop, p, offset', call', bytesCopied', status.copyPercentage)
  {
    stop, p, offset', call', bytesCopied' := true, Finished(offset), offset, call, bytesCopied;
    var chunk := fs.Fread(fromFile, offset, COPY_BUFFER_SIZE, call);
    ChunkRead(t0, fs.nodes, from, to, data, offset, call, readErr, writeErr, abort,
              bytesCopied, total0, status.copyPercentage, pct0, totalSize, chunk);
    if chunk.None? || |chunk.value| == 0 {
      EndStops(t0, fs.nodes, fs.locked, from, to, data, offset, call, readErr, writeErr, abort,
               bytesCopied, total0, status.copyPercentage, pct0, totalSize);
      return;
    }
    var bytes := chunk.value;
    if abort {
      p := Aborted(offset);
      HaltStep(data, offset, call, readErr, writeErr, abort, p);
      Discard(fs, status, toFile, from, to, t0, data, offset, call, p, readErr, writeErr, abort, bytesCopied, total0, pct0, totalSize);
      return;
    }
    stop, p, offset', call', bytesCopied' :=
      WriteStep(fs, status, toFile, from, to, bytes, offset, call, bytesCopied, total0, totalSize,
                t0, data, readErr, writeErr, pct0, abort);
  }

  /** The chunk loop after a non-empty read with no abort request: write the chunk, or stop on a failed write. */
  method WriteStep(fs: Volume, status: Status, toFile: string, ghost from: Key, ghost to: Key, bytes: seq<bv8>,
                   offset: nat, call: nat, bytesCopied: nat, ghost total0: nat, totalSize: int,
                   ghost t0: Tree, ghost data: seq<bv8>,
                   ghost readErr: Option<nat>, ghost writeErr: Option<nat>, ghost pct0: int, ghost abort: bool)
      returns (stop: bool, p: Pumped, offset': nat, call': nat, bytesCopied': nat)
    requires to == Comps(toFile)
    requires fs.Valid() && abort == status.abortFileOp && !abort
    requires writeErr == if to in fs.writeErrorAt then Some(fs.writeErrorAt[to]) else None
    requires Running(t0, fs.nodes, from, to, data, offset, call, readErr, writeErr, abort,
                     bytesCopied, total0, status.copyPercentage, pct0, totalSize)
    requires bytes != [] && readErr != Some(call)
    requires bytes == if offset + COPY_BUFFER_SIZE <= |data| then data[offset..offset + COPY_BUFFER_SIZE] else data[offset..]
    modifies fs, status
    ensures fs.Valid() && status.abortFileOp == abort
    ensures ChunkPost(t0, fs.nodes, fs.locked, from, to, data, readErr, writeErr, abort, total0, pct0, totalSize,
                      offset, stop, p, offset', call', bytesCopied', status.copyPercentage)
  {
    ghost var before, pct := fs.nodes, status.copyPercentage;
    assert PumpInv(t0, before, from, to, data, offset, call, readErr, writeErr, abort);
    assert offset < |data| && IsFileIn(before, to);
    var ok := Advance(fs, status, toFile, bytes, call, bytesCopied, totalSize);
    if !ok {
      assert writeErr == Some(call) && fs.nodes == before;
      stop, p, offset', call', bytesCopied' := true, WriteFailed(offset), offset, call, bytesCopied;
      HaltStep(data, offset, call, readErr, writeErr, abort, p);
      Discard(fs, status, toFile, from, to, t0, data, offset, call, p, readErr, writeErr, abort, bytesCopied, total0, pct0, totalSize);
      return;
    }
    assert writeErr != Some(call);
    stop, p, offset', call', bytesCopied' := false, Finished(offset), offset + |bytes|, call + 1, bytesCopied + |bytes|;
    ChunkStep(t0, before, fs.locked, from, to, data, offset, call, readErr, writeErr, abort,
              bytesCopied, total0, pct, pct0, totalSize, bytes, fs.nodes, status.copyPercentage,
              offset', call', bytesCopied');
  }

  /**
   * Write one chunk and publish the new percentage. On a failed write the
   * tree and the percentage are as they were.
   */
  method Advance(fs: Volume, status: Status, toFile: string, bytes: seq<bv8>, call: nat,
                 bytesCopied: nat, totalSize: int) returns (ok: bool)
    requires fs.Valid() && IsFileIn(fs.nodes, Comps(toFile))
    modifies fs, status
    ensures fs.Valid() && status.abortFileOp == old(status.abortFileOp)
    ensures var to := Comps(toFile);
      ok == (bytes == [] || !(to in fs.writeErrorAt && fs.writeErrorAt[to] == call))
    ensures ok ==> fs.nodes == old(fs.nodes)[Comps(toFile) := File(old(fs.nodes)[Comps(toFile)].data + bytes)]
    ensures ok ==> status.copyPercentage
                   == if totalSize > 0 then Percent(bytesCopied + |bytes|, totalSize) else old(status.copyPercentage)
    ensures !ok ==> fs.nodes == old(fs.nodes)
  {
    ok := WriteChunk(fs, toFile, bytes, call);
    if ok && totalSize > 0 {
      status.copyPercentage := Percent(bytesCopied + |bytes|, totalSize);
    }
  }

  /** A stopped copy: remove the destination and publish -1. */
  method Discard(fs: Volume, status: Status, toFile: string, ghost from: Key, ghost to: Key, ghost t0: Tree,
                 ghost data: seq<bv8>, ghost offset: nat, ghost call: nat, ghost p: Pumped, ghost readErr: Option<nat>, ghost writeErr: Option<nat>,
                 ghost abort: bool, ghost bytesCopied: nat, ghost total0: nat, ghost pct0: int, ghost totalSize: int)
    requires to == Comps(toFile) && fs.Valid() && offset <= |data| && fs.nodes == t0[to := File(data[..offset])]
    requires !p.Finished? && p.bytes == offset && p == Pump(data, 0, readErr, writeErr, abort)
    requires bytesCopied == total0 + offset
    modifies fs, status
    ensures fs.Valid() && status.abortFileOp == old(status.abortFileOp)
    ensures ChunkPost(t0, fs.nodes, fs.locked, from, to, data, readErr, writeErr, abort, total0, pct0, totalSize,
                      offset, true, p, offset, call, bytesCopied, status.copyPercentage)
  {
    var _ := fs.Remove(toFile);
    status.copyPercentage := -1;
  }

  /** What `fread` returns while the loop runs. */
  lemma ChunkRead(t0: Tree, t: Tree, from: Key, to: Key, data: seq<bv8>, offset: nat, call: nat,
                  readErr: Option<nat>, writeErr: Option<nat>, abort: bool,
                  bytesCopied: nat, total0: nat, pct: int, pct0: int, totalSize: int, chunk: Option<seq<bv8>>)
    requires Running(t0, t, from, to, data, offset, call, readErr, writeErr, abort,
                     bytesCopied, total0, pct, pct0, totalSize)
    requires chunk == (if readErr == Some(call) then None
                       else if offset >= |t[from].data| then Some([])
                       else if offset + COPY_BUFFER_SIZE <= |t[from].data| then Some(t[from].data[offset..offset + COPY_BUFFER_SIZE])
                       else Some(t[from].data[offset..]))
    ensures chunk.None? <==> readErr == Some(call)
    ensures chunk.Some? && chunk.value == [] ==> data[offset..] == []
    ensures chunk.Some? && chunk.value != [] ==>
      chunk.value == if offset + COPY_BUFFER_SIZE <= |data| then data[offset..offset + COPY_BUFFER_SIZE] else data[offset..]
  {
  }

  /** The loop stops on an empty or failed read with what it has written so far. */
  lemma EndStops(t0: Tree, t: Tree, locked: set<Key>, from: Key, to: Key, data: seq<bv8>, offset: nat, call: nat,
                 readErr: Option<nat>, writeErr: Option<nat>, abort: bool,
                 bytesCopied: nat, total0: nat, pct: int, pct0: int, totalSize: int)
    requires Running(t0, t, from, to, data, offset, call, readErr, writeErr, abort,
                     bytesCopied, total0, pct, pct0, totalSize)
    requires data[offset..] == [] || readErr == Some(call)
    ensures ChunkPost(t0, t, locked, from, to, data, readErr, writeErr, abort, total0, pct0, totalSize,
                      offset, true, Finished(offset), offset, call, bytesCopied, pct)
  {
  }

  /** An abort request or a failed write stops the loop with what it had written. */
  lemma HaltStep(data: seq<bv8>, offset: nat, call: nat, readErr: Option<nat>, writeErr: Option<nat>, abort: bool, p: Pumped)
    requires offset < |data| && readErr != Some(call)
    requires Pump(data, 0, readErr, writeErr, abort) == Plus(offset, Pump(data[offset..], call, readErr, writeErr, abort))
    requires (p == Aborted(offset) && abort) || (p == WriteFailed(offset) && !abort && writeErr == Some(call))
    ensures Pump(data, 0, readErr, writeErr, abort) == p
  {
  }

  /** One chunk read and written: the loop runs on from the next call. */
  lemma ChunkStep(t0: Tree, t: Tree, locked: set<Key>, from: Key, to: Key, data: seq<bv8>, offset: nat, call: nat,
                  readErr: Option<nat>, writeErr: Option<nat>, abort: bool,
                  bytesCopied: nat, total0: nat, pct: int, pct0: int, totalSize: int, bytes: seq<bv8>,
                  t': Tree, pct': int, offset': nat, call': nat, bytesCopied': nat)
    requires Running(t0, t, from, to, data, offset, call, readErr, writeErr, abort,
                     bytesCopied, total0, pct, pct0, totalSize)
    requires bytes != [] && !abort && readErr != Some(call) && writeErr != Some(call)
    requires bytes == if offset + COPY_BUFFER_SIZE <= |data| then data[offset..offset + COPY_BUFFER_SIZE] else data[offset..]
    requires to in t && t' == t[to := File(t[to].data + bytes)]
    requires pct' == if totalSize > 0 then Percent(bytesCopied + |bytes|, totalSize) else pct
    requires offset' == offset + |bytes| && call' == call + 1 && bytesCopied' == bytesCopied + |bytes|
    ensures ChunkPost(t0, t', locked, from, to, data, readErr, writeErr, abort, total0, pct0, totalSize,
                      offset, false, Finished(offset), offset', call', bytesCopied', pct')
  {
    PumpAdvance(data, offset, call, readErr, writeErr, abort, bytes);
    TreeAdvance(t0, to, data, offset, bytes);
  }

  /** The loop's account of the bytes moves on by one chunk. */
  lemma PumpAdvance(data: seq<bv8>, offset: nat, call: nat, readErr: Option<nat>, writeErr: Option<nat>, abort: bool,
                    bytes: seq<bv8>)
    requires offset <= |data|
    requires Pump(data, 0, readErr, writeErr, abort) == Plus(offset, Pump(data[offset..], call, readErr, writeErr, abort))
    requires bytes != [] && !abort && readErr != Some(call) && writeErr != Some(call)
    requires bytes == if offset + COPY_BUFFER_SIZE <= |data| then data[offset..offset + COPY_BUFFER_SIZE] else data[offset..]
    ensures offset + |bytes| <= |data| && bytes == data[offset..offset + |bytes|]
    ensures Pump(data, 0, readErr, writeErr, abort)
         == Plus(offset + |bytes|, Pump(data[offset + |bytes|..], call + 1, readErr, writeErr, abort))
  {
    var rest := data[offset..];
    var c := |bytes|;
    assert c == if |rest| < COPY_BUFFER_SIZE then |rest| else COPY_BUFFER_SIZE;
    PumpStep(rest, call, readErr, writeErr, abort, c);
    assert rest[c..] == data[offset + c..];
    PlusPlus(offset, c, Pump(data[offset + c..], call + 1, readErr, writeErr, abort));
  }

  lemma PlusPlus(a: nat, b: nat, p: Pumped)
    ensures Plus(a, Plus(b, p)) == Plus(a + b, p)
  {
  }

  /** Appending the chunk to the destination's first `offset` bytes gives its first `offset + |bytes|`. */
  lemma TreeAdvance(t0: Tree, to: Key, data: seq<bv8>, offset: nat, bytes: seq<bv8>)
    requires offset + |bytes| <= |data| && bytes == data[offset..offset + |bytes|]
    ensures var t := t0[to := File(data[..offset])];
      t[to := File(t[to].data + bytes)] == t0[to := File(data[..offset + |bytes|])]
  {
    assert data[..offset] + bytes == data[..offset + |bytes|];
  }

  /** `b` more bytes in front of the loop's result. */
  function Plus(b: nat, p: Pumped): Pumped {
    match p
    case Finished(x) => Finished(b + x)
    case Aborted(x) => Aborted(b + x)
    case WriteFailed(x) => WriteFailed(b + x)
  }

  lemma PumpStep(rest: seq<bv8>, n: nat, readErr: Option<nat>, writeErr: Option<nat>, abort: bool, c: nat)
    requires rest != [] && readErr != Some(n) && !abort && writeErr != Some(n)
    requires c == if |rest| < COPY_BUFFER_SIZE then |rest| else COPY_BUFFER_SIZE
    ensures Pump(rest, n, readErr, writeErr, abort) == Plus(c, Pump(rest[c..], n + 1, readErr, writeErr, abort))
  {
  }

  /**
   * `copySingleFile`: create the destination's parent directories, open
   * both files (retrying), copy the bytes, and on a complete copy append
   * the source path to one log and the destination path to the other. A
   * failed read ends the copy like the end of the file does, so what was
   * read so far is kept and logged.
   */
  method CopySingleFile(fs: Volume, status: Status, fromFile: string, toFile: string,
                        totalBytesCopied: nat, totalSize: int, logSrc: Log?, logDst: Log?)
      returns (bytesCopied: nat, ghost o: Outcome)
    requires fs.Valid() && (logSrc == null || logSrc != logDst)
    modifies fs, status, logSrc, logDst
    ensures fs.Valid() && status.abortFileOp == old(status.abortFileOp)
    ensures (fs.nodes, o) == SingleCopy(old(fs.nodes), fs.locked, fs.unreadable, fs.flakyOpens,
                                        fs.readErrorAt, fs.writeErrorAt, status.abortFileOp, fromFile, toFile)
    ensures bytesCopied == totalBytesCopied + (if o.Copied? then o.p.bytes else 0)
    ensures status.copyPercentage == Progress(old(status.copyPercentage), o, totalBytesCopied, totalSize)
    ensures logSrc != null ==> logSrc.lines == old(logSrc.lines) + (if o.Copied? && o.p.Finished? then [fromFile] else [])
    ensures logDst != null ==> logDst.lines == old(logDst.lines) + (if o.Copied? && o.p.Finished? then [toFile] else [])
  {
    ghost var t0 := fs.nodes;
    CreateDirectory(fs, GetParentDirFromPath(toFile));
    ghost var t1 := fs.nodes;
    var ok, round := OpenBoth(fs, fromFile, toFile);
    bytesCopied := totalBytesCopied;
    o := NotOpened;
    if !ok {
      return;
    }
    ghost var t2 := fs.nodes;
    OpeningShape(t1, fs.locked, fs.unreadable, fs.flakyOpens, Comps(fromFile), Comps(toFile), 0);
    var p;
    p, bytesCopied := PumpFile(fs, status, fromFile, toFile, totalBytesCopied, totalSize);
    o := Copied(p);
    CopyPumped(t0, fs.locked, fs.unreadable, fs.flakyOpens, fs.readErrorAt, fs.writeErrorAt, status.abortFileOp,
               fromFile, toFile, t2, round.value, fs.nodes, p);
    if p.Finished? {
      WriteLog(logSrc, fromFile);
      WriteLog(logDst, toFile);
    }
  }

  /** Once both files are open, the copy ends as the chunk loop left it. */
  lemma CopyPumped(t0: Tree, locked: set<Key>, unreadable: set<Key>, flakyOpens: map<Key, nat>,
                   readErrorAt: map<Key, nat>, writeErrorAt: map<Key, nat>, abort: bool,
                   fromFile: string, toFile: string, t2: Tree, r: nat, t3: Tree, p: Pumped)
    requires var t1 := MkdirChain(t0, Comps(ROOT_PATH), ParentChain(toFile));
      Opening(t1, locked, unreadable, flakyOpens, Comps(fromFile), Comps(toFile), 0) == (t2, Some(r))
    requires var from := Comps(fromFile);
      var to := Comps(toFile);
      var readErr := if from in readErrorAt then Some(readErrorAt[from]) else None;
      var writeErr := if to in writeErrorAt then Some(writeErrorAt[to]) else None;
      && IsFileIn(t2, from)
      && p == Pump(t2[from].data, 0, readErr, writeErr, abort)
      && PumpPost(t2, t3, locked, to, t2[from].data, p)
    ensures SingleCopy(t0, locked, unreadable, flakyOpens, readErrorAt, writeErrorAt, abort, fromFile, toFile)
         == (t3, Copied(p))
  {
  }

  // ---------------------------------------------------------------------
  // What one copy can change.

  /** Without a read error, a loop that finishes has copied the whole file. */
  lemma {:induction false} PumpFinishedAll(rest: seq<bv8>, n: nat, writeErr: Option<nat>, abort: bool)
    requires Pump(rest, n, None, writeErr, abort).Finished?
    ensures Pump(rest, n, None, writeErr, abort).bytes == |rest|
    decreases |rest|
  {
    if rest != [] {
      var c := if |rest| < COPY_BUFFER_SIZE then |rest| else COPY_BUFFER_SIZE;
      PumpFinishedAll(rest[c..], n + 1, writeErr, abort);
    }
  }

  /**
   * Creating the parent directories of a destination under the volume
   * keeps every entry and adds only directories, each above the destination.
   */
  lemma ParentChainShape(t: Tree, toFile: string, k: Key)
    requires StartsWith(toFile, ROOT_PATH) && !EndsWithSlash(toFile)
    ensures var t1 := MkdirChain(t, Comps(ROOT_PATH), ParentChain(toFile));
      && (k in t ==> k in t1 && t1[k] == t[k])
      && (k in t1 && k !in t ==> t1[k] == Dir && k < Comps(toFile))
  {
    var b, cs := Comps(ROOT_PATH), ParentChain(toFile);
    MkdirChainGrows(t, b, cs, k);
    var t1 := MkdirChain(t, b, cs);
    if k in t1 && k !in t {
      var i :| 1 <= i <= |cs| && k == b + cs[..i];
      ChainOfParent(toFile);
      PrefixBelow(b, cs, i, GetFileName(toFile));
    }
  }

  /** A destination under the volume is its parent chain plus its file name. */
  lemma ChainOfParent(toFile: string)
    requires StartsWith(toFile, ROOT_PATH) && !EndsWithSlash(toFile)
    ensures Comps(toFile) == Comps(ROOT_PATH) + ParentChain(toFile) + [GetFileName(toFile)]
  {
    ParentUnderRoot(toFile);
    RootSplit(GetParentDirFromPath(toFile));
    RootSplit(toFile);
    ParentAndFileName(toFile);
  }

  lemma PrefixBelow(b: Key, cs: seq<string>, i: nat, n: string)
    requires i <= |cs|
    ensures b + cs[..i] < b + cs + [n]
  {
    assert (b + cs + [n])[..|b| + i] == b + cs[..i];
  }

  /** `copySingleFile` changes no entry but the destination, and adds only directories above it. */
  lemma SingleCopyOthers(t0: Tree, locked: set<Key>, unreadable: set<Key>, flakyOpens: map<Key, nat>,
                         readErrorAt: map<Key, nat>, writeErrorAt: map<Key, nat>, abort: bool,
                         fromFile: string, toFile: string, k: Key)
    requires StartsWith(toFile, ROOT_PATH) && !EndsWithSlash(toFile) && k != Comps(toFile)
    ensures var r := SingleCopy(t0, locked, unreadable, flakyOpens, readErrorAt, writeErrorAt, abort,
                                fromFile, toFile).0;
      && (k in t0 ==> k in r && r[k] == t0[k])
      && (k in r && k !in t0 ==> r[k] == Dir && k < Comps(toFile))
  {
    var f, x := Comps(fromFile), Comps(toFile);
    var t1 := MkdirChain(t0, Comps(ROOT_PATH), ParentChain(toFile));
    ParentChainShape(t0, toFile, k);
    OpeningShape(t1, locked, unreadable, flakyOpens, f, x, 0);
    var opening := Opening(t1, locked, unreadable, flakyOpens, f, x, 0);
    AfterOpeningOthers(opening.0, opening.1, locked, readErrorAt, writeErrorAt, abort, f, x, k);
  }

  /** After the opening rounds only the destination changes. */
  lemma AfterOpeningOthers(t2: Tree, round: Option<nat>, locked: set<Key>, readErrorAt: map<Key, nat>,
                           writeErrorAt: map<Key, nat>, abort: bool, from: Key, to: Key, k: Key)
    requires k != to
    ensures var r := AfterOpening(t2, round, locked, readErrorAt, writeErrorAt, abort, from, to).0;
      (k in r <==> k in t2) && (k in r ==> r[k] == t2[k])
  {
  }

  /**
   * The destination of `copySingleFile`, if changed, is left a regular file
   * holding a prefix of the source's bytes (no bytes when the source is not
   * a regular file).
   */
  lemma SingleCopyDest(t0: Tree, locked: set<Key>, unreadable: set<Key>, flakyOpens: map<Key, nat>,
                       readErrorAt: map<Key, nat>, writeErrorAt: map<Key, nat>, abort: bool,
                       fromFile: string, toFile: string)
    requires StartsWith(toFile, ROOT_PATH) && !EndsWithSlash(toFile) && Comps(fromFile) != Comps(toFile)
    ensures var r := SingleCopy(t0, locked, unreadable, flakyOpens, readErrorAt, writeErrorAt, abort,
                                fromFile, toFile).0;
      var f, x := Comps(fromFile), Comps(toFile);
      x in r && !(x in t0 && r[x] == t0[x]) ==> r[x].File? && r[x].data <= if IsFileIn(t0, f) then t0[f].data else []
  {
    var f, x := Comps(fromFile), Comps(toFile);
    var t1 := MkdirChain(t0, Comps(ROOT_PATH), ParentChain(toFile));
    ParentChainShape(t0, toFile, x);
    ParentChainShape(t0, toFile, f);
    OpeningShape(t1, locked, unreadable, flakyOpens, f, x, 0);
    var opening := Opening(t1, locked, unreadable, flakyOpens, f, x, 0);
    AfterOpeningDest(opening.0, opening.1, locked, readErrorAt, writeErrorAt, abort, f, x);
  }

  /** After the opening rounds the destination keeps its entry, is removed, or holds a prefix of the source. */
  lemma AfterOpeningDest(t2: Tree, round: Option<nat>, locked: set<Key>, readErrorAt: map<Key, nat>,
                         writeErrorAt: map<Key, nat>, abort: bool, from: Key, to: Key)
    ensures var r := AfterOpening(t2, round, locked, readErrorAt, writeErrorAt, abort, from, to).0;
      to in r && !(to in t2 && r[to] == t2[to]) ==> IsFileIn(t2, from) && r[to].File? && r[to].data <= t2[from].data
  {
    if !(round.None? || !IsFileIn(t2, from)) {
      var data := t2[from].data;
      var readErr := if from in readErrorAt then Some(readErrorAt[from]) else None;
      var writeErr := if to in writeErrorAt then Some(writeErrorAt[to]) else None;
      PumpBounded(data, 0, readErr, writeErr, abort);
      var p := Pump(data, 0, readErr, writeErr, abort);
      assert data[..p.bytes] <= data;
    }
  }

  /** A copy that `copySingleFile` reports complete holds the source's bytes, all of them without a read error. */
  lemma SingleCopyComplete(t0: Tree, locked: set<Key>, unreadable: set<Key>, flakyOpens: map<Key, nat>,
                           readErrorAt: map<Key, nat>, writeErrorAt: map<Key, nat>, abort: bool,
                           fromFile: string, toFile: string)
    requires StartsWith(toFile, ROOT_PATH) && !EndsWithSlash(toFile) && Comps(fromFile) != Comps(toFile)
    ensures var (r, o) := SingleCopy(t0, locked, unreadable, flakyOpens, readErrorAt, writeErrorAt, abort,
                                     fromFile, toFile);
      var f, x := Comps(fromFile), Comps(toFile);
      o.Copied? && o.p.Finished? ==>
        && IsFileIn(t0, f) && x in r && r[x].File? && r[x].data <= t0[f].data
        && (f !in readErrorAt ==> r[x].data == t0[f].data)
  {
    var f, x := Comps(fromFile), Comps(toFile);
    var t1 := MkdirChain(t0, Comps(ROOT_PATH), ParentChain(toFile));
    ParentChainShape(t0, toFile, f);
    OpeningShape(t1, locked, unreadable, flakyOpens, f, x, 0);
    var opening := Opening(t1, locked, unreadable, flakyOpens, f, x, 0);
    var t2 := opening.0;
    if !(opening.1.None? || !IsFileIn(t2, f)) {
      var data := t2[f].data;
      var readErr := if f in readErrorAt then Some(readErrorAt[f]) else None;
      var writeErr := if x in writeErrorAt then Some(writeErrorAt[x]) else None;
      PumpBounded(data, 0, readErr, writeErr, abort);
      var p := Pump(data, 0, readErr, writeErr, abort);
      if p.Finished? && f !in readErrorAt {
        PumpFinishedAll(data, 0, writeErr, abort);
        assert data[..p.bytes] == data;
      }
    }
  }

  /**
   * `copySingleFile` without a fault: once the destination's parents are
   * created, the source is a readable regular file that opens within the
   * retries and the destination can be written, is not locked and never
   * fails a write; then the copy finishes.
   */
  lemma SingleCopyFinishes(t0: Tree, locked: set<Key>, unreadable: set<Key>, flakyOpens: map<Key, nat>,
                           readErrorAt: map<Key, nat>, writeErrorAt: map<Key, nat>, fromFile: string, toFile: string)
    requires var t1 := MkdirChain(t0, Comps(ROOT_PATH), ParentChain(toFile));
      var f, x := Comps(fromFile), Comps(toFile);
      && IsFileIn(t1, f) && f !in unreadable && (f in flakyOpens ==> flakyOpens[f] <= MAX_RETRIES)
      && WriteOpens(t1, locked, x) && x !in locked && x !in writeErrorAt
    ensures var o := SingleCopy(t0, locked, unreadable, flakyOpens, readErrorAt, writeErrorAt, false,
                                fromFile, toFile).1;
      o.Copied? && o.p.Finished?
  {
    var f, x := Comps(fromFile), Comps(toFile);
    var t1 := MkdirChain(t0, Comps(ROOT_PATH), ParentChain(toFile));
    OpeningSucceeds(t1, locked, unreadable, flakyOpens, f, x, 0);
    OpeningShape(t1, locked, unreadable, flakyOpens, f, x, 0);
    var t2 := Opening(t1, locked, unreadable, flakyOpens, f, x, 0).0;
    var readErr := if f in readErrorAt then Some(readErrorAt[f]) else None;
    PumpFinishes(t2[f].data, 0, readErr);
  }

  /**
   * `copySingleFile` onto the file it reads from: the opening rounds
   * truncate the destination, which is the source, so whatever the copy
   * leaves there, if it changed anything, is an empty regular file.
   */
  lemma SingleCopySelf(t0: Tree, locked: set<Key>, unreadable: set<Key>, flakyOpens: map<Key, nat>,
                       readErrorAt: map<Key, nat>, writeErrorAt: map<Key, nat>, abort: bool,
                       fromFile: string, toFile: string)
    requires StartsWith(toFile, ROOT_PATH) && !EndsWithSlash(toFile) && Comps(fromFile) == Comps(toFile)
    ensures var r := SingleCopy(t0, locked, unreadable, flakyOpens, readErrorAt, writeErrorAt, abort,
                                fromFile, toFile).0;
      var x := Comps(toFile);
      x in r && !(x in t0 && r[x] == t0[x]) ==> r[x] == File([])
  {
    var x := Comps(toFile);
    var t1 := MkdirChain(t0, Comps(ROOT_PATH), ParentChain(toFile));
    ParentChainShape(t0, toFile, x);
    OpeningShape(t1, locked, unreadable, flakyOpens, x, x, 0);
    var opening := Opening(t1, locked, unreadable, flakyOpens, x, x, 0);
    AfterOpeningDest(opening.0, opening.1, locked, readErrorAt, writeErrorAt, abort, x, x);
  }

  /** Once the destination can be opened for writing, the opening rounds leave it an empty regular file. */
  lemma OpeningTruncates(t: Tree, locked: set<Key>, unreadable: set<Key>, flakyOpens: map<Key, nat>,
                                            from: Key, to: Key, a: nat)
    requires a <= MAX_RETRIES && WriteOpens(t, locked, to)
    ensures var t' := Opening(t, locked, unreadable, flakyOpens, from, to, a).0;
      to in t' && t'[to] == File([])
    decreases MAX_RETRIES - a
  {
    var t' := Truncated(t, locked, to);
    if !(SrcOpens(t, unreadable, flakyOpens, from, a) && WriteOpens(t, locked, to)) && a + 1 <= MAX_RETRIES {
      OpeningShape(t', locked, unreadable, flakyOpens, from, to, a + 1);
    }
  }

  /**
   * A copy of a writable regular file onto itself loses its bytes: the
   * file is left empty or removed, whatever it held before.
   */
  lemma SelfCopyEmpties(t0: Tree, locked: set<Key>, unreadable: set<Key>, flakyOpens: map<Key, nat>,
                        readErrorAt: map<Key, nat>, writeErrorAt: map<Key, nat>, abort: bool,
                        fromFile: string, toFile: string)
    requires StartsWith(toFile, ROOT_PATH) && !EndsWithSlash(toFile) && Comps(fromFile) == Comps(toFile)
    requires IsFileIn(t0, Comps(toFile)) && Comps(toFile) !in locked
    ensures var r := SingleCopy(t0, locked, unreadable, flakyOpens, readErrorAt, writeErrorAt, abort,
                                fromFile, toFile).0;
      var x := Comps(toFile);
      x !in r || r[x] == File([])
  {
    var x := Comps(toFile);
    var t1 := MkdirChain(t0, Comps(ROOT_PATH), ParentChain(toFile));
    ParentChainShape(t0, toFile, x);
    OpeningTruncates(t1, locked, unreadable, flakyOpens, x, x, 0);
    var opening := Opening(t1, locked, unreadable, flakyOpens, x, x, 0);
    var t2 := opening.0;
    if !(opening.1.None? || !IsFileIn(t2, x)) {
      var readErr := if x in readErrorAt then Some(readErrorAt[x]) else None;
      var writeErr := if x in writeErrorAt then Some(writeErrorAt[x]) else None;
      PumpBounded(t2[x].data, 0, readErr, writeErr, abort);
    }
  }
}
