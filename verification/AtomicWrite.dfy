/** `otrl_write_atomic` (parity/src/tape_reader.c) over a disk whose every call may fail, be interrupted or
    come up short. */
module AtomicWrite {
  import opened Wrappers
  import opened Bytes
  import opened TapeFormat
  import opened Disks

  /** What the system does with one call. Calls beyond the script succeed. */
  datatype Outcome = Normal | Short(amount: nat) | Interrupted | Failing

  /** The calls of the transaction; the last five belong to the failure path. */
  datatype Op =
    | MakeTemp | SetFlags | SetMode | Write | SyncData | CloseData | LinkPath | OpenDir | SyncLink | UnlinkTemp
    | SyncUnlink | CloseDir
    | DropDescriptor | DropPath | DropTemp | SyncDrop | DropDirectory

  /** Calls that are made again when a signal interrupts them. */
  predicate Retried(op: Op) {
    op in {Write, SyncData, SyncLink, SyncUnlink}
  }

  /** Calls of the failure path, whose results are ignored. */
  predicate Cleanup(op: Op) {
    op in {DropDescriptor, DropPath, DropTemp, SyncDrop, DropDirectory}
  }

  /** One call failed on the way, and it was the first one or not. */
  predicate OneMore(before: seq<Op>, after: seq<Op>, first: bool) {
    && |after| == |before| + 1 && before <= after
    && !Cleanup(after[|before|]) && (after[|before|] == MakeTemp <==> first)
  }

  class FileSystem {
    var disk: Disk
    var script: seq<Outcome>
    /** The calls that failed for good, and the disk after each call. */
    ghost var failed: seq<Op>
    ghost var history: seq<Disk>

    constructor (disk: Disk, script: seq<Outcome>)
      ensures this.disk == disk && this.script == script && failed == [] && history == []
    {
      this.disk, this.script, failed, history := disk, script, [], [];
    }

    method Take() returns (o: Outcome)
      modifies this`script
      ensures if old(script) == [] then o == Normal && script == [] else o == old(script)[0] && script == old(script)[1..]
    {
      o := Normal;
      if script != [] {
        o, script := script[0], script[1..];
      }
    }

    /** One call: `effect` is the disk if it succeeds, which it cannot when not `possible`. */
    method Invoke(op: Op, possible: bool, effect: Disk) returns (ok: bool, interrupted: bool)
      modifies this
      ensures ok ==> possible && disk == effect && failed == old(failed)
      ensures !ok ==> disk == old(disk)
      ensures |script| <= |old(script)| && (interrupted ==> !ok && |script| < |old(script)|)
      ensures !ok ==> failed == if interrupted && Retried(op) then old(failed) else old(failed) + [op]
      ensures history == old(history) + [disk]
    {
      var o := Take();
      interrupted := o.Interrupted?;
      ok := possible && !interrupted && !o.Failing?;
      if ok {
        disk := effect;
      } else if !(interrupted && Retried(op)) {
        failed := failed + [op];
      }
      history := history + [disk];
    }

    /** A call repeated while it is interrupted. */
    method Insist(op: Op, effect: Disk) returns (ok: bool)
      requires Retried(op)
      modifies this
      ensures disk == if ok then effect else old(disk)
      ensures failed == if ok then old(failed) else old(failed) + [op]
      ensures old(history) < history
      ensures forall k :: |old(history)| <= k < |history| ==> history[k] == old(disk) || history[k] == disk
    {
      var interrupted;
      ok, interrupted := Invoke(op, true, effect);
      while !ok && interrupted
        invariant disk == if ok then effect else old(disk)
        invariant failed == if ok || interrupted then old(failed) else old(failed) + [op]
        invariant old(history) < history
        invariant forall k :: |old(history)| <= k < |history| ==> history[k] == old(disk) || history[k] == disk
        decreases |script| + if interrupted then 1 else 0
      {
        ok, interrupted := Invoke(op, true, effect);
      }
    }

    /** `write`: how many bytes were taken, or a negative number. */
    method TryWrite(i: Inode, chunk: bytes) returns (amount: int, interrupted: bool)
      requires i in disk.data && chunk != []
      modifies this
      ensures amount <= |chunk|
      ensures amount > 0 ==> disk == SetData(old(disk), i, old(disk).data[i] + chunk[..amount]) && failed == old(failed)
      ensures amount <= 0 ==> disk == old(disk)
      ensures |script| <= |old(script)|
      ensures interrupted ==> amount < 0 && |script| < |old(script)| && failed == old(failed)
      ensures amount <= 0 && !interrupted ==> failed == old(failed) + [Write]
      ensures history == old(history) + [disk]
    {
      var o := Take();
      interrupted := o.Interrupted?;
      amount := match o
        case Normal => |chunk|
        case Short(n) => if n < |chunk| then n else |chunk|
        case _ => -1;
      if amount > 0 {
        disk := SetData(disk, i, disk.data[i] + chunk[..amount]);
      } else if !interrupted {
        failed := failed + [Write];
      }
      history := history + [disk];
    }
  }

  // ---- What holds of the disk all along ----

  /** Nothing but `path`, `temporary` and inode `i` differs from `before`. */
  ghost predicate Framed(d: Disk, before: Disk, path: Path, temporary: Path, i: Inode) {
    && (forall q :: q != path && q != temporary ==> Lookup(d.names, q) == Lookup(before.names, q))
    && (forall j :: j in before.data && j != i ==> j in d.data && d.data[j] == before.data[j])
    && (forall j :: j in before.settled && j != i ==> j in d.settled)
  }

  /** `path` is what it was, and a crash would not give it anything new. */
  ghost predicate Untouched(d: Disk, before: Disk, path: Path) {
    && Lookup(d.names, path) == Lookup(before.names, path)
    && forall e :: MaySurvive(d, path, e) ==> MaySurvive(before, path, e) || e == Lookup(before.names, path)
  }

  /** The new file is whole and its content would survive a crash. */
  predicate Whole(d: Disk, i: Inode, content: bytes) {
    i in d.data && d.data[i] == content && i in d.settled
  }

  /** `path` was free and is free or the whole new file, and so is anything a crash could make of it. */
  ghost predicate Promoting(d: Disk, before: Disk, path: Path, i: Inode, content: bytes) {
    && Lookup(before.names, path) == None
    && (Lookup(d.names, path) == None || Lookup(d.names, path) == Some(i))
    && Whole(d, i, content)
    && forall e :: MaySurvive(d, path, e) ==> MaySurvive(before, path, e) || e == None || e == Some(i)
  }

  ghost predicate Untorn(d: Disk, before: Disk, path: Path, temporary: Path, i: Inode, content: bytes) {
    && Framed(d, before, path, temporary, i)
    && (Untouched(d, before, path) || Promoting(d, before, path, i, content))
  }

  ghost predicate AllUntorn(history: seq<Disk>, from: nat, before: Disk, path: Path, temporary: Path, i: Inode,
                            content: bytes)
  {
    forall k :: from <= k < |history| ==> Untorn(history[k], before, path, temporary, i, content)
  }

  /** An inode number in use nowhere. */
  predicate Fresh(d: Disk, i: Inode) {
    i !in d.data && i !in d.settled && i !in d.names.Values
  }

  // ---- The transaction ----

  const PATH_BYTES := 4096

  function Temporary(path: Path, suffix: string): Path {
    path + ".partial." + suffix
  }

  /** The same disk as `d` but for inode `i`. */
  predicate SameButFile(d: Disk, e: Disk, i: Inode) {
    && d.names == e.names && d.durable == e.durable && d.dirty == e.dirty
    && d.data - {i} == e.data - {i} && d.settled - {i} == e.settled - {i}
  }

  lemma SameButFileUntorn(d: Disk, e: Disk, before: Disk, path: Path, temporary: Path, i: Inode, content: bytes)
    requires SameButFile(d, e, i) && Framed(d, before, path, temporary, i) && Untouched(d, before, path)
    ensures Framed(e, before, path, temporary, i) && Untouched(e, before, path)
    ensures Untorn(e, before, path, temporary, i, content)
  {
    forall j | j in before.data && j != i
      ensures j in e.data && e.data[j] == before.data[j]
    {
      assert j in d.data - {i} && (d.data - {i})[j] == before.data[j];
    }
    forall j | j in before.settled && j != i
      ensures j in e.settled
    {
      assert j in d.settled - {i};
    }
  }

  /** The write loop. */
  method WriteAll(fs: FileSystem, i: Inode, content: bytes) returns (ok: bool)
    requires i in fs.disk.data && fs.disk.data[i] == []
    modifies fs
    ensures SameButFile(old(fs.disk), fs.disk, i) && i in fs.disk.data
    ensures ok ==> fs.disk.data[i] == content
    ensures fs.failed == if ok then old(fs.failed) else old(fs.failed) + [Write]
    ensures |old(fs.history)| <= |fs.history|
    ensures forall k :: 0 <= k < |old(fs.history)| ==> fs.history[k] == old(fs.history[k])
    ensures forall k :: |old(fs.history)| <= k < |fs.history| ==> SameButFile(old(fs.disk), fs.history[k], i)
  {
    var written := 0;
    while written < |content|
      invariant 0 <= written <= |content| && i in fs.disk.data && fs.disk.data[i] == content[..written]
      invariant SameButFile(old(fs.disk), fs.disk, i) && fs.failed == old(fs.failed)
      invariant old(fs.history) <= fs.history
      invariant forall k :: |old(fs.history)| <= k < |fs.history| ==> SameButFile(old(fs.disk), fs.history[k], i)
    {
      var amount := WriteSome(fs, i, content[written..]);
      if amount <= 0 {
        return false;
      }
      assert content[..written] + content[written..][..amount] == content[..written + amount];
      written := written + amount;
    }
    assert content[..written] == content;
    return true;
  }

  /** One `write`, repeated while it is interrupted. */
  method WriteSome(fs: FileSystem, i: Inode, chunk: bytes) returns (amount: int)
    requires i in fs.disk.data && chunk != []
    modifies fs
    ensures amount <= |chunk| && SameButFile(old(fs.disk), fs.disk, i) && i in fs.disk.data
    ensures fs.disk.data[i] == old(fs.disk.data[i]) + (if amount > 0 then chunk[..amount] else [])
    ensures fs.failed == if amount > 0 then old(fs.failed) else old(fs.failed) + [Write]
    ensures old(fs.history) <= fs.history
    ensures forall k :: |old(fs.history)| <= k < |fs.history| ==> SameButFile(old(fs.disk), fs.history[k], i)
  {
    var interrupted;
    amount, interrupted := fs.TryWrite(i, chunk);
    while amount < 0 && interrupted
      invariant amount <= |chunk| && (interrupted ==> amount < 0)
      invariant SameButFile(old(fs.disk), fs.disk, i) && i in fs.disk.data
      invariant fs.disk.data[i] == old(fs.disk.data[i]) + (if amount > 0 then chunk[..amount] else [])
      invariant fs.failed == if amount > 0 || interrupted then old(fs.failed) else old(fs.failed) + [Write]
      invariant old(fs.history) <= fs.history
      invariant forall k :: |old(fs.history)| <= k < |fs.history| ==> SameButFile(old(fs.disk), fs.history[k], i)
      decreases |fs.script| + if interrupted then 1 else 0
    {
      amount, interrupted := fs.TryWrite(i, chunk);
    }
  }

  /** From the new temporary to a closed file holding all of `content`. */
  method FillTemporary(fs: FileSystem, i: Inode, content: bytes) returns (ok: bool, open: bool)
    requires i in fs.disk.data && fs.disk.data[i] == []
    modifies fs
    ensures SameButFile(old(fs.disk), fs.disk, i) && i in fs.disk.data
    ensures ok ==> Whole(fs.disk, i, content) && fs.failed == old(fs.failed) && !open
    ensures !ok ==> OneMore(old(fs.failed), fs.failed, false)
    ensures old(fs.history) <= fs.history
    ensures forall k :: |old(fs.history)| <= k < |fs.history| ==> SameButFile(old(fs.disk), fs.history[k], i)
  {
    ok, open := false, true;
    var called, interrupted := fs.Invoke(SetFlags, true, fs.disk);
    if !called {
      return;
    }
    called, interrupted := fs.Invoke(SetMode, true, fs.disk);
    if !called {
      return;
    }
    called := WriteAll(fs, i, content);
    if !called {
      return;
    }
    called := fs.Insist(SyncData, SyncFile(fs.disk, i));
    if !called {
      return;
    }
    called, interrupted := fs.Invoke(CloseData, true, fs.disk);
    open := false;
    if !called {
      return;
    }
    ok := true;
  }

  // ---- Promotion ----

  lemma LinkPromotes(d: Disk, before: Disk, path: Path, temporary: Path, i: Inode, content: bytes)
    requires Framed(d, before, path, temporary, i) && Untouched(d, before, path) && Whole(d, i, content)
    ensures path !in d.names ==>
              var e := SetName(d, path, Some(i));
              Framed(e, before, path, temporary, i) && Promoting(e, before, path, i, content)
    ensures path !in d.names ==> path !in before.names
  {
  }

  /** Dropping either name keeps what holds of the disk. */
  lemma DropKeeps(d: Disk, before: Disk, path: Path, temporary: Path, i: Inode, content: bytes)
    requires Framed(d, before, path, temporary, i) && path != temporary
    ensures var e := SetName(d, temporary, None);
            && Framed(e, before, path, temporary, i)
            && (Untouched(d, before, path) ==> Untouched(e, before, path))
            && (Promoting(d, before, path, i, content) ==> Promoting(e, before, path, i, content))
    ensures var e := SetName(d, path, None);
            && Framed(e, before, path, temporary, i)
            && (Promoting(d, before, path, i, content) ==> Promoting(e, before, path, i, content))
  {
    var e := SetName(d, temporary, None);
    assert forall v :: MaySurvive(e, path, v) <==> MaySurvive(d, path, v);
  }

  lemma SyncKeeps(d: Disk, before: Disk, path: Path, temporary: Path, i: Inode, content: bytes)
    requires Framed(d, before, path, temporary, i) && Promoting(d, before, path, i, content)
    ensures var e := SyncDirectory(d, Parent(path));
            && Framed(e, before, path, temporary, i) && Promoting(e, before, path, i, content)
            && e.names == d.names && Fated(e, path, Lookup(d.names, path))
            && (Parent(temporary) == Parent(path) ==> Fated(e, temporary, Lookup(d.names, temporary)))
  {
    hide Parent;
    var e := SyncDirectory(d, Parent(path));
    forall v
      ensures MaySurvive(e, path, v) <==> v == Lookup(d.names, path)
      ensures Parent(temporary) == Parent(path) ==> (MaySurvive(e, temporary, v) <==> v == Lookup(d.names, temporary))
    {
      SyncDirectoryFates(d, Parent(path), path, v);
      SyncDirectoryFates(d, Parent(path), temporary, v);
    }
  }

  /** The names left when `path` and `temporary` are or are not there. */
  function Names(names: map<Path, Inode>, path: Path, temporary: Path, i: Inode, promoted: bool, kept: bool)
    : map<Path, Inode>
  {
    var m := if promoted then names[path := i] else names;
    if kept then m[temporary := i] else m
  }

  /** From the closed temporary to the one name. */
  method Promote(fs: FileSystem, path: Path, temporary: Path, i: Inode, ghost content: bytes, ghost before: Disk)
    returns (ok: bool, promoted: bool, kept: bool, open: bool)
    requires path != temporary && temporary !in before.names && Parent(temporary) == Parent(path)
    requires fs.disk.names == Names(before.names, path, temporary, i, false, true)
    requires Framed(fs.disk, before, path, temporary, i) && Untouched(fs.disk, before, path)
    requires Whole(fs.disk, i, content)
    modifies fs
    ensures fs.disk.names == Names(before.names, path, temporary, i, promoted, kept)
    ensures promoted ==> path !in before.names && Promoting(fs.disk, before, path, i, content)
    ensures !promoted ==> Untouched(fs.disk, before, path) && kept && !open
    ensures Framed(fs.disk, before, path, temporary, i)
    ensures ok ==> promoted && !kept && fs.failed == old(fs.failed)
    ensures ok ==> Fated(fs.disk, path, Some(i)) && Fated(fs.disk, temporary, None)
    ensures !ok ==> OneMore(old(fs.failed), fs.failed, false)
    ensures old(fs.history) <= fs.history
    ensures AllUntorn(fs.history, |old(fs.history)|, before, path, temporary, i, content)
  {
    hide Parent, SyncDirectory, Fated, Framed, Promoting, Untouched, Whole;
    ok, promoted, kept, open := false, false, true, false;
    LinkPromotes(fs.disk, before, path, temporary, i, content);
    var called, interrupted := fs.Invoke(LinkPath, path !in fs.disk.names, SetName(fs.disk, path, Some(i)));
    if !called {
      return;
    }
    promoted := true;
    called, interrupted := fs.Invoke(OpenDir, true, fs.disk);
    if !called {
      return;
    }
    open := true;
    SyncKeeps(fs.disk, before, path, temporary, i, content);
    called := fs.Insist(SyncLink, SyncDirectory(fs.disk, Parent(path)));
    if !called {
      return;
    }
    ok, kept, open := Seal(fs, path, temporary, i, content, before);
  }

  /** After the link is on disk: the temporary name goes. */
  method Seal(fs: FileSystem, path: Path, temporary: Path, i: Inode, ghost content: bytes, ghost before: Disk)
    returns (ok: bool, kept: bool, open: bool)
    requires path != temporary && temporary !in before.names && Parent(temporary) == Parent(path)
    requires fs.disk.names == Names(before.names, path, temporary, i, true, true)
    requires Framed(fs.disk, before, path, temporary, i) && Promoting(fs.disk, before, path, i, content)
    modifies fs
    ensures fs.disk.names == Names(before.names, path, temporary, i, true, kept)
    ensures Framed(fs.disk, before, path, temporary, i) && Promoting(fs.disk, before, path, i, content)
    ensures ok ==> !kept && fs.failed == old(fs.failed)
    ensures ok ==> Fated(fs.disk, path, Some(i)) && Fated(fs.disk, temporary, None)
    ensures !ok ==> OneMore(old(fs.failed), fs.failed, false)
    ensures old(fs.history) <= fs.history
    ensures AllUntorn(fs.history, |old(fs.history)|, before, path, temporary, i, content)
  {
    hide Parent, SyncDirectory, Fated, Framed, Promoting, Untouched;
    ok, kept, open := false, true, true;
    DropKeeps(fs.disk, before, path, temporary, i, content);
    var called, interrupted := fs.Invoke(UnlinkTemp, temporary in fs.disk.names, SetName(fs.disk, temporary, None));
    if !called {
      return;
    }
    kept := false;
    SyncKeeps(fs.disk, before, path, temporary, i, content);
    called := fs.Insist(SyncUnlink, SyncDirectory(fs.disk, Parent(path)));
    if !called {
      return;
    }
    called, interrupted := fs.Invoke(CloseDir, true, fs.disk);
    open := false;
    if !called {
      return;
    }
    ok := true;
  }

  // ---- The failure path ----

  /** Since `base`, only calls of the failure path failed; these two did or did not. */
  predicate Lost(base: seq<Op>, failed: seq<Op>, dropPath: bool, dropTemp: bool) {
    && base <= failed
    && (forall op :: op in failed[|base|..] ==> Cleanup(op))
    && (DropPath in failed[|base|..] <==> dropPath)
    && (DropTemp in failed[|base|..] <==> dropTemp)
  }

  lemma LostMore(base: seq<Op>, failed: seq<Op>, op: Op, dropPath: bool, dropTemp: bool)
    requires Lost(base, failed, dropPath, dropTemp) && Cleanup(op)
    ensures Lost(base, failed + [op], dropPath || op == DropPath, dropTemp || op == DropTemp)
  {
    var (was, now) := (failed[|base|..], (failed + [op])[|base|..]);
    assert now == was + [op];
  }

  /** The name goes from the destination, if it got there. */
  method RemovePath(fs: FileSystem, path: Path, ghost temporary: Path, ghost i: Inode, ghost content: bytes,
                    ghost before: Disk, promoted: bool, ghost kept: bool, ghost base: seq<Op>)
    returns (ghost stuck: bool)
    requires path != temporary && fs.disk.names == Names(before.names, path, temporary, i, promoted, kept)
    requires Framed(fs.disk, before, path, temporary, i) && Lost(base, fs.failed, false, false)
    requires if promoted then path !in before.names && Promoting(fs.disk, before, path, i, content)
             else Untouched(fs.disk, before, path)
    modifies fs
    ensures Lost(base, fs.failed, stuck, false) && (stuck ==> promoted)
    ensures fs.disk.names == Names(before.names, path, temporary, i, stuck, kept)
    ensures Framed(fs.disk, before, path, temporary, i)
    ensures if promoted then Promoting(fs.disk, before, path, i, content) else Untouched(fs.disk, before, path)
    ensures old(fs.history) <= fs.history
    ensures AllUntorn(fs.history, |old(fs.history)|, before, path, temporary, i, content)
  {
    hide Parent, SyncDirectory, Framed, Promoting, Untouched, Lost;
    stuck := false;
    if promoted {
      DropKeeps(fs.disk, before, path, temporary, i, content);
      LostMore(base, fs.failed, DropPath, false, false);
      var called, interrupted := fs.Invoke(DropPath, path in fs.disk.names, SetName(fs.disk, path, None));
      stuck := !called;
    }
  }

  /** The temporary name goes, unless it already went; failing that it stays if it was there. */
  method RemoveTemporary(fs: FileSystem, ghost path: Path, temporary: Path, ghost i: Inode, ghost content: bytes,
                         ghost before: Disk, unlinked: bool, ghost there: bool, ghost kept: bool,
                         ghost base: seq<Op>, ghost stuckPath: bool)
    returns (ghost stuck: bool)
    requires path != temporary && temporary !in before.names && (unlinked ==> !kept)
    requires fs.disk.names == Names(before.names, path, temporary, i, there, kept)
    requires Framed(fs.disk, before, path, temporary, i) && Lost(base, fs.failed, stuckPath, false)
    requires Untouched(fs.disk, before, path) || Promoting(fs.disk, before, path, i, content)
    modifies fs
    ensures Lost(base, fs.failed, stuckPath, stuck) && (stuck ==> !unlinked)
    ensures fs.disk.names == Names(before.names, path, temporary, i, there, kept && stuck)
    ensures Framed(fs.disk, before, path, temporary, i)
    ensures old(Untouched(fs.disk, before, path)) ==> Untouched(fs.disk, before, path)
    ensures old(Promoting(fs.disk, before, path, i, content)) ==> Promoting(fs.disk, before, path, i, content)
    ensures old(fs.history) <= fs.history
    ensures AllUntorn(fs.history, |old(fs.history)|, before, path, temporary, i, content)
  {
    hide Parent, SyncDirectory, Framed, Promoting, Untouched, Lost;
    stuck := false;
    if !unlinked {
      DropKeeps(fs.disk, before, path, temporary, i, content);
      LostMore(base, fs.failed, DropTemp, stuckPath, false);
      var called, interrupted := fs.Invoke(DropTemp, temporary in fs.disk.names, SetName(fs.disk, temporary, None));
      stuck := !called;
    }
  }

  /** Undo what was done; no result is looked at. */
  method CleanUp(fs: FileSystem, path: Path, temporary: Path, i: Inode, ghost content: bytes, ghost before: Disk,
                 descriptor: bool, promoted: bool, unlinked: bool, directory: bool, ghost kept: bool)
    returns (ghost stuckPath: bool, ghost stuckTemp: bool)
    requires path != temporary && temporary !in before.names
    requires fs.disk.names == Names(before.names, path, temporary, i, promoted, kept) && (unlinked ==> !kept)
    requires Framed(fs.disk, before, path, temporary, i)
    requires if promoted then path !in before.names && Promoting(fs.disk, before, path, i, content)
             else Untouched(fs.disk, before, path) && !directory
    modifies fs
    ensures Lost(old(fs.failed), fs.failed, stuckPath, stuckTemp) && (stuckPath ==> promoted)
    ensures (stuckTemp ==> !unlinked)
    ensures fs.disk.names == Names(before.names, path, temporary, i, stuckPath, kept && stuckTemp)
    ensures Untorn(fs.disk, before, path, temporary, i, content)
    ensures old(fs.history) <= fs.history
    ensures AllUntorn(fs.history, |old(fs.history)|, before, path, temporary, i, content)
  {
    hide Parent, SyncDirectory, Framed, Promoting, Untouched;
    ghost var base := fs.failed;
    assert Lost(base, base, false, false);
    hide Lost;
    var called, interrupted;
    if descriptor {
      LostMore(base, fs.failed, DropDescriptor, false, false);
      called, interrupted := fs.Invoke(DropDescriptor, true, fs.disk);
    }
    stuckPath := RemovePath(fs, path, temporary, i, content, before, promoted, kept, base);
    stuckTemp := RemoveTemporary(fs, path, temporary, i, content, before, unlinked, stuckPath, kept, base, stuckPath);
    if directory {
      CloseDirectory(fs, path, temporary, i, content, before, base, stuckPath, stuckTemp);
    }
  }

  method CloseDirectory(fs: FileSystem, path: Path, ghost temporary: Path, ghost i: Inode, ghost content: bytes,
                        ghost before: Disk, ghost base: seq<Op>, ghost stuckPath: bool, ghost stuckTemp: bool)
    requires Framed(fs.disk, before, path, temporary, i) && Promoting(fs.disk, before, path, i, content)
    requires Lost(base, fs.failed, stuckPath, stuckTemp)
    modifies fs
    ensures fs.disk.names == old(fs.disk.names) && Lost(base, fs.failed, stuckPath, stuckTemp)
    ensures Framed(fs.disk, before, path, temporary, i) && Promoting(fs.disk, before, path, i, content)
    ensures old(fs.history) <= fs.history
    ensures AllUntorn(fs.history, |old(fs.history)|, before, path, temporary, i, content)
  {
    hide Parent, SyncDirectory, Framed, Promoting, Untouched, Lost;
    SyncKeeps(fs.disk, before, path, temporary, i, content);
    LostMore(base, fs.failed, SyncDrop, stuckPath, stuckTemp);
    var called, interrupted := fs.Invoke(SyncDrop, true, SyncDirectory(fs.disk, Parent(path)));
    LostMore(base, fs.failed, DropDirectory, stuckPath, stuckTemp);
    called, interrupted := fs.Invoke(DropDirectory, true, fs.disk);
  }

  // ---- The whole call ----

  lemma TemporaryDistinct(path: Path, suffix: string)
    requires '/' !in suffix
    ensures Temporary(path, suffix) != path && Parent(Temporary(path, suffix)) == Parent(path)
  {
    ParentOfExtended(path, ".partial.");
    ParentOfExtended(path + ".partial.", suffix);
    assert |Temporary(path, suffix)| > |path|;
  }

  /** A new temporary leaves everything else alone. */
  lemma MakeTempKeeps(d: Disk, path: Path, temporary: Path, i: Inode)
    requires path != temporary && Fresh(d, i)
    ensures Framed(d, d, path, temporary, i) && Untouched(d, d, path)
    ensures var e := SetName(SetData(d, i, []), temporary, Some(i));
            Framed(e, d, path, temporary, i) && Untouched(e, d, path)
  {
    var e := SetName(SetData(d, i, []), temporary, Some(i));
    assert forall v :: MaySurvive(e, path, v) <==> MaySurvive(d, path, v);
  }

  /** Everything up to the failure label. */
  method Transaction(fs: FileSystem, path: Path, temporary: Path, i: Inode, content: bytes)
    returns (ok: bool, descriptor: bool, promoted: bool, unlinked: bool, directory: bool, ghost kept: bool)
    requires path != temporary && Parent(temporary) == Parent(path)
    requires temporary !in fs.disk.names && Fresh(fs.disk, i)
    modifies fs
    ensures fs.disk.names == Names(old(fs.disk.names), path, temporary, i, promoted, kept) && (unlinked ==> !kept)
    ensures Framed(fs.disk, old(fs.disk), path, temporary, i)
    ensures if promoted then path !in old(fs.disk.names) && Promoting(fs.disk, old(fs.disk), path, i, content)
            else Untouched(fs.disk, old(fs.disk), path) && !directory
    ensures ok ==> promoted && !kept && fs.failed == old(fs.failed) && Whole(fs.disk, i, content)
    ensures ok ==> Fated(fs.disk, path, Some(i)) && Fated(fs.disk, temporary, None)
    ensures !ok ==> OneMore(old(fs.failed), fs.failed, !kept && !unlinked)
    ensures old(fs.history) <= fs.history
    ensures AllUntorn(fs.history, |old(fs.history)|, old(fs.disk), path, temporary, i, content)
  {
    hide Parent, Fated, Framed, Promoting, Untouched;
    ghost var before := fs.disk;
    ok, descriptor, promoted, unlinked, directory, kept := false, false, false, false, false, false;
    MakeTempKeeps(before, path, temporary, i);
    var called, interrupted := fs.Invoke(MakeTemp, true, SetName(SetData(fs.disk, i, []), temporary, Some(i)));
    if !called {
      return;
    }
    ghost var made := fs.disk;
    kept := true;
    called, descriptor := FillTemporary(fs, i, content);
    forall d: Disk | SameButFile(made, d, i)
      ensures Framed(d, before, path, temporary, i) && Untouched(d, before, path)
      ensures Untorn(d, before, path, temporary, i, content)
    {
      SameButFileUntorn(made, d, before, path, temporary, i, content);
    }
    if !called {
      return;
    }
    var still;
    ok, promoted, still, directory := Promote(fs, path, temporary, i, content, before);
    unlinked, kept := !still, still;
    if ok {
      PromotedWhole(fs.disk, before, path, i, content);
    }
  }

  lemma PromotedWhole(d: Disk, before: Disk, path: Path, i: Inode, content: bytes)
    requires Promoting(d, before, path, i, content)
    ensures Whole(d, i, content)
  {
  }

  /** `otrl_write_atomic`; `suffix` and `i` are the name and the inode `mkstemp` comes up with. The calls that
      fail for good decide everything: none, and the file is there; one, and nothing has changed; more, and
      what is left is what the failure path could not remove. */
  method WriteAtomic(fs: FileSystem, path: string, content: Option<bytes>, suffix: string, i: Inode)
    returns (status: Status)
    requires |suffix| == 6 && '/' !in suffix && Temporary(path, suffix) !in fs.disk.names && Fresh(fs.disk, i)
    modifies fs
    ensures status == OK || status == IO || status == Usage
    ensures status == Usage <==> path == "" || content.None? || |path| + 15 >= PATH_BYTES
    ensures status == Usage ==> fs.disk == old(fs.disk) && fs.failed == old(fs.failed)
    ensures old(fs.failed) <= fs.failed && old(fs.history) <= fs.history
    ensures status == OK ==>
              && path !in old(fs.disk.names) && fs.disk.names == old(fs.disk.names)[path := i]
              && Whole(fs.disk, i, content.value)
              && Fated(fs.disk, path, Some(i)) && Fated(fs.disk, Temporary(path, suffix), None)
    ensures var lost := fs.failed[|old(fs.failed)|..];
            && (status == IO <==> lost != [])
            && (|lost| == 1 ==> fs.disk.names == old(fs.disk.names))
            && (status == IO ==>
                  fs.disk.names == Names(old(fs.disk.names), path, Temporary(path, suffix), i,
                                         DropPath in lost, DropTemp in lost && MakeTemp !in lost))
            && (DropPath in lost ==> path !in old(fs.disk.names))
    ensures status != Usage ==> Untorn(fs.disk, old(fs.disk), path, Temporary(path, suffix), i, content.value)
    ensures content.Some? ==>
              AllUntorn(fs.history, |old(fs.history)|, old(fs.disk), path, Temporary(path, suffix), i, content.value)
  {
    hide Parent, Fated, Framed, Promoting, Untouched, Whole;
    if path == "" || content.None? {
      return Usage;
    }
    if |path| + 15 >= PATH_BYTES || |path| >= PATH_BYTES {
      return Usage;
    }
    var temporary := Temporary(path, suffix);
    TemporaryDistinct(path, suffix);
    ghost var before := fs.disk;
    ghost var kept;
    var ok, descriptor, promoted, unlinked, directory;
    ok, descriptor, promoted, unlinked, directory, kept := Transaction(fs, path, temporary, i, content.value);
    if ok {
      return OK;
    }
    ghost var first := fs.failed;
    ghost var stuckPath, stuckTemp;
    stuckPath, stuckTemp := CleanUp(fs, path, temporary, i, content.value, before, descriptor, promoted, unlinked, directory, kept);
    assert fs.failed[|old(fs.failed)|..] == first[|old(fs.failed)|..] + fs.failed[|first|..];
    return IO;
  }

  // ---- Crashes ----

  /** Whenever the machine stops, `path` is the whole new file or something it could have been without the call. */
  lemma CrashNeverTears(d: Disk, before: Disk, path: Path, temporary: Path, i: Inode, content: bytes, after: Survivor)
    requires Untorn(d, before, path, temporary, i, content) && Survives(d, after)
    ensures var entry := Lookup(after.names, path);
            || MaySurvive(before, path, entry) || entry == Lookup(before.names, path)
            || (entry == Some(i) && i in after.data && after.data[i] == content)
  {
    var entry := Lookup(after.names, path);
    assert MaySurvive(d, path, entry);
  }

  /** What a successful call left, a crash leaves too. */
  lemma SuccessSurvives(d: Disk, path: Path, temporary: Path, i: Inode, content: bytes, after: Survivor)
    requires Whole(d, i, content) && Fated(d, path, Some(i)) && Fated(d, temporary, None) && Survives(d, after)
    ensures Lookup(after.names, path) == Some(i) && temporary !in after.names
    ensures i in after.data && after.data[i] == content
  {
    assert MaySurvive(d, path, Lookup(after.names, path));
    assert MaySurvive(d, temporary, Lookup(after.names, temporary));
  }
}
