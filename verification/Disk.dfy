/** A small disk with a volatile and a durable half: what running programs see, and what a crash may leave. */
module Disks {
  import opened Wrappers
  import opened Bytes

  type Path = string
  type Inode = nat

  /** `names` and `data` are what programs see. After a crash a name is what it was at the last sync of its
      directory (`durable`) or any later change of it (`dirty`); the content of an inode is certain only
      when it is in `settled`. */
  datatype Disk = Disk(names: map<Path, Inode>, data: map<Inode, bytes>,
                       durable: map<Path, Inode>, dirty: set<(Path, Option<Inode>)>, settled: set<Inode>)

  /** What a crash left. */
  datatype Survivor = Survivor(names: map<Path, Inode>, data: map<Inode, bytes>)

  function Lookup(names: map<Path, Inode>, p: Path): Option<Inode> {
    if p in names then Some(names[p]) else None
  }

  predicate MaySurvive(d: Disk, p: Path, entry: Option<Inode>) {
    entry == Lookup(d.durable, p) || (p, entry) in d.dirty
  }

  /** Whatever happens next, a crash leaves `p` so. */
  ghost predicate Fated(d: Disk, p: Path, entry: Option<Inode>) {
    forall v :: MaySurvive(d, p, v) <==> v == entry
  }

  /** A crash leaves inode `i` at `p`, or nothing. */
  ghost predicate Leftover(d: Disk, p: Path, i: Inode) {
    && (Lookup(d.names, p) == None || Lookup(d.names, p) == Some(i))
    && forall v :: MaySurvive(d, p, v) ==> v == None || v == Some(i)
  }

  ghost predicate Survives(d: Disk, after: Survivor) {
    && (forall p :: MaySurvive(d, p, Lookup(after.names, p)))
    && (forall i :: i in d.settled && i in d.data ==> i in after.data && after.data[i] == d.data[i])
  }

  // ---- Directories ----

  function LastSlash(p: Path): (k: int)
    ensures -1 <= k < |p|
  {
    if p == "" then -1 else if p[|p| - 1] == '/' then |p| - 1 else LastSlash(p[..|p| - 1])
  }

  /** The directory part of a path. */
  function Parent(p: Path): Path {
    var k := LastSlash(p);
    if k == -1 then "." else if k == 0 then "/" else p[..k]
  }

  lemma {:induction false} ParentOfExtended(p: Path, suffix: string)
    requires '/' !in suffix
    ensures Parent(p + suffix) == Parent(p)
  {
    if suffix == "" {
      assert p + suffix == p;
    } else {
      var shorter := suffix[..|suffix| - 1];
      assert (p + suffix)[..|p + suffix| - 1] == p + shorter;
      assert suffix[|suffix| - 1] in suffix;
      ParentOfExtended(p, shorter);
      assert LastSlash(p + suffix) == LastSlash(p + shorter);
      var k := LastSlash(p + suffix);
      assert k > 0 ==> (p + suffix)[..k] == (p + shorter)[..k];
    }
  }

  // ---- Calls ----

  /** A name is created, replaced or removed. */
  function SetName(d: Disk, p: Path, entry: Option<Inode>): Disk {
    d.(names := if entry.Some? then d.names[p := entry.value] else d.names - {p}, dirty := d.dirty + {(p, entry)})
  }

  function SetData(d: Disk, i: Inode, content: bytes): Disk {
    d.(data := d.data[i := content], settled := d.settled - {i})
  }

  function SyncFile(d: Disk, i: Inode): Disk {
    d.(settled := d.settled + {i})
  }

  function SyncDirectory(d: Disk, dir: Path): Disk {
    d.(durable := map p | p in d.names.Keys + d.durable.Keys && (if Parent(p) == dir then p in d.names else p in d.durable)
                    :: if Parent(p) == dir then d.names[p] else d.durable[p],
       dirty := set e | e in d.dirty && Parent(e.0) != dir)
  }

  function SyncAll(d: Disk): Disk {
    d.(durable := d.names, dirty := {}, settled := d.data.Keys)
  }

  /** Syncing a directory leaves each of its names one fate, and no other name a new one. */
  lemma SyncDirectoryFates(d: Disk, dir: Path, p: Path, entry: Option<Inode>)
    ensures Parent(p) == dir ==> (MaySurvive(SyncDirectory(d, dir), p, entry) <==> entry == Lookup(d.names, p))
    ensures Parent(p) != dir ==> (MaySurvive(SyncDirectory(d, dir), p, entry) <==> MaySurvive(d, p, entry))
  {
    hide Parent;
    var after := SyncDirectory(d, dir);
    assert (p, entry) in after.dirty <==> (p, entry) in d.dirty && Parent(p) != dir;
  }

  lemma SyncAllFates(d: Disk, p: Path, entry: Option<Inode>)
    ensures MaySurvive(SyncAll(d), p, entry) <==> entry == Lookup(d.names, p)
  {
  }

  /** Syncing a directory keeps a certain fate certain. */
  lemma SyncDirectoryFated(d: Disk, dir: Path, p: Path)
    requires Fated(d, p, Lookup(d.names, p)) || Parent(p) == dir
    ensures Fated(SyncDirectory(d, dir), p, Lookup(d.names, p))
  {
    hide Parent, MaySurvive, SyncDirectory;
    forall v
      ensures MaySurvive(SyncDirectory(d, dir), p, v) <==> v == Lookup(d.names, p)
    {
      SyncDirectoryFates(d, dir, p, v);
    }
  }

  /** Changing one name changes the fate of no other. */
  lemma SetNameFated(d: Disk, changed: Path, entry: Option<Inode>, p: Path, fate: Option<Inode>)
    requires p != changed
    ensures var e := SetName(d, changed, entry);
            Lookup(e.names, p) == Lookup(d.names, p) && (Fated(e, p, fate) <==> Fated(d, p, fate))
    ensures forall i :: Leftover(d, p, i) ==> Leftover(SetName(d, changed, entry), p, i)
  {
    var e := SetName(d, changed, entry);
    assert forall v :: MaySurvive(e, p, v) <==> MaySurvive(d, p, v);
  }

  lemma SyncDirectoryLeftover(d: Disk, dir: Path, p: Path, i: Inode)
    requires Leftover(d, p, i)
    ensures Leftover(SyncDirectory(d, dir), p, i)
  {
    hide Parent, MaySurvive;
    forall v | MaySurvive(SyncDirectory(d, dir), p, v)
      ensures v == None || v == Some(i)
    {
      SyncDirectoryFates(d, dir, p, v);
    }
  }

  lemma RemovedLeftover(d: Disk, p: Path, i: Inode)
    requires Fated(d, p, Some(i))
    ensures Leftover(SetName(d, p, None), p, i)
  {
    var e := SetName(d, p, None);
    forall v | MaySurvive(e, p, v)
      ensures v == None || v == Some(i)
    {
      assert MaySurvive(d, p, v) || v == None;
    }
  }
}
