/** Each step of the archiver keeps the invariant. */
module ArchiverSteps {
  import opened Wrappers
  import opened Bytes
  import opened Disks
  import opened Archiver
  import opened ArchiverSafety

  // ---- The files a step is not about ----

  /** A step about `p` that touches nothing of any other file. */
  ghost predicate OnlyAbout(c: Plan, s: State, t: State, p: Path)
    requires s.phase.Keys == c.inodes.Keys
  {
    && p in s.phase && p in t.phase && t.phase == s.phase[p := t.phase[p]]
    && (forall q :: q in s.temp && q != p ==> q in t.temp && t.temp[q] == s.temp[q])
    && (forall q :: q in s.detail && q != p ==> q in t.detail && t.detail[q] == s.detail[q])
    && (forall q :: q in s.phase && q != p ==> DiskFrame(c, s, t.disk, q))
    && s.durableLines <= t.durableLines <= |t.journal|
  }

  lemma OtherFiles(c: Plan, s: State, t: State, p: Path, lines: seq<Line>)
    requires Inv(c, s) && OnlyAbout(c, s, t, p)
    requires t.journal == s.journal + lines
    requires lines == [] || (|lines| == 1 && (lines[0].Verified? ==> lines[0].detail.path == p))
    requires Separate(c, t) && FileInv(c, t, p)
    ensures Inv(c, t)
  {
    hide Separate, FileInv, DiskFrame, Artifact;
    forall q | q in t.phase
      ensures FileInv(c, t, q)
    {
      if q != p {
        OtherFile(c, s, t, q, lines);
      }
    }
  }

  lemma OtherFile(c: Plan, s: State, t: State, q: Path, lines: seq<Line>)
    requires Inv(c, s) && q in s.phase && q in t.phase && t.phase[q] == s.phase[q]
    requires (q in s.temp ==> q in t.temp && t.temp[q] == s.temp[q])
    requires (q in s.detail ==> q in t.detail && t.detail[q] == s.detail[q])
    requires DiskFrame(c, s, t.disk, q)
    requires t.journal == s.journal + lines && s.durableLines <= t.durableLines <= |t.journal|
    requires lines == [] || (|lines| == 1 && (lines[0].Verified? ==> lines[0].detail.path != q))
    ensures FileInv(c, t, q)
  {
    hide Fated, Leftover, DiskFrame, SourceInv, ArchiveInv, JournalInv, Separate, Artifact;
    FrameKeeps(c, s, t, q);
    assert t.journal[|s.journal|..] == lines;
    assert lines != [] ==> lines[1..] == [];
    JournalFrame(s, t, q);
  }

  lemma SeparateKept(c: Plan, s: State, t: State)
    requires Separate(c, s) && t.temp == s.temp && s.disk.data.Keys <= t.disk.data.Keys
    requires forall p :: p in s.phase ==> p in t.phase && (s.phase[p] != Waiting ==> t.phase[p] != Waiting)
    ensures Separate(c, t)
  {
  }

  /** The disk did not change. */
  lemma SameDisk(c: Plan, s: State, q: Path)
    requires q in c.inodes
    ensures DiskFrame(c, s, s.disk, q)
  {
  }

  /** A change of one inode that is not the original or the archive of `q`. */
  lemma DataFrame(c: Plan, s: State, i: Inode, content: bytes, q: Path)
    requires q in c.inodes && i != c.inodes[q] && (q in s.temp ==> i != s.temp[q])
    ensures DiskFrame(c, s, SetData(s.disk, i, content), q)
  {
    SameFates(s.disk, i, content);
    hide MaySurvive;
  }

  lemma SameFates(d: Disk, i: Inode, content: bytes)
    ensures forall n, v :: Fated(SetData(d, i, content), n, v) <==> Fated(d, n, v)
    ensures forall n, v :: Fated(SyncFile(d, i), n, v) <==> Fated(d, n, v)
    ensures forall n, j :: Leftover(d, n, j) ==> Leftover(SetData(d, i, content), n, j) && Leftover(SyncFile(d, i), n, j)
  {
    assert forall n, v :: MaySurvive(SetData(d, i, content), n, v) <==> MaySurvive(d, n, v);
    assert forall n, v :: MaySurvive(SyncFile(d, i), n, v) <==> MaySurvive(d, n, v);
  }

  // ---- Making the archive ----

  lemma CreateKeeps(c: Plan, s: State, p: Path, i: Inode)
    requires Inv(c, s) && Enabled(c, s, Create(p, i))
    ensures Inv(c, Apply(c, s, Create(p, i)))
  {
    hide Fated, Leftover, Artifact, DiskFrame, FileInv, SameFile, Separate, ValidPlan, SetName, SetData, AnyInode;
    var t := Apply(c, s, Create(p, i));
    forall q | q in s.phase && q != p
      ensures DiskFrame(c, s, t.disk, q)
    {
      CreateFrame(c, s, p, i, q);
    }
    CreateActive(c, s, p, i);
    CreateSeparate(c, s, p, i);
    OtherFiles(c, s, t, p, []);
  }

  lemma NewInode(c: Plan, s: State, p: Path, i: Inode, q: Path)
    requires Inv(c, s) && Enabled(c, s, Create(p, i)) && q in s.phase
    ensures i != c.inodes[q] && (q in s.temp ==> i != s.temp[q])
  {
    hide Fated, Leftover, Artifact, ArchiveInv, JournalInv, SameFile;
    assert FileInv(c, s, q);
  }

  lemma SeparateNew(c: Plan, s: State, t: State, p: Path, i: Inode)
    requires Separate(c, s) && s.phase.Keys == c.inodes.Keys && p in s.phase && t.temp == s.temp[p := i]
    requires forall q :: q in s.phase ==> i != c.inodes[q] && (q in s.temp ==> i != s.temp[q])
    requires s.disk.data.Keys + {i} <= t.disk.data.Keys
    requires t.phase.Keys == s.phase.Keys && t.phase[p] != Waiting
    requires forall q :: q in s.phase && q != p ==> t.phase[q] == s.phase[q]
    ensures Separate(c, t)
  {
  }

  lemma CreateSeparate(c: Plan, s: State, p: Path, i: Inode)
    requires Inv(c, s) && Enabled(c, s, Create(p, i))
    ensures Separate(c, Apply(c, s, Create(p, i)))
  {
    hide Fated, Leftover, Artifact, FileInv, SameFile, SetName, AnyInode, Separate, ValidPlan;
    SetNameData(SetData(s.disk, i, []), Partial(p), Some(i));
    forall q | q in s.phase
      ensures i != c.inodes[q] && (q in s.temp ==> i != s.temp[q])
    {
      NewInode(c, s, p, i, q);
    }
    SeparateNew(c, s, Apply(c, s, Create(p, i)), p, i);
  }

  lemma CreateActive(c: Plan, s: State, p: Path, i: Inode)
    requires Inv(c, s) && Enabled(c, s, Create(p, i))
    ensures FileInv(c, Apply(c, s, Create(p, i)), p)
  {
    assert FileInv(c, s, p);
    NewInode(c, s, p, i, p);
    OwnNamesApart(c, p);
    hide Artifact, SameFile, Separate, Fated, Leftover, ValidPlan, Inv, SourceInv, ArchiveInv, JournalInv, Enabled, Apply;
    CreateSource(c, s, p, i);
    CreateArchive(c, s, p, i);
  }

  /** The new partial file is where it should be. */
  lemma CreateArchive(c: Plan, s: State, p: Path, i: Inode)
    requires p in s.phase && p in c.inodes && p in c.contents && JournalInv(s, p) && Enabled(c, s, Create(p, i))
    ensures var t := Apply(c, s, Create(p, i)); p in t.phase && ArchiveInv(c, t, p) && JournalInv(t, p)
  {
    hide SameFile, Fated, FirstVerified;
  }

  /** The original is untouched by the new partial file. */
  lemma CreateSource(c: Plan, s: State, p: Path, i: Inode)
    requires p in s.phase && p in c.inodes && p in c.contents && SourceInv(c, s, p)
    requires Enabled(c, s, Create(p, i)) && i != c.inodes[p] && Partial(p) != p
    ensures SourceInv(c, Apply(c, s, Create(p, i)), p)
  {
    hide SameFile, Fated, Leftover;
    SameFates(s.disk, i, []);
    SetNameFated(SetData(s.disk, i, []), Partial(p), Some(i), p, Some(c.inodes[p]));
  }

  lemma CreateFrame(c: Plan, s: State, p: Path, i: Inode, q: Path)
    requires Inv(c, s) && Enabled(c, s, Create(p, i)) && q in s.phase && q != p
    ensures DiskFrame(c, s, Apply(c, s, Create(p, i)).disk, q)
  {
    hide Fated, Leftover, Artifact, FileInv, SameFile, MaySurvive, Separate, AnyInode;
    NewInode(c, s, p, i, q);
    var middle := SetData(s.disk, i, []);
    SameFates(s.disk, i, []);
    var t := Apply(c, s, Create(p, i));
    NamesApart(p, q);
    NamesApart(q, p);
    forall m | m in {q, Archive(q), Partial(q)}
      ensures Lookup(t.disk.names, m) == Lookup(s.disk.names, m)
      ensures Fated(middle, m, Lookup(s.disk.names, m)) ==> Fated(t.disk, m, Lookup(s.disk.names, m))
    {
      SetNameFated(middle, Partial(p), Some(i), m, Lookup(s.disk.names, m));
    }
    SetNameFated(middle, Partial(p), Some(i), q, None);
  }

  lemma WritePartialKeeps(c: Plan, s: State, p: Path, content: bytes)
    requires Inv(c, s) && Enabled(c, s, WritePartial(p, content))
    ensures Inv(c, Apply(c, s, WritePartial(p, content)))
  {
    hide Fated, Leftover, Artifact, DiskFrame, FileInv, ValidPlan;
    var t := Apply(c, s, WritePartial(p, content));
    forall q | q in s.phase && q != p
      ensures DiskFrame(c, s, t.disk, q)
    {
      DataFrame(c, s, s.temp[p], content, q);
    }
    SeparateKept(c, s, t);
    WritePartialActive(c, s, p, content);
    OtherFiles(c, s, t, p, []);
  }

  lemma WritePartialActive(c: Plan, s: State, p: Path, content: bytes)
    requires p in s.phase && p in c.inodes && p in c.contents && FileInv(c, s, p)
    requires s.phase[p] == Created && p in s.temp && s.temp[p] != c.inodes[p]
    ensures FileInv(c, SetPhase(s, p, Written).(disk := SetData(s.disk, s.temp[p], content)), p)
  {
    SameFates(s.disk, s.temp[p], content);
    hide MaySurvive;
  }

  lemma SyncPartialKeeps(c: Plan, s: State, p: Path)
    requires Inv(c, s) && Enabled(c, s, SyncPartial(p))
    ensures Inv(c, Apply(c, s, SyncPartial(p)))
  {
    hide Fated, Leftover, Artifact, Separate, ValidPlan, DiskFrame, FileInv;
    var t := Apply(c, s, SyncPartial(p));
    forall q | q in s.phase && q != p
      ensures DiskFrame(c, s, t.disk, q)
    {
      SyncFileFrame(c, s, s.temp[p], q);
    }
    SeparateKept(c, s, t);
    SyncPartialActive(c, s, p);
    OtherFiles(c, s, t, p, []);
  }

  lemma SyncFileFrame(c: Plan, s: State, i: Inode, q: Path)
    requires q in c.inodes
    ensures DiskFrame(c, s, SyncFile(s.disk, i), q)
  {
    SameFates(s.disk, i, []);
    hide MaySurvive;
  }

  lemma SyncPartialActive(c: Plan, s: State, p: Path)
    requires p in s.phase && p in c.inodes && p in c.contents && FileInv(c, s, p)
    requires s.phase[p] == Written && p in s.temp
    ensures FileInv(c, SetPhase(s, p, Flushed).(disk := SyncFile(s.disk, s.temp[p])), p)
  {
    SameFates(s.disk, s.temp[p], []);
    hide MaySurvive;
  }

  /** Reading back decides that the archive holds the original: hashes are equal only for equal content. */
  lemma CheckKeeps(c: Plan, s: State, p: Path)
    requires Inv(c, s) && Enabled(c, s, Check(p))
    ensures Inv(c, Apply(c, s, Check(p)))
  {
    hide Fated, Leftover, Artifact, Separate, ValidPlan, DiskFrame, FileInv, ReadsBack;
    var t := Apply(c, s, Check(p));
    CheckActive(c, s, p);
    SameDisks(c, s);
    SeparateKept(c, s, t);
    OtherFiles(c, s, t, p, []);
  }

  lemma SameDisks(c: Plan, s: State)
    requires s.phase.Keys == c.inodes.Keys
    ensures forall q :: q in s.phase ==> DiskFrame(c, s, s.disk, q)
  {
    forall q | q in s.phase
      ensures DiskFrame(c, s, s.disk, q)
    {
      SameDisk(c, s, q);
    }
  }

  lemma CheckActive(c: Plan, s: State, p: Path)
    requires ValidPlan(c) && p in s.phase && p in c.inodes && p in c.contents && FileInv(c, s, p)
    requires s.phase[p] == (if c.batched then Written else Flushed) && p in s.temp
    requires ReadsBack(c, s.disk, p, s.temp[p])
    ensures FileInv(c, SetPhase(s, p, Checked), p)
  {
    hide Fated, Leftover, Artifact;
    var restored := c.gunzip(s.disk.data[s.temp[p]]).value;
    assert c.sha(restored) == c.sha(c.contents[p]);
    assert restored == c.contents[p];
  }

  lemma StopKeeps(c: Plan, s: State, p: Path)
    requires Inv(c, s) && Enabled(c, s, Stop(p))
    ensures Inv(c, Apply(c, s, Stop(p)))
  {
    hide Fated, Leftover, Artifact, Separate, ValidPlan, DiskFrame, FileInv;
    var t := Apply(c, s, Stop(p));
    SameDisks(c, s);
    SeparateKept(c, s, t);
    OtherFile(c, s, t, p, []) by { SameDisk(c, s, p); }
    OtherFiles(c, s, t, p, []);
  }

  // ---- Names ----

  lemma NameFrames(c: Plan, s: State, n: Path, entry: Option<Inode>, p: Path)
    requires Inv(c, s) && p in s.phase && n in {p, Archive(p), Partial(p)}
    ensures forall q :: q in s.phase && q != p ==> DiskFrame(c, s, SetName(s.disk, n, entry), q)
  {
    hide DiskFrame, FileInv;
    forall q | q in s.phase && q != p
      ensures DiskFrame(c, s, SetName(s.disk, n, entry), q)
    {
      NameFrame(c, s, n, entry, p, q);
    }
  }

  lemma OwnNamesApart(c: Plan, p: Path)
    requires ValidPlan(c) && p in c.inodes
    ensures Archive(p) != p && Partial(p) != p && Archive(p) != Partial(p)
  {
    NamesApart(p, p);
  }

  lemma PublishKeeps(c: Plan, s: State, p: Path)
    requires Inv(c, s) && Enabled(c, s, Publish(p))
    ensures Inv(c, Apply(c, s, Publish(p)))
  {
    hide Fated, Leftover, Artifact, Separate, ValidPlan, DiskFrame, FileInv, SetName;
    var t := Apply(c, s, Publish(p));
    NameFrames(c, s, Archive(p), Some(s.temp[p]), p);
    OwnNamesApart(c, p);
    PublishActive(c, s, p);
    SetNameData(s.disk, Archive(p), Some(s.temp[p]));
    SeparateKept(c, s, t);
    OtherFiles(c, s, t, p, []);
  }

  lemma SetNameData(d: Disk, n: Path, entry: Option<Inode>)
    ensures SetName(d, n, entry).data == d.data
  {
  }

  lemma PublishActive(c: Plan, s: State, p: Path)
    requires p in s.phase && p in c.inodes && p in c.contents && FileInv(c, s, p)
    requires s.phase[p] == Checked && p in s.temp
    requires Archive(p) != p && Partial(p) != p && Archive(p) != Partial(p)
    ensures FileInv(c, Apply(c, s, Publish(p)), p)
    requires Enabled(c, s, Publish(p))
  {
    hide Fated, Leftover, Artifact;
    SetNameFated(s.disk, Archive(p), Some(s.temp[p]), p, Some(c.inodes[p]));
    SetNameFated(s.disk, Archive(p), Some(s.temp[p]), Partial(p), Some(s.temp[p]));
  }

  lemma DropPartialKeeps(c: Plan, s: State, p: Path)
    requires Inv(c, s) && Enabled(c, s, DropPartial(p))
    ensures Inv(c, Apply(c, s, DropPartial(p)))
  {
    hide Fated, Leftover, Artifact, Separate, ValidPlan, DiskFrame, FileInv, SetName;
    var t := Apply(c, s, DropPartial(p));
    NameFrames(c, s, Partial(p), None, p);
    OwnNamesApart(c, p);
    DropPartialActive(c, s, p);
    SetNameData(s.disk, Partial(p), None);
    SeparateKept(c, s, t);
    OtherFiles(c, s, t, p, []);
  }

  lemma DropPartialActive(c: Plan, s: State, p: Path)
    requires p in s.phase && p in c.inodes && p in c.contents && FileInv(c, s, p)
    requires Archive(p) != p && Partial(p) != p && Archive(p) != Partial(p)
    requires Enabled(c, s, DropPartial(p))
    ensures FileInv(c, Apply(c, s, DropPartial(p)), p)
  {
    hide Fated, Leftover, Artifact;
    SetNameFated(s.disk, Partial(p), None, p, Some(c.inodes[p]));
    SetNameFated(s.disk, Partial(p), None, Archive(p), Some(s.temp[p]));
  }

  lemma RemoveKeeps(c: Plan, s: State, p: Path)
    requires Inv(c, s) && Enabled(c, s, Remove(p))
    ensures Inv(c, Apply(c, s, Remove(p)))
  {
    hide Fated, Leftover, Artifact, Separate, ValidPlan, DiskFrame, FileInv, SetName, SameFile;
    var t := Apply(c, s, Remove(p));
    NameFrames(c, s, p, None, p);
    OwnNamesApart(c, p);
    RemoveActive(c, s, p);
    SetNameData(s.disk, p, None);
    SeparateKept(c, s, t);
    OtherFiles(c, s, t, p, []);
  }

  lemma RemoveActive(c: Plan, s: State, p: Path)
    requires p in s.phase && p in c.inodes && p in c.contents && FileInv(c, s, p)
    requires Archive(p) != p && s.phase[p] == Recorded
    ensures FileInv(c, SetPhase(s, p, Removed).(disk := SetName(s.disk, p, None)), p)
  {
    hide Fated, Leftover;
    SetNameFated(s.disk, p, None, Archive(p), Some(s.temp[p]));
    RemovedLeftover(s.disk, p, c.inodes[p]);
  }

  // ---- Syncs ----

  lemma SyncParentKeeps(c: Plan, s: State, p: Path)
    requires Inv(c, s) && Enabled(c, s, SyncParent(p))
    ensures Inv(c, Apply(c, s, SyncParent(p)))
  {
    hide Fated, Leftover, Artifact, Separate, ValidPlan, DiskFrame, FileInv, SyncDirectory, Parent;
    var t := Apply(c, s, SyncParent(p));
    SameAfterSync(s.disk, Parent(p));
    forall q | q in s.phase && q != p
      ensures DiskFrame(c, s, t.disk, q)
    {
      SyncParentFrame(c, s, Parent(p), q);
    }
    SyncParentActive(c, s, p);
    SeparateKept(c, s, t);
    OtherFiles(c, s, t, p, []);
  }

  lemma SameAfterSync(d: Disk, dir: Path)
    ensures var e := SyncDirectory(d, dir); e.names == d.names && e.data == d.data && e.settled == d.settled
  {
  }

  lemma SyncParentFrame(c: Plan, s: State, dir: Path, q: Path)
    requires q in c.inodes
    ensures DiskFrame(c, s, SyncDirectory(s.disk, dir), q)
  {
    hide Fated, Leftover, Parent;
    forall n | n in {q, Archive(q)} && Fated(s.disk, n, Lookup(s.disk.names, n))
      ensures Fated(SyncDirectory(s.disk, dir), n, Lookup(s.disk.names, n))
    {
      SyncDirectoryFated(s.disk, dir, n);
    }
    if Leftover(s.disk, q, c.inodes[q]) {
      SyncDirectoryLeftover(s.disk, dir, q, c.inodes[q]);
    }
  }

  lemma SyncParentActive(c: Plan, s: State, p: Path)
    requires p in s.phase && p in c.inodes && p in c.contents && FileInv(c, s, p)
    requires Enabled(c, s, SyncParent(p))
    ensures FileInv(c, Apply(c, s, SyncParent(p)), p)
  {
    hide Fated, Leftover, Artifact, SyncDirectory, Parent;
    var dir := Parent(p);
    SameAfterSync(s.disk, dir);
    ParentOfExtended(p, ".gz");
    SyncDirectoryFated(s.disk, dir, Archive(p));
    SyncDirectoryFated(s.disk, dir, p);
    if Leftover(s.disk, p, c.inodes[p]) {
      SyncDirectoryLeftover(s.disk, dir, p, c.inodes[p]);
    }
  }

  lemma SyncFilesystemKeeps(c: Plan, s: State, batch: set<Path>)
    requires Inv(c, s) && Enabled(c, s, SyncFilesystem(batch))
    ensures Inv(c, Apply(c, s, SyncFilesystem(batch)))
  {
    hide Fated, Leftover, Artifact, Separate, ValidPlan, FileInv, SyncAll;
    var t := Apply(c, s, SyncFilesystem(batch));
    assert t.disk == SyncAll(s.disk);
    SyncAllSame(s.disk);
    forall q | q in t.phase
      ensures FileInv(c, t, q)
    {
      SyncFilesystemFile(c, s, t, q);
    }
    SeparateKept(c, s, t);
  }

  lemma SyncAllSame(d: Disk)
    ensures var e := SyncAll(d); e.names == d.names && e.data == d.data && e.settled == d.data.Keys
    ensures forall n :: Fated(SyncAll(d), n, Lookup(d.names, n))
    ensures forall n, j :: Leftover(d, n, j) ==> Leftover(SyncAll(d), n, j)
  {
    assert forall n, v :: MaySurvive(SyncAll(d), n, v) <==> v == Lookup(d.names, n);
  }

  lemma SyncFilesystemFile(c: Plan, s: State, t: State, q: Path)
    requires q in s.phase && q in t.phase && q in c.inodes && q in c.contents && FileInv(c, s, q)
    requires t == s.(disk := SyncAll(s.disk), phase := t.phase) && c.batched
    requires t.phase[q] == s.phase[q] || (s.phase[q] == Cleared && t.phase[q] == Published)
    ensures FileInv(c, t, q)
  {
    SyncAllSame(s.disk);
    hide Fated, Leftover, SyncAll;
  }

  // ---- Lines ----

  lemma RejectKeeps(c: Plan, s: State, p: Path)
    requires Inv(c, s) && Enabled(c, s, Reject(p))
    ensures Inv(c, Apply(c, s, Reject(p)))
  {
    hide Fated, Leftover, Artifact, Separate, ValidPlan, DiskFrame, FileInv;
    var line := NoSaving(p, |c.contents[p]|);
    LineAdded(c, s, p, Rejecting, line);
    SameDisks(c, s);
    SeparateKept(c, s, Apply(c, s, Reject(p)));
    OtherFiles(c, s, Apply(c, s, Reject(p)), p, [line]);
  }

  lemma JournalKeeps(c: Plan, s: State, p: Path)
    requires Inv(c, s) && Enabled(c, s, Journal(p))
    ensures Inv(c, Apply(c, s, Journal(p)))
  {
    hide Fated, Leftover, Artifact, Separate, ValidPlan, DiskFrame, FileInv;
    var line := Verified(s.detail[p]);
    DetailPath(c, s, p);
    LineAdded(c, s, p, Journaled, line);
    SameDisks(c, s);
    SeparateKept(c, s, Apply(c, s, Journal(p)));
    OtherFiles(c, s, Apply(c, s, Journal(p)), p, [line]);
  }

  lemma DetailPath(c: Plan, s: State, p: Path)
    requires p in s.phase && p in c.inodes && p in c.contents && FileInv(c, s, p) && LinkedUp(s.phase[p])
    ensures p in s.detail && s.detail[p].path == p && s.detail[p].archive == Archive(p)
  {
    hide Fated, Leftover;
  }

  lemma FinishKeeps(c: Plan, s: State, p: Path)
    requires Inv(c, s) && Enabled(c, s, Finish(p))
    ensures Inv(c, Apply(c, s, Finish(p)))
  {
    hide Fated, Leftover, Artifact, Separate, ValidPlan, DiskFrame, FileInv;
    var line := Archived(s.detail[p]);
    LineAdded(c, s, p, Done, line);
    SameDisks(c, s);
    SeparateKept(c, s, Apply(c, s, Finish(p)));
    OtherFiles(c, s, Apply(c, s, Finish(p)), p, [line]);
  }

  /** The line that comes with a phase. */
  lemma LineAdded(c: Plan, s: State, p: Path, f: Phase, line: Line)
    requires p in s.phase && p in c.inodes && p in c.contents && FileInv(c, s, p)
    requires || (s.phase[p] == Checked && f == Rejecting && line.NoSaving?)
             || (s.phase[p] == Published && f == Journaled && p in s.detail && line == Verified(s.detail[p])
                 && s.detail[p].path == p)
             || (s.phase[p] in {Removed, RemovalSynced} && f == Done && line.Archived?)
    ensures FileInv(c, SetPhase(s, p, f).(journal := s.journal + [line]), p)
  {
    hide Fated, Leftover;
    FirstVerifiedAppend(s.journal, [line], p);
    assert [line][1..] == [];
    assert (s.journal + [line])[..s.durableLines] == s.journal[..s.durableLines];
  }

  lemma SyncLineKeeps(c: Plan, s: State, p: Path)
    requires Inv(c, s) && Enabled(c, s, SyncLine(p))
    ensures Inv(c, Apply(c, s, SyncLine(p)))
  {
    hide Fated, Leftover, Artifact, Separate, ValidPlan, DiskFrame, FileInv;
    var t := Apply(c, s, SyncLine(p));
    LinesSynced(c, s, t, p);
    SameDisks(c, s);
    SeparateKept(c, s, t);
    OtherFiles(c, s, t, p, []);
  }

  lemma LinesSynced(c: Plan, s: State, t: State, p: Path)
    requires p in s.phase && p in t.phase && p in c.inodes && p in c.contents && FileInv(c, s, p)
    requires t == s.(durableLines := |s.journal|, phase := t.phase)
    requires || t.phase[p] == s.phase[p] || (s.phase[p] == Journaled && t.phase[p] == Recorded)
             || (s.phase[p] == Rejecting && t.phase[p] == Rejected)
    ensures FileInv(c, t, p)
  {
    hide Fated, Leftover;
    assert t.journal[..t.durableLines] == s.journal;
    if RecordedUp(s.phase[p]) {
      FirstVerifiedExtends(s.journal, s.durableLines, |s.journal|, p);
    }
  }

  lemma SyncLinesKeeps(c: Plan, s: State, batch: set<Path>)
    requires Inv(c, s) && Enabled(c, s, SyncLines(batch))
    ensures Inv(c, Apply(c, s, SyncLines(batch)))
  {
    hide Fated, Leftover, Artifact, Separate, ValidPlan, FileInv;
    var t := Apply(c, s, SyncLines(batch));
    forall q | q in t.phase
      ensures FileInv(c, t, q)
    {
      LinesSynced(c, s, t, q);
    }
    SeparateKept(c, s, t);
  }
}
