/** Crash safety of the archiver: what a crash leaves can be restored. */
module ArchiverRecovery {
  import opened Wrappers
  import opened Bytes
  import opened Disks
  import opened Archiver
  import opened ArchiverSafety
  import ArchiverSteps

  // ---- Every run ----

  lemma InitInv(c: Plan, s: State)
    requires ValidPlan(c) && Init(c, s)
    ensures Inv(c, s)
  {
    hide Artifact;
  }

  lemma NextKeeps(c: Plan, s: State, t: State)
    requires Inv(c, s) && Next(c, s, t)
    ensures Inv(c, t)
  {
    hide Inv, Enabled, Apply;
    var step :| Enabled(c, s, step) && t == Apply(c, s, step);
    match step
    case Create(p, i) => ArchiverSteps.CreateKeeps(c, s, p, i);
    case WritePartial(p, content) => ArchiverSteps.WritePartialKeeps(c, s, p, content);
    case SyncPartial(p) => ArchiverSteps.SyncPartialKeeps(c, s, p);
    case Check(p) => ArchiverSteps.CheckKeeps(c, s, p);
    case Reject(p) => ArchiverSteps.RejectKeeps(c, s, p);
    case Publish(p) => ArchiverSteps.PublishKeeps(c, s, p);
    case DropPartial(p) => ArchiverSteps.DropPartialKeeps(c, s, p);
    case SyncParent(p) => ArchiverSteps.SyncParentKeeps(c, s, p);
    case SyncFilesystem(batch) => ArchiverSteps.SyncFilesystemKeeps(c, s, batch);
    case Journal(p) => ArchiverSteps.JournalKeeps(c, s, p);
    case SyncLine(p) => ArchiverSteps.SyncLineKeeps(c, s, p);
    case SyncLines(batch) => ArchiverSteps.SyncLinesKeeps(c, s, batch);
    case Remove(p) => ArchiverSteps.RemoveKeeps(c, s, p);
    case Finish(p) => ArchiverSteps.FinishKeeps(c, s, p);
    case Stop(p) => ArchiverSteps.StopKeeps(c, s, p);
  }

  lemma {:induction false} RunKeeps(c: Plan, states: seq<State>, k: nat)
    requires ValidPlan(c) && Run(c, states) && k < |states|
    ensures Inv(c, states[k])
    decreases k
  {
    hide ValidPlan, Inv, Next, Init;
    if k == 0 {
      InitInv(c, states[0]);
    } else {
      RunKeeps(c, states, k - 1);
      NextKeeps(c, states[k - 1], states[k]);
    }
  }

  // ---- After a crash ----

  /** The planned file is still there, byte for byte. */
  predicate Intact(c: Plan, after: Survivor, p: Path)
    requires p in c.inodes && p in c.contents
  {
    && Lookup(after.names, p) == Some(c.inodes[p])
    && c.inodes[p] in after.data && after.data[c.inodes[p]] == c.contents[p]
  }

  /** The file a name leads to. */
  function Content(after: Survivor, p: Path): Option<bytes> {
    if p in after.names && after.names[p] in after.data then Some(after.data[after.names[p]]) else None
  }

  /** What `restore` would write for `p`, all its checks passed. */
  function Restored(sha: bytes -> bytes, gunzip: bytes -> Option<bytes>, after: Survivor, journal: seq<Line>, p: Path)
    : Option<bytes>
  {
    match FirstVerified(journal, p)
    case None => None
    case Some(entry) =>
      if !Artifact(p) || entry.archive != Archive(p) then None
      else
        match Content(after, entry.archive)
        case None => None
        case Some(archive) =>
          if sha(archive) != entry.archiveSha || |archive| != entry.archiveBytes then None
          else
            match gunzip(archive)
            case None => None
            case Some(x) => if sha(x) != entry.originalSha || |x| != entry.originalBytes then None else Some(x)
  }

  /** At every moment of every run, with or without batches, a crash that loses everything not yet durable and
      any unsynced tail of the journal leaves each planned file in place, or free to be restored from a
      verified archive to exactly its bytes. */
  lemma CrashSafe(c: Plan, states: seq<State>, k: nat, after: Survivor, lines: nat, p: Path)
    requires ValidPlan(c) && Run(c, states) && k < |states| && p in c.inodes && p in c.contents
    requires Survives(states[k].disk, after) && states[k].durableLines <= lines <= |states[k].journal|
    ensures || Intact(c, after, p)
            || (p !in after.names
                && Restored(c.sha, c.gunzip, after, states[k].journal[..lines], p) == Some(c.contents[p]))
  {
    hide ValidPlan, Run, Artifact;
    RunKeeps(c, states, k);
    PlannedArtifact(c, p);
    CrashSafeFile(c, states[k], after, lines, p);
  }

  lemma PlannedArtifact(c: Plan, p: Path)
    requires ValidPlan(c) && p in c.inodes
    ensures Artifact(p)
  {
  }

  lemma CrashSafeFile(c: Plan, s: State, after: Survivor, lines: nat, p: Path)
    requires p in s.phase && p in c.inodes && p in c.contents && Artifact(p) && FileInv(c, s, p)
    requires Survives(s.disk, after) && s.durableLines <= lines <= |s.journal|
    ensures || Intact(c, after, p)
            || (p !in after.names && Restored(c.sha, c.gunzip, after, s.journal[..lines], p) == Some(c.contents[p]))
  {
    hide Artifact;
    assert MaySurvive(s.disk, p, Lookup(after.names, p));
    assert MaySurvive(s.disk, Archive(p), Lookup(after.names, Archive(p)));
    if RecordedUp(s.phase[p]) {
      FirstVerifiedExtends(s.journal, s.durableLines, lines, p);
    }
  }

  /** A durable line in the journal, and a durable archive that decompresses to the file. */
  ghost predicate DurablyArchived(c: Plan, s: State, p: Path)
    requires p in c.contents
  {
    && s.durableLines <= |s.journal| && FirstVerified(s.journal[..s.durableLines], p).Some?
    && p in s.temp
    && var t := s.temp[p];
    && t in s.disk.data && c.gunzip(s.disk.data[t]) == Some(c.contents[p]) && t in s.disk.settled
    && Fated(s.disk, Archive(p), Some(t))
  }

  /** Nothing is removed early: once a file's name is gone, or could be gone after a crash, it is durably archived. */
  lemma RemovedOnlyWhenRecoverable(c: Plan, states: seq<State>, k: nat, p: Path)
    requires ValidPlan(c) && Run(c, states) && k < |states| && p in c.inodes && p in c.contents
    ensures p !in states[k].disk.names || MaySurvive(states[k].disk, p, None) ==> DurablyArchived(c, states[k], p)
  {
    hide ValidPlan, Run, Artifact;
    RunKeeps(c, states, k);
    assert FileInv(c, states[k], p);
  }
}
