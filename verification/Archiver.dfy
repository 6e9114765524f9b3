/** The lossless archiver of scripts/dev/archive_completed.py as a state machine: any interleaving of its
    per-file steps, each of which may be the last before the machine stops. */
module Archiver {
  import opened Wrappers
  import opened Bytes
  import opened Disks

  // ---- Names ----

  predicate EndsWith(s: string, suffix: string) {
    |s| >= |suffix| && s[|s| - |suffix|..] == suffix
  }

  function Name(p: Path): string {
    p[LastSlash(p) + 1..]
  }

  /** File names the archiver may touch; the digits and roles inside a snapshot's name are not looked at here. */
  predicate Artifact(p: Path) {
    var name := Name(p);
    || name == "requests.jsonl"
    || (|name| >= 8 && name[..8] == "tensors-" && (EndsWith(name, ".bin") || EndsWith(name, ".json")))
  }

  function Archive(p: Path): Path {
    p + ".gz"
  }

  function Partial(p: Path): Path {
    p + ".gz.partial"
  }

  // ---- The plan and the journal ----

  /** What is to be archived. Hashing and decompression are any functions. */
  datatype Plan = Plan(inodes: map<Path, Inode>, contents: map<Path, bytes>, batched: bool,
                       sha: bytes -> bytes, gunzip: bytes -> Option<bytes>)

  /** Distinct regular files with one link each, and a hash taken to be free of collisions. */
  ghost predicate ValidPlan(c: Plan) {
    && c.inodes.Keys == c.contents.Keys
    && (forall p :: p in c.inodes ==> Artifact(p))
    && (forall p, q :: p in c.inodes && q in c.inodes && p != q ==> c.inodes[p] != c.inodes[q])
    && (forall x, y :: c.sha(x) == c.sha(y) ==> x == y)
  }

  datatype Detail = Detail(path: Path, archive: Path, originalSha: bytes, archiveSha: bytes,
                           originalBytes: nat, archiveBytes: nat)

  datatype Line = Verified(detail: Detail) | Archived(detail: Detail) | NoSaving(path: Path, size: nat)

  /** The line that a restoration of `p` will use. */
  function FirstVerified(journal: seq<Line>, p: Path): Option<Detail> {
    if journal == [] then None
    else if journal[0].Verified? && journal[0].detail.path == p then Some(journal[0].detail)
    else FirstVerified(journal[1..], p)
  }

  // ---- States ----

  /** How far the work on one file has come. */
  datatype Phase =
    | Waiting | Created | Written | Flushed | Checked
    | Rejecting | Rejected | Skipped
    | Linked | Cleared | Published | Journaled | Recorded | Removed | RemovalSynced | Done

  datatype State = State(disk: Disk, phase: map<Path, Phase>, temp: map<Path, Inode>, detail: map<Path, Detail>,
                         stopped: set<Path>, journal: seq<Line>, durableLines: nat)

  datatype Step =
    | Create(p: Path, i: Inode)
    | WritePartial(p: Path, content: bytes)
    | SyncPartial(p: Path)
    | Check(p: Path)
    | Reject(p: Path)
    | Publish(p: Path)
    | DropPartial(p: Path)
    | SyncParent(p: Path)
    | SyncFilesystem(batch: set<Path>)
    | Journal(p: Path)
    | SyncLine(p: Path)
    | SyncLines(batch: set<Path>)
    | Remove(p: Path)
    | Finish(p: Path)
    | Stop(p: Path)

  predicate AnyInode(d: Disk, i: Inode) {
    i in d.data || i in d.settled || i in d.names.Values
  }

  predicate Init(c: Plan, s: State) {
    && s.phase.Keys == c.inodes.Keys && (forall p :: p in s.phase ==> s.phase[p] == Waiting)
    && s.temp == map[] && s.detail == map[] && s.stopped == {} && s.journal == [] && s.durableLines == 0 && s.disk.dirty == {}
    && c.inodes.Keys == c.contents.Keys
    && forall p :: p in c.inodes ==>
         var i := c.inodes[p];
         && Lookup(s.disk.names, p) == Some(i) && Lookup(s.disk.durable, p) == Some(i)
         && i in s.disk.data && s.disk.data[i] == c.contents[p] && i in s.disk.settled
  }

  /** The file is still the planned one: `fingerprint`. */
  predicate SameFile(c: Plan, d: Disk, p: Path)
    requires p in c.inodes && p in c.contents
  {
    Lookup(d.names, p) == Some(c.inodes[p]) && c.inodes[p] in d.data && |d.data[c.inodes[p]]| == |c.contents[p]|
  }

  /** The comparison of hashes and sizes between the partial archive, read back, and the file, read again. */
  predicate ReadsBack(c: Plan, d: Disk, p: Path, t: Inode)
    requires p in c.inodes && p in c.contents
  {
    && SameFile(c, d, p) && t in d.data && c.gunzip(d.data[t]).Some?
    && var restored, current := c.gunzip(d.data[t]).value, d.data[c.inodes[p]];
    c.sha(restored) == c.sha(current) && |restored| == |c.contents[p]|
  }

  function DetailOf(c: Plan, d: Disk, p: Path, t: Inode): Detail
    requires p in c.inodes && c.inodes[p] in d.data && t in d.data
  {
    var (original, archive) := (d.data[c.inodes[p]], d.data[t]);
    Detail(p, Archive(p), c.sha(original), c.sha(archive), |original|, |archive|)
  }

  predicate At(s: State, p: Path, f: Phase) {
    p in s.phase && s.phase[p] == f && p !in s.stopped
  }

  function SetPhase(s: State, p: Path, f: Phase): State {
    s.(phase := s.phase[p := f])
  }

  /** The files of a batch that are at `from` go to `to`. */
  function MoveAll(phase: map<Path, Phase>, batch: set<Path>, from: Phase, to: Phase): map<Path, Phase> {
    map p | p in phase :: if p in batch && phase[p] == from then to else phase[p]
  }

  predicate Planned(c: Plan, s: State) {
    forall p :: p in s.phase ==> p in c.inodes && p in c.contents
  }

  /** What the code has seen to before each step. */
  ghost predicate Enabled(c: Plan, s: State, step: Step) {
    && Planned(c, s)
    && match step
       case Create(p, i) =>
         && At(s, p, Waiting) && SameFile(c, s.disk, p) && !AnyInode(s.disk, i)
         && Archive(p) !in s.disk.names && Partial(p) !in s.disk.names
       case WritePartial(p, _) => At(s, p, Created) && p in s.temp
       case SyncPartial(p) => At(s, p, Written) && p in s.temp && !c.batched
       case Check(p) =>
         && At(s, p, if c.batched then Written else Flushed) && p in s.temp && ReadsBack(c, s.disk, p, s.temp[p])
       case Reject(p) =>
         && At(s, p, Checked) && p in s.temp && s.temp[p] in s.disk.data
         && |s.disk.data[s.temp[p]]| >= |c.contents[p]|
       case Publish(p) =>
         && At(s, p, Checked) && p in s.temp && s.temp[p] in s.disk.data
         && |s.disk.data[s.temp[p]]| < |c.contents[p]| && Archive(p) !in s.disk.names
         && c.inodes[p] in s.disk.data
       case DropPartial(p) => At(s, p, Linked) || At(s, p, Rejected)
       case SyncParent(p) => (At(s, p, Cleared) || At(s, p, Removed)) && !c.batched
       case SyncFilesystem(batch) => c.batched && forall p :: p in batch ==> At(s, p, Cleared) || At(s, p, Skipped)
       case Journal(p) => At(s, p, Published) && p in s.detail
       case SyncLine(p) => At(s, p, Rejecting) || (!c.batched && (At(s, p, Journaled) || At(s, p, Done)))
       case SyncLines(batch) =>
         && c.batched
         && ((forall p :: p in batch ==> At(s, p, Journaled) || At(s, p, Skipped))
             || (forall p :: p in batch ==> At(s, p, Done) || At(s, p, Skipped)))
       case Remove(p) => At(s, p, Recorded) && SameFile(c, s.disk, p)
       case Finish(p) => At(s, p, if c.batched then Removed else RemovalSynced) && p in s.detail
       case Stop(p) => p in s.phase
  }

  /** The state after a step. */
  function Apply(c: Plan, s: State, step: Step): State
    requires Enabled(c, s, step)
  {
    match step
    case Create(p, i) =>
      SetPhase(s, p, Created).(disk := SetName(SetData(s.disk, i, []), Partial(p), Some(i)), temp := s.temp[p := i])
    case WritePartial(p, content) => SetPhase(s, p, Written).(disk := SetData(s.disk, s.temp[p], content))
    case SyncPartial(p) => SetPhase(s, p, Flushed).(disk := SyncFile(s.disk, s.temp[p]))
    case Check(p) => SetPhase(s, p, Checked)
    case Reject(p) =>
      SetPhase(s, p, Rejecting).(journal := s.journal + [NoSaving(p, |c.contents[p]|)])
    case Publish(p) =>
      SetPhase(s, p, Linked).(disk := SetName(s.disk, Archive(p), Some(s.temp[p])),
                              detail := s.detail[p := DetailOf(c, s.disk, p, s.temp[p])])
    case DropPartial(p) =>
      SetPhase(s, p, if s.phase[p] == Linked then Cleared else Skipped).(disk := SetName(s.disk, Partial(p), None))
    case SyncParent(p) =>
      SetPhase(s, p, if s.phase[p] == Cleared then Published else RemovalSynced)
      .(disk := SyncDirectory(s.disk, Parent(p)))
    case SyncFilesystem(batch) =>
      s.(disk := SyncAll(s.disk), phase := MoveAll(s.phase, batch, Cleared, Published))
    case Journal(p) => SetPhase(s, p, Journaled).(journal := s.journal + [Verified(s.detail[p])])
    case SyncLine(p) =>
      SetPhase(s, p, if s.phase[p] == Rejecting then Rejected else if s.phase[p] == Journaled then Recorded else Done)
      .(durableLines := |s.journal|)
    case SyncLines(batch) =>
      s.(durableLines := |s.journal|, phase := MoveAll(s.phase, batch, Journaled, Recorded))
    case Remove(p) => SetPhase(s, p, Removed).(disk := SetName(s.disk, p, None))
    case Finish(p) => SetPhase(s, p, Done).(journal := s.journal + [Archived(s.detail[p])])
    case Stop(p) => s.(stopped := s.stopped + {p})
  }

  /** A run of the archiver, whatever the interleaving and wherever it ends. */
  ghost predicate Run(c: Plan, states: seq<State>) {
    && states != [] && Init(c, states[0])
    && forall k {:trigger states[k]} :: 0 < k < |states| ==> Next(c, states[k - 1], states[k])
  }

  ghost predicate Next(c: Plan, s: State, t: State) {
    exists step :: Enabled(c, s, step) && t == Apply(c, s, step)
  }
}
