/** `archive_one` and the loops of `apply`, statement by statement: each call they make is a step of the machine,
    so whatever holds of every run holds of them wherever they stop. */
module ArchiverRun {
  import opened Wrappers
  import opened Bytes
  import opened Disks
  import opened Archiver
  import opened ArchiverSafety
  import ArchiverRecovery

  datatype Ending = Archived | Prepared | Retained | Raised

  lemma RunOn(c: Plan, trace: seq<State>, t: State, step: Step)
    requires Run(c, trace) && Enabled(c, trace[|trace| - 1], step) && t == Apply(c, trace[|trace| - 1], step)
    ensures Run(c, trace + [t])
  {
    hide Init, Enabled, Apply;
    assert Next(c, trace[|trace| - 1], t);
    hide Next;
  }

  class Machine {
    const plan: Plan
    var state: State
    /** Every state so far. */
    ghost var trace: seq<State>

    constructor (plan: Plan, disk: Disk)
      requires ValidPlan(plan)
      requires Init(plan, State(disk, map p | p in plan.inodes :: Waiting, map[], map[], {}, [], 0))
      ensures Valid() && this.plan == plan && state.disk == disk && |trace| == 1
      ensures state.phase.Keys == plan.inodes.Keys && state.stopped == {}
      ensures forall p :: p in state.phase ==> state.phase[p] == Waiting
    {
      this.plan := plan;
      state := State(disk, map p | p in plan.inodes :: Waiting, map[], map[], {}, [], 0);
      trace := [State(disk, map p | p in plan.inodes :: Waiting, map[], map[], {}, [], 0)];
    }

    /** What happened so far is a run of the archiver. */
    ghost predicate Valid()
      reads this
    {
      ValidPlan(plan) && Run(plan, trace) && trace[|trace| - 1] == state
    }

    method Do(step: Step)
      requires Valid() && Enabled(plan, state, step)
      modifies this
      ensures Valid() && state == Apply(plan, old(state), step) && old(trace) < trace
    {
      hide ValidPlan, Init, Enabled, Apply;
      ghost var before := state;
      state := Apply(plan, state, step);
      RunOn(plan, trace, state, step);
      trace := trace + [state];
    }

    lemma PlanValid()
      requires Valid()
      ensures ValidPlan(plan)
    {
    }

    /** What is known between steps. */
    lemma Known()
      requires Valid()
      ensures Inv(plan, state)
    {
      ArchiverRecovery.RunKeeps(plan, trace, |trace| - 1);
    }
  }

  method Above(used: set<nat>) returns (bound: nat)
    ensures forall j :: j in used ==> j < bound
  {
    bound := 0;
    var rest := used;
    while rest != {}
      invariant forall j :: j in used && j !in rest ==> j < bound
      decreases |rest|
    {
      var j: nat :| j in rest;
      if j >= bound {
        bound := j + 1;
      }
      rest := rest - {j};
    }
  }

  /** An inode number in use nowhere. */
  method UnusedInode(d: Disk) returns (i: Inode)
    ensures !AnyInode(d, i)
  {
    var a := Above(d.data.Keys);
    var b := Above(d.settled);
    var c := Above(d.names.Values);
    i := a + b + c;
  }

  // ---- Each step is possible when the code takes it ----

  /** The effect of a step on the progress of the work. */
  ghost predicate Moves(c: Plan, s: State, step: Step, p: Path, to: Phase) {
    Enabled(c, s, step) && Apply(c, s, step).phase == s.phase[p := to] && Apply(c, s, step).stopped == s.stopped
  }

  /** What the invariant says about the records kept of `p`. */
  lemma Facts(c: Plan, s: State, p: Path)
    requires Inv(c, s) && p in s.phase
    ensures Planned(c, s)
    ensures p in c.inodes && p in c.contents && c.inodes[p] in s.disk.data
    ensures s.phase[p] != Waiting ==> p in s.temp && s.temp[p] in s.disk.data
    ensures LinkedUp(s.phase[p]) ==> p in s.detail
  {
    hide Fated, Leftover, Separate, Artifact;
    assert FileInv(c, s, p);
  }

  /** Where a step about one file finds it, and where it leaves it. */
  predicate Goes(c: Plan, step: Step, from: Phase, to: Phase) {
    match step
    case Create(_, _) => from == Waiting && to == Created
    case WritePartial(_, _) => from == Created && to == Written
    case SyncPartial(_) => !c.batched && from == Written && to == Flushed
    case Check(_) => from == (if c.batched then Written else Flushed) && to == Checked
    case Reject(_) => from == Checked && to == Rejecting
    case Publish(_) => from == Checked && to == Linked
    case DropPartial(_) => (from == Linked && to == Cleared) || (from == Rejected && to == Skipped)
    case SyncParent(_) => !c.batched && ((from == Cleared && to == Published) || (from == Removed && to == RemovalSynced))
    case Journal(_) => from == Published && to == Journaled
    case SyncLine(_) =>
      || (from == Rejecting && to == Rejected)
      || (!c.batched && ((from == Journaled && to == Recorded) || (from == Done && to == Done)))
    case Remove(_) => from == Recorded && to == Removed
    case Finish(_) => from == (if c.batched then Removed else RemovalSynced) && to == Done
    case _ => false
  }

  /** What the code looks at before a step. */
  ghost predicate Seen(c: Plan, s: State, step: Step) {
    match step
    case Create(p, i) =>
      && p in c.inodes && p in c.contents && SameFile(c, s.disk, p) && !AnyInode(s.disk, i)
      && Archive(p) !in s.disk.names && Partial(p) !in s.disk.names
    case Check(p) => p in c.inodes && p in c.contents && p in s.temp && ReadsBack(c, s.disk, p, s.temp[p])
    case Reject(p) =>
      p in c.contents && p in s.temp && s.temp[p] in s.disk.data && |s.disk.data[s.temp[p]]| >= |c.contents[p]|
    case Publish(p) =>
      && p in c.contents && p in s.temp && s.temp[p] in s.disk.data && |s.disk.data[s.temp[p]]| < |c.contents[p]|
      && Archive(p) !in s.disk.names
    case Remove(p) => p in c.inodes && p in c.contents && SameFile(c, s.disk, p)
    case _ => true
  }

  /** A step about a file that stands where the step finds files is possible once the code has seen what it looks at. */
  lemma Possible(c: Plan, s: State, step: Step, from: Phase, to: Phase)
    requires Inv(c, s) && Goes(c, step, from, to) && At(s, step.p, from) && Seen(c, s, step)
    ensures Enabled(c, s, step)
  {
    hide Inv, Planned, ReadsBack, SameFile, AnyInode, Archive, Partial;
    Facts(c, s, step.p);
  }

  /** It moves that file on and touches the progress of no other. */
  lemma Effect(c: Plan, s: State, step: Step, from: Phase, to: Phase)
    requires Enabled(c, s, step) && Goes(c, step, from, to) && At(s, step.p, from)
    ensures Moves(c, s, step, step.p, to)
  {
    hide Planned, SameFile, ReadsBack, AnyInode, SyncDirectory, Parent, SetName, SetData, SyncFile, SyncAll, MoveAll, DetailOf,
      Archive, Partial;
  }

  /** What a step does to names, contents and journal, in full. */
  ghost predicate Shows(c: Plan, s: State, step: Step, t: State) {
    match step
    case Create(p, i) =>
      && t.disk.names == s.disk.names[Partial(p) := i] && t.disk.data == s.disk.data[i := []]
      && t.temp == s.temp[p := i] && t.detail == s.detail && t.journal == s.journal
    case WritePartial(p, content) =>
      && p in s.temp && t.disk.names == s.disk.names && t.disk.data == s.disk.data[s.temp[p] := content]
      && t.temp == s.temp && t.detail == s.detail && t.journal == s.journal
    case Reject(p) =>
      && p in c.contents && SameDisk(s, t) && t.detail == s.detail && t.journal == s.journal + [NoSaving(p, |c.contents[p]|)]
    case Publish(p) =>
      && p in s.temp && s.temp[p] in s.disk.data && p in c.inodes && c.inodes[p] in s.disk.data
      && t.disk.names == s.disk.names[p + ".gz" := s.temp[p]] && t.disk.data == s.disk.data && t.temp == s.temp
      && t.detail == s.detail[p := RecordOf(c, s.disk.data[c.inodes[p]], s.disk.data[s.temp[p]], p)] && t.journal == s.journal
    case DropPartial(p) =>
      && t.disk.names == s.disk.names - {p + ".gz.partial"} && t.disk.data == s.disk.data && t.temp == s.temp
      && t.detail == s.detail && t.journal == s.journal
    case Journal(p) =>
      p in s.detail && SameDisk(s, t) && t.detail == s.detail && t.journal == s.journal + [Verified(s.detail[p])]
    case Remove(p) =>
      && t.disk.names == s.disk.names - {p} && t.disk.data == s.disk.data && t.temp == s.temp
      && t.detail == s.detail && t.journal == s.journal
    case Finish(p) =>
      p in s.detail && SameDisk(s, t) && t.detail == s.detail && t.journal == s.journal + [Line.Archived(s.detail[p])]
    case _ => SameDisk(s, t) && t.detail == s.detail && t.journal == s.journal
  }

  predicate SameDisk(s: State, t: State) {
    t.disk.names == s.disk.names && t.disk.data == s.disk.data && t.temp == s.temp
  }

  /** The recovery record of a file that was `original` and is archived as `archive`. */
  function RecordOf(c: Plan, original: bytes, archive: bytes, p: Path): Detail {
    Detail(p, p + ".gz", c.sha(original), c.sha(archive), |original|, |archive|)
  }

  lemma StepShows(c: Plan, s: State, step: Step)
    requires Enabled(c, s, step)
    ensures Shows(c, s, step, Apply(c, s, step))
  {
    hide SameFile, ReadsBack, AnyInode, Parent, MoveAll;
  }

  // ---- archive_one ----

  /** Only the progress of `p` changed. */
  predicate Progress(s: State, t: State, p: Path) {
    && t.stopped == s.stopped && t.phase.Keys == s.phase.Keys
    && forall q :: q in s.phase && q != p ==> t.phase[q] == s.phase[q]
  }

  lemma ProgressOn(s: State, t: State, u: State, p: Path)
    requires Progress(s, t, p) && Progress(t, u, p)
    ensures Progress(s, u, p)
  {
  }

  lemma ProgressNone(s: State, p: Path)
    ensures Progress(s, s, p)
  {
  }

  /** One more step about a file, after others about it since `start`. */
  method Advance(m: Machine, step: Step, ghost from: Phase, ghost to: Phase, ghost start: State)
    requires m.Valid() && Inv(m.plan, m.state)
    requires Goes(m.plan, step, from, to) && At(m.state, step.p, from) && Seen(m.plan, m.state, step)
    requires Progress(start, m.state, step.p) && step.p !in start.stopped
    modifies m
    ensures m.Valid() && Inv(m.plan, m.state) && old(m.trace) < m.trace
    ensures At(m.state, step.p, to) && Progress(start, m.state, step.p)
    ensures Shows(m.plan, old(m.state), step, m.state)
  {
    hide Enabled, Apply, Inv, Moves, Progress, Machine.Valid, Seen, Shows;
    Possible(m.plan, m.state, step, from, to);
    Effect(m.plan, m.state, step, from, to);
    StepShows(m.plan, m.state, step);
    MovesOn(m.plan, start, m.state, step, step.p, to);
    m.Do(step);
    m.Known();
  }

  lemma MovesOn(c: Plan, start: State, s: State, step: Step, p: Path, to: Phase)
    requires p in s.phase && Moves(c, s, step, p, to) && Progress(start, s, p) && p !in start.stopped
    ensures Enabled(c, s, step) && At(Apply(c, s, step), p, to) && Progress(start, Apply(c, s, step), p)
  {
    hide Enabled, Apply;
  }

  /** The names a file's archive needs are free, and the file is the planned one. */
  predicate Ready(c: Plan, d: Disk, p: Path) {
    && p in c.inodes && p in c.contents && SameFile(c, d, p)
    && p + ".gz" !in d.names && p + ".gz.partial" !in d.names
  }

  /** Reading `content` back gives as many bytes as planned, with the hash of the file. */
  predicate Faithful(c: Plan, d: Disk, p: Path, content: bytes) {
    && p in c.inodes && p in c.contents && c.inodes[p] in d.data && c.gunzip(content).Some?
    && c.sha(c.gunzip(content).value) == c.sha(d.data[c.inodes[p]]) && |c.gunzip(content).value| == |c.contents[p]|
  }

  /** The file can be archived as `content`: nothing in `archive_one` raises. */
  predicate Archivable(c: Plan, s: State, p: Path, content: bytes) {
    Ready(c, s.disk, p) && Faithful(c, s.disk, p, content)
  }

  /** A new partial holding `content`, and nothing else. */
  predicate Deposited(s: State, t: State, p: Path, content: bytes) {
    && p in t.temp && t.temp[p] !in s.disk.data
    && t.disk.names == s.disk.names[p + ".gz.partial" := t.temp[p]] && t.disk.data == s.disk.data[t.temp[p] := content]
    && t.detail == s.detail && t.journal == s.journal
  }

  /** `archive_one` from the first checks to the compressed partial; `content` is what compression wrote. */
  method Deposit(m: Machine, p: Path, content: bytes) returns (ok: bool)
    requires m.Valid() && At(m.state, p, Waiting)
    modifies m
    ensures m.Valid() && Inv(m.plan, m.state) && Progress(old(m.state), m.state, p) && old(m.trace) <= m.trace
    ensures ok <==> Ready(m.plan, old(m.state).disk, p)
    ensures ok ==> At(m.state, p, if m.plan.batched then Written else Flushed)
    ensures if ok then Deposited(old(m.state), m.state, p, content) else m.state == old(m.state)
  {
    hide Enabled, Apply, Inv, ReadsBack, SameFile, AnyInode, Machine.Valid, Progress, Moves, Shows, Deposited;
    ghost var start := m.state;
    ProgressNone(start, p);
    m.Known();
    Facts(m.plan, m.state, p);
    var i := UnusedInode(m.state.disk);
    NotInData(m.state.disk, i);
    if !SameFile(m.plan, m.state.disk, p) || Archive(p) in m.state.disk.names || Partial(p) in m.state.disk.names {
      return false;
    }
    Advance(m, Create(p, i), Waiting, Created, start);
    ghost var created := m.state;
    Advance(m, WritePartial(p, content), Created, Written, start);
    WrittenShown(m.plan, start, created, m.state, p, i, content);
    if !m.plan.batched {
      ghost var written := m.state;
      Advance(m, SyncPartial(p), Written, Flushed, start);
      FlushedShown(m.plan, start, written, m.state, p, content);
    }
    ok := true;
  }

  lemma WrittenShown(c: Plan, s: State, u: State, t: State, p: Path, i: Inode, content: bytes)
    requires Shows(c, s, Create(p, i), u) && Shows(c, u, WritePartial(p, content), t) && i !in s.disk.data
    ensures Deposited(s, t, p, content)
  {
  }

  lemma FlushedShown(c: Plan, s: State, u: State, t: State, p: Path, content: bytes)
    requires Deposited(s, u, p, content) && Shows(c, u, SyncPartial(p), t)
    ensures Deposited(s, t, p, content)
  {
  }

  lemma NotInData(d: Disk, i: Inode)
    requires !AnyInode(d, i)
    ensures i !in d.data
  {
  }

  /** Reading the deposited partial back is reading `content` back. */
  lemma DepositedReads(c: Plan, s: State, t: State, p: Path, content: bytes)
    requires p in c.inodes && p in c.contents && c.inodes[p] in s.disk.data && SameFile(c, s.disk, p)
    requires Deposited(s, t, p, content)
    ensures ReadsBack(c, t.disk, p, t.temp[p]) <==> Faithful(c, s.disk, p, content)
    ensures SameFile(c, t.disk, p) && t.temp[p] in t.disk.data && t.disk.data[t.temp[p]] == content
    ensures p + ".gz" in t.disk.names <==> p + ".gz" in s.disk.names
  {
    assert |p + ".gz"| == |p| + 3 && |p + ".gz.partial"| == |p| + 11;
  }

  /** How far `archive_one` gets before the original is touched. */
  function Outcome(c: Plan, s: State, p: Path, content: bytes): Ending {
    if !Archivable(c, s, p, content) then Raised
    else if |content| >= |c.contents[p]| then Retained
    else Prepared
  }

  /** What is left: an unpublished partial or nothing new, the original and a line that says so, or a published
      archive with its record. */
  ghost predicate Left(c: Plan, s: State, t: State, p: Path, content: bytes, ending: Ending) {
    match ending
    case Raised => t == s || Deposited(s, t, p, content)
    case Retained =>
      && p in t.temp && p in c.contents && t.temp[p] !in s.disk.data
      && t.disk.names == s.disk.names && t.disk.data == s.disk.data[t.temp[p] := content]
      && t.detail == s.detail && t.journal == s.journal + [NoSaving(p, |c.contents[p]|)]
    case _ =>
      && p in t.temp && t.temp[p] !in s.disk.data && p in c.inodes && c.inodes[p] in s.disk.data
      && t.disk.names == s.disk.names[p + ".gz" := t.temp[p]] && t.disk.data == s.disk.data[t.temp[p] := content]
      && t.detail == s.detail[p := RecordOf(c, s.disk.data[c.inodes[p]], content, p)] && t.journal == s.journal
  }

  /** `archive_one` up to the published archive. */
  method Compress(m: Machine, p: Path, content: bytes) returns (ending: Ending)
    requires m.Valid() && At(m.state, p, Waiting)
    modifies m
    ensures m.Valid() && Progress(old(m.state), m.state, p) && old(m.trace) <= m.trace
    ensures ending == Outcome(m.plan, old(m.state), p, content)
    ensures Left(m.plan, old(m.state), m.state, p, content, ending)
    ensures ending == Prepared ==> At(m.state, p, Cleared)
    ensures ending == Retained ==> At(m.state, p, Skipped)
  {
    hide Enabled, Apply, Inv, ReadsBack, SameFile, AnyInode, Machine.Valid, Moves, Progress, Faithful, Ready, Goes, Seen, Shows,
      Deposited, Left, LinkLeaves;
    ghost var start := m.state;
    AtStart(start, p);
    m.Known();
    Facts(m.plan, m.state, p);
    var ok := Deposit(m, p, content);
    NothingLeft(m.plan, start, m.state, p, content);
    if !ok {
      return Raised;
    }
    ReadyFile(m.plan, start.disk, p);
    DepositedReads(m.plan, start, m.state, p, content);
    if !ReadsBack(m.plan, m.state.disk, p, m.state.temp[p]) {
      return Raised;
    }
    MayCheck(m.plan, m.state, p);
    ghost var deposited := m.state;
    Advance(m, Check(p), if m.plan.batched then Written else Flushed, Checked, start);
    ghost var checked := m.state;
    CheckedShown(m.plan, start, deposited, checked, p, content);
    ending := Link(m, p);
    ProgressOn(start, checked, m.state, p);
    LinkedLeft(m.plan, start, checked, m.state, p, content, ending);
  }

  lemma NothingLeft(c: Plan, s: State, t: State, p: Path, content: bytes)
    ensures t == s || Deposited(s, t, p, content) ==> Left(c, s, t, p, content, Raised)
    ensures Deposited(s, t, p, content) ==> p in t.temp
  {
  }

  lemma ReadyFile(c: Plan, d: Disk, p: Path)
    requires Ready(c, d, p)
    ensures p in c.inodes && p in c.contents && SameFile(c, d, p) && p + ".gz" !in d.names && p + ".gz.partial" !in d.names
  {
  }

  lemma MayCheck(c: Plan, s: State, p: Path)
    requires p in c.inodes && p in c.contents && p in s.temp && ReadsBack(c, s.disk, p, s.temp[p])
    ensures Goes(c, Check(p), if c.batched then Written else Flushed, Checked) && Seen(c, s, Check(p))
  {
  }

  lemma CheckedShown(c: Plan, s: State, u: State, t: State, p: Path, content: bytes)
    requires Deposited(s, u, p, content) && Shows(c, u, Check(p), t)
    ensures Deposited(s, t, p, content) && t.temp == u.temp && t.disk.data == u.disk.data && t.disk.names == u.disk.names
  {
  }

  lemma LinkedLeft(c: Plan, s: State, d: State, t: State, p: Path, content: bytes, ending: Ending)
    requires Deposited(s, d, p, content) && LinkLeaves(c, d, t, p, ending) && p in c.inodes && c.inodes[p] in s.disk.data
    requires p + ".gz" !in s.disk.names && p + ".gz.partial" !in s.disk.names && ending != Raised
    ensures Left(c, s, t, p, content, ending)
  {
    assert |p + ".gz"| == |p| + 3 && |p + ".gz.partial"| == |p| + 11;
    assert s.disk.names[p + ".gz.partial" := d.temp[p]] - {p + ".gz.partial"} == s.disk.names;
    assert s.disk.names[p + ".gz.partial" := d.temp[p]][p + ".gz" := d.temp[p]] - {p + ".gz.partial"}
        == s.disk.names[p + ".gz" := d.temp[p]];
  }

  /** What linking leaves: the partial gone, with a line that nothing is saved or under the archive's name. */
  ghost predicate LinkLeaves(c: Plan, s: State, t: State, p: Path, ending: Ending) {
    && t.temp == s.temp && t.disk.data == s.disk.data && p in s.temp && s.temp[p] in s.disk.data && p in c.contents
    && match ending
       case Raised => t == s
       case Retained =>
         && t.disk.names == s.disk.names - {p + ".gz.partial"}
         && t.detail == s.detail && t.journal == s.journal + [NoSaving(p, |c.contents[p]|)]
       case _ =>
         && p in c.inodes && c.inodes[p] in s.disk.data
         && t.disk.names == s.disk.names[p + ".gz" := s.temp[p]] - {p + ".gz.partial"}
         && t.detail == s.detail[p := RecordOf(c, s.disk.data[c.inodes[p]], s.disk.data[s.temp[p]], p)]
         && t.journal == s.journal
  }

  /** `archive_one` from the verified partial to the name of the archive, or to its rejection. */
  method Link(m: Machine, p: Path) returns (ending: Ending)
    requires m.Valid() && At(m.state, p, Checked)
    modifies m
    ensures m.Valid() && Progress(old(m.state), m.state, p) && old(m.trace) <= m.trace
    ensures p in old(m.state).temp && old(m.state).temp[p] in old(m.state).disk.data && p in m.plan.contents
    ensures ending == if |old(m.state).disk.data[old(m.state).temp[p]]| >= |m.plan.contents[p]| then Retained
                      else if p + ".gz" in old(m.state).disk.names then Raised
                      else Prepared
    ensures LinkLeaves(m.plan, old(m.state), m.state, p, ending)
    ensures ending == Prepared ==> At(m.state, p, Cleared)
    ensures ending == Retained ==> At(m.state, p, Skipped)
  {
    hide Enabled, Apply, Inv, Machine.Valid, Progress, Goes, Seen;
    ProgressNone(m.state, p);
    m.Known();
    Facts(m.plan, m.state, p);
    if |m.state.disk.data[m.state.temp[p]]| >= |m.plan.contents[p]| {
      RejectPartial(m, p);
      return Retained;
    }
    if Archive(p) in m.state.disk.names {
      return Raised;
    }
    PublishPartial(m, p);
    ending := Prepared;
  }

  method RejectPartial(m: Machine, p: Path)
    requires m.Valid() && Inv(m.plan, m.state) && At(m.state, p, Checked)
    requires p in m.state.temp && m.state.temp[p] in m.state.disk.data && p in m.plan.contents
    requires |m.state.disk.data[m.state.temp[p]]| >= |m.plan.contents[p]|
    modifies m
    ensures m.Valid() && Progress(old(m.state), m.state, p) && old(m.trace) <= m.trace && At(m.state, p, Skipped)
    ensures LinkLeaves(m.plan, old(m.state), m.state, p, Retained)
  {
    hide Enabled, Apply, Inv, Machine.Valid, Moves, Progress, Shows, LinkLeaves;
    ghost var start := m.state;
    ProgressNone(start, p);
    Advance(m, Reject(p), Checked, Rejecting, start);
    ghost var rejecting := m.state;
    Advance(m, SyncLine(p), Rejecting, Rejected, start);
    ghost var rejected := m.state;
    Advance(m, DropPartial(p), Rejected, Skipped, start);
    RejectShown(m.plan, start, rejecting, rejected, m.state, p);
  }

  lemma RejectShown(c: Plan, s: State, u: State, v: State, t: State, p: Path)
    requires Shows(c, s, Reject(p), u) && Shows(c, u, SyncLine(p), v) && Shows(c, v, DropPartial(p), t)
    requires p in s.temp && s.temp[p] in s.disk.data
    ensures LinkLeaves(c, s, t, p, Retained)
  {
  }

  method PublishPartial(m: Machine, p: Path)
    requires m.Valid() && Inv(m.plan, m.state) && At(m.state, p, Checked)
    requires p in m.state.temp && m.state.temp[p] in m.state.disk.data && p in m.plan.contents
    requires |m.state.disk.data[m.state.temp[p]]| < |m.plan.contents[p]| && Archive(p) !in m.state.disk.names
    modifies m
    ensures m.Valid() && Progress(old(m.state), m.state, p) && old(m.trace) <= m.trace && At(m.state, p, Cleared)
    ensures LinkLeaves(m.plan, old(m.state), m.state, p, Prepared)
  {
    hide Enabled, Apply, Inv, Machine.Valid, Moves, Progress;
    ghost var start := m.state;
    ProgressNone(start, p);
    Advance(m, Publish(p), Checked, Linked, start);
    Advance(m, DropPartial(p), Linked, Cleared, start);
  }

  /** What a step leaves the journal and the disk as, but for one line. */
  predicate Adds(s: State, t: State, line: Line) {
    SameDisk(s, t) && t.detail == s.detail && t.journal == s.journal + [line]
  }

  /** The durable name and the durable recovery line of a published archive. */
  method Register(m: Machine, p: Path)
    requires m.Valid() && At(m.state, p, Cleared) && !m.plan.batched
    modifies m
    ensures m.Valid() && Inv(m.plan, m.state) && Progress(old(m.state), m.state, p) && old(m.trace) <= m.trace
    ensures At(m.state, p, Recorded)
    ensures p in old(m.state).detail && Adds(old(m.state), m.state, Verified(old(m.state).detail[p]))
  {
    hide Enabled, Apply, Inv, Machine.Valid, Moves, Progress;
    ghost var start := m.state;
    ProgressNone(start, p);
    m.Known();
    Advance(m, SyncParent(p), Cleared, Published, start);
    Advance(m, Journal(p), Published, Journaled, start);
    Advance(m, SyncLine(p), Journaled, Recorded, start);
  }

  /** The original gone, with a line that says so. */
  predicate Retired(s: State, t: State, p: Path) {
    && t.disk.names == s.disk.names - {p} && t.disk.data == s.disk.data && t.temp == s.temp
    && p in s.detail && t.detail == s.detail && t.journal == s.journal + [Line.Archived(s.detail[p])]
  }

  /** The end of `archive_one`: the original goes, if it is still the planned file. */
  method Retire(m: Machine, p: Path) returns (ending: Ending)
    requires m.Valid() && Inv(m.plan, m.state) && At(m.state, p, Recorded) && !m.plan.batched
    modifies m
    ensures m.Valid() && Progress(old(m.state), m.state, p) && old(m.trace) <= m.trace
    ensures p in m.plan.inodes && p in m.plan.contents
    ensures ending == if SameFile(m.plan, old(m.state).disk, p) then Ending.Archived else Raised
    ensures ending == Ending.Archived ==> At(m.state, p, Done) && Retired(old(m.state), m.state, p)
    ensures ending == Raised ==> m.state == old(m.state)
  {
    hide Enabled, Apply, Inv, SameFile, Machine.Valid, Moves, Progress;
    ghost var start := m.state;
    ProgressNone(start, p);
    Facts(m.plan, m.state, p);
    if !SameFile(m.plan, m.state.disk, p) {
      return Raised;
    }
    Advance(m, Remove(p), Recorded, Removed, start);
    Advance(m, SyncParent(p), Removed, RemovalSynced, start);
    Advance(m, Finish(p), RemovalSynced, Done, start);
    Advance(m, SyncLine(p), Done, Done, start);
    ending := Ending.Archived;
  }

  lemma AtStart(s: State, p: Path)
    requires At(s, p, Waiting)
    ensures p !in s.stopped
  {
  }

  /** How `archive_one` ends. */
  function Result(c: Plan, s: State, p: Path, content: bytes): Ending {
    if !Archivable(c, s, p, content) then Raised
    else if |content| >= |c.contents[p]| then Retained
    else Ending.Archived
  }

  /** What an archived file leaves: the archive in place of the original, and its two lines. */
  ghost predicate Replaced(c: Plan, s: State, t: State, p: Path, content: bytes) {
    && p in t.temp && t.temp[p] !in s.disk.data && p in c.inodes && c.inodes[p] in s.disk.data
    && t.disk.names == s.disk.names[p + ".gz" := t.temp[p]] - {p} && t.disk.data == s.disk.data[t.temp[p] := content]
    && var d := RecordOf(c, s.disk.data[c.inodes[p]], content, p);
       t.detail == s.detail[p := d] && t.journal == s.journal + [Verified(d), Line.Archived(d)]
  }

  /** `archive_one` without deferred removal: the original goes only after the recovery line is durable. It raises exactly
      when the file is not the planned one, a name it needs is taken, or what compression wrote does not read back. */
  method ArchiveOne(m: Machine, p: Path, content: bytes) returns (ending: Ending)
    requires m.Valid() && At(m.state, p, Waiting) && !m.plan.batched
    modifies m
    ensures m.Valid() && Progress(old(m.state), m.state, p) && old(m.trace) <= m.trace
    ensures ending == Result(m.plan, old(m.state), p, content)
    ensures ending == Ending.Archived ==> At(m.state, p, Done) && Replaced(m.plan, old(m.state), m.state, p, content)
    ensures ending == Retained ==> At(m.state, p, Skipped)
    ensures ending != Ending.Archived ==> Left(m.plan, old(m.state), m.state, p, content, ending)
  {
    hide Enabled, Apply, Inv, SameFile, Machine.Valid, Progress, Archivable, Left, Replaced, Retired, Adds;
    ghost var start := m.state;
    ending := Compress(m, p, content);
    if ending != Prepared {
      return;
    }
    ghost var prepared := m.state;
    Register(m, p);
    ghost var recorded := m.state;
    ProgressOn(start, prepared, recorded, p);
    ArchivableFile(m.plan, start, p, content);
    StillSame(m.plan, start, prepared, recorded, p, content);
    ending := Retire(m, p);
    ProgressOn(start, recorded, m.state, p);
    AllReplaced(m.plan, start, prepared, recorded, m.state, p, content);
  }

  lemma ArchivableFile(c: Plan, s: State, p: Path, content: bytes)
    requires Archivable(c, s, p, content)
    ensures p in c.inodes && p in c.contents && SameFile(c, s.disk, p) && p + ".gz" !in s.disk.names
  {
  }

  /** Publishing an archive does not touch its original. */
  lemma StillSame(c: Plan, s: State, u: State, t: State, p: Path, content: bytes)
    requires p in c.inodes && p in c.contents && SameFile(c, s.disk, p)
    requires Left(c, s, u, p, content, Prepared) && p in u.detail && Adds(u, t, Verified(u.detail[p]))
    ensures SameFile(c, t.disk, p)
  {
    assert |p + ".gz"| == |p| + 3;
  }

  lemma AllReplaced(c: Plan, s: State, u: State, v: State, t: State, p: Path, content: bytes)
    requires Left(c, s, u, p, content, Prepared) && p in u.detail && Adds(u, v, Verified(u.detail[p])) && Retired(v, t, p)
    ensures Replaced(c, s, t, p, content)
  {
    var d := u.detail[p];
    assert s.journal + [Verified(d)] + [Line.Archived(d)] == s.journal + [Verified(d), Line.Archived(d)];
  }

  // ---- apply ----

  /** The files of `batch` stand at `f` when their archives are smaller, and at `g` when they are not. */
  predicate StandAt(c: Plan, s: State, batch: seq<Path>, compressed: Path -> bytes, f: Phase, g: Phase) {
    forall p :: p in batch ==> p in c.contents && At(s, p, if |compressed(p)| < |c.contents[p]| then f else g)
  }

  predicate AllWaiting(s: State, batch: seq<Path>) {
    forall p :: p in batch ==> At(s, p, Waiting)
  }

  predicate Distinct(batch: seq<Path>) {
    forall i, j :: 0 <= i < j < |batch| ==> batch[i] != batch[j]
  }

  lemma StandProgress(c: Plan, s: State, t: State, rest: seq<Path>, compressed: Path -> bytes, p: Path, f: Phase, g: Phase)
    requires Progress(s, t, p) && p !in rest && StandAt(c, s, rest, compressed, f, g)
    ensures StandAt(c, t, rest, compressed, f, g)
  {
  }

  lemma WaitingProgress(s: State, t: State, rest: seq<Path>, p: Path)
    requires Progress(s, t, p) && p !in rest && AllWaiting(s, rest)
    ensures AllWaiting(t, rest)
  {
  }

  /** Nothing that `archive_one` looks at for these files has changed. */
  predicate Undisturbed(c: Plan, s: State, t: State, files: seq<Path>) {
    forall q :: q in files ==>
      && q in c.inodes && c.inodes[q] in s.disk.data && c.inodes[q] in t.disk.data
      && t.disk.data[c.inodes[q]] == s.disk.data[c.inodes[q]]
      && Lookup(t.disk.names, q) == Lookup(s.disk.names, q)
      && Lookup(t.disk.names, q + ".gz") == Lookup(s.disk.names, q + ".gz")
      && Lookup(t.disk.names, q + ".gz.partial") == Lookup(s.disk.names, q + ".gz.partial")
  }

  lemma UndisturbedArchivable(c: Plan, s: State, t: State, files: seq<Path>, q: Path, content: bytes)
    requires Undisturbed(c, s, t, files) && q in files
    ensures Archivable(c, t, q, content) <==> Archivable(c, s, q, content)
  {
  }

  /** Only names and contents that belong to `p` are touched. */
  ghost predicate OnlyAbout(s: State, t: State, p: Path) {
    && (forall n :: n !in {p, p + ".gz", p + ".gz.partial"} ==> Lookup(t.disk.names, n) == Lookup(s.disk.names, n))
    && (forall i :: i in s.disk.data ==> i in t.disk.data && t.disk.data[i] == s.disk.data[i])
  }

  lemma EndingOnlyAbout(c: Plan, s: State, t: State, p: Path, content: bytes, ending: Ending)
    requires Left(c, s, t, p, content, ending) || Replaced(c, s, t, p, content)
    ensures OnlyAbout(s, t, p)
  {
  }

  lemma NamesOfOthers(c: Plan, p: Path, q: Path)
    requires ValidPlan(c) && p in c.inodes && q in c.inodes && p != q
    ensures q !in {p, p + ".gz", p + ".gz.partial"} && q + ".gz" !in {p, p + ".gz", p + ".gz.partial"}
    ensures q + ".gz.partial" !in {p, p + ".gz", p + ".gz.partial"}
  {
    hide Artifact;
    NamesApart(p, q);
    NamesApart(q, p);
  }

  lemma OnlyAboutOthers(c: Plan, s: State, u: State, t: State, files: seq<Path>, p: Path)
    requires ValidPlan(c) && Undisturbed(c, s, u, files) && p in c.inodes && p !in files && OnlyAbout(u, t, p)
    ensures Undisturbed(c, s, t, files)
  {
    hide ValidPlan;
    forall q | q in files
      ensures q !in {p, p + ".gz", p + ".gz.partial"} && q + ".gz" !in {p, p + ".gz", p + ".gz.partial"}
      ensures q + ".gz.partial" !in {p, p + ".gz", p + ".gz.partial"}
    {
      NamesOfOthers(c, p, q);
    }
  }

  /** Whatever `archive_one` does with one file, it leaves the others undisturbed. */
  lemma OthersUndisturbed(c: Plan, s: State, u: State, t: State, files: seq<Path>, p: Path, content: bytes, ending: Ending)
    requires ValidPlan(c) && Undisturbed(c, s, u, files) && p in c.inodes && p !in files
    requires Left(c, u, t, p, content, ending) || Replaced(c, u, t, p, content)
    ensures Undisturbed(c, s, t, files)
  {
    hide ValidPlan, Undisturbed, Left, Replaced, OnlyAbout;
    EndingOnlyAbout(c, u, t, p, content, ending);
    OnlyAboutOthers(c, s, u, t, files, p);
  }

  /** Every planned file can be archived as compression writes it. */
  predicate AllArchivable(c: Plan, s: State, files: seq<Path>, compressed: Path -> bytes) {
    forall p :: p in files ==> Archivable(c, s, p, compressed(p))
  }

  lemma ArchivableSnoc(c: Plan, s: State, files: seq<Path>, p: Path, compressed: Path -> bytes)
    ensures AllArchivable(c, s, files + [p], compressed) <==>
      AllArchivable(c, s, files, compressed) && Archivable(c, s, p, compressed(p))
  {
    hide Archivable;
  }

  lemma StandSnoc(c: Plan, s: State, files: seq<Path>, p: Path, compressed: Path -> bytes, f: Phase, g: Phase)
    requires StandAt(c, s, files, compressed, f, g)
    requires p in c.contents && At(s, p, if |compressed(p)| < |c.contents[p]| then f else g)
    ensures StandAt(c, s, files + [p], compressed, f, g)
  {
  }

  lemma Apart(files: seq<Path>, k: nat)
    requires Distinct(files) && k < |files|
    ensures files[k..] == [files[k]] + files[k + 1..] && files[..k + 1] == files[..k] + [files[k]]
    ensures files[k] !in files[k + 1..] && files[k] !in files[..k]
  {
  }

  lemma WaitingFacts(c: Plan, s: State, files: seq<Path>)
    requires Inv(c, s) && AllWaiting(s, files)
    ensures Undisturbed(c, s, s, files)
  {
    hide Inv;
    forall q | q in files ensures q in c.inodes && q in c.contents && c.inodes[q] in s.disk.data {
      Facts(c, s, q);
    }
  }

  lemma UndisturbedRest(c: Plan, s: State, t: State, p: Path, rest: seq<Path>)
    requires Undisturbed(c, s, t, [p] + rest)
    ensures Undisturbed(c, s, t, rest) && p in c.inodes
  {
    assert p in [p] + rest;
    forall q | q in rest ensures q in [p] + rest {
    }
  }

  lemma FirstWaiting(s: State, p: Path, rest: seq<Path>)
    requires AllWaiting(s, [p] + rest)
    ensures At(s, p, Waiting) && AllWaiting(s, rest)
  {
  }

  /** One file at a time: `batch_size` one. Once one has raised, the pool cancels what it has not `begun`. It fails exactly
      when `archive_one` raises for some file. */
  method ApplySingly(m: Machine, files: seq<Path>, compressed: Path -> bytes, begun: Path -> bool) returns (ok: bool)
    requires m.Valid() && !m.plan.batched && Distinct(files) && AllWaiting(m.state, files)
    modifies m
    ensures m.Valid() && old(m.trace) <= m.trace
    ensures ok <==> AllArchivable(m.plan, old(m.state), files, compressed)
    ensures ok ==> StandAt(m.plan, m.state, files, compressed, Done, Skipped)
  {
    hide Machine.Valid, Progress, Archivable, AllArchivable, Undisturbed, Left, Replaced, StandAt, AllWaiting, Inv, ValidPlan;
    ghost var start := m.state;
    m.Known();
    m.PlanValid();
    WaitingFacts(m.plan, start, files);
    ok := true;
    var k := 0;
    NoFiles(m.plan, start, compressed);
    assert files[0..] == files && files[..0] == [];
    while k < |files|
      invariant k <= |files| && m.Valid() && old(m.trace) <= m.trace
      invariant AllWaiting(m.state, files[k..]) && Undisturbed(m.plan, start, m.state, files[k..])
      invariant ok <==> AllArchivable(m.plan, start, files[..k], compressed)
      invariant ok ==> StandAt(m.plan, m.state, files[..k], compressed, Done, Skipped)
    {
      var p := files[k];
      Apart(files, k);
      FirstWaiting(m.state, p, files[k + 1..]);
      UndisturbedArchivable(m.plan, start, m.state, files[k..], p, compressed(p));
      UndisturbedRest(m.plan, start, m.state, p, files[k + 1..]);
      ArchivableSnoc(m.plan, start, files[..k], p, compressed);
      if ok || begun(p) {
        ghost var before := m.state;
        var ending := ArchiveOne(m, p, compressed(p));
        WaitingProgress(before, m.state, files[k + 1..], p);
        OthersUndisturbed(m.plan, start, before, m.state, files[k + 1..], p, compressed(p), ending);
        if ok && ending != Raised {
          StandProgress(m.plan, before, m.state, files[..k], compressed, p, Done, Skipped);
          ArchivedOrRetained(m.plan, before, p, compressed(p));
          StandSnoc(m.plan, m.state, files[..k], p, compressed, Done, Skipped);
        }
        ok := ok && ending != Raised;
      }
      k := k + 1;
    }
    assert files[..k] == files;
  }

  lemma NoFiles(c: Plan, s: State, compressed: Path -> bytes)
    ensures AllArchivable(c, s, [], compressed) && forall f, g :: StandAt(c, s, [], compressed, f, g)
  {
  }

  lemma ArchivedOrRetained(c: Plan, s: State, p: Path, content: bytes)
    requires Archivable(c, s, p, content)
    ensures p in c.contents
    ensures Result(c, s, p, content) == Ending.Archived <==> |content| < |c.contents[p]|
  {
  }

  /** The preparation of a batch: every archive published, nothing removed. Once one has raised, the pool cancels what
      it has not `begun`. It fails exactly when `archive_one` raises for some file. */
  method PrepareBatch(m: Machine, batch: seq<Path>, compressed: Path -> bytes, begun: Path -> bool) returns (ok: bool)
    requires m.Valid() && m.plan.batched && Distinct(batch) && AllWaiting(m.state, batch)
    modifies m
    ensures m.Valid() && old(m.trace) <= m.trace
    ensures ok <==> AllArchivable(m.plan, old(m.state), batch, compressed)
    ensures ok ==> StandAt(m.plan, m.state, batch, compressed, Cleared, Skipped)
  {
    hide Machine.Valid, Progress, Archivable, AllArchivable, Undisturbed, Left, Replaced, StandAt, AllWaiting, Inv, ValidPlan;
    ghost var start := m.state;
    m.Known();
    m.PlanValid();
    WaitingFacts(m.plan, start, batch);
    ok := true;
    var k := 0;
    NoFiles(m.plan, start, compressed);
    assert batch[0..] == batch && batch[..0] == [];
    while k < |batch|
      invariant k <= |batch| && m.Valid() && old(m.trace) <= m.trace
      invariant AllWaiting(m.state, batch[k..]) && Undisturbed(m.plan, start, m.state, batch[k..])
      invariant ok <==> AllArchivable(m.plan, start, batch[..k], compressed)
      invariant ok ==> StandAt(m.plan, m.state, batch[..k], compressed, Cleared, Skipped)
    {
      var p := batch[k];
      Apart(batch, k);
      FirstWaiting(m.state, p, batch[k + 1..]);
      UndisturbedArchivable(m.plan, start, m.state, batch[k..], p, compressed(p));
      UndisturbedRest(m.plan, start, m.state, p, batch[k + 1..]);
      ArchivableSnoc(m.plan, start, batch[..k], p, compressed);
      if ok || begun(p) {
        ghost var before := m.state;
        var ending := Compress(m, p, compressed(p));
        WaitingProgress(before, m.state, batch[k + 1..], p);
        OthersUndisturbed(m.plan, start, before, m.state, batch[k + 1..], p, compressed(p), ending);
        if ok && ending != Raised {
          StandProgress(m.plan, before, m.state, batch[..k], compressed, p, Cleared, Skipped);
          ArchivedOrRetained(m.plan, before, p, compressed(p));
          StandSnoc(m.plan, m.state, batch[..k], p, compressed, Cleared, Skipped);
        }
        ok := ok && ending != Raised;
      }
      k := k + 1;
    }
    assert batch[..k] == batch;
  }

  lemma StandFirst(c: Plan, s: State, p: Path, rest: seq<Path>, compressed: Path -> bytes, f: Phase, g: Phase)
    requires StandAt(c, s, [p] + rest, compressed, f, g)
    ensures StandAt(c, s, rest, compressed, f, g)
    ensures p in c.contents && At(s, p, if |compressed(p)| < |c.contents[p]| then f else g)
  {
    assert p in [p] + rest;
    forall q | q in rest ensures q in [p] + rest {
    }
  }

  /** The recovery lines of a batch, before they are flushed together. */
  method RecordBatch(m: Machine, batch: seq<Path>, ghost compressed: Path -> bytes)
    requires m.Valid() && m.plan.batched && Distinct(batch)
    requires StandAt(m.plan, m.state, batch, compressed, Published, Skipped)
    modifies m
    ensures m.Valid() && old(m.trace) <= m.trace && StandAt(m.plan, m.state, batch, compressed, Journaled, Skipped)
  {
    hide Machine.Valid, Enabled, Apply, Inv, Moves, Progress, StandAt, Shows;
    var k := 0;
    NoFiles(m.plan, m.state, compressed);
    assert batch[0..] == batch && batch[..0] == [];
    while k < |batch|
      invariant k <= |batch| && m.Valid() && old(m.trace) <= m.trace
      invariant StandAt(m.plan, m.state, batch[k..], compressed, Published, Skipped)
      invariant StandAt(m.plan, m.state, batch[..k], compressed, Journaled, Skipped)
    {
      var p := batch[k];
      Apart(batch, k);
      ghost var before := m.state;
      StandFirst(m.plan, before, p, batch[k + 1..], compressed, Published, Skipped);
      ProgressNone(before, p);
      if m.state.phase[p] == Published {
        m.Known();
        Advance(m, Journal(p), Published, Journaled, before);
      }
      StandProgress(m.plan, before, m.state, batch[k + 1..], compressed, p, Published, Skipped);
      StandProgress(m.plan, before, m.state, batch[..k], compressed, p, Journaled, Skipped);
      StandSnoc(m.plan, m.state, batch[..k], p, compressed, Journaled, Skipped);
      k := k + 1;
    }
    assert batch[..k] == batch;
  }

  /** The removal of one file of a batch, if it is still the planned one. */
  method RetireDeferred(m: Machine, p: Path) returns (ok: bool)
    requires m.Valid() && Inv(m.plan, m.state) && At(m.state, p, Recorded) && m.plan.batched
    modifies m
    ensures m.Valid() && Progress(old(m.state), m.state, p) && old(m.trace) <= m.trace
    ensures p in m.plan.inodes && p in m.plan.contents && (ok <==> SameFile(m.plan, old(m.state).disk, p))
    ensures ok ==> At(m.state, p, Done)
  {
    hide Enabled, Apply, Inv, SameFile, Machine.Valid, Moves, Progress, Shows;
    ghost var start := m.state;
    ProgressNone(start, p);
    Facts(m.plan, m.state, p);
    if !SameFile(m.plan, m.state.disk, p) {
      return false;
    }
    Advance(m, Remove(p), Recorded, Removed, start);
    Advance(m, Finish(p), Removed, Done, start);
    ok := true;
  }

  /** Until it is removed, a file is the planned one. */
  lemma StillPlanned(c: Plan, s: State, p: Path)
    requires Inv(c, s) && At(s, p, Recorded)
    ensures p in c.inodes && p in c.contents && SameFile(c, s.disk, p)
  {
    hide Fated, Leftover, Separate, Artifact;
    assert FileInv(c, s, p);
  }

  /** The removals of a batch whose recovery lines are durable; none of them fails. */
  method RemoveBatch(m: Machine, batch: seq<Path>, ghost compressed: Path -> bytes) returns (ok: bool)
    requires m.Valid() && m.plan.batched && Distinct(batch)
    requires StandAt(m.plan, m.state, batch, compressed, Recorded, Skipped)
    modifies m
    ensures m.Valid() && old(m.trace) <= m.trace && ok && StandAt(m.plan, m.state, batch, compressed, Done, Skipped)
  {
    hide Machine.Valid, Enabled, Apply, Inv, SameFile, Progress, StandAt;
    var k := 0;
    ok := true;
    NoFiles(m.plan, m.state, compressed);
    assert batch[0..] == batch && batch[..0] == [];
    while k < |batch| && ok
      invariant k <= |batch| && m.Valid() && old(m.trace) <= m.trace && ok
      invariant StandAt(m.plan, m.state, batch[k..], compressed, Recorded, Skipped)
      invariant StandAt(m.plan, m.state, batch[..k], compressed, Done, Skipped)
      decreases |batch| - k
    {
      var p := batch[k];
      Apart(batch, k);
      ghost var before := m.state;
      StandFirst(m.plan, before, p, batch[k + 1..], compressed, Recorded, Skipped);
      ProgressNone(before, p);
      if m.state.phase[p] == Recorded {
        m.Known();
        StillPlanned(m.plan, m.state, p);
        ok := RetireDeferred(m, p);
      }
      StandProgress(m.plan, before, m.state, batch[k + 1..], compressed, p, Recorded, Skipped);
      StandProgress(m.plan, before, m.state, batch[..k], compressed, p, Done, Skipped);
      StandSnoc(m.plan, m.state, batch[..k], p, compressed, Done, Skipped);
      k := k + 1;
    }
    assert batch[..k] == batch;
  }

  lemma BatchSynced(c: Plan, s: State, batch: seq<Path>, compressed: Path -> bytes)
    requires Inv(c, s) && c.batched && StandAt(c, s, batch, compressed, Cleared, Skipped)
    ensures var step := SyncFilesystem(set p | p in batch);
            Enabled(c, s, step) && StandAt(c, Apply(c, s, step), batch, compressed, Published, Skipped)
  {
    hide FileInv, Separate, Artifact, SyncAll;
  }

  lemma LinesSynced(c: Plan, s: State, batch: seq<Path>, compressed: Path -> bytes)
    requires Inv(c, s) && c.batched && StandAt(c, s, batch, compressed, Journaled, Skipped)
    ensures var step := SyncLines(set p | p in batch);
            Enabled(c, s, step) && StandAt(c, Apply(c, s, step), batch, compressed, Recorded, Skipped)
  {
    hide FileInv, Separate, Artifact;
  }

  lemma LastLinesSynced(c: Plan, s: State, batch: seq<Path>, compressed: Path -> bytes)
    requires Inv(c, s) && c.batched && StandAt(c, s, batch, compressed, Done, Skipped)
    ensures var step := SyncLines(set p | p in batch);
            Enabled(c, s, step) && StandAt(c, Apply(c, s, step), batch, compressed, Done, Skipped)
  {
    hide FileInv, Separate, Artifact;
  }

  /** One batch: archives and their names are flushed before the recovery lines, and these before any removal. It fails
      exactly when `archive_one` raises for some file. */
  method ApplyBatch(m: Machine, batch: seq<Path>, compressed: Path -> bytes, begun: Path -> bool) returns (ok: bool)
    requires m.Valid() && m.plan.batched && Distinct(batch) && AllWaiting(m.state, batch)
    modifies m
    ensures m.Valid() && old(m.trace) <= m.trace
    ensures ok <==> AllArchivable(m.plan, old(m.state), batch, compressed)
    ensures ok ==> StandAt(m.plan, m.state, batch, compressed, Done, Skipped)
  {
    hide Machine.Valid, Enabled, Apply, Inv, StandAt, AllWaiting, AllArchivable, Distinct;
    var members := set p | p in batch;
    ok := PrepareBatch(m, batch, compressed, begun);
    if !ok {
      return;
    }
    m.Known();
    BatchSynced(m.plan, m.state, batch, compressed);
    m.Do(SyncFilesystem(members));
    RecordBatch(m, batch, compressed);
    m.Known();
    LinesSynced(m.plan, m.state, batch, compressed);
    m.Do(SyncLines(members));
    ok := RemoveBatch(m, batch, compressed);
    m.Known();
    LastLinesSynced(m.plan, m.state, batch, compressed);
    m.Do(SyncLines(members));
  }
}
