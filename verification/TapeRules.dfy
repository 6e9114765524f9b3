/** What a valid tape is, position by position: the rules of tape format 1.0 on its records, without the states of
    the reader. They hold exactly when the reader's run succeeds. */
module TapeRules {
  import opened Wrappers
  import opened Bytes
  import opened TapeFormat
  import opened FieldRegistry
  import opened LifeCycle
  import opened TapeReader
  import opened CommandGrammar
  import Projection
  import ProjectionRules
  import TapeBijection

  // Record types: 1 replay start, 2 intent, 3 test result, 4 execution result, 5 projection, 6 checkpoint,
  // 7 to 10 diagnostics (10 a trace warning), 11 terminal.

  predicate StartRule(p: Payload) {
    |p| == 12 && U16At(p, 0) == 1 && p[2] != 0 && p[3] == 0
  }

  predicate CheckpointRule(p: Payload) {
    |p| == 8 && U16At(p, 0) == 1 && 1 <= U16At(p, 2) <= 8 && U32At(p, 4) == 0
  }

  predicate TerminalRule(p: Payload) {
    |p| == 8 && U16At(p, 0) == 1 && U32At(p, 4) == 0
  }

  predicate IntentRule(p: Payload) {
    |p| >= 24 && U16At(p, 0) == 1 && U16At(p, 2) == 0 && U32At(p, 20) == 0 && |p| == 24 + U32At(p, 16)
  }

  predicate OutcomeRule(p: Payload) {
    |p| >= 32 && U16At(p, 0) == 1 && p[2] <= 1 && p[3] == 0 && |p| == 32 + U32At(p, 28)
  }

  ghost predicate PayloadRule(registry: Registry, r: Record) {
    match r.kind
    case 1 => StartRule(r.payload)
    case 2 => IntentRule(r.payload)
    case 3 => OutcomeRule(r.payload)
    case 4 => OutcomeRule(r.payload)
    case 5 => exists fs :: ProjectionRules.ProjectionRule(registry, r.payload, fs)
    case 6 => CheckpointRule(r.payload)
    case 11 => TerminalRule(r.payload)
    case _ => true
  }

  /** Numbered from zero, known types of version 1, required exactly unless diagnostic or unknown, boundaries that
      never go back. */
  predicate HeaderRule(rs: seq<Record>, k: nat)
    requires k < |rs|
  {
    var r := rs[k];
    && r.sequence == k && |r.payload| <= 67_108_864
    && (1 <= r.kind <= 11 ==> r.version == 1)
    && (if 1 <= r.kind <= 6 || r.kind == 11 then r.flags == 1
        else if 7 <= r.kind <= 10 then r.flags <= 1
        else r.flags == 0)
    && (k > 0 ==> rs[k - 1].step <= r.step && rs[k - 1].tick <= r.tick)
  }

  /** The first of `count` records starts the replay, and the last and no other ends it; warnings need their flag. */
  predicate PlaceRule(flags: nat, count: nat, rs: seq<Record>, k: nat)
    requires k < |rs|
  {
    && (k == 0 ==> rs[k].kind == 1)
    && (rs[k].kind == 11 <==> k == count - 1)
    && (rs[k].kind == 10 ==> flags / 2 % 2 == 1)
  }

  // ---- The command grammar ----

  /** The record at `i` is the last command or projection record before position `k`. */
  predicate LastBefore(rs: seq<Record>, i: int, k: nat) {
    0 <= i < k <= |rs| && 2 <= rs[i].kind <= 5 && forall j :: i < j < k ==> !(2 <= rs[j].kind <= 5)
  }

  predicate SameCommand(a: Record, b: Record) {
    |a.payload| >= 8 && |b.payload| >= 8 && U32At(a.payload, 4) == U32At(b.payload, 4)
  }

  /** A test result that reports success. */
  predicate Passed(r: Record) {
    r.kind == 3 && |r.payload| >= 3 && r.payload[2] == 1
  }

  /** What may come last before a record of each type. */
  ghost predicate GrammarRule(rs: seq<Record>, k: nat)
    requires k < |rs|
  {
    var r := rs[k];
    match r.kind
    case 3 => exists i :: LastBefore(rs, i, k) && rs[i].kind == 2 && SameCommand(rs[i], r)
    case 4 => exists i :: LastBefore(rs, i, k) && Passed(rs[i]) && SameCommand(rs[i], r)
    case 5 => forall i :: LastBefore(rs, i, k) ==> rs[i].kind != 2 && !Passed(rs[i])
    case _ => r.kind == 2 || r.kind == 11 ==> forall i :: LastBefore(rs, i, k) ==> rs[i].kind == 5
  }

  ghost predicate RuleAt(registry: Registry, flags: nat, count: nat, rs: seq<Record>, k: nat)
    requires k < |rs|
  {
    HeaderRule(rs, k) && PlaceRule(flags, count, rs, k) && PayloadRule(registry, rs[k]) && GrammarRule(rs, k)
  }

  function Intents(rs: seq<Record>): nat {
    Count(rs, OfKind(2))
  }

  /** The first of `count` records. */
  ghost predicate BeginningObeys(registry: Registry, flags: nat, count: nat, rs: seq<Record>) {
    (forall k :: 0 <= k < |rs| ==> RuleAt(registry, flags, count, rs, k)) && Intents(rs) <= 1_000_000
  }

  /** The records of a valid tape. */
  ghost predicate RecordsObey(registry: Registry, flags: nat, rs: seq<Record>) {
    && rs != [] && BeginningObeys(registry, flags, |rs|, rs)
    && exists k :: 0 <= k < |rs| && rs[k].kind == 5
  }

  /** A valid tape: header, flags, sizes and records. */
  ghost predicate Obeys(ctx: Context, t: Tape) {
    && 0 < |t.header| <= 1_048_576 && ctx.headerStatus(t.header) == OK
    && t.flags < 0x1_0000 && t.flags % 2 == 0
    && |t.records| <= ctx.maxRecordCount && SerializedSize(t) <= ctx.maxTapeBytes
    && RecordsObey(ctx.registry, t.flags, t.records)
  }

  // ---- The reader's state, read off the records before it ----

  predicate NoneBefore(rs: seq<Record>, k: nat) {
    k <= |rs| && forall j :: 0 <= j < k ==> !(2 <= rs[j].kind <= 5)
  }

  /** The state the last command or projection record leaves. */
  predicate Leaves(r: Record, st: ReadState) {
    match r.kind
    case 2 => st.phase == Intended && |r.payload| >= 24 && st.command == U32At(r.payload, 4)
    case 3 => |r.payload| >= 32 && st.phase == Tested(r.payload[2] == 1) && st.command == U32At(r.payload, 4)
    case 4 => st.phase == Executed
    case 5 => st.phase == Idle
    case _ => true
  }

  ghost predicate Stands(rs: seq<Record>, k: nat, st: ReadState)
    requires k <= |rs|
  {
    && (st.havePrevious <==> k > 0)
    && (k > 0 ==> st.step == rs[k - 1].step && st.tick == rs[k - 1].tick)
    && st.commands == Intents(rs[..k])
    && (st.sawProjection <==> exists j :: 0 <= j < k && rs[j].kind == 5)
    && (NoneBefore(rs, k) ==> st.phase == Idle)
    && forall i :: LastBefore(rs, i, k) ==> Leaves(rs[i], st)
  }

  lemma IntentsSnoc(rs: seq<Record>, k: nat)
    requires k < |rs|
    ensures Intents(rs[..k + 1]) == Intents(rs[..k]) + if rs[k].kind == 2 then 1 else 0
  {
    CountSplit(rs[..k + 1], k, OfKind(2));
    assert rs[..k + 1][..k] == rs[..k] && rs[..k + 1][k..] == [rs[k]];
    CountFew([rs[k]], OfKind(2));
  }

  /** The last command or projection record, or -1. */
  function Prior(rs: seq<Record>, k: nat): (i: int)
    requires k <= |rs|
    ensures if i == -1 then NoneBefore(rs, k) else 0 <= i && LastBefore(rs, i, k)
  {
    if k == 0 then -1 else if 2 <= rs[k - 1].kind <= 5 then k - 1 else Prior(rs, k - 1)
  }

  lemma PriorOnly(rs: seq<Record>, k: nat)
    requires k <= |rs|
    ensures forall i :: LastBefore(rs, i, k) <==> 0 <= i && i == Prior(rs, k)
    ensures NoneBefore(rs, k) <==> Prior(rs, k) == -1
  {
  }

  lemma PriorNext(rs: seq<Record>, k: nat)
    requires k < |rs|
    ensures Prior(rs, k + 1) == if 2 <= rs[k].kind <= 5 then k else Prior(rs, k)
  {
  }

  // ---- One step ----

  lemma HeaderExact(rs: seq<Record>, k: nat, st: ReadState)
    requires k < |rs| && Stands(rs, k, st)
    ensures HeaderStatus(k, st, HeaderOf(rs[k])) == OK <==> HeaderRule(rs, k)
  {
    hide LastBefore, Leaves, Intents;
  }

  lemma PayloadExact(registry: Registry, r: Record)
    requires SortedById(registry)
    ensures PayloadRule(registry, r) <==>
      && FixedPayloadStatus(r.kind, r.payload) == OK
      && (r.kind == 2 ==> IntentStatus(r.payload) == OK)
      && (r.kind == 3 || r.kind == 4 ==> |r.payload| >= 8 && OutcomeStatus(r.payload, U32At(r.payload, 4)) == OK)
      && (r.kind == 5 ==> Projection.ProjectionStatus(registry, r.payload) == OK)
  {
    hide Projection.ProjectionStatus, ProjectionRules.ProjectionRule, UInt, SortedById;
    ProjectionRules.AcceptedProjection(registry, r.payload);
  }

  /** The grammar, with the one record it looks at. */
  lemma GrammarByPrior(rs: seq<Record>, k: nat)
    requires k < |rs|
    ensures var i := Prior(rs, k);
      GrammarRule(rs, k) <==>
        match rs[k].kind
        case 3 => i >= 0 && rs[i].kind == 2 && SameCommand(rs[i], rs[k])
        case 4 => i >= 0 && Passed(rs[i]) && SameCommand(rs[i], rs[k])
        case 5 => i >= 0 ==> rs[i].kind != 2 && !Passed(rs[i])
        case _ => rs[k].kind == 2 || rs[k].kind == 11 ==> i >= 0 ==> rs[i].kind == 5
  {
    PriorOnly(rs, k);
    hide LastBefore, NoneBefore, SameCommand, Passed, Prior;
  }

  lemma StandsPrior(rs: seq<Record>, k: nat, st: ReadState)
    requires k <= |rs| && Stands(rs, k, st)
    ensures var i := Prior(rs, k); -1 <= i < k && if i == -1 then st.phase == Idle else 2 <= rs[i].kind <= 5 && Leaves(rs[i], st)
  {
    hide Leaves, Intents;
  }

  /** The life-cycle checks are the payload rule, the grammar rule and the limit on commands. */
  lemma CommandExact(ctx: Context, rs: seq<Record>, k: nat, st: ReadState)
    requires SortedById(ctx.registry)
    requires k < |rs| && Stands(rs, k, st) && FixedPayloadStatus(rs[k].kind, rs[k].payload) == OK
    requires rs[k].kind == 11 ==> st.phase == Idle
    ensures CommandStep(ctx, st, rs[k].kind, rs[k].payload).Success? <==>
      PayloadRule(ctx.registry, rs[k]) && GrammarRule(rs, k) && (rs[k].kind == 2 ==> st.commands < 1_000_000)
  {
    hide FixedPayloadStatus, IntentStatus, OutcomeStatus, Projection.ProjectionStatus, UInt, Stands, Prior, PayloadRule, GrammarRule,
      SortedById;
    StandsPrior(rs, k, st);
    PayloadExact(ctx.registry, rs[k]);
    GrammarByPrior(rs, k);
    OutcomeExact(rs[k].payload, st.command);
  }

  lemma OutcomeExact(p: Payload, expected: u32)
    ensures OutcomeStatus(p, expected) == OK <==>
      |p| >= 32 && OutcomeStatus(p, U32At(p, 4)) == OK && U32At(p, 4) == expected
    ensures OutcomeStatus(p, expected) == OK ==> p[2] <= 1
    ensures IntentStatus(p) == OK ==> |p| >= 24
  {
    hide UInt;
  }

  /** No command is open exactly when a terminal may follow. */
  lemma IdleExact(rs: seq<Record>, k: nat, st: ReadState)
    requires k < |rs| && Stands(rs, k, st) && rs[k].kind == 11
    ensures GrammarRule(rs, k) <==> st.phase == Idle
  {
    hide Stands, GrammarRule, Prior;
    StandsPrior(rs, k, st);
    GrammarByPrior(rs, k);
  }

  lemma StepExact(ctx: Context, flags: u32, count: nat, rs: seq<Record>, k: nat, st: ReadState)
    requires SortedById(ctx.registry)
    requires k < |rs| && Stands(rs, k, st) && Intents(rs[..k]) <= 1_000_000
    ensures RecordStep(ctx, flags, count, k, st, rs[k]).Success? <==>
      RuleAt(ctx.registry, flags, count, rs, k) && Intents(rs[..k + 1]) <= 1_000_000
  {
    HeaderExact(rs, k, st);
    PayloadExact(ctx.registry, rs[k]);
    IntentsSnoc(rs, k);
    assert st.commands == Intents(rs[..k]);
    if rs[k].kind == 11 {
      IdleExact(rs, k, st);
    }
    hide HeaderStatus, HeaderRule, FixedPayloadStatus, PayloadRule, GrammarRule, CommandStep, Stands, Intents;
    if FixedPayloadStatus(rs[k].kind, rs[k].payload) == OK && (rs[k].kind == 11 ==> st.phase == Idle) {
      CommandExact(ctx, rs, k, st);
    }
  }

  /** What a step does to the state. */
  lemma StepLeaves(ctx: Context, flags: u32, count: nat, sequence: nat, st: ReadState, r: Record)
    requires RecordStep(ctx, flags, count, sequence, st, r).Success?
    ensures var next := RecordStep(ctx, flags, count, sequence, st, r).value;
      && next.havePrevious && next.step == r.step && next.tick == r.tick
      && next.commands == st.commands + (if r.kind == 2 then 1 else 0)
      && next.sawProjection == (st.sawProjection || r.kind == 5)
      && (if 2 <= r.kind <= 5 then Leaves(r, next) else next.phase == st.phase && next.command == st.command)
  {
    hide HeaderStatus, FixedPayloadStatus, IntentStatus, OutcomeStatus, Projection.ProjectionStatus, UInt;
    OutcomeExact(r.payload, st.command);
  }

  lemma StepStands(ctx: Context, flags: u32, count: nat, rs: seq<Record>, k: nat, st: ReadState)
    requires k < |rs| && Stands(rs, k, st)
    requires RecordStep(ctx, flags, count, k, st, rs[k]).Success?
    ensures Stands(rs, k + 1, RecordStep(ctx, flags, count, k, st, rs[k]).value)
  {
    hide RecordStep, Intents, LastBefore, NoneBefore, Prior;
    StepLeaves(ctx, flags, count, k, st, rs[k]);
    IntentsSnoc(rs, k);
    PriorNext(rs, k);
    PriorOnly(rs, k);
    PriorOnly(rs, k + 1);
  }

  lemma StandsFirst(rs: seq<Record>)
    ensures Stands(rs, 0, START) && rs[..0] == [] && Intents([]) == 0
  {
  }

  // ---- Whole runs ----

  lemma RunSnoc(ctx: Context, flags: u32, count: nat, rs: seq<Record>, k: nat)
    requires k < |rs|
    ensures var before := Run(ctx, flags, count, 0, START, rs[..k]);
      Run(ctx, flags, count, 0, START, rs[..k + 1])
        == if before.Success? then RecordStep(ctx, flags, count, k, before.value, rs[k]) else before
  {
    hide RecordStep;
    assert rs[..k + 1] == rs[..k] + [rs[k]];
    RunSplit(ctx, flags, count, 0, START, rs[..k], [rs[k]]);
    match Run(ctx, flags, count, 0, START, rs[..k])
    case Failure(_) =>
    case Success(mid) =>
      assert [rs[k]][1..] == [];
      match RecordStep(ctx, flags, count, k, mid, rs[k])
      case Failure(_) =>
      case Success(next) => assert Run(ctx, flags, count, k + 1, next, []) == Success(next);
  }

  /** The first `k` records pass exactly when they obey the rules; the state then stands for them. */
  lemma {:induction false} RunExact(ctx: Context, flags: u32, count: nat, rs: seq<Record>, k: nat)
    requires SortedById(ctx.registry)
    requires k <= |rs|
    ensures var r := Run(ctx, flags, count, 0, START, rs[..k]);
      && (r.Success? <==> (forall j :: 0 <= j < k ==> RuleAt(ctx.registry, flags, count, rs, j)) && Intents(rs[..k]) <= 1_000_000)
      && (r.Success? ==> Stands(rs, k, r.value))
  {
    hide RecordStep, RuleAt, Intents, Stands;
    if k == 0 {
      StandsFirst(rs);
    } else {
      RunExact(ctx, flags, count, rs, k - 1);
      RunSnoc(ctx, flags, count, rs, k - 1);
      IntentsSnoc(rs, k - 1);
      if Run(ctx, flags, count, 0, START, rs[..k - 1]).Success? {
        var st := Run(ctx, flags, count, 0, START, rs[..k - 1]).value;
        StepExact(ctx, flags, count, rs, k - 1, st);
        if RecordStep(ctx, flags, count, k - 1, st, rs[k - 1]).Success? {
          StepStands(ctx, flags, count, rs, k - 1, st);
        }
      }
    }
  }

  /** The reader's run over the records succeeds, with a projection seen, exactly when they obey the rules. */
  lemma RecordsExact(ctx: Context, flags: u32, rs: seq<Record>)
    requires SortedById(ctx.registry)
    ensures rs != [] && Run(ctx, flags, |rs|, 0, START, rs).Success? && Run(ctx, flags, |rs|, 0, START, rs).value.sawProjection
       <==> RecordsObey(ctx.registry, flags, rs)
  {
    hide Run, RuleAt, Intents;
    assert rs[..|rs|] == rs;
    RunExact(ctx, flags, |rs|, rs, |rs|);
  }

  /** The tapes the reader accepts and the writer finishes are exactly those that obey the rules. */
  lemma RulesExact(ctx: Context, t: Tape)
    requires ctx.Valid()
    ensures ValidTape(ctx, t) <==> Obeys(ctx, t)
  {
    hide Run, RecordsObey;
    RecordsExact(ctx, t.flags, t.records);
  }

  /** An input is read as a tape exactly when the tape obeys the rules and the input is its serialization. */
  lemma AcceptedExactly(ctx: Context, b: bytes, t: Tape)
    requires ctx.Valid()
    ensures Validate(ctx, b) == Success(t) <==>
      && Obeys(ctx, t)
      && (RulesExact(ctx, t); b == Serialize(ctx, t))
  {
    hide Validate, Obeys, Serialize;
    RulesExact(ctx, t);
    TapeBijection.ReaderExact(ctx, b, t);
  }
}
