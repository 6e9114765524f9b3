/** Cutting a diverging target to a closed prefix that shows the same divergence
    (`closure_record`, `write_minimized_stream` and `otrl_minimize_prefix` in parity/src/comparator.c):
    what is cut, and why it is valid and diverges in the same way. */
module Minimizer {
  import opened Wrappers
  import opened Bytes
  import opened TapeFormat
  import opened LifeCycle
  import opened TapeReader
  import opened Comparator
  import opened ComparatorExactness
  import Projection
  import TapeBijection

  /** The first projection at or after `from`; the length when there is none. */
  function NextProjection(rs: seq<Record>, from: nat): (p: nat)
    requires from <= |rs|
    ensures from <= p <= |rs|
    ensures p < |rs| ==> rs[p].kind == AUTHORITATIVE_PROJECTION
    decreases |rs| - from
  {
    if from == |rs| || rs[from].kind == AUTHORITATIVE_PROJECTION then from else NextProjection(rs, from + 1)
  }

  /** `closure_record`: the projection that closes the command a divergence lies in. */
  function Closure(rs: seq<Record>, divergence: nat): nat
    requires divergence < |rs|
  {
    if IsCommand(rs[divergence].kind) then
      var p := NextProjection(rs, divergence + 1);
      if p < |rs| then p else divergence
    else divergence
  }

  /** How many records the cut keeps: those up to `required`, but never the terminal. */
  function Kept(rs: seq<Record>, required: nat): (n: nat)
    ensures n <= |rs|
  {
    if required + 1 >= |rs| then
      if rs != [] && rs[|rs| - 1].kind == TERMINAL then |rs| - 1 else |rs|
    else required + 1
  }

  const TERMINAL_PAYLOAD: bytes := [1, 0, 0, 0, 0, 0, 0, 0]

  /** The terminal record the cut is closed with. */
  function FreshTerminal(prefix: seq<Record>): Record
    requires |prefix| < 0x1_0000_0000_0000_0000
  {
    if prefix == [] then Record(TERMINAL, 1, RECORD_FLAG_REQUIRED, 0, 0, 0, TERMINAL_PAYLOAD)
    else
      var last := prefix[|prefix| - 1];
      Record(TERMINAL, 1, RECORD_FLAG_REQUIRED, |prefix|, last.step, last.tick, TERMINAL_PAYLOAD)
  }

  /** The minimized tape. */
  function Cut(t: Tape, n: nat): Tape
    requires n <= |t.records| < 0x1_0000_0000_0000_0000
  {
    Tape(t.flags, t.header, t.records[..n] + [FreshTerminal(t.records[..n])])
  }

  // ---- The same, without the code's own steps ----

  /** The terminal, of type 11, after the first `n` records: it stands at the boundary of the last one, with reason 0. */
  function EndAfter(rs: seq<Record>, n: nat): Record
    requires n <= |rs| < 0x1_0000_0000_0000_0000
  {
    Record(11, 1, 1, n, if n == 0 then 0 else rs[n - 1].step, if n == 0 then 0 else rs[n - 1].tick, [1, 0, 0, 0, 0, 0, 0, 0])
  }

  /** How many records a divergence at `j` keeps: all before a terminal; all up to the projection that closes the
      command it lies in; otherwise all up to the diverging one. */
  predicate Keeps(rs: seq<Record>, j: nat, n: nat)
    requires j < |rs|
  {
    if rs[j].kind == 11 then n == j
    else if 2 <= rs[j].kind <= 4 then j + 2 <= n <= |rs| && rs[n - 1].kind == 5 && forall k :: j < k < n - 1 ==> rs[k].kind != 5
    else n == j + 1
  }

  /** `m` is the target cut for a divergence at `j`. */
  ghost predicate IsCut(t: Tape, j: nat, m: Tape)
    requires j < |t.records| < 0x1_0000_0000_0000_0000
  {
    m.flags == t.flags && m.header == t.header
    && exists n: nat :: n <= |t.records| && Keeps(t.records, j, n) && m.records == t.records[..n] + [EndAfter(t.records, n)]
  }

  lemma {:induction false} NextProjectionFirst(rs: seq<Record>, from: nat)
    requires from <= |rs|
    ensures forall k :: from <= k < NextProjection(rs, from) ==> rs[k].kind != 5
    decreases |rs| - from
  {
    if from < |rs| && rs[from].kind != AUTHORITATIVE_PROJECTION {
      NextProjectionFirst(rs, from + 1);
    }
  }

  /** A closed cut is the cut. */
  lemma CutIsCut(ctx: Context, t: Tape, j: nat)
    requires ctx.Valid() && ValidTape(ctx, t) && j < |t.records| < 0x1_0000_0000_0000_0000
    requires Closed(ctx, t, Kept(t.records, Closure(t.records, j)))
    ensures IsCut(t, j, Cut(t, Kept(t.records, Closure(t.records, j))))
  {
    var rs := t.records;
    var n := Kept(rs, Closure(rs, j));
    FreshEnd(rs, n);
    CutKeeps(ctx, t, j);
    hide Kept, Closure, Keeps, Closed, ValidTape, FreshTerminal, EndAfter;
  }

  lemma CutKeeps(ctx: Context, t: Tape, j: nat)
    requires ctx.Valid() && ValidTape(ctx, t) && j < |t.records|
    ensures Keeps(t.records, j, Kept(t.records, Closure(t.records, j)))
  {
    hide Closed, ValidTape, RecordOk, Readable;
    var rs := t.records;
    ValidSound(ctx, t);
    assert rs[|rs| - 1].kind == TERMINAL;
    if IsCommand(rs[j].kind) {
      ClosureCloses(ctx, t, j);
      NextProjectionFirst(rs, j + 1);
    }
  }

  lemma FreshEnd(rs: seq<Record>, n: nat)
    requires n <= |rs| < 0x1_0000_0000_0000_0000
    ensures FreshTerminal(rs[..n]) == EndAfter(rs, n)
  {
  }

  // ---- A cut after a projection is a valid tape ----

  /** As long as the last position is not reached, the steps do not depend on the record count. */
  lemma {:induction false} RunCountShift(ctx: Context, flags: u32, c1: nat, c2: nat, sequence: nat, st: ReadState,
                                         rs: seq<Record>)
    requires sequence + |rs| < c1 && sequence + |rs| < c2
    ensures Run(ctx, flags, c1, sequence, st, rs) == Run(ctx, flags, c2, sequence, st, rs)
    decreases |rs|
  {
    hide HeaderStatus, FixedPayloadStatus, CommandStep;
    if rs != [] {
      match RecordStep(ctx, flags, c1, sequence, st, rs[0])
      case Failure(_) =>
      case Success(next) => RunCountShift(ctx, flags, c1, c2, sequence + 1, next, rs[1..]);
    }
  }

  /** The reader's state after the first `n` records of a valid tape. */
  ghost function StateAfter(ctx: Context, t: Tape, n: nat): ReadState
    requires ValidTape(ctx, t) && n <= |t.records|
  {
    RunPrefix(ctx, t, n);
    Run(ctx, t.flags, |t.records|, 0, START, t.records[..n]).value
  }

  lemma RunPrefix(ctx: Context, t: Tape, n: nat)
    requires ValidTape(ctx, t) && n <= |t.records|
    ensures Run(ctx, t.flags, |t.records|, 0, START, t.records[..n]).Success?
    ensures n < |t.records| ==>
      RecordStep(ctx, t.flags, |t.records|, n, Run(ctx, t.flags, |t.records|, 0, START, t.records[..n]).value,
                 t.records[n]).Success?
    ensures n < |t.records| ==>
      Run(ctx, t.flags, |t.records|, 0, START, t.records[..n + 1])
        == RecordStep(ctx, t.flags, |t.records|, n, Run(ctx, t.flags, |t.records|, 0, START, t.records[..n]).value,
                      t.records[n])
  {
    hide RecordStep;
    var rs := t.records;
    assert rs == rs[..n] + rs[n..];
    RunSplit(ctx, t.flags, |rs|, 0, START, rs[..n], rs[n..]);
    if n < |rs| {
      assert rs[..n + 1] == rs[..n] + [rs[n]];
      RunSplit(ctx, t.flags, |rs|, 0, START, rs[..n], [rs[n]]);
      var mid := Run(ctx, t.flags, |rs|, 0, START, rs[..n]).value;
      assert [rs[n]][1..] == [];
      match RecordStep(ctx, t.flags, |rs|, n, mid, rs[n])
      case Failure(_) =>
      case Success(next) => assert Run(ctx, t.flags, |rs|, n + 1, next, []) == Success(next);
    }
  }

  /** A cut is closed when no command is open and a projection has been seen. */
  ghost predicate Closed(ctx: Context, t: Tape, n: nat)
    requires ValidTape(ctx, t) && n <= |t.records|
  {
    StateAfter(ctx, t, n).phase == Idle && StateAfter(ctx, t, n).sawProjection
  }

  lemma {:induction false} LastBoundary(ctx: Context, flags: u32, count: nat, sequence: nat, st: ReadState, rs: seq<Record>)
    requires rs != [] && Run(ctx, flags, count, sequence, st, rs).Success?
    ensures var last := Run(ctx, flags, count, sequence, st, rs).value;
      last.havePrevious && last.step == rs[|rs| - 1].step && last.tick == rs[|rs| - 1].tick
    decreases |rs|
  {
    hide HeaderStatus, BodyStep;
    var next := RecordStep(ctx, flags, count, sequence, st, rs[0]).value;
    if |rs| > 1 {
      LastBoundary(ctx, flags, count, sequence + 1, next, rs[1..]);
    } else {
      assert Run(ctx, flags, count, sequence + 1, next, rs[1..]) == Success(next);
    }
  }

  lemma PrefixShorter(rs: seq<Record>, n: nat)
    requires n < |rs| && rs[|rs| - 1].kind == TERMINAL && |rs[|rs| - 1].payload| == 8
    ensures |EncodeRecords(rs[..n] + [FreshTerminal(rs[..n])])| <= |EncodeRecords(rs)|
    requires |rs| < 0x1_0000_0000_0000_0000
  {
    hide EncodeRecords;
    var last := |rs| - 1;
    EncodeRecordsConcat(rs[..n], [FreshTerminal(rs[..n])]);
    EncodeOne(FreshTerminal(rs[..n]));
    EncodeRecordsSnoc(rs, last);
    assert rs[..last + 1] == rs;
    EncodeRecordsSplit(rs[..last], n);
    assert rs[..last][..n] == rs[..n];
  }

  /** The terminal step of a cut: it only asks that no command is open. */
  lemma TerminalStep(ctx: Context, flags: u32, n: nat, st: ReadState, r: Record)
    requires n > 0 && r.kind == TERMINAL && r.version == 1 && r.flags == 1 && r.sequence == n
    requires r.payload == TERMINAL_PAYLOAD && st.havePrevious && st.step == r.step && st.tick == r.tick
    ensures RecordStep(ctx, flags, n + 1, n, st, r)
         == if st.phase == Idle then Success(Advance(st, HeaderOf(r))) else Failure(Structure)
  {
    var p := TERMINAL_PAYLOAD;
    assert p[0..2] == LE(2, 1) && p[4..8] == LE(4, 0);
    Widths();
    LoadStore(2, 1);
    LoadStore(4, 0);
  }

  /** What the run over a closed-off cut answers. */
  lemma CutRun(ctx: Context, t: Tape, n: nat)
    requires ValidTape(ctx, t) && 0 < n < |t.records| < 0x1_0000_0000_0000_0000
    ensures var mid := StateAfter(ctx, t, n);
      Run(ctx, t.flags, n + 1, 0, START, Cut(t, n).records)
        == if mid.phase == Idle then Success(Advance(mid, HeaderOf(FreshTerminal(t.records[..n])))) else Failure(Structure)
  {
    hide RecordStep, EncodeRecords;
    var rs := t.records;
    var prefix := rs[..n];
    var terminal := FreshTerminal(prefix);
    RunPrefix(ctx, t, n);
    RunCountShift(ctx, t.flags, |rs|, n + 1, 0, START, prefix);
    LastBoundary(ctx, t.flags, |rs|, 0, START, prefix);
    var mid := StateAfter(ctx, t, n);
    RunSplit(ctx, t.flags, n + 1, 0, START, prefix, [terminal]);
    assert [terminal][1..] == [];
    TerminalStep(ctx, t.flags, n, mid, terminal);
    assert Run(ctx, t.flags, n + 1, n, mid, [terminal])
        == match RecordStep(ctx, t.flags, n + 1, n, mid, terminal)
           case Failure(e) => Failure(e)
           case Success(next) => Run(ctx, t.flags, n + 1, n + 1, next, []);
  }

  /** Cutting a valid tape anywhere before its end and closing it with a fresh terminal gives a valid
      tape exactly when the cut is closed; it is then never longer than the original. */
  lemma CutValid(ctx: Context, t: Tape, n: nat)
    requires ctx.Valid() && ValidTape(ctx, t) && 0 < n < |t.records|
    ensures ValidTape(ctx, Cut(t, n)) <==> Closed(ctx, t, n)
    ensures SerializedSize(Cut(t, n)) <= SerializedSize(t)
  {
    hide Run, EncodeRecords;
    TerminalPayload(ctx, t);
    PrefixShorter(t.records, n);
    CutRun(ctx, t, n);
  }

  /** What reading a cut back answers, under whatever limits. */
  lemma CutRead(ctx: Context, t: Tape, n: nat)
    requires ctx.Valid() && ValidTape(ctx.Unlimited(), t) && 0 < n < |t.records|
    ensures var cut := Cut(t, n);
      && SerializedSize(cut) <= MAX_TAPE_BYTES
      && Validate(ctx, Serialize(ctx, cut))
         == if !TapeBijection.WithinLimits(ctx, cut) then Failure(Limit)
            else if !Closed(ctx.Unlimited(), t, n) then Failure(Structure)
            else Success(cut)
  {
    hide Run, EncodeRecords, Validate, Serialize;
    var wide := ctx.Unlimited();
    var cut := Cut(t, n);
    CutValid(wide, t, n);
    CutRun(wide, t, n);
    RunUnlimited(ctx, t.flags, n + 1, 0, START, cut.records);
    TapeBijection.SerializedStatus(ctx, cut);
  }

  lemma TerminalPayload(ctx: Context, t: Tape)
    requires ValidTape(ctx, t)
    ensures var last := t.records[|t.records| - 1]; last.kind == TERMINAL && |last.payload| == 8
  {
    hide CommandStep, HeaderStatus, U16At, U32At;
    RunPrefix(ctx, t, |t.records| - 1);
  }

  /** After a projection no command is open. */
  lemma ProjectionCloses(ctx: Context, t: Tape, c: nat)
    requires ValidTape(ctx, t) && c < |t.records| && t.records[c].kind == AUTHORITATIVE_PROJECTION
    ensures c + 1 < |t.records| && Closed(ctx, t, c + 1)
  {
    hide HeaderStatus, FixedPayloadStatus, Projection.ProjectionStatus;
    RunPrefix(ctx, t, c);
  }

  /** Inside a command no cut is closed. */
  lemma CommandOpens(ctx: Context, t: Tape, j: nat)
    requires ValidTape(ctx, t) && j < |t.records| && IsCommand(t.records[j].kind)
    ensures StateAfter(ctx, t, j + 1).phase != Idle
  {
    hide HeaderStatus, FixedPayloadStatus, IntentStatus, OutcomeStatus;
    RunPrefix(ctx, t, j);
  }

  /** An open command stays open until a projection, and the terminal needs it closed. */
  lemma {:induction false} OpenUntilProjection(ctx: Context, t: Tape, n: nat)
    requires ValidTape(ctx, t) && n <= |t.records| && StateAfter(ctx, t, n).phase != Idle
    ensures NextProjection(t.records, n) < |t.records|
    decreases |t.records| - n
  {
    hide HeaderStatus, FixedPayloadStatus, IntentStatus, OutcomeStatus, Projection.ProjectionStatus;
    var rs := t.records;
    if n == |rs| {
      RunPrefix(ctx, t, n - 1);
      TerminalPayload(ctx, t);
    } else if rs[n].kind != AUTHORITATIVE_PROJECTION {
      RunPrefix(ctx, t, n);
      OpenUntilProjection(ctx, t, n + 1);
    }
  }

  /** For a divergence at a command or projection record, the closure is a projection. */
  lemma ClosureCloses(ctx: Context, t: Tape, j: nat)
    requires ValidTape(ctx, t) && j < |t.records|
    requires IsCommand(t.records[j].kind) || t.records[j].kind == AUTHORITATIVE_PROJECTION
    ensures var c := Closure(t.records, j);
      j <= c < |t.records| - 1 && t.records[c].kind == AUTHORITATIVE_PROJECTION && Closed(ctx, t, c + 1)
  {
    if IsCommand(t.records[j].kind) {
      CommandOpens(ctx, t, j);
      OpenUntilProjection(ctx, t, j + 1);
    }
    ProjectionCloses(ctx, t, Closure(t.records, j));
  }

  // ---- The cut diverges in the same way ----

  /** A comparison that stops inside the first `n` target records never looks past them. */
  lemma {:induction false} CutSame(a: seq<Record>, b: seq<Record>, c: seq<Record>, n: nat, i: nat, j: nat, diag: bool)
    requires AllReadable(a) && AllReadable(b) && AllReadable(c)
    requires n <= |b| && n <= |c| && b[..n] == c[..n]
    requires i <= |a| && j <= n
    requires CompareFrom(a, b, i, j, diag).Differs? && CompareFrom(a, b, i, j, diag).j < n
    ensures CompareFrom(a, c, i, j, diag) == CompareFrom(a, b, i, j, diag)
    decreases |a| - i + n - j
  {
    hide RecordDiff, Ignorable;
    assert j < n;
    assert b[j] == b[..n][j] == c[..n][j] == c[j];
    if IgnorableAt(a, i) || IgnorableAt(b, j) {
      CutSame(a, b, c, n, if IgnorableAt(a, i) then i + 1 else i, if IgnorableAt(b, j) then j + 1 else j,
              diag || DiagnosticsDiffer(a, b, i, j));
    } else if i < |a| && RecordDiff(a[i], b[j]).None? {
      CutSame(a, b, c, n, i + 1, j + 1, diag);
    }
  }

  /** The result reported for a cut is the one reported for the whole target, down to every value. */
  lemma CutReports(a: seq<Record>, b: seq<Record>, c: seq<Record>, n: nat)
    requires AllReadable(a) && AllReadable(b) && AllReadable(c)
    requires n <= |b| && n <= |c| && b[..n] == c[..n]
    requires CompareFrom(a, b, 0, 0, false).Differs? && CompareFrom(a, b, 0, 0, false).j < n
    ensures CompareFrom(a, c, 0, 0, false) == CompareFrom(a, b, 0, 0, false)
    ensures CompareRecords(a, c) == CompareRecords(a, b)
  {
    hide RecordDiff, CompareFrom, LastOf;
    CutSame(a, b, c, n, 0, 0, false);
    var j := CompareFrom(a, b, 0, 0, false).j;
    assert b[j] == b[..n][j] == c[..n][j] == c[j];
  }

  lemma FieldValueIsProjection(l: Record, r: Record)
    requires Readable(l) && Readable(r)
    requires RecordDiff(l, r).Some? && RecordDiff(l, r).value.kind == FieldValue
    ensures l.kind == AUTHORITATIVE_PROJECTION
  {
    hide CommandDiff, ProjectionDiff;
    if IsCommand(l.kind) && l.kind == r.kind {
      CommandKind(l.kind, l.payload, r.payload);
    }
  }

  /** A target cut before the diverging record meets its fresh terminal while the oracle still has a
      significant, non-terminal record to show. */
  lemma {:induction false} ShorterCut(a: seq<Record>, b: seq<Record>, c: seq<Record>, i: nat, j: nat, d1: bool, d2: bool)
    requires AllReadable(a) && AllReadable(b) && AllReadable(c)
    requires i <= |a| && j < |c| && |c| - 1 <= |b| && c[..|c| - 1] == b[..|c| - 1]
    requires c[|c| - 1].kind == TERMINAL
    requires forall k :: 0 <= k < |a| - 1 ==> a[k].kind != TERMINAL
    requires CompareFrom(a, b, i, j, d1).Differs?
    requires CompareFrom(a, b, i, j, d1).j >= |c| - 1
    requires var x := CompareFrom(a, b, i, j, d1).i; x < |a| - 1 && !Ignorable(a[x])
    ensures var o := CompareFrom(a, c, i, j, d2);
      o.Differs? && o.difference == Base(RecordDivergence) && o.j == |c| - 1
    decreases |a| - i + |c| - j
  {
    hide RecordDiff;
    var n := |c| - 1;
    if j < n {
      assert b[j] == b[..n][j] == c[..n][j] == c[j];
      if IgnorableAt(a, i) || IgnorableAt(b, j) {
        var i', j' := if IgnorableAt(a, i) then i + 1 else i, if IgnorableAt(b, j) then j + 1 else j;
        ShorterCut(a, b, c, i', j', d1 || DiagnosticsDiffer(a, b, i, j), d2 || DiagnosticsDiffer(a, c, i, j));
      } else {
        ShorterCut(a, b, c, i + 1, j + 1, d1, d2);
      }
    } else {
      MeetsTerminal(a, c, i, CompareFrom(a, b, i, j, d1).i, d2);
    }
  }

  lemma {:induction false} MeetsTerminal(a: seq<Record>, c: seq<Record>, i: nat, x: nat, diag: bool)
    requires AllReadable(a) && AllReadable(c) && c != [] && c[|c| - 1].kind == TERMINAL
    requires i <= x < |a| - 1 && !Ignorable(a[x])
    requires forall k :: 0 <= k < |a| - 1 ==> a[k].kind != TERMINAL
    ensures var o := CompareFrom(a, c, i, |c| - 1, diag);
      o.Differs? && o.difference == Base(RecordDivergence) && o.j == |c| - 1
    decreases x - i
  {
    if Ignorable(a[i]) {
      MeetsTerminal(a, c, i + 1, x, diag || DiagnosticsDiffer(a, c, i, |c| - 1));
    }
  }

  /** A comparison that stops at the last target record gets as far with that record replaced. */
  lemma {:induction false} ReachesLast(a: seq<Record>, b: seq<Record>, c: seq<Record>, i: nat, j: nat, diag: bool)
    requires AllReadable(a) && AllReadable(b) && AllReadable(c)
    requires c != [] && |c| == |b| && b[..|c| - 1] == c[..|c| - 1]
    requires !Ignorable(b[|c| - 1]) && !Ignorable(c[|c| - 1])
    requires i <= |a| && j < |c|
    requires CompareFrom(a, b, i, j, diag).Differs?
    requires CompareFrom(a, b, i, j, diag).j == |c| - 1 && CompareFrom(a, b, i, j, diag).i < |a|
    ensures var o := CompareFrom(a, b, i, j, diag);
      CompareFrom(a, c, i, j, diag) == CompareFrom(a, c, o.i, o.j, o.diagnosticsDiffer)
      && !Ignorable(a[o.i])
    decreases |a| - i + |c| - j
  {
    hide RecordDiff, Ignorable, Readable;
    var n := |c| - 1;
    assert j < n ==> b[j] == b[..n][j] == c[..n][j] == c[j];
    if IgnorableAt(a, i) || IgnorableAt(b, j) {
      ReachesLast(a, b, c, if IgnorableAt(a, i) then i + 1 else i, if IgnorableAt(b, j) then j + 1 else j,
                  diag || DiagnosticsDiffer(a, b, i, j));
    } else if RecordDiff(a[i], b[j]).None? {
      ReachesLast(a, b, c, i + 1, j + 1, diag);
    }
  }
}
