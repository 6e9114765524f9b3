/** Why an input is refused as a tape: the first fault in its bytes, by offset, after the records before it, and the
    status it leads to. An input gets a status exactly when it has a fault with that status. */
module TapeFaults {
  import opened Wrappers
  import opened Bytes
  import opened CheckedArithmetic
  import opened TapeFormat
  import opened FieldRegistry
  import opened LifeCycle
  import opened TapeReader
  import opened TapeRules
  import opened TapeBijection
  import Projection

  // ---- Prefix and trailer ----

  /** The first fault in the prefix, if any. */
  function PrefixFault(b: bytes, maxBytes: nat, maxRecords: nat): Option<Status> {
    if |b| < 64 then Some(Truncated)
    else if |b| > maxBytes then Some(Limit)
    else if b[..8] != [0x4F, 0x54, 0x52, 0x4C, 0x54, 0x41, 0x50, 0] then Some(Magic)
    else if U16At(b, 8) != 1 || U16At(b, 10) != 0 then Some(Version)
    else if b[12] != 1 then Some(Endian)
    else if b[13] != 1 then Some(HashAlgorithm)
    else if U16At(b, 14) != 64 then Some(Structure)
    else if U32At(b, 16) == 0 then Some(Schema)
    else if U32At(b, 16) > 1_048_576 then Some(Limit)
    else if U32At(b, 20) > 0xFFFF then Some(Version)
    else if U32At(b, 20) % 2 == 1 then Some(Structure)
    else if U64At(b, 24) > maxRecords then Some(Limit)
    else if U64At(b, 56) != 0 then Some(Reserved)
    else None
  }

  /** The first fault in the declared lengths, the trailer, the checksum or the header. */
  function TrailerFault(ctx: Context, b: bytes): Option<Status>
    requires |b| >= 64
  {
    var header: nat, records: nat := U32At(b, 16), U64At(b, 32);
    var at := 64 + header + records;
    if at + 64 > 0xFFFF_FFFF_FFFF_FFFF then Some(Overflow)
    else if |b| < at + 64 then Some(Truncated)
    else if |b| > at + 64 then Some(Structure)
    else if U64At(b, 24) == 0 || U64At(b, 24) > records / 40 then Some(Structure)
    else if b[at..at + 8] != [0x4F, 0x54, 0x52, 0x4C, 0x45, 0x4E, 0x44, 0] then Some(Magic)
    else if U64At(b, at + 8) != U64At(b, 24) || U64At(b, at + 16) != at then Some(Structure)
    else if U64At(b, at + 56) != 0 then Some(Reserved)
    else if b[at + 24..at + 56] != ctx.sha256(b[..at]) then Some(Checksum)
    else if ctx.headerStatus(b[64..64 + header]) != OK then Some(ctx.headerStatus(b[64..64 + header]))
    else None
  }

  // ---- One record ----

  function StartFault(p: bytes): Option<Status> {
    if |p| != 12 then Some(Structure) else if U16At(p, 0) != 1 then Some(Version)
    else if p[2] == 0 || p[3] != 0 then Some(Reserved) else None
  }

  function CheckpointFault(p: bytes): Option<Status> {
    if |p| != 8 then Some(Structure) else if U16At(p, 0) != 1 then Some(Version)
    else if !(1 <= U16At(p, 2) <= 8) then Some(Schema) else if U32At(p, 4) != 0 then Some(Reserved) else None
  }

  function TerminalFault(p: bytes): Option<Status> {
    if |p| != 8 then Some(Structure) else if U16At(p, 0) != 1 then Some(Version)
    else if U32At(p, 4) != 0 then Some(Reserved) else None
  }

  function IntentFault(p: bytes): Option<Status> {
    if |p| < 24 then Some(Truncated) else if U16At(p, 0) != 1 then Some(Version)
    else if U16At(p, 2) != 0 || U32At(p, 20) != 0 then Some(Reserved)
    else if |p| != 24 + U32At(p, 16) then Some(Structure) else None
  }

  /** A result of the command of `asked`. */
  function OutcomeFault(p: bytes, asked: Record): Option<Status> {
    if |p| < 32 then Some(Truncated) else if U16At(p, 0) != 1 then Some(Version)
    else if p[2] > 1 || p[3] != 0 then Some(Reserved)
    else if |p| != 32 + U32At(p, 28) || |asked.payload| < 8 || U32At(p, 4) != U32At(asked.payload, 4) then Some(Structure) else None
  }

  /** The last command or projection record, if any. */
  function Latest(rs: seq<Record>): (r: Option<Record>)
    ensures r.None? <==> forall j :: 0 <= j < |rs| ==> !(2 <= rs[j].kind <= 5)
    ensures r.Some? ==> exists i :: LastBefore(rs, i, |rs|) && r.value == rs[i]
  {
    PriorOnly(rs, |rs|);
    var i := Prior(rs, |rs|);
    if i == -1 then None else Some(rs[i])
  }

  /** A command waits for its test, or a successful one for its execution or its projection. */
  predicate Open(rs: seq<Record>) {
    Latest(rs).Some? && Latest(rs).value.kind != 5
  }

  /** The first fault in a record's payload and its place, after the records `rs`. */
  ghost function PayloadFault(registry: Registry, flags: nat, count: nat, rs: seq<Record>, kind: u16, p: bytes)
    : Option<Status>
  {
    var latest := Latest(rs);
    if rs == [] && kind != 1 then Some(Structure)
    else if kind == 11 && (|rs| + 1 != count || Open(rs)) then Some(Structure)
    else if kind != 11 && |rs| + 1 == count then Some(Structure)
    else if kind == 10 && flags / 2 % 2 == 0 then Some(Structure)
    else
      match kind
      case 1 => StartFault(p)
      case 2 => if Open(rs) then Some(Structure) else if Intents(rs) >= 1_000_000 then Some(Limit) else IntentFault(p)
      case 3 => if latest.None? || latest.value.kind != 2 then Some(Structure) else OutcomeFault(p, latest.value)
      case 4 => if latest.None? || !Passed(latest.value) then Some(Structure) else OutcomeFault(p, latest.value)
      case 5 =>
        if latest.Some? && (latest.value.kind == 2 || Passed(latest.value)) then Some(Structure)
        else if Projection.ProjectionStatus(registry, p) != OK then Some(Projection.ProjectionStatus(registry, p)) else None
      case 6 => CheckpointFault(p)
      case 11 => TerminalFault(p)
      case _ => None
  }

  /** The size of a record with a payload of `n` bytes. */
  function Framed(n: nat): nat {
    (40 + n + 7) / 8 * 8
  }

  /** The first fault in the header of the record at the front of `b`, after the records `rs`. */
  function HeaderFault(rs: seq<Record>, b: bytes): Option<Status>
    requires |b| >= 40
  {
    var (kind, version, required, step, tick) := (U16At(b, 0), U16At(b, 2), U32At(b, 4), U64At(b, 16), U64At(b, 24));
    if U32At(b, 36) != 0 then Some(Reserved)
    else if U32At(b, 32) > 67_108_864 then Some(Limit)
    else if U64At(b, 8) != |rs| then Some(Sequence)
    else if required > 1 then Some(Reserved)
    else if (if 1 <= kind <= 11 then version != 1 else required == 1) then Some(Version)
    else if (1 <= kind <= 6 || kind == 11) && required == 0 then Some(Structure)
    else if rs != [] && (step < rs[|rs| - 1].step || tick < rs[|rs| - 1].tick) then Some(Sequence)
    else None
  }

  /** The first fault in the record at the front of `b`. */
  ghost function RecordFault(registry: Registry, flags: nat, count: nat, rs: seq<Record>, b: bytes): Option<Status> {
    if |b| < 40 then Some(Truncated)
    else if HeaderFault(rs, b).Some? then HeaderFault(rs, b)
    else
      var n := U32At(b, 32);
      if |b| < Framed(n) then Some(Truncated)
      else if exists i :: 40 + n <= i < Framed(n) && b[i] != 0 then Some(Canonical)
      else PayloadFault(registry, flags, count, rs, U16At(b, 0), b[40..40 + n])
  }

  // ---- Whole inputs ----

  /** Good records, then a faulty one. */
  ghost predicate RecordsFault(registry: Registry, flags: nat, count: nat, region: bytes, e: Status) {
    exists rs: seq<Record>, rest: bytes ::
      && region == EncodeRecords(rs) + rest && |rs| < count && BeginningObeys(registry, flags, count, rs)
      && RecordFault(registry, flags, count, rs, rest) == Some(e)
  }

  /** As many good records as announced, but without a projection, or with bytes left over, or other maxima. */
  ghost predicate EndFault(registry: Registry, flags: nat, count: nat, region: bytes, step: nat, tick: nat) {
    exists rs: seq<Record>, rest: bytes ::
      && region == EncodeRecords(rs) + rest && |rs| == count && count > 0 && BeginningObeys(registry, flags, count, rs)
      && (rest != [] || (forall k :: 0 <= k < count ==> rs[k].kind != 5) || rs[count - 1].step != step || rs[count - 1].tick != tick)
  }

  ghost predicate Refused(ctx: Context, b: bytes, e: Status) {
    var prefix := PrefixFault(b, ctx.maxTapeBytes, ctx.maxRecordCount);
    if prefix.Some? then e == prefix.value
    else if TrailerFault(ctx, b).Some? then e == TrailerFault(ctx, b).value
    else
      var (flags, count, region) := (U32At(b, 20), U64At(b, 24), b[64 + U32At(b, 16)..|b| - 64]);
      || RecordsFault(ctx.registry, flags, count, region, e)
      || (EndFault(ctx.registry, flags, count, region, U64At(b, 40), U64At(b, 48)) && e == Structure)
  }

  // ---- The reader answers so ----

  lemma PrefixExactly(ctx: Context, b: bytes)
    requires ctx.Valid()
    ensures PrefixStatus(ctx, b) == PrefixFault(b, ctx.maxTapeBytes, ctx.maxRecordCount).GetOr(OK)
    ensures PrefixFault(b, ctx.maxTapeBytes, ctx.maxRecordCount) != Some(OK)
  {
    hide UInt, U16At, U32At, U64At, SortedById;
  }

  lemma TrailerExactly(ctx: Context, b: bytes)
    requires ctx.Valid() && PrefixStatus(ctx, b) == OK
    ensures EnvelopeStatus(ctx, b) == TrailerFault(ctx, b).GetOr(OK)
    ensures TrailerFault(ctx, b) != Some(OK)
  {
    hide UInt, PrefixStatus;
    assert |b| >= 64 by { PrefixLong(ctx, b); }
  }

  lemma PrefixLong(ctx: Context, b: bytes)
    requires PrefixStatus(ctx, b) == OK
    ensures |b| >= 64
  {
  }

  // ---- One record ----

  lemma HeaderExactly(rs: seq<Record>, st: ReadState, b: bytes)
    requires |b| >= 40 && Stands(rs, |rs|, st)
    ensures HeaderStatus(|rs|, st, DecodeHeader(b[..40])) == HeaderFault(rs, b).GetOr(OK)
    ensures HeaderFault(rs, b) != Some(OK)
  {
    SameHeader(b);
    hide UInt, Intents, LastBefore, Leaves, NoneBefore, DecodeHeader;
  }

  lemma SameHeader(b: bytes)
    requires |b| >= 40
    ensures DecodeHeader(b[..40]) ==
      RecordHeader(U16At(b, 0), U16At(b, 2), U32At(b, 4), U64At(b, 8), U64At(b, 16), U64At(b, 24), U32At(b, 32), U32At(b, 36))
  {
    hide UInt;
    SubRange(b, 0, 40, 0, 2); SubRange(b, 0, 40, 2, 4); SubRange(b, 0, 40, 4, 8);
    SubRange(b, 0, 40, 8, 16); SubRange(b, 0, 40, 16, 24); SubRange(b, 0, 40, 24, 32);
    SubRange(b, 0, 40, 32, 36); SubRange(b, 0, 40, 36, 40);
  }

  /** The reader's phase, read off the last command or projection record. */
  lemma LatestStands(rs: seq<Record>, st: ReadState)
    requires Stands(rs, |rs|, st)
    ensures st.commands == Intents(rs)
    ensures st.phase == Idle <==> !Open(rs)
    ensures st.phase == Intended <==> Latest(rs).Some? && Latest(rs).value.kind == 2
    ensures st.phase == Tested(true) <==> Latest(rs).Some? && Passed(Latest(rs).value)
    ensures Latest(rs).Some? && Latest(rs).value.kind in {2, 3} ==>
      |Latest(rs).value.payload| >= 8 && st.command == U32At(Latest(rs).value.payload, 4)
  {
    hide Intents, UInt;
    StandsPrior(rs, |rs|, st);
    PriorOnly(rs, |rs|);
    assert rs[..|rs|] == rs;
  }

  lemma FixedFaults(kind: u16, p: bytes)
    ensures FixedPayloadStatus(kind, p) ==
      (match kind
       case 1 => StartFault(p)
       case 6 => CheckpointFault(p)
       case 11 => TerminalFault(p)
       case _ => None).GetOr(OK)
    ensures StartFault(p) != Some(OK) && CheckpointFault(p) != Some(OK) && TerminalFault(p) != Some(OK)
  {
    hide UInt;
  }

  lemma IntentFaults(p: bytes)
    ensures IntentStatus(p) == IntentFault(p).GetOr(OK) && IntentFault(p) != Some(OK)
  {
    hide UInt;
  }

  lemma OutcomeFaults(p: bytes, asked: Record)
    requires |asked.payload| >= 8
    ensures OutcomeStatus(p, U32At(asked.payload, 4)) == OutcomeFault(p, asked).GetOr(OK) && OutcomeFault(p, asked) != Some(OK)
  {
    hide UInt;
  }

  lemma CommandFaults(ctx: Context, flags: u32, count: nat, rs: seq<Record>, st: ReadState, kind: u16, p: bytes)
    requires Stands(rs, |rs|, st)
    requires rs != [] && |rs| + 1 != count && kind in {2, 3, 4, 5}
    ensures var step := CommandStep(ctx, st, kind, p);
      PayloadFault(ctx.registry, flags, count, rs, kind, p) == if step.Failure? then Some(step.error) else None
    ensures PayloadFault(ctx.registry, flags, count, rs, kind, p) != Some(OK)
  {
    hide Stands, Open, Latest, Passed, Intents, IntentStatus, OutcomeStatus, IntentFault, OutcomeFault, Projection.ProjectionStatus, UInt;
    LatestStands(rs, st);
    IntentFaults(p);
    if Latest(rs).Some? && |Latest(rs).value.payload| >= 8 {
      OutcomeFaults(p, Latest(rs).value);
    }
    if st.phase == Tested(true) {
      PassedKind(Latest(rs).value);
    }
  }

  lemma PassedKind(r: Record)
    ensures Passed(r) ==> r.kind == 3
  {
  }

  lemma PayloadExactly(ctx: Context, flags: u32, count: nat, rs: seq<Record>, st: ReadState, kind: u16, p: bytes)
    requires |rs| < count && Stands(rs, |rs|, st)
    ensures var step := BodyStep(ctx, flags, count, |rs|, st, kind, p);
      PayloadFault(ctx.registry, flags, count, rs, kind, p) == if step.Failure? then Some(step.error) else None
    ensures PayloadFault(ctx.registry, flags, count, rs, kind, p) != Some(OK)
  {
    hide Stands, Open, Latest, Passed, Intents, IntentFault, OutcomeFault, Projection.ProjectionStatus, UInt, CommandStep,
      FixedPayloadStatus, StartFault, CheckpointFault, TerminalFault;
    LatestStands(rs, st);
    FixedFaults(kind, p);
    if rs != [] && |rs| + 1 != count && kind in {2, 3, 4, 5} {
      CommandFaults(ctx, flags, count, rs, st, kind, p);
    } else if kind !in {2, 3, 4, 5} {
      OtherKinds(ctx, st, kind, p);
    }
  }

  lemma OtherKinds(ctx: Context, st: ReadState, kind: u16, p: bytes)
    requires kind !in {2, 3, 4, 5}
    ensures CommandStep(ctx, st, kind, p) == Success(st)
  {
  }

  lemma FramedExactly(n: nat)
    ensures FramedSize(n) == Framed(n) == 40 + n + Pad8(40 + n)
  {
  }

  /** One step of the reader fails exactly with the first fault of the record it is at. */
  lemma RecordExactly(ctx: Context, flags: u32, count: nat, rs: seq<Record>, st: ReadState, b: bytes)
    requires |rs| < count && Stands(rs, |rs|, st)
    ensures var step := ReadStep(ctx, flags, count, |rs|, st, b);
      RecordFault(ctx.registry, flags, count, rs, b) == if step.Failure? then Some(step.error) else None
    ensures RecordFault(ctx.registry, flags, count, rs, b) != Some(OK)
  {
    hide Stands, HeaderStatus, HeaderFault, PayloadFault, BodyStep, UInt, DecodeHeader, FramedSize, Framed;
    if |b| >= 40 {
      SameHeader(b);
      HeaderExactly(rs, st, b);
      var n: nat := U32At(b, 32);
      FramedExactly(n);
      if |b| >= Framed(n) {
        ZerosExactly(b, 40 + n, Framed(n));
        PayloadExactly(ctx, flags, count, rs, st, U16At(b, 0), b[40..40 + n]);
      }
    }
  }

  // ---- The record region ----

  /** After the records `rs`, the step on what follows them fails. */
  ghost predicate StopsAfter(ctx: Context, flags: u32, count: nat, sequence: nat, st: ReadState, rs: seq<Record>, rest: bytes,
                             e: Status)
  {
    var run := Run(ctx, flags, count, sequence, st, rs);
    sequence + |rs| < count && run.Success? && ReadStep(ctx, flags, count, sequence + |rs|, run.value, rest) == Failure(e)
  }

  lemma {:induction false} ReadAllStops(ctx: Context, flags: u32, count: nat, sequence: nat, st: ReadState, b: bytes)
    returns (rs: seq<Record>, rest: bytes)
    requires sequence <= count && ReadAll(ctx, flags, count, sequence, st, b).Failure?
    ensures b == EncodeRecords(rs) + rest
    ensures StopsAfter(ctx, flags, count, sequence, st, rs, rest, ReadAll(ctx, flags, count, sequence, st, b).error)
    decreases count - sequence
  {
    hide RecordStep, ReadStep, EncodeRecord, FramedSize;
    if ReadStep(ctx, flags, count, sequence, st, b).Failure? {
      rs, rest := [], b;
      assert b == EncodeRecords([]) + b;
    } else {
      var (r, next) := ReadStep(ctx, flags, count, sequence, st, b).value;
      StepSound(ctx, flags, count, sequence, st, b);
      rs, rest := ReadAllStops(ctx, flags, count, sequence + 1, next, b[FramedSize(|r.payload|)..]);
      assert ([r] + rs)[1..] == rs;
      assert b == EncodeRecords([r] + rs) + rest;
      rs := [r] + rs;
    }
  }

  lemma {:induction false} StopsReadAll(ctx: Context, flags: u32, count: nat, sequence: nat, st: ReadState, rs: seq<Record>,
                                        rest: bytes, e: Status)
    requires StopsAfter(ctx, flags, count, sequence, st, rs, rest, e)
    ensures ReadAll(ctx, flags, count, sequence, st, EncodeRecords(rs) + rest) == Failure(e)
    decreases |rs|
  {
    hide RecordStep, ReadStep, EncodeRecord, FramedSize;
    if rs == [] {
      assert EncodeRecords(rs) + rest == rest;
    } else {
      var tail := EncodeRecords(rs[1..]) + rest;
      var next := RecordStep(ctx, flags, count, sequence, st, rs[0]).value;
      assert EncodeRecords(rs) + rest == EncodeRecord(rs[0]) + tail;
      StepComplete(ctx, flags, count, sequence, st, rs[0], tail);
      StopsReadAll(ctx, flags, count, sequence + 1, next, rs[1..], rest, e);
    }
  }

  lemma BeginningExactly(ctx: Context, flags: u32, count: nat, rs: seq<Record>)
    requires SortedById(ctx.registry)
    ensures var r := Run(ctx, flags, count, 0, START, rs);
      (r.Success? <==> BeginningObeys(ctx.registry, flags, count, rs)) && (r.Success? ==> Stands(rs, |rs|, r.value))
  {
    hide Run, RuleAt, Intents, Stands;
    assert rs[..|rs|] == rs;
    RunExact(ctx, flags, count, rs, |rs|);
  }

  /** The record loop fails exactly with a records fault. */
  lemma RecordsExactly(ctx: Context, flags: u32, count: nat, region: bytes, e: Status)
    requires SortedById(ctx.registry)
    ensures ReadAll(ctx, flags, count, 0, START, region) == Failure(e) <==> RecordsFault(ctx.registry, flags, count, region, e)
  {
    hide ReadAll, ReadStep, Run, BeginningObeys, Stands, RecordFault, EncodeRecords;
    if ReadAll(ctx, flags, count, 0, START, region) == Failure(e) {
      var rs, rest := ReadAllStops(ctx, flags, count, 0, START, region);
      BeginningExactly(ctx, flags, count, rs);
      RecordExactly(ctx, flags, count, rs, Run(ctx, flags, count, 0, START, rs).value, rest);
    }
    if RecordsFault(ctx.registry, flags, count, region, e) {
      var rs: seq<Record>, rest: bytes :|
        && region == EncodeRecords(rs) + rest && |rs| < count && BeginningObeys(ctx.registry, flags, count, rs)
        && RecordFault(ctx.registry, flags, count, rs, rest) == Some(e);
      BeginningExactly(ctx, flags, count, rs);
      RecordExactly(ctx, flags, count, rs, Run(ctx, flags, count, 0, START, rs).value, rest);
      StopsReadAll(ctx, flags, count, 0, START, rs, rest, e);
    }
  }

  /** A region that is read to the end is refused exactly with an end fault. */
  lemma EndExactly(ctx: Context, p: Prefix, region: bytes)
    requires SortedById(ctx.registry) && p.recordCount > 0
    ensures var r := ReadAll(ctx, p.flags, p.recordCount, 0, START, region);
      EndFault(ctx.registry, p.flags, p.recordCount, region, p.maxStep, p.maxTick) <==>
        r.Success? && !EndOk(p, r.value.1, r.value.2)
  {
    hide ReadAll, Run, BeginningObeys, EncodeRecords;
    var r := ReadAll(ctx, p.flags, p.recordCount, 0, START, region);
    if r.Success? {
      var (rs, last, left) := r.value;
      ReadAllSound(ctx, p.flags, p.recordCount, 0, START, region);
      EndOf(ctx, p, rs);
    }
    if EndFault(ctx.registry, p.flags, p.recordCount, region, p.maxStep, p.maxTick) {
      var rs: seq<Record>, rest: bytes :|
        && region == EncodeRecords(rs) + rest && |rs| == p.recordCount
        && BeginningObeys(ctx.registry, p.flags, p.recordCount, rs)
        && (rest != [] || (forall k :: 0 <= k < p.recordCount ==> rs[k].kind != 5)
            || rs[p.recordCount - 1].step != p.maxStep || rs[p.recordCount - 1].tick != p.maxTick);
      EndOf(ctx, p, rs);
      ReadAllComplete(ctx, p.flags, p.recordCount, 0, START, rs, rest);
    }
  }

  /** What is known at the end of a run. */
  lemma EndOf(ctx: Context, p: Prefix, rs: seq<Record>)
    requires SortedById(ctx.registry) && |rs| == p.recordCount > 0
    ensures var run := Run(ctx, p.flags, p.recordCount, 0, START, rs);
      && (run.Success? <==> BeginningObeys(ctx.registry, p.flags, p.recordCount, rs))
      && (run.Success? ==>
            var (last, r) := (run.value, rs[|rs| - 1]);
            && last.step == r.step && last.tick == r.tick && last.lastKind == TERMINAL
            && (last.sawProjection <==> exists k :: 0 <= k < |rs| && rs[k].kind == 5))
  {
    hide Run, BeginningObeys, Intents, LastBefore, Leaves, NoneBefore;
    BeginningExactly(ctx, p.flags, p.recordCount, rs);
    if Run(ctx, p.flags, p.recordCount, 0, START, rs).Success? {
      RunLast(ctx, p.flags, p.recordCount, 0, START, rs);
    }
  }

  /** An input is refused with a status exactly when its first fault leads to it. */
  lemma RefusedExactly(ctx: Context, b: bytes, e: Status)
    requires ctx.Valid()
    ensures Validate(ctx, b) == Failure(e) <==> Refused(ctx, b, e)
  {
    hide PrefixStatus, EnvelopeStatus, PrefixFault, TrailerFault, ReadAll, EndOk, RecordsFault, EndFault, UInt;
    PrefixExactly(ctx, b);
    if PrefixStatus(ctx, b) == OK {
      TrailerExactly(ctx, b);
      if EnvelopeStatus(ctx, b) == OK {
        Counted(ctx, b);
        var p := DecodePrefix(b);
        var region := b[64 + p.headerBytes..|b| - 64];
        RecordsExactly(ctx, p.flags, p.recordCount, region, e);
        EndExactly(ctx, p, region);
      }
    }
  }

  lemma Counted(ctx: Context, b: bytes)
    requires PrefixStatus(ctx, b) == OK && EnvelopeStatus(ctx, b) == OK
    ensures |b| >= 128 + DecodePrefix(b).headerBytes && DecodePrefix(b).recordCount > 0
  {
    hide UInt;
  }
}
