/** The per-record checks of parity/src/tape_reader.c: header rules, fixed payloads and the command
    life cycle, as a state machine over records. */
module LifeCycle {
  import opened Wrappers
  import opened Bytes
  import opened TapeFormat
  import opened FieldRegistry
  import Projection

  type Digest = d: bytes | |d| == 32 witness Zeros(32)

  /** What the library is linked with and configured by: the field registry, the hash provider, the
      canonical-header validator, and the two local limits. */
  datatype Context = Context(registry: Registry, sha256: bytes -> Digest, headerStatus: bytes -> Status,
                             maxTapeBytes: nat, maxRecordCount: nat)
  {
    predicate Valid() {
      SortedById(registry) && maxTapeBytes <= MAX_TAPE_BYTES && maxRecordCount <= MAX_RECORD_COUNT
    }

    /** The same library with no limits but the format's own. */
    function Unlimited(): Context {
      this.(maxTapeBytes := MAX_TAPE_BYTES, maxRecordCount := MAX_RECORD_COUNT)
    }
  }

  predicate FlagsOk(flags: nat) {
    flags / 0x1_0000 == 0 && flags % 2 == 0
  }

  predicate OptionalDiagnostics(flags: nat) {
    flags / 2 % 2 == 1
  }

  datatype Phase = Idle | Intended | Tested(succeeded: bool) | Executed

  /** The scalar state the reader carries from record to record. */
  datatype ReadState = ReadState(havePrevious: bool, step: u64, tick: u64, phase: Phase, command: u32,
                                 commands: nat, sawProjection: bool, lastKind: u16)

  const START := ReadState(false, 0, 0, Idle, 0, 0, false, 0)

  /** The checks on a record header at position `sequence`. */
  function HeaderStatus(sequence: nat, st: ReadState, h: RecordHeader): Status {
    if h.reserved != 0 then Reserved
    else if h.payloadBytes > MAX_RECORD_PAYLOAD_BYTES then Limit
    else if h.sequence != sequence then Sequence
    else if h.flags / 2 != 0 then Reserved
    else if !KnownRecord(h.kind) && Required(h.flags) then Version
    else if KnownRecord(h.kind) && h.version != 1 then Version
    else if KnownRecord(h.kind) && !IsDiagnostic(h.kind) && !Required(h.flags) then Structure
    else if st.havePrevious && (h.step < st.step || h.tick < st.tick) then Sequence
    else OK
  }

  /** `validate_fixed_payload`. */
  function FixedPayloadStatus(kind: u16, p: bytes): Status {
    if kind == REPLAY_START then
      if |p| != 12 then Structure
      else if U16At(p, 0) != 1 then Version
      else if p[2] == 0 || p[3] != 0 then Reserved
      else OK
    else if kind == NAMED_CHECKPOINT then
      if |p| != 8 then Structure
      else if U16At(p, 0) != 1 then Version
      else if U16At(p, 2) == 0 || U16At(p, 2) > 8 then Schema
      else if U32At(p, 4) != 0 then Reserved
      else OK
    else if kind == TERMINAL then
      if |p| != 8 then Structure
      else if U16At(p, 0) != 1 then Version
      else if U32At(p, 4) != 0 then Reserved
      else OK
    else OK
  }

  /** `validate_command_payload` for an intent. */
  function IntentStatus(p: bytes): Status {
    if |p| < 24 then Truncated
    else if U16At(p, 0) != 1 then Version
    else if U16At(p, 2) != 0 || U32At(p, 20) != 0 then Reserved
    else if 24 + U32At(p, 16) != |p| then Structure
    else OK
  }

  /** `validate_command_payload` for a test or execution result of command `expected`. */
  function OutcomeStatus(p: bytes, expected: u32): Status {
    if |p| < 32 then Truncated
    else if U16At(p, 0) != 1 then Version
    else if p[3] != 0 || p[2] > 1 then Reserved
    else if 32 + U32At(p, 28) != |p| || U32At(p, 4) != expected then Structure
    else OK
  }

  /** The command life cycle: intent, test, execution after a successful test, projection. */
  ghost function CommandStep(ctx: Context, st: ReadState, kind: u16, p: bytes): Result<ReadState, Status> {
    if kind == COMMAND_INTENT then
      if st.phase != Idle then Failure(Structure)
      else if st.commands + 1 > MAX_COMMAND_COUNT then Failure(Limit)
      else if IntentStatus(p) != OK then Failure(IntentStatus(p))
      else Success(st.(phase := Intended, command := U32At(p, 4), commands := st.commands + 1))
    else if kind == COMMAND_TEST_RESULT then
      if st.phase != Intended then Failure(Structure)
      else if OutcomeStatus(p, st.command) != OK then Failure(OutcomeStatus(p, st.command))
      else Success(st.(phase := Tested(p[2] != 0)))
    else if kind == COMMAND_EXEC_RESULT then
      if st.phase != Tested(true) then Failure(Structure)
      else if OutcomeStatus(p, st.command) != OK then Failure(OutcomeStatus(p, st.command))
      else Success(st.(phase := Executed))
    else if kind == AUTHORITATIVE_PROJECTION then
      if st.phase != Idle && st.phase != Executed && st.phase != Tested(false) then Failure(Structure)
      else if Projection.ProjectionStatus(ctx.registry, p) != OK
      then Failure(Projection.ProjectionStatus(ctx.registry, p))
      else Success(st.(phase := Idle, sawProjection := true))
    else Success(st)
  }

  /** Everything the reader checks once a record's bytes are known to be there. */
  ghost function BodyStep(ctx: Context, flags: u32, count: nat, sequence: nat, st: ReadState,
                          kind: u16, p: bytes): Result<ReadState, Status>
  {
    if sequence == 0 && kind != REPLAY_START then Failure(Structure)
    else if kind == TERMINAL && (sequence + 1 != count || st.phase != Idle) then Failure(Structure)
    else if kind != TERMINAL && sequence + 1 == count then Failure(Structure)
    else if kind == TRACE_WARNING && !OptionalDiagnostics(flags) then Failure(Structure)
    else if FixedPayloadStatus(kind, p) != OK then Failure(FixedPayloadStatus(kind, p))
    else CommandStep(ctx, st, kind, p)
  }

  /** One whole step over a record. */
  ghost function RecordStep(ctx: Context, flags: u32, count: nat, sequence: nat, st: ReadState, r: Record)
    : Result<ReadState, Status>
  {
    var s := HeaderStatus(sequence, st, HeaderOf(r));
    if s != OK then Failure(s)
    else
      match BodyStep(ctx, flags, count, sequence, st, r.kind, r.payload)
      case Failure(e) => Failure(e)
      case Success(next) => Success(Advance(next, HeaderOf(r)))
  }

  function Advance(st: ReadState, h: RecordHeader): ReadState {
    st.(havePrevious := true, step := h.step, tick := h.tick, lastKind := h.kind)
  }

  /** The state after a run of records, when every one of them passes. */
  ghost function Run(ctx: Context, flags: u32, count: nat, sequence: nat, st: ReadState, rs: seq<Record>)
    : Result<ReadState, Status>
    decreases |rs|
  {
    if rs == [] then Success(st)
    else
      match RecordStep(ctx, flags, count, sequence, st, rs[0])
      case Failure(e) => Failure(e)
      case Success(next) => Run(ctx, flags, count, sequence + 1, next, rs[1..])
  }

  lemma {:induction false} RunSplit(ctx: Context, flags: u32, count: nat, sequence: nat, st: ReadState,
                                    a: seq<Record>, b: seq<Record>)
    ensures Run(ctx, flags, count, sequence, st, a + b)
         == match Run(ctx, flags, count, sequence, st, a)
            case Failure(e) => Failure(e)
            case Success(mid) => Run(ctx, flags, count, sequence + |a|, mid, b)
    decreases |a|
  {
    hide RecordStep;
    if a == [] {
      assert a + b == b;
    } else {
      assert (a + b)[1..] == a[1..] + b;
      match RecordStep(ctx, flags, count, sequence, st, a[0])
      case Failure(_) =>
      case Success(next) => RunSplit(ctx, flags, count, sequence + 1, next, a[1..], b);
    }
  }

  /** No step looks at the local limits. */
  lemma {:induction false} RunUnlimited(ctx: Context, flags: u32, count: nat, sequence: nat, st: ReadState, rs: seq<Record>)
    ensures Run(ctx.Unlimited(), flags, count, sequence, st, rs) == Run(ctx, flags, count, sequence, st, rs)
    decreases |rs|
  {
    hide HeaderStatus, FixedPayloadStatus, IntentStatus, OutcomeStatus, Projection.ProjectionStatus;
    if rs != [] {
      match RecordStep(ctx, flags, count, sequence, st, rs[0])
      case Failure(_) =>
      case Success(next) => RunUnlimited(ctx, flags, count, sequence + 1, next, rs[1..]);
    }
  }
}
