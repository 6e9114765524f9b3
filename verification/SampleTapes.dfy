/** Small tapes over a registry of one row. They show that valid tapes exist, that what the format's description
    forbids or leaves out is accepted, and that the properties stated with a condition fail without it. */
module SampleTapes {
  import opened Wrappers
  import opened Bytes
  import opened TapeFormat
  import opened FieldRegistry
  import opened LifeCycle
  import opened TapeReader
  import opened Comparator
  import opened ComparatorExactness
  import opened Minimizer
  import MinimizerRun
  import Projection
  import PythonDecoder
  import TapeBijection
  import TapeRules

  /** One scalar byte. */
  const ROW := FieldMeta(1, VALUE_U8, 8, 1, 1, 0, 0, AUTHORITATIVE_FULL, SCALAR)

  /** A library with that row, any hash, every header acceptable and no limits but the format's. */
  function Library(sha256: bytes -> Digest): Context {
    Context([ROW], sha256, (header: bytes) => OK, MAX_TAPE_BYTES, MAX_RECORD_COUNT)
  }

  function StartPayload(boundary: byte): (p: bytes)
    ensures |p| == 12
  {
    LE(2, 1) + [boundary, 0] + Zeros(8)
  }

  const FIELD := Projection.Field(1, VALUE_U8, 0, 1, [7])

  function ProjectionPayload(): (p: bytes)
    ensures |p| == 48
  {
    LE(2, 1) + [0, 0] + LE(4, 1) + Zeros(16) + Projection.EncodeField(FIELD)
  }

  function EndPayload(reason: byte): (p: bytes)
    ensures |p| == 8
  {
    LE(2, 1) + [reason, 0] + LE(4, 0)
  }

  function Start(sequence: u64, boundary: byte): Record {
    Record(REPLAY_START, 1, RECORD_FLAG_REQUIRED, sequence, 0, 0, StartPayload(boundary))
  }

  function Projected(): Record {
    Record(AUTHORITATIVE_PROJECTION, 1, RECORD_FLAG_REQUIRED, 1, 0, 0, ProjectionPayload())
  }

  /** An empty optional record. */
  function Optional(kind: u16, version: u16): Record {
    Record(kind, version, 0, 2, 0, 0, [])
  }

  function End(reason: byte): Record {
    Record(TERMINAL, 1, RECORD_FLAG_REQUIRED, 3, 0, 0, EndPayload(reason))
  }

  /** A named checkpoint of kind `kind`. */
  function Checkpoint(kind: u16): Record {
    Record(NAMED_CHECKPOINT, 1, RECORD_FLAG_REQUIRED, 2, 0, 0, CheckpointPayload(kind))
  }

  function CheckpointPayload(kind: u16): (p: bytes)
    ensures |p| == 8
  {
    [1, 0] + LE(2, kind) + Zeros(4)
  }

  const UNKNOWN := 12

  /** What may stand between the projection and the end: a second start, a named checkpoint, a diagnostic or a record
      type from the future. */
  predicate MayFollow(r: Record) {
    || (exists kind: u16 :: 1 <= kind <= 8 && r == Checkpoint(kind))
    || (exists boundary: byte :: boundary != 0 && r == Start(2, boundary))
    || (exists kind: u16 :: RNG_DRAW_DIAGNOSTIC <= kind <= CARGO_DIAGNOSTIC && r == Optional(kind, 1))
    || (exists version: u16 :: r == Optional(UNKNOWN, version))
  }

  function Sample(header: bytes, boundary: byte, middle: Record, reason: byte): Tape {
    Tape(0, header, [Start(0, boundary), Projected(), middle, End(reason)])
  }

  // ---- Sample tapes are valid ----

  lemma StartPayloadOk(boundary: byte)
    requires boundary != 0
    ensures FixedPayloadStatus(REPLAY_START, StartPayload(boundary)) == OK
  {
    var p := StartPayload(boundary);
    assert p[0..2] == LE(2, 1);
    Widths();
    LoadStore(2, 1);
  }

  lemma EndPayloadOk(reason: byte)
    ensures FixedPayloadStatus(TERMINAL, EndPayload(reason)) == OK
  {
    var p := EndPayload(reason);
    assert p[0..2] == LE(2, 1) && p[4..8] == LE(4, 0);
    Widths();
    LoadStore(2, 1);
    LoadStore(4, 0);
  }

  lemma ProjectionOk()
    ensures Projection.ProjectionStatus([ROW], ProjectionPayload()) == OK
  {
    var registry := [ROW];
    var p := ProjectionPayload();
    RowAuthoritative();
    ProjectionHeaderOk();
    assert p[24..] == Projection.EncodeField(FIELD);
    assert [FIELD][1..] == [];
    assert Projection.EncodeFields([FIELD]) == Projection.EncodeField(FIELD) + [];
    assert Projection.IsProjection(registry, p, [FIELD]) by {
      assert Projection.FieldOk(ROW, FIELD);
      assert Projection.RelationsOk([FIELD], ROW, FIELD);
    }
    Projection.AcceptedIsProjection(registry, p, [FIELD]);
  }

  lemma RowAuthoritative()
    ensures Authoritative([ROW]) == [ROW]
  {
    assert [ROW][1..] == [];
    assert Authoritative([]) == [];
  }

  lemma ProjectionHeaderOk()
    ensures Projection.ProjectionHeaderStatus([ROW], ProjectionPayload()) == OK
  {
    hide Projection.EncodeField, Zeros;
    var p := ProjectionPayload();
    RowAuthoritative();
    assert p[0..2] == LE(2, 1) && p[4..8] == LE(4, 1);
    Widths();
    LoadStore(2, 1);
    LoadStore(4, 1);
  }

  lemma CheckpointPayloadParts(kind: u16)
    ensures var p := CheckpointPayload(kind); U16At(p, 0) == 1 && U16At(p, 2) == kind && U32At(p, 4) == 0
  {
    var p := CheckpointPayload(kind);
    Widths();
    LoadedBytes(p, 0);
    LoadedBytes(p, 4);
    LoadedBytes(p, 6);
    assert p[2..4] == LE(2, kind);
    LoadStore(2, kind);
  }

  lemma MiddleOk(middle: Record)
    requires MayFollow(middle)
    ensures FixedPayloadStatus(middle.kind, middle.payload) == OK
  {
    if middle.kind == NAMED_CHECKPOINT {
      var kind: u16 :| 1 <= kind <= 8 && middle == Checkpoint(kind);
      CheckpointPayloadParts(kind);
    }
    if middle.kind == REPLAY_START {
      var boundary: byte :| boundary != 0 && middle == Start(2, boundary);
      StartPayloadOk(boundary);
    }
  }

  /** The states of the reader along a sample tape. */
  function Along(k: nat, middle: Record): ReadState {
    if k == 0 then START
    else START.(havePrevious := true, sawProjection := k >= 2,
                lastKind := if k == 1 then REPLAY_START else if k == 2 then AUTHORITATIVE_PROJECTION
                            else if k == 3 then middle.kind else TERMINAL)
  }

  lemma EdgeSteps(ctx: Context, boundary: byte, middle: Record, reason: byte)
    requires boundary != 0
    ensures RecordStep(ctx, 0, 4, 0, Along(0, middle), Start(0, boundary)) == Success(Along(1, middle))
    ensures RecordStep(ctx, 0, 4, 3, Along(3, middle), End(reason)) == Success(Along(4, middle))
  {
    hide FixedPayloadStatus, StartPayload, EndPayload;
    StartPayloadOk(boundary);
    EndPayloadOk(reason);
  }

  lemma ProjectionStep(ctx: Context, middle: Record)
    requires ctx.registry == [ROW]
    ensures RecordStep(ctx, 0, 4, 1, Along(1, middle), Projected()) == Success(Along(2, middle))
  {
    hide Projection.ProjectionStatus, ProjectionPayload;
    ProjectionOk();
  }

  lemma MiddleStep(ctx: Context, middle: Record)
    requires MayFollow(middle)
    ensures RecordStep(ctx, 0, 4, 2, Along(2, middle), middle) == Success(Along(3, middle))
    ensures |middle.payload| <= 12
  {
    hide FixedPayloadStatus, StartPayload;
    MiddleOk(middle);
  }

  lemma SampleRun(ctx: Context, boundary: byte, middle: Record, reason: byte)
    requires ctx.registry == [ROW] && boundary != 0 && MayFollow(middle)
    ensures var rs := Sample([], boundary, middle, reason).records;
      Run(ctx, 0, 4, 0, START, rs) == Success(Along(4, middle))
  {
    hide RecordStep, MayFollow, Start, Projected, End;
    var rs := Sample([], boundary, middle, reason).records;
    EdgeSteps(ctx, boundary, middle, reason);
    ProjectionStep(ctx, middle);
    MiddleStep(ctx, middle);
    assert rs[1..] == [Projected(), middle, End(reason)];
    assert rs[1..][1..] == [middle, End(reason)];
    assert rs[1..][1..][1..] == [End(reason)];
    assert rs[1..][1..][1..][1..] == [];
    assert Run(ctx, 0, 4, 3, Along(3, middle), [End(reason)]) == Success(Along(4, middle));
    assert Run(ctx, 0, 4, 2, Along(2, middle), [middle, End(reason)]) == Success(Along(4, middle));
    assert Run(ctx, 0, 4, 1, Along(1, middle), [Projected(), middle, End(reason)]) == Success(Along(4, middle));
  }

  lemma SampleSize(boundary: byte, middle: Record, reason: byte)
    requires |middle.payload| <= 12
    ensures |EncodeRecords(Sample([], boundary, middle, reason).records)| <= 256
  {
    hide EncodeRecord, EncodeRecords, StartPayload, ProjectionPayload, EndPayload;
    var rs := Sample([], boundary, middle, reason).records;
    EmptyRegion();
    EncodeRecordsSnoc(rs, 0);
    EncodeRecordsSnoc(rs, 1);
    EncodeRecordsSnoc(rs, 2);
    EncodeRecordsSnoc(rs, 3);
    assert rs[..0] == [] && rs[..4] == rs;
  }

  lemma SampleValid(ctx: Context, header: bytes, boundary: byte, middle: Record, reason: byte)
    requires ctx.registry == [ROW] && ctx.maxTapeBytes >= |header| + 384 && ctx.maxRecordCount >= 4
    requires 0 < |header| <= MAX_HEADER_BYTES && ctx.headerStatus(header) == OK
    requires boundary != 0 && MayFollow(middle)
    ensures ValidTape(ctx, Sample(header, boundary, middle, reason))
  {
    hide Run, EncodeRecords, Start, Projected, End;
    SampleRun(ctx, boundary, middle, reason);
    MiddleStep(ctx, middle);
    SampleSize(boundary, middle, reason);
  }

  // ---- Checkpoints ----

  /** A named checkpoint of kind 1 to 8 is accepted, and no other. */
  lemma CheckpointsSampled(sha256: bytes -> Digest, kind: u16)
    ensures var ctx := Library(sha256);
      var t := Sample([0], 1, Checkpoint(kind), 0);
      && ctx.Valid()
      && (ValidTape(ctx, t) <==> 1 <= kind <= 8)
      && (1 <= kind <= 8 ==> Validate(ctx, Serialize(ctx, t)) == Success(t))
      && (forall b :: Validate(ctx, b) == Success(t) ==> 1 <= kind <= 8)
  {
    hide ValidTape, Validate, Serialize, TapeRules.Obeys;
    var ctx := Library(sha256);
    var t := Sample([0], 1, Checkpoint(kind), 0);
    if 1 <= kind <= 8 {
      assert MayFollow(Checkpoint(kind));
      SampleValid(ctx, [0], 1, Checkpoint(kind), 0);
      TapeBijection.ReaderComplete(ctx, t);
    } else {
      NoSuchCheckpoint(ctx, t, kind);
      TapeRules.RulesExact(ctx, t);
      forall b ensures Validate(ctx, b) != Success(t) {
        TapeRules.AcceptedExactly(ctx, b, t);
      }
    }
  }

  lemma NoSuchCheckpoint(ctx: Context, t: Tape, kind: u16)
    requires t == Sample([0], 1, Checkpoint(kind), 0) && (kind == 0 || kind > 8)
    ensures !TapeRules.Obeys(ctx, t)
  {
    CheckpointPayloadParts(kind);
    assert t.records[2] == Checkpoint(kind);
    assert !TapeRules.CheckpointRule(t.records[2].payload);
    assert !TapeRules.RuleAt(ctx.registry, t.flags, 4, t.records, 2);
  }

  // ---- Accepted, although the format's description says otherwise ----

  /** A second replay start, a diagnostic without the flag that announces it, and a record type from the future. */
  lemma LooserThanDescribed(sha256: bytes -> Digest, middle: Record)
    requires MayFollow(middle)
    ensures var ctx := Library(sha256);
      var t := Sample([0], 1, middle, 0);
      ctx.Valid() && ValidTape(ctx, t) && !OptionalDiagnostics(t.flags) && Validate(ctx, Serialize(ctx, t)) == Success(t)
  {
    hide Sample, ValidTape, Validate, Serialize, MayFollow;
    var ctx := Library(sha256);
    SampleValid(ctx, [0], 1, middle, 0);
    TapeBijection.ReaderComplete(ctx, Sample([0], 1, middle, 0));
    SampleFlags([0], 1, middle, 0);
  }

  lemma SampleFlags(header: bytes, boundary: byte, middle: Record, reason: byte)
    ensures Sample(header, boundary, middle, reason).flags == 0
  {
  }

  /** Record types from the future are compared like any other. */
  lemma FutureCompared(sha256: bytes -> Digest)
    ensures var ctx := Library(sha256);
      var (s, t) := (Sample([0], 1, Optional(UNKNOWN, 1), 0), Sample([0], 1, Optional(UNKNOWN, 2), 0));
      && ValidTape(ctx, s) && ValidTape(ctx, t) && AllReadable(s.records) && AllReadable(t.records)
      && CompareFrom(s.records, t.records, 0, 0, false) == Differs(Base(RecordDivergence), 2, 2, false)
  {
    hide RecordOk, CompareFrom, ValidTape, RecordDiff, Readable, AllReadable;
    var ctx := Library(sha256);
    var (s, t) := (Sample([0], 1, Optional(UNKNOWN, 1), 0), Sample([0], 1, Optional(UNKNOWN, 2), 0));
    SampleValid(ctx, [0], 1, Optional(UNKNOWN, 1), 0);
    SampleValid(ctx, [0], 1, Optional(UNKNOWN, 2), 0);
    ValidSound(ctx, s);
    ValidSound(ctx, t);
    StepsOver(ctx, s.records, t.records, 0);
    StepsOver(ctx, s.records, t.records, 1);
    StopsAt(s.records, t.records, 2);
  }

  lemma StepsOver(ctx: Context, a: seq<Record>, b: seq<Record>, i: nat)
    requires ctx.Valid() && AllReadable(a) && AllReadable(b) && i < |a| && i < |b|
    requires RecordOk(ctx, a[i]) && a[i] == b[i] && !Ignorable(a[i])
    ensures CompareFrom(a, b, i, i, false) == CompareFrom(a, b, i + 1, i + 1, false)
  {
    hide RecordOk, RecordDiff, Ignorable;
    RecordExact(ctx, a[i], b[i]);
  }

  /** Records of a kind that is compared as a whole. */
  lemma StopsAt(a: seq<Record>, b: seq<Record>, i: nat)
    requires AllReadable(a) && AllReadable(b) && i < |a| && i < |b|
    requires a[i].kind == b[i].kind && a[i].kind in {REPLAY_START, UNKNOWN, TERMINAL}
    requires a[i].payload != b[i].payload || a[i].version != b[i].version
    ensures CompareFrom(a, b, i, i, false) == Differs(Base(RecordDivergence), i, i, false)
  {
  }

  // ---- Where the two decoders part ----

  /** The C reader takes every sample; the decoder takes it when the header is aligned and the version is 1. */
  lemma SampleDecoded(sha256: bytes -> Digest, header: bytes, version: u16)
    requires 0 < |header| <= MAX_HEADER_BYTES
    ensures var ctx := Library(sha256);
      var t := Sample(header, 1, Optional(UNKNOWN, version), 0);
      && ValidTape(ctx, t) && SerializedSize(t) <= MAX_TAPE_BYTES
      && Validate(ctx, Serialize(ctx, t)) == Success(t)
      && (PythonDecoder.DecodeBytes(ctx.registry, ctx.headerStatus, sha256, Serialize(ctx, t)).Success?
          <==> |header| % 8 == 0 && version == 1)
  {
    hide ValidTape, Validate, Serialize, PythonDecoder.DecodeBytes;
    var ctx := Library(sha256);
    var middle := Optional(UNKNOWN, version);
    var t := Sample(header, 1, middle, 0);
    SampleValid(ctx, header, 1, middle, 0);
    MinimizerRun.SizeLimit(ctx, t);
    TapeBijection.ReaderComplete(ctx, t);
    RowAuthoritative();
    PythonDecoder.DecoderAgrees(ctx, ctx.headerStatus, Serialize(ctx, t));
    assert t.records[2] == middle;
    assert forall k :: 0 <= k < |t.records| && k != 2 ==> t.records[k].version == 1;
  }

  /** Both halves of the condition for agreement are needed: a tape the C reader accepts and the decoder refuses for
      its header of one byte, and one it refuses for a record of version 2. */
  lemma DecodersPart(sha256: bytes -> Digest)
    ensures var ctx := Library(sha256);
      var unaligned := Sample([0], 1, Optional(UNKNOWN, 1), 0);
      var newer := Sample(Zeros(8), 1, Optional(UNKNOWN, 2), 0);
      && ValidTape(ctx, unaligned) && ValidTape(ctx, newer)
      && Validate(ctx, Serialize(ctx, unaligned)) == Success(unaligned)
      && PythonDecoder.DecodeBytes(ctx.registry, ctx.headerStatus, sha256, Serialize(ctx, unaligned)).Failure?
      && Validate(ctx, Serialize(ctx, newer)) == Success(newer)
      && PythonDecoder.DecodeBytes(ctx.registry, ctx.headerStatus, sha256, Serialize(ctx, newer)).Failure?
  {
    hide Sample, ValidTape, Validate, Serialize, PythonDecoder.DecodeBytes;
    SampleDecoded(sha256, [0], 1);
    SampleDecoded(sha256, Zeros(8), 2);
  }

  // ---- Where minimization fails ----

  /** The reader's state after the first records of a sample tape. */
  lemma {:induction false} SampleState(ctx: Context, header: bytes, boundary: byte, middle: Record, reason: byte, k: nat)
    requires ctx.registry == [ROW] && boundary != 0 && MayFollow(middle) && k <= 3
    requires ValidTape(ctx, Sample(header, boundary, middle, reason))
    ensures StateAfter(ctx, Sample(header, boundary, middle, reason), k) == Along(k, middle)
  {
    hide RecordStep, MayFollow, Start, Projected, End, ValidTape;
    var t := Sample(header, boundary, middle, reason);
    if k == 0 {
      assert t.records[..0] == [];
    } else {
      SampleState(ctx, header, boundary, middle, reason, k - 1);
      RunPrefix(ctx, t, k - 1);
      EdgeSteps(ctx, boundary, middle, reason);
      ProjectionStep(ctx, middle);
      MiddleStep(ctx, middle);
    }
  }

  const MIDDLE := Optional(UNKNOWN, 1)

  lemma EndsDiffer(sha256: bytes -> Digest)
    ensures var ctx := Library(sha256);
      var (s, t) := (Sample([0], 1, MIDDLE, 0), Sample([0], 1, MIDDLE, 1));
      && ctx.Valid() && ValidTape(ctx, s) && ValidTape(ctx, t) && AllReadable(s.records) && AllReadable(t.records)
      && CompareFrom(s.records, t.records, 0, 0, false) == Differs(Base(RecordDivergence), 3, 3, false)
  {
    hide RecordOk, CompareFrom, ValidTape, RecordDiff, Readable, AllReadable;
    var ctx := Library(sha256);
    var (s, t) := (Sample([0], 1, MIDDLE, 0), Sample([0], 1, MIDDLE, 1));
    SampleValid(ctx, [0], 1, MIDDLE, 0);
    SampleValid(ctx, [0], 1, MIDDLE, 1);
    ValidSound(ctx, s);
    ValidSound(ctx, t);
    StepsOver(ctx, s.records, t.records, 0);
    StepsOver(ctx, s.records, t.records, 1);
    StepsOver(ctx, s.records, t.records, 2);
    assert EndPayload(0)[2] != EndPayload(1)[2];
    StopsAt(s.records, t.records, 3);
  }

  lemma StartsDiffer(sha256: bytes -> Digest)
    ensures var ctx := Library(sha256);
      var (s, t) := (Sample([0], 1, MIDDLE, 0), Sample([0], 2, MIDDLE, 0));
      && ctx.Valid() && ValidTape(ctx, s) && ValidTape(ctx, t) && AllReadable(s.records) && AllReadable(t.records)
      && CompareFrom(s.records, t.records, 0, 0, false) == Differs(Base(RecordDivergence), 0, 0, false)
  {
    hide RecordOk, CompareFrom, ValidTape, RecordDiff, Readable, AllReadable;
    var ctx := Library(sha256);
    var (s, t) := (Sample([0], 1, MIDDLE, 0), Sample([0], 2, MIDDLE, 0));
    SampleValid(ctx, [0], 1, MIDDLE, 0);
    SampleValid(ctx, [0], 2, MIDDLE, 0);
    ValidSound(ctx, s);
    ValidSound(ctx, t);
    assert StartPayload(1)[2] != StartPayload(2)[2];
    StopsAt(s.records, t.records, 0);
  }

  /** The end a minimized tape gets is the end of the sample with reason 0. */
  lemma FreshEnd(header: bytes, boundary: byte, reason: byte)
    ensures FreshTerminal(Sample(header, boundary, MIDDLE, reason).records[..3]) == End(0)
  {
    assert LE(2, 1) == [1, 0] && LE(4, 0) == [0, 0, 0, 0];
  }

  /** An oracle that ends with reason 0 and a target that ends with reason 1: the minimized tape would end with reason
      0 again, so nothing is left to see, and minimization ends in an invariant violation. */
  lemma EndNotMinimized(sha256: bytes -> Digest)
    ensures var ctx := Library(sha256);
      var (s, t) := (Sample([0], 1, MIDDLE, 0), Sample([0], 1, MIDDLE, 1));
      && ctx.Valid() && ValidTape(ctx, s) && ValidTape(ctx, t) && AllReadable(s.records) && AllReadable(t.records)
      && CompareFrom(s.records, t.records, 0, 0, false).Differs?
      && !MinimizerRun.CutWorks(ctx, s, t) && MinimizerRun.CutStatus(ctx, s, t) == Invariant
  {
    hide CompareFrom, ValidTape, Readable, AllReadable, StateAfter, EndPayload, StartPayload, ProjectionPayload, FreshTerminal;
    var ctx := Library(sha256);
    var t := Sample([0], 1, MIDDLE, 1);
    EndsDiffer(sha256);
    SampleState(ctx, [0], 1, MIDDLE, 1, 3);
    FreshEnd([0], 1, 1);
    MinimizerRun.SizeLimit(ctx, t);
    CutValid(ctx, t, 3);
  }

  /** An oracle and a target that start at different boundaries: the cut holds no projection and does not validate. */
  lemma StartNotMinimized(sha256: bytes -> Digest)
    ensures var ctx := Library(sha256);
      var (s, t) := (Sample([0], 1, MIDDLE, 0), Sample([0], 2, MIDDLE, 0));
      && ctx.Valid() && ValidTape(ctx, s) && ValidTape(ctx, t) && AllReadable(s.records) && AllReadable(t.records)
      && CompareFrom(s.records, t.records, 0, 0, false).Differs?
      && !MinimizerRun.CutWorks(ctx, s, t) && MinimizerRun.CutStatus(ctx, s, t) == Structure
  {
    hide CompareFrom, ValidTape, Readable, AllReadable, StateAfter, EndPayload, StartPayload, ProjectionPayload, FreshTerminal;
    var ctx := Library(sha256);
    var t := Sample([0], 2, MIDDLE, 0);
    StartsDiffer(sha256);
    SampleState(ctx, [0], 2, MIDDLE, 0, 1);
    MinimizerRun.SizeLimit(ctx, t);
    CutValid(ctx, t, 1);
  }
}
