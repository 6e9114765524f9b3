/** The independent decoder (parity/python_reference/tape_reference.py) and how it relates to the C reader. */
module PythonDecoder {
  import opened Wrappers
  import opened Bytes
  import opened CheckedArithmetic
  import opened TapeFormat
  import opened FieldRegistry
  import opened LifeCycle
  import opened TapeReader
  import opened Projection
  import TapeBijection
  import TapeLoader
  import ComparatorExactness
  import Utf8

  /** One decoded record, with its file offset and the fields of a projection. */
  datatype Decoded = Decoded(record: Record, offset: nat, fields: seq<Field>)

  datatype Reference = Reference(header: bytes, records: seq<Decoded>, flags: u32, maxStep: u64, maxTick: u64)

  /** What the decoder raises: its own error with a status, or one that comes through from the language: bad UTF-8,
      or a relation to a field the registry does not require. */
  datatype Error = TapeError(status: Status) | UnicodeError | NoSuchField

  // ---- Projections ----

  /** The `widths` table, with the flags standing in for stable ids. */
  function Width(valueType: u16, flags: u16): nat {
    if 1 <= valueType <= 8 then [1, 2, 4, 8, 1, 2, 4, 8][valueType - 1]
    else if valueType == VALUE_STABLE_ID then flags
    else 0
  }

  ghost function FieldError(meta: FieldMeta, f: Field): Option<Error> {
    var width := Width(f.valueType, f.flags);
    if f.valueType != VALUE_STABLE_ID && f.flags != 0 then Some(TapeError(Schema))
    else if meta.widthBits != 0 && width * 8 != meta.widthBits then Some(TapeError(Schema))
    else if (meta.shape == SCALAR || meta.shape == FIXED_ARRAY) && f.elements != meta.fixedCount then Some(TapeError(Schema))
    else if (meta.shape == DYNAMIC_ARRAY || meta.shape == BITSET) && f.elements > meta.maximumCapacity then Some(TapeError(Schema))
    else if width != 0 && f.elements * width != |f.value| then Some(TapeError(Schema))
    else if (f.valueType == VALUE_BYTES || f.valueType == VALUE_DIAGNOSTIC_UTF8) && f.elements != |f.value| then Some(TapeError(Schema))
    else if f.valueType == VALUE_BITSET && (f.elements + 7) / 8 != |f.value| then Some(TapeError(Schema))
    else if f.valueType == VALUE_BITSET && f.elements % 8 != 0 && f.value[|f.value| - 1] >= Pow2(f.elements % 8)
    then Some(TapeError(Canonical))
    else if f.valueType == VALUE_DIAGNOSTIC_UTF8 && !Utf8.WellFormed(f.value) then Some(UnicodeError)
    else if !(1 <= f.valueType <= 12) then Some(TapeError(Schema))
    else None
  }

  ghost function DecodeField(meta: FieldMeta, previous: nat, rest: bytes): (r: Result<Field, Error>)
    ensures r.Success? ==> FieldSize(|r.value.value|) <= |rest|
  {
    if |rest| < FIELD_HEADER_BYTES then Failure(TapeError(Truncated))
    else
      var h := DecodeFieldHeader(rest[..16]);
      if h.id <= previous || h.id != meta.id then Failure(TapeError(Schema))
      else if h.valueType != meta.valueType then Failure(TapeError(Schema))
      else if FieldSize(h.byteCount) > |rest| then Failure(TapeError(Truncated))
      else if rest[16 + h.byteCount..FieldSize(h.byteCount)] != Zeros(Pad8(h.byteCount)) then Failure(TapeError(Canonical))
      else
        var f := FieldIn(rest);
        match FieldError(meta, f)
        case Some(e) => Failure(e)
        case None => Success(f)
  }

  ghost function DecodeFields(metas: seq<FieldMeta>, previous: nat, rest: bytes): Result<seq<Field>, Error>
    decreases |metas|
  {
    if metas == [] then
      if rest == [] then Success([]) else Failure(TapeError(Structure))
    else
      match DecodeField(metas[0], previous, rest)
      case Failure(e) => Failure(e)
      case Success(f) =>
        match DecodeFields(metas[1..], f.id, rest[FieldSize(|f.value|)..])
        case Failure(e) => Failure(e)
        case Success(fs) => Success([f] + fs)
  }

  /** `by_id[...]`. */
  function ById(fs: seq<Field>, id: u32): Option<Field> {
    if fs == [] then None else if fs[0].id == id then Some(fs[0]) else ById(fs[1..], id)
  }

  /** The four-byte words of an offset vector; unlike the C reader's, the last may be short. */
  function Chunks(value: bytes): (ws: seq<u32>)
    ensures |value| % 4 == 0 ==> ws == Words(value)
  {
    seq((|value| + 3) / 4, k requires 0 <= k < (|value| + 3) / 4 => Chunk(value, 4 * k))
  }

  function Chunk(value: bytes, at: nat): (w: u32)
    requires at < |value|
    ensures at + 4 <= |value| ==> w == U32At(value, at)
  {
    var chunk := if at + 4 <= |value| then value[at..at + 4] else value[at..];
    PowMonotone(|chunk|, 4);
    Widths();
    UInt(chunk)
  }

  /** What checking the relations of one field raises, if anything. */
  function RelationError(fs: seq<Field>, meta: FieldMeta, f: Field): Option<Error> {
    var (source, target) := (ById(fs, meta.countSource), ById(fs, meta.offsetTarget));
    if meta.countSource != 0 && source.None? then Some(NoSuchField)
    else if meta.countSource != 0 && UInt(source.value.value) != f.elements then Some(TapeError(Schema))
    else if meta.offsetTarget != 0 && target.None? then Some(NoSuchField)
    else if meta.offsetTarget != 0 && !Tiles(Chunks(f.value), UInt(target.value.value)) then Some(TapeError(Schema))
    else None
  }

  /** The first error of the second loop, over the fields `fs` of `all`. */
  function FirstError(all: seq<Field>, metas: seq<FieldMeta>, fs: seq<Field>): Option<Error>
    requires |metas| == |fs|
    decreases |fs|
  {
    if fs == [] then None
    else if RelationError(all, metas[0], fs[0]).Some? then RelationError(all, metas[0], fs[0])
    else FirstError(all, metas[1..], fs[1..])
  }

  lemma {:induction false} DecodedCount(metas: seq<FieldMeta>, previous: nat, rest: bytes)
    requires DecodeFields(metas, previous, rest).Success?
    ensures |DecodeFields(metas, previous, rest).value| == |metas|
    decreases |metas|
  {
    hide DecodeField;
    if metas != [] {
      var f := DecodeField(metas[0], previous, rest).value;
      DecodedCount(metas[1..], f.id, rest[FieldSize(|f.value|)..]);
    }
  }

  /** `_projection`. */
  ghost function DecodeProjection(registry: Registry, p: bytes): Result<seq<Field>, Error> {
    var metas := Authoritative(registry);
    if |p| < PROJECTION_HEADER_BYTES then Failure(TapeError(Truncated))
    else if U16At(p, 0) != 1 then Failure(TapeError(Version))
    else if p[3] != 0 then Failure(TapeError(Reserved))
    else if U32At(p, 4) != |metas| then Failure(TapeError(Schema))
    else
      match DecodeFields(metas, 0, p[24..])
      case Failure(e) => Failure(e)
      case Success(fs) =>
        DecodedCount(metas, 0, p[24..]);
        match FirstError(fs, metas, fs)
        case Some(e) => Failure(e)
        case None => Success(fs)
  }

  // ---- Records ----

  /** One record at file offset `offset`; padding runs to a multiple of eight of the file offset. */
  ghost function DecodeStep(registry: Registry, sequence: nat, step: nat, tick: nat, offset: nat, rest: bytes)
    : (r: Result<Decoded, Error>)
    ensures r.Success? ==> PaddedSize(offset, |r.value.record.payload|) <= |rest|
  {
    if |rest| < RECORD_HEADER_BYTES then Failure(TapeError(Truncated))
    else
      var h := DecodeHeader(rest[..40]);
      if h.reserved != 0 || h.flags / 2 != 0 then Failure(TapeError(Reserved))
      else if h.sequence != sequence then Failure(TapeError(Sequence))
      else if h.version != 1 then Failure(TapeError(Version))
      else if sequence > 0 && (h.step < step || h.tick < tick) then Failure(TapeError(Sequence))
      else if PaddedSize(offset, h.payloadBytes) > |rest| then Failure(TapeError(Truncated))
      else if rest[40 + h.payloadBytes..PaddedSize(offset, h.payloadBytes)]
        != Zeros(Pad8(offset + 40 + h.payloadBytes)) then Failure(TapeError(Canonical))
      else
        var p := rest[40..40 + h.payloadBytes];
        var r := Record(h.kind, h.version, h.flags, h.sequence, h.step, h.tick, p);
        if h.kind == AUTHORITATIVE_PROJECTION then
          match DecodeProjection(registry, p)
          case Failure(e) => Failure(e)
          case Success(fs) => Success(Decoded(r, offset, fs))
        else Success(Decoded(r, offset, []))
  }

  function PaddedSize(offset: nat, payloadBytes: nat): (n: nat)
    ensures (offset + n) % 8 == 0 && n >= 40 + payloadBytes
  {
    40 + payloadBytes + Pad8(offset + 40 + payloadBytes)
  }

  datatype Progress = Progress(records: seq<Decoded>, step: nat, tick: nat, offset: nat)

  /** The record loop: what was decoded, the last boundary and the offset reached. */
  ghost function DecodeAll(registry: Registry, count: nat, sequence: nat, step: nat, tick: nat, offset: nat, rest: bytes)
    : Result<Progress, Error>
    requires sequence <= count
    decreases count - sequence
  {
    if sequence == count then Success(Progress([], step, tick, offset))
    else
      match DecodeStep(registry, sequence, step, tick, offset, rest)
      case Failure(e) => Failure(e)
      case Success(d) =>
        var size := PaddedSize(offset, |d.record.payload|);
        match DecodeAll(registry, count, sequence + 1, d.record.step, d.record.tick, offset + size, rest[size..])
        case Failure(e) => Failure(e)
        case Success(p) => Success(p.(records := [d] + p.records))
  }

  predicate EndsWell(ds: seq<Decoded>) {
    && ds != []
    && ds[0].record.kind == REPLAY_START && ds[|ds| - 1].record.kind == TERMINAL
    && exists k :: 0 <= k < |ds| && ds[k].record.kind == AUTHORITATIVE_PROJECTION
  }

  /** The checks before the record loop. */
  function EnvelopeCheck(headerCheck: bytes -> Status, sha256: bytes -> Digest, b: bytes): Status {
    if |b| < PREFIX_BYTES then Truncated
    else if b[..8] != PREFIX_MAGIC then Magic
    else if U16At(b, 8) != 1 || U16At(b, 10) != 0 then Version
    else if b[12] != 1 then Endian
    else if b[13] != 1 then HashAlgorithm
    else if U16At(b, 14) != 64 || U64At(b, 56) != 0 then Reserved
    else
      var p := DecodePrefix(b);
      if p.flags % 2 == 1 || p.flags / 0x1_0000 != 0 then Structure
      else if !(0 < p.headerBytes <= MAX_HEADER_BYTES) then Limit
      else if !(0 < p.recordCount <= MAX_RECORD_COUNT) then Limit
      else
        var at := PREFIX_BYTES + p.headerBytes + p.recordBytes;
        if at + TRAILER_BYTES > |b| then Truncated
        else if at + TRAILER_BYTES < |b| then Structure
        else if headerCheck(b[64..64 + p.headerBytes]) != OK then headerCheck(b[64..64 + p.headerBytes])
        else if b[at..at + 8] != TRAILER_MAGIC then Magic
        else if U64At(b, at + 8) != p.recordCount || U64At(b, at + 16) != at then Structure
        else if U64At(b, at + 56) != 0 then Reserved
        else if sha256(b[..at]) != b[at + 24..at + 56] then Checksum
        else OK
  }

  /** `decode_bytes`. */
  ghost function DecodeBytes(registry: Registry, headerCheck: bytes -> Status, sha256: bytes -> Digest, b: bytes)
    : Result<Reference, Error>
  {
    var s := EnvelopeCheck(headerCheck, sha256, b);
    if s != OK then Failure(TapeError(s))
    else
      var p := DecodePrefix(b);
      var start := PREFIX_BYTES + p.headerBytes;
      var at := |b| - TRAILER_BYTES;
      match DecodeAll(registry, p.recordCount, 0, 0, 0, start, b[start..at])
      case Failure(e) => Failure(e)
      case Success(q) =>
        if q.offset != at || !EndsWell(q.records) || p.maxStep != q.step || p.maxTick != q.tick then Failure(TapeError(Structure))
        else Success(Reference(b[64..start], q.records, p.flags, p.maxStep, p.maxTick))
  }

  // ---- What the C reader accepts, the decoder accepts ----

  /** Only numeric rows declare a width, as in the shipped registry. */
  predicate WidthsOnNumeric(metas: seq<FieldMeta>) {
    forall i :: 0 <= i < |metas| && metas[i].widthBits != 0 ==>
      1 <= metas[i].valueType <= 8 || metas[i].valueType == VALUE_STABLE_ID
  }

  lemma FieldAgrees(meta: FieldMeta, f: Field)
    requires FieldOk(meta, f)
    requires meta.widthBits != 0 ==> 1 <= meta.valueType <= 8 || meta.valueType == VALUE_STABLE_ID
    ensures FieldError(meta, f) == None
  {
  }

  lemma {:induction false} FieldsAgree(metas: seq<FieldMeta>, previous: nat, rest: bytes)
    requires WidthsOnNumeric(metas)
    requires ParseFields(metas, previous, rest).Success?
    ensures DecodeFields(metas, previous, rest) == Success(ParseFields(metas, previous, rest).value)
    decreases |metas|
  {
    hide FieldOk, FieldError, FieldHeaderStatus, FieldValueStatus;
    if metas != [] {
      var f := ParseField(metas[0], previous, rest).value;
      FieldSound(metas[0], previous, rest);
      FieldAgrees(metas[0], f);
      HeaderAgrees(metas[0], previous, DecodeFieldHeader(rest[..16]));
      FieldsAgree(metas[1..], f.id, rest[FieldSize(|f.value|)..]);
    }
  }

  lemma HeaderAgrees(meta: FieldMeta, previous: nat, h: FieldHeader)
    requires FieldHeaderStatus(meta, previous, h) == OK
    ensures h.id > previous && h.id == meta.id && h.valueType == meta.valueType
  {
  }

  lemma {:induction false} ScalarById(fs: seq<Field>, id: u32)
    ensures ScalarValue(fs, id).Some? ==>
      ById(fs, id).Some? && UInt(ById(fs, id).value.value) == ScalarValue(fs, id).value
  {
    if fs != [] && fs[0].id != id {
      ScalarById(fs[1..], id);
    }
  }

  lemma {:induction false} NoError(all: seq<Field>, metas: seq<FieldMeta>, fs: seq<Field>)
    requires |metas| == |fs|
    ensures FirstError(all, metas, fs).None? <==> forall i :: 0 <= i < |fs| ==> RelationError(all, metas[i], fs[i]).None?
  {
    hide RelationError;
    if fs != [] {
      NoError(all, metas[1..], fs[1..]);
      assert forall i :: 1 <= i < |fs| ==> fs[i] == fs[1..][i - 1] && metas[i] == metas[1..][i - 1];
    }
  }

  /** Offset vectors of accepted fields are whole words. */
  lemma RelationAgrees(fs: seq<Field>, meta: FieldMeta, f: Field)
    requires FieldOk(meta, f) && RelationsOk(fs, meta, f)
    ensures RelationError(fs, meta, f).None?
  {
    hide UInt, ScalarValue, ById, Tiles, Chunks, Words;
    ScalarById(fs, meta.countSource);
    ScalarById(fs, meta.offsetTarget);
    if meta.offsetTarget != 0 {
      assert f.elements * 4 == |f.value|;
    }
  }

  lemma ProjectionAgrees(registry: Registry, p: bytes)
    requires WidthsOnNumeric(Authoritative(registry))
    requires ParsePayload(registry, p).Success?
    ensures DecodeProjection(registry, p) == Success(ParsePayload(registry, p).value)
  {
    hide FieldOk, RelationsOk, RelationError, UInt, Authoritative, ParseFields, DecodeFields, FirstError, EncodeFields;
    var metas := Authoritative(registry);
    FieldsAgree(metas, 0, p[24..]);
    FirstPassSound(metas, 0, p[24..]);
    var fs := ParsePayload(registry, p).value;
    forall i | 0 <= i < |fs| ensures RelationError(fs, metas[i], fs[i]).None? {
      RelationAgrees(fs, metas[i], fs[i]);
    }
    NoError(fs, metas, fs);
  }

  /** The record as the decoder returns it. */
  ghost function AsDecoded(registry: Registry, r: Record, offset: nat): (d: Decoded)
    ensures d.record == r
  {
    Decoded(r, offset,
            if r.kind == AUTHORITATIVE_PROJECTION && ParsePayload(registry, r.payload).Success?
            then ParsePayload(registry, r.payload).value else [])
  }

  ghost function AllDecoded(registry: Registry, rs: seq<Record>, offset: nat): (ds: seq<Decoded>)
    ensures |ds| == |rs| && forall k :: 0 <= k < |rs| ==> ds[k].record == rs[k]
  {
    if rs == [] then []
    else [AsDecoded(registry, rs[0], offset)] + AllDecoded(registry, rs[1..], offset + |EncodeRecord(rs[0])|)
  }

  /** At an aligned offset the two framings read the same record, and only the version can part them. */
  lemma StepAgrees(ctx: Context, flags: u32, count: nat, sequence: nat, st: ReadState, r: Record, offset: nat, tail: bytes)
    requires WidthsOnNumeric(Authoritative(ctx.registry)) && offset % 8 == 0
    requires RecordStep(ctx, flags, count, sequence, st, r).Success?
    requires st.havePrevious <==> sequence > 0
    ensures DecodeStep(ctx.registry, sequence, st.step, st.tick, offset, EncodeRecord(r) + tail)
         == if r.version == 1 then Success(AsDecoded(ctx.registry, r, offset)) else Failure(TapeError(Version))
    ensures PaddedSize(offset, |r.payload|) == |EncodeRecord(r)|
  {
    hide EncodeHeader, DecodeHeader, FixedPayloadStatus, IntentStatus, OutcomeStatus, ParsePayload;
    var rest := EncodeRecord(r) + tail;
    var n := |r.payload|;
    HeaderRoundTrip(HeaderOf(r));
    PadShift(offset, 40 + n);
    assert rest[..40] == EncodeHeader(HeaderOf(r));
    assert rest[40..40 + n] == r.payload;
    assert rest[40 + n..FramedSize(n)] == Zeros(Pad8(40 + n));
    if r.kind == AUTHORITATIVE_PROJECTION {
      ProjectionAgrees(ctx.registry, r.payload);
    }
  }

  predicate VersionOne(rs: seq<Record>) {
    forall k :: 0 <= k < |rs| ==> rs[k].version == 1
  }

  lemma EmptyVersion()
    ensures VersionOne([])
  {
  }

  lemma VersionOneStep(rs: seq<Record>)
    requires rs != []
    ensures VersionOne(rs) <==> rs[0].version == 1 && VersionOne(rs[1..])
  {
    assert forall k :: 1 <= k < |rs| ==> rs[k] == rs[1..][k - 1];
  }

  lemma {:induction false} RecordsAgree(ctx: Context, flags: u32, count: nat, sequence: nat, st: ReadState,
                                        rs: seq<Record>, offset: nat)
    requires WidthsOnNumeric(Authoritative(ctx.registry)) && offset % 8 == 0
    requires sequence + |rs| == count && (st.havePrevious <==> sequence > 0)
    requires Run(ctx, flags, count, sequence, st, rs).Success?
    ensures DecodeAll(ctx.registry, count, sequence, st.step, st.tick, offset, EncodeRecords(rs))
         == if VersionOne(rs)
            then var last := Run(ctx, flags, count, sequence, st, rs).value;
              Success(Progress(AllDecoded(ctx.registry, rs, offset), last.step, last.tick, offset + |EncodeRecords(rs)|))
            else Failure(TapeError(Version))
    decreases |rs|
  {
    hide DecodeStep, HeaderStatus, BodyStep, EncodeRecord, AsDecoded, VersionOne, PaddedSize, FramedSize;
    EmptyVersion();
    if rs != [] {
      var r, tail := rs[0], EncodeRecords(rs[1..]);
      var size := |EncodeRecord(r)|;
      StepAgrees(ctx, flags, count, sequence, st, r, offset, tail);
      var next := RecordStep(ctx, flags, count, sequence, st, r).value;
      assert (EncodeRecord(r) + tail)[size..] == tail;
      EightsAdd(offset, size);
      RecordsAgree(ctx, flags, count, sequence + 1, next, rs[1..], offset + size);
      VersionOneStep(rs);
    }
  }

  /** After at least one record the decoder always stands on a multiple of eight. */
  lemma {:induction false} DecodedAligned(registry: Registry, count: nat, sequence: nat, step: nat, tick: nat,
                                          offset: nat, rest: bytes)
    requires sequence < count
    requires DecodeAll(registry, count, sequence, step, tick, offset, rest).Success?
    ensures DecodeAll(registry, count, sequence, step, tick, offset, rest).value.offset % 8 == 0
    decreases count - sequence
  {
    hide DecodeStep;
    var d := DecodeStep(registry, sequence, step, tick, offset, rest).value;
    var size := PaddedSize(offset, |d.record.payload|);
    if sequence + 1 < count {
      DecodedAligned(registry, count, sequence + 1, d.record.step, d.record.tick, offset + size, rest[size..]);
    }
  }

  lemma SameEnvelope(ctx: Context, headerCheck: bytes -> Status, b: bytes)
    requires PrefixStatus(ctx, b) == OK && EnvelopeStatus(ctx, b) == OK
    requires headerCheck(b[64..64 + DecodePrefix(b).headerBytes]) == OK
    ensures EnvelopeCheck(headerCheck, ctx.sha256, b) == OK
  {
    hide UInt;
  }

  /** What an accepted input looks like from the outside. */
  lemma Opened(ctx: Context, b: bytes)
    requires ctx.Valid() && Validate(ctx, b).Success?
    ensures var t := Validate(ctx, b).value;
      var start := 64 + |t.header|;
      && ValidTape(ctx, t) && PrefixStatus(ctx, b) == OK && EnvelopeStatus(ctx, b) == OK
      && DecodePrefix(b) == PrefixOf(t)
      && |b| == start + |EncodeRecords(t.records)| + 64
      && b[64..start] == t.header && b[start..|b| - 64] == EncodeRecords(t.records)
  {
    hide PrefixStatus, EnvelopeStatus, ReadAll, Run, EncodeRecords, EncodePrefix, EncodeTrailer, DecodePrefix;
    TapeLoader.LoadedPrefix(ctx, b);
    TapeBijection.ReaderSound(ctx, b);
    var t := Validate(ctx, b).value;
    SubRange(b, 0, |Covered(t)|, 64, 64 + |t.header|);
    SubRange(b, 0, |Covered(t)|, 64 + |t.header|, |Covered(t)|);
    assert b[..|Covered(t)|] == Covered(t);
  }

  lemma WellEnded(ctx: Context, t: Tape, offset: nat)
    requires ValidTape(ctx, t)
    ensures EndsWell(AllDecoded(ctx.registry, t.records, offset))
  {
    hide RecordStep, ComparatorExactness.RecordOk, AllDecoded;
    var rs := t.records;
    ComparatorExactness.ValidSound(ctx, t);
    FirstIsStart(ctx, t);
    SawProjection(ctx, t.flags, |rs|, 0, START, rs);
    var k :| 0 <= k < |rs| && rs[k].kind == AUTHORITATIVE_PROJECTION;
    assert AllDecoded(ctx.registry, rs, offset)[k].record.kind == AUTHORITATIVE_PROJECTION;
  }

  lemma FirstIsStart(ctx: Context, t: Tape)
    requires ValidTape(ctx, t)
    ensures t.records[0].kind == REPLAY_START
  {
    hide HeaderStatus, FixedPayloadStatus, CommandStep;
  }

  lemma {:induction false} SawProjection(ctx: Context, flags: u32, count: nat, sequence: nat, st: ReadState, rs: seq<Record>)
    requires Run(ctx, flags, count, sequence, st, rs).Success?
    requires Run(ctx, flags, count, sequence, st, rs).value.sawProjection
    ensures st.sawProjection || exists k :: 0 <= k < |rs| && rs[k].kind == AUTHORITATIVE_PROJECTION
    decreases |rs|
  {
    hide HeaderStatus, FixedPayloadStatus, IntentStatus, OutcomeStatus;
    if rs != [] && !st.sawProjection {
      var next := RecordStep(ctx, flags, count, sequence, st, rs[0]).value;
      if rs[0].kind != AUTHORITATIVE_PROJECTION {
        assert !next.sawProjection;
        SawProjection(ctx, flags, count, sequence + 1, next, rs[1..]);
        var k :| 0 <= k < |rs[1..]| && rs[1..][k].kind == AUTHORITATIVE_PROJECTION;
        assert rs[k + 1].kind == AUTHORITATIVE_PROJECTION;
      }
    }
  }

  /** A tape the C reader accepts, whose header passes the decoder's own check, is accepted by the
      decoder exactly when the header length is a multiple of eight and every record has version 1;
      the decoder then returns the same header, flags, maxima and records. */
  lemma DecoderAgrees(ctx: Context, headerCheck: bytes -> Status, b: bytes)
    requires ctx.Valid() && WidthsOnNumeric(Authoritative(ctx.registry))
    requires Validate(ctx, b).Success? && headerCheck(Validate(ctx, b).value.header) == OK
    ensures var t := Validate(ctx, b).value;
      var r := DecodeBytes(ctx.registry, headerCheck, ctx.sha256, b);
      && (r.Success? <==> |t.header| % 8 == 0 && VersionOne(t.records))
      && (r.Success? ==>
            && r.value.header == t.header && r.value.flags == t.flags
            && r.value.records == AllDecoded(ctx.registry, t.records, 64 + |t.header|)
            && r.value.maxStep == t.records[|t.records| - 1].step
            && r.value.maxTick == t.records[|t.records| - 1].tick)
  {
    hide Validate, PrefixStatus, EnvelopeStatus, EnvelopeCheck, DecodeAll, Run, EncodeRecords, DecodePrefix, EndsWell,
      AllDecoded, VersionOne;
    Opened(ctx, b);
    var t := Validate(ctx, b).value;
    var rs := t.records;
    var start := 64 + |t.header|;
    SameEnvelope(ctx, headerCheck, b);
    TapeBijection.RunLast(ctx, t.flags, |rs|, 0, START, rs);
    if |t.header| % 8 == 0 {
      RecordsAgree(ctx, t.flags, |rs|, 0, START, rs, start);
      WellEnded(ctx, t, start);
    } else if DecodeAll(ctx.registry, |rs|, 0, 0, 0, start, EncodeRecords(rs)).Success? {
      DecodedAligned(ctx.registry, |rs|, 0, 0, 0, start, EncodeRecords(rs));
    }
  }
}
