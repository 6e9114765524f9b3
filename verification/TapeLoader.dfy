/** The validator as the library runs it: `validate_bytes_internal` and the tape object it builds
    (parity/src/tape_reader.c, parity/src/internal.h). */
module TapeLoader {
  import opened Wrappers
  import opened Bytes
  import opened CheckedArithmetic
  import opened TapeFormat
  import opened LifeCycle
  import opened TapeReader
  import TapeBijection
  import Projection

  /** A loaded tape keeps either decoded records or the file's own mapping. */
  datatype Storage = Retained(records: seq<Record>) | Mapped(file: bytes)

  datatype LoadedTape = LoadedTape(flags: u32, recordCount: u64, recordBytes: u64, maxStep: u64, maxTick: u64,
                                   header: bytes, digest: Digest, storage: Storage)

  /** `lt` is what loading the serialized form of the valid tape `t` leaves in memory. */
  ghost predicate Represents(ctx: Context, lt: LoadedTape, t: Tape) {
    && ctx.Valid() && ValidTape(ctx, t)
    && lt.flags == t.flags && lt.header == t.header
    && Prefix(|lt.header|, lt.flags, lt.recordCount, lt.recordBytes, lt.maxStep, lt.maxTick) == PrefixOf(t)
    && lt.digest == ctx.sha256(Covered(t))
    && match lt.storage
       case Retained(rs) => rs == t.records
       case Mapped(file) => file == Serialize(ctx, t)
  }

  /** A tape loaded under any local limits is a tape of the library without them. */
  lemma LoadedUnlimited(ctx: Context, lt: LoadedTape, t: Tape)
    requires Represents(ctx, lt, t)
    ensures Represents(ctx.Unlimited(), lt, t)
  {
    hide Run, EncodeRecords, EncodePrefix, EncodeTrailer;
    RunUnlimited(ctx, t.flags, |t.records|, 0, START, t.records);
  }

  // ---- One record ----

  method CheckBody(ctx: Context, flags: u32, count: nat, sequence: nat, st: ReadState, kind: u16, p: Payload)
      returns (status: Status, next: ReadState)
    ensures status == OK ==> BodyStep(ctx, flags, count, sequence, st, kind, p) == Success(next)
    ensures status != OK ==> BodyStep(ctx, flags, count, sequence, st, kind, p) == Failure(status)
  {
    next := st;
    if sequence == 0 && kind != REPLAY_START {
      return Structure, next;
    }
    if kind == TERMINAL {
      if sequence + 1 != count || st.phase != Idle {
        return Structure, next;
      }
    } else if sequence + 1 == count {
      return Structure, next;
    }
    if kind == TRACE_WARNING && !OptionalDiagnostics(flags) {
      return Structure, next;
    }
    status := FixedPayloadStatus(kind, p);
    if status != OK {
      return;
    }
    if kind == COMMAND_INTENT {
      if st.phase != Idle {
        return Structure, next;
      }
      if st.commands + 1 > MAX_COMMAND_COUNT {
        return Limit, next;
      }
      status := IntentStatus(p);
      if status == OK {
        next := st.(phase := Intended, command := U32At(p, 4), commands := st.commands + 1);
      }
    } else if kind == COMMAND_TEST_RESULT {
      if st.phase != Intended {
        return Structure, next;
      }
      status := OutcomeStatus(p, st.command);
      if status == OK {
        next := st.(phase := Tested(p[2] != 0));
      }
    } else if kind == COMMAND_EXEC_RESULT {
      if st.phase != Tested(true) {
        return Structure, next;
      }
      status := OutcomeStatus(p, st.command);
      if status == OK {
        next := st.(phase := Executed);
      }
    } else if kind == AUTHORITATIVE_PROJECTION {
      if st.phase != Idle && st.phase != Executed && st.phase != Tested(false) {
        return Structure, next;
      }
      status := Projection.ParseProjection(ctx.registry, p);
      if status == OK {
        next := st.(phase := Idle, sawProjection := true);
      }
    }
  }

  /** The record at `offset`, which must end before the trailer. */
  method ReadRecord(ctx: Context, flags: u32, count: nat, sequence: nat, st: ReadState, b: bytes,
                    offset: nat, trailer: nat)
      returns (r: Result<(Record, ReadState), Status>, recordEnd: nat)
    requires offset <= trailer <= |b| <= MAX_TAPE_BYTES
    ensures r == ReadStep(ctx, flags, count, sequence, st, b[offset..trailer])
    ensures r.Success? ==> recordEnd == offset + FramedSize(|r.value.0.payload|) <= trailer
  {
    hide BodyStep, HeaderStatus, UInt, Zeros;
    ghost var rest := b[offset..trailer];
    recordEnd := offset;
    if trailer - offset < RECORD_HEADER_BYTES {
      return Failure(Truncated), recordEnd;
    }
    var h := DecodeHeader(b[offset..offset + RECORD_HEADER_BYTES]);
    SubRange(b, offset, trailer, 0, 40);
    var status := HeaderStatus(sequence, st, h);
    if status != OK {
      return Failure(status), recordEnd;
    }
    var unpadded := Add(RECORD_HEADER_BYTES, h.payloadBytes).value;
    var padded := Align8(unpadded).value;
    assert padded == FramedSize(h.payloadBytes);
    recordEnd := Add(offset, padded).value;
    if recordEnd > trailer {
      return Failure(Truncated), recordEnd;
    }
    var clean := AllZero(b, offset + unpadded, recordEnd);
    SubRange(b, offset, trailer, unpadded, padded);
    if !clean {
      return Failure(Canonical), recordEnd;
    }
    var payload := b[offset + RECORD_HEADER_BYTES..offset + unpadded];
    SubRange(b, offset, trailer, 40, unpadded);
    var record := Record(h.kind, h.version, h.flags, h.sequence, h.step, h.tick, payload);
    assert record == RecordIn(rest);
    var next;
    status, next := CheckBody(ctx, flags, count, sequence, st, record.kind, record.payload);
    if status != OK {
      return Failure(status), recordEnd;
    }
    return Success((record, Advance(next, h))), recordEnd;
  }

  // ---- The record loop ----

  ghost function After(done: seq<Record>, r: Result<(seq<Record>, ReadState, bytes), Status>)
    : Result<(seq<Record>, ReadState, bytes), Status>
  {
    match r
    case Failure(e) => Failure(e)
    case Success((rs, last, left)) => Success((done + rs, last, left))
  }

  lemma AfterNothing(r: Result<(seq<Record>, ReadState, bytes), Status>)
    ensures After([], r) == r
  {
    match r
    case Failure(_) =>
    case Success((rs, _, _)) => assert [] + rs == rs;
  }

  lemma AfterStep(ctx: Context, flags: u32, count: nat, sequence: nat, st: ReadState, rest: bytes, done: seq<Record>)
    requires sequence < count
    ensures After(done, ReadAll(ctx, flags, count, sequence, st, rest))
         == match ReadStep(ctx, flags, count, sequence, st, rest)
            case Failure(e) => Failure(e)
            case Success((r, next)) =>
              After(done + [r], ReadAll(ctx, flags, count, sequence + 1, next, rest[FramedSize(|r.payload|)..]))
  {
    hide ReadStep, FramedSize;
    match ReadStep(ctx, flags, count, sequence, st, rest)
    case Failure(_) =>
    case Success((r, next)) =>
      match ReadAll(ctx, flags, count, sequence + 1, next, rest[FramedSize(|r.payload|)..])
      case Failure(_) =>
      case Success((rs, last, left)) => assert done + ([r] + rs) == done + [r] + rs;
  }

  lemma AfterEnd(ctx: Context, flags: u32, count: nat, st: ReadState, rest: bytes, done: seq<Record>)
    ensures After(done, ReadAll(ctx, flags, count, count, st, rest)) == Success((done, st, rest))
  {
    assert done + [] == done;
  }

  /** Reads every record of the region, keeping them only when asked to. */
  method ReadRecords(ctx: Context, p: Prefix, b: bytes, start: nat, trailer: nat, retain: bool)
      returns (status: Status, kept: seq<Record>, last: ReadState, offset: nat)
    requires start <= trailer <= |b| <= MAX_TAPE_BYTES
    ensures start <= offset <= trailer
    ensures var r := ReadAll(ctx, p.flags, p.recordCount, 0, START, b[start..trailer]);
      if status == OK then
        && r.Success? && r.value.1 == last && r.value.2 == b[offset..trailer]
        && (retain ==> r.value.0 == kept)
      else r == Failure(status)
  {
    hide ReadAll, ReadStep, After;
    kept, last, offset := [], START, start;
    ghost var done: seq<Record> := [];
    var sequence := 0;
    AfterNothing(ReadAll(ctx, p.flags, p.recordCount, 0, START, b[start..trailer]));
    while sequence < p.recordCount
      invariant sequence <= p.recordCount && start <= offset <= trailer
      invariant retain ==> kept == done
      invariant ReadAll(ctx, p.flags, p.recordCount, 0, START, b[start..trailer])
             == After(done, ReadAll(ctx, p.flags, p.recordCount, sequence, last, b[offset..trailer]))
    {
      AfterStep(ctx, p.flags, p.recordCount, sequence, last, b[offset..trailer], done);
      var r, recordEnd := ReadRecord(ctx, p.flags, p.recordCount, sequence, last, b, offset, trailer);
      if r.Failure? {
        StepFails(ctx, p.flags, p.recordCount, sequence, last, b[offset..trailer]);
        return r.error, kept, last, offset;
      }
      var (record, next) := r.value;
      if retain {
        kept := kept + [record];
      }
      done := done + [record];
      assert b[offset..trailer][FramedSize(|record.payload|)..] == b[recordEnd..trailer];
      sequence, last, offset := sequence + 1, next, recordEnd;
    }
    AfterEnd(ctx, p.flags, p.recordCount, last, b[offset..trailer], done);
    status := OK;
  }

  lemma StepFails(ctx: Context, flags: u32, count: nat, sequence: nat, st: ReadState, rest: bytes)
    ensures var r := ReadStep(ctx, flags, count, sequence, st, rest); r.Failure? ==> r.error != OK
  {
    hide HeaderStatus, FixedPayloadStatus, IntentStatus, OutcomeStatus, Projection.ProjectionStatus, UInt;
  }

  // ---- The whole input ----

  method CheckPrefix(ctx: Context, b: bytes) returns (status: Status)
    ensures status == PrefixStatus(ctx, b)
  {
    hide UInt;
    if |b| < PREFIX_BYTES {
      return Truncated;
    }
    if |b| > MAX_TAPE_BYTES || |b| > ctx.maxTapeBytes {
      return Limit;
    }
    var i := 0;
    while i < 8
      invariant i <= 8 && b[..i] == PREFIX_MAGIC[..i]
    {
      if b[i] != PREFIX_MAGIC[i] {
        assert b[..8][i] != PREFIX_MAGIC[i];
        return Magic;
      }
      i := i + 1;
    }
    if U16At(b, 8) != FORMAT_MAJOR || U16At(b, 10) != FORMAT_MINOR {
      return Version;
    }
    if b[12] != BYTE_ORDER_LE {
      return Endian;
    }
    if b[13] != HASH_SHA256 {
      return HashAlgorithm;
    }
    if U16At(b, 14) != PREFIX_BYTES {
      return Structure;
    }
    var headerBytes := U32At(b, 16);
    if headerBytes == 0 {
      return Schema;
    }
    if headerBytes > MAX_HEADER_BYTES {
      return Limit;
    }
    var flags := U32At(b, 20);
    if flags / 0x1_0000 != 0 {
      return Version;
    }
    if flags % 2 == 1 {
      return Structure;
    }
    var recordCount := U64At(b, 24);
    if recordCount > MAX_RECORD_COUNT || recordCount > ctx.maxRecordCount {
      return Limit;
    }
    if U64At(b, 56) != 0 {
      return Reserved;
    }
    return OK;
  }

  /** `validate_bytes_internal`: `retain` selects the decoded copy, otherwise the mapping is kept. */
  method ValidateBytes(ctx: Context, b: bytes, retain: bool) returns (r: Result<LoadedTape, Status>)
    requires ctx.Valid()
    ensures match Validate(ctx, b)
      case Failure(e) => r == Failure(e)
      case Success(t) => r.Success? && Represents(ctx, r.value, t) && (r.value.storage.Retained? <==> retain)
  {
    hide PrefixStatus, ReadAll, ValidTape, Serialize, Covered, EncodeRecords, UInt, EncodePrefix;
    var status := CheckPrefix(ctx, b);
    if status != OK {
      return Failure(status);
    }
    assert PrefixStatus(ctx, b) == OK;
    PrefixFacts(ctx, b);
    status := EnvelopeStatus(ctx, b);
    if status != OK {
      return Failure(status);
    }
    var p := DecodePrefix(b);
    var start := PREFIX_BYTES + p.headerBytes;
    var trailer := |b| - TRAILER_BYTES;
    var kept, last, offset;
    status, kept, last, offset := ReadRecords(ctx, p, b, start, trailer, retain);
    if status != OK {
      return Failure(status);
    }
    assert b[offset..trailer] == [] <==> offset == trailer;
    if offset != trailer || !last.sawProjection || last.lastKind != TERMINAL
      || last.step != p.maxStep || last.tick != p.maxTick {
      return Failure(Structure);
    }
    ghost var t := Validate(ctx, b).value;
    TapeBijection.ReaderSound(ctx, b);
    LoadedPrefix(ctx, b);
    r := Success(LoadedTape(p.flags, p.recordCount, p.recordBytes, p.maxStep, p.maxTick,
                            b[PREFIX_BYTES..start], b[trailer + 24..trailer + 56],
                            if retain then Retained(kept) else Mapped(b)));
  }

  lemma PrefixFacts(ctx: Context, b: bytes)
    requires PrefixStatus(ctx, b) == OK
    ensures 64 <= |b| <= MAX_TAPE_BYTES
  {
  }

  /** The prefix fields and digest of an accepted input are those the serializer computes. */
  lemma LoadedPrefix(ctx: Context, b: bytes)
    requires ctx.Valid() && Validate(ctx, b).Success?
    ensures var t := Validate(ctx, b).value;
      && ValidTape(ctx, t) && DecodePrefix(b) == PrefixOf(t)
      && b[|b| - 40..|b| - 8] == ctx.sha256(Covered(t))
  {
    hide ReadAll, EncodePrefix, EncodeTrailer, Run, U16At, U32At, U64At, DecodePrefix, PrefixStatus, EnvelopeStatus;
    TapeBijection.ReaderSound(ctx, b);
    var t := Validate(ctx, b).value;
    var at := |Covered(t)|;
    assert b[..64] == EncodePrefix(PrefixOf(t));
    TapeBijection.PrefixComplete(PrefixOf(t), b);
    assert b[at..at + 64] == EncodeTrailer(|t.records|, at, ctx.sha256(Covered(t)));
    TapeBijection.TrailerFields(|t.records|, at, ctx.sha256(Covered(t)), b, at);
  }
}
