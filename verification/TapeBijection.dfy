/** Accepted inputs are exactly the serializations of valid tapes. */
module TapeBijection {
  import opened Wrappers
  import opened Bytes
  import opened CheckedArithmetic
  import opened TapeFormat
  import opened LifeCycle
  import opened TapeReader

  // ---- Records ----

  lemma StepSound(ctx: Context, flags: u32, count: nat, sequence: nat, st: ReadState, rest: bytes)
    requires ReadStep(ctx, flags, count, sequence, st, rest).Success?
    ensures var (r, next) := ReadStep(ctx, flags, count, sequence, st, rest).value;
      && RecordStep(ctx, flags, count, sequence, st, r) == Success(next)
      && rest == EncodeRecord(r) + rest[FramedSize(|r.payload|)..]
  {
    hide BodyStep, EncodeHeader, DecodeHeader;
    var h := DecodeHeader(rest[..40]);
    var r := RecordIn(rest);
    HeaderBytesRoundTrip(rest[..40]);
    assert HeaderOf(r) == h;
    var n := h.payloadBytes;
    assert rest == rest[..40] + rest[40..40 + n] + rest[40 + n..FramedSize(n)] + rest[FramedSize(n)..];
  }

  /** Reading the front of a laid-out region answers what the step over its first record answers. */
  lemma StepComplete(ctx: Context, flags: u32, count: nat, sequence: nat, st: ReadState, r: Record, tail: bytes)
    ensures ReadStep(ctx, flags, count, sequence, st, EncodeRecord(r) + tail)
         == match RecordStep(ctx, flags, count, sequence, st, r)
            case Failure(e) => Failure(e)
            case Success(next) => Success((r, next))
    ensures (EncodeRecord(r) + tail)[FramedSize(|r.payload|)..] == tail
  {
    hide BodyStep, EncodeHeader, DecodeHeader, HeaderStatus;
    var rest := EncodeRecord(r) + tail;
    var n := |r.payload|;
    HeaderRoundTrip(HeaderOf(r));
    assert rest[..40] == EncodeHeader(HeaderOf(r));
    assert rest[40..40 + n] == r.payload;
    assert rest[40 + n..FramedSize(n)] == Zeros(Pad8(40 + n));
    assert RecordIn(rest) == r;
  }

  lemma {:induction false} ReadAllSound(ctx: Context, flags: u32, count: nat, sequence: nat, st: ReadState, rest: bytes)
    requires sequence <= count
    requires ReadAll(ctx, flags, count, sequence, st, rest).Success?
    ensures var (rs, last, left) := ReadAll(ctx, flags, count, sequence, st, rest).value;
      && |rs| == count - sequence
      && Run(ctx, flags, count, sequence, st, rs) == Success(last)
      && rest == EncodeRecords(rs) + left
    decreases count - sequence
  {
    hide RecordStep, ReadStep, EncodeRecord, FramedSize;
    if sequence < count {
      StepSound(ctx, flags, count, sequence, st, rest);
      var (r, next) := ReadStep(ctx, flags, count, sequence, st, rest).value;
      var tail := rest[FramedSize(|r.payload|)..];
      ReadAllSound(ctx, flags, count, sequence + 1, next, tail);
      var (rs, last, left) := ReadAll(ctx, flags, count, sequence + 1, next, tail).value;
      assert ([r] + rs)[1..] == rs;
      assert rest == EncodeRecord(r) + (EncodeRecords(rs) + left) == EncodeRecords([r] + rs) + left;
    }
  }

  /** Reading a laid-out region answers what the run over its records answers, failures included. */
  lemma {:induction false} ReadAllComplete(ctx: Context, flags: u32, count: nat, sequence: nat, st: ReadState,
                                           rs: seq<Record>, left: bytes)
    requires sequence + |rs| == count
    ensures ReadAll(ctx, flags, count, sequence, st, EncodeRecords(rs) + left)
         == match Run(ctx, flags, count, sequence, st, rs)
            case Failure(e) => Failure(e)
            case Success(last) => Success((rs, last, left))
    decreases |rs|
  {
    hide RecordStep, ReadStep, EncodeRecord, FramedSize;
    if rs == [] {
      assert EncodeRecords(rs) + left == left;
    } else {
      var tail := EncodeRecords(rs[1..]) + left;
      assert EncodeRecords(rs) + left == EncodeRecord(rs[0]) + tail;
      StepComplete(ctx, flags, count, sequence, st, rs[0], tail);
      match RecordStep(ctx, flags, count, sequence, st, rs[0])
      case Failure(_) =>
      case Success(next) =>
        ReadAllComplete(ctx, flags, count, sequence + 1, next, rs[1..], left);
        assert [rs[0]] + rs[1..] == rs;
    }
  }

  /** A completed run ends in the state of its last record, which is the terminal. */
  lemma {:induction false} RunLast(ctx: Context, flags: u32, count: nat, sequence: nat, st: ReadState, rs: seq<Record>)
    requires rs != [] && sequence + |rs| == count
    requires Run(ctx, flags, count, sequence, st, rs).Success?
    ensures var last := Run(ctx, flags, count, sequence, st, rs).value;
      var r := rs[|rs| - 1];
      last.step == r.step && last.tick == r.tick && last.lastKind == r.kind == TERMINAL
    decreases |rs|
  {
    var next := RecordStep(ctx, flags, count, sequence, st, rs[0]).value;
    if |rs| == 1 {
      assert Run(ctx, flags, count, sequence + 1, next, rs[1..]) == Success(next);
    } else {
      RunLast(ctx, flags, count, sequence + 1, next, rs[1..]);
    }
  }

  // ---- Prefix and trailer ----

  lemma PrefixSound(b: bytes)
    requires |b| >= 64 && b[..8] == PREFIX_MAGIC && U16At(b, 8) == FORMAT_MAJOR && U16At(b, 10) == FORMAT_MINOR
    requires b[12] == BYTE_ORDER_LE && b[13] == HASH_SHA256 && U16At(b, 14) == PREFIX_BYTES && U64At(b, 56) == 0
    ensures b[..64] == EncodePrefix(DecodePrefix(b))
  {
    hide UInt;
    StoreLoad(b[8..10]); StoreLoad(b[10..12]); StoreLoad(b[14..16]);
    StoreLoad(b[16..20]); StoreLoad(b[20..24]);
    assert b[12..13] == [b[12]] && b[13..14] == [b[13]];
    assert b[..24] == b[..8] + b[8..10] + b[10..12] + b[12..13] + b[13..14] + b[14..16] + b[16..20] + b[20..24];
    assert b[..24] == PrefixHead(DecodePrefix(b));
    StoreLoad(b[24..32]); StoreLoad(b[32..40]); StoreLoad(b[40..48]); StoreLoad(b[48..56]); StoreLoad(b[56..64]);
    assert b[24..64] == b[24..32] + b[32..40] + b[40..48] + b[48..56] + b[56..64];
    assert b[..64] == b[..24] + b[24..64];
  }

  lemma PrefixHeadFields(p: Prefix, b: bytes)
    requires |b| >= 24 && b[..24] == PrefixHead(p)
    ensures b[..8] == PREFIX_MAGIC && U16At(b, 8) == FORMAT_MAJOR && U16At(b, 10) == FORMAT_MINOR
    ensures b[12] == BYTE_ORDER_LE && b[13] == HASH_SHA256 && U16At(b, 14) == PREFIX_BYTES
    ensures U32At(b, 16) == p.headerBytes && U32At(b, 20) == p.flags
  {
    hide UInt;
    Widths();
    var c := b[..24];
    assert b[..8] == c[..8] == PREFIX_MAGIC;
    assert b[8..10] == c[8..10] == LE(2, FORMAT_MAJOR);
    assert b[10..12] == c[10..12] == LE(2, FORMAT_MINOR);
    assert b[12] == c[12] && b[13] == c[13];
    assert b[14..16] == c[14..16] == LE(2, PREFIX_BYTES);
    assert b[16..20] == c[16..20] == LE(4, p.headerBytes);
    assert b[20..24] == c[20..24] == LE(4, p.flags);
    LoadStore(2, FORMAT_MAJOR); LoadStore(2, FORMAT_MINOR); LoadStore(2, PREFIX_BYTES);
    LoadStore(4, p.headerBytes); LoadStore(4, p.flags);
  }

  lemma PrefixTailFields(p: Prefix, b: bytes)
    requires |b| >= 64 && b[24..64] == PrefixTail(p)
    ensures U64At(b, 24) == p.recordCount && U64At(b, 32) == p.recordBytes
    ensures U64At(b, 40) == p.maxStep && U64At(b, 48) == p.maxTick && U64At(b, 56) == 0
  {
    hide UInt, LE;
    Widths();
    TailParts(p);
    SubSlice(b, 24, 40, 0, 8); SubSlice(b, 24, 40, 8, 16); SubSlice(b, 24, 40, 16, 24);
    SubSlice(b, 24, 40, 24, 32); SubSlice(b, 24, 40, 32, 40);
    hide PrefixTail;
    LoadStore(8, p.recordCount); LoadStore(8, p.recordBytes); LoadStore(8, p.maxStep);
    LoadStore(8, p.maxTick); LoadStore(8, 0);
  }

  lemma TailParts(p: Prefix)
    ensures var c := PrefixTail(p);
      && c[0..8] == LE(8, p.recordCount) && c[8..16] == LE(8, p.recordBytes) && c[16..24] == LE(8, p.maxStep)
      && c[24..32] == LE(8, p.maxTick) && c[32..40] == LE(8, 0)
  {
    hide LE;
  }

  lemma PrefixComplete(p: Prefix, b: bytes)
    requires |b| >= 64 && b[..64] == EncodePrefix(p)
    ensures b[..8] == PREFIX_MAGIC && U16At(b, 8) == FORMAT_MAJOR && U16At(b, 10) == FORMAT_MINOR
    ensures b[12] == BYTE_ORDER_LE && b[13] == HASH_SHA256 && U16At(b, 14) == PREFIX_BYTES
    ensures DecodePrefix(b) == p && U64At(b, 56) == 0
  {
    hide PrefixHead, PrefixTail, UInt;
    assert b[..24] == b[..64][..24] == PrefixHead(p);
    assert b[24..64] == b[..64][24..] == PrefixTail(p);
    PrefixHeadFields(p, b);
    PrefixTailFields(p, b);
  }

  lemma TrailerParts(count: u64, covered: u64, digest: Digest)
    ensures var c := EncodeTrailer(count, covered, digest);
      && c[0..8] == TRAILER_MAGIC && c[8..16] == LE(8, count) && c[16..24] == LE(8, covered)
      && c[24..56] == digest && c[56..64] == LE(8, 0)
  {
    hide LE;
  }

  lemma TrailerFields(count: u64, covered: u64, digest: Digest, b: bytes, at: nat)
    requires at + 64 <= |b| && b[at..at + 64] == EncodeTrailer(count, covered, digest)
    ensures b[at..at + 8] == TRAILER_MAGIC && U64At(b, at + 8) == count && U64At(b, at + 16) == covered
    ensures b[at + 24..at + 56] == digest && U64At(b, at + 56) == 0
  {
    hide UInt, LE;
    Widths();
    TrailerParts(count, covered, digest);
    SubSlice(b, at, 64, 0, 8); SubSlice(b, at, 64, 8, 16); SubSlice(b, at, 64, 16, 24);
    SubSlice(b, at, 64, 24, 56); SubSlice(b, at, 64, 56, 64);
    hide EncodeTrailer;
    LoadStore(8, count); LoadStore(8, covered); LoadStore(8, 0);
  }

  lemma TrailerBytes(b: bytes, at: nat)
    requires at + 64 == |b| && b[at..at + 8] == TRAILER_MAGIC && U64At(b, at + 56) == 0
    ensures b[at..] == EncodeTrailer(U64At(b, at + 8), U64At(b, at + 16), b[at + 24..at + 56])
  {
    hide UInt;
    StoreLoad(b[at + 8..at + 16]); StoreLoad(b[at + 16..at + 24]); StoreLoad(b[at + 56..at + 64]);
    assert b[at..] == b[at..at + 8] + b[at + 8..at + 16] + b[at + 16..at + 24] + b[at + 24..at + 56] + b[at + 56..at + 64];
  }

  // ---- Whole tapes ----

  /** Every accepted input is the serialization of a valid tape: re-serializing what was read gives
      the identical bytes. */
  lemma ReaderSound(ctx: Context, b: bytes)
    requires Validate(ctx, b).Success?
    ensures var t := Validate(ctx, b).value;
      ValidTape(ctx, t) && SerializedSize(t) <= MAX_TAPE_BYTES && b == Serialize(ctx, t)
  {
    hide ReadAll, EncodePrefix, EncodeTrailer, Run, EncodeRecords, U16At, U32At, U64At;
    var p := DecodePrefix(b);
    var start := PREFIX_BYTES + p.headerBytes;
    var at := |b| - TRAILER_BYTES;
    var region := b[start..at];
    var (rs, last, left) := ReadAll(ctx, p.flags, p.recordCount, 0, START, region).value;
    ReadAllSound(ctx, p.flags, p.recordCount, 0, START, region);
    RunLast(ctx, p.flags, p.recordCount, 0, START, rs);
    assert region == EncodeRecords(rs) by { assert left == []; }
    var t := Validate(ctx, b).value;
    assert t == Tape(p.flags, b[PREFIX_BYTES..start], rs);
    assert TrailerOffset(p) == Some(at);
    assert PrefixOf(t) == p;
    PrefixSound(b);
    assert b[..at] == b[..64] + b[64..start] + region;
    assert Covered(t) == b[..at];
    TrailerBytes(b, at);
    assert b == b[..at] + b[at..];
  }

  /** A tape within the limits of the format, with an acceptable header; nothing is said of its records. */
  predicate WellFramed(ctx: Context, t: Tape) {
    && 0 < |t.header| <= MAX_HEADER_BYTES && ctx.headerStatus(t.header) == OK && FlagsOk(t.flags)
    && 0 < |t.records| <= MAX_RECORD_COUNT && SerializedSize(t) <= MAX_TAPE_BYTES
  }

  /** The local limits of a context. */
  predicate WithinLimits(ctx: Context, t: Tape) {
    SerializedSize(t) <= ctx.maxTapeBytes && |t.records| <= ctx.maxRecordCount
  }

  /** The checks around the records of a serialized tape: only the local limits can fail. */
  lemma SerializedEnvelope(ctx: Context, t: Tape)
    requires ctx.Valid() && WellFramed(ctx, t)
    ensures var b := Serialize(ctx, t);
      && PrefixStatus(ctx, b) == (if WithinLimits(ctx, t) then OK else Limit)
      && (WithinLimits(ctx, t) ==> EnvelopeStatus(ctx, b) == OK)
      && |b| >= 128 && DecodePrefix(b) == PrefixOf(t)
      && b[64..64 + |t.header|] == t.header && b[64 + |t.header|..|b| - 64] == EncodeRecords(t.records)
  {
    hide EncodePrefix, EncodeTrailer, EncodeRecords, U16At, U32At, U64At, DecodePrefix;
    var b := Serialize(ctx, t);
    var p := PrefixOf(t);
    var start := PREFIX_BYTES + p.headerBytes;
    var at := |Covered(t)|;
    var rs := t.records;
    assert b[..at] == Covered(t);
    assert b[..64] == EncodePrefix(p);
    PrefixComplete(p, b);
    assert b[at..at + 64] == EncodeTrailer(|rs|, at, ctx.sha256(Covered(t)));
    TrailerFields(|rs|, at, ctx.sha256(Covered(t)), b, at);
    assert b[PREFIX_BYTES..start] == t.header;
    assert b[start..at] == EncodeRecords(rs);
    assert TrailerOffset(p) == Some(at);
  }

  /** What reading a serialized tape answers: the local limits come first, then the first record that breaks a
      rule, then the projection that must have been seen. */
  lemma SerializedStatus(ctx: Context, t: Tape)
    requires ctx.Valid() && WellFramed(ctx, t)
    ensures Validate(ctx, Serialize(ctx, t))
         == if !WithinLimits(ctx, t) then Failure(Limit)
            else
              match Run(ctx, t.flags, |t.records|, 0, START, t.records)
              case Failure(e) => Failure(e)
              case Success(last) => if last.sawProjection then Success(t) else Failure(Structure)
  {
    SerializedEnvelope(ctx, t);
    hide ReadAll, Run, Serialize, EncodeRecords, PrefixStatus, EnvelopeStatus, DecodePrefix, WithinLimits;
    var rs := t.records;
    assert EncodeRecords(rs) + [] == EncodeRecords(rs);
    ReadAllComplete(ctx, t.flags, |rs|, 0, START, rs, []);
    if Run(ctx, t.flags, |rs|, 0, START, rs).Success? {
      RunLast(ctx, t.flags, |rs|, 0, START, rs);
    }
  }

  /** Every valid tape, once serialized, is accepted and decodes to itself. */
  lemma ReaderComplete(ctx: Context, t: Tape)
    requires ctx.Valid() && ValidTape(ctx, t)
    ensures Validate(ctx, Serialize(ctx, t)) == Success(t)
  {
    hide Run, Validate, Serialize, EncodeRecords;
    SerializedStatus(ctx, t);
  }

  /** The reader accepts exactly the serializations of valid tapes, and reads each one back. */
  lemma ReaderExact(ctx: Context, b: bytes, t: Tape)
    requires ctx.Valid()
    ensures Validate(ctx, b) == Success(t) <==> ValidTape(ctx, t) && b == Serialize(ctx, t)
  {
    if Validate(ctx, b) == Success(t) {
      ReaderSound(ctx, b);
    }
    if ValidTape(ctx, t) && b == Serialize(ctx, t) {
      ReaderComplete(ctx, t);
    }
  }
}
