/** Where everything stands in a tape, byte offset by byte offset (section 17.6 of the format). */
module TapeLayout {
  import opened Wrappers
  import opened Bytes
  import opened CheckedArithmetic
  import opened TapeFormat
  import opened LifeCycle
  import opened TapeReader
  import opened Projection
  import TapeBijection
  import TapeWriter

  /** A record: forty header bytes, the payload, and fewer than eight zeros up to a multiple of eight. */
  lemma RecordLayout(r: Record)
    ensures var (b, n) := (EncodeRecord(r), |r.payload|);
      && U16At(b, 0) == r.kind && U16At(b, 2) == r.version && U32At(b, 4) == r.flags && U64At(b, 8) == r.sequence
      && U64At(b, 16) == r.step && U64At(b, 24) == r.tick && U32At(b, 32) == n && U32At(b, 36) == 0
      && b[40..40 + n] == r.payload && |b| % 8 == 0 && 40 + n <= |b| < 48 + n && b[40 + n..] == Zeros(|b| - 40 - n)
  {
    hide UInt, LE;
    var (b, n) := (EncodeRecord(r), |r.payload|);
    var h := EncodeHeader(HeaderOf(r));
    HeaderRoundTrip(HeaderOf(r));
    assert b[..40] == h;
    SubRange(b, 0, 40, 0, 2); SubRange(b, 0, 40, 2, 4); SubRange(b, 0, 40, 4, 8); SubRange(b, 0, 40, 8, 16);
    SubRange(b, 0, 40, 16, 24); SubRange(b, 0, 40, 24, 32); SubRange(b, 0, 40, 32, 36); SubRange(b, 0, 40, 36, 40);
    hide EncodeHeader;
    assert b[40..40 + n] == r.payload && b[40 + n..] == Zeros(Pad8(40 + n));
  }

  /** A field: sixteen header bytes, the value, and zeros up to a multiple of eight. */
  lemma FieldLayout(f: Field)
    ensures var (b, n) := (EncodeField(f), |f.value|);
      && U32At(b, 0) == f.id && U16At(b, 4) == f.valueType && U16At(b, 6) == f.flags && U32At(b, 8) == f.elements
      && U32At(b, 12) == n && b[16..16 + n] == f.value
      && |b| % 8 == 0 && 16 + n <= |b| < 24 + n && b[16 + n..] == Zeros(|b| - 16 - n)
  {
    hide UInt, LE;
    var (b, n) := (EncodeField(f), |f.value|);
    FieldHeaderRoundTrip(HeaderOfField(f));
    assert b[..16] == EncodeFieldHeader(HeaderOfField(f));
    SubRange(b, 0, 16, 0, 4); SubRange(b, 0, 16, 4, 6); SubRange(b, 0, 16, 6, 8); SubRange(b, 0, 16, 8, 12);
    SubRange(b, 0, 16, 12, 16);
    hide EncodeFieldHeader;
    assert b[16..16 + n] == f.value && b[16 + n..] == Zeros(Pad8(n));
  }

  /** The prefix of a tape: magic "OTRLTAP", version 1.0, little-endian, SHA-256, and the sizes and maxima. */
  predicate PrefixLaidOut(b: bytes, t: Tape) {
    && |b| >= 64 && t.records != []
    && b[..8] == [0x4F, 0x54, 0x52, 0x4C, 0x54, 0x41, 0x50, 0] && U16At(b, 8) == 1 && U16At(b, 10) == 0
    && b[12] == 1 && b[13] == 1 && U16At(b, 14) == 64
    && U32At(b, 16) == |t.header| && U32At(b, 20) == t.flags
    && U64At(b, 24) == |t.records| && U64At(b, 32) == |EncodeRecords(t.records)|
    && U64At(b, 40) == t.records[|t.records| - 1].step && U64At(b, 48) == t.records[|t.records| - 1].tick
    && U64At(b, 56) == 0
  }

  /** The trailer at `at`: magic "OTRLEND", the counts again, and the hash of everything before it. */
  predicate TrailerLaidOut(ctx: Context, b: bytes, at: nat, count: nat) {
    && |b| == at + 64
    && b[at..at + 8] == [0x4F, 0x54, 0x52, 0x4C, 0x45, 0x4E, 0x44, 0] && U64At(b, at + 8) == count
    && U64At(b, at + 16) == at && b[at + 24..at + 56] == ctx.sha256(b[..at]) && U64At(b, at + 56) == 0
  }

  /** A tape: prefix, header, records one after another, trailer. */
  lemma SerializedLayout(ctx: Context, t: Tape)
    requires t.records != [] && SerializedSize(t) <= MAX_TAPE_BYTES && |t.header| < 0x1_0000_0000
    ensures var b := Serialize(ctx, t);
      var (start, at) := (64 + |t.header|, 64 + |t.header| + |EncodeRecords(t.records)|);
      && PrefixLaidOut(b, t) && b[64..start] == t.header && |b| == at + 64
      && b[start..at] == EncodeRecords(t.records) && TrailerLaidOut(ctx, b, at, |t.records|)
  {
    hide EncodeRecords, EncodePrefix, EncodeTrailer, U16At, U32At, U64At, DecodePrefix;
    var b := Serialize(ctx, t);
    var at := |Covered(t)|;
    assert b[..at] == Covered(t);
    assert b[..64] == EncodePrefix(PrefixOf(t));
    TapeBijection.PrefixComplete(PrefixOf(t), b);
    assert b[at..at + 64] == EncodeTrailer(|t.records|, at, ctx.sha256(Covered(t)));
    TapeBijection.TrailerFields(|t.records|, at, ctx.sha256(Covered(t)), b, at);
    TapeWriter.SerializedParts(ctx, t);
    PrefixFields(b, PrefixOf(t));
  }

  lemma PrefixFields(b: bytes, p: Prefix)
    requires |b| >= 64 && DecodePrefix(b) == p
    ensures U32At(b, 16) == p.headerBytes && U32At(b, 20) == p.flags && U64At(b, 24) == p.recordCount
    ensures U64At(b, 32) == p.recordBytes && U64At(b, 40) == p.maxStep && U64At(b, 48) == p.maxTick
  {
  }

  /** Record `k` starts where the records before it end. */
  lemma RecordAt(rs: seq<Record>, k: nat)
    requires k < |rs|
    ensures var (b, at) := (EncodeRecords(rs), |EncodeRecords(rs[..k])|);
      at + |EncodeRecord(rs[k])| <= |b| && b[at..at + |EncodeRecord(rs[k])|] == EncodeRecord(rs[k])
  {
    hide EncodeRecord, EncodeRecords;
    EncodeRecordsSnoc(rs, k);
    EncodeRecordsSplit(rs, k + 1);
  }
}
