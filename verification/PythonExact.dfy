/** The independent decoder accepts exactly the encodings of what it returns: prefix, header, records padded to the
    file offset, and a trailer with the hash of everything before it. */
module PythonExact {
  import opened Wrappers
  import opened Bytes
  import opened CheckedArithmetic
  import opened TapeFormat
  import opened FieldRegistry
  import opened LifeCycle
  import opened TapeReader
  import opened Projection
  import opened PythonDecoder
  import opened ProjectionRules
  import RecordCursor
  import TapeBijection
  import TapeRules
  import TapeWriter
  import Utf8

  // ---- Fields ----

  /** The bytes of one element; a stable id (10) has as many as its flags say, and none when they say zero. */
  function ElementWidth(f: Field): nat {
    if f.valueType == 1 || f.valueType == 5 then 1
    else if f.valueType == 2 || f.valueType == 6 then 2
    else if f.valueType == 3 || f.valueType == 7 then 4
    else if f.valueType == 4 || f.valueType == 8 then 8
    else if f.valueType == 10 then f.flags
    else 0
  }

  /** What the decoder asks of a field. */
  ghost predicate Row(meta: FieldMeta, f: Field) {
    && f.id == meta.id && f.valueType == meta.valueType && 1 <= f.valueType <= 12
    && (f.valueType != 10 ==> f.flags == 0)
    && (meta.widthBits != 0 ==> meta.widthBits == 8 * ElementWidth(f))
    && CountRule(meta, f.elements)
    && (ElementWidth(f) != 0 ==> |f.value| == f.elements * ElementWidth(f))
    && (f.valueType == 9 || f.valueType == 12 ==> |f.value| == f.elements)
    && (f.valueType == 11 ==> |f.value| == (f.elements + 7) / 8 && NoStray(f.value, f.elements))
    && (f.valueType == 12 ==> Utf8.WellFormed(f.value))
  }

  lemma RowErrors(meta: FieldMeta, f: Field)
    requires f.id == meta.id && f.valueType == meta.valueType
    ensures FieldError(meta, f).None? <==> Row(meta, f)
  {
    hide NoStray, Pow2;
    if f.valueType == 11 && |f.value| == (f.elements + 7) / 8 {
      StrayBits(f.value, f.elements);
    }
  }

  lemma FieldSound(meta: FieldMeta, previous: nat, rest: bytes)
    requires DecodeField(meta, previous, rest).Success?
    ensures var f := DecodeField(meta, previous, rest).value;
      Row(meta, f) && f.id > previous && rest == EncodeField(f) + rest[FieldSize(|f.value|)..]
  {
    hide FieldError, EncodeFieldHeader, DecodeFieldHeader, Row;
    var f := DecodeField(meta, previous, rest).value;
    RowErrors(meta, f);
    FieldHeaderBytesRoundTrip(rest[..16]);
    var n := |f.value|;
    assert rest == rest[..16] + rest[16..16 + n] + rest[16 + n..FieldSize(n)] + rest[FieldSize(n)..];
  }

  lemma RowIds(meta: FieldMeta, f: Field)
    requires Row(meta, f)
    ensures f.id == meta.id && f.valueType == meta.valueType
  {
  }

  lemma FieldComplete(meta: FieldMeta, previous: nat, f: Field, tail: bytes)
    requires Row(meta, f) && f.id > previous
    ensures DecodeField(meta, previous, EncodeField(f) + tail) == Success(f)
  {
    hide FieldError, EncodeFieldHeader, DecodeFieldHeader, Row;
    RowIds(meta, f);
    RowErrors(meta, f);
    var rest := EncodeField(f) + tail;
    var n := |f.value|;
    FieldHeaderRoundTrip(HeaderOfField(f));
    assert rest[..16] == EncodeFieldHeader(HeaderOfField(f));
    assert rest[16..16 + n] == f.value;
    assert rest[16 + n..FieldSize(n)] == Zeros(Pad8(n));
  }

  ghost predicate Rows(metas: seq<FieldMeta>, fs: seq<Field>) {
    |fs| == |metas| && forall k :: 0 <= k < |fs| ==> Row(metas[k], fs[k])
  }

  lemma RowsTail(metas: seq<FieldMeta>, fs: seq<Field>)
    requires metas != [] && fs != []
    ensures Rows(metas, fs) <==> Row(metas[0], fs[0]) && Rows(metas[1..], fs[1..])
  {
    hide Row;
    assert forall k :: 1 <= k < |fs| ==> fs[k] == fs[1..][k - 1];
    assert forall k :: 1 <= k < |metas| ==> metas[k] == metas[1..][k - 1];
  }

  lemma {:induction false} FieldsSound(metas: seq<FieldMeta>, previous: nat, rest: bytes)
    requires DecodeFields(metas, previous, rest).Success?
    ensures var fs := DecodeFields(metas, previous, rest).value; Rows(metas, fs) && rest == EncodeFields(fs)
    decreases |metas|
  {
    hide DecodeField, EncodeField, Row, Rows;
    var fs := DecodeFields(metas, previous, rest).value;
    if metas != [] {
      FieldSound(metas[0], previous, rest);
      var f := DecodeField(metas[0], previous, rest).value;
      FieldsSound(metas[1..], f.id, rest[FieldSize(|f.value|)..]);
      assert fs[1..] == DecodeFields(metas[1..], f.id, rest[FieldSize(|f.value|)..]).value;
      RowsTail(metas, fs);
    } else {
      NoRows();
    }
  }

  lemma NoRows()
    ensures Rows([], [])
  {
  }

  lemma RowsLength(metas: seq<FieldMeta>, fs: seq<Field>)
    requires Rows(metas, fs)
    ensures |fs| == |metas|
  {
  }

  lemma {:induction false} FieldsComplete(metas: seq<FieldMeta>, previous: nat, fs: seq<Field>)
    requires SortedById(metas) && Rows(metas, fs) && (metas != [] ==> previous < metas[0].id)
    ensures DecodeFields(metas, previous, EncodeFields(fs)) == Success(fs)
    decreases |metas|
  {
    hide DecodeField, EncodeField, Row, Rows;
    RowsLength(metas, fs);
    if metas != [] {
      RowsTail(metas, fs);
      RowIds(metas[0], fs[0]);
      FieldComplete(metas[0], previous, fs[0], EncodeFields(fs[1..]));
      assert EncodeFields(fs)[FieldSize(|fs[0].value|)..] == EncodeFields(fs[1..]);
      FieldsComplete(metas[1..], fs[0].id, fs[1..]);
      assert [fs[0]] + fs[1..] == fs;
    }
  }

  // ---- Projections ----

  /** A field with this id holds `n`, however wide it is. */
  ghost predicate Holds(fs: seq<Field>, id: nat, n: nat) {
    exists j :: 0 <= j < |fs| && fs[j].id == id && UInt(fs[j].value) == n
  }

  ghost predicate Relation(fs: seq<Field>, meta: FieldMeta, f: Field) {
    && (meta.countSource != 0 ==> Holds(fs, meta.countSource, f.elements))
    && (meta.offsetTarget != 0 ==> exists n: nat :: Holds(fs, meta.offsetTarget, n) && Tiles(Chunks(f.value), n))
  }

  lemma {:induction false} ByIdHolds(fs: seq<Field>, id: u32, n: nat)
    requires forall i, j :: 0 <= i < j < |fs| ==> fs[i].id != fs[j].id
    ensures ById(fs, id).Some? && UInt(ById(fs, id).value.value) == n <==> Holds(fs, id, n)
  {
    hide UInt;
    if fs != [] {
      forall i, j | 0 <= i < j < |fs[1..]| ensures fs[1..][i].id != fs[1..][j].id {
        assert fs[1..][i] == fs[i + 1] && fs[1..][j] == fs[j + 1];
      }
      ByIdHolds(fs[1..], id, n);
      assert forall j :: 1 <= j < |fs| ==> fs[j] == fs[1..][j - 1];
      if Holds(fs[1..], id, n) {
        var j :| 0 <= j < |fs[1..]| && fs[1..][j].id == id && UInt(fs[1..][j].value) == n;
        assert fs[j + 1].id == id && UInt(fs[j + 1].value) == n;
      }
    }
  }

  lemma RelationErrors(fs: seq<Field>, meta: FieldMeta, f: Field)
    requires forall i, j :: 0 <= i < j < |fs| ==> fs[i].id != fs[j].id
    ensures RelationError(fs, meta, f).None? <==> Relation(fs, meta, f)
  {
    hide Holds, ById, Tiles, Chunks, UInt;
    ByIdHolds(fs, meta.countSource, f.elements);
    forall n: nat
      ensures ById(fs, meta.offsetTarget).Some? && UInt(ById(fs, meta.offsetTarget).value.value) == n
         <==> Holds(fs, meta.offsetTarget, n)
    {
      ByIdHolds(fs, meta.offsetTarget, n);
    }
    if ById(fs, meta.offsetTarget).Some? {
      var n: nat := UInt(ById(fs, meta.offsetTarget).value.value);
      assert Holds(fs, meta.offsetTarget, n);
    }
  }

  /** A projection the decoder takes, with the fields it returns. */
  ghost predicate IsReference(registry: Registry, p: bytes, fs: seq<Field>) {
    var metas := Authoritative(registry);
    && |p| >= 24 && U16At(p, 0) == 1 && p[3] == 0 && U32At(p, 4) == |metas|
    && Rows(metas, fs) && p[24..] == EncodeFields(fs)
    && forall k :: 0 <= k < |fs| && k < |metas| ==> Relation(fs, metas[k], fs[k])
  }

  lemma RowsDistinct(metas: seq<FieldMeta>, fs: seq<Field>)
    requires SortedById(metas) && Rows(metas, fs)
    ensures |fs| == |metas| && forall i, j :: 0 <= i < j < |fs| ==> fs[i].id != fs[j].id
  {
  }

  lemma ProjectionExactly(registry: Registry, p: bytes, fs: seq<Field>)
    requires SortedById(registry)
    ensures DecodeProjection(registry, p) == Success(fs) <==> IsReference(registry, p, fs)
  {
    hide DecodeFields, Rows, Relation, RelationError, FirstError, EncodeFields, Authoritative;
    AuthoritativeSorted(registry);
    var metas := Authoritative(registry);
    if |p| >= 24 {
      if DecodeFields(metas, 0, p[24..]).Success? {
        FieldsSound(metas, 0, p[24..]);
      }
      if Rows(metas, fs) {
        if p[24..] == EncodeFields(fs) {
          FieldsComplete(metas, 0, fs);
        }
        RowsDistinct(metas, fs);
        forall k | 0 <= k < |fs| ensures RelationError(fs, metas[k], fs[k]).None? <==> Relation(fs, metas[k], fs[k]) {
          RelationErrors(fs, metas[k], fs[k]);
        }
        NoError(fs, metas, fs);
      }
    }
  }

  // ---- Records ----

  /** Record `r` as it stands at file offset `offset`: padded with zeros to a multiple of eight of the file. */
  function EncodeAt(r: Record, offset: nat): (b: bytes)
    ensures |b| == PaddedSize(offset, |r.payload|)
  {
    EncodeHeader(HeaderOf(r)) + r.payload + Zeros(Pad8(offset + 40 + |r.payload|))
  }

  function EncodeAllAt(ds: seq<Decoded>, offset: nat): bytes
    decreases |ds|
  {
    if ds == [] then []
    else
      var b := EncodeAt(ds[0].record, offset);
      b + EncodeAllAt(ds[1..], offset + |b|)
  }

  /** What the decoder asks of the record at position `k`, which starts at file offset `offset`; `step` and `tick` are the
      boundary before it. */
  ghost predicate RecordRule(registry: Registry, d: Decoded, k: nat, step: nat, tick: nat, offset: nat) {
    var r := d.record;
    && d.offset == offset && r.sequence == k && r.version == 1 && r.flags <= 1
    && (k > 0 ==> step <= r.step && tick <= r.tick)
    && if r.kind == 5 then IsReference(registry, r.payload, d.fields) else d.fields == []
  }

  /** Records one after another, the first at `offset`. */
  ghost predicate RecordsRule(registry: Registry, ds: seq<Decoded>, k: nat, step: nat, tick: nat, offset: nat)
    decreases |ds|
  {
    ds != [] ==>
      && RecordRule(registry, ds[0], k, step, tick, offset)
      && RecordsRule(registry, ds[1..], k + 1, ds[0].record.step, ds[0].record.tick, offset + |EncodeAt(ds[0].record, offset)|)
  }

  lemma StepSound(registry: Registry, k: nat, step: nat, tick: nat, offset: nat, rest: bytes)
    requires SortedById(registry) && DecodeStep(registry, k, step, tick, offset, rest).Success?
    ensures var d := DecodeStep(registry, k, step, tick, offset, rest).value;
      && RecordRule(registry, d, k, step, tick, offset)
      && rest == EncodeAt(d.record, offset) + rest[PaddedSize(offset, |d.record.payload|)..]
  {
    hide EncodeHeader, DecodeHeader, DecodeProjection, IsReference;
    var d := DecodeStep(registry, k, step, tick, offset, rest).value;
    HeaderBytesRoundTrip(rest[..40]);
    assert HeaderOf(d.record) == DecodeHeader(rest[..40]);
    var n := |d.record.payload|;
    assert rest == rest[..40] + rest[40..40 + n] + rest[40 + n..PaddedSize(offset, n)] + rest[PaddedSize(offset, n)..];
    ProjectionExactly(registry, d.record.payload, d.fields);
  }

  lemma StepComplete(registry: Registry, d: Decoded, k: nat, step: nat, tick: nat, offset: nat, tail: bytes)
    requires SortedById(registry) && RecordRule(registry, d, k, step, tick, offset)
    ensures DecodeStep(registry, k, step, tick, offset, EncodeAt(d.record, offset) + tail) == Success(d)
  {
    hide EncodeHeader, DecodeHeader, DecodeProjection, IsReference;
    var r := d.record;
    var rest := EncodeAt(r, offset) + tail;
    var n := |r.payload|;
    HeaderRoundTrip(HeaderOf(r));
    assert rest[..40] == EncodeHeader(HeaderOf(r));
    assert rest[40..40 + n] == r.payload;
    assert rest[40 + n..PaddedSize(offset, n)] == Zeros(Pad8(offset + 40 + n));
    ProjectionExactly(registry, r.payload, d.fields);
  }

  lemma {:induction false} AllSound(registry: Registry, count: nat, k: nat, step: nat, tick: nat, offset: nat, rest: bytes)
    requires SortedById(registry) && k <= count && DecodeAll(registry, count, k, step, tick, offset, rest).Success?
    ensures var q := DecodeAll(registry, count, k, step, tick, offset, rest).value;
      && |q.records| == count - k && RecordsRule(registry, q.records, k, step, tick, offset)
      && var region := EncodeAllAt(q.records, offset);
      && q.offset == offset + |region| && |region| <= |rest| && rest[..|region|] == region
      && (if q.records == [] then q.step == step && q.tick == tick
          else q.step == q.records[|q.records| - 1].record.step && q.tick == q.records[|q.records| - 1].record.tick)
    decreases count - k
  {
    hide DecodeStep, RecordRule, EncodeAt, PaddedSize;
    if k < count {
      StepSound(registry, k, step, tick, offset, rest);
      var d := DecodeStep(registry, k, step, tick, offset, rest).value;
      var size := PaddedSize(offset, |d.record.payload|);
      var (b, tail) := (EncodeAt(d.record, offset), rest[size..]);
      AllSound(registry, count, k + 1, d.record.step, d.record.tick, offset + size, tail);
      var q := DecodeAll(registry, count, k + 1, d.record.step, d.record.tick, offset + size, tail).value;
      var all := [d] + q.records;
      assert all[1..] == q.records;
      var region := EncodeAllAt(q.records, offset + size);
      assert (b + tail)[..|b + region|] == b + tail[..|region|];
    }
  }

  lemma {:induction false} AllComplete(registry: Registry, ds: seq<Decoded>, k: nat, step: nat, tick: nat, offset: nat)
    requires SortedById(registry) && RecordsRule(registry, ds, k, step, tick, offset)
    ensures DecodeAll(registry, k + |ds|, k, step, tick, offset, EncodeAllAt(ds, offset))
         == Success(Progress(ds, if ds == [] then step else ds[|ds| - 1].record.step,
                             if ds == [] then tick else ds[|ds| - 1].record.tick, offset + |EncodeAllAt(ds, offset)|))
    decreases |ds|
  {
    hide DecodeStep, RecordRule, EncodeAt, PaddedSize;
    if ds != [] {
      var (d, b) := (ds[0], EncodeAt(ds[0].record, offset));
      var tail := EncodeAllAt(ds[1..], offset + |b|);
      StepComplete(registry, d, k, step, tick, offset, tail);
      assert (b + tail)[|b|..] == tail;
      AllComplete(registry, ds[1..], k + 1, d.record.step, d.record.tick, offset + |b|);
      assert [d] + ds[1..] == ds;
    }
  }

  // ---- Whole tapes ----

  /** A tape as the decoder returns it: the header passes its check, no required flag, records that start with a replay start
      at the end of the header, include a projection and end with a terminal, and the maxima of the last record. */
  ghost predicate IsDecoded(registry: Registry, headerCheck: bytes -> Status, v: Reference) {
    var (ds, start) := (v.records, 64 + |v.header|);
    && 0 < |v.header| <= 1_048_576 && headerCheck(v.header) == OK && v.flags < 0x1_0000 && v.flags % 2 == 0
    && 0 < |ds| <= 50_000_000 && RecordsRule(registry, ds, 0, 0, 0, start)
    && start + |EncodeAllAt(ds, start)| <= 0xFFFF_FFFF_FFFF_FFFF
    && ds[0].record.kind == 1 && ds[|ds| - 1].record.kind == 11
    && (exists k :: 0 <= k < |ds| && ds[k].record.kind == 5)
    && v.maxStep == ds[|ds| - 1].record.step && v.maxTick == ds[|ds| - 1].record.tick
  }

  function CoveredBytes(v: Reference): (b: bytes)
    requires 64 + |v.header| + |EncodeAllAt(v.records, 64 + |v.header|)| <= 0xFFFF_FFFF_FFFF_FFFF
    requires |v.header| < 0x1_0000_0000 && |v.records| <= 0xFFFF_FFFF_FFFF_FFFF
    ensures |b| == 64 + |v.header| + |EncodeAllAt(v.records, 64 + |v.header|)|
  {
    var region := EncodeAllAt(v.records, 64 + |v.header|);
    EncodePrefix(Prefix(|v.header|, v.flags, |v.records|, |region|, v.maxStep, v.maxTick)) + v.header + region
  }

  /** The file a decoded tape stands for: prefix, header, records, and a trailer with the hash of all of them. */
  function FileOf(sha256: bytes -> Digest, v: Reference): bytes
    requires 64 + |v.header| + |EncodeAllAt(v.records, 64 + |v.header|)| <= 0xFFFF_FFFF_FFFF_FFFF
    requires |v.header| < 0x1_0000_0000 && |v.records| <= 0xFFFF_FFFF_FFFF_FFFF
  {
    var covered := CoveredBytes(v);
    covered + EncodeTrailer(|v.records|, |covered|, sha256(covered))
  }

  /** An envelope that passes is a prefix and a trailer around a header and a region. */
  lemma EnvelopeSound(headerCheck: bytes -> Status, sha256: bytes -> Digest, b: bytes)
    requires EnvelopeCheck(headerCheck, sha256, b) == OK
    ensures var p := DecodePrefix(b);
      && |b| >= 128 && var (start, at) := (64 + p.headerBytes, |b| - 64);
      && at == start + p.recordBytes <= 0xFFFF_FFFF_FFFF_FFFF
      && 0 < p.headerBytes <= 1_048_576 && headerCheck(b[64..start]) == OK && p.flags < 0x1_0000 && p.flags % 2 == 0
      && 0 < p.recordCount <= 50_000_000
      && b[..64] == EncodePrefix(p) && b[at..] == EncodeTrailer(p.recordCount, at, sha256(b[..at]))
  {
    hide UInt, EncodePrefix, EncodeTrailer;
    TapeBijection.PrefixSound(b);
    TapeBijection.TrailerBytes(b, |b| - 64);
  }

  lemma EnvelopeComplete(headerCheck: bytes -> Status, sha256: bytes -> Digest, p: Prefix, header: bytes, region: bytes)
    requires p.headerBytes == |header| && p.recordBytes == |region| && 64 + |header| + |region| <= 0xFFFF_FFFF_FFFF_FFFF
    requires 0 < |header| <= 1_048_576 && headerCheck(header) == OK && p.flags < 0x1_0000 && p.flags % 2 == 0
    requires 0 < p.recordCount <= 50_000_000
    ensures var covered := EncodePrefix(p) + header + region;
      var b := covered + EncodeTrailer(p.recordCount, |covered|, sha256(covered));
      && EnvelopeCheck(headerCheck, sha256, b) == OK && DecodePrefix(b) == p
      && b[64..64 + |header|] == header && b[64 + |header|..|b| - 64] == region
  {
    hide UInt, EncodePrefix, EncodeTrailer, U16At, U32At, U64At, DecodePrefix;
    var covered := EncodePrefix(p) + header + region;
    var at := |covered|;
    var trailer := EncodeTrailer(p.recordCount, at, sha256(covered));
    var b := covered + trailer;
    assert b[..64] == EncodePrefix(p);
    TapeBijection.PrefixComplete(p, b);
    assert b[..at] == covered && b[at..at + 64] == trailer;
    TapeBijection.TrailerFields(p.recordCount, at, sha256(covered), b, at);
    assert b[64..64 + |header|] == header && b[64 + |header|..at] == region;
  }

  lemma DecodedSound(registry: Registry, headerCheck: bytes -> Status, sha256: bytes -> Digest, b: bytes)
    requires SortedById(registry) && DecodeBytes(registry, headerCheck, sha256, b).Success?
    ensures var v := DecodeBytes(registry, headerCheck, sha256, b).value;
      IsDecoded(registry, headerCheck, v) && b == FileOf(sha256, v)
  {
    hide EnvelopeCheck, DecodeAll, DecodePrefix, EncodePrefix, EncodeTrailer, RecordsRule, EncodeAllAt;
    EnvelopeSound(headerCheck, sha256, b);
    var v := DecodeBytes(registry, headerCheck, sha256, b).value;
    var p := DecodePrefix(b);
    var (start, at) := (64 + p.headerBytes, |b| - 64);
    var rest := b[start..at];
    AllSound(registry, p.recordCount, 0, 0, 0, start, rest);
    var region := EncodeAllAt(v.records, start);
    assert rest[..|region|] == rest;
    assert b[..at] == b[..64] + b[64..start] + rest;
    assert b == b[..at] + b[at..];
  }

  lemma DecodedComplete(registry: Registry, headerCheck: bytes -> Status, sha256: bytes -> Digest, v: Reference)
    requires SortedById(registry) && IsDecoded(registry, headerCheck, v)
    ensures DecodeBytes(registry, headerCheck, sha256, FileOf(sha256, v)) == Success(v)
  {
    hide EnvelopeCheck, DecodeAll, DecodePrefix, EncodePrefix, EncodeTrailer, RecordsRule, EncodeAllAt;
    var start := 64 + |v.header|;
    var region := EncodeAllAt(v.records, start);
    var p := Prefix(|v.header|, v.flags, |v.records|, |region|, v.maxStep, v.maxTick);
    EnvelopeComplete(headerCheck, sha256, p, v.header, region);
    AllComplete(registry, v.records, 0, 0, 0, start);
  }

  /** The decoder takes a file exactly when it is the file of a tape that meets the decoder's rules, and returns that
      tape. In particular every other file, one with a wrong hash, count, length or padding included, is refused. */
  lemma DecodedExactly(registry: Registry, headerCheck: bytes -> Status, sha256: bytes -> Digest, b: bytes, v: Reference)
    requires SortedById(registry)
    ensures DecodeBytes(registry, headerCheck, sha256, b) == Success(v) <==>
      IsDecoded(registry, headerCheck, v) && b == FileOf(sha256, v)
  {
    hide DecodeBytes, IsDecoded, FileOf;
    if DecodeBytes(registry, headerCheck, sha256, b) == Success(v) {
      DecodedSound(registry, headerCheck, sha256, b);
    }
    if IsDecoded(registry, headerCheck, v) && (IsDecodedSizes(registry, headerCheck, v); b == FileOf(sha256, v)) {
      DecodedComplete(registry, headerCheck, sha256, v);
    }
  }

  lemma IsDecodedSizes(registry: Registry, headerCheck: bytes -> Status, v: Reference)
    requires IsDecoded(registry, headerCheck, v)
    ensures 64 + |v.header| + |EncodeAllAt(v.records, 64 + |v.header|)| <= 0xFFFF_FFFF_FFFF_FFFF
    ensures 0 < |v.header| < 0x1_0000_0000 && 0 < |v.records| <= 50_000_000
  {
  }

  // ---- Which decoded tapes the C reader takes ----

  /** The decoded records, without their offsets and fields. */
  function Plain(ds: seq<Decoded>): (rs: seq<Record>)
    ensures |rs| == |ds| && forall k :: 0 <= k < |ds| ==> rs[k] == ds[k].record
  {
    seq(|ds|, k requires 0 <= k < |ds| => ds[k].record)
  }

  function AsTape(v: Reference): Tape {
    Tape(v.flags, v.header, Plain(v.records))
  }

  /** From an aligned offset both paddings are the same. */
  lemma {:induction false} AlignedRegion(ds: seq<Decoded>, offset: nat)
    requires offset % 8 == 0
    ensures EncodeAllAt(ds, offset) == EncodeRecords(Plain(ds))
    decreases |ds|
  {
    hide EncodeHeader, EncodeRecord, EncodeAt;
    if ds != [] {
      AlignedRecord(ds[0].record, offset);
      assert Plain(ds)[1..] == Plain(ds[1..]);
      EightsAdd(offset, |EncodeRecord(ds[0].record)|);
      AlignedRegion(ds[1..], offset + |EncodeAt(ds[0].record, offset)|);
    } else {
      assert Plain(ds) == [];
    }
  }

  lemma AlignedRecord(r: Record, offset: nat)
    requires offset % 8 == 0
    ensures EncodeAt(r, offset) == EncodeRecord(r)
  {
    hide EncodeHeader;
    PadShift(offset, 40 + |r.payload|);
  }

  /** After at least one record the decoder's offset is a multiple of eight. */
  lemma {:induction false} RegionEnds(ds: seq<Decoded>, offset: nat)
    requires ds != []
    ensures (offset + |EncodeAllAt(ds, offset)|) % 8 == 0
    decreases |ds|
  {
    var b := EncodeAt(ds[0].record, offset);
    if |ds| > 1 {
      RegionEnds(ds[1..], offset + |b|);
    } else {
      assert EncodeAllAt(ds[1..], offset + |b|) == [];
    }
  }

  lemma Whole(start: nat, n: nat)
    requires n % 8 == 0 && (64 + start + n) % 8 == 0
    ensures start % 8 == 0
  {
  }

  /** Of the files the decoder takes, the C reader takes exactly those whose header length is a multiple of eight and
      whose records obey the rules of the format and its limits; it reads the same tape. */
  lemma TakenByReader(ctx: Context, headerCheck: bytes -> Status, b: bytes, v: Reference)
    requires ctx.Valid() && DecodeBytes(ctx.registry, headerCheck, ctx.sha256, b) == Success(v)
    ensures Validate(ctx, b).Success? <==> |v.header| % 8 == 0 && TapeRules.Obeys(ctx, AsTape(v))
    ensures Validate(ctx, b).Success? ==> Validate(ctx, b).value == AsTape(v)
  {
    hide DecodeBytes, IsDecoded, Validate, TapeRules.Obeys, ValidTape, EncodeAllAt, EncodeRecords;
    DecodedExactly(ctx.registry, headerCheck, ctx.sha256, b, v);
    IsDecodedSizes(ctx.registry, headerCheck, v);
    LastRecord(ctx.registry, headerCheck, v);
    var start := 64 + |v.header|;
    RegionEnds(v.records, start);
    if Validate(ctx, b).Success? {
      var t := Validate(ctx, b).value;
      TapeBijection.ReaderSound(ctx, b);
      SameFile(ctx, t, v, b);
      TapeRules.RulesExact(ctx, t);
    }
    if |v.header| % 8 == 0 && TapeRules.Obeys(ctx, AsTape(v)) {
      EightsAdd(64, |v.header|);
      AlignedRegion(v.records, start);
      TapeRules.RulesExact(ctx, AsTape(v));
      TapeBijection.ReaderComplete(ctx, AsTape(v));
      Serialized(ctx, v, b);
    }
  }

  lemma LastRecord(registry: Registry, headerCheck: bytes -> Status, v: Reference)
    requires IsDecoded(registry, headerCheck, v)
    ensures v.records != [] && v.maxStep == v.records[|v.records| - 1].record.step
    ensures v.maxTick == v.records[|v.records| - 1].record.tick
  {
  }

  lemma Serialized(ctx: Context, v: Reference, b: bytes)
    requires v.records != [] && 64 + |v.header| + |EncodeAllAt(v.records, 64 + |v.header|)| <= 0xFFFF_FFFF_FFFF_FFFF
    requires |v.header| < 0x1_0000_0000 && |v.records| <= 0xFFFF_FFFF_FFFF_FFFF && b == FileOf(ctx.sha256, v)
    requires EncodeAllAt(v.records, 64 + |v.header|) == EncodeRecords(Plain(v.records))
    requires v.maxStep == v.records[|v.records| - 1].record.step && v.maxTick == v.records[|v.records| - 1].record.tick
    requires SerializedSize(AsTape(v)) <= MAX_TAPE_BYTES
    ensures b == Serialize(ctx, AsTape(v))
  {
    hide EncodeAllAt, EncodeRecords, EncodePrefix, EncodeTrailer;
  }

  /** A file of both kinds is aligned, and both readings are the same tape. */
  lemma SameFile(ctx: Context, t: Tape, v: Reference, b: bytes)
    requires ValidTape(ctx, t) && SerializedSize(t) <= MAX_TAPE_BYTES && b == Serialize(ctx, t)
    requires v.records != [] && 64 + |v.header| + |EncodeAllAt(v.records, 64 + |v.header|)| <= 0xFFFF_FFFF_FFFF_FFFF
    requires 0 < |v.header| < 0x1_0000_0000 && |v.records| <= 50_000_000 && b == FileOf(ctx.sha256, v)
    requires (64 + |v.header| + |EncodeAllAt(v.records, 64 + |v.header|)|) % 8 == 0
    ensures |v.header| % 8 == 0 && t == AsTape(v)
  {
    hide EncodeAllAt, EncodeRecords, Serialize, Run, EncodePrefix, EncodeTrailer;
    var start := 64 + |v.header|;
    TapeWriter.SerializedParts(ctx, t);
    FileParts(ctx.sha256, v, b);
    assert |v.header| == |t.header| && v.header == t.header && v.flags == t.flags;
    var region := EncodeRecords(t.records);
    assert region == EncodeAllAt(v.records, start);
    Whole(|v.header|, |region|);
    EightsAdd(64, |v.header|);
    AlignedRegion(v.records, start);
    assert region[0..|region|] == region;
    hide RecordCursor.Walk;
    RecordCursor.WalkRegion(region, 0, |region|, t.records);
    RecordCursor.WalkRegion(region, 0, |region|, Plain(v.records));
  }

  lemma FileParts(sha256: bytes -> Digest, v: Reference, b: bytes)
    requires 64 + |v.header| + |EncodeAllAt(v.records, 64 + |v.header|)| <= 0xFFFF_FFFF_FFFF_FFFF
    requires |v.header| < 0x1_0000_0000 && |v.records| <= 50_000_000 && b == FileOf(sha256, v)
    ensures |b| >= 128 && var p := DecodePrefix(b);
      var region := EncodeAllAt(v.records, 64 + |v.header|);
      && p == Prefix(|v.header|, v.flags, |v.records|, |region|, v.maxStep, v.maxTick)
      && |b| == 128 + |v.header| + |region|
      && b[64..64 + |v.header|] == v.header && b[64 + |v.header|..|b| - 64] == region
  {
    hide EncodeAllAt, EncodePrefix, EncodeTrailer, DecodePrefix, U16At, U64At;
    var region := EncodeAllAt(v.records, 64 + |v.header|);
    var p := Prefix(|v.header|, v.flags, |v.records|, |region|, v.maxStep, v.maxTick);
    assert b[..64] == EncodePrefix(p);
    TapeBijection.PrefixComplete(p, b);
  }
}
