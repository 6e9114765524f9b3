/** Why the independent decoder refuses an input: the first fault in its bytes, after the records and fields before
    it, and the error it raises. An input raises an error exactly when it has a fault with that error. */
module PythonFaults {
  import opened Wrappers
  import opened Bytes
  import opened CheckedArithmetic
  import opened TapeFormat
  import opened FieldRegistry
  import opened LifeCycle
  import opened TapeReader
  import opened Projection
  import opened PythonDecoder
  import opened ProjectionRules
  import opened PythonExact
  import ProjectionFaults
  import TapeFaults
  import Utf8

  // ---- Prefix, header and trailer ----

  /** The first fault before the record region. */
  function EnvelopeFault(headerCheck: bytes -> Status, sha256: bytes -> Digest, b: bytes): Option<Status> {
    if |b| < 64 then Some(Truncated)
    else if b[..8] != [0x4F, 0x54, 0x52, 0x4C, 0x54, 0x41, 0x50, 0] then Some(Magic)
    else if U16At(b, 8) != 1 || U16At(b, 10) != 0 then Some(Version)
    else if b[12] != 1 then Some(Endian)
    else if b[13] != 1 then Some(HashAlgorithm)
    else if U16At(b, 14) != 64 || U64At(b, 56) != 0 then Some(Reserved)
    else if U32At(b, 20) % 2 == 1 || U32At(b, 20) > 0xFFFF then Some(Structure)
    else if U32At(b, 16) == 0 || U32At(b, 16) > 1_048_576 then Some(Limit)
    else if U64At(b, 24) == 0 || U64At(b, 24) > 50_000_000 then Some(Limit)
    else
      var header: nat, records: nat := U32At(b, 16), U64At(b, 32);
      var at := 64 + header + records;
      if |b| < at + 64 then Some(Truncated)
      else if |b| > at + 64 then Some(Structure)
      else if headerCheck(b[64..64 + header]) != OK then Some(headerCheck(b[64..64 + header]))
      else if b[at..at + 8] != [0x4F, 0x54, 0x52, 0x4C, 0x45, 0x4E, 0x44, 0] then Some(Magic)
      else if U64At(b, at + 8) != U64At(b, 24) || U64At(b, at + 16) != at then Some(Structure)
      else if U64At(b, at + 56) != 0 then Some(Reserved)
      else if b[at + 24..at + 56] != sha256(b[..at]) then Some(Checksum)
      else None
  }

  // ---- Projections ----

  /** Flags, width, counts and size of a value are those of its row. */
  predicate Shaped(meta: FieldMeta, f: Field) {
    && 1 <= f.valueType <= 12
    && (f.valueType != 10 ==> f.flags == 0)
    && (meta.widthBits != 0 ==> meta.widthBits == 8 * ElementWidth(f))
    && CountRule(meta, f.elements)
    && (ElementWidth(f) != 0 ==> |f.value| == f.elements * ElementWidth(f))
    && (f.valueType == 9 || f.valueType == 12 ==> |f.value| == f.elements)
    && (f.valueType == 11 ==> |f.value| == (f.elements + 7) / 8)
  }

  ghost function ValueFault(meta: FieldMeta, f: Field): Option<Error> {
    if !Shaped(meta, f) then Some(TapeError(Schema))
    else if f.valueType == 11 && !NoStray(f.value, f.elements) then Some(TapeError(Canonical))
    else if f.valueType == 12 && !Utf8.WellFormed(f.value) then Some(UnicodeError)
    else None
  }

  /** The first fault in the field at the front of `b`, which should be the one of this row. */
  ghost function FieldFault(meta: FieldMeta, b: bytes): Option<Error> {
    if |b| < 16 then Some(TapeError(Truncated))
    else if U32At(b, 0) != meta.id || U16At(b, 4) != meta.valueType then Some(TapeError(Schema))
    else
      var n: nat := U32At(b, 12);
      if |b| < ProjectionFaults.Framed(n) then Some(TapeError(Truncated))
      else if exists i :: 16 + n <= i < ProjectionFaults.Framed(n) && b[i] != 0 then Some(TapeError(Canonical))
      else ValueFault(meta, ProjectionFaults.FieldAt(b))
  }

  ghost predicate StopsAfter(metas: seq<FieldMeta>, b: bytes, fs: seq<Field>, rest: bytes, e: Error) {
    && b == EncodeFields(fs) + rest && |fs| <= |metas| && (forall k :: 0 <= k < |fs| ==> Row(metas[k], fs[k]))
    && if |fs| < |metas| then FieldFault(metas[|fs|], rest) == Some(e) else rest != [] && e == TapeError(Structure)
  }

  /** Good fields, one for each row, then a faulty one; or all of them and something left over. */
  ghost predicate FieldsFault(metas: seq<FieldMeta>, b: bytes, e: Error) {
    exists fs, rest :: StopsAfter(metas, b, fs, rest, e)
  }

  predicate Named(fs: seq<Field>, id: nat) {
    exists j :: 0 <= j < |fs| && fs[j].id == id
  }

  /** A relation of one field to one the registry does not require, or to one that holds another number. */
  ghost function RelationFault(fs: seq<Field>, meta: FieldMeta, f: Field): Option<Error> {
    if meta.countSource != 0 && !Named(fs, meta.countSource) then Some(NoSuchField)
    else if meta.countSource != 0 && !Holds(fs, meta.countSource, f.elements) then Some(TapeError(Schema))
    else if meta.offsetTarget != 0 && !Named(fs, meta.offsetTarget) then Some(NoSuchField)
    else if meta.offsetTarget != 0 && !(exists n: nat :: Holds(fs, meta.offsetTarget, n) && Tiles(Chunks(f.value), n))
    then Some(TapeError(Schema))
    else None
  }

  /** The relations of the first `k` fields hold, and that of field `k` does not. */
  ghost predicate RelationStops(metas: seq<FieldMeta>, fs: seq<Field>, k: int, e: Error)
    requires |fs| == |metas|
  {
    0 <= k < |fs| && RelationFault(fs, metas[k], fs[k]) == Some(e) && forall j :: 0 <= j < k ==> RelationFault(fs, metas[j], fs[j]).None?
  }

  ghost predicate RelationsFault(metas: seq<FieldMeta>, b: bytes, e: Error) {
    exists fs :: Rows(metas, fs) && b == EncodeFields(fs) && exists k :: RelationStops(metas, fs, k, e)
  }

  ghost predicate ProjectionFault(registry: Registry, p: bytes, e: Error) {
    var metas := Authoritative(registry);
    if |p| < 24 then e == TapeError(Truncated)
    else if U16At(p, 0) != 1 then e == TapeError(Version)
    else if p[3] != 0 then e == TapeError(Reserved)
    else if U32At(p, 4) != |metas| then e == TapeError(Schema)
    else FieldsFault(metas, p[24..], e) || RelationsFault(metas, p[24..], e)
  }

  lemma ValueExactly(meta: FieldMeta, f: Field)
    requires f.id == meta.id && f.valueType == meta.valueType
    ensures FieldError(meta, f) == ValueFault(meta, f)
  {
    hide NoStray, Pow2;
    if f.valueType == 11 && |f.value| == (f.elements + 7) / 8 {
      StrayBits(f.value, f.elements);
    }
  }

  lemma FieldExactly(meta: FieldMeta, previous: nat, b: bytes)
    requires previous < meta.id
    ensures var r := DecodeField(meta, previous, b); FieldFault(meta, b) == if r.Failure? then Some(r.error) else None
  {
    hide UInt, DecodeFieldHeader, FieldError, ValueFault, FieldSize, ProjectionFaults.Framed;
    if |b| >= 16 {
      ProjectionFaults.SameHeader(b);
      var n: nat := U32At(b, 12);
      ProjectionFaults.FramedExactly(n);
      if |b| >= ProjectionFaults.Framed(n) {
        assert FieldIn(b) == ProjectionFaults.FieldAt(b);
        if U32At(b, 0) == meta.id && U16At(b, 4) == meta.valueType {
          ValueExactly(meta, ProjectionFaults.FieldAt(b));
        }
        ZerosExactly(b, 16 + n, ProjectionFaults.Framed(n));
      }
    }
  }

  lemma {:induction false} DecodeStops(metas: seq<FieldMeta>, previous: nat, b: bytes)
    requires SortedById(metas) && (metas != [] ==> previous < metas[0].id)
    requires DecodeFields(metas, previous, b).Failure?
    ensures FieldsFault(metas, b, DecodeFields(metas, previous, b).error)
    decreases |metas|
  {
    hide EncodeField, DecodeField, FieldFault, Row;
    var e := DecodeFields(metas, previous, b).error;
    assert b == EncodeFields([]) + b;
    if metas == [] {
      assert StopsAfter(metas, b, [], b, e);
    } else {
      FieldExactly(metas[0], previous, b);
      if DecodeField(metas[0], previous, b).Failure? {
        assert StopsAfter(metas, b, [], b, e);
      } else {
        var f := DecodeField(metas[0], previous, b).value;
        var tail := b[FieldSize(|f.value|)..];
        PythonExact.FieldSound(metas[0], previous, b);
        RowIds(metas[0], f);
        DecodeStops(metas[1..], f.id, tail);
        var fs, rest :| StopsAfter(metas[1..], tail, fs, rest, e);
        OneMore(metas, f, b, tail, fs, rest, e);
      }
    }
  }

  lemma OneMore(metas: seq<FieldMeta>, f: Field, b: bytes, tail: bytes, fs: seq<Field>, rest: bytes, e: Error)
    requires metas != [] && Row(metas[0], f) && b == EncodeField(f) + tail && StopsAfter(metas[1..], tail, fs, rest, e)
    ensures StopsAfter(metas, b, [f] + fs, rest, e)
  {
    hide EncodeField, FieldFault, Row;
    var all := [f] + fs;
    assert all[1..] == fs;
    forall k | 0 <= k < |all| ensures Row(metas[k], all[k]) {
      if k > 0 {
        assert metas[k] == metas[1..][k - 1] && all[k] == fs[k - 1];
      }
    }
    assert b == EncodeFields(all) + rest;
  }

  lemma {:induction false} StopsDecode(metas: seq<FieldMeta>, previous: nat, b: bytes, fs: seq<Field>, rest: bytes, e: Error)
    requires SortedById(metas) && (metas != [] ==> previous < metas[0].id)
    requires StopsAfter(metas, b, fs, rest, e)
    ensures DecodeFields(metas, previous, b) == Failure(e)
    decreases |metas|
  {
    hide EncodeField, DecodeField, FieldFault, Row;
    if fs == [] {
      assert b == rest;
      if metas != [] {
        FieldExactly(metas[0], previous, b);
      }
    } else {
      var f := fs[0];
      var tail := EncodeFields(fs[1..]) + rest;
      assert b == EncodeField(f) + tail;
      RowIds(metas[0], f);
      PythonExact.FieldComplete(metas[0], previous, f, tail);
      assert b[FieldSize(|f.value|)..] == tail;
      assert forall k :: 0 <= k < |fs| - 1 ==> fs[1..][k] == fs[k + 1] && metas[1..][k] == metas[k + 1];
      StopsDecode(metas[1..], f.id, tail, fs[1..], rest, e);
    }
  }

  lemma {:induction false} ByIdNamed(fs: seq<Field>, id: u32)
    ensures ById(fs, id).Some? <==> Named(fs, id)
  {
    if fs != [] {
      ByIdNamed(fs[1..], id);
      assert forall j :: 1 <= j < |fs| ==> fs[j] == fs[1..][j - 1];
      if Named(fs[1..], id) {
        var j :| 0 <= j < |fs[1..]| && fs[1..][j].id == id;
        assert fs[j + 1].id == id;
      }
    }
  }

  lemma RelationExactly(fs: seq<Field>, meta: FieldMeta, f: Field)
    requires forall i, j :: 0 <= i < j < |fs| ==> fs[i].id != fs[j].id
    ensures RelationError(fs, meta, f) == RelationFault(fs, meta, f)
  {
    hide Holds, Named, ById, Tiles, Chunks, UInt;
    ByIdNamed(fs, meta.countSource);
    ByIdNamed(fs, meta.offsetTarget);
    ByIdHolds(fs, meta.countSource, f.elements);
    forall n: nat
      ensures ById(fs, meta.offsetTarget).Some? && UInt(ById(fs, meta.offsetTarget).value.value) == n
         <==> Holds(fs, meta.offsetTarget, n)
    {
      ByIdHolds(fs, meta.offsetTarget, n);
    }
    if ById(fs, meta.offsetTarget).Some? {
      var n: nat := UInt(ById(fs, meta.offsetTarget).value.value);
      assert Holds(fs, meta.offsetTarget, n);
    }
  }

  lemma {:induction false} FirstErrorAt(all: seq<Field>, metas: seq<FieldMeta>, fs: seq<Field>, e: Error)
    requires |metas| == |fs|
    ensures FirstError(all, metas, fs) == Some(e) <==>
      exists k :: 0 <= k < |fs| && RelationError(all, metas[k], fs[k]) == Some(e)
                  && forall j :: 0 <= j < k ==> RelationError(all, metas[j], fs[j]).None?
    decreases |fs|
  {
    hide RelationError;
    if fs != [] {
      assert forall k :: 1 <= k < |fs| ==> fs[k] == fs[1..][k - 1] && metas[k] == metas[1..][k - 1];
      FirstErrorAt(all, metas[1..], fs[1..], e);
      if RelationError(all, metas[0], fs[0]).None? && FirstError(all, metas[1..], fs[1..]) == Some(e) {
        var k :| 0 <= k < |fs[1..]| && RelationError(all, metas[1..][k], fs[1..][k]) == Some(e)
                 && forall j :: 0 <= j < k ==> RelationError(all, metas[1..][j], fs[1..][j]).None?;
        assert RelationError(all, metas[k + 1], fs[k + 1]) == Some(e);
        forall j | 0 <= j < k + 1 ensures RelationError(all, metas[j], fs[j]).None? {
          if j > 0 {
            assert RelationError(all, metas[1..][j - 1], fs[1..][j - 1]).None?;
          }
        }
      }
    }
  }

  lemma RelationsExactly(metas: seq<FieldMeta>, fs: seq<Field>, e: Error)
    requires SortedById(metas) && Rows(metas, fs)
    ensures |fs| == |metas|
    ensures FirstError(fs, metas, fs) == Some(e) <==> exists k :: RelationStops(metas, fs, k, e)
  {
    hide Row, RelationError, RelationFault, FirstError;
    RowsDistinct(metas, fs);
    forall k | 0 <= k < |fs| ensures RelationError(fs, metas[k], fs[k]) == RelationFault(fs, metas[k], fs[k]) {
      RelationExactly(fs, metas[k], fs[k]);
    }
    FirstErrorAt(fs, metas, fs, e);
    if k :| RelationStops(metas, fs, k, e) {
      assert RelationError(fs, metas[k], fs[k]) == Some(e);
    }
    if FirstError(fs, metas, fs) == Some(e) {
      var k :| 0 <= k < |fs| && RelationError(fs, metas[k], fs[k]) == Some(e)
               && forall j :: 0 <= j < k ==> RelationError(fs, metas[j], fs[j]).None?;
      assert RelationStops(metas, fs, k, e);
    }
  }

  lemma FieldsExactly(metas: seq<FieldMeta>, b: bytes, e: Error)
    requires SortedById(metas)
    ensures DecodeFields(metas, 0, b) == Failure(e) <==> FieldsFault(metas, b, e)
  {
    hide DecodeFields, StopsAfter;
    if DecodeFields(metas, 0, b) == Failure(e) {
      DecodeStops(metas, 0, b);
    }
    if fs, rest :| StopsAfter(metas, b, fs, rest, e) {
      StopsDecode(metas, 0, b, fs, rest, e);
    }
  }

  /** The relations of decoded fields fail exactly with a relations fault. */
  lemma AfterFields(metas: seq<FieldMeta>, b: bytes, e: Error)
    requires SortedById(metas)
    ensures var r := DecodeFields(metas, 0, b);
      RelationsFault(metas, b, e) <==> r.Success? && (DecodedCount(metas, 0, b); FirstError(r.value, metas, r.value) == Some(e))
  {
    hide DecodeFields, Rows, FirstError, RelationStops, EncodeFields;
    var r := DecodeFields(metas, 0, b);
    if r.Success? {
      FieldsSound(metas, 0, b);
      RelationsExactly(metas, r.value, e);
    }
    if RelationsFault(metas, b, e) {
      var fs :| Rows(metas, fs) && b == EncodeFields(fs) && (RowsLength(metas, fs); exists k :: RelationStops(metas, fs, k, e));
      FieldsComplete(metas, 0, fs);
      RelationsExactly(metas, fs, e);
    }
  }

  lemma ProjectionRefused(registry: Registry, p: bytes, e: Error)
    requires SortedById(registry)
    ensures DecodeProjection(registry, p) == Failure(e) <==> ProjectionFault(registry, p, e)
  {
    hide DecodeFields, FieldsFault, RelationsFault, FirstError, Authoritative, UInt;
    AuthoritativeSorted(registry);
    if |p| >= 24 {
      FieldsExactly(Authoritative(registry), p[24..], e);
      AfterFields(Authoritative(registry), p[24..], e);
    }
  }

  // ---- Records ----

  /** The size of a record with a payload of `n` bytes that starts at file offset `offset`. */
  function Framed(offset: nat, n: nat): int {
    (offset + 40 + n + 7) / 8 * 8 - offset
  }

  /** The first fault in the header of record `k`, after a record at this boundary. */
  function HeaderFault(k: nat, step: nat, tick: nat, b: bytes): Option<Status>
    requires |b| >= 40
  {
    if U32At(b, 36) != 0 || U32At(b, 4) > 1 then Some(Reserved)
    else if U64At(b, 8) != k then Some(Sequence)
    else if U16At(b, 2) != 1 then Some(Version)
    else if k > 0 && (U64At(b, 16) < step || U64At(b, 24) < tick) then Some(Sequence)
    else None
  }

  /** The first fault in record `k` at the front of `b`, which starts at file offset `offset`. */
  ghost predicate RecordFault(registry: Registry, k: nat, step: nat, tick: nat, offset: nat, b: bytes, e: Error) {
    if |b| < 40 then e == TapeError(Truncated)
    else if HeaderFault(k, step, tick, b).Some? then e == TapeError(HeaderFault(k, step, tick, b).value)
    else
      var n: nat := U32At(b, 32);
      if |b| < Framed(offset, n) then e == TapeError(Truncated)
      else if exists i :: 40 + n <= i < Framed(offset, n) && b[i] != 0 then e == TapeError(Canonical)
      else U16At(b, 0) == 5 && ProjectionFault(registry, b[40..40 + n], e)
  }

  lemma FramedExactly(offset: nat, n: nat)
    ensures PaddedSize(offset, n) == Framed(offset, n) == 40 + n + Pad8(offset + 40 + n)
  {
  }

  lemma RecordExactly(registry: Registry, k: nat, step: nat, tick: nat, offset: nat, b: bytes, e: Error)
    requires SortedById(registry)
    ensures DecodeStep(registry, k, step, tick, offset, b) == Failure(e) <==> RecordFault(registry, k, step, tick, offset, b, e)
  {
    hide UInt, DecodeHeader, DecodeProjection, ProjectionFault, PaddedSize, Framed;
    if |b| >= 40 {
      TapeFaults.SameHeader(b);
      var n: nat := U32At(b, 32);
      FramedExactly(offset, n);
      if |b| >= Framed(offset, n) {
        ZerosExactly(b, 40 + n, Framed(offset, n));
        ProjectionRefused(registry, b[40..40 + n], e);
      }
    }
  }

  /** The boundary after the records `ds`. */
  function StepAfter(ds: seq<Decoded>, step: nat): nat {
    if ds == [] then step else ds[|ds| - 1].record.step
  }

  function TickAfter(ds: seq<Decoded>, tick: nat): nat {
    if ds == [] then tick else ds[|ds| - 1].record.tick
  }

  /** Good records from position `k` on, then a faulty one. */
  ghost predicate RecordStops(registry: Registry, count: nat, k: nat, step: nat, tick: nat, offset: nat, b: bytes,
                              ds: seq<Decoded>, rest: bytes, e: Error)
  {
    var region := EncodeAllAt(ds, offset);
    && b == region + rest && k + |ds| < count && RecordsRule(registry, ds, k, step, tick, offset)
    && RecordFault(registry, k + |ds|, StepAfter(ds, step), TickAfter(ds, tick), offset + |region|, rest, e)
  }

  lemma {:induction false} AllStops(registry: Registry, count: nat, k: nat, step: nat, tick: nat, offset: nat, b: bytes)
    returns (ds: seq<Decoded>, rest: bytes)
    requires SortedById(registry) && k <= count && DecodeAll(registry, count, k, step, tick, offset, b).Failure?
    ensures RecordStops(registry, count, k, step, tick, offset, b, ds, rest,
                        DecodeAll(registry, count, k, step, tick, offset, b).error)
    decreases count - k
  {
    hide DecodeStep, RecordRule, EncodeAt, PaddedSize, RecordFault;
    var e := DecodeAll(registry, count, k, step, tick, offset, b).error;
    if DecodeStep(registry, k, step, tick, offset, b).Failure? {
      ds, rest := [], b;
      RecordExactly(registry, k, step, tick, offset, b, e);
      assert b == EncodeAllAt([], offset) + b;
    } else {
      var d := DecodeStep(registry, k, step, tick, offset, b).value;
      PythonExact.StepSound(registry, k, step, tick, offset, b);
      var size := PaddedSize(offset, |d.record.payload|);
      var ds', rest' := AllStops(registry, count, k + 1, d.record.step, d.record.tick, offset + size, b[size..]);
      OneMoreRecord(registry, count, k, step, tick, offset, b, d, ds', rest', e);
      ds, rest := [d] + ds', rest';
    }
  }

  lemma OneMoreRecord(registry: Registry, count: nat, k: nat, step: nat, tick: nat, offset: nat, b: bytes, d: Decoded,
                      ds: seq<Decoded>, rest: bytes, e: Error)
    requires RecordRule(registry, d, k, step, tick, offset)
    requires EncodeAt(d.record, offset) <= b
    requires var n := |EncodeAt(d.record, offset)|;
      RecordStops(registry, count, k + 1, d.record.step, d.record.tick, offset + n, b[n..], ds, rest, e)
    ensures RecordStops(registry, count, k, step, tick, offset, b, [d] + ds, rest, e)
  {
    hide RecordRule, EncodeAt, RecordFault;
    var n := |EncodeAt(d.record, offset)|;
    assert ([d] + ds)[1..] == ds;
    assert b == b[..n] + b[n..];
    assert EncodeAllAt([d] + ds, offset) == EncodeAt(d.record, offset) + EncodeAllAt(ds, offset + n);
  }

  lemma {:induction false} StopsAll(registry: Registry, count: nat, k: nat, step: nat, tick: nat, offset: nat, b: bytes,
                                    ds: seq<Decoded>, rest: bytes, e: Error)
    requires SortedById(registry) && RecordStops(registry, count, k, step, tick, offset, b, ds, rest, e)
    ensures DecodeAll(registry, count, k, step, tick, offset, b) == Failure(e)
    decreases |ds|
  {
    hide DecodeStep, RecordRule, EncodeAt, PaddedSize, RecordFault;
    if ds == [] {
      assert b == rest;
      RecordExactly(registry, k, step, tick, offset, b, e);
    } else {
      var (d, n) := (ds[0], |EncodeAt(ds[0].record, offset)|);
      var tail := EncodeAllAt(ds[1..], offset + n) + rest;
      assert b == EncodeAt(d.record, offset) + tail;
      PythonExact.StepComplete(registry, d, k, step, tick, offset, tail);
      assert b[n..] == tail;
      StopsAll(registry, count, k + 1, d.record.step, d.record.tick, offset + n, tail, ds[1..], rest, e);
    }
  }

  // ---- Whole inputs ----

  ghost predicate RecordsFault(registry: Registry, count: nat, start: nat, region: bytes, e: Error) {
    exists ds, rest :: RecordStops(registry, count, 0, 0, 0, start, region, ds, rest, e)
  }

  /** As many good records as announced, but something is left over, they do not start, end or project as they should, or the
      announced maxima are not the last boundary. */
  ghost predicate EndStops(registry: Registry, count: nat, start: nat, region: bytes, step: nat, tick: nat, ds: seq<Decoded>,
                           rest: bytes)
  {
    && region == EncodeAllAt(ds, start) + rest && |ds| == count > 0 && RecordsRule(registry, ds, 0, 0, 0, start)
    && (rest != [] || ds[0].record.kind != 1 || ds[count - 1].record.kind != 11
        || (forall k :: 0 <= k < count ==> ds[k].record.kind != 5)
        || ds[count - 1].record.step != step || ds[count - 1].record.tick != tick)
  }

  ghost predicate EndFault(registry: Registry, count: nat, start: nat, region: bytes, step: nat, tick: nat) {
    exists ds, rest :: EndStops(registry, count, start, region, step, tick, ds, rest)
  }

  ghost predicate Refused(registry: Registry, headerCheck: bytes -> Status, sha256: bytes -> Digest, b: bytes, e: Error) {
    var envelope := EnvelopeFault(headerCheck, sha256, b);
    if envelope.Some? then e == TapeError(envelope.value)
    else
      var (start, count) := (64 + U32At(b, 16) as nat, U64At(b, 24));
      var region := b[start..|b| - 64];
      || RecordsFault(registry, count, start, region, e)
      || (EndFault(registry, count, start, region, U64At(b, 40), U64At(b, 48)) && e == TapeError(Structure))
  }

  lemma RecordsExactly(registry: Registry, count: nat, start: nat, region: bytes, e: Error)
    requires SortedById(registry)
    ensures DecodeAll(registry, count, 0, 0, 0, start, region) == Failure(e) <==> RecordsFault(registry, count, start, region, e)
  {
    hide DecodeAll, RecordStops;
    if DecodeAll(registry, count, 0, 0, 0, start, region) == Failure(e) {
      var ds, rest := AllStops(registry, count, 0, 0, 0, start, region);
    }
    if ds, rest :| RecordStops(registry, count, 0, 0, 0, start, region, ds, rest, e) {
      StopsAll(registry, count, 0, 0, 0, start, region, ds, rest, e);
    }
  }

  lemma DecodeOne(registry: Registry, count: nat, k: nat, step: nat, tick: nat, offset: nat, b: bytes)
    requires k < count && DecodeStep(registry, k, step, tick, offset, b).Success?
    ensures var d := DecodeStep(registry, k, step, tick, offset, b).value;
      var size := PaddedSize(offset, |d.record.payload|);
      var r := DecodeAll(registry, count, k + 1, d.record.step, d.record.tick, offset + size, b[size..]);
      r.Success? ==> DecodeAll(registry, count, k, step, tick, offset, b) == Success(r.value.(records := [d] + r.value.records))
  {
    hide DecodeStep, PaddedSize;
  }

  lemma RegionFront(ds: seq<Decoded>, offset: nat, rest: bytes)
    requires ds != []
    ensures var b := EncodeAt(ds[0].record, offset);
      var tail := EncodeAllAt(ds[1..], offset + |b|) + rest;
      && EncodeAllAt(ds, offset) + rest == b + tail && (b + tail)[|b|..] == tail
      && |EncodeAllAt(ds, offset)| == |b| + |EncodeAllAt(ds[1..], offset + |b|)|
    ensures forall step :: StepAfter(ds, step) == StepAfter(ds[1..], ds[0].record.step)
    ensures forall tick :: TickAfter(ds, tick) == TickAfter(ds[1..], ds[0].record.tick)
  {
    hide EncodeAt;
  }

  /** Decoding the announced records with something after them. */
  lemma {:induction false} AllWithRest(registry: Registry, ds: seq<Decoded>, k: nat, step: nat, tick: nat, offset: nat, rest: bytes)
    requires SortedById(registry) && RecordsRule(registry, ds, k, step, tick, offset)
    ensures DecodeAll(registry, k + |ds|, k, step, tick, offset, EncodeAllAt(ds, offset) + rest)
         == Success(Progress(ds, StepAfter(ds, step), TickAfter(ds, tick), offset + |EncodeAllAt(ds, offset)|))
    decreases |ds|
  {
    hide DecodeStep, RecordRule, EncodeAt, PaddedSize, EncodeAllAt, DecodeAll, StepAfter, TickAfter;
    if ds != [] {
      var (d, n, count) := (ds[0], |EncodeAt(ds[0].record, offset)|, k + |ds|);
      var tail := EncodeAllAt(ds[1..], offset + n) + rest;
      RegionFront(ds, offset, rest);
      PythonExact.StepComplete(registry, d, k, step, tick, offset, tail);
      DecodeOne(registry, count, k, step, tick, offset, EncodeAllAt(ds, offset) + rest);
      AllWithRest(registry, ds[1..], k + 1, d.record.step, d.record.tick, offset + n, rest);
      assert [d] + ds[1..] == ds;
    } else {
      NoRecords(registry, k, step, tick, offset, rest);
    }
  }

  lemma NoRecords(registry: Registry, k: nat, step: nat, tick: nat, offset: nat, rest: bytes)
    ensures DecodeAll(registry, k, k, step, tick, offset, EncodeAllAt([], offset) + rest)
         == Success(Progress([], StepAfter([], step), TickAfter([], tick), offset + |EncodeAllAt([], offset)|))
  {
  }

  lemma EndExactly(registry: Registry, count: nat, start: nat, region: bytes, step: nat, tick: nat)
    requires SortedById(registry) && count > 0
    ensures var r := DecodeAll(registry, count, 0, 0, 0, start, region);
      EndFault(registry, count, start, region, step, tick) <==>
        r.Success? && (r.value.offset != start + |region| || !EndsWell(r.value.records) || r.value.step != step || r.value.tick != tick)
  {
    hide DecodeAll, RecordsRule, EncodeAllAt;
    var r := DecodeAll(registry, count, 0, 0, 0, start, region);
    if r.Success? {
      PythonExact.AllSound(registry, count, 0, 0, 0, start, region);
      var q := r.value;
      var n := |EncodeAllAt(q.records, start)|;
      assert region == region[..n] + region[n..];
      if q.offset != start + |region| || !EndsWell(q.records) || q.step != step || q.tick != tick {
        assert EndStops(registry, count, start, region, step, tick, q.records, region[n..]);
      }
    }
    if ds, rest :| EndStops(registry, count, start, region, step, tick, ds, rest) {
      AllWithRest(registry, ds, 0, 0, 0, start, rest);
    }
  }

  lemma EnvelopeExactly(headerCheck: bytes -> Status, sha256: bytes -> Digest, b: bytes)
    ensures EnvelopeCheck(headerCheck, sha256, b) == EnvelopeFault(headerCheck, sha256, b).GetOr(OK)
    ensures EnvelopeFault(headerCheck, sha256, b) != Some(OK)
  {
    hide UInt, U16At, U32At, U64At;
  }

  /** An input raises an error exactly when its first fault leads to it. */
  lemma RefusedExactly(registry: Registry, headerCheck: bytes -> Status, sha256: bytes -> Digest, b: bytes, e: Error)
    requires SortedById(registry)
    ensures DecodeBytes(registry, headerCheck, sha256, b) == Failure(e) <==> Refused(registry, headerCheck, sha256, b, e)
  {
    hide EnvelopeCheck, EnvelopeFault, DecodeAll, EndsWell, RecordsFault, EndFault, UInt;
    EnvelopeExactly(headerCheck, sha256, b);
    if EnvelopeCheck(headerCheck, sha256, b) == OK {
      Counted(headerCheck, sha256, b);
      var (start, count) := (64 + U32At(b, 16) as nat, U64At(b, 24));
      var region := b[start..|b| - 64];
      RecordsExactly(registry, count, start, region, e);
      EndExactly(registry, count, start, region, U64At(b, 40), U64At(b, 48));
    }
  }

  lemma Counted(headerCheck: bytes -> Status, sha256: bytes -> Digest, b: bytes)
    requires EnvelopeCheck(headerCheck, sha256, b) == OK
    ensures |b| >= 128 + U32At(b, 16) && U64At(b, 24) > 0
  {
    hide UInt;
  }
}
