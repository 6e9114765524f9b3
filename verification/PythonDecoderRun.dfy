/** The independent decoder as it runs: `_projection` and `decode_bytes`
    (parity/python_reference/tape_reference.py). */
module PythonDecoderRun {
  import opened Wrappers
  import opened Bytes
  import opened CheckedArithmetic
  import opened TapeFormat
  import opened FieldRegistry
  import opened LifeCycle
  import opened TapeReader
  import opened Projection
  import opened PythonDecoder
  import Utf8

  // ---- `_projection` ----

  method CheckField(meta: FieldMeta, f: Field) returns (error: Option<Error>)
    ensures error == FieldError(meta, f)
  {
    var width := Width(f.valueType, f.flags);
    if f.valueType != VALUE_STABLE_ID && f.flags != 0 {
      return Some(TapeError(Schema));
    }
    if meta.widthBits != 0 && width * 8 != meta.widthBits {
      return Some(TapeError(Schema));
    }
    if (meta.shape == SCALAR || meta.shape == FIXED_ARRAY) && f.elements != meta.fixedCount {
      return Some(TapeError(Schema));
    }
    if (meta.shape == DYNAMIC_ARRAY || meta.shape == BITSET) && f.elements > meta.maximumCapacity {
      return Some(TapeError(Schema));
    }
    if width != 0 && f.elements * width != |f.value| {
      return Some(TapeError(Schema));
    }
    if (f.valueType == VALUE_BYTES || f.valueType == VALUE_DIAGNOSTIC_UTF8) && f.elements != |f.value| {
      return Some(TapeError(Schema));
    }
    if f.valueType == VALUE_BITSET {
      if (f.elements + 7) / 8 != |f.value| {
        return Some(TapeError(Schema));
      }
      if f.elements % 8 != 0 && f.value[|f.value| - 1] >= Pow2(f.elements % 8) {
        return Some(TapeError(Canonical));
      }
    }
    if f.valueType == VALUE_DIAGNOSTIC_UTF8 {
      var ok := Utf8.Utf8Valid(f.value);
      if !ok {
        return Some(UnicodeError);
      }
    }
    return if 1 <= f.valueType <= 12 then None else Some(TapeError(Schema));
  }

  /** One field at `offset`, and where the next one starts. */
  method ReadField(meta: FieldMeta, previous: nat, payload: Payload, offset: nat)
      returns (r: Result<Field, Error>, next: nat)
    requires offset % 8 == 0 && offset <= |payload|
    ensures r == DecodeField(meta, previous, payload[offset..])
    ensures r.Success? ==> next == offset + FieldSize(|r.value.value|) <= |payload|
  {
    hide FieldError, UInt, Zeros;
    ghost var rest := payload[offset..];
    next := offset;
    if |payload| - offset < FIELD_HEADER_BYTES {
      return Failure(TapeError(Truncated)), next;
    }
    assert rest == payload[offset..|payload|];
    SubRange(payload, offset, |payload|, 0, 16);
    var h := DecodeFieldHeader(payload[offset..offset + 16]);
    if h.id <= previous || h.id != meta.id || h.valueType != meta.valueType {
      return Failure(TapeError(Schema)), next;
    }
    var start := offset + FIELD_HEADER_BYTES;
    var end := start + h.byteCount;
    var padded := end + Pad8(end);
    PadShift(start, h.byteCount);
    assert padded == offset + FieldSize(h.byteCount);
    if padded > |payload| {
      return Failure(TapeError(Truncated)), next;
    }
    SubRange(payload, offset, |payload|, 16, 16 + h.byteCount);
    SubRange(payload, offset, |payload|, 16 + h.byteCount, FieldSize(h.byteCount));
    var clean := AllZero(payload, end, padded);
    if !clean {
      return Failure(TapeError(Canonical)), next;
    }
    var f := Field(h.id, h.valueType, h.flags, h.elements, payload[start..end]);
    var error := CheckField(meta, f);
    if error.Some? {
      return Failure(error.value), next;
    }
    return Success(f), padded;
  }

  lemma PrependStep(metas: seq<FieldMeta>, previous: nat, rest: bytes, done: seq<Field>)
    ensures Prepend(done, DecodeFields(metas, previous, rest))
         == if metas == [] then (if rest == [] then Success(done) else Failure(TapeError(Structure)))
            else
              match DecodeField(metas[0], previous, rest)
              case Failure(e) => Failure(e)
              case Success(f) =>
                Prepend(done + [f], DecodeFields(metas[1..], f.id, rest[FieldSize(|f.value|)..]))
  {
    hide DecodeField;
    if metas == [] {
      assert done + [] == done;
    } else {
      match DecodeField(metas[0], previous, rest)
      case Failure(_) =>
      case Success(f) =>
        match DecodeFields(metas[1..], f.id, rest[FieldSize(|f.value|)..])
        case Failure(_) =>
        case Success(fs) => assert done + ([f] + fs) == done + [f] + fs;
    }
  }

  method ReadFields(metas: seq<FieldMeta>, payload: Payload) returns (r: Result<seq<Field>, Error>)
    requires |payload| >= 24
    ensures r == DecodeFields(metas, 0, payload[24..])
  {
    hide DecodeFields, DecodeField, Prepend, FieldSize;
    var offset: nat, previous: nat := PROJECTION_HEADER_BYTES, 0;
    var fields: seq<Field> := [];
    PrependNothing(DecodeFields(metas, 0, payload[24..]));
    assert metas[0..] == metas;
    for i := 0 to |metas|
      invariant offset % 8 == 0 && offset <= |payload|
      invariant DecodeFields(metas, 0, payload[24..]) == Prepend(fields, DecodeFields(metas[i..], previous, payload[offset..]))
    {
      PrependStep(metas[i..], previous, payload[offset..], fields);
      assert metas[i..][0] == metas[i] && metas[i..][1..] == metas[i + 1..];
      var f, next := ReadField(metas[i], previous, payload, offset);
      if f.Failure? {
        return Failure(f.error);
      }
      assert payload[offset..][FieldSize(|f.value.value|)..] == payload[next..];
      fields := fields + [f.value];
      offset, previous := next, f.value.id;
    }
    PrependStep([], previous, payload[offset..], fields);
    assert metas[|metas|..] == [];
    r := if offset != |payload| then Failure(TapeError(Structure)) else Success(fields);
  }

  /** The relations, field by field, up to the first that fails. */
  method CheckRelations(metas: seq<FieldMeta>, fs: seq<Field>) returns (error: Option<Error>)
    requires |metas| == |fs|
    ensures error == FirstError(fs, metas, fs)
  {
    hide RelationError;
    assert metas[0..] == metas && fs[0..] == fs;
    for i := 0 to |fs|
      invariant FirstError(fs, metas, fs) == FirstError(fs, metas[i..], fs[i..])
    {
      assert metas[i..][1..] == metas[i + 1..] && fs[i..][1..] == fs[i + 1..];
      error := CheckRelation(metas[i], fs, fs[i]);
      if error.Some? {
        return;
      }
    }
    return None;
  }

  /** The offsets of a vector are compared with their successors. */
  method CheckRelation(meta: FieldMeta, fs: seq<Field>, f: Field) returns (error: Option<Error>)
    ensures error == RelationError(fs, meta, f)
  {
    hide UInt, Chunks;
    if meta.countSource != 0 {
      var source := ById(fs, meta.countSource);
      if source.None? {
        return Some(NoSuchField);
      }
      if UInt(source.value.value) != f.elements {
        return Some(TapeError(Schema));
      }
    }
    if meta.offsetTarget != 0 {
      var target := ById(fs, meta.offsetTarget);
      if target.None? {
        return Some(NoSuchField);
      }
      var offsets := Chunks(f.value);
      if offsets == [] || offsets[0] != 0 {
        return Some(TapeError(Schema));
      }
      for k := 1 to |offsets|
        invariant forall m :: 0 < m < k ==> offsets[m - 1] <= offsets[m]
      {
        if offsets[k] < offsets[k - 1] {
          return Some(TapeError(Schema));
        }
      }
      if offsets[|offsets| - 1] != UInt(target.value.value) {
        return Some(TapeError(Schema));
      }
    }
    return None;
  }

  method ReadProjection(registry: Registry, payload: Payload) returns (r: Result<seq<Field>, Error>)
    ensures r == DecodeProjection(registry, payload)
  {
    hide DecodeFields, FirstError, UInt;
    if |payload| < PROJECTION_HEADER_BYTES {
      return Failure(TapeError(Truncated));
    }
    if U16At(payload, 0) != 1 {
      return Failure(TapeError(Version));
    }
    if payload[3] != 0 {
      return Failure(TapeError(Reserved));
    }
    var metas := Authoritative(registry);
    if U32At(payload, 4) != |metas| {
      return Failure(TapeError(Schema));
    }
    r := ReadFields(metas, payload);
    if r.Success? {
      DecodedCount(metas, 0, payload[24..]);
      var error := CheckRelations(metas, r.value);
      if error.Some? {
        r := Failure(error.value);
      }
    }
  }

  // ---- `decode_bytes` ----

  ghost function Resume(done: seq<Decoded>, r: Result<Progress, Error>): Result<Progress, Error> {
    match r
    case Failure(e) => Failure(e)
    case Success(p) => Success(p.(records := done + p.records))
  }

  lemma ResumeNone(r: Result<Progress, Error>)
    ensures Resume([], r) == r
  {
    match r
    case Failure(_) =>
    case Success(p) => assert [] + p.records == p.records;
  }

  lemma ResumeStep(registry: Registry, count: nat, sequence: nat, step: nat, tick: nat, offset: nat, rest: bytes,
                  done: seq<Decoded>)
    requires sequence <= count
    ensures Resume(done, DecodeAll(registry, count, sequence, step, tick, offset, rest))
         == if sequence == count then Success(Progress(done, step, tick, offset))
            else
              match DecodeStep(registry, sequence, step, tick, offset, rest)
              case Failure(e) => Failure(e)
              case Success(d) =>
                var size := PaddedSize(offset, |d.record.payload|);
                Resume(done + [d], DecodeAll(registry, count, sequence + 1, d.record.step, d.record.tick,
                                            offset + size, rest[size..]))
  {
    hide DecodeStep, PaddedSize;
    if sequence == count {
      assert done + [] == done;
    } else {
      match DecodeStep(registry, sequence, step, tick, offset, rest)
      case Failure(_) =>
      case Success(d) =>
        var size := PaddedSize(offset, |d.record.payload|);
        match DecodeAll(registry, count, sequence + 1, d.record.step, d.record.tick, offset + size, rest[size..])
        case Failure(_) =>
        case Success(p) => assert done + ([d] + p.records) == done + [d] + p.records;
    }
  }

  method ReadRecord(registry: Registry, sequence: nat, step: nat, tick: nat, data: bytes, offset: nat, trailer: nat)
      returns (r: Result<Decoded, Error>, next: nat)
    requires offset <= trailer <= |data|
    ensures r == DecodeStep(registry, sequence, step, tick, offset, data[offset..trailer])
    ensures r.Success? ==> next == offset + PaddedSize(offset, |r.value.record.payload|) <= trailer
  {
    hide UInt, Zeros, DecodeProjection, DecodeHeader;
    next := offset;
    if trailer - offset < RECORD_HEADER_BYTES {
      return Failure(TapeError(Truncated)), next;
    }
    SubRange(data, offset, trailer, 0, 40);
    var h := DecodeHeader(data[offset..offset + 40]);
    if h.reserved != 0 || h.flags / 2 != 0 {
      return Failure(TapeError(Reserved)), next;
    }
    if h.sequence != sequence {
      return Failure(TapeError(Sequence)), next;
    }
    if h.version != 1 {
      return Failure(TapeError(Version)), next;
    }
    if sequence > 0 && (h.step < step || h.tick < tick) {
      return Failure(TapeError(Sequence)), next;
    }
    var end := offset + RECORD_HEADER_BYTES + h.payloadBytes;
    var padded := end + Pad8(end);
    assert padded == offset + PaddedSize(offset, h.payloadBytes);
    if padded > trailer {
      return Failure(TapeError(Truncated)), next;
    }
    SubRange(data, offset, trailer, 40, 40 + h.payloadBytes);
    SubRange(data, offset, trailer, 40 + h.payloadBytes, PaddedSize(offset, h.payloadBytes));
    var clean := AllZero(data, end, padded);
    if !clean {
      return Failure(TapeError(Canonical)), next;
    }
    var payload := data[offset + 40..end];
    var record := Record(h.kind, h.version, h.flags, h.sequence, h.step, h.tick, payload);
    var fields: seq<Field> := [];
    if h.kind == AUTHORITATIVE_PROJECTION {
      var p := ReadProjection(registry, payload);
      if p.Failure? {
        return Failure(p.error), next;
      }
      fields := p.value;
    }
    return Success(Decoded(record, offset, fields)), padded;
  }

  /** The record loop, collecting records and carrying the previous boundary and the offset. */
  method ReadRecords(registry: Registry, count: nat, data: bytes, start: nat, trailer: nat)
      returns (r: Result<Progress, Error>)
    requires start <= trailer <= |data|
    ensures r == DecodeAll(registry, count, 0, 0, 0, start, data[start..trailer])
  {
    hide DecodeAll, DecodeStep, Resume, PaddedSize;
    var records: seq<Decoded> := [];
    var offset, step: nat, tick: nat := start, 0, 0;
    ResumeNone(DecodeAll(registry, count, 0, 0, 0, start, data[start..trailer]));
    for sequence := 0 to count
      invariant start <= offset <= trailer
      invariant DecodeAll(registry, count, 0, 0, 0, start, data[start..trailer])
             == Resume(records, DecodeAll(registry, count, sequence, step, tick, offset, data[offset..trailer]))
    {
      ResumeStep(registry, count, sequence, step, tick, offset, data[offset..trailer], records);
      var d, next := ReadRecord(registry, sequence, step, tick, data, offset, trailer);
      if d.Failure? {
        return Failure(d.error);
      }
      SubRange(data, offset, trailer, next - offset, trailer - offset);
      assert data[offset..trailer][next - offset..] == data[next..trailer];
      records := records + [d.value];
      step, tick, offset := d.value.record.step, d.value.record.tick, next;
    }
    ResumeStep(registry, count, count, step, tick, offset, data[offset..trailer], records);
    return Success(Progress(records, step, tick, offset));
  }

  method AnyProjection(ds: seq<Decoded>) returns (found: bool)
    ensures found <==> exists k :: 0 <= k < |ds| && ds[k].record.kind == AUTHORITATIVE_PROJECTION
  {
    for i := 0 to |ds|
      invariant forall k :: 0 <= k < i ==> ds[k].record.kind != AUTHORITATIVE_PROJECTION
    {
      if ds[i].record.kind == AUTHORITATIVE_PROJECTION {
        return true;
      }
    }
    return false;
  }

  method Decode(registry: Registry, headerCheck: bytes -> Status, sha256: bytes -> Digest, data: bytes)
      returns (r: Result<Reference, Error>)
    ensures r == DecodeBytes(registry, headerCheck, sha256, data)
  {
    hide EnvelopeCheck, DecodeAll;
    var status := EnvelopeCheck(headerCheck, sha256, data);
    if status != OK {
      return Failure(TapeError(status));
    }
    EnvelopeLengths(headerCheck, sha256, data);
    var p := DecodePrefix(data);
    var start := PREFIX_BYTES + p.headerBytes;
    var trailer := |data| - TRAILER_BYTES;
    var q := ReadRecords(registry, p.recordCount, data, start, trailer);
    if q.Failure? {
      return Failure(q.error);
    }
    var ds := q.value.records;
    var projected := AnyProjection(ds);
    if q.value.offset != trailer || ds == [] || ds[0].record.kind != REPLAY_START
      || ds[|ds| - 1].record.kind != TERMINAL || !projected
      || p.maxStep != q.value.step || p.maxTick != q.value.tick {
      return Failure(TapeError(Structure));
    }
    return Success(Reference(data[64..start], ds, p.flags, p.maxStep, p.maxTick));
  }

  lemma EnvelopeLengths(headerCheck: bytes -> Status, sha256: bytes -> Digest, b: bytes)
    requires EnvelopeCheck(headerCheck, sha256, b) == OK
    ensures |b| >= 64 && 64 + DecodePrefix(b).headerBytes <= |b| - 64
  {
    hide UInt;
  }
}
