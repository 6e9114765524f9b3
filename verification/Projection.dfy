/** Projection payloads: field layout and cross-field relations
    (otrl_parse_projection and projection_scalar_value in parity/src/tape_reader.c). */
module Projection {
  import opened Wrappers
  import opened Bytes
  import opened CheckedArithmetic
  import opened TapeFormat
  import opened FieldRegistry
  import Utf8

  datatype Field = Field(id: u32, valueType: u16, flags: u16, elements: u32, value: Payload)

  datatype FieldHeader = FieldHeader(id: u32, valueType: u16, flags: u16, elements: u32, byteCount: u32)

  function EncodeFieldHeader(h: FieldHeader): (b: bytes)
    ensures |b| == FIELD_HEADER_BYTES
  {
    LE(4, h.id) + LE(2, h.valueType) + LE(2, h.flags) + LE(4, h.elements) + LE(4, h.byteCount)
  }

  function DecodeFieldHeader(b: bytes): FieldHeader
    requires |b| == FIELD_HEADER_BYTES
  {
    FieldHeader(U32At(b, 0), U16At(b, 4), U16At(b, 6), U32At(b, 8), U32At(b, 12))
  }

  lemma FieldHeaderRoundTrip(h: FieldHeader)
    ensures DecodeFieldHeader(EncodeFieldHeader(h)) == h
  {
    Widths();
    hide LE, UInt, Pow256;
    var b := EncodeFieldHeader(h);
    assert b[0..4] == LE(4, h.id) && b[4..6] == LE(2, h.valueType) && b[6..8] == LE(2, h.flags);
    assert b[8..12] == LE(4, h.elements) && b[12..16] == LE(4, h.byteCount);
    LoadStore(4, h.id); LoadStore(2, h.valueType); LoadStore(2, h.flags);
    LoadStore(4, h.elements); LoadStore(4, h.byteCount);
  }

  lemma FieldHeaderBytesRoundTrip(b: bytes)
    requires |b| == FIELD_HEADER_BYTES
    ensures EncodeFieldHeader(DecodeFieldHeader(b)) == b
  {
    StoreLoad(b[0..4]); StoreLoad(b[4..6]); StoreLoad(b[6..8]); StoreLoad(b[8..12]); StoreLoad(b[12..16]);
    assert b == b[0..4] + b[4..6] + b[6..8] + b[8..12] + b[12..16];
  }

  function HeaderOfField(f: Field): FieldHeader {
    FieldHeader(f.id, f.valueType, f.flags, f.elements, |f.value|)
  }

  /** Field header, value, and zero padding to eight bytes. */
  function EncodeField(f: Field): (b: bytes)
    ensures |b| == FieldSize(|f.value|)
  {
    EncodeFieldHeader(HeaderOfField(f)) + f.value + Zeros(Pad8(|f.value|))
  }

  function FieldSize(byteCount: nat): (n: nat)
    ensures n % 8 == 0 && n >= FIELD_HEADER_BYTES + byteCount
  {
    FIELD_HEADER_BYTES + byteCount + Pad8(byteCount)
  }

  function EncodeFields(fs: seq<Field>): (b: bytes)
    ensures |b| % 8 == 0 && |b| >= FIELD_HEADER_BYTES * |fs|
  {
    hide EncodeField;
    if fs == [] then [] else EncodeField(fs[0]) + EncodeFields(fs[1..])
  }

  // ---- The checks of the first pass, in the order the parser makes them ----

  /** Order, registry and count checks, made on the field header alone. */
  function FieldHeaderStatus(meta: FieldMeta, previous: nat, h: FieldHeader): Status {
    if h.id == 0 || h.id <= previous then Schema
    else if meta.id != h.id || meta.valueType != h.valueType then Schema
    else if (meta.shape == SCALAR || meta.shape == FIXED_ARRAY) && h.elements != meta.fixedCount then Schema
    else if (meta.shape == DYNAMIC_ARRAY || meta.shape == BITSET) && h.elements > meta.maximumCapacity then Schema
    else if h.byteCount > MAX_FIELD_BYTES then Limit
    else OK
  }

  /** 2^n for the bit counts of one byte. */
  function Pow2(n: nat): (p: nat)
    requires n < 8
    ensures 1 <= p <= 128
  {
    [1, 2, 4, 8, 16, 32, 64, 128][n]
  }

  /** Flag, width and value checks, made once the value is known to be present. */
  ghost function FieldValueStatus(meta: FieldMeta, f: Field): Status {
    var width := ValueWidth(f.valueType, f.flags);
    if (f.valueType != VALUE_STABLE_ID && f.flags != 0)
      || (meta.widthBits != 0 && width != 0 && width * 8 != meta.widthBits) then Schema
    else if width != 0 then
      if f.elements * width != |f.value| then Schema else OK
    else if f.valueType == VALUE_BYTES then
      if f.flags != 0 || f.elements != |f.value| then Schema else OK
    else if f.valueType == VALUE_BITSET then
      if f.flags != 0 || (f.elements + 7) / 8 != |f.value| then Schema
      else if f.elements % 8 != 0 && f.value[|f.value| - 1] >= Pow2(f.elements % 8) then Canonical
      else OK
    else if f.valueType == VALUE_DIAGNOSTIC_UTF8 then
      if meta.classification != DIAGNOSTIC_CLASS || f.flags != 0
        || |f.value| > MAX_DIAGNOSTIC_STRING_BYTES || f.elements != |f.value| || !Utf8.WellFormed(f.value)
      then Schema
      else OK
    else Schema
  }

  /** One field that satisfies its registry row. */
  ghost predicate FieldOk(meta: FieldMeta, f: Field) {
    && FieldHeaderStatus(meta, 0, HeaderOfField(f)) == OK
    && FieldValueStatus(meta, f) == OK
  }

  /** The first field of `rest`, once its header and length have been checked. */
  function FieldIn(rest: bytes): Field
    requires |rest| >= FIELD_HEADER_BYTES
    requires |rest| >= FieldSize(DecodeFieldHeader(rest[..16]).byteCount)
  {
    var h := DecodeFieldHeader(rest[..16]);
    Field(h.id, h.valueType, h.flags, h.elements, rest[16..16 + h.byteCount])
  }

  ghost function ParseField(meta: FieldMeta, previous: nat, rest: bytes): (r: Result<Field, Status>)
    ensures r.Success? ==> FieldSize(|r.value.value|) <= |rest|
  {
    if |rest| < FIELD_HEADER_BYTES then Failure(Truncated)
    else
      var h := DecodeFieldHeader(rest[..16]);
      var s := FieldHeaderStatus(meta, previous, h);
      if s != OK then Failure(s)
      else if FieldSize(h.byteCount) > |rest| then Failure(Truncated)
      else
        var f := FieldIn(rest);
        var v := FieldValueStatus(meta, f);
        if v != OK then Failure(v)
        else if rest[16 + h.byteCount..FieldSize(h.byteCount)] != Zeros(Pad8(h.byteCount)) then Failure(Canonical)
        else Success(f)
  }

  /** The first pass over all fields; `previous` is the last field id seen. */
  ghost function ParseFields(metas: seq<FieldMeta>, previous: nat, rest: bytes): Result<seq<Field>, Status>
    decreases |metas|
  {
    if metas == [] then
      if rest == [] then Success([]) else Failure(Structure)
    else
      match ParseField(metas[0], previous, rest)
      case Failure(e) => Failure(e)
      case Success(f) =>
        match ParseFields(metas[1..], f.id, rest[FieldSize(|f.value|)..])
        case Failure(e) => Failure(e)
        case Success(fs) => Success([f] + fs)
  }

  // ---- The relations of the second pass ----

  /** The value of the scalar field with this id, when it is one element of a numeric type. */
  function ScalarValue(fs: seq<Field>, wanted: u32): Option<u64> {
    if fs == [] then None
    else if fs[0].id == wanted then
      var w := ValueWidth(fs[0].valueType, fs[0].flags);
      if fs[0].elements != 1 || w == 0 || |fs[0].value| != w then None
      else ScalarBound(fs[0].value); Some(UInt(fs[0].value))
    else ScalarValue(fs[1..], wanted)
  }

  lemma ScalarBound(b: bytes)
    requires |b| <= 8
    ensures UInt(b) <= U64_MAX
  {
    PowMonotone(|b|, 8);
    Widths();
  }

  lemma PowMonotone(m: nat, n: nat)
    requires m <= n
    ensures Pow256(m) <= Pow256(n)
    decreases n - m
  {
    if m < n {
      PowMonotone(m + 1, n);
    }
  }

  /** The 32-bit words of a field value. */
  function Words(value: bytes): (ws: seq<u32>)
    ensures |ws| == |value| / 4
  {
    seq(|value| / 4, k requires 0 <= k < |value| / 4 => U32At(value, 4 * k))
  }

  /** An offset vector that starts at zero, never decreases and ends at `total`. */
  predicate Tiles(offsets: seq<u32>, total: nat) {
    && |offsets| > 0
    && offsets[0] == 0
    && (forall k :: 0 < k < |offsets| ==> offsets[k - 1] <= offsets[k])
    && offsets[|offsets| - 1] == total
  }

  predicate RelationsOk(fs: seq<Field>, meta: FieldMeta, f: Field) {
    && (meta.countSource != 0 ==> ScalarValue(fs, meta.countSource) == Some(f.elements))
    && (meta.offsetTarget != 0 ==>
          && f.valueType == VALUE_U32
          && ScalarValue(fs, meta.offsetTarget).Some?
          && Tiles(Words(f.value), ScalarValue(fs, meta.offsetTarget).value))
  }

  predicate AllRelationsOk(metas: seq<FieldMeta>, fs: seq<Field>)
    requires |metas| == |fs|
  {
    forall i :: 0 <= i < |fs| ==> RelationsOk(fs, metas[i], fs[i])
  }

  /** The checks on the projection header. */
  function ProjectionHeaderStatus(registry: Registry, payload: bytes): Status {
    if |payload| < PROJECTION_HEADER_BYTES then Truncated
    else if U16At(payload, 0) != 1 then Version
    else if payload[3] != 0 then Reserved
    else
      var count := U32At(payload, 4);
      if count == 0 then Schema
      else if count > MAX_FIELD_COUNT then Limit
      else if count != |Authoritative(registry)| then Schema
      else OK
  }

  /** The whole parser: the fields of an accepted payload, or the status of the first failing check. */
  ghost function ParsePayload(registry: Registry, payload: bytes): (r: Result<seq<Field>, Status>)
    ensures r.Failure? ==> r.error != OK
  {
    var s := ProjectionHeaderStatus(registry, payload);
    if s != OK then Failure(s)
    else
      var metas := Authoritative(registry);
      FirstPassFails(metas, 0, payload[24..]);
      match ParseFields(metas, 0, payload[24..])
      case Failure(e) => Failure(e)
      case Success(fs) =>
        FirstPassSound(metas, 0, payload[24..]);
        if AllRelationsOk(metas, fs) then Success(fs) else Failure(Schema)
  }

  ghost function ProjectionStatus(registry: Registry, payload: bytes): Status {
    match ParsePayload(registry, payload)
    case Success(_) => OK
    case Failure(e) => e
  }

  lemma {:induction false} FirstPassFails(metas: seq<FieldMeta>, previous: nat, rest: bytes)
    ensures var r := ParseFields(metas, previous, rest); r.Failure? ==> r.error != OK
    decreases |metas|
  {
    if metas != [] && ParseField(metas[0], previous, rest).Success? {
      var f := ParseField(metas[0], previous, rest).value;
      FirstPassFails(metas[1..], f.id, rest[FieldSize(|f.value|)..]);
    }
  }

  /** A parsed field is its own bytes. */
  lemma FieldSound(meta: FieldMeta, previous: nat, rest: bytes)
    requires ParseField(meta, previous, rest).Success?
    ensures var f := ParseField(meta, previous, rest).value;
      FieldOk(meta, f) && f.id > previous && rest == EncodeField(f) + rest[FieldSize(|f.value|)..]
  {
    hide FieldValueStatus, EncodeFieldHeader, DecodeFieldHeader;
    var f := ParseField(meta, previous, rest).value;
    FieldHeaderBytesRoundTrip(rest[..16]);
    var n := |f.value|;
    assert rest == rest[..16] + rest[16..16 + n] + rest[16 + n..FieldSize(n)] + rest[FieldSize(n)..];
  }

  lemma FieldComplete(meta: FieldMeta, previous: nat, f: Field, tail: bytes)
    requires FieldOk(meta, f) && f.id > previous
    ensures ParseField(meta, previous, EncodeField(f) + tail) == Success(f)
  {
    var rest := EncodeField(f) + tail;
    var n := |f.value|;
    FieldHeaderRoundTrip(HeaderOfField(f));
    assert rest[..16] == EncodeFieldHeader(HeaderOfField(f));
    assert rest[16..16 + n] == f.value;
    assert rest[16 + n..FieldSize(n)] == Zeros(Pad8(n));
  }

  lemma {:induction false} FirstPassSound(metas: seq<FieldMeta>, previous: nat, rest: bytes)
    requires ParseFields(metas, previous, rest).Success?
    ensures var fs := ParseFields(metas, previous, rest).value;
      && |fs| == |metas|
      && (forall i :: 0 <= i < |fs| ==> FieldOk(metas[i], fs[i]))
      && rest == EncodeFields(fs)
    decreases |metas|
  {
    hide EncodeField, FieldHeaderStatus, FieldValueStatus, ParseField, FieldOk;
    if metas != [] {
      FieldSound(metas[0], previous, rest);
      var f := ParseField(metas[0], previous, rest).value;
      FirstPassSound(metas[1..], f.id, rest[FieldSize(|f.value|)..]);
      var fs := ParseFields(metas, previous, rest).value;
      assert fs[1..] == ParseFields(metas[1..], f.id, rest[FieldSize(|f.value|)..]).value;
      assert forall i :: 1 <= i < |fs| ==> fs[i] == fs[1..][i - 1] && metas[i] == metas[1..][i - 1];
    }
  }

  lemma FieldId(meta: FieldMeta, f: Field)
    requires FieldOk(meta, f)
    ensures f.id == meta.id
  {
  }

  lemma {:induction false} FirstPassComplete(metas: seq<FieldMeta>, previous: nat, fs: seq<Field>)
    requires SortedById(metas) && |fs| == |metas|
    requires metas != [] ==> previous < metas[0].id
    requires forall i :: 0 <= i < |fs| ==> FieldOk(metas[i], fs[i])
    ensures ParseFields(metas, previous, EncodeFields(fs)) == Success(fs)
    decreases |metas|
  {
    hide EncodeField, FieldOk, ParseField;
    if metas != [] {
      FieldId(metas[0], fs[0]);
      FieldComplete(metas[0], previous, fs[0], EncodeFields(fs[1..]));
      var rest := EncodeFields(fs);
      assert rest[FieldSize(|fs[0].value|)..] == EncodeFields(fs[1..]);
      assert forall i :: 0 <= i < |fs| - 1 ==> fs[1..][i] == fs[i + 1] && metas[1..][i] == metas[i + 1];
      FirstPassComplete(metas[1..], fs[0].id, fs[1..]);
      assert [fs[0]] + fs[1..] == fs;
    }
  }

  /** What an accepted projection is: a checked header and, for every authoritative registry row in
      order, one field that satisfies the row and the cross-field relations, with nothing left over. */
  ghost predicate IsProjection(registry: Registry, payload: bytes, fs: seq<Field>) {
    var metas := Authoritative(registry);
    && ProjectionHeaderStatus(registry, payload) == OK
    && |fs| == |metas|
    && (forall i :: 0 <= i < |fs| ==> FieldOk(metas[i], fs[i]))
    && payload[24..] == EncodeFields(fs)
    && AllRelationsOk(metas, fs)
  }

  lemma AcceptedIsProjection(registry: Registry, payload: bytes, fs: seq<Field>)
    requires SortedById(registry)
    ensures ParsePayload(registry, payload) == Success(fs) <==> IsProjection(registry, payload, fs)
  {
    var metas := Authoritative(registry);
    AuthoritativeSorted(registry);
    if ProjectionHeaderStatus(registry, payload) == OK {
      if IsProjection(registry, payload, fs) {
        FirstPassComplete(metas, 0, fs);
      }
      if ParseFields(metas, 0, payload[24..]).Success? {
        FirstPassSound(metas, 0, payload[24..]);
      }
    }
  }

  // ---- What the relations give a consumer ----

  /** The slices an offset vector cuts out of `a`, in order, joined again. */
  function Joined<T>(offsets: seq<u32>, a: seq<T>): seq<T>
    requires forall k :: 0 < k < |offsets| ==> offsets[k - 1] <= offsets[k]
    requires forall k :: 0 <= k < |offsets| ==> offsets[k] <= |a|
  {
    if |offsets| < 2 then []
    else Joined(offsets[..|offsets| - 1], a) + a[offsets[|offsets| - 2]..offsets[|offsets| - 1]]
  }

  lemma OffsetsOrdered(offsets: seq<u32>, i: nat, j: nat)
    requires forall k :: 0 < k < |offsets| ==> offsets[k - 1] <= offsets[k]
    requires i <= j < |offsets|
    ensures offsets[i] <= offsets[j]
    decreases j
  {
    if i < j {
      OffsetsOrdered(offsets, i, j - 1);
    }
  }

  lemma {:induction false} JoinedPrefix<T>(offsets: seq<u32>, a: seq<T>)
    requires |offsets| > 0 && offsets[0] == 0
    requires forall k :: 0 < k < |offsets| ==> offsets[k - 1] <= offsets[k]
    requires forall k :: 0 <= k < |offsets| ==> offsets[k] <= |a|
    ensures Joined(offsets, a) == a[..offsets[|offsets| - 1]]
  {
    if |offsets| >= 2 {
      JoinedPrefix(offsets[..|offsets| - 1], a);
      var x, y := offsets[|offsets| - 2], offsets[|offsets| - 1];
      assert a[..x] + a[x..y] == a[..y];
    }
  }

  lemma OffsetsCut<T>(offsets: seq<u32>, a: seq<T>)
    requires Tiles(offsets, |a|)
    ensures forall k :: 0 <= k < |offsets| ==> offsets[k] <= |a|
    ensures Joined(offsets, a) == a
  {
    forall k | 0 <= k < |offsets| ensures offsets[k] <= |a| {
      OffsetsOrdered(offsets, k, |offsets| - 1);
    }
    JoinedPrefix(offsets, a);
  }

  lemma OffsetWords(meta: FieldMeta, f: Field)
    requires f.valueType == VALUE_U32 && FieldValueStatus(meta, f) == OK
    ensures |Words(f.value)| == f.elements
  {
  }

  ghost predicate CutsWhole<T(!new)>(offsets: seq<u32>, total: nat) {
    forall a: seq<T> | |a| == total ::
      (forall k :: 0 <= k < |offsets| ==> offsets[k] <= |a|)
      && (forall k :: 0 < k < |offsets| ==> offsets[k - 1] <= offsets[k])
      && Joined(offsets, a) == a
  }

  /** In an accepted projection every counted field has exactly as many elements as its count source
      says, and every offset vector has one word per element and cuts any array as long as its target
      count into slices that join to that array again. */
  lemma ProjectionRelations<T(!new)>(registry: Registry, payload: bytes, fs: seq<Field>, i: nat)
    requires IsProjection(registry, payload, fs) && i < |fs|
    ensures var meta := Authoritative(registry)[i];
      && (meta.countSource != 0 ==> ScalarValue(fs, meta.countSource) == Some(fs[i].elements))
      && (meta.offsetTarget != 0 ==>
            && ScalarValue(fs, meta.offsetTarget).Some?
            && |Words(fs[i].value)| == fs[i].elements
            && CutsWhole<T>(Words(fs[i].value), ScalarValue(fs, meta.offsetTarget).value))
  {
    var meta := Authoritative(registry)[i];
    assert RelationsOk(fs, meta, fs[i]);
    if meta.offsetTarget != 0 {
      assert FieldOk(meta, fs[i]);
      OffsetWords(meta, fs[i]);
      var ws := Words(fs[i].value);
      forall a: seq<T> | |a| == ScalarValue(fs, meta.offsetTarget).value
        ensures (forall k :: 0 <= k < |ws| ==> ws[k] <= |a|) && Joined(ws, a) == a
      {
        OffsetsCut(ws, a);
      }
    }
  }

  // ---- The parser itself ----

  lemma FirstPassStep(metas: seq<FieldMeta>, previous: nat, rest: bytes, done: seq<Field>)
    requires metas != [] && ParseField(metas[0], previous, rest).Success?
    ensures var f := ParseField(metas[0], previous, rest).value;
      Prepend(done, ParseFields(metas, previous, rest))
        == Prepend(done + [f], ParseFields(metas[1..], f.id, rest[FieldSize(|f.value|)..]))
  {
    var f := ParseField(metas[0], previous, rest).value;
    match ParseFields(metas[1..], f.id, rest[FieldSize(|f.value|)..])
    case Failure(_) =>
    case Success(fs) => assert done + ([f] + fs) == done + [f] + fs;
  }

  lemma FirstPassStops(metas: seq<FieldMeta>, previous: nat, rest: bytes, done: seq<Field>)
    requires metas != [] && ParseField(metas[0], previous, rest).Failure?
    ensures Prepend(done, ParseFields(metas, previous, rest)) == Failure(ParseField(metas[0], previous, rest).error)
  {
  }

  lemma FirstPassEnds(previous: nat, rest: bytes, done: seq<Field>)
    ensures Prepend(done, ParseFields([], previous, rest)) == if rest == [] then Success(done) else Failure(Structure)
  {
    assert done + [] == done;
  }

  lemma WidthProduct(elements: u32, width: nat)
    requires width <= 8
    ensures Mul(elements, width) == Some(elements * width)
  {
    assert elements * width <= 0x1_0000_0000 * 8;
  }

  /** The value checks of one field, whose value bytes are `payload[start..end]`. */
  method CheckValue(meta: FieldMeta, h: FieldHeader, payload: Payload, start: nat, end: nat)
      returns (status: Status)
    requires start + h.byteCount == end <= |payload|
    ensures status == FieldValueStatus(meta, Field(h.id, h.valueType, h.flags, h.elements, payload[start..end]))
  {
    hide Mul, UInt, ValueWidth;
    var width := ValueWidth(h.valueType, h.flags);
    if (h.valueType != VALUE_STABLE_ID && h.flags != 0)
      || (meta.widthBits != 0 && width != 0 && width * 8 != meta.widthBits) {
      return Schema;
    }
    if width != 0 {
      WidthProduct(h.elements, width);
      var expected := Mul(h.elements, width).value;
      return if expected != h.byteCount then Schema else OK;
    } else if h.valueType == VALUE_BYTES {
      return if h.flags != 0 || h.elements != h.byteCount then Schema else OK;
    } else if h.valueType == VALUE_BITSET {
      if h.flags != 0 || (h.elements + 7) / 8 != h.byteCount {
        return Schema;
      }
      if h.elements % 8 != 0 && payload[end - 1] >= Pow2(h.elements % 8) {
        return Canonical;
      }
      return OK;
    } else if h.valueType == VALUE_DIAGNOSTIC_UTF8 {
      if meta.classification != DIAGNOSTIC_CLASS || h.flags != 0
        || h.byteCount > MAX_DIAGNOSTIC_STRING_BYTES || h.elements != h.byteCount {
        return Schema;
      }
      var ok := Utf8.Utf8Valid(payload[start..end]);
      return if ok then OK else Schema;
    } else {
      return Schema;
    }
  }

  /** One iteration of the first pass: the field at `offset`, and where the next one starts. */
  method CheckField(meta: FieldMeta, previous: nat, payload: Payload, offset: nat)
      returns (status: Status, id: nat, next: nat)
    requires offset % 8 == 0 && offset <= |payload|
    ensures status == OK <==> ParseField(meta, previous, payload[offset..]).Success?
    ensures status != OK ==> ParseField(meta, previous, payload[offset..]) == Failure(status)
    ensures status == OK ==>
      var f := ParseField(meta, previous, payload[offset..]).value;
      id == f.id && next == offset + FieldSize(|f.value|) <= |payload|
  {
    hide FieldHeaderStatus, FieldValueStatus, UInt;
    ghost var rest := payload[offset..];
    id, next := 0, offset;
    if |payload| - offset < FIELD_HEADER_BYTES {
      return Truncated, id, next;
    }
    var h := DecodeFieldHeader(payload[offset..offset + FIELD_HEADER_BYTES]);
    id := h.id;
    assert rest[..16] == payload[offset..offset + FIELD_HEADER_BYTES];
    status := FieldHeaderStatus(meta, previous, h);
    if status != OK {
      return;
    }
    var start := offset + FIELD_HEADER_BYTES;
    var end := Add(start, h.byteCount).value;
    next := Align8(end).value;
    PadShift(start, h.byteCount);
    assert next == offset + FieldSize(h.byteCount);
    if next > |payload| {
      return Truncated, id, next;
    }
    status := CheckValue(meta, h, payload, start, end);
    assert payload[start..end] == rest[16..16 + h.byteCount];
    if status != OK {
      return;
    }
    var clean := AllZero(payload, end, next);
    assert rest[16 + h.byteCount..FieldSize(h.byteCount)] == payload[end..next];
    if !clean {
      status := Canonical;
    }
  }

  /** Skips registry rows that are not authoritative, as both passes do before every field. */
  method NextAuthoritative(registry: Registry, from: nat) returns (index: nat)
    requires from <= |registry| && Authoritative(registry[from..]) != []
    ensures from <= index < |registry|
    ensures registry[index] == Authoritative(registry[from..])[0]
    ensures Authoritative(registry[index + 1..]) == Authoritative(registry[from..])[1..]
  {
    index := from;
    while registry[index].classification != AUTHORITATIVE_FULL
      invariant from <= index < |registry|
      invariant Authoritative(registry[index..]) == Authoritative(registry[from..])
      decreases |registry| - index
    {
      assert registry[index..][1..] == registry[index + 1..];
      index := index + 1;
    }
    assert registry[index..][1..] == registry[index + 1..];
  }

  /** The first pass: every authoritative field present, in order, well formed, nothing after. */
  method FirstPass(registry: Registry, payload: Payload) returns (status: Status)
    requires ProjectionHeaderStatus(registry, payload) == OK
    ensures status == OK <==> ParseFields(Authoritative(registry), 0, payload[24..]).Success?
    ensures status != OK ==> ParseFields(Authoritative(registry), 0, payload[24..]) == Failure(status)
  {
    hide ParseFields, ParseField, Prepend;
    ghost var metas := Authoritative(registry);
    ghost var done: seq<Field> := [];
    var fieldCount := U32At(payload, 4);
    var offset: nat, registryIndex: nat, previous: nat, index: nat := PROJECTION_HEADER_BYTES, 0, 0, 0;
    assert fieldCount == |metas|;
    hide ProjectionHeaderStatus, Authoritative, FieldSize, UInt;
    assert registry[0..] == registry && metas[0..] == metas;
    PrependNothing(ParseFields(metas, 0, payload[24..]));
    while index < fieldCount
      invariant index <= fieldCount == |metas| && registryIndex <= |registry|
      invariant offset % 8 == 0 && offset <= |payload|
      invariant Authoritative(registry[registryIndex..]) == metas[index..]
      invariant ParseFields(metas, 0, payload[24..])
             == Prepend(done, ParseFields(metas[index..], previous, payload[offset..]))
    {
      var row := NextAuthoritative(registry, registryIndex);
      var id, next;
      status, id, next := CheckField(registry[row], previous, payload, offset);
      if status != OK {
        FirstPassStops(metas[index..], previous, payload[offset..], done);
        return;
      }
      ghost var f := ParseField(metas[index], previous, payload[offset..]).value;
      FirstPassStep(metas[index..], previous, payload[offset..], done);
      EightsAdd(offset, FieldSize(|f.value|));
      assert payload[offset..][FieldSize(|f.value|)..] == payload[next..];
      assert metas[index..][1..] == metas[index + 1..];
      done := done + [f];
      offset, previous, index, registryIndex := next, id, index + 1, row + 1;
    }
    FirstPassEnds(previous, payload[offset..], done);
    status := if offset != |payload| then Structure else OK;
  }

  /** The front of a laid-out field region is its first field. */
  lemma FieldFront(f: Field, tail: bytes)
    ensures var b := EncodeField(f) + tail;
      && DecodeFieldHeader(b[..16]) == HeaderOfField(f)
      && b[16..16 + |f.value|] == f.value
      && b[FieldSize(|f.value|)..] == tail
  {
    var b := EncodeField(f) + tail;
    FieldHeaderRoundTrip(HeaderOfField(f));
    assert b[..16] == EncodeFieldHeader(HeaderOfField(f));
  }

  /** Reads the field header at `offset` of an accepted payload and steps over the field. The reads
      need no checks of their own: they are inside the payload because the first pass accepted it. */
  method FieldAt(payload: Payload, offset: nat, ghost fs: seq<Field>) returns (h: FieldHeader, next: nat)
    requires offset < |payload| && offset % 8 == 0 && payload[offset..] == EncodeFields(fs)
    ensures fs != [] && h == HeaderOfField(fs[0])
    ensures next == offset + FieldSize(h.byteCount) <= |payload| && next % 8 == 0
    ensures payload[offset + 16..offset + 16 + h.byteCount] == fs[0].value
    ensures payload[next..] == EncodeFields(fs[1..])
  {
    hide EncodeField, DecodeFieldHeader;
    ghost var rest := payload[offset..];
    assert fs != [];
    FieldFront(fs[0], EncodeFields(fs[1..]));
    assert rest[..16] == payload[offset..offset + 16];
    h := DecodeFieldHeader(payload[offset..offset + 16]);
    next := Align8(Add(offset + FIELD_HEADER_BYTES, h.byteCount).value).value;
    PadShift(offset + FIELD_HEADER_BYTES, h.byteCount);
    assert next == offset + FieldSize(h.byteCount);
    EightsAdd(offset, FieldSize(h.byteCount));
    assert rest[16..16 + h.byteCount] == payload[offset + 16..offset + 16 + h.byteCount];
    assert rest[FieldSize(h.byteCount)..] == payload[next..];
  }

  /** `projection_scalar_value`: looks a scalar up by scanning the payload again. */
  method ScalarAt(payload: Payload, wanted: u32, ghost fs: seq<Field>) returns (value: Option<u64>)
    requires |payload| >= 24 && payload[24..] == EncodeFields(fs)
    ensures value == ScalarValue(fs, wanted)
  {
    hide EncodeFields, FieldSize;
    var offset := PROJECTION_HEADER_BYTES;
    ghost var rest := fs;
    while offset < |payload|
      invariant 24 <= offset <= |payload| && offset % 8 == 0
      invariant payload[offset..] == EncodeFields(rest)
      invariant ScalarValue(fs, wanted) == ScalarValue(rest, wanted)
      decreases |payload| - offset
    {
      var h, next := FieldAt(payload, offset, rest);
      if h.id == wanted {
        var width := ValueWidth(h.valueType, h.flags);
        if h.elements != 1 || width == 0 || h.byteCount != width {
          return None;
        }
        ScalarBound(rest[0].value);
        return Some(UInt(payload[offset + 16..offset + 16 + width]));
      }
      offset, rest := next, rest[1..];
    }
    return None;
  }

  /** The element checks on one offset vector, read word by word from the payload. */
  method CheckOffsets(payload: Payload, at: nat, elements: u32, total: u64, ghost value: bytes)
      returns (ok: bool)
    requires at + 4 * elements <= |payload| && elements > 0
    requires value == payload[at..at + 4 * elements]
    ensures ok <==> Tiles(Words(value), total)
  {
    ghost var ws := Words(value);
    hide UInt;
    forall k: nat | k < elements ensures ws[k] == U32At(payload, at + 4 * k) {
      SubRange(payload, at, at + 4 * elements, 4 * k, 4 * k + 4);
    }
    if U32At(payload, at) != 0 {
      return false;
    }
    var prior: u32 := 0;
    var element := 1;
    while element < elements
      invariant 1 <= element <= elements
      invariant prior == ws[element - 1]
      invariant forall k :: 0 < k < element ==> ws[k - 1] <= ws[k]
    {
      var current := U32At(payload, at + 4 * element);
      assert current == ws[element];
      if current < prior {
        return false;
      }
      prior, element := current, element + 1;
    }
    return prior == total;
  }

  /** The second-pass checks on the field whose value starts at `at`. */
  method CheckRelations(meta: FieldMeta, h: FieldHeader, payload: Payload, at: nat,
                        ghost fs: seq<Field>, ghost f: Field)
      returns (ok: bool)
    requires |payload| >= 24 && payload[24..] == EncodeFields(fs)
    requires FieldOk(meta, f) && h == HeaderOfField(f)
    requires at + h.byteCount <= |payload| && payload[at..at + h.byteCount] == f.value
    ensures ok <==> RelationsOk(fs, meta, f)
  {
    hide EncodeFields, ScalarValue, UInt;
    if meta.countSource != 0 {
      var declared := ScalarAt(payload, meta.countSource, fs);
      if declared.None? || declared.value != h.elements {
        return false;
      }
    }
    if meta.offsetTarget != 0 {
      if h.valueType != VALUE_U32 {
        return false;
      }
      OffsetWords(meta, f);
      if h.elements == 0 {
        return false;
      }
      var target := ScalarAt(payload, meta.offsetTarget, fs);
      if target.None? {
        return false;
      }
      hide Tiles;
      assert h.byteCount == 4 * h.elements;
      ok := CheckOffsets(payload, at, h.elements, target.value, f.value);
      return;
    }
    return true;
  }

  /** The second pass: cross-field relations, one field at a time. */
  method SecondPass(registry: Registry, payload: Payload, ghost fs: seq<Field>) returns (status: Status)
    requires |payload| >= 24 && payload[24..] == EncodeFields(fs)
    requires |fs| == |Authoritative(registry)| == U32At(payload, 4)
    requires forall i :: 0 <= i < |fs| ==> FieldOk(Authoritative(registry)[i], fs[i])
    ensures status == if AllRelationsOk(Authoritative(registry), fs) then OK else Schema
  {
    hide FieldOk, RelationsOk, EncodeFields, FieldSize, Authoritative, UInt;
    ghost var metas := Authoritative(registry);
    var fieldCount := U32At(payload, 4);
    var offset: nat, registryIndex: nat, index: nat := PROJECTION_HEADER_BYTES, 0, 0;
    assert registry[0..] == registry && metas[0..] == metas && fs[0..] == fs;
    while index < fieldCount
      invariant index <= |fs| && registryIndex <= |registry|
      invariant 24 <= offset <= |payload| && offset % 8 == 0
      invariant payload[offset..] == EncodeFields(fs[index..])
      invariant Authoritative(registry[registryIndex..]) == metas[index..]
      invariant forall i :: 0 <= i < index ==> RelationsOk(fs, metas[i], fs[i])
    {
      assert metas[index..][0] == metas[index] && fs[index..][0] == fs[index];
      assert metas[index..][1..] == metas[index + 1..] && fs[index..][1..] == fs[index + 1..];
      var row := NextAuthoritative(registry, registryIndex);
      assert |payload[offset..]| >= FIELD_HEADER_BYTES;
      var h, next := FieldAt(payload, offset, fs[index..]);
      var ok := CheckRelations(registry[row], h, payload, offset + FIELD_HEADER_BYTES, fs, fs[index]);
      if !ok {
        return Schema;
      }
      offset, index, registryIndex := next, index + 1, row + 1;
    }
    return OK;
  }

  /** `otrl_parse_projection`. */
  method ParseProjection(registry: Registry, payload: Payload) returns (status: Status)
    ensures status == ProjectionStatus(registry, payload)
  {
    if |payload| < PROJECTION_HEADER_BYTES {
      return Truncated;
    }
    if U16At(payload, 0) != 1 {
      return Version;
    }
    if payload[3] != 0 {
      return Reserved;
    }
    var fieldCount := U32At(payload, 4);
    if fieldCount == 0 {
      return Schema;
    }
    if fieldCount > MAX_FIELD_COUNT {
      return Limit;
    }
    if fieldCount != |Authoritative(registry)| {
      return Schema;
    }
    status := FirstPass(registry, payload);
    if status != OK {
      FirstPassFails(Authoritative(registry), 0, payload[24..]);
      return;
    }
    FirstPassSound(Authoritative(registry), 0, payload[24..]);
    ghost var fs := ParseFields(Authoritative(registry), 0, payload[24..]).value;
    status := SecondPass(registry, payload, fs);
  }
}
