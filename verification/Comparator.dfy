/** Comparison of two tapes (parity/src/comparator.c): what counts as a difference, and the first one. */
module Comparator {
  import opened Wrappers
  import opened Bytes
  import opened CheckedArithmetic
  import opened TapeFormat
  import opened Projection

  datatype Kind = NoDivergence | RecordDivergence | FieldPresence | FieldValue | EndOfStream

  /** The part of a comparison result that describes the difference itself. */
  datatype Difference = Difference(kind: Kind, fieldId: u32, valueType: u16, widthBits: nat, signed: bool,
                                   elementIndex: nat, oracleValue: bytes, targetValue: bytes,
                                   commandId: u32, operandIndex: nat)

  const MAX_VALUE_BYTES := 16

  /** `result_base`. */
  function Base(kind: Kind): Difference {
    Difference(kind, 0, 0, 0, false, 0, [], [], 0, 0)
  }

  /** `ignorable_diagnostic`. */
  predicate Ignorable(r: Record) {
    IsDiagnostic(r.kind) && !Required(r.flags)
  }

  /** The payload is long enough for the fixed offsets the comparison of its record type reads. */
  predicate Readable(r: Record) {
    && (r.kind == COMMAND_INTENT || r.kind == AUTHORITATIVE_PROJECTION ==> |r.payload| >= 24)
    && (r.kind == COMMAND_TEST_RESULT || r.kind == COMMAND_EXEC_RESULT ==> |r.payload| >= 32)
  }

  /** The index of the first byte at which two runs differ; the shorter length when one is a prefix. */
  function FirstByte(a: bytes, b: bytes): (n: nat)
    ensures n <= |a| && n <= |b| && a[..n] == b[..n]
    ensures n < |a| && n < |b| ==> a[n] != b[n]
  {
    if a != [] && b != [] && a[0] == b[0] then
      var n := FirstByte(a[1..], b[1..]);
      assert a[..n + 1] == [a[0]] + a[1..][..n] && b[..n + 1] == [b[0]] + b[1..][..n];
      n + 1
    else 0
  }

  // ---- Command records ----

  /** One row of the tables of fixed command fields. */
  datatype FixedField = FixedField(offset: nat, valueType: u16, widthBits: nat, signed: bool)

  const INTENT_FIELDS: seq<FixedField> := [
    FixedField(4, VALUE_U32, 32, false), FixedField(8, VALUE_U32, 32, false),
    FixedField(12, VALUE_U32, 32, false), FixedField(16, VALUE_U32, 32, false)]

  const OUTCOME_FIELDS: seq<FixedField> := [
    FixedField(4, VALUE_U32, 32, false), FixedField(8, VALUE_I64, 64, true),
    FixedField(16, VALUE_U32, 32, false), FixedField(20, VALUE_U32, 32, false),
    FixedField(24, VALUE_U32, 32, false), FixedField(28, VALUE_U32, 32, false)]

  function Slice(p: bytes, f: FixedField): bytes
    requires f.offset + f.widthBits / 8 <= |p|
  {
    p[f.offset..f.offset + f.widthBits / 8]
  }

  predicate FieldsFit(fields: seq<FixedField>, n: nat) {
    forall f <- fields :: f.offset + f.widthBits / 8 <= n
  }

  function FixedFieldDiff(l: bytes, r: bytes, fields: seq<FixedField>): Option<Difference>
    requires |l| >= 8 && FieldsFit(fields, |l|) && FieldsFit(fields, |r|)
  {
    if fields == [] then None
    else if Slice(l, fields[0]) != Slice(r, fields[0]) then
      Some(Base(RecordDivergence).(valueType := fields[0].valueType, widthBits := fields[0].widthBits,
             signed := fields[0].signed, oracleValue := Slice(l, fields[0]), targetValue := Slice(r, fields[0]),
             commandId := U32At(l, 4)))
    else FixedFieldDiff(l, r, fields[1..])
  }

  /** The byte at `at`, or the zero the comparison reports for an absent one. */
  function ByteOr0(p: bytes, at: nat): bytes {
    if at < |p| then [p[at]] else [0]
  }

  /** `compare_raw_tail`, with the operand index its callers add. */
  function TailDiff(l: bytes, r: bytes, offset: nat): Option<Difference>
    requires |l| >= 8 && offset <= |l| && offset <= |r|
  {
    var first := FirstByte(l[offset..], r[offset..]);
    if first == |l| - offset && first == |r| - offset then None
    else
      Some(Base(RecordDivergence).(valueType := VALUE_BYTES, widthBits := 8, elementIndex := first,
             oracleValue := ByteOr0(l, offset + first), targetValue := ByteOr0(r, offset + first),
             commandId := U32At(l, 4), operandIndex := first))
  }

  function OrElse<T>(a: Option<T>, b: Option<T>): Option<T> {
    if a.Some? then a else b
  }

  /** `compare_command`. */
  function CommandDiff(kind: u16, l: bytes, r: bytes): Option<Difference>
    requires kind == COMMAND_INTENT ==> |l| >= 24 && |r| >= 24
    requires kind != COMMAND_INTENT ==> |l| >= 32 && |r| >= 32
  {
    if |l| != |r| then Some(Base(RecordDivergence))
    else if kind == COMMAND_INTENT then
      OrElse(FixedFieldDiff(l, r, INTENT_FIELDS), TailDiff(l, r, 24))
    else if l[2] != r[2] then
      Some(Base(RecordDivergence).(valueType := VALUE_U8, widthBits := 8, oracleValue := [l[2]],
             targetValue := [r[2]], commandId := U32At(l, 4)))
    else OrElse(FixedFieldDiff(l, r, OUTCOME_FIELDS), TailDiff(l, r, 32))
  }

  // ---- Projections ----

  /** `field_width`: unlike the reader's width it is one for unknown types and the raw flags for ids. */
  function FieldWidth(valueType: u16, flags: u16): nat {
    if valueType == VALUE_U8 || valueType == VALUE_I8 then 1
    else if valueType == VALUE_U16 || valueType == VALUE_I16 then 2
    else if valueType == VALUE_U32 || valueType == VALUE_I32 then 4
    else if valueType == VALUE_U64 || valueType == VALUE_I64 then 8
    else if valueType == VALUE_STABLE_ID then flags
    else 1
  }

  function FieldBase(f: Field): Difference {
    Base(FieldValue).(fieldId := f.id, valueType := f.valueType,
                      widthBits := FieldWidth(f.valueType, f.flags) * 8,
                      signed := VALUE_I8 <= f.valueType <= VALUE_I64)
  }

  function Take(b: bytes, n: nat): bytes {
    if n < |b| then b[..n] else b
  }

  /** Where the element that holds byte `at` begins. */
  function ElementStart(at: nat, width: nat): (start: nat)
    ensures start <= at
    ensures width > 0 ==> at < start + width && start == at / width * width
    ensures width == 0 ==> start == at
  {
    if width == 0 then at else at / width * width
  }

  /** The comparison of two fields with the same id. */
  function FieldDiff(a: Field, b: Field): Option<Difference> {
    if HeaderOfField(a) != HeaderOfField(b).(id := a.id) then Some(FieldBase(a))
    else if a.value != b.value then
      var first := FirstByte(a.value, b.value);
      var width := FieldWidth(a.valueType, a.flags);
      var index := if width == 0 then first else first / width;
      var start := ElementStart(first, width);
      Some(FieldBase(a).(elementIndex := index,
             oracleValue := Take(a.value[start..], MAX_VALUE_BYTES),
             targetValue := Take(b.value[start..], MAX_VALUE_BYTES)))
    else None
  }

  /** `next_field`: the field at `at`, and where the next one starts. */
  function NextField(p: bytes, at: nat, remaining: nat): (r: Option<(Field, nat)>)
    requires at <= |p| < 0x1_0000_0000
    ensures r.Some? ==> remaining > 0 && at < r.value.1 <= |p|
  {
    if remaining == 0 || |p| - at < FIELD_HEADER_BYTES then None
    else
      var h := DecodeFieldHeader(p[at..at + FIELD_HEADER_BYTES]);
      var end := at + FIELD_HEADER_BYTES + h.byteCount;
      var next := end + Pad8(end);
      if next > |p| then None
      else Some((Field(h.id, h.valueType, h.flags, h.elements, p[at + FIELD_HEADER_BYTES..end]), next))
  }

  /** The field loop of `compare_projection`. */
  function FieldsDiff(l: bytes, r: bytes, la: nat, ra: nat, ln: nat, rn: nat): Option<Difference>
    requires la <= |l| < 0x1_0000_0000 && ra <= |r| < 0x1_0000_0000
    decreases ln + rn
  {
    if ln == 0 && rn == 0 then None
    else
      var a, b := NextField(l, la, ln), NextField(r, ra, rn);
      if a.None? || b.None? || a.value.0.id != b.value.0.id then
        Some(Base(FieldPresence).(fieldId :=
               if a.Some? then a.value.0.id else if b.Some? then b.value.0.id else 0))
      else
        match FieldDiff(a.value.0, b.value.0)
        case Some(d) => Some(d)
        case None => FieldsDiff(l, r, a.value.1, b.value.1, ln - 1, rn - 1)
  }

  /** `compare_projection`. */
  function ProjectionDiff(l: bytes, r: bytes): Option<Difference>
    requires 24 <= |l| < 0x1_0000_0000 && 24 <= |r| < 0x1_0000_0000
  {
    if l[..24] != r[..24] then Some(Base(RecordDivergence))
    else FieldsDiff(l, r, 24, 24, U32At(l, 4), U32At(r, 4))
  }

  // ---- Records and tapes ----

  /** What the comparison of two records reports, if anything. */
  function RecordDiff(l: Record, r: Record): Option<Difference>
    requires Readable(l) && Readable(r)
  {
    if l.kind != r.kind || l.version != r.version || l.step != r.step || l.tick != r.tick then
      Some(Base(RecordDivergence))
    else if l.kind == AUTHORITATIVE_PROJECTION then ProjectionDiff(l.payload, r.payload)
    else if IsCommand(l.kind) then CommandDiff(l.kind, l.payload, r.payload)
    else if l.payload != r.payload then Some(Base(RecordDivergence))
    else None
  }

  predicate AllReadable(rs: seq<Record>) {
    forall k :: 0 <= k < |rs| ==> Readable(rs[k])
  }

  datatype Outcome =
    | Same(diagnosticsDiffer: bool)
    | Differs(difference: Difference, i: nat, j: nat, diagnosticsDiffer: bool)

  /** Whether the diagnostics at the two positions are to be noted as different. */
  predicate DiagnosticsDiffer(a: seq<Record>, b: seq<Record>, i: nat, j: nat) {
    || i >= |a| || j >= |b| || !Ignorable(a[i]) || !Ignorable(b[j])
    || a[i].kind != b[j].kind || a[i].payload != b[j].payload
  }

  predicate IgnorableAt(rs: seq<Record>, i: nat) {
    i < |rs| && Ignorable(rs[i])
  }

  /** The comparison loop from positions `i` and `j` on. */
  function CompareFrom(a: seq<Record>, b: seq<Record>, i: nat, j: nat, diag: bool): (o: Outcome)
    requires i <= |a| && j <= |b| && AllReadable(a) && AllReadable(b)
    ensures o.Differs? ==> i <= o.i <= |a| && j <= o.j <= |b| && (o.i < |a| || o.j < |b|)
    decreases |a| - i + |b| - j
  {
    if IgnorableAt(a, i) || IgnorableAt(b, j) then
      CompareFrom(a, b, if IgnorableAt(a, i) then i + 1 else i, if IgnorableAt(b, j) then j + 1 else j,
                  diag || DiagnosticsDiffer(a, b, i, j))
    else if i == |a| || j == |b| then
      if i < |a| || j < |b| then Differs(Base(EndOfStream), i, j, diag) else Same(diag)
    else
      match RecordDiff(a[i], b[j])
      case Some(d) => Differs(d, i, j, diag)
      case None => CompareFrom(a, b, i + 1, j + 1, diag)
  }

  const NO_SEQUENCE := U64_MAX

  /** The sequence of the last record of this kind before `limit`, or all ones. */
  function LastOf(rs: seq<Record>, kind: u16, limit: nat): nat
    requires limit <= |rs|
  {
    if limit == 0 then NO_SEQUENCE
    else if rs[limit - 1].kind == kind then rs[limit - 1].sequence
    else LastOf(rs, kind, limit - 1)
  }

  /** The whole result structure, without its text fields. */
  datatype CompareResult = CompareResult(
    difference: Difference, recordSequence: nat, step: u64, tick: u64, recordType: u16,
    targetSequence: nat, boundaryKind: nat, boundaryOrdinal: u64,
    lastIntent: nat, lastTest: nat, lastExec: nat, previousCheckpoint: nat, diagnosticsDiffer: bool)

  /** The result a comparison outcome is reported as, with the context `add_context` gathers. */
  function Report(a: seq<Record>, b: seq<Record>, o: Outcome): CompareResult
    requires AllReadable(a)
    requires o.Differs? ==> o.i <= |a| && o.j <= |b| && (o.i < |a| || o.j < |b|)
  {
    match o
    case Same(diag) =>
      CompareResult(Base(NoDivergence), NO_SEQUENCE, 0, 0, 0, NO_SEQUENCE, 0, 0,
                    NO_SEQUENCE, NO_SEQUENCE, NO_SEQUENCE, NO_SEQUENCE, diag)
    case Differs(d, i, j, diag) =>
      var r := if i < |a| then a[i] else b[j];
      var atProjection := i < |a| && a[i].kind == AUTHORITATIVE_PROJECTION;
      CompareResult(d, r.sequence, r.step, r.tick, r.kind,
                    if j < |b| then b[j].sequence else NO_SEQUENCE,
                    if atProjection then a[i].payload[2] else 0,
                    if atProjection then U64At(a[i].payload, 8) else 0,
                    LastOf(a, COMMAND_INTENT, i), LastOf(a, COMMAND_TEST_RESULT, i),
                    LastOf(a, COMMAND_EXEC_RESULT, i), LastOf(a, NAMED_CHECKPOINT, i), diag)
  }

  function CompareRecords(a: seq<Record>, b: seq<Record>): CompareResult
    requires AllReadable(a) && AllReadable(b)
  {
    Report(a, b, CompareFrom(a, b, 0, 0, false))
  }

  /** The ten identity strings of two headers, checked in order; a missing one is a schema error. */
  function IdentityStatus(l: seq<Option<bytes>>, r: seq<Option<bytes>>): (s: Status)
    requires |l| == |r|
    ensures s == OK || s == Schema || s == Identity
  {
    if l == [] then OK
    else if l[0].None? || r[0].None? then Schema
    else if l[0] != r[0] then Identity
    else IdentityStatus(l[1..], r[1..])
  }
}
