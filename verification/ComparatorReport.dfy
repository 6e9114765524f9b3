/** What a comparison result says, field by field, for two valid tapes that differ. */
module ComparatorReport {
  import opened Wrappers
  import opened Bytes
  import opened TapeFormat
  import opened FieldRegistry
  import opened LifeCycle
  import opened TapeReader
  import opened Projection
  import opened Comparator
  import opened ComparatorExactness
  import opened ProjectionRules

  // ---- Where: the records around the difference ----

  const ALL_ONES := 0xFFFF_FFFF_FFFF_FFFF

  /** `n` is the last position before `x` of a record of this type, or all ones when there is none. */
  predicate IsLast(rs: seq<Record>, kind: nat, x: nat, n: nat)
    requires x <= |rs|
  {
    if n == ALL_ONES then forall k :: 0 <= k < x ==> rs[k].kind != kind
    else n < x && rs[n].kind == kind && forall k :: n < k < x ==> rs[k].kind != kind
  }

  lemma {:induction false} LastOfExact(rs: seq<Record>, kind: u16, x: nat)
    requires x <= |rs| < ALL_ONES && forall k :: 0 <= k < |rs| ==> rs[k].sequence == k
    ensures IsLast(rs, kind, x, LastOf(rs, kind, x))
  {
    if x > 0 && rs[x - 1].kind != kind {
      LastOfExact(rs, kind, x - 1);
    }
  }

  /** An optional diagnostic: types 7 to 10 without the required flag. */
  predicate OptionalDiagnostic(r: Record) {
    7 <= r.kind <= 10 && r.flags % 2 == 0
  }

  predicate Matched(p: Record, q: Record) {
    && (OptionalDiagnostic(p) <==> OptionalDiagnostic(q))
    && (OptionalDiagnostic(p) ==> p.kind == q.kind && p.payload == q.payload)
  }

  /** From `i` and `j` up to `x` and `y` the tapes have the same optional diagnostics at the same places. */
  ghost predicate InStep(a: seq<Record>, b: seq<Record>, i: nat, j: nat, x: nat, y: nat)
    requires i <= x <= |a| && j <= y <= |b|
  {
    var (p, q) := (a[i..x], b[j..y]);
    |p| == |q| && forall k :: 0 <= k < |p| ==> Matched(p[k], q[k])
  }

  /** How far the comparison went. */
  function Reached(a: seq<Record>, b: seq<Record>, o: Outcome): (nat, nat) {
    if o.Same? then (|a|, |b|) else (o.i, o.j)
  }

  lemma InStepNext(a: seq<Record>, b: seq<Record>, i: nat, j: nat, x: nat, y: nat)
    requires i < x <= |a| && j <= y <= |b|
    ensures InStep(a, b, i, j, x, y) <==>
      j < y && Matched(a[i], b[j]) && InStep(a, b, i + 1, j + 1, x, y)
  {
    hide Matched;
    assert a[i..x] == [a[i]] + a[i + 1..x];
    if j < y {
      assert b[j..y] == [b[j]] + b[j + 1..y];
      var (p, q) := (a[i..x], b[j..y]);
      assert forall k :: 1 <= k < |p| ==> p[k] == a[i + 1..x][k - 1];
      assert forall k :: 1 <= k < |q| ==> q[k] == b[j + 1..y][k - 1];
      if InStep(a, b, i, j, x, y) {
        var (later, after) := (a[i + 1..x], b[j + 1..y]);
        forall k | 0 <= k < |later| ensures Matched(later[k], after[k]) {
          assert Matched(p[k + 1], q[k + 1]);
        }
      }
    }
  }

  /** The note on diagnostics is made exactly when they are not in step. */
  lemma {:induction false} DiagnosticsNoted(a: seq<Record>, b: seq<Record>, i: nat, j: nat, diag: bool)
    requires i <= |a| && j <= |b| && AllReadable(a) && AllReadable(b)
    ensures var o := CompareFrom(a, b, i, j, diag);
      var (x, y) := Reached(a, b, o);
      i <= x <= |a| && j <= y <= |b| && (o.diagnosticsDiffer <==> diag || !InStep(a, b, i, j, x, y))
    decreases |a| - i + |b| - j
  {
    hide RecordDiff, InStep, Readable;
    var o := CompareFrom(a, b, i, j, diag);
    var (x, y) := Reached(a, b, o);
    if IgnorableAt(a, i) || IgnorableAt(b, j) {
      DiagnosticsNoted(a, b, if IgnorableAt(a, i) then i + 1 else i, if IgnorableAt(b, j) then j + 1 else j,
                       diag || DiagnosticsDiffer(a, b, i, j));
      if IgnorableAt(a, i) {
        InStepNext(a, b, i, j, x, y);
      } else {
        OnlyRight(a, b, i, j, x, y);
      }
    } else if i < |a| && j < |b| && RecordDiff(a[i], b[j]).None? {
      DiagnosticsNoted(a, b, i + 1, j + 1, diag);
      InStepNext(a, b, i, j, x, y);
    } else {
      Nothing(a, b, i, j);
    }
  }

  lemma OnlyRight(a: seq<Record>, b: seq<Record>, i: nat, j: nat, x: nat, y: nat)
    requires i <= x <= |a| && j < y <= |b| && !IgnorableAt(a, i) && IgnorableAt(b, j)
    ensures !InStep(a, b, i, j, x, y)
  {
    if i < x {
      InStepNext(a, b, i, j, x, y);
    }
  }

  lemma Nothing(a: seq<Record>, b: seq<Record>, i: nat, j: nat)
    requires i <= |a| && j <= |b|
    ensures InStep(a, b, i, j, i, j)
  {
  }

  /** The result for two valid tapes that differ at positions `x` of the oracle and `y` of the target: both positions, the
      oracle's boundary, the last commands and checkpoint before it, and whether diagnostics differed on the way. */
  lemma ReportedContext(ctx: Context, s: Tape, t: Tape)
    requires ctx.Valid() && ValidTape(ctx, s) && ValidTape(ctx, t)
    ensures AllReadable(s.records) && AllReadable(t.records)
    ensures var (a, b) := (s.records, t.records);
      var (o, r) := (CompareFrom(a, b, 0, 0, false), CompareRecords(a, b));
      match o
      case Same(_) =>
        && r.difference.kind == NoDivergence && r.recordSequence == r.targetSequence == ALL_ONES
        && (r.diagnosticsDiffer <==> !InStep(a, b, 0, 0, |a|, |b|))
      case Differs(d, x, y, _) =>
        && x < |a| && y < |b| && r.difference == d
        && r.recordSequence == x && r.targetSequence == y
        && r.recordType == a[x].kind && r.step == a[x].step && r.tick == a[x].tick
        && (if a[x].kind == 5 then
              |a[x].payload| >= 24 && r.boundaryKind == a[x].payload[2] && r.boundaryOrdinal == U64At(a[x].payload, 8)
            else r.boundaryKind == r.boundaryOrdinal == 0)
        && IsLast(a, 2, x, r.lastIntent) && IsLast(a, 3, x, r.lastTest) && IsLast(a, 4, x, r.lastExec)
        && IsLast(a, 6, x, r.previousCheckpoint)
        && (r.diagnosticsDiffer <==> !InStep(a, b, 0, 0, x, y))
  {
    hide CompareFrom, ValidTape, RecordOk, IsLast, LastOf, InStep;
    ComparisonExact(ctx, s, t);
    ValidSound(ctx, s);
    ValidSound(ctx, t);
    var (a, b) := (s.records, t.records);
    DiagnosticsNoted(a, b, 0, 0, false);
    FewRecords(ctx, s);
    var o := CompareFrom(a, b, 0, 0, false);
    if o.Differs? {
      LastOfExact(a, 2, o.i);
      LastOfExact(a, 3, o.i);
      LastOfExact(a, 4, o.i);
      LastOfExact(a, 6, o.i);
      assert Readable(a[o.i]);
    }
  }

  lemma FewRecords(ctx: Context, t: Tape)
    requires ctx.Valid() && ValidTape(ctx, t)
    ensures |t.records| < ALL_ONES
  {
  }

  // ---- What: the difference between two commands ----

  /** The payloads agree up to byte `n` and not there. */
  ghost predicate FirstAt(l: bytes, r: bytes, n: nat) {
    n < |l| && n < |r| && l[..n] == r[..n] && l[n] != r[n]
  }

  /** Only the fact that the records differ. */
  predicate Bare(d: Difference) {
    && d.kind == RecordDivergence && d.fieldId == 0 && d.valueType == 0 && d.widthBits == 0 && !d.signed
    && d.elementIndex == 0 && d.oracleValue == [] && d.targetValue == [] && d.commandId == 0 && d.operandIndex == 0
  }

  /** A fixed command field of the given type, from byte `from` to byte `to`. */
  predicate FixedReported(d: Difference, l: bytes, r: bytes, valueType: nat, from: nat, to: nat)
    requires |l| == |r| >= 8 && from <= to <= |l|
  {
    && d.kind == RecordDivergence && d.fieldId == 0 && d.valueType == valueType && d.widthBits == 8 * (to - from)
    && (d.signed <==> valueType == 8) && d.elementIndex == 0 && d.operandIndex == 0
    && d.oracleValue == l[from..to] && d.targetValue == r[from..to] && d.commandId == U32At(l, 4)
  }

  /** One byte of the data after the fixed fields, which end at `from`. */
  predicate DataReported(d: Difference, l: bytes, r: bytes, from: nat, n: nat)
    requires |l| == |r| >= 8 && from <= n < |l|
  {
    && d.kind == RecordDivergence && d.fieldId == 0 && d.valueType == 9 && d.widthBits == 8 && !d.signed
    && d.elementIndex == d.operandIndex == n - from
    && d.oracleValue == [l[n]] && d.targetValue == [r[n]] && d.commandId == U32At(l, 4)
  }

  lemma SliceAgrees(l: bytes, r: bytes, n: nat, from: nat, to: nat)
    requires FirstAt(l, r, n) && from <= to <= |l| == |r|
    ensures to <= n ==> l[from..to] == r[from..to]
    ensures from <= n < to ==> l[from..to] != r[from..to]
  {
    if to <= n {
      assert l[from..to] == l[..n][from..to] && r[from..to] == r[..n][from..to];
    } else if from <= n {
      assert l[from..to][n - from] == l[n] && r[from..to][n - from] == r[n];
    }
  }

  lemma {:induction false} FirstField(l: bytes, r: bytes, fields: seq<FixedField>, k: nat)
    requires |l| >= 8 && FieldsFit(fields, |l|) && FieldsFit(fields, |r|) && k <= |fields|
    requires forall j :: 0 <= j < k ==> Slice(l, fields[j]) == Slice(r, fields[j])
    requires k < |fields| ==> Slice(l, fields[k]) != Slice(r, fields[k])
    ensures FixedFieldDiff(l, r, fields) ==
      if k == |fields| then None
      else
        Some(Base(RecordDivergence).(valueType := fields[k].valueType, widthBits := fields[k].widthBits,
               signed := fields[k].signed, oracleValue := Slice(l, fields[k]), targetValue := Slice(r, fields[k]),
               commandId := U32At(l, 4)))
  {
    if k > 0 {
      assert forall j :: 0 <= j < k - 1 ==> fields[1..][j] == fields[j + 1];
      FirstField(l, r, fields[1..], k - 1);
    }
  }

  lemma TailReported(l: bytes, r: bytes, from: nat, n: nat)
    requires |l| == |r| >= 8 && FirstAt(l, r, n) && from <= n
    ensures TailDiff(l, r, from).Some? && DataReported(TailDiff(l, r, from).value, l, r, from, n)
  {
    FirstByteAt(l[from..], r[from..], n - from);
    SliceAgrees(l, r, n, from, n);
    assert l[from..][..n - from] == l[from..n] && r[from..][..n - from] == r[from..n];
  }

  lemma {:induction false} FirstByteAt(a: bytes, b: bytes, n: nat)
    requires n < |a| && n < |b| && a[n] != b[n] && a[..n] == b[..n]
    ensures FirstByte(a, b) == n
  {
    var m := FirstByte(a, b);
    var (p, q) := (a[..n], b[..n]);
    assert forall k :: 0 <= k < n ==> p[k] == a[k] && q[k] == b[k];
  }

  /** Bytes that hold the same number on both sides are not the first to differ. */
  lemma FixedBytes(l: bytes, r: bytes, n: nat, from: nat, to: nat)
    requires |l| == |r| && FirstAt(l, r, n) && from <= to <= |l|
    requires UInt(l[from..to]) == UInt(r[from..to])
    ensures !(from <= n < to)
  {
    LoadInjective(l[from..to], r[from..to]);
    SliceAgrees(l, r, n, from, to);
  }

  lemma IntentFixed(l: bytes, r: bytes, n: nat)
    requires IntentStatus(l) == OK && IntentStatus(r) == OK && |l| == |r| && FirstAt(l, r, n)
    ensures 4 <= n < 20 || 24 <= n
  {
    hide UInt, FirstAt;
    FixedBytes(l, r, n, 0, 2);
    FixedBytes(l, r, n, 2, 4);
    FixedBytes(l, r, n, 20, 24);
  }

  /** Row `j` of the intent table, and whether the field is before, at or after byte `n`. */
  lemma IntentRow(l: bytes, r: bytes, n: nat, j: nat)
    requires |l| == |r| >= 24 && FirstAt(l, r, n) && j < 4
    ensures INTENT_FIELDS[j] == FixedField(4 * j + 4, 3, 32, false)
    ensures 4 * j + 8 <= n ==> Slice(l, INTENT_FIELDS[j]) == Slice(r, INTENT_FIELDS[j])
    ensures 4 * j + 4 <= n < 4 * j + 8 ==> Slice(l, INTENT_FIELDS[j]) != Slice(r, INTENT_FIELDS[j])
  {
    SliceAgrees(l, r, n, 4 * j + 4, 4 * j + 8);
  }

  lemma IntentField(l: bytes, r: bytes, n: nat)
    requires |l| == |r| >= 24 && FirstAt(l, r, n) && n >= 4
    ensures var d := FixedFieldDiff(l, r, INTENT_FIELDS);
      if n < 20 then d.Some? && FixedReported(d.value, l, r, 3, n / 4 * 4, n / 4 * 4 + 4) else d.None?
  {
    var k := if n < 20 then n / 4 - 1 else 4;
    forall j: nat | j < 4
      ensures INTENT_FIELDS[j] == FixedField(4 * j + 4, 3, 32, false)
      ensures j < k ==> Slice(l, INTENT_FIELDS[j]) == Slice(r, INTENT_FIELDS[j])
      ensures j == k ==> Slice(l, INTENT_FIELDS[j]) != Slice(r, INTENT_FIELDS[j])
    {
      IntentRow(l, r, n, j);
    }
    hide FirstAt, FixedFieldDiff;
    FirstField(l, r, INTENT_FIELDS, k);
  }

  /** Two valid intents that differ: a bare difference when their lengths do, and otherwise the first byte that
      differs, in its 32-bit field or in the native payload. */
  lemma IntentReported(l: bytes, r: bytes, n: nat)
    requires IntentStatus(l) == OK && IntentStatus(r) == OK && (|l| == |r| ==> FirstAt(l, r, n)) && l != r
    ensures |l| >= 24 && |r| >= 24 && CommandDiff(2, l, r).Some?
    ensures var d := CommandDiff(2, l, r).value;
      if |l| != |r| then Bare(d)
      else if n < 24 then 4 <= n < 20 && FixedReported(d, l, r, 3, n / 4 * 4, n / 4 * 4 + 4)
      else DataReported(d, l, r, 24, n)
  {
    hide UInt, FirstAt, FixedFieldDiff, TailDiff, FixedReported, DataReported;
    if |l| == |r| {
      IntentFixed(l, r, n);
      IntentField(l, r, n);
      if n >= 24 {
        TailReported(l, r, 24, n);
      }
    }
  }

  lemma OutcomeFixed(l: bytes, r: bytes, n: nat)
    requires |l| >= 32 && OutcomeStatus(l, U32At(l, 4)) == OK && |r| >= 32 && OutcomeStatus(r, U32At(r, 4)) == OK
    requires |l| == |r| && FirstAt(l, r, n)
    ensures n == 2 || n >= 4
    ensures n == 2 <==> l[2] != r[2]
  {
    hide UInt;
    FixedBytes(l, r, n, 0, 2);
    assert n > 2 ==> l[..n][2] == r[..n][2];
  }

  /** Where field `j` of a result begins. */
  function OutcomeFrom(j: nat): nat {
    if j == 0 then 4 else 4 * j + if j == 1 then 4 else 8
  }

  /** The table of result fields: 32 bits each, but for the 64-bit cost. */
  predicate OutcomeTable(fields: seq<FixedField>) {
    |fields| == 6 && forall j :: 0 <= j < 6 ==>
      fields[j] == FixedField(OutcomeFrom(j), if j == 1 then 8 else 3, if j == 1 then 64 else 32, j == 1)
  }

  lemma OutcomeFields()
    ensures OutcomeTable(OUTCOME_FIELDS)
  {
  }

  lemma OutcomeFits(fields: seq<FixedField>, n: nat)
    requires n >= 32 && OutcomeTable(fields)
    ensures FieldsFit(fields, n)
  {
    forall f | f in fields ensures f.offset + f.widthBits / 8 <= n {
      var j :| 0 <= j < 6 && fields[j] == f;
    }
  }

  lemma OutcomeSlice(p: bytes, fields: seq<FixedField>, j: nat)
    requires |p| >= 32 && OutcomeTable(fields) && j < 6
    ensures OutcomeFrom(j) < OutcomeFrom(j + 1) <= 32
    ensures fields[j].offset + fields[j].widthBits / 8 <= |p| && Slice(p, fields[j]) == p[OutcomeFrom(j)..OutcomeFrom(j + 1)]
    ensures fields[j].widthBits == 8 * (OutcomeFrom(j + 1) - OutcomeFrom(j))
    ensures fields[j].valueType == (if j == 1 then 8 else 3) && (fields[j].signed <==> j == 1)
  {
  }

  lemma OutcomeFieldAt(l: bytes, r: bytes, n: nat, fields: seq<FixedField>, k: nat)
    requires |l| == |r| >= 32 && FirstAt(l, r, n) && k <= 6 && OutcomeTable(fields)
    requires OutcomeFrom(k) <= n && (k < 6 ==> n < OutcomeFrom(k + 1))
    ensures FieldsFit(fields, |l|)
    ensures var d := FixedFieldDiff(l, r, fields);
      if k < 6 then d.Some? && FixedReported(d.value, l, r, if k == 1 then 8 else 3, OutcomeFrom(k), OutcomeFrom(k + 1))
      else d.None?
  {
    OutcomeFits(fields, |l|);
    assert |fields| == 6;
    forall j: nat | j < 6 && j <= k
      ensures fields[j].offset + fields[j].widthBits / 8 <= |l|
      ensures j < k ==> Slice(l, fields[j]) == Slice(r, fields[j])
      ensures j == k ==> Slice(l, fields[j]) != Slice(r, fields[j])
    {
      OutcomeSlice(l, fields, j);
      OutcomeSlice(r, fields, j);
      assert j < k ==> OutcomeFrom(j + 1) <= OutcomeFrom(k);
      SliceAgrees(l, r, n, OutcomeFrom(j), OutcomeFrom(j + 1));
    }
    if k < 6 {
      OutcomeSlice(l, fields, k);
      OutcomeSlice(r, fields, k);
    }
    hide FirstAt, FixedFieldDiff, OutcomeTable, OutcomeFrom, FieldsFit, Slice;
    FirstField(l, r, fields, k);
  }

  lemma OutcomeField(l: bytes, r: bytes, n: nat)
    requires |l| == |r| >= 32 && FirstAt(l, r, n) && n >= 4
    ensures var d := FixedFieldDiff(l, r, OUTCOME_FIELDS);
      if 8 <= n < 16 then d.Some? && FixedReported(d.value, l, r, 8, 8, 16)
      else if n < 32 then d.Some? && FixedReported(d.value, l, r, 3, n / 4 * 4, n / 4 * 4 + 4)
      else d.None?
  {
    hide FirstAt, FixedFieldDiff, FixedReported, OutcomeTable;
    OutcomeFields();
    OutcomeFieldAt(l, r, n, OUTCOME_FIELDS, if n < 8 then 0 else if n < 16 then 1 else if n < 32 then n / 4 - 2 else 6);
  }

  /** Two valid results that differ: a bare difference when their lengths do, and otherwise the first byte that differs, in
      the success byte, in its 32-bit or 64-bit field, or in the result data. */
  lemma OutcomeReported(kind: u16, l: bytes, r: bytes, n: nat)
    requires kind == 3 || kind == 4
    requires |l| >= 32 && OutcomeStatus(l, U32At(l, 4)) == OK && |r| >= 32 && OutcomeStatus(r, U32At(r, 4)) == OK
    requires (|l| == |r| ==> FirstAt(l, r, n)) && l != r
    ensures CommandDiff(kind, l, r).Some?
    ensures var d := CommandDiff(kind, l, r).value;
      if |l| != |r| then Bare(d)
      else if n == 2 then FixedReported(d, l, r, 1, 2, 3)
      else if 8 <= n < 16 then FixedReported(d, l, r, 8, 8, 16)
      else if n < 32 then 4 <= n && FixedReported(d, l, r, 3, n / 4 * 4, n / 4 * 4 + 4)
      else DataReported(d, l, r, 32, n)
  {
    hide UInt, FirstAt, FixedFieldDiff, TailDiff, DataReported, OutcomeStatus;
    if |l| == |r| {
      OutcomeFixed(l, r, n);
      if n == 2 {
        assert l[2..3] == [l[2]] && r[2..3] == [r[2]];
      } else {
        OutcomeField(l, r, n);
        hide FixedReported;
        if n >= 32 {
          TailReported(l, r, 32, n);
        }
      }
    }
  }

  // ---- What: the difference between two projections ----

  /** The bytes of one element: a whole number, or a single byte. */
  function ElementBytes(f: Field): (w: nat)
    ensures w > 0
  {
    if NumberBytes(f) > 0 then NumberBytes(f) else 1
  }

  predicate FirstElement(d: Difference, a: Field, b: Field) {
    var w := ElementBytes(a);
    var start := d.elementIndex * w;
    && start < |a.value| == |b.value| && a.value[..start] == b.value[..start]
    && Take(a.value[start..], w) != Take(b.value[start..], w)
    && d.oracleValue == Take(a.value[start..], 16) && d.targetValue == Take(b.value[start..], 16)
  }

  /** Fields with the same id that differ: by their headers, or at the first element that differs. */
  predicate FieldReported(d: Difference, a: Field, b: Field) {
    && d.kind == FieldValue && d.fieldId == a.id && d.valueType == a.valueType && d.widthBits == 8 * ElementBytes(a)
    && (d.signed <==> 5 <= a.valueType <= 8) && d.commandId == 0 && d.operandIndex == 0
    && (if a.flags != b.flags || a.elements != b.elements || |a.value| != |b.value| then
          d.elementIndex == 0 && d.oracleValue == [] && d.targetValue == []
        else FirstElement(d, a, b))
  }

  lemma ElementWidth(meta: FieldMeta, f: Field)
    requires FieldOk(meta, f)
    ensures FieldWidth(f.valueType, f.flags) == ElementBytes(f)
  {
  }

  lemma FieldDifference(meta: FieldMeta, a: Field, b: Field)
    requires FieldOk(meta, a) && FieldOk(meta, b) && a != b
    ensures FieldDiff(a, b).Some? && FieldReported(FieldDiff(a, b).value, a, b)
  {
    ElementWidth(meta, a);
    SameRow(meta, a, b);
    hide FieldOk, FieldWidth, ElementBytes;
    if HeaderOfField(a) == HeaderOfField(b) {
      DivergentElement(a, b);
    }
  }

  lemma SameRow(meta: FieldMeta, a: Field, b: Field)
    requires FieldOk(meta, a) && FieldOk(meta, b)
    ensures a.id == b.id && a.valueType == b.valueType
  {
  }

  /** `k` is the first field that differs. */
  predicate FirstFieldAt(ls: seq<Field>, rs: seq<Field>, k: nat) {
    k < |ls| && k < |rs| && ls[..k] == rs[..k] && ls[k] != rs[k]
  }

  lemma {:induction false} FieldsReported(l: bytes, r: bytes, la: nat, ra: nat, ls: seq<Field>, rs: seq<Field>, k: nat)
    requires la <= |l| < 0x1_0000_0000 && ra <= |r| < 0x1_0000_0000 && la % 8 == 0 && ra % 8 == 0
    requires l[la..] == EncodeFields(ls) && r[ra..] == EncodeFields(rs)
    requires |ls| == |rs| && forall j :: 0 <= j < |ls| ==> ls[j].id == rs[j].id
    requires FirstFieldAt(ls, rs, k)
    ensures FieldsDiff(l, r, la, ra, |ls|, |rs|) == FieldDiff(ls[k], rs[k])
    decreases k
  {
    hide EncodeFields, NextField, FieldSize, FieldDiff, FieldsDiff;
    NextFieldFront(l, la, ls);
    NextFieldFront(r, ra, rs);
    FieldsStep(l, r, la, ra, |ls|);
    FieldDiffExact(ls[0], rs[0]);
    if k > 0 {
      assert ls[0] == ls[..k][0] == rs[..k][0] == rs[0];
      assert ls[1..][..k - 1] == ls[..k][1..] && rs[1..][..k - 1] == rs[..k][1..];
      EightsAdd(la, FieldSize(|ls[0].value|));
      EightsAdd(ra, FieldSize(|rs[0].value|));
      FieldsReported(l, r, la + FieldSize(|ls[0].value|), ra + FieldSize(|rs[0].value|), ls[1..], rs[1..], k - 1);
    }
  }

  lemma {:induction false} FirstDiffering(ls: seq<Field>, rs: seq<Field>) returns (k: nat)
    requires |ls| == |rs| && ls != rs
    ensures FirstFieldAt(ls, rs, k)
  {
    if ls[0] != rs[0] {
      k := 0;
    } else {
      assert ls == [ls[0]] + ls[1..] && rs == [rs[0]] + rs[1..];
      var m := FirstDiffering(ls[1..], rs[1..]);
      k := m + 1;
      assert ls[..k] == [ls[0]] + ls[1..][..m] && rs[..k] == [rs[0]] + rs[1..][..m];
    }
  }

  /** Two accepted projections that differ: a bare difference when their headers do, and otherwise the first field
      that differs. */
  lemma ProjectionReported(registry: Registry, l: Payload, r: Payload) returns (k: nat)
    requires SortedById(registry) && l != r
    requires ProjectionStatus(registry, l) == OK && ProjectionStatus(registry, r) == OK
    ensures |l| >= 24 && |r| >= 24 && ProjectionDiff(l, r).Some?
    ensures var d := ProjectionDiff(l, r).value;
      var (ls, rs) := (ParsePayload(registry, l).value, ParsePayload(registry, r).value);
      if l[..24] != r[..24] then Bare(d)
      else FirstFieldAt(ls, rs, k) && FieldReported(d, ls[k], rs[k])
  {
    hide ParsePayload, AllRelationsOk, EncodeFields, FieldsDiff, FieldOk, FieldReported, UInt;
    ProjectionExact(registry, l, r);
    var ls, rs := ParsePayload(registry, l).value, ParsePayload(registry, r).value;
    AcceptedIsProjection(registry, l, ls);
    AcceptedIsProjection(registry, r, rs);
    var metas := Authoritative(registry);
    k := 0;
    if l[..24] == r[..24] {
      SameHeaderFields(l, r);
      assert l == l[..24] + l[24..] && r == r[..24] + r[24..];
      forall j | 0 <= j < |ls| ensures ls[j].id == rs[j].id {
        SameRow(metas[j], ls[j], rs[j]);
      }
      k := FirstDiffering(ls, rs);
      FieldsReported(l, r, 24, 24, ls, rs, k);
      FieldDifference(metas[k], ls[k], rs[k]);
    }
  }

  lemma SameHeaderFields(l: bytes, r: bytes)
    requires |l| >= 24 && |r| >= 24 && l[..24] == r[..24]
    ensures U32At(l, 4) == U32At(r, 4)
  {
    assert l[4..8] == l[..24][4..8] && r[4..8] == r[..24][4..8];
  }

  // ---- Identity ----

  /** The ten strings are compared in order; the first that is missing on a side or different decides. */
  lemma {:induction false} IdentityExact(l: seq<Option<bytes>>, r: seq<Option<bytes>>, k: nat)
    requires |l| == |r| && k <= |l|
    requires forall j :: 0 <= j < k ==> l[j].Some? && l[j] == r[j]
    ensures k == |l| ==> IdentityStatus(l, r) == OK
    ensures k < |l| && (l[k].None? || r[k].None?) ==> IdentityStatus(l, r) == Schema
    ensures k < |l| && l[k].Some? && r[k].Some? && l[k] != r[k] ==> IdentityStatus(l, r) == Identity
  {
    if k > 0 {
      assert forall j :: 0 <= j < k - 1 ==> l[1..][j] == l[j + 1] && r[1..][j] == r[j + 1];
      IdentityExact(l[1..], r[1..], k - 1);
    }
  }

  // ---- The whole difference ----

  /** What is reported about commands of one type that first differ at byte `n`: 3 is 32 bits unsigned, 8 is 64 bits
      signed, and a test or execution result has its success in byte 2 and its cost in bytes 8 to 15. */
  predicate CommandByte(kind: u16, l: bytes, r: bytes, n: nat, d: Difference)
    requires |l| == |r| >= (if kind == 2 then 24 else 32) && n < |l|
  {
    if kind == 2 then
      if n < 24 then 4 <= n < 20 && FixedReported(d, l, r, 3, n / 4 * 4, n / 4 * 4 + 4) else DataReported(d, l, r, 24, n)
    else if n == 2 then FixedReported(d, l, r, 1, 2, 3)
    else if 8 <= n < 16 then FixedReported(d, l, r, 8, 8, 16)
    else if n < 32 then 4 <= n && FixedReported(d, l, r, 3, n / 4 * 4, n / 4 * 4 + 4)
    else DataReported(d, l, r, 32, n)
  }

  ghost predicate CommandsReported(kind: u16, l: bytes, r: bytes, d: Difference) {
    if |l| != |r| then Bare(d)
    else |l| >= (if kind == 2 then 24 else 32) && exists n :: FirstAt(l, r, n) && CommandByte(kind, l, r, n, d)
  }

  ghost predicate ProjectionsReported(registry: Registry, l: bytes, r: bytes, d: Difference) {
    && |l| >= 24 && |r| >= 24
    && if l[..24] != r[..24] then Bare(d) else exists ls, rs, k :: FieldsReportedAt(registry, l, r, d, ls, rs, k)
  }

  ghost predicate FieldsReportedAt(registry: Registry, l: bytes, r: bytes, d: Difference, ls: seq<Field>, rs: seq<Field>, k: nat) {
    && ProjectionRule(registry, l, ls) && ProjectionRule(registry, r, rs)
    && FirstFieldAt(ls, rs, k) && FieldReported(d, ls[k], rs[k])
  }

  lemma {:induction false} FirstApart(l: bytes, r: bytes) returns (n: nat)
    requires |l| == |r| && l != r
    ensures FirstAt(l, r, n)
  {
    if l[0] != r[0] {
      n := 0;
    } else {
      assert l == [l[0]] + l[1..] && r == [r[0]] + r[1..];
      var m := FirstApart(l[1..], r[1..]);
      n := m + 1;
      assert l[..n] == [l[0]] + l[1..][..m] && r[..n] == [r[0]] + r[1..][..m];
    }
  }

  lemma CommandsExact(ctx: Context, l: Record, r: Record)
    requires RecordOk(ctx, l) && RecordOk(ctx, r) && l.kind == r.kind && 2 <= l.kind <= 4 && l.payload != r.payload
    ensures |l.payload| >= 24 && |r.payload| >= 24 && CommandDiff(l.kind, l.payload, r.payload).Some?
    ensures CommandsReported(l.kind, l.payload, r.payload, CommandDiff(l.kind, l.payload, r.payload).value)
  {
    hide CommandDiff, FirstAt, FixedReported, DataReported, UInt;
    var n: nat := 0;
    if |l.payload| == |r.payload| {
      n := FirstApart(l.payload, r.payload);
      assert n < |l.payload| by { Inside(l.payload, r.payload, n); }
    }
    if l.kind == 2 {
      IntentReported(l.payload, r.payload, n);
    } else {
      OutcomeReported(l.kind, l.payload, r.payload, n);
    }
    if |l.payload| == |r.payload| {
      assert CommandByte(l.kind, l.payload, r.payload, n, CommandDiff(l.kind, l.payload, r.payload).value);
    }
  }

  lemma Inside(l: bytes, r: bytes, n: nat)
    requires FirstAt(l, r, n)
    ensures n < |l|
  {
  }

  lemma ProjectionsExact(ctx: Context, l: Record, r: Record)
    requires ctx.Valid() && RecordOk(ctx, l) && RecordOk(ctx, r) && l.kind == r.kind == 5 && l.payload != r.payload
    ensures |l.payload| >= 24 && |r.payload| >= 24 && ProjectionDiff(l.payload, r.payload).Some?
    ensures ProjectionsReported(ctx.registry, l.payload, r.payload, ProjectionDiff(l.payload, r.payload).value)
  {
    hide ProjectionDiff, ParsePayload, ProjectionRule, FieldReported, FirstFieldAt, UInt;
    var (p, q) := (l.payload, r.payload);
    var k := ProjectionReported(ctx.registry, p, q);
    var (ls, rs) := (ParsePayload(ctx.registry, p).value, ParsePayload(ctx.registry, q).value);
    ProjectionExactly(ctx.registry, p, ls);
    ProjectionExactly(ctx.registry, q, rs);
    if p[..24] == q[..24] {
      assert FieldsReportedAt(ctx.registry, p, q, ProjectionDiff(p, q).value, ls, rs, k);
    }
  }

  /** Records of other kinds, and records of different kinds, versions or boundaries, are only reported as different. */
  lemma PlainReported(l: Record, r: Record)
    requires Readable(l) && Readable(r) && RecordDiff(l, r).Some?
    ensures if l.kind != r.kind || l.version != r.version || l.step != r.step || l.tick != r.tick || !(2 <= l.kind <= 5)
            then Bare(RecordDiff(l, r).value)
            else RecordDiff(l, r) == if l.kind == 5 then ProjectionDiff(l.payload, r.payload) else CommandDiff(l.kind, l.payload, r.payload)
  {
  }

  /** What the result for two valid tapes says about the records at which they differ: only that, when their types,
      boundaries or lengths differ or their type has no fields; otherwise the first field or byte of the command, or the
      first field of the projection, with both values. */
  lemma DifferenceReported(ctx: Context, s: Tape, t: Tape)
    requires ctx.Valid() && ValidTape(ctx, s) && ValidTape(ctx, t)
    ensures AllReadable(s.records) && AllReadable(t.records)
    ensures match CompareFrom(s.records, t.records, 0, 0, false)
      case Same(_) => CompareRecords(s.records, t.records).difference.kind == NoDivergence
      case Differs(_, x, y, _) =>
        && x < |s.records| && y < |t.records|
        && var (l, r, d) := (s.records[x], t.records[y], CompareRecords(s.records, t.records).difference);
        && if l.kind != r.kind || l.version != r.version || l.step != r.step || l.tick != r.tick || !(2 <= l.kind <= 5) then Bare(d)
           else if l.kind == 5 then ProjectionsReported(ctx.registry, l.payload, r.payload, d)
           else CommandsReported(l.kind, l.payload, r.payload, d)
  {
    hide CompareFrom, ValidTape, RecordDiff, Bare, ProjectionsReported, CommandsReported, Report;
    ReportedContext(ctx, s, t);
    ComparisonExact(ctx, s, t);
    ValidSound(ctx, s);
    ValidSound(ctx, t);
    var o := CompareFrom(s.records, t.records, 0, 0, false);
    if o.Differs? {
      OneRecord(ctx, s.records[o.i], t.records[o.j]);
    }
  }

  lemma OneRecord(ctx: Context, l: Record, r: Record)
    requires ctx.Valid() && RecordOk(ctx, l) && RecordOk(ctx, r) && Readable(l) && Readable(r) && RecordDiff(l, r).Some?
    requires Erase(l) != Erase(r) && !Ignorable(l) && !Ignorable(r)
    ensures var d := RecordDiff(l, r).value;
      if l.kind != r.kind || l.version != r.version || l.step != r.step || l.tick != r.tick || !(2 <= l.kind <= 5) then Bare(d)
      else if l.kind == 5 then ProjectionsReported(ctx.registry, l.payload, r.payload, d)
      else CommandsReported(l.kind, l.payload, r.payload, d)
  {
    PlainReported(l, r);
    hide RecordDiff, Bare, ProjectionsReported, CommandsReported, CommandDiff, ProjectionDiff;
    if l.kind == r.kind && l.version == r.version && l.step == r.step && l.tick == r.tick && 2 <= l.kind <= 5 {
      SameFlags(ctx, l, r);
      assert l.payload != r.payload;
      if l.kind == 5 {
        ProjectionsExact(ctx, l, r);
      } else {
        CommandsExact(ctx, l, r);
      }
    }
  }

  lemma SameFlags(ctx: Context, l: Record, r: Record)
    requires RecordOk(ctx, l) && RecordOk(ctx, r) && l.kind == r.kind && 2 <= l.kind <= 5
    ensures l.flags == r.flags == 1
  {
  }
}
