/** The comparison as the library runs it, over two forward cursors (parity/src/comparator.c). */
module ComparatorRun {
  import opened Wrappers
  import opened Bytes
  import opened CheckedArithmetic
  import opened TapeFormat
  import opened Projection
  import opened Comparator
  import opened TapeLoader
  import opened RecordCursor

  /** The ten identity strings a header scan yields. */
  type Identities = s: seq<Option<bytes>> | |s| == 10
    witness [None, None, None, None, None, None, None, None, None, None]

  predicate Sequenced(rs: seq<Record>) {
    forall k :: 0 <= k < |rs| ==> rs[k].sequence == k
  }

  method FindFirstByte(a: bytes, b: bytes) returns (first: nat)
    ensures first == FirstByte(a, b)
  {
    first := 0;
    while first < |a| && first < |b| && a[first] == b[first]
      invariant first <= |a| && first <= |b|
      invariant FirstByte(a, b) == first + FirstByte(a[first..], b[first..])
    {
      assert a[first..][1..] == a[first + 1..] && b[first..][1..] == b[first + 1..];
      first := first + 1;
    }
  }

  method CompareFixedFields(l: bytes, r: bytes, fields: seq<FixedField>) returns (d: Option<Difference>)
    requires |l| >= 8 && FieldsFit(fields, |l|) && FieldsFit(fields, |r|)
    ensures d == FixedFieldDiff(l, r, fields)
  {
    var i := 0;
    assert fields[0..] == fields;
    while i < |fields|
      invariant i <= |fields| && FieldsFit(fields[i..], |l|) && FieldsFit(fields[i..], |r|)
      invariant FixedFieldDiff(l, r, fields) == FixedFieldDiff(l, r, fields[i..])
    {
      var f := fields[i];
      if Slice(l, f) != Slice(r, f) {
        return Some(Base(RecordDivergence).(valueType := f.valueType, widthBits := f.widthBits, signed := f.signed,
                      oracleValue := Slice(l, f), targetValue := Slice(r, f), commandId := U32At(l, 4)));
      }
      assert fields[i..][1..] == fields[i + 1..];
      i := i + 1;
    }
    return None;
  }

  method CompareRawTail(l: bytes, r: bytes, offset: nat) returns (d: Option<Difference>)
    requires |l| >= 8 && offset <= |l| && offset <= |r|
    ensures d == TailDiff(l, r, offset)
  {
    var first := FindFirstByte(l[offset..], r[offset..]);
    if first == |l| - offset && first == |r| - offset {
      return None;
    }
    d := Some(Base(RecordDivergence).(valueType := VALUE_BYTES, widthBits := 8, elementIndex := first,
                oracleValue := ByteOr0(l, offset + first), targetValue := ByteOr0(r, offset + first),
                commandId := U32At(l, 4), operandIndex := first));
  }

  /** `compare_command`. */
  method CompareCommand(kind: u16, l: bytes, r: bytes) returns (d: Option<Difference>)
    requires kind == COMMAND_INTENT ==> |l| >= 24 && |r| >= 24
    requires kind != COMMAND_INTENT ==> |l| >= 32 && |r| >= 32
    ensures d == CommandDiff(kind, l, r)
  {
    hide FixedFieldDiff, TailDiff, UInt;
    var intent := kind == COMMAND_INTENT;
    if |l| != |r| {
      return Some(Base(RecordDivergence));
    }
    if !intent && l[2] != r[2] {
      return Some(Base(RecordDivergence).(valueType := VALUE_U8, widthBits := 8, oracleValue := [l[2]],
                    targetValue := [r[2]], commandId := U32At(l, 4)));
    }
    d := CompareFixedFields(l, r, if intent then INTENT_FIELDS else OUTCOME_FIELDS);
    if d.None? {
      d := CompareRawTail(l, r, if intent then 24 else 32);
    }
  }

  method CompareField(a: Field, b: Field) returns (d: Option<Difference>)
    requires a.id == b.id
    ensures d == FieldDiff(a, b)
  {
    hide FieldWidth, FirstByte, ElementStart, Take;
    if a.valueType != b.valueType || a.flags != b.flags || a.elements != b.elements || |a.value| != |b.value| {
      return Some(FieldBase(a));
    }
    if a.value != b.value {
      var width := FieldWidth(a.valueType, a.flags);
      var first := FindFirstByte(a.value, b.value);
      var start := ElementStart(first, width);
      return Some(FieldBase(a).(elementIndex := if width == 0 then first else first / width,
                                oracleValue := Take(a.value[start..], MAX_VALUE_BYTES),
                                targetValue := Take(b.value[start..], MAX_VALUE_BYTES)));
    }
    return None;
  }

  /** `compare_projection`, advancing one field cursor per side. */
  method CompareProjection(l: bytes, r: bytes) returns (d: Option<Difference>)
    requires 24 <= |l| < 0x1_0000_0000 && 24 <= |r| < 0x1_0000_0000
    ensures d == ProjectionDiff(l, r)
  {
    hide NextField, FieldDiff, UInt;
    if l[..24] != r[..24] {
      return Some(Base(RecordDivergence));
    }
    var la: nat, ra: nat := 24, 24;
    var ln: nat, rn: nat := U32At(l, 4), U32At(r, 4);
    while ln != 0 || rn != 0
      invariant la <= |l| && ra <= |r|
      invariant ProjectionDiff(l, r) == FieldsDiff(l, r, la, ra, ln, rn)
      decreases ln + rn
    {
      var a, b := NextField(l, la, ln), NextField(r, ra, rn);
      if a.None? || b.None? || a.value.0.id != b.value.0.id {
        return Some(Base(FieldPresence).(fieldId :=
                      if a.Some? then a.value.0.id else if b.Some? then b.value.0.id else 0));
      }
      d := CompareField(a.value.0, b.value.0);
      if d.Some? {
        return;
      }
      la, ra, ln, rn := a.value.1, b.value.1, ln - 1, rn - 1;
    }
    return None;
  }

  method CompareRecord(l: Record, r: Record) returns (d: Option<Difference>)
    requires Readable(l) && Readable(r)
    ensures d == RecordDiff(l, r)
  {
    hide ProjectionDiff, CommandDiff;
    if l.kind != r.kind || l.version != r.version || l.step != r.step || l.tick != r.tick {
      d := Some(Base(RecordDivergence));
    } else if l.kind == AUTHORITATIVE_PROJECTION {
      d := CompareProjection(l.payload, r.payload);
    } else if IsCommand(l.kind) {
      d := CompareCommand(l.kind, l.payload, r.payload);
    } else if l.payload != r.payload {
      d := Some(Base(RecordDivergence));
    } else {
      d := None;
    }
  }

  /** `add_context`: two more walks over the tapes, for what surrounds the difference. */
  method AddContext(oracle: LoadedTape, target: LoadedTape, d: Difference, i: nat, j: nat, diag: bool,
                    record: Record, ghost a: seq<Record>, ghost b: seq<Record>)
      returns (result: CompareResult)
    requires Holds(oracle, a) && Holds(target, b) && AllReadable(a) && Sequenced(a) && Sequenced(b)
    requires i <= |a| && j <= |b| && (i < |a| || j < |b|)
    requires record == if i < |a| then a[i] else b[j]
    ensures result == Report(a, b, Differs(d, i, j, diag))
  {
    hide Holds, Readable, Cursor.Valid, Cursor.Remaining;
    var targetSequence := NO_SEQUENCE;
    var targets := new Cursor(target, b);
    var current := targets.Next();
    while current.Some? && current.value.sequence != j
      invariant targets.Valid() && targets.all == b && fresh(targets)
      invariant targets.index <= |b|
      invariant current.Some? ==> 0 < targets.index && current.value == b[targets.index - 1] && targets.index - 1 <= j
      invariant current.None? ==> targets.index == |b| && j == |b|
      decreases |b| - targets.index, current.Some?
    {
      current := targets.Next();
    }
    if current.Some? {
      targetSequence := current.value.sequence;
    }
    var intent, test, exec, checkpoint := NO_SEQUENCE, NO_SEQUENCE, NO_SEQUENCE, NO_SEQUENCE;
    var oracles := new Cursor(oracle, a);
    current := oracles.Next();
    ghost var k := 0;
    while current.Some? && current.value.sequence < i
      invariant oracles.Valid() && oracles.all == a && fresh(oracles)
      invariant k <= i && k <= |a|
      invariant current == if k < |a| then Some(a[k]) else None
      invariant oracles.index == if k < |a| then k + 1 else |a|
      invariant intent == LastOf(a, COMMAND_INTENT, k) && test == LastOf(a, COMMAND_TEST_RESULT, k)
      invariant exec == LastOf(a, COMMAND_EXEC_RESULT, k) && checkpoint == LastOf(a, NAMED_CHECKPOINT, k)
      decreases |a| - k
    {
      var r := current.value;
      if r.kind == COMMAND_INTENT {
        intent := r.sequence;
      } else if r.kind == COMMAND_TEST_RESULT {
        test := r.sequence;
      } else if r.kind == COMMAND_EXEC_RESULT {
        exec := r.sequence;
      } else if r.kind == NAMED_CHECKPOINT {
        checkpoint := r.sequence;
      }
      current := oracles.Next();
      k := k + 1;
    }
    var boundaryKind, boundaryOrdinal: u64 := 0, 0;
    if current.Some? && current.value.sequence == i && current.value.kind == AUTHORITATIVE_PROJECTION {
      ProjectionReadable(a, i);
      boundaryKind := current.value.payload[2];
      boundaryOrdinal := U64At(current.value.payload, 8);
    }
    result := CompareResult(d, record.sequence, record.step, record.tick, record.kind, targetSequence,
                            boundaryKind, boundaryOrdinal, intent, test, exec, checkpoint, diag);
  }

  lemma ProjectionReadable(rs: seq<Record>, i: nat)
    requires AllReadable(rs) && i < |rs| && rs[i].kind == AUTHORITATIVE_PROJECTION
    ensures |rs[i].payload| >= 24
  {
    assert Readable(rs[i]);
  }

  /** The identity check, one named string at a time. */
  method CheckIdentity(l: Identities, r: Identities) returns (status: Status)
    ensures status == IdentityStatus(l, r)
  {
    var k := 0;
    assert l[0..] == l && r[0..] == r;
    while k < 10
      invariant k <= 10
      invariant IdentityStatus(l, r) == IdentityStatus(l[k..], r[k..])
    {
      if l[k].None? || r[k].None? {
        return Schema;
      }
      if l[k] != r[k] {
        return Identity;
      }
      assert l[k..][1..] == l[k + 1..] && r[k..][1..] == r[k + 1..];
      k := k + 1;
    }
    return OK;
  }

  /** The inner loop of the comparison: optional diagnostics on either side are stepped over, noting
      whether they differ. */
  method SkipDiagnostics(oracles: Cursor, targets: Cursor, l: Option<Record>, r: Option<Record>, noted: bool,
                         ghost i0: nat, ghost j0: nat)
      returns (left: Option<Record>, right: Option<Record>, diag: bool, ghost i: nat, ghost j: nat)
    requires oracles.Valid() && targets.Valid() && oracles != targets
    requires AllReadable(oracles.all) && AllReadable(targets.all)
    requires At(oracles.all, i0, l, oracles.index) && At(targets.all, j0, r, targets.index)
    modifies oracles, targets
    ensures oracles.Valid() && targets.Valid()
    ensures At(oracles.all, i, left, oracles.index) && At(targets.all, j, right, targets.index)
    ensures i0 <= i && j0 <= j && !IgnorableAt(oracles.all, i) && !IgnorableAt(targets.all, j)
    ensures CompareFrom(oracles.all, targets.all, i0, j0, noted) == CompareFrom(oracles.all, targets.all, i, j, diag)
  {
    hide Cursor.Valid, Cursor.Remaining, CompareFrom, DiagnosticsDiffer, Readable;
    left, right, diag, i, j := l, r, noted, i0, j0;
    ghost var a, b := oracles.all, targets.all;
    while (left.Some? && Ignorable(left.value)) || (right.Some? && Ignorable(right.value))
      invariant oracles.Valid() && targets.Valid()
      invariant At(a, i, left, oracles.index) && At(b, j, right, targets.index)
      invariant i0 <= i && j0 <= j
      invariant CompareFrom(a, b, i0, j0, noted) == CompareFrom(a, b, i, j, diag)
      decreases |a| - i + |b| - j
    {
      CompareSkips(a, b, i, j, diag);
      if left.None? || right.None? || !Ignorable(left.value) || !Ignorable(right.value)
        || left.value.kind != right.value.kind || left.value.payload != right.value.payload {
        diag := true;
      }
      var skipLeft := left.Some? && Ignorable(left.value);
      var skipRight := right.Some? && Ignorable(right.value);
      if skipLeft {
        left := oracles.Next();
        i := i + 1;
      }
      if skipRight {
        right := targets.Next();
        j := j + 1;
      }
    }
  }

  /** `otrl_compare`: identity first, then one forward pass over both tapes. */
  method Compare(identity: bytes -> Identities, oracle: LoadedTape, target: LoadedTape,
                 ghost a: seq<Record>, ghost b: seq<Record>)
      returns (status: Status, result: Option<CompareResult>)
    requires Holds(oracle, a) && Holds(target, b)
    requires AllReadable(a) && AllReadable(b) && Sequenced(a) && Sequenced(b)
    ensures var named := IdentityStatus(identity(oracle.header), identity(target.header));
      if named != OK then status == named && result.None?
      else
        && result == Some(CompareRecords(a, b))
        && status == if CompareFrom(a, b, 0, 0, false).Same? then OK else Divergence
  {
    hide RecordDiff, Report, Holds, IdentityStatus, CompareFrom, Cursor.Valid, Cursor.Remaining;
    hide AllReadable, Sequenced, Ignorable, Readable;
    status := CheckIdentity(identity(oracle.header), identity(target.header));
    if status != OK {
      return status, None;
    }
    HeldCount(oracle, a);
    HeldCount(target, b);
    var oracles := new Cursor(oracle, a);
    var targets := new Cursor(target, b);
    var left := oracles.Next();
    var right := targets.Next();
    var diag := false;
    ghost var i: nat, j: nat := 0, 0;
    while left.Some? || right.Some?
      invariant oracles.Valid() && oracles.all == a && fresh(oracles)
      invariant targets.Valid() && targets.all == b && fresh(targets) && targets != oracles
      invariant At(a, i, left, oracles.index) && At(b, j, right, targets.index)
      invariant CompareFrom(a, b, 0, 0, false) == CompareFrom(a, b, i, j, diag)
      decreases |a| - i + |b| - j
    {
      left, right, diag, i, j := SkipDiagnostics(oracles, targets, left, right, diag, i, j);
      CompareStops(a, b, i, j, diag);
      AtFacts(a, i, left);
      AtFacts(b, j, right);
      var iAt := if left.None? then oracle.recordCount else left.value.sequence;
      var jAt := if right.None? then target.recordCount else right.value.sequence;
      if left.None? && right.None? {
        break;
      }
      var difference := Some(Base(EndOfStream));
      if left.Some? && right.Some? {
        difference := CompareRecord(left.value, right.value);
      }
      if difference.Some? {
        var d := AddContext(oracle, target, difference.value, iAt, jAt, diag,
                            if left.Some? then left.value else right.value, a, b);
        return Divergence, Some(d);
      }
      left := oracles.Next();
      right := targets.Next();
      i, j := i + 1, j + 1;
    }
    CompareStops(a, b, i, j, diag);
    ReportSame(a, b, diag);
    result := Some(CompareResult(Base(NoDivergence), NO_SEQUENCE, 0, 0, 0, NO_SEQUENCE, 0, 0,
                                 NO_SEQUENCE, NO_SEQUENCE, NO_SEQUENCE, NO_SEQUENCE, diag));
    status := OK;
  }

  lemma ReportSame(a: seq<Record>, b: seq<Record>, diag: bool)
    requires AllReadable(a)
    ensures Report(a, b, Same(diag))
         == CompareResult(Base(NoDivergence), NO_SEQUENCE, 0, 0, 0, NO_SEQUENCE, 0, 0,
                          NO_SEQUENCE, NO_SEQUENCE, NO_SEQUENCE, NO_SEQUENCE, diag)
  {
  }

  lemma CompareSkips(a: seq<Record>, b: seq<Record>, i: nat, j: nat, diag: bool)
    requires i <= |a| && j <= |b| && AllReadable(a) && AllReadable(b)
    requires IgnorableAt(a, i) || IgnorableAt(b, j)
    ensures CompareFrom(a, b, i, j, diag)
         == CompareFrom(a, b, if IgnorableAt(a, i) then i + 1 else i, if IgnorableAt(b, j) then j + 1 else j,
                        diag || DiagnosticsDiffer(a, b, i, j))
    ensures DiagnosticsDiffer(a, b, i, j) <==>
      || i >= |a| || j >= |b| || !Ignorable(a[i]) || !Ignorable(b[j])
      || a[i].kind != b[j].kind || a[i].payload != b[j].payload
  {
  }

  lemma CompareStops(a: seq<Record>, b: seq<Record>, i: nat, j: nat, diag: bool)
    requires i <= |a| && j <= |b| && AllReadable(a) && AllReadable(b)
    requires !IgnorableAt(a, i) && !IgnorableAt(b, j)
    ensures CompareFrom(a, b, i, j, diag) ==
      if i == |a| && j == |b| then Same(diag)
      else if i == |a| || j == |b| then Differs(Base(EndOfStream), i, j, diag)
      else if RecordDiff(a[i], b[j]).Some? then Differs(RecordDiff(a[i], b[j]).value, i, j, diag)
      else CompareFrom(a, b, i + 1, j + 1, diag)
  {
    hide RecordDiff;
  }

  /** The cursor has handed out the record at `i`, or has run out. */
  ghost predicate At(rs: seq<Record>, i: nat, current: Option<Record>, index: nat) {
    && i <= |rs|
    && current == (if i < |rs| then Some(rs[i]) else None)
    && index == (if i < |rs| then i + 1 else |rs|)
  }

  lemma AtFacts(rs: seq<Record>, i: nat, current: Option<Record>)
    requires AllReadable(rs) && Sequenced(rs) && i <= |rs|
    requires current == if i < |rs| then Some(rs[i]) else None
    ensures current.Some? ==> Readable(current.value) && current.value.sequence == i
  {
  }

  lemma HeldCount(lt: LoadedTape, rs: seq<Record>)
    requires Holds(lt, rs)
    ensures lt.recordCount == |rs|
  {
  }
}
