/** On validated tapes the comparison is complete: it misses no significant byte, reports the first
    significant difference, and two of its five outcomes cannot occur. */
module ComparatorExactness {
  import opened Wrappers
  import opened Bytes
  import opened CheckedArithmetic
  import opened TapeFormat
  import opened FieldRegistry
  import opened LifeCycle
  import opened TapeReader
  import opened Projection
  import opened Comparator

  // ---- What validation guarantees about each record on its own ----

  ghost predicate RecordOk(ctx: Context, r: Record) {
    && (KnownRecord(r.kind) ==> r.version == 1)
    && r.flags <= 1
    && (!KnownRecord(r.kind) ==> r.flags == 0)
    && (KnownRecord(r.kind) && !IsDiagnostic(r.kind) ==> r.flags == 1)
    && (r.kind == COMMAND_INTENT ==> IntentStatus(r.payload) == OK)
    && (r.kind == COMMAND_TEST_RESULT || r.kind == COMMAND_EXEC_RESULT ==>
          |r.payload| >= 32 && OutcomeStatus(r.payload, U32At(r.payload, 4)) == OK)
    && (r.kind == AUTHORITATIVE_PROJECTION ==> ProjectionStatus(ctx.registry, r.payload) == OK)
  }

  lemma StepRecordOk(ctx: Context, flags: u32, count: nat, sequence: nat, st: ReadState, r: Record)
    requires RecordStep(ctx, flags, count, sequence, st, r).Success?
    ensures RecordOk(ctx, r) && r.sequence == sequence
    ensures r.kind == TERMINAL <==> sequence + 1 == count
  {
    hide ProjectionStatus, UInt;
  }

  lemma {:induction false} RunRecordOk(ctx: Context, flags: u32, count: nat, sequence: nat, st: ReadState, rs: seq<Record>)
    requires Run(ctx, flags, count, sequence, st, rs).Success?
    ensures forall k :: 0 <= k < |rs| ==> RecordOk(ctx, rs[k]) && rs[k].sequence == sequence + k
    ensures forall k :: 0 <= k < |rs| ==> (rs[k].kind == TERMINAL <==> sequence + k + 1 == count)
    decreases |rs|
  {
    hide RecordStep, RecordOk;
    if rs != [] {
      StepRecordOk(ctx, flags, count, sequence, st, rs[0]);
      var next := RecordStep(ctx, flags, count, sequence, st, rs[0]).value;
      RunRecordOk(ctx, flags, count, sequence + 1, next, rs[1..]);
      forall k | 1 <= k < |rs| ensures RecordOk(ctx, rs[k]) && rs[k].sequence == sequence + k
        && (rs[k].kind == TERMINAL <==> sequence + k + 1 == count) {
        assert rs[k] == rs[1..][k - 1];
      }
    }
  }

  /** The records of a valid tape, each fit on its own, numbered from zero, ending in the only terminal. */
  ghost predicate Sound(ctx: Context, rs: seq<Record>) {
    && rs != []
    && (forall k :: 0 <= k < |rs| ==> RecordOk(ctx, rs[k]) && rs[k].sequence == k)
    && (forall k :: 0 <= k < |rs| ==> (rs[k].kind == TERMINAL <==> k + 1 == |rs|))
  }

  lemma ValidSound(ctx: Context, t: Tape)
    requires ValidTape(ctx, t)
    ensures Sound(ctx, t.records) && AllReadable(t.records)
  {
    hide RecordOk;
    RunRecordOk(ctx, t.flags, |t.records|, 0, START, t.records);
    forall k | 0 <= k < |t.records| ensures Readable(t.records[k]) {
      OkReadable(ctx, t.records[k]);
    }
  }

  lemma OkReadable(ctx: Context, r: Record)
    requires RecordOk(ctx, r)
    ensures Readable(r)
  {
    hide ParseFields, AllRelationsOk;
  }

  // ---- Two projections that agree ----

  lemma NextFieldFront(p: bytes, at: nat, fs: seq<Field>)
    requires at <= |p| < 0x1_0000_0000 && at % 8 == 0 && p[at..] == EncodeFields(fs)
    ensures fs == [] ==> at == |p|
    ensures fs != [] ==>
      var next := at + FieldSize(|fs[0].value|);
      next <= |p| && NextField(p, at, |fs|) == Some((fs[0], next)) && p[next..] == EncodeFields(fs[1..])
  {
    hide EncodeField, DecodeFieldHeader;
    if fs != [] {
      FieldFront(fs[0], EncodeFields(fs[1..]));
      var n := |fs[0].value|;
      EightsAdd(at, 16);
      PadShift(at + 16, n);
      hide Pad8;
      SubRange(p, at, |p|, 0, 16);
      SubRange(p, at, |p|, 16, 16 + n);
      SubRange(p, at, |p|, FieldSize(n), |p| - at);
      assert p[at..] == p[at..|p|];
      var h := DecodeFieldHeader(p[at..at + 16]);
      assert h == HeaderOfField(fs[0]);
    }
  }

  /** Over two laid-out field regions the field loop finds nothing exactly when they are equal, and it
      never finds a field on one side only when both follow the same registry. */
  lemma {:induction false} FieldsExact(l: bytes, r: bytes, la: nat, ra: nat, ls: seq<Field>, rs: seq<Field>)
    requires la <= |l| < 0x1_0000_0000 && ra <= |r| < 0x1_0000_0000
    requires la % 8 == 0 && ra % 8 == 0
    requires l[la..] == EncodeFields(ls) && r[ra..] == EncodeFields(rs)
    requires |ls| == |rs| && forall k :: 0 <= k < |ls| ==> ls[k].id == rs[k].id
    ensures FieldsDiff(l, r, la, ra, |ls|, |rs|).None? <==> ls == rs
    ensures var d := FieldsDiff(l, r, la, ra, |ls|, |rs|); d.Some? ==> d.value.kind == FieldValue
    decreases |ls|
  {
    hide EncodeFields, NextField, FieldSize, FieldDiff, FieldsDiff;
    if ls == [] {
      assert FieldsDiff(l, r, la, ra, 0, 0).None? by { NothingLeft(l, r, la, ra); }
    } else {
      NextFieldFront(l, la, ls);
      NextFieldFront(r, ra, rs);
      FieldsStep(l, r, la, ra, |ls|);
      FieldDiffExact(ls[0], rs[0]);
      if ls[0] == rs[0] {
        FieldsExact(l, r, la + FieldSize(|ls[0].value|), ra + FieldSize(|rs[0].value|), ls[1..], rs[1..]);
        assert ls == [ls[0]] + ls[1..] && rs == [rs[0]] + rs[1..];
      }
    }
  }

  lemma NothingLeft(l: bytes, r: bytes, la: nat, ra: nat)
    requires la <= |l| < 0x1_0000_0000 && ra <= |r| < 0x1_0000_0000
    ensures FieldsDiff(l, r, la, ra, 0, 0).None?
  {
  }

  lemma FieldsStep(l: bytes, r: bytes, la: nat, ra: nat, n: nat)
    requires la <= |l| < 0x1_0000_0000 && ra <= |r| < 0x1_0000_0000
    requires NextField(l, la, n).Some? && NextField(r, ra, n).Some?
    requires NextField(l, la, n).value.0.id == NextField(r, ra, n).value.0.id
    ensures var (a, b) := (NextField(l, la, n).value, NextField(r, ra, n).value);
      FieldsDiff(l, r, la, ra, n, n)
        == OrElse(FieldDiff(a.0, b.0), FieldsDiff(l, r, a.1, b.1, n - 1, n - 1))
  {
    hide NextField, FieldDiff;
  }

  lemma FieldDiffExact(a: Field, b: Field)
    requires a.id == b.id
    ensures FieldDiff(a, b).None? <==> a == b
    ensures FieldDiff(a, b).Some? ==> FieldDiff(a, b).value.kind == FieldValue
  {
  }

  lemma FirstByteDiffers(a: bytes, b: bytes)
    requires |a| == |b| && a != b
    ensures FirstByte(a, b) < |a|
  {
    assert a == a[..|a|] && b == b[..|b|];
  }

  /** The element a field-value divergence names is the first that differs: all bytes before it agree
      and its own do not. (The bytes reported with it run on to the end of the field.) */
  lemma DivergentElement(a: Field, b: Field)
    requires HeaderOfField(a) == HeaderOfField(b) && a.value != b.value
    ensures FieldDiff(a, b).Some?
    ensures var w := FieldWidth(a.valueType, a.flags);
      var d := FieldDiff(a, b).value;
      var start := d.elementIndex * (if w == 0 then 1 else w);
      && start < |a.value|
      && a.value[..start] == b.value[..start]
      && a.value[start..] != b.value[start..]
      && (w > 0 ==> Take(a.value[start..], w) != Take(b.value[start..], w))
      && d.oracleValue == Take(a.value[start..], 16) && d.targetValue == Take(b.value[start..], 16)
  {
    FirstByteDiffers(a.value, b.value);
    var first := FirstByte(a.value, b.value);
    var w := FieldWidth(a.valueType, a.flags);
    var start := ElementStart(first, w);
    assert a.value[..start] == a.value[..first][..start] && b.value[..start] == b.value[..first][..start];
    assert a.value[start..][first - start] != b.value[start..][first - start];
    if w > 0 {
      assert Take(a.value[start..], w)[first - start] == a.value[first];
      assert Take(b.value[start..], w)[first - start] == b.value[first];
    }
  }

  lemma ProjectionExact(registry: Registry, l: Payload, r: Payload)
    requires SortedById(registry)
    requires ProjectionStatus(registry, l) == OK && ProjectionStatus(registry, r) == OK
    ensures |l| >= 24 && |r| >= 24
    ensures ProjectionDiff(l, r).None? <==> l == r
    ensures ProjectionDiff(l, r).Some? ==> ProjectionDiff(l, r).value.kind != FieldPresence
  {
    hide ParsePayload, ParseFields, AllRelationsOk, EncodeFields, FieldsDiff, FieldOk;
    var ls, rs := ParsePayload(registry, l).value, ParsePayload(registry, r).value;
    AcceptedIsProjection(registry, l, ls);
    AcceptedIsProjection(registry, r, rs);
    var metas := Authoritative(registry);
    forall k | 0 <= k < |ls| ensures ls[k].id == rs[k].id {
      FieldId(metas[k], ls[k]);
      FieldId(metas[k], rs[k]);
    }
    FieldsExact(l, r, 24, 24, ls, rs);
    assert l == l[..24] + l[24..] && r == r[..24] + r[24..];
    if l[24..] == r[24..] {
      assert EncodeFields(ls) == EncodeFields(rs);
      SameFields(ls, rs);
    }
  }

  lemma {:induction false} SameFields(ls: seq<Field>, rs: seq<Field>)
    requires |ls| == |rs| && EncodeFields(ls) == EncodeFields(rs)
    ensures ls == rs
    decreases |ls|
  {
    hide EncodeField, DecodeFieldHeader;
    if ls != [] {
      FieldFront(ls[0], EncodeFields(ls[1..]));
      FieldFront(rs[0], EncodeFields(rs[1..]));
      assert ls[0] == rs[0];
      SameFields(ls[1..], rs[1..]);
      assert ls == [ls[0]] + ls[1..] && rs == [rs[0]] + rs[1..];
    }
  }

  // ---- Two command records that agree ----

  lemma TailExact(l: bytes, r: bytes, offset: nat)
    requires |l| == |r| && 8 <= |l| && offset <= |l|
    ensures TailDiff(l, r, offset).None? <==> l[offset..] == r[offset..]
  {
    if l[offset..] != r[offset..] {
      FirstByteDiffers(l[offset..], r[offset..]);
    } else {
      FirstByteSame(l[offset..]);
    }
  }

  lemma {:induction false} FirstByteSame(a: bytes)
    ensures FirstByte(a, a) == |a|
  {
    if a != [] {
      FirstByteSame(a[1..]);
    }
  }

  lemma {:induction false} FixedFieldsExact(l: bytes, r: bytes, fields: seq<FixedField>)
    requires |l| >= 8 && FieldsFit(fields, |l|) && FieldsFit(fields, |r|)
    ensures FixedFieldDiff(l, r, fields).None? <==> forall k :: 0 <= k < |fields| ==> Slice(l, fields[k]) == Slice(r, fields[k])
  {
    if fields != [] {
      FixedFieldsExact(l, r, fields[1..]);
      assert forall k :: 1 <= k < |fields| ==> fields[k] == fields[1..][k - 1];
    }
  }

  lemma LoadInjective(a: bytes, b: bytes)
    requires |a| == |b| && UInt(a) == UInt(b)
    ensures a == b
  {
    StoreLoad(a);
    StoreLoad(b);
  }

  /** Two runs that agree up to `n` and from `n` to `m` agree up to `m`. */
  lemma Extend(l: bytes, r: bytes, n: nat, m: nat)
    requires n <= m <= |l| == |r|
    requires l[..n] == r[..n] && l[n..m] == r[n..m]
    ensures l[..m] == r[..m]
  {
    assert l[..m] == l[..n] + l[n..m] && r[..m] == r[..n] + r[n..m];
  }

  lemma IntentExact(l: bytes, r: bytes)
    requires IntentStatus(l) == OK && IntentStatus(r) == OK
    ensures |l| >= 24 && |r| >= 24
    ensures CommandDiff(COMMAND_INTENT, l, r).None? <==> l == r
  {
    hide TailDiff, UInt, FixedFieldDiff;
    if |l| == |r| {
      TailExact(l, r, 24);
      FixedFieldsExact(l, r, INTENT_FIELDS);
      if CommandDiff(COMMAND_INTENT, l, r).None? {
        LoadInjective(l[0..2], r[0..2]);
        LoadInjective(l[2..4], r[2..4]);
        LoadInjective(l[20..24], r[20..24]);
        forall k | 0 <= k < 4 ensures Slice(l, INTENT_FIELDS[k]) == Slice(r, INTENT_FIELDS[k]) {}
        IntentJoins(l, r);
      }
    }
  }

  lemma IntentJoins(l: bytes, r: bytes)
    requires |l| == |r| >= 24
    requires l[0..2] == r[0..2] && l[2..4] == r[2..4] && l[20..24] == r[20..24] && l[24..] == r[24..]
    requires forall k :: 0 <= k < 4 ==> Slice(l, INTENT_FIELDS[k]) == Slice(r, INTENT_FIELDS[k])
    ensures l == r
  {
    var f := INTENT_FIELDS;
    assert Slice(l, f[0]) == l[4..8] && Slice(r, f[0]) == r[4..8];
    assert Slice(l, f[1]) == l[8..12] && Slice(r, f[1]) == r[8..12];
    assert Slice(l, f[2]) == l[12..16] && Slice(r, f[2]) == r[12..16];
    assert Slice(l, f[3]) == l[16..20] && Slice(r, f[3]) == r[16..20];
    Extend(l, r, 0, 2); Extend(l, r, 2, 4); Extend(l, r, 4, 8); Extend(l, r, 8, 12);
    Extend(l, r, 12, 16); Extend(l, r, 16, 20); Extend(l, r, 20, 24); Extend(l, r, 24, |l|);
    assert l == l[..|l|] && r == r[..|r|];
  }

  lemma OutcomeExact(kind: u16, l: bytes, r: bytes)
    requires kind == COMMAND_TEST_RESULT || kind == COMMAND_EXEC_RESULT
    requires |l| >= 32 && OutcomeStatus(l, U32At(l, 4)) == OK
    requires |r| >= 32 && OutcomeStatus(r, U32At(r, 4)) == OK
    ensures CommandDiff(kind, l, r).None? <==> l == r
  {
    hide TailDiff, UInt, FixedFieldDiff;
    if |l| == |r| {
      TailExact(l, r, 32);
      FixedFieldsExact(l, r, OUTCOME_FIELDS);
      if CommandDiff(kind, l, r).None? {
        LoadInjective(l[0..2], r[0..2]);
        forall k | 0 <= k < 6 ensures Slice(l, OUTCOME_FIELDS[k]) == Slice(r, OUTCOME_FIELDS[k]) {}
        OutcomeJoins(l, r);
      }
    }
  }

  lemma OutcomeJoins(l: bytes, r: bytes)
    requires |l| == |r| >= 32
    requires l[0..2] == r[0..2] && l[2] == r[2] && l[3] == r[3] && l[32..] == r[32..]
    requires forall k :: 0 <= k < 6 ==> Slice(l, OUTCOME_FIELDS[k]) == Slice(r, OUTCOME_FIELDS[k])
    ensures l == r
  {
    var f := OUTCOME_FIELDS;
    assert Slice(l, f[0]) == l[4..8] && Slice(r, f[0]) == r[4..8];
    assert Slice(l, f[1]) == l[8..16] && Slice(r, f[1]) == r[8..16];
    assert Slice(l, f[2]) == l[16..20] && Slice(r, f[2]) == r[16..20];
    assert Slice(l, f[3]) == l[20..24] && Slice(r, f[3]) == r[20..24];
    assert Slice(l, f[4]) == l[24..28] && Slice(r, f[4]) == r[24..28];
    assert Slice(l, f[5]) == l[28..32] && Slice(r, f[5]) == r[28..32];
    assert l[2..4] == [l[2], l[3]] == r[2..4];
    Extend(l, r, 0, 2); Extend(l, r, 2, 4); Extend(l, r, 4, 8); Extend(l, r, 8, 16);
    Extend(l, r, 16, 20); Extend(l, r, 20, 24); Extend(l, r, 24, 28); Extend(l, r, 28, 32); Extend(l, r, 32, |l|);
    assert l == l[..|l|] && r == r[..|r|];
  }

  // ---- Records ----

  /** A record without its position. */
  function Erase(r: Record): Record {
    r.(sequence := 0)
  }

  /** On validated records the comparison reports nothing exactly when type, version, step, tick and
      every payload byte agree; the flags then agree too. */
  lemma RecordExact(ctx: Context, l: Record, r: Record)
    requires ctx.Valid() && RecordOk(ctx, l) && RecordOk(ctx, r) && Readable(l) && Readable(r)
    requires !Ignorable(l) && !Ignorable(r)
    ensures RecordDiff(l, r).None? <==> Erase(l) == Erase(r)
    ensures RecordDiff(l, r).Some? ==>
      RecordDiff(l, r).value.kind == RecordDivergence || RecordDiff(l, r).value.kind == FieldValue
  {
    hide CommandDiff, ProjectionDiff, ProjectionStatus, IntentStatus, OutcomeStatus;
    if l.kind == r.kind {
      if l.kind == AUTHORITATIVE_PROJECTION {
        ProjectionExact(ctx.registry, l.payload, r.payload);
        ProjectionKind(l.payload, r.payload);
      } else if l.kind == COMMAND_INTENT {
        IntentExact(l.payload, r.payload);
        CommandKind(l.kind, l.payload, r.payload);
      } else if IsCommand(l.kind) {
        OutcomeExact(l.kind, l.payload, r.payload);
        CommandKind(l.kind, l.payload, r.payload);
      }
    }
  }

  lemma CommandKind(kind: u16, l: bytes, r: bytes)
    requires kind == COMMAND_INTENT ==> |l| >= 24 && |r| >= 24
    requires kind != COMMAND_INTENT ==> |l| >= 32 && |r| >= 32
    ensures CommandDiff(kind, l, r).Some? ==> CommandDiff(kind, l, r).value.kind == RecordDivergence
  {
    hide UInt;
    FixedKind(l, r, if kind == COMMAND_INTENT then INTENT_FIELDS else OUTCOME_FIELDS);
  }

  lemma {:induction false} FixedKind(l: bytes, r: bytes, fields: seq<FixedField>)
    requires |l| >= 8 && FieldsFit(fields, |l|) && FieldsFit(fields, |r|)
    ensures FixedFieldDiff(l, r, fields).Some? ==> FixedFieldDiff(l, r, fields).value.kind == RecordDivergence
  {
    if fields != [] {
      FixedKind(l, r, fields[1..]);
    }
  }

  lemma ProjectionKind(l: bytes, r: bytes)
    requires 24 <= |l| < 0x1_0000_0000 && 24 <= |r| < 0x1_0000_0000
    ensures var d := ProjectionDiff(l, r); d.Some? ==> d.value.kind in {RecordDivergence, FieldPresence, FieldValue}
  {
    hide NextField;
    FieldsKind(l, r, 24, 24, U32At(l, 4), U32At(r, 4));
  }

  lemma {:induction false} FieldsKind(l: bytes, r: bytes, la: nat, ra: nat, ln: nat, rn: nat)
    requires la <= |l| < 0x1_0000_0000 && ra <= |r| < 0x1_0000_0000
    ensures var d := FieldsDiff(l, r, la, ra, ln, rn); d.Some? ==> d.value.kind in {FieldPresence, FieldValue}
    decreases ln + rn
  {
    hide NextField;
    if ln != 0 || rn != 0 {
      var a, b := NextField(l, la, ln), NextField(r, ra, rn);
      if a.Some? && b.Some? && a.value.0.id == b.value.0.id {
        FieldDiffExact(a.value.0, b.value.0);
        FieldsKind(l, r, a.value.1, b.value.1, ln - 1, rn - 1);
      }
    }
  }

  // ---- Tapes ----

  /** The records that count, in order, without their positions. */
  function Significant(rs: seq<Record>): seq<Record> {
    if rs == [] then []
    else if Ignorable(rs[|rs| - 1]) then Significant(rs[..|rs| - 1])
    else Significant(rs[..|rs| - 1]) + [Erase(rs[|rs| - 1])]
  }

  lemma SignificantSnoc(rs: seq<Record>, i: nat)
    requires i < |rs|
    ensures Significant(rs[..i + 1])
         == Significant(rs[..i]) + (if Ignorable(rs[i]) then [] else [Erase(rs[i])])
  {
    assert rs[..i + 1][..i] == rs[..i] && rs[..i + 1][i] == rs[i];
    assert Significant(rs[..i]) + [] == Significant(rs[..i]);
  }

  lemma {:induction false} SignificantPrefix(rs: seq<Record>, i: nat)
    requires i <= |rs|
    ensures Significant(rs[..i]) <= Significant(rs)
    decreases |rs| - i
  {
    if i == |rs| {
      assert rs[..i] == rs;
    } else {
      SignificantSnoc(rs, i);
      SignificantPrefix(rs, i + 1);
    }
  }

  /** What the comparison loop establishes from agreeing prefixes on. */
  lemma {:induction false} CompareFromExact(ctx: Context, a: seq<Record>, b: seq<Record>, i: nat, j: nat, diag: bool)
    requires ctx.Valid() && i <= |a| && j <= |b| && AllReadable(a) && AllReadable(b)
    requires Sound(ctx, a) && Sound(ctx, b)
    requires Significant(a[..i]) == Significant(b[..j])
    ensures var o := CompareFrom(a, b, i, j, diag);
      match o
      case Same(_) => Significant(a) == Significant(b)
      case Differs(d, x, y, _) =>
        && Significant(a[..x]) == Significant(b[..y])
        && x < |a| && y < |b| && !Ignorable(a[x]) && !Ignorable(b[y])
        && RecordDiff(a[x], b[y]) == Some(d) && Erase(a[x]) != Erase(b[y])
        && (d.kind == RecordDivergence || d.kind == FieldValue)
    decreases |a| - i + |b| - j
  {
    hide RecordDiff, RecordOk, Erase;
    if IgnorableAt(a, i) || IgnorableAt(b, j) {
      if IgnorableAt(a, i) {
        SignificantSnoc(a, i);
      }
      if IgnorableAt(b, j) {
        SignificantSnoc(b, j);
      }
      CompareFromExact(ctx, a, b, if IgnorableAt(a, i) then i + 1 else i, if IgnorableAt(b, j) then j + 1 else j,
                       diag || DiagnosticsDiffer(a, b, i, j));
    } else if i == |a| || j == |b| {
      EndsTogether(ctx, a, b, i, j);
      assert a[..i] == a && b[..j] == b;
    } else {
      RecordExact(ctx, a[i], b[j]);
      if RecordDiff(a[i], b[j]).None? {
        SignificantSnoc(a, i);
        SignificantSnoc(b, j);
        CompareFromExact(ctx, a, b, i + 1, j + 1, diag);
      }
    }
  }

  /** Both tapes run out at the same time, because each ends in its only terminal record. */
  lemma EndsTogether(ctx: Context, a: seq<Record>, b: seq<Record>, i: nat, j: nat)
    requires Sound(ctx, a) && Sound(ctx, b) && i <= |a| && j <= |b|
    requires Significant(a[..i]) == Significant(b[..j])
    requires i == |a| || j == |b|
    ensures i == |a| && j == |b|
  {
    hide RecordOk;
    TerminalSignificant(ctx, a, i);
    TerminalSignificant(ctx, b, j);
  }

  ghost predicate HasTerminal(s: seq<Record>) {
    exists k :: 0 <= k < |s| && s[k].kind == TERMINAL
  }

  lemma {:induction false} TerminalSignificant(ctx: Context, rs: seq<Record>, i: nat)
    requires Sound(ctx, rs) && i <= |rs|
    ensures HasTerminal(Significant(rs[..i])) <==> i == |rs|
  {
    if i > 0 {
      TerminalSignificant(ctx, rs, i - 1);
      SignificantSnoc(rs, i - 1);
      var before, now := Significant(rs[..i - 1]), Significant(rs[..i]);
      if !Ignorable(rs[i - 1]) {
        assert now[|now| - 1] == Erase(rs[i - 1]);
        assert forall k :: 0 <= k < |before| ==> now[k] == before[k];
        assert forall k :: 0 <= k < |before| ==> before[k].kind != TERMINAL;
      }
    }
  }

  /** The comparison of two validated tapes says "same" exactly when their significant records agree on
      type, version, flags, step, tick and every payload byte. Otherwise it reports the first
      significant records that do not, and it never reports a missing field or a missing record. */
  lemma ComparisonExact(ctx: Context, s: Tape, t: Tape)
    requires ctx.Valid() && ValidTape(ctx, s) && ValidTape(ctx, t)
    ensures AllReadable(s.records) && AllReadable(t.records)
    ensures match CompareFrom(s.records, t.records, 0, 0, false)
      case Same(_) => Significant(s.records) == Significant(t.records)
      case Differs(d, x, y, _) =>
        && Significant(s.records[..x]) == Significant(t.records[..y])
        && x < |s.records| && y < |t.records|
        && !Ignorable(s.records[x]) && !Ignorable(t.records[y])
        && RecordDiff(s.records[x], t.records[y]) == Some(d)
        && Erase(s.records[x]) != Erase(t.records[y])
        && (d.kind == RecordDivergence || d.kind == FieldValue)
    ensures CompareFrom(s.records, t.records, 0, 0, false).Same? <==> Significant(s.records) == Significant(t.records)
  {
    ValidSound(ctx, s);
    ValidSound(ctx, t);
    var a, b := s.records, t.records;
    assert a[..0] == [] && b[..0] == [];
    CompareFromExact(ctx, a, b, 0, 0, false);
    match CompareFrom(a, b, 0, 0, false)
    case Same(_) =>
    case Differs(d, x, y, _) =>
      SignificantSnoc(a, x);
      SignificantSnoc(b, y);
      SignificantPrefix(a, x + 1);
      SignificantPrefix(b, y + 1);
      var n := |Significant(a[..x])|;
      assert Significant(a)[n] == Erase(a[x]) && Significant(b)[n] == Erase(b[y]);
  }

  /** The comparison's verdict as a relation between tapes. */
  predicate Equal(s: Tape, t: Tape) {
    AllReadable(s.records) && AllReadable(t.records) && CompareFrom(s.records, t.records, 0, 0, false).Same?
  }

  /** "Same" is an equivalence relation on validated tapes. */
  lemma ComparisonEquivalence(ctx: Context, s: Tape, t: Tape, u: Tape)
    requires ctx.Valid() && ValidTape(ctx, s) && ValidTape(ctx, t) && ValidTape(ctx, u)
    ensures Equal(s, s)
    ensures Equal(s, t) ==> Equal(t, s)
    ensures Equal(s, t) && Equal(t, u) ==> Equal(s, u)
  {
    hide ValidTape, CompareFrom, Significant;
    ComparisonExact(ctx, s, s);
    ComparisonExact(ctx, s, t);
    ComparisonExact(ctx, t, s);
    ComparisonExact(ctx, t, u);
    ComparisonExact(ctx, s, u);
  }
}
