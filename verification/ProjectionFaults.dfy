/** Why a projection is refused: the first fault in its bytes, after the fields before it, and the status it leads
    to. A payload gets a status exactly when it has a fault with that status. */
module ProjectionFaults {
  import opened Wrappers
  import opened Bytes
  import opened CheckedArithmetic
  import opened TapeFormat
  import opened FieldRegistry
  import opened Projection
  import opened ProjectionRules

  /** The first fault in the 24 header bytes of a projection that must have `fields` fields. */
  function HeaderFault(p: bytes, fields: nat): Option<Status> {
    if |p| < 24 then Some(Truncated)
    else if U16At(p, 0) != 1 then Some(Version)
    else if p[3] != 0 then Some(Reserved)
    else if U32At(p, 4) == 0 then Some(Schema)
    else if U32At(p, 4) > 10_000_000 then Some(Limit)
    else if U32At(p, 4) != fields then Some(Schema)
    else None
  }

  /** Only the bits after the last element are wrong. */
  ghost predicate OnlyStray(f: Field) {
    f.valueType == 11 && f.flags == 0 && |f.value| == (f.elements + 7) / 8 && !NoStray(f.value, f.elements)
  }

  /** The size of a field with a value of `n` bytes. */
  function Framed(n: nat): nat {
    16 + (n + 7) / 8 * 8
  }

  /** The field at the front of `b`. */
  function FieldAt(b: bytes): Field
    requires |b| >= 16 && |b| >= 16 + U32At(b, 12)
  {
    Field(U32At(b, 0), U16At(b, 4), U16At(b, 6), U32At(b, 8), b[16..16 + U32At(b, 12)])
  }

  /** The first fault in the field at the front of `b`, which should be the one of this row. */
  ghost function FieldFault(meta: FieldMeta, b: bytes): Option<Status> {
    if |b| < 16 then Some(Truncated)
    else if U32At(b, 0) != meta.id || U16At(b, 4) != meta.valueType || !CountRule(meta, U32At(b, 8)) then Some(Schema)
    else
      var n: nat := U32At(b, 12);
      if n > 67_108_864 then Some(Limit)
      else if |b| < Framed(n) then Some(Truncated)
      else if !ValueRule(meta, FieldAt(b)) then Some(if OnlyStray(FieldAt(b)) then Canonical else Schema)
      else if exists i :: 16 + n <= i < Framed(n) && b[i] != 0 then Some(Canonical)
      else None
  }

  /** Good fields, one for each row, then a faulty one; or all of them and something left over. */
  ghost predicate FieldsFault(metas: seq<FieldMeta>, b: bytes, e: Status) {
    exists fs, rest :: StopsAfter(metas, b, fs, rest, e)
  }

  ghost predicate StopsAfter(metas: seq<FieldMeta>, b: bytes, fs: seq<Field>, rest: bytes, e: Status) {
    && b == EncodeFields(fs) + rest && |fs| <= |metas| && (forall k :: 0 <= k < |fs| ==> RowRule(metas[k], fs[k]))
    && if |fs| < |metas| then FieldFault(metas[|fs|], rest) == Some(e) else rest != [] && e == Structure
  }

  /** All fields are good, and some relation between them fails. */
  ghost predicate RelationFault(metas: seq<FieldMeta>, b: bytes) {
    exists fs ::
      && b == EncodeFields(fs) && |fs| == |metas| && (forall k :: 0 <= k < |fs| ==> RowRule(metas[k], fs[k]))
      && exists k :: 0 <= k < |fs| && !RelationRule(fs, metas[k], fs[k])
  }

  ghost predicate Refused(registry: Registry, p: bytes, e: Status) {
    var rows := Authoritative(registry);
    if HeaderFault(p, |rows|).Some? then e == HeaderFault(p, |rows|).value
    else FieldsFault(rows, p[24..], e) || (RelationFault(rows, p[24..]) && e == Schema)
  }

  // ---- The parser answers so ----

  lemma HeaderExactly(registry: Registry, p: bytes)
    ensures ProjectionHeaderStatus(registry, p) == HeaderFault(p, |Authoritative(registry)|).GetOr(OK)
    ensures HeaderFault(p, |Authoritative(registry)|) != Some(OK)
  {
    hide UInt, Authoritative;
  }

  lemma SameHeader(b: bytes)
    requires |b| >= 16
    ensures DecodeFieldHeader(b[..16]) == FieldHeader(U32At(b, 0), U16At(b, 4), U16At(b, 6), U32At(b, 8), U32At(b, 12))
  {
    hide UInt;
    SubRange(b, 0, 16, 0, 4); SubRange(b, 0, 16, 4, 6); SubRange(b, 0, 16, 6, 8);
    SubRange(b, 0, 16, 8, 12); SubRange(b, 0, 16, 12, 16);
  }

  lemma HeaderFaultExactly(meta: FieldMeta, previous: nat, h: FieldHeader)
    requires previous < meta.id
    ensures FieldHeaderStatus(meta, previous, h) ==
      if h.id != meta.id || h.valueType != meta.valueType || !CountRule(meta, h.elements) then Schema
      else if h.byteCount > 67_108_864 then Limit
      else OK
  {
  }

  lemma ValueExactly(meta: FieldMeta, f: Field)
    requires f.valueType == meta.valueType
    ensures FieldValueStatus(meta, f) == if ValueRule(meta, f) then OK else if OnlyStray(f) then Canonical else Schema
  {
    hide NoStray, Pow2;
    if f.valueType == 11 && |f.value| == (f.elements + 7) / 8 {
      StrayBits(f.value, f.elements);
    }
  }

  lemma FramedExactly(n: nat)
    ensures FieldSize(n) == Framed(n) == 16 + n + Pad8(n)
  {
  }

  lemma FieldExactly(meta: FieldMeta, previous: nat, b: bytes)
    requires previous < meta.id
    ensures var r := ParseField(meta, previous, b); FieldFault(meta, b) == if r.Failure? then Some(r.error) else None
  {
    hide UInt, DecodeFieldHeader, FieldHeaderStatus, FieldValueStatus, ValueRule, CountRule, OnlyStray, FieldSize, Framed;
    if |b| >= 16 {
      SameHeader(b);
      HeaderFaultExactly(meta, previous, DecodeFieldHeader(b[..16]));
      var n: nat := U32At(b, 12);
      FramedExactly(n);
      if |b| >= Framed(n) {
        assert FieldIn(b) == FieldAt(b);
        if meta.valueType == U16At(b, 4) {
          ValueExactly(meta, FieldAt(b));
        }
        ZerosExactly(b, 16 + n, Framed(n));
      }
    }
  }

  lemma {:induction false} ParseStops(metas: seq<FieldMeta>, previous: nat, b: bytes)
    requires SortedById(metas) && (metas != [] ==> previous < metas[0].id)
    requires ParseFields(metas, previous, b).Failure?
    ensures FieldsFault(metas, b, ParseFields(metas, previous, b).error)
    decreases |metas|
  {
    hide EncodeField, ParseField, FieldFault, RowRule, FieldOk;
    var e := ParseFields(metas, previous, b).error;
    assert b == EncodeFields([]) + b;
    if metas == [] {
      assert StopsAfter(metas, b, [], b, e);
    } else {
      FieldExactly(metas[0], previous, b);
      if ParseField(metas[0], previous, b).Failure? {
        assert StopsAfter(metas, b, [], b, e);
      } else {
        var f := ParseField(metas[0], previous, b).value;
        var tail := b[FieldSize(|f.value|)..];
        FieldSound(metas[0], previous, b);
        FieldId(metas[0], f);
        RowExact(metas[0], f);
        ParseStops(metas[1..], f.id, tail);
        var fs, rest :| StopsAfter(metas[1..], tail, fs, rest, e);
        OneMore(metas, f, b, tail, fs, rest, e);
      }
    }
  }

  lemma OneMore(metas: seq<FieldMeta>, f: Field, b: bytes, tail: bytes, fs: seq<Field>, rest: bytes, e: Status)
    requires metas != [] && RowRule(metas[0], f) && b == EncodeField(f) + tail && StopsAfter(metas[1..], tail, fs, rest, e)
    ensures StopsAfter(metas, b, [f] + fs, rest, e)
  {
    hide EncodeField, FieldFault, RowRule;
    var all := [f] + fs;
    assert all[1..] == fs;
    forall k | 0 <= k < |all| ensures RowRule(metas[k], all[k]) {
      if k > 0 {
        assert metas[k] == metas[1..][k - 1] && all[k] == fs[k - 1];
      }
    }
    assert b == EncodeFields(all) + rest;
  }

  lemma {:induction false} StopsParse(metas: seq<FieldMeta>, previous: nat, b: bytes, fs: seq<Field>, rest: bytes, e: Status)
    requires SortedById(metas) && (metas != [] ==> previous < metas[0].id)
    requires StopsAfter(metas, b, fs, rest, e)
    ensures ParseFields(metas, previous, b) == Failure(e)
    decreases |metas|
  {
    hide EncodeField, ParseField, FieldFault, RowRule, FieldOk;
    if fs == [] {
      assert b == rest;
      if metas != [] {
        FieldExactly(metas[0], previous, b);
      }
    } else {
      var f := fs[0];
      var tail := EncodeFields(fs[1..]) + rest;
      assert b == EncodeField(f) + tail;
      RowExact(metas[0], f);
      FieldId(metas[0], f);
      FieldComplete(metas[0], previous, f, tail);
      assert b[FieldSize(|f.value|)..] == tail;
      assert forall k :: 0 <= k < |fs| - 1 ==> fs[1..][k] == fs[k + 1] && metas[1..][k] == metas[k + 1];
      StopsParse(metas[1..], f.id, tail, fs[1..], rest, e);
    }
  }

  lemma FieldsExactly(metas: seq<FieldMeta>, b: bytes, e: Status)
    requires SortedById(metas)
    ensures ParseFields(metas, 0, b) == Failure(e) <==> FieldsFault(metas, b, e)
  {
    hide ParseFields, StopsAfter;
    if ParseFields(metas, 0, b) == Failure(e) {
      ParseStops(metas, 0, b);
    }
    if fs, rest :| StopsAfter(metas, b, fs, rest, e) {
      StopsParse(metas, 0, b, fs, rest, e);
    }
  }

  /** Fields that are read fail the relations exactly when some relation rule fails. */
  lemma RelationsExactly(metas: seq<FieldMeta>, b: bytes)
    requires SortedById(metas)
    ensures var r := ParseFields(metas, 0, b);
      RelationFault(metas, b) <==> r.Success? && !(FirstPassSound(metas, 0, b); AllRelationsOk(metas, r.value))
  {
    hide ParseFields, EncodeFields, RowRule, FieldOk, RelationRule, RelationsOk;
    var r := ParseFields(metas, 0, b);
    if r.Success? {
      FirstPassSound(metas, 0, b);
      RowsExactly(metas, r.value);
    }
    if RelationFault(metas, b) {
      var fs :|
        && b == EncodeFields(fs) && |fs| == |metas| && (forall k :: 0 <= k < |fs| ==> RowRule(metas[k], fs[k]))
        && exists k :: 0 <= k < |fs| && !RelationRule(fs, metas[k], fs[k]);
      RowsExactly(metas, fs);
      FirstPassComplete(metas, 0, fs);
    }
  }

  lemma RowsExactly(metas: seq<FieldMeta>, fs: seq<Field>)
    requires SortedById(metas) && |fs| == |metas|
    ensures (forall k :: 0 <= k < |fs| ==> FieldOk(metas[k], fs[k])) <==> forall k :: 0 <= k < |fs| ==> RowRule(metas[k], fs[k])
    ensures (forall k :: 0 <= k < |fs| ==> RowRule(metas[k], fs[k])) ==>
      forall k :: 0 <= k < |fs| ==> (RelationsOk(fs, metas[k], fs[k]) <==> RelationRule(fs, metas[k], fs[k]))
  {
    hide RowRule, FieldOk, RelationRule, RelationsOk, SortedById;
    forall k | 0 <= k < |fs| ensures FieldOk(metas[k], fs[k]) <==> RowRule(metas[k], fs[k]) {
      RowExact(metas[k], fs[k]);
    }
    if forall k :: 0 <= k < |fs| ==> RowRule(metas[k], fs[k]) {
      Distinct(metas, fs);
      forall k | 0 <= k < |fs| ensures RelationsOk(fs, metas[k], fs[k]) <==> RelationRule(fs, metas[k], fs[k]) {
        RelationExact(fs, metas[k], fs[k]);
      }
    }
  }

  /** A payload is refused with a status exactly when its first fault leads to it. */
  lemma RefusedExactly(registry: Registry, p: bytes, e: Status)
    requires SortedById(registry)
    ensures ParsePayload(registry, p) == Failure(e) <==> Refused(registry, p, e)
  {
    hide ParseFields, HeaderFault, ProjectionHeaderStatus, FieldsFault, RelationFault, AllRelationsOk, Authoritative, UInt;
    HeaderExactly(registry, p);
    AuthoritativeSorted(registry);
    if ProjectionHeaderStatus(registry, p) == OK {
      LongEnough(registry, p);
      FieldsExactly(Authoritative(registry), p[24..], e);
      RelationsExactly(Authoritative(registry), p[24..]);
    }
  }

  lemma LongEnough(registry: Registry, p: bytes)
    requires ProjectionHeaderStatus(registry, p) == OK
    ensures |p| >= 24
  {
  }
}
