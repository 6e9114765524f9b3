/** What an accepted projection is, row by row and field by field, without the parser's checks. */
module ProjectionRules {
  import opened Wrappers
  import opened Bytes
  import opened TapeFormat
  import opened FieldRegistry
  import opened Projection
  import Utf8

  // ---- One field against its registry row ----

  /** The bytes of one element of a numeric type; 10 is a stable id, whose flags are its width. */
  function NumberBytes(f: Field): nat {
    match f.valueType
    case 1 => 1
    case 2 => 2
    case 3 => 4
    case 4 => 8
    case 5 => 1
    case 6 => 2
    case 7 => 4
    case 8 => 8
    case 10 => if f.flags == 1 || f.flags == 2 || f.flags == 4 || f.flags == 8 then f.flags else 0
    case _ => 0
  }

  /** Bit `j` of a bit set, the lowest bit of a byte first. */
  predicate BitSet(value: bytes, j: nat)
    requires j / 8 < |value|
  {
    var k := j % 8;
    value[j / 8] / Pow2(k) % 2 == 1
  }

  /** How many elements a row allows: shapes 1 and 2 a fixed number, 3 and 4 up to a capacity. */
  predicate CountRule(meta: FieldMeta, elements: nat) {
    && (meta.shape == 1 || meta.shape == 2 ==> elements == meta.fixedCount)
    && (meta.shape == 3 || meta.shape == 4 ==> elements <= meta.maximumCapacity)
  }

  /** What the value of a field looks like: whole numbers of the declared width, raw bytes (9), bits without strays
      (11), or text, in diagnostics only (12). */
  ghost predicate ValueRule(meta: FieldMeta, f: Field) {
    if NumberBytes(f) > 0 then
      && |f.value| == NumberBytes(f) * f.elements
      && (f.valueType != 10 ==> f.flags == 0)
      && (meta.widthBits != 0 ==> meta.widthBits == 8 * NumberBytes(f))
    else
      && f.flags == 0
      && match f.valueType
         case 9 => |f.value| == f.elements
         case 11 => |f.value| == (f.elements + 7) / 8 && NoStray(f.value, f.elements)
         case 12 => meta.classification == 4 && |f.value| == f.elements <= 1_048_576 && Utf8.WellFormed(f.value)
         case _ => false
  }

  ghost predicate RowRule(meta: FieldMeta, f: Field) {
    && f.id == meta.id > 0 && f.valueType == meta.valueType && |f.value| <= 67_108_864
    && CountRule(meta, f.elements) && ValueRule(meta, f)
  }

  /** Without its higher bits a byte is small exactly when one more bit is clear. */
  lemma OneBit(v: byte, m: nat)
    requires m < 8
    ensures v < Pow2(m) <==> v < 2 * Pow2(m) && v / Pow2(m) % 2 == 0
  {
    var p := Pow2(m);
    var q := v / p;
    assert v == q * p + v % p;
    if v < p {
      SmallQuotient(v, p);
    } else if v < 2 * p {
      OneQuotient(v, p);
    }
  }

  lemma SmallQuotient(v: nat, p: nat)
    requires v < p
    ensures v / p == 0
  {
  }

  lemma OneQuotient(v: nat, p: nat)
    requires 0 < p <= v < 2 * p
    ensures v / p == 1
  {
  }

  lemma {:induction false} ByteBits(v: byte, m: nat)
    requires m < 8
    ensures v < Pow2(m) <==> forall k: nat :: m <= k < 8 ==> v / Pow2(k) % 2 == 0
    decreases 8 - m
  {
    hide Pow2;
    OneBit(v, m);
    if m < 7 {
      ByteBits(v, m + 1);
      assert 2 * Pow2(m) == Pow2(m + 1) by { Doubles(m); }
    } else {
      assert 2 * Pow2(7) == 256 by { Top(); }
    }
  }

  lemma Doubles(m: nat)
    requires m < 7
    ensures 2 * Pow2(m) == Pow2(m + 1)
  {
  }

  lemma Top()
    ensures Pow2(7) == 128
  {
  }

  lemma Place(byteIndex: nat, k: nat)
    requires k < 8
    ensures (8 * byteIndex + k) / 8 == byteIndex && (8 * byteIndex + k) % 8 == k
  {
  }

  /** No bit at or after `elements` is set. */
  ghost predicate NoStray(value: bytes, elements: nat) {
    forall j: nat :: elements <= j < 8 * |value| ==> !BitSet(value, j)
  }

  lemma BitAt(value: bytes, last: nat, k: nat)
    requires last < |value| && k < 8
    ensures (8 * last + k) / 8 < |value| && (BitSet(value, 8 * last + k) <==> value[last] / Pow2(k) % 2 == 1)
  {
    Place(last, k);
  }

  lemma LastByteBits(value: bytes, last: nat, m: nat)
    requires |value| == last + 1 && m < 8
    ensures NoStray(value, 8 * last + m) <==> forall k: nat :: m <= k < 8 ==> value[last] / Pow2(k) % 2 == 0
  {
    hide BitSet, Pow2;
    if NoStray(value, 8 * last + m) {
      forall k: nat | m <= k < 8 ensures value[last] / Pow2(k) % 2 == 0 {
        BitAt(value, last, k);
        assert !BitSet(value, 8 * last + k);
      }
    }
    if forall k: nat :: m <= k < 8 ==> value[last] / Pow2(k) % 2 == 0 {
      forall j: nat | 8 * last + m <= j < 8 * |value| ensures !BitSet(value, j) {
        var k: nat := j - 8 * last;
        BitAt(value, last, k);
        assert value[last] / Pow2(k) % 2 == 0;
      }
    }
  }

  /** The check of the last byte is the absence of stray bits. */
  lemma StrayBits(value: bytes, elements: nat)
    requires |value| == (elements + 7) / 8
    ensures (elements % 8 != 0 ==> value[|value| - 1] < Pow2(elements % 8)) <==> NoStray(value, elements)
  {
    hide Pow2, NoStray;
    var m := elements % 8;
    if m != 0 {
      var last := |value| - 1;
      assert elements == 8 * last + m;
      ByteBits(value[last], m);
      LastByteBits(value, last, m);
    } else {
      NothingOver(value, elements);
    }
  }

  lemma NothingOver(value: bytes, elements: nat)
    requires 8 * |value| == elements
    ensures NoStray(value, elements)
  {
  }

  lemma RowExact(meta: FieldMeta, f: Field)
    ensures FieldOk(meta, f) <==> RowRule(meta, f)
  {
    hide NoStray, Pow2;
    if f.valueType == 11 && |f.value| == (f.elements + 7) / 8 {
      StrayBits(f.value, f.elements);
    }
  }

  // ---- Whole projections ----

  lemma {:induction false} AuthoritativeExact(registry: Registry, m: FieldMeta)
    ensures m in Authoritative(registry) <==> m in registry && m.classification == 1
  {
    if registry != [] {
      AuthoritativeExact(registry[1..], m);
      assert m in registry <==> m == registry[0] || m in registry[1..];
    }
  }

  /** Field `j` is a scalar that says `n`. */
  predicate Says(f: Field, id: nat, n: nat) {
    f.id == id && f.elements == 1 && NumberBytes(f) > 0 && |f.value| == NumberBytes(f) && UInt(f.value) == n
  }

  ghost predicate Declares(fs: seq<Field>, id: nat, n: nat) {
    exists j :: 0 <= j < |fs| && Says(fs[j], id, n)
  }

  /** A counted field has as many elements as its count source says; an offset vector of 32-bit words starts at
      zero, never goes back, and ends at what its target's count says. */
  ghost predicate RelationRule(fs: seq<Field>, meta: FieldMeta, f: Field) {
    && (meta.countSource != 0 ==> Declares(fs, meta.countSource, f.elements))
    && (meta.offsetTarget != 0 ==>
          f.valueType == 3 && exists n: nat :: Declares(fs, meta.offsetTarget, n) && Tiles(Words(f.value), n))
  }

  /** The 24 header bytes: version, boundary kind, zero, the number of fields, then ordinal and digest. */
  predicate HeaderRule(p: bytes, fields: nat) {
    |p| >= 24 && U16At(p, 0) == 1 && p[3] == 0 && U32At(p, 4) == fields && 0 < fields <= 10_000_000
  }

  ghost predicate ProjectionRule(registry: Registry, p: bytes, fs: seq<Field>) {
    var rows := Authoritative(registry);
    && HeaderRule(p, |rows|) && |fs| == |rows| && p[24..] == EncodeFields(fs)
    && forall k :: 0 <= k < |fs| ==> RowRule(rows[k], fs[k]) && RelationRule(fs, rows[k], fs[k])
  }

  lemma {:induction false} ScalarSays(fs: seq<Field>, id: u32, n: nat)
    requires forall i, j :: 0 <= i < j < |fs| ==> fs[i].id != fs[j].id
    ensures ScalarValue(fs, id) == Some(n) <==> Declares(fs, id, n)
  {
    if fs != [] {
      forall i, j | 0 <= i < j < |fs[1..]| ensures fs[1..][i].id != fs[1..][j].id {
        assert fs[1..][i] == fs[i + 1] && fs[1..][j] == fs[j + 1];
      }
      ScalarSays(fs[1..], id, n);
      if fs[0].id == id {
        SaysFirst(fs[0], id, n);
        assert ScalarValue(fs, id) == Some(n) <==> Says(fs[0], id, n);
      } else {
        assert !Says(fs[0], id, n);
        assert forall j :: 1 <= j < |fs| ==> fs[j] == fs[1..][j - 1];
        if Declares(fs[1..], id, n) {
          var j :| 0 <= j < |fs[1..]| && Says(fs[1..][j], id, n);
          assert Says(fs[j + 1], id, n);
        }
      }
    }
  }

  lemma SaysFirst(f: Field, id: u32, n: nat)
    requires f.id == id
    ensures ScalarValue([f], id) == Some(n) <==> Says(f, id, n)
  {
  }

  lemma RelationExact(fs: seq<Field>, meta: FieldMeta, f: Field)
    requires forall i, j :: 0 <= i < j < |fs| ==> fs[i].id != fs[j].id
    ensures RelationsOk(fs, meta, f) <==> RelationRule(fs, meta, f)
  {
    hide Declares, ScalarValue, Tiles, Words;
    ScalarSays(fs, meta.countSource, f.elements);
    forall n: nat ensures ScalarValue(fs, meta.offsetTarget) == Some(n) <==> Declares(fs, meta.offsetTarget, n) {
      ScalarSays(fs, meta.offsetTarget, n);
    }
    if ScalarValue(fs, meta.offsetTarget).Some? {
      var n: nat := ScalarValue(fs, meta.offsetTarget).value;
      assert Declares(fs, meta.offsetTarget, n);
    }
  }

  /** A payload is read as these fields exactly when it obeys the rules. */
  lemma ProjectionExactly(registry: Registry, p: bytes, fs: seq<Field>)
    requires SortedById(registry)
    ensures ParsePayload(registry, p) == Success(fs) <==> ProjectionRule(registry, p, fs)
  {
    hide ParsePayload, RowRule, FieldOk, RelationRule, RelationsOk, EncodeFields, Authoritative;
    AcceptedIsProjection(registry, p, fs);
    AuthoritativeSorted(registry);
    var rows := Authoritative(registry);
    if |fs| == |rows| {
      forall k | 0 <= k < |fs| ensures FieldOk(rows[k], fs[k]) <==> RowRule(rows[k], fs[k]) {
        RowExact(rows[k], fs[k]);
      }
      if forall k :: 0 <= k < |fs| ==> RowRule(rows[k], fs[k]) {
        Distinct(rows, fs);
        forall k | 0 <= k < |fs| ensures RelationsOk(fs, rows[k], fs[k]) <==> RelationRule(fs, rows[k], fs[k]) {
          RelationExact(fs, rows[k], fs[k]);
        }
      }
    }
  }

  lemma Distinct(rows: seq<FieldMeta>, fs: seq<Field>)
    requires SortedById(rows) && |fs| == |rows| && forall k :: 0 <= k < |fs| ==> RowRule(rows[k], fs[k])
    ensures forall i, j :: 0 <= i < j < |fs| ==> fs[i].id != fs[j].id
  {
    hide ValueRule, CountRule;
  }

  /** An accepted projection is one that obeys the rules with some fields. */
  lemma AcceptedProjection(registry: Registry, p: bytes)
    requires SortedById(registry)
    ensures ProjectionStatus(registry, p) == OK <==> exists fs :: ProjectionRule(registry, p, fs)
  {
    hide ParsePayload, ProjectionRule;
    if ProjectionStatus(registry, p) == OK {
      ProjectionExactly(registry, p, ParsePayload(registry, p).value);
    }
    if exists fs :: ProjectionRule(registry, p, fs) {
      var fs :| ProjectionRule(registry, p, fs);
      ProjectionExactly(registry, p, fs);
    }
  }
}
