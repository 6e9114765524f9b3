/** The authoritative-field registry (parity/include/openttd_rl_parity/field_schema.h), as any table. */
module FieldRegistry {
  import opened Bytes
  import opened TapeFormat

  const AUTHORITATIVE_FULL := 1
  const DIAGNOSTIC_CLASS := 4

  const SCALAR := 1
  const FIXED_ARRAY := 2
  const DYNAMIC_ARRAY := 3
  const BITSET := 4

  datatype FieldMeta = FieldMeta(id: u32, valueType: u16, widthBits: u16, fixedCount: u32,
                                 maximumCapacity: u32, countSource: u32, offsetTarget: u32,
                                 classification: byte, shape: byte)

  type Registry = seq<FieldMeta>

  predicate SortedById(ms: seq<FieldMeta>) {
    && (forall i :: 0 <= i < |ms| ==> ms[i].id > 0)
    && (forall i, j :: 0 <= i < j < |ms| ==> ms[i].id < ms[j].id)
  }

  /** The rows a projection must carry, in registry order. */
  function Authoritative(registry: Registry): (ms: seq<FieldMeta>)
    ensures forall m <- ms :: m in registry && m.classification == AUTHORITATIVE_FULL
  {
    if registry == [] then []
    else if registry[0].classification == AUTHORITATIVE_FULL then [registry[0]] + Authoritative(registry[1..])
    else Authoritative(registry[1..])
  }

  lemma {:induction false} AuthoritativeSorted(registry: Registry)
    requires SortedById(registry)
    ensures SortedById(Authoritative(registry))
  {
    if registry != [] {
      var rest := Authoritative(registry[1..]);
      AuthoritativeSorted(registry[1..]);
      forall i | 0 <= i < |rest| ensures registry[0].id < rest[i].id {
        assert rest[i] in rest;
      }
    }
  }

  /** Bytes per element of a numeric field; zero for the other types. */
  function ValueWidth(valueType: u16, flags: u16): (w: nat)
    ensures w <= 8
  {
    if valueType == VALUE_U8 || valueType == VALUE_I8 then 1
    else if valueType == VALUE_U16 || valueType == VALUE_I16 then 2
    else if valueType == VALUE_U32 || valueType == VALUE_I32 then 4
    else if valueType == VALUE_U64 || valueType == VALUE_I64 then 8
    else if valueType == VALUE_STABLE_ID && (flags == 1 || flags == 2 || flags == 4 || flags == 8) then flags
    else 0
  }
}
