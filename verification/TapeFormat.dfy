/** Constants, statuses and the record framing of tape format 1.0
    (parity/include/openttd_rl_parity/tape_format.h, status.h). */
module TapeFormat {
  import opened Bytes
  import opened CheckedArithmetic

  const PREFIX_BYTES := 64
  const RECORD_HEADER_BYTES := 40
  const TRAILER_BYTES := 64
  const PROJECTION_HEADER_BYTES := 24
  const FIELD_HEADER_BYTES := 16

  const MAX_HEADER_BYTES := 1_048_576
  const MAX_RECORD_PAYLOAD_BYTES := 67_108_864
  const MAX_RECORD_COUNT := 50_000_000
  const MAX_TAPE_BYTES := 1_099_511_627_776
  const MAX_FIELD_COUNT := 10_000_000
  const MAX_FIELD_BYTES := 67_108_864
  const MAX_DIAGNOSTIC_STRING_BYTES := 1_048_576
  const MAX_JSON_DEPTH := 64
  const MAX_COMMAND_COUNT := 1_000_000

  const FORMAT_MAJOR := 1
  const FORMAT_MINOR := 0
  const BYTE_ORDER_LE := 1
  const HASH_SHA256 := 1
  const RECORD_FLAG_REQUIRED := 1

  // Record types.
  const REPLAY_START := 1
  const COMMAND_INTENT := 2
  const COMMAND_TEST_RESULT := 3
  const COMMAND_EXEC_RESULT := 4
  const AUTHORITATIVE_PROJECTION := 5
  const NAMED_CHECKPOINT := 6
  const RNG_DRAW_DIAGNOSTIC := 7
  const ROUTE_DIAGNOSTIC := 8
  const CARGO_DIAGNOSTIC := 9
  const TRACE_WARNING := 10
  const TERMINAL := 11

  // Field value types.
  const VALUE_U8 := 1
  const VALUE_U16 := 2
  const VALUE_U32 := 3
  const VALUE_U64 := 4
  const VALUE_I8 := 5
  const VALUE_I16 := 6
  const VALUE_I32 := 7
  const VALUE_I64 := 8
  const VALUE_BYTES := 9
  const VALUE_STABLE_ID := 10
  const VALUE_BITSET := 11
  const VALUE_DIAGNOSTIC_UTF8 := 12

  datatype Status =
    | OK | Usage | IO | Truncated | Magic | Version | Endian | HashAlgorithm
    | Checksum | Canonical | Reserved | Limit | Overflow | Sequence | Structure
    | Schema | Identity | Divergence | Invariant | Internal

  type Payload = p: bytes | |p| < 0x1_0000_0000

  /** One record as every component of the tape library sees it. */
  datatype Record = Record(kind: u16, version: u16, flags: u32, sequence: u64,
                           step: u64, tick: u64, payload: Payload)

  /** The forty header bytes of a record, decoded. */
  datatype RecordHeader = RecordHeader(kind: u16, version: u16, flags: u32, sequence: u64,
                                       step: u64, tick: u64, payloadBytes: u32, reserved: u32)

  predicate KnownRecord(kind: nat) {
    REPLAY_START <= kind <= TERMINAL
  }

  predicate IsDiagnostic(kind: nat) {
    RNG_DRAW_DIAGNOSTIC <= kind <= TRACE_WARNING
  }

  predicate IsCommand(kind: nat) {
    kind == COMMAND_INTENT || kind == COMMAND_TEST_RESULT || kind == COMMAND_EXEC_RESULT
  }

  predicate Required(flags: nat) {
    flags % 2 == 1
  }

  function HeaderOf(r: Record): RecordHeader {
    RecordHeader(r.kind, r.version, r.flags, r.sequence, r.step, r.tick, |r.payload|, 0)
  }

  function EncodeHeader(h: RecordHeader): (b: bytes)
    ensures |b| == RECORD_HEADER_BYTES
  {
    LE(2, h.kind) + LE(2, h.version) + LE(4, h.flags) + LE(8, h.sequence) + LE(8, h.step)
    + LE(8, h.tick) + LE(4, h.payloadBytes) + LE(4, h.reserved)
  }

  function DecodeHeader(b: bytes): RecordHeader
    requires |b| == RECORD_HEADER_BYTES
  {
    RecordHeader(U16At(b, 0), U16At(b, 2), U32At(b, 4), U64At(b, 8), U64At(b, 16),
                 U64At(b, 24), U32At(b, 32), U32At(b, 36))
  }

  lemma HeaderRoundTrip(h: RecordHeader)
    ensures DecodeHeader(EncodeHeader(h)) == h
  {
    Widths();
    hide LE, UInt, Pow256;
    var b := EncodeHeader(h);
    assert b[0..2] == LE(2, h.kind) && b[2..4] == LE(2, h.version) && b[4..8] == LE(4, h.flags);
    assert b[8..16] == LE(8, h.sequence) && b[16..24] == LE(8, h.step) && b[24..32] == LE(8, h.tick);
    assert b[32..36] == LE(4, h.payloadBytes) && b[36..40] == LE(4, h.reserved);
    LoadStore(2, h.kind); LoadStore(2, h.version); LoadStore(4, h.flags); LoadStore(8, h.sequence);
    LoadStore(8, h.step); LoadStore(8, h.tick); LoadStore(4, h.payloadBytes); LoadStore(4, h.reserved);
  }

  lemma HeaderBytesRoundTrip(b: bytes)
    requires |b| == RECORD_HEADER_BYTES
    ensures EncodeHeader(DecodeHeader(b)) == b
  {
    StoreLoad(b[0..2]); StoreLoad(b[2..4]); StoreLoad(b[4..8]); StoreLoad(b[8..16]);
    StoreLoad(b[16..24]); StoreLoad(b[24..32]); StoreLoad(b[32..36]); StoreLoad(b[36..40]);
    assert b == b[0..2] + b[2..4] + b[4..8] + b[8..16] + b[16..24] + b[24..32] + b[32..36] + b[36..40];
  }

  /** Header, payload, and zero padding to eight bytes counted from the record's own start. */
  function EncodeRecord(r: Record): (b: bytes)
    ensures |b| == FramedSize(|r.payload|)
    ensures |b| % 8 == 0 && |b| >= RECORD_HEADER_BYTES
  {
    EncodeHeader(HeaderOf(r)) + r.payload + Zeros(Pad8(RECORD_HEADER_BYTES + |r.payload|))
  }

  function FramedSize(payloadBytes: nat): (n: nat)
    ensures n % 8 == 0 && n >= RECORD_HEADER_BYTES + payloadBytes
  {
    RECORD_HEADER_BYTES + payloadBytes + Pad8(RECORD_HEADER_BYTES + payloadBytes)
  }

  lemma EightsAdd(a: nat, b: nat)
    requires a % 8 == 0 && b % 8 == 0
    ensures (a + b) % 8 == 0
  {
  }

  function EncodeRecords(rs: seq<Record>): (b: bytes)
    ensures |b| % 8 == 0 && |b| >= RECORD_HEADER_BYTES * |rs|
  {
    hide EncodeRecord;
    if rs == [] then []
    else
      var head, tail := EncodeRecord(rs[0]), EncodeRecords(rs[1..]);
      EightsAdd(|head|, |tail|);
      head + tail
  }

  lemma EmptyRegion()
    ensures EncodeRecords([]) == []
  {
  }

  lemma {:induction false} EncodeRecordsConcat(a: seq<Record>, b: seq<Record>)
    ensures EncodeRecords(a + b) == EncodeRecords(a) + EncodeRecords(b)
  {
    hide EncodeRecord;
    if a == [] {
      assert a + b == b;
    } else {
      assert (a + b)[1..] == a[1..] + b;
      EncodeRecordsConcat(a[1..], b);
      assert EncodeRecord(a[0]) + (EncodeRecords(a[1..]) + EncodeRecords(b))
          == (EncodeRecord(a[0]) + EncodeRecords(a[1..])) + EncodeRecords(b);
    }
  }

  lemma EncodeOne(r: Record)
    ensures EncodeRecords([r]) == EncodeRecord(r)
  {
    var e := EncodeRecord(r);
    assert [r][1..] == [];
    assert e + [] == e;
  }

  lemma EncodeRecordsSnoc(rs: seq<Record>, k: nat)
    requires k < |rs|
    ensures EncodeRecords(rs[..k + 1]) == EncodeRecords(rs[..k]) + EncodeRecord(rs[k])
  {
    assert rs[..k + 1] == rs[..k] + [rs[k]];
    EncodeRecordsConcat(rs[..k], [rs[k]]);
    EncodeOne(rs[k]);
  }

  lemma EncodeRecordsSplit(rs: seq<Record>, k: nat)
    requires k <= |rs|
    ensures EncodeRecords(rs) == EncodeRecords(rs[..k]) + EncodeRecords(rs[k..])
  {
    assert rs == rs[..k] + rs[k..];
    EncodeRecordsConcat(rs[..k], rs[k..]);
  }
}
