/** Tape validation (parity/src/tape_reader.c). */
module TapeReader {
  import opened Wrappers
  import opened Bytes
  import opened CheckedArithmetic
  import opened TapeFormat
  import opened LifeCycle

  const PREFIX_MAGIC: bytes := [0x4F, 0x54, 0x52, 0x4C, 0x54, 0x41, 0x50, 0]   // "OTRLTAP\0"
  const TRAILER_MAGIC: bytes := [0x4F, 0x54, 0x52, 0x4C, 0x45, 0x4E, 0x44, 0]  // "OTRLEND\0"

  /** The variable fields of the 64-byte prefix. */
  datatype Prefix = Prefix(headerBytes: u32, flags: u32, recordCount: u64, recordBytes: u64,
                           maxStep: u64, maxTick: u64)

  function PrefixHead(p: Prefix): (b: bytes)
    ensures |b| == 24
  {
    PREFIX_MAGIC + LE(2, FORMAT_MAJOR) + LE(2, FORMAT_MINOR) + [BYTE_ORDER_LE] + [HASH_SHA256]
    + LE(2, PREFIX_BYTES) + LE(4, p.headerBytes) + LE(4, p.flags)
  }

  function PrefixTail(p: Prefix): (b: bytes)
    ensures |b| == 40
  {
    LE(8, p.recordCount) + LE(8, p.recordBytes) + LE(8, p.maxStep) + LE(8, p.maxTick) + LE(8, 0)
  }

  function EncodePrefix(p: Prefix): (b: bytes)
    ensures |b| == PREFIX_BYTES
  {
    PrefixHead(p) + PrefixTail(p)
  }

  function EncodeTrailer(count: u64, covered: u64, digest: Digest): (b: bytes)
    ensures |b| == TRAILER_BYTES
  {
    TRAILER_MAGIC + LE(8, count) + LE(8, covered) + digest + LE(8, 0)
  }

  function DecodePrefix(b: bytes): Prefix
    requires |b| >= PREFIX_BYTES
  {
    Prefix(U32At(b, 16), U32At(b, 20), U64At(b, 24), U64At(b, 32), U64At(b, 40), U64At(b, 48))
  }

  /** The checks before any length arithmetic. */
  function PrefixStatus(ctx: Context, b: bytes): Status {
    if |b| < PREFIX_BYTES then Truncated
    else if |b| > MAX_TAPE_BYTES || |b| > ctx.maxTapeBytes then Limit
    else if b[..8] != PREFIX_MAGIC then Magic
    else if U16At(b, 8) != FORMAT_MAJOR || U16At(b, 10) != FORMAT_MINOR then Version
    else if b[12] != BYTE_ORDER_LE then Endian
    else if b[13] != HASH_SHA256 then HashAlgorithm
    else if U16At(b, 14) != PREFIX_BYTES then Structure
    else
      var p := DecodePrefix(b);
      if p.headerBytes == 0 then Schema
      else if p.headerBytes > MAX_HEADER_BYTES then Limit
      else if p.flags / 0x1_0000 != 0 then Version
      else if p.flags % 2 == 1 then Structure
      else if p.recordCount > MAX_RECORD_COUNT || p.recordCount > ctx.maxRecordCount then Limit
      else if U64At(b, 56) != 0 then Reserved
      else OK
  }

  /** Offset of the trailer, when the declared lengths fit in the address space. */
  function TrailerOffset(p: Prefix): Option<size> {
    match Add(PREFIX_BYTES, p.headerBytes)
    case None => None
    case Some(records) =>
      match Add(records, p.recordBytes)
      case None => None
      case Some(trailer) => if Add(trailer, TRAILER_BYTES).None? then None else Some(trailer)
  }

  /** The declared lengths, the trailer, the covered digest and the header. */
  function EnvelopeStatus(ctx: Context, b: bytes): Status
    requires PrefixStatus(ctx, b) == OK
  {
    var p := DecodePrefix(b);
    match TrailerOffset(p)
    case None => Overflow
    case Some(at) =>
      if at + TRAILER_BYTES > |b| then Truncated
      else if at + TRAILER_BYTES < |b| then Structure
      else if p.recordCount == 0 || p.recordCount > p.recordBytes / RECORD_HEADER_BYTES then Structure
      else if b[at..at + 8] != TRAILER_MAGIC then Magic
      else if U64At(b, at + 8) != p.recordCount || U64At(b, at + 16) != at then Structure
      else if U64At(b, at + 56) != 0 then Reserved
      else if ctx.sha256(b[..at]) != b[at + 24..at + 56] then Checksum
      else ctx.headerStatus(b[PREFIX_BYTES..PREFIX_BYTES + p.headerBytes])
  }

  /** The first record of `rest`, once its header and framed length have been checked. */
  function RecordIn(rest: bytes): Record
    requires |rest| >= RECORD_HEADER_BYTES
    requires |rest| >= FramedSize(DecodeHeader(rest[..40]).payloadBytes)
  {
    var h := DecodeHeader(rest[..40]);
    Record(h.kind, h.version, h.flags, h.sequence, h.step, h.tick, rest[40..40 + h.payloadBytes])
  }

  /** One iteration of the record loop on the unread part of the record region. */
  ghost function ReadStep(ctx: Context, flags: u32, count: nat, sequence: nat, st: ReadState, rest: bytes)
    : (r: Result<(Record, ReadState), Status>)
    ensures r.Success? ==> FramedSize(|r.value.0.payload|) <= |rest|
  {
    if |rest| < RECORD_HEADER_BYTES then Failure(Truncated)
    else
      var h := DecodeHeader(rest[..40]);
      var s := HeaderStatus(sequence, st, h);
      if s != OK then Failure(s)
      else if FramedSize(h.payloadBytes) > |rest| then Failure(Truncated)
      else if rest[40 + h.payloadBytes..FramedSize(h.payloadBytes)] != Zeros(Pad8(40 + h.payloadBytes))
      then Failure(Canonical)
      else
        var r := RecordIn(rest);
        match BodyStep(ctx, flags, count, sequence, st, r.kind, r.payload)
        case Failure(e) => Failure(e)
        case Success(next) => Success((r, Advance(next, h)))
  }

  /** The record loop: the records read, the final state and the bytes left over. */
  ghost function ReadAll(ctx: Context, flags: u32, count: nat, sequence: nat, st: ReadState, rest: bytes)
    : Result<(seq<Record>, ReadState, bytes), Status>
    requires sequence <= count
    decreases count - sequence
  {
    if sequence == count then Success(([], st, rest))
    else
      match ReadStep(ctx, flags, count, sequence, st, rest)
      case Failure(e) => Failure(e)
      case Success((r, next)) =>
        match ReadAll(ctx, flags, count, sequence + 1, next, rest[FramedSize(|r.payload|)..])
        case Failure(e) => Failure(e)
        case Success((rs, last, left)) => Success(([r] + rs, last, left))
  }

  predicate EndOk(p: Prefix, last: ReadState, left: bytes) {
    left == [] && last.sawProjection && last.lastKind == TERMINAL && last.step == p.maxStep && last.tick == p.maxTick
  }

  /** What a tape holds: prefix flags, canonical header and records. Everything else is derived. */
  datatype Tape = Tape(flags: u32, header: bytes, records: seq<Record>)

  /** The whole validator: the tape an accepted input holds, or the status of the first failing check. */
  ghost function Validate(ctx: Context, b: bytes): Result<Tape, Status> {
    var s := PrefixStatus(ctx, b);
    if s != OK then Failure(s)
    else
      var e := EnvelopeStatus(ctx, b);
      if e != OK then Failure(e)
      else
        var p := DecodePrefix(b);
        var start := PREFIX_BYTES + p.headerBytes;
        match ReadAll(ctx, p.flags, p.recordCount, 0, START, b[start..|b| - TRAILER_BYTES])
        case Failure(e) => Failure(e)
        case Success((rs, last, left)) =>
          if EndOk(p, last, left) then Success(Tape(p.flags, b[PREFIX_BYTES..start], rs)) else Failure(Structure)
  }

  // ---- The other direction: what a tape looks like on disk ----

  function SerializedSize(t: Tape): nat {
    PREFIX_BYTES + |t.header| + |EncodeRecords(t.records)| + TRAILER_BYTES
  }

  /** A tape whose parts obey every rule, stated without any bytes. */
  ghost predicate ValidTape(ctx: Context, t: Tape) {
    && 0 < |t.header| <= MAX_HEADER_BYTES
    && ctx.headerStatus(t.header) == OK
    && FlagsOk(t.flags)
    && 0 < |t.records| <= ctx.maxRecordCount
    && SerializedSize(t) <= ctx.maxTapeBytes
    && Run(ctx, t.flags, |t.records|, 0, START, t.records).Success?
    && Run(ctx, t.flags, |t.records|, 0, START, t.records).value.sawProjection
  }

  /** The prefix the writer computes for a tape. */
  function PrefixOf(t: Tape): Prefix
    requires t.records != [] && SerializedSize(t) <= MAX_TAPE_BYTES && |t.header| < 0x1_0000_0000
  {
    var last := t.records[|t.records| - 1];
    Prefix(|t.header|, t.flags, |t.records|, |EncodeRecords(t.records)|, last.step, last.tick)
  }

  function Covered(t: Tape): bytes
    requires t.records != [] && SerializedSize(t) <= MAX_TAPE_BYTES && |t.header| < 0x1_0000_0000
  {
    EncodePrefix(PrefixOf(t)) + t.header + EncodeRecords(t.records)
  }

  function Serialize(ctx: Context, t: Tape): (b: bytes)
    requires t.records != [] && SerializedSize(t) <= MAX_TAPE_BYTES && |t.header| < 0x1_0000_0000
    ensures |b| == SerializedSize(t)
  {
    Covered(t) + EncodeTrailer(|t.records|, |Covered(t)|, ctx.sha256(Covered(t)))
  }
}
