/** The tape writer (parity/src/tape_writer.c). */
module TapeWriter {
  import opened Wrappers
  import opened Bytes
  import opened CheckedArithmetic
  import opened TapeFormat
  import opened LifeCycle
  import opened TapeReader
  import TapeBijection
  import TapeLoader
  import RecordCursor

  const FIRST_CAPACITY := 8

  /** Bytes of `out` from the front are `done`, the rest is still zero. */
  ghost predicate Filled(out: array<byte>, done: bytes)
    reads out
  {
    |done| <= out.Length && out[..] == done + Zeros(out.Length - |done|)
  }

  /** Stores `src` where the filled part of `out` ends. */
  method Append(out: array<byte>, at: nat, src: bytes, ghost done: bytes)
    requires Filled(out, done) && at == |done| && at + |src| <= out.Length
    modifies out
    ensures Filled(out, done + src)
  {
    ghost var before := out[..];
    forall i | 0 <= i < |src| {
      out[at + i] := src[i];
    }
    ghost var after := done + src + Zeros(out.Length - |done| - |src|);
    assert forall i :: 0 <= i < out.Length && !(at <= i < at + |src|) ==> out[i] == before[i];
    assert out[..] == after;
  }

  /** Padding is what is already there. */
  lemma FillZeros(out: array<byte>, done: bytes, pad: nat)
    requires Filled(out, done) && |done| + pad <= out.Length
    ensures Filled(out, done + Zeros(pad))
  {
    assert Zeros(out.Length - |done|) == Zeros(pad) + Zeros(out.Length - |done| - pad);
    assert done + (Zeros(pad) + Zeros(out.Length - |done| - pad))
        == done + Zeros(pad) + Zeros(out.Length - |done| - pad);
  }

  class Writer {
    const ctx: Context
    const flags: u32
    const header: bytes
    var count: nat
    var records: array<Record>
    var finalized: bool

    ghost predicate Valid()
      reads this
    {
      && ctx.Valid()
      && flags / 0x1_0000 == 0 && flags % 2 == 0
      && ctx.headerStatus(header) == OK && |header| < 0x1_0000_0000
      && count <= records.Length <= ctx.maxRecordCount
    }

    ghost function Contents(): seq<Record>
      reads this, records
      requires Valid()
    {
      records[..count]
    }

    ghost function Held(): Tape
      reads this, records
      requires Valid()
    {
      Tape(flags, header, Contents())
    }

    constructor (context: Context, options: u32, canonicalHeader: bytes)
      requires context.Valid() && CreateStatus(context, options, canonicalHeader) == OK
      requires |canonicalHeader| < 0x1_0000_0000
      ensures Valid() && fresh(records) && !finalized
      ensures Held() == Tape(options / 2 * 2, canonicalHeader, [])
    {
      ctx, header := context, canonicalHeader;
      flags := options - options % 2;
      count, finalized := 0, false;
      records := new Record[0];
      new;
    }

    /** `otrl_writer_create`: required feature bits the format does not know are refused. */
    static function CreateStatus(context: Context, options: u32, canonicalHeader: bytes): Status {
      if options / 0x1_0000 != 0 then Version else context.headerStatus(canonicalHeader)
    }

    /** `grow_records`: doubles the array, up to the local limit, keeping what it holds. */
    method Grow() returns (status: Status)
      requires Valid() && count == records.Length
      modifies this
      ensures Valid() && Contents() == old(Contents()) && count == old(count) && finalized == old(finalized)
      ensures status == if old(count) == ctx.maxRecordCount then Limit else OK
      ensures status == OK ==> fresh(records) && count < records.Length
      ensures status != OK ==> records == old(records)
    {
      var capacity := if records.Length == 0 then FIRST_CAPACITY else records.Length * 2;
      if capacity > ctx.maxRecordCount {
        capacity := ctx.maxRecordCount;
      }
      if capacity <= records.Length {
        return Limit;
      }
      var grown := new Record[capacity];
      forall i | 0 <= i < count {
        grown[i] := records[i];
      }
      assert grown[..count] == records[..count];
      records := grown;
      return OK;
    }

    /** `otrl_writer_add_record`: appends exactly this record, or changes nothing. */
    method AddRecord(r: Record) returns (status: Status)
      requires Valid()
      modifies this, records
      ensures Valid() && finalized == old(finalized) && (records == old(records) || fresh(records))
      ensures status ==
        if old(finalized) then Usage
        else if r.sequence != old(count) then Sequence
        else if |r.payload| > MAX_RECORD_PAYLOAD_BYTES || old(count) == ctx.maxRecordCount then Limit
        else OK
      ensures Contents() == if status == OK then old(Contents()) + [r] else old(Contents())
    {
      if finalized {
        return Usage;
      }
      if r.sequence != count {
        return Sequence;
      }
      if |r.payload| > MAX_RECORD_PAYLOAD_BYTES {
        return Limit;
      }
      if count == records.Length {
        status := Grow();
        if status != OK {
          return;
        }
      }
      records[count] := r;
      count := count + 1;
      status := OK;
    }

    /** The region size, and the boundary of the last record. */
    method Measure() returns (recordBytes: nat, step: u64, tick: u64)
      requires Valid()
      ensures recordBytes == |EncodeRecords(Contents())|
      ensures count > 0 ==> step == Contents()[count - 1].step && tick == Contents()[count - 1].tick
    {
      hide EncodeRecords, EncodeRecord;
      recordBytes, step, tick := 0, 0, 0;
      ghost var all := Contents();
      assert |EncodeRecords(all[..0])| == 0 by { EmptyRegion(); assert all[..0] == []; }
      var i := 0;
      while i < count
        invariant i <= count
        invariant recordBytes == |EncodeRecords(all[..i])|
        invariant i > 0 ==> step == all[i - 1].step && tick == all[i - 1].tick
      {
        EncodeRecordsSnoc(all, i);
        recordBytes := recordBytes + FramedSize(|records[i].payload|);
        step, tick := records[i].step, records[i].tick;
        i := i + 1;
      }
      assert all[..count] == all;
    }

    /** Stores the records one after another behind what is already in `out`. */
    method PutRecords(out: array<byte>, at: nat, ghost done: bytes)
      requires Valid() && Filled(out, done) && at == |done|
      requires at + |EncodeRecords(Contents())| <= out.Length
      requires out != records as object
      modifies out
      ensures Filled(out, done + EncodeRecords(Contents()))
      ensures Contents() == old(Contents())
    {
      hide EncodeRecords, EncodeRecord, FramedSize, Filled, EncodeHeader;
      ghost var all := Contents();
      var offset := at;
      var i := 0;
      assert done + EncodeRecords(all[..0]) == done by { EmptyRegion(); assert all[..0] == []; }
      while i < count
        invariant i <= count && records[..count] == all
        invariant offset == |done + EncodeRecords(all[..i])|
        invariant Filled(out, done + EncodeRecords(all[..i]))
      {
        EncodeRecordsSnoc(all, i);
        EncodeRecordsSplit(all, i + 1);
        ghost var before := done + EncodeRecords(all[..i]);
        assert records[i] == all[i];
        PutRecord(out, offset, records[i], before);
        assert before + EncodeRecord(all[i]) == done + EncodeRecords(all[..i + 1]);
        offset := offset + FramedSize(|records[i].payload|);
        i := i + 1;
      }
      assert all[..count] == all;
    }

    /** The serialized form of what the writer holds, filled in place from front to back. */
    method Fill(recordBytes: u64, step: u64, tick: u64) returns (out: array<byte>)
      requires Valid() && count > 0 && SerializedSize(Held()) <= MAX_TAPE_BYTES
      requires Prefix(|header|, flags, count, recordBytes, step, tick) == PrefixOf(Held())
      ensures fresh(out) && Contents() == old(Contents())
      ensures out[..] == Serialize(ctx, Held())
    {
      hide EncodeRecords, EncodePrefix, EncodeTrailer, Filled;
      ghost var t := Held();
      var covered := PREFIX_BYTES + |header| + recordBytes;
      var total := covered + TRAILER_BYTES;
      out := new byte[total](_ => 0);
      Blank(out);
      var prefix := EncodePrefix(Prefix(|header|, flags, count, recordBytes, step, tick));
      Append(out, 0, prefix, []);
      assert [] + prefix == prefix;
      Append(out, PREFIX_BYTES, header, prefix);
      PutRecords(out, PREFIX_BYTES + |header|, prefix + header);
      assert Held() == t;
      FilledFront(out, Covered(t));
      var trailer := EncodeTrailer(count, covered, ctx.sha256(out[..covered]));
      Append(out, covered, trailer, Covered(t));
      FilledWhole(out, Covered(t) + trailer);
    }

    /** `otrl_serialize_tape`: fills the output, has the reader validate it, and closes the writer.
        It succeeds exactly when what the writer holds is a valid tape. */
    method Finish() returns (status: Status, out: array<byte>)
      requires Valid()
      modifies this`finalized
      ensures Valid() && fresh(out) && Contents() == old(Contents())
      ensures finalized == (old(finalized) || status == OK)
      ensures status == OK <==> !old(finalized) && ValidTape(ctx, Held())
      ensures old(finalized) || count == 0 ==> status == Usage
      ensures !old(finalized) && count > 0 && SerializedSize(Held()) > ctx.maxTapeBytes ==> status == Limit
      ensures !old(finalized) && count > 0 && SerializedSize(Held()) <= ctx.maxTapeBytes && status != OK ==>
        Validate(ctx, Serialize(ctx, Held())) == Failure(status)
      ensures status == OK ==> SerializedSize(Held()) <= MAX_TAPE_BYTES && out[..] == Serialize(ctx, Held())
    {
      hide EncodeRecords, Serialize, Covered, Run, Validate, EncodePrefix, FlagsOk;
      ghost var t := Held();
      out := new byte[0];
      if finalized || count == 0 {
        return Usage, out;
      }
      var recordBytes, step, tick := Measure();
      if PREFIX_BYTES + |header| + recordBytes + TRAILER_BYTES > ctx.maxTapeBytes {
        return Limit, out;
      }
      out := Fill(recordBytes, step, tick);
      var r := TapeLoader.ValidateBytes(ctx, out[..], true);
      SelfCheck(ctx, t);
      if r.Failure? {
        assert Validate(ctx, out[..]).Failure?;
        FailureIsNotOK(ctx, out[..]);
        return r.error, out;
      }
      finalized := true;
      return OK, out;
    }
  }

  lemma FailureIsNotOK(ctx: Context, b: bytes)
    ensures Validate(ctx, b).Failure? ==> Validate(ctx, b).error != OK
  {
    hide ReadAll, UInt;
    if PrefixStatus(ctx, b) == OK && EnvelopeStatus(ctx, b) == OK {
      var p := DecodePrefix(b);
      ReadAllFails(ctx, p.flags, p.recordCount, 0, START, b[PREFIX_BYTES + p.headerBytes..|b| - TRAILER_BYTES]);
    }
  }

  lemma {:induction false} ReadAllFails(ctx: Context, flags: u32, count: nat, sequence: nat, st: ReadState, rest: bytes)
    requires sequence <= count
    ensures var r := ReadAll(ctx, flags, count, sequence, st, rest); r.Failure? ==> r.error != OK
    decreases count - sequence
  {
    hide ReadStep, FramedSize;
    if sequence < count {
      TapeLoader.StepFails(ctx, flags, count, sequence, st, rest);
      match ReadStep(ctx, flags, count, sequence, st, rest)
      case Failure(_) =>
      case Success((r, next)) =>
        ReadAllFails(ctx, flags, count, sequence + 1, next, rest[FramedSize(|r.payload|)..]);
    }
  }

  lemma Blank(out: array<byte>)
    requires forall i :: 0 <= i < out.Length ==> out[i] == 0
    ensures Filled(out, [])
  {
    assert out[..] == [] + Zeros(out.Length - 0);
  }

  lemma FilledFront(out: array<byte>, done: bytes)
    requires Filled(out, done)
    ensures |done| <= out.Length && out[..|done|] == done
  {
  }

  lemma FilledWhole(out: array<byte>, done: bytes)
    requires Filled(out, done) && |done| == out.Length
    ensures out[..] == done
  {
    assert done + Zeros(0) == done;
  }

  method PutRecord(out: array<byte>, at: nat, r: Record, ghost done: bytes)
    requires Filled(out, done) && at == |done| && at + |EncodeRecord(r)| <= out.Length
    modifies out
    ensures Filled(out, done + EncodeRecord(r))
  {
    hide EncodeHeader;
    var head := EncodeHeader(HeaderOf(r));
    Append(out, at, head, done);
    Append(out, at + RECORD_HEADER_BYTES, r.payload, done + head);
    ghost var pad := Pad8(RECORD_HEADER_BYTES + |r.payload|);
    FillZeros(out, done + head + r.payload, pad);
    assert done + head + r.payload + Zeros(pad) == done + EncodeRecord(r);
  }

  /** The final self-check of the writer passes exactly for valid tapes. */
  lemma SelfCheck(ctx: Context, t: Tape)
    requires ctx.Valid() && t.records != [] && SerializedSize(t) <= MAX_TAPE_BYTES && |t.header| < 0x1_0000_0000
    ensures Validate(ctx, Serialize(ctx, t)).Success? <==> ValidTape(ctx, t)
    ensures ValidTape(ctx, t) ==> Validate(ctx, Serialize(ctx, t)) == Success(t)
  {
    hide Serialize, Covered;
    if ValidTape(ctx, t) {
      TapeBijection.ReaderComplete(ctx, t);
    }
    var r := Validate(ctx, Serialize(ctx, t));
    if r.Success? {
      TapeBijection.ReaderSound(ctx, Serialize(ctx, t));
      SerializeInjective(ctx, t, r.value);
    }
  }

  lemma SerializedParts(ctx: Context, t: Tape)
    requires t.records != [] && SerializedSize(t) <= MAX_TAPE_BYTES && |t.header| < 0x1_0000_0000
    ensures var b := Serialize(ctx, t);
      && DecodePrefix(b) == PrefixOf(t)
      && b[64..64 + |t.header|] == t.header
      && b[64 + |t.header|..|b| - 64] == EncodeRecords(t.records)
  {
    hide EncodeRecords, EncodePrefix, EncodeTrailer, DecodePrefix, U16At, U64At;
    var b := Serialize(ctx, t);
    assert b[..|Covered(t)|] == Covered(t);
    assert b[..64] == EncodePrefix(PrefixOf(t));
    TapeBijection.PrefixComplete(PrefixOf(t), b);
  }

  /** Serialization never gives two tapes, valid or not, the same bytes. */
  lemma SerializeInjective(ctx: Context, t: Tape, u: Tape)
    requires t.records != [] && SerializedSize(t) <= MAX_TAPE_BYTES && |t.header| < 0x1_0000_0000
    requires u.records != [] && SerializedSize(u) <= MAX_TAPE_BYTES && |u.header| < 0x1_0000_0000
    requires Serialize(ctx, t) == Serialize(ctx, u)
    ensures t == u
  {
    hide EncodeRecords, Serialize, DecodePrefix, RecordCursor.Walk;
    SerializedParts(ctx, t);
    SerializedParts(ctx, u);
    var region := EncodeRecords(t.records);
    assert region[0..|region|] == region;
    RecordCursor.WalkRegion(region, 0, |region|, t.records);
    RecordCursor.WalkRegion(region, 0, |region|, u.records);
  }
}
