/** The forward cursor over a loaded tape: `otrl_record_cursor_init` and `otrl_record_cursor_next`
    (parity/src/tape_reader.c). In mapped mode it decodes records again without checking them. */
module RecordCursor {
  import opened Wrappers
  import opened Bytes
  import opened CheckedArithmetic
  import opened TapeFormat
  import opened LifeCycle
  import opened TapeReader
  import opened TapeLoader

  function RegionStart(lt: LoadedTape): nat {
    PREFIX_BYTES + |lt.header|
  }

  /** The memory `lt` owns holds exactly these records. */
  ghost predicate Holds(lt: LoadedTape, rs: seq<Record>) {
    && |rs| == lt.recordCount
    && match lt.storage
       case Retained(kept) => kept == rs
       case Mapped(file) =>
         && |file| == RegionStart(lt) + |EncodeRecords(rs)| + TRAILER_BYTES
         && |file| <= MAX_TAPE_BYTES
         && file[RegionStart(lt)..|file| - TRAILER_BYTES] == EncodeRecords(rs)
  }

  lemma RepresentsHolds(ctx: Context, lt: LoadedTape, t: Tape)
    requires Represents(ctx, lt, t)
    ensures Holds(lt, t.records)
  {
    hide EncodeRecords, EncodePrefix, EncodeTrailer, Run;
    if lt.storage.Mapped? {
      var file := Serialize(ctx, t);
      assert Covered(t)[PREFIX_BYTES + |t.header|..] == EncodeRecords(t.records);
      assert file[..|Covered(t)|] == Covered(t);
      SubRange(file, 0, |Covered(t)|, RegionStart(lt), |Covered(t)|);
    }
  }

  /** What the cursor decodes at `offset`, and where it goes next; nothing when a read would leave
      the bytes before `limit`. */
  function DecodeAt(file: bytes, offset: nat, limit: nat): Option<(Record, nat)>
    requires limit <= |file|
  {
    if offset + RECORD_HEADER_BYTES > limit then None
    else
      var h := DecodeHeader(file[offset..offset + RECORD_HEADER_BYTES]);
      var next := offset + FramedSize(h.payloadBytes);
      if next > limit then None
      else
        var start := offset + RECORD_HEADER_BYTES;
        Some((Record(h.kind, h.version, h.flags, h.sequence, h.step, h.tick, file[start..start + h.payloadBytes]),
              next))
  }

  /** `n` cursor steps from `offset`. */
  function Walk(file: bytes, offset: nat, limit: nat, n: nat): Option<(seq<Record>, nat)>
    requires limit <= |file|
    decreases n
  {
    if n == 0 then Some(([], offset))
    else
      match DecodeAt(file, offset, limit)
      case None => None
      case Some((r, next)) =>
        match Walk(file, next, limit, n - 1)
        case None => None
        case Some((rs, last)) => Some(([r] + rs, last))
  }

  /** Decoding the front of a laid-out record region gives its first record back. */
  lemma DecodeFront(file: bytes, offset: nat, limit: nat, rs: seq<Record>)
    requires offset <= limit <= |file| && rs != []
    requires file[offset..limit] == EncodeRecords(rs)
    ensures DecodeAt(file, offset, limit) == Some((rs[0], offset + |EncodeRecord(rs[0])|))
    ensures offset + |EncodeRecord(rs[0])| <= limit
    ensures file[offset + |EncodeRecord(rs[0])|..limit] == EncodeRecords(rs[1..])
  {
    hide EncodeHeader, DecodeHeader, EncodeRecords;
    var region := file[offset..limit];
    var r, tail := rs[0], EncodeRecords(rs[1..]);
    RegionFront(rs);
    assert region == EncodeRecord(r) + tail;
    var n := |r.payload|;
    HeaderRoundTrip(HeaderOf(r));
    assert region[0..40] == EncodeHeader(HeaderOf(r));
    assert region[40..40 + n] == r.payload;
    assert region[FramedSize(n)..|region|] == tail;
    SubRange(file, offset, limit, 0, 40);
    SubRange(file, offset, limit, 40, 40 + n);
    SubRange(file, offset, limit, FramedSize(n), |region|);
  }

  lemma RegionFront(rs: seq<Record>)
    requires rs != []
    ensures EncodeRecords(rs) == EncodeRecord(rs[0]) + EncodeRecords(rs[1..])
  {
  }

  lemma {:induction false} WalkRegion(file: bytes, offset: nat, limit: nat, rs: seq<Record>)
    requires offset <= limit <= |file|
    requires file[offset..limit] == EncodeRecords(rs)
    ensures Walk(file, offset, limit, |rs|) == Some((rs, limit))
    decreases |rs|
  {
    hide EncodeRecord, EncodeRecords, DecodeAt;
    if rs == [] {
      assert |EncodeRecords([])| == 0 by { EmptyRegion(); }
    } else {
      DecodeFront(file, offset, limit, rs);
      var next := offset + |EncodeRecord(rs[0])|;
      WalkRegion(file, next, limit, rs[1..]);
      assert [rs[0]] + rs[1..] == rs;
    }
  }

  /** Walking the bytes of any valid tape, re-decoding without any of the reader's checks, yields
      exactly its records, ends at the trailer and never reads outside the record region. */
  lemma WalkExact(ctx: Context, t: Tape)
    requires ctx.Valid() && ValidTape(ctx, t)
    ensures var file := Serialize(ctx, t);
      Walk(file, PREFIX_BYTES + |t.header|, |file| - TRAILER_BYTES, |t.records|)
        == Some((t.records, |file| - TRAILER_BYTES))
  {
    hide EncodePrefix, EncodeTrailer, Run, Walk, EncodeRecords;
    var file := Serialize(ctx, t);
    var start := PREFIX_BYTES + |t.header|;
    assert Covered(t)[start..] == EncodeRecords(t.records);
    assert file[..|Covered(t)|] == Covered(t);
    SubRange(file, 0, |Covered(t)|, start, |Covered(t)|);
    WalkRegion(file, start, |file| - TRAILER_BYTES, t.records);
  }

  class Cursor {
    const tape: LoadedTape
    ghost const all: seq<Record>
    var index: nat
    var offset: nat

    ghost predicate Valid()
      reads this
    {
      && Holds(tape, all)
      && index <= |all|
      && (tape.storage.Mapped? ==>
            var limit := |tape.storage.file| - TRAILER_BYTES;
            offset <= limit && tape.storage.file[offset..limit] == EncodeRecords(all[index..]))
    }

    /** The records not yet handed out. */
    ghost function Remaining(): seq<Record>
      reads this
      requires Valid()
    {
      all[index..]
    }

    constructor (lt: LoadedTape, ghost rs: seq<Record>)
      requires Holds(lt, rs)
      ensures Valid() && tape == lt && all == rs && index == 0
    {
      tape, all := lt, rs;
      index, offset := 0, RegionStart(lt);
      new;
      assert rs[0..] == rs;
    }

    /** Hands out the next record. After the last one, a mapped cursor stands on the trailer. */
    method Next() returns (r: Option<Record>)
      requires Valid()
      modifies this
      ensures Valid()
      ensures r == if old(index) < |all| then Some(all[old(index)]) else None
      ensures index == if old(index) < |all| then old(index) + 1 else old(index)
      ensures Remaining() == if r.Some? then old(Remaining())[1..] else old(Remaining())
      ensures tape.storage.Mapped? && index == |all| ==> offset == |tape.storage.file| - TRAILER_BYTES
    {
      hide EncodeRecords, EncodeHeader, DecodeHeader;
      EmptyRegion();
      if index >= tape.recordCount {
        assert all[index..] == [];
        return None;
      }
      assert all[index..][0] == all[index] && all[index..][1..] == all[index + 1..];
      match tape.storage
      case Retained(records) =>
        r := Some(records[index]);
        index := index + 1;
      case Mapped(file) =>
        ghost var limit := |file| - TRAILER_BYTES;
        DecodeFront(file, offset, limit, all[index..]);
        var start := offset + RECORD_HEADER_BYTES;
        var h := DecodeHeader(file[offset..start]);
        r := Some(Record(h.kind, h.version, h.flags, h.sequence, h.step, h.tick, file[start..start + h.payloadBytes]));
        var framed := Align8(Add(RECORD_HEADER_BYTES, h.payloadBytes).value).value;
        assert framed == |EncodeRecord(all[index])|;
        offset := offset + framed;
        index := index + 1;
        assert index == |all| ==> all[index..] == [];
    }
  }
}
