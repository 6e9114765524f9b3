/** The minimizer as the library runs it, and what it promises (parity/src/comparator.c). Publishing the
    result under its final name is modelled in AtomicWrite; here the output is the finished bytes. */
module MinimizerRun {
  import opened Wrappers
  import opened Bytes
  import opened CheckedArithmetic
  import opened TapeFormat
  import opened LifeCycle
  import opened TapeReader
  import opened TapeLoader
  import opened RecordCursor
  import opened Comparator
  import opened ComparatorExactness
  import opened ComparatorRun
  import opened Minimizer
  import TapeBijection
  import TapeWriter

  /** The fields that must agree before and after minimization. */
  predicate SameSignature(a: CompareResult, b: CompareResult) {
    && a.difference.kind == b.difference.kind
    && a.difference.fieldId == b.difference.fieldId
    && a.recordType == b.recordType
    && a.step == b.step && a.tick == b.tick
    && a.boundaryKind == b.boundaryKind && a.boundaryOrdinal == b.boundaryOrdinal
    && a.difference.elementIndex == b.difference.elementIndex
    && a.difference.oracleValue == b.difference.oracleValue
    && a.difference.targetValue == b.difference.targetValue
  }

  lemma KeptStops(rs: seq<Record>, required: nat, n: nat)
    requires n <= |rs| && forall k :: 0 <= k < |rs| ==> (rs[k].kind == TERMINAL <==> k + 1 == |rs|)
    requires n <= required + 1 && forall k :: 0 <= k < n ==> rs[k].kind != TERMINAL
    requires n == |rs| || n > required || rs[n].kind == TERMINAL
    ensures n == Kept(rs, required)
  {
  }

  /** The first walk over the target: how much is kept and where it ends. */
  method MeasureCut(target: LoadedTape, required: nat, ghost rs: seq<Record>)
      returns (n: nat, recordBytes: nat, step: u64, tick: u64)
    requires Holds(target, rs) && Sequenced(rs)
    requires forall k :: 0 <= k < |rs| ==> (rs[k].kind == TERMINAL <==> k + 1 == |rs|)
    ensures n == Kept(rs, required)
    ensures recordBytes == |EncodeRecords(rs[..n])|
    ensures if n == 0 then step == tick == 0 else step == rs[n - 1].step && tick == rs[n - 1].tick
  {
    hide EncodeRecords, Holds, Cursor.Valid, Cursor.Remaining;
    var cursor := new Cursor(target, rs);
    var r := cursor.Next();
    n, recordBytes, step, tick := 0, 0, 0, 0;
    assert |EncodeRecords(rs[..0])| == 0 by { EmptyRegion(); assert rs[..0] == []; }
    while r.Some? && r.value.sequence <= required && r.value.kind != TERMINAL
      invariant cursor.Valid() && cursor.all == rs && fresh(cursor)
      invariant At(rs, n, r, cursor.index)
      invariant n <= required + 1 && forall k :: 0 <= k < n ==> rs[k].kind != TERMINAL
      invariant recordBytes == |EncodeRecords(rs[..n])|
      invariant if n == 0 then step == tick == 0 else step == rs[n - 1].step && tick == rs[n - 1].tick
      decreases |rs| - n
    {
      EncodeRecordsSnoc(rs, n);
      recordBytes := recordBytes + FramedSize(|r.value.payload|);
      step, tick := r.value.step, r.value.tick;
      r := cursor.Next();
      n := n + 1;
    }
    KeptStops(rs, required, n);
  }

  /** The second walk: every kept record is written out again. */
  method WriteKept(target: LoadedTape, required: nat, before: bytes, ghost rs: seq<Record>) returns (out: bytes)
    requires Holds(target, rs) && Sequenced(rs)
    requires forall k :: 0 <= k < |rs| ==> (rs[k].kind == TERMINAL <==> k + 1 == |rs|)
    ensures out == before + EncodeRecords(rs[..Kept(rs, required)])
  {
    hide EncodeRecords, Holds, Cursor.Valid, Cursor.Remaining, EncodeHeader;
    var cursor := new Cursor(target, rs);
    var r := cursor.Next();
    ghost var n := 0;
    out := before;
    assert before + EncodeRecords(rs[..0]) == before by { EmptyRegion(); assert rs[..0] == []; }
    while r.Some? && r.value.sequence <= required && r.value.kind != TERMINAL
      invariant cursor.Valid() && cursor.all == rs && fresh(cursor)
      invariant At(rs, n, r, cursor.index)
      invariant n <= required + 1 && forall k :: 0 <= k < n ==> rs[k].kind != TERMINAL
      invariant out == before + EncodeRecords(rs[..n])
      decreases |rs| - n
    {
      var unpadded := RECORD_HEADER_BYTES + |r.value.payload|;
      EncodeRecordsSnoc(rs, n);
      assert before + EncodeRecords(rs[..n]) + EncodeRecord(rs[n]) == before + EncodeRecords(rs[..n + 1]);
      assert out + EncodeHeader(HeaderOf(r.value)) + r.value.payload + Zeros(Pad8(unpadded)) == out + EncodeRecord(rs[n]);
      out := out + EncodeHeader(HeaderOf(r.value)) + r.value.payload + Zeros(Pad8(unpadded));
      r := cursor.Next();
      n := n + 1;
    }
    KeptStops(rs, required, n);
  }

  /** `write_minimized_stream`: exactly the serialization of the cut, unless it is over the limit of the call's
      context, which need not be the one the target was loaded under. */
  method WriteMinimized(ctx: Context, target: LoadedTape, required: nat, ghost t: Tape)
      returns (status: Status, out: bytes)
    requires ctx.Valid() && Represents(ctx.Unlimited(), target, t)
    ensures var cut := Cut(t, Kept(t.records, required));
      && status == (if SerializedSize(cut) > ctx.maxTapeBytes then Limit else OK)
      && (status == OK ==> SerializedSize(cut) <= MAX_TAPE_BYTES && out == Serialize(ctx, cut))
  {
    hide EncodeRecords, EncodePrefix, EncodeTrailer, Run, RecordOk, ValidTape, EncodeRecord, Readable;
    ghost var rs := t.records;
    HeldRecords(ctx.Unlimited(), target, t);
    ValidSound(ctx.Unlimited(), t);
    var n, keptBytes, step, tick := MeasureCut(target, required, rs);
    ghost var cut := Cut(t, n);
    var terminal := Record(TERMINAL, 1, RECORD_FLAG_REQUIRED, n, step, tick, TERMINAL_PAYLOAD);
    assert terminal == FreshTerminal(rs[..n]);
    var recordBytes := keptBytes + RECORD_HEADER_BYTES + 8;
    CutRegion(rs, n, terminal);
    if PREFIX_BYTES + TRAILER_BYTES + recordBytes + |target.header| > ctx.maxTapeBytes {
      return Limit, [];
    }
    var prefix := EncodePrefix(Prefix(|target.header|, target.flags, n + 1, recordBytes, step, tick));
    assert PrefixOf(cut) == Prefix(|target.header|, target.flags, n + 1, recordBytes, step, tick);
    out := WriteKept(target, required, prefix + target.header, rs);
    var covered := out + EncodeRecord(terminal);
    assert covered == Covered(cut);
    out := covered + EncodeTrailer(n + 1, |covered|, ctx.sha256(covered));
    status := OK;
  }

  lemma HeldRecords(ctx: Context, lt: LoadedTape, t: Tape)
    requires Represents(ctx, lt, t)
    ensures Holds(lt, t.records) && lt.header == t.header && lt.flags == t.flags
    ensures 0 < |t.header| <= MAX_HEADER_BYTES && 0 < |t.records| <= MAX_RECORD_COUNT && ctx.Valid() && ValidTape(ctx, t)
  {
    RepresentsHolds(ctx, lt, t);
  }

  lemma CutRegion(rs: seq<Record>, n: nat, terminal: Record)
    requires n <= |rs| && terminal.payload == TERMINAL_PAYLOAD
    ensures EncodeRecords(rs[..n] + [terminal]) == EncodeRecords(rs[..n]) + EncodeRecord(terminal)
    ensures |EncodeRecord(terminal)| == 48
  {
    hide EncodeRecords;
    EncodeRecordsConcat(rs[..n], [terminal]);
    EncodeOne(terminal);
  }

  /** `closure_record`: one walk to the divergence, and on to the projection that closes its command. */
  method FindClosure(target: LoadedTape, divergence: nat, ghost rs: seq<Record>) returns (closure: nat)
    requires Holds(target, rs) && Sequenced(rs) && divergence < |rs|
    ensures closure == Closure(rs, divergence)
  {
    hide Holds, Cursor.Valid, Cursor.Remaining;
    var cursor := new Cursor(target, rs);
    var r := cursor.Next();
    ghost var n := 0;
    while r.Some? && r.value.sequence != divergence
      invariant cursor.Valid() && cursor.all == rs && fresh(cursor)
      invariant At(rs, n, r, cursor.index) && n <= divergence
      decreases |rs| - n
    {
      r := cursor.Next();
      n := n + 1;
    }
    if r.Some? && IsCommand(r.value.kind) {
      r := cursor.Next();
      n := n + 1;
      while r.Some?
        invariant cursor.Valid() && cursor.all == rs && fresh(cursor)
        invariant At(rs, n, r, cursor.index) && divergence < n
        invariant NextProjection(rs, divergence + 1) == NextProjection(rs, n)
        decreases |rs| - n
      {
        if r.value.kind == AUTHORITATIVE_PROJECTION {
          return r.value.sequence;
        }
        r := cursor.Next();
        n := n + 1;
      }
    }
    return divergence;
  }

  /** The bisection for the first position past `required`. */
  method Bisect(count: nat, required: nat) returns (last: nat)
    requires count > 0
    ensures last == if required < count then required else count - 1
  {
    var low, high := 0, count;
    while low < high
      invariant low <= high <= count
      invariant low <= required + 1 && (high == count || high > required)
    {
      var middle := low + (high - low) / 2;
      if middle > required {
        high := middle;
      } else {
        low := middle + 1;
      }
    }
    last := low - 1;
  }

  /** Where a successful minimization is guaranteed: the cut is closed, and when the divergence lies at
      the target's terminal, the fresh terminal still differs from the oracle's record. */
  ghost predicate CutWorks(ctx: Context, s: Tape, t: Tape)
    requires ctx.Valid() && ValidTape(ctx, s) && ValidTape(ctx, t)
    requires AllReadable(s.records) && AllReadable(t.records)
    requires CompareFrom(s.records, t.records, 0, 0, false).Differs?
  {
    hide Run, CompareFrom, EncodeRecords, Readable;
    SizeLimit(ctx, t);
    var o := CompareFrom(s.records, t.records, 0, 0, false);
    o.j < |t.records| && o.i < |s.records| &&
    var n := Kept(t.records, Closure(t.records, o.j));
    && Closed(ctx, t, n)
    && (t.records[o.j].kind == TERMINAL ==> Erase(s.records[o.i]) != Erase(FreshTerminal(t.records[..n])))
  }

  /** What a minimized output promises: it is a valid tape no longer than the target's, namely the target cut at its
      divergence, and comparing the unchanged oracle with it gives the very result the whole target gives. */
  ghost predicate Reproduces(ctx: Context, s: Tape, t: Tape, out: bytes, result: CompareResult)
    requires AllReadable(s.records) && AllReadable(t.records) && |t.records| < 0x1_0000_0000_0000_0000
    requires CompareFrom(s.records, t.records, 0, 0, false).Differs?
    requires CompareFrom(s.records, t.records, 0, 0, false).j < |t.records|
  {
    && |out| <= SerializedSize(t)
    && Validate(ctx, out).Success?
    && var m := Validate(ctx, out).value;
    && IsCut(t, CompareFrom(s.records, t.records, 0, 0, false).j, m)
    && AllReadable(m.records)
    && result == CompareRecords(s.records, m.records) == CompareRecords(s.records, t.records)
  }

  /** No shorter prefix of the target, closed in the same way, shows the oracle this result. */
  ghost predicate NoShorter(s: Tape, t: Tape, j: nat, result: CompareResult)
    requires AllReadable(s.records) && AllReadable(t.records) && j <= |t.records| < 0x1_0000_0000_0000_0000
  {
    forall n: nat :: n <= j ==>
      var c := t.records[..n] + [EndAfter(t.records, n)];
      (EndReadable(t.records, n); !SameSignature(CompareRecords(s.records, c), result))
  }

  lemma EndReadable(rs: seq<Record>, n: nat)
    requires AllReadable(rs) && n <= |rs| < 0x1_0000_0000_0000_0000
    ensures AllReadable(rs[..n] + [EndAfter(rs, n)])
  {
  }

  /** How a minimization that gets as far as the cut ends: a cut over the limits of the call is refused, one that is
      not closed does not validate, and one that shows something else is an invariant violation. */
  ghost function CutStatus(ctx: Context, s: Tape, t: Tape): Status
    requires ctx.Valid() && ValidTape(ctx.Unlimited(), s) && ValidTape(ctx.Unlimited(), t)
    requires AllReadable(s.records) && AllReadable(t.records)
    requires CompareFrom(s.records, t.records, 0, 0, false).Differs?
  {
    hide Run, CompareFrom, EncodeRecords, Readable, ValidTape;
    var wide := ctx.Unlimited();
    SizeLimit(wide, t);
    DivergesWithin(wide, s, t);
    var n := Kept(t.records, Closure(t.records, CompareFrom(s.records, t.records, 0, 0, false).j));
    if !TapeBijection.WithinLimits(ctx, Cut(t, n)) then Limit
    else if !Closed(wide, t, n) then Structure
    else if !CutWorks(wide, s, t) then Invariant
    else OK
  }

  lemma DivergesWithin(ctx: Context, s: Tape, t: Tape)
    requires ctx.Valid() && ValidTape(ctx, s) && ValidTape(ctx, t)
    requires AllReadable(s.records) && AllReadable(t.records)
    requires CompareFrom(s.records, t.records, 0, 0, false).Differs?
    ensures CompareFrom(s.records, t.records, 0, 0, false).j < |t.records|
  {
    hide Run, CompareFrom, EncodeRecords, Readable, ValidTape;
    ComparisonExact(ctx, s, t);
  }

  /** Minimization succeeds exactly when the cut works and is within the limits of the call, and it always is when the
      target is. */
  lemma CutStatusOK(ctx: Context, s: Tape, t: Tape)
    requires ctx.Valid() && ValidTape(ctx.Unlimited(), s) && ValidTape(ctx.Unlimited(), t)
    requires AllReadable(s.records) && AllReadable(t.records)
    requires CompareFrom(s.records, t.records, 0, 0, false).Differs?
    ensures var o := CompareFrom(s.records, t.records, 0, 0, false);
      && o.j < |t.records| < 0x1_0000_0000_0000_0000
      && var cut := Cut(t, Kept(t.records, Closure(t.records, o.j)));
      && (CutStatus(ctx, s, t) == OK <==> CutWorks(ctx.Unlimited(), s, t) && TapeBijection.WithinLimits(ctx, cut))
      && (TapeBijection.WithinLimits(ctx, t) ==> TapeBijection.WithinLimits(ctx, cut))
  {
    hide Run, CompareFrom, EncodeRecords, Readable, ValidTape, Closed, RecordOk;
    var wide := ctx.Unlimited();
    SizeLimit(wide, t);
    DivergesWithin(wide, s, t);
    AtLeastTwo(wide, t);
    ValidSound(wide, t);
    CutValid(wide, t, Kept(t.records, Closure(t.records, CompareFrom(s.records, t.records, 0, 0, false).j)));
  }

  /** Each way a minimization can end, by what the cut is: too large for the call, no valid tape, indistinguishable
      from the oracle, or a valid tape that differs from it. */
  lemma CutStatusExact(ctx: Context, s: Tape, t: Tape)
    requires ctx.Valid() && ValidTape(ctx.Unlimited(), s) && ValidTape(ctx.Unlimited(), t)
    requires AllReadable(s.records) && AllReadable(t.records)
    requires CompareFrom(s.records, t.records, 0, 0, false).Differs?
    ensures var o := CompareFrom(s.records, t.records, 0, 0, false);
      && o.j < |t.records| < 0x1_0000_0000_0000_0000
      && var cut := Cut(t, Kept(t.records, Closure(t.records, o.j)));
      && (CutStatus(ctx, s, t) == Limit <==> SerializedSize(cut) > ctx.maxTapeBytes || |cut.records| > ctx.maxRecordCount)
      && (CutStatus(ctx, s, t) == Structure ==> !ValidTape(ctx.Unlimited(), cut))
      && (CutStatus(ctx, s, t) in {Invariant, OK} ==> ValidTape(ctx, cut) && AllReadable(cut.records))
      && (CutStatus(ctx, s, t) == Invariant ==> CompareFrom(s.records, cut.records, 0, 0, false).Same?)
      && (CutStatus(ctx, s, t) == OK ==> CompareFrom(s.records, cut.records, 0, 0, false).Differs?)
      && CutStatus(ctx, s, t) in {Limit, Structure, Invariant, OK}
  {
    hide ValidTape, Run, CompareFrom, Readable, Serialize, Covered, Closed, EncodeRecords, RecordOk, CutWorks;
    var wide := ctx.Unlimited();
    CutOutcome(ctx, s, t);
    SizeLimit(wide, t);
    AtLeastTwo(wide, t);
    ValidSound(wide, t);
    var n := Kept(t.records, Closure(t.records, CompareFrom(s.records, t.records, 0, 0, false).j));
    CutValid(wide, t, n);
    if Validate(ctx, Serialize(ctx, Cut(t, n))).Success? {
      TapeBijection.ReaderSound(ctx, Serialize(ctx, Cut(t, n)));
    }
  }

  /** What cutting and closing a diverging target leads to, when tapes have been loaded under any limits. */
  lemma CutOutcome(ctx: Context, s: Tape, t: Tape)
    requires ctx.Valid() && ValidTape(ctx.Unlimited(), s) && ValidTape(ctx.Unlimited(), t)
    requires AllReadable(s.records) && AllReadable(t.records)
    requires CompareFrom(s.records, t.records, 0, 0, false).Differs?
    ensures var o := CompareFrom(s.records, t.records, 0, 0, false);
      o.j < |t.records| &&
      var wide := ctx.Unlimited();
      var n := Kept(t.records, Closure(t.records, o.j));
      var cut := Cut(t, n);
      && SerializedSize(cut) <= SerializedSize(t) <= MAX_TAPE_BYTES
      && Validate(ctx, Serialize(ctx, cut))
         == (if !TapeBijection.WithinLimits(ctx, cut) then Failure(Limit)
             else if !Closed(wide, t, n) then Failure(Structure)
             else Success(cut))
      && (CutWorks(wide, s, t) ==> Closed(wide, t, n))
      && (Closed(wide, t, n) ==>
            && AllReadable(cut.records)
            && (CutWorks(wide, s, t) <==> CompareFrom(s.records, cut.records, 0, 0, false).Differs?)
            && IsCut(t, o.j, cut)
            && (CutWorks(wide, s, t) ==> CompareRecords(s.records, cut.records) == CompareRecords(s.records, t.records)))
  {
    hide ValidTape, Run, CompareFrom, Readable, Serialize, Covered, Closed, EncodeRecords, RecordOk;
    var wide := ctx.Unlimited();
    ComparisonExact(wide, s, t);
    ValidSound(wide, t);
    AtLeastTwo(wide, t);
    SizeLimit(wide, t);
    var a, b := s.records, t.records;
    var o := CompareFrom(a, b, 0, 0, false);
    var n := Kept(b, Closure(b, o.j));
    var cut := Cut(t, n);
    CutValid(wide, t, n);
    CutRead(ctx, t, n);
    if Closed(wide, t, n) {
      ValidSound(wide, cut);
      CutIsCut(wide, t, o.j);
      if o.j < n {
        assert b[o.j].kind != TERMINAL;
        assert cut.records[..n] == b[..n];
        CutReports(a, b, cut.records, n);
      } else {
        assert o.j == n == |b| - 1;
        CutAtTerminal(wide, s, t);
      }
    }
  }

  lemma SizeLimit(ctx: Context, t: Tape)
    requires ctx.Valid() && ValidTape(ctx, t)
    ensures SerializedSize(t) <= ctx.maxTapeBytes <= MAX_TAPE_BYTES && |t.records| <= MAX_RECORD_COUNT
    ensures |t.header| <= MAX_HEADER_BYTES
  {
  }

  lemma AtLeastTwo(ctx: Context, t: Tape)
    requires ValidTape(ctx, t)
    ensures |t.records| >= 2
  {
    hide HeaderStatus, FixedPayloadStatus;
    RunPrefix(ctx, t, 0);
    assert t.records[..0] == [];
    ValidSound(ctx, t);
    assert t.records[0].kind == REPLAY_START;
  }

  /** When the divergence lies at the target's terminal, the cut replaces just that record. */
  lemma CutAtTerminal(ctx: Context, s: Tape, t: Tape)
    requires ctx.Valid() && ValidTape(ctx, s) && ValidTape(ctx, t)
    requires AllReadable(s.records) && AllReadable(t.records)
    requires CompareFrom(s.records, t.records, 0, 0, false).Differs?
    requires CompareFrom(s.records, t.records, 0, 0, false).j == |t.records| - 1
    requires var cut := Cut(t, |t.records| - 1); ValidTape(ctx, cut) && AllReadable(cut.records)
    ensures var o := CompareFrom(s.records, t.records, 0, 0, false);
      var cut := Cut(t, |t.records| - 1);
      o.i < |s.records| &&
      var differs := Erase(s.records[o.i]) != Erase(cut.records[|t.records| - 1]);
      && (CompareFrom(s.records, cut.records, 0, 0, false).Differs? <==> differs)
      && (differs ==> CompareRecords(s.records, cut.records) == CompareRecords(s.records, t.records))
  {
    hide ValidTape, Run, Readable, RecordOk;
    SizeLimit(ctx, t);
    var n := |t.records| - 1;
    var cut := Cut(t, n);
    var a, b, c := s.records, t.records, cut.records;
    ComparisonExact(ctx, s, t);
    ValidSound(ctx, s);
    ValidSound(ctx, t);
    ValidSound(ctx, cut);
    var o := CompareFrom(a, b, 0, 0, false);
    assert c[..n] == b[..n];
    ReachesLast(a, b, c, 0, 0, false);
    RecordExact(ctx, a[o.i], c[n]);
    PlainTerminal(a[o.i], b[n]);
    PlainTerminal(a[o.i], c[n]);
    if RecordDiff(a[o.i], c[n]).None? {
      assert a[o.i].kind == TERMINAL;
      assert o.i == |a| - 1;
    }
  }

  /** Against a terminal the comparison reports no values, only that the records differ. */
  lemma PlainTerminal(l: Record, r: Record)
    requires Readable(l) && Readable(r) && r.kind == TERMINAL
    ensures RecordDiff(l, r).Some? ==> RecordDiff(l, r).value == Base(RecordDivergence)
  {
  }

  /** `otrl_minimize_prefix`, up to publication. The tapes may have been loaded under limits other than the call's. */
  method Minimize(ctx: Context, identity: bytes -> Identities, oracle: LoadedTape, target: LoadedTape,
                  ghost s: Tape, ghost t: Tape)
      returns (status: Status, out: Option<bytes>, result: Option<CompareResult>)
    requires ctx.Valid() && Represents(ctx.Unlimited(), oracle, s) && Represents(ctx.Unlimited(), target, t)
    requires AllReadable(s.records) && AllReadable(t.records)
    ensures var named := IdentityStatus(identity(oracle.header), identity(target.header));
      status == if named != OK then named
                else if CompareFrom(s.records, t.records, 0, 0, false).Same? then Usage
                else CutStatus(ctx, s, t)
    ensures status != OK ==> out.None? && result.None?
    ensures status == OK ==>
      && out.Some? && result.Some?
      && var o := CompareFrom(s.records, t.records, 0, 0, false);
      && o.Differs? && o.j < |t.records| < 0x1_0000_0000_0000_0000
      && Reproduces(ctx, s, t, out.value, result.value)
      && (o.difference.kind == FieldValue ==> NoShorter(s, t, o.j, result.value))
  {
    hide ValidTape, Run, CompareFrom, Readable, Serialize, Covered, Closed, EncodeRecords, IdentityStatus, RecordOk;
    hide Represents, Holds, RecordCursor.Holds, CutWorks, Cut, Kept, Closure, CompareRecords, SameSignature, Validate,
      Reproduces, NoShorter, IsCut;
    out, result := None, None;
    ghost var wide := ctx.Unlimited();
    HeldRecords(wide, oracle, s);
    HeldRecords(wide, target, t);
    ValidSound(wide, s);
    ValidSound(wide, t);
    ghost var a, b := s.records, t.records;
    var compared, original;
    compared, original := Compare(identity, oracle, target, a, b);
    if compared != Divergence {
      return if compared == OK then Usage else compared, None, None;
    }
    CutOutcome(ctx, s, t);
    ReportedPosition(wide, s, t);
    var closure := FindClosure(target, original.value.targetSequence, b);
    HeldCount(target, b);
    var required := Bisect(target.recordCount, closure);
    SameCut(b, closure, required);
    var written;
    status, written := WriteMinimized(ctx, target, required, t);
    if status != OK {
      return status, None, None;
    }
    ghost var cut := Cut(t, Kept(b, closure));
    CutHeader(t, Kept(b, closure));
    SignatureSelf(original.value);
    var verified;
    status, verified := Verify(ctx, identity, oracle, original.value, written, s, cut);
    if status != OK {
      return status, None, None;
    }
    Reproduced(ctx, s, t, written, verified.value);
    return OK, Some(written), verified;
  }

  /** What the whole call promises when it succeeds. */
  lemma Reproduced(ctx: Context, s: Tape, t: Tape, out: bytes, result: CompareResult)
    requires ctx.Valid() && ValidTape(ctx.Unlimited(), s) && ValidTape(ctx.Unlimited(), t)
    requires AllReadable(s.records) && AllReadable(t.records)
    requires CompareFrom(s.records, t.records, 0, 0, false).Differs?
    requires CompareFrom(s.records, t.records, 0, 0, false).j < |t.records| < 0x1_0000_0000_0000_0000
    requires var cut := Cut(t, Kept(t.records, Closure(t.records, CompareFrom(s.records, t.records, 0, 0, false).j)));
      && SerializedSize(cut) <= SerializedSize(t) <= MAX_TAPE_BYTES && |cut.header| < 0x1_0000_0000
      && out == Serialize(ctx, cut) && Validate(ctx, out) == Success(cut)
      && AllReadable(cut.records) && result == CompareRecords(s.records, cut.records)
      && CompareFrom(s.records, cut.records, 0, 0, false).Differs?
    ensures Reproduces(ctx, s, t, out, result)
    ensures CompareFrom(s.records, t.records, 0, 0, false).difference.kind == FieldValue ==>
      NoShorter(s, t, CompareFrom(s.records, t.records, 0, 0, false).j, result)
  {
    hide ValidTape, Run, CompareFrom, Readable, Serialize, Covered, Closed, EncodeRecords, RecordOk, CutWorks, IsCut, NoShorter,
      CompareRecords, Validate;
    CutOutcome(ctx, s, t);
    if CompareFrom(s.records, t.records, 0, 0, false).difference.kind == FieldValue {
      Shortest(ctx.Unlimited(), s, t);
    }
  }

  lemma Shortest(ctx: Context, s: Tape, t: Tape)
    requires ctx.Valid() && ValidTape(ctx, s) && ValidTape(ctx, t)
    requires AllReadable(s.records) && AllReadable(t.records)
    requires CompareFrom(s.records, t.records, 0, 0, false).Differs?
    requires CompareFrom(s.records, t.records, 0, 0, false).difference.kind == FieldValue
    requires CompareFrom(s.records, t.records, 0, 0, false).j < |t.records| < 0x1_0000_0000_0000_0000
    ensures NoShorter(s, t, CompareFrom(s.records, t.records, 0, 0, false).j, CompareRecords(s.records, t.records))
  {
    hide CompareFrom, ValidTape, CompareRecords, SameSignature, Readable;
    var j := CompareFrom(s.records, t.records, 0, 0, false).j;
    forall n: nat | n <= j
      ensures AllReadable(t.records[..n] + [EndAfter(t.records, n)])
      ensures !SameSignature(CompareRecords(s.records, t.records[..n] + [EndAfter(t.records, n)]), CompareRecords(s.records, t.records))
    {
      EndReadable(t.records, n);
      FreshEnd(t.records, n);
      MinimizerShortest(ctx, s, t, n);
    }
  }

  lemma SignatureSelf(r: CompareResult)
    ensures SameSignature(r, r)
  {
  }

  lemma CutHeader(t: Tape, n: nat)
    requires n <= |t.records| < 0x1_0000_0000_0000_0000
    ensures Cut(t, n).header == t.header
  {
  }

  lemma SameCut(rs: seq<Record>, closure: nat, required: nat)
    requires required == if closure < |rs| then closure else |rs| - 1
    ensures Kept(rs, required) == Kept(rs, closure)
  {
  }

  /** The reported target sequence is the position of the divergence. */
  lemma ReportedPosition(ctx: Context, s: Tape, t: Tape)
    requires ctx.Valid() && ValidTape(ctx, s) && ValidTape(ctx, t)
    requires AllReadable(s.records) && AllReadable(t.records)
    requires CompareFrom(s.records, t.records, 0, 0, false).Differs?
    ensures CompareRecords(s.records, t.records).targetSequence == CompareFrom(s.records, t.records, 0, 0, false).j
  {
    hide ValidTape, CompareFrom, Readable, RecordOk, LastOf;
    ComparisonExact(ctx, s, t);
    ValidSound(ctx, t);
  }

  /** Reading the finished output back and comparing the oracle with it. */
  method Verify(ctx: Context, identity: bytes -> Identities, oracle: LoadedTape, original: CompareResult,
                written: bytes, ghost s: Tape, ghost cut: Tape)
      returns (status: Status, verified: Option<CompareResult>)
    requires ctx.Valid() && Represents(ctx.Unlimited(), oracle, s) && AllReadable(s.records)
    requires IdentityStatus(identity(oracle.header), identity(cut.header)) == OK
    requires Validate(ctx, written).Success? ==> Validate(ctx, written) == Success(cut) && AllReadable(cut.records)
    ensures status ==
      match Validate(ctx, written)
      case Failure(e) => e
      case Success(_) =>
        if CompareFrom(s.records, cut.records, 0, 0, false).Differs?
           && SameSignature(CompareRecords(s.records, cut.records), original)
        then OK else Invariant
    ensures status == OK ==> Validate(ctx, written).Success? && verified == Some(CompareRecords(s.records, cut.records))
  {
    hide ValidTape, Run, CompareFrom, Readable, IdentityStatus, RecordOk, CompareRecords, SameSignature, Validate;
    verified := None;
    HeldRecords(ctx.Unlimited(), oracle, s);
    ValidSound(ctx.Unlimited(), s);
    var loaded := ValidateBytes(ctx, written, false);
    if loaded.Failure? {
      TapeWriter.FailureIsNotOK(ctx, written);
      return loaded.error, None;
    }
    HeldRecords(ctx, loaded.value, cut);
    ValidSound(ctx, cut);
    status, verified := Compare(identity, oracle, loaded.value, s.records, cut.records);
    if status != Divergence || !SameSignature(verified.value, original) {
      status := Invariant;
    } else {
      status := OK;
    }
  }

  /** For a first divergence at a command or projection record of the target, minimization succeeds. */
  lemma MinimizerComplete(ctx: Context, s: Tape, t: Tape)
    requires ctx.Valid() && ValidTape(ctx, s) && ValidTape(ctx, t)
    requires AllReadable(s.records) && AllReadable(t.records)
    requires CompareFrom(s.records, t.records, 0, 0, false).Differs?
    requires var j := CompareFrom(s.records, t.records, 0, 0, false).j;
      j < |t.records| && (IsCommand(t.records[j].kind) || t.records[j].kind == AUTHORITATIVE_PROJECTION)
    ensures CutWorks(ctx, s, t)
  {
    hide CompareFrom, Run, Readable, RecordOk;
    ComparisonExact(ctx, s, t);
    ClosureCloses(ctx, t, CompareFrom(s.records, t.records, 0, 0, false).j);
  }

  /** The minimized tape is the shortest there is for a field-value divergence: a target cut before the
      diverging record shows the oracle a bare record difference instead. */
  lemma MinimizerShortest(ctx: Context, s: Tape, t: Tape, n: nat)
    requires ctx.Valid() && ValidTape(ctx, s) && ValidTape(ctx, t)
    requires AllReadable(s.records) && AllReadable(t.records)
    requires CompareFrom(s.records, t.records, 0, 0, false).Differs?
    requires var o := CompareFrom(s.records, t.records, 0, 0, false);
      o.difference.kind == FieldValue && n <= o.j < |t.records|
    requires |t.records| < 0x1_0000_0000_0000_0000 && AllReadable(Cut(t, n).records)
    ensures !SameSignature(CompareRecords(s.records, Cut(t, n).records), CompareRecords(s.records, t.records))
    ensures var o := CompareFrom(s.records, t.records, 0, 0, false);
      Kept(t.records, Closure(t.records, o.j)) == o.j + 1
  {
    hide CompareFrom, Run, Readable, RecordOk, RecordDiff;
    var a, b, c := s.records, t.records, Cut(t, n).records;
    ComparisonExact(ctx, s, t);
    ValidSound(ctx, s);
    ValidSound(ctx, t);
    var o := CompareFrom(a, b, 0, 0, false);
    FieldValueIsProjection(a[o.i], b[o.j]);
    SameKind(a[o.i], b[o.j]);
    assert c[..n] == b[..n];
    ShorterCut(a, b, c, 0, 0, false, false);
  }

  lemma SameKind(l: Record, r: Record)
    requires Readable(l) && Readable(r)
    requires RecordDiff(l, r).Some? && RecordDiff(l, r).value.kind == FieldValue
    ensures l.kind == r.kind
  {
  }
}
