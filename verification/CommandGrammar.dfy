/** What the life-cycle checks of the reader guarantee about whole tapes. */
module CommandGrammar {
  import opened Wrappers
  import opened Bytes
  import opened TapeFormat
  import opened LifeCycle
  import opened TapeReader
  import Projection

  predicate Relevant(r: Record) {
    IsCommand(r.kind) || r.kind == AUTHORITATIVE_PROJECTION
  }

  /** The command and projection records of a tape, in order. */
  function CommandsOf(rs: seq<Record>): seq<Record> {
    if rs == [] then []
    else if Relevant(rs[0]) then [rs[0]] + CommandsOf(rs[1..])
    else CommandsOf(rs[1..])
  }

  predicate IsIntent(r: Record) {
    r.kind == COMMAND_INTENT && |r.payload| >= 24
  }

  function CommandId(r: Record): u32
    requires |r.payload| >= 8
  {
    U32At(r.payload, 4)
  }

  /** A test or execution result of the command that `intent` announced. */
  predicate IsOutcome(r: Record, kind: u16, intent: Record)
    requires IsIntent(intent)
  {
    r.kind == kind && |r.payload| >= 32 && CommandId(r) == CommandId(intent)
  }

  predicate Succeeded(r: Record)
    requires |r.payload| >= 32
  {
    r.payload[2] != 0
  }

  /** How many records the block at the front of `cs` takes: a projection alone; intent, failed test,
      projection; or intent, successful test, execution, projection. Zero when there is no such block. */
  function Block(cs: seq<Record>): (n: nat)
    ensures n <= |cs|
  {
    if |cs| >= 1 && cs[0].kind == AUTHORITATIVE_PROJECTION then 1
    else if |cs| >= 3 && IsIntent(cs[0]) && IsOutcome(cs[1], COMMAND_TEST_RESULT, cs[0]) then
      if !Succeeded(cs[1]) then
        if cs[2].kind == AUTHORITATIVE_PROJECTION then 3 else 0
      else if |cs| >= 4 && IsOutcome(cs[2], COMMAND_EXEC_RESULT, cs[0]) && cs[3].kind == AUTHORITATIVE_PROJECTION
      then 4
      else 0
    else 0
  }

  /** A sequence of complete blocks. */
  predicate Blocks(cs: seq<Record>) {
    cs == [] || (Block(cs) > 0 && Blocks(cs[Block(cs)..]))
  }

  /** The rest of a block that has been entered: what the reader's state still owes. */
  predicate Completes(st: ReadState, cs: seq<Record>)
    decreases |cs|
  {
    match st.phase
    case Idle => Blocks(cs)
    case Executed => |cs| >= 1 && cs[0].kind == AUTHORITATIVE_PROJECTION && Blocks(cs[1..])
    case Tested(ok) =>
      if ok then
        && |cs| >= 2 && IsResult(cs[0], COMMAND_EXEC_RESULT, st.command)
        && cs[1].kind == AUTHORITATIVE_PROJECTION && Blocks(cs[2..])
      else |cs| >= 1 && cs[0].kind == AUTHORITATIVE_PROJECTION && Blocks(cs[1..])
    case Intended =>
      && |cs| >= 2 && IsResult(cs[0], COMMAND_TEST_RESULT, st.command)
      && Completes(st.(phase := Tested(Succeeded(cs[0]))), cs[1..])
  }

  predicate IsResult(r: Record, kind: u16, command: u32) {
    r.kind == kind && |r.payload| >= 32 && CommandId(r) == command
  }

  /** One step of the reader extends what the rest of the tape completes. */
  lemma StepCompletes(ctx: Context, flags: u32, count: nat, sequence: nat, st: ReadState, r: Record, cs: seq<Record>)
    requires RecordStep(ctx, flags, count, sequence, st, r).Success?
    requires Completes(RecordStep(ctx, flags, count, sequence, st, r).value, cs)
    ensures Completes(st, if Relevant(r) then [r] + cs else cs)
  {
    hide HeaderStatus, Projection.ProjectionStatus, UInt;
    var next := RecordStep(ctx, flags, count, sequence, st, r).value;
    if !Relevant(r) {
      assert next.phase == st.phase && next.command == st.command;
    } else {
      var all := [r] + cs;
      assert all[1..] == cs;
      if r.kind == COMMAND_INTENT {
        assert all[2..] == cs[1..];
        if Succeeded(cs[0]) {
          assert Block(all) == 4 && all[4..] == cs[1..][2..];
        } else {
          assert Block(all) == 3 && all[3..] == cs[1..][1..];
        }
      } else if r.kind == COMMAND_EXEC_RESULT {
        assert all[2..] == cs[1..];
      }
    }
  }

  lemma {:induction false} RunCompletes(ctx: Context, flags: u32, count: nat, sequence: nat, st: ReadState, rs: seq<Record>)
    requires rs != [] && sequence + |rs| == count
    requires Run(ctx, flags, count, sequence, st, rs).Success?
    ensures Completes(st, CommandsOf(rs))
    decreases |rs|
  {
    var next := RecordStep(ctx, flags, count, sequence, st, rs[0]).value;
    if |rs| == 1 {
      assert rs[0].kind == TERMINAL && st.phase == Idle;
      assert CommandsOf(rs[1..]) == [];
    } else {
      RunCompletes(ctx, flags, count, sequence + 1, next, rs[1..]);
      StepCompletes(ctx, flags, count, sequence, st, rs[0], CommandsOf(rs[1..]));
    }
  }

  /** In every valid tape the command and projection records form complete blocks: each intent is
      followed by exactly one test result of its own command, by an execution result of its own command
      exactly when the test succeeded, and by a projection before the next intent or the terminal. */
  lemma CommandsComplete(ctx: Context, t: Tape)
    requires ValidTape(ctx, t)
    ensures Blocks(CommandsOf(t.records))
  {
    RunCompletes(ctx, t.flags, |t.records|, 0, START, t.records);
  }

  // ---- Counting ----

  function Count(rs: seq<Record>, p: Record -> bool): nat {
    if rs == [] then 0 else (if p(rs[0]) then 1 else 0) + Count(rs[1..], p)
  }

  function OfKind(kind: u16): Record -> bool {
    (r: Record) => r.kind == kind
  }

  function SuccessfulTest(): Record -> bool {
    (r: Record) => r.kind == COMMAND_TEST_RESULT && |r.payload| >= 32 && r.payload[2] != 0
  }

  lemma {:induction false} CountSplit(rs: seq<Record>, n: nat, p: Record -> bool)
    requires n <= |rs|
    ensures Count(rs, p) == Count(rs[..n], p) + Count(rs[n..], p)
  {
    if n > 0 {
      CountSplit(rs[1..], n - 1, p);
      assert rs[..n][1..] == rs[1..][..n - 1] && rs[n..] == rs[1..][n - 1..];
    } else {
      assert rs[0..] == rs;
    }
  }

  lemma {:induction false} CountRelevant(rs: seq<Record>, p: Record -> bool)
    requires forall r :: p(r) ==> Relevant(r)
    ensures Count(CommandsOf(rs), p) == Count(rs, p)
  {
    if rs != [] {
      CountRelevant(rs[1..], p);
      if Relevant(rs[0]) {
        assert ([rs[0]] + CommandsOf(rs[1..]))[1..] == CommandsOf(rs[1..]);
      }
    }
  }

  lemma CountFew(rs: seq<Record>, p: Record -> bool)
    ensures |rs| == 1 ==> Count(rs, p) == (if p(rs[0]) then 1 else 0)
    ensures |rs| == 3 ==> Count(rs, p) == (if p(rs[0]) then 1 else 0) + (if p(rs[1]) then 1 else 0) + (if p(rs[2]) then 1 else 0)
    ensures |rs| == 4 ==> Count(rs, p) == (if p(rs[0]) then 1 else 0) + (if p(rs[1]) then 1 else 0)
                                        + (if p(rs[2]) then 1 else 0) + (if p(rs[3]) then 1 else 0)
  {
    if |rs| >= 3 {
      assert Count(rs[1..], p) == (if p(rs[1]) then 1 else 0) + Count(rs[1..][1..], p);
      assert Count(rs[1..][1..], p) == (if p(rs[2]) then 1 else 0) + Count(rs[1..][1..][1..], p);
    }
  }

  lemma {:induction false} BlockCounts(cs: seq<Record>)
    requires Blocks(cs)
    ensures Count(cs, OfKind(COMMAND_INTENT)) == Count(cs, OfKind(COMMAND_TEST_RESULT))
    ensures Count(cs, OfKind(COMMAND_EXEC_RESULT)) == Count(cs, SuccessfulTest())
    ensures Count(cs, OfKind(COMMAND_INTENT)) <= Count(cs, OfKind(AUTHORITATIVE_PROJECTION))
    decreases |cs|
  {
    if cs != [] {
      hide Count;
      var n := Block(cs);
      BlockCounts(cs[n..]);
      var ps := [OfKind(COMMAND_INTENT), OfKind(COMMAND_TEST_RESULT), OfKind(COMMAND_EXEC_RESULT),
                 OfKind(AUTHORITATIVE_PROJECTION), SuccessfulTest()];
      forall i | 0 <= i < |ps| ensures Count(cs, ps[i]) == Count(cs[..n], ps[i]) + Count(cs[n..], ps[i]) {
        CountSplit(cs, n, ps[i]);
      }
      forall i | 0 <= i < |ps| ensures
        && (n == 1 ==> Count(cs[..n], ps[i]) == (if ps[i](cs[0]) then 1 else 0))
        && (n == 3 ==> Count(cs[..n], ps[i]) == (if ps[i](cs[0]) then 1 else 0) + (if ps[i](cs[1]) then 1 else 0) + (if ps[i](cs[2]) then 1 else 0))
        && (n == 4 ==> Count(cs[..n], ps[i]) == (if ps[i](cs[0]) then 1 else 0) + (if ps[i](cs[1]) then 1 else 0)
                                        + (if ps[i](cs[2]) then 1 else 0) + (if ps[i](cs[3]) then 1 else 0)) {
        CountFew(cs[..n], ps[i]);
      }
      assert ps[0] == OfKind(COMMAND_INTENT) && ps[1] == OfKind(COMMAND_TEST_RESULT)
          && ps[2] == OfKind(COMMAND_EXEC_RESULT) && ps[3] == OfKind(AUTHORITATIVE_PROJECTION) && ps[4] == SuccessfulTest();
    }
  }

  /** Over a whole valid tape: as many test results as intents, as many executions as successful
      tests, and at least as many projections as intents. */
  lemma CommandCounts(ctx: Context, t: Tape)
    requires ValidTape(ctx, t)
    ensures Count(t.records, OfKind(COMMAND_INTENT)) == Count(t.records, OfKind(COMMAND_TEST_RESULT))
    ensures Count(t.records, OfKind(COMMAND_EXEC_RESULT)) == Count(t.records, SuccessfulTest())
    ensures Count(t.records, OfKind(COMMAND_INTENT)) <= Count(t.records, OfKind(AUTHORITATIVE_PROJECTION))
  {
    CommandsComplete(ctx, t);
    BlockCounts(CommandsOf(t.records));
    CountRelevant(t.records, OfKind(COMMAND_INTENT));
    CountRelevant(t.records, OfKind(COMMAND_TEST_RESULT));
    CountRelevant(t.records, OfKind(COMMAND_EXEC_RESULT));
    CountRelevant(t.records, OfKind(AUTHORITATIVE_PROJECTION));
    CountRelevant(t.records, SuccessfulTest());
  }
}
