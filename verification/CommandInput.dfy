/** The command-input stream of scripts/dev/command_input_v1.py: its actions, its bytes, and what the parser
    and the builder answer. */
module CommandInput {
  import opened Wrappers
  import opened Bytes
  import opened CheckedArithmetic
  import opened Structs

  const PREFIX_MAGIC: bytes := [0x4F, 0x54, 0x52, 0x4C, 0x43, 0x4D, 0x44, 0x00]
  const TRAILER_MAGIC: bytes := [0x4F, 0x54, 0x52, 0x4C, 0x43, 0x4D, 0x45, 0x00]
  const PREFIX_BYTES := 64
  const ACTION_HEADER_BYTES := 48
  const TRAILER_BYTES := 64
  const MAX_HEADER_BYTES := 1_048_576
  const MAX_ACTION_COUNT := 1_000_000
  const MAX_ACTION_REGION_BYTES := 1_073_741_824
  const MAX_PAYLOAD_BYTES := 1_048_576

  /** The integer fields after the eight magic bytes, and of an action header. */
  const PREFIX_WIDTHS: seq<nat> := [2, 2, 1, 1, 2, 4, 4, 8, 8, 8, 8, 8]
  const ACTION_WIDTHS: seq<nat> := [2, 2, 4, 8, 8, 8, 4, 4, 4, 4]
  const COUNT_WIDTHS: seq<nat> := [8, 8]
  const RESERVED_WIDTHS: seq<nat> := [8]

  type digest = b: bytes | |b| == 32 witness Zeros(32)

  datatype Rule = Rule(actionType: int, actionVersion: int, nativeCommandId: int, payloadBytes: int, allowedFlags: int)

  /** The fields are Python integers: nothing bounds them before they are packed. */
  datatype Action = Action(actionType: int, actionVersion: int, flags: int, sequence: int, step: int, tick: int,
                           nativeCommandId: int, company: int, payload: bytes)

  datatype Error = CommandInputError | PackingError

  /** What the codec is given from outside: the JSON of headers, the hash, and the rules. */
  datatype Codec<!H> = Codec(valid: H -> bool, canonical: H -> Option<bytes>, load: bytes -> Option<H>,
                             step: H -> u64, tick: H -> u64, sha: bytes -> digest, rules: map<int, Rule>)

  /** Reading the canonical text of a valid header gives the header back. */
  ghost predicate ValidCodec<H(!new)>(c: Codec<H>) {
    forall h: H :: c.valid(h) && c.canonical(h).Some? ==> c.load(c.canonical(h).value) == Some(h)
  }

  // ---- Actions ----

  /** `flags & ~allowed` is zero, on integers of any sign. */
  predicate Submask(flags: int, allowed: int)
    decreases if flags < 0 then -flags else flags
  {
    if flags == 0 then true
    else if flags == -1 then allowed == -1
    else flags % 2 <= allowed % 2 && Submask(flags / 2, allowed / 2)
  }

  /** `_validate_action`. */
  predicate ValidAction(a: Action, rule: Rule, prior: Option<Action>) {
    && a.actionVersion == rule.actionVersion
    && a.nativeCommandId == rule.nativeCommandId
    && Submask(a.flags, rule.allowedFlags)
    && |a.payload| == rule.payloadBytes
    && 0 <= a.company <= 0xFFFF_FFFF
    && match prior
       case None => a.sequence == 0
       case Some(p) => a.sequence == p.sequence + 1 && a.step >= p.step && a.tick >= p.tick
  }

  function Values(a: Action): seq<int> {
    [a.actionType, a.actionVersion, a.flags, a.sequence, a.step, a.tick, a.nativeCommandId, a.company, |a.payload|, 0]
  }

  /** What the builder demands of one action. */
  predicate Buildable<H>(c: Codec<H>, a: Action, prior: Option<Action>) {
    && a.actionType in c.rules && ValidAction(a, c.rules[a.actionType], prior)
    && |a.payload| <= MAX_PAYLOAD_BYTES && Fits(ACTION_WIDTHS, Values(a))
  }

  predicate AllBuildable<H>(c: Codec<H>, actions: seq<Action>, prior: Option<Action>) {
    actions != [] ==> Buildable(c, actions[0], prior) && AllBuildable(c, actions[1..], Some(actions[0]))
  }

  function EncodeAction(a: Action): (b: bytes)
    requires Fits(ACTION_WIDTHS, Values(a))
    ensures |b| == ACTION_HEADER_BYTES + |a.payload| + Pad8(|a.payload|)
  {
    ActionSize();
    Pack(ACTION_WIDTHS, Values(a)) + a.payload + Zeros(Pad8(|a.payload|))
  }

  lemma ActionSize()
    ensures Size(ACTION_WIDTHS) == ACTION_HEADER_BYTES
  {
    SizeFrom([2, 2, 4], [8, 8, 8, 4, 4, 4, 4]);
    SizeFrom([8, 8, 8], [4, 4, 4, 4]);
    SizeFrom([4, 4, 4], [4]);
    assert ACTION_WIDTHS == [2, 2, 4] + ([8, 8, 8] + ([4, 4, 4] + [4]));
  }

  lemma PrefixSize()
    ensures Size(PREFIX_WIDTHS) == PREFIX_BYTES - 8
  {
    SizeFrom([2, 2, 1], [1, 2, 4, 4, 8, 8, 8, 8, 8]);
    SizeFrom([1, 2, 4], [4, 8, 8, 8, 8, 8]);
    SizeFrom([4, 8, 8], [8, 8, 8]);
    assert PREFIX_WIDTHS == [2, 2, 1] + ([1, 2, 4] + ([4, 8, 8] + [8, 8, 8]));
  }

  lemma TrailerSizes()
    ensures Size(COUNT_WIDTHS) == 16 && Size(RESERVED_WIDTHS) == 8
  {
    assert Size(COUNT_WIDTHS[1..]) == 8;
  }

  lemma SizeFrom(three: seq<nat>, rest: seq<nat>)
    requires |three| == 3
    ensures Size(three + rest) == three[0] + three[1] + three[2] + Size(rest)
  {
    var w := three + rest;
    assert Size(w) == w[0] + Size(w[1..]);
    assert Size(w[1..]) == w[1] + Size(w[1..][1..]);
    assert w[1..][1..][1..] == rest;
  }

  function EncodeActions(actions: seq<Action>): bytes
    requires forall k :: 0 <= k < |actions| ==> Fits(ACTION_WIDTHS, Values(actions[k]))
  {
    if actions == [] then [] else EncodeAction(actions[0]) + EncodeActions(actions[1..])
  }

  lemma {:induction false} AllFit<H>(c: Codec<H>, actions: seq<Action>, prior: Option<Action>)
    requires AllBuildable(c, actions, prior)
    ensures forall k :: 0 <= k < |actions| ==> Fits(ACTION_WIDTHS, Values(actions[k]))
  {
    hide Fits, Values;
    if actions != [] {
      AllFit(c, actions[1..], Some(actions[0]));
      assert forall k :: 0 < k < |actions| ==> actions[k] == actions[1..][k - 1];
    }
  }

  // ---- Streams ----

  /** The scheduled boundary a stream announces: its last action's, or the header's when it has none. */
  function Last<H>(c: Codec<H>, h: H, actions: seq<Action>): (int, int) {
    if actions == [] then (c.step(h), c.tick(h))
    else (actions[|actions| - 1].step, actions[|actions| - 1].tick)
  }

  function PrefixValues<H>(c: Codec<H>, h: H, headerBytes: nat, actions: seq<Action>, regionBytes: nat): seq<int> {
    var (step, tick) := Last(c, h, actions);
    [1, 0, 1, 1, PREFIX_BYTES, headerBytes, 0, |actions|, regionBytes, step, tick, 0]
  }

  /** What `build_command_input` demands. */
  predicate BuildOk<H>(c: Codec<H>, h: H, actions: seq<Action>) {
    && c.valid(h) && c.canonical(h).Some? && 0 < |c.canonical(h).value| <= MAX_HEADER_BYTES
    && |actions| <= MAX_ACTION_COUNT && AllBuildable(c, actions, None)
    && (AllFit(c, actions, None); |EncodeActions(actions)| <= MAX_ACTION_REGION_BYTES)
  }

  /** The prefix, the header and the actions: what the digest covers. */
  function Covered<H>(c: Codec<H>, h: H, actions: seq<Action>): bytes
    requires BuildOk(c, h, actions)
  {
    AllFit(c, actions, None);
    PrefixFits(c, h, actions);
    var (header, region) := (c.canonical(h).value, EncodeActions(actions));
    PREFIX_MAGIC + Pack(PREFIX_WIDTHS, PrefixValues(c, h, |header|, actions, |region|)) + header + region
  }

  function Trailer<H>(c: Codec<H>, count: nat, covered: bytes): (b: bytes)
    requires count <= U64_MAX && |covered| <= U64_MAX
    ensures |b| == TRAILER_BYTES
  {
    TrailerSizes();
    Widths();
    TRAILER_MAGIC + Pack(COUNT_WIDTHS, [count, |covered|]) + c.sha(covered) + Pack(RESERVED_WIDTHS, [0])
  }

  /** The bytes of a stream. */
  function Assemble<H>(c: Codec<H>, h: H, actions: seq<Action>): bytes
    requires BuildOk(c, h, actions)
  {
    var covered := Covered(c, h, actions);
    CoveredSize(c, h, actions);
    covered + Trailer(c, |actions|, covered)
  }

  lemma PrefixFits<H>(c: Codec<H>, h: H, actions: seq<Action>)
    requires BuildOk(c, h, actions)
    ensures forall k :: 0 <= k < |actions| ==> Fits(ACTION_WIDTHS, Values(actions[k]))
    ensures Fits(PREFIX_WIDTHS, PrefixValues(c, h, |c.canonical(h).value|, actions, |EncodeActions(actions)|))
  {
    AllFit(c, actions, None);
    Widths();
    LastFits(c, h, actions);
  }

  lemma LastFits<H>(c: Codec<H>, h: H, actions: seq<Action>)
    requires forall k :: 0 <= k < |actions| ==> Fits(ACTION_WIDTHS, Values(actions[k]))
    ensures var (step, tick) := Last(c, h, actions); 0 <= step <= U64_MAX && 0 <= tick <= U64_MAX
  {
    Widths();
    if actions != [] {
      var a := actions[|actions| - 1];
      assert Fits(ACTION_WIDTHS, Values(a));
      assert Values(a)[4] == a.step && Values(a)[5] == a.tick;
    }
  }

  lemma CoveredSize<H>(c: Codec<H>, h: H, actions: seq<Action>)
    requires BuildOk(c, h, actions)
    ensures forall k :: 0 <= k < |actions| ==> Fits(ACTION_WIDTHS, Values(actions[k]))
    ensures |Covered(c, h, actions)| == PREFIX_BYTES + |c.canonical(h).value| + |EncodeActions(actions)|
    ensures |Covered(c, h, actions)| <= U64_MAX
  {
    AllFit(c, actions, None);
    PrefixFits(c, h, actions);
    PrefixSize();
  }

  /** The first thing wrong with the actions, as the builder meets it. */
  function FirstFault<H>(c: Codec<H>, actions: seq<Action>, prior: Option<Action>): (e: Option<Error>)
    ensures e.None? <==> AllBuildable(c, actions, prior)
  {
    if actions == [] then None
    else
      var a := actions[0];
      if a.actionType !in c.rules || !ValidAction(a, c.rules[a.actionType], prior) || |a.payload| > MAX_PAYLOAD_BYTES
      then Some(CommandInputError)
      else if !Fits(ACTION_WIDTHS, Values(a)) then Some(PackingError)
      else FirstFault(c, actions[1..], Some(a))
  }

  /** What `build_command_input` answers, before it checks itself. */
  function Build<H>(c: Codec<H>, h: H, actions: seq<Action>): Result<bytes, Error> {
    if BuildOk(c, h, actions) then Success(Assemble(c, h, actions))
    else if !c.valid(h) || c.canonical(h).None? || !(0 < |c.canonical(h).value| <= MAX_HEADER_BYTES)
            || |actions| > MAX_ACTION_COUNT
    then Failure(CommandInputError)
    else Failure(FirstFault(c, actions, None).GetOr(CommandInputError))
  }

  // ---- The parser ----

  /** One action at the front of `b`, what is left of the action region. */
  function ScanAction<H>(c: Codec<H>, b: bytes, prior: Option<Action>): (r: Result<(Action, bytes), Error>)
    ensures r.Success? ==> |r.value.1| < |b|
  {
    ActionSize();
    if |b| < ACTION_HEADER_BYTES then Failure(CommandInputError)
    else
      var v := Unpack(ACTION_WIDTHS, b[..ACTION_HEADER_BYTES]);
      var n := v[8];
      if v[9] != 0 || !(0 <= n <= MAX_PAYLOAD_BYTES) then Failure(CommandInputError)
      else
        var size := ACTION_HEADER_BYTES + n + Pad8(n);
        if size > |b| then Failure(CommandInputError)
        else
          var a := Action(v[0], v[1], v[2], v[3], v[4], v[5], v[6], v[7], b[ACTION_HEADER_BYTES..ACTION_HEADER_BYTES + n]);
          if b[ACTION_HEADER_BYTES + n..size] != Zeros(Pad8(n)) || a.actionType !in c.rules
             || !ValidAction(a, c.rules[a.actionType], prior)
          then Failure(CommandInputError)
          else Success((a, b[size..]))
  }

  /** The parse loop over the action region. */
  function ScanActions<H>(c: Codec<H>, b: bytes, prior: Option<Action>): Result<seq<Action>, Error>
    decreases |b|
  {
    if b == [] then Success([])
    else
      match ScanAction(c, b, prior)
      case Failure(e) => Failure(e)
      case Success((a, rest)) =>
        match ScanActions(c, rest, Some(a))
        case Failure(e) => Failure(e)
        case Success(actions) => Success([a] + actions)
  }

  /** The checks on the twelve prefix fields. */
  predicate PrefixOk(v: seq<int>)
    requires |v| == 12
  {
    && v[0] == 1 && v[1] == 0 && v[2] == 1 && v[3] == 1 && v[4] == PREFIX_BYTES
    && 0 < v[5] <= MAX_HEADER_BYTES && v[6] == 0 && 0 <= v[7] <= MAX_ACTION_COUNT
    && 0 <= v[8] <= MAX_ACTION_REGION_BYTES && v[11] == 0
  }

  /** The checks on the trailer `t` of a stream with `count` actions. */
  predicate TrailerOk<H>(c: Codec<H>, t: bytes, count: nat, covered: bytes)
    requires |t| == TRAILER_BYTES
  {
    TrailerSizes();
    var v := Unpack(COUNT_WIDTHS, t[8..24]);
    && t[..8] == TRAILER_MAGIC && v[0] == count && v[1] == |covered|
    && Unpack(RESERVED_WIDTHS, t[56..])[0] == 0 && t[24..56] == c.sha(covered)
  }

  /** `parse_command_input`; `expected` is the check of the caller's identity, if any. */
  function Parse<H(==)>(c: Codec<H>, data: bytes, expected: H -> bool): Result<(H, seq<Action>), Error> {
    if |data| < PREFIX_BYTES then Failure(CommandInputError)
    else
      PrefixSize();
      var v := Unpack(PREFIX_WIDTHS, data[8..PREFIX_BYTES]);
      if data[..8] != PREFIX_MAGIC || !PrefixOk(v) then Failure(CommandInputError)
      else
        var start := PREFIX_BYTES + v[5];
        var covered := start + v[8];
        if |data| != covered + TRAILER_BYTES then Failure(CommandInputError)
        else
          match c.load(data[PREFIX_BYTES..start])
          case None => Failure(CommandInputError)
          case Some(h) =>
            if !c.valid(h) || c.canonical(h) != Some(data[PREFIX_BYTES..start]) || !expected(h)
               || !TrailerOk(c, data[covered..], v[7], data[..covered])
            then Failure(CommandInputError)
            else
              match ScanActions(c, data[start..covered], None)
              case Failure(e) => Failure(e)
              case Success(actions) =>
                if |actions| != v[7] || (v[9], v[10]) != Last(c, h, actions) then Failure(CommandInputError)
                else Success((h, actions))
  }
}
