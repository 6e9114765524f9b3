/** The loops of the command-input parser and builder, over one cursor and a growing list. */
module CommandInputRun {
  import opened Wrappers
  import opened Bytes
  import opened CheckedArithmetic
  import opened Structs
  import opened CommandInput
  import CommandInputExact

  /** One round of the parse loop: the action that starts at `cursor`, and where the next one starts. */
  method ParseAction<H>(c: Codec<H>, data: bytes, cursor: nat, limit: nat, prior: Option<Action>)
    returns (r: Result<(Action, nat), Error>)
    requires cursor < limit <= |data|
    ensures match ScanAction(c, data[cursor..limit], prior)
            case Failure(e) => r == Failure(e)
            case Success((a, rest)) =>
              r.Success? && r.value.0 == a && cursor < r.value.1 <= limit && data[r.value.1..limit] == rest
  {
    hide Unpack, ValidAction, Size;
    ActionSize();
    ghost var b := data[cursor..limit];
    if limit - cursor < ACTION_HEADER_BYTES {
      return Failure(CommandInputError);
    }
    SubRange(data, cursor, limit, 0, ACTION_HEADER_BYTES);
    var v := Unpack(ACTION_WIDTHS, data[cursor..cursor + ACTION_HEADER_BYTES]);
    var n := v[8];
    if v[9] != 0 || !(0 <= n <= MAX_PAYLOAD_BYTES) {
      return Failure(CommandInputError);
    }
    var size := ACTION_HEADER_BYTES + n + Pad8(n);
    if size > limit - cursor {
      return Failure(CommandInputError);
    }
    var start := cursor + ACTION_HEADER_BYTES;
    SubRange(data, cursor, limit, ACTION_HEADER_BYTES, ACTION_HEADER_BYTES + n);
    SubRange(data, cursor, limit, ACTION_HEADER_BYTES + n, size);
    SubRange(data, cursor, limit, size, limit - cursor);
    var zero := AllZero(data, start + n, cursor + size);
    var a := Action(v[0], v[1], v[2], v[3], v[4], v[5], v[6], v[7], data[start..start + n]);
    if !zero || a.actionType !in c.rules || !ValidAction(a, c.rules[a.actionType], prior) {
      return Failure(CommandInputError);
    }
    r := Success((a, cursor + size));
  }

  lemma PrependNext<H>(c: Codec<H>, actions: seq<Action>, b: bytes, prior: Option<Action>)
    requires b != [] && ScanAction(c, b, prior).Success?
    ensures var (a, rest) := ScanAction(c, b, prior).value;
            Prepend(actions, ScanActions(c, b, prior)) == Prepend(actions + [a], ScanActions(c, rest, Some(a)))
  {
    var (a, rest) := ScanAction(c, b, prior).value;
    var r := ScanActions(c, rest, Some(a));
    if r.Success? {
      assert actions + ([a] + r.value) == actions + [a] + r.value;
    }
  }

  /** The parse loop over the action region. */
  method ParseActions<H>(c: Codec<H>, data: bytes, start: nat, limit: nat) returns (r: Result<seq<Action>, Error>)
    requires start <= limit <= |data|
    ensures r == ScanActions(c, data[start..limit], None)
  {
    hide ScanAction;
    var cursor, prior := start, None;
    var actions: seq<Action> := [];
    ghost var whole := ScanActions(c, data[start..limit], None);
    assert whole.Success? ==> [] + whole.value == whole.value;
    while cursor < limit
      invariant start <= cursor <= limit
      invariant whole == Prepend(actions, ScanActions(c, data[cursor..limit], prior))
    {
      var step := ParseAction(c, data, cursor, limit, prior);
      if step.Failure? {
        return Failure(step.error);
      }
      var (a, next) := step.value;
      PrependNext(c, actions, data[cursor..limit], prior);
      actions := actions + [a];
      prior := Some(a);
      cursor := next;
    }
    assert actions + [] == actions;
    r := Success(actions);
  }

  /** `parse_command_input`. */
  method ParseCommandInput<H(==)>(c: Codec<H>, data: bytes, expected: H -> bool)
    returns (r: Result<(H, seq<Action>), Error>)
    ensures r == Parse(c, data, expected)
  {
    hide Unpack, TrailerOk, ScanActions, Size, Last;
    if |data| < PREFIX_BYTES {
      return Failure(CommandInputError);
    }
    PrefixSize();
    var v := Unpack(PREFIX_WIDTHS, data[8..PREFIX_BYTES]);
    if data[..8] != PREFIX_MAGIC || !PrefixOk(v) {
      return Failure(CommandInputError);
    }
    var start := PREFIX_BYTES + v[5];
    var covered := start + v[8];
    if |data| < covered + TRAILER_BYTES || |data| > covered + TRAILER_BYTES {
      return Failure(CommandInputError);
    }
    var loaded := c.load(data[PREFIX_BYTES..start]);
    if loaded.None? {
      return Failure(CommandInputError);
    }
    var h := loaded.value;
    if !c.valid(h) || c.canonical(h) != Some(data[PREFIX_BYTES..start]) || !expected(h)
       || !TrailerOk(c, data[covered..], v[7], data[..covered])
    {
      return Failure(CommandInputError);
    }
    var actions := ParseActions(c, data, start, covered);
    if actions.Failure? {
      return Failure(actions.error);
    }
    if |actions.value| != v[7] || (v[9], v[10]) != Last(c, h, actions.value) {
      return Failure(CommandInputError);
    }
    r := Success((h, actions.value));
  }

  /** The build loop: the action region, or the first fault. */
  method BuildActions<H>(c: Codec<H>, actions: seq<Action>) returns (r: Result<bytes, Error>)
    ensures match r
            case Failure(e) => FirstFault(c, actions, None) == Some(e)
            case Success(region) =>
              && AllBuildable(c, actions, None)
              && (forall k :: 0 <= k < |actions| ==> Fits(ACTION_WIDTHS, Values(actions[k])))
              && region == EncodeActions(actions)
  {
    hide Pack, Fits, ValidAction, EncodeAction;
    var region: bytes := [];
    var prior := None;
    var k := 0;
    while k < |actions|
      invariant k <= |actions|
      invariant FirstFault(c, actions, None) == FirstFault(c, actions[k..], prior)
      invariant forall j :: 0 <= j < k ==> Fits(ACTION_WIDTHS, Values(actions[j]))
      invariant region == EncodeActions(actions[..k])
    {
      var a := actions[k];
      assert actions[k..][1..] == actions[k + 1..];
      if a.actionType !in c.rules || !ValidAction(a, c.rules[a.actionType], prior) || |a.payload| > MAX_PAYLOAD_BYTES {
        return Failure(CommandInputError);
      }
      if !Fits(ACTION_WIDTHS, Values(a)) {
        return Failure(PackingError);
      }
      EncodeSnoc(actions[..k], a);
      assert actions[..k + 1] == actions[..k] + [a];
      region := region + EncodeAction(a);
      prior := Some(a);
      k := k + 1;
    }
    assert actions[..k] == actions;
    r := Success(region);
  }

  lemma {:induction false} EncodeSnoc(actions: seq<Action>, a: Action)
    requires forall k :: 0 <= k < |actions| ==> Fits(ACTION_WIDTHS, Values(actions[k]))
    requires Fits(ACTION_WIDTHS, Values(a))
    ensures EncodeActions(actions + [a]) == EncodeActions(actions) + EncodeAction(a)
  {
    hide Fits, EncodeAction, Values;
    if actions == [] {
      assert [a][1..] == [];
      assert EncodeActions([a]) == EncodeAction(a) + EncodeActions([]);
    } else {
      assert (actions + [a])[1..] == actions[1..] + [a];
      EncodeSnoc(actions[1..], a);
    }
  }

  /** `build_command_input`, which ends by parsing what it built: that check never fails. */
  method BuildCommandInput<H(==,!new)>(c: Codec<H>, h: H, actions: seq<Action>) returns (r: Result<bytes, Error>)
    requires ValidCodec(c)
    ensures r == Build(c, h, actions)
    ensures r.Success? <==> BuildOk(c, h, actions)
    ensures r.Success? ==> Parse(c, r.value, _ => true) == Success((h, actions))
  {
    hide Pack, Fits, ValidAction, EncodeActions, Assemble, Parse, AllBuildable, PrefixValues;
    if !c.valid(h) || c.canonical(h).None? {
      return Failure(CommandInputError);
    }
    var header := c.canonical(h).value;
    if !(0 < |header| <= MAX_HEADER_BYTES) || |actions| > MAX_ACTION_COUNT {
      return Failure(CommandInputError);
    }
    var built := BuildActions(c, actions);
    if built.Failure? {
      return Failure(built.error);
    }
    var region := built.value;
    if |region| > MAX_ACTION_REGION_BYTES {
      return Failure(CommandInputError);
    }
    PrefixFits(c, h, actions);
    PrefixSize();
    CommandInputExact.ParseComplete(c, h, actions, _ => true);
    AssembledOf(c, h, actions);
    var covered := PREFIX_MAGIC + Pack(PREFIX_WIDTHS, PrefixValues(c, h, |header|, actions, |region|)) + header + region;
    var result := covered + Trailer(c, |actions|, covered);
    var check := ParseCommandInput(c, result, _ => true);
    r := if check.Success? then Success(result) else Failure(CommandInputError);
  }

  lemma AssembledOf<H>(c: Codec<H>, h: H, actions: seq<Action>)
    requires BuildOk(c, h, actions)
    ensures Assemble(c, h, actions) == Covered(c, h, actions) + Trailer(c, |actions|, Covered(c, h, actions))
  {
  }
}
