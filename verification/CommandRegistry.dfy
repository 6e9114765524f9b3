/** `validate_command_registry` and `rules_from_registry` (scripts/dev/command_input_v1.py): what the accepted
    action entries guarantee the codec. */
module CommandRegistry {
  import opened Wrappers
  import opened Bytes
  import opened CommandInput

  datatype Operand = Operand(name: string, offset: int, widthBits: int, count: int)

  /** One action entry; whether its payload digest is the right one is decided outside. */
  datatype Entry = Entry(actionType: int, name: string, nativeCommandId: int, actionVersion: int, payloadBytes: int,
                         allowedFlags: Option<int>, digestRight: bool, operands: seq<Operand>)

  // ---- What is promised ----

  function Extent(o: Operand): int {
    o.widthBits / 8 * o.count
  }

  predicate Covers(o: Operand, at: int) {
    o.offset <= at < o.offset + o.widthBits / 8 * o.count
  }

  ghost predicate Covered(operands: seq<Operand>, at: int) {
    exists k :: 0 <= k < |operands| && Covers(operands[k], at)
  }

  /** Every byte of the payload belongs to exactly one operand, and the operands to the payload. */
  ghost predicate Partitions(operands: seq<Operand>, size: int) {
    && (forall at :: 0 <= at < size <==> Covered(operands, at))
    && (forall at, j, k :: 0 <= j < k < |operands| && Covers(operands[j], at) ==> !Covers(operands[k], at))
  }

  predicate OperandShape(o: Operand) {
    o.widthBits in {8, 16, 32, 64} && o.count >= 1
  }

  function EndOf(operands: seq<Operand>): int {
    if operands == [] then 0 else EndOf(operands[..|operands| - 1]) + Extent(operands[|operands| - 1])
  }

  /** Each operand has a width and a count that exist, a name of its own, and starts where the one before it ends. */
  predicate OperandsGood(operands: seq<Operand>) {
    operands != [] ==>
      var init, last := operands[..|operands| - 1], operands[|operands| - 1];
      && OperandsGood(init) && OperandShape(last) && last.offset == EndOf(init)
      && forall p :: p in init ==> p.name != last.name
  }

  predicate EntryGood(e: Entry) {
    && e.actionVersion == 1 && 0 < e.payloadBytes <= MAX_PAYLOAD_BYTES && e.digestRight && e.operands != []
    && OperandsGood(e.operands) && EndOf(e.operands) == e.payloadBytes
  }

  predicate RegistryGood(entries: seq<Entry>) {
    && entries != []
    && (forall k :: 0 <= k < |entries| ==> EntryGood(entries[k]) && entries[k].actionType > 0)
    && (forall j, k :: 0 <= j < k < |entries| ==>
          && entries[j].actionType < entries[k].actionType && entries[j].name != entries[k].name
          && entries[j].nativeCommandId != entries[k].nativeCommandId)
  }

  // ---- The same, index by index ----

  /** The first byte after an operand. */
  function Past(o: Operand): int {
    o.offset + o.widthBits / 8 * o.count
  }

  /** Where the first `k` operands end. */
  function Reached(operands: seq<Operand>, k: nat): int
    requires k <= |operands|
  {
    if k == 0 then 0 else Past(operands[k - 1])
  }

  predicate InPlace(operands: seq<Operand>, k: nat)
    requires k < |operands|
  {
    operands[k].widthBits in {8, 16, 32, 64} && operands[k].count >= 1 && operands[k].offset == Reached(operands, k)
  }

  /** Operands with names of their own that follow one another from zero up to `size`. */
  predicate OperandsRule(operands: seq<Operand>, size: int) {
    && (forall k :: 0 <= k < |operands| ==> InPlace(operands, k))
    && (forall j, k :: 0 <= j < k < |operands| ==> operands[j].name != operands[k].name)
    && size == Reached(operands, |operands|)
  }

  lemma SamePlaces(init: seq<Operand>, last: Operand)
    ensures forall k :: 0 <= k < |init| ==> (InPlace(init, k) <==> InPlace(init + [last], k))
    ensures Reached(init + [last], |init|) == Reached(init, |init|)
  {
    hide Past;
    var all := init + [last];
    forall k: nat | k < |init| ensures InPlace(init, k) <==> InPlace(all, k) {
      assert all[k] == init[k] && Reached(all, k) == Reached(init, k);
    }
  }

  /** The rule for one more operand. */
  lemma RuleSnoc(init: seq<Operand>, last: Operand, size: int)
    ensures OperandsRule(init + [last], size) <==>
      && OperandsRule(init, last.offset) && last.widthBits in {8, 16, 32, 64} && last.count >= 1
      && (forall p :: p in init ==> p.name != last.name) && size == Past(last)
  {
    var (all, n) := (init + [last], |init|);
    SamePlaces(init, last);
    assert InPlace(all, n) <==>
      last.widthBits in {8, 16, 32, 64} && last.count >= 1 && last.offset == Reached(init, n);
    hide InPlace, Past;
    assert Reached(all, n + 1) == Past(last);
    hide Reached;
    if OperandsRule(all, size) {
      assert forall j, k :: 0 <= j < k < n ==> init[j] == all[j] && init[k] == all[k];
      forall p | p in init ensures p.name != last.name {
        var j :| 0 <= j < n && init[j] == p;
        assert all[j].name != all[n].name;
      }
    }
    if OperandsRule(init, last.offset) && (forall p :: p in init ==> p.name != last.name) {
      forall j, k | 0 <= j < k < |all| ensures all[j].name != all[k].name {
        assert init[j] in init;
      }
    }
  }

  lemma {:induction false} OperandsExactly(operands: seq<Operand>, size: int)
    ensures OperandsGood(operands) && EndOf(operands) == size <==> OperandsRule(operands, size)
    decreases |operands|
  {
    if operands != [] {
      var (init, last) := (operands[..|operands| - 1], operands[|operands| - 1]);
      assert operands == init + [last];
      RuleSnoc(init, last, size);
      hide OperandsRule;
      OperandsExactly(init, last.offset);
    }
  }

  predicate EntryRule(e: Entry) {
    e.actionVersion == 1 && 0 < e.payloadBytes <= 1_048_576 && e.digestRight && OperandsRule(e.operands, e.payloadBytes)
  }

  /** A registry is accepted exactly when its types rise from above zero, names and native ids are distinct, and
      every entry has version 1, a payload of up to a mebibyte with the right digest, and operands that fill it. */
  lemma RegistryExactly(entries: seq<Entry>)
    ensures RegistryGood(entries) <==>
      && entries != []
      && (forall k :: 0 <= k < |entries| ==> EntryRule(entries[k]) && entries[k].actionType > 0)
      && (forall j, k :: 0 <= j < k < |entries| ==>
            && entries[j].actionType < entries[k].actionType && entries[j].name != entries[k].name
            && entries[j].nativeCommandId != entries[k].nativeCommandId)
  {
    forall k | 0 <= k < |entries| ensures EntryGood(entries[k]) <==> EntryRule(entries[k]) {
      EntryExactly(entries[k]);
    }
    hide EntryGood, EntryRule;
  }

  lemma EntryExactly(e: Entry)
    ensures EntryGood(e) <==> EntryRule(e)
  {
    OperandsExactly(e.operands, e.payloadBytes);
    hide OperandsGood, EndOf;
  }

  // ---- Operands ----

  lemma GoodSnoc(operands: seq<Operand>, o: Operand)
    ensures EndOf(operands + [o]) == EndOf(operands) + Extent(o)
    ensures OperandsGood(operands + [o]) <==>
            && OperandsGood(operands) && OperandShape(o) && o.offset == EndOf(operands)
            && forall p :: p in operands ==> p.name != o.name
  {
    var more := operands + [o];
    assert more[..|more| - 1] == operands && more[|more| - 1] == o;
  }

  lemma {:induction false} GoodPrefix(operands: seq<Operand>, k: nat)
    requires k <= |operands| && OperandsGood(operands)
    ensures OperandsGood(operands[..k]) && 0 <= EndOf(operands[..k]) <= EndOf(operands)
    decreases |operands|
  {
    if k == |operands| {
      assert operands[..k] == operands;
      if k > 0 {
        GoodPrefix(operands[..k - 1], 0);
        Wide(operands[k - 1]);
      }
    } else {
      var init := operands[..|operands| - 1];
      GoodPrefix(init, k);
      assert init[..k] == operands[..k];
      Wide(operands[|operands| - 1]);
    }
  }

  lemma Wide(o: Operand)
    requires OperandShape(o)
    ensures Extent(o) > 0
  {
  }

  lemma CoversRange(operands: seq<Operand>, k: nat, at: int)
    requires k < |operands| && OperandsGood(operands)
    ensures Covers(operands[k], at) <==> EndOf(operands[..k]) <= at < EndOf(operands[..k + 1])
  {
    GoodPrefix(operands, k + 1);
    assert operands[..k + 1] == operands[..k] + [operands[k]];
    GoodSnoc(operands[..k], operands[k]);
  }

  lemma EndMonotone(operands: seq<Operand>, j: nat, k: nat)
    requires j <= k <= |operands| && OperandsGood(operands)
    ensures EndOf(operands[..j]) <= EndOf(operands[..k])
  {
    GoodPrefix(operands, k);
    GoodPrefix(operands[..k], j);
    assert operands[..k][..j] == operands[..j];
  }

  /** The operand a byte belongs to. */
  lemma {:induction false} Find(operands: seq<Operand>, at: int, n: nat) returns (k: nat)
    requires n <= |operands| && OperandsGood(operands) && 0 <= at < EndOf(operands[..n])
    ensures k < n && Covers(operands[k], at)
  {
    hide OperandsGood, Covers;
    assert n > 0;
    if at >= EndOf(operands[..n - 1]) {
      k := n - 1;
      CoversRange(operands, k, at);
    } else {
      k := Find(operands, at, n - 1);
    }
  }

  /** Good operands tile what they end at. */
  lemma GoodTiles(operands: seq<Operand>)
    requires OperandsGood(operands)
    ensures Partitions(operands, EndOf(operands))
  {
    hide OperandsGood, EndOf, Covers;
    assert operands[..|operands|] == operands;
    forall at
      ensures 0 <= at < EndOf(operands) <==> Covered(operands, at)
    {
      if 0 <= at < EndOf(operands) {
        var k := Find(operands, at, |operands|);
      }
      if Covered(operands, at) {
        var k :| 0 <= k < |operands| && Covers(operands[k], at);
        CoversRange(operands, k, at);
        GoodPrefix(operands, k);
        EndMonotone(operands, k + 1, |operands|);
      }
    }
    forall at, j, k | 0 <= j < k < |operands| && Covers(operands[j], at)
      ensures !Covers(operands[k], at)
    {
      CoversRange(operands, j, at);
      CoversRange(operands, k, at);
      EndMonotone(operands, j + 1, k);
    }
  }

  /** The loop over the operands of one entry. */
  method CheckOperands(operands: seq<Operand>, payloadBytes: nat) returns (ok: bool)
    requires payloadBytes <= MAX_PAYLOAD_BYTES
    ensures ok <==> OperandsGood(operands) && EndOf(operands) == payloadBytes
  {
    var cursor := 0;
    var names: set<string> := {};
    var k := 0;
    while k < |operands|
      invariant k <= |operands| && 0 <= cursor == EndOf(operands[..k]) <= U64_MAX
      invariant OperandsGood(operands[..k])
      invariant forall n :: n in names <==> exists p :: p in operands[..k] && p.name == n
    {
      hide OperandsGood, EndOf, Extent;
      var o := operands[k];
      if OperandShape(o) {
        Wide(o);
      }
      assert operands[..k + 1] == operands[..k] + [o];
      GoodSnoc(operands[..k], o);
      if !OperandsGood(operands[..k + 1]) || EndOf(operands[..k + 1]) > U64_MAX {
        TooFar(operands, k);
      }
      if o.name in names || o.offset != cursor {
        return false;
      }
      if o.widthBits !in {8, 16, 32, 64} || o.count < 1 {
        return false;
      }
      if Extent(o) > U64_MAX - cursor {
        return false;
      }
      assert forall p :: p in operands[..k + 1] <==> p in operands[..k] || p == o;
      names := names + {o.name};
      cursor := cursor + Extent(o);
      k := k + 1;
    }
    assert operands[..k] == operands;
    ok := cursor == payloadBytes;
  }

  /** A bad beginning spoils the whole, and an end beyond 64 bits is beyond the payload. */
  lemma TooFar(operands: seq<Operand>, k: nat)
    requires k < |operands| && (!OperandsGood(operands[..k + 1]) || EndOf(operands[..k + 1]) > U64_MAX)
    ensures !(OperandsGood(operands) && EndOf(operands) <= MAX_PAYLOAD_BYTES)
  {
    if OperandsGood(operands) {
      GoodPrefix(operands, k + 1);
    }
  }

  // ---- Entries ----

  /** The loop over the entries. */
  method ValidateRegistry(entries: seq<Entry>) returns (ok: bool)
    ensures ok <==> RegistryGood(entries)
  {
    if entries == [] {
      return false;
    }
    var priorType := 0;
    var names: set<string> := {};
    var nativeIds: set<int> := {};
    var k := 0;
    while k < |entries|
      invariant k <= |entries| && priorType == if k == 0 then 0 else entries[k - 1].actionType
      invariant forall n :: n in names <==> exists j :: 0 <= j < k && entries[j].name == n
      invariant forall n :: n in nativeIds <==> exists j :: 0 <= j < k && entries[j].nativeCommandId == n
      invariant forall j :: 0 <= j < k ==> EntryGood(entries[j]) && 0 < entries[j].actionType <= priorType
      invariant forall i, j :: 0 <= i < j < k ==>
                  && entries[i].actionType < entries[j].actionType && entries[i].name != entries[j].name
                  && entries[i].nativeCommandId != entries[j].nativeCommandId
    {
      hide EndOf, OperandsGood;
      var e := entries[k];
      if e.actionType <= priorType {
        return false;
      }
      priorType := e.actionType;
      if e.name in names || e.nativeCommandId in nativeIds {
        return false;
      }
      names := names + {e.name};
      nativeIds := nativeIds + {e.nativeCommandId};
      if e.actionVersion != 1 || !(0 < e.payloadBytes <= MAX_PAYLOAD_BYTES) || e.operands == [] || !e.digestRight {
        return false;
      }
      var tiled := CheckOperands(e.operands, e.payloadBytes);
      if !tiled {
        return false;
      }
      k := k + 1;
    }
    ok := true;
  }

  // ---- Rules ----

  function RuleOf(e: Entry): Rule
    requires e.allowedFlags.Some?
  {
    Rule(e.actionType, e.actionVersion, e.nativeCommandId, e.payloadBytes, e.allowedFlags.value)
  }

  /** The one member of an entry that validation does not ask for. */
  predicate AllFlagged(entries: seq<Entry>) {
    forall k :: 0 <= k < |entries| ==> entries[k].allowedFlags.Some?
  }

  /** `rules_from_registry`: one rule per entry under its own type; the test for a repeated type never fires. */
  method RulesFromRegistry(entries: seq<Entry>) returns (r: Option<map<int, Rule>>)
    ensures r.Some? <==> RegistryGood(entries) && AllFlagged(entries)
    ensures r.Some? ==>
              && (forall k :: 0 <= k < |entries| ==>
                    var e := entries[k];
                    && e.actionType in r.value
                    && r.value[e.actionType] ==
                       Rule(e.actionType, e.actionVersion, e.nativeCommandId, e.payloadBytes, e.allowedFlags.value))
              && (forall t :: t in r.value ==> exists k :: 0 <= k < |entries| && entries[k].actionType == t)
              && |r.value| == |entries|
  {
    hide EntryGood;
    var ok := ValidateRegistry(entries);
    if !ok {
      return None;
    }
    var rules: map<int, Rule> := map[];
    var repeated := false;
    var k := 0;
    while k < |entries|
      invariant k <= |entries| && |rules| == k && !repeated && AllFlagged(entries[..k])
      invariant forall j :: 0 <= j < k ==>
                  entries[j].actionType in rules && rules[entries[j].actionType] == RuleOf(entries[j])
      invariant forall t :: t in rules ==> exists j :: 0 <= j < k && entries[j].actionType == t
    {
      if entries[k].allowedFlags.None? {
        return None;
      }
      assert entries[..k + 1] == entries[..k] + [entries[k]];
      repeated := repeated || entries[k].actionType in rules;
      rules := rules[entries[k].actionType := RuleOf(entries[k])];
      k := k + 1;
    }
    assert entries[..k] == entries;
    r := if repeated then None else Some(rules);
  }

  /** Every payload the codec accepts for an entry's type is cut into that entry's operands. */
  lemma OperandsTilePayload(entries: seq<Entry>, k: nat)
    requires RegistryGood(entries) && k < |entries|
    ensures Partitions(entries[k].operands, entries[k].payloadBytes)
  {
    GoodTiles(entries[k].operands);
  }
}
