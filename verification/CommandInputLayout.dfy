/** Command-input streams byte by byte: where every field of a stream lies, and what the rules say of its actions.
    A stream is accepted exactly when it is laid out so and its actions obey. */
module CommandInputLayout {
  import opened Wrappers
  import opened Bytes
  import opened CheckedArithmetic
  import opened Structs
  import opened CommandInput
  import opened CommandInputExact

  // ---- The rules ----

  /** What action `k` of a list owes to the rule of its type and to its predecessor. */
  ghost predicate ActionRule<H>(c: Codec<H>, actions: seq<Action>, k: nat)
    requires k < |actions|
  {
    var a := actions[k];
    && a.actionType in c.rules
    && var rule := c.rules[a.actionType];
    && a.actionVersion == rule.actionVersion && a.nativeCommandId == rule.nativeCommandId
    && |a.payload| == rule.payloadBytes && |a.payload| <= 1_048_576
    && BitsWithin(a.flags, rule.allowedFlags)
    && a.sequence == k
    && (k > 0 ==> actions[k - 1].step <= a.step && actions[k - 1].tick <= a.tick)
  }

  /** The integers an action header can hold. */
  predicate InRange(a: Action) {
    && 0 <= a.actionType < 0x1_0000 && 0 <= a.actionVersion < 0x1_0000 && 0 <= a.flags < 0x1_0000_0000
    && 0 <= a.sequence < 0x1_0000_0000_0000_0000 && 0 <= a.step < 0x1_0000_0000_0000_0000
    && 0 <= a.tick < 0x1_0000_0000_0000_0000
    && 0 <= a.nativeCommandId < 0x1_0000_0000 && 0 <= a.company < 0x1_0000_0000
  }

  /** The bytes of one action with its padding. */
  function ActionBytes(a: Action): nat {
    48 + (|a.payload| + 7) / 8 * 8
  }

  function RegionBytes(actions: seq<Action>): nat {
    if actions == [] then 0 else ActionBytes(actions[0]) + RegionBytes(actions[1..])
  }

  /** The streams there are: of which header and which actions. */
  ghost predicate Admissible<H>(c: Codec<H>, h: H, actions: seq<Action>) {
    && c.valid(h) && c.canonical(h).Some? && 0 < |c.canonical(h).value| <= 1_048_576
    && |actions| <= 1_000_000 && RegionBytes(actions) <= 1_073_741_824
    && forall k :: 0 <= k < |actions| ==> ActionRule(c, actions, k) && InRange(actions[k])
  }

  // ---- The layout ----

  /** The bytes of one action. */
  predicate ActionLayout(a: Action, b: bytes) {
    var n := |a.payload|;
    && |b| == ActionBytes(a)
    && ActionFields(a, b)
    && b[48..48 + n] == a.payload
    && forall i :: 48 + n <= i < |b| ==> b[i] == 0
  }

  predicate ActionFields(a: Action, b: bytes)
    requires |b| >= 48
  {
    && U16At(b, 0) == a.actionType && U16At(b, 2) == a.actionVersion && U32At(b, 4) == a.flags
    && U64At(b, 8) == a.sequence && U64At(b, 16) == a.step && U64At(b, 24) == a.tick
    && U32At(b, 32) == a.nativeCommandId && U32At(b, 36) == a.company
    && U32At(b, 40) == |a.payload| && U32At(b, 44) == 0
  }

  predicate RegionLayout(actions: seq<Action>, b: bytes) {
    |b| == RegionBytes(actions)
    && (actions != [] ==>
          ActionLayout(actions[0], b[..ActionBytes(actions[0])])
          && RegionLayout(actions[1..], b[ActionBytes(actions[0])..]))
  }

  predicate PrefixLayout<H>(c: Codec<H>, h: H, actions: seq<Action>, header: nat, b: bytes)
    requires |b| >= 64
  {
    && b[..8] == [0x4F, 0x54, 0x52, 0x4C, 0x43, 0x4D, 0x44, 0x00]
    && U16At(b, 8) == 1 && U16At(b, 10) == 0 && b[12] == 1 && b[13] == 1 && U16At(b, 14) == 64
    && U32At(b, 16) == header && U32At(b, 20) == 0 && U64At(b, 24) == |actions| && U64At(b, 32) == RegionBytes(actions)
    && (if actions == [] then U64At(b, 40) == c.step(h) && U64At(b, 48) == c.tick(h)
        else U64At(b, 40) == actions[|actions| - 1].step && U64At(b, 48) == actions[|actions| - 1].tick)
    && U64At(b, 56) == 0
  }

  predicate TrailerLayout<H>(c: Codec<H>, count: nat, b: bytes, covered: nat)
    requires |b| == covered + 64
  {
    && b[covered..covered + 8] == [0x4F, 0x54, 0x52, 0x4C, 0x43, 0x4D, 0x45, 0x00]
    && U64At(b, covered + 8) == count && U64At(b, covered + 16) == covered
    && b[covered + 24..covered + 56] == c.sha(b[..covered]) && U64At(b, covered + 56) == 0
  }

  predicate StreamLayout<H>(c: Codec<H>, h: H, actions: seq<Action>, b: bytes)
    requires c.canonical(h).Some?
  {
    var header := c.canonical(h).value;
    var (start, covered) := (64 + |header|, 64 + |header| + RegionBytes(actions));
    && |b| == covered + 64
    && PrefixLayout(c, h, actions, |header|, b)
    && b[64..start] == header
    && RegionLayout(actions, b[start..covered])
    && TrailerLayout(c, |actions|, b, covered)
  }

  // ---- The rules are those of the codec ----

  function Before(actions: seq<Action>, prior: Option<Action>, k: nat): Option<Action>
    requires k < |actions|
  {
    if k == 0 then prior else Some(actions[k - 1])
  }

  lemma {:induction false} BuildableEach<H>(c: Codec<H>, actions: seq<Action>, prior: Option<Action>)
    ensures AllBuildable(c, actions, prior) <==>
      forall k :: 0 <= k < |actions| ==> Buildable(c, actions[k], Before(actions, prior, k))
  {
    hide Buildable;
    if actions != [] {
      var rest := actions[1..];
      BuildableEach(c, rest, Some(actions[0]));
      assert Before(actions, prior, 0) == prior;
      assert forall k :: 0 <= k < |rest| ==>
        rest[k] == actions[k + 1] && Before(rest, Some(actions[0]), k) == Before(actions, prior, k + 1);
      assert forall k :: 0 < k < |actions| ==>
        actions[k] == rest[k - 1] && Before(actions, prior, k) == Before(rest, Some(actions[0]), k - 1);
    }
  }

  lemma FitsExactly(a: Action)
    ensures |a.payload| <= 1_048_576 ==> (Fits(ACTION_WIDTHS, Values(a)) <==> InRange(a))
    ensures Fits(ACTION_WIDTHS, Values(a)) ==> InRange(a)
  {
    Widths();
    var (w, v) := (ACTION_WIDTHS, Values(a));
    if Fits(w, v) {
      assert v[0] == a.actionType && v[1] == a.actionVersion && v[2] == a.flags && v[3] == a.sequence;
      assert v[4] == a.step && v[5] == a.tick && v[6] == a.nativeCommandId && v[7] == a.company;
    }
  }

  /** One action, given that its predecessor has the sequence number before its own. */
  lemma BuildableExactly<H>(c: Codec<H>, actions: seq<Action>, k: nat)
    requires k < |actions| && (k > 0 ==> actions[k - 1].sequence == k - 1)
    ensures Buildable(c, actions[k], Before(actions, None, k)) <==> ActionRule(c, actions, k) && InRange(actions[k])
  {
    hide Fits, Values, Submask, BitsWithin;
    var a := actions[k];
    FitsExactly(a);
    if a.actionType in c.rules {
      SubmaskBits(a.flags, c.rules[a.actionType].allowedFlags);
    }
  }

  lemma ActionsExactly<H>(c: Codec<H>, actions: seq<Action>)
    ensures AllBuildable(c, actions, None) <==>
      forall k :: 0 <= k < |actions| ==> ActionRule(c, actions, k) && InRange(actions[k])
  {
    hide Buildable, InRange, AllBuildable, ActionRule;
    BuildableEach(c, actions, None);
    if AllBuildable(c, actions, None) {
      forall k | 0 <= k < |actions| ensures ActionRule(c, actions, k) && InRange(actions[k]) {
        Schedule(c, actions, None, 0, k);
        if k > 0 {
          Schedule(c, actions, None, 0, k - 1);
        }
        BuildableExactly(c, actions, k);
      }
    } else if forall k :: 0 <= k < |actions| ==> ActionRule(c, actions, k) && InRange(actions[k]) {
      forall k | 0 <= k < |actions| ensures Buildable(c, actions[k], Before(actions, None, k)) {
        SequenceOf(c, actions, k);
        BuildableExactly(c, actions, k);
      }
    }
  }

  lemma SequenceOf<H>(c: Codec<H>, actions: seq<Action>, k: nat)
    requires k < |actions| && forall j :: 0 <= j < |actions| ==> ActionRule(c, actions, j)
    ensures actions[k].sequence == k && (k > 0 ==> actions[k - 1].sequence == k - 1)
  {
    assert ActionRule(c, actions, k);
    if k > 0 {
      assert ActionRule(c, actions, k - 1);
    }
  }

  lemma PaddedSize(a: Action)
    ensures 48 + |a.payload| + Pad8(|a.payload|) == ActionBytes(a)
  {
  }

  lemma {:induction false} RegionSize(actions: seq<Action>)
    requires forall k :: 0 <= k < |actions| ==> Fits(ACTION_WIDTHS, Values(actions[k]))
    ensures |EncodeActions(actions)| == RegionBytes(actions)
  {
    hide Fits, Values, ActionBytes;
    if actions != [] {
      assert forall k :: 0 <= k < |actions[1..]| ==> actions[1..][k] == actions[k + 1];
      RegionSize(actions[1..]);
      PaddedSize(actions[0]);
    }
  }

  /** The builder succeeds on exactly the admissible headers and actions. */
  lemma BuildsExactly<H>(c: Codec<H>, h: H, actions: seq<Action>)
    ensures BuildOk(c, h, actions) <==> Admissible(c, h, actions)
  {
    hide AllBuildable, ActionRule, InRange, EncodeActions, Fits;
    ActionsExactly(c, actions);
    if AllBuildable(c, actions, None) {
      AllFit(c, actions, None);
      RegionSize(actions);
    }
  }

  // ---- The bytes are those of the codec ----

  lemma ActionOffsets()
    ensures Size(ACTION_WIDTHS) == 48
    ensures Offset(ACTION_WIDTHS, 0) == 0 && Offset(ACTION_WIDTHS, 1) == 2 && Offset(ACTION_WIDTHS, 2) == 4
    ensures Offset(ACTION_WIDTHS, 3) == 8 && Offset(ACTION_WIDTHS, 4) == 16 && Offset(ACTION_WIDTHS, 5) == 24
    ensures Offset(ACTION_WIDTHS, 6) == 32 && Offset(ACTION_WIDTHS, 7) == 36 && Offset(ACTION_WIDTHS, 8) == 40
    ensures Offset(ACTION_WIDTHS, 9) == 44
  {
    assert Offset(ACTION_WIDTHS, 0) == 0;
    hide Offset, Size;
    ActionSize();
    OffsetNext(ACTION_WIDTHS, 0);
    OffsetNext(ACTION_WIDTHS, 1);
    OffsetNext(ACTION_WIDTHS, 2);
    OffsetNext(ACTION_WIDTHS, 3);
    OffsetNext(ACTION_WIDTHS, 4);
    OffsetNext(ACTION_WIDTHS, 5);
    OffsetNext(ACTION_WIDTHS, 6);
    OffsetNext(ACTION_WIDTHS, 7);
    OffsetNext(ACTION_WIDTHS, 8);
  }

  lemma PrefixOffsets()
    ensures Size(PREFIX_WIDTHS) == 56
    ensures Offset(PREFIX_WIDTHS, 0) == 0 && Offset(PREFIX_WIDTHS, 1) == 2 && Offset(PREFIX_WIDTHS, 2) == 4
    ensures Offset(PREFIX_WIDTHS, 3) == 5 && Offset(PREFIX_WIDTHS, 4) == 6 && Offset(PREFIX_WIDTHS, 5) == 8
    ensures Offset(PREFIX_WIDTHS, 6) == 12 && Offset(PREFIX_WIDTHS, 7) == 16 && Offset(PREFIX_WIDTHS, 8) == 24
    ensures Offset(PREFIX_WIDTHS, 9) == 32 && Offset(PREFIX_WIDTHS, 10) == 40 && Offset(PREFIX_WIDTHS, 11) == 48
  {
    assert Offset(PREFIX_WIDTHS, 0) == 0;
    hide Offset, Size;
    PrefixSize();
    OffsetNext(PREFIX_WIDTHS, 0);
    OffsetNext(PREFIX_WIDTHS, 1);
    OffsetNext(PREFIX_WIDTHS, 2);
    OffsetNext(PREFIX_WIDTHS, 3);
    OffsetNext(PREFIX_WIDTHS, 4);
    OffsetNext(PREFIX_WIDTHS, 5);
    OffsetNext(PREFIX_WIDTHS, 6);
    OffsetNext(PREFIX_WIDTHS, 7);
    OffsetNext(PREFIX_WIDTHS, 8);
    OffsetNext(PREFIX_WIDTHS, 9);
    OffsetNext(PREFIX_WIDTHS, 10);
  }

  /** The ten fields of an action header. */
  lemma ActionUnpacked(b: bytes)
    requires |b| == 48
    ensures Size(ACTION_WIDTHS) == 48
    ensures Unpack(ACTION_WIDTHS, b) ==
      [U16At(b, 0), U16At(b, 2), U32At(b, 4), U64At(b, 8), U64At(b, 16), U64At(b, 24), U32At(b, 32), U32At(b, 36), U32At(b, 40),
       U32At(b, 44)]
  {
    hide Offset, Size, Unpack, UInt;
    ActionOffsets();
    UnpackedField(ACTION_WIDTHS, b, 0);
    UnpackedField(ACTION_WIDTHS, b, 1);
    UnpackedField(ACTION_WIDTHS, b, 2);
    UnpackedField(ACTION_WIDTHS, b, 3);
    UnpackedField(ACTION_WIDTHS, b, 4);
    UnpackedField(ACTION_WIDTHS, b, 5);
    UnpackedField(ACTION_WIDTHS, b, 6);
    UnpackedField(ACTION_WIDTHS, b, 7);
    UnpackedField(ACTION_WIDTHS, b, 8);
    UnpackedField(ACTION_WIDTHS, b, 9);
  }

  /** The twelve fields after the prefix magic. */
  lemma PrefixUnpacked(b: bytes)
    requires |b| == 56
    ensures Size(PREFIX_WIDTHS) == 56
    ensures Unpack(PREFIX_WIDTHS, b) ==
      [U16At(b, 0), U16At(b, 2), UInt(b[4..5]), UInt(b[5..6]), U16At(b, 6), U32At(b, 8), U32At(b, 12), U64At(b, 16), U64At(b, 24),
       U64At(b, 32), U64At(b, 40), U64At(b, 48)]
  {
    hide Offset, Size, Unpack, UInt;
    PrefixOffsets();
    UnpackedField(PREFIX_WIDTHS, b, 0);
    UnpackedField(PREFIX_WIDTHS, b, 1);
    UnpackedField(PREFIX_WIDTHS, b, 2);
    UnpackedField(PREFIX_WIDTHS, b, 3);
    UnpackedField(PREFIX_WIDTHS, b, 4);
    UnpackedField(PREFIX_WIDTHS, b, 5);
    UnpackedField(PREFIX_WIDTHS, b, 6);
    UnpackedField(PREFIX_WIDTHS, b, 7);
    UnpackedField(PREFIX_WIDTHS, b, 8);
    UnpackedField(PREFIX_WIDTHS, b, 9);
    UnpackedField(PREFIX_WIDTHS, b, 10);
    UnpackedField(PREFIX_WIDTHS, b, 11);
  }

  lemma SameFields(a: Action, b: bytes)
    requires |b| >= 48
    ensures ActionFields(a, b) <==> ActionFields(a, b[..48])
  {
    hide UInt;
    SubRange(b, 0, 48, 0, 2); SubRange(b, 0, 48, 2, 4); SubRange(b, 0, 48, 4, 8);
    SubRange(b, 0, 48, 8, 16); SubRange(b, 0, 48, 16, 24); SubRange(b, 0, 48, 24, 32);
    SubRange(b, 0, 48, 32, 36); SubRange(b, 0, 48, 36, 40); SubRange(b, 0, 48, 40, 44);
    SubRange(b, 0, 48, 44, 48);
  }

  lemma FieldsExactly(a: Action, b: bytes)
    requires Fits(ACTION_WIDTHS, Values(a)) && |b| >= 48
    ensures b[..48] == Pack(ACTION_WIDTHS, Values(a)) <==> ActionFields(a, b)
  {
    hide Unpack, Pack, Fits, U16At, U32At, U64At;
    SameFields(a, b);
    ActionUnpacked(b[..48]);
    UnpackPack(ACTION_WIDTHS, b[..48]);
    PackUnpack(ACTION_WIDTHS, Values(a));
    if ActionFields(a, b[..48]) {
      assert Unpack(ACTION_WIDTHS, b[..48]) == Values(a);
    }
  }

  /** An action's bytes are exactly those laid out so. */
  lemma ActionExactly(a: Action, b: bytes)
    requires Fits(ACTION_WIDTHS, Values(a))
    ensures b == EncodeAction(a) <==> ActionLayout(a, b)
  {
    hide Pack, Fits, ActionFields, Values;
    PaddedSize(a);
    ActionSize();
    var (h, n, e) := (Pack(ACTION_WIDTHS, Values(a)), |a.payload|, EncodeAction(a));
    assert e[..48] == h && e[48..48 + n] == a.payload && e[48 + n..] == Zeros(Pad8(n));
    assert forall i :: 48 + n <= i < |e| ==> e[i] == e[48 + n..][i - 48 - n];
    if |b| == ActionBytes(a) {
      FieldsExactly(a, b);
      if ActionLayout(a, b) {
        assert b[48 + n..] == Zeros(Pad8(n));
        assert b == b[..48] + b[48..48 + n] + b[48 + n..];
      }
    }
  }

  lemma {:induction false} RegionExactly(actions: seq<Action>, b: bytes)
    requires forall k :: 0 <= k < |actions| ==> Fits(ACTION_WIDTHS, Values(actions[k]))
    ensures b == EncodeActions(actions) <==> RegionLayout(actions, b)
  {
    hide Fits, Values, ActionLayout, EncodeAction, ActionBytes;
    if actions != [] {
      var (a, rest) := (actions[0], actions[1..]);
      assert forall k :: 0 <= k < |rest| ==> rest[k] == actions[k + 1];
      RegionSize(actions);
      PaddedSize(a);
      var n := ActionBytes(a);
      var e := EncodeActions(actions);
      assert e == EncodeAction(a) + EncodeActions(rest);
      assert |EncodeAction(a)| == n;
      if |b| == RegionBytes(actions) {
        ActionExactly(a, b[..n]);
        RegionExactly(rest, b[n..]);
        assert b == b[..n] + b[n..];
        assert e[..n] == EncodeAction(a) && e[n..] == EncodeActions(rest);
      }
    }
  }

  lemma OneByte(b: bytes)
    requires |b| == 1
    ensures UInt(b) == b[0]
  {
    assert UInt(b[1..]) == 0;
  }

  /** The fields of a prefix, read in the part after its magic. */
  lemma PrefixSlices(b: bytes)
    requires |b| >= 64
    ensures Size(PREFIX_WIDTHS) == 56
    ensures Unpack(PREFIX_WIDTHS, b[8..64]) ==
      [U16At(b, 8), U16At(b, 10), b[12], b[13], U16At(b, 14), U32At(b, 16), U32At(b, 20), U64At(b, 24), U64At(b, 32),
       U64At(b, 40), U64At(b, 48), U64At(b, 56)]
  {
    hide UInt, Unpack, Size;
    var p := b[8..64];
    PrefixUnpacked(p);
    SubRange(b, 8, 64, 0, 2); SubRange(b, 8, 64, 2, 4); SubRange(b, 8, 64, 4, 5);
    SubRange(b, 8, 64, 5, 6); SubRange(b, 8, 64, 6, 8); SubRange(b, 8, 64, 8, 12);
    SubRange(b, 8, 64, 12, 16); SubRange(b, 8, 64, 16, 24); SubRange(b, 8, 64, 24, 32);
    SubRange(b, 8, 64, 32, 40); SubRange(b, 8, 64, 40, 48); SubRange(b, 8, 64, 48, 56);
    OneByte(p[4..5]);
    OneByte(p[5..6]);
  }

  lemma PrefixExactly<H>(c: Codec<H>, h: H, actions: seq<Action>, header: nat, b: bytes)
    requires |b| >= 64 && Fits(PREFIX_WIDTHS, PrefixValues(c, h, header, actions, RegionBytes(actions)))
    ensures PrefixLayout(c, h, actions, header, b) <==>
      b[..8] == PREFIX_MAGIC && b[8..64] == Pack(PREFIX_WIDTHS, PrefixValues(c, h, header, actions, RegionBytes(actions)))
  {
    hide UInt, Unpack, Pack, Size, Fits, RegionBytes, U16At, U32At, U64At;
    var values := PrefixValues(c, h, header, actions, RegionBytes(actions));
    PrefixSlices(b);
    UnpackPack(PREFIX_WIDTHS, b[8..64]);
    PackUnpack(PREFIX_WIDTHS, values);
    if PrefixLayout(c, h, actions, header, b) {
      assert Unpack(PREFIX_WIDTHS, b[8..64]) == values;
    }
  }

  lemma TrailerFields(t: bytes)
    requires |t| == 64
    ensures Size(COUNT_WIDTHS) == 16 && Size(RESERVED_WIDTHS) == 8
    ensures Unpack(COUNT_WIDTHS, t[8..24]) == [U64At(t, 8), U64At(t, 16)]
    ensures Unpack(RESERVED_WIDTHS, t[56..]) == [U64At(t, 56)]
  {
    TrailerSizes();
    assert Offset(COUNT_WIDTHS, 0) == 0 && Offset(RESERVED_WIDTHS, 0) == 0;
    OffsetNext(COUNT_WIDTHS, 0);
    hide UInt, Unpack, Size, Offset;
    UnpackedField(COUNT_WIDTHS, t[8..24], 0);
    UnpackedField(COUNT_WIDTHS, t[8..24], 1);
    UnpackedField(RESERVED_WIDTHS, t[56..], 0);
    assert t[8..24][0..8] == t[8..16] && t[8..24][8..16] == t[16..24] && t[56..][0..8] == t[56..64];
  }

  lemma TrailerExactly<H>(c: Codec<H>, count: nat, b: bytes, covered: nat)
    requires |b| == covered + 64 && count <= U64_MAX && covered <= U64_MAX
    ensures TrailerLayout(c, count, b, covered) <==> b[covered..] == Trailer(c, count, b[..covered])
  {
    hide UInt, Unpack, Pack, Size, Trailer;
    var t := b[covered..];
    TrailerFields(t);
    FromSlice(b, covered, 0, 8);
    FromSlice(b, covered, 8, 16);
    FromSlice(b, covered, 16, 24);
    FromSlice(b, covered, 24, 56);
    FromSlice(b, covered, 56, 64);
    if t == Trailer(c, count, b[..covered]) {
      TrailerComplete(c, count, b[..covered]);
    }
    if TrailerLayout(c, count, b, covered) {
      TrailerSound(c, t, count, b[..covered]);
    }
  }

  lemma FiveExactly(data: bytes, p: bytes, q: bytes, r: bytes, s: bytes, t: bytes)
    requires |data| == |p| + |q| + |r| + |s| + |t|
    ensures var (i, j, k) := (|p| + |q|, |p| + |q| + |r|, |p| + |q| + |r| + |s|);
      data == p + q + r + s + t <==>
        data[..|p|] == p && data[|p|..i] == q && data[i..j] == r && data[j..k] == s && data[k..] == t
  {
    var (i, j, k) := (|p| + |q|, |p| + |q| + |r|, |p| + |q| + |r| + |s|);
    FiveParts(p, q, r, s, t);
    assert data == data[..|p|] + data[|p|..i] + data[i..j] + data[j..k] + data[k..];
  }

  /** The bytes the builder makes are exactly those laid out so. */
  lemma AssembledExactly<H>(c: Codec<H>, h: H, actions: seq<Action>, data: bytes)
    requires BuildOk(c, h, actions)
    ensures data == Assemble(c, h, actions) <==> StreamLayout(c, h, actions, data)
  {
    hide UInt, Pack, Size, Trailer, TrailerLayout, PrefixLayout, RegionLayout, EncodeActions, RegionBytes, AllBuildable, Fits,
      PrefixValues;
    AllFit(c, actions, None);
    PrefixFits(c, h, actions);
    PrefixSize();
    CoveredSize(c, h, actions);
    RegionSize(actions);
    var (header, region, covered) := (c.canonical(h).value, EncodeActions(actions), Covered(c, h, actions));
    var prefix := Pack(PREFIX_WIDTHS, PrefixValues(c, h, |header|, actions, |region|));
    var n := |covered|;
    if |data| == n + 64 {
      PrefixExactly(c, h, actions, |header|, data);
      RegionExactly(actions, data[64 + |header|..n]);
      TrailerExactly(c, |actions|, data, n);
      FiveExactly(data, PREFIX_MAGIC, prefix, header, region, Trailer(c, |actions|, covered));
      if data[..8] == PREFIX_MAGIC && data[8..64] == prefix && data[64..64 + |header|] == header
         && data[64 + |header|..n] == region {
        assert data[..n] == covered;
      }
    }
  }

  /** A stream is read as a header and actions exactly when they are admissible and the stream is laid out so. */
  lemma StreamExactly<H(!new)>(c: Codec<H>, data: bytes, expected: H -> bool, h: H, actions: seq<Action>)
    requires ValidCodec(c)
    ensures Parse(c, data, expected) == Success((h, actions)) <==>
      Admissible(c, h, actions) && expected(h) && StreamLayout(c, h, actions, data)
  {
    hide Parse, BuildOk, Assemble, StreamLayout, Admissible;
    ParseExact(c, data, expected, h, actions);
    BuildsExactly(c, h, actions);
    if BuildOk(c, h, actions) {
      AssembledExactly(c, h, actions, data);
    }
  }

  // ---- How building fails ----

  /** All that is wrong with an action is that an integer does not fit its field. */
  predicate Unpackable<H>(c: Codec<H>, a: Action, prior: Option<Action>) {
    && a.actionType in c.rules && ValidAction(a, c.rules[a.actionType], prior) && |a.payload| <= MAX_PAYLOAD_BYTES
    && !Fits(ACTION_WIDTHS, Values(a))
  }

  /** Action `k` is the first that cannot be built, and that because of its integers. */
  predicate UnpackableAt<H>(c: Codec<H>, actions: seq<Action>, prior: Option<Action>, k: int) {
    && 0 <= k < |actions| && Unpackable(c, actions[k], Before(actions, prior, k))
    && forall j: nat :: j < k ==> Buildable(c, actions[j], Before(actions, prior, j))
  }

  lemma UnpackableLater<H>(c: Codec<H>, actions: seq<Action>, prior: Option<Action>, k: int)
    requires actions != [] && Buildable(c, actions[0], prior)
    ensures UnpackableAt(c, actions, prior, k + 1) <==> UnpackableAt(c, actions[1..], Some(actions[0]), k)
  {
    hide Buildable, Unpackable;
    var rest := actions[1..];
    assert Before(actions, prior, 0) == prior;
    assert forall j: nat :: j < |rest| ==>
      rest[j] == actions[j + 1] && Before(rest, Some(actions[0]), j) == Before(actions, prior, j + 1);
    if UnpackableAt(c, actions[1..], Some(actions[0]), k) {
      forall j: nat | j < k + 1 ensures Buildable(c, actions[j], Before(actions, prior, j)) {
        if j > 0 {
          assert Buildable(c, rest[j - 1], Before(rest, Some(actions[0]), j - 1));
        }
      }
    }
    if UnpackableAt(c, actions, prior, k + 1) && k == -1 {
      OneOrTheOther(c, actions[0], prior);
    }
  }

  lemma OneOrTheOther<H>(c: Codec<H>, a: Action, prior: Option<Action>)
    ensures !(Buildable(c, a, prior) && Unpackable(c, a, prior))
  {
  }

  lemma FirstOnly<H>(c: Codec<H>, actions: seq<Action>, prior: Option<Action>, k: int)
    requires UnpackableAt(c, actions, prior, k) && !Buildable(c, actions[0], prior)
    ensures k == 0
  {
    hide Buildable, Unpackable;
    var first: nat := 0;
    assert Before(actions, prior, first) == prior;
  }

  lemma NoFaultHere<H>(c: Codec<H>, actions: seq<Action>, prior: Option<Action>)
    requires actions != [] && Buildable(c, actions[0], prior)
    ensures FirstFault(c, actions, prior) == FirstFault(c, actions[1..], Some(actions[0]))
  {
    hide ValidAction, Fits, Values;
  }

  lemma {:induction false} FirstFaultExactly<H>(c: Codec<H>, actions: seq<Action>, prior: Option<Action>)
    ensures FirstFault(c, actions, prior) == Some(PackingError) <==> exists k :: UnpackableAt(c, actions, prior, k)
    decreases |actions|
  {
    if actions != [] {
      var (a, rest) := (actions[0], Some(actions[0]));
      if Buildable(c, a, prior) {
        FirstFaultExactly(c, actions[1..], rest);
        hide Buildable, UnpackableAt, ValidAction, Fits, Values;
        if k :| UnpackableAt(c, actions, prior, k) {
          UnpackableLater(c, actions, prior, k - 1);
        }
        if k :| UnpackableAt(c, actions[1..], rest, k) {
          UnpackableLater(c, actions, prior, k);
        }
        NoFaultHere(c, actions, prior);
      } else {
        hide ValidAction, Fits, Values;
        assert Before(actions, prior, 0) == prior;
        assert FirstFault(c, actions, prior) == Some(PackingError) <==> Unpackable(c, a, prior);
        if k :| UnpackableAt(c, actions, prior, k) {
          FirstOnly(c, actions, prior, k);
        }
        if Unpackable(c, a, prior) {
          assert UnpackableAt(c, actions, prior, 0);
        }
      }
    }
  }

  /** Action `k` obeys the rules, but its step, tick or another of its integers does not fit; all before it are good. */
  ghost predicate OverflowsAt<H>(c: Codec<H>, actions: seq<Action>, k: int) {
    && 0 <= k < |actions| && ActionRule(c, actions, k) && !InRange(actions[k]) && 0 <= actions[k].company < 0x1_0000_0000
    && forall j :: 0 <= j < k ==> ActionRule(c, actions, j) && InRange(actions[j])
  }

  lemma OverflowsExactly<H>(c: Codec<H>, actions: seq<Action>, k: int)
    ensures UnpackableAt(c, actions, None, k) <==> OverflowsAt(c, actions, k)
  {
    hide Buildable, InRange, ActionRule, Unpackable;
    if 0 <= k < |actions| {
      if UnpackableAt(c, actions, None, k) {
        BuildableEach(c, actions[..k], None);
        assert forall j :: 0 <= j < k ==> actions[..k][j] == actions[j] && Before(actions[..k], None, j) == Before(actions, None, j);
        ActionsExactly(c, actions[..k]);
        RulesOfPrefix(c, actions, k);
        UnpackableExactly(c, actions, k);
      } else if OverflowsAt(c, actions, k) {
        RulesOfPrefix(c, actions, k);
        ActionsExactly(c, actions[..k]);
        BuildableEach(c, actions[..k], None);
        assert forall j: nat :: j < k ==> actions[..k][j] == actions[j] && Before(actions[..k], None, j) == Before(actions, None, j);
        UnpackableExactly(c, actions, k);
      }
    }
  }

  lemma RulesOfPrefix<H>(c: Codec<H>, actions: seq<Action>, k: nat)
    requires k <= |actions|
    ensures forall j :: 0 <= j < k ==> (ActionRule(c, actions[..k], j) <==> ActionRule(c, actions, j))
  {
    hide BitsWithin;
    forall j | 0 <= j < k ensures ActionRule(c, actions[..k], j) <==> ActionRule(c, actions, j) {
      assert actions[..k][j] == actions[j] && (j > 0 ==> actions[..k][j - 1] == actions[j - 1]);
    }
  }

  lemma UnpackableExactly<H>(c: Codec<H>, actions: seq<Action>, k: nat)
    requires k < |actions| && forall j :: 0 <= j < k ==> ActionRule(c, actions, j)
    ensures Unpackable(c, actions[k], Before(actions, None, k)) <==>
      ActionRule(c, actions, k) && !InRange(actions[k]) && 0 <= actions[k].company < 0x1_0000_0000
  {
    hide Fits, Values, Submask, BitsWithin;
    var a := actions[k];
    FitsExactly(a);
    if a.actionType in c.rules {
      SubmaskBits(a.flags, c.rules[a.actionType].allowedFlags);
    }
    assert k > 0 ==> ActionRule(c, actions, k - 1);
  }

  /** Building fails with a packing error exactly when the header is good and the first bad action obeys its rules but
      holds an integer its field cannot hold; every other failure is a codec error. */
  lemma BuildFailsExactly<H>(c: Codec<H>, h: H, actions: seq<Action>, e: Error)
    ensures Build(c, h, actions) == Failure(e) <==>
      && !Admissible(c, h, actions)
      && (e == PackingError <==>
            && c.valid(h) && c.canonical(h).Some? && 0 < |c.canonical(h).value| <= 1_048_576 && |actions| <= 1_000_000
            && exists k :: OverflowsAt(c, actions, k))
  {
    hide BuildOk, Admissible, FirstFault, UnpackableAt, OverflowsAt, Assemble;
    BuildsExactly(c, h, actions);
    FirstFaultExactly(c, actions, None);
    forall k ensures UnpackableAt(c, actions, None, k) <==> OverflowsAt(c, actions, k) {
      OverflowsExactly(c, actions, k);
    }
    assert (exists k :: UnpackableAt(c, actions, None, k)) <==> exists k :: OverflowsAt(c, actions, k);
    BuildFails(c, h, actions, e);
  }

  lemma BuildFails<H>(c: Codec<H>, h: H, actions: seq<Action>, e: Error)
    ensures Build(c, h, actions) == Failure(e) <==>
      && !BuildOk(c, h, actions)
      && (e == PackingError <==>
            && c.valid(h) && c.canonical(h).Some? && 0 < |c.canonical(h).value| <= 1_048_576 && |actions| <= 1_000_000
            && FirstFault(c, actions, None) == Some(PackingError))
  {
    hide AllBuildable, EncodeActions, FirstFault, Assemble;
    var headerGood := c.valid(h) && c.canonical(h).Some? && 0 < |c.canonical(h).value| <= 1_048_576 && |actions| <= 1_000_000;
    if !BuildOk(c, h, actions) {
      assert headerGood ==> Build(c, h, actions) == Failure(FirstFault(c, actions, None).GetOr(CommandInputError));
      assert !headerGood ==> Build(c, h, actions) == Failure(CommandInputError);
      assert e.PackingError? || e.CommandInputError?;
      match FirstFault(c, actions, None)
      case None =>
      case Some(fault) => assert fault.PackingError? || fault.CommandInputError?;
    }
  }
}
