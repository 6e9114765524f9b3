/** The parser of command-input streams accepts exactly what the builder builds, and gives back what went in. */
module CommandInputExact {
  import opened Wrappers
  import opened Bytes
  import opened CheckedArithmetic
  import opened Structs
  import opened CommandInput

  // ---- One action ----

  lemma ActionComplete<H>(c: Codec<H>, a: Action, prior: Option<Action>, rest: bytes)
    requires Buildable(c, a, prior)
    ensures ScanAction(c, EncodeAction(a) + rest, prior) == Success((a, rest))
  {
    hide Pack, Unpack, ValidAction, Fits;
    ActionSize();
    var n := |a.payload|;
    var h := Pack(ACTION_WIDTHS, Values(a));
    var b := EncodeAction(a) + rest;
    assert b == h + a.payload + Zeros(Pad8(n)) + rest;
    assert b[..ACTION_HEADER_BYTES] == h;
    PackUnpack(ACTION_WIDTHS, Values(a));
    assert b[ACTION_HEADER_BYTES..ACTION_HEADER_BYTES + n] == a.payload;
    assert b[ACTION_HEADER_BYTES + n..ACTION_HEADER_BYTES + n + Pad8(n)] == Zeros(Pad8(n));
    assert b[ACTION_HEADER_BYTES + n + Pad8(n)..] == rest;
  }

  lemma ActionSound<H>(c: Codec<H>, b: bytes, prior: Option<Action>)
    requires ScanAction(c, b, prior).Success?
    ensures var (a, rest) := ScanAction(c, b, prior).value; Buildable(c, a, prior) && b == EncodeAction(a) + rest
  {
    hide Pack, Unpack, ValidAction, Fits;
    ActionSize();
    var (a, rest) := ScanAction(c, b, prior).value;
    var n := |a.payload|;
    var v := Unpack(ACTION_WIDTHS, b[..ACTION_HEADER_BYTES]);
    UnpackPack(ACTION_WIDTHS, b[..ACTION_HEADER_BYTES]);
    assert v == Values(a);
    var size := ACTION_HEADER_BYTES + n + Pad8(n);
    assert b == b[..ACTION_HEADER_BYTES] + b[ACTION_HEADER_BYTES..ACTION_HEADER_BYTES + n]
                + b[ACTION_HEADER_BYTES + n..size] + b[size..];
  }

  // ---- The action region ----

  lemma {:induction false} ActionsComplete<H>(c: Codec<H>, actions: seq<Action>, prior: Option<Action>)
    requires AllBuildable(c, actions, prior)
    ensures forall k :: 0 <= k < |actions| ==> Fits(ACTION_WIDTHS, Values(actions[k]))
    ensures ScanActions(c, EncodeActions(actions), prior) == Success(actions)
  {
    hide Buildable, Fits, EncodeAction, ScanAction;
    AllFit(c, actions, prior);
    if actions != [] {
      var rest := EncodeActions(actions[1..]);
      ActionComplete(c, actions[0], prior, rest);
      ActionsComplete(c, actions[1..], Some(actions[0]));
      assert EncodeActions(actions) == EncodeAction(actions[0]) + rest;
      assert actions == [actions[0]] + actions[1..];
    }
  }

  lemma {:induction false} ActionsSound<H>(c: Codec<H>, b: bytes, prior: Option<Action>)
    requires ScanActions(c, b, prior).Success?
    ensures var actions := ScanActions(c, b, prior).value;
            && AllBuildable(c, actions, prior)
            && (forall k :: 0 <= k < |actions| ==> Fits(ACTION_WIDTHS, Values(actions[k])))
            && b == EncodeActions(actions)
    decreases |b|
  {
    hide Buildable, Fits, EncodeAction, ScanAction;
    var actions := ScanActions(c, b, prior).value;
    if b != [] {
      ActionSound(c, b, prior);
      var (a, rest) := ScanAction(c, b, prior).value;
      ActionsSound(c, rest, Some(a));
      assert actions[1..] == ScanActions(c, rest, Some(a)).value;
    }
    AllFit(c, actions, prior);
  }

  // ---- Whole streams ----

  lemma TrailerComplete<H>(c: Codec<H>, count: nat, covered: bytes)
    requires count <= U64_MAX && |covered| <= U64_MAX
    ensures TrailerOk(c, Trailer(c, count, covered), count, covered)
  {
    hide Pack, Unpack;
    TrailerSizes();
    Widths();
    var t := Trailer(c, count, covered);
    PackUnpack(COUNT_WIDTHS, [count, |covered|]);
    PackUnpack(RESERVED_WIDTHS, [0]);
    assert t[8..24] == Pack(COUNT_WIDTHS, [count, |covered|]);
    assert t[24..56] == c.sha(covered) && t[56..] == Pack(RESERVED_WIDTHS, [0]);
  }

  lemma TrailerSound<H>(c: Codec<H>, t: bytes, count: nat, covered: bytes)
    requires |t| == TRAILER_BYTES && count <= U64_MAX && |covered| <= U64_MAX && TrailerOk(c, t, count, covered)
    ensures t == Trailer(c, count, covered)
  {
    hide Pack, Unpack;
    TrailerSizes();
    UnpackPack(COUNT_WIDTHS, t[8..24]);
    UnpackPack(RESERVED_WIDTHS, t[56..]);
    assert Unpack(COUNT_WIDTHS, t[8..24]) == [count, |covered|];
    assert Unpack(RESERVED_WIDTHS, t[56..]) == [0];
    assert t == t[..8] + t[8..24] + t[24..56] + t[56..];
  }

  lemma FiveParts(a: bytes, b: bytes, c: bytes, d: bytes, e: bytes)
    ensures var data := a + b + c + d + e; var i, j, k := |a| + |b|, |a| + |b| + |c|, |a| + |b| + |c| + |d|;
            && data[..|a|] == a && data[|a|..i] == b && data[i..j] == c && data[j..k] == d && data[k..] == e
            && data[..k] == a + b + c + d
  {
  }

  /** The bytes of an assembled stream, part by part. */
  predicate Parts<H>(c: Codec<H>, h: H, actions: seq<Action>, data: bytes, header: bytes, region: bytes) {
    && c.canonical(h) == Some(header) && |data| == PREFIX_BYTES + |header| + |region| + TRAILER_BYTES
    && data[..8] == PREFIX_MAGIC && Size(PREFIX_WIDTHS) == 56
    && Unpack(PREFIX_WIDTHS, data[8..PREFIX_BYTES]) == PrefixValues(c, h, |header|, actions, |region|)
    && var start, covered := PREFIX_BYTES + |header|, PREFIX_BYTES + |header| + |region|;
    && data[PREFIX_BYTES..start] == header && data[start..covered] == region
    && TrailerOk(c, data[covered..], |actions|, data[..covered])
  }

  lemma Joined<H>(c: Codec<H>, h: H, actions: seq<Action>, prefix: bytes, header: bytes, region: bytes, trailer: bytes)
    requires c.canonical(h) == Some(header) && |prefix| == Size(PREFIX_WIDTHS) == 56 && |trailer| == TRAILER_BYTES
    requires Unpack(PREFIX_WIDTHS, prefix) == PrefixValues(c, h, |header|, actions, |region|)
    requires TrailerOk(c, trailer, |actions|, PREFIX_MAGIC + prefix + header + region)
    ensures Parts(c, h, actions, PREFIX_MAGIC + prefix + header + region + trailer, header, region)
  {
    hide Unpack, PrefixValues, TrailerOk, Size;
    FiveParts(PREFIX_MAGIC, prefix, header, region, trailer);
  }

  /** The parts of an assembled stream are where the parser looks for them. */
  lemma AssembledParts<H>(c: Codec<H>, h: H, actions: seq<Action>)
    requires BuildOk(c, h, actions)
    ensures forall k :: 0 <= k < |actions| ==> Fits(ACTION_WIDTHS, Values(actions[k]))
    ensures Parts(c, h, actions, Assemble(c, h, actions), c.canonical(h).value, EncodeActions(actions))
  {
    hide Pack, Unpack, EncodeActions, AllBuildable, Fits, Trailer, PrefixValues, Values, TrailerOk, Size, Parts;
    AllFit(c, actions, None);
    PrefixSize();
    PrefixFits(c, h, actions);
    CoveredSize(c, h, actions);
    var (header, region) := (c.canonical(h).value, EncodeActions(actions));
    var values := PrefixValues(c, h, |header|, actions, |region|);
    PackUnpack(PREFIX_WIDTHS, values);
    var covered := Covered(c, h, actions);
    TrailerComplete(c, |actions|, covered);
    Joined(c, h, actions, Pack(PREFIX_WIDTHS, values), header, region, Trailer(c, |actions|, covered));
  }

  lemma ParseComplete<H(!new)>(c: Codec<H>, h: H, actions: seq<Action>, expected: H -> bool)
    requires ValidCodec(c) && BuildOk(c, h, actions) && expected(h)
    ensures Parse(c, Assemble(c, h, actions), expected) == Success((h, actions))
  {
    hide Assemble, Unpack, EncodeActions, AllBuildable, Fits, Trailer, TrailerOk, ScanActions, Size;
    AssembledParts(c, h, actions);
    ActionsComplete(c, actions, None);
    PartsParse(c, h, actions, Assemble(c, h, actions), c.canonical(h).value, EncodeActions(actions), expected);
  }

  lemma PartsParse<H>(c: Codec<H>, h: H, actions: seq<Action>, data: bytes, header: bytes, region: bytes,
                      expected: H -> bool)
    requires Parts(c, h, actions, data, header, region) && c.valid(h) && c.load(header) == Some(h) && expected(h)
    requires 0 < |header| <= MAX_HEADER_BYTES && |actions| <= MAX_ACTION_COUNT && |region| <= MAX_ACTION_REGION_BYTES
    requires ScanActions(c, region, None) == Success(actions)
    ensures Parse(c, data, expected) == Success((h, actions))
  {
    hide Unpack, TrailerOk, ScanActions, Last, Size;
    PrefixSize();
  }

  /** What the parser read off an accepted stream. */
  lemma ParsedParts<H>(c: Codec<H>, data: bytes, expected: H -> bool)
    requires Parse(c, data, expected).Success?
    ensures Size(PREFIX_WIDTHS) == 56 && |data| >= PREFIX_BYTES
    ensures var (h, actions) := Parse(c, data, expected).value;
            var v := Unpack(PREFIX_WIDTHS, data[8..PREFIX_BYTES]);
            var start, covered := PREFIX_BYTES + v[5], PREFIX_BYTES + v[5] + v[8];
            && PrefixOk(v) && |data| == covered + TRAILER_BYTES && data[..8] == PREFIX_MAGIC
            && c.valid(h) && c.canonical(h) == Some(data[PREFIX_BYTES..start]) && expected(h)
            && TrailerOk(c, data[covered..], v[7], data[..covered])
            && ScanActions(c, data[start..covered], None) == Success(actions)
            && |actions| == v[7] && (v[9], v[10]) == Last(c, h, actions)
  {
    hide Unpack, TrailerOk, ScanActions, Last, Size;
    PrefixSize();
  }

  lemma ParseSound<H>(c: Codec<H>, data: bytes, expected: H -> bool)
    requires Parse(c, data, expected).Success?
    ensures var (h, actions) := Parse(c, data, expected).value;
            BuildOk(c, h, actions) && expected(h) && data == Assemble(c, h, actions)
  {
    hide Unpack, Pack, TrailerOk, ScanActions, Last, Parse, EncodeActions, AllBuildable, Trailer, Fits, Size;
    ParsedParts(c, data, expected);
    var (h, actions) := Parse(c, data, expected).value;
    var v := Unpack(PREFIX_WIDTHS, data[8..PREFIX_BYTES]);
    var start, covered := PREFIX_BYTES + v[5], PREFIX_BYTES + v[5] + v[8];
    ActionsSound(c, data[start..covered], None);
    AllFit(c, actions, None);
    PrefixFits(c, h, actions);
    UnpackPack(PREFIX_WIDTHS, data[8..PREFIX_BYTES]);
    var values := PrefixValues(c, h, |c.canonical(h).value|, actions, |EncodeActions(actions)|);
    assert v == values;
    assert data[..covered] == data[..8] + data[8..PREFIX_BYTES] + data[PREFIX_BYTES..start] + data[start..covered];
    assert data[..covered] == Covered(c, h, actions);
    TrailerSound(c, data[covered..], |actions|, data[..covered]);
    assert data == data[..covered] + data[covered..];
  }

  /** A stream parses to a header and actions exactly when it is what the builder makes of them. */
  lemma ParseExact<H(!new)>(c: Codec<H>, data: bytes, expected: H -> bool, h: H, actions: seq<Action>)
    requires ValidCodec(c)
    ensures Parse(c, data, expected) == Success((h, actions)) <==>
            BuildOk(c, h, actions) && data == Assemble(c, h, actions) && expected(h)
  {
    hide Parse, BuildOk, Assemble;
    if Parse(c, data, expected).Success? {
      ParseSound(c, data, expected);
    }
    if BuildOk(c, h, actions) && data == Assemble(c, h, actions) && expected(h) {
      ParseComplete(c, h, actions, expected);
    }
  }

  /** Two streams that parse to the same header and actions are the same bytes. */
  lemma ParseInjective<H(!new)>(c: Codec<H>, d: bytes, e: bytes, expected: H -> bool)
    requires ValidCodec(c) && Parse(c, d, expected).Success? && Parse(c, d, expected) == Parse(c, e, expected)
    ensures d == e
  {
    var (h, actions) := Parse(c, d, expected).value;
    ParseExact(c, d, expected, h, actions);
    ParseExact(c, e, expected, h, actions);
  }

  // ---- What an accepted stream says ----

  /** Sequence numbers count from zero, and the schedule never goes back. */
  lemma {:induction false} Schedule<H>(c: Codec<H>, actions: seq<Action>, prior: Option<Action>, i: nat, j: nat)
    requires AllBuildable(c, actions, prior) && i <= j < |actions|
    ensures actions[j].sequence == j + (if prior.Some? then prior.value.sequence + 1 else 0)
    ensures actions[i].step <= actions[j].step && actions[i].tick <= actions[j].tick
    ensures prior.Some? ==> prior.value.step <= actions[j].step && prior.value.tick <= actions[j].tick
  {
    hide Submask, Fits, Values;
    if j > 0 {
      Schedule(c, actions[1..], Some(actions[0]), if i > 0 then i - 1 else 0, j - 1);
      assert actions[1..][j - 1] == actions[j];
      assert i > 0 ==> actions[1..][i - 1] == actions[i];
    }
  }

  /** The maxima an accepted stream announces are the true ones: no action is scheduled later, and one is scheduled then. */
  lemma TrueMaxima<H>(c: Codec<H>, data: bytes, expected: H -> bool, k: nat)
    requires Parse(c, data, expected).Success? && k < |Parse(c, data, expected).value.1|
    ensures Size(PREFIX_WIDTHS) == 56 && |data| >= PREFIX_BYTES
    ensures var actions := Parse(c, data, expected).value.1;
            var v := Unpack(PREFIX_WIDTHS, data[8..PREFIX_BYTES]);
            && actions[k].sequence == k && actions[k].step <= v[9] && actions[k].tick <= v[10]
            && actions[|actions| - 1].step == v[9] && actions[|actions| - 1].tick == v[10]
  {
    hide Parse, Unpack, AllBuildable, Assemble, Size;
    ParsedParts(c, data, expected);
    ParseSound(c, data, expected);
    var actions := Parse(c, data, expected).value.1;
    Schedule(c, actions, None, k, |actions| - 1);
    Schedule(c, actions, None, k, k);
  }

  /** Bit `k` of an integer in two's complement. */
  predicate Bit(x: int, k: nat)
    decreases k
  {
    if k == 0 then x % 2 == 1 else Bit(x / 2, k - 1)
  }

  /** Every bit of `x` is a bit of `y`. */
  ghost predicate BitsWithin(x: int, y: int) {
    forall k: nat :: Bit(x, k) ==> Bit(y, k)
  }

  lemma BitsWithinHalves(x: int, y: int)
    ensures BitsWithin(x, y) <==> x % 2 <= y % 2 && BitsWithin(x / 2, y / 2)
  {
    if BitsWithin(x, y) {
      var zero: nat := 0;
      assert Bit(x, zero) ==> Bit(y, zero);
      forall k: nat | Bit(x / 2, k) ensures Bit(y / 2, k) {
        var m: nat := k + 1;
        assert Bit(x, m) ==> Bit(y, m);
      }
    }
    if x % 2 <= y % 2 && BitsWithin(x / 2, y / 2) {
      forall k: nat | Bit(x, k) ensures Bit(y, k) {
        if k > 0 {
          var m: nat := k - 1;
          assert Bit(x / 2, m) ==> Bit(y / 2, m);
        }
      }
    }
  }

  /** The flag test admits exactly the flags whose bits are all allowed. */
  lemma {:induction false} SubmaskBits(flags: int, allowed: int)
    ensures Submask(flags, allowed) <==> BitsWithin(flags, allowed)
    decreases if flags < 0 then -flags else flags
  {
    if flags == 0 {
      forall k: nat ensures !Bit(flags, k) { ZeroBits(k); }
    } else if flags == -1 {
      AllOnes(allowed);
    } else {
      SubmaskBits(flags / 2, allowed / 2);
      BitsWithinHalves(flags, allowed);
    }
  }

  lemma {:induction false} ZeroBits(k: nat)
    ensures !Bit(0, k)
  {
    if k > 0 {
      ZeroBits(k - 1);
    }
  }

  /** Only -1 has every bit of -1. */
  lemma {:induction false} AllOnes(x: int)
    ensures BitsWithin(-1, x) <==> x == -1
    decreases if x < 0 then -x else x
  {
    BitsWithinHalves(-1, x);
    if x != -1 && x != 0 {
      AllOnes(x / 2);
    }
  }
}
