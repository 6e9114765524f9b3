/** The table-driven CRC32C of scripts/dev/bridge_validation.py against the bit-at-a-time checksum
    (section 12.1 of RFC 3720). */
module Crc32c {

  const POLYNOMIAL: bv32 := 0x82F6_3B78

  function Xor(x: bv32, y: bv32): bv32 {
    x ^ y
  }

  /** One bit of the reflected division. */
  function Step(v: bv32): bv32 {
    (v >> 1) ^ (if v & 1 == 1 then POLYNOMIAL else 0)
  }

  function Steps(v: bv32, n: nat): bv32
    decreases n
  {
    if n == 0 then v else Steps(Step(v), n - 1)
  }

  /** The register after a byte, one bit at a time. */
  function Feed(register: bv32, b: bv8): bv32 {
    Steps(Xor(register, b as bv32), 8)
  }

  function FeedAll(register: bv32, s: seq<bv8>): bv32
    decreases |s|
  {
    if s == [] then register else FeedAll(Feed(register, s[0]), s[1..])
  }

  /** The checksum, one bit at a time. */
  function Checksum(s: seq<bv8>): bv32 {
    !FeedAll(0xFFFF_FFFF, s)
  }

  // ---- The division step ----

  lemma StepLinear(x: bv32, y: bv32)
    ensures Step(Xor(x, y)) == Xor(Step(x), Step(y))
  {
    hide Step;
    StepOfXor(x, y);
  }

  lemma StepOfXor(x: bv32, y: bv32)
    ensures Step(x ^ y) == Step(x) ^ Step(y)
  {
    ShiftXor(x, y);
    XorPolynomial(x >> 1, y >> 1);
  }

  lemma ShiftXor(x: bv32, y: bv32)
    ensures (x ^ y) >> 1 == (x >> 1) ^ (y >> 1)
    ensures (x ^ y) & 1 == (x & 1) ^ (y & 1)
    ensures (x & 1 == 0 || x & 1 == 1) && (y & 1 == 0 || y & 1 == 1)
  {
  }

  lemma XorPolynomial(x: bv32, y: bv32)
    ensures (x ^ POLYNOMIAL) ^ y == (x ^ y) ^ POLYNOMIAL
    ensures x ^ (y ^ POLYNOMIAL) == (x ^ y) ^ POLYNOMIAL
    ensures (x ^ POLYNOMIAL) ^ (y ^ POLYNOMIAL) == x ^ y
    ensures x ^ 0 == x && y ^ 0 == y && (x ^ y) ^ 0 == x ^ y
  {
  }

  /** The bit shifted out can be read off the top of the result. */
  lemma StepInjective(x: bv32, y: bv32)
    requires Step(x) == Step(y)
    ensures x == y
  {
  }

  lemma {:induction false} StepsLinear(x: bv32, y: bv32, n: nat)
    ensures Steps(Xor(x, y), n) == Xor(Steps(x, n), Steps(y, n))
    decreases n
  {
    hide Step, Xor;
    if n > 0 {
      StepLinear(x, y);
      StepsLinear(Step(x), Step(y), n - 1);
    }
  }

  lemma {:induction false} StepsInjective(x: bv32, y: bv32, n: nat)
    requires Steps(x, n) == Steps(y, n)
    ensures x == y
    decreases n
  {
    hide Step;
    if n > 0 {
      StepsInjective(Step(x), Step(y), n - 1);
      StepInjective(x, y);
    }
  }

  lemma {:induction false} StepsMore(x: bv32, m: nat, n: nat)
    ensures Steps(x, m + n) == Steps(Steps(x, m), n)
    decreases m
  {
    hide Step;
    if m > 0 {
      StepsMore(Step(x), m - 1, n);
    }
  }

  lemma EightSteps(v0: bv32, v1: bv32, v2: bv32, v3: bv32, v4: bv32, v5: bv32, v6: bv32, v7: bv32, v8: bv32)
    requires Step(v0) == v1 && Step(v1) == v2 && Step(v2) == v3 && Step(v3) == v4
    requires Step(v4) == v5 && Step(v5) == v6 && Step(v6) == v7 && Step(v7) == v8
    ensures Steps(v0, 8) == v8
  {
    hide Step;
    assert Steps(v6, 2) == Steps(v7, 1) == Steps(v8, 0);
    assert Steps(v4, 4) == Steps(v5, 3) == Steps(v6, 2);
    assert Steps(v2, 6) == Steps(v3, 5) == Steps(v4, 4);
    assert Steps(v0, 8) == Steps(v1, 7) == Steps(v2, 6);
  }

  // Names for the bit patterns, so that the proofs below reason about them one at a time.

  function Half(x: bv32): bv32 {
    x >> 1
  }

  predicate Even(x: bv32) {
    x & 1 == 0
  }

  function Low(x: bv32): bv32 {
    x & 0xFF
  }

  function High(x: bv32): bv32 {
    x & 0xFFFF_FF00
  }

  function Rest(x: bv32): bv32 {
    x >> 8
  }

  lemma EvenStep(x: bv32)
    requires Even(x)
    ensures Step(x) == Half(x)
  {
  }

  lemma EvenHalves(x: bv32)
    requires Low(x) == 0
    ensures Even(x) && Even(Half(x)) && Even(Half(Half(x))) && Even(Half(Half(Half(x))))
    ensures var y := Half(Half(Half(Half(x))));
            && Even(y) && Even(Half(y)) && Even(Half(Half(y))) && Even(Half(Half(Half(y))))
            && Half(Half(Half(Half(y)))) == Rest(x)
  {
  }

  /** A register whose low byte is zero is only shifted. */
  lemma ShiftByte(x: bv32)
    requires Low(x) == 0
    ensures Steps(x, 8) == Rest(x)
  {
    hide Steps, Step, Half, Even, Rest, Low;
    EvenHalves(x);
    var (x1, x2, x3, x4) := (Half(x), Half(Half(x)), Half(Half(Half(x))), Half(Half(Half(Half(x)))));
    var (x5, x6, x7, x8) := (Half(x4), Half(Half(x4)), Half(Half(Half(x4))), Half(Half(Half(Half(x4)))));
    EvenStep(x);
    EvenStep(x1);
    EvenStep(x2);
    EvenStep(x3);
    EvenStep(x4);
    EvenStep(x5);
    EvenStep(x6);
    EvenStep(x7);
    EightSteps(x, x1, x2, x3, x4, x5, x6, x7, x8);
  }

  lemma SplitByte(x: bv32)
    ensures Xor(Low(x), High(x)) == x && Low(High(x)) == 0 && Rest(High(x)) == Rest(x)
  {
  }

  /** Eight steps are a table entry for the low byte and a shift of the rest. */
  lemma TableStep(x: bv32)
    ensures Steps(x, 8) == Xor(Steps(Low(x), 8), Rest(x))
  {
    hide Xor, Steps, Low, High, Rest;
    SplitByte(x);
    StepsLinear(Low(x), High(x), 8);
    ShiftByte(High(x));
  }

  // ---- The table and the loop ----

  /** `_crc_table`. */
  method CrcTable() returns (table: seq<bv32>)
    ensures |table| == 256 && forall k :: 0 <= k < 256 ==> table[k] == Steps(k as bv32, 8)
  {
    hide Step;
    table := [];
    for value := 0 to 256
      invariant |table| == value && forall k :: 0 <= k < value ==> table[k] == Steps(k as bv32, 8)
    {
      var v := value as bv32;
      for bit := 0 to 8
        invariant Steps(v, 8 - bit) == Steps(value as bv32, 8)
      {
        v := Step(v);
      }
      table := table + [v];
    }
  }

  lemma LowIndex(x: bv32)
    ensures 0 <= Low(x) as int < 256
    ensures (Low(x) as int) as bv32 == Low(x)
  {
  }

  lemma FeedStep(register: bv32, b: bv8)
    ensures Feed(register, b) == Xor(Steps(Low(Xor(register, b as bv32)), 8), Rest(register))
  {
    hide Steps, Low;
    TableStep(Xor(register, b as bv32));
    RestOfXor(register, b);
  }

  lemma RestOfXor(register: bv32, b: bv8)
    ensures Rest(Xor(register, b as bv32)) == Rest(register)
  {
  }

  /** `crc32c`: the table-driven loop computes the bit-at-a-time checksum. */
  method Crc32c(table: seq<bv32>, value: seq<bv8>) returns (crc: bv32)
    requires |table| == 256 && forall k :: 0 <= k < 256 ==> table[k] == Steps(k as bv32, 8)
    ensures crc == Checksum(value)
  {
    hide Steps, Xor, Low, Rest, Feed;
    crc := 0xFFFF_FFFF;
    var n := 0;
    while n < |value|
      invariant n <= |value| && FeedAll(crc, value[n..]) == FeedAll(0xFFFF_FFFF, value)
    {
      var low := Low(Xor(crc, value[n] as bv32));
      LowIndex(Xor(crc, value[n] as bv32));
      FeedStep(crc, value[n]);
      crc := Xor(table[low as int], Rest(crc));
      assert value[n..][1..] == value[n + 1..];
      n := n + 1;
    }
    crc := !crc;
  }

  // ---- A known checksum ----

  /** One byte, step by step. */
  lemma FeedKnown(register: bv32, b: bv8, v0: bv32, v1: bv32, v2: bv32, v3: bv32, v4: bv32, v5: bv32, v6: bv32, v7: bv32, v8: bv32)
    requires Xor(register, b as bv32) == v0 && Step(v0) == v1 && Step(v1) == v2 && Step(v2) == v3 && Step(v3) == v4
    requires Step(v4) == v5 && Step(v5) == v6 && Step(v6) == v7 && Step(v7) == v8
    ensures Feed(register, b) == v8
  {
    hide Steps, Step, Xor;
    EightSteps(v0, v1, v2, v3, v4, v5, v6, v7, v8);
  }

  const DIGITS: seq<bv8> := [0x31, 0x32, 0x33, 0x34, 0x35, 0x36, 0x37, 0x38, 0x39]

  /** The checksum of the text `123456789`. */
  lemma KnownChecksum()
    ensures Checksum(DIGITS) == 0xE306_9283
  {
    hide Feed, Steps;
    FeedKnown(0xFFFF_FFFF, 0x31, 0xFFFF_FFCE, 0x7FFF_FFE7, 0xBD09_C48B, 0xDC72_D93D, 0xECCF_57E6, 0x7667_ABF3, 0xB9C5_EE81, 0xDE14_CC38, 0x6F0A_661C);
    FeedKnown(0x6F0A_661C, 0x32, 0x6F0A_662E, 0x3785_3317, 0x9934_A2F3, 0xCE6C_6A01, 0xE5C0_0E78, 0x72E0_073C, 0x3970_039E, 0x1CB8_01CF, 0x8CAA_3B9F);
    FeedKnown(0x8CAA_3B9F, 0x33, 0x8CAA_3BAC, 0x4655_1DD6, 0x232A_8EEB, 0x9363_7C0D, 0xCB47_857E, 0x65A3_C2BF, 0xB027_DA27, 0xDAE5_D66B, 0xEF84_D04D);
    FeedKnown(0xEF84_D04D, 0x34, 0xEF84_D079, 0xF534_5344, 0x7A9A_29A2, 0x3D4D_14D1, 0x9C50_B110, 0x4E28_5888, 0x2714_2C44, 0x138A_1622, 0x09C5_0B11);
    FeedKnown(0x09C5_0B11, 0x35, 0x09C5_0B24, 0x04E2_8592, 0x0271_42C9, 0x83CE_9A1C, 0x41E7_4D0E, 0x20F3_A687, 0x928F_E83B, 0xCBB1_CF65, 0xE72E_DCCA);
    FeedKnown(0xE72E_DCCA, 0x36, 0xE72E_DCFC, 0x7397_6E7E, 0x39CB_B73F, 0x9E13_E0E7, 0xCDFF_CB0B, 0xE409_DEFD, 0xF0F2_D406, 0x7879_6A03, 0xBECA_8E79);
    FeedKnown(0xBECA_8E79, 0x37, 0xBECA_8E4E, 0x5F65_4727, 0xAD44_98EB, 0xD454_770D, 0xE8DC_00FE, 0x746E_007F, 0xB8C1_3B47, 0xDE96_A6DB, 0xEDBD_6815);
    FeedKnown(0xEDBD_6815, 0x38, 0xEDBD_682D, 0xF428_8F6E, 0x7A14_47B7, 0xBFFC_18A3, 0xDD08_3729, 0xEC72_20EC, 0x7639_1076, 0x3B1C_883B, 0x9F78_7F65);
    FeedKnown(0x9F78_7F65, 0x39, 0x9F78_7F5C, 0x4FBC_3FAE, 0x27DE_1FD7, 0x9119_3493, 0xCA7A_A131, 0xE7CB_6BE0, 0x73E5_B5F0, 0x39F2_DAF8, 0x1CF9_6D7C);
    var s := DIGITS;
    assert FeedAll(0xFFFF_FFFF, s[0..]) == FeedAll(0x6F0A_661C, s[1..]) by { assert s[0..][1..] == s[1..]; }
    assert FeedAll(0x6F0A_661C, s[1..]) == FeedAll(0x8CAA_3B9F, s[2..]) by { assert s[1..][1..] == s[2..]; }
    assert FeedAll(0x8CAA_3B9F, s[2..]) == FeedAll(0xEF84_D04D, s[3..]) by { assert s[2..][1..] == s[3..]; }
    assert FeedAll(0xEF84_D04D, s[3..]) == FeedAll(0x09C5_0B11, s[4..]) by { assert s[3..][1..] == s[4..]; }
    assert FeedAll(0x09C5_0B11, s[4..]) == FeedAll(0xE72E_DCCA, s[5..]) by { assert s[4..][1..] == s[5..]; }
    assert FeedAll(0xE72E_DCCA, s[5..]) == FeedAll(0xBECA_8E79, s[6..]) by { assert s[5..][1..] == s[6..]; }
    assert FeedAll(0xBECA_8E79, s[6..]) == FeedAll(0xEDBD_6815, s[7..]) by { assert s[6..][1..] == s[7..]; }
    assert FeedAll(0xEDBD_6815, s[7..]) == FeedAll(0x9F78_7F65, s[8..]) by { assert s[7..][1..] == s[8..]; }
    assert FeedAll(0x9F78_7F65, s[8..]) == FeedAll(0x1CF9_6D7C, s[9..]) by { assert s[8..][1..] == s[9..]; }
  }

  // ---- What it detects ----

  lemma FeedInjective(x: bv32, y: bv32, b: bv8)
    requires Feed(x, b) == Feed(y, b)
    ensures x == y
  {
    hide Steps;
    StepsInjective(Xor(x, b as bv32), Xor(y, b as bv32), 8);
    XorCancels(x, y, b as bv32);
  }

  lemma XorCancels(x: bv32, y: bv32, z: bv32)
    ensures Xor(x, z) == Xor(y, z) ==> x == y
    ensures Xor(z, x) == Xor(z, y) ==> x == y
  {
  }

  lemma {:induction false} FeedAllInjective(x: bv32, y: bv32, s: seq<bv8>)
    requires FeedAll(x, s) == FeedAll(y, s)
    ensures x == y
    decreases |s|
  {
    hide Feed;
    if s != [] {
      FeedAllInjective(Feed(x, s[0]), Feed(y, s[0]), s[1..]);
      FeedInjective(x, y, s[0]);
    }
  }

  lemma {:induction false} FeedAllSplit(register: bv32, s: seq<bv8>, t: seq<bv8>)
    ensures FeedAll(register, s + t) == FeedAll(FeedAll(register, s), t)
    decreases |s|
  {
    hide Feed;
    if s == [] {
      assert s + t == t;
    } else {
      assert (s + t)[1..] == s[1..] + t;
      FeedAllSplit(Feed(register, s[0]), s[1..], t);
    }
  }

  // Up to four bytes act on the register as one word, the first byte lowest.

  function Join(b: bv8, rest: bv32): bv32 {
    (b as bv32) | (rest << 8)
  }

  function Word(s: seq<bv8>): bv32
    requires |s| <= 4
  {
    if s == [] then 0 else Join(s[0], Word(s[1..]))
  }

  /** The word has no bits beyond its bytes. */
  predicate Within(w: bv32, n: nat)
    requires n <= 4
  {
    match n
    case 0 => w == 0
    case 1 => w & 0xFFFF_FF00 == 0
    case 2 => w & 0xFFFF_0000 == 0
    case 3 => w & 0xFF00_0000 == 0
    case _ => true
  }

  lemma AtMostThree(w: bv32, n: nat)
    requires n < 4 && Within(w, n)
    ensures w & 0xFF00_0000 == 0
  {
    if n == 2 {
      assert w & 0xFFFF_0000 == 0;
    } else if n == 1 {
      assert w & 0xFFFF_FF00 == 0;
    }
  }

  lemma JoinNone(b: bv8)
    ensures Join(b, 0) & 0xFFFF_FF00 == 0
  {
  }

  lemma JoinOne(b: bv8, w: bv32)
    requires w & 0xFFFF_FF00 == 0
    ensures Join(b, w) & 0xFFFF_0000 == 0
  {
  }

  lemma JoinTwo(b: bv8, w: bv32)
    requires w & 0xFFFF_0000 == 0
    ensures Join(b, w) & 0xFF00_0000 == 0
  {
  }

  lemma JoinWithin(b: bv8, w: bv32, n: nat)
    requires n < 4 && Within(w, n)
    ensures Within(Join(b, w), n + 1)
  {
    hide Join;
    match n
    case 0 => JoinNone(b);
    case 1 => JoinOne(b, w);
    case 2 => JoinTwo(b, w);
    case _ =>
  }

  lemma JoinParts(b: bv8, w: bv32)
    requires w & 0xFF00_0000 == 0
    ensures Low(Join(b, w)) == b as bv32 && Rest(Join(b, w)) == w
  {
  }

  lemma {:induction false} WordWithin(s: seq<bv8>)
    requires |s| <= 4
    ensures Within(Word(s), |s|)
  {
    hide Within, Join;
    if s == [] {
      NoBits();
    } else {
      WordWithin(s[1..]);
      JoinWithin(s[0], Word(s[1..]), |s| - 1);
    }
  }

  lemma NoBits()
    ensures Within(0, 0)
  {
  }

  /** Taking in a byte below `w` is taking in the byte, eight steps, and then `w`. */
  lemma FeedJoin(register: bv32, b: bv8, w: bv32, n: nat)
    requires n < 4 && Within(w, n)
    ensures Steps(Xor(register, Join(b, w)), 8) == Xor(Feed(register, b), w)
  {
    hide Steps, Xor, Join, Within, Low, Rest;
    var high := Above(w);
    JoinXor(register, b, w);
    AtMostThree(w, n);
    AboveRest(w);
    StepsLinear(Xor(register, b as bv32), high, 8);
    ShiftByte(high);
  }

  function Above(w: bv32): bv32 {
    w << 8
  }

  lemma JoinXor(register: bv32, b: bv8, w: bv32)
    ensures Xor(register, Join(b, w)) == Xor(Xor(register, b as bv32), Above(w))
  {
  }

  lemma AboveRest(w: bv32)
    requires w & 0xFF00_0000 == 0
    ensures Low(Above(w)) == 0 && Rest(Above(w)) == w
  {
  }

  lemma {:induction false} FeedWord(register: bv32, s: seq<bv8>)
    requires |s| <= 4
    ensures FeedAll(register, s) == Steps(Xor(register, Word(s)), 8 * |s|)
    decreases |s|
  {
    hide Xor, Join, Within, Feed;
    if s == [] {
      XorZero(register);
    } else {
      var w := Word(s[1..]);
      FeedWord(Feed(register, s[0]), s[1..]);
      WordWithin(s[1..]);
      FeedJoin(register, s[0], w, |s| - 1);
      StepsMore(Xor(register, Join(s[0], w)), 8, 8 * (|s| - 1));
    }
  }

  lemma XorZero(x: bv32)
    ensures Xor(x, 0) == x
  {
  }

  lemma SameByte(b: bv8, c: bv8)
    requires b as bv32 == c as bv32
    ensures b == c
  {
  }

  lemma {:induction false} WordInjective(s: seq<bv8>, t: seq<bv8>)
    requires |s| == |t| <= 4 && Word(s) == Word(t)
    ensures s == t
  {
    hide Join, Within, Low, Rest;
    if s != [] {
      WordWithin(s[1..]);
      WordWithin(t[1..]);
      AtMostThree(Word(s[1..]), |s| - 1);
      AtMostThree(Word(t[1..]), |t| - 1);
      JoinParts(s[0], Word(s[1..]));
      JoinParts(t[0], Word(t[1..]));
      SameByte(s[0], t[0]);
      WordInjective(s[1..], t[1..]);
      assert s == [s[0]] + s[1..] && t == [t[0]] + t[1..];
    }
  }

  /** Any change confined to four consecutive bytes, one byte included, changes the checksum. */
  lemma BurstDetected(before: seq<bv8>, s: seq<bv8>, t: seq<bv8>, after: seq<bv8>)
    requires |s| == |t| <= 4 && s != t
    ensures Checksum(before + s + after) != Checksum(before + t + after)
  {
    hide Xor, Word, Steps;
    if Checksum(before + s + after) == Checksum(before + t + after) {
      ComplementInjective(FeedAll(0xFFFF_FFFF, before + s + after), FeedAll(0xFFFF_FFFF, before + t + after));
      FeedAllSplit(0xFFFF_FFFF, before + s, after);
      FeedAllSplit(0xFFFF_FFFF, before + t, after);
      var register := FeedAll(0xFFFF_FFFF, before);
      FeedAllSplit(0xFFFF_FFFF, before, s);
      FeedAllSplit(0xFFFF_FFFF, before, t);
      FeedAllInjective(FeedAll(register, s), FeedAll(register, t), after);
      FeedWord(register, s);
      FeedWord(register, t);
      StepsInjective(Xor(register, Word(s)), Xor(register, Word(t)), 8 * |s|);
      XorCancels(Word(s), Word(t), register);
      WordInjective(s, t);
    }
  }

  lemma ComplementInjective(x: bv32, y: bv32)
    ensures !x == !y ==> x == y
  {
  }
}
