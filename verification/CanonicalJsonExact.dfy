/** The recognizer accepts exactly the renderings of canonical trees, and each accepted text has one tree. */
module CanonicalJsonExact {
  import opened Wrappers
  import opened Bytes
  import opened CanonicalJson
  import Utf8

  /** Text that cannot extend a number: the end of the input or a structural byte. */
  predicate Ends(rest: bytes) {
    rest == [] || !(IsDigit(rest[0]) || rest[0] == 0x2E || rest[0] == 0x65 || rest[0] == 0x45)
  }

  // ---- Strings ----

  lemma EscapeStep(c: byte, t: bytes)
    ensures c == 0x22 || c == 0x5C || c < 0x20 ==> Escape(c)[0] == 0x5C
    ensures ScanText(Escape(c) + t) == Push(c, ScanText(t))
  {
    var e := Escape(c);
    var b := e + t;
    if |e| == 1 {
      assert b[1..] == t;
    } else if |e| == 2 {
      assert b[2..] == t;
      assert ShortEscape(b[1]) == Some(c);
    } else {
      UnicodeStep(c, t);
    }
  }

  lemma UnicodeStep(c: byte, t: bytes)
    requires |Escape(c)| == 6
    ensures ScanText(Escape(c) + t) == Push(c, ScanText(t))
  {
    var b := Escape(c) + t;
    assert b[6..] == t;
    var u := b[2..];
    assert u[0] == 0x30 && u[1] == 0x30 && u[2] == 0x30 + c / 16 && u[3] == HexDigit(c % 16);
    assert HexValue(u[3]) == Some(c % 16);
    assert HexValue(u[2]) == Some(c / 16);
    assert UnicodeEscape(u) == Success(c);
  }

  lemma {:induction false} TextComplete(s: bytes, rest: bytes)
    ensures ScanText(EscapeAll(s) + [0x22] + rest) == Success((s, rest))
  {
    if s == [] {
      assert (EscapeAll(s) + [0x22] + rest)[1..] == rest;
    } else {
      var t := EscapeAll(s[1..]) + [0x22] + rest;
      TextComplete(s[1..], rest);
      EscapeStep(s[0], t);
      assert EscapeAll(s) + [0x22] + rest == Escape(s[0]) + t;
      assert [s[0]] + s[1..] == s;
    }
  }

  lemma UnicodeSound(b: bytes)
    requires UnicodeEscape(b).Success?
    ensures [0x5C, 0x75] + b[..4] == Escape(UnicodeEscape(b).value)
  {
    var c := UnicodeEscape(b).value;
    var h2, h3 := HexValue(b[2]).value, HexValue(b[3]).value;
    assert c == h2 * 16 + h3 && h2 <= 1 && h3 < 16;
    assert c / 16 == h2 && c % 16 == h3;
    assert HexDigit(h3) == b[3];
    assert [0x5C, 0x75] + b[..4] == [0x5C, 0x75, b[0], b[1], b[2], b[3]];
  }

  lemma {:induction false} TextSound(b: bytes)
    requires ScanText(b).Success?
    ensures var (s, rest) := ScanText(b).value; b == EscapeAll(s) + [0x22] + rest
    decreases |b|
  {
    var (s, rest) := ScanText(b).value;
    hide Escape, UnicodeEscape;
    if b[0] != 0x22 {
      var n := TextStep(b);
      TextSound(b[n..]);
      var t := EscapeAll(s[1..]) + [0x22] + rest;
      assert b == b[..n] + b[n..];
      assert EscapeAll(s) + [0x22] + rest == Escape(s[0]) + t;
    } else {
      assert b == [0x22] + b[1..];
    }
  }

  /** One character: its text is the shortest escape of the byte it stands for. */
  lemma TextStep(b: bytes) returns (n: nat)
    requires ScanText(b).Success? && b[0] != 0x22
    ensures 1 <= n <= |b| && ScanText(b[n..]).Success?
    ensures var (s, rest) := ScanText(b).value;
            s != [] && b[..n] == Escape(s[0]) && ScanText(b[n..]).value == (s[1..], rest)
  {
    n := if b[0] != 0x5C then 1 else if b[1] == 0x75 then 6 else 2;
    var (s, rest) := ScanText(b).value;
    assert s[1..] == ScanText(b[n..]).value.0;
    if n == 6 {
      UnicodeSound(b[2..]);
      assert b[..6] == [0x5C, 0x75] + b[2..][..4];
    }
  }

  lemma StringComplete(s: bytes, rest: bytes)
    ensures ScanString(Quote(s) + rest) == Success((s, rest))
  {
    TextComplete(s, rest);
    assert (Quote(s) + rest)[1..] == EscapeAll(s) + [0x22] + rest;
  }

  lemma StringSound(b: bytes)
    requires ScanString(b).Success?
    ensures var (s, rest) := ScanString(b).value; b == Quote(s) + rest
  {
    TextSound(b[1..]);
    assert b == [0x22] + b[1..];
  }

  // ---- Numbers ----

  lemma {:induction false} DecimalStart(n: nat)
    ensures var d := Decimal(n)[0]; IsDigit(d) && (d == 0x30 <==> n == 0)
  {
    if n >= 10 {
      DecimalStart(n / 10);
    }
  }

  /** Scanning the digits of `n` reaches the value `n`. */
  lemma {:induction false} DigitsReach(n: nat, t: bytes)
    requires n <= MAX_INTEGER
    ensures IsDigit(Decimal(n)[0])
    ensures ScanDigits(Decimal(n)[1..] + t, Decimal(n)[0] - 0x30) == ScanDigits(t, n)
  {
    DecimalStart(n);
    if n < 10 {
      assert Decimal(n)[1..] + t == t;
    } else {
      var x := 0x30 + n % 10;
      DigitsReach(n / 10, [x] + t);
      assert Decimal(n) == Decimal(n / 10) + [x];
      assert Decimal(n)[1..] + t == Decimal(n / 10)[1..] + ([x] + t);
      assert n / 10 * 10 + n % 10 == n;
      assert ([x] + t)[1..] == t;
    }
  }

  lemma {:induction false} DigitsSound(b: bytes, value: nat)
    requires 0 < value <= MAX_INTEGER && ScanDigits(b, value).Success?
    ensures var (n, rest) := ScanDigits(b, value).value; n > 0 && Decimal(value) + b == Decimal(n) + rest
    decreases |b|
  {
    if b != [] && IsDigit(b[0]) {
      var next := value * 10 + (b[0] - 0x30);
      DigitsSound(b[1..], next);
      assert next / 10 == value && next % 10 == b[0] - 0x30;
      assert Decimal(value) + b == Decimal(next) + b[1..];
    }
  }

  lemma MagnitudeComplete(n: nat, rest: bytes)
    requires n <= MAX_INTEGER && Ends(rest)
    ensures ScanMagnitude(Decimal(n) + rest) == Success((n, rest))
  {
    DecimalStart(n);
    DigitsReach(n, rest);
    var b := Decimal(n) + rest;
    assert b[1..] == Decimal(n)[1..] + rest;
    assert b[0] == Decimal(n)[0];
    if n == 0 {
      assert b[1..] == rest;
    }
  }

  lemma MagnitudeSound(b: bytes)
    requires b != [] && ScanMagnitude(b).Success?
    ensures var (n, rest) := ScanMagnitude(b).value; n <= MAX_INTEGER && b == Decimal(n) + rest
  {
    assert b == [b[0]] + b[1..];
    if b[0] != 0x30 {
      DigitsSound(b[1..], b[0] - 0x30);
    }
  }

  lemma NumberComplete(j: Json, rest: bytes)
    requires (j.Int? || j.NegZero?) && Canonical(j, 0) && Ends(rest)
    ensures var b := Render(j) + rest; IsDigit(b[0]) || b[0] == 0x2D
    ensures ScanNumber(Render(j) + rest) == Success((j, rest))
  {
    var b := Render(j) + rest;
    var n: nat := if j.NegZero? then 0 else if j.value < 0 then -j.value else j.value;
    DecimalStart(n);
    MagnitudeComplete(n, rest);
    if b[0] == 0x2D {
      assert b[1..] == Decimal(n) + rest;
    } else {
      assert b == Decimal(n) + rest;
    }
  }

  lemma NumberSound(b: bytes)
    requires b != [] && ScanNumber(b).Success?
    ensures var (j, rest) := ScanNumber(b).value; (j.Int? || j.NegZero?) && Canonical(j, 0) && b == Render(j) + rest
  {
    if b[0] == 0x2D {
      MagnitudeSound(b[1..]);
      var (n, rest) := ScanMagnitude(b[1..]).value;
      assert b == [0x2D] + b[1..];
      assert b == [0x2D] + Decimal(n) + rest;
    } else {
      MagnitudeSound(b);
    }
  }

  // ---- Values ----

  /** The first byte of a rendering tells the kind of value. */
  lemma RenderStart(j: Json)
    ensures var c := Render(j)[0];
            && (c == 0x7B <==> j.Obj?) && (c == 0x5B <==> j.Arr?) && (c == 0x22 <==> j.Str?)
            && (c == 0x74 <==> j.True?) && (c == 0x66 <==> j.False?) && (c == 0x6E <==> j.Null?)
            && c != 0x5D && c != 0x7D && c < 0x80
  {
    if j.Int? || j.NegZero? {
      DecimalStart(if j.NegZero? then 0 else if j.value < 0 then -j.value else j.value);
    }
  }

  lemma {:induction false} ValueComplete(j: Json, depth: nat, rest: bytes)
    requires Canonical(j, depth) && Ends(rest)
    ensures ScanValue(Render(j) + rest, depth) == Success((j, rest))
    decreases j, 1
  {
    hide ScanString, ScanNumber, Decimal, Quote, ScanItems, ScanMembers;
    RenderStart(j);
    var b := Render(j) + rest;
    match j
    case Arr(items) => ArrayComplete(items, depth, rest);
    case Obj(members) => ObjectComplete(members, depth, rest);
    case Str(s) => StringComplete(s, rest);
    case Int(_) => NumberComplete(j, rest);
    case NegZero => NumberComplete(j, rest);
    case Null => assert b[..4] == NULL_TEXT && b[4..] == rest;
    case True => assert b[..4] == TRUE_TEXT && b[4..] == rest;
    case False => assert b[..5] == FALSE_TEXT && b[5..] == rest;
  }

  lemma {:induction false} ArrayComplete(items: seq<Json>, depth: nat, rest: bytes)
    requires Canonical(Arr(items), depth)
    ensures ScanValue(Render(Arr(items)) + rest, depth) == Success((Arr(items), rest))
    decreases items, 1
  {
    hide ScanItems, RenderItems;
    var b := Render(Arr(items)) + rest;
    if items == [] {
      assert b[2..] == rest;
    } else {
      ItemsComplete(items, depth + 1, rest);
      assert b[1..] == RenderItems(items) + rest;
      ItemsStart(items);
    }
  }

  lemma ItemsStart(items: seq<Json>)
    requires items != []
    ensures RenderItems(items) != [] && RenderItems(items)[0] == Render(items[0])[0] != 0x5D
  {
    RenderStart(items[0]);
  }

  lemma {:induction false} ItemsComplete(items: seq<Json>, depth: nat, rest: bytes)
    requires items != [] && CanonicalItems(items, depth)
    ensures ScanItems(RenderItems(items) + rest, depth) == Success((items, rest))
    decreases items, 0
  {
    hide Canonical, ScanValue, Render;
    var b := RenderItems(items) + rest;
    var tail := if |items| == 1 then [0x5D] + rest else [0x2C] + (RenderItems(items[1..]) + rest);
    assert b == Render(items[0]) + tail;
    ValueComplete(items[0], depth, tail);
    if |items| == 1 {
      assert tail[1..] == rest;
      assert items == [items[0]];
    } else {
      ItemsComplete(items[1..], depth, rest);
      assert tail[1..] == RenderItems(items[1..]) + rest;
      assert items == [items[0]] + items[1..];
    }
  }

  lemma {:induction false} ObjectComplete(members: seq<Member>, depth: nat, rest: bytes)
    requires Canonical(Obj(members), depth)
    ensures ScanValue(Render(Obj(members)) + rest, depth) == Success((Obj(members), rest))
    decreases members, 1
  {
    hide ScanMembers, RenderMembers;
    var b := Render(Obj(members)) + rest;
    if members == [] {
      assert b[2..] == rest;
    } else {
      MembersComplete(members, depth + 1, None, rest);
      assert b[1..] == RenderMembers(members) + rest;
      MembersStart(members);
    }
  }

  lemma MembersStart(members: seq<Member>)
    requires members != []
    ensures RenderMembers(members) != [] && RenderMembers(members)[0] == 0x22
  {
  }

  lemma {:induction false} MemberComplete(m: Member, depth: nat, previous: Option<bytes>, rest: bytes)
    requires Canonical(m.value, depth) && Ends(rest)
    requires previous.Some? ==> Less(previous.value, EscapeAll(m.key))
    ensures ScanMember(Quote(m.key) + [0x3A] + Render(m.value) + rest, depth, previous) == Success((m, rest))
    decreases m, 0
  {
    hide Canonical, ScanValue, ScanString, Render, Quote, EscapeAll, Less;
    var afterKey := [0x3A] + (Render(m.value) + rest);
    assert Quote(m.key) + [0x3A] + Render(m.value) + rest == Quote(m.key) + afterKey;
    StringComplete(m.key, afterKey);
    assert afterKey[1..] == Render(m.value) + rest;
    ValueComplete(m.value, depth, rest);
  }

  lemma {:induction false} MembersComplete(members: seq<Member>, depth: nat, previous: Option<bytes>, rest: bytes)
    requires members != [] && CanonicalMembers(members, depth) && Sorted(members)
    requires previous.Some? ==> Less(previous.value, EscapeAll(members[0].key))
    ensures ScanMembers(RenderMembers(members) + rest, depth, previous) == Success((members, rest))
    decreases members, 0
  {
    hide Canonical, ScanMember, Render, Quote, EscapeAll, Less;
    var m := members[0];
    var tail := if |members| == 1 then [0x7D] + rest else [0x2C] + (RenderMembers(members[1..]) + rest);
    assert RenderMembers(members) + rest == Quote(m.key) + [0x3A] + Render(m.value) + tail;
    MemberComplete(m, depth, previous, tail);
    if |members| == 1 {
      assert tail[1..] == rest;
      assert members == [m];
    } else {
      MembersComplete(members[1..], depth, Some(EscapeAll(m.key)), rest);
      assert tail[1..] == RenderMembers(members[1..]) + rest;
      assert members == [m] + members[1..];
    }
  }

  lemma LiteralSound(b: bytes, depth: nat)
    requires ScanValue(b, depth).Success? && (b[0] == 0x74 || b[0] == 0x66 || b[0] == 0x6E)
    ensures var (j, rest) := ScanValue(b, depth).value; Canonical(j, depth) && b == Render(j) + rest
  {
    hide ScanString, ScanNumber, ScanItems, ScanMembers;
    var (j, rest) := ScanValue(b, depth).value;
    var text := Render(j);
    assert b[..|text|] == text && b[|text|..] == rest;
    assert b == b[..|text|] + b[|text|..];
  }

  lemma {:induction false} ValueSound(b: bytes, depth: nat)
    requires ScanValue(b, depth).Success?
    ensures var (j, rest) := ScanValue(b, depth).value; Canonical(j, depth) && b == Render(j) + rest
    decreases |b|, 1
  {
    hide ScanString, ScanNumber, Decimal, Quote, ScanItems, ScanMembers, RenderItems, RenderMembers;
    assert b == [b[0]] + b[1..];
    var (j, rest) := ScanValue(b, depth).value;
    if b[0] == 0x7B {
      if |b| > 1 && b[1] == 0x7D {
        assert b == [0x7B, 0x7D] + b[2..];
      } else {
        MembersSound(b[1..], depth + 1, None);
        assert b == [0x7B] + (RenderMembers(j.members) + rest);
      }
    } else if b[0] == 0x5B {
      if |b| > 1 && b[1] == 0x5D {
        assert b == [0x5B, 0x5D] + b[2..];
      } else {
        ItemsSound(b[1..], depth + 1);
        assert b == [0x5B] + (RenderItems(j.items) + rest);
      }
    } else if b[0] == 0x22 {
      StringSound(b);
    } else if b[0] == 0x74 || b[0] == 0x66 || b[0] == 0x6E {
      LiteralSound(b, depth);
    } else {
      NumberSound(b);
    }
  }

  lemma {:induction false} ItemsSound(b: bytes, depth: nat)
    requires ScanItems(b, depth).Success?
    ensures var (items, rest) := ScanItems(b, depth).value;
            items != [] && CanonicalItems(items, depth) && b == RenderItems(items) + rest
    decreases |b|, 2
  {
    hide Canonical, ScanValue, Render;
    ValueSound(b, depth);
    var (j, tail) := ScanValue(b, depth).value;
    var (items, rest) := ScanItems(b, depth).value;
    assert tail == [tail[0]] + tail[1..];
    if tail[0] != 0x5D {
      ItemsSound(tail[1..], depth);
      assert items[1..] == ScanItems(tail[1..], depth).value.0;
      assert b == Render(j) + ([0x2C] + (RenderItems(items[1..]) + rest));
    } else {
      assert items[1..] == [];
    }
  }

  lemma {:induction false} MemberSound(b: bytes, depth: nat, previous: Option<bytes>)
    requires ScanMember(b, depth, previous).Success?
    ensures var (m, rest) := ScanMember(b, depth, previous).value;
            && Canonical(m.value, depth) && (previous.Some? ==> Less(previous.value, EscapeAll(m.key)))
            && b == Quote(m.key) + [0x3A] + Render(m.value) + rest
    decreases |b|, 2
  {
    hide Canonical, ScanValue, ScanString, Render, Quote, EscapeAll, Less;
    StringSound(b);
    var (key, afterKey) := ScanString(b).value;
    ValueSound(afterKey[1..], depth);
    var (j, rest) := ScanValue(afterKey[1..], depth).value;
    assert afterKey == [0x3A] + (Render(j) + rest);
  }

  lemma {:induction false} MembersSound(b: bytes, depth: nat, previous: Option<bytes>)
    requires ScanMembers(b, depth, previous).Success?
    ensures var (members, rest) := ScanMembers(b, depth, previous).value;
            && members != [] && CanonicalMembers(members, depth) && Sorted(members)
            && (previous.Some? ==> Less(previous.value, EscapeAll(members[0].key)))
            && b == RenderMembers(members) + rest
    decreases |b|, 3
  {
    hide Canonical, ScanMember, Render, Quote, EscapeAll, Less;
    MemberSound(b, depth, previous);
    var (m, tail) := ScanMember(b, depth, previous).value;
    var (members, rest) := ScanMembers(b, depth, previous).value;
    assert tail == [tail[0]] + tail[1..];
    if tail[0] != 0x7D {
      MembersSound(tail[1..], depth, Some(EscapeAll(m.key)));
      assert members[1..] == ScanMembers(tail[1..], depth, Some(EscapeAll(m.key))).value.0;
      assert b == Quote(m.key) + [0x3A] + Render(m.value) + ([0x2C] + (RenderMembers(members[1..]) + rest));
    } else {
      assert members[1..] == [];
    }
  }

  // ---- Whole texts ----

  /** The recognizer accepts exactly the renderings of canonical trees, within its limits. */
  lemma AcceptedExactly(b: bytes)
    ensures ValidateStatus(b) == TapeFormat.OK <==> CanonicalText(b)
  {
    hide ScanValue, Canonical, Render;
    if ValidateStatus(b) == TapeFormat.OK {
      ValueSound(b, 0);
      var (j, rest) := ScanValue(b, 0).value;
      assert b == Render(j) + rest == Render(j);
    }
    if j :| Canonical(j, 0) && b == Render(j) {
      ValueComplete(j, 0, []);
      assert Render(j) + [] == b;
      RenderStart(j);
    }
  }

  /** No text renders two canonical trees. */
  lemma RenderInjective(j: Json, k: Json, depth: nat)
    requires Canonical(j, depth) && Canonical(k, depth) && Render(j) == Render(k)
    ensures j == k
  {
    ValueComplete(j, depth, []);
    ValueComplete(k, depth, []);
  }

  /** The JSON value a tree denotes: `-0` is the integer zero. */
  function Denotes(j: Json): Json
    decreases j, 1
  {
    match j
    case NegZero => Int(0)
    case Arr(items) => Arr(DenoteItems(items))
    case Obj(members) => Obj(DenoteMembers(members))
    case _ => j
  }

  function DenoteItems(items: seq<Json>): seq<Json>
    decreases items, 0
  {
    if items == [] then [] else [Denotes(items[0])] + DenoteItems(items[1..])
  }

  function DenoteMembers(members: seq<Member>): seq<Member>
    decreases members, 0
  {
    if members == [] then []
    else [Member(members[0].key, Denotes(members[0].value))] + DenoteMembers(members[1..])
  }

  /** No `-0` anywhere in the tree. */
  predicate Plain(j: Json)
    decreases j, 1
  {
    match j
    case NegZero => false
    case Arr(items) => PlainItems(items)
    case Obj(members) => PlainMembers(members)
    case _ => true
  }

  predicate PlainItems(items: seq<Json>)
    decreases items, 0
  {
    items != [] ==> Plain(items[0]) && PlainItems(items[1..])
  }

  predicate PlainMembers(members: seq<Member>)
    decreases members, 0
  {
    members != [] ==> Plain(members[0].value) && PlainMembers(members[1..])
  }

  lemma {:induction false} DenotesPlain(j: Json)
    ensures Denotes(j) == j <==> Plain(j)
    decreases j, 1
  {
    match j
    case Arr(items) => DenotesPlainItems(items);
    case Obj(members) => DenotesPlainMembers(members);
    case _ =>
  }

  lemma {:induction false} DenotesPlainItems(items: seq<Json>)
    ensures DenoteItems(items) == items <==> PlainItems(items)
    decreases items, 0
  {
    if items != [] {
      DenotesPlain(items[0]);
      DenotesPlainItems(items[1..]);
      assert items == [items[0]] + items[1..];
      assert DenoteItems(items)[0] == Denotes(items[0]) && DenoteItems(items)[1..] == DenoteItems(items[1..]);
    }
  }

  lemma {:induction false} DenotesPlainMembers(members: seq<Member>)
    ensures DenoteMembers(members) == members <==> PlainMembers(members)
    decreases members, 0
  {
    if members != [] {
      DenotesPlain(members[0].value);
      DenotesPlainMembers(members[1..]);
      assert members == [members[0]] + members[1..];
      assert DenoteMembers(members)[0] == Member(members[0].key, Denotes(members[0].value));
      assert DenoteMembers(members)[1..] == DenoteMembers(members[1..]);
    }
  }

  /** Two accepted texts for the same JSON value are the same bytes unless one of them writes `-0`. */
  lemma SameValueSameText(b: bytes, c: bytes)
    requires ValidateStatus(b) == TapeFormat.OK && ValidateStatus(c) == TapeFormat.OK
    ensures var (j, k) := (ScanValue(b, 0).value.0, ScanValue(c, 0).value.0);
            Denotes(j) == Denotes(k) && Plain(j) && Plain(k) ==> b == c
  {
    ValueSound(b, 0);
    ValueSound(c, 0);
    var (j, r) := ScanValue(b, 0).value;
    var (k, s) := ScanValue(c, 0).value;
    assert b == Render(j) + r == Render(j) && c == Render(k) + s == Render(k);
    DenotesPlain(j);
    DenotesPlain(k);
  }

  lemma {:induction false} DenotesCanonical(j: Json, depth: nat)
    requires Canonical(j, depth)
    ensures Canonical(Denotes(j), depth)
    decreases j, 1
  {
    match j
    case Arr(items) => DenotesCanonicalItems(items, depth + 1);
    case Obj(members) => DenotesCanonicalMembers(members, depth + 1);
    case _ =>
  }

  lemma {:induction false} DenotesCanonicalItems(items: seq<Json>, depth: nat)
    requires CanonicalItems(items, depth)
    ensures CanonicalItems(DenoteItems(items), depth)
    decreases items, 0
  {
    if items != [] {
      DenotesCanonical(items[0], depth);
      DenotesCanonicalItems(items[1..], depth);
      assert DenoteItems(items)[1..] == DenoteItems(items[1..]);
    }
  }

  lemma {:induction false} DenotesCanonicalMembers(members: seq<Member>, depth: nat)
    requires CanonicalMembers(members, depth)
    ensures CanonicalMembers(DenoteMembers(members), depth)
    ensures Sorted(DenoteMembers(members)) == Sorted(members)
    decreases members, 0
  {
    if members != [] {
      DenotesCanonical(members[0].value, depth);
      DenotesCanonicalMembers(members[1..], depth);
      assert DenoteMembers(members)[1..] == DenoteMembers(members[1..]);
    }
  }

  /** An accepted text is the one rendering of the value it denotes exactly when it writes no `-0`. */
  lemma CanonicalUnlessNegativeZero(b: bytes)
    requires ValidateStatus(b) == TapeFormat.OK
    ensures var j := ScanValue(b, 0).value.0;
            Canonical(Denotes(j), 0) && (b == Render(Denotes(j)) <==> Plain(j))
  {
    ValueSound(b, 0);
    var (j, r) := ScanValue(b, 0).value;
    assert b == Render(j) + r == Render(j);
    DenotesCanonical(j, 0);
    DenotesPlain(j);
    if b == Render(Denotes(j)) {
      RenderInjective(j, Denotes(j), 0);
    }
  }

  lemma ShortAscii(b: bytes)
    requires 1 <= |b| <= 2 && forall i :: 0 <= i < |b| ==> b[i] < 0x80
    ensures Utf8.WellFormed(b)
  {
    var cs: seq<Utf8.scalar> := if |b| == 1 then [b[0]] else [b[0], b[1]];
    assert Utf8.EncodeScalar(b[0]) == [b[0]];
    if |b| == 2 {
      assert cs[1..] == [b[1]] && cs[1..][1..] == [];
      assert Utf8.EncodeScalar(b[1]) == [b[1]];
      assert Utf8.Encode(cs[1..]) == Utf8.EncodeScalar(b[1]) + Utf8.Encode(cs[1..][1..]) == [b[1]];
      assert Utf8.Encode(cs) == [b[0]] + [b[1]];
    } else {
      assert cs[1..] == [];
      assert Utf8.Encode(cs) == [b[0]] + Utf8.Encode([]) == [b[0]];
    }
    assert b == Utf8.Encode(cs);
  }

  lemma RenderedAccepted(j: Json)
    requires Canonical(j, 0) && CanonicalText(Render(j))
    ensures ValidateStatus(Render(j)) == TapeFormat.OK && ScanValue(Render(j), 0) == Success((j, []))
  {
    hide Canonical, Render, ScanValue, CanonicalText, ValidateStatus;
    AcceptedExactly(Render(j));
    ValueComplete(j, 0, []);
    assert Render(j) + [] == Render(j);
  }

  /** `-0` and `0` are both accepted, for one value (section 3.2.2.3 of RFC 8785 allows only the second). */
  lemma NegativeZeroAccepted()
    ensures ValidateStatus([0x2D, 0x30]) == TapeFormat.OK && ValidateStatus([0x30]) == TapeFormat.OK
    ensures Denotes(ScanValue([0x2D, 0x30], 0).value.0) == ScanValue([0x30], 0).value.0
  {
    hide ScanValue, ValidateStatus;
    ShortAscii([0x2D, 0x30]);
    ShortAscii([0x30]);
    assert Render(Int(0)) == [0x30] && Render(NegZero) == [0x2D, 0x30];
    RenderedAccepted(Int(0));
    RenderedAccepted(NegZero);
  }
}
