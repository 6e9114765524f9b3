/** Why a text is refused: the fault that comes first, stated on the text itself, and the status it leads to. A text
    gets a status exactly when it has a fault with that status. */
module CanonicalJsonFaults {
  import opened Wrappers
  import opened Bytes
  import TapeFormat
  import opened CanonicalJson
  import opened CanonicalJsonExact
  import Utf8

  type Status = TapeFormat.Status

  // ---- Faults in strings ----

  /** After a backslash: nothing, a unicode escape that is cut off or is no one's shortest escape, or another
      character that no escape starts with. */
  ghost predicate EscapeFault(t: bytes, e: Status) {
    if t == [] then e == Status.Truncated
    else if t[0] == 0x75 then
      if |t| < 5 then e == Status.Truncated
      else e == Status.Canonical && forall c: byte :: Escape(c) != [0x5C] + t[..5]
    else e == Status.Canonical && t[0] !in [0x22, 0x5C, 0x62, 0x66, 0x6E, 0x72, 0x74]
  }

  /** The next character of a string: the text ends, a bare control byte, or a faulty escape. */
  ghost predicate CharacterFault(t: bytes, e: Status) {
    if t == [] then e == Status.Truncated
    else if t[0] < 0x20 then e == Status.Canonical
    else t[0] == 0x5C && EscapeFault(t[1..], e)
  }

  /** After an opening quote: good characters, then a faulty one. */
  ghost predicate StringFault(b: bytes, e: Status) {
    exists s, t :: b == EscapeAll(s) + t && CharacterFault(t, e)
  }

  lemma CharacterRefused(b: bytes, e: Status)
    requires CharacterFault(b, e)
    ensures ScanText(b) == Failure(e)
  {
    if b != [] && b[0] == 0x5C {
      EscapeRefused(b, e);
    }
  }

  lemma EscapeRefused(b: bytes, e: Status)
    requires b != [] && b[0] == 0x5C && EscapeFault(b[1..], e)
    ensures ScanText(b) == Failure(e)
  {
    hide Escape, UnicodeEscape;
    UnicodeFaults(b);
  }

  /** A faulty escape, or one that stands for a byte. */
  lemma EscapeFaulty(b: bytes, e: Status)
    requires b != [] && b[0] == 0x5C && ScanText(b) == Failure(e)
    requires |b| == 1 || (ShortEscape(b[1]).None? && !(|b| >= 6 && UnicodeEscape(b[2..]).Success?))
    ensures EscapeFault(b[1..], e)
  {
    hide Escape, UnicodeEscape;
    UnicodeFaults(b);
  }

  lemma UnicodeFaults(b: bytes)
    requires b != [] && b[0] == 0x5C
    ensures |b| >= 2 && |b| < 6 ==> UnicodeEscape(b[2..]) == Failure(Status.Truncated)
    ensures |b| >= 6 && b[1] == 0x75 ==>
      && (UnicodeEscape(b[2..]).Failure? <==> forall c: byte :: Escape(c) != [0x5C] + b[1..][..5])
      && (UnicodeEscape(b[2..]).Failure? ==> UnicodeEscape(b[2..]).error == Status.Canonical)
  {
    if |b| >= 6 && b[1] == 0x75 {
      hide Escape, UnicodeEscape;
      assert b[1..][1..] == b[2..];
      UnicodeFaultExactly(b[1..]);
    }
  }

  /** Four digits are refused exactly when they make no shortest escape. */
  lemma UnicodeFaultExactly(t: bytes)
    requires |t| >= 5 && t[0] == 0x75
    ensures UnicodeEscape(t[1..]).Failure? <==> forall c: byte :: Escape(c) != [0x5C] + t[..5]
    ensures UnicodeEscape(t[1..]).Failure? ==> UnicodeEscape(t[1..]).error == Status.Canonical
  {
    var u := t[1..];
    if UnicodeEscape(u).Success? {
      UnicodeSound(u);
      assert [0x5C, 0x75] + u[..4] == [0x5C] + t[..5];
    } else {
      forall c: byte ensures Escape(c) != [0x5C] + t[..5] {
        if Escape(c) == [0x5C] + t[..5] {
          UnicodeStepOf(c, u);
        }
      }
    }
  }

  lemma UnicodeStepOf(c: byte, u: bytes)
    requires |u| >= 4 && |Escape(c)| == 6 && Escape(c)[2..] == u[..4]
    ensures UnicodeEscape(u).Success?
  {
    var e := Escape(c);
    assert u[0] == e[2] && u[1] == e[3] && u[2] == e[4] && u[3] == e[5];
    assert HexValue(u[3]) == Some(c % 16);
    assert HexValue(u[2]) == Some(c / 16);
  }

  lemma {:induction false} StringFaultRefused(s: bytes, t: bytes, e: Status)
    requires CharacterFault(t, e)
    ensures ScanText(EscapeAll(s) + t) == Failure(e)
  {
    if s == [] {
      hide CharacterFault, Escape, ScanText;
      assert EscapeAll(s) + t == t;
      CharacterRefused(t, e);
    } else {
      hide CharacterFault, Escape, ScanText;
      StringFaultRefused(s[1..], t, e);
      EscapeStep(s[0], EscapeAll(s[1..]) + t);
      assert EscapeAll(s) + t == Escape(s[0]) + (EscapeAll(s[1..]) + t);
    }
  }

  /** One good character of a refused string. */
  lemma GoodCharacter(b: bytes) returns (n: nat, c: byte)
    requires ScanText(b).Failure? && !CharacterFault(b, ScanText(b).error)
    ensures 1 <= n <= |b| && b[..n] == Escape(c) && ScanText(b[n..]) == ScanText(b)
  {
    var e := ScanText(b).error;
    if b[0] != 0x5C {
      n, c := 1, b[0];
      assert b[..1] == [b[0]];
    } else {
      if |b| == 1 || (ShortEscape(b[1]).None? && !(|b| >= 6 && UnicodeEscape(b[2..]).Success?)) {
        EscapeFaulty(b, e);
        assert false;
      }
      if b[1] == 0x75 {
        n, c := 6, UnicodeEscape(b[2..]).value;
        UnicodeSound(b[2..]);
        assert b[..6] == [0x5C, 0x75] + b[2..][..4];
      } else {
        n, c := 2, ShortEscape(b[1]).value;
        assert b[..2] == [0x5C, b[1]];
      }
    }
  }

  lemma {:induction false} RefusedStringFault(b: bytes)
    requires ScanText(b).Failure?
    ensures StringFault(b, ScanText(b).error)
    decreases |b|
  {
    hide CharacterFault, Escape, ScanText;
    var e := ScanText(b).error;
    if CharacterFault(b, e) {
      assert b == EscapeAll([]) + b;
      assert StringFault(b, e);
    } else {
      var n, c := GoodCharacter(b);
      RefusedStringFault(b[n..]);
      FaultAfter(c, b[n..], e);
      assert b == b[..n] + b[n..];
    }
  }

  lemma FaultAfter(c: byte, b: bytes, e: Status)
    requires StringFault(b, e)
    ensures StringFault(Escape(c) + b, e)
  {
    hide CharacterFault, Escape;
    var s, t :| b == EscapeAll(s) + t && CharacterFault(t, e);
    assert ([c] + s)[1..] == s;
    assert Escape(c) + b == EscapeAll([c] + s) + t;
  }

  lemma StringsExactly(b: bytes, e: Status)
    ensures ScanText(b) == Failure(e) <==> StringFault(b, e)
  {
    hide CharacterFault, ScanText;
    if ScanText(b) == Failure(e) {
      RefusedStringFault(b);
    }
    if s, t :| b == EscapeAll(s) + t && CharacterFault(t, e) {
      StringFaultRefused(s, t, e);
    }
  }

  // ---- Faults in numbers ----

  predicate Digit(c: byte) {
    0x30 <= c <= 0x39
  }

  /** Digits beyond the range, or a point or an exponent after digits. */
  predicate Overrun(u: bytes, n: nat, t: bytes) {
    u == Decimal(n) + t && (n > 9_007_199_254_740_991 || (t != [] && t[0] in [0x2E, 0x65, 0x45]))
  }

  ghost predicate NotAnInteger(u: bytes) {
    exists n, t :: Overrun(u, n, t)
  }

  /** What starts as no other value and is no number: a lone sign, no digit, a leading zero, or no integer in range. */
  ghost predicate NumberFault(b: bytes, e: Status) {
    b != [] &&
    var u := if b[0] == 0x2D then b[1..] else b;
    if u == [] then e == Status.Truncated
    else if !Digit(u[0]) || (u[0] == 0x30 && |u| > 1 && Digit(u[1])) then e == Status.Canonical
    else e == Status.Schema && NotAnInteger(u)
  }

  lemma {:induction false} TooLarge(n: nat, t: bytes)
    requires n > MAX_INTEGER
    ensures IsDigit(Decimal(n)[0]) && Decimal(n)[0] != 0x30
    ensures ScanDigits(Decimal(n)[1..] + t, Decimal(n)[0] - 0x30) == Failure(Status.Schema)
  {
    var x := 0x30 + n % 10;
    DecimalStart(n);
    assert Decimal(n) == Decimal(n / 10) + [x];
    assert Decimal(n)[1..] + t == Decimal(n / 10)[1..] + ([x] + t);
    if n / 10 > MAX_INTEGER {
      TooLarge(n / 10, [x] + t);
    } else {
      DigitsReach(n / 10, [x] + t);
      assert n / 10 * 10 + n % 10 == n;
    }
  }

  /** Digits that leave the range are a longer digit string. */
  lemma {:induction false} BeyondRange(b: bytes, value: nat) returns (n: nat, t: bytes)
    requires 0 < value <= MAX_INTEGER && ScanDigits(b, value).Failure?
    ensures ScanDigits(b, value).error == Status.Schema && n > MAX_INTEGER && Decimal(value) + b == Decimal(n) + t
    decreases |b|
  {
    var next := value * 10 + (b[0] - 0x30);
    assert next / 10 == value && next % 10 == b[0] - 0x30;
    assert Decimal(value) + b == Decimal(next) + b[1..];
    if value > (MAX_INTEGER - (b[0] - 0x30)) / 10 {
      n, t := next, b[1..];
    } else {
      n, t := BeyondRange(b[1..], next);
    }
  }

  lemma MagnitudeFault(u: bytes)
    requires u != [] && ScanMagnitude(u).Failure?
    ensures if !Digit(u[0]) || (u[0] == 0x30 && |u| > 1 && Digit(u[1])) then ScanMagnitude(u).error == Status.Canonical
            else ScanMagnitude(u).error == Status.Schema && NotAnInteger(u)
  {
    if Digit(u[0]) && u[0] != 0x30 {
      var n, t := BeyondRange(u[1..], u[0] - 0x30);
      assert Decimal(u[0] - 0x30) == [u[0]];
      assert u == [u[0]] + u[1..];
      assert Overrun(u, n, t);
    }
  }

  /** What follows the digits of a number that is read decides whether it is refused after all. */
  lemma MagnitudeRest(u: bytes)
    requires u != [] && ScanMagnitude(u).Success?
    ensures Digit(u[0]) && !(u[0] == 0x30 && |u| > 1 && Digit(u[1]))
    ensures var rest := ScanMagnitude(u).value.1;
      NotAnInteger(u) <==> rest != [] && rest[0] in [0x2E, 0x65, 0x45]
  {
    var (m, rest) := ScanMagnitude(u).value;
    MagnitudeSound(u);
    hide Decimal;
    if rest != [] && rest[0] in [0x2E, 0x65, 0x45] {
      assert Overrun(u, m, rest);
    }
    if n: nat, t: bytes :| Overrun(u, n, t) {
      assert u[0] == Decimal(n)[0] && u[1..] == Decimal(n)[1..] + t;
      if n > MAX_INTEGER {
        TooLarge(n, t);
      } else {
        DigitsReach(n, t);
        DecimalStart(n);
      }
    }
  }

  lemma NumbersExactly(b: bytes, e: Status)
    requires b != []
    ensures ScanNumber(b) == Failure(e) <==> NumberFault(b, e)
  {
    hide NotAnInteger, ScanMagnitude;
    var u := if b[0] == 0x2D then b[1..] else b;
    if u != [] {
      if ScanMagnitude(u).Success? {
        MagnitudeRest(u);
      } else {
        MagnitudeFault(u);
      }
    }
  }

  // ---- Faults in values ----

  /** Something stands after a value that its rendering does not continue into. */
  predicate Apart(j: Json, rest: bytes) {
    j.Int? || j.NegZero? ==> rest == [] || !(Digit(rest[0]) || rest[0] in [0x2E, 0x65, 0x45])
  }

  /** After an item or a member: the text ends, or neither a comma nor the closing bracket follows. */
  predicate Unseparated(rest: bytes, close: byte, e: Status) {
    if rest == [] then e == Status.Truncated else e == Status.Canonical && rest[0] != 0x2C && rest[0] != close
  }

  /** A value at nesting level `depth`, and something wrong where it ends. */
  ghost predicate ValueThen(t: bytes, depth: nat, close: byte, e: Status) {
    exists j, rest :: Canonical(j, depth) && t == Render(j) + rest && Apart(j, rest) && Unseparated(rest, close, e)
  }

  /** Items, each followed by a comma. */
  function Opened(items: seq<Json>): bytes {
    if items == [] then [] else Render(items[0]) + [0x2C] + Opened(items[1..])
  }

  function OpenedMembers(members: seq<Member>): bytes {
    if members == [] then []
    else Quote(members[0].key) + [0x3A] + Render(members[0].value) + [0x2C] + OpenedMembers(members[1..])
  }

  /** The raw text of the last key. */
  function LastKey(members: seq<Member>): Option<bytes> {
    if members == [] then None else Some(EscapeAll(members[|members| - 1].key))
  }

  predicate InOrder(previous: Option<bytes>, key: bytes) {
    previous.Some? ==> Less(previous.value, EscapeAll(key))
  }

  function Literal(first: byte): bytes {
    if first == 0x74 then [0x74, 0x72, 0x75, 0x65]
    else if first == 0x66 then [0x66, 0x61, 0x6C, 0x73, 0x65]
    else [0x6E, 0x75, 0x6C, 0x6C]
  }

  /** The first fault where a value should stand. */
  ghost predicate ValueFault(b: bytes, depth: nat, e: Status)
    decreases |b|, 0
  {
    if b == [] then e == Status.Truncated
    else if b[0] == 0x5B || b[0] == 0x7B then
      if depth >= 64 then e == Status.Limit
      else if b[0] == 0x5B then !(|b| > 1 && b[1] == 0x5D) && ItemsFault(b[1..], depth + 1, e)
      else !(|b| > 1 && b[1] == 0x7D) && MembersFault(b[1..], depth + 1, e)
    else if b[0] == 0x22 then StringFault(b[1..], e)
    else if b[0] in [0x74, 0x66, 0x6E] then e == Status.Canonical && !(Literal(b[0]) <= b)
    else NumberFault(b, e)
  }

  /** Good items, then a faulty one or no separator. */
  ghost predicate ItemsFault(b: bytes, depth: nat, e: Status)
    decreases |b|, 1
  {
    exists items, t ::
      b == Opened(items) + t && CanonicalItems(items, depth) && (ValueFault(t, depth, e) || ValueThen(t, depth, 0x5D, e))
  }

  /** Good members with increasing keys, then a faulty one. */
  ghost predicate MembersFault(b: bytes, depth: nat, e: Status)
    decreases |b|, 1
  {
    exists members, t ::
      && b == OpenedMembers(members) + t && CanonicalMembers(members, depth) && Sorted(members)
      && MemberFault(LastKey(members), t, depth, e)
  }

  /** A member that is no string, or a faulty one, or has a key out of order, no colon, a faulty value or no separator. */
  ghost predicate MemberFault(previous: Option<bytes>, t: bytes, depth: nat, e: Status)
    decreases |t|, 0
  {
    || ((t == [] || t[0] != 0x22) && e == Status.Canonical)
    || (t != [] && t[0] == 0x22 && StringFault(t[1..], e))
    || exists key, rest ::
         && t == Quote(key) + rest
         && (if !InOrder(previous, key) || rest == [] || rest[0] != 0x3A then e == Status.Canonical
             else ValueFault(rest[1..], depth, e) || ValueThen(rest[1..], depth, 0x7D, e))
  }

  // ---- A value that is read, and what stands after it ----

  lemma {:induction false} DigitsEnd(b: bytes, value: nat)
    requires value <= MAX_INTEGER && ScanDigits(b, value).Success?
    ensures var rest := ScanDigits(b, value).value.1; rest == [] || !Digit(rest[0])
    decreases |b|
  {
    if b != [] && IsDigit(b[0]) {
      DigitsEnd(b[1..], value * 10 + (b[0] - 0x30));
    }
  }

  lemma MagnitudeEnd(b: bytes)
    requires b != [] && ScanMagnitude(b).Success?
    ensures var rest := ScanMagnitude(b).value.1; rest == [] || !Digit(rest[0])
  {
    if b[0] != 0x30 {
      DigitsEnd(b[1..], b[0] - 0x30);
    }
  }

  lemma ReadApart(b: bytes, depth: nat)
    requires ScanValue(b, depth).Success?
    ensures var (j, rest) := ScanValue(b, depth).value; Canonical(j, depth) && b == Render(j) + rest && Apart(j, rest)
  {
    hide ScanMagnitude, ScanItems, ScanMembers, ScanString, Render;
    ValueSound(b, depth);
    var (j, rest) := ScanValue(b, depth).value;
    if j.Int? || j.NegZero? {
      MagnitudeEnd(if b[0] == 0x2D then b[1..] else b);
    }
  }

  lemma ReadBack(j: Json, depth: nat, rest: bytes)
    requires Canonical(j, depth) && Apart(j, rest)
    ensures ScanValue(Render(j) + rest, depth) == Success((j, rest))
  {
    hide ScanString, ScanNumber, Decimal, Quote, ScanItems, ScanMembers;
    RenderStart(j);
    var b := Render(j) + rest;
    match j
    case Arr(items) => ArrayComplete(items, depth, rest);
    case Obj(members) => ObjectComplete(members, depth, rest);
    case Str(s) => StringComplete(s, rest);
    case Int(_) => ValueComplete(j, depth, rest);
    case NegZero => ValueComplete(j, depth, rest);
    case Null => assert b[..4] == NULL_TEXT && b[4..] == rest;
    case True => assert b[..4] == TRUE_TEXT && b[4..] == rest;
    case False => assert b[..5] == FALSE_TEXT && b[5..] == rest;
  }

  lemma SameLiterals()
    ensures Literal(0x74) == TRUE_TEXT && Literal(0x66) == FALSE_TEXT && Literal(0x6E) == NULL_TEXT
  {
  }

  // ---- A fault is refused ----

  lemma {:induction false} OpenedRefused(items: seq<Json>, t: bytes, depth: nat, e: Status)
    requires CanonicalItems(items, depth) && ScanItems(t, depth) == Failure(e)
    ensures ScanItems(Opened(items) + t, depth) == Failure(e)
  {
    hide Canonical, ScanValue, Render;
    if items == [] {
      assert Opened(items) + t == t;
    } else {
      var rest := Opened(items[1..]) + t;
      OpenedRefused(items[1..], t, depth, e);
      ValueComplete(items[0], depth, [0x2C] + rest);
      assert Opened(items) + t == Render(items[0]) + ([0x2C] + rest);
      assert ([0x2C] + rest)[1..] == rest;
    }
  }

  lemma {:induction false} OpenedMembersRefused(members: seq<Member>, t: bytes, depth: nat, previous: Option<bytes>, e: Status)
    requires CanonicalMembers(members, depth) && Sorted(members) && (members != [] ==> InOrder(previous, members[0].key))
    requires ScanMembers(t, depth, if members == [] then previous else LastKey(members)) == Failure(e)
    ensures ScanMembers(OpenedMembers(members) + t, depth, previous) == Failure(e)
  {
    hide Canonical, ScanMember, Render, Quote, EscapeAll, Less;
    if members == [] {
      assert OpenedMembers(members) + t == t;
    } else {
      var (m, rest) := (members[0], OpenedMembers(members[1..]) + t);
      OpenedMembersRefused(members[1..], t, depth, Some(EscapeAll(m.key)), e);
      MemberComplete(m, depth, previous, [0x2C] + rest);
      assert OpenedMembers(members) + t == Quote(m.key) + [0x3A] + Render(m.value) + ([0x2C] + rest);
      assert ([0x2C] + rest)[1..] == rest;
    }
  }

  lemma ThenRefused(t: bytes, depth: nat, close: byte, e: Status)
    requires ValueThen(t, depth, close, e)
    ensures ScanValue(t, depth).Success? && Unseparated(ScanValue(t, depth).value.1, close, e)
  {
    hide ScanValue, Canonical, Render, Apart, Unseparated;
    var j, rest :| Canonical(j, depth) && t == Render(j) + rest && Apart(j, rest) && Unseparated(rest, close, e);
    ReadBack(j, depth, rest);
  }

  lemma {:induction false} ValueFaultRefused(b: bytes, depth: nat, e: Status)
    requires ValueFault(b, depth, e)
    ensures ScanValue(b, depth) == Failure(e)
    decreases |b|, 0
  {
    hide ScanString, ScanNumber, ScanItems, ScanMembers, StringFault, NumberFault, ItemsFault, MembersFault, Literal;
    if b != [] {
      if (b[0] == 0x5B || b[0] == 0x7B) && depth < 64 {
        if b[0] == 0x5B {
          ItemsFaultRefused(b[1..], depth + 1, e);
        } else {
          MembersFaultRefused(b[1..], depth + 1, e);
        }
      } else if b[0] == 0x22 {
        StringsExactly(b[1..], e);
        StringFrom(b);
      } else if b[0] in [0x74, 0x66, 0x6E] {
        SameLiterals();
      } else if b[0] != 0x5B && b[0] != 0x7B {
        NumbersExactly(b, e);
      }
    }
  }

  lemma StringFrom(b: bytes)
    requires b != [] && b[0] == 0x22
    ensures ScanString(b) == ScanText(b[1..])
  {
  }

  lemma {:induction false} ItemsFaultRefused(b: bytes, depth: nat, e: Status)
    requires ItemsFault(b, depth, e)
    ensures ScanItems(b, depth) == Failure(e)
    decreases |b|, 1
  {
    hide ScanValue, ValueFault, ValueThen, Opened, CanonicalItems;
    var items, t :|
      b == Opened(items) + t && CanonicalItems(items, depth) && (ValueFault(t, depth, e) || ValueThen(t, depth, 0x5D, e));
    if ValueFault(t, depth, e) {
      ValueFaultRefused(t, depth, e);
    } else {
      ThenRefused(t, depth, 0x5D, e);
    }
    OpenedRefused(items, t, depth, e);
  }

  lemma {:induction false} MembersFaultRefused(b: bytes, depth: nat, e: Status)
    requires MembersFault(b, depth, e)
    ensures ScanMembers(b, depth, None) == Failure(e)
    decreases |b|, 1
  {
    hide ScanMembers, OpenedMembers, CanonicalMembers, Sorted, MemberFault, InOrder;
    var members, t :|
      && b == OpenedMembers(members) + t && CanonicalMembers(members, depth) && Sorted(members)
      && MemberFault(LastKey(members), t, depth, e);
    MemberFaultRefused(LastKey(members), t, depth, e);
    NoKeyYet(members);
    OpenedMembersRefused(members, t, depth, None, e);
  }

  lemma NoKeyYet(members: seq<Member>)
    ensures members == [] ==> LastKey(members) == None
    ensures members != [] ==> InOrder(None, members[0].key)
  {
  }

  lemma QuoteStart()
    ensures forall key :: Quote(key)[0] == 0x22
  {
  }

  lemma {:induction false} MemberFaultRefused(previous: Option<bytes>, t: bytes, depth: nat, e: Status)
    requires MemberFault(previous, t, depth, e)
    ensures ScanMembers(t, depth, previous) == Failure(e)
    decreases |t|, 0
  {
    hide ScanValue, ScanText, ValueFault, ValueThen, StringFault, Quote, EscapeAll, Less;
    QuoteStart();
    if t != [] && t[0] == 0x22 {
      if StringFault(t[1..], e) {
        StringsExactly(t[1..], e);
      } else {
        var key, rest :|
          && t == Quote(key) + rest
          && (if !InOrder(previous, key) || rest == [] || rest[0] != 0x3A then e == Status.Canonical
              else ValueFault(rest[1..], depth, e) || ValueThen(rest[1..], depth, 0x7D, e));
        StringComplete(key, rest);
        if InOrder(previous, key) && rest != [] && rest[0] == 0x3A {
          if ValueFault(rest[1..], depth, e) {
            ValueFaultRefused(rest[1..], depth, e);
          } else {
            ThenRefused(rest[1..], depth, 0x7D, e);
          }
        }
      }
    }
  }

  // ---- What is refused has a fault ----

  lemma {:induction false} RefusedValueFault(b: bytes, depth: nat)
    requires ScanValue(b, depth).Failure?
    ensures ValueFault(b, depth, ScanValue(b, depth).error)
    decreases |b|, 0
  {
    hide ScanString, ScanNumber, ScanItems, ScanMembers, StringFault, NumberFault, ItemsFault, MembersFault, Literal;
    var e := ScanValue(b, depth).error;
    if b != [] {
      if (b[0] == 0x5B || b[0] == 0x7B) && depth < 64 {
        if b[0] == 0x5B {
          RefusedItemsFault(b[1..], depth + 1);
        } else {
          RefusedMembersFault(b[1..], depth + 1, None);
          AfterNone(b[1..], depth + 1, e);
        }
      } else if b[0] == 0x22 {
        StringFrom(b);
        StringsExactly(b[1..], e);
      } else if b[0] in [0x74, 0x66, 0x6E] {
        SameLiterals();
      } else if b[0] != 0x5B && b[0] != 0x7B {
        NumbersExactly(b, e);
      }
    }
  }

  lemma {:induction false} RefusedItemsFault(b: bytes, depth: nat)
    requires ScanItems(b, depth).Failure?
    ensures ItemsFault(b, depth, ScanItems(b, depth).error)
    decreases |b|, 1
  {
    hide ScanValue, ValueFault, ValueThen, Canonical, Render;
    var e := ScanItems(b, depth).error;
    assert b == Opened([]) + b;
    if ScanValue(b, depth).Failure? {
      RefusedValueFault(b, depth);
    } else {
      var (j, rest) := ScanValue(b, depth).value;
      ReadApart(b, depth);
      if rest == [] || rest[0] != 0x2C {
        assert Unseparated(rest, 0x5D, e);
        ThenFault(b, j, rest, depth, 0x5D, e);
      } else {
        RefusedItemsFault(rest[1..], depth);
        MoreItems(j, rest[1..], depth, e);
        assert b == Render(j) + [0x2C] + rest[1..];
      }
    }
  }

  lemma ThenFault(t: bytes, j: Json, rest: bytes, depth: nat, close: byte, e: Status)
    requires Canonical(j, depth) && t == Render(j) + rest && Apart(j, rest) && Unseparated(rest, close, e)
    ensures ValueThen(t, depth, close, e)
  {
  }

  lemma MoreItems(j: Json, b: bytes, depth: nat, e: Status)
    requires ItemsFault(b, depth, e) && Canonical(j, depth)
    ensures ItemsFault(Render(j) + [0x2C] + b, depth, e)
  {
    hide ValueFault, ValueThen, Canonical, Render;
    var items, t :|
      b == Opened(items) + t && CanonicalItems(items, depth) && (ValueFault(t, depth, e) || ValueThen(t, depth, 0x5D, e));
    OneMoreItem(j, items, t, depth);
    hide Opened, CanonicalItems;
    assert Render(j) + [0x2C] + b == Opened([j] + items) + t;
    ItemsFaultBy([j] + items, t, Render(j) + [0x2C] + b, depth, e);
  }

  lemma ItemsFaultBy(items: seq<Json>, t: bytes, b: bytes, depth: nat, e: Status)
    requires b == Opened(items) + t && CanonicalItems(items, depth)
    requires ValueFault(t, depth, e) || ValueThen(t, depth, 0x5D, e)
    ensures ItemsFault(b, depth, e)
  {
    hide ValueFault, ValueThen, Opened, CanonicalItems;
  }

  lemma OneMoreItem(j: Json, items: seq<Json>, t: bytes, depth: nat)
    requires CanonicalItems(items, depth) && Canonical(j, depth)
    ensures var all := [j] + items;
      CanonicalItems(all, depth) && Opened(all) + t == Render(j) + [0x2C] + (Opened(items) + t)
  {
    hide Canonical, Render;
    assert ([j] + items)[1..] == items;
  }

  ghost predicate FaultFrom(members: seq<Member>, t: bytes, b: bytes, depth: nat, previous: Option<bytes>, e: Status) {
    && b == OpenedMembers(members) + t && CanonicalMembers(members, depth) && Sorted(members)
    && (members != [] ==> InOrder(previous, members[0].key))
    && MemberFault(if members == [] then previous else LastKey(members), t, depth, e)
  }

  /** A members fault where the last key before is `previous`. */
  ghost predicate FaultAfterKey(b: bytes, depth: nat, previous: Option<bytes>, e: Status) {
    exists members, t :: FaultFrom(members, t, b, depth, previous, e)
  }

  lemma AfterNone(b: bytes, depth: nat, e: Status)
    requires FaultAfterKey(b, depth, None, e)
    ensures MembersFault(b, depth, e)
  {
    hide OpenedMembers, CanonicalMembers, Sorted, MemberFault, InOrder;
    var members, t :| FaultFrom(members, t, b, depth, None, e);
    NoKeyYet(members);
  }

  lemma {:induction false} RefusedMembersFault(b: bytes, depth: nat, previous: Option<bytes>)
    requires ScanMembers(b, depth, previous).Failure?
    ensures FaultAfterKey(b, depth, previous, ScanMembers(b, depth, previous).error)
    decreases |b|, 1
  {
    hide ScanMember, MemberFault, Canonical, Render, Quote, EscapeAll, Less;
    var e := ScanMembers(b, depth, previous).error;
    if ScanMember(b, depth, previous).Success?
       && var rest := ScanMember(b, depth, previous).value.1; rest != [] && rest[0] == 0x2C
    {
      var (m, rest) := ScanMember(b, depth, previous).value;
      MemberSound(b, depth, previous);
      RefusedMembersFault(rest[1..], depth, Some(EscapeAll(m.key)));
      assert b == Quote(m.key) + [0x3A] + Render(m.value) + [0x2C] + rest[1..];
      MoreMembers(m, rest[1..], depth, previous, e);
    } else {
      RefusedMember(b, depth, previous);
      assert b == OpenedMembers([]) + b;
      assert FaultFrom([], b, b, depth, previous, e);
    }
  }

  lemma MoreMembers(m: Member, b: bytes, depth: nat, previous: Option<bytes>, e: Status)
    requires FaultAfterKey(b, depth, Some(EscapeAll(m.key)), e) && Canonical(m.value, depth) && InOrder(previous, m.key)
    ensures FaultAfterKey(Quote(m.key) + [0x3A] + Render(m.value) + [0x2C] + b, depth, previous, e)
  {
    hide MemberFault, Canonical, Render, Quote, EscapeAll, Less;
    var members, t :| FaultFrom(members, t, b, depth, Some(EscapeAll(m.key)), e);
    OneMore(m, members, t, depth);
    assert Quote(m.key) + [0x3A] + Render(m.value) + [0x2C] + b == OpenedMembers([m] + members) + t;
    assert FaultFrom([m] + members, t, Quote(m.key) + [0x3A] + Render(m.value) + [0x2C] + b, depth, previous, e);
  }

  lemma OneMore(m: Member, members: seq<Member>, t: bytes, depth: nat)
    requires CanonicalMembers(members, depth) && Sorted(members) && Canonical(m.value, depth)
    requires members != [] ==> InOrder(Some(EscapeAll(m.key)), members[0].key)
    ensures var all := [m] + members;
      && CanonicalMembers(all, depth) && Sorted(all)
      && LastKey(all) == (if members == [] then Some(EscapeAll(m.key)) else LastKey(members))
      && OpenedMembers(all) + t == Quote(m.key) + [0x3A] + Render(m.value) + [0x2C] + (OpenedMembers(members) + t)
  {
    hide Canonical, Render, Quote, EscapeAll, Less;
    assert ([m] + members)[1..] == members;
  }

  /** The faulty member itself. */
  lemma {:induction false} RefusedMember(b: bytes, depth: nat, previous: Option<bytes>)
    requires ScanMembers(b, depth, previous).Failure?
    requires ScanMember(b, depth, previous).Success? ==>
      var rest := ScanMember(b, depth, previous).value.1; rest == [] || rest[0] != 0x2C
    ensures MemberFault(previous, b, depth, ScanMembers(b, depth, previous).error)
    decreases |b|, 0
  {
    hide ScanValue, ScanText, ValueFault, ValueThen, StringFault, Quote, EscapeAll, Less, Canonical, Render;
    var e := ScanMembers(b, depth, previous).error;
    if b != [] && b[0] == 0x22 {
      StringsExactly(b[1..], e);
      if ScanString(b).Success? {
        StringSound(b);
        var (key, rest) := ScanString(b).value;
        if InOrder(previous, key) && rest != [] && rest[0] == 0x3A {
          RefusedAfterColon(rest[1..], depth, 0x7D, e);
        }
      }
    }
  }

  lemma {:induction false} RefusedAfterColon(b: bytes, depth: nat, close: byte, e: Status)
    requires ScanValue(b, depth).Failure? ==> e == ScanValue(b, depth).error
    requires ScanValue(b, depth).Success? ==> Unseparated(ScanValue(b, depth).value.1, close, e)
    ensures ValueFault(b, depth, e) || ValueThen(b, depth, close, e)
    decreases |b|, 1
  {
    hide ScanValue, ValueFault, ValueThen, Unseparated, Apart, Canonical, Render;
    if ScanValue(b, depth).Failure? {
      RefusedValueFault(b, depth);
    } else {
      ReadApart(b, depth);
      var (j, rest) := ScanValue(b, depth).value;
      ThenFault(b, j, rest, depth, close, e);
    }
  }

  // ---- Whole texts ----

  lemma ValuesExactly(b: bytes, depth: nat, e: Status)
    ensures ScanValue(b, depth) == Failure(e) <==> ValueFault(b, depth, e)
  {
    hide ScanValue, ValueFault;
    if ScanValue(b, depth) == Failure(e) {
      RefusedValueFault(b, depth);
    }
    if ValueFault(b, depth, e) {
      ValueFaultRefused(b, depth, e);
    }
  }

  /** Something after the value of the text. */
  ghost predicate TrailingFault(b: bytes) {
    exists j, rest :: Canonical(j, 0) && b == Render(j) + rest && Apart(j, rest) && rest != []
  }

  /** The status of a text that is not accepted. */
  lemma RefusedExactly(b: bytes, e: Status)
    requires e != TapeFormat.OK
    ensures ValidateStatus(b) == e <==>
      if b == [] then e == Status.Schema
      else if |b| > 67_108_864 then e == Status.Limit
      else if [0xEF, 0xBB, 0xBF] <= b || !Utf8.WellFormed(b) then e == Status.Canonical
      else ValueFault(b, 0, e) || (e == Status.Canonical && TrailingFault(b))
  {
    hide ScanValue, ValueFault, Canonical, Render, Apart, Utf8.WellFormed;
    ValuesExactly(b, 0, e);
    if ScanValue(b, 0).Success? {
      ReadApart(b, 0);
    }
    if j, rest :| Canonical(j, 0) && b == Render(j) + rest && Apart(j, rest) && rest != [] {
      ReadBack(j, 0, rest);
    }
  }
}
