/** Object keys are ordered by their raw bytes (parity/src/canonical_json_adapter.c), where section 3.2.3 of
    RFC 8785 orders them by the UTF-16 code units of the unescaped names: exactly when the two agree. */
module KeyOrder {
  import opened Bytes
  import opened Utf8
  import CanonicalJson

  // ---- The two orders ----

  predicate Before(a: seq<nat>, b: seq<nat>) {
    if b == [] then false
    else if a == [] then true
    else a[0] < b[0] || (a[0] == b[0] && Before(a[1..], b[1..]))
  }

  /** The UTF-16 code units of one character. */
  function Units(c: scalar): (u: seq<nat>)
    ensures 1 <= |u| <= 2
  {
    if c < 0x10000 then [c] else [0xD800 + (c - 0x10000) / 0x400, 0xDC00 + (c - 0x10000) % 0x400]
  }

  function AllUnits(cs: seq<scalar>): seq<nat> {
    if cs == [] then [] else Units(cs[0]) + AllUnits(cs[1..])
  }

  /** The bytes of one character between the quotes. */
  function Raw(c: scalar): bytes {
    if c < 0x80 then CanonicalJson.Escape(c) else EncodeScalar(c)
  }

  function AllRaw(cs: seq<scalar>): bytes {
    if cs == [] then [] else Raw(cs[0]) + AllRaw(cs[1..])
  }

  /** `AllRaw` is the raw text of a key. */
  lemma {:induction false} RawIsEscaped(cs: seq<scalar>)
    ensures AllRaw(cs) == CanonicalJson.EscapeAll(Encode(cs))
  {
    if cs != [] {
      RawIsEscaped(cs[1..]);
      RawOfOne(cs[0], Encode(cs[1..]));
    }
  }

  lemma {:induction false} EscapeAbove(e: bytes, rest: bytes)
    requires forall i :: 0 <= i < |e| ==> e[i] >= 0x80
    ensures CanonicalJson.EscapeAll(e + rest) == e + CanonicalJson.EscapeAll(rest)
  {
    if e == [] {
      assert e + rest == rest;
    } else {
      assert (e + rest)[1..] == e[1..] + rest;
      EscapeAbove(e[1..], rest);
      assert e == [e[0]] + e[1..];
    }
  }

  lemma RawOfOne(c: scalar, rest: bytes)
    ensures CanonicalJson.EscapeAll(EncodeScalar(c) + rest) == Raw(c) + CanonicalJson.EscapeAll(rest)
  {
    assert Scalar(c);
    if c < 0x80 {
      assert (EncodeScalar(c) + rest)[1..] == rest;
    } else {
      EscapeAbove(EncodeScalar(c), rest);
    }
  }

  // ---- One character against another ----

  predicate Escaped(c: scalar) {
    c < 0x20 || c == 0x22 || c == 0x5C
  }

  /** The byte after the backslash. */
  function Letter(c: scalar): nat
    requires Escaped(c)
  {
    CanonicalJson.Escape(c)[1]
  }

  /** Where the orders differ on a smaller character `c` and a larger one `d`: private-use and other characters
      above the surrogates against supplementary ones; an escaped character against one below the backslash;
      and two escaped characters whose escapes are in the other order. */
  predicate Differ(c: scalar, d: scalar)
    requires c < d
  {
    || (c >= 0xE000 && d >= 0x10000 && c < 0x10000)
    || (Escaped(c) && !Escaped(d) && d < 0x5C)
    || (Escaped(c) && Escaped(d) && Letter(c) > Letter(d))
  }

  /** Two byte sequences that differ at a position where both have a byte. */
  predicate Apart(a: seq<nat>, b: seq<nat>) {
    && a != [] && b != [] && (a[0] != b[0] || Apart(a[1..], b[1..]))
  }

  lemma {:induction false} ApartBefore(a: seq<nat>, b: seq<nat>, x: seq<nat>, y: seq<nat>)
    requires Apart(a, b)
    ensures Before(a + x, b + y) <==> Before(a, b)
    ensures Before(a, b) <==> !Before(b, a)
  {
    if a[0] == b[0] {
      ApartBefore(a[1..], b[1..], x, y);
      assert (a + x)[1..] == a[1..] + x && (b + y)[1..] == b[1..] + y;
    }
  }

  lemma {:induction false} CommonBefore(a: seq<nat>, x: seq<nat>, y: seq<nat>)
    ensures Before(a + x, a + y) <==> Before(x, y)
  {
    if a == [] {
      assert a + x == x && a + y == y;
    } else {
      assert (a + x)[1..] == a[1..] + x && (a + y)[1..] == a[1..] + y;
      CommonBefore(a[1..], x, y);
    }
  }

  lemma UnitsOrder(c: scalar, d: scalar)
    requires c < d
    ensures Apart(Units(c), Units(d))
    ensures Before(Units(c), Units(d)) <==> !(c >= 0xE000 && d >= 0x10000 && c < 0x10000)
  {
    assert Scalar(c) && Scalar(d);
    var (u, v) := (Units(c), Units(d));
    if c >= 0x10000 {
      if u[0] == v[0] {
        assert u[1..][0] < v[1..][0];
      }
    }
  }

  lemma RawOrder(c: scalar, d: scalar)
    requires c < d
    ensures Apart(Raw(c), Raw(d))
    ensures Before(Raw(c), Raw(d)) <==>
            !(Escaped(c) && !Escaped(d) && d < 0x5C) && !(Escaped(c) && Escaped(d) && Letter(c) > Letter(d))
  {
    assert Scalar(c) && Scalar(d);
    if c >= 0x80 {
      EncodeOrder(c, d);
    } else if d >= 0x80 {
      assert Raw(d)[0] >= 0xC2;
    } else {
      AsciiOrder(c, d);
    }
  }

  lemma AsciiOrder(c: scalar, d: scalar)
    requires c < d < 0x80
    ensures Apart(Raw(c), Raw(d))
    ensures Before(Raw(c), Raw(d)) <==>
            !(Escaped(c) && !Escaped(d) && d < 0x5C) && !(Escaped(c) && Escaped(d) && Letter(c) > Letter(d))
  {
    if Escaped(c) && Escaped(d) {
      EscapesOrder(c, d);
    }
  }

  lemma EscapesOrder(c: scalar, d: scalar)
    requires c < d && Escaped(c) && Escaped(d)
    ensures Apart(Raw(c), Raw(d)) && (Before(Raw(c), Raw(d)) <==> Letter(c) <= Letter(d))
  {
    var (r, s) := (Raw(c), Raw(d));
    assert r[0] == s[0] == 0x5C && r[1..][0] == Letter(c) && s[1..][0] == Letter(d);
    if Letter(c) == Letter(d) {
      assert |r| == |s| == 6;
      assert r[1..][1..] == r[2..] && s[1..][1..] == s[2..];
      assert r[2..] == [0x30, 0x30] + r[4..] && s[2..] == [0x30, 0x30] + s[4..];
      HexOrder(c, d, r[4..], s[4..]);
      SharedApart([0x30, 0x30], r[4..], s[4..]);
      assert Apart(r[1..], s[1..]);
    }
  }

  lemma {:induction false} SharedApart(a: seq<nat>, x: seq<nat>, y: seq<nat>)
    requires Apart(x, y)
    ensures Apart(a + x, a + y) && (Before(a + x, a + y) <==> Before(x, y))
  {
    CommonBefore(a, x, y);
    if a == [] {
      assert a + x == x && a + y == y;
    } else {
      assert (a + x)[1..] == a[1..] + x && (a + y)[1..] == a[1..] + y;
      SharedApart(a[1..], x, y);
    }
  }

  lemma HexOrder(c: nat, d: nat, r: bytes, s: bytes)
    requires c < d < 0x20
    requires r == [0x30 + c / 16, CanonicalJson.HexDigit(c % 16)] && s == [0x30 + d / 16, CanonicalJson.HexDigit(d % 16)]
    ensures Apart(r, s) && Before(r, s)
  {
    if c / 16 == d / 16 {
      assert r[1..][0] < s[1..][0];
    }
  }

  /** UTF-8 keeps the order of code points. */
  lemma EncodeOrder(c: scalar, d: scalar)
    requires 0x80 <= c < d
    ensures Apart(EncodeScalar(c), EncodeScalar(d)) && Before(EncodeScalar(c), EncodeScalar(d))
  {
    assert Scalar(c) && Scalar(d);
    var (r, s) := (EncodeScalar(c), EncodeScalar(d));
    if |r| < |s| {
      assert r[0] < s[0];
    } else {
      assert |r| == |s|;
      hide Apart, Before;
      TwoBytes(c, d);
      ThreeBytes(c, d);
      FourBytes(c, d);
    }
  }

  lemma LexStep(a: nat, x: seq<nat>, b: nat, y: seq<nat>)
    requires a < b || (a == b && Apart(x, y) && Before(x, y))
    ensures Apart([a] + x, [b] + y) && Before([a] + x, [b] + y)
  {
    assert ([a] + x)[1..] == x && ([b] + y)[1..] == y;
  }

  lemma Digit(x: nat, y: nat)
    requires x < y
    ensures x / 64 <= y / 64 && (x / 64 == y / 64 ==> x % 64 < y % 64)
  {
  }

  /** The last digit decides when the rest is equal. */
  lemma LastDigit(x: nat, y: nat)
    requires x < y && x / 64 == y / 64
    ensures Apart([0x80 + x % 64], [0x80 + y % 64]) && Before([0x80 + x % 64], [0x80 + y % 64])
  {
    Digit(x, y);
  }

  /** Two digits below an equal rest. */
  lemma TwoDigits(x: nat, y: nat)
    requires x < y && x / 64 / 64 == y / 64 / 64
    ensures var (r, s) := ([0x80 + x / 64 % 64] + [0x80 + x % 64], [0x80 + y / 64 % 64] + [0x80 + y % 64]);
            Apart(r, s) && Before(r, s)
  {
    Digit(x, y);
    if x / 64 == y / 64 {
      LastDigit(x, y);
    } else {
      Digit(x / 64, y / 64);
    }
    LexStep(0x80 + x / 64 % 64, [0x80 + x % 64], 0x80 + y / 64 % 64, [0x80 + y % 64]);
  }

  lemma ThreeDigits(x: nat, y: nat)
    requires x < y && x / 64 / 64 / 64 == y / 64 / 64 / 64
    ensures var (r, s) := ([0x80 + x / 64 / 64 % 64] + ([0x80 + x / 64 % 64] + [0x80 + x % 64]),
                           [0x80 + y / 64 / 64 % 64] + ([0x80 + y / 64 % 64] + [0x80 + y % 64]));
            Apart(r, s) && Before(r, s)
  {
    hide Apart, Before;
    Digit(x, y);
    if x / 64 / 64 == y / 64 / 64 {
      TwoDigits(x, y);
    } else {
      Digit(x / 64, y / 64);
      Digit(x / 64 / 64, y / 64 / 64);
    }
    LexStep(0x80 + x / 64 / 64 % 64, [0x80 + x / 64 % 64] + [0x80 + x % 64],
            0x80 + y / 64 / 64 % 64, [0x80 + y / 64 % 64] + [0x80 + y % 64]);
  }

  lemma TwoBytes(c: nat, d: nat)
    requires c < d
    ensures var (r, s) := ([0xC0 + c / 64, 0x80 + c % 64], [0xC0 + d / 64, 0x80 + d % 64]);
            Apart(r, s) && Before(r, s)
  {
    hide Apart, Before;
    Digit(c, d);
    if c / 64 == d / 64 {
      LastDigit(c, d);
    }
    LexStep(0xC0 + c / 64, [0x80 + c % 64], 0xC0 + d / 64, [0x80 + d % 64]);
    assert [0xC0 + c / 64] + [0x80 + c % 64] == [0xC0 + c / 64, 0x80 + c % 64];
    assert [0xC0 + d / 64] + [0x80 + d % 64] == [0xC0 + d / 64, 0x80 + d % 64];
  }

  lemma ThreeBytes(c: nat, d: nat)
    requires c < d
    ensures var (r, s) := ([0xE0 + c / 64 / 64, 0x80 + c / 64 % 64, 0x80 + c % 64],
                           [0xE0 + d / 64 / 64, 0x80 + d / 64 % 64, 0x80 + d % 64]);
            Apart(r, s) && Before(r, s)
  {
    hide Apart, Before;
    var (x, y) := ([0x80 + c / 64 % 64] + [0x80 + c % 64], [0x80 + d / 64 % 64] + [0x80 + d % 64]);
    var (c2, d2) := (c / 64 / 64, d / 64 / 64);
    if c2 == d2 {
      TwoDigits(c, d);
    }
    LexStep(0xE0 + c2, x, 0xE0 + d2, y);
    assert [0xE0 + c2] + x == [0xE0 + c2, 0x80 + c / 64 % 64, 0x80 + c % 64];
    assert [0xE0 + d2] + y == [0xE0 + d2, 0x80 + d / 64 % 64, 0x80 + d % 64];
  }

  lemma FourBytes(c: nat, d: nat)
    requires c < d
    ensures var (r, s) := ([0xF0 + c / 64 / 64 / 64, 0x80 + c / 64 / 64 % 64, 0x80 + c / 64 % 64, 0x80 + c % 64],
                           [0xF0 + d / 64 / 64 / 64, 0x80 + d / 64 / 64 % 64, 0x80 + d / 64 % 64, 0x80 + d % 64]);
            Apart(r, s) && Before(r, s)
  {
    hide Apart, Before;
    var x := [0x80 + c / 64 / 64 % 64] + ([0x80 + c / 64 % 64] + [0x80 + c % 64]);
    var y := [0x80 + d / 64 / 64 % 64] + ([0x80 + d / 64 % 64] + [0x80 + d % 64]);
    var (c3, d3) := (c / 64 / 64 / 64, d / 64 / 64 / 64);
    if c3 == d3 {
      ThreeDigits(c, d);
    }
    LexStep(0xF0 + c3, x, 0xF0 + d3, y);
    assert [0xF0 + c3] + x == [0xF0 + c3, 0x80 + c / 64 / 64 % 64, 0x80 + c / 64 % 64, 0x80 + c % 64];
    assert [0xF0 + d3] + y == [0xF0 + d3, 0x80 + d / 64 / 64 % 64, 0x80 + d / 64 % 64, 0x80 + d % 64];
  }

  // ---- Whole keys ----

  /** The first characters in which two keys differ are ordered alike. */
  predicate OrderedAlike(a: seq<scalar>, b: seq<scalar>) {
    if a == [] || b == [] then true
    else if a[0] == b[0] then OrderedAlike(a[1..], b[1..])
    else if a[0] < b[0] then !Differ(a[0], b[0])
    else !Differ(b[0], a[0])
  }

  lemma {:induction false} BytesBefore(a: bytes, b: bytes)
    ensures CanonicalJson.Less(a, b) <==> Before(a, b)
  {
    if a != [] && b != [] {
      BytesBefore(a[1..], b[1..]);
    }
  }

  /** Two keys are ordered as section 3.2.3 of RFC 8785 orders them exactly when the first characters in which
      they differ are ordered alike. */
  lemma KeyOrderExactly(a: seq<scalar>, b: seq<scalar>)
    ensures (CanonicalJson.Less(CanonicalJson.EscapeAll(Encode(a)), CanonicalJson.EscapeAll(Encode(b)))
             <==> Before(AllUnits(a), AllUnits(b)))
            <==> OrderedAlike(a, b)
  {
    RawIsEscaped(a);
    RawIsEscaped(b);
    BytesBefore(AllRaw(a), AllRaw(b));
    OrdersAgree(a, b);
  }

  lemma {:induction false} OrdersAgree(a: seq<scalar>, b: seq<scalar>)
    ensures (Before(AllRaw(a), AllRaw(b)) <==> Before(AllUnits(a), AllUnits(b))) <==> OrderedAlike(a, b)
  {
    hide Raw, Units, Differ;
    if a != [] && b != [] {
      var (c, d) := (a[0], b[0]);
      if c == d {
        OrdersAgree(a[1..], b[1..]);
        CommonBefore(Raw(c), AllRaw(a[1..]), AllRaw(b[1..]));
        CommonBefore(Units(c), AllUnits(a[1..]), AllUnits(b[1..]));
      } else if c < d {
        CharactersOrder(c, d, AllRaw(a[1..]), AllRaw(b[1..]), AllUnits(a[1..]), AllUnits(b[1..]));
      } else {
        CharactersOrder(d, c, AllRaw(b[1..]), AllRaw(a[1..]), AllUnits(b[1..]), AllUnits(a[1..]));
      }
    } else {
      EmptyFirst(a);
      EmptyFirst(b);
    }
  }

  lemma EmptyFirst(a: seq<scalar>)
    ensures AllRaw(a) == [] <==> a == []
    ensures AllUnits(a) == [] <==> a == []
  {
  }

  lemma CharactersOrder(c: scalar, d: scalar, x: bytes, y: bytes, u: seq<nat>, v: seq<nat>)
    requires c < d
    ensures (Before(Raw(c) + x, Raw(d) + y) <==> Before(Units(c) + u, Units(d) + v)) <==> !Differ(c, d)
    ensures (Before(Raw(d) + y, Raw(c) + x) <==> Before(Units(d) + v, Units(c) + u)) <==> !Differ(c, d)
  {
    RawOrder(c, d);
    UnitsOrder(c, d);
    ApartSymmetric(Raw(c), Raw(d));
    ApartSymmetric(Units(c), Units(d));
    ApartBefore(Raw(c), Raw(d), x, y);
    ApartBefore(Raw(d), Raw(c), y, x);
    ApartBefore(Units(c), Units(d), u, v);
    ApartBefore(Units(d), Units(c), v, u);
    hide Raw, Units, Before, Apart;
  }

  lemma {:induction false} ApartSymmetric(a: seq<nat>, b: seq<nat>)
    requires Apart(a, b)
    ensures Apart(b, a)
  {
    if a[0] == b[0] {
      ApartSymmetric(a[1..], b[1..]);
    }
  }

  /** The recognizer takes "A" before a line feed, and a private-use character before a supplementary one;
      section 3.2.3 of RFC 8785 has both the other way round. */
  lemma KeyOrderDiffers()
    ensures CanonicalJson.Less([0x41], CanonicalJson.EscapeAll([0x0A])) && Before(AllUnits([0x0A]), AllUnits([0x41]))
    ensures CanonicalJson.Less(Encode([0xE000]), Encode([0x10000])) && Before(AllUnits([0x10000]), AllUnits([0xE000]))
  {
    assert Scalar(0xE000) && Scalar(0x10000) && Scalar(0x0A) && Scalar(0x41);
    assert AllUnits([0x0A])[0] == 0x0A && AllUnits([0x41])[0] == 0x41;
    assert AllUnits([0x10000])[0] == 0xD800 && AllUnits([0xE000])[0] == 0xE000;
    assert Encode([0xE000])[0] == 0xEE && Encode([0x10000])[0] == 0xF0;
    assert CanonicalJson.EscapeAll([0x0A])[0] == 0x5C;
  }
}
