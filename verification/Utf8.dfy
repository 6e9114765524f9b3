/** The UTF-8 recognizer of parity/src/canonical_json_adapter.c against RFC 3629. */
module Utf8 {
  import opened Bytes

  /** A Unicode scalar value: any code point outside the surrogate range. */
  predicate Scalar(c: nat) {
    c < 0xD800 || 0xE000 <= c <= 0x10FFFF
  }

  type scalar = c: nat | Scalar(c)

  /** The octet sequence of one scalar value (table in section 3 of RFC 3629). */
  function EncodeScalar(c: scalar): (b: bytes)
    ensures 1 <= |b| <= 4
  {
    assert Scalar(c);
    var c1 := c / 64;
    var c2 := c1 / 64;
    var c3 := c2 / 64;
    if c < 0x80 then [c]
    else if c < 0x800 then [0xC0 + c1, 0x80 + c % 64]
    else if c < 0x10000 then [0xE0 + c2, 0x80 + c1 % 64, 0x80 + c % 64]
    else [0xF0 + c3, 0x80 + c2 % 64, 0x80 + c1 % 64, 0x80 + c % 64]
  }

  function Encode(cs: seq<scalar>): bytes {
    if cs == [] then [] else EncodeScalar(cs[0]) + Encode(cs[1..])
  }

  /** The bytes are the concatenated encodings of some sequence of scalar values. */
  ghost predicate WellFormed(b: bytes) {
    exists cs: seq<scalar> :: b == Encode(cs)
  }

  predicate IsContinuation(b: byte) {
    0x80 <= b < 0xC0
  }

  /** How many bytes the first byte announces; zero when it cannot start a character. */
  function Announced(first: byte): (n: nat)
    ensures n <= 4
  {
    if first <= 0x7F then 1
    else if 0xC2 <= first <= 0xDF then 2
    else if 0xE0 <= first <= 0xEF then 3
    else if 0xF0 <= first <= 0xF4 then 4
    else 0
  }

  /** The payload bits of the first byte of an `n`-byte character. */
  function LeadBits(first: byte, n: nat): nat {
    if n == 1 then first else if n == 2 then first % 32 else if n == 3 then first % 16 else first % 8
  }

  /** The payload bits of the first `n` bytes, folded as the recognizer folds them. */
  function Fold(b: bytes, count: nat, n: nat): nat
    requires 1 <= n <= |b|
  {
    if n == 1 then LeadBits(b[0], count) else Fold(b, count, n - 1) * 64 + b[n - 1] % 64
  }

  /** `b` starts with one character of `n` bytes by the recognizer's tests. */
  predicate StartsWith(b: bytes, n: nat) {
    && 1 <= n <= |b|
    && Announced(b[0]) == n
    && (forall j :: 1 <= j < n ==> IsContinuation(b[j]))
    && var c := Fold(b, n, n);
    && (n == 3 ==> c >= 0x800)
    && (n == 4 ==> c >= 0x10000)
    && Scalar(c)
  }

  lemma FoldUnrolled(b: bytes, n: nat)
    requires 1 <= n <= 4 && n <= |b|
    ensures n == 1 ==> Fold(b, n, n) == LeadBits(b[0], n)
    ensures n == 2 ==> Fold(b, n, n) == LeadBits(b[0], n) * 64 + b[1] % 64
    ensures n == 3 ==> Fold(b, n, n) == (LeadBits(b[0], n) * 64 + b[1] % 64) * 64 + b[2] % 64
    ensures n == 4 ==> Fold(b, n, n) == ((LeadBits(b[0], n) * 64 + b[1] % 64) * 64 + b[2] % 64) * 64 + b[3] % 64
  {
    assert Fold(b, n, 1) == LeadBits(b[0], n);
    if n > 1 { assert Fold(b, n, 2) == Fold(b, n, 1) * 64 + b[1] % 64; }
    if n > 2 { assert Fold(b, n, 3) == Fold(b, n, 2) * 64 + b[2] % 64; }
    if n > 3 { assert Fold(b, n, 4) == Fold(b, n, 3) * 64 + b[3] % 64; }
  }

  lemma Digits(a: nat, x: nat, y: nat, z: nat)
    requires x < 64 && y < 64 && z < 64
    ensures ((a * 64 + x) * 64 + y) * 64 + z == 64 * ((a * 64 + x) * 64 + y) + z
    ensures (((a * 64 + x) * 64 + y) * 64 + z) % 64 == z
    ensures (((a * 64 + x) * 64 + y) * 64 + z) / 64 == (a * 64 + x) * 64 + y
    ensures ((a * 64 + x) * 64 + y) % 64 == y && ((a * 64 + x) * 64 + y) / 64 == a * 64 + x
    ensures (a * 64 + x) % 64 == x && (a * 64 + x) / 64 == a
  {
  }

  lemma StartsWithEncodes(b: bytes, n: nat)
    requires StartsWith(b, n)
    ensures Scalar(Fold(b, n, n)) && EncodeScalar(Fold(b, n, n)) == b[..n]
  {
    FoldUnrolled(b, n);
    match n
    case 1 => assert b[..1] == [b[0]];
    case 2 => Encodes2(b[0], b[1]); assert b[..2] == [b[0], b[1]];
    case 3 => Encodes3(b[0], b[1], b[2]); assert b[..3] == [b[0], b[1], b[2]];
    case 4 => Encodes4(b[0], b[1], b[2], b[3]); assert b[..4] == [b[0], b[1], b[2], b[3]];
  }

  lemma Encodes2(b0: byte, b1: byte)
    requires 0xC2 <= b0 <= 0xDF && IsContinuation(b1)
    ensures var c := b0 % 32 * 64 + b1 % 64; 0x80 <= c < 0x800 && Scalar(c) && EncodeScalar(c) == [b0, b1]
  {
    Digits(0, 0, b0 % 32, b1 % 64);
  }

  lemma FromDigits3(a: nat, x: nat, y: nat)
    requires a < 16 && x < 64 && y < 64
    ensures var c := (a * 64 + x) * 64 + y;
      c < 0x10000 && (c >= 0x800 && Scalar(c) ==> EncodeScalar(c) == [0xE0 + a, 0x80 + x, 0x80 + y])
  {
    Digits(0, a, x, y);
  }

  lemma FromDigits4(a: nat, x: nat, y: nat, z: nat)
    requires a < 8 && x < 64 && y < 64 && z < 64
    ensures var c := ((a * 64 + x) * 64 + y) * 64 + z;
      c >= 0x10000 && Scalar(c) ==> EncodeScalar(c) == [0xF0 + a, 0x80 + x, 0x80 + y, 0x80 + z]
  {
    Digits(a, x, y, z);
  }

  lemma Encodes3(b0: byte, b1: byte, b2: byte)
    requires 0xE0 <= b0 <= 0xEF && IsContinuation(b1) && IsContinuation(b2)
    ensures var c := (b0 % 16 * 64 + b1 % 64) * 64 + b2 % 64;
      c < 0x10000 && (c >= 0x800 && Scalar(c) ==> EncodeScalar(c) == [b0, b1, b2])
  {
    hide EncodeScalar;
    FromDigits3(b0 % 16, b1 % 64, b2 % 64);
  }

  lemma Encodes4(b0: byte, b1: byte, b2: byte, b3: byte)
    requires 0xF0 <= b0 <= 0xF4 && IsContinuation(b1) && IsContinuation(b2) && IsContinuation(b3)
    ensures var c := ((b0 % 8 * 64 + b1 % 64) * 64 + b2 % 64) * 64 + b3 % 64;
      c >= 0x10000 && Scalar(c) ==> EncodeScalar(c) == [b0, b1, b2, b3]
  {
    hide EncodeScalar;
    FromDigits4(b0 % 8, b1 % 64, b2 % 64, b3 % 64);
  }

  lemma EncodedStartsWith(c: scalar, rest: bytes)
    ensures StartsWith(EncodeScalar(c) + rest, |EncodeScalar(c)|)
  {
    assert Scalar(c);
    var e := EncodeScalar(c);
    EncodedFolds(c);
    FoldPrefix(e, rest, |e|);
    assert forall j :: 0 <= j < |e| ==> (e + rest)[j] == e[j];
  }

  lemma FoldPrefix(e: bytes, rest: bytes, n: nat)
    requires 1 <= n <= |e| <= 4
    ensures Fold(e + rest, |e|, n) == Fold(e, |e|, n)
  {
    if n > 1 {
      FoldPrefix(e, rest, n - 1);
    }
  }

  lemma Folds2(c: nat)
    requires 0x80 <= c < 0x800
    ensures var b0 := 0xC0 + c / 64; var b1 := 0x80 + c % 64;
      Announced(b0) == 2 && IsContinuation(b1) && LeadBits(b0, 2) * 64 + b1 % 64 == c
  {
  }

  lemma Folds3(c: nat)
    requires 0x800 <= c < 0x10000
    ensures var b0 := 0xE0 + c / 64 / 64; var b1 := 0x80 + c / 64 % 64; var b2 := 0x80 + c % 64;
      Announced(b0) == 3 && IsContinuation(b1) && IsContinuation(b2)
      && (LeadBits(b0, 3) * 64 + b1 % 64) * 64 + b2 % 64 == c
  {
    var c1 := c / 64;
    var c2 := c1 / 64;
    assert c2 < 16 && (0xE0 + c2) % 16 == c2;
    assert c == 64 * c1 + c % 64 && c1 == 64 * c2 + c1 % 64;
  }

  lemma Folds4(c: nat)
    requires 0x10000 <= c <= 0x10FFFF
    ensures var b0 := 0xF0 + c / 64 / 64 / 64; var b1 := 0x80 + c / 64 / 64 % 64;
      var b2 := 0x80 + c / 64 % 64; var b3 := 0x80 + c % 64;
      b0 <= 0xF4 && Announced(b0) == 4 && IsContinuation(b1) && IsContinuation(b2) && IsContinuation(b3)
      && ((LeadBits(b0, 4) * 64 + b1 % 64) * 64 + b2 % 64) * 64 + b3 % 64 == c
  {
    var c1 := c / 64;
    var c2 := c1 / 64;
    var c3 := c2 / 64;
    assert c3 <= 4 && (0xF0 + c3) % 8 == c3;
    assert c == 64 * c1 + c % 64 && c1 == 64 * c2 + c1 % 64 && c2 == 64 * c3 + c2 % 64;
  }

  lemma EncodedFolds(c: scalar)
    ensures Fold(EncodeScalar(c), |EncodeScalar(c)|, |EncodeScalar(c)|) == c
    ensures StartsWith(EncodeScalar(c), |EncodeScalar(c)|)
  {
    assert Scalar(c);
    FoldUnrolled(EncodeScalar(c), |EncodeScalar(c)|);
    if 0x80 <= c < 0x800 {
      Folds2(c);
    } else if 0x800 <= c < 0x10000 {
      Folds3(c);
    } else if 0x10000 <= c {
      Folds4(c);
    }
  }

  /** Peeling one accepted character off the front changes nothing, and nothing else may be first. */
  lemma {:induction false} WellFormedStep(b: bytes)
    requires b != []
    ensures WellFormed(b) <==>
              var n := Announced(b[0]); StartsWith(b, n) && WellFormed(b[n..])
  {
    var n := Announced(b[0]);
    if WellFormed(b) {
      var cs: seq<scalar> :| b == Encode(cs);
      EncodedStartsWith(cs[0], Encode(cs[1..]));
      assert b[n..] == Encode(cs[1..]);
    }
    if StartsWith(b, n) && WellFormed(b[n..]) {
      StartsWithEncodes(b, n);
      var cs: seq<scalar> :| b[n..] == Encode(cs);
      var c: scalar := Fold(b, n, n);
      assert ([c] + cs)[1..] == cs;
      assert b == b[..n] + b[n..] == Encode([c] + cs);
    }
  }

  lemma EmptyWellFormed()
    ensures WellFormed([])
  {
    assert Encode([]) == [];
  }

  /** The body of the recognizer's loop: the length of the character at `i`, or zero when it is bad. */
  method CharacterAt(b: bytes, i: nat) returns (count: nat)
    requires i < |b|
    ensures count != 0 <==> StartsWith(b[i..], Announced(b[i]))
    ensures count != 0 ==> count == Announced(b[i])
  {
    ghost var rest := b[i..];
    var first := b[i];
    var codepoint: nat := first;
    if first <= 0x7F {
      assert Fold(rest, 1, 1) == first;
      return 1;
    } else if 0xC2 <= first <= 0xDF {
      count, codepoint := 2, first % 32;
    } else if 0xE0 <= first <= 0xEF {
      count, codepoint := 3, first % 16;
    } else if 0xF0 <= first <= 0xF4 {
      count, codepoint := 4, first % 8;
    } else {
      return 0;
    }
    if count > |b| - i {
      return 0;
    }
    var j := 1;
    while j < count
      invariant 1 <= j <= count
      invariant codepoint == Fold(rest, count, j)
      invariant forall k :: 1 <= k < j ==> IsContinuation(rest[k])
    {
      if !IsContinuation(b[i + j]) {
        assert !IsContinuation(rest[j]);
        return 0;
      }
      codepoint := codepoint * 64 + b[i + j] % 64;
      j := j + 1;
    }
    if (count == 3 && codepoint < 0x800) || (count == 4 && codepoint < 0x10000)
      || codepoint > 0x10FFFF || 0xD800 <= codepoint <= 0xDFFF
    {
      return 0;
    }
  }

  /** `otrl_utf8_valid`: accepts exactly the encodings of scalar value sequences. */
  method Utf8Valid(b: bytes) returns (ok: bool)
    ensures ok <==> WellFormed(b)
  {
    EmptyWellFormed();
    var i := 0;
    while i < |b|
      invariant i <= |b|
      invariant WellFormed(b) <==> WellFormed(b[i..])
    {
      WellFormedStep(b[i..]);
      var count := CharacterAt(b, i);
      if count == 0 {
        return false;
      }
      assert b[i..][count..] == b[i + count..];
      i := i + count;
    }
    assert b[i..] == [];
    return true;
  }
}
