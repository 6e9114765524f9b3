/** Overflow-checked size arithmetic (parity/src/checked_arithmetic.c) over a 64-bit size_t. */
module CheckedArithmetic {
  import opened Wrappers

  const SIZE_MAX := 0xFFFF_FFFF_FFFF_FFFF
  type size = x: int | 0 <= x <= SIZE_MAX

  /** The exact sum, or nothing when it does not fit. */
  function Add(a: size, b: size): (r: Option<size>)
    ensures r.Some? <==> a + b <= SIZE_MAX
    ensures r.Some? ==> r.value == a + b
  {
    if b > SIZE_MAX - a then None else Some(a + b)
  }

  lemma QuotientBound(a: nat, b: nat, limit: nat)
    requires a != 0
    ensures b > limit / a <==> a * b > limit
  {
    var q := limit / a;
    assert a * q <= limit < a * q + a;
    if b > q {
      Monotone(a, q + 1, b);
    } else {
      Monotone(a, b, q);
    }
  }

  lemma Monotone(a: nat, b: nat, c: nat)
    requires b <= c
    ensures a * b <= a * c
  {
    assert a * c == a * b + a * (c - b);
  }

  /** The exact product, or nothing when it does not fit; the test itself never overflows. */
  function Mul(a: size, b: size): (r: Option<size>)
    ensures r.Some? <==> a * b <= SIZE_MAX
    ensures r.Some? ==> r.value == a * b
  {
    if a != 0 then
      QuotientBound(a, b, SIZE_MAX);
      if b > SIZE_MAX / a then None else Some(a * b)
    else
      Some(0)
  }

  /** How many bytes are missing to the next multiple of eight. */
  function Pad8(n: nat): (p: nat)
    ensures p < 8 && (n + p) % 8 == 0
  {
    if n % 8 == 0 then 0 else 8 - n % 8
  }

  /** The least multiple of eight that is not below `value`, or nothing when it does not fit. */
  function Align8(value: size): (r: Option<size>)
    ensures r.Some? <==> value + Pad8(value) <= SIZE_MAX
    ensures r.Some? ==> r.value % 8 == 0 && value <= r.value
    ensures r.Some? ==> forall m: nat :: m % 8 == 0 && value <= m ==> r.value <= m
  {
    var remainder := value % 8;
    Add(value, if remainder == 0 then 0 else 8 - remainder)
  }

  /** Padding does not depend on where a record starts, as long as it starts on a multiple of eight. */
  lemma PadShift(base: nat, n: nat)
    requires base % 8 == 0
    ensures Pad8(base + n) == Pad8(n)
  {
  }
}
