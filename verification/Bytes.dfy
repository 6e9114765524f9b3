/** Bytes and explicit-width little-endian integers (parity/include/openttd_rl_parity/tape_format.h). */
module Bytes {

  type byte = x: int | 0 <= x < 0x100
  type u16 = x: int | 0 <= x < 0x1_0000
  type u32 = x: int | 0 <= x < 0x1_0000_0000
  type u64 = x: int | 0 <= x < 0x1_0000_0000_0000_0000
  type bytes = seq<byte>

  const U64_MAX := 0xFFFF_FFFF_FFFF_FFFF

  /** The number of values `n` bytes can hold. */
  function Pow256(n: nat): (p: nat)
    ensures p > 0
  {
    if n == 0 then 1 else 256 * Pow256(n - 1)
  }

  /** `v` stored in `n` little-endian bytes; higher bits are dropped, as a C store does. */
  function LE(n: nat, v: nat): (b: bytes)
    ensures |b| == n
  {
    if n == 0 then [] else [v % 256] + LE(n - 1, v / 256)
  }

  /** The unsigned integer a run of little-endian bytes holds. */
  function UInt(b: bytes): (v: nat)
    ensures v < Pow256(|b|)
  {
    if b == [] then 0 else b[0] + 256 * UInt(b[1..])
  }

  function Zeros(n: nat): (b: bytes)
    ensures |b| == n && forall i :: 0 <= i < n ==> b[i] == 0
  {
    seq(n, _ => 0)
  }

  lemma {:induction false} LoadStore(n: nat, v: nat)
    requires v < Pow256(n)
    ensures UInt(LE(n, v)) == v
  {
    if n != 0 {
      LoadStore(n - 1, v / 256);
      assert LE(n, v)[1..] == LE(n - 1, v / 256);
    }
  }

  lemma {:induction false} StoreLoad(b: bytes)
    ensures LE(|b|, UInt(b)) == b
  {
    if b != [] {
      StoreLoad(b[1..]);
      var v := UInt(b);
      assert v % 256 == b[0] && v / 256 == UInt(b[1..]);
      assert b == [b[0]] + b[1..];
    }
  }

  lemma Widths()
    ensures Pow256(1) == 0x100 && Pow256(2) == 0x1_0000
    ensures Pow256(4) == 0x1_0000_0000
    ensures Pow256(8) == 0x1_0000_0000_0000_0000
  {
  }

  // Fixed-width loads. `at` is the offset of the first byte.

  function U16At(b: bytes, at: nat): (v: u16)
    requires at + 2 <= |b|
  {
    Widths();
    UInt(b[at..at + 2])
  }

  function U32At(b: bytes, at: nat): (v: u32)
    requires at + 4 <= |b|
  {
    Widths();
    UInt(b[at..at + 4])
  }

  function U64At(b: bytes, at: nat): (v: u64)
    requires at + 8 <= |b|
  {
    Widths();
    UInt(b[at..at + 8])
  }

  /** Byte by byte, the first byte lowest. */
  lemma LoadedBytes(b: bytes, at: nat)
    ensures at + 2 <= |b| ==> U16At(b, at) == b[at] as int + 0x100 * b[at + 1] as int
    ensures at + 4 <= |b| ==> U32At(b, at) == U16At(b, at) as int + 0x1_0000 * U16At(b, at + 2) as int
    ensures at + 8 <= |b| ==> U64At(b, at) == U32At(b, at) as int + 0x1_0000_0000 * U32At(b, at + 4) as int
  {
    if at + 2 <= |b| {
      Two(b[at..at + 2]);
    }
    if at + 4 <= |b| {
      Halves(b[at..at + 4], 2);
      SubSlice(b, at, 4, 0, 2);
      SubSlice(b, at, 4, 2, 4);
    }
    if at + 8 <= |b| {
      Halves(b[at..at + 8], 4);
      SubSlice(b, at, 8, 0, 4);
      SubSlice(b, at, 8, 4, 8);
    }
  }

  lemma Two(b: bytes)
    requires |b| == 2
    ensures UInt(b) == b[0] as int + 0x100 * b[1] as int
  {
    assert UInt(b[1..]) == b[1] + 256 * UInt(b[1..][1..]);
  }

  lemma {:induction false} Halves(b: bytes, n: nat)
    requires n <= |b|
    ensures UInt(b) == UInt(b[..n]) + Pow256(n) * UInt(b[n..])
  {
    if n == 0 {
      assert b[0..] == b;
    } else {
      Halves(b[1..], n - 1);
      assert b[1..][..n - 1] == b[..n][1..] && b[1..][n - 1..] == b[n..];
      Regroup(b[0], UInt(b[..n][1..]), Pow256(n - 1), UInt(b[n..]));
    }
  }

  lemma Regroup(first: nat, low: nat, power: nat, high: nat)
    ensures first + 256 * (low + power * high) == (first + 256 * low) + (256 * power) * high
  {
  }

  lemma SubSlice(b: bytes, at: nat, n: nat, i: nat, j: nat)
    requires i <= j <= n && at + n <= |b|
    ensures b[at..at + n][i..j] == b[at + i..at + j]
  {
    SubRange(b, at, at + n, i, j);
  }

  lemma SubRange(b: bytes, lo: nat, hi: nat, i: nat, j: nat)
    requires lo <= hi <= |b| && i <= j <= hi - lo
    ensures b[lo..hi][i..j] == b[lo + i..lo + j]
  {
    var outer, inner := b[lo..hi][i..j], b[lo + i..lo + j];
    assert |outer| == |inner|;
    forall k | 0 <= k < |outer| ensures outer[k] == inner[k] {
      assert outer[k] == b[lo..hi][i + k];
    }
  }

  /** The padding loop of every reader. */
  method AllZero(b: bytes, from: nat, to: nat) returns (ok: bool)
    requires from <= to <= |b|
    ensures ok <==> b[from..to] == Zeros(to - from)
  {
    var pad := from;
    while pad < to
      invariant from <= pad <= to
      invariant forall k :: from <= k < pad ==> b[k] == 0
    {
      if b[pad] != 0 {
        assert b[from..to][pad - from] != 0;
        return false;
      }
      pad := pad + 1;
    }
    assert b[from..to] == Zeros(to - from);
    return true;
  }

  /** A run of zero bytes holds zero, and only such a run does. */
  lemma {:induction false} ZeroLoad(b: bytes)
    ensures UInt(b) == 0 <==> b == Zeros(|b|)
  {
    if b != [] {
      ZeroLoad(b[1..]);
      assert b == [b[0]] + b[1..];
      assert b == Zeros(|b|) <==> b[0] == 0 && b[1..] == Zeros(|b| - 1);
    }
  }

  lemma ZerosExactly(b: bytes, lo: nat, hi: nat)
    requires lo <= hi <= |b|
    ensures b[lo..hi] == Zeros(hi - lo) <==> !(exists i :: lo <= i < hi && b[i] != 0)
  {
    if b[lo..hi] == Zeros(hi - lo) {
      forall i | lo <= i < hi ensures b[i] == 0 {
        assert b[lo..hi][i - lo] == 0;
      }
    }
  }
}
