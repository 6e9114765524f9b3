/** Little-endian integer layouts, as Python's struct module packs and unpacks them. */
module Structs {
  import opened Bytes

  function Size(widths: seq<nat>): nat {
    if widths == [] then 0 else widths[0] + Size(widths[1..])
  }

  /** Every value is in the range of its field; packing raises otherwise. */
  predicate Fits(widths: seq<nat>, values: seq<int>) {
    |widths| == |values| && forall k :: 0 <= k < |values| ==> 0 <= values[k] < Pow256(widths[k])
  }

  function Pack(widths: seq<nat>, values: seq<int>): (b: bytes)
    requires Fits(widths, values)
    ensures |b| == Size(widths)
  {
    if widths == [] then [] else LE(widths[0], values[0]) + Pack(widths[1..], values[1..])
  }

  function Unpack(widths: seq<nat>, b: bytes): (values: seq<int>)
    requires |b| == Size(widths)
    ensures |values| == |widths|
  {
    if widths == [] then [] else [UInt(b[..widths[0]])] + Unpack(widths[1..], b[widths[0]..])
  }

  lemma {:induction false} PackUnpack(widths: seq<nat>, values: seq<int>)
    requires Fits(widths, values)
    ensures Unpack(widths, Pack(widths, values)) == values
  {
    if widths != [] {
      LoadStore(widths[0], values[0]);
      var b := Pack(widths, values);
      assert b[..widths[0]] == LE(widths[0], values[0]) && b[widths[0]..] == Pack(widths[1..], values[1..]);
      PackUnpack(widths[1..], values[1..]);
      assert values == [values[0]] + values[1..];
    }
  }

  lemma {:induction false} UnpackPack(widths: seq<nat>, b: bytes)
    requires |b| == Size(widths)
    ensures Fits(widths, Unpack(widths, b)) && Pack(widths, Unpack(widths, b)) == b
  {
    if widths != [] {
      hide UInt, LE;
      var n := widths[0];
      StoreLoad(b[..n]);
      UnpackPack(widths[1..], b[n..]);
      FitsHead(widths, UInt(b[..n]), Unpack(widths[1..], b[n..]));
      assert b == b[..n] + b[n..];
    }
  }

  lemma FitsHead(widths: seq<nat>, first: int, rest: seq<int>)
    requires widths != [] && 0 <= first < Pow256(widths[0]) && Fits(widths[1..], rest)
    ensures Fits(widths, [first] + rest) && ([first] + rest)[1..] == rest
  {
    hide Pow256;
    var values := [first] + rest;
    forall k | 0 <= k < |values|
      ensures 0 <= values[k] < Pow256(widths[k])
    {
      if k > 0 {
        assert values[k] == rest[k - 1] && widths[k] == widths[1..][k - 1];
      }
    }
  }

  // ---- Single fields ----

  /** Where field `k` starts. */
  function Offset(widths: seq<nat>, k: nat): nat
    requires k <= |widths|
  {
    if k == 0 then 0 else widths[0] + Offset(widths[1..], k - 1)
  }

  lemma {:induction false} OffsetNext(widths: seq<nat>, k: nat)
    requires k < |widths|
    ensures Offset(widths, k + 1) == Offset(widths, k) + widths[k]
    ensures Offset(widths, k + 1) <= Size(widths)
    decreases k
  {
    if k > 0 {
      OffsetNext(widths[1..], k - 1);
    }
  }

  /** Unpacking reads every field at its offset. */
  lemma {:induction false} UnpackedField(widths: seq<nat>, b: bytes, k: nat)
    requires |b| == Size(widths) && k < |widths|
    ensures Offset(widths, k) + widths[k] <= |b|
    ensures Unpack(widths, b)[k] == UInt(b[Offset(widths, k)..Offset(widths, k) + widths[k]])
  {
    hide UInt;
    OffsetNext(widths, k);
    if k > 0 {
      var (n, rest) := (widths[0], widths[1..]);
      UnpackedField(rest, b[n..], k - 1);
      var at := Offset(rest, k - 1);
      FromSlice(b, n, at, at + rest[k - 1]);
      assert Unpack(widths, b)[k] == Unpack(rest, b[n..])[k - 1];
    }
  }

  lemma FromSlice(b: bytes, n: nat, i: nat, j: nat)
    requires n <= |b| && i <= j <= |b| - n
    ensures b[n..][i..j] == b[n + i..n + j]
  {
  }
}
