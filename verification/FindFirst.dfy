/** `otrl_find_first_true` (parity/src/minimizer.c): bisection, with a linear scan when the flags are
    not monotone. */
module FindFirst {
  import opened Bytes

  predicate Monotone(flags: seq<byte>) {
    forall i, j :: 0 <= i < j < |flags| && flags[i] != 0 ==> flags[j] != 0
  }

  /** The first true position, whether or not the flags are monotone; the fallback is reported exactly
      when they are not. */
  method FindFirstTrue(flags: seq<byte>) returns (index: nat, fallback: bool)
    ensures index <= |flags| && (forall k :: 0 <= k < index ==> flags[k] == 0)
    ensures index < |flags| ==> flags[index] != 0
    ensures fallback <==> !Monotone(flags)
  {
    var monotone, seenTrue := true, false;
    ghost var firstTrue := 0;
    var i := 0;
    while i < |flags| && monotone
      invariant i <= |flags|
      invariant seenTrue ==> firstTrue < i && flags[firstTrue] != 0
      invariant monotone && !seenTrue ==> forall k :: 0 <= k < i ==> flags[k] == 0
      invariant monotone ==> Monotone(flags[..i])
      invariant !monotone ==> !Monotone(flags)
    {
      if flags[i] != 0 {
        if !seenTrue {
          firstTrue := i;
        }
        seenTrue := true;
      } else if seenTrue {
        monotone := false;
      }
      i := i + 1;
    }
    if !monotone {
      index := 0;
      while index < |flags|
        invariant index <= |flags| && forall k :: 0 <= k < index ==> flags[k] == 0
      {
        if flags[index] != 0 {
          return index, true;
        }
        index := index + 1;
      }
      return index, true;
    }
    assert flags[..i] == flags;
    var low, high := 0, |flags|;
    while low < high
      invariant low <= high <= |flags|
      invariant forall k :: 0 <= k < low ==> flags[k] == 0
      invariant high < |flags| ==> flags[high] != 0
    {
      var middle := low + (high - low) / 2;
      if flags[middle] != 0 {
        high := middle;
      } else {
        low := middle + 1;
      }
    }
    return low, false;
  }
}
