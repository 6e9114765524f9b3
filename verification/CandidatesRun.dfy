/** `reverse_legal_rows` (scripts/dev/audit_action_inputs_v2.py): dictionaries filled family by family, then a
    byte buffer rewritten record by record. */
module CandidatesRun {
  import opened Wrappers
  import opened Bytes
  import opened Candidates

  /** The rows grouped by family, each group in row order. */
  method GroupByFamily(data: bytes, legal: seq<row>) returns (families: map<u32, seq<row>>)
    requires |data| == CANDIDATE_BYTES
    ensures forall r :: r in legal ==> Family(data, r) in families
    ensures forall f :: f in families ==> families[f] == FamilyRows(data, legal, f)
  {
    hide Family;
    families := map[];
    var k := 0;
    while k < |legal|
      invariant k <= |legal|
      invariant forall r :: r in legal[..k] ==> Family(data, r) in families
      invariant forall f :: f in families ==> families[f] == FamilyRows(data, legal[..k], f)
    {
      var family := Family(data, legal[k]);
      assert legal[..k + 1][..k] == legal[..k];
      assert forall r :: r in legal[..k + 1] <==> r in legal[..k] || r == legal[k];
      if family !in families {
        NoneYet(data, legal[..k], family);
        families := families[family := []];
      }
      families := families[family := families[family] + [legal[k]]];
      k := k + 1;
    }
    assert legal[..k] == legal;
  }

  lemma {:induction false} NoneYet(data: bytes, rows: seq<row>, family: u32)
    requires |data| == CANDIDATE_BYTES && forall r :: r in rows ==> Family(data, r) != family
    ensures FamilyRows(data, rows, family) == []
    decreases |rows|
  {
    hide Family;
    if rows != [] {
      assert rows[|rows| - 1] in rows;
      NoneYet(data, rows[..|rows| - 1], family);
    }
  }

  /** One family's rows, paired with the same rows from the back. */
  method PairReversed(rows: seq<row>, before: map<row, row>) returns (permutation: map<row, row>)
    requires Ascending(rows)
    ensures forall r :: r in permutation <==> r in before || r in rows
    ensures forall r :: r in before && r !in rows ==> permutation[r] == before[r]
    ensures forall k :: 0 <= k < |rows| ==> rows[k] in permutation && permutation[rows[k]] == rows[|rows| - 1 - k]
  {
    permutation := before;
    var k := 0;
    while k < |rows|
      invariant k <= |rows|
      invariant forall r :: r in permutation <==> r in before || r in rows[..k]
      invariant forall r :: r in before && r !in rows[..k] ==> permutation[r] == before[r]
      invariant forall j :: 0 <= j < k ==> rows[j] in permutation && permutation[rows[j]] == rows[|rows| - 1 - j]
    {
      permutation := permutation[rows[k] := rows[|rows| - 1 - k]];
      assert forall r :: r in rows[..k + 1] <==> r in rows[..k] || r == rows[k];
      k := k + 1;
    }
    assert rows[..k] == rows;
  }

  /** The permutation, new row to old row. */
  method Permutation(data: bytes) returns (permutation: map<row, row>)
    requires |data| == CANDIDATE_BYTES
    ensures Exchanges(data, permutation)
  {
    hide Family, Opposite;
    ghost var legal := Legal(data, CAPACITY);
    var families := GroupByFamily(data, Legal(data, CAPACITY));
    permutation := map[];
    var todo := families.Keys;
    while todo != {}
      invariant todo <= families.Keys
      invariant forall r :: r in permutation <==> r in legal && Family(data, r) !in todo
      invariant forall r :: r in permutation ==> Opposite(data, r, permutation[r])
      decreases |todo|
    {
      var family :| family in todo;
      var rows := families[family];
      FamilyRowsAscending(data, legal, family);
      ghost var before := permutation;
      permutation := PairReversed(rows, permutation);
      todo := todo - {family};
      forall r | r in permutation
        ensures Opposite(data, r, permutation[r])
      {
        if r in rows {
          OppositeOf(data, r, rows, permutation);
        }
      }
    }
  }

  lemma OppositeOf(data: bytes, r: row, rows: seq<row>, permutation: map<row, row>)
    requires |data| == CANDIDATE_BYTES && r in permutation && Rows(data, r) == rows
    requires forall k :: 0 <= k < |rows| ==> rows[k] in permutation && permutation[rows[k]] == rows[|rows| - 1 - k]
    ensures Opposite(data, r, permutation[r])
  {
  }

  /** One slice assignment. */
  method CopyCell(result: array<byte>, data: bytes, region: Region, to: row, from: row)
    requires result.Length == |data| == CANDIDATE_BYTES
    modifies result
    ensures result[..] == Splice(old(result[..]), Start(region, to), Cell(data, region, from))
  {
    var width := region.Width();
    var at, source := Start(region, to), Start(region, from);
    ghost var piece := Cell(data, region, from);
    var k := 0;
    while k < width
      invariant k <= width
      invariant forall i :: 0 <= i < result.Length ==>
                  result[i] == if at <= i < at + k then piece[i - at] else old(result[i])
    {
      result[at + k] := data[source + k];
      k := k + 1;
    }
    ghost var expected := Splice(old(result[..]), at, piece);
    assert |result[..]| == |expected|;
    forall i | 0 <= i < result.Length
      ensures result[..][i] == expected[i]
    {
    }
  }

  /** All three slices of one record. */
  method CopyRecord(result: array<byte>, data: bytes, to: row, from: row)
    requires result.Length == |data| == CANDIDATE_BYTES
    modifies result
    ensures forall region, r: row :: Cell(result[..], region, r) ==
              if r == to then Cell(data, region, from) else Cell(old(result[..]), region, r)
  {
    hide Start, Cell;
    ghost var s0 := result[..];
    CopyCell(result, data, Features, to, from);
    ghost var s1 := result[..];
    CopyCell(result, data, Parameters, to, from);
    ghost var s2 := result[..];
    CopyCell(result, data, Mask, to, from);
    forall region, r: row
      ensures Cell(result[..], region, r) == if r == to then Cell(data, region, from) else Cell(s0, region, r)
    {
      CellSize(data, Features, from);
      CellSize(data, Parameters, from);
      CellSize(data, Mask, from);
      SpliceCell(s0, Features, to, Cell(data, Features, from), region, r);
      SpliceCell(s1, Parameters, to, Cell(data, Parameters, from), region, r);
      SpliceCell(s2, Mask, to, Cell(data, Mask, from), region, r);
    }
  }

  lemma CellSize(data: bytes, region: Region, r: row)
    requires |data| == CANDIDATE_BYTES
    ensures |Cell(data, region, r)| == region.Width()
  {
  }

  /** `reverse_legal_rows`: the moved tensor and the permutation. The moved tensor passes the same checks with
      the same mask and families, and moving it again gives the original bytes back. */
  method ReverseLegalRows(data: bytes, choice: Choice) returns (r: Option<(bytes, map<row, row>)>)
    ensures r.Some? <==> Checked(data, choice)
    ensures r.Some? ==>
              var (moved, permutation) := r.value;
              && |moved| == CANDIDATE_BYTES && Exchanges(data, permutation) && Moves(data, moved, permutation)
              && Checked(moved, choice) && Exchanges(moved, permutation)
              && forall q: row :: MaskByte(moved, q) == MaskByte(data, q) && Family(moved, q) == Family(data, q)
  {
    hide Cell, Family, Legal;
    var legal := CheckedCandidateData(data, choice);
    if legal.None? {
      return None;
    }
    var permutation := Permutation(data);
    var result := new byte[CANDIDATE_BYTES](i requires 0 <= i < CANDIDATE_BYTES => data[i]);
    assert result[..] == data;
    var todo := permutation.Keys;
    while todo != {}
      invariant todo <= permutation.Keys
      invariant forall region, q: row :: Cell(result[..], region, q) ==
                  Cell(data, region, if q in todo then q else Old(permutation, q))
      decreases |todo|
    {
      var newRow :| newRow in todo;
      CopyRecord(result, data, newRow, permutation[newRow]);
      todo := todo - {newRow};
    }
    var moved := result[..];
    ExchangeKept(data, moved, permutation, choice);
    r := Some((moved, permutation));
  }

  /** Moving twice, through the method's own answers, restores the original. */
  method ReverseTwice(data: bytes, choice: Choice) returns (ok: bool, again: bytes)
    ensures ok <==> Checked(data, choice)
    ensures ok ==> again == data
  {
    again := [];
    var first := ReverseLegalRows(data, choice);
    if first.None? {
      return false, [];
    }
    var second := ReverseLegalRows(first.value.0, choice);
    SamePermutation(first.value.0, first.value.1, second.value.1);
    ExchangeTwice(data, first.value.0, second.value.0, first.value.1);
    return true, second.value.0;
  }

  lemma SamePermutation(data: bytes, p: map<row, row>, q: map<row, row>)
    requires |data| == CANDIDATE_BYTES && Exchanges(data, p) && Exchanges(data, q)
    ensures p == q
  {
    hide Family, Opposite;
    forall r | r in p
      ensures r in q && p[r] == q[r]
    {
      SameOpposite(data, r, p[r], q[r]);
    }
    assert p.Keys == q.Keys;
  }

  lemma SameOpposite(data: bytes, r: row, s: row, t: row)
    requires |data| == CANDIDATE_BYTES && r in Legal(data, CAPACITY)
    requires Opposite(data, r, s) && Opposite(data, r, t)
    ensures s == t
  {
    hide Family;
    var rows := Rows(data, r);
    assert r in rows;
    var k :| 0 <= k < |rows| && rows[k] == r;
    assert s == rows[|rows| - 1 - k] && t == rows[|rows| - 1 - k];
  }
}
