/** Candidate tensors of the action audits (scripts/dev/audit_action_inputs_v2.py): rows of features and
    parameters with a legality mask, and the exchange of legal rows within their families. */
module Candidates {
  import opened Wrappers
  import opened Bytes

  const CAPACITY := 4096
  const FEATURE_WIDTH := 32
  const PARAMETER_WIDTH := 16
  const PARAMETER_OFFSET := 524288
  const MASK_OFFSET := 786432
  const CANDIDATE_BYTES := 790528
  const FAMILIES := 12

  /** What a person chose: the legal rows shown, the row taken, and its family. */
  datatype Choice = Choice(legalRows: seq<int>, actionRow: int, actionFamily: int)

  // ---- Layout ----

  datatype Region = Features | Parameters | Mask {
    function Offset(): nat {
      match this
      case Features => 0
      case Parameters => PARAMETER_OFFSET
      case Mask => MASK_OFFSET
    }

    function Width(): nat {
      match this
      case Features => FEATURE_WIDTH * 4
      case Parameters => PARAMETER_WIDTH * 4
      case Mask => 1
    }
  }

  type row = r: nat | r < CAPACITY

  function Start(region: Region, r: row): (at: nat)
    ensures at + region.Width() <= CANDIDATE_BYTES
  {
    region.Offset() + r * region.Width()
  }

  /** The bytes of one row in one region. */
  function Cell(data: bytes, region: Region, r: row): bytes
    requires |data| == CANDIDATE_BYTES
  {
    data[Start(region, r)..Start(region, r) + region.Width()]
  }

  /** The first parameter of a row names its family. */
  function Family(data: bytes, r: row): u32
    requires |data| == CANDIDATE_BYTES
  {
    U32At(Cell(data, Parameters, r), 0)
  }

  /** Every byte belongs to a cell. */
  lemma CellAt(i: nat) returns (region: Region, r: row)
    requires i < CANDIDATE_BYTES
    ensures Start(region, r) <= i < Start(region, r) + region.Width()
  {
    if i < PARAMETER_OFFSET {
      region, r := Features, i / 128;
    } else if i < MASK_OFFSET {
      region, r := Parameters, (i - PARAMETER_OFFSET) / 64;
    } else {
      region, r := Mask, i - MASK_OFFSET;
    }
  }

  /** Tensors with equal cells are equal. */
  lemma SameCells(a: bytes, b: bytes)
    requires |a| == |b| == CANDIDATE_BYTES
    requires forall region, r: row :: Cell(a, region, r) == Cell(b, region, r)
    ensures a == b
  {
    forall i: nat | i < CANDIDATE_BYTES
      ensures a[i] == b[i]
    {
      var region, r := CellAt(i);
      assert Cell(a, region, r)[i - Start(region, r)] == Cell(b, region, r)[i - Start(region, r)];
    }
  }

  /** Two different cells have no byte in common. */
  lemma CellsApart(g: Region, r: row, h: Region, s: row)
    requires g != h || r != s
    ensures Start(g, r) + g.Width() <= Start(h, s) || Start(h, s) + h.Width() <= Start(g, r)
  {
  }

  function Splice(s: bytes, at: nat, piece: bytes): (t: bytes)
    requires at + |piece| <= |s|
    ensures |t| == |s|
  {
    s[..at] + piece + s[at + |piece|..]
  }

  lemma SpliceSlice(s: bytes, at: nat, piece: bytes, lo: nat, hi: nat)
    requires at + |piece| <= |s| && lo <= hi <= |s|
    ensures hi <= at || at + |piece| <= lo ==> Splice(s, at, piece)[lo..hi] == s[lo..hi]
    ensures lo == at && hi == at + |piece| ==> Splice(s, at, piece)[lo..hi] == piece
  {
    var t := Splice(s, at, piece);
    assert forall i :: 0 <= i < |s| && (i < at || at + |piece| <= i) ==> t[i] == s[i];
    if hi <= at || at + |piece| <= lo {
      assert t[lo..hi] == s[lo..hi];
    }
  }

  lemma SpliceCell(s: bytes, g: Region, r: row, piece: bytes, h: Region, q: row)
    requires |s| == CANDIDATE_BYTES && |piece| == g.Width()
    ensures var t := Splice(s, Start(g, r), piece);
            Cell(t, h, q) == if g == h && r == q then piece else Cell(s, h, q)
  {
    if g != h || r != q {
      CellsApart(g, r, h, q);
    }
    hide Start, Splice;
    SpliceSlice(s, Start(g, r), piece, Start(h, q), Start(h, q) + h.Width());
  }

  // ---- Legal rows ----

  function MaskByte(data: bytes, r: row): byte
    requires |data| == CANDIDATE_BYTES
  {
    data[MASK_OFFSET + r]
  }

  function Legal(data: bytes, n: nat): (rows: seq<row>)
    requires |data| == CANDIDATE_BYTES && n <= CAPACITY
    ensures forall r: row :: r in rows <==> r < n && MaskByte(data, r) != 0
    ensures forall i, j :: 0 <= i < j < |rows| ==> rows[i] < rows[j]
  {
    if n == 0 then []
    else
      var rows, last: row := Legal(data, n - 1), n - 1;
      assert forall i :: 0 <= i < |rows| ==> rows[i] in rows;
      if MaskByte(data, last) != 0 then rows + [last] else rows
  }

  /** `checked_candidate_data`. */
  ghost predicate Checked(data: bytes, choice: Choice) {
    && |data| == CANDIDATE_BYTES
    && (forall r: row :: MaskByte(data, r) == 0 || MaskByte(data, r) == 1)
    && Legal(data, CAPACITY) != [] && choice.legalRows == Legal(data, CAPACITY)
    && 0 <= choice.actionRow < CAPACITY && choice.actionRow in Legal(data, CAPACITY)
    && 0 <= choice.actionFamily < FAMILIES && Family(data, choice.actionRow) == choice.actionFamily
  }

  method CheckedCandidateData(data: bytes, choice: Choice) returns (legal: Option<seq<row>>)
    ensures legal.Some? <==> Checked(data, choice)
    ensures legal.Some? ==> legal.value == Legal(data, CAPACITY)
  {
    if |data| != CANDIDATE_BYTES {
      return None;
    }
    var rows: seq<row> := [];
    var n := 0;
    while n < CAPACITY
      invariant n <= CAPACITY && rows == Legal(data, n)
      invariant forall r: row :: r < n ==> MaskByte(data, r) == 0 || MaskByte(data, r) == 1
    {
      var r: row := n;
      if MaskByte(data, r) != 0 && MaskByte(data, r) != 1 {
        return None;
      }
      if MaskByte(data, r) != 0 {
        rows := rows + [r];
      }
      n := n + 1;
    }
    if rows == [] || choice.legalRows != rows {
      return None;
    }
    if !(0 <= choice.actionRow < CAPACITY) || choice.actionRow !in rows || !(0 <= choice.actionFamily < FAMILIES) {
      return None;
    }
    if Family(data, choice.actionRow) != choice.actionFamily {
      return None;
    }
    legal := Some(rows);
  }

  // ---- The tensor, byte by byte ----

  /** The family of row `r`: the little-endian number at its first parameter. */
  function FamilyAt(data: bytes, r: row): int
    requires |data| == 790_528
  {
    var at := 524_288 + 64 * r;
    data[at] as int + 0x100 * data[at + 1] as int + 0x1_0000 * data[at + 2] as int + 0x100_0000 * data[at + 3] as int
  }

  function MarkAt(data: bytes, r: int): int
    requires |data| == 790_528 && 0 <= r < 4096
  {
    data[786_432 + r]
  }

  /** Where the parts of a row lie: 32 features and 16 parameters of four bytes each, and one mask byte. */
  lemma RowLayout(data: bytes, r: row)
    requires |data| == 790_528
    ensures Cell(data, Features, r) == data[128 * r..128 * r + 128]
    ensures Cell(data, Parameters, r) == data[524_288 + 64 * r..524_288 + 64 * r + 64]
    ensures Cell(data, Mask, r) == [data[786_432 + r]] && MaskByte(data, r) == data[786_432 + r]
    ensures Family(data, r) == FamilyAt(data, r)
  {
    var cell := Cell(data, Parameters, r);
    LoadedBytes(cell, 0);
    LoadedBytes(cell, 2);
  }

  predicate MaskRule(data: bytes)
    requires |data| == 790_528
  {
    forall r :: 0 <= r < 4096 ==> MarkAt(data, r) <= 1
  }

  /** The rows with a one in the mask, in order. */
  ghost predicate RowsRule(data: bytes, rows: seq<int>)
    requires |data| == 790_528
  {
    && (forall r :: r in rows <==> 0 <= r < 4096 && MarkAt(data, r) == 1)
    && forall i, j :: 0 <= i < j < |rows| ==> rows[i] < rows[j]
  }

  lemma LegalObeys(data: bytes)
    requires |data| == 790_528 && MaskRule(data)
    ensures RowsRule(data, Legal(data, 4096))
  {
    var rows: seq<int> := Legal(data, 4096);
    forall r
      ensures r in rows <==> 0 <= r < 4096 && MarkAt(data, r) == 1
    {
      if 0 <= r < 4096 {
        var q: row := r;
        assert q in Legal(data, 4096) <==> MaskByte(data, q) != 0;
      } else {
        assert r !in rows;
      }
    }
  }

  lemma LegalExactly(data: bytes, rows: seq<int>)
    requires |data| == 790_528 && MaskRule(data)
    ensures rows == Legal(data, 4096) <==> RowsRule(data, rows)
  {
    hide MarkAt, MaskRule, Legal;
    LegalObeys(data);
    if RowsRule(data, rows) {
      SameAscending(rows, Legal(data, 4096));
    }
  }

  lemma MaskExactly(data: bytes)
    requires |data| == 790_528
    ensures MaskRule(data) <==> forall r: row :: MaskByte(data, r) == 0 || MaskByte(data, r) == 1
  {
    if forall r: row :: MaskByte(data, r) == 0 || MaskByte(data, r) == 1 {
      forall r | 0 <= r < 4096 ensures MarkAt(data, r) <= 1 {
        var q: row := r;
        assert MaskByte(data, q) == 0 || MaskByte(data, q) == 1;
      }
    }
    if MaskRule(data) {
      forall r: row ensures MaskByte(data, r) == 0 || MaskByte(data, r) == 1 {
        assert MarkAt(data, r) <= 1;
      }
    }
  }

  /** A choice is accepted exactly when the mask holds zeros and ones, the rows shown are those with a one, in order,
      and the row taken is one of them and carries the family recorded, one of twelve. */
  lemma CheckedExactly(data: bytes, choice: Choice)
    ensures Checked(data, choice) <==>
      && |data| == 790_528
      && MaskRule(data) && RowsRule(data, choice.legalRows)
      && choice.actionRow in choice.legalRows
      && 0 <= choice.actionFamily < 12
      && 0 <= choice.actionRow < 4096 && FamilyAt(data, choice.actionRow) == choice.actionFamily
  {
    hide FamilyAt, Family, MaskRule, RowsRule, Legal, MaskByte;
    if |data| == 790_528 {
      MaskExactly(data);
      if MaskRule(data) {
        LegalExactly(data, choice.legalRows);
        if 0 <= choice.actionRow < 4096 {
          RowLayout(data, choice.actionRow);
          if choice.legalRows == Legal(data, 4096) {
            assert choice.actionRow in choice.legalRows <==> choice.actionRow in Legal(data, 4096);
          }
        }
      }
    }
  }

  /** Ascending lists with the same elements are equal. */
  lemma {:induction false} SameAscending(a: seq<int>, b: seq<int>)
    requires forall i, j :: 0 <= i < j < |a| ==> a[i] < a[j]
    requires forall i, j :: 0 <= i < j < |b| ==> b[i] < b[j]
    requires forall x :: x in a <==> x in b
    ensures a == b
    decreases |a|
  {
    if a != [] {
      assert a[0] in a;
    }
    if b != [] {
      assert b[0] in b;
    }
    if a != [] && b != [] {
      assert a[0] == b[0];
      assert forall x :: x in a[1..] <==> x in a && x != a[0];
      assert forall x :: x in b[1..] <==> x in b && x != b[0];
      SameAscending(a[1..], b[1..]);
    }
  }

  // ---- The exchange ----

  /** The rows of one family, in order. */
  function FamilyRows(data: bytes, rows: seq<row>, family: u32): (f: seq<row>)
    requires |data| == CANDIDATE_BYTES
    ensures forall r :: r in f <==> r in rows && Family(data, r) == family
  {
    if rows == [] then []
    else
      var last := rows[|rows| - 1];
      var init := FamilyRows(data, rows[..|rows| - 1], family);
      assert forall r :: r in rows <==> r in rows[..|rows| - 1] || r == last;
      if Family(data, last) == family then init + [last] else init
  }

  predicate Ascending(rows: seq<row>) {
    forall i, j :: 0 <= i < j < |rows| ==> rows[i] < rows[j]
  }

  lemma {:induction false} FamilyRowsAscending(data: bytes, rows: seq<row>, family: u32)
    requires |data| == CANDIDATE_BYTES && Ascending(rows)
    ensures Ascending(FamilyRows(data, rows, family))
    decreases |rows|
  {
    if rows != [] {
      var last := |rows| - 1;
      FamilyRowsAscending(data, rows[..last], family);
      var init := FamilyRows(data, rows[..last], family);
      forall i | 0 <= i < |init|
        ensures init[i] < rows[last]
      {
        assert init[i] in init;
        assert init[i] in rows[..last];
      }
    }
  }

  /** `s` is as far from the back of the family of `r` as `r` is from its front. */
  ghost predicate Opposite(data: bytes, r: row, s: row)
    requires |data| == CANDIDATE_BYTES
  {
    forall k :: 0 <= k < |Rows(data, r)| && Rows(data, r)[k] == r ==> s == Rows(data, r)[|Rows(data, r)| - 1 - k]
  }

  /** Within each family, the k-th row from the front and the k-th from the back change places. */
  ghost predicate Exchanges(data: bytes, permutation: map<row, row>)
    requires |data| == CANDIDATE_BYTES
  {
    && (forall r :: r in permutation <==> r in Legal(data, CAPACITY))
    && forall r :: r in permutation ==> Opposite(data, r, permutation[r])
  }

  /** The legal rows of the family of `r`. */
  function Rows(data: bytes, r: row): seq<row>
    requires |data| == CANDIDATE_BYTES
  {
    FamilyRows(data, Legal(data, CAPACITY), Family(data, r))
  }

  /** The exchange is a family-preserving bijection of the legal rows, its own inverse. */
  lemma ExchangeInvolution(data: bytes, permutation: map<row, row>, r: row)
    requires |data| == CANDIDATE_BYTES && Exchanges(data, permutation) && r in permutation
    ensures permutation[r] in permutation && permutation[permutation[r]] == r
    ensures Family(data, permutation[r]) == Family(data, r)
  {
    hide Family;
    var rows := Rows(data, r);
    assert r in rows;
    var k :| 0 <= k < |rows| && rows[k] == r;
    var s := rows[|rows| - 1 - k];
    assert permutation[r] == s && s in rows;
    assert Rows(data, s) == rows;
    assert rows[|rows| - 1 - (|rows| - 1 - k)] == r;
  }

  /** Where the record of row `r` comes from. */
  function Old(permutation: map<row, row>, r: row): row {
    if r in permutation then permutation[r] else r
  }

  /** Every record of `moved` is the record of `data` that the permutation names. */
  ghost predicate Moves(data: bytes, moved: bytes, permutation: map<row, row>)
    requires |data| == |moved| == CANDIDATE_BYTES
  {
    forall region, r: row :: Cell(moved, region, r) == Cell(data, region, Old(permutation, r))
  }

  lemma MovedFacts(data: bytes, moved: bytes, permutation: map<row, row>, r: row)
    requires |data| == |moved| == CANDIDATE_BYTES && Moves(data, moved, permutation)
    ensures MaskByte(moved, r) == MaskByte(data, Old(permutation, r))
    ensures Family(moved, r) == Family(data, Old(permutation, r))
  {
    hide Old;
    assert Cell(moved, Mask, r)[0] == MaskByte(moved, r);
    assert Cell(data, Mask, Old(permutation, r))[0] == MaskByte(data, Old(permutation, r));
  }

  /** The exchange keeps the mask and the family of every row, so it is the same exchange for the moved tensor. */
  lemma ExchangeKept(data: bytes, moved: bytes, permutation: map<row, row>, choice: Choice)
    requires Checked(data, choice) && |moved| == CANDIDATE_BYTES && Moves(data, moved, permutation)
    requires Exchanges(data, permutation)
    ensures forall r: row :: MaskByte(moved, r) == MaskByte(data, r)
    ensures forall r: row :: Family(moved, r) == Family(data, r)
    ensures Checked(moved, choice) && Exchanges(moved, permutation)
  {
    KeptEverywhere(data, moved, permutation, choice);
    assert |data| == CANDIDATE_BYTES;
    hide Family, MaskByte, Moves, Exchanges, Checked;
    SameLegal(data, moved, CAPACITY);
    CheckedKept(data, moved, choice);
    ExchangesKept(data, moved, permutation);
  }

  lemma KeptEverywhere(data: bytes, moved: bytes, permutation: map<row, row>, choice: Choice)
    requires Checked(data, choice) && |moved| == CANDIDATE_BYTES && Moves(data, moved, permutation)
    requires Exchanges(data, permutation)
    ensures forall r: row :: MaskByte(moved, r) == MaskByte(data, r) && Family(moved, r) == Family(data, r)
  {
    assert |data| == CANDIDATE_BYTES;
    hide Family, MaskByte, Moves, Exchanges, Checked;
    forall r: row
      ensures MaskByte(moved, r) == MaskByte(data, r) && Family(moved, r) == Family(data, r)
    {
      KeptAt(data, moved, permutation, choice, r);
    }
  }

  lemma ExchangesKept(data: bytes, moved: bytes, permutation: map<row, row>)
    requires |data| == |moved| == CANDIDATE_BYTES && Exchanges(data, permutation)
    requires Legal(moved, CAPACITY) == Legal(data, CAPACITY) && forall r: row :: Family(moved, r) == Family(data, r)
    ensures Exchanges(moved, permutation)
  {
    hide Family, Legal, Opposite, Rows;
    forall r | r in permutation
      ensures Opposite(moved, r, permutation[r])
    {
      SameRows(data, moved, r);
      OppositeKept(data, moved, r, permutation[r]);
    }
  }

  lemma CheckedKept(data: bytes, moved: bytes, choice: Choice)
    requires Checked(data, choice) && |moved| == CANDIDATE_BYTES && Legal(moved, CAPACITY) == Legal(data, CAPACITY)
    requires forall r: row :: MaskByte(moved, r) == MaskByte(data, r) && Family(moved, r) == Family(data, r)
    ensures Checked(moved, choice)
  {
    hide Family, MaskByte, Legal;
  }

  lemma KeptAt(data: bytes, moved: bytes, permutation: map<row, row>, choice: Choice, r: row)
    requires Checked(data, choice) && |moved| == CANDIDATE_BYTES && Moves(data, moved, permutation)
    requires Exchanges(data, permutation)
    ensures MaskByte(moved, r) == MaskByte(data, r) && Family(moved, r) == Family(data, r)
  {
    hide Family, MaskByte, Opposite;
    MovedFacts(data, moved, permutation, r);
    if r in permutation {
      ExchangeInvolution(data, permutation, r);
      assert permutation[r] in Legal(data, CAPACITY) && r in Legal(data, CAPACITY);
    }
  }

  lemma SameRows(a: bytes, b: bytes, r: row)
    requires |a| == |b| == CANDIDATE_BYTES && Legal(a, CAPACITY) == Legal(b, CAPACITY)
    requires forall q: row :: Family(a, q) == Family(b, q)
    ensures Rows(a, r) == Rows(b, r)
  {
    hide Family;
    SameFamilyRows(a, b, Legal(a, CAPACITY), Family(a, r));
  }

  lemma OppositeKept(a: bytes, b: bytes, r: row, s: row)
    requires |a| == |b| == CANDIDATE_BYTES && Rows(a, r) == Rows(b, r)
    ensures Opposite(a, r, s) <==> Opposite(b, r, s)
  {
    hide Rows;
  }

  lemma {:induction false} SameLegal(a: bytes, b: bytes, n: nat)
    requires |a| == |b| == CANDIDATE_BYTES && n <= CAPACITY
    requires forall r: row :: MaskByte(a, r) == MaskByte(b, r)
    ensures Legal(a, n) == Legal(b, n)
  {
    if n > 0 {
      SameLegal(a, b, n - 1);
    }
  }

  lemma {:induction false} SameFamilyRows(a: bytes, b: bytes, rows: seq<row>, family: u32)
    requires |a| == |b| == CANDIDATE_BYTES && forall r: row :: Family(a, r) == Family(b, r)
    ensures FamilyRows(a, rows, family) == FamilyRows(b, rows, family)
    decreases |rows|
  {
    hide Family;
    if rows != [] {
      SameFamilyRows(a, b, rows[..|rows| - 1], family);
    }
  }

  /** Doing it twice restores the original bytes. */
  lemma ExchangeTwice(data: bytes, moved: bytes, again: bytes, permutation: map<row, row>)
    requires |data| == |moved| == |again| == CANDIDATE_BYTES && Exchanges(data, permutation)
    requires Moves(data, moved, permutation) && Moves(moved, again, permutation)
    ensures again == data
  {
    hide Cell;
    forall region, r: row
      ensures Cell(again, region, r) == Cell(data, region, r)
    {
      var s := Old(permutation, r);
      assert Cell(again, region, r) == Cell(moved, region, s) == Cell(data, region, Old(permutation, s));
      if r in permutation {
        ExchangeInvolution(data, permutation, r);
      }
    }
    SameCells(again, data);
  }
}
