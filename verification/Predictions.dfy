/** `prediction_result` (scripts/dev/audit_action_inputs_v2.py), and that it does not depend on the order in
    which the legal rows of a family are shown. Probabilities are exact numbers. */
module Predictions {
  import opened Wrappers
  import opened Bytes
  import opened Candidates

  const TOLERANCE := 0.000001
  const SUM_TOLERANCE := 0.00001

  datatype Prediction = Prediction(probabilities: seq<real>, selected: int)

  datatype Outcome = Outcome(targetRow: row, greedyRow: row, originalGreedyRow: row, targetProbability: real,
                             runnerUp: real, margin: real, tied: seq<row>, nearTied: seq<row>, exact: bool, unique: bool)

  // ---- Sums and maxima ----

  function Sum(xs: seq<real>): real {
    if xs == [] then 0.0 else Sum(xs[..|xs| - 1]) + xs[|xs| - 1]
  }

  function Max(p: seq<real>, rows: seq<row>): (m: real)
    requires rows != [] && |p| == CAPACITY
    ensures forall r :: r in rows ==> p[r] <= m
    ensures exists r :: r in rows && p[r] == m
  {
    var last := rows[|rows| - 1];
    if |rows| == 1 then p[last]
    else
      var m := Max(p, rows[..|rows| - 1]);
      assert forall r :: r in rows <==> r in rows[..|rows| - 1] || r == last;
      if p[last] > m then p[last] else m
  }

  /** The other rows, in order. */
  function Others(rows: seq<row>, target: row): (s: seq<row>)
    ensures forall r :: r in s <==> r in rows && r != target
  {
    if rows == [] then []
    else
      var init, last := Others(rows[..|rows| - 1], target), rows[|rows| - 1];
      assert forall r :: r in rows <==> r in rows[..|rows| - 1] || r == last;
      if last != target then init + [last] else init
  }

  /** The rows whose probability is within `reach` of `level`, in order. */
  function Near(p: seq<real>, rows: seq<row>, level: real, reach: real): (s: seq<row>)
    requires |p| == CAPACITY
    ensures forall r :: r in s <==> r in rows && Distance(p[r], level) <= reach
  {
    if rows == [] then []
    else
      var init, last := Near(p, rows[..|rows| - 1], level, reach), rows[|rows| - 1];
      assert forall r :: r in rows <==> r in rows[..|rows| - 1] || r == last;
      if Distance(p[last], level) <= reach then init + [last] else init
  }

  function Distance(x: real, y: real): real {
    if x >= y then x - y else y - x
  }

  /** The row that shows `original`. */
  function Showing(rows: seq<row>, permutation: map<row, row>, original: row): (s: Option<row>)
    ensures s.Some? ==> s.value in rows && s.value in permutation && permutation[s.value] == original
    ensures s.None? ==> forall r :: r in rows && r in permutation ==> permutation[r] != original
  {
    if rows == [] then None
    else if rows[0] in permutation && permutation[rows[0]] == original then Some(rows[0])
    else Showing(rows[1..], permutation, original)
  }

  // ---- prediction_result ----

  /** The checks on a prediction: a distribution over the legal rows whose greedy row is a maximum. */
  predicate Legitimate(prediction: Prediction, legal: seq<row>)
    requires legal != []
  {
    var p := prediction.probabilities;
    && |p| == CAPACITY && InRange(p)
    && 0 <= prediction.selected < CAPACITY && prediction.selected in legal
    && (forall r: row :: r !in legal ==> p[r] == 0.0)
    && Distance(Sum(p), 1.0) <= SUM_TOLERANCE
    && p[prediction.selected] == Max(p, legal)
  }

  function Assess(prediction: Prediction, legal: seq<row>, target: row, original: row): Outcome
    requires legal != [] && target in legal && Legitimate(prediction, legal)
  {
    var p := prediction.probabilities;
    var selected: row := prediction.selected;
    var competitors := Others(legal, target);
    var runnerUp := if competitors == [] then 0.0 else Max(p, competitors);
    var margin := p[target] - runnerUp;
    Outcome(target, selected, original, p[target], runnerUp, margin,
            Near(p, legal, Max(p, legal), 0.0), Near(p, competitors, p[target], TOLERANCE),
            selected == target, selected == target && margin > TOLERANCE)
  }

  /** `prediction_result`; with a permutation, the target is the row that shows the chosen one. */
  function PredictionResult(prediction: Prediction, legal: seq<row>, actionRow: row, permutation: Option<map<row, row>>)
    : Option<Outcome>
    requires legal != [] && actionRow in legal
    requires permutation.Some? ==> forall r :: r in legal ==> r in permutation.value
  {
    match permutation
    case None =>
      if Legitimate(prediction, legal) then Some(Assess(prediction, legal, actionRow, prediction.selected)) else None
    case Some(exchange) =>
      match Showing(legal, exchange, actionRow)
      case None => None
      case Some(target) =>
        if Legitimate(prediction, legal) then Some(Assess(prediction, legal, target, exchange[prediction.selected])) else None
  }

  // ---- The same, row by row ----

  /** A distribution over the legal rows, up to a hundred-thousandth, whose greedy row is one of the most likely. */
  lemma LegitimateExactly(prediction: Prediction, legal: seq<row>)
    requires legal != []
    ensures Legitimate(prediction, legal) <==>
      var p := prediction.probabilities;
      && |p| == 4096 && (forall r :: 0 <= r < 4096 ==> 0.0 <= p[r] <= 1.0)
      && (forall r: row :: r !in legal ==> p[r] == 0.0)
      && 0.99999 <= Sum(p) <= 1.00001
      && 0 <= prediction.selected < 4096 && prediction.selected in legal
      && forall r :: r in legal ==> p[r] <= p[prediction.selected]
  {
    hide Sum;
  }

  /** The findings: how likely the target and its strongest rival are, which rows are tied with the greedy row and
      which are within a millionth of the target, and whether the target is greedy, and alone so. */
  lemma AssessExactly(prediction: Prediction, legal: seq<row>, target: row, original: row)
    requires legal != [] && target in legal && Legitimate(prediction, legal)
    ensures var (o, p) := (Assess(prediction, legal, target, original), prediction.probabilities);
      && o.targetRow == target && o.greedyRow == prediction.selected && o.originalGreedyRow == original
      && o.targetProbability == p[target] && o.margin == p[target] - o.runnerUp
      && (if exists r :: r in legal && r != target
          then (forall r :: r in legal && r != target ==> p[r] <= o.runnerUp)
               && exists r :: r in legal && r != target && p[r] == o.runnerUp
          else o.runnerUp == 0.0)
      && (forall r :: r in o.tied <==> r in legal && p[r] == p[prediction.selected])
      && (forall r :: r in o.nearTied <==>
            r in legal && r != target && -0.000001 <= p[r] - p[target] <= 0.000001)
      && (o.exact <==> prediction.selected == target)
      && (o.unique <==> prediction.selected == target && p[target] - o.runnerUp > 0.000001)
  {
    hide Sum, Max, Others, Near;
    var competitors := Others(legal, target);
    if competitors == [] {
      assert forall r :: r in legal ==> r == target;
    } else {
      assert competitors[0] in competitors;
    }
  }

  // ---- When the target is uniquely greedy ----

  /** The target is the unique greedy choice exactly when it is the greedy row and no other row is nearly as likely. */
  lemma UniqueExactly(prediction: Prediction, legal: seq<row>, target: row, original: row)
    requires legal != [] && target in legal && Legitimate(prediction, legal)
    ensures var o := Assess(prediction, legal, target, original);
            o.unique <==> o.exact && o.nearTied == []
  {
    hide Sum;
    var p := prediction.probabilities;
    var competitors := Others(legal, target);
    if prediction.selected == target {
      if competitors == [] {
        OnlyRow(p, legal, target);
      } else {
        NearTied(p, competitors, target);
      }
    }
  }

  /** A row that attains the maximum. */
  lemma {:induction false} Attained(p: seq<real>, rows: seq<row>) returns (r: row)
    requires rows != [] && |p| == CAPACITY
    ensures r in rows && p[r] == Max(p, rows)
    decreases |rows|
  {
    var last := |rows| - 1;
    if |rows| == 1 || p[rows[last]] > Max(p, rows[..last]) {
      r := rows[last];
    } else {
      r := Attained(p, rows[..last]);
    }
  }

  /** Below a maximum, the runner-up is out of reach exactly when no competitor is near. */
  lemma NearTied(p: seq<real>, competitors: seq<row>, target: row)
    requires |p| == CAPACITY && competitors != [] && forall r :: r in competitors ==> p[r] <= p[target]
    ensures var near := Near(p, competitors, p[target], TOLERANCE);
            p[target] - Max(p, competitors) > TOLERANCE <==> near == []
  {
    var near := Near(p, competitors, p[target], TOLERANCE);
    var best := Attained(p, competitors);
    if near != [] {
      var r := near[0];
      assert r in near;
      assert p[r] <= p[best];
    } else {
      assert best !in near;
    }
  }

  /** When only one row is legal, it has all the probability. */
  lemma OnlyRow(p: seq<real>, legal: seq<row>, target: row)
    requires |p| == CAPACITY && (forall r: row :: r !in legal ==> p[r] == 0.0)
    requires (forall r :: r in legal ==> r == target) && Distance(Sum(p), 1.0) <= SUM_TOLERANCE
    ensures p[target] >= 1.0 - SUM_TOLERANCE
  {
    assert forall r: row :: r != target ==> p[r] == 0.0;
    SumOfOne(p, CAPACITY, target);
    assert p[..CAPACITY] == p;
  }

  lemma {:induction false} SumOfOne(p: seq<real>, n: nat, target: nat)
    requires n <= |p| && forall r: nat :: r < n && r != target ==> p[r] == 0.0
    ensures Sum(p[..n]) == if target < n then p[target] else 0.0
  {
    if n > 0 {
      assert p[..n][..n - 1] == p[..n - 1];
      SumOfOne(p, n - 1, target);
    }
  }

  // ---- The same prediction, shown in another order ----

  /** The legal rows are exchanged in pairs. */
  ghost predicate Symmetric(permutation: map<row, row>, legal: seq<row>) {
    && (forall r :: r in permutation <==> r in legal)
    && (forall r :: r in permutation ==> permutation[r] in permutation && permutation[permutation[r]] == r)
  }

  /** What a policy that sees only the records answers for the exchanged rows. */
  function Exchanged(prediction: Prediction, permutation: map<row, row>): Prediction
    requires |prediction.probabilities| == CAPACITY
  {
    Prediction(seq(CAPACITY, r requires 0 <= r < CAPACITY => prediction.probabilities[Old(permutation, r)]),
               if 0 <= prediction.selected < CAPACITY then Old(permutation, prediction.selected)
               else prediction.selected)
  }

  /** The sum over a set of rows. */
  ghost function SumOn(p: seq<real>, rows: set<row>): real
    requires |p| == CAPACITY
  {
    if rows == {} then 0.0 else
      var r :| r in rows;
      p[r] + SumOn(p, rows - {r})
  }

  ghost function Below(n: nat): (rows: set<row>)
    requires n <= CAPACITY
    ensures forall r: row :: r in rows <==> r < n
  {
    if n == 0 then {} else
      var last: row := n - 1;
      Below(n - 1) + {last}
  }

  lemma {:induction false} SumOnRemove(p: seq<real>, rows: set<row>, r: row)
    requires |p| == CAPACITY && r in rows
    ensures SumOn(p, rows) == p[r] + SumOn(p, rows - {r})
    decreases |rows|
  {
    var s :| s in rows && SumOn(p, rows) == p[s] + SumOn(p, rows - {s});
    if s != r {
      SumOnRemove(p, rows - {s}, r);
      SumOnRemove(p, rows - {r}, s);
      assert rows - {s} - {r} == rows - {r} - {s};
    }
  }

  lemma {:induction false} SumIsSumOn(p: seq<real>, n: nat)
    requires |p| == CAPACITY && n <= CAPACITY
    ensures Sum(p[..n]) == SumOn(p, Below(n))
  {
    var rows := Below(n);
    if n == 0 {
      assert rows == {};
    } else {
      var last: row := n - 1;
      SumIsSumOn(p, n - 1);
      assert p[..n][..n - 1] == p[..n - 1];
      SumOnRemove(p, rows, last);
      assert rows - {last} == Below(n - 1);
    }
  }

  /** Exchanging pairs does not change a sum over rows closed under the exchange. */
  lemma {:induction false} SumOnExchanged(p: seq<real>, q: seq<real>, permutation: map<row, row>, rows: set<row>)
    requires |p| == |q| == CAPACITY && forall r: row :: q[r] == p[Old(permutation, r)]
    requires forall r :: r in rows ==> Old(permutation, r) in rows && Old(permutation, Old(permutation, r)) == r
    ensures SumOn(q, rows) == SumOn(p, rows)
    decreases |rows|
  {
    hide Old;
    if rows != {} {
      var r :| r in rows;
      var s := Old(permutation, r);
      SumOnRemove(p, rows, r);
      SumOnRemove(q, rows, r);
      if s == r {
        SumOnExchanged(p, q, permutation, rows - {r});
      } else {
        SumOnRemove(p, rows - {r}, s);
        SumOnRemove(q, rows - {r}, s);
        SumOnExchanged(p, q, permutation, rows - {r} - {s});
      }
    }
  }

  lemma OldTwice(permutation: map<row, row>, legal: seq<row>, r: row)
    requires Symmetric(permutation, legal)
    ensures Old(permutation, Old(permutation, r)) == r
    ensures r in legal <==> Old(permutation, r) in legal
  {
  }

  lemma SumExchanged(prediction: Prediction, permutation: map<row, row>, legal: seq<row>)
    requires |prediction.probabilities| == CAPACITY && Symmetric(permutation, legal)
    ensures Sum(Exchanged(prediction, permutation).probabilities) == Sum(prediction.probabilities)
  {
    hide Sum, Symmetric, Old;
    var (p, q) := (prediction.probabilities, Exchanged(prediction, permutation).probabilities);
    var rows := Below(CAPACITY);
    SumIsSumOn(p, CAPACITY);
    SumIsSumOn(q, CAPACITY);
    assert p[..CAPACITY] == p && q[..CAPACITY] == q;
    forall r | r in rows
      ensures Old(permutation, r) in rows && Old(permutation, Old(permutation, r)) == r
    {
      OldTwice(permutation, legal, r);
    }
    SumOnExchanged(p, q, permutation, rows);
  }

  /** A maximum over rows is the maximum over the rows that show them. */
  lemma MaxExchanged(p: seq<real>, q: seq<real>, permutation: map<row, row>, rows: seq<row>, shown: seq<row>)
    requires |p| == |q| == CAPACITY && forall r: row :: q[r] == p[Old(permutation, r)]
    requires forall r: row {:trigger Old(permutation, r)} :: Old(permutation, Old(permutation, r)) == r
    requires forall r: row {:trigger Old(permutation, r)} :: r in shown <==> Old(permutation, r) in rows
    requires rows != [] && shown != []
    ensures Max(q, shown) == Max(p, rows)
  {
    hide Old;
    var a := Attained(q, shown);
    assert Old(permutation, a) in rows;
    var b := Attained(p, rows);
    assert Old(permutation, Old(permutation, b)) in rows;
    assert Old(permutation, b) in shown;
  }

  lemma LegitimateExchanged(prediction: Prediction, permutation: map<row, row>, legal: seq<row>)
    requires |prediction.probabilities| == CAPACITY && Symmetric(permutation, legal) && legal != []
    ensures Legitimate(Exchanged(prediction, permutation), legal) <==> Legitimate(prediction, legal)
  {
    hide Sum, Max;
    var other := Exchanged(prediction, permutation);
    var (p, q) := (prediction.probabilities, other.probabilities);
    forall r: row
      ensures q[r] == p[Old(permutation, r)] && p[r] == q[Old(permutation, r)]
      ensures Old(permutation, Old(permutation, r)) == r && (r in legal <==> Old(permutation, r) in legal)
    {
      OldTwice(permutation, legal, r);
    }
    hide Old, Symmetric, Exchanged;
    SumExchanged(prediction, permutation, legal);
    MaxExchanged(p, q, permutation, legal, legal);
    SameRange(p, q, permutation);
    SameRange(q, p, permutation);
  }

  predicate InRange(p: seq<real>)
    requires |p| == CAPACITY
  {
    forall r :: 0 <= r < CAPACITY ==> 0.0 <= p[r] <= 1.0
  }

  lemma SameRange(p: seq<real>, q: seq<real>, permutation: map<row, row>)
    requires |p| == |q| == CAPACITY && forall r: row :: q[r] == p[Old(permutation, r)]
    ensures InRange(p) ==> InRange(q)
  {
    hide Old;
    if InRange(p) {
      forall r | 0 <= r < CAPACITY ensures 0.0 <= q[r] <= 1.0 {
        var s: row := r;
        assert q[s] == p[Old(permutation, s)];
      }
    }
  }

  /** The same findings, with rows named as they are shown. */
  ghost predicate SameFindings(o: Outcome, shown: Outcome, permutation: map<row, row>) {
    && shown.targetRow == Old(permutation, o.targetRow) && shown.greedyRow == Old(permutation, o.greedyRow)
    && shown.originalGreedyRow == o.originalGreedyRow && shown.targetProbability == o.targetProbability
    && shown.runnerUp == o.runnerUp && shown.margin == o.margin && shown.exact == o.exact && shown.unique == o.unique
    && (forall r: row {:trigger Old(permutation, r)} :: r in shown.tied <==> Old(permutation, r) in o.tied)
    && (forall r: row {:trigger Old(permutation, r)} :: r in shown.nearTied <==> Old(permutation, r) in o.nearTied)
  }

  lemma NearExchanged(p: seq<real>, q: seq<real>, permutation: map<row, row>, rows: seq<row>, shown: seq<row>,
                      level: real, reach: real)
    requires |p| == |q| == CAPACITY && forall r: row :: q[r] == p[Old(permutation, r)]
    requires forall r: row {:trigger Old(permutation, r)} :: r in shown <==> Old(permutation, r) in rows
    ensures forall r: row {:trigger Old(permutation, r)} :: r in Near(q, shown, level, reach) <==> Old(permutation, r) in Near(p, rows, level, reach)
  {
    hide Old, Distance;
  }

  /** `q` is `p` with the exchanged rows' probabilities in exchanged places. */
  ghost predicate Shows(p: seq<real>, q: seq<real>, permutation: map<row, row>, legal: seq<row>) {
    && |p| == |q| == CAPACITY && (forall r: row :: q[r] == p[Old(permutation, r)])
    && (forall r: row {:trigger Old(permutation, r)} :: Old(permutation, Old(permutation, r)) == r)
    && (forall r: row {:trigger Old(permutation, r)} :: r in legal <==> Old(permutation, r) in legal)
  }

  lemma ExchangedShows(prediction: Prediction, permutation: map<row, row>, legal: seq<row>)
    requires |prediction.probabilities| == CAPACITY && Symmetric(permutation, legal)
    ensures Shows(prediction.probabilities, Exchanged(prediction, permutation).probabilities, permutation, legal)
  {
    forall r: row
      ensures Old(permutation, Old(permutation, r)) == r && (r in legal <==> Old(permutation, r) in legal)
    {
      OldTwice(permutation, legal, r);
    }
  }

  /** The numbers the outcome is made of. */
  lemma MeasuresExchanged(p: seq<real>, q: seq<real>, permutation: map<row, row>, legal: seq<row>, target: row)
    requires Shows(p, q, permutation, legal) && target in legal
    ensures var shown := Old(permutation, target);
            var (mine, theirs) := (Others(legal, target), Others(legal, shown));
            && shown in legal && q[shown] == p[target] && Max(q, legal) == Max(p, legal)
            && (mine == [] <==> theirs == []) && (mine != [] ==> Max(q, theirs) == Max(p, mine))
            && (forall r: row {:trigger Old(permutation, r)} :: r in Near(q, legal, Max(p, legal), 0.0) <==>
                                 Old(permutation, r) in Near(p, legal, Max(p, legal), 0.0))
            && (forall r: row {:trigger Old(permutation, r)} :: r in Near(q, theirs, p[target], TOLERANCE) <==>
                                 Old(permutation, r) in Near(p, mine, p[target], TOLERANCE))
  {
    hide Old, Max, Near;
    var shown := Old(permutation, target);
    var (mine, theirs) := (Others(legal, target), Others(legal, shown));
    OthersExchanged(permutation, legal, target);
    hide Others;
    MaxExchanged(p, q, permutation, legal, legal);
    if mine != [] {
      MaxExchanged(p, q, permutation, mine, theirs);
    }
    NearExchanged(p, q, permutation, legal, legal, Max(p, legal), 0.0);
    NearExchanged(p, q, permutation, mine, theirs, p[target], TOLERANCE);
  }

  lemma AssessExchanged(prediction: Prediction, permutation: map<row, row>, legal: seq<row>, target: row)
    requires |prediction.probabilities| == CAPACITY && Symmetric(permutation, legal)
    requires legal != [] && target in legal && Legitimate(prediction, legal)
    ensures Legitimate(Exchanged(prediction, permutation), legal) && Old(permutation, target) in legal
    ensures SameFindings(Assess(prediction, legal, target, prediction.selected),
                         Assess(Exchanged(prediction, permutation), legal, Old(permutation, target),
                                prediction.selected),
                         permutation)
  {
    LegitimateExchanged(prediction, permutation, legal);
    ExchangedShows(prediction, permutation, legal);
    SelectedShown(prediction, permutation, legal);
    OldTwice(permutation, legal, target);
    hide Legitimate, Symmetric, Shows, Assess, Exchanged, SameFindings;
    AssessShown(prediction, Exchanged(prediction, permutation), permutation, legal, target);
  }

  lemma AssessShown(prediction: Prediction, other: Prediction, permutation: map<row, row>, legal: seq<row>, target: row)
    requires legal != [] && target in legal && Legitimate(prediction, legal) && Legitimate(other, legal)
    requires Shows(prediction.probabilities, other.probabilities, permutation, legal)
    requires 0 <= prediction.selected < CAPACITY && other.selected == Old(permutation, prediction.selected)
    ensures Old(permutation, target) in legal
    ensures SameFindings(Assess(prediction, legal, target, prediction.selected),
                         Assess(other, legal, Old(permutation, target), prediction.selected), permutation)
  {
    hide Assess, Legitimate, Sum, Max, Near, Others, Old;
    var (p, q) := (prediction.probabilities, other.probabilities);
    MeasuresExchanged(p, q, permutation, legal, target);
    AssessFields(prediction, legal, target, prediction.selected);
    AssessFields(other, legal, Old(permutation, target), prediction.selected);
    assert Old(permutation, Old(permutation, target)) == target;
    assert Old(permutation, Old(permutation, prediction.selected)) == prediction.selected;
  }

  lemma AssessFields(prediction: Prediction, legal: seq<row>, target: row, original: row)
    requires legal != [] && target in legal && Legitimate(prediction, legal)
    ensures |prediction.probabilities| == CAPACITY && 0 <= prediction.selected < CAPACITY
    ensures var (o, p, others) := (Assess(prediction, legal, target, original), prediction.probabilities,
                                   Others(legal, target));
            && o.targetRow == target && o.greedyRow == prediction.selected && o.originalGreedyRow == original
            && o.targetProbability == p[target] && o.runnerUp == (if others == [] then 0.0 else Max(p, others))
            && o.margin == p[target] - o.runnerUp && o.tied == Near(p, legal, Max(p, legal), 0.0)
            && o.nearTied == Near(p, others, p[target], TOLERANCE) && o.exact == (prediction.selected == target)
            && o.unique == (o.exact && o.margin > TOLERANCE)
  {
    hide Sum, Max, Near, Others;
  }

  lemma OthersExchanged(permutation: map<row, row>, legal: seq<row>, target: row)
    requires forall r: row {:trigger Old(permutation, r)} :: Old(permutation, Old(permutation, r)) == r && (r in legal <==> Old(permutation, r) in legal)
    ensures var (mine, theirs) := (Others(legal, target), Others(legal, Old(permutation, target)));
            && (forall r: row {:trigger Old(permutation, r)} :: r in theirs <==> Old(permutation, r) in mine)
            && (mine == [] <==> theirs == [])
  {
    hide Old;
    var (mine, theirs) := (Others(legal, target), Others(legal, Old(permutation, target)));
    if mine != [] {
      assert mine[0] in mine;
      assert Old(permutation, mine[0]) in theirs;
    }
    if theirs != [] {
      assert theirs[0] in theirs;
      assert Old(permutation, theirs[0]) in mine;
    }
  }

  /** What is found does not depend on the order the rows were shown in. */
  lemma OrderDoesNotMatter(prediction: Prediction, permutation: map<row, row>, legal: seq<row>, actionRow: row)
    requires |prediction.probabilities| == CAPACITY && Symmetric(permutation, legal)
    requires legal != [] && actionRow in legal
    ensures var plain := PredictionResult(prediction, legal, actionRow, None);
            var shown := PredictionResult(Exchanged(prediction, permutation), legal, actionRow, Some(permutation));
            && (shown.Some? <==> plain.Some?)
            && (plain.Some? ==> SameFindings(plain.value, shown.value, permutation))
  {
    hide Legitimate, Assess, SameFindings;
    LegitimateExchanged(prediction, permutation, legal);
    var target := Showing(legal, permutation, actionRow);
    assert permutation[actionRow] in legal && permutation[permutation[actionRow]] == actionRow;
    assert target == Some(permutation[actionRow]);
    if Legitimate(prediction, legal) {
      AssessExchanged(prediction, permutation, legal, actionRow);
      SelectedShown(prediction, permutation, legal);
    }
  }

  lemma SelectedShown(prediction: Prediction, permutation: map<row, row>, legal: seq<row>)
    requires |prediction.probabilities| == CAPACITY && Symmetric(permutation, legal) && legal != []
    requires Legitimate(prediction, legal)
    ensures var s := Exchanged(prediction, permutation).selected;
            && 0 <= s < CAPACITY && s in permutation && permutation[s] == prediction.selected
            && 0 <= prediction.selected < CAPACITY && s == Old(permutation, prediction.selected)
  {
    hide Sum, Max, InRange;
  }

  /** The exchange the audit makes is such a one. */
  lemma ExchangeSymmetric(data: bytes, permutation: map<row, row>)
    requires |data| == CANDIDATE_BYTES && Exchanges(data, permutation)
    ensures Symmetric(permutation, Legal(data, CAPACITY))
  {
    hide Family, Legal;
    forall r | r in permutation
      ensures permutation[r] in permutation && permutation[permutation[r]] == r
    {
      ExchangeInvolution(data, permutation, r);
    }
  }
}
