/** Generalized advantage estimation over interleaved environments (scripts/dev/audit_credit.py) and over one
    stream (scripts/dev/audit_v2_reward.py), in exact arithmetic. */
module Credit {
  import opened Wrappers

  datatype Row = Row(reward: real, bootstrap: real, nextValue: real, oldValue: real, continuation: real)

  /** The discount and the trace weight. */
  datatype Weights = Weights(gamma: real, trace: real)

  function Power(x: real, n: nat): real {
    if n == 0 then 1.0 else x * Power(x, n - 1)
  }

  function Delta(w: Weights, row: Row): real {
    row.reward + w.gamma * row.bootstrap * row.nextValue - row.oldValue
  }

  /** One backward step: the row's own delta and what came after it, unless the row cuts it off. */
  function Accumulate(w: Weights, row: Row, later: real): real {
    Delta(w, row) + w.gamma * w.trace * row.continuation * later
  }

  /** The advantage of the first row of a stream, by the backward recurrence. */
  function Advantage(w: Weights, stream: seq<Row>): real {
    if stream == [] then 0.0
    else Accumulate(w, stream[0], Advantage(w, stream[1..]))
  }

  /** Rows `index`, `index + environments`, and so on: what one environment does from there. */
  function Stream(rows: seq<Row>, index: nat, environments: nat): seq<Row>
    requires environments > 0
    decreases |rows| - index
  {
    if index >= |rows| then [] else [rows[index]] + Stream(rows, index + environments, environments)
  }

  lemma {:induction false} StreamRows(rows: seq<Row>, index: nat, environments: nat, k: nat)
    requires environments > 0
    ensures k < |Stream(rows, index, environments)| <==> index + k * environments < |rows|
    ensures k < |Stream(rows, index, environments)| ==>
              Stream(rows, index, environments)[k] == rows[index + k * environments]
    decreases k
  {
    if index < |rows| {
      if k > 0 {
        StreamRows(rows, index + environments, environments, k - 1);
        assert index + environments + (k - 1) * environments == index + k * environments;
      }
    } else {
      assert k * environments >= 0;
    }
  }

  // ---- The loops ----

  /** Row `first` of time `time`. */
  function Index(time: nat, first: nat, environments: nat): nat {
    time * environments + first
  }

  /** The first row of environment `e` that is not before row `first` of time `time`. */
  function Next(time: nat, first: nat, environments: nat, e: nat): nat {
    Index(if e >= first then time else time + 1, e, environments)
  }

  /** The environment of a row. */
  function EnvironmentOf(index: nat, environments: nat): nat
    requires environments > 0
  {
    index % environments
  }

  /** One row back. */
  function Before(time: nat, first: nat, environments: nat): (p: (nat, nat))
    requires first < environments && Index(time, first, environments) > 0
    ensures p.1 < environments
  {
    if first > 0 then (time, first - 1) else if time > 0 then (time - 1, environments - 1) else (0, 0)
  }

  /** One row back: only its own environment has a new first row. */
  lemma NextBefore(time: nat, first: nat, environments: nat, e: nat)
    requires e < environments && first < environments && Index(time, first, environments) > 0
    ensures var (t, f) := Before(time, first, environments);
            && Index(t, f, environments) == Index(time, first, environments) - 1
            && EnvironmentOf(Index(t, f, environments), environments) == f
            && Next(t, f, environments, f) == Index(t, f, environments)
            && Next(time, first, environments, f) == Index(t, f, environments) + environments
            && (e != f ==> Next(t, f, environments, e) == Next(time, first, environments, e))
  {
    if first == 0 {
      assert time > 0 && (time - 1) * environments == time * environments - environments;
    }
    assert (time + 1) * environments == time * environments + environments;
    var (t, f) := Before(time, first, environments);
    Remainder(t, environments, f);
  }

  /** `reconstruct`: raw advantages and returns; the normalized ones are not modelled. */
  method Reconstruct(rows: seq<Row>, environments: nat, w: Weights) returns (r: Option<(seq<real>, seq<real>)>)
    ensures r.None? <==> environments == 0 || |rows| % environments != 0
    ensures r.Some? ==>
              && |r.value.0| == |r.value.1| == |rows|
              && forall i :: 0 <= i < |rows| ==>
                   && r.value.0[i] == Advantage(w, Stream(rows, i, environments))
                   && r.value.1[i] == r.value.0[i] + rows[i].oldValue
  {
    if environments == 0 || |rows| % environments != 0 {
      return None;
    }
    Whole(rows, environments, w);
    var advantages := Backward(rows, environments, w, |rows| / environments);
    var targets := new real[|rows|](_ => 0.0);
    for i := 0 to |rows|
      invariant forall k :: 0 <= k < i ==> targets[k] == advantages[k] + rows[k].oldValue
    {
      targets[i] := advantages[i] + rows[i].oldValue;
    }
    r := Some((advantages, targets[..]));
  }

  /** What the accumulators hold when the rows from this one on have been credited. */
  ghost function Credited(rows: seq<Row>, environments: nat, w: Weights, time: nat, first: nat): seq<real>
    requires environments > 0
  {
    seq(environments, e requires 0 <= e < environments =>
      Advantage(w, Stream(rows, Next(time, first, environments, e), environments)))
  }

  /** One row back, one accumulator takes one step. */
  lemma CreditedBefore(rows: seq<Row>, environments: nat, w: Weights, time: nat, first: nat)
    requires first < environments && 0 < Index(time, first, environments) <= |rows|
    ensures var (t, f) := Before(time, first, environments);
            var index := Index(time, first, environments) - 1;
            && Index(t, f, environments) == index && EnvironmentOf(index, environments) == f
            && |Credited(rows, environments, w, time, first)| == environments
            && var step := Accumulate(w, rows[index], Credited(rows, environments, w, time, first)[f]);
               && Credited(rows, environments, w, t, f) == Credited(rows, environments, w, time, first)[f := step]
               && step == Advantage(w, Stream(rows, index, environments))
  {
    hide Index, Next, Accumulate, Advantage, Before, EnvironmentOf, Stream;
    var (t, f) := Before(time, first, environments);
    NextBefore(time, first, environments, first);
    AdvantageStep(rows, Index(t, f, environments), environments, w);
    forall e: nat | e < environments && e != f
      ensures Next(t, f, environments, e) == Next(time, first, environments, e)
    {
      NextBefore(time, first, environments, e);
    }
  }

  /** The backward pass over all rows, with one accumulator for each environment. */
  method Backward(rows: seq<Row>, environments: nat, w: Weights, ghost times: nat) returns (result: seq<real>)
    requires environments > 0 && Index(times, 0, environments) == |rows|
    ensures |result| == |rows|
    ensures forall i :: 0 <= i < |rows| ==> result[i] == Advantage(w, Stream(rows, i, environments))
  {
    AtEnd(rows, environments, w, times);
    hide Index, Next, Accumulate, Advantage, Before, EnvironmentOf, Stream, Credited;
    var accumulators := seq(environments, _ => 0.0);
    var advantages := seq(|rows|, _ => 0.0);
    var index: nat := |rows|;
    ghost var time: nat, first: nat := times, 0;
    while index > 0
      invariant index <= |rows| == |advantages| && index == Index(time, first, environments) && first < environments
      invariant forall i :: index <= i < |rows| ==> advantages[i] == Advantage(w, Stream(rows, i, environments))
      invariant accumulators == Credited(rows, environments, w, time, first)
    {
      CreditedBefore(rows, environments, w, time, first);
      index := index - 1;
      ghost var p := Before(time, first, environments);
      time, first := p.0, p.1;
      var environment := EnvironmentOf(index, environments);
      accumulators := accumulators[environment := Accumulate(w, rows[index], accumulators[environment])];
      advantages := advantages[index := accumulators[environment]];
    }
    result := advantages;
  }

  /** Nothing has been credited after the last row. */
  lemma AtEnd(rows: seq<Row>, environments: nat, w: Weights, times: nat)
    requires environments > 0 && Index(times, 0, environments) == |rows|
    ensures seq(environments, _ => 0.0) == Credited(rows, environments, w, times, 0)
  {
    forall e: nat | e < environments
      ensures Advantage(w, Stream(rows, Next(times, 0, environments, e), environments)) == 0.0
    {
    }
  }

  lemma Whole(rows: seq<Row>, environments: nat, w: Weights)
    requires environments > 0 && |rows| % environments == 0
    ensures Index(|rows| / environments, 0, environments) == |rows|
  {
  }

  lemma AdvantageStep(rows: seq<Row>, index: nat, environments: nat, w: Weights)
    requires environments > 0 && index < |rows|
    ensures Advantage(w, Stream(rows, index, environments)) ==
            Accumulate(w, rows[index], Advantage(w, Stream(rows, index + environments, environments)))
  {
    hide Accumulate;
    var stream := Stream(rows, index, environments);
    assert stream == [rows[index]] + Stream(rows, index + environments, environments);
    assert stream[1..] == Stream(rows, index + environments, environments);
  }

  lemma AtLeast(k: int, n: int)
    requires n > 0
    ensures k >= 1 ==> k * n >= n
    ensures k <= -1 ==> k * n <= -n
  {
    if k >= 1 {
      assert k * n == (k - 1) * n + n && (k - 1) * n >= 0;
    }
    if k <= -1 {
      assert k * n == -((-k - 1) * n + n) && (-k - 1) * n >= 0;
    }
  }

  lemma Residue(q: int, n: int, r: int, p: int, s: int)
    requires 0 <= r < n && 0 <= s < n && q * n + r == p * n + s
    ensures r == s && p == q
  {
    AtLeast(p - q, n);
    assert (p - q) * n == r - s;
  }

  lemma Remainder(q: nat, n: nat, r: nat)
    requires r < n
    ensures (q * n + r) % n == r
  {
    var x := q * n + r;
    Residue(q, n, r, x / n, x % n);
  }

  /** `credit`: one accumulator over one stream, its inputs rounded to float32 by `rounded`. */
  method CreditStream(rows: seq<Row>, w: Weights, rounded: real -> real) returns (result: seq<real>)
    ensures |result| == |rows|
    ensures forall i :: 0 <= i < |rows| ==> result[i] == Advantage(w, RoundAll(rows, rounded)[i..])
  {
    hide Accumulate;
    var advantages := new real[|rows|](_ => 0.0);
    var accumulator := 0.0;
    var index: nat := |rows|;
    ghost var inputs := RoundAll(rows, rounded);
    while index > 0
      invariant index <= |rows| && accumulator == Advantage(w, inputs[index..])
      invariant forall i :: index <= i < |rows| ==> advantages[i] == Advantage(w, inputs[i..])
    {
      index := index - 1;
      assert inputs[index..] == [inputs[index]] + inputs[index + 1..];
      accumulator := Accumulate(w, Rounded(rows[index], rounded), accumulator);
      advantages[index] := accumulator;
    }
    result := advantages[..];
  }

  function Rounded(row: Row, rounded: real -> real): Row {
    row.(reward := rounded(row.reward), nextValue := rounded(row.nextValue), oldValue := rounded(row.oldValue))
  }

  function RoundAll(rows: seq<Row>, rounded: real -> real): (r: seq<Row>)
    ensures |r| == |rows| && forall i :: 0 <= i < |rows| ==> r[i] == Rounded(rows[i], rounded)
  {
    seq(|rows|, i requires 0 <= i < |rows| => Rounded(rows[i], rounded))
  }

  // ---- What the passes compute ----

  /** With one environment the interleaved pass is the single-stream pass, rounding taken as the identity. */
  lemma {:induction false} OneEnvironment(rows: seq<Row>, w: Weights, i: nat)
    requires i <= |rows|
    ensures Advantage(w, Stream(rows, i, 1)) == Advantage(w, RoundAll(rows, x => x)[i..])
  {
    assert RoundAll(rows, x => x) == rows;
    StreamOfOne(rows, i);
  }

  lemma {:induction false} StreamOfOne(rows: seq<Row>, i: nat)
    requires i <= |rows|
    ensures Stream(rows, i, 1) == rows[i..]
    decreases |rows| - i
  {
    if i < |rows| {
      StreamOfOne(rows, i + 1);
      assert rows[i..] == [rows[i]] + rows[i + 1..];
    }
  }

  /** Rows of other environments change nothing: the result of a row depends on its own environment only. */
  lemma NeverMixes(rows: seq<Row>, others: seq<Row>, index: nat, environments: nat, w: Weights)
    requires environments > 0 && |rows| == |others| && index < |rows|
    requires forall k: nat :: index + k * environments < |rows| ==>
               rows[index + k * environments] == others[index + k * environments]
    ensures Advantage(w, Stream(rows, index, environments)) == Advantage(w, Stream(others, index, environments))
  {
    var (a, b) := (Stream(rows, index, environments), Stream(others, index, environments));
    StreamRows(rows, index, environments, |a|);
    StreamRows(others, index, environments, |a|);
    StreamRows(rows, index, environments, |b|);
    StreamRows(others, index, environments, |b|);
    forall k: nat | k < |a|
      ensures a[k] == b[k]
    {
      StreamRows(rows, index, environments, k);
      StreamRows(others, index, environments, k);
    }
    assert a == b;
  }

  /** The weight of row `k` as seen from the first row of a stream. */
  function Weight(w: Weights, stream: seq<Row>, k: nat): real
    requires k <= |stream|
  {
    if k == 0 then 1.0
    else w.gamma * w.trace * stream[0].continuation * Weight(w, stream[1..], k - 1)
  }

  /** The weighted sum of the first `n` deltas. */
  function WeightedSum(w: Weights, stream: seq<Row>, n: nat): real
    requires n <= |stream|
  {
    if n == 0 then 0.0
    else WeightedSum(w, stream, n - 1) + Weight(w, stream, n - 1) * Delta(w, stream[n - 1])
  }

  lemma {:induction false} WeightedSumHead(w: Weights, stream: seq<Row>, n: nat)
    requires 0 < n <= |stream|
    ensures WeightedSum(w, stream, n) == Accumulate(w, stream[0], WeightedSum(w, stream[1..], n - 1))
    decreases n
  {
    hide Delta;
    var c := w.gamma * w.trace * stream[0].continuation;
    if n > 1 {
      WeightedSumHead(w, stream, n - 1);
      var (weight, delta) := (Weight(w, stream[1..], n - 2), Delta(w, stream[n - 1]));
      assert Weight(w, stream, n - 1) == c * weight;
      Distribute(c, WeightedSum(w, stream[1..], n - 2), weight, delta);
    }
  }

  lemma Distribute(c: real, sum: real, weight: real, delta: real)
    ensures c * (sum + weight * delta) == c * sum + (c * weight) * delta
  {
  }

  /** The backward pass is the closed sum of all later deltas of the environment, each with its weight. */
  lemma {:induction false} AdvantageClosed(w: Weights, stream: seq<Row>)
    ensures Advantage(w, stream) == WeightedSum(w, stream, |stream|)
  {
    hide Accumulate;
    if stream != [] {
      WeightedSumHead(w, stream, |stream|);
      AdvantageClosed(w, stream[1..]);
    }
  }

  /** Continuation flags are zero or one. */
  predicate Flagged(stream: seq<Row>) {
    forall k :: 0 <= k < |stream| ==> stream[k].continuation == 0.0 || stream[k].continuation == 1.0
  }

  /** None of the first `n` rows ends its episode. */
  predicate Continues(stream: seq<Row>, n: nat)
    requires n <= |stream|
  {
    forall j :: 0 <= j < n ==> stream[j].continuation == 1.0
  }

  lemma ContinuesTail(stream: seq<Row>, n: nat)
    requires 0 < n <= |stream|
    ensures Continues(stream, n) <==> stream[0].continuation == 1.0 && Continues(stream[1..], n - 1)
  {
    if stream[0].continuation == 1.0 && Continues(stream[1..], n - 1) {
      forall j | 0 <= j < n ensures stream[j].continuation == 1.0 {
        if j > 0 {
          assert stream[1..][j - 1].continuation == 1.0;
        }
      }
    }
  }

  /** Weights are powers of discount times trace weight up to the first row that does not continue, and zero after it. */
  lemma {:induction false} WeightCut(w: Weights, stream: seq<Row>, k: nat)
    requires k <= |stream| && Flagged(stream)
    ensures Weight(w, stream, k) == if Continues(stream, k) then Power(w.gamma * w.trace, k) else 0.0
  {
    if k > 0 {
      assert Flagged(stream[1..]) by {
        assert forall j :: 0 <= j < |stream| - 1 ==> stream[1..][j] == stream[j + 1];
      }
      WeightCut(w, stream[1..], k - 1);
      ContinuesTail(stream, k);
      hide Continues;
      var x := w.gamma * w.trace;
      CutStep(x, stream[0].continuation, Weight(w, stream[1..], k - 1));
      assert Weight(w, stream, k) == x * stream[0].continuation * Weight(w, stream[1..], k - 1);
      assert Power(x, k) == x * Power(x, k - 1);
    }
  }

  lemma CutStep(x: real, continuation: real, weight: real)
    requires continuation == 0.0 || continuation == 1.0
    ensures continuation == 1.0 ==> x * continuation * weight == x * weight
    ensures continuation == 0.0 || weight == 0.0 ==> x * continuation * weight == 0.0
  {
  }

  // ---- Trace weight one ----

  /** Each continuing row's bootstrap value is the next row's own estimate. */
  predicate Chained(stream: seq<Row>) {
    forall k :: 0 <= k < |stream| - 1 && stream[k].continuation == 1.0 ==>
      stream[k].bootstrap * stream[k].nextValue == stream[k + 1].oldValue
  }

  /** How many rows from the first one belong to its episode, within the trace. */
  function EpisodeLength(stream: seq<Row>): (n: nat)
    ensures n <= |stream| && (stream != [] ==> n > 0)
  {
    if stream == [] then 0 else if stream[0].continuation == 0.0 then 1 else 1 + EpisodeLength(stream[1..])
  }

  function DiscountedReward(gamma: real, stream: seq<Row>, n: nat): real
    requires n <= |stream|
  {
    if n == 0 then 0.0 else stream[0].reward + gamma * DiscountedReward(gamma, stream[1..], n - 1)
  }

  /** With trace weight one and chained values, a return is the discounted reward up to the boundary of the
      episode or the trace, plus the discounted bootstrap there: the value estimates in between cancel. */
  lemma {:induction false} ReturnIsDiscountedReward(gamma: real, stream: seq<Row>)
    requires stream != [] && Flagged(stream) && Chained(stream)
    ensures var n := EpisodeLength(stream);
            Advantage(Weights(gamma, 1.0), stream) + stream[0].oldValue ==
            DiscountedReward(gamma, stream, n)
            + Power(gamma, n) * (stream[n - 1].bootstrap * stream[n - 1].nextValue)
  {
    hide Accumulate;
    var w := Weights(gamma, 1.0);
    var row := stream[0];
    var later := stream[1..];
    if row.continuation == 0.0 || later == [] {
      OneRow(gamma, stream);
    } else {
      assert forall k :: 0 <= k < |later| ==> later[k] == stream[k + 1];
      ReturnIsDiscountedReward(gamma, later);
      var n := EpisodeLength(later);
      Continuing(gamma, stream);
      hide Accumulate, Advantage, DiscountedReward, Power, EpisodeLength;
      var boundary := stream[n].bootstrap * stream[n].nextValue;
      Rearrange(gamma, row, Advantage(w, later), later[0].oldValue, DiscountedReward(gamma, later, n), Power(gamma, n),
                boundary);
    }
  }

  lemma OneRow(gamma: real, stream: seq<Row>)
    requires stream != [] && (stream[0].continuation == 0.0 || stream[1..] == [])
    ensures EpisodeLength(stream) == 1
    ensures Advantage(Weights(gamma, 1.0), stream) + stream[0].oldValue ==
            DiscountedReward(gamma, stream, 1) + Power(gamma, 1) * (stream[0].bootstrap * stream[0].nextValue)
  {
    hide Accumulate;
    assert Power(gamma, 1) == gamma * Power(gamma, 0) == gamma;
    assert DiscountedReward(gamma, stream, 1) == stream[0].reward;
    AtBoundary(gamma, stream[0], Advantage(Weights(gamma, 1.0), stream[1..]));
  }

  lemma Continuing(gamma: real, stream: seq<Row>)
    requires stream != [] && stream[0].continuation != 0.0
    ensures var w, n := Weights(gamma, 1.0), EpisodeLength(stream[1..]);
            && Advantage(w, stream) == Accumulate(w, stream[0], Advantage(w, stream[1..]))
            && EpisodeLength(stream) == n + 1 && Power(gamma, n + 1) == gamma * Power(gamma, n)
            && DiscountedReward(gamma, stream, n + 1) ==
               stream[0].reward + gamma * DiscountedReward(gamma, stream[1..], n)
  {
    hide Accumulate;
  }

  lemma AtBoundary(gamma: real, row: Row, advantage: real)
    requires row.continuation == 0.0 || advantage == 0.0
    ensures Accumulate(Weights(gamma, 1.0), row, advantage) + row.oldValue ==
            row.reward + gamma * (row.bootstrap * row.nextValue)
  {
  }

  lemma Rearrange(gamma: real, row: Row, advantage: real, value: real, reward: real, power: real, boundary: real)
    requires row.bootstrap * row.nextValue == value && row.continuation == 1.0
    requires advantage + value == reward + power * boundary
    ensures Accumulate(Weights(gamma, 1.0), row, advantage) + row.oldValue ==
            (row.reward + gamma * reward) + (gamma * power) * boundary
  {
    assert gamma * row.bootstrap * row.nextValue == gamma * value;
    assert gamma * (advantage + value) == gamma * (reward + power * boundary);
  }
}
