/** The capital ledger of scripts/dev/asset_potential_v2.py: potential-based shaping over one finite episode,
    in exact arithmetic. */
module AssetPotential {
  import opened Wrappers
  import Credit

  const MAX_HORIZON := 512

  /** What one decision brings: the native reward, its capital component, and how the episode stands after it. */
  datatype Transition = Transition(reward: real, capital: real, supported: bool, terminal: bool, truncated: bool)

  datatype Shaped = Shaped(nativeReward: real, reward: real, before: real, after: real, capitalAdded: real,
                           shaping: real, decisions: nat)

  function Discounted(gamma: real, xs: seq<real>): real {
    if xs == [] then 0.0 else xs[0] + gamma * Discounted(gamma, xs[1..])
  }

  /** An amount `n` steps away. */
  function Weighted(gamma: real, n: nat, x: real): real {
    Credit.Power(gamma, n) * x
  }

  lemma {:induction false} DiscountedSnoc(gamma: real, xs: seq<real>, x: real)
    ensures Discounted(gamma, xs + [x]) == Discounted(gamma, xs) + Weighted(gamma, |xs|, x)
  {
    if xs == [] {
      assert [x][1..] == [];
      assert Discounted(gamma, [x]) == x + gamma * Discounted(gamma, []);
    } else {
      assert (xs + [x])[1..] == xs[1..] + [x];
      DiscountedSnoc(gamma, xs[1..], x);
      Scale(gamma, Discounted(gamma, xs[1..]), Credit.Power(gamma, |xs| - 1), x);
    }
  }

  lemma Scale(gamma: real, sum: real, power: real, x: real)
    ensures gamma * (sum + power * x) == gamma * sum + (gamma * power) * x
  {
  }

  lemma {:induction false} PowerRange(gamma: real, n: nat)
    requires 0.0 <= gamma <= 1.0
    ensures 0.0 <= Credit.Power(gamma, n) <= 1.0
  {
    if n > 0 {
      PowerRange(gamma, n - 1);
      UnitProduct(gamma, Credit.Power(gamma, n - 1));
    }
  }

  lemma ProductSign(x: real, y: real)
    requires 0.0 <= x && 0.0 <= y
    ensures 0.0 <= x * y
    ensures x > 0.0 && y > 0.0 ==> x * y > 0.0
  {
  }

  lemma UnitProduct(x: real, y: real)
    requires 0.0 <= x <= 1.0 && 0.0 <= y
    ensures 0.0 <= x * y <= y
    ensures x > 0.0 ==> (x * y == 0.0 <==> y == 0.0)
  {
    ProductSign(x, y);
    ProductSign(1.0 - x, y);
    assert (1.0 - x) * y == y - x * y;
  }

  function Shaping(gamma: real, before: real, after: real): real {
    gamma * after - before
  }

  lemma WeightedStep(gamma: real, n: nat, before: real, after: real, native: real)
    ensures Weighted(gamma, n, native + Shaping(gamma, before, after)) + Weighted(gamma, n, before) ==
            Weighted(gamma, n, native) + Weighted(gamma, n + 1, after)
  {
    Telescope(Credit.Power(gamma, n), gamma, before, after, native);
  }

  lemma Telescope(power: real, gamma: real, before: real, after: real, native: real)
    ensures power * (native + (gamma * after - before)) + power * before == power * native + (gamma * power) * after
  {
  }

  lemma WeightedRange(gamma: real, n: nat, x: real)
    requires 0.0 <= gamma <= 1.0 && 0.0 <= x
    ensures 0.0 <= Weighted(gamma, n, x) <= x
    ensures gamma > 0.0 ==> (Weighted(gamma, n, x) == 0.0 <==> x == 0.0)
  {
    PowerRange(gamma, n);
    if gamma > 0.0 {
      PowerPositive(gamma, n);
    }
    UnitProduct(Credit.Power(gamma, n), x);
  }

  /** One more step keeps the balance between shaped and native returns. */
  lemma Balance(gamma: real, rewards: seq<real>, natives: seq<real>, before: real, after: real, native: real)
    requires |rewards| == |natives|
    requires Discounted(gamma, rewards) == Discounted(gamma, natives) + Weighted(gamma, |natives|, before)
    ensures Discounted(gamma, rewards + [native + Shaping(gamma, before, after)]) ==
            Discounted(gamma, natives + [native]) + Weighted(gamma, |natives| + 1, after)
  {
    hide Discounted, Weighted, Shaping;
    DiscountedSnoc(gamma, rewards, native + Shaping(gamma, before, after));
    DiscountedSnoc(gamma, natives, native);
    WeightedStep(gamma, |natives|, before, after, native);
  }

  /** The transitions `apply` takes in an open ledger. */
  predicate Acceptable(t: Transition) {
    t.supported && 0.0 <= -t.capital <= 1.0
  }

  class Ledger {
    const gamma: real
    const horizon: int
    var potential: real
    var decisions: int
    var closed: bool
    /** The native and the shaped rewards so far, and whether the last transition was terminal. */
    ghost var natives: seq<real>
    ghost var rewards: seq<real>
    ghost var terminal: bool

    constructor (gamma: real, horizon: int)
      requires 0.0 <= gamma <= 1.0 && 1 <= horizon <= MAX_HORIZON
      ensures Valid() && this.gamma == gamma && this.horizon == horizon && !closed && decisions == 0
      ensures natives == [] && rewards == []
    {
      this.gamma, this.horizon := gamma, horizon;
      potential, decisions, closed := 0.0, 0, false;
      natives, rewards, terminal := [], [], false;
    }

    /** On every run: the potential is between zero and the number of decisions, and shaping has added exactly
        the discounted final potential. */
    ghost predicate Valid()
      reads this
    {
      && 0.0 <= gamma <= 1.0 && 1 <= horizon <= MAX_HORIZON
      && 0 <= decisions <= horizon && 0.0 <= potential <= decisions as real
      && |natives| == |rewards| == decisions
      && (terminal ==> potential == 0.0 && closed)
      && Discounted(gamma, rewards) == Discounted(gamma, natives) + Weighted(gamma, decisions, potential)
    }

    /** `apply`: it refuses a closed or exhausted ledger and an unacceptable transition, and nothing else; in
        particular the check of the ledger's range never fires. */
    method Apply(t: Transition) returns (r: Option<Shaped>)
      requires Valid()
      modifies this
      ensures Valid()
      ensures r.Some? <==> !old(closed) && old(decisions) < horizon && Acceptable(t)
      ensures r.None? ==> potential == old(potential) && decisions == old(decisions) && closed == old(closed)
      ensures r.None? ==> natives == old(natives) && rewards == old(rewards) && terminal == old(terminal)
      ensures r.Some? ==>
                && decisions == old(decisions) + 1 && closed == (t.terminal || t.truncated) && terminal == t.terminal
                && natives == old(natives) + [t.reward] && rewards == old(rewards) + [r.value.reward]
                && potential == (if t.terminal then 0.0 else old(potential) - t.capital)
                && r.value == Shaped(t.reward, t.reward + Shaping(gamma, old(potential), potential), old(potential),
                                     potential, -t.capital, Shaping(gamma, old(potential), potential), decisions)
    {
      hide Discounted, Weighted, Shaping;
      if closed || decisions >= horizon {
        return None;
      }
      if !t.supported {
        return None;
      }
      var spent := -t.capital;
      if !(0.0 <= spent <= 1.0) {
        return None;
      }
      var before := potential;
      var after := if t.terminal then 0.0 else before + spent;
      decisions := decisions + 1;
      var inRange := 0.0 <= after <= decisions as real && decisions <= horizon;
      assert inRange;
      var shaping := Shaping(gamma, before, after);
      var reward := t.reward + shaping;
      Balance(gamma, rewards, natives, before, after, t.reward);
      natives, rewards, terminal := natives + [t.reward], rewards + [reward], t.terminal;
      potential := after;
      closed := t.terminal || t.truncated;
      r := if inRange then Some(Shaped(t.reward, reward, before, after, spent, shaping, decisions)) else None;
    }

    /** An episode that ended in a terminal state keeps its native discounted return; one that did not gains
        the discounted potential it stopped with, at most one for each decision. */
    lemma ReturnKept()
      requires Valid()
      ensures terminal ==> Discounted(gamma, rewards) == Discounted(gamma, natives)
      ensures 0.0 <= Discounted(gamma, rewards) - Discounted(gamma, natives) <= decisions as real
      ensures gamma > 0.0 ==>
                (Discounted(gamma, rewards) == Discounted(gamma, natives) <==> potential == 0.0)
    {
      hide Discounted, Weighted;
      WeightedRange(gamma, decisions, potential);
    }
  }

  lemma {:induction false} PowerPositive(gamma: real, n: nat)
    requires gamma > 0.0
    ensures Credit.Power(gamma, n) > 0.0
  {
    if n > 0 {
      PowerPositive(gamma, n - 1);
      ProductSign(gamma, Credit.Power(gamma, n - 1));
    }
  }

  /** `__init__`. */
  method Open(gamma: real, horizon: int) returns (r: Option<Ledger>)
    ensures r.Some? <==> 0.0 <= gamma <= 1.0 && 1 <= horizon <= MAX_HORIZON
    ensures r.Some? ==> fresh(r.value) && r.value.Valid() && r.value.gamma == gamma && r.value.horizon == horizon
    ensures r.Some? ==> !r.value.closed && r.value.decisions == 0
  {
    if !(0.0 <= gamma <= 1.0) || !(1 <= horizon <= MAX_HORIZON) {
      return None;
    }
    var ledger := new Ledger(gamma, horizon);
    r := Some(ledger);
  }

  // ---- The same on values ----

  /** The ledger after each of `ts`, from `potential`. */
  function Potentials(potential: real, ts: seq<Transition>): (p: seq<real>)
    ensures |p| == |ts|
    decreases ts
  {
    if ts == [] then []
    else
      var after := if ts[0].terminal then 0.0 else potential - ts[0].capital;
      [after] + Potentials(after, ts[1..])
  }

  /** The shaping of each step. */
  function Shapings(gamma: real, potential: real, ts: seq<Transition>): seq<real>
    decreases ts
  {
    if ts == [] then []
    else
      var after := if ts[0].terminal then 0.0 else potential - ts[0].capital;
      [Shaping(gamma, potential, after)] + Shapings(gamma, after, ts[1..])
  }

  /** The discounted sum of all shaping is the discounted last potential less the first one. */
  lemma {:induction false} ShapingTelescopes(gamma: real, potential: real, ts: seq<Transition>)
    ensures var last := if ts == [] then potential else Potentials(potential, ts)[|ts| - 1];
            Discounted(gamma, Shapings(gamma, potential, ts)) == Weighted(gamma, |ts|, last) - potential
    decreases ts
  {
    if ts != [] {
      hide Weighted, Shaping;
      var after := if ts[0].terminal then 0.0 else potential - ts[0].capital;
      ShapingTelescopes(gamma, after, ts[1..]);
      var s := Shapings(gamma, potential, ts);
      assert s[1..] == Shapings(gamma, after, ts[1..]);
      var last := Potentials(potential, ts)[|ts| - 1];
      assert |ts| > 1 ==> last == Potentials(after, ts[1..])[|ts| - 2];
      Sooner(gamma, |ts| - 1, last, potential, after, Discounted(gamma, s[1..]));
    }
  }

  lemma Sooner(gamma: real, n: nat, last: real, before: real, after: real, sum: real)
    requires sum == Weighted(gamma, n, last) - after
    ensures Shaping(gamma, before, after) + gamma * sum == Weighted(gamma, n + 1, last) - before
  {
    Unfold(gamma, Credit.Power(gamma, n), last, after);
  }

  lemma Unfold(gamma: real, power: real, last: real, after: real)
    ensures gamma * after + gamma * (power * last - after) == (gamma * power) * last
  {
  }
}
