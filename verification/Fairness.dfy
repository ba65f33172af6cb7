/** Exact proportional fairness with fixed weights, and the round-robin of
    equal stakes. */
module Fairness {
  import opened Sums
  import opened Accumulator

  /** The priorities after t heights of the same weights, from zero. */
  ghost function Run(w: seq<nat>, t: nat): (p: seq<int>)
    ensures |p| == |w|
  {
    if t == 0 then Zeros(|w|) else Step(Run(w, t - 1), w)
  }

  /** Who is elected at height h, counting from 1. */
  ghost function ElectedAt(w: seq<nat>, h: nat): int
    requires h > 0
  {
    Winner(Run(w, h - 1), w)
  }

  /** How often member i is elected in the first t heights. */
  ghost function Elections(w: seq<nat>, i: int, t: nat): nat {
    if t == 0 then 0 else Elections(w, i, t - 1) + if ElectedAt(w, t) == i then 1 else 0
  }

  /** A priority is what its weight earned less what its elections cost. */
  lemma {:induction false} Account(w: seq<nat>, i: int, t: nat)
    requires 0 <= i < |w|
    ensures Run(w, t)[i] == t * w[i] - Total(w) * Elections(w, i, t)
  {
    hide Step, Total, Winner;
    if t > 0 {
      Account(w, i, t - 1);
      StepEntry(Run(w, t - 1), w, i);
      OneMore(t - 1, w[i]);
      OneMore(Elections(w, i, t - 1), Total(w));
    }
  }

  lemma OneMore(n: int, x: int)
    ensures (n + 1) * x == n * x + x && x * (n + 1) == x * n + x
  {
  }

  /** Priorities sum to zero, stay above minus the total, and weightless members
      never move. */
  lemma {:induction false} Kept(w: seq<nat>, t: nat)
    requires 0 < Total(w)
    ensures Total(Run(w, t)) == 0
    ensures forall i | 0 <= i < |w| :: 0 - Total(w) < Run(w, t)[i] && (w[i] == 0 ==> Run(w, t)[i] == 0)
  {
    hide Step, Total, Winner;
    if t == 0 {
      TotalZeros(Run(w, 0), |w|);
      TotalIs(Run(w, 0));
    } else {
      var p := Run(w, t - 1);
      Kept(w, t - 1);
      WinnerPositive(p, w);
      WinnerHasWeight(p, w);
      StepTotal(p, w);
      forall i | 0 <= i < |w|
        ensures 0 - Total(w) < Run(w, t)[i] && (w[i] == 0 ==> Run(w, t)[i] == 0)
      {
        StepEntry(p, w, i);
      }
    }
  }

  lemma WinnerHasWeight(p: seq<int>, w: seq<nat>)
    requires |p| == |w| && Winner(p, w) >= 0
    ensures w[Winner(p, w)] > 0
  {
  }

  /** After one period every priority is zero again and each member has been
      elected exactly its weight times. */
  lemma PeriodExact(w: seq<nat>)
    requires 0 < Total(w)
    ensures forall i | 0 <= i < |w| :: Run(w, Total(w))[i] == 0
    ensures forall i | 0 <= i < |w| :: Elections(w, i, Total(w)) == w[i]
  {
    hide Run, Elections, Total;
    var period := Total(w);
    var p := Run(w, period);
    Kept(w, period);
    forall i | 0 <= i < |w| ensures 0 <= p[i] && p[i] == period * (w[i] - Elections(w, i, period)) {
      Account(w, i, period);
      Owed(period, w[i], Elections(w, i, period));
    }
    TotalIs(p);
    ZeroTotal(p, |p|);
    forall i | 0 <= i < |w| ensures Elections(w, i, period) == w[i] {
      NoZeroDivisor(period, w[i] - Elections(w, i, period));
    }
  }

  lemma Distribute(n: int, a: int, b: int)
    ensures n * a - n * b == n * (a - b)
  {
  }

  lemma Owed(period: nat, weight: nat, elections: nat)
    requires 0 - period < period * weight - period * elections
    ensures period * weight - period * elections == period * (weight - elections)
    ensures 0 <= period * (weight - elections)
  {
    var short := elections - weight;
    Distribute(period, weight, elections);
    assert period * (weight - elections) == -(period * short);
    if short >= 1 {
      MulAtLeast(period, short);
    } else {
      assert 0 <= period * (weight - elections);
    }
  }

  lemma MulAtLeast(n: nat, d: int)
    requires 1 <= d
    ensures n <= n * d
  {
    assert 0 <= n * (d - 1);
  }

  lemma NoZeroDivisor(a: nat, b: int)
    requires 0 < a && a * b == 0
    ensures b == 0
  {
  }

  /** The schedule repeats every period. */
  lemma {:induction false} PeriodRepeats(w: seq<nat>, t: nat)
    requires 0 < Total(w)
    ensures Run(w, Total(w) + t) == Run(w, t)
    ensures ElectedAt(w, Total(w) + t + 1) == ElectedAt(w, t + 1)
  {
    hide Step, Total, Winner;
    if t == 0 {
      PeriodExact(w);
      assert Run(w, Total(w)) == Zeros(|w|);
    } else {
      PeriodRepeats(w, t - 1);
    }
  }

  /** Every prefix of t heights elects a member fewer than t*w/T + 1 times. */
  lemma PrefixShare(w: seq<nat>, i: int, t: nat)
    requires 0 <= i < |w| && 0 < Total(w)
    ensures Total(w) * Elections(w, i, t) < t * w[i] + Total(w)
  {
    hide Run, Elections, Total;
    Account(w, i, t);
    Kept(w, t);
  }

  // ----- equal stakes -----

  /** The priorities r heights into a round of equal stakes. */
  ghost predicate MidRound(p: seq<int>, n: nat, stake: nat, r: nat) {
    |p| == n && forall i | 0 <= i < n :: p[i] == r * stake - if i < r then n * stake else 0
  }

  ghost predicate Equal(w: seq<nat>, stake: nat) {
    forall i | 0 <= i < |w| :: w[i] == stake
  }

  lemma {:induction false} EqualStakes(w: seq<nat>, stake: nat, t: nat)
    requires 0 < stake && 0 < |w| && Equal(w, stake)
    ensures MidRound(Run(w, t), |w|, stake, t % |w|)
  {
    hide Step, Equal, MidRound;
    var n := |w|;
    if t == 0 {
      RoundStart(n, stake);
    } else {
      var r := (t - 1) % n;
      EqualStakes(w, stake, t - 1);
      EqualStep(w, stake, Run(w, t - 1), r);
      NextIndex(t - 1, n);
      assert t % n == if r + 1 == n then 0 else r + 1;
    }
  }

  lemma RoundStart(n: nat, stake: nat)
    ensures MidRound(Zeros(n), n, stake, 0)
  {
  }

  lemma NextIndex(t: nat, n: nat)
    requires 0 < n
    ensures (t + 1) % n == if t % n + 1 == n then 0 else t % n + 1
  {
    var q, r := t / n, t % n;
    if r + 1 < n {
      Remainder(t + 1, n, q, r + 1);
    } else {
      OneMore(q, n);
      Remainder(t + 1, n, q + 1, 0);
    }
  }

  lemma Remainder(x: int, n: nat, q: int, r: nat)
    requires 0 < n && x == n * q + r && r < n
    ensures x % n == r
  {
    var d := x / n - q;
    assert n * d == r - x % n;
    if d >= 1 {
      MulAtLeast(n, d);
    } else if d <= -1 {
      MulAtLeast(n, -d);
    }
  }

  lemma EqualStep(w: seq<nat>, stake: nat, p: seq<int>, r: nat)
    requires 0 < stake && |p| == |w| && r < |w| && Equal(w, stake) && MidRound(p, |w|, stake, r)
    ensures Winner(p, w) == r
    ensures MidRound(Step(p, w), |w|, stake, if r + 1 == |w| then 0 else r + 1)
  {
    var n, up := |w|, Raise(p, w);
    TotalConstant(w, n, stake);
    OneMore(r, stake);
    MulAtLeast(stake, n);
    forall i | 0 <= i < n ensures up[i] == (r + 1) * stake - if i < r then n * stake else 0 {
    }
    var k := Winner(p, w);
    assert w[r] > 0 && up[r] == (r + 1) * stake;
    assert k >= 0 && up[r] <= up[k];
    assert k >= r;
    forall i | 0 <= i < n ensures Step(p, w)[i] == (r + 1) * stake - if i < r + 1 then n * stake else 0 {
    }
  }

  /** Plain round-robin: height h elects member (h - 1) mod n. */
  lemma RoundRobin(w: seq<nat>, stake: nat, h: nat)
    requires 0 < stake && 0 < |w| && 0 < h && Equal(w, stake)
    ensures ElectedAt(w, h) == (h - 1) % |w|
  {
    EqualStakes(w, stake, h - 1);
    EqualStep(w, stake, Run(w, h - 1), (h - 1) % |w|);
  }
}
