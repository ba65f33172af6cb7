/** The stake-weighted priority accumulator, one height at a time: every
    priority rises by its weight, the highest with weight wins (ties to the
    lower index), and the winner drops by the total weight. */
module Accumulator {
  import opened Words
  import opened Sums

  /** The winner among the first n: -1 when none of them has weight. */
  function Best(p: seq<int>, w: seq<nat>, n: nat): (r: int)
    requires n <= |p| == |w|
    ensures -1 <= r < n
    ensures r == -1 <==> forall i | 0 <= i < n :: w[i] == 0
    ensures r >= 0 ==> w[r] > 0 && forall i | 0 <= i < n && w[i] > 0 :: p[i] <= p[r]
    ensures r >= 0 ==> forall i | 0 <= i < r && w[i] > 0 :: p[i] < p[r]
  {
    if n == 0 then -1 else
      var r := Best(p, w, n - 1);
      if w[n - 1] > 0 && (r < 0 || p[n - 1] > p[r]) then n - 1 else r
  }

  function Raise(p: seq<int>, w: seq<nat>): (r: seq<int>)
    requires |p| == |w|
    ensures |r| == |p| && forall i | 0 <= i < |p| :: r[i] == p[i] + w[i]
  {
    seq(|p|, i requires 0 <= i < |p| => p[i] + w[i])
  }

  function Winner(p: seq<int>, w: seq<nat>): (k: int)
    requires |p| == |w|
    ensures -1 <= k < |w|
  {
    Best(Raise(p, w), w, |w|)
  }

  ghost function Step(p: seq<int>, w: seq<nat>): (r: seq<int>)
    requires |p| == |w|
    ensures |r| == |p|
  {
    var up, k := Raise(p, w), Winner(p, w);
    if k < 0 then up else up[k := up[k] - Total(w)]
  }

  // ----- as int64 computes it -----

  function Raise64(p: seq<int>, w: seq<nat>): (r: seq<int>)
    requires |p| == |w|
    ensures |r| == |p| && forall i | 0 <= i < |p| :: r[i] == Int64(p[i] + w[i])
  {
    seq(|p|, i requires 0 <= i < |p| => Int64(p[i] + w[i]))
  }

  function Winner64(p: seq<int>, w: seq<nat>): (k: int)
    requires |p| == |w|
    ensures -1 <= k < |w|
  {
    Best(Raise64(p, w), w, |w|)
  }

  ghost function Step64(p: seq<int>, w: seq<nat>): (r: seq<int>)
    requires |p| == |w|
    ensures |r| == |p|
  {
    var up, k := Raise64(p, w), Winner64(p, w);
    if k < 0 then up else up[k := Int64(up[k] - Total(w))]
  }

  // ----- runs -----

  function Zeros(n: nat): (p: seq<int>)
    ensures |p| == n && forall i | 0 <= i < n :: p[i] == 0
  {
    if n == 0 then [] else Zeros(n - 1) + [0]
  }

  ghost predicate Sized(n: nat, ws: seq<seq<nat>>) {
    forall t | 0 <= t < |ws| :: |ws[t]| == n
  }

  /** The priorities after heights with the given weights, from zero. */
  ghost function After(n: nat, ws: seq<seq<nat>>): (p: seq<int>)
    requires Sized(n, ws)
    ensures |p| == n
  {
    if ws == [] then Zeros(n) else Step(After(n, ws[..|ws| - 1]), ws[|ws| - 1])
  }

  ghost function After64(n: nat, ws: seq<seq<nat>>): (p: seq<int>)
    requires Sized(n, ws)
    ensures |p| == n
  {
    if ws == [] then Zeros(n) else Step64(After64(n, ws[..|ws| - 1]), ws[|ws| - 1])
  }

  // ----- one step -----

  /** Everyone earns its weight; the winner pays the total. */
  lemma StepEntry(p: seq<int>, w: seq<nat>, i: int)
    requires 0 <= i < |p| == |w|
    ensures Step(p, w)[i] == p[i] + w[i] - if i == Winner(p, w) then Total(w) else 0
  {
  }

  /** A step keeps the sum of priorities. */
  lemma StepTotal(p: seq<int>, w: seq<nat>)
    requires |p| == |w| && Winner(p, w) >= 0
    ensures Total(Step(p, w)) == Total(p)
  {
    var up, k := Raise(p, w), Winner(p, w);
    TotalAdd(p, w, up, |p|);
    TotalUpdate(up, |p|, k, up[k] - Total(w));
  }

  lemma {:induction false} TotalZeros(p: seq<int>, n: nat)
    requires n <= |p| && forall i | 0 <= i < |p| :: p[i] == 0
    ensures TotalTo(p, n) == 0
  {
    TotalConstant(p, n, 0);
  }

  lemma SomeWinner(p: seq<int>, w: seq<nat>)
    requires |p| == |w| && 0 < Total(w)
    ensures Winner(p, w) >= 0
  {
    if Winner(p, w) < 0 {
      TotalZeros(w, |w|);
    }
  }

  /** Where weightless members sit at zero and priorities sum to zero, the
      winner is above zero when it is chosen. */
  lemma WinnerPositive(p: seq<int>, w: seq<nat>)
    requires |p| == |w| && 0 < Total(w) && Total(p) == 0
    requires forall i | 0 <= i < |p| && w[i] == 0 :: p[i] <= 0
    ensures Winner(p, w) >= 0 && Raise(p, w)[Winner(p, w)] > 0
  {
    var up, k := Raise(p, w), Winner(p, w);
    SomeWinner(p, w);
    TotalAdd(p, w, up, |p|);
    if up[k] <= 0 {
      forall i | 0 <= i < |p| ensures up[i] <= 0 {
      }
      TotalAtMost(up, |p|, 0);
    }
  }
}
