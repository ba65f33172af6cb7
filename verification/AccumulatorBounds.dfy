/** How far priorities stray when weights change every height: the harmonic
    bound, the longest wait it implies, and that int64 never overflows. */
module AccumulatorBounds {
  import opened Words
  import opened Sums
  import opened Accumulator

  /** 1/a + 1/(a+1) + ... + 1/n */
  ghost function Harmonic(a: nat, n: nat): real
    requires 0 < a
    decreases n + 1 - a
  {
    if a > n then 0.0 else 1.0 / a as real + Harmonic(a + 1, n)
  }

  /** Heights of n members over which whoever has weight keeps some: stakes and
      delegations may change at every height, and some members may have none. */
  ghost predicate Lasting(n: nat, ws: seq<seq<nat>>, tmax: nat) {
    && 0 < n && 0 < tmax && Sized(n, ws)
    && (forall t | 0 <= t < |ws| :: 0 < Total(ws[t]) <= tmax)
    && forall t, u, i | 0 <= t < u < |ws| && 0 <= i < n && ws[u][i] == 0 :: ws[t][i] == 0
  }

  lemma LastingInit(n: nat, ws: seq<seq<nat>>, tmax: nat)
    requires Lasting(n, ws, tmax) && ws != []
    ensures Lasting(n, ws[..|ws| - 1], tmax) && Sized(n, ws) && Sized(n, ws[..|ws| - 1])
    ensures
      var w, init := ws[|ws| - 1], ws[..|ws| - 1];
      && |w| == n && 0 < Total(w) <= tmax && NonNegative(w)
      && forall i | 0 <= i < n && w[i] == 0 :: After(n, init)[i] == 0
  {
    hide Total, After;
    var w, init := ws[|ws| - 1], ws[..|ws| - 1];
    forall i | 0 <= i < n && w[i] == 0 ensures After(n, init)[i] == 0 {
      NeverMoved(n, init, i);
    }
  }

  lemma LastingPrefix(n: nat, ws: seq<seq<nat>>, tmax: nat, m: nat)
    requires Lasting(n, ws, tmax) && m <= |ws|
    ensures Lasting(n, ws[..m], tmax)
  {
    hide Total;
  }

  /** A member that never had weight never moves. */
  lemma {:induction false} NeverMoved(n: nat, ws: seq<seq<nat>>, i: int)
    requires Sized(n, ws) && 0 <= i < n && forall t | 0 <= t < |ws| :: ws[t][i] == 0
    ensures After(n, ws)[i] == 0
  {
    hide Step, Total;
    if ws != [] {
      NeverMoved(n, ws[..|ws| - 1], i);
      StepEntry(After(n, ws[..|ws| - 1]), ws[|ws| - 1], i);
    }
  }

  /** Priorities sum to zero and stay above minus the largest total. */
  lemma {:induction false} AboveFloor(n: nat, ws: seq<seq<nat>>, tmax: nat)
    requires Lasting(n, ws, tmax)
    ensures Total(After(n, ws)) == 0
    ensures forall i | 0 <= i < n :: 0 - tmax < After(n, ws)[i]
  {
    hide Step, Total, Winner;
    if ws == [] {
      TotalZeros(Zeros(n), n);
      TotalIs(Zeros(n));
    } else {
      var init, w := ws[..|ws| - 1], ws[|ws| - 1];
      LastingInit(n, ws, tmax);
      AboveFloor(n, init, tmax);
      var p := After(n, init);
      WinnerPositive(p, w);
      StepTotal(p, w);
      forall i | 0 <= i < n ensures 0 - tmax < Step(p, w)[i] {
        StepEntry(p, w, i);
      }
    }
  }

  // ----- the harmonic bound -----

  /** The most k members can hold together. */
  ghost function Ceiling(tmax: nat, k: nat, n: nat): real {
    tmax as real * (k as real * Harmonic(k + 1, n))
  }

  /** Losers are below the winner, so they hold at most k parts in k+1 of what
      they and the winner held before it paid. */
  lemma LosersShare(tmax: nat, k: nat, n: nat, losers: int, winner: int)
    requires 0 < k < n && losers <= k * winner
    requires (losers + winner) as real <= Ceiling(tmax, k + 1, n) + tmax as real
    ensures losers as real <= Ceiling(tmax, k, n)
  {
    var h := Harmonic(k + 2, n);
    var r, t, x, y := k as real, tmax as real, losers as real, winner as real;
    var e := 1.0 / (r + 1.0);
    assert e * (r + 1.0) == 1.0;
    assert Harmonic(k + 1, n) == e + h;
    IntsAsReals(losers, k, winner);
    assert x <= r * y;
    assert x * (r + 1.0) <= r * (x + y);
    ScaleUp(r, x + y, t * ((r + 1.0) * h) + t);
    assert r * (t * ((r + 1.0) * h) + t) == (t * (r * (e + h))) * (r + 1.0);
    ScaleDown(x, t * (r * (e + h)), r + 1.0);
  }

  lemma IntsAsReals(a: int, b: int, c: int)
    requires a <= b * c
    ensures a as real <= b as real * c as real
  {
    assert (b * c) as real == b as real * c as real;
  }

  lemma ScaleUp(c: real, a: real, b: real)
    requires 0.0 <= c && a <= b
    ensures c * a <= c * b
  {
    assert 0.0 <= c * (b - a);
  }

  lemma ScaleDown(a: real, b: real, c: real)
    requires 0.0 < c && a * c <= b * c
    ensures a <= b
  {
    if b < a {
      ScaleStrict(c, b, a);
    }
  }

  lemma ScaleStrict(c: real, a: real, b: real)
    requires 0.0 < c && a < b
    ensures a * c < b * c
  {
    assert 0.0 < (b - a) * c;
  }

  lemma StepSum(p: seq<int>, w: seq<nat>, s: set<int>)
    requires |p| == |w| && Winner(p, w) >= 0
    ensures SumOver(Step(p, w), s) == SumOver(p, s) + SumOver(w, s) - if Winner(p, w) in s then Total(w) else 0
  {
    var up, k := Raise(p, w), Winner(p, w);
    PartialAdd(p, w, up, |p|, s);
    PartialUpdate(up, |p|, s, k, up[k] - Total(w));
  }

  /** Any k members together hold at most the ceiling for k. */
  lemma {:induction false} HarmonicBound(n: nat, ws: seq<seq<nat>>, tmax: nat, s: set<int>)
    requires Lasting(n, ws, tmax) && Below(s, n)
    ensures SumOver(After(n, ws), s) as real <= Ceiling(tmax, |s|, n)
    decreases |ws|
  {
    hide Step, Total, Winner, Ceiling, Lasting;
    CeilingNonNegative(tmax, |s|, n);
    if ws == [] {
      ZeroSum(Zeros(n), n, s);
    } else {
      LastingInit(n, ws, tmax);
      AboveFloor(n, ws[..|ws| - 1], tmax);
      BoundStep(n, ws, tmax, s);
    }
  }

  lemma BoundStep(n: nat, ws: seq<seq<nat>>, tmax: nat, s: set<int>)
    requires Lasting(n, ws, tmax) && Below(s, n) && ws != []
    ensures SumOver(After(n, ws), s) as real <= Ceiling(tmax, |s|, n)
    decreases |ws|, 0
  {
    hide Step, Total, Winner, Ceiling, Lasting;
    var init, w := ws[..|ws| - 1], ws[|ws| - 1];
    LastingInit(n, ws, tmax);
    AboveFloor(n, init, tmax);
    var p := After(n, init);
    var k := Winner(p, w);
    WinnerPositive(p, w);
    StepSum(p, w, s);
    if k in s {
      HarmonicBound(n, init, tmax, s);
      PartialMonotone(w, n, s, s);
      TotalIs(w);
    } else if s != {} {
      var t := s + {k};
      assert Below(t, n) && |t| == |s| + 1;
      HarmonicBound(n, init, tmax, t);
      LosersBelowWinner(p, w, s);
      PartialInsert(p, n, s, k);
      PartialInsert(w, n, s, k);
      PartialMonotone(w, n, t, t);
      TotalIs(w);
      CountBelow(t, n);
      LosersShare(tmax, |s|, n, SumOver(After(n, ws), s), Raise(p, w)[k]);
    } else {
      ZeroSum(After(n, ws), n, s);
      CeilingNonNegative(tmax, |s|, n);
    }
  }

  lemma LosersBelowWinner(p: seq<int>, w: seq<nat>, s: set<int>)
    requires |p| == |w| && Below(s, |p|) && 0 < Total(w) && Total(p) == 0
    requires forall i | 0 <= i < |w| && w[i] == 0 :: p[i] == 0
    ensures Winner(p, w) >= 0
    ensures SumOver(p, s) + SumOver(w, s) <= |s| * Raise(p, w)[Winner(p, w)]
  {
    hide Total;
    WinnerPositive(p, w);
    var up := Raise(p, w);
    PartialAdd(p, w, up, |p|, s);
    PartialAtMost(up, |p|, s, up[Winner(p, w)]);
  }

  lemma {:induction false} ZeroSum(p: seq<int>, n: nat, s: set<int>)
    requires n <= |p| && (s == {} || forall i | 0 <= i < |p| :: p[i] == 0)
    ensures Partial(p, n, s) == 0
  {
    if n > 0 {
      ZeroSum(p, n - 1, s);
    }
  }

  lemma {:induction false} CountBelow(s: set<int>, n: nat)
    requires Below(s, n)
    ensures |s| <= n
  {
    if n > 0 {
      CountBelow(s - {n - 1}, n - 1);
      assert |s| <= |s - {n - 1}| + 1;
    } else {
      assert forall i :: i !in s;
    }
  }

  lemma {:induction false} HarmonicNonNegative(a: nat, n: nat)
    requires 0 < a
    ensures 0.0 <= Harmonic(a, n)
    decreases n + 1 - a
  {
    if a <= n {
      HarmonicNonNegative(a + 1, n);
    }
  }

  lemma CeilingNonNegative(tmax: nat, k: nat, n: nat)
    ensures 0.0 <= Ceiling(tmax, k, n)
  {
    HarmonicNonNegative(k + 1, n);
    assert 0.0 <= k as real * Harmonic(k + 1, n);
  }

  lemma CeilingOfOne(tmax: nat, n: nat)
    ensures Ceiling(tmax, 1, n) == tmax as real * Harmonic(2, n)
  {
  }

  /** In every slash-free run, under arbitrary weight changes, every priority
      lies above -tmax and at or below tmax * (1/2 + ... + 1/n). */
  lemma PriorityBounds(n: nat, ws: seq<seq<nat>>, tmax: nat, i: int)
    requires Lasting(n, ws, tmax) && 0 <= i < n
    ensures 0 - tmax < After(n, ws)[i]
    ensures After(n, ws)[i] as real <= tmax as real * Harmonic(2, n)
  {
    hide After, Ceiling, Harmonic, Total;
    AboveFloor(n, ws, tmax);
    HarmonicBound(n, ws, tmax, {i});
    CeilingOfOne(tmax, n);
    ZeroSum(After(n, ws), n, {});
    PartialInsert(After(n, ws), n, {}, i);
    assert {} + {i} == {i};
  }

  // ----- waiting -----

  /** Member i had at least this weight and was not elected in the last m heights. */
  ghost predicate Waited(n: nat, ws: seq<seq<nat>>, i: int, m: nat, weight: nat)
    requires Sized(n, ws) && 0 <= i < n && m <= |ws|
  {
    forall t | |ws| - m <= t < |ws| :: Winner(After(n, ws[..t]), ws[t]) != i && weight <= ws[t][i]
  }

  lemma EarnedMore(m: nat, weight: nat)
    ensures m * weight == (m - 1) * weight + weight
  {
  }

  lemma {:induction false} WaitingEarns(n: nat, ws: seq<seq<nat>>, i: int, m: nat, weight: nat)
    requires Sized(n, ws) && 0 <= i < n && m <= |ws| && Waited(n, ws, i, m, weight)
    ensures After(n, ws)[i] >= After(n, ws[..|ws| - m])[i] + m * weight
    decreases m
  {
    hide Step, Winner;
    if m == 0 {
      assert ws[..|ws|] == ws;
    } else {
      var init, w := ws[..|ws| - 1], ws[|ws| - 1];
      forall t | |init| - (m - 1) <= t < |init|
        ensures Winner(After(n, init[..t]), init[t]) != i && weight <= init[t][i]
      {
        assert init[..t] == ws[..t];
      }
      WaitingEarns(n, init, i, m - 1, weight);
      assert init[..|init| - (m - 1)] == ws[..|ws| - m];
      StepEntry(After(n, init), w, i);
      assert Winner(After(n, ws[..|ws| - 1]), w) != i;
      EarnedMore(m, weight);
    }
  }

  lemma FirstTerm(n: nat, tmax: nat)
    requires 0 < n
    ensures tmax as real * Harmonic(1, n) == tmax as real + tmax as real * Harmonic(2, n)
    ensures tmax as real <= tmax as real * Harmonic(1, n)
  {
    assert Harmonic(1, n) == 1.0 + Harmonic(2, n);
    HarmonicNonNegative(2, n);
    ScaleUp(tmax as real, 0.0, Harmonic(2, n));
  }

  /** No member of weight at least w waits tmax * (1 + 1/2 + ... + 1/n) / w
      heights for its turn. */
  lemma LongestWait(n: nat, ws: seq<seq<nat>>, tmax: nat, i: int, m: nat, weight: nat)
    requires Lasting(n, ws, tmax) && 0 <= i < n && m <= |ws| && Waited(n, ws, i, m, weight)
    ensures (m * weight) as real < tmax as real * Harmonic(1, n)
  {
    hide After, Harmonic, Total, Waited;
    WaitingEarns(n, ws, i, m, weight);
    PriorityBounds(n, ws, tmax, i);
    LastingPrefix(n, ws, tmax, |ws| - m);
    AboveFloor(n, ws[..|ws| - m], tmax);
    FirstTerm(n, tmax);
    assert (m * weight) as real < (After(n, ws)[i] + tmax) as real;
  }

  // ----- machine width -----

  /** While tmax times the harmonic number fits an int64, one more height from
      any reachable priorities is the unbounded step, with the same winner. */
  lemma NextFits(n: nat, ws: seq<seq<nat>>, tmax: nat)
    requires Lasting(n, ws, tmax) && ws != [] && tmax as real * Harmonic(1, n) < TWO63 as real
    ensures
      var p, w := After(n, ws[..|ws| - 1]), ws[|ws| - 1];
      Step64(p, w) == Step(p, w) && Winner64(p, w) == Winner(p, w)
  {
    hide Step, Step64, Total, Harmonic, Winner, Winner64;
    FirstTerm(n, tmax);
    var init, w := ws[..|ws| - 1], ws[|ws| - 1];
    LastingInit(n, ws, tmax);
    forall i | 0 <= i < n ensures InStep(After(n, init)[i], w[i], tmax) {
      PriorityBounds(n, init, tmax, i);
      Headroom(n, tmax, After(n, init)[i], w[i]);
      EntryAtMostTotal(w, n, i);
      TotalIs(w);
    }
    AboveFloor(n, init, tmax);
    StepFits(After(n, init), w, tmax);
  }

  /** So the int64 election is the unbounded accumulator at every height. */
  lemma {:induction false} NeverOverflows(n: nat, ws: seq<seq<nat>>, tmax: nat)
    requires Lasting(n, ws, tmax) && tmax as real * Harmonic(1, n) < TWO63 as real
    ensures After64(n, ws) == After(n, ws)
    decreases |ws|
  {
    hide Step, Step64, Total, Harmonic, Winner, Winner64;
    if ws != [] {
      LastingInit(n, ws, tmax);
      NeverOverflows(n, ws[..|ws| - 1], tmax);
      NextFits(n, ws, tmax);
    }
  }

  ghost predicate InStep(p: int, w: nat, tmax: nat) {
    0 - tmax < p && p + tmax < TWO63 && w <= tmax
  }

  lemma Headroom(n: nat, tmax: nat, p: int, w: nat)
    requires 0 < n && p as real <= tmax as real * Harmonic(2, n)
    requires tmax as real * Harmonic(1, n) < TWO63 as real
    ensures p + tmax < TWO63
  {
    hide Harmonic;
    FirstTerm(n, tmax);
    assert (p + tmax) as real < TWO63 as real;
  }

  lemma StepFits(p: seq<int>, w: seq<nat>, tmax: nat)
    requires |p| == |w| && 0 < Total(w) <= tmax < TWO63 && Total(p) == 0
    requires forall i | 0 <= i < |p| :: InStep(p[i], w[i], tmax) && (w[i] == 0 ==> p[i] <= 0)
    ensures Step64(p, w) == Step(p, w) && Winner64(p, w) == Winner(p, w)
  {
    var up := Raise(p, w);
    assert Raise64(p, w) == up;
    WinnerPositive(p, w);
    var k := Winner(p, w);
    assert InStep(p[k], w[k], tmax);
    assert Int64(up[k] - Total(w)) == up[k] - Total(w);
  }
}
