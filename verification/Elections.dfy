/** A node's election: the priority accumulator with the stake view behind it. */
module Elections {
  import opened Wrappers
  import opened Words
  import opened Sums
  import opened Types
  import opened Ledger
  import opened Accumulator

  datatype ElectionView = ElectionView(addresses: seq<Address>, origStake: seq<nat>, delegated: seq<nat>,
                                       slashed: seq<bool>, priorities: seq<int>) {
    ghost predicate Valid() {
      && |addresses| == |origStake| == |delegated| == |slashed| == |priorities|
      && Distinct(addresses)
    }
  }

  /** The first position of an address, or -1. */
  function IndexOf(addresses: seq<Address>, a: Address): (i: int)
    ensures -1 <= i < |addresses|
    ensures i >= 0 ==> addresses[i] == a && a !in addresses[..i]
    ensures i < 0 <==> a !in addresses
  {
    if addresses == [] then -1
    else
      var i := IndexOf(addresses[..|addresses| - 1], a);
      if i >= 0 then i
      else if addresses[|addresses| - 1] == a then |addresses| - 1 else -1
  }

  /** Voting weight: self-stake plus delegations, or zero while slashed. */
  function Effective(e: ElectionView, i: nat): nat
    requires |e.addresses| == |e.origStake| == |e.delegated| == |e.slashed| && i < |e.addresses|
  {
    if e.slashed[i] then 0 else Uint64(e.origStake[i] + e.delegated[i])
  }

  function Weights(e: ElectionView): (w: seq<nat>)
    requires |e.addresses| == |e.origStake| == |e.delegated| == |e.slashed|
    ensures |w| == |e.addresses| && forall i | 0 <= i < |w| :: w[i] == Effective(e, i)
  {
    seq(|e.addresses|, i requires 0 <= i < |e.addresses| => Effective(e, i))
  }

  /** What is bonded behind a validator, in uint64. */
  ghost function DelegatedTo(d: Bonds, validator: Address): nat {
    Uint64(Sum(BackersOf(d, validator)))
  }

  ghost function Synced(d: Bonds, addresses: seq<Address>): (r: seq<nat>)
    ensures |r| == |addresses| && forall i | 0 <= i < |r| :: r[i] == DelegatedTo(d, addresses[i])
  {
    seq(|addresses|, i requires 0 <= i < |addresses| => DelegatedTo(d, addresses[i]))
  }

  ghost function Sync(e: ElectionView, d: Bonds): ElectionView {
    e.(delegated := Synced(d, e.addresses))
  }

  /** The least priority among members with weight; zero when there are none. */
  function LowTo(p: seq<int>, w: seq<nat>, n: nat): (low: Option<int>)
    requires n <= |p| == |w|
    ensures low == None <==> forall i | 0 <= i < n :: w[i] == 0
    ensures low.Some? ==> forall i | 0 <= i < n && w[i] > 0 :: low.value <= p[i]
    ensures low.Some? ==> exists i :: 0 <= i < n && w[i] > 0 && p[i] == low.value
  {
    if n == 0 then None else
      var low := LowTo(p, w, n - 1);
      if w[n - 1] > 0 && (low == None || p[n - 1] < low.value) then Some(p[n - 1]) else low
  }

  function Low(p: seq<int>, w: seq<nat>): int
    requires |p| == |w|
  {
    var low := LowTo(p, w, |p|);
    if low.Some? then low.value else 0
  }

  function Slash(e: ElectionView, a: Address): ElectionView
    requires |e.slashed| == |e.addresses|
  {
    var i := IndexOf(e.addresses, a);
    if i < 0 then e else e.(slashed := e.slashed[i := true])
  }

  /** Stake back, priority to the back of the rotation: the least among the
      others that have weight. */
  function Restore(e: ElectionView, a: Address): ElectionView
    requires |e.addresses| == |e.origStake| == |e.delegated| == |e.slashed| == |e.priorities|
  {
    var i := IndexOf(e.addresses, a);
    if i < 0 then e else
      var others := e.(slashed := e.slashed[i := true]);
      e.(slashed := e.slashed[i := false], priorities := e.priorities[i := Low(e.priorities, Weights(others))])
  }

  /** One height's advance. */
  ghost function Next(e: ElectionView): (r: ElectionView)
    requires e.Valid()
    ensures r.Valid() && r == e.(priorities := r.priorities)
  {
    e.(priorities := Step64(e.priorities, Weights(e)))
  }

  /** Who that height elects; None is the panic when nobody has weight. */
  function Elected(e: ElectionView): Option<Address>
    requires |e.addresses| == |e.origStake| == |e.delegated| == |e.slashed| == |e.priorities|
  {
    var k := Winner64(e.priorities, Weights(e));
    if k < 0 then None else Some(e.addresses[k])
  }

  // ----- voting weight of a set of voters -----

  ghost function Members(addresses: seq<Address>, voters: set<Address>): set<int> {
    set i | 0 <= i < |addresses| && addresses[i] in voters
  }

  /** The weight the named members hold together. */
  ghost function WeightOf(e: ElectionView, voters: set<Address>): int
    requires e.Valid()
  {
    SumOver(Weights(e), Members(e.addresses, voters))
  }

  function StakeOf(e: ElectionView, a: Address): nat
    requires |e.addresses| == |e.origStake| == |e.delegated| == |e.slashed|
  {
    var i := IndexOf(e.addresses, a);
    if i < 0 then 0 else Effective(e, i)
  }

  lemma WeightInsert(e: ElectionView, voters: set<Address>, a: Address)
    requires e.Valid() && a !in voters
    ensures WeightOf(e, voters + {a}) == WeightOf(e, voters) + StakeOf(e, a)
  {
    var i := IndexOf(e.addresses, a);
    if i < 0 {
      assert Members(e.addresses, voters + {a}) == Members(e.addresses, voters);
    } else {
      assert Members(e.addresses, voters + {a}) == Members(e.addresses, voters) + {i};
      PartialInsert(Weights(e), |e.addresses|, Members(e.addresses, voters), i);
    }
  }

  lemma WeightEmpty(e: ElectionView)
    requires e.Valid()
    ensures WeightOf(e, {}) == 0
  {
    var none := Members(e.addresses, {});
    assert forall i :: i !in none;
    NothingSelected(Weights(e), |e.addresses|, none);
  }

  lemma {:induction false} NothingSelected(p: seq<int>, n: nat, s: set<int>)
    requires n <= |p| && forall i :: i !in s
    ensures Partial(p, n, s) == 0
  {
    if n > 0 {
      NothingSelected(p, n - 1, s);
    }
  }

  lemma WeightMonotone(e: ElectionView, a: set<Address>, b: set<Address>)
    requires e.Valid() && a <= b
    ensures 0 <= WeightOf(e, a) <= WeightOf(e, b) <= Total(Weights(e))
  {
    PartialMonotone(Weights(e), |e.addresses|, Members(e.addresses, a), Members(e.addresses, b));
  }

  /** Quorum intersection: two sets above two thirds share more than one third. */
  lemma QuorumsMeet(e: ElectionView, a: set<Address>, b: set<Address>)
    requires e.Valid()
    requires 3 * WeightOf(e, a) > 2 * Total(Weights(e)) && 3 * WeightOf(e, b) > 2 * Total(Weights(e))
    ensures 3 * WeightOf(e, a * b) > Total(Weights(e))
  {
    PartialOverlap(Weights(e), |e.addresses|, Members(e.addresses, a), Members(e.addresses, b));
    assert Members(e.addresses, a) * Members(e.addresses, b) == Members(e.addresses, a * b);
  }

  // ----- voting weight under different slashes -----

  /** The same election with nobody slashed. */
  function Full(e: ElectionView): (r: ElectionView)
    requires e.Valid()
    ensures r.Valid() && r == e.(slashed := r.slashed) && forall i | 0 <= i < |r.slashed| :: !r.slashed[i]
  {
    e.(slashed := seq(|e.addresses|, _ => false))
  }

  lemma FullAtLeast(e: ElectionView)
    requires e.Valid()
    ensures Total(Weights(e)) <= Total(Weights(Full(e)))
  {
    TotalBelow(Weights(e), Weights(Full(e)), |e.addresses|);
  }

  lemma {:induction false} TotalBelow(p: seq<int>, q: seq<int>, n: nat)
    requires n <= |p| == |q| && forall i | 0 <= i < n :: p[i] <= q[i]
    ensures TotalTo(p, n) <= TotalTo(q, n)
  {
    if n > 0 {
      TotalBelow(p, q, n - 1);
    }
  }

  /** Two views w1, w2 of one full weight w that differ only inside f, and two sets
      that meet only inside f: their margins over two thirds are bounded by that
      of f over one third. */
  lemma {:induction false} OverlapBound(w: seq<int>, w1: seq<int>, w2: seq<int>, n: nat, a: set<int>, b: set<int>,
                                        f: set<int>)
    requires n <= |w| == |w1| == |w2|
    requires forall i | 0 <= i < n :: 0 <= w1[i] <= w[i] && 0 <= w2[i] <= w[i]
    requires forall i | 0 <= i < n && i !in f :: w1[i] == w[i] == w2[i] && !(i in a && i in b)
    ensures 3 * Partial(w1, n, a) - 2 * TotalTo(w1, n) + 3 * Partial(w2, n, b) - 2 * TotalTo(w2, n)
         <= 3 * Partial(w, n, f) - TotalTo(w, n)
  {
    if n > 0 {
      OverlapBound(w, w1, w2, n - 1, a, b, f);
    }
  }

  /** Quorums of two views of one height, each with its own members slashed, share
      a voter outside the guilty, if everyone slashed is guilty and the guilty hold
      at most a third of the full weight. */
  lemma QuorumsMeetAcross(e: ElectionView, r: ElectionView, guilty: set<Address>, a: set<Address>, b: set<Address>)
    requires e.Valid() && r.Valid() && e.addresses == r.addresses && Weights(Full(e)) == Weights(Full(r))
    requires forall i | 0 <= i < |e.addresses| && (e.slashed[i] || r.slashed[i]) :: e.addresses[i] in guilty
    requires 3 * WeightOf(Full(e), guilty) <= Total(Weights(Full(e)))
    requires 3 * WeightOf(e, a) > 2 * Total(Weights(e)) && 3 * WeightOf(r, b) > 2 * Total(Weights(r))
    ensures exists x :: x in a && x in b && x !in guilty
  {
    hide Total;
    if forall x | x in a && x in b :: x in guilty {
      var addresses := e.addresses;
      OverlapBound(Weights(Full(e)), Weights(e), Weights(r), |addresses|, Members(addresses, a), Members(addresses, b),
                   Members(addresses, guilty));
      TotalIs(Weights(e));
      TotalIs(Weights(r));
      TotalIs(Weights(Full(e)));
    }
  }

  // ----- several slashes and heals at one height -----

  function SlashEach(e: ElectionView, order: seq<Address>): (r: ElectionView)
    requires e.Valid()
    ensures r.Valid()
  {
    if order == [] then e else Slash(SlashEach(e, order[..|order| - 1]), order[|order| - 1])
  }

  function RestoreEach(e: ElectionView, order: seq<Address>): (r: ElectionView)
    requires e.Valid()
    ensures r.Valid()
  {
    if order == [] then e else Restore(RestoreEach(e, order[..|order| - 1]), order[|order| - 1])
  }

  function SlashAll(e: ElectionView, offenders: set<Address>): (r: ElectionView)
    requires e.Valid()
    ensures r.Valid() && r == e.(slashed := r.slashed)
    ensures forall i | 0 <= i < |e.addresses| :: r.slashed[i] == (e.slashed[i] || e.addresses[i] in offenders)
  {
    e.(slashed := seq(|e.addresses|, i requires 0 <= i < |e.addresses| =>
                      e.slashed[i] || e.addresses[i] in offenders))
  }

  function RestoreAll(e: ElectionView, healed: set<Address>): (r: ElectionView)
    requires e.Valid()
    ensures r.Valid() && r == e.(slashed := r.slashed, priorities := r.priorities)
    ensures forall i | 0 <= i < |e.addresses| :: r.slashed[i] == (e.slashed[i] && e.addresses[i] !in healed)
    ensures forall i | 0 <= i < |e.addresses| ::
              r.priorities[i] == if e.addresses[i] in healed then Low(e.priorities, Weights(e)) else e.priorities[i]
  {
    var low := Low(e.priorities, Weights(e));
    e.(slashed := seq(|e.addresses|, i requires 0 <= i < |e.addresses| =>
                      e.slashed[i] && e.addresses[i] !in healed),
       priorities := seq(|e.addresses|, i requires 0 <= i < |e.addresses| =>
                         if e.addresses[i] in healed then low else e.priorities[i]))
  }

  lemma SlashOneMore(e: ElectionView, done: set<Address>, a: Address)
    requires e.Valid()
    ensures Slash(SlashAll(e, done), a) == SlashAll(e, done + {a})
  {
    var s := SlashAll(e, done);
    var i := IndexOf(e.addresses, a);
    assert Slash(s, a).slashed == SlashAll(e, done + {a}).slashed;
  }

  /** Restoring one more slashed member to the back gives it the same place,
      whoever was restored before it. */
  lemma RestoreOneMore(e: ElectionView, done: set<Address>, a: Address)
    requires e.Valid() && a !in done
    requires forall i | 0 <= i < |e.addresses| && e.addresses[i] in done + {a} :: e.slashed[i]
    ensures Restore(RestoreAll(e, done), a) == RestoreAll(e, done + {a})
  {
    var s, t := RestoreAll(e, done), RestoreAll(e, done + {a});
    var k := IndexOf(e.addresses, a);
    if k < 0 {
      assert s.slashed == t.slashed && s.priorities == t.priorities;
    } else {
      SameLow(e, done, k);
      var r := Restore(s, a);
      assert r.slashed == t.slashed;
      assert r.priorities == t.priorities;
    }
  }

  lemma SameLow(e: ElectionView, done: set<Address>, k: nat)
    requires e.Valid() && k < |e.addresses| && e.addresses[k] !in done
    requires forall i | 0 <= i < |e.addresses| && e.addresses[i] in done :: e.slashed[i]
    requires e.slashed[k]
    ensures
      var s := RestoreAll(e, done);
      Low(s.priorities, Weights(s.(slashed := s.slashed[k := true]))) == Low(e.priorities, Weights(e))
  {
    var s := RestoreAll(e, done);
    var others := s.(slashed := s.slashed[k := true]);
    LowKept(e.priorities, Weights(e), s.priorities, Weights(others));
  }

  /** Members at the least priority, or members without weight, do not move it. */
  lemma LowKept(p: seq<int>, w: seq<nat>, q: seq<int>, v: seq<nat>)
    requires |p| == |w| == |q| == |v|
    requires forall i | 0 <= i < |w| && w[i] > 0 :: v[i] > 0 && q[i] == p[i]
    requires forall i | 0 <= i < |w| && v[i] > 0 && w[i] == 0 :: q[i] == Low(p, w)
    ensures Low(q, v) == Low(p, w)
  {
  }

  /** Map iteration order does not matter: slashing in any order slashes the set. */
  lemma {:induction false} SlashOrderIrrelevant(e: ElectionView, order: seq<Address>)
    requires e.Valid()
    ensures SlashEach(e, order) == SlashAll(e, Elements(order))
  {
    if order == [] {
      assert SlashAll(e, {}).slashed == e.slashed;
    } else {
      var init, a := order[..|order| - 1], order[|order| - 1];
      SlashOrderIrrelevant(e, init);
      SlashOneMore(e, Elements(init), a);
      assert Elements(init) + {a} == Elements(order);
    }
  }

  /** Nor does the order of several heals at one height: each lands at the same
      least priority, taken among those that kept their weight. */
  lemma {:induction false} HealOrderIrrelevant(e: ElectionView, order: seq<Address>)
    requires e.Valid() && Distinct(order)
    requires forall i | 0 <= i < |e.addresses| && e.addresses[i] in order :: e.slashed[i]
    ensures RestoreEach(e, order) == RestoreAll(e, Elements(order))
  {
    if order == [] {
      assert RestoreAll(e, {}).slashed == e.slashed && RestoreAll(e, {}).priorities == e.priorities;
    } else {
      var init, a := order[..|order| - 1], order[|order| - 1];
      assert order == init + [a];
      HealOrderIrrelevant(e, init);
      assert a !in Elements(init);
      RestoreOneMore(e, Elements(init), a);
      assert Elements(init) + {a} == Elements(order);
    }
  }

  // ----- what enters a height -----

  /** The election a node runs a height with: this height's slashes, then its
      heals, then delegated stake from the committed ledger. */
  ghost function Enter(e: ElectionView, offenders: set<Address>, healed: set<Address>, d: Bonds): (r: ElectionView)
    requires e.Valid()
    ensures r.Valid() && r.addresses == e.addresses && r.origStake == e.origStake
  {
    Sync(RestoreAll(SlashAll(e, offenders), healed), d)
  }

  ghost predicate IsSlashed(e: ElectionView, a: Address)
    requires e.Valid()
  {
    exists i :: 0 <= i < |e.addresses| && e.addresses[i] == a && e.slashed[i]
  }

  lemma SlashedAfterEnter(e: ElectionView, offenders: set<Address>, healed: set<Address>, d: Bonds, a: Address)
    requires e.Valid()
    ensures IsSlashed(Next(Enter(e, offenders, healed, d)), a)
         <==> a in e.addresses && (IsSlashed(e, a) || a in offenders) && a !in healed
  {
    var r := Next(Enter(e, offenders, healed, d));
    assert forall i | 0 <= i < |e.addresses| ::
        r.slashed[i] == ((e.slashed[i] || e.addresses[i] in offenders) && e.addresses[i] !in healed);
    if a in e.addresses {
      var k := IndexOf(e.addresses, a);
      assert e.addresses[k] == a;
    }
  }

  /** Slashing or healing someone who is no member changes nothing. */
  lemma OnlyMembersMatter(e: ElectionView, offenders: set<Address>, healed: set<Address>, d: Bonds)
    requires e.Valid()
    ensures
      var members := Elements(e.addresses);
      Enter(e, offenders * members, healed * members, d) == Enter(e, offenders, healed, d)
  {
    hide Low, Weights, Sync;
    var members := Elements(e.addresses);
    var s := SlashAll(e, offenders);
    assert SlashAll(e, offenders * members).slashed == s.slashed;
    var r, q := RestoreAll(s, healed), RestoreAll(s, healed * members);
    assert q.slashed == r.slashed && q.priorities == r.priorities;
  }

  // ----- the back of the rotation -----

  /** p is at most the priority of every member with weight but those skipped, and is
      one of theirs; zero when there are none. */
  ghost predicate AtBack(p: int, priorities: seq<int>, w: seq<nat>, skip: int)
    requires |priorities| == |w|
  {
    && (forall i | 0 <= i < |w| && i != skip && 0 < w[i] :: p <= priorities[i])
    && if exists i :: 0 <= i < |w| && i != skip && 0 < w[i]
       then exists i :: 0 <= i < |w| && i != skip && 0 < w[i] && p == priorities[i]
       else p == 0
  }

  /** A restored member rejoins at the back: no other member with weight is behind
      it, and unless nobody else has weight one of them is level with it. */
  lemma RestoreToBack(e: ElectionView, a: Address)
    requires e.Valid() && a in e.addresses
    ensures
      var k, r := IndexOf(e.addresses, a), Restore(e, a);
      && AtBack(r.priorities[k], e.priorities, Weights(e), k) && !r.slashed[k]
      && forall i | 0 <= i < |e.addresses| && i != k ::
           r.priorities[i] == e.priorities[i] && r.slashed[i] == e.slashed[i]
  {
    var k := IndexOf(e.addresses, a);
    var others := e.(slashed := e.slashed[k := true]);
    assert forall i | 0 <= i < |e.addresses| :: Weights(others)[i] == if i == k then 0 else Weights(e)[i];
    LowAtBack(e.priorities, Weights(others), e.priorities, Weights(e), k);
  }

  lemma LowAtBack(p: seq<int>, w: seq<nat>, q: seq<int>, v: seq<nat>, skip: int)
    requires |p| == |w| == |q| == |v| && p == q
    requires forall i | 0 <= i < |w| :: w[i] == if i == skip then 0 else v[i]
    ensures AtBack(Low(p, w), q, v, skip)
  {
    var low := LowTo(p, w, |p|);
    if low.Some? {
      var i :| 0 <= i < |p| && w[i] > 0 && p[i] == low.value;
      assert 0 <= i < |v| && i != skip && 0 < v[i] && Low(p, w) == q[i];
    } else {
      assert forall i | 0 <= i < |v| && i != skip :: v[i] == 0;
    }
  }

  /** Healed as a height is entered, with whatever else is slashed or healed then:
      at the back of those who had weight and were not just slashed. */
  lemma HealedEnterAtBack(e: ElectionView, offenders: set<Address>, healed: set<Address>, d: Bonds, a: Address)
    requires e.Valid() && a in e.addresses && a in healed
    ensures
      var k, r := IndexOf(e.addresses, a), Enter(e, offenders, healed, d);
      && !r.slashed[k]
      && AtBack(r.priorities[k], e.priorities, Weights(SlashAll(e, offenders)), -1)
      && forall i | 0 <= i < |e.addresses| && e.addresses[i] !in healed :: r.priorities[i] == e.priorities[i]
  {
    var k, s := IndexOf(e.addresses, a), SlashAll(e, offenders);
    assert e.addresses[k] == a;
    LowAtBack(s.priorities, Weights(s), e.priorities, Weights(s), -1);
  }

  /** No priority or its raise leaves the range of an int64. */
  ghost predicate InRange(e: ElectionView)
    requires e.Valid()
  {
    forall i | 0 <= i < |e.addresses| :: 0 - TWO63 <= e.priorities[i] && e.priorities[i] + Effective(e, i) < TWO63
  }

  /** Being at the back means waiting for everyone at least as heavy: the healed member
      is elected as it rejoins only if it outweighs, or at least equals, every other
      member that kept its weight. */
  lemma HealedWaits(e: ElectionView, offenders: set<Address>, healed: set<Address>, d: Bonds, a: Address, j: nat)
    requires e.Valid() && a in e.addresses && a in healed && j < |e.addresses|
    requires InRange(Enter(e, offenders, healed, d)) && Elected(Enter(e, offenders, healed, d)) == Some(a)
    requires e.addresses[j] != a && e.addresses[j] !in healed && 0 < Effective(SlashAll(e, offenders), j)
    ensures
      var r := Enter(e, offenders, healed, d);
      Effective(r, j) <= Effective(r, IndexOf(e.addresses, a))
  {
    hide Enter;
    var r, k := Enter(e, offenders, healed, d), IndexOf(e.addresses, a);
    HealedEnterAtBack(e, offenders, healed, d, a);
    RaiseInRange(r);
    ElectedIndex(r, a);
  }

  lemma RaiseInRange(e: ElectionView)
    requires e.Valid() && InRange(e)
    ensures Raise64(e.priorities, Weights(e)) == Raise(e.priorities, Weights(e))
  {
  }

  lemma ElectedIndex(e: ElectionView, a: Address)
    requires e.Valid() && Elected(e) == Some(a)
    ensures Winner64(e.priorities, Weights(e)) == IndexOf(e.addresses, a)
  {
  }
}
