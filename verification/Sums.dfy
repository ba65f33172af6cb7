/** Sums over selected positions of a sequence and over the values of a map. */
module Sums {

  // ----- sequences -----

  /** The sum of p[i] over the i < n that s selects. */
  ghost function Partial(p: seq<int>, n: nat, s: set<int>): int
    requires n <= |p|
  {
    if n == 0 then 0 else Partial(p, n - 1, s) + if n - 1 in s then p[n - 1] else 0
  }

  ghost function SumOver(p: seq<int>, s: set<int>): int {
    Partial(p, |p|, s)
  }

  /** The sum of the first n entries. */
  ghost function TotalTo(p: seq<int>, n: nat): int
    requires n <= |p|
  {
    if n == 0 then 0 else TotalTo(p, n - 1) + p[n - 1]
  }

  ghost function Total(p: seq<int>): int {
    TotalTo(p, |p|)
  }

  lemma TotalIs(p: seq<int>)
    ensures Total(p) == TotalTo(p, |p|)
  {
  }

  ghost predicate NonNegative(p: seq<int>) {
    forall i | 0 <= i < |p| :: 0 <= p[i]
  }

  /** s selects only positions below n. */
  ghost predicate Below(s: set<int>, n: nat) {
    forall i | i in s :: 0 <= i < n
  }

  lemma {:induction false} PartialAgrees(p: seq<int>, n: nat, s: set<int>, t: set<int>)
    requires n <= |p|
    requires forall i | 0 <= i < n :: i in s <==> i in t
    ensures Partial(p, n, s) == Partial(p, n, t)
  {
    if n > 0 {
      PartialAgrees(p, n - 1, s, t);
    }
  }

  lemma {:induction false} PartialAll(p: seq<int>, n: nat, s: set<int>)
    requires n <= |p|
    requires forall i | 0 <= i < n :: i in s
    ensures Partial(p, n, s) == TotalTo(p, n)
  {
    if n > 0 {
      PartialAll(p, n - 1, s);
    }
  }

  lemma {:induction false} PartialInsert(p: seq<int>, n: nat, s: set<int>, i: int)
    requires 0 <= i < n <= |p| && i !in s
    ensures Partial(p, n, s + {i}) == Partial(p, n, s) + p[i]
  {
    if n - 1 == i {
      PartialAgrees(p, n - 1, s + {i}, s);
    } else {
      PartialInsert(p, n - 1, s, i);
    }
  }

  lemma {:induction false} PartialUpdate(p: seq<int>, n: nat, s: set<int>, i: int, v: int)
    requires n <= |p| && 0 <= i < |p|
    ensures Partial(p[i := v], n, s) == Partial(p, n, s) + if i < n && i in s then v - p[i] else 0
  {
    if n > 0 {
      PartialUpdate(p, n - 1, s, i, v);
    }
  }

  lemma {:induction false} PartialAdd(p: seq<int>, w: seq<int>, q: seq<int>, n: nat, s: set<int>)
    requires n <= |p| == |w| == |q|
    requires forall i | 0 <= i < |p| :: q[i] == p[i] + w[i]
    ensures Partial(q, n, s) == Partial(p, n, s) + Partial(w, n, s)
  {
    if n > 0 {
      PartialAdd(p, w, q, n - 1, s);
    }
  }

  /** At most |s| times the largest entry. */
  lemma {:induction false} PartialAtMost(p: seq<int>, n: nat, s: set<int>, x: int)
    requires n <= |p| && Below(s, n)
    requires forall i | i in s :: p[i] <= x
    ensures Partial(p, n, s) <= |s| * x
  {
    if n > 0 {
      var t := s - {n - 1};
      PartialAgrees(p, n - 1, s, t);
      PartialAtMost(p, n - 1, t, x);
      if n - 1 in s {
        assert |s| == |t| + 1;
        assert |s| * x == |t| * x + x;
      } else {
        assert s == t;
      }
    } else {
      assert forall i :: i !in s;
    }
  }

  lemma {:induction false} PartialMonotone(p: seq<int>, n: nat, s: set<int>, t: set<int>)
    requires n <= |p| && NonNegative(p) && s <= t
    ensures 0 <= Partial(p, n, s) <= Partial(p, n, t) <= TotalTo(p, n)
  {
    if n > 0 {
      PartialMonotone(p, n - 1, s, t);
    }
  }

  /** Two selections overlap by at least what they hold together beyond the total. */
  lemma {:induction false} PartialOverlap(p: seq<int>, n: nat, s: set<int>, t: set<int>)
    requires n <= |p| && NonNegative(p)
    ensures Partial(p, n, s) + Partial(p, n, t) <= TotalTo(p, n) + Partial(p, n, s * t)
  {
    if n > 0 {
      PartialOverlap(p, n - 1, s, t);
    }
  }

  lemma {:induction false} TotalAdd(p: seq<int>, w: seq<int>, q: seq<int>, n: nat)
    requires n <= |p| == |w| == |q|
    requires forall i | 0 <= i < |p| :: q[i] == p[i] + w[i]
    ensures TotalTo(q, n) == TotalTo(p, n) + TotalTo(w, n)
  {
    if n > 0 {
      TotalAdd(p, w, q, n - 1);
    }
  }

  lemma {:induction false} TotalUpdate(p: seq<int>, n: nat, i: int, v: int)
    requires n <= |p| && 0 <= i < |p|
    ensures TotalTo(p[i := v], n) == TotalTo(p, n) + if i < n then v - p[i] else 0
  {
    if n > 0 {
      TotalUpdate(p, n - 1, i, v);
    }
  }

  lemma {:induction false} TotalConstant(p: seq<int>, n: nat, c: int)
    requires n <= |p| && forall i | 0 <= i < |p| :: p[i] == c
    ensures TotalTo(p, n) == n * c
  {
    if n > 0 {
      TotalConstant(p, n - 1, c);
      assert n * c == (n - 1) * c + c;
    }
  }

  lemma {:induction false} TotalAtMost(p: seq<int>, n: nat, x: int)
    requires n <= |p| && forall i | 0 <= i < n :: p[i] <= x
    ensures TotalTo(p, n) <= n * x
  {
    if n > 0 {
      TotalAtMost(p, n - 1, x);
      assert n * x == (n - 1) * x + x;
    }
  }

  /** When no entry is below -x, none exceeds the total by more than the others could owe. */
  lemma {:induction false} EntryBelow(p: seq<int>, n: nat, i: int, x: int)
    requires 0 <= i < n <= |p| && forall j | 0 <= j < n :: 0 - x <= p[j]
    ensures p[i] <= TotalTo(p, n) + (n - 1) * x
  {
    if i == n - 1 {
      TotalAtLeast(p, n - 1, x);
    } else {
      EntryBelow(p, n - 1, i, x);
      assert (n - 1) * x == (n - 2) * x + x;
    }
  }

  lemma {:induction false} TotalAtLeast(p: seq<int>, n: nat, x: int)
    requires n <= |p| && forall j | 0 <= j < n :: 0 - x <= p[j]
    ensures 0 - n * x <= TotalTo(p, n)
  {
    if n > 0 {
      TotalAtLeast(p, n - 1, x);
      assert n * x == (n - 1) * x + x;
    }
  }

  lemma {:induction false} EntryAtMostTotal(p: seq<int>, n: nat, i: int)
    requires 0 <= i < n <= |p| && NonNegative(p)
    ensures 0 <= p[i] <= TotalTo(p, n)
  {
    PartialMonotone(p, n - 1, {}, {});
    if i < n - 1 {
      EntryAtMostTotal(p, n - 1, i);
    }
  }

  /** Non-negative entries that sum to zero are all zero. */
  lemma {:induction false} ZeroTotal(p: seq<int>, n: nat)
    requires n <= |p| && TotalTo(p, n) <= 0
    requires forall i | 0 <= i < n :: 0 <= p[i]
    ensures forall i | 0 <= i < n :: p[i] == 0
  {
    if n > 0 {
      TotalNonNegative(p, n - 1);
      ZeroTotal(p, n - 1);
    }
  }

  lemma {:induction false} TotalNonNegative(p: seq<int>, n: nat)
    requires n <= |p| && forall i | 0 <= i < n :: 0 <= p[i]
    ensures 0 <= TotalTo(p, n)
  {
    if n > 0 {
      TotalNonNegative(p, n - 1);
    }
  }

  // ----- maps -----

  /** A Go map read: the zero value for an absent key. */
  function Get<K>(m: map<K, nat>, k: K): nat {
    if k in m then m[k] else 0
  }

  ghost function Sum<K(!new)>(m: map<K, nat>): nat
    decreases |m|
  {
    if m == map[] then 0 else
      var k :| k in m;
      m[k] + Sum(m - {k})
  }

  lemma {:induction false} SumRemove<K(!new)>(m: map<K, nat>, k: K)
    requires k in m
    ensures Sum(m) == m[k] + Sum(m - {k})
    decreases |m|
  {
    var c :| c in m && Sum(m) == m[c] + Sum(m - {c});
    if c != k {
      SumRemove(m - {c}, k);
      SumRemove(m - {k}, c);
      assert m - {c} - {k} == m - {k} - {c};
    }
  }

  lemma SumDrop<K(!new)>(m: map<K, nat>, k: K)
    ensures Sum(m) == Get(m, k) + Sum(m - {k})
  {
    if k in m {
      SumRemove(m, k);
    } else {
      assert m - {k} == m;
    }
  }

  lemma SumUpdate<K(!new)>(m: map<K, nat>, k: K, v: nat)
    ensures Sum(m[k := v]) == Sum(m) - Get(m, k) + v
  {
    SumDrop(m, k);
    SumRemove(m[k := v], k);
    assert m[k := v] - {k} == m - {k};
  }

  lemma SumEmpty<K(!new)>()
    ensures Sum<K>(map[]) == 0
  {
  }

  lemma SumSingle<K(!new)>(k: K, v: nat)
    ensures Sum(map[k := v]) == v
  {
    SumRemove(map[k := v], k);
    assert map[k := v] - {k} == map[];
  }

  lemma GetAtMostSum<K(!new)>(m: map<K, nat>, k: K)
    ensures Get(m, k) <= Sum(m)
  {
    SumDrop(m, k);
  }

  /** Equal up to absent and zero entries. */
  ghost predicate Agree<K(!new)>(m: map<K, nat>, n: map<K, nat>) {
    forall k :: Get(m, k) == Get(n, k)
  }

  lemma AgreeDrop<K(!new)>(m: map<K, nat>, n: map<K, nat>, k: K)
    requires Agree(m, n)
    ensures Agree(m - {k}, n - {k}) && Get(m, k) == Get(n, k)
  {
    forall x ensures Get(m - {k}, x) == Get(n - {k}, x) {
      assert Get(m, x) == Get(n, x);
    }
  }

  /** Absent and zero entries add nothing. */
  lemma {:induction false} SumAgrees<K(!new)>(m: map<K, nat>, n: map<K, nat>, keys: set<K>)
    requires Agree(m, n) && m.Keys + n.Keys <= keys
    ensures Sum(m) == Sum(n)
    decreases keys
  {
    if keys == {} {
      assert m.Keys == {} && n.Keys == {};
      assert m == map[] == n;
    } else {
      var k :| k in keys;
      SumDrop(m, k);
      SumDrop(n, k);
      AgreeDrop(m, n, k);
      SumAgrees(m - {k}, n - {k}, keys - {k});
    }
  }
}
