/** Sums of multisets over lists and maps, for the conservation laws of the protocol, and runs in general. */
module Channels {

  ghost function Sum<T, U>(s: seq<T>, f: T -> multiset<U>): multiset<U> {
    if s == [] then multiset{} else f(s[0]) + Sum(s[1..], f)
  }

  lemma {:induction false} SumAppend<T, U>(s: seq<T>, x: T, f: T -> multiset<U>)
    ensures Sum(s + [x], f) == Sum(s, f) + f(x)
  {
    if s == [] {
      assert s + [x] == [x] && [x][1..] == [];
    } else {
      assert (s + [x])[1..] == s[1..] + [x];
      SumAppend(s[1..], x, f);
    }
  }

  lemma {:induction false} SumMember<T, U>(s: seq<T>, i: nat, f: T -> multiset<U>, u: U)
    requires i < |s| && u in f(s[i])
    ensures u in Sum(s, f)
  {
    if i > 0 {
      SumMember(s[1..], i - 1, f, u);
    }
  }

  lemma SetInsert<U>(a: set<U>, u: U)
    requires u !in a
    ensures multiset(a + {u}) == multiset(a) + multiset{u}
  {
  }

  lemma SetRemove<U>(a: set<U>, u: U)
    requires u in a
    ensures multiset(a) == multiset(a - {u}) + multiset{u}
  {
  }

  lemma Cancel<U>(a: multiset<U>, b: multiset<U>, c: multiset<U>)
    requires a + c == b + c
    ensures a == b
  {
    assert a == (a + c) - c && b == (b + c) - c;
  }

  ghost function MapSum<K(!new), V, U>(m: map<K, V>, f: V -> multiset<U>): multiset<U>
    decreases |m|
  {
    if m == map[] then multiset{}
    else
      var k :| k in m;
      Smaller(m, k);
      f(m[k]) + MapSum(m - {k}, f)
  }

  lemma Smaller<K, V>(m: map<K, V>, k: K)
    requires k in m
    ensures |m - {k}| < |m|
  {
    assert (m - {k}).Keys == m.Keys - {k};
    assert |(m - {k}).Keys| < |m.Keys|;
  }

  lemma {:induction false} MapSumRemove<K(!new), V, U>(m: map<K, V>, k: K, f: V -> multiset<U>)
    requires k in m
    ensures MapSum(m, f) == f(m[k]) + MapSum(m - {k}, f)
    decreases |m|
  {
    var j :| j in m && MapSum(m, f) == f(m[j]) + MapSum(m - {j}, f);
    if j != k {
      Smaller(m, j);
      Smaller(m, k);
      MapSumRemove(m - {j}, k, f);
      MapSumRemove(m - {k}, j, f);
      assert m - {j} - {k} == m - {k} - {j};
    }
  }

  /** Setting an entry replaces what it contributed. */
  lemma MapSumUpdate<K(!new), V, U>(m: map<K, V>, k: K, v: V, f: V -> multiset<U>)
    ensures k !in m ==> MapSum(m[k := v], f) == f(v) + MapSum(m, f)
    ensures k in m ==> MapSum(m[k := v], f) == f(v) + MapSum(m - {k}, f)
  {
    MapSumRemove(m[k := v], k, f);
    if k !in m {
      assert m[k := v] - {k} == m;
    } else {
      assert m[k := v] - {k} == m - {k};
    }
  }

  // ----- runs in general -----

  /** Each step moves from one state to the next, and every state obeys the law. */
  ghost predicate Chain<S(!new), E(!new)>(es: seq<E>, xs: seq<S>, move: (S, E, S) -> bool, law: S -> bool) {
    |xs| == |es| + 1 && (forall i :: 0 <= i < |es| ==> move(xs[i], es[i], xs[i + 1])) && forall i :: 0 <= i < |xs| ==> law(xs[i])
  }

  /** What every step but the leaving ones keeps, a stretch without a leaving step keeps. */
  lemma {:induction false} Persist<S(!new), E(!new)>(es: seq<E>, xs: seq<S>, move: (S, E, S) -> bool, law: S -> bool,
                                                     leaving: (S, E) -> bool, holds: S -> bool, i: nat, j: nat)
    requires Chain(es, xs, move, law) && i <= j <= |es| && holds(xs[i])
    requires forall x, e, y :: law(x) && move(x, e, y) && !leaving(x, e) && holds(x) ==> holds(y)
    requires forall m :: i <= m < j ==> !leaving(xs[m], es[m])
    ensures holds(xs[j])
  {
    if i < j {
      Persist(es, xs, move, law, leaving, holds, i, j - 1);
      assert move(xs[j - 1], es[j - 1], xs[j]);
    }
  }

  /** What holds no longer was ended by a leaving step. */
  lemma {:induction false} Leaves<S(!new), E(!new)>(es: seq<E>, xs: seq<S>, move: (S, E, S) -> bool, law: S -> bool,
                                                    leaving: (S, E) -> bool, holds: S -> bool, i: nat, j: nat) returns (k: nat)
    requires Chain(es, xs, move, law) && i <= j <= |es| && holds(xs[i]) && !holds(xs[j])
    requires forall x, e, y :: law(x) && move(x, e, y) && !leaving(x, e) && holds(x) ==> holds(y)
    ensures i <= k < j && leaving(xs[k], es[k])
    decreases j - i
  {
    assert i < j && move(xs[i], es[i], xs[i + 1]);
    if leaving(xs[i], es[i]) {
      k := i;
    } else {
      k := Leaves(es, xs, move, law, leaving, holds, i + 1, j);
    }
  }
}
