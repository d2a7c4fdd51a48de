/** getClosest against the flat specification "sort all stored nodes by XOR distance". */
module BucketQuery {

  import opened Prelude
  import opened BitMetric
  import opened BucketTree
  import opened BucketInvariants
  import opened BucketRuns

  // ----- the order in which getClosest comes to the leaves -----

  /** All leaves, nearest to the target first. */
  function Visit(t: Tree, target: Hash): (v: seq<Tree>)
    requires Indexed(t)
    ensures v != [] && forall i :: 0 <= i < |v| ==> v[i].Leaf?
  {
    if t.Leaf? then [t] else Visit(Child(t, target), target) + Visit(Sibling(t, target), target)
  }

  /** How many of them it looks at: the far child is visited when the near one holds fewer than n nodes. */
  function Visited(t: Tree, target: Hash, n: nat): nat
    requires Indexed(t)
  {
    if t.Leaf? then 1
    else if Count(Child(t, target)) < n then
      |Visit(Child(t, target), target)| + Visited(Sibling(t, target), target, n)
    else Visited(Child(t, target), target, n)
  }

  /** The last leaf it looks at, the only one it may cut off. */
  function CutLeaf(t: Tree, target: Hash, n: nat): (leaf: Tree)
    requires Indexed(t)
    ensures leaf.Leaf?
  {
    if t.Leaf? then t
    else if Count(Child(t, target)) < n then CutLeaf(Sibling(t, target), target, n)
    else CutLeaf(Child(t, target), target, n)
  }

  function Flatten(v: seq<Tree>): seq<DhtNode>
    requires forall i :: 0 <= i < |v| ==> v[i].Leaf?
  {
    if v == [] then [] else v[0].contents + Flatten(v[1..])
  }

  lemma {:induction false} FlattenConcat(u: seq<Tree>, v: seq<Tree>)
    requires forall i :: 0 <= i < |u| ==> u[i].Leaf?
    requires forall i :: 0 <= i < |v| ==> v[i].Leaf?
    ensures Flatten(u + v) == Flatten(u) + Flatten(v)
  {
    if u == [] {
      assert u + v == v;
    } else {
      assert (u + v)[1..] == u[1..] + v;
      FlattenConcat(u[1..], v);
    }
  }

  lemma {:induction false} FlattenMembers(v: seq<Tree>, i: nat)
    requires i < |v| && forall j :: 0 <= j < |v| ==> v[j].Leaf?
    ensures |v[i].contents| <= |Flatten(v)|
    ensures forall x :: x in v[i].contents ==> x in Flatten(v)
  {
    if i > 0 {
      FlattenMembers(v[1..], i - 1);
    }
  }

  lemma {:induction false} FlattenFind(v: seq<Tree>, x: DhtNode) returns (i: nat)
    requires forall j :: 0 <= j < |v| ==> v[j].Leaf?
    requires x in Flatten(v)
    ensures i < |v| && x in v[i].contents
  {
    if x in v[0].contents {
      i := 0;
    } else {
      i := FlattenFind(v[1..], x);
      i := i + 1;
    }
  }

  lemma {:induction false} FlattenLast(v: seq<Tree>)
    requires v != [] && forall j :: 0 <= j < |v| ==> v[j].Leaf?
    ensures var m := |v| - 1;
            Flatten(v) == Flatten(v[..m]) + v[m].contents
  {
    var m := |v| - 1;
    assert v == v[..m] + [v[m]];
    FlattenConcat(v[..m], [v[m]]);
  }

  lemma MultisetConcat(a: seq<DhtNode>, b: seq<DhtNode>)
    ensures multiset(a + b) == multiset(a) + multiset(b)
  {
  }

  lemma {:induction false} VisitStored(t: Tree, target: Hash)
    requires Indexed(t)
    ensures multiset(Flatten(Visit(t, target))) == Stored(t)
  {
    if t.Leaf? {
      assert Flatten([t]) == t.contents;
    } else {
      var near, far := Child(t, target), Sibling(t, target);
      VisitStored(near, target);
      VisitStored(far, target);
      StoredByChild(t, target, t);
      FlattenConcat(Visit(near, target), Visit(far, target));
      MultisetConcat(Flatten(Visit(near, target)), Flatten(Visit(far, target)));
    }
  }

  /** The result is the first m leaves in that order, only the last of them possibly cut off at n. */
  ghost predicate Shape(v: seq<Tree>, m: nat, r: seq<DhtNode>, n: nat)
    requires forall i :: 0 <= i < |v| ==> v[i].Leaf?
  {
    1 <= m <= |v| &&
    r == Flatten(v[..m - 1]) + Take(v[m - 1].contents, n) &&
    (m < |v| ==> |r| >= n) &&
    forall j :: 0 <= j < m - 1 ==> |v[j].contents| < n
  }

  /** A result shorter than n is everything. */
  lemma ShortShape(v: seq<Tree>, m: nat, r: seq<DhtNode>, n: nat)
    requires forall i :: 0 <= i < |v| ==> v[i].Leaf?
    requires Shape(v, m, r, n) && |r| < n
    ensures m == |v| && r == Flatten(v) && forall j :: 0 <= j < |v| ==> |v[j].contents| < n
  {
    FlattenLast(v);
    assert Take(v[m - 1].contents, n) == v[m - 1].contents;
  }

  lemma JoinShape(u: seq<Tree>, v: seq<Tree>, m: nat, r: seq<DhtNode>, n: nat)
    requires forall i :: 0 <= i < |u| ==> u[i].Leaf?
    requires forall i :: 0 <= i < |v| ==> v[i].Leaf?
    requires Shape(v, m, r, n) && |Flatten(u)| < n && forall j :: 0 <= j < |u| ==> |u[j].contents| < n
    ensures Shape(u + v, |u| + m, Flatten(u) + r, n)
  {
    assert (u + v)[..|u| + m - 1] == u + v[..m - 1];
    FlattenConcat(u, v[..m - 1]);
  }

  lemma StopShape(u: seq<Tree>, v: seq<Tree>, m: nat, r: seq<DhtNode>, n: nat)
    requires forall i :: 0 <= i < |u| ==> u[i].Leaf?
    requires forall i :: 0 <= i < |v| ==> v[i].Leaf?
    requires Shape(u, m, r, n) && |r| >= n
    ensures Shape(u + v, m, r, n)
  {
    assert (u + v)[..m - 1] == u[..m - 1];
  }

  lemma LeafShape(t: Tree, n: nat)
    requires t.Leaf?
    ensures Shape([t], 1, Take(t.contents, n), n)
  {
    assert [t][..0] == [] && [] + Take(t.contents, n) == Take(t.contents, n);
  }

  /** Of a result of that shape, fewer than n nodes means fewer than n nodes in the tree. */
  lemma FewerStored(t: Tree, target: Hash, m: nat, r: seq<DhtNode>, n: nat)
    requires Indexed(t) && Shape(Visit(t, target), m, r, n)
    ensures |r| < n <==> Count(t) < n
  {
    var v := Visit(t, target);
    VisitStored(t, target);
    CountIsSize(t);
    assert |multiset(Flatten(v))| == |Flatten(v)|;
    if |r| < n {
      ShortShape(v, m, r, n);
    }
    var rest := ShapePrefix(v, m, r, n);
  }

  /** Both children visited: the whole of the first answer, then the second. */
  lemma BothShape(u: seq<Tree>, m: nat, r: seq<DhtNode>, v: seq<Tree>, l: nat, q: seq<DhtNode>,
                  w: seq<Tree>, k: nat, s: seq<DhtNode>, n: nat)
    requires forall i :: 0 <= i < |u| ==> u[i].Leaf?
    requires forall i :: 0 <= i < |v| ==> v[i].Leaf?
    requires Shape(u, m, r, n) && |r| < n && Shape(v, l, q, n)
    requires w == u + v && k == |u| + l && s == r + q
    ensures Shape(w, k, s, n)
  {
    ShortShape(u, m, r, n);
    JoinShape(u, v, l, q, n);
  }

  ghost predicate HasShape(t: Tree, target: Hash, n: nat)
    requires Indexed(t)
  {
    Shape(Visit(t, target), Visited(t, target, n), GetClosest(t, target, n), n)
  }

  lemma ShapeOfBoth(t: Tree, target: Hash, n: nat)
    requires Indexed(t) && t.Branch? && HasShape(Child(t, target), target, n) && HasShape(Sibling(t, target), target, n)
    requires |GetClosest(Child(t, target), target, n)| < n && Count(Child(t, target)) < n
    ensures HasShape(t, target, n)
  {
    var near, far := Child(t, target), Sibling(t, target);
    BothShape(Visit(near, target), Visited(near, target, n), GetClosest(near, target, n),
              Visit(far, target), Visited(far, target, n), GetClosest(far, target, n),
              Visit(t, target), Visited(t, target, n), GetClosest(t, target, n), n);
  }

  lemma ShapeOfNear(t: Tree, target: Hash, n: nat)
    requires Indexed(t) && t.Branch? && HasShape(Child(t, target), target, n)
    requires |GetClosest(Child(t, target), target, n)| >= n && Count(Child(t, target)) >= n
    ensures HasShape(t, target, n)
  {
    var near, far := Child(t, target), Sibling(t, target);
    StopShape(Visit(near, target), Visit(far, target), Visited(near, target, n), GetClosest(near, target, n), n);
  }

  /** Every answer is whole leaves in visiting order, the last one cut off at n. */
  lemma {:induction false} QueryShape(t: Tree, target: Hash, n: nat)
    requires Indexed(t)
    ensures HasShape(t, target, n)
  {
    if t.Leaf? {
      LeafShape(t, n);
    } else {
      var near := Child(t, target);
      QueryShape(near, target, n);
      FewerStored(near, target, Visited(near, target, n), GetClosest(near, target, n), n);
      if |GetClosest(near, target, n)| < n {
        QueryShape(Sibling(t, target), target, n);
        ShapeOfBoth(t, target, n);
      } else {
        ShapeOfNear(t, target, n);
      }
    }
  }

  // ----- leaves in that order are ordered by distance -----

  lemma {:induction false} VisitRoutes(own: Hash, t: Tree, p: seq<bool>, target: Hash, i: nat, x: DhtNode)
    requires Spine(own, t, p) && Indexed(t) && i < |Visit(t, target)| && x in Visit(t, target)[i].contents
    ensures x in Stored(t) && Route(t, x.hash) == Visit(t, target)[i]
    decreases t
  {
    if t.Branch? {
      var near, far := Child(t, target), Sibling(t, target);
      var u, b := Visit(near, target), target[|p| + 1];
      if i < |u| {
        VisitRoutes(own, near, p + [b], target, i, x);
        SpineStored(own, near, p + [b], x);
        OnPathStep(x.hash, p, b);
      } else {
        VisitRoutes(own, far, p + [!b], target, i - |u|, x);
        SpineStored(own, far, p + [!b], x);
        OnPathStep(x.hash, p, !b);
      }
    }
  }

  lemma NearBeforeFar(own: Hash, t: Tree, p: seq<bool>, target: Hash, y: DhtNode, x: DhtNode)
    requires t.Branch? && Spine(own, t, p) && y in Stored(Child(t, target)) && x in Stored(Sibling(t, target))
    ensures Closer(target, y.hash, x.hash)
  {
    var b := target[|p| + 1];
    SpineStored(own, Child(t, target), p + [b], y);
    SpineStored(own, Sibling(t, target), p + [!b], x);
    OnPathStep(y.hash, p, b);
    OnPathStep(x.hash, p, !b);
    forall i | 1 <= i < |p| + 1
      ensures y.hash[i] == x.hash[i]
    {
      assert y.hash[i - 1 + 1] == p[i - 1] == x.hash[i - 1 + 1];
    }
    CloserByBit(target, y.hash, x.hash, |p| + 1);
  }

  lemma {:induction false} VisitSorted(own: Hash, t: Tree, p: seq<bool>, target: Hash, i: nat, j: nat, y: DhtNode, x: DhtNode)
    requires Spine(own, t, p) && Indexed(t) && i < j < |Visit(t, target)|
    requires y in Visit(t, target)[i].contents && x in Visit(t, target)[j].contents
    ensures Closer(target, y.hash, x.hash)
    decreases t
  {
    var near, far := Child(t, target), Sibling(t, target);
    var u, b := Visit(near, target), target[|p| + 1];
    if j < |u| {
      VisitSorted(own, near, p + [b], target, i, j, y, x);
    } else if i >= |u| {
      VisitSorted(own, far, p + [!b], target, i - |u|, j - |u|, y, x);
    } else {
      VisitRoutes(own, near, p + [b], target, i, y);
      VisitRoutes(own, far, p + [!b], target, j - |u|, x);
      NearBeforeFar(own, t, p, target, y, x);
    }
  }

  // ----- the laws of getClosest -----

  /** A result of that shape is a prefix of the flattened leaves. */
  lemma ShapePrefix(v: seq<Tree>, m: nat, r: seq<DhtNode>, n: nat) returns (rest: seq<DhtNode>)
    requires forall i :: 0 <= i < |v| ==> v[i].Leaf?
    requires Shape(v, m, r, n)
    ensures Flatten(v) == r + rest
  {
    var last := v[m - 1].contents;
    var head, tail := Take(last, n), last[|Take(last, n)|..];
    assert last == head + tail;
    assert v == v[..m - 1] + v[m - 1..] && v[m - 1..][1..] == v[m..];
    FlattenConcat(v[..m - 1], v[m - 1..]);
    rest := tail + Flatten(v[m..]);
    Regroup(Flatten(v[..m - 1]), head, tail, Flatten(v[m..]));
  }

  lemma Regroup(a: seq<DhtNode>, b: seq<DhtNode>, c: seq<DhtNode>, d: seq<DhtNode>)
    ensures a + ((b + c) + d) == (a + b) + (c + d)
  {
  }

  /** getClosest only returns stored nodes, and all of them when it returns fewer than n. */
  lemma QueryStored(t: Tree, target: Hash, n: nat)
    requires Indexed(t)
    ensures var r := GetClosest(t, target, n);
            multiset(r) <= Stored(t) && (|r| < n ==> multiset(r) == Stored(t))
  {
    var v, m, r := Visit(t, target), Visited(t, target, n), GetClosest(t, target, n);
    QueryShape(t, target, n);
    VisitStored(t, target);
    if |r| < n {
      ShortShape(v, m, r, n);
    } else {
      var rest := ShapePrefix(v, m, r, n);
    }
  }

  /** Where a returned and an unreturned node can sit in the visiting order. */
  lemma Places(v: seq<Tree>, m: nat, r: seq<DhtNode>, n: nat, y: DhtNode, x: DhtNode) returns (i: nat, j: nat)
    requires forall i :: 0 <= i < |v| ==> v[i].Leaf?
    requires Shape(v, m, r, n) && y in r && x in Flatten(v) && x !in r
    ensures i < m <= j + 1 && j < |v| && y in v[i].contents && x in v[j].contents
    ensures j == m - 1 ==> n < |v[j].contents|
    ensures i == m - 1 ==> y in Take(v[i].contents, n)
  {
    j := FlattenFind(v, x);
    if y in Flatten(v[..m - 1]) {
      i := FlattenFind(v[..m - 1], y);
    } else {
      i := m - 1;
    }
    if j < m - 1 {
      FlattenMembers(v[..m - 1], j);
      assert false;
    }
  }

  lemma QueryPlaces(t: Tree, target: Hash, n: nat, y: DhtNode, x: DhtNode) returns (i: nat, j: nat)
    requires Indexed(t) && y in GetClosest(t, target, n) && x in Stored(t) && x !in GetClosest(t, target, n)
    ensures var v, m := Visit(t, target), Visited(t, target, n);
            i < m <= j + 1 && j < |v| && y in v[i].contents && x in v[j].contents &&
            (j == m - 1 ==> n < |v[j].contents|) && (i == m - 1 ==> y in Take(v[i].contents, n))
  {
    QueryShape(t, target, n);
    VisitStored(t, target);
    assert x in multiset(Flatten(Visit(t, target)));
    i, j := Places(Visit(t, target), Visited(t, target, n), GetClosest(t, target, n), n, y, x);
  }

  /** For every n: a returned node is strictly closer than every unreturned node of another leaf. */
  lemma CloserAcrossLeaves(own: Hash, t: Tree, target: Hash, n: nat, y: DhtNode, x: DhtNode)
    requires Spine(own, t, []) && Indexed(t)
    requires y in GetClosest(t, target, n) && x in Stored(t) && x !in GetClosest(t, target, n)
    ensures Route(t, y.hash) != Route(t, x.hash) ==> Closer(target, y.hash, x.hash)
  {
    var i, j := QueryPlaces(t, target, n, y, x);
    VisitRoutes(own, t, [], target, i, y);
    VisitRoutes(own, t, [], target, j, x);
    if i < j {
      VisitSorted(own, t, [], target, i, j, y, x);
    }
  }

  // ----- exactly when every returned node is closer than every unreturned one -----

  /** Every returned node is strictly closer to the target than every unreturned one. */
  ghost predicate AllCloser(t: Tree, target: Hash, n: nat)
    requires Indexed(t)
  {
    var r := GetClosest(t, target, n);
    forall y, x :: y in r && x in Stored(t) && x !in r ==> Closer(target, y.hash, x.hash)
  }

  /** The first n nodes of a leaf are strictly closer to the target than the others; true of a leaf of at most n. */
  predicate LeafRight(leaf: Tree, target: Hash, n: nat)
    requires leaf.Leaf?
  {
    var head := Take(leaf.contents, n);
    forall y, x :: y in head && x in leaf.contents && x !in head ==> Closer(target, y.hash, x.hash)
  }

  lemma {:induction false} CutLeafIsLast(t: Tree, target: Hash, n: nat)
    requires Indexed(t)
    ensures 1 <= Visited(t, target, n) <= |Visit(t, target)|
    ensures CutLeaf(t, target, n) == Visit(t, target)[Visited(t, target, n) - 1]
  {
    if t.Branch? {
      CutLeafIsLast(Child(t, target), target, n);
      CutLeafIsLast(Sibling(t, target), target, n);
    }
  }

  /** A node of the cut leaf that is not among its first n is not returned at all. */
  lemma CutOff(own: Hash, t: Tree, target: Hash, n: nat, x: DhtNode)
    requires Spine(own, t, []) && Indexed(t)
    requires x in CutLeaf(t, target, n).contents && x !in Take(CutLeaf(t, target, n).contents, n)
    ensures x in Stored(t) && x !in GetClosest(t, target, n)
  {
    var v, m := Visit(t, target), Visited(t, target, n);
    QueryShape(t, target, n);
    CutLeafIsLast(t, target, n);
    VisitRoutes(own, t, [], target, m - 1, x);
    if x in Flatten(v[..m - 1]) {
      var i := FlattenFind(v[..m - 1], x);
      VisitSorted(own, t, [], target, i, m - 1, x, x);
      CloserIsStrictOrder(target, x.hash, x.hash, x.hash);
      assert false;
    }
  }

  /** The first n nodes of the cut leaf are returned. */
  lemma CutLeafReturned(t: Tree, target: Hash, n: nat, y: DhtNode)
    requires Indexed(t) && y in Take(CutLeaf(t, target, n).contents, n)
    ensures y in GetClosest(t, target, n)
  {
    QueryShape(t, target, n);
    CutLeafIsLast(t, target, n);
  }

  /** A returned node that is not closer than an unreturned one shares the cut leaf with it. */
  lemma OnlyInCutLeaf(own: Hash, t: Tree, target: Hash, n: nat, y: DhtNode, x: DhtNode)
    requires Spine(own, t, []) && Indexed(t)
    requires y in GetClosest(t, target, n) && x in Stored(t) && x !in GetClosest(t, target, n)
    ensures var leaf := CutLeaf(t, target, n).contents;
            Closer(target, y.hash, x.hash) || (y in Take(leaf, n) && x in leaf && x !in Take(leaf, n))
  {
    var i, j := QueryPlaces(t, target, n, y, x);
    CutLeafIsLast(t, target, n);
    var v, m := Visit(t, target), Visited(t, target, n);
    if i < j {
      VisitSorted(own, t, [], target, i, j, y, x);
    } else {
      assert i == j == m - 1 && v[i] == CutLeaf(t, target, n);
      if x in Take(v[i].contents, n) {
        CutLeafReturned(t, target, n, x);
      }
    }
  }

  /**
   For every well-shaped tree, forced or not, and every n: every returned node is strictly closer than
   every unreturned one if and only if that holds inside the cut leaf, between its first n nodes and
   the rest.
   */
  lemma AllCloserExactly(own: Hash, t: Tree, target: Hash, n: nat)
    requires Spine(own, t, []) && Indexed(t)
    ensures AllCloser(t, target, n) <==> LeafRight(CutLeaf(t, target, n), target, n)
  {
    var r, leaf := GetClosest(t, target, n), CutLeaf(t, target, n).contents;
    if LeafRight(CutLeaf(t, target, n), target, n) {
      forall y, x | y in r && x in Stored(t) && x !in r
        ensures Closer(target, y.hash, x.hash)
      {
        OnlyInCutLeaf(own, t, target, n, y, x);
      }
    }
    if AllCloser(t, target, n) {
      forall y, x | y in Take(leaf, n) && x in leaf && x !in Take(leaf, n)
        ensures Closer(target, y.hash, x.hash)
      {
        CutLeafReturned(t, target, n, y);
        CutOff(own, t, target, n, x);
      }
    }
  }

  lemma {:induction false} CutLeafCapped(k: nat, t: Tree, target: Hash, n: nat)
    requires Indexed(t) && Capped(k, t, true)
    ensures |CutLeaf(t, target, n).contents| <= k
  {
    if t.Branch? {
      CutLeafCapped(k, Child(t, target), target, n);
      CutLeafCapped(k, Sibling(t, target), target, n);
    }
  }

  /** For n >= k and no oversized leaf: a returned node is strictly closer than every unreturned one. */
  lemma ReturnedAreCloser(own: Hash, k: nat, t: Tree, target: Hash, n: nat)
    requires Spine(own, t, []) && Indexed(t) && Capped(k, t, true) && k <= n
    ensures AllCloser(t, target, n)
  {
    CutLeafCapped(k, t, target, n);
    AllCloserExactly(own, t, target, n);
  }

  /** s lists the nodes in order of their distance to the target. */
  ghost predicate SortedByDistance(s: seq<DhtNode>, target: Hash) {
    forall i, j :: 0 <= i < j < |s| ==> !Closer(target, s[j].hash, s[i].hash)
  }

  /** The flat specification: the first n of all stored nodes sorted by distance are all returned. */
  lemma NearestAreReturned(t: Tree, target: Hash, n: nat, s: seq<DhtNode>, i: nat)
    requires Indexed(t) && AllCloser(t, target, n)
    requires multiset(s) == Stored(t) && SortedByDistance(s, target) && i < n && i < |s|
    ensures s[i] in GetClosest(t, target, n)
  {
    var r, x := GetClosest(t, target, n), s[i];
    if x !in r {
      QueryStored(t, target, n);
      assert x in Stored(t);
      assert |r| >= n;
      forall y | y in r
        ensures y !in s[i..]
      {
        CloserIsStrictOrder(target, x.hash, x.hash, x.hash);
      }
      AllWithin(r, s, i);
      assert false;
    }
  }

  lemma AllWithin(r: seq<DhtNode>, s: seq<DhtNode>, i: nat)
    requires i <= |s| && multiset(r) <= multiset(s) && forall y :: y in r ==> y !in s[i..]
    ensures |r| <= i
  {
    var a, b := multiset(s[..i]), multiset(r);
    assert s == s[..i] + s[i..];
    forall y
      ensures b[y] <= a[y]
    {
      if y in r {
        assert y !in s[i..] && multiset(s[i..])[y] == 0;
      }
    }
    assert a == b + (a - b);
  }

  /**
   The main theorem, for every run, forced or not, and every n: at least min(n, count) stored nodes are
   returned; each is strictly closer than every unreturned one if and only if the first n nodes of the
   cut leaf are strictly closer than its others; and then the n nearest nodes are among them.
   */
  lemma ClosestExactly(own: Hash, k: nat, ops: seq<Op>, target: Hash, n: nat)
    requires Run(own, k, ops).Some?
    ensures var t := Run(own, k, ops).value;
            var r := GetClosest(t, target, n);
            multiset(r) <= Stored(t) && |r| >= (if n < Count(t) then n else Count(t)) &&
            (AllCloser(t, target, n) <==> LeafRight(CutLeaf(t, target, n), target, n)) &&
            (AllCloser(t, target, n) ==>
               forall s, i :: multiset(s) == Stored(t) && SortedByDistance(s, target) && 0 <= i < n && i < |s| ==> s[i] in r)
  {
    var t := Run(own, k, ops).value;
    ReachableTree(own, k, ops);
    QueryStored(t, target, n);
    AllCloserExactly(own, t, target, n);
    if AllCloser(t, target, n) {
      forall s, i | multiset(s) == Stored(t) && SortedByDistance(s, target) && 0 <= i < n && i < |s|
        ensures s[i] in GetClosest(t, target, n)
      {
        NearestAreReturned(t, target, n, s, i);
      }
    }
  }

  /** With n >= k and nothing forced since the last rebuild it always holds: the n nearest nodes, bit 0 ignored. */
  lemma ClosestOverRuns(own: Hash, k: nat, ops: seq<Op>, target: Hash, n: nat)
    requires Run(own, k, ops).Some? && Unforced(ops) && k <= n
    ensures var t := Run(own, k, ops).value;
            var r := GetClosest(t, target, n);
            multiset(r) <= Stored(t) && |r| >= (if n < Count(t) then n else Count(t)) && AllCloser(t, target, n) &&
            forall s, i :: multiset(s) == Stored(t) && SortedByDistance(s, target) && 0 <= i < n && i < |s| ==> s[i] in r
  {
    ReachableTree(own, k, ops);
    ReturnedAreCloser(own, k, Run(own, k, ops).value, target, n);
    ClosestExactly(own, k, ops, target, n);
  }

  // ----- looking for a stored node by its own hash -----

  /** The result starts with the routed leaf, cut off at n, and is just that when the leaf holds n nodes or more. */
  lemma {:induction false} RoutedLeafFirst(t: Tree, h: Hash, n: nat)
    requires Indexed(t)
    ensures var head := Take(Route(t, h).contents, n);
            head <= GetClosest(t, h, n) && (|Route(t, h).contents| >= n ==> GetClosest(t, h, n) == head)
  {
    if t.Branch? {
      RoutedLeafFirst(Child(t, h), h, n);
    }
  }

  /** In every well-shaped tree, for every n: a query for a stored node finds it iff it is among the first n of its leaf. */
  lemma FindsItself(own: Hash, t: Tree, d: DhtNode, n: nat)
    requires Spine(own, t, []) && Indexed(t) && d in Stored(t)
    ensures d in GetClosest(t, d.hash, n) <==> d in Take(Route(t, d.hash).contents, n)
  {
    RoutedLeafFirst(t, d.hash, n);
    StoredIsRouted(own, t, [], d);
  }

  // ----- the unmasked metric -----

  /** Pair by pair: a returned node is closer than an unreturned one unless bit 0 favours the latter. */
  lemma FullRightPairs(own: Hash, k: nat, t: Tree, target: Hash, n: nat)
    requires Spine(own, t, []) && Indexed(t) && Capped(k, t, true) && k <= n
    ensures FullRight(t, target, n) <==>
            var r := GetClosest(t, target, n);
            forall y, x :: y in r && x in Stored(t) && x !in r ==> y.hash[0] == target[0] || x.hash[0] != target[0]
  {
    var r := GetClosest(t, target, n);
    ReturnedAreCloser(own, k, t, target, n);
    forall y, x | y in r && x in Stored(t) && x !in r
      ensures FullCloser(target, y.hash, x.hash) <==> y.hash[0] == target[0] || x.hash[0] != target[0]
    {
      TopBitDecides(target, y.hash, x.hash);
    }
  }

  /** Under the full metric, every returned node is closer to the target than every unreturned one. */
  ghost predicate FullRight(t: Tree, target: Hash, n: nat)
    requires Indexed(t)
  {
    var r := GetClosest(t, target, n);
    forall y, x :: y in r && x in Stored(t) && x !in r ==> FullCloser(target, y.hash, x.hash)
  }

  /** The nodes a query for n comes to, and those it does not, by the sizes of the buckets alone. */
  function Reached(t: Tree, target: Hash, n: nat): multiset<DhtNode>
    requires Indexed(t)
  {
    if t.Leaf? then Stored(t)
    else if Count(Child(t, target)) < n then Stored(Child(t, target)) + Reached(Sibling(t, target), target, n)
    else Reached(Child(t, target), target, n)
  }

  function Unreached(t: Tree, target: Hash, n: nat): multiset<DhtNode>
    requires Indexed(t)
  {
    if t.Leaf? then multiset{}
    else if Count(Child(t, target)) < n then Unreached(Sibling(t, target), target, n)
    else Unreached(Child(t, target), target, n) + Stored(Sibling(t, target))
  }

  lemma {:induction false} ReachedSum(t: Tree, target: Hash, n: nat)
    requires Indexed(t)
    ensures Reached(t, target, n) + Unreached(t, target, n) == Stored(t)
  {
    if t.Branch? {
      var near, far := Child(t, target), Sibling(t, target);
      StoredByChild(t, target, t);
      if Count(near) < n {
        ReachedSum(far, target, n);
        Shift(Stored(near), Reached(far, target, n), Unreached(far, target, n));
      } else {
        ReachedSum(near, target, n);
        Shift(Reached(near, target, n), Unreached(near, target, n), Stored(far));
      }
    }
  }

  lemma Shift(a: multiset<DhtNode>, b: multiset<DhtNode>, c: multiset<DhtNode>)
    ensures (a + b) + c == a + (b + c)
  {
  }

  lemma {:induction false} ReachedApart(own: Hash, t: Tree, p: seq<bool>, target: Hash, n: nat, x: DhtNode)
    requires Spine(own, t, p) && Indexed(t)
    ensures !(x in Reached(t, target, n) && x in Unreached(t, target, n))
    decreases t
  {
    if t.Branch? {
      var b := target[|p| + 1];
      var near, far := Child(t, target), Sibling(t, target);
      InOneChild(own, t, p, x);
      if Count(near) < n {
        ReachedApart(own, far, p + [!b], target, n, x);
        ReachedSum(far, target, n);
      } else {
        ReachedApart(own, near, p + [b], target, n, x);
        ReachedSum(near, target, n);
      }
    }
  }

  lemma {:induction false} ReachedReturned(k: nat, t: Tree, target: Hash, n: nat)
    requires Indexed(t) && Capped(k, t, true) && k <= n
    ensures multiset(GetClosest(t, target, n)) == Reached(t, target, n)
  {
    if t.Branch? {
      var near, far := Child(t, target), Sibling(t, target);
      QueryShape(near, target, n);
      FewerStored(near, target, Visited(near, target, n), GetClosest(near, target, n), n);
      ReachedReturned(k, near, target, n);
      if Count(near) < n {
        ReachedReturned(k, far, target, n);
        QueryStored(near, target, n);
        MultisetConcat(GetClosest(near, target, n), GetClosest(far, target, n));
      }
    }
  }

  /**
   For n >= k a target is answered right under the full metric if and only if no node the query reaches
   differs from the target in bit 0 while a node it does not reach agrees with it.
   */
  lemma FullMetricExactly(own: Hash, k: nat, t: Tree, target: Hash, n: nat)
    requires Spine(own, t, []) && Indexed(t) && Capped(k, t, true) && k <= n
    ensures FullRight(t, target, n) <==>
            forall y, x :: y in Reached(t, target, n) && x in Unreached(t, target, n) ==>
                             y.hash[0] == target[0] || x.hash[0] != target[0]
  {
    var r := GetClosest(t, target, n);
    FullRightPairs(own, k, t, target, n);
    ReachedSum(t, target, n);
    ReachedReturned(k, t, target, n);
    assert forall y :: y in r <==> y in multiset(r);
    forall x
      ensures x in Stored(t) && x !in r <==> x in Unreached(t, target, n)
    {
      ReachedApart(own, t, [], target, n, x);
      assert x in Stored(t) <==> x in Reached(t, target, n) + Unreached(t, target, n);
    }
  }

  lemma {:induction false} QueryIgnoresTopBit(t: Tree, a: Hash, b: Hash, n: nat)
    requires Indexed(t) && SameRouted(a, b)
    ensures GetClosest(t, a, n) == GetClosest(t, b, n)
  {
    if t.Branch? {
      assert a[t.index + 1] == a[1..][t.index] == b[1..][t.index] == b[t.index + 1];
      QueryIgnoresTopBit(t.first, a, b, n);
      QueryIgnoresTopBit(t.second, a, b, n);
    }
  }

  ghost predicate SameTopBit(t: Tree) {
    forall a, b :: a in Stored(t) && b in Stored(t) ==> a.hash[0] == b.hash[0]
  }

  /** If both targets that differ in bit 0 only are answered right, a returned and an unreturned node agree in bit 0. */
  lemma BothTargetsRight(own: Hash, k: nat, t: Tree, p: Hash, q: Hash, n: nat, y: DhtNode, x: DhtNode)
    requires Spine(own, t, []) && Indexed(t) && Capped(k, t, true) && k <= n
    requires SameRouted(p, q) && p[0] != q[0] && FullRight(t, p, n) && FullRight(t, q, n)
    requires y in GetClosest(t, p, n) && x in Stored(t) && x !in GetClosest(t, p, n)
    ensures y.hash[0] == x.hash[0]
  {
    QueryIgnoresTopBit(t, p, q, n);
    FullRightPairs(own, k, t, p, n);
    FullRightPairs(own, k, t, q, n);
  }

  /** No query for n nodes leaves a node out, by the sizes of the buckets alone. */
  predicate NeverCut(t: Tree, n: nat) {
    match t
    case Leaf(_, _, contents) => |contents| <= n
    case Branch(_, _, first, second) =>
      NeverCut(first, n) && NeverCut(second, n) &&
      (Count(first) < n || Count(second) == 0) && (Count(second) < n || Count(first) == 0)
  }

  lemma {:induction false} NeverCutReturnsAll(t: Tree, target: Hash, n: nat)
    requires Indexed(t) && NeverCut(t, n)
    ensures multiset(GetClosest(t, target, n)) == Stored(t)
  {
    if t.Branch? {
      var near, far := Child(t, target), Sibling(t, target);
      NeverCutReturnsAll(near, target, n);
      NeverCutReturnsAll(far, target, n);
      StoredByChild(t, target, t);
      CountIsSize(near);
      CountIsSize(far);
      MultisetConcat(GetClosest(near, target, n), GetClosest(far, target, n));
    }
  }

  /** A hash on the path p. */
  function PathHash(p: seq<bool>): (h: Hash)
    requires |p| < BITS
    ensures OnPath(h, p)
  {
    seq(BITS, i requires 0 <= i < BITS => 1 <= i <= |p| && p[i - 1])
  }

  /** If the near child holds n nodes or more and the far one is not empty, a query leaves all of the far one out. */
  lemma FarLeftOut(own: Hash, t: Tree, p: seq<bool>, b: bool, n: nat) returns (probe: Hash, missing: DhtNode)
    requires t.Branch? && Spine(own, t, p) && Indexed(t)
    requires var near, far := if b then t.second else t.first, if b then t.first else t.second;
             Count(near) >= n && Count(far) > 0
    ensures OnPath(probe, p) && missing in Stored(t) && missing !in GetClosest(t, probe, n)
  {
    probe := PathHash(p + [b]);
    OnPathStep(probe, p, b);
    var near, far := Child(t, probe), Sibling(t, probe);
    CountIsSize(far);
    CountIsSize(near);
    missing :| missing in Stored(far);
    QueryStored(near, probe, n);
    if missing in GetClosest(near, probe, n) {
      assert missing in Stored(near);
      InOneChild(own, t, p, missing);
      assert false;
    }
  }

  lemma InOneChild(own: Hash, t: Tree, p: seq<bool>, x: DhtNode)
    requires t.Branch? && Spine(own, t, p)
    ensures !(x in Stored(t.first) && x in Stored(t.second))
  {
    NotInSibling(own, t, x, p);
  }

  lemma {:induction false} CutSomewhere(own: Hash, k: nat, t: Tree, p: seq<bool>, n: nat) returns (probe: Hash, missing: DhtNode)
    requires Spine(own, t, p) && Indexed(t) && Capped(k, t, true) && k <= n && !NeverCut(t, n)
    ensures OnPath(probe, p) && missing in Stored(t) && missing !in GetClosest(t, probe, n)
    decreases t
  {
    if !NeverCut(t.first, n) {
      probe, missing := CutSomewhere(own, k, t.first, p + [false], n);
      StillLeftOut(own, t, p, false, n, probe, missing);
    } else if !NeverCut(t.second, n) {
      probe, missing := CutSomewhere(own, k, t.second, p + [true], n);
      StillLeftOut(own, t, p, true, n, probe, missing);
    } else if Count(t.first) >= n && Count(t.second) > 0 {
      probe, missing := FarLeftOut(own, t, p, false, n);
    } else {
      probe, missing := FarLeftOut(own, t, p, true, n);
    }
  }

  /** What the near child leaves out, the far child does not supply. */
  lemma StillLeftOut(own: Hash, t: Tree, p: seq<bool>, b: bool, n: nat, probe: Hash, missing: DhtNode)
    requires t.Branch? && Spine(own, t, p) && Indexed(t) && OnPath(probe, p + [b])
    requires var near := if b then t.second else t.first;
             missing in Stored(near) && missing !in GetClosest(near, probe, n)
    ensures OnPath(probe, p) && missing in Stored(t) && missing !in GetClosest(t, probe, n)
  {
    OnPathStep(probe, p, b);
    InOneChild(own, t, p, missing);
    QueryStored(Sibling(t, probe), probe, n);
  }

  /**
   For n >= k, all targets are answered right under the full metric if and only if nothing is asked
   for, all stored nodes agree in bit 0, or the buckets are so small that every query returns them all.
   */
  lemma FullMetricForAllTargets(own: Hash, k: nat, t: Tree, n: nat)
    requires Spine(own, t, []) && Indexed(t) && Capped(k, t, true) && k <= n
    ensures (forall target: Hash :: FullRight(t, target, n)) <==> n == 0 || SameTopBit(t) || NeverCut(t, n)
  {
    if n == 0 || SameTopBit(t) || NeverCut(t, n) {
      forall target: Hash
        ensures FullRight(t, target, n)
      {
        RightForTarget(own, k, t, target, n);
      }
    } else if forall target: Hash :: FullRight(t, target, n) {
      var probe, missing := CutSomewhere(own, k, t, [], n);
      AllTargetsRight(own, k, t, n, probe, missing);
      assert false;
    }
  }

  lemma RightForTarget(own: Hash, k: nat, t: Tree, target: Hash, n: nat)
    requires Spine(own, t, []) && Indexed(t) && Capped(k, t, true) && k <= n
    requires n == 0 || SameTopBit(t) || NeverCut(t, n)
    ensures FullRight(t, target, n)
  {
    QueryStored(t, target, n);
    if n == 0 {
      NothingAsked(t, target);
    } else if SameTopBit(t) {
      FullRightPairs(own, k, t, target, n);
    } else {
      NeverCutReturnsAll(t, target, n);
      assert forall x :: x in Stored(t) ==> x in multiset(GetClosest(t, target, n));
    }
  }

  lemma {:induction false} NothingAsked(t: Tree, target: Hash)
    requires Indexed(t)
    ensures GetClosest(t, target, 0) == []
  {
    if t.Branch? {
      NothingAsked(Child(t, target), target);
    }
  }

  lemma AllTargetsRight(own: Hash, k: nat, t: Tree, n: nat, probe: Hash, missing: DhtNode)
    requires Spine(own, t, []) && Indexed(t) && Capped(k, t, true) && k <= n && n > 0
    requires missing in Stored(t) && missing !in GetClosest(t, probe, n)
    requires forall target: Hash :: FullRight(t, target, n)
    ensures SameTopBit(t)
  {
    var r, other: Hash := GetClosest(t, probe, n), probe[0 := !probe[0]];
    QueryStored(t, probe, n);
    assert FullRight(t, probe, n) && FullRight(t, other, n);
    forall y | y in r
      ensures y.hash[0] == missing.hash[0]
    {
      BothTargetsRight(own, k, t, probe, other, n, y, missing);
    }
    forall a | a in Stored(t)
      ensures a.hash[0] == missing.hash[0]
    {
      if a !in r {
        BothTargetsRight(own, k, t, probe, other, n, r[0], a);
      }
    }
  }

  lemma SplitApart(own: Hash, a: DhtNode, b: DhtNode)
    requires a.hash[1] == own[1] && b.hash[1] != own[1]
    ensures var mine, other := Leaf(1, true, [a]), Leaf(1, false, [b]);
            AddToLeaf(own, 1, {}, Leaf(0, true, [a]), b, false) ==
              Some(if own[1] then Branch(0, true, other, mine) else Branch(0, true, mine, other))
  {
    var t := Leaf(0, true, [a]);
    KeepAll([a], {});
    SideSingle(a, 1, own[1]);
    SideSingle(a, 1, !own[1]);
    var c := Child(SplitKept(own, {}, t), b.hash);
    assert c == Leaf(1, false, []) && [] + [b] == [b];
    assert AddToLeaf(own, 1, {}, c, b, false) == Some(Leaf(1, false, [b]));
  }

  lemma SideSingle(a: DhtNode, i: nat, b: bool)
    requires i < BITS
    ensures Side([a], i, b) == if a.hash[i] == b then [a] else []
  {
    assert [a][1..] == [];
  }

  /** And it can: two nodes, k = n = 1, and the answer is the farther one. */
  lemma FullMetricMissed(own: Hash, a: DhtNode, b: DhtNode)
    requires a.hash == own[0 := !own[0]] && b.hash == own[1 := !own[1]]
    ensures var t := Run(own, 1, Inserts([a, b]));
            t.Some? && GetClosest(t.value, own, 1) == [a] && b in Stored(t.value) && FullCloser(own, b.hash, a.hash)
  {
    RunInserts(own, 1, [a]);
    assert Inserts([a, b]) == Inserts([a]) + [Insert(b, false, {})];
    RunMore(own, 1, Inserts([a]), Insert(b, false, {}));
    SplitApart(own, a, b);
    FirstDifferingBit(XorBits(b.hash, own), XorBits(a.hash, own), 0);
  }

  // ----- a negative n -----

  lemma {:induction false} NegativeQuery(t: Tree, target: Hash, n: int)
    requires Indexed(t) && n < 0
    ensures GetClosest(t, target, n) == []
  {
    if t.Branch? {
      NegativeQuery(Child(t, target), target, n);
      NegativeQuery(Sibling(t, target), target, n);
    }
  }
}
