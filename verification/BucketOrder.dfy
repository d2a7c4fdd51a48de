/** addNode leaf by leaf: which nodes each leaf holds afterwards, and in which order. */
module BucketOrder {

  import opened BitMetric
  import opened BucketTree
  import opened BucketInvariants

  /** The two hashes agree on bits i..j-1. */
  predicate Agree(a: Hash, b: Hash, i: nat, j: nat)
    requires i <= j <= BITS
  {
    a[i..j] == b[i..j]
  }

  /** The nodes that agree with the hash on bits i..j-1, in order. */
  function Agreeing(s: seq<DhtNode>, h: Hash, i: nat, j: nat): seq<DhtNode>
    requires i <= j <= BITS
  {
    if s == [] then [] else (if Agree(s[0].hash, h, i, j) then [s[0]] else []) + Agreeing(s[1..], h, i, j)
  }

  lemma {:induction false} AgreeingAll(s: seq<DhtNode>, h: Hash, i: nat)
    requires i <= BITS
    ensures Agreeing(s, h, i, i) == s
  {
    if s != [] {
      AgreeingAll(s[1..], h, i);
      assert s == [s[0]] + s[1..];
    }
  }

  lemma AgreeFirst(a: Hash, b: Hash, i: nat, j: nat)
    requires i < j <= BITS
    ensures Agree(a, b, i, j) <==> a[i] == b[i] && Agree(a, b, i + 1, j)
  {
    assert a[i..j] == [a[i]] + a[i + 1..j] && b[i..j] == [b[i]] + b[i + 1..j];
    assert a[i..j][1..] == a[i + 1..j] && b[i..j][1..] == b[i + 1..j];
  }

  /** Taking one side first and filtering by the later bits is filtering by all of them. */
  lemma {:induction false} AgreeingSide(s: seq<DhtNode>, h: Hash, i: nat, j: nat)
    requires i < j <= BITS
    ensures Agreeing(Side(s, i, h[i]), h, i + 1, j) == Agreeing(s, h, i, j)
  {
    if s != [] {
      AgreeingSide(s[1..], h, i, j);
      AgreeFirst(s[0].hash, h, i, j);
      var rest := Side(s[1..], i, h[i]);
      assert ([s[0]] + rest)[1..] == rest;
      assert [] + rest == rest;
    }
  }

  /**
   What a leaf at or below index - 1 holds once the list s has been distributed and the node offered:
   the nodes of s that agree with a hash routed there, in order, and the node last if it is let in and
   agrees as well.
   */
  ghost predicate InOrder(s: seq<DhtNode>, index: nat, leaf: Tree, node: DhtNode, admits: bool, h: Hash)
    requires leaf.Leaf?
  {
    index <= leaf.index < BITS && leaf.contents == Expected(s, index + 1, leaf.index + 1, node, admits, h)
  }

  /** The nodes of s that agree with the hash on bits i..j-1, and the node if it is let in and does so too. */
  function Expected(s: seq<DhtNode>, i: nat, j: nat, node: DhtNode, admits: bool, h: Hash): seq<DhtNode>
    requires i <= j <= BITS
  {
    Agreeing(s, h, i, j) + if admits && Agree(node.hash, h, i, j) then [node] else []
  }

  lemma ExpectedSide(s: seq<DhtNode>, i: nat, j: nat, node: DhtNode, admits: bool, h: Hash)
    requires i < j <= BITS && h[i] == node.hash[i]
    ensures Expected(Side(s, i, h[i]), i + 1, j, node, admits, h) == Expected(s, i, j, node, admits, h)
  {
    AgreeingSide(s, h, i, j);
    AgreeFirst(node.hash, h, i, j);
  }

  lemma SettleAdmits(k: nat, bad: set<DhtNode>, t: Tree, node: DhtNode, force: bool)
    requires t.Leaf? && !MustSplit(k, bad, t, node)
    ensures var after := t.(contents := Settle(k, bad, t.contents, node, force));
            after.contents == Survivors(k, bad, t) + if Admits(k, bad, t, after, node, force) then [node] else []
  {
    KeepMembers(t.contents, bad);
  }

  lemma UnsplitInOrder(s: seq<DhtNode>, leaf: Tree, node: DhtNode, admits: bool, h: Hash)
    requires leaf.Leaf? && leaf.index < BITS && leaf.contents == s + if admits then [node] else []
    ensures InOrder(s, leaf.index, leaf, node, admits, h)
  {
    AgreeingAll(s, h, leaf.index + 1);
  }

  /** Below a split, on the side the hash takes with the new node. */
  lemma InOrderAbove(s: seq<DhtNode>, index: nat, leaf: Tree, node: DhtNode, admits: bool, h: Hash)
    requires leaf.Leaf? && index + 1 < BITS && h[index + 1] == node.hash[index + 1]
    requires InOrder(Side(s, index + 1, h[index + 1]), index + 1, leaf, node, admits, h)
    ensures InOrder(s, index, leaf, node, admits, h)
  {
    ExpectedSide(s, index + 1, leaf.index + 1, node, admits, h);
  }

  /** And on the other side. */
  lemma InOrderBeside(s: seq<DhtNode>, index: nat, leaf: Tree, node: DhtNode, admits: bool, h: Hash)
    requires leaf.Leaf? && index + 1 < BITS && h[index + 1] != node.hash[index + 1]
    requires leaf.index == index + 1 && leaf.contents == Side(s, index + 1, h[index + 1])
    ensures InOrder(s, index, leaf, node, admits, h)
  {
    AgreeingAll(leaf.contents, h, index + 2);
    AgreeingSide(s, h, index + 1, index + 2);
    AgreeFirst(node.hash, h, index + 1, index + 2);
  }

  /** Where a hash is routed after a split leaf has taken the new node on one side. */
  lemma RouteAfterSplit(own: Hash, bad: set<DhtNode>, t: Tree, node: DhtNode, r: Tree, h: Hash)
    requires t.Leaf? && t.index + 1 < BITS
    requires var all := WithChild(SplitKept(own, bad, t), node.hash, r);
             Indexed(all) && Indexed(r)
    ensures var all, i := WithChild(SplitKept(own, bad, t), node.hash, r), t.index + 1;
            Route(all, h) == if h[i] == node.hash[i] then Route(r, h)
                             else Leaf(i, own[i] == h[i], Side(Keep(t.contents, bad), i, h[i]))
  {
  }

  lemma {:induction false} AddToLeafInOrder(own: Hash, k: nat, bad: set<DhtNode>, t: Tree, node: DhtNode, force: bool, h: Hash)
    requires t.Leaf? && t.index < BITS && AddToLeaf(own, k, bad, t, node, force).Some?
    ensures var r := AddToLeaf(own, k, bad, t, node, force).value;
            Indexed(r) && InOrder(Survivors(k, bad, t), t.index, Route(r, h), node,
                                  Admits(k, bad, t, Route(r, node.hash), node, force), h)
    decreases BITS - t.index
  {
    AddToLeafIndexed(own, k, bad, t, node, force);
    var all := AddToLeaf(own, k, bad, t, node, force).value;
    if !MustSplit(k, bad, t, node) {
      SettleAdmits(k, bad, t, node, force);
      UnsplitInOrder(Survivors(k, bad, t), all, node, Admits(k, bad, t, all, node, force), h);
    } else {
      AddToLeafInOrder(own, k, bad, Child(SplitKept(own, bad, t), node.hash), node, force, h);
      SplitInOrder(own, k, bad, t, node, force, h);
    }
  }

  /** The step over a split. */
  lemma SplitInOrder(own: Hash, k: nat, bad: set<DhtNode>, t: Tree, node: DhtNode, force: bool, h: Hash)
    requires t.Leaf? && t.index + 1 < BITS && MustSplit(k, bad, t, node) && AddToLeaf(own, k, bad, t, node, force).Some?
    requires Indexed(AddToLeaf(own, k, bad, t, node, force).value)
    requires var c := Child(SplitKept(own, bad, t), node.hash);
             var r := AddToLeaf(own, k, bad, c, node, force);
             r.Some? && Indexed(r.value) &&
             InOrder(Survivors(k, bad, c), c.index, Route(r.value, h), node,
                     Admits(k, bad, c, Route(r.value, node.hash), node, force), h)
    ensures var r := AddToLeaf(own, k, bad, t, node, force).value;
            InOrder(Survivors(k, bad, t), t.index, Route(r, h), node, Admits(k, bad, t, Route(r, node.hash), node, force), h)
  {
    var c := Child(SplitKept(own, bad, t), node.hash);
    var r, all := AddToLeaf(own, k, bad, c, node, force).value, AddToLeaf(own, k, bad, t, node, force).value;
    var admits := Admits(k, bad, c, Route(r, node.hash), node, force);
    AdmitsThroughSplit(own, k, bad, t, node, force);
    RouteAfterSplit(own, bad, t, node, r, h);
    OverSplit(own, Survivors(k, bad, t), t.index, Route(r, h), Route(all, h), node, admits, h);
  }

  lemma OverSplit(own: Hash, s: seq<DhtNode>, index: nat, below: Tree, leaf: Tree, node: DhtNode, admits: bool, h: Hash)
    requires below.Leaf? && index + 1 < BITS
    requires InOrder(Side(s, index + 1, node.hash[index + 1]), index + 1, below, node, admits, h)
    requires leaf == if h[index + 1] == node.hash[index + 1] then below
                     else Leaf(index + 1, own[index + 1] == h[index + 1], Side(s, index + 1, h[index + 1]))
    ensures InOrder(s, index, leaf, node, admits, h)
  {
    if h[index + 1] == node.hash[index + 1] {
      InOrderAbove(s, index, leaf, node, admits, h);
    } else {
      InOrderBeside(s, index, leaf, node, admits, h);
    }
  }

  lemma AdmitsAfterSplit(own: Hash, k: nat, bad: set<DhtNode>, t: Tree, node: DhtNode, force: bool)
    requires t.Leaf? && t.index + 1 < BITS && MustSplit(k, bad, t, node)
    requires AddToLeaf(own, k, bad, t, node, force).Some?
    ensures var c := Child(SplitKept(own, bad, t), node.hash);
            var r := AddToLeaf(own, k, bad, c, node, force);
            Survivors(k, bad, c) == c.contents == Side(Survivors(k, bad, t), t.index + 1, node.hash[t.index + 1]) &&
            r.Some? && Indexed(r.value) &&
            (Admits(k, bad, t, Route(r.value, node.hash), node, force) <==> Admits(k, bad, c, Route(r.value, node.hash), node, force))
  {
    AdmittedAfterSplit(own, k, bad, t, node, force);
    assert node in multiset{node};
  }

  lemma AdmitsThroughSplit(own: Hash, k: nat, bad: set<DhtNode>, t: Tree, node: DhtNode, force: bool)
    requires t.Leaf? && t.index + 1 < BITS && MustSplit(k, bad, t, node)
    requires AddToLeaf(own, k, bad, t, node, force).Some? && Indexed(AddToLeaf(own, k, bad, t, node, force).value)
    ensures var c, all := Child(SplitKept(own, bad, t), node.hash), AddToLeaf(own, k, bad, t, node, force).value;
            var r := AddToLeaf(own, k, bad, c, node, force);
            Survivors(k, bad, c) == Side(Survivors(k, bad, t), t.index + 1, node.hash[t.index + 1]) &&
            r.Some? && Indexed(r.value) && all == WithChild(SplitKept(own, bad, t), node.hash, r.value) &&
            (Admits(k, bad, t, Route(all, node.hash), node, force) <==> Admits(k, bad, c, Route(r.value, node.hash), node, force))
  {
    var r := AddToLeaf(own, k, bad, Child(SplitKept(own, bad, t), node.hash), node, force);
    AdmitsAfterSplit(own, k, bad, t, node, force);
    RouteAfterSplit(own, bad, t, node, r.value, node.hash);
  }

  /** Both hashes are routed to the same leaf. */
  predicate SameLeaf(t: Tree, a: Hash, b: Hash)
    requires Indexed(t)
  {
    t.Leaf? || (a[t.index + 1] == b[t.index + 1] && SameLeaf(Child(t, a), a, b))
  }

  /**
   The leaves the new node is not routed to stay as they are. The one it is routed to, or the leaves that
   one was split into, keep the surviving nodes in order, each under its own bits, with the new node, if
   it is let in, last in its leaf.
   */
  lemma {:induction false} AddLeafByLeaf(own: Hash, k: nat, bad: set<DhtNode>, t: Tree, node: DhtNode, force: bool, h: Hash)
    requires Indexed(t) && Add(own, k, bad, t, node, force).Some?
    ensures var r := Add(own, k, bad, t, node, force).value;
            var before := Route(t, node.hash);
            Indexed(r) &&
            if SameLeaf(t, node.hash, h) then
              InOrder(Survivors(k, bad, before), before.index, Route(r, h), node,
                      Admits(k, bad, before, Route(r, node.hash), node, force), h)
            else Route(r, h) == Route(t, h)
  {
    AddIndexed(own, k, bad, t, node, force);
    if t.Leaf? {
      AddToLeafInOrder(own, k, bad, t, node, force, h);
    } else {
      var c := Child(t, node.hash);
      var r := Add(own, k, bad, c, node, force).value;
      AddLeafByLeaf(own, k, bad, c, node, force, h);
      RouteThroughChild(t, node.hash, r);
      RouteThroughSame(t, node.hash, r, h);
    }
  }

  lemma RouteThroughSame(t: Tree, g: Hash, r: Tree, h: Hash)
    requires Indexed(t) && t.Branch? && Indexed(WithChild(t, g, r)) && Indexed(r)
    ensures Route(WithChild(t, g, r), h) == if g[t.index + 1] == h[t.index + 1] then Route(r, h) else Route(Child(t, h), h)
    ensures Route(t, h) == Route(Child(t, h), h)
  {
  }

  /**
   removeNode leaf by leaf: the first occurrence of the node goes from the leaf it is routed to, the
   others there keep their order, and no other leaf changes; a node not there changes nothing.
   */
  lemma {:induction false} RemoveLeafByLeaf(t: Tree, x: DhtNode, h: Hash, a: seq<DhtNode>, b: seq<DhtNode>)
    requires Indexed(t) && Route(t, x.hash).contents == a + b && x !in a && (b == [] || b[0] == x)
    ensures Indexed(Remove(t, x))
    ensures var before := Route(t, h);
            Route(Remove(t, x), h) ==
              if SameLeaf(t, x.hash, h) && b != [] then Leaf(before.index, before.splittable, a + b[1..]) else before
  {
    RemoveIndexed(t, x);
    if t.Leaf? {
      assert (a + b)[..|a|] == a && (b != [] ==> (a + b)[|a|] == b[0] && (a + b)[|a| + 1..] == b[1..]);
      EraseFirstAt(a + b, x, |a|);
    } else {
      RemoveLeafByLeaf(Child(t, x.hash), x, h, a, b);
    }
  }
}
