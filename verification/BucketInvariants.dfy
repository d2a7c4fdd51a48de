/** What every run of addNode, removeNode and rebuild keeps true of a k-bucket tree. */
module BucketInvariants {

  import opened Prelude
  import opened BitMetric
  import opened BucketTree

  // ----- the shape: a single spine along our own hash -----

  /** The hash agrees with the path p on bits 1..|p|. */
  ghost predicate OnPath(h: Hash, p: seq<bool>) {
    |p| < BITS && forall j :: 0 <= j < |p| ==> h[j + 1] == p[j]
  }

  /**
   t is a well-shaped bucket at path p: it is splittable exactly when our own hash lies on p,
   only splittable buckets have been split, and every stored node lies on its bucket's path.
   */
  ghost predicate Spine(own: Hash, t: Tree, p: seq<bool>)
    decreases t
  {
    t.index == |p| < BITS &&
    (t.splittable <==> OnPath(own, p)) &&
    match t
    case Leaf(_, _, contents) => forall x :: x in contents ==> OnPath(x.hash, p)
    case Branch(_, _, first, second) =>
      t.splittable && |p| + 1 < BITS && Spine(own, first, p + [false]) && Spine(own, second, p + [true])
  }

  lemma OnPathStep(h: Hash, p: seq<bool>, b: bool)
    requires |p| + 1 < BITS
    ensures OnPath(h, p + [b]) <==> OnPath(h, p) && h[|p| + 1] == b
  {
    var q := p + [b];
    assert q[|p|] == b;
    assert forall j :: 0 <= j < |p| ==> q[j] == p[j];
    if OnPath(h, q) {
      forall j | 0 <= j < |p|
        ensures h[j + 1] == p[j]
      {
        assert h[j + 1] == q[j];
      }
    }
  }

  lemma {:induction false} SpineIndexed(own: Hash, t: Tree, p: seq<bool>)
    requires Spine(own, t, p)
    ensures Indexed(t)
    decreases t
  {
    if t.Branch? {
      SpineIndexed(own, t.first, p + [false]);
      SpineIndexed(own, t.second, p + [true]);
    }
  }

  lemma {:induction false} SpineStored(own: Hash, t: Tree, p: seq<bool>, x: DhtNode)
    requires Spine(own, t, p) && x in Stored(t)
    ensures OnPath(x.hash, p)
    decreases t
  {
    if t.Branch? {
      if x in Stored(t.first) {
        SpineStored(own, t.first, p + [false], x);
        OnPathStep(x.hash, p, false);
      } else {
        SpineStored(own, t.second, p + [true], x);
        OnPathStep(x.hash, p, true);
      }
    }
  }

  function SplittableLeaves(t: Tree): nat {
    match t
    case Leaf(_, splittable, _) => if splittable then 1 else 0
    case Branch(_, _, first, second) => SplittableLeaves(first) + SplittableLeaves(second)
  }

  /** The buckets off our path are single leaves; on it, exactly one leaf may split, the one we route to. */
  lemma {:induction false} OneSplittableLeaf(own: Hash, t: Tree, p: seq<bool>)
    requires Spine(own, t, p)
    ensures Indexed(t)
    ensures !OnPath(own, p) ==> t.Leaf? && SplittableLeaves(t) == 0
    ensures OnPath(own, p) ==> SplittableLeaves(t) == 1 && Route(t, own).splittable
    decreases t
  {
    SpineIndexed(own, t, p);
    if t.Branch? {
      OnPathStep(own, p, false);
      OnPathStep(own, p, true);
      OneSplittableLeaf(own, t.first, p + [false]);
      OneSplittableLeaf(own, t.second, p + [true]);
    }
  }

  lemma SplitSpine(own: Hash, bad: set<DhtNode>, t: Tree, p: seq<bool>)
    requires t.Leaf? && t.splittable && Spine(own, t, p) && |p| + 1 < BITS
    ensures Spine(own, SplitKept(own, bad, t), p)
  {
    var kept := Keep(t.contents, bad);
    KeepMembers(t.contents, bad);
    SideSpine(own, kept, p, false);
    SideSpine(own, kept, p, true);
  }

  lemma SideSpine(own: Hash, s: seq<DhtNode>, p: seq<bool>, b: bool)
    requires |p| + 1 < BITS && OnPath(own, p) && forall x :: x in s ==> OnPath(x.hash, p)
    ensures Spine(own, Leaf(|p| + 1, own[|p| + 1] == b, Side(s, |p| + 1, b)), p + [b])
  {
    OnPathStep(own, p, b);
    SideMembers(s, |p| + 1, b);
    forall x | x in Side(s, |p| + 1, b)
      ensures OnPath(x.hash, p + [b])
    {
      OnPathStep(x.hash, p, b);
    }
  }

  lemma SettleMembers(k: nat, bad: set<DhtNode>, s: seq<DhtNode>, node: DhtNode, force: bool)
    ensures forall x :: x in Settle(k, bad, s, node, force) ==> x in s || x == node
  {
    KeepMembers(s, bad);
  }

  lemma {:induction false} AddToLeafSpine(own: Hash, k: nat, bad: set<DhtNode>, t: Tree, node: DhtNode, force: bool,
                                          p: seq<bool>)
    requires t.Leaf? && Spine(own, t, p) && OnPath(node.hash, p)
    ensures var r := AddToLeaf(own, k, bad, t, node, force);
            r.Some? ==> Spine(own, r.value, p)
    decreases BITS - t.index
  {
    if !MustSplit(k, bad, t, node) {
      SettleMembers(k, bad, t.contents, node, force);
    } else if t.index + 1 < BITS {
      SplitSpine(own, bad, t, p);
      OnPathStep(node.hash, p, node.hash[|p| + 1]);
      AddToLeafSpine(own, k, bad, Child(SplitKept(own, bad, t), node.hash), node, force, p + [node.hash[|p| + 1]]);
    }
  }

  lemma {:induction false} AddSpine(own: Hash, k: nat, bad: set<DhtNode>, t: Tree, node: DhtNode, force: bool, p: seq<bool>)
    requires Spine(own, t, p) && OnPath(node.hash, p)
    ensures Indexed(t)
    ensures var r := Add(own, k, bad, t, node, force);
            r.Some? ==> Spine(own, r.value, p)
    decreases t
  {
    SpineIndexed(own, t, p);
    if t.Leaf? {
      AddToLeafSpine(own, k, bad, t, node, force, p);
    } else {
      OnPathStep(node.hash, p, node.hash[|p| + 1]);
      AddSpine(own, k, bad, Child(t, node.hash), node, force, p + [node.hash[|p| + 1]]);
    }
  }

  lemma {:induction false} RemoveSpine(own: Hash, t: Tree, node: DhtNode, p: seq<bool>)
    requires Spine(own, t, p)
    ensures Indexed(t) && Spine(own, Remove(t, node), p)
    decreases t
  {
    SpineIndexed(own, t, p);
    if t.Leaf? {
      EraseFirstMembers(t.contents, node);
    } else {
      RemoveSpine(own, Child(t, node.hash), node, p + [node.hash[|p| + 1]]);
    }
  }

  // ----- capacities -----

  /** Splittable leaves hold at most k nodes; with `all`, so does every leaf. */
  predicate Capped(k: nat, t: Tree, all: bool) {
    match t
    case Leaf(_, splittable, contents) => splittable || all ==> |contents| <= k
    case Branch(_, _, first, second) => Capped(k, first, all) && Capped(k, second, all)
  }

  lemma SplitCapped(own: Hash, k: nat, bad: set<DhtNode>, t: Tree)
    requires t.Leaf? && t.index + 1 < BITS && |t.contents| <= k
    ensures Capped(k, SplitKept(own, bad, t), true)
  {
    KeepSize(t.contents, bad);
    SideSize(Keep(t.contents, bad), t.index + 1, false);
    SideSize(Keep(t.contents, bad), t.index + 1, true);
  }

  lemma {:induction false} CappedWeaken(k: nat, t: Tree)
    requires Capped(k, t, true)
    ensures Capped(k, t, false)
  {
    if t.Branch? {
      CappedWeaken(k, t.first);
      CappedWeaken(k, t.second);
    }
  }

  lemma {:induction false} AddToLeafCapped(own: Hash, k: nat, bad: set<DhtNode>, t: Tree, node: DhtNode, force: bool, all: bool)
    requires t.Leaf? && t.index < BITS && Capped(k, t, all) && (all ==> !force)
    ensures var r := AddToLeaf(own, k, bad, t, node, force);
            r.Some? ==> Capped(k, r.value, all)
    decreases BITS - t.index
  {
    if !MustSplit(k, bad, t, node) {
      KeepSize(t.contents, bad);
    } else if t.index + 1 < BITS {
      var b := SplitKept(own, bad, t);
      SplitCapped(own, k, bad, t);
      CappedWeaken(k, b);
      AddToLeafCapped(own, k, bad, Child(b, node.hash), node, force, all);
    }
  }

  lemma {:induction false} AddCapped(own: Hash, k: nat, bad: set<DhtNode>, t: Tree, node: DhtNode, force: bool, all: bool)
    requires Indexed(t) && Capped(k, t, all) && (all ==> !force)
    ensures var r := Add(own, k, bad, t, node, force);
            r.Some? ==> Capped(k, r.value, all)
  {
    if t.Leaf? {
      AddToLeafCapped(own, k, bad, t, node, force, all);
    } else {
      AddCapped(own, k, bad, Child(t, node.hash), node, force, all);
    }
  }

  lemma {:induction false} RemoveCapped(k: nat, t: Tree, node: DhtNode, all: bool)
    requires Indexed(t) && Capped(k, t, all)
    ensures Capped(k, Remove(t, node), all)
  {
    if t.Leaf? {
      EraseFirstMembers(t.contents, node);
    } else {
      RemoveCapped(k, Child(t, node.hash), node, all);
    }
  }

  lemma {:induction false} CountIsSize(t: Tree)
    ensures Count(t) == |Stored(t)|
  {
    if t.Branch? {
      CountIsSize(t.first);
      CountIsSize(t.second);
    }
  }

  /** A spine of small leaves holds at most k nodes per bit. */
  lemma {:induction false} CountBound(own: Hash, k: nat, t: Tree, p: seq<bool>, n: nat)
    requires Spine(own, t, p) && Capped(k, t, true) && n + |p| == BITS
    ensures Count(t) <= k * n
    decreases t
  {
    OneMore(k, n);
    if t.Branch? {
      var b := own[|p| + 1];
      OnPathStep(own, p, !b);
      CountBound(own, k, Child(t, own), p + [b], n - 1);
    }
  }

  // ----- conservation of the stored nodes -----

  /** Off our path and full of nodes that are not BAD: such a leaf turns an unforced new node away. */
  ghost predicate Refuses(k: nat, bad: set<DhtNode>, leaf: Tree, node: DhtNode, force: bool)
    requires leaf.Leaf?
  {
    !leaf.splittable && !force && |leaf.contents| >= k && node !in leaf.contents &&
    forall x :: x in leaf.contents ==> x !in bad
  }

  /** What a leaf still holds when it is offered a new node: a full one first erases its BAD nodes. */
  function Survivors(k: nat, bad: set<DhtNode>, leaf: Tree): seq<DhtNode>
    requires leaf.Leaf?
  {
    if |leaf.contents| < k then leaf.contents else Keep(leaf.contents, bad)
  }

  /** The node is let in unless it already sits in a full leaf or its final leaf refuses it. */
  ghost predicate Admits(k: nat, bad: set<DhtNode>, before: Tree, after: Tree, node: DhtNode, force: bool)
    requires before.Leaf? && after.Leaf?
  {
    |before.contents| < k || (node !in Survivors(k, bad, before) && !Refuses(k, bad, after, node, force))
  }

  /** What the call adds. */
  ghost function Admitted(k: nat, bad: set<DhtNode>, before: Tree, after: Tree, node: DhtNode, force: bool): multiset<DhtNode>
    requires before.Leaf? && after.Leaf?
  {
    if Admits(k, bad, before, after, node, force) then multiset{node} else multiset{}
  }

  lemma StoredByChild(t: Tree, h: Hash, c: Tree)
    requires t.Branch? && t.index + 1 < BITS
    ensures Stored(t) == Stored(Child(t, h)) + Stored(Sibling(t, h))
    ensures Stored(WithChild(t, h, c)) == Stored(c) + Stored(Sibling(t, h))
  {
  }

  /** Splitting moves the surviving nodes and loses none of them. */
  lemma SplitStored(own: Hash, bad: set<DhtNode>, t: Tree)
    requires t.Leaf? && t.index + 1 < BITS
    ensures Stored(SplitKept(own, bad, t)) == multiset(Keep(t.contents, bad))
  {
    SidesPartition(Keep(t.contents, bad), t.index + 1);
  }

  lemma SplitChild(own: Hash, bad: set<DhtNode>, t: Tree, h: Hash)
    requires t.Leaf? && t.index + 1 < BITS
    ensures var c := Child(SplitKept(own, bad, t), h);
            Keep(c.contents, bad) == c.contents && forall x :: x in c.contents ==> x in Keep(t.contents, bad)
  {
    SideMembers(Keep(t.contents, bad), t.index + 1, h[t.index + 1]);
    KeepMembers(t.contents, bad);
    KeepAll(Child(SplitKept(own, bad, t), h).contents, bad);
  }

  lemma SettleStored(k: nat, bad: set<DhtNode>, t: Tree, node: DhtNode, force: bool)
    requires t.Leaf? && !MustSplit(k, bad, t, node)
    ensures var after := t.(contents := Settle(k, bad, t.contents, node, force));
            Stored(after) == multiset(Survivors(k, bad, t)) + Admitted(k, bad, t, after, node, force)
  {
    KeepMembers(t.contents, bad);
  }

  lemma Beside(c: multiset<DhtNode>, sibling: multiset<DhtNode>, l: multiset<DhtNode>, r: multiset<DhtNode>,
               kept: multiset<DhtNode>, added: multiset<DhtNode>)
    requires r + l == c + kept + added
    ensures (r + sibling) + l == (c + sibling) + kept + added
  {
    assert (r + sibling) + l == (r + l) + sibling;
  }

  /** A split on the way does not change what is admitted. */
  lemma AdmittedAfterSplit(own: Hash, k: nat, bad: set<DhtNode>, t: Tree, node: DhtNode, force: bool)
    requires t.Leaf? && t.index + 1 < BITS && MustSplit(k, bad, t, node)
    requires AddToLeaf(own, k, bad, t, node, force).Some?
    ensures var c := Child(SplitKept(own, bad, t), node.hash);
            var r := AddToLeaf(own, k, bad, c, node, force);
            Survivors(k, bad, c) == c.contents && r.Some? && Indexed(r.value) &&
            Admitted(k, bad, t, Route(r.value, node.hash), node, force) ==
              Admitted(k, bad, c, Route(r.value, node.hash), node, force)
  {
    var c := Child(SplitKept(own, bad, t), node.hash);
    SplitChild(own, bad, t, node.hash);
    AddToLeafIndexed(own, k, bad, c, node, force);
    if |c.contents| < k {
      assert AddToLeaf(own, k, bad, c, node, force).value == c.(contents := c.contents + [node]);
    }
  }

  lemma {:induction false} AddToLeafStored(own: Hash, k: nat, bad: set<DhtNode>, t: Tree, node: DhtNode, force: bool)
    requires t.Leaf? && t.index < BITS
    requires AddToLeaf(own, k, bad, t, node, force).Some?
    ensures var r := AddToLeaf(own, k, bad, t, node, force).value;
            Indexed(r) &&
            Stored(r) == multiset(Survivors(k, bad, t)) + Admitted(k, bad, t, Route(r, node.hash), node, force)
    decreases BITS - t.index
  {
    AddToLeafIndexed(own, k, bad, t, node, force);
    if !MustSplit(k, bad, t, node) {
      SettleStored(k, bad, t, node, force);
    } else {
      var b := SplitKept(own, bad, t);
      var c := Child(b, node.hash);
      AdmittedAfterSplit(own, k, bad, t, node, force);
      AddToLeafStored(own, k, bad, c, node, force);
      var r := AddToLeaf(own, k, bad, c, node, force).value;
      StoredThroughSplit(own, bad, t, node.hash, r, Admitted(k, bad, c, Route(r, node.hash), node, force));
      RouteThroughChild(b, node.hash, r);
    }
  }

  lemma RouteThroughChild(b: Tree, h: Hash, r: Tree)
    requires b.Branch? && b.index + 1 < BITS && Indexed(WithChild(b, h, r))
    ensures Indexed(r) && Route(WithChild(b, h, r), h) == Route(r, h)
  {
  }

  lemma StoredThroughSplit(own: Hash, bad: set<DhtNode>, t: Tree, h: Hash, r: Tree, added: multiset<DhtNode>)
    requires t.Leaf? && t.index + 1 < BITS
    requires Stored(r) == Stored(Child(SplitKept(own, bad, t), h)) + added
    ensures Stored(WithChild(SplitKept(own, bad, t), h, r)) == multiset(Keep(t.contents, bad)) + added
  {
    var b := SplitKept(own, bad, t);
    SplitStored(own, bad, t);
    StoredByChild(b, h, r);
    Beside(Stored(Child(b, h)), Stored(Sibling(b, h)), multiset{}, Stored(r), multiset{}, added);
  }

  /**
   addNode changes the stored nodes only by evicting the BAD nodes of the one leaf the new node is
   routed to, and by adding the new node unless it is already there or its final leaf refuses it.
   */
  lemma {:induction false} AddStored(own: Hash, k: nat, bad: set<DhtNode>, t: Tree, node: DhtNode, force: bool)
    requires Indexed(t) && Add(own, k, bad, t, node, force).Some?
    ensures var r := Add(own, k, bad, t, node, force).value;
            var leaf := Route(t, node.hash);
            Indexed(r) &&
            Stored(r) + multiset(leaf.contents) ==
              Stored(t) + multiset(Survivors(k, bad, leaf)) + Admitted(k, bad, leaf, Route(r, node.hash), node, force)
  {
    AddIndexed(own, k, bad, t, node, force);
    if t.Leaf? {
      AddToLeafStored(own, k, bad, t, node, force);
    } else {
      var c, leaf := Child(t, node.hash), Route(t, node.hash);
      AddStored(own, k, bad, c, node, force);
      var r := Add(own, k, bad, c, node, force).value;
      StoredByChild(t, node.hash, r);
      var added := Admitted(k, bad, leaf, Route(r, node.hash), node, force);
      Beside(Stored(c), Stored(Sibling(t, node.hash)), multiset(leaf.contents), Stored(r),
             multiset(Survivors(k, bad, leaf)), added);
    }
  }

  /** removeNode takes out one occurrence of a stored node and nothing else. */
  lemma {:induction false} RemoveStored(own: Hash, t: Tree, node: DhtNode, p: seq<bool>)
    requires Spine(own, t, p)
    ensures Indexed(t) && Stored(Remove(t, node)) == Stored(t) - multiset{node}
    decreases t
  {
    SpineIndexed(own, t, p);
    if t.Leaf? {
      EraseFirstMultiset(t.contents, node);
    } else {
      var b := node.hash[|p| + 1];
      var c := Child(t, node.hash);
      RemoveStored(own, c, node, p + [b]);
      StoredByChild(t, node.hash, Remove(c, node));
      NotInSibling(own, t, node, p);
      RemoveBeside(Stored(c), Stored(Sibling(t, node.hash)), node);
    }
  }

  lemma NotInSibling(own: Hash, t: Tree, node: DhtNode, p: seq<bool>)
    requires t.Branch? && Spine(own, t, p)
    ensures node !in Stored(Sibling(t, node.hash))
  {
    var b := node.hash[|p| + 1];
    if node in Stored(Sibling(t, node.hash)) {
      SpineStored(own, Sibling(t, node.hash), p + [!b], node);
      OnPathStep(node.hash, p, !b);
      assert false;
    }
  }

  lemma RemoveBeside(c: multiset<DhtNode>, sibling: multiset<DhtNode>, x: DhtNode)
    requires x !in sibling
    ensures (c - multiset{x}) + sibling == (c + sibling) - multiset{x}
  {
  }

  /** A stored node is in the leaf its own hash routes to. */
  lemma {:induction false} StoredIsRouted(own: Hash, t: Tree, p: seq<bool>, d: DhtNode)
    requires Spine(own, t, p) && Indexed(t) && d in Stored(t)
    ensures d in Route(t, d.hash).contents
    decreases t
  {
    if t.Branch? {
      NotInSibling(own, t, d, p);
      StoredByChild(t, d.hash, t);
      StoredIsRouted(own, Child(t, d.hash), p + [d.hash[|p| + 1]], d);
    }
  }
}
