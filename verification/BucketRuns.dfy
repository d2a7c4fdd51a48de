/** Whole runs of a k-bucket tree: what every reachable tree satisfies, and when a call leaves the hash. */
module BucketRuns {

  import opened Prelude
  import opened BitMetric
  import opened BucketTree
  import opened BucketInvariants

  // ----- exactly when addNode reads a bit past the end of a hash -----

  ghost predicate AgreeFrom(a: Hash, b: Hash, i: nat)
    requires i <= BITS
  {
    a[i..] == b[i..]
  }

  /** Every further split would send all the nodes of the leaf, the new node and our own hash the same way. */
  ghost predicate Jammed(own: Hash, k: nat, bad: set<DhtNode>, t: Tree, node: DhtNode)
    requires t.Leaf? && t.index < BITS
  {
    t.splittable && |t.contents| >= k && node !in t.contents && AgreeFrom(node.hash, own, t.index + 1) &&
    forall x :: x in t.contents ==> x !in bad && AgreeFrom(x.hash, node.hash, t.index + 1)
  }

  lemma AgreeStep(a: Hash, b: Hash, i: nat)
    requires i < BITS
    ensures AgreeFrom(a, b, i) <==> a[i] == b[i] && AgreeFrom(a, b, i + 1)
  {
    assert a[i..] == [a[i]] + a[i + 1..] && b[i..] == [b[i]] + b[i + 1..];
    assert a[i..][1..] == a[i + 1..] && b[i..][1..] == b[i + 1..];
  }

  lemma {:induction false} SideAll(s: seq<DhtNode>, i: nat, b: bool)
    requires i < BITS && forall x :: x in s ==> x.hash[i] == b
    ensures Side(s, i, b) == s
  {
    if s != [] {
      assert s == [s[0]] + s[1..];
      SideAll(s[1..], i, b);
    }
  }

  /** A leaf at its limit that must split has no BAD nodes, and its child gets the nodes of one side. */
  lemma ChildOfFull(own: Hash, k: nat, bad: set<DhtNode>, t: Tree, node: DhtNode)
    requires t.Leaf? && t.index + 1 < BITS && MustSplit(k, bad, t, node) && |t.contents| <= k
    ensures var i := t.index + 1;
            |t.contents| == k && node !in t.contents && (forall x :: x in t.contents ==> x !in bad) &&
            Child(SplitKept(own, bad, t), node.hash) ==
              Leaf(i, own[i] == node.hash[i], Side(t.contents, i, node.hash[i]))
  {
    KeepSize(t.contents, bad);
    KeepMembers(t.contents, bad);
  }

  lemma JammedDown(own: Hash, k: nat, bad: set<DhtNode>, t: Tree, node: DhtNode)
    requires t.Leaf? && t.index + 1 < BITS && Jammed(own, k, bad, t, node)
    ensures var i := t.index + 1;
            Jammed(own, k, bad, Leaf(i, own[i] == node.hash[i], Side(t.contents, i, node.hash[i])), node)
  {
    var i := t.index + 1;
    AgreeStep(node.hash, own, i);
    forall x | x in t.contents
      ensures x.hash[i] == node.hash[i] && AgreeFrom(x.hash, node.hash, i + 1)
    {
      AgreeStep(x.hash, node.hash, i);
    }
    SideAll(t.contents, i, node.hash[i]);
  }

  lemma JammedUp(own: Hash, k: nat, bad: set<DhtNode>, t: Tree, node: DhtNode)
    requires t.Leaf? && t.splittable && t.index + 1 < BITS && |t.contents| <= k
    requires var i := t.index + 1;
             Jammed(own, k, bad, Leaf(i, own[i] == node.hash[i], Side(t.contents, i, node.hash[i])), node)
    ensures Jammed(own, k, bad, t, node)
  {
    var i := t.index + 1;
    SideSize(t.contents, i, node.hash[i]);
    SideMembers(t.contents, i, node.hash[i]);
    AgreeStep(node.hash, own, i);
    forall x | x in t.contents
      ensures AgreeFrom(x.hash, node.hash, i)
    {
      AgreeStep(x.hash, node.hash, i);
    }
  }

  /** A full leaf is jammed exactly when splitting it yields a jammed child. */
  lemma JammedInChild(own: Hash, k: nat, bad: set<DhtNode>, t: Tree, node: DhtNode)
    requires t.Leaf? && t.index + 1 < BITS && MustSplit(k, bad, t, node) && |t.contents| <= k
    ensures Jammed(own, k, bad, t, node) <==> Jammed(own, k, bad, Child(SplitKept(own, bad, t), node.hash), node)
  {
    ChildOfFull(own, k, bad, t, node);
    if Jammed(own, k, bad, t, node) {
      JammedDown(own, k, bad, t, node);
    } else if Jammed(own, k, bad, Child(SplitKept(own, bad, t), node.hash), node) {
      JammedUp(own, k, bad, t, node);
    }
  }

  lemma {:induction false} AddToLeafFails(own: Hash, k: nat, bad: set<DhtNode>, t: Tree, node: DhtNode, force: bool)
    requires t.Leaf? && t.index < BITS && Capped(k, t, false)
    ensures AddToLeaf(own, k, bad, t, node, force).None? <==> Jammed(own, k, bad, t, node)
    decreases BITS - t.index
  {
    if !MustSplit(k, bad, t, node) {
      if Jammed(own, k, bad, t, node) {
        KeepAll(t.contents, bad);
        assert false;
      }
    } else if t.index + 1 < BITS {
      SplitCapped(own, k, bad, t);
      CappedWeaken(k, SplitKept(own, bad, t));
      JammedInChild(own, k, bad, t, node);
      AddToLeafFails(own, k, bad, Child(SplitKept(own, bad, t), node.hash), node, force);
    } else {
      KeepSize(t.contents, bad);
      KeepMembers(t.contents, bad);
    }
  }

  lemma AgreeOnPath(a: Hash, b: Hash, p: seq<bool>)
    requires OnPath(a, p)
    ensures SameRouted(a, b) <==> OnPath(b, p) && AgreeFrom(a, b, |p| + 1)
  {
    var n := |p|;
    if OnPath(b, p) && AgreeFrom(a, b, n + 1) {
      forall i | 0 <= i < BITS - 1
        ensures a[1..][i] == b[1..][i]
      {
        if i >= n {
          assert a[n + 1..][i - n] == b[n + 1..][i - n];
        } else {
          assert a[i + 1] == p[i] == b[i + 1];
        }
      }
    }
    if SameRouted(a, b) {
      assert forall i :: 1 <= i < BITS ==> a[i] == a[1..][i - 1] == b[1..][i - 1] == b[i];
      assert a[n + 1..] == b[n + 1..];
    }
  }

  /** The leaf a new node is routed to is full, and everything involved differs from our hash in bit 0 at most. */
  ghost predicate OutOfBits(own: Hash, k: nat, bad: set<DhtNode>, leaf: Tree, node: DhtNode)
    requires leaf.Leaf?
  {
    |leaf.contents| >= k && node !in leaf.contents && SameRouted(node.hash, own) &&
    forall x :: x in leaf.contents ==> x !in bad && SameRouted(x.hash, node.hash)
  }

  /** addNode asks getBit for a bit at or past the end of the hash if and only if the leaf is out of bits. */
  lemma {:induction false} AddFails(own: Hash, k: nat, bad: set<DhtNode>, t: Tree, node: DhtNode, force: bool, p: seq<bool>)
    requires Spine(own, t, p) && OnPath(node.hash, p) && Capped(k, t, false)
    ensures Indexed(t)
    ensures Add(own, k, bad, t, node, force).None? <==> OutOfBits(own, k, bad, Route(t, node.hash), node)
    decreases t
  {
    SpineIndexed(own, t, p);
    if t.Leaf? {
      AddToLeafFails(own, k, bad, t, node, force);
      AgreeOnPath(node.hash, own, p);
      forall x | x in t.contents
        ensures SameRouted(x.hash, node.hash) <==> AgreeFrom(x.hash, node.hash, t.index + 1)
      {
        AgreeOnPath(x.hash, node.hash, p);
      }
    } else {
      OnPathStep(node.hash, p, node.hash[|p| + 1]);
      AddFails(own, k, bad, Child(t, node.hash), node, force, p + [node.hash[|p| + 1]]);
    }
  }

  // ----- runs -----

  datatype Op =
    | Insert(node: DhtNode, force: bool, bad: set<DhtNode>)
    | Delete(node: DhtNode)
    | Rebuild(newHash: Hash, nodes: seq<DhtNode>, bad: set<DhtNode>)

  /** One call on the root bucket. KBucket::rebuild never stores the hash it is given: `own` stays. */
  function Step(own: Hash, k: nat, t: Tree, op: Op): Option<Tree>
    requires Indexed(t)
  {
    match op
    case Insert(node, force, bad) => Add(own, k, bad, t, node, force)
    case Delete(node) => Some(Remove(t, node))
    case Rebuild(_, nodes, bad) => AddAll(own, k, bad, Empty(), nodes)
  }

  /** The tree after a run, or None once some call has left the hash. */
  function Run(own: Hash, k: nat, ops: seq<Op>): (r: Option<Tree>)
    ensures r.Some? ==> Indexed(r.value)
  {
    if ops == [] then Some(Empty())
    else
      match Run(own, k, ops[..|ops| - 1])
      case None => None
      case Some(t) => StepIndexed(own, k, t, ops[|ops| - 1]); Step(own, k, t, ops[|ops| - 1])
  }

  lemma {:induction false} AddAllIndexed(own: Hash, k: nat, bad: set<DhtNode>, t: Tree, nodes: seq<DhtNode>)
    requires Indexed(t)
    ensures AddAll(own, k, bad, t, nodes).Some? ==> Indexed(AddAll(own, k, bad, t, nodes).value)
    decreases |nodes|
  {
    if nodes != [] {
      AddIndexed(own, k, bad, t, nodes[0], false);
      match Add(own, k, bad, t, nodes[0], false)
      case None =>
      case Some(u) => AddAllIndexed(own, k, bad, u, nodes[1..]);
    }
  }

  lemma StepIndexed(own: Hash, k: nat, t: Tree, op: Op)
    requires Indexed(t)
    ensures Step(own, k, t, op).Some? ==> Indexed(Step(own, k, t, op).value)
  {
    match op
    case Insert(node, force, bad) => AddIndexed(own, k, bad, t, node, force);
    case Delete(node) => RemoveIndexed(t, node);
    case Rebuild(_, nodes, bad) => AddAllIndexed(own, k, bad, Empty(), nodes);
  }

  /** No forced addition since the last rebuild. */
  predicate Unforced(ops: seq<Op>) {
    ops == [] ||
    (match ops[|ops| - 1]
     case Rebuild(_, _, _) => true
     case Insert(_, force, _) => !force && Unforced(ops[..|ops| - 1])
     case Delete(_) => Unforced(ops[..|ops| - 1]))
  }

  lemma {:induction false} AddAllKeeps(own: Hash, k: nat, bad: set<DhtNode>, t: Tree, nodes: seq<DhtNode>)
    requires Spine(own, t, []) && Capped(k, t, true) && Indexed(t)
    ensures var r := AddAll(own, k, bad, t, nodes);
            r.Some? ==> Spine(own, r.value, []) && Capped(k, r.value, true)
    decreases |nodes|
  {
    if nodes != [] {
      AddIndexed(own, k, bad, t, nodes[0], false);
      AddSpine(own, k, bad, t, nodes[0], false, []);
      AddCapped(own, k, bad, t, nodes[0], false, true);
      match Add(own, k, bad, t, nodes[0], false)
      case None =>
      case Some(u) => AddAllKeeps(own, k, bad, u, nodes[1..]);
    }
  }

  lemma {:induction false} RunKeeps(own: Hash, k: nat, ops: seq<Op>)
    requires Run(own, k, ops).Some?
    ensures var t := Run(own, k, ops).value;
            Spine(own, t, []) && Capped(k, t, false) && (Unforced(ops) ==> Capped(k, t, true))
  {
    if ops != [] {
      var before, op := ops[..|ops| - 1], ops[|ops| - 1];
      RunKeeps(own, k, before);
      var t := Run(own, k, before).value;
      match op
      case Insert(node, force, bad) =>
        AddSpine(own, k, bad, t, node, force, []);
        AddCapped(own, k, bad, t, node, force, false);
        if Unforced(ops) {
          AddCapped(own, k, bad, t, node, force, true);
        }
      case Delete(node) =>
        RemoveSpine(own, t, node, []);
        RemoveCapped(k, t, node, false);
        if Unforced(ops) {
          RemoveCapped(k, t, node, true);
        }
      case Rebuild(_, nodes, bad) =>
        AddAllKeeps(own, k, bad, Empty(), nodes);
        CappedWeaken(k, Run(own, k, ops).value);
    }
  }

  /** Every reachable tree is a single spine with one splittable leaf, of bounded size. */
  lemma ReachableTree(own: Hash, k: nat, ops: seq<Op>)
    requires Run(own, k, ops).Some?
    ensures var t := Run(own, k, ops).value;
            Spine(own, t, []) && Capped(k, t, false) &&
            SplittableLeaves(t) == 1 && Route(t, own).splittable && Count(t) == |Stored(t)| &&
            (Unforced(ops) ==> Capped(k, t, true) && Count(t) <= k * BITS)
  {
    var t := Run(own, k, ops).value;
    RunKeeps(own, k, ops);
    OneSplittableLeaf(own, t, []);
    CountIsSize(t);
    if Unforced(ops) {
      CountBound(own, k, t, [], BITS);
    }
  }

  // ----- what rebuild stores -----

  lemma {:induction false} KeepCount(s: seq<DhtNode>, bad: set<DhtNode>, x: DhtNode)
    requires x !in bad
    ensures multiset(Keep(s, bad))[x] == multiset(s)[x]
  {
    if s != [] {
      assert s == [s[0]] + s[1..];
      KeepCount(s[1..], bad, x);
    }
  }

  /** A stored node that is not BAD stays stored. */
  lemma StaysStored(own: Hash, k: nat, bad: set<DhtNode>, t: Tree, node: DhtNode, force: bool, x: DhtNode)
    requires Indexed(t) && Add(own, k, bad, t, node, force).Some? && x !in bad
    ensures Stored(Add(own, k, bad, t, node, force).value)[x] >= Stored(t)[x]
  {
    var r, leaf := Add(own, k, bad, t, node, force).value, Route(t, node.hash);
    AddStored(own, k, bad, t, node, force);
    KeepCount(leaf.contents, bad, x);
    var full, kept := multiset(leaf.contents), multiset(Survivors(k, bad, leaf));
    var added := Admitted(k, bad, leaf, Route(r, node.hash), node, force);
    assert (Stored(r) + full)[x] == (Stored(t) + kept + added)[x];
  }

  /** A leaf that turned a node away is not changed by further unforced additions. */
  lemma {:induction false} FullLeafStays(own: Hash, k: nat, bad: set<DhtNode>, t: Tree, node: DhtNode, h: Hash)
    requires Indexed(t) && Add(own, k, bad, t, node, false).Some?
    requires var leaf := Route(t, h);
             !leaf.splittable && |leaf.contents| >= k && forall y :: y in leaf.contents ==> y !in bad
    ensures var r := Add(own, k, bad, t, node, false).value;
            Indexed(r) && Route(r, h) == Route(t, h)
  {
    AddIndexed(own, k, bad, t, node, false);
    if t.Leaf? {
      KeepAll(t.contents, bad);
    } else if h[t.index + 1] == node.hash[t.index + 1] {
      FullLeafStays(own, k, bad, Child(t, node.hash), node, h);
    }
  }

  /** The node is stored, or the leaf it is routed to is full of nodes that are not BAD and off our path. */
  ghost predicate Placed(k: nat, bad: set<DhtNode>, t: Tree, x: DhtNode)
    requires Indexed(t)
  {
    x in Stored(t) || Refuses(k, bad, Route(t, x.hash), x, false)
  }

  lemma PlacedStays(own: Hash, k: nat, bad: set<DhtNode>, t: Tree, node: DhtNode, x: DhtNode)
    requires Indexed(t) && Add(own, k, bad, t, node, false).Some? && x !in bad && Placed(k, bad, t, x)
    ensures Indexed(Add(own, k, bad, t, node, false).value) && Placed(k, bad, Add(own, k, bad, t, node, false).value, x)
  {
    AddIndexed(own, k, bad, t, node, false);
    if x in Stored(t) {
      StaysStored(own, k, bad, t, node, false, x);
    } else {
      FullLeafStays(own, k, bad, t, node, x.hash);
    }
  }

  /** The node just offered is placed. */
  lemma NewlyPlaced(own: Hash, k: nat, bad: set<DhtNode>, t: Tree, x: DhtNode)
    requires Indexed(t) && Add(own, k, bad, t, x, false).Some? && x !in bad
    ensures Indexed(Add(own, k, bad, t, x, false).value) && Placed(k, bad, Add(own, k, bad, t, x, false).value, x)
  {
    var r, leaf := Add(own, k, bad, t, x, false).value, Route(t, x.hash);
    AddStored(own, k, bad, t, x, false);
    StaysStored(own, k, bad, t, x, false, x);
    if Admits(k, bad, leaf, Route(r, x.hash), x, false) {
      KeepCount(leaf.contents, bad, x);
      var full, kept := multiset(leaf.contents), multiset(Survivors(k, bad, leaf));
      assert (Stored(r) + full)[x] == (Stored(t) + kept + multiset{x})[x];
    } else if x in Survivors(k, bad, leaf) {
      KeepMembers(leaf.contents, bad);
      RoutedWithin(t, x.hash);
      assert multiset(leaf.contents)[x] > 0;
    }
  }

  lemma {:induction false} AllPlaced(own: Hash, k: nat, bad: set<DhtNode>, t: Tree, nodes: seq<DhtNode>, x: DhtNode)
    requires Indexed(t) && AddAll(own, k, bad, t, nodes).Some? && x !in bad && (x in nodes || Placed(k, bad, t, x))
    ensures Indexed(AddAll(own, k, bad, t, nodes).value) && Placed(k, bad, AddAll(own, k, bad, t, nodes).value, x)
    decreases |nodes|
  {
    if nodes != [] {
      AddIndexed(own, k, bad, t, nodes[0], false);
      if x == nodes[0] {
        NewlyPlaced(own, k, bad, t, x);
      } else if Placed(k, bad, t, x) {
        PlacedStays(own, k, bad, t, nodes[0], x);
      }
      AllPlaced(own, k, bad, Add(own, k, bad, t, nodes[0], false).value, nodes[1..], x);
    }
  }

  lemma {:induction false} OnlyGiven(own: Hash, k: nat, bad: set<DhtNode>, t: Tree, nodes: seq<DhtNode>, x: DhtNode)
    requires Indexed(t) && AddAll(own, k, bad, t, nodes).Some?
    ensures Stored(AddAll(own, k, bad, t, nodes).value)[x] <= Stored(t)[x] + multiset(nodes)[x]
    decreases |nodes|
  {
    if nodes != [] {
      AddIndexed(own, k, bad, t, nodes[0], false);
      StoredWithin(own, k, bad, t, nodes[0], false);
      OnlyGiven(own, k, bad, Add(own, k, bad, t, nodes[0], false).value, nodes[1..], x);
      assert nodes == [nodes[0]] + nodes[1..];
    }
  }

  /** Up to k nodes just fill the root bucket, in the order given. */
  lemma {:induction false} FewAllStored(own: Hash, k: nat, bad: set<DhtNode>, s: seq<DhtNode>, nodes: seq<DhtNode>)
    requires |s| + |nodes| <= k
    ensures AddAll(own, k, bad, Leaf(0, true, s), nodes) == Some(Leaf(0, true, s + nodes))
    decreases |nodes|
  {
    if nodes == [] {
      assert s + nodes == s;
    } else {
      FewAllStored(own, k, bad, s + [nodes[0]], nodes[1..]);
      assert s + [nodes[0]] + nodes[1..] == s + nodes;
    }
  }

  /**
   What a rebuild that stays within the hash stores: only nodes it was given, no more often; of those that
   are not BAD, all except the ones whose leaf, off our path, is full of others that are not BAD; and all
   of them, in order, in the root bucket when there are at most k.
   */
  lemma RebuildStores(own: Hash, k: nat, newHash: Hash, nodes: seq<DhtNode>, bad: set<DhtNode>, t: Tree, x: DhtNode)
    requires Indexed(t) && Step(own, k, t, Rebuild(newHash, nodes, bad)).Some?
    ensures var r := Step(own, k, t, Rebuild(newHash, nodes, bad)).value;
            Indexed(r) && Stored(r)[x] <= multiset(nodes)[x] &&
            (x in nodes && x !in bad ==> (x in Stored(r) <==> !Refuses(k, bad, Route(r, x.hash), x, false))) &&
            (|nodes| <= k ==> r == Leaf(0, true, nodes) && Stored(r) == multiset(nodes))
  {
    var r := Step(own, k, t, Rebuild(newHash, nodes, bad)).value;
    StepIndexed(own, k, t, Rebuild(newHash, nodes, bad));
    OnlyGiven(own, k, bad, Empty(), nodes, x);
    assert Stored(Empty()) == multiset{};
    if x in nodes && x !in bad {
      AllPlaced(own, k, bad, Empty(), nodes, x);
      if x in Stored(r) {
        AddAllKeeps(own, k, bad, Empty(), nodes);
        StoredIsRouted(own, r, [], x);
      }
    }
    if |nodes| <= k {
      FewAllStored(own, k, bad, [], nodes);
      assert [] + nodes == nodes;
    }
  }

  // ----- runs over nodes with distinct hashes never leave the hash -----

  /** No node twice, and no two nodes with the same hash. */
  ghost predicate DistinctHashes(m: multiset<DhtNode>) {
    (forall x :: m[x] <= 1) && forall x, y :: x in m && y in m && x.hash == y.hash ==> x == y
  }

  ghost predicate NewTo(m: multiset<DhtNode>, node: DhtNode) {
    forall x :: x in m ==> x.hash != node.hash
  }

  ghost predicate FreshOp(t: Tree, op: Op) {
    match op
    case Insert(node, _, _) => NewTo(Stored(t), node)
    case Delete(_) => true
    case Rebuild(_, nodes, _) => DistinctHashes(multiset(nodes))
  }

  ghost predicate FreshRun(own: Hash, k: nat, ops: seq<Op>) {
    ops == [] ||
    (FreshRun(own, k, ops[..|ops| - 1]) &&
     (Run(own, k, ops[..|ops| - 1]).Some? ==> FreshOp(Run(own, k, ops[..|ops| - 1]).value, ops[|ops| - 1])))
  }

  lemma DistinctSub(m: multiset<DhtNode>, n: multiset<DhtNode>)
    requires DistinctHashes(n) && forall x :: m[x] <= n[x]
    ensures DistinctHashes(m)
  {
    assert forall x :: x in m ==> x in n;
  }

  lemma DistinctAdd(m: multiset<DhtNode>, node: DhtNode)
    requires DistinctHashes(m) && NewTo(m, node)
    ensures DistinctHashes(m + multiset{node})
  {
  }

  lemma {:induction false} KeepWithin(s: seq<DhtNode>, bad: set<DhtNode>)
    ensures forall x :: multiset(Keep(s, bad))[x] <= multiset(s)[x]
  {
    if s != [] {
      assert s == [s[0]] + s[1..];
      KeepWithin(s[1..], bad);
    }
  }

  lemma {:induction false} RoutedWithin(t: Tree, h: Hash)
    requires Indexed(t)
    ensures forall x :: multiset(Route(t, h).contents)[x] <= Stored(t)[x]
  {
    if t.Branch? {
      RoutedWithin(Child(t, h), h);
      StoredByChild(t, h, t);
    }
  }

  /** Pigeonhole: among distinct hashes, k >= 2 nodes and a new one cannot agree on all routed bits. */
  lemma NeverOutOfBits(own: Hash, k: nat, bad: set<DhtNode>, t: Tree, node: DhtNode)
    requires k >= 2 && Indexed(t) && DistinctHashes(Stored(t)) && NewTo(Stored(t), node)
    ensures !OutOfBits(own, k, bad, Route(t, node.hash), node)
  {
    var leaf := Route(t, node.hash);
    if OutOfBits(own, k, bad, leaf, node) {
      RoutedWithin(t, node.hash);
      TwoDifferent(leaf.contents);
      Pigeonhole(leaf.contents[0].hash, node.hash, leaf.contents[1].hash);
      assert false;
    }
  }

  lemma TwoDifferent(s: seq<DhtNode>)
    requires |s| >= 2 && forall x :: multiset(s)[x] <= 1
    ensures s[0] != s[1]
  {
    assert s == [s[0], s[1]] + s[2..];
    assert multiset(s)[s[0]] <= 1;
  }

  lemma StoredWithin(own: Hash, k: nat, bad: set<DhtNode>, t: Tree, node: DhtNode, force: bool)
    requires Indexed(t) && Add(own, k, bad, t, node, force).Some?
    ensures forall x :: Stored(Add(own, k, bad, t, node, force).value)[x] <= (Stored(t) + multiset{node})[x]
  {
    var r, leaf := Add(own, k, bad, t, node, force).value, Route(t, node.hash);
    AddStored(own, k, bad, t, node, force);
    KeepWithin(leaf.contents, bad);
    var full, kept := multiset(leaf.contents), multiset(Survivors(k, bad, leaf));
    var added := Admitted(k, bad, leaf, Route(r, node.hash), node, force);
    forall x
      ensures Stored(r)[x] <= Stored(t)[x] + added[x]
    {
      assert (Stored(r) + full)[x] == (Stored(t) + kept + added)[x];
    }
  }

  /** addNode of a new node never fails among distinct hashes, and keeps them distinct. */
  lemma FreshAdd(own: Hash, k: nat, bad: set<DhtNode>, t: Tree, node: DhtNode, force: bool)
    requires k >= 2 && Spine(own, t, []) && Indexed(t) && Capped(k, t, false)
    requires DistinctHashes(Stored(t)) && NewTo(Stored(t), node)
    ensures var r := Add(own, k, bad, t, node, force);
            r.Some? && forall x :: Stored(r.value)[x] <= (Stored(t) + multiset{node})[x]
  {
    AddFails(own, k, bad, t, node, force, []);
    NeverOutOfBits(own, k, bad, t, node);
    StoredWithin(own, k, bad, t, node, force);
  }

  lemma {:induction false} FreshAddAll(own: Hash, k: nat, bad: set<DhtNode>, t: Tree, nodes: seq<DhtNode>)
    requires k >= 2 && Spine(own, t, []) && Indexed(t) && Capped(k, t, true)
    requires DistinctHashes(Stored(t) + multiset(nodes))
    ensures var r := AddAll(own, k, bad, t, nodes);
            r.Some? && DistinctHashes(Stored(r.value))
    decreases |nodes|
  {
    if nodes == [] {
      assert Stored(t) + multiset(nodes) == Stored(t);
    } else {
      var x, rest := nodes[0], nodes[1..];
      assert nodes == [x] + rest;
      var all := Stored(t) + multiset(nodes);
      assert all == (Stored(t) + multiset{x}) + multiset(rest);
      DistinctSub(Stored(t), all);
      assert x in all && all[x] <= 1;
      assert NewTo(Stored(t), x) by {
        assert forall y :: y in Stored(t) ==> y in all;
        assert all[x] >= Stored(t)[x] + 1;
      }
      CappedWeaken(k, t);
      FreshAdd(own, k, bad, t, x, false);
      AddIndexed(own, k, bad, t, x, false);
      AddSpine(own, k, bad, t, x, false, []);
      AddCapped(own, k, bad, t, x, false, true);
      var u := Add(own, k, bad, t, x, false).value;
      DistinctSub(Stored(u) + multiset(rest), all);
      FreshAddAll(own, k, bad, u, rest);
    }
  }

  /** With k >= 2, a run that only adds nodes whose hash is not stored yet never leaves the hash. */
  lemma {:induction false} FreshRunsSucceed(own: Hash, k: nat, ops: seq<Op>)
    requires k >= 2 && FreshRun(own, k, ops)
    ensures Run(own, k, ops).Some? && DistinctHashes(Stored(Run(own, k, ops).value))
  {
    if ops == [] {
      assert Stored(Empty()) == multiset{};
    } else {
      var before, op := ops[..|ops| - 1], ops[|ops| - 1];
      FreshRunsSucceed(own, k, before);
      RunKeeps(own, k, before);
      var t := Run(own, k, before).value;
      match op
      case Insert(node, force, bad) =>
        FreshAdd(own, k, bad, t, node, force);
        DistinctAdd(Stored(t), node);
        DistinctSub(Stored(Run(own, k, ops).value), Stored(t) + multiset{node});
      case Delete(node) =>
        RemoveStored(own, t, node, []);
        DistinctSub(Stored(Remove(t, node)), Stored(t));
      case Rebuild(_, nodes, bad) =>
        assert Stored(Empty()) + multiset(nodes) == multiset(nodes);
        FreshAddAll(own, k, bad, Empty(), nodes);
    }
  }

  function Inserts(s: seq<DhtNode>): seq<Op> {
    seq(|s|, i requires 0 <= i < |s| => Insert(s[i], false, {}))
  }

  /** k >= 2 is needed: leaves of one node run out of bits on two distinct hashes. */
  lemma TwoPerLeafNeeded(own: Hash, a: DhtNode, b: DhtNode)
    requires a.hash == own && b.hash == own[0 := !own[0]]
    ensures Run(own, 1, Inserts([a, b])).None?
  {
    RunInserts(own, 1, [a]);
    assert [a] + [b] == [a, b] && b.hash[0] != a.hash[0];
    RunFull(own, 1, [a], b);
  }

  /** Freshness is needed: with k = 2, adding the same node twice leads there as well. */
  lemma FreshnessNeeded(own: Hash, a: DhtNode, b: DhtNode)
    requires a.hash == own && b.hash == own[0 := !own[0]]
    ensures Run(own, 2, Inserts([a, a, b])).None?
  {
    RunInserts(own, 2, [a, a]);
    assert [a, a] + [b] == [a, a, b] && b.hash[0] != a.hash[0];
    RunFull(own, 2, [a, a], b);
  }

  /** The first k nodes just fill the root bucket. */
  lemma {:induction false} RunInserts(own: Hash, k: nat, s: seq<DhtNode>)
    requires |s| <= k
    ensures Run(own, k, Inserts(s)) == Some(Leaf(0, true, s))
  {
    if s != [] {
      var before, x := s[..|s| - 1], s[|s| - 1];
      RunInserts(own, k, before);
      assert s == before + [x] && Inserts(s) == Inserts(before) + [Insert(x, false, {})];
      RunMore(own, k, Inserts(before), Insert(x, false, {}));
    }
  }

  lemma RunFull(own: Hash, k: nat, s: seq<DhtNode>, b: DhtNode)
    requires |s| >= k && Run(own, k, Inserts(s)) == Some(Leaf(0, true, s)) && b !in s && SameRouted(b.hash, own)
    requires forall x :: x in s ==> SameRouted(x.hash, b.hash)
    ensures Run(own, k, Inserts(s + [b])).None?
  {
    assert Inserts(s + [b]) == Inserts(s) + [Insert(b, false, {})];
    RunMore(own, k, Inserts(s), Insert(b, false, {}));
    RunKeeps(own, k, Inserts(s));
    AddFails(own, k, {}, Leaf(0, true, s), b, false, []);
  }

  lemma RunMore(own: Hash, k: nat, ops: seq<Op>, op: Op)
    requires Run(own, k, ops).Some?
    ensures Run(own, k, ops + [op]) == Step(own, k, Run(own, k, ops).value, op)
  {
    assert (ops + [op])[..|ops|] == ops;
  }
}
