/**
 The k-bucket tree as a value (src/daemon/dht/KBucket.cpp).

 `Tree` is what a KBucket object and everything it owns amount to. The class in KBucket.dfy
 is proved against the functions here; the laws are proved about these functions.
 The own hash and k are shared by every bucket of a tree and are passed as parameters, and so
 is `bad`, the set of nodes whose reliability is BAD at the time of the call.
 */
module BucketTree {

  import opened Prelude
  import opened BitMetric

  /** A DHTNode pointer together with the hash of the node it points to. */
  datatype DhtNode = DhtNode(handle: nat, hash: Hash)

  datatype Tree =
    | Leaf(index: nat, splittable: bool, contents: seq<DhtNode>)
    | Branch(index: nat, splittable: bool, first: Tree, second: Tree)

  /** Every bucket splits on an existing bit and its children carry the next index. */
  predicate Indexed(t: Tree) {
    t.index < BITS &&
    (t.Branch? ==>
       t.index + 1 < BITS && t.first.index == t.second.index == t.index + 1 && Indexed(t.first) && Indexed(t.second))
  }

  /** The nodes held in the leaves, with their multiplicities. */
  function Stored(t: Tree): multiset<DhtNode> {
    match t
    case Leaf(_, _, contents) => multiset(contents)
    case Branch(_, _, first, second) => Stored(first) + Stored(second)
  }

  function Count(t: Tree): nat {
    match t
    case Leaf(_, _, contents) => |contents|
    case Branch(_, _, first, second) => Count(first) + Count(second)
  }

  // ----- lists -----

  /** What erasing the BAD nodes leaves. */
  function Keep(s: seq<DhtNode>, bad: set<DhtNode>): seq<DhtNode> {
    if s == [] then [] else (if s[0] in bad then [] else [s[0]]) + Keep(s[1..], bad)
  }

  /** The nodes whose bit i is b, in order. */
  function Side(s: seq<DhtNode>, i: nat, b: bool): seq<DhtNode>
    requires i < BITS
  {
    if s == [] then [] else (if s[0].hash[i] == b then [s[0]] else []) + Side(s[1..], i, b)
  }

  function EraseFirst(s: seq<DhtNode>, x: DhtNode): seq<DhtNode> {
    if s == [] then [] else if s[0] == x then s[1..] else [s[0]] + EraseFirst(s[1..], x)
  }

  /** What the leaf loop of getClosest collects. */
  function Take(s: seq<DhtNode>, n: int): seq<DhtNode> {
    if n <= 0 then [] else if n < |s| then s[..n] else s
  }

  // ----- operations -----

  function Empty(): Tree { Leaf(0, true, []) }

  /** KBucket::split. */
  function Split(own: Hash, t: Tree): Tree
    requires t.Leaf? && t.index + 1 < BITS
  {
    var i, mine := t.index + 1, own[t.index + 1];
    Branch(t.index, t.splittable, Leaf(i, !mine, Side(t.contents, i, false)), Leaf(i, mine, Side(t.contents, i, true)))
  }

  /** KBucket::determineBucket of a split bucket. */
  function Child(t: Tree, h: Hash): Tree
    requires t.Branch? && t.index + 1 < BITS
  {
    if h[t.index + 1] then t.second else t.first
  }

  function Sibling(t: Tree, h: Hash): Tree
    requires t.Branch? && t.index + 1 < BITS
  {
    if h[t.index + 1] then t.first else t.second
  }

  function WithChild(t: Tree, h: Hash, c: Tree): Tree
    requires t.Branch? && t.index + 1 < BITS
  {
    if h[t.index + 1] then t.(second := c) else t.(first := c)
  }

  /** The leaf a hash is routed to. */
  function Route(t: Tree, h: Hash): (leaf: Tree)
    requires Indexed(t)
    ensures leaf.Leaf?
  {
    if t.Leaf? then t else Route(Child(t, h), h)
  }

  /** A leaf that is still full once its BAD nodes are erased, and that may split. */
  predicate MustSplit(k: nat, bad: set<DhtNode>, t: Tree, node: DhtNode)
    requires t.Leaf?
  {
    |t.contents| >= k && node !in Keep(t.contents, bad) && |Keep(t.contents, bad)| >= k && t.splittable
  }

  /** The list of a leaf that need not split, after the attempt to add the node. */
  function Settle(k: nat, bad: set<DhtNode>, s: seq<DhtNode>, node: DhtNode, force: bool): seq<DhtNode> {
    if |s| < k then s + [node]
    else
      var kept := Keep(s, bad);
      if node !in kept && (|kept| < k || force) then kept + [node] else kept
  }

  /** The bucket that results from splitting a leaf whose BAD nodes have been erased. */
  function SplitKept(own: Hash, bad: set<DhtNode>, t: Tree): (b: Tree)
    requires t.Leaf? && t.index + 1 < BITS
    ensures b.Branch? && b.index == t.index && b.splittable == t.splittable
    ensures b.first.Leaf? && b.second.Leaf? && b.first.index == b.second.index == t.index + 1
  {
    Split(own, t.(contents := Keep(t.contents, bad)))
  }

  /** KBucket::addNode on an unsplit bucket. None stands for reading a bit past the end of a hash. */
  function AddToLeaf(own: Hash, k: nat, bad: set<DhtNode>, t: Tree, node: DhtNode, force: bool): Option<Tree>
    requires t.Leaf? && t.index < BITS
    decreases BITS - t.index
  {
    if !MustSplit(k, bad, t, node) then Some(t.(contents := Settle(k, bad, t.contents, node, force)))
    else if t.index + 1 >= BITS then None
    else
      var b := SplitKept(own, bad, t);
      match AddToLeaf(own, k, bad, Child(b, node.hash), node, force)
      case None => None
      case Some(c) => Some(WithChild(b, node.hash, c))
  }

  /** KBucket::addNode. */
  function Add(own: Hash, k: nat, bad: set<DhtNode>, t: Tree, node: DhtNode, force: bool): Option<Tree>
    requires Indexed(t)
  {
    if t.Leaf? then AddToLeaf(own, k, bad, t, node, force)
    else
      match Add(own, k, bad, Child(t, node.hash), node, force)
      case None => None
      case Some(c) => Some(WithChild(t, node.hash, c))
  }

  /** KBucket::removeNode. */
  function Remove(t: Tree, node: DhtNode): Tree
    requires Indexed(t)
  {
    if t.Leaf? then t.(contents := EraseFirst(t.contents, node))
    else WithChild(t, node.hash, Remove(Child(t, node.hash), node))
  }

  /** The addNode calls of KBucket::rebuild, in order, all unforced. */
  function AddAll(own: Hash, k: nat, bad: set<DhtNode>, t: Tree, nodes: seq<DhtNode>): Option<Tree>
    requires Indexed(t)
    decreases |nodes|
  {
    if nodes == [] then Some(t)
    else
      match Add(own, k, bad, t, nodes[0], false)
      case None => None
      case Some(u) => AddIndexed(own, k, bad, t, nodes[0], false); AddAll(own, k, bad, u, nodes[1..])
  }

  /** size_t against int: a negative n is converted to a huge unsigned number. */
  predicate Fewer(size: nat, n: int) {
    n < 0 || size < n
  }

  /** KBucket::getClosest. */
  function GetClosest(t: Tree, target: Hash, n: int): seq<DhtNode>
    requires Indexed(t)
  {
    if t.Leaf? then Take(t.contents, n)
    else
      var near := GetClosest(Child(t, target), target, n);
      if Fewer(|near|, n) then near + GetClosest(Sibling(t, target), target, n) else near
  }

  // ----- the operations keep the indices in range -----

  lemma {:induction false} AddToLeafIndexed(own: Hash, k: nat, bad: set<DhtNode>, t: Tree, node: DhtNode, force: bool)
    requires t.Leaf? && t.index < BITS
    ensures var r := AddToLeaf(own, k, bad, t, node, force);
            r.Some? ==> Indexed(r.value) && r.value.index == t.index && r.value.splittable == t.splittable
    decreases BITS - t.index
  {
    if MustSplit(k, bad, t, node) && t.index + 1 < BITS {
      AddToLeafIndexed(own, k, bad, Child(SplitKept(own, bad, t), node.hash), node, force);
    }
  }

  lemma {:induction false} AddIndexed(own: Hash, k: nat, bad: set<DhtNode>, t: Tree, node: DhtNode, force: bool)
    requires Indexed(t)
    ensures var r := Add(own, k, bad, t, node, force);
            r.Some? ==> Indexed(r.value) && r.value.index == t.index && r.value.splittable == t.splittable
  {
    if t.Leaf? {
      AddToLeafIndexed(own, k, bad, t, node, force);
    } else {
      AddIndexed(own, k, bad, Child(t, node.hash), node, force);
    }
  }

  lemma {:induction false} RemoveIndexed(t: Tree, node: DhtNode)
    requires Indexed(t)
    ensures Indexed(Remove(t, node)) && Remove(t, node).index == t.index
  {
    if t.Branch? {
      RemoveIndexed(Child(t, node.hash), node);
    }
  }

  // ----- facts about the lists -----

  lemma {:induction false} KeepSize(s: seq<DhtNode>, bad: set<DhtNode>)
    ensures |Keep(s, bad)| <= |s|
    ensures |Keep(s, bad)| == |s| ==> Keep(s, bad) == s
  {
    if s != [] {
      assert s == [s[0]] + s[1..];
      KeepSize(s[1..], bad);
    }
  }

  lemma {:induction false} KeepMembers(s: seq<DhtNode>, bad: set<DhtNode>)
    ensures forall x :: x in Keep(s, bad) <==> x in s && x !in bad
  {
    if s != [] {
      assert s == [s[0]] + s[1..];
      KeepMembers(s[1..], bad);
    }
  }

  lemma {:induction false} KeepAll(s: seq<DhtNode>, bad: set<DhtNode>)
    requires forall x :: x in s ==> x !in bad
    ensures Keep(s, bad) == s
  {
    if s != [] {
      assert s == [s[0]] + s[1..];
      KeepAll(s[1..], bad);
    }
  }

  lemma {:induction false} SideSize(s: seq<DhtNode>, i: nat, b: bool)
    requires i < BITS
    ensures |Side(s, i, b)| <= |s|
    ensures |Side(s, i, b)| == |s| ==> Side(s, i, b) == s
  {
    if s != [] {
      assert s == [s[0]] + s[1..];
      SideSize(s[1..], i, b);
    }
  }

  lemma {:induction false} SideMembers(s: seq<DhtNode>, i: nat, b: bool)
    requires i < BITS
    ensures forall x :: x in Side(s, i, b) <==> x in s && x.hash[i] == b
  {
    if s != [] {
      assert s == [s[0]] + s[1..];
      SideMembers(s[1..], i, b);
    }
  }

  lemma {:induction false} SidesPartition(s: seq<DhtNode>, i: nat)
    requires i < BITS
    ensures multiset(Side(s, i, false)) + multiset(Side(s, i, true)) == multiset(s)
  {
    if s != [] {
      assert s == [s[0]] + s[1..];
      SidesPartition(s[1..], i);
    }
  }

  lemma {:induction false} EraseFirstMultiset(s: seq<DhtNode>, x: DhtNode)
    ensures multiset(EraseFirst(s, x)) == multiset(s) - multiset{x}
  {
    if s != [] {
      assert s == [s[0]] + s[1..];
      if s[0] != x {
        EraseFirstMultiset(s[1..], x);
      }
    }
  }

  lemma {:induction false} EraseFirstMembers(s: seq<DhtNode>, x: DhtNode)
    ensures |EraseFirst(s, x)| <= |s|
    ensures forall y :: y in EraseFirst(s, x) ==> y in s
  {
    if s != [] && s[0] != x {
      EraseFirstMembers(s[1..], x);
    }
  }

  lemma {:induction false} EraseFirstAt(s: seq<DhtNode>, x: DhtNode, i: nat)
    requires i <= |s| && x !in s[..i] && (i < |s| ==> s[i] == x)
    ensures EraseFirst(s, x) == if i < |s| then s[..i] + s[i + 1..] else s
  {
    if i > 0 {
      assert s[..i] == [s[0]] + s[1..][..i - 1] && s == [s[0]] + s[1..];
      EraseFirstAt(s[1..], x, i - 1);
    }
  }
}
