/** The mutable k-bucket tree, proved against the functions of BucketTree (src/daemon/dht/KBucket.cpp). */
module KBuckets {

  import opened Prelude
  import opened BitMetric
  import opened BucketTree

  class KBucket {
    const index: nat
    const k: nat
    const splittable: bool
    const own: Hash
    var first: KBucket?
    var second: KBucket?
    var contents: seq<DhtNode>
    ghost var Model: Tree  // the tree this bucket is the root of
    ghost var Repr: set<object>

    ghost predicate Valid()
      reads this, Repr
      ensures Valid() ==> this in Repr
      decreases Repr, 0
    {
      this in Repr && index < BITS && Indexed(Model) && (first == null <==> second == null) &&
      (first == null ==> Model == Leaf(index, splittable, contents)) &&
      (first != null && second != null ==>
         first in Repr && second in Repr && Repr == {this} + first.Repr + second.Repr &&
         Model == Branch(index, splittable, first.Model, second.Model) &&
         Parents(first, second) && first.Valid() && second.Valid())
    }

    /** a and b are separate buckets one level below this split bucket. */
    ghost predicate Parents(a: KBucket, b: KBucket)
      reads this, a, b
    {
      contents == [] && index + 1 < BITS && a.Repr !! b.Repr && this !in a.Repr && this !in b.Repr &&
      a.index == b.index == index + 1 && a.k == b.k == k && a.own == b.own == own
    }

    /** The public constructor: a root bucket for our own hash. */
    constructor (nodeHash: Hash, k: nat)
      ensures Valid() && fresh(Repr) && Model == Empty()
      ensures own == nodeHash && this.k == k
    {
      index, splittable, own := 0, true, nodeHash;
      this.k := k;
      first, second, contents := null, null, [];
      Model, Repr := Empty(), {this};
    }

    constructor Nested(index: nat, splittable: bool, own: Hash, k: nat)
      requires index < BITS
      ensures Valid() && Repr == {this} && Model == Leaf(index, splittable, [])
      ensures this.own == own && this.k == k
    {
      this.index, this.splittable, this.own, this.k := index, splittable, own, k;
      first, second, contents := null, null, [];
      Model, Repr := Leaf(index, splittable, []), {this};
    }

    method DetermineBucket(hash: Hash) returns (bucket: KBucket)
      requires Valid()
      ensures first == null ==> bucket == this
      ensures first != null ==> bucket == if hash[index + 1] then second else first
    {
      if first == null || second == null {
        bucket := this;
      } else if !hash[index + 1] {
        bucket := first;
      } else {
        bucket := second;
      }
    }

    method Split()
      requires Valid() && index + 1 < BITS
      modifies this
      ensures Valid() && fresh(Repr - old(Repr))
      ensures old(first) != null || !splittable ==> unchanged(this)
      ensures old(first) == null && splittable ==> first != null && Model == BucketTree.Split(own, old(Model))
    {
      if first != null || !splittable {
        return;
      }
      var mine := own[index + 1];
      var lower := new KBucket.Nested(index + 1, !mine, own, k);
      var upper := new KBucket.Nested(index + 1, mine, own, k);
      Distribute(contents, index + 1, lower, upper);
      first, second, contents := lower, upper, [];
      Adopt();
    }

    /** The loop of split: each node goes to the bucket its bit selects. */
    static method Distribute(nodes: seq<DhtNode>, bit: nat, lower: KBucket, upper: KBucket)
      requires bit < BITS && lower != upper && lower.Repr == {lower} && upper.Repr == {upper}
      requires lower.Valid() && upper.Valid() && lower.contents == [] && upper.contents == []
      modifies lower, upper
      ensures lower.Valid() && lower.Repr == {lower} && lower.Model == old(lower.Model).(contents := Side(nodes, bit, false))
      ensures upper.Valid() && upper.Repr == {upper} && upper.Model == old(upper.Model).(contents := Side(nodes, bit, true))
    {
      var i := 0;
      while i < |nodes|
        invariant 0 <= i <= |nodes|
        invariant lower.Valid() && lower.Repr == {lower} && lower.Model == old(lower.Model).(contents := Side(nodes[..i], bit, false))
        invariant upper.Valid() && upper.Repr == {upper} && upper.Model == old(upper.Model).(contents := Side(nodes[..i], bit, true))
      {
        SideAppend(nodes[..i], nodes[i], bit);
        assert nodes[..i + 1] == nodes[..i] + [nodes[i]];
        var target := if nodes[i].hash[bit] then upper else lower;
        target.contents := target.contents + [nodes[i]];
        target.Model := target.Model.(contents := target.contents);
        i := i + 1;
      }
      assert nodes[..|nodes|] == nodes;
    }

    /** inRange is false when the call would read a bit past the end of a hash. */
    method AddNode(node: DhtNode, force: bool, bad: set<DhtNode>) returns (inRange: bool)
      requires Valid()
      modifies Repr
      ensures Valid() && fresh(Repr - old(Repr))
      ensures inRange <==> Add(own, k, bad, old(Model), node, force).Some?
      ensures inRange ==> Some(Model) == Add(own, k, bad, old(Model), node, force)
      decreases BITS - index
    {
      inRange := true;
      if first == null {
        if |contents| < k {
          contents := contents + [node];
          Model := Model.(contents := contents);
        } else {
          contents := Keep(contents, bad);
          Model := Model.(contents := contents);
          if node in contents {
            return;
          }
          if |contents| >= k && splittable {
            inRange := SplitAndAdd(node, force, bad);
          } else if |contents| < k || force {
            contents := contents + [node];
            Model := Model.(contents := contents);
          }
        }
      } else {
        inRange := AddBelow(node, force, bad);
      }
    }

    /** The full, splittable bucket of addNode: split, then add below. */
    method SplitAndAdd(node: DhtNode, force: bool, bad: set<DhtNode>) returns (inRange: bool)
      requires Valid() && first == null && splittable
      modifies Repr
      ensures Valid() && fresh(Repr - old(Repr))
      ensures inRange ==> index + 1 < BITS
      ensures index + 1 < BITS ==>
                var b := BucketTree.Split(own, old(Model));
                (inRange <==> Add(own, k, bad, Child(b, node.hash), node, force).Some?) &&
                (inRange ==> Model == WithChild(b, node.hash, Add(own, k, bad, Child(b, node.hash), node, force).value))
      decreases BITS - index, 2
    {
      if index + 1 >= BITS {
        return false;
      }
      Split();
      inRange := AddBelow(node, force, bad);
    }

    /** determineBucket(node_hash)->addNode(node, force) on a split bucket. */
    method AddBelow(node: DhtNode, force: bool, bad: set<DhtNode>) returns (inRange: bool)
      requires Valid() && first != null
      modifies Repr
      ensures Valid() && first != null && fresh(Repr - old(Repr))
      ensures inRange <==> Add(own, k, bad, Child(old(Model), node.hash), node, force).Some?
      ensures inRange ==>
                Model == WithChild(old(Model), node.hash, Add(own, k, bad, Child(old(Model), node.hash), node, force).value)
      decreases BITS - index, 1
    {
      if node.hash[index + 1] {
        inRange := AddToSecond(node, force, bad);
      } else {
        inRange := AddToFirst(node, force, bad);
      }
    }

    method AddToFirst(node: DhtNode, force: bool, bad: set<DhtNode>) returns (inRange: bool)
      requires Valid() && first != null
      modifies Repr
      ensures Valid() && first != null && fresh(Repr - old(Repr))
      ensures inRange <==> Add(own, k, bad, old(Model).first, node, force).Some?
      ensures inRange ==> Model == old(Model).(first := Add(own, k, bad, old(Model).first, node, force).value)
      decreases BITS - index, 0
    {
      inRange := first.AddNode(node, force, bad);
      assert second.Valid();
      Adopt();
    }

    method AddToSecond(node: DhtNode, force: bool, bad: set<DhtNode>) returns (inRange: bool)
      requires Valid() && first != null
      modifies Repr
      ensures Valid() && first != null && fresh(Repr - old(Repr))
      ensures inRange <==> Add(own, k, bad, old(Model).second, node, force).Some?
      ensures inRange ==> Model == old(Model).(second := Add(own, k, bad, old(Model).second, node, force).value)
      decreases BITS - index, 0
    {
      inRange := second.AddNode(node, force, bad);
      assert first.Valid();
      Adopt();
    }

    /** Brings the ghost fields up to date after a change in one of the two children. */
    ghost method Adopt()
      requires first != null && second != null && first.Valid() && second.Valid() && Parents(first, second)
      modifies this
      ensures Valid() && first == old(first) && second == old(second)
      ensures Repr == {this} + first.Repr + second.Repr && Model == Branch(index, splittable, first.Model, second.Model)
    {
      Repr := {this} + first.Repr + second.Repr;
      Model := Branch(index, splittable, first.Model, second.Model);
    }

    method RemoveNode(node: DhtNode)
      requires Valid()
      modifies Repr
      ensures Valid() && Repr == old(Repr)
      ensures Model == Remove(old(Model), node)
      decreases BITS - index
    {
      if first == null {
        contents := Erase(contents, node);
        Model := Model.(contents := contents);
      } else {
        RemoveBelow(node);
      }
    }

    method RemoveBelow(node: DhtNode)
      requires Valid() && first != null
      modifies Repr
      ensures Valid() && first != null && Repr == old(Repr)
      ensures Model == WithChild(old(Model), node.hash, Remove(Child(old(Model), node.hash), node))
      decreases BITS - index, 1
    {
      if node.hash[index + 1] {
        RemoveFromSecond(node);
      } else {
        RemoveFromFirst(node);
      }
    }

    method RemoveFromFirst(node: DhtNode)
      requires Valid() && first != null
      modifies Repr
      ensures Valid() && first != null && Repr == old(Repr)
      ensures Model == old(Model).(first := Remove(old(Model).first, node))
      decreases BITS - index, 0
    {
      first.RemoveNode(node);
      assert second.Valid();
      Adopt();
    }

    method RemoveFromSecond(node: DhtNode)
      requires Valid() && first != null
      modifies Repr
      ensures Valid() && first != null && Repr == old(Repr)
      ensures Model == old(Model).(second := Remove(old(Model).second, node))
      decreases BITS - index, 0
    {
      second.RemoveNode(node);
      assert first.Valid();
      Adopt();
    }

    method GetClosest(hash: Hash, n: int) returns (result: seq<DhtNode>)
      requires Valid()
      ensures result == BucketTree.GetClosest(Model, hash, n)
      decreases BITS - index
    {
      if first == null || second == null {
        result := [];
        var i := 0;
        while i < n && i < |contents|
          invariant 0 <= i <= |contents| && result == contents[..i] && (i <= n || i == 0)
        {
          result := result + [contents[i]];
          i := i + 1;
        }
      } else {
        var near := DetermineBucket(hash);
        var far := if near == first then second else first;
        result := near.GetClosest(hash, n);
        if Fewer(|result|, n) {
          var appendix := far.GetClosest(hash, n);
          result := result + appendix;
        }
      }
    }

    /** The hash argument is ignored, as in the source: the bucket keeps its own hash. */
    method Rebuild(nodeHash: Hash, nodes: seq<DhtNode>, bad: set<DhtNode>) returns (inRange: bool)
      requires Valid()
      modifies Repr
      ensures Valid() && fresh(Repr - old(Repr))
      ensures inRange <==> AddAll(own, k, bad, Leaf(index, splittable, []), nodes).Some?
      ensures inRange ==> Some(Model) == AddAll(own, k, bad, Leaf(index, splittable, []), nodes)
    {
      contents, first, second := [], null, null;
      Model, Repr := Leaf(index, splittable, []), {this};
      inRange := AddEach(nodes, bad);
    }

    /** The loop of rebuild. */
    method AddEach(nodes: seq<DhtNode>, bad: set<DhtNode>) returns (inRange: bool)
      requires Valid()
      modifies Repr
      ensures Valid() && fresh(Repr - old(Repr))
      ensures inRange <==> AddAll(own, k, bad, old(Model), nodes).Some?
      ensures inRange ==> Some(Model) == AddAll(own, k, bad, old(Model), nodes)
    {
      inRange := true;
      var i := 0;
      while i < |nodes|
        invariant 0 <= i <= |nodes| && Valid() && fresh(Repr - old(Repr))
        invariant AddAll(own, k, bad, old(Model), nodes) == AddAll(own, k, bad, Model, nodes[i..])
      {
        AddAllStep(own, k, bad, Model, nodes, i);
        inRange := AddNode(nodes[i], false, bad);
        if !inRange {
          return;
        }
        i := i + 1;
      }
    }

    method Count() returns (n: nat)
      requires Valid()
      ensures n == BucketTree.Count(Model)
      decreases BITS - index
    {
      if first != null && second != null {
        var a := first.Count();
        var b := second.Count();
        n := a + b;
      } else {
        n := |contents|;
      }
    }
  }

  lemma AddAllStep(own: Hash, k: nat, bad: set<DhtNode>, t: Tree, nodes: seq<DhtNode>, i: nat)
    requires Indexed(t) && i < |nodes|
    ensures match Add(own, k, bad, t, nodes[i], false)
            case None => AddAll(own, k, bad, t, nodes[i..]) == None
            case Some(u) => Indexed(u) && AddAll(own, k, bad, t, nodes[i..]) == AddAll(own, k, bad, u, nodes[i + 1..])
  {
    AddIndexed(own, k, bad, t, nodes[i], false);
    assert nodes[i..][0] == nodes[i] && nodes[i..][1..] == nodes[i + 1..];
  }

  /** std::find followed by erase. */
  method Erase(s: seq<DhtNode>, x: DhtNode) returns (r: seq<DhtNode>)
    ensures r == EraseFirst(s, x)
  {
    var i := 0;
    while i < |s| && s[i] != x
      invariant 0 <= i <= |s| && x !in s[..i]
    {
      i := i + 1;
    }
    EraseFirstAt(s, x, i);
    r := if i < |s| then s[..i] + s[i + 1..] else s;
  }

  lemma {:induction false} SideAppend(s: seq<DhtNode>, x: DhtNode, i: nat)
    requires i < BITS
    ensures forall b :: Side(s + [x], i, b) == Side(s, i, b) + if x.hash[i] == b then [x] else []
  {
    if s == [] {
      assert [x][1..] == [] && s + [x] == [x];
    } else {
      assert (s + [x])[1..] == s[1..] + [x];
      SideAppend(s[1..], x, i);
    }
  }
}
