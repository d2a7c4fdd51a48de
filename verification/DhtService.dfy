/** The two users of the bucket tree in src/daemon/dht/DHTService.cpp: FIND_NODE replies and new searches. */
module DhtService {

  import opened Prelude
  import opened BitMetric
  import opened BucketTree
  import opened BucketRuns
  import opened BucketQuery
  import opened KBuckets

  /** The constructor's defaults. */
  const ALPHA: nat := 3
  const K: nat := 20

  type U16 = x: nat | x < 0x1_0000

  /** uint16_t converted to the int16_t parameter of getClosestTo. */
  function AsInt16(x: U16): int {
    if x < 0x8000 then x else x - 0x1_0000
  }

  // ----- answering FIND_NODE -----

  /** process(FIND_NODE): the nodes whose contacts go into the reply, in order. */
  function FindNodeReply(t: Tree, query: Hash, k: U16): seq<DhtNode>
    requires Indexed(t)
  {
    GetClosest(t, query, AsInt16(k))
  }

  method AnswerFindNode(buckets: KBucket, query: Hash, k: U16, contact: DhtNode -> string) returns (contacts: seq<string>)
    requires buckets.Valid()
    ensures var nodes := FindNodeReply(buckets.Model, query, k);
            |contacts| == |nodes| && forall i :: 0 <= i < |nodes| ==> contacts[i] == contact(nodes[i])
  {
    var nodes := buckets.GetClosest(query, AsInt16(k));
    contacts := [];
    for i := 0 to |nodes|
      invariant |contacts| == i && forall j :: 0 <= j < i ==> contacts[j] == contact(nodes[j])
    {
      contacts := contacts + [contact(nodes[i])];
    }
  }

  /**
   Over every run, forced or not, whatever size the buckets have: with a k that survives the conversion
   to int16_t the reply names at least min(k, count) nodes, and they are the nearest ones (bit 0
   ignored) if and only if the first k nodes of the cut leaf are nearer than its others, as they are
   when no leaf holds more than k; with a larger k the reply is empty however full the tree is.
   */
  lemma FindNodeReplyNearest(own: Hash, bucketK: nat, k: U16, ops: seq<Op>, query: Hash)
    requires Run(own, bucketK, ops).Some?
    ensures var t := Run(own, bucketK, ops).value;
            var r := FindNodeReply(t, query, k);
            (k < 0x8000 ==>
               |r| >= (if k < Count(t) then k else Count(t)) &&
               ((forall y, x :: y in r && x in Stored(t) && x !in r ==> Closer(query, y.hash, x.hash)) <==>
                LeafRight(CutLeaf(t, query, k), query, k)) &&
               (Unforced(ops) && bucketK <= k ==> LeafRight(CutLeaf(t, query, k), query, k))) &&
            (k >= 0x8000 ==> r == [])
  {
    var t := Run(own, bucketK, ops).value;
    if k < 0x8000 {
      ClosestExactly(own, bucketK, ops, query, k);
      if Unforced(ops) && bucketK <= k {
        ClosestOverRuns(own, bucketK, ops, query, k);
      }
    } else {
      NegativeQuery(t, query, AsInt16(k));
    }
  }

  // ----- starting a search -----

  /** c is among the nodes and none of them is closer to the hash. */
  ghost predicate Nearest(c: DhtNode, nodes: seq<DhtNode>, find: Hash) {
    c in nodes && forall x :: x in nodes ==> !FullCloser(find, x.hash, c.hash)
  }

  /** The first loop of findAnyIterative: the shortlist and the closest node of a new search. */
  method StartSearch(buckets: KBucket, find: Hash, alpha: nat) returns (closest: Option<DhtNode>, shortlist: set<DhtNode>)
    requires buckets.Valid()
    ensures var nodes := GetClosest(buckets.Model, find, alpha);
            shortlist == (set x | x in nodes) &&
            (closest.None? <==> nodes == []) && (closest.Some? ==> Nearest(closest.value, nodes, find))
  {
    var nodes := buckets.GetClosest(find, alpha);
    closest, shortlist := None, {};
    for i := 0 to |nodes|
      invariant shortlist == set x | x in nodes[..i]
      invariant closest.None? <==> i == 0
      invariant closest.Some? ==> Nearest(closest.value, nodes[..i], find)
    {
      var node := nodes[i];
      assert nodes[..i + 1] == nodes[..i] + [node];
      shortlist := shortlist + {node};
      match closest
      case None =>
        Irreflexive(find, node.hash);
        closest := Some(node);
      case Some(best) =>
        if LexLess(XorBits(node.hash, find), XorBits(best.hash, find)) {
          forall x | x in nodes[..i]
            ensures !FullCloser(find, x.hash, node.hash)
          {
            FullTransitive(find, x.hash, node.hash, best.hash);
          }
          Irreflexive(find, node.hash);
          closest := Some(node);
        }
    }
    assert nodes[..|nodes|] == nodes;
  }

  lemma Irreflexive(t: Hash, x: Hash)
    ensures !FullCloser(t, x, x)
  {
    LexLessIsNumeric(XorBits(x, t), XorBits(x, t));
  }

  lemma FullTransitive(t: Hash, x: Hash, y: Hash, z: Hash)
    ensures FullCloser(t, x, y) && FullCloser(t, y, z) ==> FullCloser(t, x, z)
  {
    LexLessIsNumeric(XorBits(x, t), XorBits(y, t));
    LexLessIsNumeric(XorBits(y, t), XorBits(z, t));
    LexLessIsNumeric(XorBits(x, t), XorBits(z, t));
  }

  /** Bit 0 decides the full metric where it separates two nodes, the masked one where it does not. */
  lemma FullCloserByTopBit(t: Hash, y: Hash, x: Hash)
    ensures FullCloser(t, y, x) <==> if y[0] == x[0] then Closer(t, y, x) else y[0] == t[0]
  {
    assert XorBits(y, t)[1..] == XorBits(y[1..], t[1..]);
    assert XorBits(x, t)[1..] == XorBits(x[1..], t[1..]);
  }

  /**
   Over every run, forced or not, and every alpha: a stored node is closer than the closest node of a
   new search if and only if bit 0 favours it, or it was cut off the last leaf visited and, bit 0 being
   equal, is closer there.
   */
  lemma SearchStartsNearest(own: Hash, k: nat, ops: seq<Op>, find: Hash, alpha: nat, c: DhtNode, x: DhtNode)
    requires Run(own, k, ops).Some?
    requires var t := Run(own, k, ops).value;
             Nearest(c, GetClosest(t, find, alpha), find) && x in Stored(t)
    ensures var leaf := CutLeaf(Run(own, k, ops).value, find, alpha).contents;
            FullCloser(find, x.hash, c.hash) <==>
              (x.hash[0] == find[0] && c.hash[0] != find[0]) ||
              (x.hash[0] == c.hash[0] && x in leaf && x !in Take(leaf, alpha) && Closer(find, x.hash, c.hash))
    ensures Unforced(ops) && k <= alpha ==>
              (FullCloser(find, x.hash, c.hash) <==> x.hash[0] == find[0] && c.hash[0] != find[0])
  {
    var t := Run(own, k, ops).value;
    ReachableTree(own, k, ops);
    FullCloserByTopBit(find, x.hash, c.hash);
    if x !in GetClosest(t, find, alpha) {
      OnlyInCutLeaf(own, t, find, alpha, c, x);
      CloserIsStrictOrder(find, x.hash, c.hash, x.hash);
    }
    if Unforced(ops) && k <= alpha {
      CutLeafCapped(k, t, find, alpha);
    }
  }

  /** Over every run and every alpha: a search for a stored node has it on its shortlist iff it is among the first alpha of its leaf. */
  lemma SearchFindsTarget(own: Hash, k: nat, ops: seq<Op>, d: DhtNode, alpha: nat)
    requires Run(own, k, ops).Some? && d in Stored(Run(own, k, ops).value)
    ensures var t := Run(own, k, ops).value;
            d in GetClosest(t, d.hash, alpha) <==> d in Take(Route(t, d.hash).contents, alpha)
  {
    ReachableTree(own, k, ops);
    FindsItself(own, Run(own, k, ops).value, d, alpha);
  }

  /** And it starts at a node with the very hash it looks for iff such a node is among the first alpha of the leaf the hash routes to. */
  lemma SearchStartsAtTarget(own: Hash, k: nat, ops: seq<Op>, find: Hash, alpha: nat, c: DhtNode)
    requires Run(own, k, ops).Some? && Nearest(c, GetClosest(Run(own, k, ops).value, find, alpha), find)
    ensures c.hash == find <==> exists x :: x in Take(Route(Run(own, k, ops).value, find).contents, alpha) && x.hash == find
  {
    var t := Run(own, k, ops).value;
    var head := Take(Route(t, find).contents, alpha);
    ReachableTree(own, k, ops);
    QueryStored(t, find, alpha);
    if c.hash == find {
      assert c in multiset(GetClosest(t, find, alpha));
      FindsItself(own, t, c, alpha);
    } else if exists x :: x in head && x.hash == find {
      var x :| x in head && x.hash == find;
      RoutedLeafFirst(t, find, alpha);
      assert x in GetClosest(t, find, alpha);
      SelfIsClosest(find, c.hash);
      assert false;
    }
  }

  lemma SelfIsClosest(h: Hash, x: Hash)
    requires x != h
    ensures FullCloser(h, h, x)
  {
    LexLessIsNumeric(XorBits(h, h), XorBits(x, h));
    DistanceIdentitySymmetry(h, h);
    DistanceIdentitySymmetry(x, h);
  }

  /** With the defaults, alpha < k: a search can start without the very node it is looking for. */
  lemma DefaultSearchMisses(own: Hash, s: seq<DhtNode>, d: DhtNode)
    requires ALPHA <= |s| < K && forall x :: x in s ==> x.hash != d.hash
    ensures var t := Run(own, K, Inserts(s + [d]));
            t.Some? && d in Stored(t.value) && GetClosest(t.value, d.hash, ALPHA) == s[..ALPHA]
    ensures forall x :: x in s ==> FullCloser(d.hash, d.hash, x.hash)
  {
    RunInserts(own, K, s + [d]);
    assert (s + [d])[..ALPHA] == s[..ALPHA];
    forall x | x in s
      ensures FullCloser(d.hash, d.hash, x.hash)
    {
      SelfIsClosest(d.hash, x.hash);
    }
  }
}
