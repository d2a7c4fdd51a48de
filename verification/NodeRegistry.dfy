/**
 The daemon's node database (src/daemon/p2p/NodeManager.cpp, src/daemon/p2p/Node.cpp).

 Node objects are known by their addresses; `nodes` holds the fields of the objects that exist.
 `Registry` is the value the NodeManager class is proved against.
 */
module NodeRegistry {

  import opened Prelude

  type Address = nat
  type Sh = string

  datatype Node = Node(sh: Option<Sh>, maxConnections: nat)

  datatype Registry = Registry(nodes: map<Address, Node>, bound: map<Sh, Address>, unbound: set<Address>)

  /** A call that returns, or one that throws nodemanager_db_non_consistent; both leave a state behind. */
  datatype Result = Returned(state: Registry) | Thrown(state: Registry)

  // ----- operations -----

  function CreateNode(r: Registry, a: Address): Registry {
    r.(nodes := r.nodes[a := Node(None, 0)], unbound := r.unbound + {a})
  }

  /** std::map::insert: an existing entry stays. */
  function InsertBound(m: map<Sh, Address>, sh: Sh, a: Address): map<Sh, Address> {
    if sh in m then m else m[sh := a]
  }

  /** Node::bind, which sets the node's SH first and then calls NodeManager::bindNode. */
  function BindNode(r: Registry, a: Address, sh: Sh): Result
    requires a in r.nodes
  {
    var named := r.(nodes := r.nodes[a := r.nodes[a].(sh := Some(sh))]);
    if a in r.unbound then
      Returned(named.(bound := InsertBound(r.bound, sh, a), unbound := r.unbound - {a}))
    else if sh in r.bound then
      Returned(named.(bound := r.bound[sh := a]))
    else
      Thrown(named)
  }

  /** Node::listen. */
  function ListenNode(r: Registry, a: Address, maxConnections: nat): Registry
    requires a in r.nodes
  {
    r.(nodes := r.nodes[a := r.nodes[a].(maxConnections := maxConnections)])
  }

  /** NodeManager::destroyNode. An unbound node's SH is the empty hash, which is never a key. */
  function DestroyNode(r: Registry, a: Address): Result
    requires a in r.nodes
  {
    if a in r.unbound then Returned(r.(unbound := r.unbound - {a}, nodes := r.nodes - {a}))
    else if r.nodes[a].sh.Some? && r.nodes[a].sh.value in r.bound then
      Returned(r.(bound := r.bound - {r.nodes[a].sh.value}, nodes := r.nodes - {a}))
    else Thrown(r)
  }

  function GetBoundNode(r: Registry, sh: Sh): Option<Address> {
    if sh in r.bound then Some(r.bound[sh]) else None
  }

  // ----- consistency -----

  /** Every node is in exactly one of the two indexes, and filed under its own SH. */
  ghost predicate Consistent(r: Registry) {
    (forall a :: a in r.unbound <==> a in r.nodes && r.nodes[a].sh.None?) &&
    (forall sh :: sh in r.bound ==> r.bound[sh] in r.nodes && r.nodes[r.bound[sh]].sh == Some(sh)) &&
    (forall a :: a in r.nodes && r.nodes[a].sh.Some? ==>
                   r.nodes[a].sh.value in r.bound && r.bound[r.nodes[a].sh.value] == a)
  }

  /** A first bind to a free SH, or a repeated bind to the node's own SH. */
  predicate BindAllowed(r: Registry, a: Address, sh: Sh)
    requires a in r.nodes
  {
    (a in r.unbound && sh !in r.bound) || r.nodes[a].sh == Some(sh)
  }

  lemma CreateKeeps(r: Registry, a: Address)
    requires Consistent(r) && a !in r.nodes
    ensures Consistent(CreateNode(r, a)) && CreateNode(r, a).nodes.Keys == r.nodes.Keys + {a}
  {
  }

  lemma ListenKeeps(r: Registry, a: Address, maxConnections: nat)
    requires Consistent(r) && a in r.nodes
    ensures Consistent(ListenNode(r, a, maxConnections))
    ensures ListenNode(r, a, maxConnections).nodes.Keys == r.nodes.Keys
    ensures forall b :: b in r.nodes ==>
              var n := ListenNode(r, a, maxConnections).nodes[b];
              n.sh == r.nodes[b].sh && n.maxConnections == if b == a then maxConnections else r.nodes[b].maxConnections
  {
  }

  lemma BindKeeps(r: Registry, a: Address, sh: Sh)
    requires Consistent(r) && a in r.nodes && BindAllowed(r, a, sh)
    ensures BindNode(r, a, sh).Returned? && Consistent(BindNode(r, a, sh).state)
    ensures GetBoundNode(BindNode(r, a, sh).state, sh) == Some(a)
  {
  }

  lemma BindBreaks(r: Registry, a: Address, sh: Sh)
    requires Consistent(r) && a in r.nodes && !BindAllowed(r, a, sh)
    ensures BindNode(r, a, sh).Thrown? || !Consistent(BindNode(r, a, sh).state)
  {
    var s := BindNode(r, a, sh).state;
    assert s.nodes[a].sh == Some(sh);
    if a in r.unbound {
      assert s.bound[sh] != a;
    } else {
      var before := r.nodes[a].sh.value;
      assert r.bound[before] == a && before != sh;
      assert before in s.bound && s.bound[before] == a;
    }
  }

  /** bind returns and keeps the database consistent if and only if it is allowed; then the SH finds the node. */
  lemma BindExactly(r: Registry, a: Address, sh: Sh)
    requires Consistent(r) && a in r.nodes
    ensures BindNode(r, a, sh).Returned? && Consistent(BindNode(r, a, sh).state) <==> BindAllowed(r, a, sh)
    ensures BindAllowed(r, a, sh) ==> GetBoundNode(BindNode(r, a, sh).state, sh) == Some(a)
  {
    if BindAllowed(r, a, sh) {
      BindKeeps(r, a, sh);
    } else {
      BindBreaks(r, a, sh);
    }
  }

  /** destroyNode never throws on a consistent database, and keeps it consistent. */
  lemma DestroyKeeps(r: Registry, a: Address)
    requires Consistent(r) && a in r.nodes
    ensures DestroyNode(r, a).Returned? && Consistent(DestroyNode(r, a).state)
    ensures DestroyNode(r, a).state.nodes == r.nodes - {a}
  {
  }

  /** getBoundNode finds exactly the node bound to that SH. */
  lemma GetBoundNodeFinds(r: Registry, sh: Sh, a: Address)
    requires Consistent(r)
    ensures GetBoundNode(r, sh) == Some(a) <==> a in r.nodes && r.nodes[a].sh == Some(sh)
  {
  }

  /**
   What goes wrong otherwise: two nodes bound to the same SH. The second is filed nowhere,
   destroying it evicts the first, and destroying the first then throws.
   */
  lemma SharedShBreaks(a: Address, b: Address, sh: Sh)
    requires a != b
    ensures var r0 := CreateNode(CreateNode(Registry(map[], map[], {}), a), b);
            var r1 := BindNode(BindNode(r0, a, sh).state, b, sh);
            r1.Returned? && GetBoundNode(r1.state, sh) == Some(a) &&
            var r2 := DestroyNode(r1.state, b);
            r2.Returned? && GetBoundNode(r2.state, sh) == None && DestroyNode(r2.state, a).Thrown?
  {
  }

  // ----- the class -----

  class NodeManager {
    var nodes: map<Address, Node>
    var nodesBound: map<Sh, Address>
    var nodesUnbound: set<Address>

    ghost function State(): Registry
      reads this
    {
      Registry(nodes, nodesBound, nodesUnbound)
    }

    constructor ()
      ensures State() == Registry(map[], map[], {}) && Consistent(State())
    {
      nodes, nodesBound, nodesUnbound := map[], map[], {};
    }

    /** `a` is the address operator new hands out. */
    method Create(a: Address)
      requires a !in nodes
      modifies this
      ensures State() == CreateNode(old(State()), a)
    {
      nodes := nodes[a := Node(None, 0)];
      nodesUnbound := nodesUnbound + {a};
    }

    method Bind(a: Address, sh: Sh) returns (thrown: bool)
      requires a in nodes
      modifies this
      ensures BindNode(old(State()), a, sh) == if thrown then Thrown(State()) else Returned(State())
    {
      thrown := false;
      nodes := nodes[a := nodes[a].(sh := Some(sh))];
      if a in nodesUnbound {
        if sh !in nodesBound {
          nodesBound := nodesBound[sh := a];
        }
        nodesUnbound := nodesUnbound - {a};
      } else if sh in nodesBound {
        nodesBound := nodesBound - {sh};
        nodesBound := nodesBound[sh := a];
        assert nodesBound == old(nodesBound)[sh := a];
      } else {
        thrown := true;
      }
    }

    method Listen(a: Address, maxConnections: nat)
      requires a in nodes
      modifies this
      ensures State() == ListenNode(old(State()), a, maxConnections)
    {
      nodes := nodes[a := nodes[a].(maxConnections := maxConnections)];
    }

    method Destroy(a: Address) returns (thrown: bool)
      requires a in nodes
      modifies this
      ensures DestroyNode(old(State()), a) == if thrown then Thrown(State()) else Returned(State())
    {
      thrown := false;
      if a in nodesUnbound {
        nodesUnbound := nodesUnbound - {a};
      } else if nodes[a].sh.Some? && nodes[a].sh.value in nodesBound {
        nodesBound := nodesBound - {nodes[a].sh.value};
      } else {
        thrown := true;
        return;
      }
      nodes := nodes - {a};
    }
  }
}
