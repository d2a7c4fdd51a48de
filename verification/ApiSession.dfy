/** One API session of the daemon: the node-id allocator and the request handlers (src/daemon/api/APISession.cpp). */
module ApiSessions {

  import opened Prelude
  import opened NodeRegistry

  /** P2PError codes (src/p2pnet.h). */
  const TOO_MANY_NODES: nat := 257
  const NONEXISTENT_NODE: nat := 259

  type Id = Word

  datatype Request =
    | Register
    | Unregister(id: Id)
    | Listen(id: Id, maxConnections: nat)
    | Bind(id: Id, key: Option<Sh>)  // the SH of the private key carried, if the message carries one

  /** Replies copy the request; a remote throw carries an error code instead. */
  datatype Reply = Registered(newId: Id) | Done(request: Request) | Failed(code: nat)

  datatype Session = Session(nodes: map<Id, Address>, next: Id)

  /** What a handler leaves behind. None: an exception escaped and nothing was sent. */
  datatype Outcome = Outcome(registry: Registry, session: Session, reply: Option<Reply>)

  // ----- the allocator -----

  /** The simple form: the first free id from `from` on, 0 if there is none below 2^32. */
  function NextFree(ids: set<Id>, from: nat): (r: Id)
    requires 0 < from <= U32
    ensures r == 0 || (from <= r && r !in ids)
    ensures forall i: Id :: from <= i && (r == 0 || i < r) ==> i in ids
    decreases U32 - from
  {
    if from == U32 then 0 else if from in ids then NextFree(ids, from + 1) else from
  }

  /** next is the least unregistered id of 1..2^32-1, and 0 exactly when all of them are registered. */
  ghost predicate LeastFree(ids: set<Id>, next: Id) {
    0 !in ids && next !in ids && forall i: Id :: 0 < i && (next == 0 || i < next) ==> i in ids
  }

  lemma RegisterKeepsLeastFree(ids: set<Id>, next: Id)
    requires LeastFree(ids, next) && next != 0
    ensures LeastFree(ids + {next}, NextFree(ids + {next}, next + 1))
  {
  }

  function NextAfterUnregister(next: Id, id: Id): Id {
    if next > id || next == 0 then id else next
  }

  lemma UnregisterKeepsLeastFree(ids: set<Id>, next: Id, id: Id)
    requires LeastFree(ids, next) && id in ids
    ensures LeastFree(ids - {id}, NextAfterUnregister(next, id))
  {
  }

  // ----- the handlers -----

  function NodeRegister(r: Registry, s: Session, a: Address): Outcome {
    if s.next == 0 then Outcome(r, s, Some(Failed(TOO_MANY_NODES)))
    else
      var nodes := if s.next in s.nodes then s.nodes else s.nodes[s.next := a];
      Outcome(CreateNode(r, a), Session(nodes, NextFree(nodes.Keys, s.next + 1)), Some(Registered(s.next)))
  }

  function NodeUnregister(r: Registry, s: Session, id: Id): Outcome
    requires id in s.nodes ==> s.nodes[id] in r.nodes
  {
    if id !in s.nodes then Outcome(r, s, Some(Failed(NONEXISTENT_NODE)))
    else
      match DestroyNode(r, s.nodes[id])
      case Thrown(r') => Outcome(r', s, None)
      case Returned(r') =>
        Outcome(r', Session(s.nodes - {id}, NextAfterUnregister(s.next, id)), Some(Done(Unregister(id))))
  }

  function NodeListen(r: Registry, s: Session, id: Id, maxConnections: nat): Outcome
    requires id in s.nodes ==> s.nodes[id] in r.nodes
  {
    if id !in s.nodes then Outcome(r, s, Some(Failed(NONEXISTENT_NODE)))
    else Outcome(ListenNode(r, s.nodes[id], maxConnections), s, Some(Done(Listen(id, maxConnections))))
  }

  function NodeBind(r: Registry, s: Session, id: Id, key: Option<Sh>): Outcome
    requires id in s.nodes ==> s.nodes[id] in r.nodes
  {
    if id !in s.nodes then Outcome(r, s, Some(Failed(NONEXISTENT_NODE)))
    else if key.None? then Outcome(r, s, Some(Done(Bind(id, key))))
    else
      match BindNode(r, s.nodes[id], key.value)
      case Thrown(r') => Outcome(r', s, None)
      case Returned(r') => Outcome(r', s, Some(Done(Bind(id, key))))
  }

  /** APISession::process. `a` is the address a newly created node would get. */
  function Process(r: Registry, s: Session, q: Request, a: Address): Outcome
    requires forall id :: id in s.nodes ==> s.nodes[id] in r.nodes
  {
    match q
    case Register => NodeRegister(r, s, a)
    case Unregister(id) => NodeUnregister(r, s, id)
    case Listen(id, maxConnections) => NodeListen(r, s, id, maxConnections)
    case Bind(id, key) => NodeBind(r, s, id, key)
  }

  /** too_many_nodes is answered if and only if every id of 1..2^32-1 is registered. */
  lemma TooManyExactly(r: Registry, s: Session, a: Address)
    requires LeastFree(s.nodes.Keys, s.next)
    ensures NodeRegister(r, s, a).reply == Some(Failed(TOO_MANY_NODES)) <==>
            forall i: Id :: 0 < i ==> i in s.nodes
    ensures s.next != 0 ==> s.next !in s.nodes && NodeRegister(r, s, a).session.nodes == s.nodes[s.next := a]
  {
  }

  // ----- the class -----

  /** Incrementing an iterator of a std::map: the next key after x, or 2^32 for end(). */
  function After(ids: set<Id>, x: nat): (r: nat)
    requires x < U32
    ensures x < r <= U32 && (r < U32 ==> r in ids) && forall i: Id :: x < i < r ==> i !in ids
    decreases U32 - x
  {
    if x + 1 == U32 then U32 else if x + 1 in ids then x + 1 else After(ids, x + 1)
  }

  /** The end of NodeRegister: the counter is stepped past the registered ids with an iterator, modulo 2^32. */
  method AdvanceId(ids: set<Id>, id: Id) returns (next: Id)
    ensures next == NextFree(ids, id + 1)
  {
    next := Increment(id);
    var it := After(ids, id);
    ghost var from := id + 1;
    while next != 0 && it < U32
      invariant id < from <= U32 && next == (if from == U32 then 0 else from) && from <= it <= U32
      invariant from < U32 ==> it == After(ids, from - 1)
      invariant NextFree(ids, from) == NextFree(ids, id + 1)
      decreases U32 - from
    {
      if it <= next {
        assert it == from && from in ids;
        next := Increment(next);
        it := After(ids, it);
        from := from + 1;
      } else {
        break;
      }
    }
    if from < U32 {
      assert from !in ids;
    }
  }

  class ApiSession {
    const manager: NodeManager
    var nodes: map<Id, Address>
    var nextNodeId: Id

    ghost function State(): Session
      reads this
    {
      Session(nodes, nextNodeId)
    }

    ghost predicate Valid()
      reads this, manager
    {
      forall id :: id in nodes ==> nodes[id] in manager.nodes
    }

    constructor (manager: NodeManager)
      ensures this.manager == manager && Valid() && State() == Session(map[], 1) && LeastFree({}, nextNodeId)
    {
      this.manager := manager;
      nodes, nextNodeId := map[], 1;
    }

    method Register(a: Address) returns (reply: Reply)
      requires Valid() && a !in manager.nodes
      modifies this, manager
      ensures Valid()
      ensures Outcome(manager.State(), State(), Some(reply)) == NodeRegister(old(manager.State()), old(State()), a)
    {
      if nextNodeId == 0 {
        return Failed(TOO_MANY_NODES);
      }
      var id := nextNodeId;
      manager.Create(a);
      if id !in nodes {
        nodes := nodes[id := a];
      }
      reply := Registered(id);

      nextNodeId := AdvanceId(nodes.Keys, id);
    }

    method Unregister(id: Id) returns (reply: Option<Reply>)
      requires Valid()
      modifies this, manager
      ensures Outcome(manager.State(), State(), reply) == NodeUnregister(old(manager.State()), old(State()), id)
    {
      if id !in nodes {
        return Some(Failed(NONEXISTENT_NODE));
      }
      var thrown := manager.Destroy(nodes[id]);
      if thrown {
        return None;
      }
      nodes := nodes - {id};
      if nextNodeId > id || nextNodeId == 0 {
        nextNodeId := id;
      }
      reply := Some(Done(Request.Unregister(id)));
    }

    method Listen(id: Id, maxConnections: nat) returns (reply: Reply)
      requires Valid()
      modifies manager
      ensures Valid()
      ensures Outcome(manager.State(), State(), Some(reply)) == NodeListen(old(manager.State()), old(State()), id, maxConnections)
    {
      if id !in nodes {
        return Failed(NONEXISTENT_NODE);
      }
      manager.Listen(nodes[id], maxConnections);
      reply := Done(Request.Listen(id, maxConnections));
    }

    method Bind(id: Id, key: Option<Sh>) returns (reply: Option<Reply>)
      requires Valid()
      modifies manager
      ensures Valid()
      ensures Outcome(manager.State(), State(), reply) == NodeBind(old(manager.State()), old(State()), id, key)
    {
      if id !in nodes {
        return Some(Failed(NONEXISTENT_NODE));
      }
      if key.Some? {
        var thrown := manager.Bind(nodes[id], key.value);
        if thrown {
          return None;
        }
      }
      reply := Some(Done(Request.Bind(id, key)));
    }
  }
}
