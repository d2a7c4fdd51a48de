/**
 Four places where the text of the source does not do what it is evidently meant to do. The other
 modules model the intent; here the text is taken literally, and the lemmas say exactly when the
 two agree.
 */
module AsWritten {

  import opened BigEndian
  import opened BucketTree
  import opened HashBytes
  import opened ApiSessions
  import opened NodeRegistry
  import opened Daemons
  import opened Channels
  import opened ClientSessions
  import opened Protocol
  import opened Systems

  // ----- the leaf loop of KBucket::getClosest: `||`, and an iterator that never moves -----

  /** Where the loop is after a number of iterations; PastEnd: it dereferences end(). */
  datatype Loop = Exited(result: seq<DhtNode>) | Running(result: seq<DhtNode>) | PastEnd

  function LeafLoop(s: seq<DhtNode>, n: int, i: nat, result: seq<DhtNode>, steps: nat): Loop
    decreases steps
  {
    if i >= n && s == [] then Exited(result)
    else if s == [] then PastEnd
    else if steps == 0 then Running(result)
    else LeafLoop(s, n, i + 1, result + [s[0]], steps - 1)
  }

  lemma {:induction false} LeafLoopRuns(s: seq<DhtNode>, n: int, i: nat, result: seq<DhtNode>, steps: nat)
    requires s != []
    ensures LeafLoop(s, n, i, result, steps).Running?
    decreases steps
  {
    if steps > 0 {
      LeafLoopRuns(s, n, i + 1, result + [s[0]], steps - 1);
    }
  }

  /** As written, the loop ever returns if and only if the leaf is empty and n <= 0; then it returns what is meant. */
  lemma LeafLoopReturns(s: seq<DhtNode>, n: int)
    ensures (exists steps :: LeafLoop(s, n, 0, [], steps) == Exited(Take(s, n))) <==> s == [] && n <= 0
    ensures (exists steps :: LeafLoop(s, n, 0, [], steps).Exited?) <==> s == [] && n <= 0
  {
    if s == [] && n <= 0 {
      assert LeafLoop(s, n, 0, [], 0) == Exited(Take(s, n));
    } else if s != [] {
      forall steps: nat
        ensures LeafLoop(s, n, 0, [], steps).Running?
      {
        LeafLoopRuns(s, n, 0, [], steps);
      }
    }
  }

  // ----- KBucket::addNode: std::remove_if without erase -----

  /** What remove_if may leave: the kept nodes in front, and the list as long as before. */
  ghost predicate RemovedIf(s: seq<DhtNode>, bad: set<DhtNode>, r: seq<DhtNode>) {
    |r| == |s| && Keep(s, bad) <= r
  }

  /** As written, the list becomes what erasing the BAD nodes leaves if and only if it holds none. */
  lemma RemoveIfErases(s: seq<DhtNode>, bad: set<DhtNode>, r: seq<DhtNode>)
    requires RemovedIf(s, bad, r)
    ensures r == Keep(s, bad) <==> forall x :: x in s ==> x !in bad
  {
    KeepSize(s, bad);
    KeepMembers(s, bad);
    if forall x :: x in s ==> x !in bad {
      KeepAll(s, bad);
    }
  }

  // ----- Hash::operator^: the loop counter is never initialised -----

  /** The result vector when the counter happens to start at `start`. */
  function XorFrom(a: Bytes, b: Bytes, start: nat): (r: Bytes)
    ensures |r| == |Xor(a, b)|
  {
    seq(|Xor(a, b)|, i requires 0 <= i < |Xor(a, b)| => if i < start then 0 else Xor(a, b)[i])
  }

  lemma {:induction false} XorNumberZero(a: nat, b: nat, n: nat)
    requires a < Pow(2, n) && b < Pow(2, n)
    ensures XorNumber(a, b, n) == 0 <==> a == b
    decreases n
  {
    if n > 0 {
      XorNumberZero(a / 2, b / 2, n - 1);
    }
  }

  lemma XorByteZero(x: Byte, y: Byte)
    ensures XorByte(x, y) == 0 <==> x == y
  {
    XorNumberBound(x, y, 8);
    XorNumberZero(x, y, 8);
  }

  /** As written, operator^ is the exclusive or if and only if the hashes agree on the bytes before the counter's start. */
  lemma XorFromExactly(a: Bytes, b: Bytes, start: nat)
    ensures XorFrom(a, b, start) == Xor(a, b) <==> forall i :: 0 <= i < |Xor(a, b)| && i < start ==> At(a, i) == At(b, i)
  {
    forall i | 0 <= i < |Xor(a, b)| && i < start
      ensures XorFrom(a, b, start)[i] == Xor(a, b)[i] <==> At(a, i) == At(b, i)
    {
      XorByteZero(At(a, i), At(b, i));
    }
  }

  // ----- APISession::remoteThrow: the reply is built and never sent -----

  /** The server step with an error reply that is built and dropped. */
  ghost function ServedAsWritten(x: System, s: nat, a: Address): System
    requires s in x.conns && x.conns[s].requests != [] && Partitioned(x.daemon) && s in x.daemon.sessions
  {
    var c := x.conns[s];
    var (d, reply) := Serve(x.daemon, s, c.requests[0].request, a);
    System(d, x.conns[s := if reply.Some? && !reply.value.Failed? then Answer(c, reply.value) else c.(requests := c.requests[1..])])
  }

  /** The request is a registration and every id of 1..2^32-1 is taken. */
  ghost predicate OutOfIds(x: System, s: nat)
    requires s in x.conns && x.conns[s].requests != [] && s in x.daemon.sessions
  {
    x.conns[s].requests[0].request.Register? && forall i: Id :: 0 < i ==> i in x.daemon.sessions[s].nodes
  }

  /** A request that is never answered leaves its token pending and in no channel: its caller is never woken. */
  lemma UnsentErrorStrands(c: Conn)
    requires TokensConserved(c) && c.requests != []
    ensures var d, t := c.(requests := c.requests[1..]), c.requests[0].token;
            t in d.client.awaiting && InRequests(d, t) == InReplies(d, t) == 0 && t !in Ready(d.client.awaiting) &&
            !TokensConserved(d)
  {
    var d, t := c.(requests := c.requests[1..]), c.requests[0].token;
    assert multiset(c.client.awaiting.Keys)[t] <= 1;
    assert InRequests(c, t) == 1 + InRequests(d, t);
    assert multiset(Ready(c.client.awaiting))[t] == if t in Ready(c.client.awaiting) then 1 else 0;
  }

  /**
   As written, serving a request does what is meant, and keeps the laws of the system, if and only if
   it is not a registration that finds all ids taken.
   */
  lemma UnsentErrorExactly(x: System, s: nat, a: Address)
    requires SystemInv(x) && CanServe(x, s, a)
    ensures SystemInv(ServedAsWritten(x, s, a)) <==> !OutOfIds(x, s)
    ensures ServedAsWritten(x, s, a) == Served(x, s, a) <==> !OutOfIds(x, s)
  {
    ServedKeeps(x, s, a);
    if OutOfIds(x, s) {
      var y := ServedAsWritten(x, s, a);
      UnsentErrorStrands(x.conns[s]);
      assert y.conns[s] == x.conns[s].(requests := x.conns[s].requests[1..]);
      assert !ConnOk(y.conns[s], y.daemon.sessions[s]);
    }
  }

  /** In every state of every run, then: a caller is stranded exactly when the ids have run out. */
  lemma StrandedExactly(steps: seq<Step>, states: seq<System>, i: nat, s: nat, a: Address)
    requires IsRun(steps, states) && i < |states| && CanServe(states[i], s, a)
    ensures var c, t := ServedAsWritten(states[i], s, a).conns[s], states[i].conns[s].requests[0].token;
            (t in c.client.awaiting && InRequests(c, t) == InReplies(c, t) == 0 && t !in Ready(c.client.awaiting)) <==>
            OutOfIds(states[i], s)
  {
    var x := states[i];
    EveryInterleaving(steps, states, i);
    UnsentErrorExactly(x, s, a);
    ServedKeeps(x, s, a);
    if OutOfIds(x, s) {
      UnsentErrorStrands(x.conns[s]);
    } else {
      AnswerInReplies(x.conns[s], Serve(x.daemon, s, x.conns[s].requests[0].request, a).1.value);
    }
  }

  lemma AnswerInReplies(c: Conn, reply: Reply)
    requires c.requests != []
    ensures InReplies(Answer(c, reply), c.requests[0].token) > 0
  {
    var m := TaggedReply(c.requests[0].token, reply);
    SumAppend(c.replies, m, ReplyToken);
  }
}
