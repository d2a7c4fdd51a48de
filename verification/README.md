# p2pnet: a verified model

A Dafny model of the parts of p2pnet where correctness is hardest to see from the code, with proofs
over all inputs, all runs or all interleavings.

- **The DHT's k-bucket tree.** `BucketTree` is the tree as a value and `KBuckets` the mutable class,
  proved against it. `BucketInvariants`, `BucketOrder` and `BucketRuns` prove what every run of addNode,
  removeNode and rebuild keeps, what each leaves in every leaf, and exactly when a call would read past
  the end of a hash. `BucketQuery` proves that the
  recursive descent of getClosest agrees with the flat specification "sort all nodes by XOR distance".
  `BitMetric` and `HashBytes` tie both to the byte operators of `Hash`. `DhtService` uses the result.
- **The library/daemon protocol.** `NodeRegistry`, `ApiSessions` and `Daemons` are the daemon's node
  database, the node-id allocator and all sessions together. `ClientSessions` and `Protocol` are the
  client side and one connection. `Systems` runs any number of connections against the daemon in every
  interleaving and proves two conservation laws, of message tokens and of node ids; `Exchanges` follows
  every call from its caller through the daemon and back.
- **The rotating key history** (`KeyHistory`): eviction against lose times, over every run of renewals.
- **Codecs**: `Base58`, `PrivateKeys`, `Framing` (whole messages out of a stream cut into arbitrary
  chunks) and `Endpoints`, on top of positional numbers in `BigEndian`.
- **`AsWritten`** takes four passages of the source literally and proves exactly when they do what the
  rest of the model takes them to do.

`dafny verify dfyconfig.toml` checks everything.

## How the source is read

- Bucket 0 splits on bit 1, so bit 0 of a hash never takes part in routing. Distances are compared with
  bit 0 ignored (`Closer`); `FullMetricExactly` and `FullMetricForAllTargets` say when the answers are also right for
  the full metric, `FullMetricMissed` shows that they need not be.
- The leaf loop of getClosest is read as stopping at n nodes or at the end of the list, the cleanup of
  addNode as erasing the BAD nodes, the loop of Hash::operator^ as starting at 0, and remoteThrow as
  sending the reply it builds. `AsWritten` treats each of these four literally.
- `node->getHash() ^ find_hash < closest_distance` in findAnyIterative is read as a comparison of two
  distances, and getClosestTo as asking the bucket tree (as written it calls itself).
- rebuild ignores the hash it is given, and getClosest asks the second child for n nodes, not for the
  missing ones; both are modelled as they are.
- A `DHTNode*` is a handle together with its hash, which does not change. Which nodes are BAD at the
  time of a call is a parameter. `None` from `Add` stands for asking getBit for a bit past the hash.
- A token that is still pending makes clientExchange throw with only the counter stepped. In a destructor
  that ends the program; its node stays registered.
- Programs use the library as its objects allow: requests name a P2PNode that exists, and none is
  destroyed while a call on it is under way. A bind is a node's first, to an SH no node has, or repeats
  its own SH; `BindExactly` and `SharedShBreaks` say what happens otherwise.
- A node created by the daemon gets an address that no existing node has, chosen by the environment.
- Boost's address parser, the random key Botan generates for scalar 0, the clock and the keys generated
  are parameters. Times are whole seconds.

## Model

| member | source | states |
|---|---|---|
| BitMetric.LexLessIsNumeric | src/common/crypto/Hash.cpp:98-101 | the lexicographic order of equally long bit strings is the order of the numbers they spell |
| BitMetric.DistanceIdentitySymmetry | src/common/crypto/Hash.cpp:82-96 | the XOR distance is zero iff the hashes are equal, and symmetric |
| BitMetric.TriangleInequality | src/common/crypto/Hash.cpp:82-96 | the XOR distance satisfies the triangle inequality |
| BitMetric.Unidirectional | src/common/crypto/Hash.cpp:82-96 | from every hash, exactly one hash lies at a given distance |
| BitMetric.LongerPrefixIsCloser | src/common/crypto/Hash.cpp:82-101 | a longer common prefix with the target is a strictly smaller distance |
| BitMetric.TopBitDecides | src/daemon/dht/KBucket.cpp:34-50 | for a node closer with bit 0 ignored, the full metric agrees iff bit 0 does not separate the two the other way |
| HashBytes.XorHash | src/common/crypto/Hash.cpp:82-96 | the loop over zero-padded vectors computes the exclusive or of every byte |
| HashBytes.XorIsXorBits | src/common/crypto/Hash.cpp:82-96 | operator^ on bytes is the bitwise exclusive or of the bit strings |
| HashBytes.LessIsLexLess | src/common/crypto/Hash.cpp:57-101 | operator< on equally long hashes is the big-endian numeric order and the order of their bits; == is equality of bits |
| HashBytes.GetBitIsBit | src/daemon/dht/KBucket.cpp:64-69 | shifting and masking the byte reads bit i, most significant first |
| HashBytes.ByteDistanceIsMetric | src/daemon/dht/DHTService.cpp:61-62 | comparing two byte-wise XOR distances is comparing them in the metric the tree is judged by, and as numbers |
| KBuckets.KBucket.constructor | src/daemon/dht/KBucket.cpp:19-21 | a new root is the empty tree for our own hash |
| KBuckets.KBucket.DetermineBucket | src/daemon/dht/KBucket.cpp:46-54 | an unsplit bucket routes to itself, a split one by bit index+1 |
| KBuckets.KBucket.Split | src/daemon/dht/KBucket.cpp:30-44 | splitting refines the value-level split; a split or unsplittable bucket is left alone |
| KBuckets.KBucket.AddNode | src/daemon/dht/KBucket.cpp:75-102 | the mutable tree becomes the value-level result; failure is reported exactly when a bit past the hash would be read |
| KBuckets.KBucket.RemoveNode | src/daemon/dht/KBucket.cpp:104-114 | the mutable tree becomes the value-level result |
| KBuckets.KBucket.GetClosest | src/daemon/dht/KBucket.cpp:116-141 | loop and recursion return the value-level result, for every int n |
| KBuckets.KBucket.Rebuild | src/daemon/dht/KBucket.cpp:143-150 | the tree becomes the unforced additions of all nodes to an empty bucket with the old own hash |
| KBuckets.KBucket.Count | src/daemon/dht/KBucket.cpp:152-158 | the number of nodes of the value-level tree |
| BucketInvariants.OneSplittableLeaf | src/daemon/dht/KBucket.cpp:19-54 | buckets off our own path are single leaves; on it exactly one leaf is splittable, the one our hash routes to |
| BucketInvariants.SplitStored | src/daemon/dht/KBucket.cpp:30-44 | splitting keeps the multiset of stored nodes |
| BucketInvariants.AddStored | src/daemon/dht/KBucket.cpp:75-102 | addNode only evicts the BAD nodes of the one routed leaf and adds the node, unless it is already in a full leaf or its final leaf is off our path and full of non-BAD nodes |
| BucketInvariants.RemoveStored | src/daemon/dht/KBucket.cpp:104-114 | removeNode takes out one occurrence of a node stored anywhere and nothing else |
| BucketInvariants.AddSpine | src/daemon/dht/KBucket.cpp:75-102 | addNode keeps the single spine: splittable iff on our path, every node on its bucket's path |
| BucketInvariants.AddCapped | src/daemon/dht/KBucket.cpp:78-98 | the splittable leaf never exceeds k even under force; without force no leaf does |
| BucketInvariants.CountBound | src/daemon/dht/KBucket.cpp:152-158 | a spine whose leaves hold at most k nodes holds at most k per bit |
| BucketRuns.AddFails | src/daemon/dht/KBucket.cpp:30-102 | addNode reads past the end of a hash iff the routed leaf is full of non-BAD nodes that, like the new one, differ from our hash in bit 0 at most |
| BucketRuns.ReachableTree | src/daemon/dht/KBucket.cpp:19-158 | every reachable tree is a spine with one splittable leaf; count() is the number of stored nodes and at most 224 k while nothing was forced since the last rebuild |
| BucketRuns.FreshRunsSucceed | src/daemon/dht/KBucket.cpp:30-150 | with k >= 2, a run that only adds nodes whose hash is not stored never reads past a hash and keeps hashes distinct |
| BucketRuns.TwoPerLeafNeeded | src/daemon/dht/KBucket.cpp:75-102 | with k = 1 two distinct hashes suffice to read past the end |
| BucketRuns.FreshnessNeeded | src/daemon/dht/KBucket.cpp:75-102 | adding the same node twice breaks it for k = 2 |
| BucketRuns.RebuildStores | src/daemon/dht/KBucket.cpp:143-150 | rebuild stores only nodes it was given, as often at most; of those not BAD, all but the ones whose off-path leaf is full of other non-BAD nodes, as an iff; up to k nodes all, in order, in the root bucket |
| BucketOrder.AddLeafByLeaf | src/daemon/dht/KBucket.cpp:30-102 | addNode changes no leaf the node is not routed to; the routed one, or the leaves it was split into, keep the surviving nodes in order under their bits, the new node last in its leaf if it is let in |
| BucketOrder.RemoveLeafByLeaf | src/daemon/dht/KBucket.cpp:104-114 | removeNode drops the first occurrence from the routed leaf, keeps the order of the others, and changes no other leaf |
| BucketQuery.QueryShape | src/daemon/dht/KBucket.cpp:116-141 | getClosest returns whole leaves in visiting order; only the last one visited may be cut off, at n |
| BucketQuery.QueryStored | src/daemon/dht/KBucket.cpp:116-141 | the result is a sub-multiset of the stored nodes, and all of them when shorter than n |
| BucketQuery.CloserAcrossLeaves | src/daemon/dht/KBucket.cpp:116-141 | for every n, a returned node is strictly closer than an unreturned node of another leaf |
| BucketQuery.AllCloserExactly | src/daemon/dht/KBucket.cpp:116-141 | for every well-shaped tree and every n, each returned node is strictly closer than every unreturned one iff the first n nodes of the last leaf visited are strictly closer than its others |
| BucketQuery.ClosestExactly | src/daemon/dht/KBucket.cpp:116-141 | over every run, forced or not, and every n: at least min(n, count) nodes are returned, the exact condition above, and under it the first n of all nodes sorted by distance are among them |
| BucketQuery.ClosestOverRuns | src/daemon/dht/KBucket.cpp:116-141 | with n >= k and nothing forced since the last rebuild the condition always holds, so the n nearest nodes are always returned |
| BucketQuery.FindsItself | src/daemon/dht/KBucket.cpp:116-141 | in every well-shaped tree and for every n, a query for a stored node's hash returns it iff it is among the first n of the leaf it routes to |
| BucketQuery.FullMetricExactly | src/daemon/dht/KBucket.cpp:116-141 | for n >= k a target is answered right under the full XOR metric iff no node in the buckets reached differs from it in bit 0 while a node in the others agrees |
| BucketQuery.FullMetricForAllTargets | src/daemon/dht/KBucket.cpp:34-141 | for n >= k all targets are answered right under the full XOR metric iff n = 0, all stored nodes agree in bit 0, or the bucket sizes make every query return everything |
| BucketQuery.FullMetricMissed | src/daemon/dht/KBucket.cpp:116-141 | two insertions after which the nearest node by the full metric is not returned |
| BucketQuery.NegativeQuery | src/daemon/dht/KBucket.cpp:116-141 | a negative n returns nothing |
| DhtService.AnswerFindNode | src/daemon/dht/DHTService.cpp:78-104 | the reply lists the contacts of the selected nodes in order |
| DhtService.FindNodeReplyNearest | src/daemon/dht/DHTService.cpp:40-104 | over every run and whatever k the buckets were built with: a k that fits in int16_t gives at least min(k, count) nodes, the nearest ones iff the first k of the last leaf visited are nearer than its others, always so without oversized leaves; a larger k gives nothing |
| DhtService.StartSearch | src/daemon/dht/DHTService.cpp:52-68 | the shortlist is the set of nodes found and closest_node a nearest of them by the full metric |
| DhtService.SearchStartsNearest | src/daemon/dht/DHTService.cpp:52-68 | over every run and every alpha, a stored node is closer than closest_node iff bit 0 favours it or it was cut off the last leaf visited and is closer there; only the former with alpha >= k and nothing forced |
| DhtService.SearchFindsTarget | src/daemon/dht/DHTService.cpp:52-68 | over every run and every alpha, the shortlist of a search for a stored node holds it iff it is among the first alpha nodes of its leaf |
| DhtService.SearchStartsAtTarget | src/daemon/dht/DHTService.cpp:52-68 | closest_node has the hash searched for iff a node with that hash is among the first alpha of the leaf the hash routes to |
| DhtService.DefaultSearchMisses | src/daemon/dht/DHTService.cpp:28-68 | runs with the defaults alpha = 3 and k = 20 in which the condition of SearchFindsTarget fails: the node searched for is stored and not on the shortlist |
| NodeRegistry.NodeManager.Create | src/daemon/p2p/NodeManager.cpp:57-67 | a new node is unbound |
| NodeRegistry.NodeManager.Bind | src/daemon/p2p/NodeManager.cpp:32-46 | Node::bind sets the SH first; map insert keeps an existing entry; the three branches and the throw |
| NodeRegistry.NodeManager.Listen | src/daemon/p2p/Node.cpp:45-47 | the node's connection limit is set |
| NodeRegistry.NodeManager.Destroy | src/daemon/p2p/NodeManager.cpp:69-83 | removes the node from the index it is found in, or throws |
| NodeRegistry.BindExactly | src/daemon/p2p/Node.cpp:39-43 | bind returns and keeps the database consistent iff it is the node's first to a free SH or repeats its own; then the SH finds the node |
| NodeRegistry.DestroyKeeps | src/daemon/p2p/NodeManager.cpp:69-83 | on a consistent database destroyNode never throws nodemanager_db_non_consistent |
| NodeRegistry.GetBoundNodeFinds | src/daemon/p2p/NodeManager.cpp:85-91 | getBoundNode finds exactly the node bound to that SH |
| NodeRegistry.SharedShBreaks | src/daemon/p2p/NodeManager.cpp:32-83 | two nodes bound to one SH: destroying the second loses the first, destroying the first then throws |
| ApiSessions.AdvanceId | src/daemon/api/APISession.cpp:73-86 | the iterator loop with its 32-bit wrap finds the first free id above the one just given out, 0 if there is none |
| ApiSessions.RegisterKeepsLeastFree | src/daemon/api/APISession.cpp:49-87 | registering keeps next_node_id the least free id, 0 exactly when all are taken |
| ApiSessions.UnregisterKeepsLeastFree | src/daemon/api/APISession.cpp:89-107 | so does unregistering |
| ApiSessions.TooManyExactly | src/daemon/api/APISession.cpp:49-64 | too_many_nodes is answered iff all of 1..2^32-1 are registered; otherwise the insert is fresh |
| ApiSessions.ApiSession.constructor | src/daemon/api/APISession.cpp:27-31 | an empty table and next id 1, the least free one |
| ApiSessions.ApiSession.Register | src/daemon/api/APISession.cpp:49-87 | new session and database state and reply of NODE_REGISTER |
| ApiSessions.ApiSession.Unregister | src/daemon/api/APISession.cpp:89-107 | new session and database state and reply of NODE_UNREGISTER, nothing sent if an exception escapes |
| ApiSessions.ApiSession.Listen | src/daemon/api/APISession.cpp:117-127 | new database state and reply of NODE_LISTEN |
| ApiSessions.ApiSession.Bind | src/daemon/api/APISession.cpp:129-146 | new database state and reply of NODE_BIND, with or without a key |
| Daemons.ServeExactly | src/daemon/api/APISession.cpp:36-146 | a request is answered and keeps the daemon's invariant iff its bind, if it is one, is allowed |
| Daemons.ServeDoes | src/daemon/api/APISession.cpp:49-146 | the whole effect of each conforming request: what happens to the node, to the session table and to every getBoundNode answer, that nothing else changes, and the reply |
| Daemons.EveryRunDoes | src/daemon/api/APISession.cpp:49-146 | in every step of every conforming run a request has exactly that effect |
| Daemons.EveryRun | src/daemon/p2p/NodeManager.cpp:32-91 | in every state of every conforming run: each node in exactly one index under its own SH and in exactly one session table, every counter the least free id, and no request throws |
| ClientSessions.P2PSession.MarkMessage | src/library/P2PSession.cpp:58-62 | the message gets the counter as token and the counter wraps at 2^32 |
| ClientSessions.P2PSession.BeginExchange | src/library/P2PSession.cpp:84-92 | a promise is parked under the token; if one is pending there the exception leaves only the counter stepped |
| ClientSessions.P2PSession.HandleReceive | src/library/P2PSession.cpp:39-45 | exactly the promise of the token is set, and only if it exists and is unset |
| ClientSessions.P2PSession.FinishExchange | src/library/P2PSession.cpp:94-106 | the caller gets the reply its promise holds and the promise is pruned |
| Protocol.ReplyFindsPromise | src/library/P2PSession.cpp:43-44 | under the token law every reply in flight finds its promise, unset |
| Protocol.WakeKeeps | src/library/P2PSession.cpp:94-106 | waking keeps all laws and the caller's reply answers its own request |
| Systems.ProcessMovesIds | src/daemon/api/APISession.cpp:49-146 | serving moves ids one for one between the session table and the channels |
| Systems.EveryInterleaving | src/library/P2PNode.cpp:26-126 | the laws of tokens, ids, matching replies and the daemon's invariant hold in every state of every interleaving, sends that meet a pending token and throw included |
| Systems.IdsInOnePlace | src/library/P2PNode.cpp:26-81 | in every state a registered id is exactly once in: held by a live node, in a registration reply not yet consumed, in an unregistration under way; any other id nowhere |
| Systems.TokensInOnePlace | src/library/P2PSession.cpp:39-116 | in every state a pending token is exactly once in: a request in flight, a reply in flight, a promise already set; any other token nowhere |
| Systems.EveryStepSafe | src/library/P2PSession.cpp:39-116 | in every state: replies find their unset promise, no exception escapes a handler, each caller wakes with the reply to its own request, nonexistent_node never occurs, an error is replied iff a registration finds all ids taken |
| Systems.SendNeverCollides | src/library/P2PSession.cpp:58-89 | with fewer than 2^32 exchanges begun the next token is not pending |
| Exchanges.OwnRequest | src/library/P2PSession.cpp:84-116 | in every state from the send of q up to the wake of its caller: the caller is recorded with q, what travels under its token is q, and any reply it could wake with answers q |
| Exchanges.ExchangeEndToEnd | src/library/P2PNode.cpp:26-126 | in every run, a caller that sent q and can wake was served in between: the daemon handled exactly q, with the effect its kind promises, and the reply is what it answered there |
| KeyHistory.KeyProvider.constructor | src/daemon/overlay/KeyProvider.cpp:45-59 | wrapping unsigned intervals, and a first key generated before it returns |
| KeyHistory.KeyProvider.RenewKeys | src/daemon/overlay/KeyProvider.cpp:67-87 | the new key goes in front and the oldest drops out above the limit |
| KeyHistory.KeyAtOffset | src/daemon/overlay/KeyProvider.cpp:103-109 | after every run getKeyInfo(offset) is the offset-newest key generated iff offset is below both the number of renewals and (history_size + 1) mod 2^32, and none otherwise |
| KeyHistory.KeyTimes | src/daemon/overlay/KeyProvider.cpp:45-75 | after every run every key held expires renew_interval after it was generated and is lost renew_interval * (history_size + 1) mod 2^32 after |
| KeyHistory.ExpiredOnTheDot | src/daemon/overlay/KeyProvider.cpp:67-93 | renewed exactly on schedule, every older key expired just when the next one was generated |
| KeyHistory.KeyProvider.GetKeyInfoByTh | src/daemon/overlay/KeyProvider.cpp:111-119 | the search finds the newest entry with that TH or none |
| KeyHistory.NewestFirst | src/daemon/overlay/KeyProvider.cpp:67-87 | after every run the history is the newest min(count, history_size + 1) keys, newest first, limit taken modulo 2^32 |
| KeyHistory.EvictedAfterLoss | src/daemon/overlay/KeyProvider.cpp:45-93 | with renewals at least renew_interval apart a key is evicted only at or after its lose_time |
| KeyHistory.FoundUntilLost | src/daemon/overlay/KeyProvider.cpp:67-119 | at any later time every generated key not yet lost is found by its TH with its own times, and an unknown TH is not found |
| KeyHistory.OnlyCurrentUnexpired | src/daemon/overlay/KeyProvider.cpp:67-93 | at any later time only the current key can be unexpired |
| KeyHistory.EvictedOnTheDot | src/daemon/overlay/KeyProvider.cpp:45-93 | renewed exactly every renew_interval, a key is evicted at its lose_time iff renew_interval * (history_size + 1) fits in 32 bits |
| KeyHistory.CurrentKeyExactly | src/daemon/overlay/KeyProvider.h:73-78 | the current key exists once one was generated iff history_size is not 2^32 - 1 |
| BigEndian.EvalDigits | src/common/crypto/base58.cpp:30-39 | the digits of a number spell it, in every base |
| BigEndian.DigitsEval | src/common/crypto/base58.cpp:50-55 | the digits of what a digit string spells are that string without leading zeros |
| Base58.EncodeToBase58 | src/common/crypto/base58.cpp:24-42 | the division loop writes the base-58 digits of the bytes' number |
| Base58.DecodeFromBase58 | src/common/crypto/base58.cpp:44-57 | the backward loop reads the base-58 number, npos for foreign characters, into minimal bytes |
| Base58.DecodeEncode | src/common/crypto/base58.cpp:24-57 | decoding an encoding gives the bytes without leading zeros |
| Base58.EncodeDecode | src/common/crypto/base58.cpp:24-57 | encoding a decoding gives the text without leading '1's iff it is over the alphabet |
| Base58.EncodedLength | src/common/crypto/base58.cpp:24-42 | a value v > 0 takes L characters with 58^(L-1) <= v < 58^L, zero takes none |
| Base58.TextLength | src/common/crypto/base58.cpp:24-42 | 8 k bytes take at most 11 k characters, so 32 bytes at most 44 |
| PrivateKeys.PrivateKeyDSA.ToBinaryVector | src/common/crypto/PrivateKeyDSA.cpp:123-132 | the reverse copy right-aligns the scalar in 32 zeroed bytes |
| PrivateKeys.PrivateKeyDSA.SetAsBinaryVector | src/common/crypto/PrivateKeyDSA.cpp:116-121 | the bytes are read as one number |
| PrivateKeys.PrivateKeyDSA.SetAsBase58 | src/common/crypto/MathString.h:73-75 | importing a text is decoding it and importing the bytes |
| PrivateKeys.PrivateKeyDSA.ToBase58 | src/common/crypto/MathString.h:81-83 | exporting a text is encoding the exported bytes |
| PrivateKeys.ExportExactly | src/common/crypto/PrivateKeyDSA.cpp:123-132 | a scalar exports iff it is below 2^256, to 32 bytes that spell it |
| PrivateKeys.BinaryRoundTrip | src/common/crypto/PrivateKeyDSA.cpp:116-132 | importing exported bytes, or a scalar's bytes behind any zeros, gives x back iff x > 0 or the random key is 0 |
| PrivateKeys.KeyRoundTrip | src/common/crypto/MathString.h:73-83 | importing the exported text gives x back iff 0 < x < 2^256 |
| PrivateKeys.TextRoundTrip | src/common/crypto/MathString.h:73-83 | exporting an imported text gives it back without leading '1's iff it is over the alphabet and spells a number above 0 and below 2^256; at most 44 characters remain |
| Framing.SizeBytes | src/common/api/UnixAPISocket.cpp:45-51 | the four size bytes spell the size, most significant first |
| Framing.StreamSocket.ReceiveMessage | src/common/api/UnixAPISocket.cpp:65-92 | receive takes one whole frame off the stream, or fails and drains it |
| Framing.AsyncSocket.Arrive | src/common/api/UnixAPISocket.cpp:101-141 | the handlers run until the buffered bytes no longer complete a read |
| Framing.ChunkingDoesNotMatter | src/common/api/UnixAPISocket.cpp:65-141 | however the stream is cut into chunks, the handlers deliver what repeated receive calls return |
| Framing.TruncatedStream | src/common/api/UnixAPISocket.cpp:45-92 | a stream cut after n bytes yields exactly the messages whose frames are complete |
| Framing.DeliveredInOrder | src/common/api/UnixAPISocket.cpp:45-141 | after any chunks making up a first part of the frames, a prefix of the messages is delivered, all of them iff every byte arrived |
| Framing.ReceivedExactly | src/common/api/UnixAPISocket.cpp:45-92 | a list of messages comes back as sent iff each is shorter than 2^32 bytes |
| Endpoints.IpInterfaceEndpoint.SetIPString | src/daemon/transport/ip/IPInterfaceEndpoint.cpp:41-43 | the text up to '%' is parsed |
| Endpoints.IpInterfaceEndpoint.Load | src/daemon/transport/ip/IPInterfaceEndpoint.cpp:64-71 | fields after fromString, also when the port or the address is rejected |
| Endpoints.SocketEndpoint.FromString | src/daemon/transport/SocketEndpoint.cpp:77-82 | endpoint and error after fromString: no_such_interface leaves it alone, a malformed text leaves a reset one |
| Endpoints.ToStringInjective | src/daemon/transport/ip/IPInterfaceEndpoint.cpp:59-63 | toString is injective on endpoints with colon-free prefixes |
| Endpoints.EndpointRoundTrip | src/daemon/transport/SocketEndpoint.cpp:73-82 | fromString restores what toString printed iff the part of the address before its scope id is parsed to the whole address, which holds for every address without one |
| Endpoints.ScopeDropped | src/daemon/transport/ip/IPInterfaceEndpoint.cpp:41-43 | the parser is handed exactly what stands before the first '%' |
| Endpoints.LoadExactly | src/daemon/transport/SocketEndpoint.cpp:77-82 | every text prefix:address%scope:port loads into a given endpoint iff the interface is registered, the port text stands for the port, and the address before the scope is parsed to the address |
| Endpoints.LoadWithoutPort | src/daemon/transport/ip/IPInterfaceEndpoint.cpp:64-71 | with one colon or none the same text is taken for several parts, and it loads iff it is valid as each |
| Endpoints.UnknownInterface | src/daemon/transport/SocketEndpoint.cpp:38-44 | a prefix that names no interface leaves the endpoint alone and reports no_such_interface, whatever follows |
| Endpoints.PlainPort | src/daemon/transport/ip/IPInterfaceEndpoint.cpp:69-69 | a port text of digits, leading zeros included, stands for its number iff that fits in 16 bits |
| Endpoints.SignedPort | src/daemon/transport/ip/IPInterfaceEndpoint.cpp:69-69 | a plus changes nothing, a minus negates modulo 2^16 |
| Endpoints.OnlySignedDigits | src/daemon/transport/ip/IPInterfaceEndpoint.cpp:69-69 | no text but digits with an optional sign stands for a port |
| Endpoints.ShortestDecimal | src/daemon/transport/ip/IPInterfaceEndpoint.cpp:59-63 | ports are printed in the fewest digits |
| Endpoints.EndpointOrder | src/daemon/transport/SocketEndpoint.cpp:53-63 | operator< is transitive, exactly one of <, ==, > holds iff both endpoints are set or both unset, and == is equality |
| Endpoints.FirstDifferenceDecides | src/daemon/transport/SocketEndpoint.cpp:59-63 | the order is by the first character in which the texts differ, a shorter text first |
| Endpoints.UnsetBreaksOrder | src/daemon/transport/SocketEndpoint.cpp:59-63 | an unset endpoint is unordered with two set ones that are ordered with each other |
| AsWritten.LeafLoopReturns | src/daemon/dht/KBucket.cpp:120-127 | the leaf loop as written returns iff the leaf is empty and n <= 0 |
| AsWritten.RemoveIfErases | src/daemon/dht/KBucket.cpp:83-85 | remove_if as written leaves what erasing would iff there is no BAD node |
| AsWritten.XorFromExactly | src/common/crypto/Hash.cpp:92-94 | operator^ with its counter started anywhere is the exclusive or iff the hashes agree on the bytes before |
| AsWritten.UnsentErrorExactly | src/daemon/api/APISession.cpp:151-159 | with the error reply built and not sent, serving a request does what is meant and keeps the laws of the system iff it is not a registration that finds all ids taken |
| AsWritten.StrandedExactly | src/daemon/api/APISession.cpp:49-159 | in every state of every run, that is exactly when the caller's token is left pending and in no channel |

## Left out

- Keccak, ECDSA, ECDH, AES, CRC32, hex and Base64: foreign code; hashes are 224-bit strings, numbers are unbounded.
- Protobuf encoding, sockets, timers and threads: messages are values, channels are FIFO, steps are atomic.
- The connection state machine of src/daemon/overlay and the UDP transport: their handlers are empty or plumbing.
- Discovery, configuration, logging and start-up: input, output and thin wrappers.
- FIND_VALUE, STORE, ping and the messages findAnyIterative sends to its shortlist: unfinished, or easy.
- NodeConnect, NodeAccept, SocketUnRegister, unbindNode, cleanup and session dropping: unfinished in the source.
- KeyHistory.KeyProvider.RenewKeys: does not model the rotation signal, which only notifies listeners.
