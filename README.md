# Replication engine of a sharded key-value store

A Dafny model of the replication core of `2019-highload-dht`: an HTTP
key-value service that places each key on a circular run of replica nodes,
lets the node that receives a request coordinate it across those replicas
with a consistency parameter `ack/from`, stores versioned values in a local
store, and streams key ranges with the HTTP/1.1 chunked transfer coding.

The modules follow the repository's classes:

- `Timestamps` (timestamp.dfy): the versioned value (PRESENT with a payload,
  REMOVED, ABSENT, each with a time), its byte encoding (tag byte, big-endian
  time, payload) and the last-writer-wins `merge`.
- `JavaTypes` (java_types.dfy), `Wrappers` (wrappers.dfy): Java's byte, int
  and long, the big-endian long layout, the exceptions the core raises.
- `Topology` (topology.dfy): the node list, `primaryFor` and the circular
  replica walk. The key hash is a parameter.
- `ReplicationFactor` (rf.dfy): the `replicas` parameter parser and its
  validation against the cluster size, shared by `RF` and its copy nested in
  `ReplicasSimpleServiceImpl`.
- `ByteBuffers` (byte_buffers.dfy): the slice of `java.nio.ByteBuffer` the
  code relies on (wrap, duplicate, bulk get and put).
- `SimpleDao` (simple_dao.dfy): the store adapter. Keys are stored with their
  sign bit flipped; the store is a map from stored key to stored bytes; the
  range iterator is a sequence with a cursor.
- `Http` (http.dfy): statuses, responses, what a handler sends, and the pool
  of peer clients. Each peer's answer is a parameter; every call is logged.
- `QuorumCoordinator` (coordinator.dfy): `Coordinator`. Each pass over the
  replica array (GET, PUT, DELETE) is a specification function. The class
  methods are proved against those functions: their responses, the calls
  they send and the store they leave.
- `QuorumCoordinators` (coordinators.dfy): the near-duplicate
  `Coordinators`, proved against the same pass functions.
- `StorageSessions` (storage_session.dfy): the range streamer. It covers the
  chunk framing of section 4.1 of RFC 7230 and the pull loop gated on the
  outbound queue. The socket is modelled as a count of frames it still takes
  whole.
- `Frontend` (frontend.dfy), `ReplicasService` (replicas_service.dfy),
  `NewHttpService` (new_http_service.dfy): the two HTTP front-ends, as
  decisions from request fields to what is sent at once and what runs next.
  They also hold the local GET/PUT/DELETE handlers of a single-node cluster.

Where the written description of the system and the code disagree, the model
follows the code:

- Stored keys compared as unsigned bytes follow the *signed* order of the
  original keys (`SimpleDao.EncodedOrderIsSignedOrder`). This is the order
  Java's `ByteBuffer.compareTo` uses.
- A refused `replicas` parameter does not end the request (see Findings).

`ReplicasSimpleServiceImpl.getReplica` calls `topology.replicas(rf.getFrom(), key)`.
The model reads this as `replicas(key, from)`, the only `replicas` that
`BasicTopology` defines.

Java `assert` statements are taken as disabled, as they are by default. So
`assert newRf != null` in the entity handler does not fire, and a null
consistency value fails later, at its dereference. The constructor's
`assert nodes.contains(me)` becomes a precondition of `Topology.New`.

## Model

| member | source | states |
|---|---|---|
| Timestamps.FromValue | src/main/java/ru/mail/polis/dao/Timestamp.java:25-33 | tag 1 and only 1 reads PRESENT, tag -1 and only -1 reads REMOVED; every other byte reads ABSENT |
| Timestamps.FromValueOfValue | src/main/java/ru/mail/polis/dao/Timestamp.java:14-33 | each state's own tag byte reads back as that state |
| Timestamps.FromPresent | src/main/java/ru/mail/polis/dao/Timestamp.java:44-46 | a PRESENT value with the given payload and time |
| Timestamps.Tombstone | src/main/java/ru/mail/polis/dao/Timestamp.java:48-50 | `timestamp(t)` is REMOVED at time t |
| Timestamps.GetAbsent | src/main/java/ru/mail/polis/dao/Timestamp.java:93-95 | `getAbsent` is ABSENT with time -1 |
| Timestamps.GetPresentAsBytes | src/main/java/ru/mail/polis/dao/Timestamp.java:68-80 | succeeds exactly for PRESENT, with the payload; otherwise the IOException "value is not present" |
| Timestamps.ToBytes | src/main/java/ru/mail/polis/dao/Timestamp.java:106-118 | the encoding is 1 + 8 bytes, plus the payload length only for PRESENT |
| Timestamps.FromBytes | src/main/java/ru/mail/polis/dao/Timestamp.java:97-104 | null decodes as ABSENT; fewer than nine bytes underflow the buffer, and only then |
| Timestamps.ToBytesLayout | src/main/java/ru/mail/polis/dao/Timestamp.java:106-118 | byte 0 is the state tag, bytes 1..8 the big-endian time, the rest the payload (none unless PRESENT) |
| Timestamps.DecodeEncode | src/main/java/ru/mail/polis/dao/Timestamp.java:97-118 | decoding an encoding gives back the same state, time and PRESENT payload |
| Timestamps.UnknownTagIsAbsent | src/main/java/ru/mail/polis/dao/Timestamp.java:97-104 | a tag byte other than 1 and -1 decodes as ABSENT, keeping the encoded time |
| Timestamps.EncodeDecode | src/main/java/ru/mail/polis/dao/Timestamp.java:97-118 | re-encoding a decoded value reproduces a PRESENT input, drops what follows the time of a REMOVED one, and rewrites an unknown tag to 0 |
| Timestamps.NonAbsent | src/main/java/ru/mail/polis/dao/Timestamp.java:86-87 | the filter keeps exactly the non-ABSENT responses |
| Timestamps.MaxByTime | src/main/java/ru/mail/polis/dao/Timestamp.java:88 | the maximum by time is one of the candidates and no candidate is newer |
| Timestamps.Merge | src/main/java/ru/mail/polis/dao/Timestamp.java:82-91 | one response is returned as it is; otherwise ABSENT iff all are ABSENT, else a response at least as new as every non-ABSENT one (ties left open) |
| Timestamps.MergeCopies | src/main/java/ru/mail/polis/dao/Timestamp.java:82-91 | merging n copies of one value gives it back, an ABSENT one (or none at all) as `getAbsent` unless n is 1 |
| Timestamps.MergeExamples | src/main/java/ru/mail/polis/dao/Timestamp.java:82-91 | the newest PRESENT wins, a tombstone beats ABSENT, all ABSENT stays ABSENT |
| JavaTypes.GetLongOfPutLong | src/main/java/ru/mail/polis/dao/Timestamp.java:102-113 | `getLong` reads back the long `putLong` wrote |
| JavaTypes.PutLongOfGetLong | src/main/java/ru/mail/polis/dao/Timestamp.java:102-113 | `putLong` of a read long reproduces the eight bytes |
| Topology.New | src/main/java/ru/mail/polis/service/hljavacourse/BasicTopology.java:23-27 | the node list copies the set in its own order and contains this node; `all` is that set, `isMe` holds exactly for this node, `getMe` returns it |
| Topology.Mask | src/main/java/ru/mail/polis/service/hljavacourse/BasicTopology.java:32 | `hash & Integer.MAX_VALUE` is non-negative and at most Integer.MAX_VALUE, the hash itself when non-negative |
| Topology.StartIndex | src/main/java/ru/mail/polis/service/hljavacourse/BasicTopology.java:31-32 | the start index is always in [0, n) |
| Topology.PrimaryFor | src/main/java/ru/mail/polis/service/hljavacourse/BasicTopology.java:30-34 | the primary is one of the cluster's nodes |
| Topology.ReplicaWalk | src/main/java/ru/mail/polis/service/hljavacourse/BasicTopology.java:53-58 | exactly count nodes, the j-th being nodes[(start + j) mod n] |
| Topology.Replicas | src/main/java/ru/mail/polis/service/hljavacourse/BasicTopology.java:51-61 | the array the loop fills is the circular walk from the primary's index; a negative count fails as the allocation does |
| Topology.FirstReplicaIsPrimary | src/main/java/ru/mail/polis/service/hljavacourse/BasicTopology.java:30-58 | for count >= 1 the first replica is `primaryFor(key)` |
| Topology.ReplicasDistinct | src/main/java/ru/mail/polis/service/hljavacourse/BasicTopology.java:52-58 | with count <= n the replicas are pairwise distinct |
| Topology.FullWalkListsEveryNode | src/main/java/ru/mail/polis/service/hljavacourse/BasicTopology.java:37-58 | a walk of n nodes lists every node of `all()` exactly once |
| ReplicationFactor.Majority | src/main/java/ru/mail/polis/service/hljavacourse/ReplicasSimpleServiceImpl.java:63 | the default `(size/2 + 1, size)` is a strict majority with from == size, and acceptable on any non-empty cluster |
| ReplicationFactor.RemoveAll | src/main/java/ru/mail/polis/service/hljavacourse/RF.java:28 | `replace("=", "")` removes every '=' and keeps every other character |
| ReplicationFactor.SplitJoin | src/main/java/ru/mail/polis/service/hljavacourse/RF.java:29 | the Splitter's parts join back to the input, hold no '/', and number one more than the '/' characters |
| ReplicationFactor.ParseInt | src/main/java/ru/mail/polis/service/hljavacourse/RF.java:33 | a parsed int comes from a non-empty string holding neither '/' nor '=' |
| ReplicationFactor.ParseIntToString | src/main/java/ru/mail/polis/service/hljavacourse/RF.java:33 | `parseInt` reads back every printed int |
| ReplicationFactor.Of | src/main/java/ru/mail/polis/service/hljavacourse/RF.java:27-34 | accepted only when the input without '=' holds exactly one '/'; every failure is an IllegalArgumentException |
| ReplicationFactor.OfRoundTrip | src/main/java/ru/mail/polis/service/hljavacourse/RF.java:27-34 | `ack/from` as a client writes it parses to exactly (ack, from) |
| ReplicationFactor.GetRf | src/main/java/ru/mail/polis/service/hljavacourse/RF.java:36-55 | BAD_REQUEST iff nothing parsed or `1 <= ack <= from <= size` fails; without it the value satisfies that bound; a missing parameter gives the default; the last assigned value is returned either way |
| ReplicationFactor.RefusesGarbage | src/main/java/ru/mail/polis/service/hljavacourse/ReplicasSimpleServiceImpl.java:256-283 | an unparsable value sends BAD_REQUEST and leaves null |
| ReplicationFactor.RefusesAckAboveFrom | src/main/java/ru/mail/polis/service/hljavacourse/RF.java:47-54 | ack above from sends BAD_REQUEST and still returns the parsed value |
| ReplicationFactor.RefusesFromAboveSize | src/main/java/ru/mail/polis/service/hljavacourse/RF.java:47-54 | from above the cluster size sends BAD_REQUEST and still returns the parsed value |
| SimpleDao.MinusMinValue | src/main/java/ru/mail/polis/dao/SimpleDAOImpl.java:138-140 | subtracting Byte.MIN_VALUE maps a signed byte b to the unsigned byte b + 128 |
| SimpleDao.PlusMinValue | src/main/java/ru/mail/polis/dao/SimpleDAOImpl.java:208-210 | adding Byte.MIN_VALUE maps the unsigned byte u back to u - 128 |
| SimpleDao.EncodeKey | src/main/java/ru/mail/polis/dao/SimpleDAOImpl.java:134-144 | the stored key has the same length, each byte shifted by +128 when read unsigned |
| SimpleDao.DecodeKey | src/main/java/ru/mail/polis/dao/SimpleDAOImpl.java:205-213 | the decoded key has the same length, each byte shifted back by -128 |
| SimpleDao.DecodeEncodeKey | src/main/java/ru/mail/polis/dao/SimpleDAOImpl.java:205-213 | decoding an encoded key gives the key back |
| SimpleDao.EncodeDecodeKey | src/main/java/ru/mail/polis/dao/SimpleDAOImpl.java:134-144 | encoding a decoded key gives the stored key back |
| SimpleDao.EncodeKeyInjective | src/main/java/ru/mail/polis/dao/SimpleDAOImpl.java:134-144 | two keys share a stored key iff they are equal |
| SimpleDao.EncodedOrderIsSignedOrder | src/main/java/ru/mail/polis/dao/SimpleDAOImpl.java:35 | the bytewise (unsigned) order of stored keys is the signed lexicographic order of the original keys |
| SimpleDao.GetArray | src/main/java/ru/mail/polis/dao/SimpleDAOImpl.java:146-153 | a fresh array with exactly the buffer's remaining bytes; the buffer is not touched |
| SimpleDao.GetArrayByteMinusMinValue | src/main/java/ru/mail/polis/dao/SimpleDAOImpl.java:134-144 | a fresh array holding the encoded key, rewritten in place |
| SimpleDao.GetByteBufferPlusMinValue | src/main/java/ru/mail/polis/dao/SimpleDAOImpl.java:205-213 | a fresh buffer holding the decoded key, the stored array left as it was |
| SimpleDao.Lookup | src/main/java/ru/mail/polis/dao/SimpleDAOImpl.java:58-62 | a value is found iff the encoded key is stored |
| SimpleDao.Read | src/main/java/ru/mail/polis/dao/SimpleDAOImpl.java:76-82 | an unknown key reads ABSENT; the read fails only on a stored value shorter than nine bytes |
| SimpleDao.SimpleDAO.Get | src/main/java/ru/mail/polis/dao/SimpleDAOImpl.java:56-66 | the stored bytes in a fresh buffer, or NoSuchElement exactly when the key is unknown |
| SimpleDao.SimpleDAO.GetWithTimestamp | src/main/java/ru/mail/polis/dao/SimpleDAOImpl.java:76-82 | the stored bytes decoded as a versioned value, ABSENT for an unknown key |
| SimpleDao.SimpleDAO.Upsert | src/main/java/ru/mail/polis/dao/SimpleDAOImpl.java:85-91 | the value's bytes stored under the encoded key, nothing else changed |
| SimpleDao.SimpleDAO.UpsertWithTimestamp | src/main/java/ru/mail/polis/dao/SimpleDAOImpl.java:100-108 | the PRESENT encoding at the given time stored under the encoded key, nothing else changed |
| SimpleDao.SimpleDAO.Remove | src/main/java/ru/mail/polis/dao/SimpleDAOImpl.java:111-117 | the entry of the encoded key deleted, nothing else changed |
| SimpleDao.SimpleDAO.RemoveWithTimestamp | src/main/java/ru/mail/polis/dao/SimpleDAOImpl.java:125-132 | a REMOVED encoding stored under the encoded key; the entry is not deleted |
| SimpleDao.ReadAfterUpsertWithTimestamp | src/main/java/ru/mail/polis/dao/SimpleDAOImpl.java:100-108 | after a timestamped upsert the key reads PRESENT with that payload and time |
| SimpleDao.ReadAfterRemoveWithTimestamp | src/main/java/ru/mail/polis/dao/SimpleDAOImpl.java:125-132 | after a timestamped removal the key reads REMOVED, not ABSENT |
| SimpleDao.ReadAfterRemove | src/main/java/ru/mail/polis/dao/SimpleDAOImpl.java:111-117 | after a plain removal the key reads ABSENT |
| SimpleDao.WriteIsolation | src/main/java/ru/mail/polis/dao/SimpleDAOImpl.java:100-132 | a write or a removal under one key leaves every other key reading as before |
| SimpleDao.RocksDBIterator.Over | src/main/java/ru/mail/polis/dao/SimpleDAOImpl.java:177-179 | an iterator over the given entries, at the first one |
| SimpleDao.RocksDBIterator.Next | src/main/java/ru/mail/polis/dao/SimpleDAOImpl.java:191-203 | IllegalState and no move when nothing is left; otherwise the decoded key and the raw value of the current entry, in fresh buffers, and one step forward |
| Http.Pool.Call | src/main/java/ru/mail/polis/service/hljavacourse/Coordinator.java:61 | the node's answer to the request, with the request appended to the call log |
| QuorumCoordinator.Classify | src/main/java/ru/mail/polis/service/hljavacourse/Coordinator.java:63-70 | 500 is skipped and only 500; 404 with an empty body counts as ABSENT; any other answer is decoded and counts, failing only on a body shorter than nine bytes |
| QuorumCoordinator.LocalGetResponse | src/main/java/ru/mail/polis/service/hljavacourse/Coordinator.java:83-95 | 404 with an empty body exactly when the local value is ABSENT; otherwise 200 whose body is the encoding and decodes back to the stored version; a failed read propagates |
| QuorumCoordinator.LocalGetRoundTrip | src/main/java/ru/mail/polis/service/hljavacourse/Coordinator.java:63-95 | classifying the local answer gives back the stored value (ABSENT as `getAbsent`) |
| QuorumCoordinator.RemoteCallsFromTargets | src/main/java/ru/mail/polis/service/hljavacourse/Coordinator.java:54-62 | the calls from position i on go only to nodes of the rest of the array other than this node, carrying the request; every such node is called, and the number of calls is the number of remaining positions minus those holding this node |
| QuorumCoordinator.RemoteCallsTargets | src/main/java/ru/mail/polis/service/hljavacourse/Coordinator.java:54-62 | every node other than this one is called, with exactly one call per position of the array that does not hold this node, and this node never is |
| QuorumCoordinator.Reply | src/main/java/ru/mail/polis/service/hljavacourse/Coordinator.java:54-73 | for a peer: skipped exactly when its call failed with HttpException, PoolException or InterruptedException or it answered 500; a call that ended in an IOException escapes the loop; any other answer is classified |
| QuorumCoordinator.GatherFrom | src/main/java/ru/mail/polis/service/hljavacourse/Coordinator.java:54-74 | from position i on, the number of counted answers equals the number of collected values and grows by at most one per node |
| QuorumCoordinator.GatherGet | src/main/java/ru/mail/polis/service/hljavacourse/Coordinator.java:50-74 | the ack count equals the number of collected values and never exceeds the number of replica nodes |
| QuorumCoordinator.GatherFromThrown | src/main/java/ru/mail/polis/service/hljavacourse/Coordinator.java:54-74 | once an exception escapes, the pass stops: nothing later is asked or counted |
| QuorumCoordinator.GatherFromCalls | src/main/java/ru/mail/polis/service/hljavacourse/Coordinator.java:54-74 | a pass with no escaping exception calls exactly the remote nodes from position i on |
| QuorumCoordinator.GatherGetCalls | src/main/java/ru/mail/polis/service/hljavacourse/Coordinator.java:54-74 | a completed GET pass sends exactly one request to every remote replica, in order |
| QuorumCoordinator.Respond | src/main/java/ru/mail/polis/service/hljavacourse/Coordinator.java:166-183 | merged PRESENT gives 200 with the payload (the full encoding when proxied with a single node); REMOVED gives 404 with the tombstone's encoding; ABSENT gives 404 with an empty body |
| QuorumCoordinator.GetOutcome | src/main/java/ru/mail/polis/service/hljavacourse/Coordinator.java:75-79 | fails iff an exception escaped; otherwise the merged answer when proxied or acks >= ack, and 504 with an empty body exactly when not proxied and acks < ack |
| QuorumCoordinator.ProxiedHopRoundTrip | src/main/java/ru/mail/polis/service/hljavacourse/Coordinator.java:166-171 | a forwarded GET on its single node answers what the forwarding coordinator classifies back into the stored value |
| QuorumCoordinator.QuorumGetAnswersNewest | src/main/java/ru/mail/polis/service/hljavacourse/Coordinator.java:75-76 | a client GET that reached its quorum answers 200 with the payload of a newest PRESENT version, or 404 when a newest version is a tombstone or none is PRESENT |
| QuorumCoordinator.TimedOutPeerEndsGet | src/main/java/ru/mail/polis/service/hljavacourse/Coordinator.java:54-72 | a peer call ending in an IOException stops the GET loop: later replicas are not asked, and the client gets 504 although the quorum had been met |
| QuorumCoordinator.WriteAck | src/main/java/ru/mail/polis/service/hljavacourse/Coordinator.java:115-124 | the local write always adds one ack; a peer adds one exactly when it answered with the success status, so a failed or timed-out call adds none |
| QuorumCoordinator.WriteAcksFrom | src/main/java/ru/mail/polis/service/hljavacourse/Coordinator.java:113-128 | the acks from position i on are at most the nodes left, and at least one when this node is among them |
| QuorumCoordinator.WriteAcks | src/main/java/ru/mail/polis/service/hljavacourse/Coordinator.java:113-128 | the write acks never exceed the replica count and include the local write when this node is a replica |
| QuorumCoordinator.WriteResponse | src/main/java/ru/mail/polis/service/hljavacourse/Coordinator.java:129-133 | the success status iff proxied or acks >= ack, otherwise 504; the body is empty |
| QuorumCoordinator.WriteFromOnce | src/main/java/ru/mail/polis/service/hljavacourse/Coordinator.java:113-128 | the store after the pass holds the local write exactly when this node is a replica, whatever the peers answered: nothing is rolled back |
| QuorumCoordinator.QuorumExample | src/main/java/ru/mail/polis/service/hljavacourse/Coordinator.java:113-133 | with three replicas and ack 2, one peer down still gives 201; all peers down gives 504 |
| QuorumCoordinator.Coordinator.constructor | src/main/java/ru/mail/polis/service/hljavacourse/Coordinator.java:36-44 | keeps the store, the pool, the topology and the proxied flag |
| QuorumCoordinator.Coordinator.GetWrappedKey | src/main/java/ru/mail/polis/service/hljavacourse/Coordinator.java:97-100 | a fresh buffer over exactly the given bytes |
| QuorumCoordinator.Coordinator.GetResponseIfMe | src/main/java/ru/mail/polis/service/hljavacourse/Coordinator.java:82-95 | the local answer computed from the stored value |
| QuorumCoordinator.Coordinator.AskNode | src/main/java/ru/mail/polis/service/hljavacourse/Coordinator.java:56-62 | the local answer for this node, the peer's answer or its exception otherwise, with exactly that one call logged |
| QuorumCoordinator.Coordinator.Visit | src/main/java/ru/mail/polis/service/hljavacourse/Coordinator.java:55-73 | one loop body: the node's reply classified and counted as one step of the GET pass |
| QuorumCoordinator.Coordinator.Get | src/main/java/ru/mail/polis/service/hljavacourse/Coordinator.java:46-80 | the response is the GET pass's outcome, and the pool was called exactly as the pass calls it |
| QuorumCoordinator.Coordinator.PutTo | src/main/java/ru/mail/polis/service/hljavacourse/Coordinator.java:114-127 | one node: the local timestamped write or the peer's PUT, and its ack |
| QuorumCoordinator.Coordinator.Upsert | src/main/java/ru/mail/polis/service/hljavacourse/Coordinator.java:106-134 | 201 or 504 from the write acks; every remote replica called once in order; the local write applied iff this node is a replica |
| QuorumCoordinator.Coordinator.DeleteAt | src/main/java/ru/mail/polis/service/hljavacourse/Coordinator.java:144-157 | one node: the local tombstone or the peer's DELETE, and its ack |
| QuorumCoordinator.Coordinator.Delete | src/main/java/ru/mail/polis/service/hljavacourse/Coordinator.java:136-164 | 202 or 504 from the delete acks; every remote replica called once in order; the local tombstone written iff this node is a replica |
| QuorumCoordinator.Coordinator.Request | src/main/java/ru/mail/polis/service/hljavacourse/Coordinator.java:185-207 | dispatches GET/PUT/DELETE to their passes, sends the result and states the calls sent and the store left; any other method gets 405 and touches nothing |
| QuorumCoordinator.Deliver | src/main/java/ru/mail/polis/service/hljavacourse/Coordinator.java:187-206 | a response is sent as it is; an IOException is caught and answered with 504; any other exception escapes |
| QuorumCoordinators.MergedResponse | src/main/java/ru/mail/polis/service/hljavacourse/Coordinators.java:157-172 | observably identical to `Coordinator.response` for every input |
| QuorumCoordinators.Coordinators.constructor | src/main/java/ru/mail/polis/service/hljavacourse/Coordinators.java:37-45 | keeps the topology, the pool, the store and the proxied flag |
| QuorumCoordinators.Coordinators.PerformResponse | src/main/java/ru/mail/polis/service/hljavacourse/Coordinators.java:130-155 | "skip" only for 500; a counted answer appends exactly one value; a failed peer call or an exception leaves the list as it was, and only the HttpException/PoolException/InterruptedException kind is caught by the loop |
| QuorumCoordinators.Coordinators.GetStep | src/main/java/ru/mail/polis/service/hljavacourse/Coordinators.java:115-121 | one loop body: `performResponse` plus the count is exactly one step of the GET pass, an escaping exception included |
| QuorumCoordinators.Coordinators.Get | src/main/java/ru/mail/polis/service/hljavacourse/Coordinators.java:107-128 | the same outcome and the same calls as the GET pass of `Coordinator`, so the values list length equals the ack count |
| QuorumCoordinators.Coordinators.UpsertOn | src/main/java/ru/mail/polis/service/hljavacourse/Coordinators.java:85-98 | one node: the local timestamped write or the peer's PUT, and its ack |
| QuorumCoordinators.Coordinators.DeleteOn | src/main/java/ru/mail/polis/service/hljavacourse/Coordinators.java:55-68 | one node: the local tombstone or the peer's DELETE, and its ack |
| QuorumCoordinators.Coordinators.Upsert | src/main/java/ru/mail/polis/service/hljavacourse/Coordinators.java:77-105 | 201 iff acks >= required or proxied, else 504; the same calls and store change as `Coordinator.upsert` |
| QuorumCoordinators.Coordinators.Delete | src/main/java/ru/mail/polis/service/hljavacourse/Coordinators.java:47-75 | 202 iff acks >= required or proxied, else 504; the same calls and store change as `Coordinator.delete` |
| QuorumCoordinators.Coordinators.Request | src/main/java/ru/mail/polis/service/hljavacourse/Coordinators.java:174-196 | the same dispatch as `Coordinator.request`, with the same calls and store change; any other method gets 405 |
| StorageSessions.HexDigit | src/main/java/ru/mail/polis/service/hljavacourse/StorageSession.java:42 | a value below 16 becomes a lowercase hex digit |
| StorageSessions.DigitValue | src/main/java/ru/mail/polis/service/hljavacourse/StorageSession.java:42 | a lowercase hex digit's value, which prints back as that digit |
| StorageSessions.ToHexString | src/main/java/ru/mail/polis/service/hljavacourse/StorageSession.java:42 | `Integer.toHexString`: at least one lowercase hex digit |
| StorageSessions.HexRoundTrip | src/main/java/ru/mail/polis/service/hljavacourse/StorageSession.java:42 | the hex string reads back as the number |
| StorageSessions.HexIsCanonical | src/main/java/ru/mail/polis/service/hljavacourse/StorageSession.java:42 | the hex string has no leading zero, and a positive number does not start with '0' |
| StorageSessions.CanonicalHexPositive | src/main/java/ru/mail/polis/service/hljavacourse/StorageSession.java:42 | a canonical hex string not starting with '0' stands for a positive number, at least 16 when it has two digits or more |
| StorageSessions.HexCanonical | src/main/java/ru/mail/polis/service/hljavacourse/StorageSession.java:42 | every canonical hex string is the hex string of its value: the chunk size has one spelling |
| StorageSessions.Chunk | src/main/java/ru/mail/polis/service/hljavacourse/StorageSession.java:41-43 | the chunk length is hex + 2 + kvLength + 2, kvLength = key + 1 + value |
| StorageSessions.ChunkFraming | src/main/java/ru/mail/polis/service/hljavacourse/StorageSession.java:41-75 | a chunk of the chunked coding (section 4.1 of RFC 7230): canonical size, CRLF, exactly size bytes of key LF value, CRLF; never a zero-size last chunk |
| StorageSessions.Chunks | src/main/java/ru/mail/polis/service/hljavacourse/StorageSession.java:37-45 | one chunk per record, in iterator order, the key decoded |
| StorageSessions.ChunksHoldNoTerminal | src/main/java/ru/mail/polis/service/hljavacourse/StorageSession.java:37-52 | no record chunk is the last chunk |
| StorageSessions.FillChunk | src/main/java/ru/mail/polis/service/hljavacourse/StorageSession.java:67-74 | the chunk buffer is filled exactly, with no slack and no overflow, with size, CRLF, key, LF, value, CRLF |
| StorageSessions.StorageSession.constructor | src/main/java/ru/mail/polis/service/hljavacourse/StorageSession.java:23-25 | a session with no iterator and nothing sent |
| StorageSessions.StorageSession.Write | src/main/java/ru/mail/polis/service/hljavacourse/StorageSession.java:75 | the frame is sent; it takes a place on the socket when nothing is queued and the socket has room, otherwise it joins the queue |
| StorageSessions.StorageSession.WriteChunk | src/main/java/ru/mail/polis/service/hljavacourse/StorageSession.java:63-76 | exactly the framed chunk is written, taking a place on the socket or joining the queue as `write` does |
| StorageSessions.StorageSession.PullRecord | src/main/java/ru/mail/polis/service/hljavacourse/StorageSession.java:38-44 | one record taken from the iterator and written as its chunk, with `write`'s effect on the socket and queue |
| StorageSessions.StorageSession.HandleEnd | src/main/java/ru/mail/polis/service/hljavacourse/StorageSession.java:51-53 | the last chunk `0 CRLF CRLF` is written, with `write`'s effect on the socket and queue |
| StorageSessions.StorageSession.Pump | src/main/java/ru/mail/polis/service/hljavacourse/StorageSession.java:37-45 | records go out in iterator order, each once; none is pulled while the queue is non-empty; from an empty queue it pulls exactly one record more than the socket has room for (or all that are left) and leaves at most one frame queued |
| StorageSessions.StorageSession.NextAsWritten | src/main/java/ru/mail/polis/service/hljavacourse/StorageSession.java:33-49 | IllegalState without an iterator; otherwise the pumped chunks, then the last chunk whenever the iterator is exhausted, again on every call; every frame either used socket room or joined the queue |
| StorageSessions.StorageSession.Next | src/main/java/ru/mail/polis/service/hljavacourse/StorageSession.java:33-49 | corrected: the as-written `next` skipped once the stream's last chunk is out, so each stream sends exactly one last chunk, after all its records; the same socket and queue accounting |
| StorageSessions.StorageSession.StreamAsWritten | src/main/java/ru/mail/polis/service/hljavacourse/StorageSession.java:78-84 | the 200 head with `Transfer-Encoding: chunked`, then the as-written `next`; one more frame queued when records are left |
| StorageSessions.StorageSession.Stream | src/main/java/ru/mail/polis/service/hljavacourse/StorageSession.java:78-84 | a new stream, also on a kept-alive session that streamed before: the 200 head with `Transfer-Encoding: chunked` goes before any chunk, then the records the socket takes, with the last chunk counted per stream |
| StorageSessions.StorageSession.ProcessWrite | src/main/java/ru/mail/polis/service/hljavacourse/StorageSession.java:27-31 | corrected: after the socket drains, the corrected `next` resumes where the stream stopped and writes nothing once its last chunk is out |
| StorageSessions.StorageSession.ProcessWriteAsWritten | src/main/java/ru/mail/polis/service/hljavacourse/StorageSession.java:27-31 | the drain, then the as-written `next`: IllegalState on a session that never streamed, and a last chunk on every call once the iterator is exhausted |
| StorageSessions.RepeatedLastChunk | src/main/java/ru/mail/polis/service/hljavacourse/StorageSession.java:27-49 | as written, an empty range on a socket that takes one frame leaves the last chunk queued, and the `processWrite` that drains it sends a second last chunk |
| StorageSessions.SingleLastChunk | src/main/java/ru/mail/polis/service/hljavacourse/StorageSession.java:27-49 | the same run with the corrected `next` sends the last chunk once |
| Frontend.ProxyHeaderDetected | src/main/java/ru/mail/polis/service/hljavacourse/ReplicasSimpleServiceImpl.java:120-123 | a request carrying the proxy header is proxied; one without headers is not |
| Frontend.Refuse | src/main/java/ru/mail/polis/service/hljavacourse/ReplicasSimpleServiceImpl.java:116-118 | a refusal sends one error and nothing more |
| Frontend.Size | src/main/java/ru/mail/polis/service/hljavacourse/ReplicasSimpleServiceImpl.java:62 | the cluster size is the number of nodes of `all()`, at least one |
| Frontend.LocalGet | src/main/java/ru/mail/polis/service/hljavacourse/ReplicasSimpleServiceImpl.java:192-201 | 200 with the stored bytes, or 404 with an empty body exactly when the key is unknown (the same code as NewHttpServerImpl.java:155-164) |
| Frontend.LocalUpsert | src/main/java/ru/mail/polis/service/hljavacourse/ReplicasSimpleServiceImpl.java:208-211 | the value stored under the key, then 201 with an empty body |
| Frontend.LocalDelete | src/main/java/ru/mail/polis/service/hljavacourse/ReplicasSimpleServiceImpl.java:203-206 | the key deleted, then 202 with an empty body |
| Frontend.RunLocal | src/main/java/ru/mail/polis/service/hljavacourse/ReplicasSimpleServiceImpl.java:139-152 | GET answers 200 with the stored bytes or 404 with an empty body without writing; PUT stores the body and gives 201; DELETE removes the key and gives 202, each with an empty body |
| Frontend.LocalReadBack | src/main/java/ru/mail/polis/service/hljavacourse/ReplicasSimpleServiceImpl.java:192-211 | a stored value is read back by the local GET, a deleted one is not found, other keys are untouched |
| Frontend.Entities | src/main/java/ru/mail/polis/service/hljavacourse/ReplicasSimpleServiceImpl.java:165-179 | a missing or empty start is 400, checked before the method; a non-GET is 405; an empty end means no upper bound (the same checks as NewHttpServerImpl.java:180-193) |
| Frontend.ReplicaSet | src/main/java/ru/mail/polis/service/hljavacourse/ReplicasSimpleServiceImpl.java:154-163 | this node alone when proxied; otherwise `from` nodes starting with the key's primary |
| Frontend.Entity | src/main/java/ru/mail/polis/service/hljavacourse/ReplicasSimpleServiceImpl.java:114-137 | corrected entity handler: every request is answered once; a missing id or a refused consistency value is a single 400; an accepted request is coordinated exactly when the cluster has more than one node or it was proxied, over the replica set with 1 <= ack <= from <= size; otherwise a single node runs the method locally on the id and body, or refuses any other method with 405 |
| Frontend.QuorumReachable | src/main/java/ru/mail/polis/service/hljavacourse/ReplicasSimpleServiceImpl.java:129-133 | with the corrected handler a non-proxied fan-out targets at least ack distinct nodes |
| ReplicasService.GetReplica | src/main/java/ru/mail/polis/service/hljavacourse/ReplicasSimpleServiceImpl.java:154-163 | exactly [getMe()] when proxied; otherwise the replica walk of length from, NullPointer for a null value and NegativeArraySize for a negative from |
| ReplicasService.ExecuteRequest | src/main/java/ru/mail/polis/service/hljavacourse/ReplicasSimpleServiceImpl.java:139-152 | GET, PUT and DELETE run locally; any other method is 405 and only then |
| ReplicasService.Entity | src/main/java/ru/mail/polis/service/hljavacourse/ReplicasSimpleServiceImpl.java:114-137 | a missing or empty id is a single 400; a 400 leads the output iff the consistency value is refused; the coordinator is used iff size > 1 or proxied; with an accepted value it decides as the corrected handler |
| ReplicasService.HandleDefault | src/main/java/ru/mail/polis/service/hljavacourse/ReplicasSimpleServiceImpl.java:213-229 | the two entity paths are dispatched; any other path is 400 |
| ReplicasService.RefusedRfStillRunsLocally | src/main/java/ru/mail/polis/service/hljavacourse/ReplicasSimpleServiceImpl.java:125-136 | on a single node a refused consistency value sends 400 and the request still runs: two answers |
| ReplicasService.RefusedRfOnCluster | src/main/java/ru/mail/polis/service/hljavacourse/ReplicasSimpleServiceImpl.java:125-133 | on a cluster a refused value sends 400, then fails on null or is coordinated anyway |
| ReplicasService.RefusedRfExample | src/main/java/ru/mail/polis/service/hljavacourse/ReplicasSimpleServiceImpl.java:114-137 | PUT with `replicas=abc` on one node: 400, and the write still runs |
| NewHttpService.IsNotNullOrEmpty | src/main/java/ru/mail/polis/service/hljavacourse/NewHttpServerImpl.java:205-207 | true exactly when there is no non-empty value, the opposite of its name |
| NewHttpService.Entity | src/main/java/ru/mail/polis/service/hljavacourse/NewHttpServerImpl.java:108-153 | a missing or empty id is a single 400; with an accepted consistency value it decides as the corrected handler |
| NewHttpService.HandleDefault | src/main/java/ru/mail/polis/service/hljavacourse/NewHttpServerImpl.java:209-224 | the two entity paths are dispatched; any other path is 400 |
| NewHttpService.SameAsReplicasService | src/main/java/ru/mail/polis/service/hljavacourse/NewHttpServerImpl.java:108-153 | both front-ends decide every request alike, refused consistency values included |

## Left out

- RocksDB itself (open, close, compaction, seek): the store is a map and the range iterator a sequence. `range` is not part of this model, so `Frontend.Entities` ends at the range it would stream, and the 500 sent when `range` throws is not modelled.
- Store failures (`RocksDBException` wrapped as IOException). The model's store never fails. So the 500 of the local handlers, the 504 that `request` sends when the store throws, and the skipped ack of a failed local write are not modelled. The 504 for an IOException from a peer is modelled.
- one-nio's HTTP machinery. `sendResponse`/`sendError` become `Sent` values and error messages are dropped. Peer clients are an answer function. A call ends in `Failed` (HttpException, PoolException or InterruptedException), in `IOFailed` (any IOException, timeouts included) or in an answer. `getParameter` is taken as already applied, and `getHeader` is read as "some header line starts with the text", which leaves one-nio's case-insensitive match out.
- `StorageSession.handleEnd` after its write (request counting, pipelined requests, FIN): one-nio internals. The socket is a count of frames it still takes whole (`room`) and a count of queued frames. `processWrite`'s own flush is the decrease of that queue.
- Executors (`executeAsync`/`execute`): the local handlers run in place. The `synchronized` block of the key encoder has no sequential meaning.
- `System.currentTimeMillis()`: the time of a write is the parameter `now`.
- `ByteBuffer.hashCode()`: the key hash is the uninterpreted parameter `hashCode`.
- Charsets: ids, bounds and keys are byte sequences from the start. Using UTF-8 in one place and the default charset in another is not modelled.
- The pool constructors (`initPool`, NewHttpServerImpl.java:62-70) and the `/v0/status` handlers: set-up and a constant answer.
- QuorumCoordinator.Coordinator.PutTo: wraps the key once per node where the source wraps it once per pass (so do `DeleteAt`, `AskNode` and the `Coordinators` helpers). The bytes are equal, so nothing observable changes.
- ReplicationFactor.ParseInt: reads ASCII digits only. `Integer.parseInt` also accepts the other Unicode decimal digits that `Character.digit` knows; the model refuses such a value where the source accepts it.
- StorageSessions.Chunk: `kvLength` is an unbounded integer. The int overflow of `key.length + 1 + value.length` for records of 2 GiB or more is not modelled.
- StorageSessions.StorageSession.Write: one-nio's `write` is modelled only as far as queueing goes. Partial writes of one frame are not modelled.
- Timestamps.Merge: which of several equally new values wins is deliberately not stated. The function itself keeps the earlier one, as `Stream.max` does.
- `AmmoGenerator`, `AsyncSimpleServiceImpl`, `SimpleServiceImpl`, `MyHttpServer`, `ShardedSimpleServiceImpl`, `RocksDAO`, `RocksRecordIterator`, `ServerUtils` and the exception classes are not part of this model. They are glue, load generation or library wrappers.

## Findings

| source | as written | input that shows it | evidently intended | confidence | as-written member | corrected member |
|---|---|---|---|---|---|---|
| src/main/java/ru/mail/polis/service/hljavacourse/ReplicasSimpleServiceImpl.java:125-136 | `RF.getRf` sends BAD_REQUEST for a refused `replicas` value and returns, but `entity` goes on (NewHttpServerImpl.java:120-132 does the same). | PUT `/v0/entity?id=…&replicas=abc` on a single node: 400 is sent, then the write runs and 201 is sent on the same request. On a cluster an unparsable value gives 400 followed by a NullPointerException. | The handler returns after the 400, so each request is answered once. | high (not executed) | ReplicasService.RefusedRfStillRunsLocally | Frontend.Entity |
| src/main/java/ru/mail/polis/service/hljavacourse/StorageSession.java:46-48 | Once the iterator is exhausted, every call of `next` writes the last chunk `0\r\n\r\n`. `processWrite` calls `next` each time the socket drains. | Stream an empty range on a socket that takes one frame: the head fills it and the last chunk waits in the queue. The `processWrite` that drains the queue runs `next` again: head, last chunk, last chunk. | The last chunk is written once per stream. | medium (not executed; relies on one-nio calling processWrite when a queued write drains) | StorageSessions.RepeatedLastChunk | StorageSessions.SingleLastChunk |
