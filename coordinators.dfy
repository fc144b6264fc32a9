/**
 * The second coordinator of the repository, used by the newer front-end. It
 * runs the same three passes as `Coordinator`, written out again: the GET loop
 * delegates each node to `performResponse`, which reports whether the node's
 * answer is to be skipped and appends what it counted to the caller's list.
 * Every pass is proved against the same pass functions as `Coordinator`.
 */
module QuorumCoordinators {
  import opened Wrappers
  import opened JavaTypes
  import opened Topology
  import opened Timestamps
  import opened ByteBuffers
  import opened SimpleDao
  import opened Http
  import opened QuorumCoordinator

  /** `Coordinators.response`: the same three-way choice as `Coordinator.response`, with the cases split differently. */
  function MergedResponse(nodeCount: nat, responses: seq<Timestamp>, proxied: bool): (r: Response)
    ensures r == Respond(responses, proxied, nodeCount)
  {
    var merged := Merge(responses);
    if merged.IsPresent() then
      if !proxied && nodeCount == 1 then Response(OK, GetPresentAsBytes(merged).value)
      else if proxied && nodeCount == 1 then Response(OK, ToBytes(merged))
      else Response(OK, GetPresentAsBytes(merged).value)
    else if merged.IsRemoved() then Response(NOT_FOUND, ToBytes(merged))
    else Response(NOT_FOUND, [])
  }

  class Coordinators {
    const dao: SimpleDAO
    const topology: BasicTopology
    const pool: Pool
    const proxied: bool

    constructor (topology: BasicTopology, pool: Pool, dao: SimpleDAO, proxied: bool)
      ensures this.topology == topology && this.pool == pool && this.dao == dao && this.proxied == proxied
    {
      this.dao := dao;
      this.topology := topology;
      this.pool := pool;
      this.proxied := proxied;
    }

    /**
     * `performResponse`: asks one node. Ok(true) means "skip it" (a 500);
     * Ok(false) means its version was appended; a failed peer call and a
     * short body come out as the exceptions they are.
     */
    method PerformResponse(id: Bytes, key: ByteBuffer, responses: seq<Timestamp>, node: Node)
      returns (skip: Result<bool, Fault>, responses': seq<Timestamp>)
      requires key.Valid() && key.Remaining() == id
      modifies pool
      ensures pool.log == old(pool.log) + CallTo(node, topology.me, PeerGet(id))
      ensures match Reply(node, topology.me, Read(dao.db, id), id, pool.answer)
        case Skip => responses' == responses && (skip == Ok(true) || skip == Err(PeerUnreachable))
        case Counted(v) => responses' == responses + [v] && skip == Ok(false)
        case Throws(f) => responses' == responses && skip == Err(f) && f != PeerUnreachable
    {
      var response;
      responses' := responses;
      if IsMe(topology, node) {
        var val := dao.GetWithTimestamp(key);
        if val.Err? {
          return Err(val.error), responses;
        }
        if val.value.IsAbsent() {
          response := Response(NOT_FOUND, []);
        } else {
          response := Response(OK, ToBytes(val.value));
        }
      } else {
        var outcome := pool.Call(node, PeerGet(id));
        if outcome.Failed? {
          return Err(PeerUnreachable), responses;
        } else if outcome.IOFailed? {
          return Err(PeerIO), responses;
        }
        response := outcome.response;
      }
      if response.status == NOT_FOUND && |response.body| == 0 {
        responses' := responses + [GetAbsent()];
      } else if response.status == INTERNAL_ERROR {
        return Ok(true), responses;
      } else {
        var decoded := FromBytes(Some(response.body));
        if decoded.Err? {
          return Err(decoded.error), responses;
        }
        responses' := responses + [decoded.value];
      }
      skip := Ok(false);
    }

    /** The body of the loop in `get` for one node: `performResponse`, then the count of answers kept. */
    method GetStep(node: Node, key: ByteBuffer, id: Bytes, responses: seq<Timestamp>, asks: nat,
                   ghost log0: seq<(Node, PeerRequest)>, ghost calls: seq<(Node, PeerRequest)>)
      returns (skip: Result<bool, Fault>, responses': seq<Timestamp>, asks': nat, ghost calls': seq<(Node, PeerRequest)>)
      requires key.Valid() && key.Remaining() == id
      requires pool.log == log0 + calls
      modifies pool
      ensures pool.log == log0 + calls'
      ensures var escapes := skip.Err? && skip.error != PeerUnreachable;
        StepGet(GetRun(responses, asks, calls, None), node, topology.me, id,
                Reply(node, topology.me, Read(dao.db, id), id, pool.answer))
        == GetRun(responses', asks', calls', if escapes then Some(skip.error) else None)
    {
      AppendCalls(log0, calls, CallTo(node, topology.me, PeerGet(id)));
      skip, responses' := PerformResponse(id, key, responses, node);
      calls' := calls + CallTo(node, topology.me, PeerGet(id));
      asks' := if skip == Ok(false) then asks + 1 else asks;
    }

    /** `get`: every node asked once through `performResponse`; peer failures are logged and skipped. */
    method Get(nodes: array<Node>, id: Bytes, acks: int) returns (r: Result<Response, Fault>)
      modifies pool
      ensures var run := GatherGet(nodes[..], topology.me, Read(dao.db, id), id, pool.answer);
        r == GetOutcome(run, acks, proxied, nodes.Length) && pool.log == old(pool.log) + run.calls
    {
      var key := Coordinator.GetWrappedKey(id);
      var asks: nat := 0;
      var responses: seq<Timestamp> := [];
      ghost var me, read, log0, ns := topology.me, Read(dao.db, id), pool.log, nodes[..];
      ghost var replies := Replies(ns, me, read, id, pool.answer);
      ghost var final := GatherGet(ns, me, read, id, pool.answer);
      ghost var calls: seq<(Node, PeerRequest)> := [];
      for i := 0 to nodes.Length
        invariant key.Valid() && key.Remaining() == id
        invariant pool.log == log0 + calls
        invariant GatherFrom(GetRun(responses, asks, calls, None), ns, replies, i, me, id) == final
      {
        assert replies[i] == Reply(nodes[i], me, read, id, pool.answer);
        var skip;
        skip, responses, asks, calls := GetStep(nodes[i], key, id, responses, asks, log0, calls);
        if skip.Err? && skip.error != PeerUnreachable {
          GatherFromThrown(GetRun(responses, asks, calls, Some(skip.error)), ns, replies, i + 1, me, id);
          return Err(skip.error);
        }
      }
      assert GetRun(responses, asks, calls, None) == final;
      if asks >= acks || proxied {
        r := Ok(MergedResponse(nodes.Length, responses, proxied));
      } else {
        r := Ok(Response(GATEWAY_TIMEOUT, []));
      }
    }

    /** The body of the `upsert` loop for one node: the body stored here with a timestamp, or the PUT forwarded. */
    method UpsertOn(node: Node, key: ByteBuffer, id: Bytes, body: Bytes, now: Int64) returns (ack: nat)
      requires key.Valid() && key.Remaining() == id
      modifies pool, dao
      ensures ack == WriteAck(node, topology.me, pool.answer, PeerPut(id, body), CREATED)
      ensures pool.log == old(pool.log) + CallTo(node, topology.me, PeerPut(id, body))
      ensures dao.db == WriteTo(old(dao.db), node, topology.me, id, ToBytes(FromPresent(body, now)))
    {
      ack := 0;
      if IsMe(topology, node) {
        var value := Coordinator.GetWrappedKey(body);
        dao.UpsertWithTimestamp(key, value, now);
        ack := 1;
      } else {
        var response := pool.Call(node, PeerPut(id, body));
        if response.Answered? && response.response.status == CREATED {
          ack := 1;
        }
      }
    }

    /** The body of the `delete` loop for one node: a tombstone written here, or the DELETE forwarded. */
    method DeleteOn(node: Node, key: ByteBuffer, id: Bytes, now: Int64) returns (ack: nat)
      requires key.Valid() && key.Remaining() == id
      modifies pool, dao
      ensures ack == WriteAck(node, topology.me, pool.answer, PeerDelete(id), ACCEPTED)
      ensures pool.log == old(pool.log) + CallTo(node, topology.me, PeerDelete(id))
      ensures dao.db == WriteTo(old(dao.db), node, topology.me, id, ToBytes(Tombstone(now)))
    {
      ack := 0;
      if IsMe(topology, node) {
        dao.RemoveWithTimestamp(key, now);
        ack := 1;
      } else {
        var resp := pool.Call(node, PeerDelete(id));
        if resp.Answered? && resp.response.status == ACCEPTED {
          ack := 1;
        }
      }
    }

    /** `upsert`: the same write pass as `Coordinator.upsert`, counting the 201s in `asks`. */
    method Upsert(nodes: array<Node>, id: Bytes, body: Bytes, acks: int, now: Int64) returns (r: Response)
      modifies pool, dao
      ensures r == WriteResponse(proxied, WriteAcks(nodes[..], topology.me, pool.answer, PeerPut(id, body), CREATED), acks, CREATED)
      ensures pool.log == old(pool.log) + RemoteCalls(nodes[..], topology.me, PeerPut(id, body))
      ensures dao.db == AfterWrite(old(dao.db), nodes[..], topology.me, id, ToBytes(FromPresent(body, now)))
    {
      var key := Coordinator.GetWrappedKey(id);
      var asks := 0;
      ghost var me, db0, log0, ns := topology.me, dao.db, pool.log, nodes[..];
      ghost var request := PeerPut(id, body);
      ghost var stored := ToBytes(FromPresent(body, now));
      for i := 0 to nodes.Length
        invariant key.Valid() && key.Remaining() == id
        invariant asks + WriteAcksFrom(ns, i, me, pool.answer, request, CREATED) == WriteAcks(ns, me, pool.answer, request, CREATED)
        invariant pool.log + RemoteCallsFrom(ns, i, me, request) == log0 + RemoteCalls(ns, me, request)
        invariant WriteFrom(dao.db, ns, i, me, id, stored) == WriteFrom(db0, ns, 0, me, id, stored)
      {
        RemoteCallsStep(pool.log, ns, i, me, request);
        var acked := UpsertOn(nodes[i], key, id, body, now);
        asks := asks + acked;
      }
      WriteFromOnce(db0, ns, 0, me, id, stored);
      assert ns[0..] == ns;
      if asks >= acks || proxied {
        r := Response(CREATED, []);
      } else {
        r := Response(GATEWAY_TIMEOUT, []);
      }
    }

    /** `delete`: the same write pass as `Coordinator.delete`, counting the 202s in `asks`. */
    method Delete(nodes: array<Node>, id: Bytes, acks: int, now: Int64) returns (r: Response)
      modifies pool, dao
      ensures r == WriteResponse(proxied, WriteAcks(nodes[..], topology.me, pool.answer, PeerDelete(id), ACCEPTED), acks, ACCEPTED)
      ensures pool.log == old(pool.log) + RemoteCalls(nodes[..], topology.me, PeerDelete(id))
      ensures dao.db == AfterWrite(old(dao.db), nodes[..], topology.me, id, ToBytes(Tombstone(now)))
    {
      var key := Coordinator.GetWrappedKey(id);
      var asks := 0;
      ghost var me, db0, log0, ns := topology.me, dao.db, pool.log, nodes[..];
      ghost var request := PeerDelete(id);
      ghost var stored := ToBytes(Tombstone(now));
      for i := 0 to nodes.Length
        invariant key.Valid() && key.Remaining() == id
        invariant asks + WriteAcksFrom(ns, i, me, pool.answer, request, ACCEPTED) == WriteAcks(ns, me, pool.answer, request, ACCEPTED)
        invariant pool.log + RemoteCallsFrom(ns, i, me, request) == log0 + RemoteCalls(ns, me, request)
        invariant WriteFrom(dao.db, ns, i, me, id, stored) == WriteFrom(db0, ns, 0, me, id, stored)
      {
        RemoteCallsStep(pool.log, ns, i, me, request);
        var acked := DeleteOn(nodes[i], key, id, now);
        asks := asks + acked;
      }
      WriteFromOnce(db0, ns, 0, me, id, stored);
      assert ns[0..] == ns;
      if asks >= acks || proxied {
        r := Response(ACCEPTED, []);
      } else {
        r := Response(GATEWAY_TIMEOUT, []);
      }
    }

    /** `request`: dispatch on the method; any method but GET, PUT and DELETE is refused with 405. */
    method Request(replicaClusters: array<Node>, m: Method, id: Bytes, body: Bytes, acks: int, now: Int64)
      returns (sent: Result<Sent, Fault>)
      modifies pool, dao
      ensures m.Other? ==> sent == Ok(SendError(METHOD_NOT_ALLOWED)) && pool.log == old(pool.log) && dao.db == old(dao.db)
      ensures m == GET ==>
        var run := GatherGet(replicaClusters[..], topology.me, Read(old(dao.db), id), id, pool.answer);
        sent == Deliver(GetOutcome(run, acks, proxied, replicaClusters.Length)) && dao.db == old(dao.db) &&
        pool.log == old(pool.log) + run.calls
      ensures m == PUT ==>
        sent == Ok(SendResponse(WriteResponse(proxied, WriteAcks(replicaClusters[..], topology.me, pool.answer, PeerPut(id, body), CREATED), acks, CREATED))) &&
        pool.log == old(pool.log) + RemoteCalls(replicaClusters[..], topology.me, PeerPut(id, body)) &&
        dao.db == AfterWrite(old(dao.db), replicaClusters[..], topology.me, id, ToBytes(FromPresent(body, now)))
      ensures m == DELETE ==>
        sent == Ok(SendResponse(WriteResponse(proxied, WriteAcks(replicaClusters[..], topology.me, pool.answer, PeerDelete(id), ACCEPTED), acks, ACCEPTED))) &&
        pool.log == old(pool.log) + RemoteCalls(replicaClusters[..], topology.me, PeerDelete(id)) &&
        dao.db == AfterWrite(old(dao.db), replicaClusters[..], topology.me, id, ToBytes(Tombstone(now)))
    {
      match m
      case GET =>
        var r := Get(replicaClusters, id, acks);
        sent := Deliver(r);
      case PUT =>
        var r := Upsert(replicaClusters, id, body, acks, now);
        sent := Ok(SendResponse(r));
      case DELETE =>
        var r := Delete(replicaClusters, id, acks, now);
        sent := Ok(SendResponse(r));
      case Other(_) =>
        sent := Ok(SendError(METHOD_NOT_ALLOWED));
    }
  }
}
