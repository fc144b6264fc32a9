/**
 * What the two HTTP front-ends (`ReplicasSimpleServiceImpl` and
 * `NewHttpServerImpl`) have in common: the parts of a request they read, the
 * decision a handler reaches (what it sends at once and what it hands on),
 * the local GET/PUT/DELETE handlers of a single-node cluster, and the entity
 * handler as it was evidently meant to behave.
 */
module Frontend {
  import opened Wrappers
  import opened JavaTypes
  import opened Topology
  import opened ReplicationFactor
  import opened ByteBuffers
  import opened SimpleDao
  import opened Http

  const ENTITY_PATH: string := "/v0/entity"
  const ENTITIES_PATH: string := "/v0/entities"

  /**
   * The parts of a request the handlers read. Each parameter is what one-nio's
   * `getParameter` hands back for its prefix, or None when the parameter is
   * absent: the text after `id=`, after `replicas` (its `=` still in front),
   * after `start=` and after `end=`. Ids and bounds are kept as the bytes the
   * handlers turn them into.
   */
  datatype Request = Request(path: string, m: Method, id: Option<Bytes>, replicas: Option<string>,
                             start: Option<Bytes>, end: Option<Bytes>, headers: seq<string>, body: Bytes)

  /** What a handler hands on once its own checks are done. */
  datatype Action =
    | Stop                                                        // nothing more happens
    | RunLocally(m: Method, key: Bytes, body: Bytes)         // the local get/upsert/delete on the executor
    | Coordinate(replicas: seq<Node>, ack: Int32, proxied: bool)  // the quorum coordinator's request
    | StreamRange(start: Bytes, end: Option<Bytes>)               // dao.range streamed through the session
    | Throw(fault: Fault)                                         // an exception escapes the handler

  /** The errors a handler sends straight away, in order, and what it does next. */
  datatype Outcome = Outcome(sent: seq<Sent>, next: Action)

  /** The request answers the client once: either one error and nothing more, or no error and an action that answers. */
  predicate AnswersOnce(o: Outcome)
  {
    (o.next.Stop? && |o.sent| == 1) || (o.sent == [] && (o.next.RunLocally? || o.next.Coordinate? || o.next.StreamRange?))
  }

  /** `getHeader(PROXY_HEADER) != null`: some header line starts with the proxy header. */
  predicate IsProxied(headers: seq<string>)
  {
    exists i :: 0 <= i < |headers| && PROXY_HEADER <= headers[i]
  }

  /** A request a coordinator forwarded carries the proxy header; one without headers does not. */
  lemma ProxyHeaderDetected(headers: seq<string>)
    ensures IsProxied(headers + [PROXY_HEADER])
    ensures !IsProxied([])
  {
    var all := headers + [PROXY_HEADER];
    assert PROXY_HEADER <= all[|all| - 1];
  }

  /** The single error a handler sends when it refuses a request. */
  function Refuse(status: int): (o: Outcome)
    ensures AnswersOnce(o) && o.sent == [SendError(status)]
  {
    Outcome([SendError(status)], Stop)
  }

  /** The cluster size both services keep: the number of configured nodes. */
  function Size(t: BasicTopology): (n: nat)
    requires t.Valid()
    ensures n >= 1 && n == |All(t)|
  {
    DistinctCard(t.nodes);
    |t.nodes|
  }

  lemma {:induction false} DistinctCard(s: seq<Node>)
    requires Distinct(s)
    ensures |set x | x in s| == |s|
  {
    if s != [] {
      var rest := s[1..];
      assert Distinct(rest) by {
        forall i, j | 0 <= i < j < |rest| ensures rest[i] != rest[j] {
          assert rest[i] == s[i + 1] && rest[j] == s[j + 1];
        }
      }
      DistinctCard(rest);
      assert (set x | x in s) == {s[0]} + (set x | x in rest);
      assert s[0] !in (set x | x in rest) by {
        forall i | 0 <= i < |rest| ensures rest[i] != s[0] {
          assert rest[i] == s[i + 1];
        }
      }
    }
  }

  // ---------------------------------------------------------------------------
  // The local handlers of a single-node cluster (the same code in both services)

  /** `get(id)`: 200 with the stored bytes, 404 with an empty body when the store throws NoSuchElement. */
  method LocalGet(dao: SimpleDAO, id: Bytes) returns (r: Response)
    ensures Lookup(dao.db, id).Some? ==> r == Response(OK, Lookup(dao.db, id).value)
    ensures Lookup(dao.db, id).None? ==> r == Response(NOT_FOUND, [])
  {
    var bytes := NewArray(id);
    var wrap := new ByteBuffer.Wrap(bytes);
    var value := dao.Get(wrap);
    match value
    case Err(_) =>
      r := Response(NOT_FOUND, []);
    case Ok(v) =>
      var body := GetArray(v);
      r := Response(OK, body[..]);
  }

  /** `upsert(id, value)`: the value stored as it is under the id, then 201 with an empty body. */
  method LocalUpsert(dao: SimpleDAO, id: Bytes, value: Bytes) returns (r: Response)
    modifies dao
    ensures dao.db == old(dao.db)[EncodeKey(id) := value]
    ensures r == Response(CREATED, [])
  {
    var bytes := NewArray(id);
    var key := new ByteBuffer.Wrap(bytes);
    var valueArray := NewArray(value);
    var wrapped := new ByteBuffer.Wrap(valueArray);
    dao.Upsert(key, wrapped);
    r := Response(CREATED, []);
  }

  /** `delete(id)`: the entry removed from the store, then 202 with an empty body. */
  method LocalDelete(dao: SimpleDAO, id: Bytes) returns (r: Response)
    modifies dao
    ensures dao.db == old(dao.db) - {EncodeKey(id)}
    ensures r == Response(ACCEPTED, [])
  {
    var bytes := NewArray(id);
    var key := new ByteBuffer.Wrap(bytes);
    dao.Remove(key);
    r := Response(ACCEPTED, []);
  }

  /**
   * What the executor runs for a `RunLocally` action: the handler of the
   * method, whose response goes to the session.
   */
  method RunLocal(dao: SimpleDAO, m: Method, id: Bytes, body: Bytes) returns (r: Response)
    requires !m.Other?
    modifies dao
    ensures m == GET ==> dao.db == old(dao.db) && (r.status == OK <==> EncodeKey(id) in old(dao.db))
    ensures m == GET && Lookup(old(dao.db), id).Some? ==> r == Response(OK, Lookup(old(dao.db), id).value)
    ensures m == GET && Lookup(old(dao.db), id).None? ==> r == Response(NOT_FOUND, [])
    ensures m == PUT ==> dao.db == old(dao.db)[EncodeKey(id) := body] && r == Response(CREATED, [])
    ensures m == DELETE ==> dao.db == old(dao.db) - {EncodeKey(id)} && r == Response(ACCEPTED, [])
  {
    if m == GET {
      r := LocalGet(dao, id);
    } else if m == PUT {
      r := LocalUpsert(dao, id, body);
    } else {
      r := LocalDelete(dao, id);
    }
  }

  /** A stored value is read back by the local GET; a deleted one reads 404. */
  lemma {:induction false} LocalReadBack(db: map<Bytes, Bytes>, id: Bytes, value: Bytes)
    ensures Lookup(db[EncodeKey(id) := value], id) == Some(value)
    ensures Lookup(db - {EncodeKey(id)}, id) == None
    ensures forall other :: other != id ==> Lookup(db[EncodeKey(id) := value], other) == Lookup(db, other)
  {
    forall other | other != id
      ensures Lookup(db[EncodeKey(id) := value], other) == Lookup(db, other)
    {
      EncodeKeyInjective(id, other);
    }
  }

  // ---------------------------------------------------------------------------
  // The range handler (the same checks in both services)

  /**
   * `entities` up to the range scan: a missing or empty start is refused with
   * 400 before the method is looked at, any method but GET with 405, and an
   * empty end means no upper bound.
   */
  function Entities(request: Request): (o: Outcome)
    ensures AnswersOnce(o)
    ensures (request.start.None? || request.start.value == []) ==> o == Refuse(BAD_REQUEST)
    ensures request.start.Some? && request.start.value != [] && request.m != GET ==> o == Refuse(METHOD_NOT_ALLOWED)
    ensures o.next.StreamRange? <==> request.start.Some? && request.start.value != [] && request.m == GET
    ensures o.next.StreamRange? ==>
      o.next.start == request.start.value &&
      (o.next.end.None? <==> request.end.None? || request.end == Some([])) &&
      (o.next.end.Some? ==> o.next.end == request.end)
  {
    if request.start.None? || request.start.value == [] then Refuse(BAD_REQUEST)
    else if request.m != GET then Refuse(METHOD_NOT_ALLOWED)
    else
      var end := if request.end.Some? && request.end.value == [] then None else request.end;
      Outcome([], StreamRange(request.start.value, end))
  }

  // ---------------------------------------------------------------------------
  // The entity handler as evidently intended

  /**
   * The replica set of a fanned-out request: this node alone when the request
   * was forwarded to it, otherwise `from` nodes walked from the key's primary.
   */
  function ReplicaSet(t: BasicTopology, proxied: bool, rf: RF, key: Bytes, hashCode: Bytes -> Int32): (r: seq<Node>)
    requires t.Valid() && rf.from >= 0
    ensures proxied ==> r == [GetMe(t)]
    ensures !proxied ==> |r| == rf.from && (rf.from >= 1 ==> r[0] == PrimaryFor(t, key, hashCode))
  {
    if proxied then [GetMe(t)]
    else if rf.from == 0 then []
    else
      FirstReplicaIsPrimary(t, key, hashCode, rf.from);
      ReplicaWalk(t, StartIndex(t, key, hashCode), rf.from)
  }

  /**
   * The entity handler with the consistency check made final: a refused
   * `replicas` parameter ends the request with its single BAD_REQUEST, as the
   * missing id does.
   */
  function Entity(t: BasicTopology, hashCode: Bytes -> Int32, request: Request): (o: Outcome)
    requires t.Valid() && |t.nodes| <= INT_MAX
    ensures AnswersOnce(o)
    ensures (request.id.None? || request.id.value == []) ==> o == Refuse(BAD_REQUEST)
    ensures request.id.Some? && request.id.value != [] && GetRf(request.replicas, Majority(Size(t)), Size(t)).badRequest ==>
      o == Refuse(BAD_REQUEST)
    ensures o.next.Coordinate? ==>
      var rf := GetRf(request.replicas, Majority(Size(t)), Size(t)).rf.value;
      o.next.proxied == IsProxied(request.headers) && o.next.ack == rf.ack &&
      1 <= o.next.ack <= rf.from <= Size(t) &&
      (!o.next.proxied ==> |o.next.replicas| == rf.from) &&
      o.next.replicas == ReplicaSet(t, o.next.proxied, rf, request.id.value, hashCode)
    ensures o.next.RunLocally? ==>
      Size(t) == 1 && !IsProxied(request.headers) && o.next.key == request.id.value &&
      o.next.m == request.m && !o.next.m.Other? && o.next.body == request.body
    ensures request.id.Some? && request.id.value != [] && !GetRf(request.replicas, Majority(Size(t)), Size(t)).badRequest ==>
      (o.next.Coordinate? <==> Size(t) > 1 || IsProxied(request.headers)) &&
      (Size(t) == 1 && !IsProxied(request.headers) && request.m.Other? ==> o == Refuse(METHOD_NOT_ALLOWED))
  {
    if request.id.None? || request.id.value == [] then Refuse(BAD_REQUEST)
    else
      var id := request.id.value;
      var proxied := IsProxied(request.headers);
      var resolution := GetRf(request.replicas, Majority(Size(t)), Size(t));
      if resolution.badRequest then Refuse(BAD_REQUEST)
      else
        var rf := resolution.rf.value;
        if Size(t) > 1 || proxied then
          Outcome([], Coordinate(ReplicaSet(t, proxied, rf, id, hashCode), rf.ack, proxied))
        else if request.m.Other? then Refuse(METHOD_NOT_ALLOWED)
        else Outcome([], RunLocally(request.m, id, request.body))
  }

  /**
   * A request the coordinator fans out, not proxied, is sent to at least as many
   * distinct nodes as it needs acknowledgements: the quorum can be met.
   */
  lemma QuorumReachable(t: BasicTopology, hashCode: Bytes -> Int32, request: Request)
    requires t.Valid() && |t.nodes| <= INT_MAX
    requires Entity(t, hashCode, request).next.Coordinate?
    ensures var c := Entity(t, hashCode, request).next;
      !c.proxied ==> c.ack <= |c.replicas| && Distinct(c.replicas)
  {
    var c := Entity(t, hashCode, request).next;
    if !c.proxied {
      var rf := GetRf(request.replicas, Majority(Size(t)), Size(t)).rf.value;
      ReplicasDistinct(t, StartIndex(t, request.id.value, hashCode), rf.from);
    }
  }
}
