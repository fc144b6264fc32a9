/**
 * The request handlers of `ReplicasSimpleServiceImpl`, as pure decisions from
 * the request to what is sent at once and what happens next. A multi-node
 * cluster, or a request another node forwarded, goes to `Coordinator`; a
 * single node runs the request against its own store.
 */
module ReplicasService {
  import opened Wrappers
  import opened JavaTypes
  import opened Topology
  import opened ReplicationFactor
  import opened Http
  import opened Frontend

  /**
   * `getReplica`: this node alone when the request was forwarded, otherwise
   * `from` nodes walked from the key's primary. A null consistency value fails
   * where `rf.getFrom()` dereferences it, and a negative `from` where the
   * replica array is allocated.
   */
  function GetReplica(t: BasicTopology, hashCode: Bytes -> Int32, isProxied: bool, rf: Option<RF>, key: Bytes)
    : (r: Result<seq<Node>, Fault>)
    requires t.Valid()
    ensures isProxied ==> r == Ok([GetMe(t)])
    ensures !isProxied && rf.None? ==> r == Err(NullPointer)
    ensures !isProxied && rf.Some? ==> (r.Err? <==> rf.value.from < 0) && (r.Err? ==> r.error == NegativeArraySize)
    ensures !isProxied && r.Ok? ==> r.value == ReplicaSet(t, false, rf.value, key, hashCode)
  {
    if isProxied then Ok([GetMe(t)])
    else if rf.None? then Err(NullPointer)
    else if rf.value.from < 0 then Err(NegativeArraySize)
    else Ok(ReplicaWalk(t, StartIndex(t, key, hashCode), rf.value.from))
  }

  /** `executeRequest`: GET, PUT and DELETE run on the executor; any other method is refused with 405. */
  function ExecuteRequest(request: Request, id: Bytes): (o: Outcome)
    ensures AnswersOnce(o)
    ensures request.m.Other? <==> o == Refuse(METHOD_NOT_ALLOWED)
    ensures !request.m.Other? ==> o.next == RunLocally(request.m, id, request.body)
  {
    if request.m == GET then Outcome([], RunLocally(GET, id, request.body))
    else if request.m == PUT then Outcome([], RunLocally(PUT, id, request.body))
    else if request.m == DELETE then Outcome([], RunLocally(DELETE, id, request.body))
    else Refuse(METHOD_NOT_ALLOWED)
  }

  /**
   * `entity`, as written: the id is checked, the consistency value resolved
   * (a refused one sends BAD_REQUEST but does not return), and the request
   * fanned out or run locally.
   */
  function Entity(t: BasicTopology, hashCode: Bytes -> Int32, request: Request): (o: Outcome)
    requires t.Valid() && |t.nodes| <= INT_MAX
    ensures (request.id.None? || request.id.value == []) ==> o == Refuse(BAD_REQUEST)
    ensures request.id.Some? && request.id.value != [] ==>
      var resolution := GetRf(request.replicas, Majority(Size(t)), Size(t));
      (resolution.badRequest <==> |o.sent| >= 1 && o.sent[0] == SendError(BAD_REQUEST)) &&
      (!resolution.badRequest ==> o == Frontend.Entity(t, hashCode, request)) &&
      ((o.next.Coordinate? || o.next.Throw?) <==> Size(t) > 1 || IsProxied(request.headers))
  {
    if request.id.None? || request.id.value == [] then Refuse(BAD_REQUEST)
    else
      var id := request.id.value;
      var isProxied := IsProxied(request.headers);
      var resolution := GetRf(request.replicas, Majority(Size(t)), Size(t));
      var rejected := if resolution.badRequest then [SendError(BAD_REQUEST)] else [];
      if Size(t) > 1 || isProxied then
        match GetReplica(t, hashCode, isProxied, resolution.rf, id)
        case Err(f) => Outcome(rejected, Throw(f))
        case Ok(replica) =>
          if resolution.rf.None? then Outcome(rejected, Throw(NullPointer))
          else Outcome(rejected, Coordinate(replica, resolution.rf.value.ack, isProxied))
      else
        var executed := ExecuteRequest(request, id);
        Outcome(rejected + executed.sent, executed.next)
  }

  /** `handleDefault`: the two entity paths are dispatched, any other path is refused with 400. */
  function HandleDefault(t: BasicTopology, hashCode: Bytes -> Int32, request: Request): (o: Outcome)
    requires t.Valid() && |t.nodes| <= INT_MAX
    ensures request.path == ENTITY_PATH ==> o == Entity(t, hashCode, request)
    ensures request.path == ENTITIES_PATH ==> o == Entities(request)
    ensures request.path != ENTITY_PATH && request.path != ENTITIES_PATH ==> o == Refuse(BAD_REQUEST)
  {
    if request.path == ENTITY_PATH then Entity(t, hashCode, request)
    else if request.path == ENTITIES_PATH then Entities(request)
    else Refuse(BAD_REQUEST)
  }

  /**
   * A refused consistency value on a single node does not stop the request:
   * BAD_REQUEST is sent and the write or read still runs, so the client is
   * answered twice.
   */
  lemma {:induction false} RefusedRfStillRunsLocally(t: BasicTopology, hashCode: Bytes -> Int32, request: Request)
    requires t.Valid() && |t.nodes| == 1 && !IsProxied(request.headers)
    requires request.id.Some? && request.id.value != [] && !request.m.Other?
    requires GetRf(request.replicas, Majority(1), 1).badRequest
    ensures Entity(t, hashCode, request) == Outcome([SendError(BAD_REQUEST)], RunLocally(request.m, request.id.value, request.body))
    ensures !AnswersOnce(Entity(t, hashCode, request))
  {
    var executed := ExecuteRequest(request, request.id.value);
    assert [SendError(BAD_REQUEST)] + executed.sent == [SendError(BAD_REQUEST)];
  }

  /**
   * On a larger cluster an unparsable value sends BAD_REQUEST and then fails
   * on the null it left behind, and a refused but parsed one is coordinated
   * anyway.
   */
  lemma {:induction false} RefusedRfOnCluster(t: BasicTopology, hashCode: Bytes -> Int32, request: Request)
    requires t.Valid() && 1 < |t.nodes| <= INT_MAX && !IsProxied(request.headers)
    requires request.id.Some? && request.id.value != []
    requires GetRf(request.replicas, Majority(|t.nodes|), |t.nodes|).badRequest
    ensures var o := Entity(t, hashCode, request);
      var rf := GetRf(request.replicas, Majority(|t.nodes|), |t.nodes|).rf;
      o.sent == [SendError(BAD_REQUEST)] && !AnswersOnce(o) &&
      (rf.None? ==> o.next == Throw(NullPointer)) &&
      (rf.Some? && rf.value.from >= 0 ==> o.next.Coordinate? && o.next.ack == rf.value.ack)
  {
  }

  /** A concrete case: PUT with `replicas=abc` on a single node answers 400 and still writes. */
  lemma RefusedRfExample()
    ensures var t := BasicTopology(["n1"], "n1");
      var request := Request(ENTITY_PATH, PUT, Some([1]), Some("abc"), None, None, [], [7]);
      HandleDefault(t, k => 0, request) == Outcome([SendError(BAD_REQUEST)], RunLocally(PUT, [1], [7]))
  {
    var t := BasicTopology(["n1"], "n1");
    var request := Request(ENTITY_PATH, PUT, Some([1]), Some("abc"), None, None, [], [7]);
    assert t.Valid();
    assert Size(t) == 1;
    SplitNone("abc", '/');
    assert RemoveAll("abc", '=') == "abc";
    assert GetRf(Some("abc"), Majority(1), 1).badRequest;
    assert !IsProxied([]);
    RefusedRfStillRunsLocally(t, k => 0, request);
  }
}
