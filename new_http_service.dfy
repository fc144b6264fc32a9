/**
 * The request handlers of `NewHttpServerImpl`, the newer front-end, which
 * fans requests out through `Coordinators`. Its entity handler is written
 * differently from `ReplicasSimpleServiceImpl`'s and decides the same way.
 */
module NewHttpService {
  import opened Wrappers
  import opened JavaTypes
  import opened Topology
  import opened ReplicationFactor
  import opened Http
  import opened Frontend
  import ReplicasService

  /** `isNotNullOrEmpty`: despite its name, true exactly when there is no non-empty value. */
  function IsNotNullOrEmpty(s: Option<Bytes>): (r: bool)
    ensures r <==> !(s.Some? && |s.value| > 0)
  {
    s.None? || s.value == []
  }

  /**
   * `entity`, as written: like the older handler, a refused consistency value
   * sends BAD_REQUEST without returning. The replica array is built inline,
   * and a null consistency value fails at `newRf.getFrom()` or, for a
   * forwarded request, at `newRf.getAck()`.
   */
  function Entity(t: BasicTopology, hashCode: Bytes -> Int32, request: Request): (o: Outcome)
    requires t.Valid() && |t.nodes| <= INT_MAX
    ensures IsNotNullOrEmpty(request.id) ==> o == Refuse(BAD_REQUEST)
    ensures !IsNotNullOrEmpty(request.id) && !GetRf(request.replicas, Majority(Size(t)), Size(t)).badRequest ==>
      o == Frontend.Entity(t, hashCode, request)
  {
    if IsNotNullOrEmpty(request.id) then Refuse(BAD_REQUEST)
    else
      var id := request.id.value;
      var proxied := IsProxied(request.headers);
      var resolution := GetRf(request.replicas, Majority(Size(t)), Size(t));
      var rejected := if resolution.badRequest then [SendError(BAD_REQUEST)] else [];
      if proxied || |t.nodes| > 1 then
        if proxied then
          if resolution.rf.None? then Outcome(rejected, Throw(NullPointer))
          else Outcome(rejected, Coordinate([GetMe(t)], resolution.rf.value.ack, proxied))
        else if resolution.rf.None? then Outcome(rejected, Throw(NullPointer))
        else if resolution.rf.value.from < 0 then Outcome(rejected, Throw(NegativeArraySize))
        else
          var replica := ReplicaWalk(t, StartIndex(t, id, hashCode), resolution.rf.value.from);
          Outcome(rejected, Coordinate(replica, resolution.rf.value.ack, proxied))
      else
        match request.m
        case GET => Outcome(rejected, RunLocally(GET, id, request.body))
        case PUT => Outcome(rejected, RunLocally(PUT, id, request.body))
        case DELETE => Outcome(rejected, RunLocally(DELETE, id, request.body))
        case Other(_) => Outcome(rejected + [SendError(METHOD_NOT_ALLOWED)], Stop)
  }

  /** `handleDefault`: the two entity paths are dispatched, any other path is refused with 400. */
  function HandleDefault(t: BasicTopology, hashCode: Bytes -> Int32, request: Request): (o: Outcome)
    requires t.Valid() && |t.nodes| <= INT_MAX
    ensures request.path == ENTITY_PATH ==> o == Entity(t, hashCode, request)
    ensures request.path == ENTITIES_PATH ==> o == Entities(request)
    ensures request.path != ENTITY_PATH && request.path != ENTITIES_PATH ==> o == Refuse(BAD_REQUEST)
  {
    match request.path
    case "/v0/entity" => Entity(t, hashCode, request)
    case "/v0/entities" => Entities(request)
    case _ => Refuse(BAD_REQUEST)
  }

  /** The two front-ends decide every request alike, the refused consistency value included. */
  lemma {:induction false} SameAsReplicasService(t: BasicTopology, hashCode: Bytes -> Int32, request: Request)
    requires t.Valid() && |t.nodes| <= INT_MAX
    ensures Entity(t, hashCode, request) == ReplicasService.Entity(t, hashCode, request)
    ensures HandleDefault(t, hashCode, request) == ReplicasService.HandleDefault(t, hashCode, request)
  {
    if !IsNotNullOrEmpty(request.id) && request.m.Other? {
      var rejected := if GetRf(request.replicas, Majority(Size(t)), Size(t)).badRequest then [SendError(BAD_REQUEST)] else [];
      assert rejected + [SendError(METHOD_NOT_ALLOWED)] == rejected + Refuse(METHOD_NOT_ALLOWED).sent;
    }
  }
}
