/**
 * The HTTP vocabulary the replication code speaks: responses as status and
 * body, the request methods it distinguishes, what a handler hands to its
 * session, and the connection pool to the other nodes, whose answers are a
 * parameter of the model.
 */
module Http {
  import opened JavaTypes
  import opened Topology

  const OK: int := 200
  const CREATED: int := 201
  const ACCEPTED: int := 202
  const BAD_REQUEST: int := 400
  const NOT_FOUND: int := 404
  const METHOD_NOT_ALLOWED: int := 405
  const INTERNAL_ERROR: int := 500
  const GATEWAY_TIMEOUT: int := 504

  /** The header a coordinator adds to every request it forwards to another node. */
  const PROXY_HEADER: string := "X-OK-Proxy: True"

  datatype Response = Response(status: int, body: Bytes)

  /** one-nio's request method codes, with every method other than the three as Other. */
  datatype Method = GET | PUT | DELETE | Other(code: int)

  /** What a handler hands to its session: a full response, or an error status (empty body). */
  datatype Sent = SendResponse(response: Response) | SendError(status: int)

  /** A request one node forwards to another, addressed by the entity id. */
  datatype PeerRequest = PeerGet(id: Bytes) | PeerPut(id: Bytes, body: Bytes) | PeerDelete(id: Bytes)

  /**
   * How a forwarded request ends: `Failed` for an HttpException, PoolException
   * or InterruptedException, `IOFailed` for an IOException (a socket timeout
   * among them), or an answer.
   */
  datatype PeerOutcome = Failed | IOFailed | Answered(response: Response)

  /**
   * The pool of HTTP clients, one per other node. What each node answers is
   * the function `answer`; `log` records every request sent, in order.
   */
  class Pool {
    const answer: (Node, PeerRequest) -> PeerOutcome
    var log: seq<(Node, PeerRequest)>

    constructor (answer: (Node, PeerRequest) -> PeerOutcome)
      ensures this.answer == answer && log == []
    {
      this.answer := answer;
      log := [];
    }

    /** Sends one request to one node. */
    method Call(node: Node, request: PeerRequest) returns (outcome: PeerOutcome)
      modifies this
      ensures outcome == answer(node, request)
      ensures log == old(log) + [(node, request)]
    {
      outcome := answer(node, request);
      log := log + [(node, request)];
    }
  }
}
