/**
 * The quorum coordinator: a request for one key is sent to every node of its
 * replica set in turn (the local store for this node, an HTTP call for the
 * others), the acknowledgements are counted, and the request succeeds when it
 * was itself forwarded (proxied) or enough replicas acknowledged it. A GET
 * merges the versions the replicas report.
 *
 * The spec functions here describe one pass over the replica array; both the
 * `Coordinator` class below and the near-duplicate `Coordinators` are proved
 * against them.
 */
module QuorumCoordinator {
  import opened Wrappers
  import opened JavaTypes
  import opened Topology
  import opened Timestamps
  import opened ByteBuffers
  import opened SimpleDao
  import opened Http

  // ---------------------------------------------------------------------------
  // One node's answer to a GET

  /** How the coordinator reads a GET answer: not counted, counted with a version, or an escaping exception. */
  datatype Classified = Skip | Counted(value: Timestamp) | Throws(fault: Fault)

  /** 404 with an empty body is ABSENT; 500 is skipped; any other answer is decoded, and a short body underflows. */
  function Classify(response: Response): (c: Classified)
    ensures c.Skip? <==> response.status == INTERNAL_ERROR
    ensures response.status == NOT_FOUND && response.body == [] ==> c == Counted(GetAbsent())
    ensures c.Throws? <==>
      response.status != INTERNAL_ERROR && !(response.status == NOT_FOUND && response.body == []) &&
      |response.body| < 9
  {
    if response.status == NOT_FOUND && |response.body| == 0 then Counted(GetAbsent())
    else if response.status == INTERNAL_ERROR then Skip
    else
      match FromBytes(Some(response.body))
      case Ok(t) => Counted(t)
      case Err(f) => Throws(f)
  }

  /** `getResponseIfMe`, given what the local store read: 404 and no body for ABSENT, otherwise 200 and the encoding. */
  function LocalGetResponse(read: Result<Timestamp, Fault>): (r: Result<Response, Fault>)
    ensures r.Ok? <==> read.Ok?
    ensures r.Ok? ==> (r.value.status == NOT_FOUND <==> read.value.IsAbsent())
    ensures r.Err? ==> r.error == read.error
    ensures r.Ok? && read.value.IsAbsent() ==> r.value == Response(NOT_FOUND, [])
    ensures r.Ok? && !read.value.IsAbsent() ==>
      r.value == Response(OK, ToBytes(read.value)) && FromBytes(Some(r.value.body)) == Ok(read.value)
  {
    match read
    case Err(f) => Err(f)
    case Ok(val) =>
      if val.IsAbsent() then Ok(Response(NOT_FOUND, []))
      else
        DecodeEncode(val);
        Ok(Response(OK, ToBytes(val)))
  }

  /** The local answer classifies back to the stored version (ABSENT as the canonical ABSENT). */
  lemma LocalGetRoundTrip(t: Timestamp)
    ensures Classify(LocalGetResponse(Ok(t)).value) == Counted(if t.IsAbsent() then GetAbsent() else t)
  {
    if !t.IsAbsent() {
      DecodeEncode(t);
    }
  }

  /** The answer of one node to a GET for id: the local store when it is this node, a peer call otherwise. */
  function Ask(node: Node, me: Node, read: Result<Timestamp, Fault>, id: Bytes,
               answer: (Node, PeerRequest) -> PeerOutcome): Result<Response, Fault>
  {
    if node == me then LocalGetResponse(read)
    else match answer(node, PeerGet(id))
      case Failed => Err(PeerUnreachable)
      case IOFailed => Err(PeerIO)
      case Answered(response) => Ok(response)
  }

  /** The request sent to one node: none when it is this node. */
  function CallTo(node: Node, me: Node, request: PeerRequest): seq<(Node, PeerRequest)>
  {
    if node == me then [] else [(node, request)]
  }

  /** The requests forwarded to the other nodes from index i on, in array order. */
  function RemoteCallsFrom(nodes: seq<Node>, i: nat, me: Node, request: PeerRequest): seq<(Node, PeerRequest)>
    requires i <= |nodes|
    decreases |nodes| - i
  {
    if i == |nodes| then [] else CallTo(nodes[i], me, request) + RemoteCallsFrom(nodes, i + 1, me, request)
  }

  /** The requests forwarded to the other nodes of the array, in array order. */
  function RemoteCalls(nodes: seq<Node>, me: Node, request: PeerRequest): seq<(Node, PeerRequest)>
  {
    RemoteCallsFrom(nodes, 0, me, request)
  }

  /** Every other node from index i on gets the request once per occurrence, in order, and this node never does. */
  lemma {:induction false} RemoteCallsFromTargets(nodes: seq<Node>, i: nat, me: Node, request: PeerRequest)
    requires i <= |nodes|
    ensures var calls := RemoteCallsFrom(nodes, i, me, request);
      |calls| == |nodes| - i - multiset(nodes[i..])[me] &&
      (forall c :: c in calls ==> c.0 in nodes[i..] && c.0 != me && c.1 == request) &&
      (forall j :: i <= j < |nodes| && nodes[j] != me ==> (nodes[j], request) in calls)
    decreases |nodes| - i
  {
    if i < |nodes| {
      RemoteCallsFromTargets(nodes, i + 1, me, request);
      assert nodes[i..] == [nodes[i]] + nodes[i + 1..];
    }
  }

  /** Appending to a call log in two steps is appending once. */
  lemma AppendCalls(log: seq<(Node, PeerRequest)>, calls: seq<(Node, PeerRequest)>, more: seq<(Node, PeerRequest)>)
    ensures (log + calls) + more == log + (calls + more)
  {
  }

  /** Moving one node from the calls still to come to the calls made leaves the whole unchanged. */
  lemma RemoteCallsStep(log: seq<(Node, PeerRequest)>, nodes: seq<Node>, i: nat, me: Node, request: PeerRequest)
    requires i < |nodes|
    ensures log + RemoteCallsFrom(nodes, i, me, request)
         == (log + CallTo(nodes[i], me, request)) + RemoteCallsFrom(nodes, i + 1, me, request)
  {
  }

  /** Every other node of the array gets the request once per occurrence, and this node never does. */
  lemma RemoteCallsTargets(nodes: seq<Node>, me: Node, request: PeerRequest)
    ensures var calls := RemoteCalls(nodes, me, request);
      |calls| == |nodes| - multiset(nodes)[me] &&
      (forall c :: c in calls ==> c.0 in nodes && c.0 != me && c.1 == request) &&
      (forall j :: 0 <= j < |nodes| && nodes[j] != me ==> (nodes[j], request) in calls)
  {
    RemoteCallsFromTargets(nodes, 0, me, request);
    assert nodes[0..] == nodes;
  }

  // ---------------------------------------------------------------------------
  // The GET pass

  /** The state of a GET pass: versions collected, acks counted, peer calls made, and an escaped exception. */
  datatype GetRun = GetRun(responses: seq<Timestamp>, acks: nat, calls: seq<(Node, PeerRequest)>, thrown: Option<Fault>)

  /**
   * What one node contributes to a GET pass: an unreachable peer is logged and
   * skipped like a 500; an IOException from a peer and a fault of the local
   * store escape the loop; any other answer is classified.
   */
  function Reply(node: Node, me: Node, read: Result<Timestamp, Fault>, id: Bytes,
                 answer: (Node, PeerRequest) -> PeerOutcome): (c: Classified)
    ensures node != me ==>
      var outcome := answer(node, PeerGet(id));
      (c == Skip <==> outcome.Failed? || (outcome.Answered? && outcome.response.status == INTERNAL_ERROR)) &&
      (outcome.IOFailed? ==> c == Throws(PeerIO)) &&
      (outcome.Answered? ==> c == Classify(outcome.response))
  {
    match Ask(node, me, read, id, answer)
    case Err(PeerUnreachable) => Skip
    case Err(f) => Throws(f)
    case Ok(response) => Classify(response)
  }

  /** The replies of the nodes of the array, in array order. */
  function Replies(nodes: seq<Node>, me: Node, read: Result<Timestamp, Fault>, id: Bytes,
                   answer: (Node, PeerRequest) -> PeerOutcome): (rs: seq<Classified>)
    ensures |rs| == |nodes|
  {
    seq(|nodes|, i requires 0 <= i < |nodes| => Reply(nodes[i], me, read, id, answer))
  }

  /** One iteration of the GET loop; once an exception has escaped nothing more happens. */
  function StepGet(run: GetRun, node: Node, me: Node, id: Bytes, reply: Classified): GetRun
  {
    if run.thrown.Some? then run
    else
      var asked := run.(calls := run.calls + CallTo(node, me, PeerGet(id)));
      match reply
      case Skip => asked
      case Counted(v) => asked.(responses := run.responses + [v], acks := run.acks + 1)
      case Throws(f) => asked.(thrown := Some(f))
  }

  /** The GET loop from index i on, starting from the pass so far. */
  function GatherFrom(run: GetRun, nodes: seq<Node>, replies: seq<Classified>, i: nat, me: Node, id: Bytes): (r: GetRun)
    requires i <= |nodes| == |replies|
    ensures run.acks == |run.responses| ==> r.acks == |r.responses|
    ensures run.acks <= r.acks <= run.acks + (|nodes| - i)
    decreases |nodes| - i
  {
    if i == |nodes| then run
    else GatherFrom(StepGet(run, nodes[i], me, id, replies[i]), nodes, replies, i + 1, me, id)
  }

  /** The GET loop over the whole array: each node asked once, in order. */
  function GatherGet(nodes: seq<Node>, me: Node, read: Result<Timestamp, Fault>, id: Bytes,
                     answer: (Node, PeerRequest) -> PeerOutcome): (run: GetRun)
    ensures run.acks == |run.responses| <= |nodes|
  {
    GatherFrom(GetRun([], 0, [], None), nodes, Replies(nodes, me, read, id, answer), 0, me, id)
  }

  /** After an exception escapes, the rest of the array changes nothing. */
  lemma {:induction false} GatherFromThrown(run: GetRun, nodes: seq<Node>, replies: seq<Classified>, i: nat, me: Node, id: Bytes)
    requires i <= |nodes| == |replies| && run.thrown.Some?
    ensures GatherFrom(run, nodes, replies, i, me, id) == run
    decreases |nodes| - i
  {
    if i < |nodes| {
      GatherFromThrown(run, nodes, replies, i + 1, me, id);
    }
  }

  /** A pass that runs to the end from index i forwards the request to every other node from i on, in order. */
  lemma {:induction false} GatherFromCalls(run: GetRun, nodes: seq<Node>, replies: seq<Classified>, i: nat, me: Node, id: Bytes)
    requires i <= |nodes| == |replies|
    ensures var r := GatherFrom(run, nodes, replies, i, me, id);
      r.thrown.None? ==> r.calls == run.calls + RemoteCallsFrom(nodes, i, me, PeerGet(id))
    decreases |nodes| - i
  {
    if i < |nodes| {
      var next := StepGet(run, nodes[i], me, id, replies[i]);
      GatherFromCalls(next, nodes, replies, i + 1, me, id);
      if run.thrown.Some? {
        GatherFromThrown(run, nodes, replies, i, me, id);
      } else if next.thrown.Some? {
        GatherFromThrown(next, nodes, replies, i + 1, me, id);
      } else {
        assert next.calls == run.calls + CallTo(nodes[i], me, PeerGet(id));
      }
    }
  }

  /** A GET pass that ran to the end forwarded the request to every other node of the array, in order. */
  lemma GatherGetCalls(nodes: seq<Node>, me: Node, read: Result<Timestamp, Fault>, id: Bytes,
                       answer: (Node, PeerRequest) -> PeerOutcome)
    ensures var run := GatherGet(nodes, me, read, id, answer);
      run.thrown.None? ==> run.calls == RemoteCalls(nodes, me, PeerGet(id))
  {
    GatherFromCalls(GetRun([], 0, [], None), nodes, Replies(nodes, me, read, id, answer), 0, me, id);
  }

  /** `Coordinator.response`: the merged version as the answer to the client, or to the coordinator that forwarded the request. */
  function Respond(responses: seq<Timestamp>, isProxied: bool, nodeCount: nat): (r: Response)
    ensures var merged := Merge(responses);
      (merged.IsPresent() ==>
         r.status == OK && r.body == (if isProxied && nodeCount == 1 then ToBytes(merged) else merged.payload)) &&
      (!merged.IsPresent() ==> r.status == NOT_FOUND) &&
      (merged.IsRemoved() ==> r.body == ToBytes(merged)) &&
      (merged.IsAbsent() ==> r.body == [])
  {
    var timestamp := Merge(responses);
    if timestamp.IsPresent() then
      if isProxied then
        if nodeCount == 1 then Response(OK, ToBytes(timestamp))
        else Response(OK, GetPresentAsBytes(timestamp).value)
      else Response(OK, GetPresentAsBytes(timestamp).value)
    else if timestamp.IsRemoved() then Response(NOT_FOUND, ToBytes(timestamp))
    else Response(NOT_FOUND, [])
  }

  /** The outcome of a GET pass: the merged answer when proxied or when ack replicas answered, else 504. */
  function GetOutcome(run: GetRun, ack: int, isProxied: bool, nodeCount: nat): (r: Result<Response, Fault>)
    ensures r.Err? <==> run.thrown.Some?
    ensures r.Ok? ==> (r.value.status == GATEWAY_TIMEOUT <==> !isProxied && run.acks < ack)
    ensures r.Ok? && (isProxied || run.acks >= ack) ==> r.value == Respond(run.responses, isProxied, nodeCount)
    ensures r.Ok? && !(isProxied || run.acks >= ack) ==> r.value == Response(GATEWAY_TIMEOUT, [])
  {
    match run.thrown
    case Some(f) => Err(f)
    case None =>
      if isProxied || run.acks >= ack then Ok(Respond(run.responses, isProxied, nodeCount))
      else Ok(Response(GATEWAY_TIMEOUT, []))
  }

  /**
   * A forwarded GET served by a single replica (this node) answers with exactly
   * the version it stores, in a form the forwarding coordinator classifies back
   * to that version.
   */
  lemma ProxiedHopRoundTrip(me: Node, t: Timestamp, id: Bytes, ack: int,
                            answer: (Node, PeerRequest) -> PeerOutcome)
    ensures var run := GatherGet([me], me, Ok(t), id, answer);
      var r := GetOutcome(run, ack, true, 1);
      r.Ok? && Classify(r.value) == Counted(if t.IsAbsent() then GetAbsent() else t)
  {
    LocalGetRoundTrip(t);
    var v := if t.IsAbsent() then GetAbsent() else t;
    var replies := Replies([me], me, Ok(t), id, answer);
    assert replies[0] == Counted(v);
    var first := StepGet(GetRun([], 0, [], None), me, me, id, replies[0]);
    assert first.responses == [v];
    assert GatherGet([me], me, Ok(t), id, answer) == GatherFrom(first, [me], replies, 1, me, id) == first;
    if !v.IsAbsent() {
      DecodeEncode(v);
    }
  }

  /** Version i of rs is not ABSENT, and no version of rs that is not ABSENT is newer. */
  predicate NewestAt(rs: seq<Timestamp>, i: int)
  {
    0 <= i < |rs| && !rs[i].IsAbsent() &&
    forall j :: 0 <= j < |rs| && !rs[j].IsAbsent() ==> rs[j].time <= rs[i].time
  }

  /**
   * A client GET that reached its quorum answers with the newest version: 200
   * with the payload of a newest version that is PRESENT, or 404 when a newest
   * version is a tombstone or no version is PRESENT at all.
   */
  lemma QuorumGetAnswersNewest(run: GetRun, ack: int, nodeCount: nat)
    requires run.thrown.None? && run.acks >= ack
    ensures var r := GetOutcome(run, ack, false, nodeCount);
      var rs := run.responses;
      r.Ok? && (r.value.status == OK || r.value.status == NOT_FOUND) &&
      (r.value.status == OK ==> exists i :: NewestAt(rs, i) && rs[i].IsPresent() && r.value.body == rs[i].payload) &&
      (r.value.status == NOT_FOUND ==>
         (exists i :: NewestAt(rs, i) && rs[i].IsRemoved()) || forall i :: 0 <= i < |rs| ==> !rs[i].IsPresent())
  {
    var rs := run.responses;
    var merged := Merge(rs);
    if |rs| == 1 {
      if !merged.IsAbsent() {
        assert NewestAt(rs, 0);
      }
    } else if !merged.IsAbsent() {
      var i :| 0 <= i < |rs| && rs[i] == merged;
      assert NewestAt(rs, i);
    }
  }

  /**
   * A peer call that ends in an IOException (a read timeout, say) is not caught
   * by the GET loop: the nodes after it are not asked, and the client gets 504
   * although this node answered and one answer was enough.
   */
  lemma TimedOutPeerEndsGet(me: Node, p: Node, q: Node, t: Timestamp, id: Bytes)
    requires me != p && me != q && p != q
    ensures var slow := (n: Node, r: PeerRequest) => if n == p then IOFailed else Answered(Response(NOT_FOUND, []));
      var run := GatherGet([me, p, q], me, Ok(t), id, slow);
      run.calls == [(p, PeerGet(id))] && Deliver(GetOutcome(run, 1, false, 3)) == Ok(SendError(GATEWAY_TIMEOUT))
  {
    var slow := (n: Node, r: PeerRequest) => if n == p then IOFailed else Answered(Response(NOT_FOUND, []));
    var nodes := [me, p, q];
    var replies := Replies(nodes, me, Ok(t), id, slow);
    LocalGetRoundTrip(t);
    assert replies[0].Counted?;
    var first := StepGet(GetRun([], 0, [], None), me, me, id, replies[0]);
    assert replies[1] == Throws(PeerIO);
    var second := StepGet(first, p, me, id, replies[1]);
    assert second.thrown == Some(PeerIO) && second.calls == [(p, PeerGet(id))];
    GatherFromThrown(second, nodes, replies, 2, me, id);
    assert GatherGet(nodes, me, Ok(t), id, slow) == GatherFrom(first, nodes, replies, 1, me, id)
        == GatherFrom(second, nodes, replies, 2, me, id);
  }

  // ---------------------------------------------------------------------------
  // The PUT and DELETE passes

  /** One node's acknowledgement of a write: a local write always counts, a peer only with the expected status. */
  function WriteAck(node: Node, me: Node, answer: (Node, PeerRequest) -> PeerOutcome,
                    request: PeerRequest, success: int): (n: nat)
    ensures n <= 1
    ensures node == me ==> n == 1
    ensures node != me ==>
      (n == 1 <==> answer(node, request).Answered? && answer(node, request).response.status == success)
  {
    if node == me then 1
    else match answer(node, request)
      case Answered(response) => if response.status == success then 1 else 0
      case Failed | IOFailed => 0
  }

  /** The acknowledgements a write pass counts from index i on. */
  function WriteAcksFrom(nodes: seq<Node>, i: nat, me: Node, answer: (Node, PeerRequest) -> PeerOutcome,
                         request: PeerRequest, success: int): (n: nat)
    requires i <= |nodes|
    ensures n <= |nodes| - i
    ensures me in nodes[i..] ==> n >= 1
    decreases |nodes| - i
  {
    if i == |nodes| then 0
    else
      assert nodes[i..] == [nodes[i]] + nodes[i + 1..];
      WriteAck(nodes[i], me, answer, request, success) + WriteAcksFrom(nodes, i + 1, me, answer, request, success)
  }

  /** The acknowledgements a write pass counts over the whole array. */
  function WriteAcks(nodes: seq<Node>, me: Node, answer: (Node, PeerRequest) -> PeerOutcome,
                     request: PeerRequest, success: int): (n: nat)
    ensures n <= |nodes|
    ensures me in nodes ==> n >= 1
  {
    assert nodes[0..] == nodes;
    WriteAcksFrom(nodes, 0, me, answer, request, success)
  }

  /** The answer to a write: success when proxied or acknowledged by ack replicas, else 504, never a body. */
  function WriteResponse(isProxied: bool, acks: nat, ack: int, success: int): (r: Response)
    requires success != GATEWAY_TIMEOUT
    ensures r.body == []
    ensures r.status == success <==> isProxied || acks >= ack
    ensures r.status != success ==> r.status == GATEWAY_TIMEOUT
  {
    if isProxied || acks >= ack then Response(success, []) else Response(GATEWAY_TIMEOUT, [])
  }

  /** The store after a write pass: the key rewritten once if this node is in the array, untouched otherwise. */
  function AfterWrite(db: map<Bytes, Bytes>, nodes: seq<Node>, me: Node, id: Bytes, stored: Bytes): map<Bytes, Bytes>
  {
    if me in nodes then db[EncodeKey(id) := stored] else db
  }

  /** The store after one node of a write pass: the key rewritten when it is this node. */
  function WriteTo(db: map<Bytes, Bytes>, node: Node, me: Node, id: Bytes, stored: Bytes): map<Bytes, Bytes>
  {
    if node == me then db[EncodeKey(id) := stored] else db
  }

  /** The store after the write pass from index i on: each local write rewrites the key. */
  function WriteFrom(db: map<Bytes, Bytes>, nodes: seq<Node>, i: nat, me: Node, id: Bytes, stored: Bytes): map<Bytes, Bytes>
    requires i <= |nodes|
    decreases |nodes| - i
  {
    if i == |nodes| then db
    else WriteFrom(WriteTo(db, nodes[i], me, id, stored), nodes, i + 1, me, id, stored)
  }

  /** Rewriting the key once per occurrence of this node is rewriting it once if it occurs at all. */
  lemma {:induction false} WriteFromOnce(db: map<Bytes, Bytes>, nodes: seq<Node>, i: nat, me: Node, id: Bytes, stored: Bytes)
    requires i <= |nodes|
    ensures WriteFrom(db, nodes, i, me, id, stored) == AfterWrite(db, nodes[i..], me, id, stored)
    decreases |nodes| - i
  {
    if i < |nodes| {
      var db' := WriteTo(db, nodes[i], me, id, stored);
      WriteFromOnce(db', nodes, i + 1, me, id, stored);
      assert nodes[i..] == [nodes[i]] + nodes[i + 1..];
    }
  }

  /** With three replicas and ack 2, one unreachable peer still lets a write through; two do not. */
  lemma QuorumExample(me: Node, p: Node, q: Node, id: Bytes, body: Bytes)
    requires me != p && me != q && p != q
    ensures var oneDown := (n: Node, r: PeerRequest) => if n == p then Failed else Answered(Response(CREATED, []));
      WriteResponse(false, WriteAcks([me, p, q], me, oneDown, PeerPut(id, body), CREATED), 2, CREATED).status == CREATED
    ensures var allDown := (n: Node, r: PeerRequest) => Failed;
      WriteResponse(false, WriteAcks([me, p, q], me, allDown, PeerPut(id, body), CREATED), 2, CREATED).status == GATEWAY_TIMEOUT
  {
    var oneDown := (n: Node, r: PeerRequest) => if n == p then Failed else Answered(Response(CREATED, []));
    var allDown := (n: Node, r: PeerRequest) => Failed;
    var nodes, request := [me, p, q], PeerPut(id, body);
    assert WriteAcksFrom(nodes, 2, me, oneDown, request, CREATED) == 1;
    assert WriteAcksFrom(nodes, 1, me, oneDown, request, CREATED) == 1;
    assert WriteAcksFrom(nodes, 2, me, allDown, request, CREATED) == 0;
    assert WriteAcksFrom(nodes, 1, me, allDown, request, CREATED) == 0;
  }

  // ---------------------------------------------------------------------------
  // The coordinator object

  class Coordinator {
    const dao: SimpleDAO
    const pool: Pool
    const topology: BasicTopology
    const isProxied: bool

    constructor (dao: SimpleDAO, pool: Pool, topology: BasicTopology, isProxied: bool)
      ensures this.dao == dao && this.pool == pool && this.topology == topology && this.isProxied == isProxied
    {
      this.dao := dao;
      this.pool := pool;
      this.topology := topology;
      this.isProxied := isProxied;
    }

    /** `getWrappedKey`: the bytes wrapped in a fresh buffer. */
    static method GetWrappedKey(bytes: Bytes) returns (b: ByteBuffer)
      ensures fresh(b) && fresh(b.hb) && b.Valid() && b.Remaining() == bytes
    {
      var arr := NewArray(bytes);
      b := new ByteBuffer.Wrap(arr);
    }

    /** `getResponseIfMe` */
    method GetResponseIfMe(key: ByteBuffer) returns (r: Result<Response, Fault>)
      requires key.Valid()
      ensures r == LocalGetResponse(Read(dao.db, key.Remaining()))
    {
      var val := dao.GetWithTimestamp(key);
      if val.Err? {
        return Err(val.error);
      }
      if val.value.IsAbsent() {
        r := Ok(Response(NOT_FOUND, []));
      } else {
        r := Ok(Response(OK, ToBytes(val.value)));
      }
    }

    /** The first half of one GET iteration: the local answer for this node, a peer call for any other. */
    method AskNode(node: Node, id: Bytes) returns (a: Result<Response, Fault>)
      modifies pool
      ensures a == Ask(node, topology.me, Read(dao.db, id), id, pool.answer)
      ensures pool.log == old(pool.log) + CallTo(node, topology.me, PeerGet(id))
    {
      if IsMe(topology, node) {
        var key := GetWrappedKey(id);
        a := GetResponseIfMe(key);
      } else {
        var outcome := pool.Call(node, PeerGet(id));
        if outcome.Failed? {
          a := Err(PeerUnreachable);
        } else if outcome.IOFailed? {
          a := Err(PeerIO);
        } else {
          a := Ok(outcome.response);
        }
      }
    }

    /** The body of the loop in `get` for one node: ask it, classify the answer, count it. */
    method Visit(node: Node, id: Bytes, responses: seq<Timestamp>, num: nat,
                 ghost log0: seq<(Node, PeerRequest)>, ghost calls: seq<(Node, PeerRequest)>)
      returns (responses': seq<Timestamp>, num': nat, thrown: Option<Fault>, ghost calls': seq<(Node, PeerRequest)>)
      requires pool.log == log0 + calls
      modifies pool
      ensures StepGet(GetRun(responses, num, calls, None), node, topology.me, id,
                      Reply(node, topology.me, Read(dao.db, id), id, pool.answer))
           == GetRun(responses', num', calls', thrown)
      ensures pool.log == log0 + calls'
    {
      var a := AskNode(node, id);
      calls' := calls + CallTo(node, topology.me, PeerGet(id));
      assert pool.log == log0 + calls';
      responses', num', thrown := responses, num, None;
      if a.Err? {
        if a.error != PeerUnreachable {
          thrown := Some(a.error);
        }
        return;
      }
      var response := a.value;
      if response.status == NOT_FOUND && |response.body| == 0 {
        responses' := responses + [GetAbsent()];
      } else if response.status == INTERNAL_ERROR {
        return;
      } else {
        var decoded := FromBytes(Some(response.body));
        if decoded.Err? {
          thrown := Some(decoded.error);
          return;
        }
        responses' := responses + [decoded.value];
      }
      num' := num + 1;
    }

    /** `get`: asks every node of the array once, then merges or times out. */
    method Get(nodes: array<Node>, id: Bytes, ack: int) returns (r: Result<Response, Fault>)
      modifies pool
      ensures var run := GatherGet(nodes[..], topology.me, Read(dao.db, id), id, pool.answer);
        r == GetOutcome(run, ack, isProxied, nodes.Length) && pool.log == old(pool.log) + run.calls
    {
      var num: nat := 0;
      var responses: seq<Timestamp> := [];
      ghost var me, read, log0, ns := topology.me, Read(dao.db, id), pool.log, nodes[..];
      ghost var replies := Replies(ns, me, read, id, pool.answer);
      ghost var final := GatherGet(ns, me, read, id, pool.answer);
      ghost var calls: seq<(Node, PeerRequest)> := [];
      for i := 0 to nodes.Length
        invariant pool.log == log0 + calls
        invariant GatherFrom(GetRun(responses, num, calls, None), ns, replies, i, me, id) == final
      {
        var thrown;
        responses, num, thrown, calls := Visit(nodes[i], id, responses, num, log0, calls);
        if thrown.Some? {
          GatherFromThrown(GetRun(responses, num, calls, thrown), ns, replies, i + 1, me, id);
          return Err(thrown.value);
        }
      }
      if isProxied || num >= ack {
        r := Ok(Respond(responses, isProxied, nodes.Length));
      } else {
        r := Ok(Response(GATEWAY_TIMEOUT, []));
      }
    }

    /** One iteration of the `upsert` loop: the body stored with a timestamp here, or the PUT forwarded. */
    method PutTo(node: Node, id: Bytes, body: Bytes, now: Int64) returns (ack: nat)
      modifies pool, dao
      ensures ack == WriteAck(node, topology.me, pool.answer, PeerPut(id, body), CREATED)
      ensures pool.log == old(pool.log) + CallTo(node, topology.me, PeerPut(id, body))
      ensures dao.db == WriteTo(old(dao.db), node, topology.me, id, ToBytes(FromPresent(body, now)))
    {
      ack := 0;
      if IsMe(topology, node) {
        var key := GetWrappedKey(id);
        var value := GetWrappedKey(body);
        dao.UpsertWithTimestamp(key, value, now);
        ack := 1;
      } else {
        var outcome := pool.Call(node, PeerPut(id, body));
        if outcome.Answered? && outcome.response.status == CREATED {
          ack := 1;
        }
      }
    }

    /** `upsert`: writes locally or forwards to every node of the array, then counts the 201s. */
    method Upsert(nodes: array<Node>, id: Bytes, body: Bytes, ack: int, now: Int64) returns (r: Response)
      modifies pool, dao
      ensures r == WriteResponse(isProxied, WriteAcks(nodes[..], topology.me, pool.answer, PeerPut(id, body), CREATED), ack, CREATED)
      ensures pool.log == old(pool.log) + RemoteCalls(nodes[..], topology.me, PeerPut(id, body))
      ensures dao.db == AfterWrite(old(dao.db), nodes[..], topology.me, id, ToBytes(FromPresent(body, now)))
    {
      var num := 0;
      ghost var me, db0, log0, ns := topology.me, dao.db, pool.log, nodes[..];
      ghost var request, stored := PeerPut(id, body), ToBytes(FromPresent(body, now));
      for i := 0 to nodes.Length
        invariant num + WriteAcksFrom(ns, i, me, pool.answer, request, CREATED) == WriteAcks(ns, me, pool.answer, request, CREATED)
        invariant pool.log + RemoteCallsFrom(ns, i, me, request) == log0 + RemoteCalls(ns, me, request)
        invariant WriteFrom(dao.db, ns, i, me, id, stored) == WriteFrom(db0, ns, 0, me, id, stored)
      {
        RemoteCallsStep(pool.log, ns, i, me, request);
        var acked := PutTo(nodes[i], id, body, now);
        num := num + acked;
      }
      WriteFromOnce(db0, ns, 0, me, id, stored);
      assert ns[0..] == ns;
      if isProxied || num >= ack {
        r := Response(CREATED, []);
      } else {
        r := Response(GATEWAY_TIMEOUT, []);
      }
    }

    /** One iteration of the `delete` loop: a tombstone written here, or the DELETE forwarded. */
    method DeleteAt(node: Node, id: Bytes, now: Int64) returns (ack: nat)
      modifies pool, dao
      ensures ack == WriteAck(node, topology.me, pool.answer, PeerDelete(id), ACCEPTED)
      ensures pool.log == old(pool.log) + CallTo(node, topology.me, PeerDelete(id))
      ensures dao.db == WriteTo(old(dao.db), node, topology.me, id, ToBytes(Tombstone(now)))
    {
      ack := 0;
      if IsMe(topology, node) {
        var key := GetWrappedKey(id);
        dao.RemoveWithTimestamp(key, now);
        ack := 1;
      } else {
        var outcome := pool.Call(node, PeerDelete(id));
        if outcome.Answered? && outcome.response.status == ACCEPTED {
          ack := 1;
        }
      }
    }

    /** `delete`: writes a local tombstone or forwards to every node of the array, then counts the 202s. */
    method Delete(nodes: array<Node>, id: Bytes, ack: int, now: Int64) returns (r: Response)
      modifies pool, dao
      ensures r == WriteResponse(isProxied, WriteAcks(nodes[..], topology.me, pool.answer, PeerDelete(id), ACCEPTED), ack, ACCEPTED)
      ensures pool.log == old(pool.log) + RemoteCalls(nodes[..], topology.me, PeerDelete(id))
      ensures dao.db == AfterWrite(old(dao.db), nodes[..], topology.me, id, ToBytes(Tombstone(now)))
    {
      var num := 0;
      ghost var me, db0, log0, ns := topology.me, dao.db, pool.log, nodes[..];
      ghost var request, stored := PeerDelete(id), ToBytes(Tombstone(now));
      for i := 0 to nodes.Length
        invariant num + WriteAcksFrom(ns, i, me, pool.answer, request, ACCEPTED) == WriteAcks(ns, me, pool.answer, request, ACCEPTED)
        invariant pool.log + RemoteCallsFrom(ns, i, me, request) == log0 + RemoteCalls(ns, me, request)
        invariant WriteFrom(dao.db, ns, i, me, id, stored) == WriteFrom(db0, ns, 0, me, id, stored)
      {
        RemoteCallsStep(pool.log, ns, i, me, request);
        var acked := DeleteAt(nodes[i], id, now);
        num := num + acked;
      }
      WriteFromOnce(db0, ns, 0, me, id, stored);
      assert ns[0..] == ns;
      if isProxied || num >= ack {
        r := Response(ACCEPTED, []);
      } else {
        r := Response(GATEWAY_TIMEOUT, []);
      }
    }

    /** `request`: dispatch on the method; any method but GET, PUT and DELETE is refused with 405. */
    method Request(nodes: array<Node>, m: Method, id: Bytes, body: Bytes, ack: int, now: Int64)
      returns (sent: Result<Sent, Fault>)
      modifies pool, dao
      ensures m.Other? ==> sent == Ok(SendError(METHOD_NOT_ALLOWED)) && pool.log == old(pool.log) && dao.db == old(dao.db)
      ensures m == GET ==>
        var run := GatherGet(nodes[..], topology.me, Read(old(dao.db), id), id, pool.answer);
        sent == Deliver(GetOutcome(run, ack, isProxied, nodes.Length)) && dao.db == old(dao.db) &&
        pool.log == old(pool.log) + run.calls
      ensures m == PUT ==>
        sent == Ok(SendResponse(WriteResponse(isProxied, WriteAcks(nodes[..], topology.me, pool.answer, PeerPut(id, body), CREATED), ack, CREATED))) &&
        pool.log == old(pool.log) + RemoteCalls(nodes[..], topology.me, PeerPut(id, body)) &&
        dao.db == AfterWrite(old(dao.db), nodes[..], topology.me, id, ToBytes(FromPresent(body, now)))
      ensures m == DELETE ==>
        sent == Ok(SendResponse(WriteResponse(isProxied, WriteAcks(nodes[..], topology.me, pool.answer, PeerDelete(id), ACCEPTED), ack, ACCEPTED))) &&
        pool.log == old(pool.log) + RemoteCalls(nodes[..], topology.me, PeerDelete(id)) &&
        dao.db == AfterWrite(old(dao.db), nodes[..], topology.me, id, ToBytes(Tombstone(now)))
    {
      match m
      case GET =>
        var r := Get(nodes, id, ack);
        sent := Deliver(r);
      case PUT =>
        var r := Upsert(nodes, id, body, ack, now);
        sent := Ok(SendResponse(r));
      case DELETE =>
        var r := Delete(nodes, id, ack, now);
        sent := Ok(SendResponse(r));
      case Other(_) =>
        sent := Ok(SendError(METHOD_NOT_ALLOWED));
    }
  }

  /**
   * What `request` does with the outcome of a handler: a response is sent, an
   * IOException is caught and answered with 504, any other exception escapes.
   */
  function Deliver(r: Result<Response, Fault>): (sent: Result<Sent, Fault>)
    ensures sent.Ok? <==> r.Ok? || IsIOException(r.error)
    ensures r.Ok? ==> sent.value == SendResponse(r.value)
    ensures r.Err? && IsIOException(r.error) ==> sent.value == SendError(GATEWAY_TIMEOUT)
    ensures sent.Err? ==> sent.error == r.error
  {
    match r
    case Ok(response) => Ok(SendResponse(response))
    case Err(f) => if IsIOException(f) then Ok(SendError(GATEWAY_TIMEOUT)) else Err(f)
  }
}
