/**
 * The static cluster topology: the node list (copied from the configured node
 * set in that set's iteration order, never sorted), this process's own node,
 * and the placement of a key on a primary node and on a circular run of replicas.
 */
module Topology {
  import opened Wrappers
  import opened JavaTypes

  type Node = string

  predicate Distinct(s: seq<Node>)
  {
    forall i, j :: 0 <= i < j < |s| ==> s[i] != s[j]
  }

  datatype BasicTopology = BasicTopology(nodes: seq<Node>, me: Node)
  {
    /** The node list comes from a set, so it has no duplicates, and it contains this node. */
    ghost predicate Valid()
    {
      me in nodes && Distinct(nodes)
    }
  }

  /**
   * The constructor: `order` is the iteration order of the configured node set,
   * which is copied as it is; the `assert nodes.contains(me)` becomes a requirement.
   */
  function New(order: seq<Node>, me: Node): (t: BasicTopology)
    requires Distinct(order) && me in order
    ensures t.Valid()
    ensures All(t) == set n | n in order
    ensures GetMe(t) == me
    ensures forall x :: IsMe(t, x) <==> x == me
  {
    BasicTopology(order, me)
  }

  /** `all()`: the node set. */
  function All(t: BasicTopology): set<Node>
  {
    set n | n in t.nodes
  }

  /** `isMe` */
  predicate IsMe(t: BasicTopology, node: Node)
  {
    t.me == node
  }

  /** `getMe` */
  function GetMe(t: BasicTopology): Node
  {
    t.me
  }

  /** `hash & Integer.MAX_VALUE`: clears the sign bit of a two's complement int. */
  function Mask(hash: Int32): (m: nat)
    ensures m <= INT_MAX
    ensures hash >= 0 ==> m == hash
    ensures hash < 0 ==> m == hash + 0x8000_0000
  {
    if hash >= 0 then hash else hash + 0x8000_0000
  }

  /** The index `(key.hashCode() & Integer.MAX_VALUE) % nodes.size()`. */
  function StartIndex(t: BasicTopology, key: Bytes, hashCode: Bytes -> Int32): (i: nat)
    requires |t.nodes| > 0
    ensures i < |t.nodes|
  {
    Mask(hashCode(key)) % |t.nodes|
  }

  /** `primaryFor` */
  function PrimaryFor(t: BasicTopology, key: Bytes, hashCode: Bytes -> Int32): (n: Node)
    requires t.Valid()
    ensures n in All(t)
  {
    t.nodes[StartIndex(t, key, hashCode)]
  }

  /** The replica run that `replicas` produces: count nodes, circularly from the start index. */
  function ReplicaWalk(t: BasicTopology, start: nat, count: nat): (r: seq<Node>)
    requires |t.nodes| > 0
    ensures |r| == count
    ensures forall j :: 0 <= j < count ==> r[j] == t.nodes[(start + j) % |t.nodes|]
  {
    seq(count, j requires 0 <= j < count => t.nodes[(start + j) % |t.nodes|])
  }

  lemma ModStep(a: int, n: int)
    requires n > 0
    ensures (a % n + 1) % n == (a + 1) % n
  {
    var q, r := a / n, a % n;
    if r + 1 < n {
      DivModUnique(r + 1, n, 0, r + 1);
      DivModUnique(a + 1, n, q, r + 1);
    } else {
      DivModUnique(r + 1, n, 1, 0);
      assert a + 1 == (q + 1) * n + 0;
      DivModUnique(a + 1, n, q + 1, 0);
    }
  }

  /** One more step of the walk appends the node at the current index and advances it by one, modulo the ring. */
  lemma WalkStep(t: BasicTopology, start: nat, j: nat, ind: int)
    requires |t.nodes| > 0 && ind == (start + j) % |t.nodes|
    ensures 0 <= ind < |t.nodes|
    ensures ReplicaWalk(t, start, j + 1) == ReplicaWalk(t, start, j) + [t.nodes[ind]]
    ensures (ind + 1) % |t.nodes| == (start + j + 1) % |t.nodes|
  {
    ModStep(start + j, |t.nodes|);
    var w, w1 := ReplicaWalk(t, start, j), ReplicaWalk(t, start, j + 1);
    assert forall k :: 0 <= k < j + 1 ==> w1[k] == (w + [t.nodes[ind]])[k];
  }

  /**
   * `replicas(key, count)`: fills a new array of count nodes, stepping the index
   * circularly; a negative count fails as `new String[count]` does.
   */
  method Replicas(t: BasicTopology, key: Bytes, count: int, hashCode: Bytes -> Int32)
    returns (r: Result<array<Node>, Fault>)
    requires t.Valid()
    ensures r.Err? <==> count < 0
    ensures r.Err? ==> r.error == NegativeArraySize
    ensures r.Ok? ==> r.value[..] == ReplicaWalk(t, StartIndex(t, key, hashCode), count)
  {
    if count < 0 {
      return Err(NegativeArraySize);
    }
    var result := new Node[count];
    var n := |t.nodes|;
    var start := StartIndex(t, key, hashCode);
    var ind := start;
    DivModUnique(start, n, 0, start);
    for j := 0 to count
      invariant ind == (start + j) % n
      invariant result[..j] == ReplicaWalk(t, start, j)
    {
      WalkStep(t, start, j, ind);
      result[j] := t.nodes[ind];
      ind := (ind + 1) % n;
    }
    assert result[..] == result[..count];
    return Ok(result);
  }

  /** The first replica is the primary node. */
  lemma FirstReplicaIsPrimary(t: BasicTopology, key: Bytes, hashCode: Bytes -> Int32, count: nat)
    requires t.Valid() && count >= 1
    ensures ReplicaWalk(t, StartIndex(t, key, hashCode), count)[0] == PrimaryFor(t, key, hashCode)
  {
    var start := StartIndex(t, key, hashCode);
    DivModUnique(start, |t.nodes|, 0, start);
  }

  lemma ModDistinct(s: nat, j1: nat, j2: nat, n: nat)
    requires j1 < j2 < n
    ensures (s + j1) % n != (s + j2) % n
  {
    var q1, q2, r := (s + j1) / n, (s + j2) / n, (s + j1) % n;
    if (s + j2) % n == r {
      assert s + j1 == q1 * n + r && s + j2 == q2 * n + r;
      assert (q2 - q1) * n == j2 - j1;
      if q2 - q1 >= 1 {
        MulAtLeast(q2 - q1, n);
      } else if q1 - q2 >= 1 {
        MulAtLeast(q1 - q2, n);
      }
    }
  }

  /** At most one full turn of the ring never names a node twice. */
  lemma {:induction false} ReplicasDistinct(t: BasicTopology, start: nat, count: nat)
    requires t.Valid() && count <= |t.nodes|
    ensures Distinct(ReplicaWalk(t, start, count))
  {
    var n := |t.nodes|;
    var r := ReplicaWalk(t, start, count);
    forall i, j | 0 <= i < j < count
      ensures r[i] != r[j]
    {
      ModDistinct(start, i, j, n);
    }
  }

  /** A full turn of the ring lists every node exactly once. */
  lemma {:induction false} FullWalkListsEveryNode(t: BasicTopology, start: nat)
    requires t.Valid() && start < |t.nodes|
    ensures Distinct(ReplicaWalk(t, start, |t.nodes|))
    ensures forall x :: x in All(t) <==> x in ReplicaWalk(t, start, |t.nodes|)
  {
    var n := |t.nodes|;
    var r := ReplicaWalk(t, start, n);
    ReplicasDistinct(t, start, n);
    forall x | x in All(t)
      ensures x in r
    {
      var i :| 0 <= i < n && t.nodes[i] == x;
      if i >= start {
        DivModUnique(i, n, 0, i);
        assert r[i - start] == x;
      } else {
        DivModUnique(i + n, n, 1, i);
        assert r[i - start + n] == x;
      }
    }
  }
}
