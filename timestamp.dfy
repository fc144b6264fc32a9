/**
 * The versioned value every replica stores and exchanges: a value written at a
 * time (PRESENT), a tombstone written at a time (REMOVED), or "no information"
 * (ABSENT); its byte encoding; and the last-writer-wins merge of the values
 * collected from several replicas.
 */
module Timestamps {
  import opened Wrappers
  import opened JavaTypes

  datatype State = PRESENT | REMOVED | ABSENT

  /** The tag byte of each state. */
  function Value(s: State): Byte
  {
    match s
    case PRESENT => 1
    case REMOVED => -1
    case ABSENT => 0
  }

  /** `State.fromValue`: the state a tag byte stands for; any unknown tag reads as ABSENT. */
  function FromValue(b: Byte): (s: State)
    ensures s == PRESENT <==> b == Value(PRESENT)
    ensures s == REMOVED <==> b == Value(REMOVED)
  {
    if b == Value(REMOVED) then REMOVED
    else if b == Value(PRESENT) then PRESENT
    else ABSENT
  }

  lemma FromValueOfValue(s: State)
    ensures FromValue(Value(s)) == s
  {
  }

  /** A versioned value; only a PRESENT one carries a payload. */
  datatype Timestamp =
    | Present(time: Int64, payload: Bytes)
    | Removed(time: Int64)
    | Absent(time: Int64)
  {
    function State(): State
    {
      match this
      case Present(_, _) => PRESENT
      case Removed(_) => REMOVED
      case Absent(_) => ABSENT
    }

    predicate IsPresent() { State() == PRESENT }
    predicate IsRemoved() { State() == REMOVED }
    predicate IsAbsent() { State() == ABSENT }
  }

  /** `Timestamp.fromPresent` */
  function FromPresent(present: Bytes, timestamp: Int64): (t: Timestamp)
    ensures t.IsPresent() && t.time == timestamp && t.payload == present
  {
    Present(timestamp, present)
  }

  /** `Timestamp.timestamp`: the tombstone written at the given time. */
  function Tombstone(timestamp: Int64): (t: Timestamp)
    ensures t.IsRemoved() && t.time == timestamp
  {
    Removed(timestamp)
  }

  /** `Timestamp.getAbsent` */
  function GetAbsent(): (t: Timestamp)
    ensures t.IsAbsent() && t.time == -1
  {
    Absent(-1)
  }

  /** `getPresentAsBytes`: the payload, or the IOException "value is not present". */
  function GetPresentAsBytes(t: Timestamp): (r: Result<Bytes, Fault>)
    ensures r.Ok? <==> t.IsPresent()
    ensures r.Ok? ==> r.value == t.payload
    ensures r.Err? ==> r.error == NotPresent
  {
    if t.Present? then Ok(t.payload) else Err(NotPresent)
  }

  /** `toBytes`: tag byte, eight-byte big-endian time, then the payload of a PRESENT value. */
  function ToBytes(t: Timestamp): (b: Bytes)
    ensures |b| == 1 + 8 + (if t.IsPresent() then |t.payload| else 0)
  {
    [Value(t.State())] + PutLong(t.time) + (if t.Present? then t.payload else [])
  }

  /** `fromBytes`: null decodes as ABSENT; fewer than nine bytes underflow the buffer. */
  function FromBytes(bytes: Option<Bytes>): (r: Result<Timestamp, Fault>)
    ensures bytes.None? ==> r == Ok(GetAbsent())
    ensures r.Err? <==> bytes.Some? && |bytes.value| < 9
    ensures r.Err? ==> r.error == BufferUnderflow
  {
    match bytes
    case None => Ok(GetAbsent())
    case Some(b) =>
      if |b| < 1 + 8 then Err(BufferUnderflow)
      else
        var time := GetLong(b[1..9]);
        match FromValue(b[0])
        case PRESENT => Ok(Present(time, b[9..]))
        case REMOVED => Ok(Removed(time))
        case ABSENT => Ok(Absent(time))
  }

  /** The layout of the encoding: byte 0 is the state tag, bytes 1..8 the time, then the payload. */
  lemma ToBytesLayout(t: Timestamp)
    ensures ToBytes(t)[0] == Value(t.State())
    ensures ToBytes(t)[1..9] == PutLong(t.time)
    ensures ToBytes(t)[9..] == (if t.IsPresent() then t.payload else [])
  {
    var b := ToBytes(t);
    assert b == [Value(t.State())] + PutLong(t.time) + (if t.Present? then t.payload else []);
  }

  /** Decoding an encoding gives back the same state, time and (for PRESENT) payload. */
  lemma DecodeEncode(t: Timestamp)
    ensures FromBytes(Some(ToBytes(t))) == Ok(t)
  {
    ToBytesLayout(t);
    GetLongOfPutLong(t.time);
    FromValueOfValue(t.State());
  }

  /** An unknown tag byte decodes as ABSENT, keeping the encoded time. */
  lemma UnknownTagIsAbsent(b: Bytes)
    requires |b| >= 9 && b[0] != 1 && b[0] != -1
    ensures FromBytes(Some(b)) == Ok(Absent(GetLong(b[1..9])))
  {
  }

  /**
   * Encoding a decoded value reproduces the input for a PRESENT tag; a REMOVED
   * tag loses the bytes after the time, and an unknown tag is rewritten to 0.
   */
  lemma EncodeDecode(b: Bytes)
    requires |b| >= 9
    ensures FromBytes(Some(b)).Ok?
    ensures ToBytes(FromBytes(Some(b)).value) ==
      if b[0] == 1 then b
      else if b[0] == -1 then b[..9]
      else [0] + b[1..9]
  {
    PutLongOfGetLong(b[1..9]);
    assert b == [b[0]] + b[1..9] + b[9..];
    assert b[..9] == [b[0]] + b[1..9];
  }

  /** Drops the ABSENT values, keeping the order of the others. */
  function NonAbsent(rs: seq<Timestamp>): (r: seq<Timestamp>)
    ensures forall i :: 0 <= i < |r| ==> !r[i].IsAbsent() && r[i] in rs
    ensures forall i :: 0 <= i < |rs| && !rs[i].IsAbsent() ==> rs[i] in r
  {
    if rs == [] then []
    else if rs[0].IsAbsent() then NonAbsent(rs[1..])
    else [rs[0]] + NonAbsent(rs[1..])
  }

  /**
   * `Stream.max(Comparator.comparingLong(getTimestamp))` on a non-empty stream: a
   * left fold that keeps the value seen so far unless a later one is strictly newer.
   */
  function MaxByTime(best: Timestamp, rest: seq<Timestamp>): (r: Timestamp)
    ensures r == best || r in rest
    ensures best.time <= r.time
    ensures forall i :: 0 <= i < |rest| ==> rest[i].time <= r.time
    decreases |rest|
  {
    if rest == [] then best
    else MaxByTime(if best.time >= rest[0].time then best else rest[0], rest[1..])
  }

  /**
   * `Timestamp.merge`: a single response is returned as it is; otherwise the
   * newest non-ABSENT response, or ABSENT when there is none. Which of several
   * equally new values wins is not part of the contract.
   */
  function Merge(responses: seq<Timestamp>): (r: Timestamp)
    ensures |responses| == 1 ==> r == responses[0]
    ensures |responses| != 1 ==>
      (r.IsAbsent() <==> forall i :: 0 <= i < |responses| ==> responses[i].IsAbsent())
    ensures |responses| != 1 && r.IsAbsent() ==> r == GetAbsent()
    ensures |responses| != 1 && !r.IsAbsent() ==>
      r in responses &&
      forall i :: 0 <= i < |responses| && !responses[i].IsAbsent() ==> responses[i].time <= r.time
  {
    if |responses| == 1 then responses[0]
    else
      var live := NonAbsent(responses);
      if live == [] then GetAbsent()
      else
        var r := MaxByTime(live[0], live[1..]);
        assert r in live;
        forall i | 0 <= i < |responses| && !responses[i].IsAbsent()
          ensures responses[i].time <= r.time
        {
          var j :| 0 <= j < |live| && live[j] == responses[i];
          assert j == 0 || live[1..][j - 1] == live[j];
        }
        r
  }

  /** Merging n copies of one value gives that value back (an ABSENT one as getAbsent when n != 1). */
  lemma MergeCopies(t: Timestamp, n: nat)
    ensures Merge(seq(n, _ => t)) == if n == 1 || (!t.IsAbsent() && n > 0) then t else GetAbsent()
  {
    var rs := seq(n, _ => t);
    if n > 1 && !t.IsAbsent() {
      assert rs[0] == t;
    }
  }

  /** Merge examples: the newest PRESENT wins, a tombstone beats ABSENT, all ABSENT stays ABSENT. */
  lemma MergeExamples(a: Bytes, b: Bytes)
    ensures Merge([Present(1, a), Present(5, b), GetAbsent()]) == Present(5, b)
    ensures Merge([Removed(3), GetAbsent()]) == Removed(3)
    ensures Merge([GetAbsent(), GetAbsent()]) == GetAbsent()
  {
    var rs := [Present(1, a), Present(5, b), GetAbsent()];
    assert rs[1..] == [Present(5, b), GetAbsent()] && rs[1..][1..] == [GetAbsent()];
    assert NonAbsent([GetAbsent()]) == [];
    assert NonAbsent(rs[1..]) == [Present(5, b)];
    assert NonAbsent(rs) == [Present(1, a), Present(5, b)];
    var ts := [Removed(3), GetAbsent()];
    assert ts[1..] == [GetAbsent()];
    assert NonAbsent(ts) == [Removed(3)];
  }
}
