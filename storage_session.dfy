/**
 * The range streamer: an HTTP session that sends the records of a store
 * iterator as the chunks of the HTTP/1.1 chunked transfer coding (section 4.1
 * of RFC 7230), one chunk per record, `key LF value` as chunk data, and a
 * zero-size chunk at the end. It only pulls a record while nothing is waiting
 * in its outbound queue; the socket's readiness is a parameter of the model.
 */
module StorageSessions {
  import opened Wrappers
  import opened JavaTypes
  import opened ByteBuffers
  import opened SimpleDao

  /** `CRLF` */
  const CRLF: Bytes := [13, 10]
  /** `LF` */
  const LF: Bytes := [10]
  /** `EMPTY`: the last chunk, "0" CRLF, followed by the CRLF that ends the chunked body. */
  const EMPTY: Bytes := [48, 13, 10, 13, 10]

  // ---------------------------------------------------------------------------
  // Chunk size as lowercase hexadecimal

  predicate IsHexDigit(c: Byte)
  {
    48 <= c <= 57 || 97 <= c <= 102
  }

  function HexDigit(d: nat): (c: Byte)
    requires d < 16
    ensures IsHexDigit(c)
  {
    if d < 10 then 48 + d else 87 + d
  }

  function DigitValue(c: Byte): (d: nat)
    requires IsHexDigit(c)
    ensures d < 16 && HexDigit(d) == c
  {
    if c <= 57 then c - 48 else c - 87
  }

  /** `Integer.toHexString` of a non-negative int: lowercase digits, no leading zero. */
  function ToHexString(n: nat): (s: Bytes)
    ensures |s| >= 1 && forall i :: 0 <= i < |s| ==> IsHexDigit(s[i])
    decreases n
  {
    if n < 16 then [HexDigit(n)] else ToHexString(n / 16) + [HexDigit(n % 16)]
  }

  /** A chunk-size field as RFC 7230 reads it: the hexadecimal value of its digits. */
  function HexValue(s: Bytes): nat
    requires forall i :: 0 <= i < |s| ==> IsHexDigit(s[i])
  {
    if s == [] then 0 else HexValue(s[..|s| - 1]) * 16 + DigitValue(s[|s| - 1])
  }

  /** Lowercase hex digits without a leading zero (the single digit "0" aside). */
  predicate IsCanonicalHex(s: Bytes)
  {
    |s| >= 1 && (forall i :: 0 <= i < |s| ==> IsHexDigit(s[i])) &&
    (|s| > 1 ==> s[0] != 48)
  }

  /** The size field reads back as the number written. */
  lemma {:induction false} HexRoundTrip(n: nat)
    ensures HexValue(ToHexString(n)) == n
    decreases n
  {
    if n >= 16 {
      HexRoundTrip(n / 16);
      var s := ToHexString(n);
      assert s[..|s| - 1] == ToHexString(n / 16);
    }
  }

  /** `toHexString` writes no leading zero, so its output is canonical. */
  lemma {:induction false} HexIsCanonical(n: nat)
    ensures IsCanonicalHex(ToHexString(n))
    ensures n > 0 ==> ToHexString(n)[0] != 48
    decreases n
  {
    if n >= 16 {
      HexIsCanonical(n / 16);
    }
  }

  /** A canonical digit string is non-zero when it is longer than one digit or its one digit is not 0. */
  lemma {:induction false} CanonicalHexPositive(s: Bytes)
    requires IsCanonicalHex(s) && s[0] != 48
    ensures HexValue(s) >= 1
    ensures |s| > 1 ==> HexValue(s) >= 16
    decreases |s|
  {
    if |s| > 1 {
      var p := s[..|s| - 1];
      CanonicalHexPositive(p);
    }
  }

  /** Every canonical size field is the one `toHexString` writes for its value: the encoding is unique. */
  lemma {:induction false} HexCanonical(s: Bytes)
    requires IsCanonicalHex(s)
    ensures ToHexString(HexValue(s)) == s
    decreases |s|
  {
    if |s| > 1 {
      var p := s[..|s| - 1];
      assert IsCanonicalHex(p) && p[0] == s[0];
      CanonicalHexPositive(p);
      HexCanonical(p);
      var v, d := HexValue(p), DigitValue(s[|s| - 1]);
      assert HexValue(s) == v * 16 + d;
      DivModUnique(v * 16 + d, 16, v, d);
      assert ToHexString(HexValue(s)) == ToHexString(v) + [HexDigit(d)];
      assert s == p + [s[|s| - 1]];
    }
  }

  // ---------------------------------------------------------------------------
  // One record as one chunk

  /** The number of data bytes of a record's chunk: key, LF and value. */
  function KvLength(key: Bytes, value: Bytes): nat
  {
    |key| + |LF| + |value|
  }

  /** A record's chunk: its size in hex, CRLF, the key, LF, the value, CRLF. */
  function Chunk(key: Bytes, value: Bytes): (c: Bytes)
    ensures |c| == |ToHexString(KvLength(key, value))| + |CRLF| + KvLength(key, value) + |CRLF|
  {
    ToHexString(KvLength(key, value)) + CRLF + key + LF + value + CRLF
  }

  /**
   * A record's chunk reads, per section 4.1 of RFC 7230, as a size field, CRLF,
   * exactly that many bytes of data holding `key LF value`, and CRLF; its size
   * is never 0, so no record's chunk is mistaken for the last chunk.
   */
  lemma ChunkFraming(key: Bytes, value: Bytes)
    ensures var c, h := Chunk(key, value), ToHexString(KvLength(key, value));
      IsCanonicalHex(h) && c[..|h|] == h && c[|h|..|h| + 2] == CRLF &&
      HexValue(h) == |c| - |h| - 4 && c[|h| + 2..|c| - 2] == key + LF + value && c[|c| - 2..] == CRLF &&
      HexValue(h) > 0 && c[0] != EMPTY[0]
  {
    var n := KvLength(key, value);
    var c, h := Chunk(key, value), ToHexString(n);
    HexRoundTrip(n);
    HexIsCanonical(n);
    assert c == h + CRLF + (key + LF + value) + CRLF;
    assert c[..|h|] == h;
  }

  // ---------------------------------------------------------------------------
  // The session

  /** What the session hands to its socket: the response head, or raw body bytes. */
  datatype Frame = Head(status: int, header: string) | Data(bytes: Bytes)

  /** The chunks of a run of store entries, keys decoded, in iterator order. */
  function Chunks(entries: seq<(Bytes, Bytes)>): (frames: seq<Frame>)
    ensures |frames| == |entries|
    ensures forall i :: 0 <= i < |entries| ==> frames[i] == Data(Chunk(DecodeKey(entries[i].0), entries[i].1))
  {
    seq(|entries|, i requires 0 <= i < |entries| => Data(Chunk(DecodeKey(entries[i].0), entries[i].1)))
  }

  /** How many last chunks a sequence of frames holds. */
  function Terminals(frames: seq<Frame>): nat
  {
    multiset(frames)[Data(EMPTY)]
  }

  /** Record chunks are never last chunks. */
  lemma ChunksHoldNoTerminal(entries: seq<(Bytes, Bytes)>)
    ensures Terminals(Chunks(entries)) == 0
  {
    var frames := Chunks(entries);
    forall i | 0 <= i < |frames|
      ensures frames[i] != Data(EMPTY)
    {
      ChunkFraming(DecodeKey(entries[i].0), entries[i].1);
    }
  }

  /** The last chunks of a stream's frames after more frames are written: those before plus those added. */
  lemma TerminalsAfter(frames: seq<Frame>, start: nat, more: seq<Frame>)
    requires start <= |frames|
    ensures (frames + more)[start..] == frames[start..] + more
    ensures Terminals((frames + more)[start..]) == Terminals(frames[start..]) + Terminals(more)
  {
    assert (frames + more)[start..] == frames[start..] + more;
  }

  /** `writeChunk`'s buffer: allocated at chunkLength and filled by six puts, ending exactly at its end. */
  method FillChunk(key: array<Byte>, value: array<Byte>, keyValueString: Bytes, chunkLength: nat)
    returns (chunkArray: array<Byte>)
    requires chunkLength == |keyValueString| + |CRLF| + key.Length + |LF| + value.Length + |CRLF|
    ensures fresh(chunkArray)
    ensures chunkArray[..] == keyValueString + CRLF + key[..] + LF + value[..] + CRLF
  {
    chunkArray := new Byte[chunkLength];
    var byteBuffer := new ByteBuffer.Wrap(chunkArray);
    byteBuffer.Put(keyValueString);
    byteBuffer.Put(CRLF);
    byteBuffer.Put(key[..]);
    byteBuffer.Put(LF);
    byteBuffer.Put(value[..]);
    byteBuffer.Put(CRLF);
    assert byteBuffer.position == byteBuffer.limit == chunkArray.Length;
    assert chunkArray[..] == chunkArray[..byteBuffer.position];
  }

  /** The queue length after `next`'s loop stops with records left: one frame queued if none was, else as it was. */
  function QueuedAfterPump(queued: nat): nat
  {
    if queued == 0 then 1 else queued
  }

  class StorageSession {
    /** The iterator being streamed; null until `stream` sets it, and never cleared. */
    var iter: Option<RocksDBIterator>
    /** Every frame written, in order, whether the socket took it or it waits in the queue. */
    var sent: seq<Frame>
    /** How many written frames wait in the outbound queue; `queueHead != null` exactly when this is positive. */
    var queued: nat
    /** How many further frames the socket takes whole before it would block. */
    var room: nat
    /** Whether the last chunk of the current stream has been written. */
    var ended: bool
    /** Where in `sent` the current stream's frames begin. */
    ghost var streamStart: nat

    /** The socket takes nothing while frames wait in the queue. */
    predicate Backpressure()
      reads this
    {
      queued > 0 ==> room == 0
    }

    ghost predicate Valid()
      reads this, if iter.Some? then {iter.value} else {}
    {
      Backpressure() &&
      (iter.Some? ==> iter.value.Valid()) &&
      (ended ==> iter.Some? && !iter.value.HasNext()) &&
      streamStart <= |sent| &&
      Terminals(sent[streamStart..]) == (if ended then 1 else 0)
    }

    /** A session on a fresh connection whose socket takes `room` frames before it blocks. */
    constructor (room: nat)
      ensures Valid() && iter.None? && sent == [] && queued == 0 && this.room == room && !ended
    {
      iter := None;
      sent := [];
      queued := 0;
      this.room := room;
      ended := false;
      streamStart := 0;
    }

    /** `queueHead != null` */
    predicate Busy()
      reads this
    {
      queued > 0
    }

    /** `write`: the frame goes to the socket when nothing is queued and it has room, else to the queue. */
    method Write(frame: Frame)
      modifies this
      ensures sent == old(sent) + [frame]
      ensures iter == old(iter) && ended == old(ended) && streamStart == old(streamStart)
      ensures if old(queued) == 0 && old(room) > 0 then room == old(room) - 1 && queued == 0
              else room == old(room) && queued == old(queued) + 1
      ensures old(Backpressure()) ==> Backpressure()
    {
      sent := sent + [frame];
      if queued == 0 && room > 0 {
        room := room - 1;
      } else {
        queued := queued + 1;
      }
    }

    /** `writeChunk`: one record as one chunk, written as one frame. */
    method WriteChunk(key: array<Byte>, value: array<Byte>, keyValueString: Bytes, chunkLength: nat)
      requires chunkLength == |keyValueString| + |CRLF| + key.Length + |LF| + value.Length + |CRLF|
      modifies this
      ensures sent == old(sent) + [Data(keyValueString + CRLF + key[..] + LF + value[..] + CRLF)]
      ensures iter == old(iter) && ended == old(ended) && streamStart == old(streamStart)
      ensures if old(queued) == 0 && old(room) > 0 then room == old(room) - 1 && queued == 0
              else room == old(room) && queued == old(queued) + 1
      ensures old(Backpressure()) ==> Backpressure()
    {
      var chunkArray := FillChunk(key, value, keyValueString, chunkLength);
      Write(Data(chunkArray[..]));
    }

    /** The body of the loop in `next`: pull one record and write it as one chunk. */
    method PullRecord(it: RocksDBIterator)
      requires it.Valid() && it.HasNext()
      modifies this, it
      ensures it.Valid() && it.cursor == old(it.cursor) + 1
      ensures sent == old(sent) + [Data(Chunk(DecodeKey(it.entries[old(it.cursor)].0), it.entries[old(it.cursor)].1))]
      ensures iter == old(iter) && ended == old(ended) && streamStart == old(streamStart)
      ensures if old(queued) == 0 && old(room) > 0 then room == old(room) - 1 && queued == 0
              else room == old(room) && queued == old(queued) + 1
      ensures old(Backpressure()) ==> Backpressure()
    {
      var record := it.Next();
      var value := GetArray(record.value.value);
      var key := GetArray(record.value.key);
      var kvLength := key.Length + |LF| + value.Length;
      var kvHexString := ToHexString(kvLength);
      var chunkLength := |kvHexString| + |CRLF| + kvLength + |CRLF|;
      WriteChunk(key, value, kvHexString, chunkLength);
    }

    /** `handleEnd`, as far as the stream goes: the last chunk. */
    method HandleEnd()
      modifies this
      ensures sent == old(sent) + [Data(EMPTY)]
      ensures iter == old(iter) && ended == old(ended) && streamStart == old(streamStart)
      ensures if old(queued) == 0 && old(room) > 0 then room == old(room) - 1 && queued == 0
              else room == old(room) && queued == old(queued) + 1
      ensures old(Backpressure()) ==> Backpressure()
    {
      Write(Data(EMPTY));
    }

    /**
     * The loop of `next`: records pulled and written, in order, for as long as
     * nothing waits in the queue. With an empty queue it pulls one record more
     * than the socket has room for (or every record left) and stops as soon as
     * one frame is queued; with a non-empty queue it pulls nothing.
     */
    method Pump(it: RocksDBIterator)
      requires it.Valid()
      modifies this, it
      ensures it.Valid() && old(it.cursor) <= it.cursor
      ensures sent == old(sent) + Chunks(it.entries[old(it.cursor)..it.cursor])
      ensures iter == old(iter) && ended == old(ended) && streamStart == old(streamStart)
      ensures old(Busy()) ==> it.cursor == old(it.cursor) && queued == old(queued) && room == old(room)
      ensures !old(Busy()) ==>
        queued <= 1 && (queued == 1 ==> room == 0) && room + (it.cursor - old(it.cursor)) == old(room) + queued
      ensures it.HasNext() ==> Busy()
      ensures old(Backpressure()) ==> Backpressure()
    {
      ghost var c0, s0 := it.cursor, sent;
      while it.HasNext() && queued == 0
        invariant it.Valid() && c0 <= it.cursor
        invariant iter == old(iter) && ended == old(ended) && streamStart == old(streamStart)
        invariant sent == s0 + Chunks(it.entries[c0..it.cursor])
        invariant old(queued) > 0 ==> queued == old(queued) && room == old(room) && it.cursor == c0
        invariant old(queued) == 0 ==>
          queued <= 1 && (queued == 1 ==> room == 0) && room + (it.cursor - c0) == old(room) + queued
        decreases |it.entries| - it.cursor
      {
        ghost var c := it.cursor;
        PullRecord(it);
        assert it.entries[c0..it.cursor] == it.entries[c0..c] + [it.entries[c]];
        assert Chunks(it.entries[c0..it.cursor]) == Chunks(it.entries[c0..c]) + Chunks([it.entries[c]]);
      }
    }

    /**
     * `next`, as written: pulls records while the queue is empty, then writes
     * the last chunk if the iterator is exhausted, and does so again on every
     * later call. Every frame written either took a place on the socket or
     * joined the queue.
     */
    method NextAsWritten() returns (thrown: Option<Fault>)
      requires iter.Some? ==> iter.value.Valid()
      modifies this, if iter.Some? then {iter.value} else {}
      ensures iter == old(iter) && ended == old(ended) && streamStart == old(streamStart)
      ensures old(iter).None? ==> thrown == Some(IllegalState) && sent == old(sent)
      ensures iter.Some? ==>
        var it := iter.value;
        thrown.None? && it.Valid() && old(it.cursor) <= it.cursor &&
        sent == old(sent) + Chunks(it.entries[old(it.cursor)..it.cursor]) +
                (if it.HasNext() then [] else [Data(EMPTY)]) &&
        (old(queued) > 0 ==> it.cursor == old(it.cursor)) &&
        (it.HasNext() ==> Busy() && queued == QueuedAfterPump(old(queued)))
      ensures old(room) + queued == room + old(queued) + (|sent| - |old(sent)|)
      ensures queued <= QueuedAfterPump(old(queued)) + 1
      ensures old(Backpressure()) ==> Backpressure()
    {
      if iter.None? {
        return Some(IllegalState);
      }
      var it := iter.value;
      Pump(it);
      if !it.HasNext() {
        HandleEnd();
      }
      thrown := None;
    }

    /**
     * `next`, corrected: as written, but the last chunk of a stream is written
     * once; once it has been written, a later call writes nothing.
     */
    method Next() returns (thrown: Option<Fault>)
      requires Valid()
      modifies this, if iter.Some? then {iter.value} else {}
      ensures Valid() && iter == old(iter) && streamStart == old(streamStart)
      ensures old(iter).None? ==> thrown == Some(IllegalState) && sent == old(sent)
      ensures old(ended) ==> thrown.None? && sent == old(sent)
      ensures iter.Some? ==>
        var it := iter.value;
        thrown.None? && old(it.cursor) <= it.cursor &&
        sent == old(sent) + Chunks(it.entries[old(it.cursor)..it.cursor]) +
                (if it.HasNext() || old(ended) then [] else [Data(EMPTY)]) &&
        (ended <==> !it.HasNext()) &&
        (old(queued) > 0 ==> it.cursor == old(it.cursor)) &&
        (it.HasNext() ==> Busy() && queued == QueuedAfterPump(old(queued)))
      ensures old(room) + queued == room + old(queued) + (|sent| - |old(sent)|)
      ensures queued <= QueuedAfterPump(old(queued)) + 1
    {
      if iter.None? {
        return Some(IllegalState);
      }
      if ended {
        return None;
      }
      var it := iter.value;
      ghost var c0, s0 := it.cursor, sent;
      thrown := NextAsWritten();
      ended := !it.HasNext();
      ghost var chunks := Chunks(it.entries[c0..it.cursor]);
      ghost var tail: seq<Frame> := if ended then [Data(EMPTY)] else [];
      assert sent == s0 + (chunks + tail);
      ChunksHoldNoTerminal(it.entries[c0..it.cursor]);
      assert multiset(chunks + tail) == multiset(chunks) + multiset(tail);
      TerminalsAfter(s0, streamStart, chunks + tail);
    }

    /**
     * `stream`, as written: the 200 head announcing the chunked coding, then
     * the as-written `next`.
     */
    method StreamAsWritten(it: RocksDBIterator) returns (thrown: Option<Fault>)
      requires it.Valid()
      modifies this, it
      ensures iter == Some(it) && thrown.None? && it.Valid() && old(it.cursor) <= it.cursor
      ensures sent == old(sent) + [Head(200, "Transfer-Encoding: chunked")] + Chunks(it.entries[old(it.cursor)..it.cursor]) +
                      (if it.HasNext() then [] else [Data(EMPTY)])
      ensures old(room) + queued == room + old(queued) + (|sent| - |old(sent)|)
      ensures it.HasNext() ==> queued == old(queued) + 1
      ensures queued <= old(queued) + 2
      ensures old(Backpressure()) ==> Backpressure()
    {
      iter := Some(it);
      Write(Head(200, "Transfer-Encoding: chunked"));
      thrown := NextAsWritten();
    }

    /**
     * `stream`, on the corrected `next`: a new stream begins, possibly on a
     * kept-alive connection that already streamed; the head, then as many
     * chunks as the socket takes.
     */
    method Stream(it: RocksDBIterator) returns (thrown: Option<Fault>)
      requires Valid() && it.Valid() && it.cursor == 0
      modifies this, it
      ensures Valid() && iter == Some(it) && thrown.None? && streamStart == |old(sent)|
      ensures sent == old(sent) + [Head(200, "Transfer-Encoding: chunked")] + Chunks(it.entries[..it.cursor]) +
                      (if it.HasNext() then [] else [Data(EMPTY)])
      ensures ended <==> !it.HasNext()
      ensures old(room) + queued == room + old(queued) + (|sent| - |old(sent)|)
      ensures it.HasNext() ==> queued == old(queued) + 1
      ensures queued <= old(queued) + 2
    {
      iter := Some(it);
      ended := false;
      streamStart := |sent|;
      Write(Head(200, "Transfer-Encoding: chunked"));
      assert sent[streamStart..] == [Head(200, "Transfer-Encoding: chunked")];
      thrown := Next();
    }

    /**
     * `processWrite`, as written: the socket has drained and takes `room` more
     * frames (the flush one-nio performs first), then the as-written `next`,
     * which throws IllegalStateException on a session that never streamed.
     */
    method ProcessWriteAsWritten(room: nat) returns (thrown: Option<Fault>)
      requires iter.Some? ==> iter.value.Valid()
      modifies this, if iter.Some? then {iter.value} else {}
      ensures iter == old(iter) && Backpressure()
      ensures old(iter).None? ==> thrown == Some(IllegalState) && sent == old(sent)
      ensures iter.Some? ==>
        var it := iter.value;
        thrown.None? && it.Valid() && old(it.cursor) <= it.cursor &&
        sent == old(sent) + Chunks(it.entries[old(it.cursor)..it.cursor]) +
                (if it.HasNext() then [] else [Data(EMPTY)])
      ensures var flushed := if old(queued) <= room then old(queued) else room;
        room - flushed + queued == this.room + (old(queued) - flushed) + (|sent| - |old(sent)|)
    {
      var flushed := if queued <= room then queued else room;
      queued := queued - flushed;
      this.room := room - flushed;
      thrown := NextAsWritten();
    }

    /**
     * `processWrite`, on the corrected `next`: the flush, then `next`, which
     * writes nothing more once the stream's last chunk is out.
     */
    method ProcessWrite(room: nat) returns (thrown: Option<Fault>)
      requires Valid()
      modifies this, if iter.Some? then {iter.value} else {}
      ensures Valid() && iter == old(iter)
      ensures old(iter).None? ==> thrown == Some(IllegalState)
      ensures old(ended) ==> sent == old(sent)
      ensures iter.Some? ==>
        var it := iter.value;
        old(it.cursor) <= it.cursor &&
        sent == old(sent) + Chunks(it.entries[old(it.cursor)..it.cursor]) +
                (if it.HasNext() || old(ended) then [] else [Data(EMPTY)])
      ensures var flushed := if old(queued) <= room then old(queued) else room;
        room - flushed + queued == this.room + (old(queued) - flushed) + (|sent| - |old(sent)|)
    {
      var flushed := if queued <= room then queued else room;
      queued := queued - flushed;
      this.room := room - flushed;
      thrown := Next();
    }
  }

  /**
   * An empty range on a fresh session whose socket takes one frame, as
   * written: `stream` sends the head, and the last chunk waits in the queue;
   * the `processWrite` that drains it runs `next` again, which sends a second
   * last chunk.
   */
  method RepeatedLastChunk() returns (frames: seq<Frame>, queuedAfterStream: nat)
    ensures queuedAfterStream == 1
    ensures frames == [Head(200, "Transfer-Encoding: chunked"), Data(EMPTY), Data(EMPTY)]
  {
    var session := new StorageSession(1);
    var it := new RocksDBIterator.Over([]);
    var _ := session.StreamAsWritten(it);
    assert it.entries[..it.cursor] == [] && Chunks([]) == [];
    queuedAfterStream := session.queued;
    var _ := session.ProcessWriteAsWritten(1);
    assert it.entries[it.cursor..it.cursor] == [];
    frames := session.sent;
  }

  /** The same run with the corrected `next`: the drain writes nothing more. */
  method SingleLastChunk() returns (frames: seq<Frame>, queuedAfterStream: nat)
    ensures queuedAfterStream == 1
    ensures frames == [Head(200, "Transfer-Encoding: chunked"), Data(EMPTY)]
  {
    var session := new StorageSession(1);
    var it := new RocksDBIterator.Over([]);
    var _ := session.Stream(it);
    assert it.entries[..it.cursor] == [] && Chunks([]) == [];
    assert session.ended && session.sent == [Head(200, "Transfer-Encoding: chunked"), Data(EMPTY)];
    queuedAfterStream := session.queued;
    var _ := session.ProcessWrite(1);
    frames := session.sent;
  }
}
