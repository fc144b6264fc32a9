/**
 * The local store adapter. Keys are stored with the sign bit of every byte
 * flipped, so that a bytewise (unsigned) comparator orders the stored keys as
 * the original keys compare as signed bytes. The store itself is a map from
 * encoded key to stored bytes; the timestamped operations store the encoding
 * of a versioned value, and the iterator walks stored entries in the order the
 * store hands them out, decoding each key on the way.
 */
module SimpleDao {
  import opened Wrappers
  import opened JavaTypes
  import opened ByteBuffers
  import opened Timestamps

  // ---------------------------------------------------------------------------
  // The key transform

  /** `(byte) (b - Byte.MIN_VALUE)`: the byte whose unsigned value is b + 128. */
  function MinusMinValue(b: Byte): (e: Byte)
    ensures Unsigned(e) == b as int + 128
  {
    ToByte(b - BYTE_MIN)
  }

  /** `(byte) (e + Byte.MIN_VALUE)`: the signed byte 128 below e read as unsigned. */
  function PlusMinValue(e: Byte): (b: Byte)
    ensures b == Unsigned(e) - 128
  {
    ToByte(e + BYTE_MIN)
  }

  function EncodeKey(k: Bytes): (e: Bytes)
    ensures |e| == |k|
    ensures forall i :: 0 <= i < |k| ==> Unsigned(e[i]) == k[i] as int + 128
  {
    seq(|k|, i requires 0 <= i < |k| => MinusMinValue(k[i]))
  }

  function DecodeKey(e: Bytes): (k: Bytes)
    ensures |k| == |e|
    ensures forall i :: 0 <= i < |e| ==> k[i] == Unsigned(e[i]) - 128
  {
    seq(|e|, i requires 0 <= i < |e| => PlusMinValue(e[i]))
  }

  /** A key read back from the store is the key that was written. */
  lemma DecodeEncodeKey(k: Bytes)
    ensures DecodeKey(EncodeKey(k)) == k
  {
  }

  /** Every stored key is the encoding of the key it decodes to. */
  lemma EncodeDecodeKey(e: Bytes)
    ensures EncodeKey(DecodeKey(e)) == e
  {
    var k := EncodeKey(DecodeKey(e));
    forall i | 0 <= i < |e|
      ensures k[i] == e[i]
    {
      ToByteOfUnsigned(e[i]);
      assert Unsigned(k[i]) == Unsigned(e[i]);
    }
  }

  lemma EncodeKeyInjective(a: Bytes, b: Bytes)
    ensures EncodeKey(a) == EncodeKey(b) <==> a == b
  {
    if EncodeKey(a) == EncodeKey(b) {
      DecodeEncodeKey(a);
      DecodeEncodeKey(b);
    }
  }

  /** Lexicographic order over signed bytes (a proper prefix comes first), as ByteBuffer.compareTo orders keys. */
  predicate SignedLess(a: Bytes, b: Bytes)
  {
    if a == [] then b != []
    else if b == [] then false
    else if a[0] != b[0] then a[0] < b[0]
    else SignedLess(a[1..], b[1..])
  }

  /** Lexicographic order over unsigned bytes, as RocksDB's bytewise comparator orders stored keys. */
  predicate UnsignedLess(a: Bytes, b: Bytes)
  {
    if a == [] then b != []
    else if b == [] then false
    else if Unsigned(a[0]) != Unsigned(b[0]) then Unsigned(a[0]) < Unsigned(b[0])
    else UnsignedLess(a[1..], b[1..])
  }

  /** The store orders encoded keys exactly as the original keys compare as signed bytes. */
  lemma {:induction false} EncodedOrderIsSignedOrder(a: Bytes, b: Bytes)
    ensures UnsignedLess(EncodeKey(a), EncodeKey(b)) <==> SignedLess(a, b)
  {
    if a != [] && b != [] {
      assert EncodeKey(a)[1..] == EncodeKey(a[1..]);
      assert EncodeKey(b)[1..] == EncodeKey(b[1..]);
      EncodedOrderIsSignedOrder(a[1..], b[1..]);
    }
  }

  // ---------------------------------------------------------------------------
  // Copying buffers

  /** `getArray`: a fresh array holding the buffer's remaining bytes; the buffer itself is not touched. */
  method GetArray(buffer: ByteBuffer) returns (body: array<Byte>)
    requires buffer.Valid()
    ensures fresh(body) && body[..] == buffer.Remaining()
  {
    var duplicate := buffer.Duplicate();
    body := new Byte[duplicate.limit - duplicate.position];
    duplicate.Get(body);
  }

  /** `getArrayByteMinusMinValue`: the encoded key, built in place in a fresh copy. */
  method GetArrayByteMinusMinValue(buffer: ByteBuffer) returns (body: array<Byte>)
    requires buffer.Valid()
    ensures fresh(body) && body[..] == EncodeKey(buffer.Remaining())
  {
    body := GetArray(buffer);
    ghost var original := body[..];
    for i := 0 to body.Length
      invariant forall j :: 0 <= j < i ==> body[j] == MinusMinValue(original[j])
      invariant forall j :: i <= j < body.Length ==> body[j] == original[j]
    {
      body[i] := ToByte(body[i] - BYTE_MIN);
    }
  }

  /** `RocksDBIterator.getByteBufferPlusMinValue`: a clone of the stored key, decoded in place and wrapped. */
  method GetByteBufferPlusMinValue(byteArray: array<Byte>) returns (buffer: ByteBuffer)
    ensures fresh(buffer) && fresh(buffer.hb) && buffer.Valid()
    ensures buffer.Remaining() == DecodeKey(byteArray[..])
  {
    var body := new Byte[byteArray.Length](i reads byteArray requires 0 <= i < byteArray.Length => byteArray[i]);
    for i := 0 to body.Length
      invariant forall j :: 0 <= j < i ==> body[j] == PlusMinValue(byteArray[j])
      invariant forall j :: i <= j < body.Length ==> body[j] == byteArray[j]
    {
      body[i] := ToByte(body[i] + BYTE_MIN);
    }
    buffer := new ByteBuffer.Wrap(body);
  }

  /** A fresh array holding the given bytes, as the store's native calls hand them out. */
  method NewArray(s: Bytes) returns (a: array<Byte>)
    ensures fresh(a) && a[..] == s
  {
    a := new Byte[|s|](i requires 0 <= i < |s| => s[i]);
  }

  // ---------------------------------------------------------------------------
  // The store

  /** The stored bytes under key k, if any. */
  function Lookup(db: map<Bytes, Bytes>, k: Bytes): (r: Option<Bytes>)
    ensures r.Some? <==> EncodeKey(k) in db
  {
    if EncodeKey(k) in db then Some(db[EncodeKey(k)]) else None
  }

  /** What `getWithTimestamp(k)` returns for a store holding db. */
  function Read(db: map<Bytes, Bytes>, k: Bytes): (r: Result<Timestamp, Fault>)
    ensures EncodeKey(k) !in db ==> r == Ok(GetAbsent())
    ensures r.Err? ==> r.error == BufferUnderflow && |db[EncodeKey(k)]| < 9
  {
    FromBytes(Lookup(db, k))
  }

  class SimpleDAO {
    /** Encoded key to stored bytes. */
    var db: map<Bytes, Bytes>

    constructor Open(contents: map<Bytes, Bytes>)
      ensures db == contents
    {
      db := contents;
    }

    /** `get`: the stored bytes, or NoSuchElementLite for an unknown key. */
    method Get(key: ByteBuffer) returns (r: Result<ByteBuffer, Fault>)
      requires key.Valid()
      ensures r.Err? <==> Lookup(db, key.Remaining()).None?
      ensures r.Err? ==> r.error == NoSuchElement
      ensures r.Ok? ==> fresh(r.value) && r.value.Valid() && r.value.Remaining() == Lookup(db, key.Remaining()).value
    {
      var k := GetArrayByteMinusMinValue(key);
      if k[..] !in db {
        return Err(NoSuchElement);
      }
      var value := NewArray(db[k[..]]);
      var wrapped := new ByteBuffer.Wrap(value);
      return Ok(wrapped);
    }

    /** `getWithTimestamp`: the stored bytes decoded as a versioned value (ABSENT when nothing is stored). */
    method GetWithTimestamp(key: ByteBuffer) returns (r: Result<Timestamp, Fault>)
      requires key.Valid()
      ensures r == Read(db, key.Remaining())
    {
      var k := GetArrayByteMinusMinValue(key);
      if k[..] in db {
        r := FromBytes(Some(db[k[..]]));
      } else {
        r := FromBytes(None);
      }
    }

    /** `upsert`: stores the value's bytes as they are. */
    method Upsert(key: ByteBuffer, value: ByteBuffer)
      requires key.Valid() && value.Valid()
      modifies this
      ensures db == old(db)[EncodeKey(key.Remaining()) := value.Remaining()]
    {
      var k := GetArrayByteMinusMinValue(key);
      var v := GetArray(value);
      db := db[k[..] := v[..]];
    }

    /** `upsertWithTimestamp`: stores the encoding of the value written at time now. */
    method UpsertWithTimestamp(key: ByteBuffer, value: ByteBuffer, now: Int64)
      requires key.Valid() && value.Valid()
      modifies this
      ensures db == old(db)[EncodeKey(key.Remaining()) := ToBytes(FromPresent(value.Remaining(), now))]
    {
      var k := GetArrayByteMinusMinValue(key);
      db := db[k[..] := ToBytes(FromPresent(value.Remaining(), now))];
    }

    /** `remove`: deletes the entry. */
    method Remove(key: ByteBuffer)
      requires key.Valid()
      modifies this
      ensures db == old(db) - {EncodeKey(key.Remaining())}
    {
      var k := GetArrayByteMinusMinValue(key);
      db := db - {k[..]};
    }

    /** `removeWithTimestamp`: stores a tombstone written at time now instead of deleting. */
    method RemoveWithTimestamp(key: ByteBuffer, now: Int64)
      requires key.Valid()
      modifies this
      ensures db == old(db)[EncodeKey(key.Remaining()) := ToBytes(Tombstone(now))]
    {
      var k := GetArrayByteMinusMinValue(key);
      db := db[k[..] := ToBytes(Tombstone(now))];
    }
  }

  /** A value written with a timestamp is read back PRESENT, with that payload and that time. */
  lemma ReadAfterUpsertWithTimestamp(db: map<Bytes, Bytes>, k: Bytes, v: Bytes, now: Int64)
    ensures Read(db[EncodeKey(k) := ToBytes(FromPresent(v, now))], k) == Ok(Present(now, v))
  {
    DecodeEncode(Present(now, v));
  }

  /** A timestamped removal leaves a tombstone: the key reads REMOVED, not ABSENT. */
  lemma ReadAfterRemoveWithTimestamp(db: map<Bytes, Bytes>, k: Bytes, now: Int64)
    ensures Read(db[EncodeKey(k) := ToBytes(Tombstone(now))], k) == Ok(Removed(now))
  {
    DecodeEncode(Removed(now));
  }

  /** A plain removal deletes: the key reads ABSENT. */
  lemma ReadAfterRemove(db: map<Bytes, Bytes>, k: Bytes)
    ensures Read(db - {EncodeKey(k)}, k) == Ok(GetAbsent())
  {
  }

  /** A write under one key leaves every other key reading as before. */
  lemma WriteIsolation(db: map<Bytes, Bytes>, k: Bytes, stored: Bytes, other: Bytes)
    requires other != k
    ensures Read(db[EncodeKey(k) := stored], other) == Read(db, other)
    ensures Read(db - {EncodeKey(k)}, other) == Read(db, other)
  {
    EncodeKeyInjective(k, other);
  }

  /** A stored entry as the iterator hands it out: decoded key and raw value. */
  datatype Record = Record(key: ByteBuffer, value: ByteBuffer)

  /**
   * `RocksDBIterator`: a cursor over the stored entries (encoded key, value),
   * in the order the store yields them.
   */
  class RocksDBIterator {
    const entries: seq<(Bytes, Bytes)>
    var cursor: nat

    ghost predicate Valid()
      reads this
    {
      cursor <= |entries|
    }

    constructor Over(entries: seq<(Bytes, Bytes)>)
      ensures Valid() && this.entries == entries && cursor == 0
    {
      this.entries := entries;
      cursor := 0;
    }

    /** `hasNext` */
    predicate HasNext()
      reads this
    {
      cursor < |entries|
    }

    /** `next`: the entry under the cursor, key decoded, then advance; IllegalStateException when exhausted. */
    method Next() returns (r: Result<Record, Fault>)
      requires Valid()
      modifies this
      ensures Valid()
      ensures r.Ok? <==> old(HasNext())
      ensures r.Err? ==> r.error == IllegalState && cursor == old(cursor)
      ensures r.Ok? ==> cursor == old(cursor) + 1
      ensures r.Ok? ==>
        var rec := r.value;
        fresh(rec.key) && fresh(rec.key.hb) && fresh(rec.value) && fresh(rec.value.hb) &&
        rec.key.hb != rec.value.hb && rec.key.Valid() && rec.value.Valid() &&
        rec.key.Remaining() == DecodeKey(entries[old(cursor)].0) &&
        rec.value.Remaining() == entries[old(cursor)].1
    {
      if !HasNext() {
        return Err(IllegalState);
      }
      var stored := NewArray(entries[cursor].0);
      var key := GetByteBufferPlusMinValue(stored);
      var raw := NewArray(entries[cursor].1);
      var value := new ByteBuffer.Wrap(raw);
      cursor := cursor + 1;
      return Ok(Record(key, value));
    }
  }
}
