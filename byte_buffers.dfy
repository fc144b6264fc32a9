/**
 * The part of java.nio.ByteBuffer the store adapter and the streamer rely on:
 * a window `[position, limit)` over a backing array, `wrap`, `duplicate`
 * (a second cursor over the same array) and the bulk `get` and `put`.
 */
module ByteBuffers {
  import opened JavaTypes

  class ByteBuffer {
    const hb: array<Byte>
    var position: nat
    var limit: nat

    ghost predicate Valid()
      reads this
    {
      position <= limit <= hb.Length
    }

    /** The bytes between the cursor and the limit. */
    function Remaining(): (s: Bytes)
      reads this, hb
      requires Valid()
      ensures |s| == limit - position
    {
      hb[position..limit]
    }

    /** `ByteBuffer.wrap(array)`: a window over the whole array. */
    constructor Wrap(arr: array<Byte>)
      ensures Valid() && hb == arr && position == 0 && limit == arr.Length
      ensures Remaining() == arr[..]
    {
      hb := arr;
      position := 0;
      limit := arr.Length;
    }

    /** `duplicate()`: an independent cursor over the same backing array. */
    method Duplicate() returns (d: ByteBuffer)
      requires Valid()
      ensures fresh(d) && d.Valid()
      ensures d.hb == hb && d.position == position && d.limit == limit
      ensures d.Remaining() == Remaining()
    {
      d := new ByteBuffer.Wrap(hb);
      d.position := position;
      d.limit := limit;
    }

    /** Bulk `get(dst)`: copies the next dst.Length bytes and advances the cursor past them. */
    method Get(dst: array<Byte>)
      requires Valid() && dst != hb
      requires dst.Length <= limit - position
      modifies this, dst
      ensures Valid() && limit == old(limit)
      ensures position == old(position) + dst.Length
      ensures dst[..] == old(hb[position..position + dst.Length])
    {
      var i := 0;
      while i < dst.Length
        invariant 0 <= i <= dst.Length
        invariant position == old(position) && limit == old(limit)
        invariant dst[..i] == hb[position..position + i]
        invariant forall j :: 0 <= j < hb.Length ==> hb[j] == old(hb[j])
      {
        dst[i] := hb[position + i];
        assert dst[..i + 1] == dst[..i] + [dst[i]];
        i := i + 1;
      }
      assert dst[..] == dst[..dst.Length];
      assert hb[..] == old(hb[..]);
      position := position + dst.Length;
    }

    /** Bulk `put(src)`: copies src at the cursor and advances it; src must fit. */
    method Put(src: Bytes)
      requires Valid()
      requires |src| <= limit - position
      modifies this, hb
      ensures Valid() && limit == old(limit)
      ensures position == old(position) + |src|
      ensures hb[old(position)..position] == src
      ensures hb[..position] == old(hb[..position]) + src
      ensures forall j :: 0 <= j < hb.Length && !(old(position) <= j < position) ==> hb[j] == old(hb[j])
    {
      var p := position;
      for i := 0 to |src|
        invariant position == p && limit == old(limit)
        invariant hb[p..p + i] == src[..i]
        invariant forall j :: 0 <= j < hb.Length && !(p <= j < p + i) ==> hb[j] == old(hb[j])
      {
        hb[p + i] := src[i];
        assert hb[p..p + i + 1] == hb[p..p + i] + [src[i]];
      }
      assert hb[..p] == old(hb[..p]) by {
        forall j | 0 <= j < p
          ensures hb[..p][j] == old(hb[..p])[j]
        {
          assert hb[j] == old(hb[j]);
        }
      }
      assert hb[..p + |src|] == hb[..p] + hb[p..p + |src|];
      position := p + |src|;
    }
  }
}
