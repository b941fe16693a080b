/** A byte queue kept as a list of chunks, with a cached length and an optional limit. */
module VecBuf {
  import opened Prelude

  const MAX_SLICES := 64

  ghost predicate NoneEmpty(chunks: seq<seq<byte>>) {
    forall i :: 0 <= i < |chunks| ==> chunks[i] != []
  }

  /** What may still be appended under a limit when `len` bytes are stored. */
  function Allowed(limit: Option<nat>, len: nat, wanted: nat): (r: nat)
    ensures r <= wanted
    ensures limit.Some? && len <= limit.value ==> len + r <= limit.value
    ensures limit.Some? && len >= limit.value ==> r == 0
    ensures r < wanted ==> limit.Some? && len + r >= limit.value
  {
    if limit.Some? then Min(wanted, SaturatingSub(limit.value, len)) else wanted
  }

  /** The chunk list without its first `used` bytes: no empty chunk appears. */
  function Dropped(chunks: seq<seq<byte>>, used: nat): seq<seq<byte>> {
    if used == 0 || chunks == [] then chunks
    else if used < |chunks[0]| then [chunks[0][used..]] + chunks[1..]
    else Dropped(chunks[1..], used - |chunks[0]|)
  }

  lemma {:induction false} DroppedFlat(chunks: seq<seq<byte>>, used: nat)
    requires NoneEmpty(chunks) && used <= |Flat(chunks)|
    ensures NoneEmpty(Dropped(chunks, used))
    ensures Flat(Dropped(chunks, used)) == Flat(chunks)[used..]
  {
    if used != 0 && chunks != [] {
      if used < |chunks[0]| {
        var r := [chunks[0][used..]] + chunks[1..];
        assert r[1..] == chunks[1..];
      } else {
        DroppedFlat(chunks[1..], used - |chunks[0]|);
      }
    }
  }

  lemma NoneEmptyFlat(chunks: seq<seq<byte>>)
    requires NoneEmpty(chunks)
    ensures chunks == [] <==> Flat(chunks) == []
  {
    if chunks != [] {
      assert chunks[0] != [];
    }
  }

  lemma FlatSplit(chunks: seq<seq<byte>>, n: nat)
    requires n <= |chunks|
    ensures Flat(chunks) == Flat(chunks[..n]) + Flat(chunks[n..])
  {
    assert chunks == chunks[..n] + chunks[n..];
    FlatAppend(chunks[..n], chunks[n..]);
  }

  class ChunkVecBuffer {
    var chunks: seq<seq<byte>>
    var limit: Option<nat>
    var len: nat

    constructor (limit: Option<nat>)
      ensures Valid() && Bytes() == [] && chunks == [] && this.limit == limit
    {
      chunks, this.limit, len := [], limit, 0;
    }

    ghost predicate Valid()
      reads this
    {
      NoneEmpty(chunks) && len == |Flat(chunks)|
    }

    /** The queue this buffer stands for. */
    ghost function Bytes(): seq<byte>
      reads this
    {
      Flat(chunks)
    }

    method SetLimit(limit: Option<nat>)
      modifies this`limit
      ensures this.limit == limit
    {
      this.limit := limit;
    }

    method IsEmpty() returns (r: bool)
      requires Valid()
      ensures r <==> Bytes() == []
      ensures r <==> len == 0
    {
      NoneEmptyFlat(chunks);
      r := chunks == [];
    }

    method IsFull() returns (r: bool)
      requires Valid()
      ensures r <==> limit.Some? && |Bytes()| > limit.value
    {
      r := limit.Some? && len > limit.value;
    }

    method ApplyLimit(wanted: nat) returns (r: nat)
      requires Valid()
      ensures r == Allowed(limit, |Bytes()|, wanted)
    {
      r := wanted;
      if limit.Some? {
        var space := SaturatingSub(limit.value, len);
        r := Min(wanted, space);
      }
    }

    method Append(bytes: seq<byte>) returns (n: nat)
      requires Valid()
      modifies this`chunks, this`len
      ensures Valid() && n == |bytes|
      ensures Bytes() == old(Bytes()) + bytes
      ensures chunks == if bytes == [] then old(chunks) else old(chunks) + [bytes]
    {
      n := |bytes|;
      len := len + n;
      if bytes != [] {
        FlatPush(chunks, bytes);
        chunks := chunks + [bytes];
      }
    }

    /** Appends as much as the limit allows, and never lets the limit be crossed. */
    method AppendLimitedCopy(bytes: seq<byte>) returns (take: nat)
      requires Valid()
      modifies this`chunks, this`len
      ensures Valid() && take == Allowed(limit, |old(Bytes())|, |bytes|)
      ensures Bytes() == old(Bytes()) + bytes[..take]
      ensures chunks == if take == 0 then old(chunks) else old(chunks) + [bytes[..take]]
      ensures limit.Some? ==> |Bytes()| <= if |old(Bytes())| > limit.value then |old(Bytes())| else limit.value
    {
      take := ApplyLimit(|bytes|);
      var _ := Append(bytes[..take]);
    }

    method Pop() returns (chunk: Option<seq<byte>>)
      requires Valid()
      modifies this`chunks, this`len
      ensures Valid()
      ensures chunk.None? <==> old(Bytes()) == []
      ensures chunk.None? ==> chunks == old(chunks)
      ensures chunk.Some? ==> chunk.value != [] && [chunk.value] + chunks == old(chunks)
      ensures chunk.Some? ==> chunk.value + Bytes() == old(Bytes())
    {
      NoneEmptyFlat(chunks);
      if chunks == [] {
        return None;
      }
      chunk := Some(chunks[0]);
      assert chunks == [chunks[0]] + chunks[1..];
      len := len - |chunks[0]|;
      chunks := chunks[1..];
    }

    /** Drops the first `used` bytes, releasing whole chunks and the consumed part of one. */
    method Consume(used: nat)
      requires Valid() && used <= len
      modifies this`chunks, this`len
      ensures Valid() && Bytes() == old(Bytes())[used..]
    {
      ghost var before := chunks;
      DroppedFlat(before, used);
      len := len - used;
      var left: nat := used;
      while chunks != []
        invariant Dropped(chunks, left) == Dropped(before, used)
        decreases |chunks|
        modifies this`chunks
      {
        var buf := chunks[0];
        chunks := chunks[1..];
        if left == 0 {
          chunks := [buf] + chunks;
          break;
        }
        if left < |buf| {
          chunks := [buf[left..]] + chunks;
          left := 0;
          break;
        } else {
          left := left - |buf|;
        }
      }
      assert chunks == Dropped(chunks, left);
    }

    /** Fills `buf` from the front of the queue and removes what it copied. */
    method Read(buf: array<byte>) returns (offs: nat)
      requires Valid()
      modifies this`chunks, this`len, buf
      ensures Valid() && offs == Min(buf.Length, |old(Bytes())|)
      ensures buf[..offs] == old(Bytes())[..offs] && buf[offs..] == old(buf[offs..])
      ensures Bytes() == old(Bytes())[offs..]
    {
      offs := 0;
      NoneEmptyFlat(chunks);
      while offs < buf.Length && chunks != []
        invariant Valid() && offs <= buf.Length && offs <= |old(Bytes())|
        invariant Bytes() == old(Bytes())[offs..]
        invariant buf[..offs] == old(Bytes())[..offs] && buf[offs..] == old(buf[..])[offs..]
        decreases buf.Length - offs
      {
        var used := Min(|chunks[0]|, buf.Length - offs);
        var piece := chunks[0][..used];
        FlatSplit(chunks, 1);
        assert chunks[..1] == [chunks[0]] && Flat(chunks[..1]) == chunks[0];
        assert piece == Bytes()[..used];
        forall i | 0 <= i < used {
          buf[offs + i] := piece[i];
        }
        assert buf[..offs + used] == old(Bytes())[..offs] + piece;
        Consume(used);
        offs := offs + used;
      }
      NoneEmptyFlat(chunks);
    }

    /** Offers the first 64 chunks to a writer. `accepts` is how many of the offered bytes it takes, or
        None when it fails; exactly that prefix leaves the queue. */
    method WriteTo(accepts: Option<nat>) returns (used: Option<nat>, ghost written: seq<byte>)
      requires Valid()
      requires accepts.Some? ==> accepts.value <= |Flat(chunks[..Min(MAX_SLICES, |chunks|)])|
      modifies this`chunks, this`len
      ensures Valid() && written + Bytes() == old(Bytes())
      ensures used == if old(Bytes()) == [] then Some(0) else accepts
      ensures |written| == if used.Some? then used.value else 0
    {
      NoneEmptyFlat(chunks);
      if chunks == [] {
        return Some(0), [];
      }
      if accepts.None? {
        return None, [];
      }
      FlatSplit(chunks, Min(MAX_SLICES, |chunks|));
      written := Bytes()[..accepts.value];
      Consume(accepts.value);
      used := accepts;
    }
  }
}
