/** A ring that holds the unread part of a stream, as values: what writing, reading and copying keep. */
module PcmFifo {
  import opened CIntegers

  /**
   * The stream refined by the ring: what was read is a prefix of what was written, and every frame
   * in between is in the slot of its position.
   */
  ghost predicate Window<Frame>(size: int, ring: seq<Frame>, stream: seq<Frame>, sink: seq<Frame>)
    requires 0 < size == |ring|
  {
    && |sink| <= |stream| <= |sink| + size
    && sink == stream[..|sink|]
    && forall k :: |sink| <= k < |stream| ==> ring[k % size] == stream[k]
  }

  /** The device records one frame into the slot behind the last one. */
  lemma RecordOne<Frame>(size: int, ring: seq<Frame>, stream: seq<Frame>, sink: seq<Frame>, x: Frame)
    requires 0 < size == |ring| && Window(size, ring, stream, sink) && |stream| < |sink| + size
    ensures Window(size, ring[|stream| % size := x], stream + [x], sink)
  {
    var after, longer := ring[|stream| % size := x], stream + [x];
    forall k | |sink| <= k < |longer|
      ensures after[k % size] == longer[k]
    {
      if k < |stream| {
        ModDistinct(k, |stream|, size);
      }
    }
  }

  /** A piece of the stream that was waiting is read. */
  lemma ReadPiece<Frame>(size: int, ring: seq<Frame>, stream: seq<Frame>, sink: seq<Frame>, piece: seq<Frame>)
    requires 0 < size == |ring| && Window(size, ring, stream, sink) && |sink| + |piece| <= |stream|
    requires piece == stream[|sink|..|sink| + |piece|]
    ensures Window(size, ring, stream, sink + piece)
  {
    assert sink + piece == stream[..|sink + piece|];
  }

  /** The slots of a contiguous piece hold the frames that wait at its place in the stream. */
  lemma WaitingPiece<Frame>(size: int, ring: seq<Frame>, stream: seq<Frame>, sink: seq<Frame>, count: nat)
    requires 0 < size == |ring| && Window(size, ring, stream, sink) && |sink| + count <= |stream|
    requires |sink| % size + count <= size
    ensures ring[|sink| % size..|sink| % size + count] == stream[|sink|..|sink| + count]
  {
    var slots, waiting := ring[|sink| % size..|sink| % size + count], stream[|sink|..|sink| + count];
    forall i | 0 <= i < count
      ensures slots[i] == waiting[i]
    {
      ModAdd(|sink|, i, size);
      var k := |sink| + i;
      assert ring[k % size] == stream[k];
    }
  }

  /** Overwriting free slots disturbs no waiting frame. */
  lemma WriteFreeSlots<Frame>(size: int, ring: seq<Frame>, after: seq<Frame>, stream: seq<Frame>, sink: seq<Frame>,
                              count: nat)
    requires 0 < size == |ring| == |after| && Window(size, ring, stream, sink)
    requires |stream| + count <= |sink| + size && |stream| % size + count <= size
    requires forall s :: 0 <= s < size && !(|stream| % size <= s < |stream| % size + count) ==> after[s] == ring[s]
    ensures Window(size, after, stream, sink)
  {
    forall k | |sink| <= k < |stream|
      ensures after[k % size] == stream[k]
    {
      RunAvoids(k, |stream|, count, size);
    }
  }

  /** A contiguous write behind the stream covers the slot of a frame that is still to be read. */
  ghost predicate Overwrites(size: int, written: nat, read: nat, count: nat)
    requires size > 0
  {
    exists k {:trigger k % size} :: read <= k < written && written % size <= k % size < written % size + count
  }

  /** It does so exactly when it is longer than the room left, and then the oldest unread frame is among those hit. */
  lemma OverwritesExactly(size: int, written: nat, read: nat, count: nat)
    requires 0 < size && read <= written <= read + size && written % size + count <= size
    ensures Overwrites(size, written, read, count) <==> count > size - (written - read)
    ensures Overwrites(size, written, read, count) ==> written % size <= read % size < written % size + count
  {
    var room := size - (written - read);
    if count > room {
      ModAdd(written, room, size);
      ModShift(read, 1, size);
      assert (written + room) % size == read % size;
      assert written % size <= read % size < written % size + count;
    } else {
      forall k | read <= k < written
        ensures !(written % size <= k % size < written % size + count)
      {
        RunAvoids(k, written, count, size);
      }
    }
  }

  /** A piece that lies in the slots behind the stream becomes part of it. */
  lemma AppendPiece<Frame>(size: int, ring: seq<Frame>, stream: seq<Frame>, sink: seq<Frame>, piece: seq<Frame>)
    requires 0 < size == |ring| && Window(size, ring, stream, sink)
    requires |stream| + |piece| <= |sink| + size && |stream| % size + |piece| <= size
    requires ring[|stream| % size..|stream| % size + |piece|] == piece
    ensures Window(size, ring, stream + piece, sink)
  {
    var longer := stream + piece;
    forall k | |sink| <= k < |longer|
      ensures ring[k % size] == longer[k]
    {
      if k >= |stream| {
        ModAdd(|stream|, k - |stream|, size);
        assert longer[k] == ring[|stream| % size..|stream| % size + |piece|][k - |stream|];
      }
    }
  }
}
