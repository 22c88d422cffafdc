/**
 * The memory-mapped PCM ring of src/pcm.c: one application and one device move 32-bit
 * pointers over a ring of `bufferSize` frames, in either direction.
 *
 * The device runs between the application's statements. It is modelled by a nondeterministic
 * number of single-frame steps at every pcm_sync_ptr, the only point where the application
 * looks at the hardware pointer.
 */
module Pcm {
  import opened CIntegers
  import opened PcmFifo
  import opened PcmPointers

  datatype Outcome = Finished | StartFailed | WaitFailed | TransferFailed

  /** What a round of the transfer loop decides after measuring the space. */
  datatype Verdict = Proceed(avail: nat) | Retry | Stop(outcome: Outcome)

  /** A contiguous piece of the ring. */
  datatype Piece = Piece(offset: nat, frames: nat)

  ghost predicate InRing(pieces: seq<Piece>, size: nat, nonEmpty: bool) {
    forall i :: 0 <= i < |pieces| ==> pieces[i].offset + pieces[i].frames <= size && (nonEmpty ==> 0 < pieces[i].frames)
  }

  lemma OneMorePiece(pieces: seq<Piece>, p: Piece, size: nat, nonEmpty: bool)
    requires InRing(pieces, size, nonEmpty) && p.offset + p.frames <= size && (nonEmpty ==> 0 < p.frames)
    ensures InRing(pieces + [p], size, nonEmpty)
  {
  }

  /** From one pair of histories to the next: the application has moved this piece, the device any number of frames. */
  ghost predicate Transferred<Frame>(capture: bool, stream0: seq<Frame>, sink0: seq<Frame>,
                                     stream: seq<Frame>, sink: seq<Frame>, piece: seq<Frame>) {
    if capture then sink == sink0 + piece && stream0 <= stream else stream == stream0 + piece && sink0 <= sink
  }

  lemma TransferredTwice<Frame>(capture: bool, stream0: seq<Frame>, sink0: seq<Frame>, stream1: seq<Frame>,
                                sink1: seq<Frame>, stream2: seq<Frame>, sink2: seq<Frame>, piece: seq<Frame>,
                                next: seq<Frame>)
    requires Transferred(capture, stream0, sink0, stream1, sink1, piece)
    requires Transferred(capture, stream1, sink1, stream2, sink2, next)
    ensures Transferred(capture, stream0, sink0, stream2, sink2, piece + next)
  {
  }

  /** Outside the frames from `start` to `end` a buffer is as it was, and everywhere when it is only read. */
  ghost predicate OnlyFilled<Frame>(filled: bool, before: seq<Frame>, after: seq<Frame>, start: nat, end: nat) {
    && |after| == |before|
    && (!filled ==> after == before)
    && forall k :: 0 <= k < |after| && !(start <= k < end) ==> after[k] == before[k]
  }

  lemma FilledTwice<Frame>(capture: bool, before: seq<Frame>, middle: seq<Frame>, after: seq<Frame>, start: nat,
                           offset: nat, end: nat)
    requires start <= offset <= end <= |before|
    requires OnlyFilled(capture, before, middle, start, offset) && OnlyFilled(capture, middle, after, offset, end)
    ensures OnlyFilled(capture, before, after, start, end)
    ensures after[start..end] == middle[start..offset] + after[offset..end]
  {
  }

  /** Histories of both directions, and the caller's buffer. */
  datatype Snapshot<Frame> = Snapshot(stream: seq<Frame>, sink: seq<Frame>, buf: seq<Frame>)

  /** The frames of the buffer from `start` to `end` were moved, and nothing else by the application. */
  ghost predicate MovedFrames<Frame>(capture: bool, before: Snapshot<Frame>, after: Snapshot<Frame>, start: nat,
                                     end: nat)
  {
    && start <= end <= |after.buf| == |before.buf|
    && Transferred(capture, before.stream, before.sink, after.stream, after.sink, after.buf[start..end])
    && OnlyFilled(capture, before.buf, after.buf, start, end)
  }

  /** Two stretches of frames moved one behind the other are one stretch. */
  lemma MovedTwice<Frame>(capture: bool, first: Snapshot<Frame>, second: Snapshot<Frame>, third: Snapshot<Frame>,
                          start: nat, offset: nat, end: nat)
    requires MovedFrames(capture, first, second, start, offset) && MovedFrames(capture, second, third, offset, end)
    ensures MovedFrames(capture, first, third, start, end)
  {
    FilledTwice(capture, first.buf, second.buf, third.buf, start, offset, end);
    TransferredTwice(capture, first.stream, first.sink, second.stream, second.sink, third.stream, third.sink,
                     second.buf[start..offset], third.buf[offset..end]);
  }

  /** The device alone moves no frame of the caller's. */
  lemma DeviceMoved<Frame>(capture: bool, first: Snapshot<Frame>, second: Snapshot<Frame>, third: Snapshot<Frame>,
                           start: nat, offset: nat)
    requires MovedFrames(capture, first, second, start, offset)
    requires Transferred(capture, second.stream, second.sink, third.stream, third.sink, []) && third.buf == second.buf
    ensures MovedFrames(capture, first, third, start, offset)
  {
    assert third.buf[offset..offset] == [];
    MovedTwice(capture, first, second, third, start, offset, offset);
  }

  class Pcm<Frame(0)> {
    const capture: bool          // PCM_IN is set
    const bufferSize: u32
    const boundary: u32
    const startThreshold: u32
    const availMin: int
    const ring: array<Frame>     // mmap_buffer
    var running: bool
    var waitForAvailMin: bool
    var hwPtr: u32
    var applPtr: u32

    /** How many more times the environment may fail to make progress; every finite run has some such number. */
    var stalls: nat

    ghost var stream: seq<Frame> // every frame put into the ring so far
    ghost var sink: seq<Frame>   // every frame taken out of it so far
    ghost var lost: bool         // an unread frame was overwritten, or the pointer lost its step with the stream

    /** Absolute positions: the producer has written |stream| frames, the consumer has read |sink|. */
    ghost function HwPos(): nat
      reads this`stream, this`sink
    {
      if capture then |stream| else |sink|
    }

    ghost function AppPos(): nat
      reads this`stream, this`sink
    {
      if capture then |sink| else |stream|
    }

    ghost function Seen(buf: array<Frame>): Snapshot<Frame>
      reads this`stream, this`sink, buf
    {
      Snapshot(stream, sink, buf[..])
    }

    ghost predicate Valid()
      reads this`hwPtr, this`applPtr, this`stream, this`sink, this`lost, ring
    {
      && LegalSizes(bufferSize, boundary)
      && LegalPointers(hwPtr, applPtr, boundary)
      && ring.Length == bufferSize
      && (!lost ==>
            && Window(bufferSize, ring[..], stream, sink)
            && hwPtr % boundary == HwPos() % boundary
            && applPtr % boundary == AppPos() % boundary)
    }

    /** The frames the application can transfer without harm: free ones to write, filled ones to read. */
    ghost function Room(): int
      reads this`stream, this`sink
    {
      if capture then |stream| - |sink| else bufferSize - (|stream| - |sink|)
    }

    /** The frames the device can still move before it has to wait for the application. */
    function Limit(): (n: nat)
      requires boundary > 0
      reads this`hwPtr, this`applPtr
    {
      if capture then
        var filled := Distance(hwPtr, applPtr, boundary);
        if filled <= bufferSize then bufferSize - filled else 0
      else
        Distance(applPtr, hwPtr, boundary)
    }

    /**
     * The tail of pcm_open: refined sizes, the boundary loop, an empty ring and pointers at zero. The pointer
     * arithmetic below is sound exactly when three buffers fit an int.
     */
    constructor (capture: bool, periodSize: u32, periodCount: u32, startThreshold: u32, availMin: int, stalls: nat)
      requires Ends(Wrap(periodCount * periodSize))
      ensures Valid() <==> 3 * bufferSize <= INT_MAX
      ensures fresh(ring) && ring.Length == bufferSize && !lost && !running && !waitForAvailMin && hwPtr == applPtr == 0
      ensures this.capture == capture && bufferSize == Wrap(periodCount * periodSize) && stream == [] && sink == []
      ensures bufferSize <= INT_MAX ==> exists k :: IsBoundary(bufferSize, boundary, k)
      ensures this.availMin == (if availMin == 0 then periodSize else availMin)
      ensures this.startThreshold == (if startThreshold != 0 then startThreshold
                                      else if capture then 1
                                      else bufferSize / 2)
      ensures this.stalls == stalls
    {
      var size: u32 := Wrap(periodCount * periodSize);
      EndsExactly(size);
      var limit, k := PickBoundary(size);
      this.capture := capture;
      this.bufferSize, this.boundary := size, limit;
      this.startThreshold := if startThreshold != 0 then startThreshold else if capture then 1 else size / 2;
      this.availMin := if availMin == 0 then periodSize else availMin;
      this.ring := new Frame[size];
      this.running, this.waitForAvailMin := false, false;
      this.hwPtr, this.applPtr, this.stalls := 0, 0, stalls;
      this.stream, this.sink, this.lost := [], [], false;
    }

    // ---------------------------------------------------------------- pointers and positions

    lemma FillIsDistance()
      requires Valid() && !lost
      ensures capture ==> Distance(hwPtr, applPtr, boundary) == |stream| - |sink|
      ensures !capture ==> Distance(applPtr, hwPtr, boundary) == |stream| - |sink|
      ensures Limit() == bufferSize - Room()
    {
      if capture {
        ModSub(hwPtr, applPtr, HwPos(), AppPos(), boundary);
      } else {
        ModSub(applPtr, hwPtr, AppPos(), HwPos(), boundary);
      }
      DivModUnique(0, |stream| - |sink|, boundary);
    }

    lemma CornerIsFull()
      requires Valid() && !lost && !capture && Corner(hwPtr, applPtr, bufferSize, boundary)
      ensures |stream| - |sink| == bufferSize && applPtr < bufferSize
    {
      FillIsDistance();
      PlaybackAvailExact(hwPtr, applPtr, bufferSize, boundary);
      FullRingCorner(hwPtr, applPtr, bufferSize, boundary);
    }

    lemma SlotOf(ptr: int, pos: nat)
      requires LegalSizes(bufferSize, boundary) && ptr % boundary == pos % boundary
      ensures ptr % bufferSize == pos % bufferSize
    {
      ModMod(ptr, pos, boundary, bufferSize);
    }

    // ---------------------------------------------------------------- the device

    /** The device moves one frame: it plays the frame in its slot, or records one into it. */
    method HardwareTick()
      requires Valid() && Limit() > 0
      modifies this`hwPtr, this`stream, this`sink, ring
      ensures Valid()
      ensures Limit() == old(Limit()) - 1
      ensures capture ==> sink == old(sink) && |stream| == old(|stream|) + 1 && old(stream) <= stream
      ensures !capture ==> stream == old(stream) && |sink| == old(|sink|) + 1 && old(sink) <= sink
      ensures !capture ==> ring[..] == old(ring[..])
    {
      TickPointer(HwPos());
      if !lost {
        FillIsDistance();
        SlotOf(hwPtr, HwPos());
      }
      if capture {
        RecordFrame();
      } else {
        PlayFrame();
      }
      hwPtr := if hwPtr + 1 == boundary then 0 else hwPtr + 1;
    }

    /** The device records a frame into its slot. */
    method RecordFrame()
      requires LegalSizes(bufferSize, boundary) && ring.Length == bufferSize
      requires !lost ==> Window(bufferSize, ring[..], stream, sink) && |stream| < |sink| + bufferSize
      requires !lost ==> hwPtr % bufferSize == |stream| % bufferSize
      modifies this`stream, ring
      ensures |stream| == old(|stream|) + 1 && old(stream) <= stream
      ensures !lost ==> Window(bufferSize, ring[..], stream, sink)
    {
      ghost var before := ring[..];
      var recorded: Frame := *;
      if !lost {
        RecordOne(bufferSize, ring[..], stream, sink, recorded);
      }
      ring[hwPtr % bufferSize] := recorded;
      stream := stream + [recorded];
      assert ring[..] == before[hwPtr % bufferSize := recorded];
    }

    /** The device plays the frame in its slot. */
    method PlayFrame()
      requires LegalSizes(bufferSize, boundary) && ring.Length == bufferSize
      requires !lost ==> Window(bufferSize, ring[..], stream, sink) && |sink| < |stream|
      requires !lost ==> hwPtr % bufferSize == |sink| % bufferSize
      modifies this`sink
      ensures |sink| == old(|sink|) + 1 && old(sink) <= sink
      ensures !lost ==> Window(bufferSize, ring[..], stream, sink)
    {
      if !lost {
        assert ring[hwPtr % bufferSize] == stream[|sink|];
        ReadPiece(bufferSize, ring[..], stream, sink, [stream[|sink|]]);
      }
      sink := sink + [ring[hwPtr % bufferSize]];
    }

    lemma TickPointer(pos: nat)
      requires Valid() && Limit() > 0
      ensures var next := if hwPtr + 1 == boundary then 0 else hwPtr + 1;
              && (hwPtr % boundary == pos % boundary ==> next % boundary == (pos + 1) % boundary)
              && Distance(applPtr, next, boundary) == (if Distance(applPtr, hwPtr, boundary) == 0 then boundary - 1
                                                       else Distance(applPtr, hwPtr, boundary) - 1)
              && Distance(next, applPtr, boundary) == (if Distance(hwPtr, applPtr, boundary) == boundary - 1 then 0
                                                       else Distance(hwPtr, applPtr, boundary) + 1)
    {
      var next := if hwPtr + 1 == boundary then 0 else hwPtr + 1;
      DistanceCases(applPtr, hwPtr, boundary);
      DistanceCases(applPtr, next, boundary);
      DistanceCases(hwPtr, applPtr, boundary);
      DistanceCases(next, applPtr, boundary);
      if hwPtr % boundary == pos % boundary {
        ModSub(hwPtr, -1, pos, -1, boundary);
        if hwPtr + 1 == boundary {
          ModShift(0, 1, boundary);
        }
      }
    }

    /** pcm_sync_ptr: the device has moved on by any number of frames, stalling only finitely often. */
    method SyncPtr()
      requires Valid()
      modifies this`hwPtr, this`stream, this`sink, this`stalls, ring
      ensures Valid()
      ensures Limit() <= old(Limit()) && stalls <= old(stalls)
      ensures old(Limit()) > 0 ==> Limit() < old(Limit()) || stalls < old(stalls)
      ensures capture ==> sink == old(sink) && old(stream) <= stream
      ensures !capture ==> stream == old(stream) && old(sink) <= sink && ring[..] == old(ring[..])
    {
      assert Limit() > 0 ==> 1 <= Limit();
      var n: nat :| n <= Limit() && (n == 0 && Limit() > 0 ==> stalls > 0);
      if n == 0 && Limit() > 0 {
        stalls := stalls - 1;
      }
      ghost var left := stalls;
      for i := 0 to n
        invariant stalls == left
        invariant Valid() && Limit() == old(Limit()) - i
        invariant capture ==> sink == old(sink) && old(stream) <= stream
        invariant !capture ==> stream == old(stream) && old(sink) <= sink && ring[..] == old(ring[..])
      {
        HardwareTick();
      }
    }

    // ---------------------------------------------------------------- the application

    /** pcm_mmap_avail, after its pcm_sync_ptr: exact unless the pointers are in the corner. */
    method MmapAvail() returns (avail: nat)
      requires Valid()
      ensures avail <= boundary
      ensures !capture ==> avail == PlaybackAvail(hwPtr, applPtr, bufferSize, boundary)
      ensures avail == 0 ==> Limit() > 0
      ensures !lost ==> (avail == Room() <==> capture || !Corner(hwPtr, applPtr, bufferSize, boundary))
      ensures !lost && avail != Room() ==> Room() == 0 && avail == boundary
    {
      if !lost {
        FillIsDistance();
      }
      if capture {
        CaptureAvailExact(hwPtr, applPtr, bufferSize, boundary);
        avail := CaptureAvail(hwPtr, applPtr, boundary);
      } else {
        PlaybackAvailRange(hwPtr, applPtr, bufferSize, boundary);
        if !lost {
          PlaybackAvailExact(hwPtr, applPtr, bufferSize, boundary);
        }
        avail := PlaybackAvail(hwPtr, applPtr, bufferSize, boundary);
      }
    }

    /** pcm_mmap_begin: the next contiguous piece of the ring. */
    method MmapBegin(wanted: u32) returns (offset: u32, frames: u32)
      requires Valid()
      modifies this`hwPtr, this`stream, this`sink, this`stalls, ring
      ensures Valid()
      ensures offset == applPtr % bufferSize && offset + frames <= bufferSize && frames <= wanted
      ensures !lost && (capture || !Corner(hwPtr, applPtr, bufferSize, boundary)) ==>
                frames == Min(wanted, Min(Room(), bufferSize - offset))
      ensures !lost ==> (frames > Room() <==> wanted > 0 && !capture && Corner(hwPtr, applPtr, bufferSize, boundary))
      ensures !capture ==> frames == PieceFrames(hwPtr, applPtr, wanted, bufferSize, boundary)
      ensures Limit() <= old(Limit()) && stalls <= old(stalls)
      ensures frames == 0 < wanted ==> Limit() < old(Limit()) || stalls < old(stalls)
      ensures Transferred(capture, old(stream), old(sink), stream, sink, []) && Room() >= old(Room())
      ensures !capture ==> ring[..] == old(ring[..])
    {
      offset := applPtr % bufferSize;
      SyncPtr();
      var avail := MmapAvail();
      if avail > bufferSize {
        avail := bufferSize;
      }
      var continuous := bufferSize - offset;
      frames := wanted;
      if frames > avail {
        frames := avail;
      }
      if frames > continuous {
        frames := continuous;
      }
    }

    /** The piece is in its slots of the ring, free ones or waiting ones, and can be committed. */
    ghost predicate Ready(piece: seq<Frame>)
      requires 0 < bufferSize == ring.Length && 0 <= applPtr
      reads this`applPtr, this`stream, this`sink, ring
    {
      var offset := applPtr % bufferSize;
      && offset + |piece| <= bufferSize && |piece| <= Room()
      && (if capture then |sink| + |piece| <= |stream| && stream[|sink|..|sink| + |piece|] == piece
          else ring[offset..offset + |piece|] == piece)
    }

    /** pcm_areas_copy: playback overwrites ring slots, capture reads them out. */
    method AreasCopy(pcmOffset: nat, buf: array<Frame>, srcOffset: nat, frames: nat) returns (ghost piece: seq<Frame>)
      requires Valid() && buf != ring
      requires pcmOffset == applPtr % bufferSize && pcmOffset + frames <= bufferSize
      requires srcOffset + frames <= buf.Length
      modifies this`lost, ring, buf
      ensures Valid()
      ensures lost <==> old(lost) || (!capture && Overwrites(bufferSize, |stream|, |sink|, frames))
      ensures !old(lost) ==> (lost <==> !capture && frames > Room())
      ensures !old(lost) && lost ==> pcmOffset <= |sink| % bufferSize < pcmOffset + frames
      ensures OnlyFilled(capture, old(buf[..]), buf[..], srcOffset, srcOffset + frames)
      ensures OnlyFilled(!capture, old(ring[..]), ring[..], pcmOffset, pcmOffset + frames)
      ensures piece == buf[..][srcOffset..srcOffset + frames]
      ensures !capture ==> ring[pcmOffset..pcmOffset + frames] == piece
      ensures !lost && frames <= Room() ==> Ready(piece)
    {
      if !lost {
        SlotOf(applPtr, AppPos());
      }
      if capture {
        piece := DrainRing(pcmOffset, buf, srcOffset, frames);
      } else {
        piece := FillRing(pcmOffset, buf, srcOffset, frames);
      }
    }

    /** The capture half. */
    method DrainRing(pcmOffset: nat, buf: array<Frame>, srcOffset: nat, frames: nat) returns (ghost piece: seq<Frame>)
      requires Valid() && buf != ring && capture
      requires pcmOffset == applPtr % bufferSize && pcmOffset + frames <= bufferSize && srcOffset + frames <= buf.Length
      requires !lost ==> pcmOffset == |sink| % bufferSize
      modifies buf
      ensures Valid() && ring[..] == old(ring[..])
      ensures OnlyFilled(true, old(buf[..]), buf[..], srcOffset, srcOffset + frames)
      ensures piece == buf[..][srcOffset..srcOffset + frames]
      ensures !lost && frames <= Room() ==> Ready(piece)
    {
      CopyFrames(buf, srcOffset, ring, pcmOffset, frames);
      piece := buf[srcOffset..srcOffset + frames];
      if !lost && frames <= Room() {
        WaitingPiece(bufferSize, ring[..], stream, sink, frames);
        assert stream[|sink|..|sink| + |piece|] == piece;
      }
    }

    /** The playback half: frames are lost exactly when more are written than there is room for. */
    method FillRing(pcmOffset: nat, buf: array<Frame>, srcOffset: nat, frames: nat) returns (ghost piece: seq<Frame>)
      requires Valid() && buf != ring && !capture
      requires pcmOffset == applPtr % bufferSize && pcmOffset + frames <= bufferSize && srcOffset + frames <= buf.Length
      requires !lost ==> pcmOffset == |stream| % bufferSize
      modifies this`lost, ring
      ensures Valid()
      ensures lost <==> old(lost) || Overwrites(bufferSize, |stream|, |sink|, frames)
      ensures !old(lost) ==> (lost <==> frames > Room())
      ensures !old(lost) && lost ==> pcmOffset <= |sink| % bufferSize < pcmOffset + frames
      ensures OnlyFilled(true, old(ring[..]), ring[..], pcmOffset, pcmOffset + frames)
      ensures piece == buf[..][srcOffset..srcOffset + frames] == ring[pcmOffset..pcmOffset + frames]
      ensures !lost ==> Ready(piece)
    {
      ghost var before := ring[..];
      if !lost {
        OverwritesExactly(bufferSize, |stream|, |sink|, frames);
      }
      lost := lost || Overwrites(bufferSize, |stream|, |sink|, frames);
      CopyFrames(ring, pcmOffset, buf, srcOffset, frames);
      piece := buf[srcOffset..srcOffset + frames];
      if !lost {
        WriteFreeSlots(bufferSize, before, ring[..], stream, sink, frames);
      }
    }

    /** pcm_mmap_appl_forward: the piece becomes part of the stream, or of what has been read. */
    method MmapApplForward(frames: u32, ghost piece: seq<Frame>)
      requires Valid() && frames == |piece| && applPtr % bufferSize + frames <= bufferSize
      requires !lost ==> Ready(piece)
      modifies this`applPtr, this`stream, this`sink
      ensures Valid()
      ensures applPtr == ApplForward(old(applPtr), frames, boundary)
      ensures frames == 0 ==> applPtr == old(applPtr)
      ensures capture ==> sink == old(sink) + piece && stream == old(stream)
      ensures !capture ==> stream == old(stream) + piece && sink == old(sink)
    {
      ApplForwardModulo(applPtr, AppPos(), frames, bufferSize, boundary);
      if !lost {
        SlotOf(applPtr, AppPos());
        if capture {
          ReadPiece(bufferSize, ring[..], stream, sink, piece);
        } else {
          AppendPiece(bufferSize, ring[..], stream, sink, piece);
        }
      }
      if capture {
        sink := sink + piece;
      } else {
        stream := stream + piece;
      }
      applPtr := ApplForward(applPtr, frames, boundary);
    }

    /** pcm_mmap_commit: the piece is appended, and a piece that ends the ring leaves the pointer at its start. */
    method MmapCommit(frames: u32, ghost piece: seq<Frame>)
      requires Valid() && frames == |piece| && applPtr % bufferSize + frames <= bufferSize
      requires !lost ==> Ready(piece)
      modifies this`hwPtr, this`applPtr, this`stream, this`sink, this`stalls, ring
      ensures Valid()
      ensures applPtr == Rest(old(applPtr), frames, boundary)
      ensures old(applPtr) % bufferSize + frames == bufferSize ==> applPtr % bufferSize == 0
      ensures stalls <= old(stalls)
      ensures frames == 0 ==> Limit() <= old(Limit())
      ensures Room() >= old(Room()) - frames
      ensures Transferred(capture, old(stream), old(sink), stream, sink, piece)
    {
      ForwardRests(applPtr, frames, bufferSize, boundary);
      if applPtr % bufferSize + frames == bufferSize {
        ForwardOffset(applPtr, frames, bufferSize, boundary);
      }
      MmapApplForward(frames, piece);
      SyncPtr();
    }

    /** A request of `total` frames can meet the corner of src/pcm.c:874. */
    ghost predicate CornerAhead(total: int)
      requires boundary > 0
      reads this`applPtr, this`stream, this`sink
    {
      !capture && MeetsCorner(|stream| - |sink|, applPtr, total, bufferSize, boundary)
    }

    /** A request of `total` frames can meet it in the rounds of pcm_mmap_transfer, when the device runs. */
    ghost predicate RoundsAhead(total: int)
      requires boundary > 0
      reads this`applPtr, this`stream, this`sink
    {
      !capture && RoundsMeetCorner(|stream| - |sink|, applPtr, total, availMin, bufferSize, boundary)
    }

    ghost predicate CornerNext(count: int)
      reads this`applPtr, this`stream, this`sink
    {
      !capture && CornerNow(|stream| - |sink|, applPtr, count, availMin, bufferSize, boundary)
    }

    /** Copy and commit a piece: frames are lost exactly when playback writes more than there is room for. */
    method CopyAndCommit(buf: array<Frame>, ghost start: nat, offset: nat, ringOffset: nat, frames: u32,
                         ghost first: Snapshot<Frame>)
      requires Valid() && buf != ring && offset + frames <= buf.Length
      requires ringOffset == applPtr % bufferSize && ringOffset + frames <= bufferSize
      requires capture && !lost ==> frames <= Room()
      requires MovedFrames(capture, first, Seen(buf), start, offset)
      modifies this`hwPtr, this`applPtr, this`stream, this`sink, this`stalls, this`lost, ring, buf
      ensures Valid() && stalls <= old(stalls) && (frames == 0 ==> Limit() <= old(Limit()))
      ensures (old(lost) ==> lost) && (!old(lost) ==> (lost <==> !capture && frames > old(Room())))
      ensures Room() >= old(Room()) - frames
      ensures ringOffset + frames == bufferSize ==> applPtr % bufferSize == 0
      ensures applPtr == Rest(old(applPtr), frames, boundary)
      ensures MovedFrames(capture, first, Seen(buf), start, offset + frames)
    {
      ghost var second := Seen(buf);
      ghost var piece := AreasCopy(ringOffset, buf, offset, frames);
      ghost var filled := buf[..];
      MmapCommit(frames, piece);
      assert buf[..] == filled;
      MovedTwice(capture, first, second, Seen(buf), start, offset, offset + frames);
    }

    /** One round of pcm_mmap_transfer_areas: begin, copy, commit. `corner`: were the pointers in the corner? */
    method TransferPiece(buf: array<Frame>, ghost start: nat, offset: nat, wanted: u32, ghost first: Snapshot<Frame>)
      returns (frames: u32, ghost pcmOffset: nat, ghost corner: bool)
      requires Valid() && buf != ring && 0 < wanted && offset + wanted <= buf.Length
      requires MovedFrames(capture, first, Seen(buf), start, offset)
      modifies this`hwPtr, this`applPtr, this`stream, this`sink, this`stalls, this`lost, ring, buf
      ensures Valid()
      ensures frames <= wanted && pcmOffset + frames <= bufferSize && stalls <= old(stalls)
      ensures frames == 0 ==> Limit() < old(Limit()) || (Limit() == old(Limit()) && stalls < old(stalls))
      ensures (old(lost) ==> lost) && (!old(lost) ==> (lost <==> corner)) && (corner ==> !capture)
      ensures !old(lost) && corner ==> old(|stream| - |sink|) == bufferSize && old(applPtr) < bufferSize
      ensures applPtr == Rest(old(applPtr), frames, boundary)
      ensures !old(lost) && wanted <= old(Room()) ==>
                && !lost && 0 < frames && wanted - frames <= Room()
                && (frames < wanted ==> applPtr % bufferSize == 0)
                && (old(applPtr) % bufferSize == 0 ==> frames == wanted)
      ensures MovedFrames(capture, first, Seen(buf), start, offset + frames)
    {
      ghost var second := Seen(buf);
      var ringOffset, piece := MmapBegin(wanted);
      frames, pcmOffset := piece, ringOffset;
      corner := !capture && Corner(hwPtr, applPtr, bufferSize, boundary);
      if corner && !lost {
        CornerIsFull();
      }
      DeviceMoved(capture, first, second, Seen(buf), start, offset);
      CopyAndCommit(buf, start, offset, ringOffset, frames, first);
    }

    /**
     * One turn of the loop of pcm_mmap_transfer_areas, behind the pieces taken so far. While the request fits, there
     * is a second piece only at the start of the ring, and no third one.
     */
    method TransferNext(buf: array<Frame>, start: nat, offset: nat, size: u32, ghost first: Snapshot<Frame>,
                        ghost applPtr0: u32, ghost pieces0: seq<Piece>, ghost fits: bool)
      returns (frames: u32, ghost pieces: seq<Piece>, ghost corner: bool)
      requires Valid() && buf != ring && 0 < size && offset + size <= buf.Length
      requires MovedFrames(capture, first, Seen(buf), start, offset) && InRing(pieces0, bufferSize, fits)
      requires 0 <= applPtr0 <= boundary && applPtr == Rest(applPtr0, offset - start, boundary)
      requires fits ==> !lost && size <= Room() && (pieces0 == [] || (|pieces0| == 1 && applPtr % bufferSize == 0))
      modifies this`hwPtr, this`applPtr, this`stream, this`sink, this`stalls, this`lost, ring, buf
      ensures Valid() && frames <= size && stalls <= old(stalls)
      ensures frames == 0 ==> Limit() < old(Limit()) || (Limit() == old(Limit()) && stalls < old(stalls))
      ensures (old(lost) ==> lost) && (!old(lost) ==> (lost <==> corner)) && (corner ==> !capture)
      ensures !old(lost) && corner ==>
                MeetsCorner(|first.stream| - |first.sink|, applPtr0, offset - start + size, bufferSize, boundary)
      ensures applPtr == Rest(applPtr0, offset - start + frames, boundary)
      ensures MovedFrames(capture, first, Seen(buf), start, offset + frames) && InRing(pieces, bufferSize, fits)
      ensures fits ==>
                && !lost && size - frames <= Room() && |pieces| <= 2
                && (frames < size ==> |pieces| == 1 && applPtr % bufferSize == 0)
    {
      ghost var pcmOffset;
      frames, pcmOffset, corner := TransferPiece(buf, start, offset, size, first);
      RestAgain(applPtr0, offset - start, frames, boundary);
      assert corner && !old(lost) ==> Rest(applPtr0, offset - start, boundary) < bufferSize;
      OneMorePiece(pieces0, Piece(pcmOffset, frames), bufferSize, fits);
      pieces := pieces0 + [Piece(pcmOffset, frames)];
    }

    /**
     * pcm_mmap_transfer_areas. A request that fits takes at most two pieces, each non-empty and
     * contiguous, and touches no unread frame; any other request still transfers its frames in order.
     */
    method TransferAreas(buf: array<Frame>, start: nat, wanted: u32)
      returns (count: u32, ghost pieces: seq<Piece>, ghost corner: bool)
      requires Valid() && buf != ring && start + wanted <= buf.Length
      modifies this`hwPtr, this`applPtr, this`stream, this`sink, this`stalls, this`lost, ring, buf
      ensures Valid()
      ensures count == wanted && stalls <= old(stalls)
      ensures (old(lost) ==> lost) && (!old(lost) ==> (lost <==> corner)) && (corner ==> !capture)
      ensures !old(lost) && corner ==> old(CornerAhead(wanted))
      ensures applPtr == Rest(old(applPtr), wanted, boundary)
      ensures !old(lost) && wanted <= old(Room()) ==> !lost && |pieces| <= 2
      ensures InRing(pieces, bufferSize, !old(lost) && wanted <= old(Room()))
      ensures MovedFrames(capture, old(Seen(buf)), Seen(buf), start, start + wanted)
    {
      ghost var fits, clean, first := !lost && wanted <= Room(), !lost, Seen(buf);
      ghost var fill, appl := |stream| - |sink|, applPtr;
      assert boundary > 0 && InRing([], bufferSize, fits) && MovedFrames(capture, first, first, start, start);
      assert applPtr == Rest(appl, 0, boundary);
      hide *;
      var offset: nat, size: u32 := start, wanted;
      count, pieces, corner := 0, [], false;
      while size > 0
        invariant Valid() && offset == start + count && count + size == wanted && stalls <= old(stalls)
        invariant (if clean then lost <==> corner else lost) && (corner ==> !capture)
        invariant fits ==>
                    && !lost && size <= Room() && |pieces| <= 2
                    && (size > 0 ==> pieces == [] || (|pieces| == 1 && applPtr % bufferSize == 0))
        invariant clean && corner ==> MeetsCorner(fill, appl, wanted, bufferSize, boundary)
        invariant applPtr == Rest(appl, count, boundary)
        invariant InRing(pieces, bufferSize, fits)
        invariant MovedFrames(capture, first, Seen(buf), start, offset)
        decreases size, Limit(), stalls
      {
        ghost var hit;
        var frames;
        frames, pieces, hit := TransferNext(buf, start, offset, size, first, appl, pieces, fits);
        corner := corner || hit;
        offset := offset + frames;
        count := count + frames;
        size := size - frames;
      }
    }

    /** pcm_avail_update: two looks at the device, then the available frames. */
    method AvailUpdate() returns (avail: nat)
      requires Valid()
      modifies this`hwPtr, this`stream, this`sink, this`stalls, ring
      ensures Valid()
      ensures avail <= boundary && stalls <= old(stalls) && Limit() <= old(Limit())
      ensures old(Limit()) > 0 ==> Limit() < old(Limit()) || stalls < old(stalls)
      ensures !lost ==> (avail == Room() <==> capture || !Corner(hwPtr, applPtr, bufferSize, boundary))
      ensures !lost && avail != Room() ==> Room() == 0 && avail == boundary
      ensures capture ==> sink == old(sink) && old(stream) <= stream
      ensures !capture ==> stream == old(stream) && old(sink) <= sink && ring[..] == old(ring[..])
    {
      SyncPtr();
      SyncPtr();
      avail := MmapAvail();
    }

    /** pcm_start: either ioctl may fail. */
    method Start() returns (ok: bool)
      requires Valid()
      modifies this`running, this`hwPtr, this`stream, this`sink, this`stalls, ring
      ensures Valid()
      ensures stalls <= old(stalls) && Limit() <= old(Limit())
      ensures ok ==> running
      ensures !ok ==> running == old(running)
      ensures capture ==> sink == old(sink) && old(stream) <= stream
      ensures !capture ==> stream == old(stream) && old(sink) <= sink && ring[..] == old(ring[..])
    {
      var prepared: bool := *;
      if !prepared {
        return false;
      }
      SyncPtr();
      var started: bool := *;
      if !started {
        return false;
      }
      running := true;
      ok := true;
    }

    /** pcm_wait: ready, timed out or failed; it comes back without an error only finitely often. */
    method Wait() returns (err: int)
      modifies this`stalls
      ensures err < 0 || stalls < old(stalls)
      ensures stalls <= old(stalls)
    {
      err :| stalls == 0 ==> err < 0;
      if err >= 0 {
        stalls := stalls - 1;
      }
    }

    /** Start the device once enough frames are queued. */
    method StartAtThreshold(avail: nat) returns (ok: bool)
      requires Valid()
      modifies this`running, this`waitForAvailMin, this`hwPtr, this`stream, this`sink, this`stalls, ring
      ensures Valid()
      ensures stalls <= old(stalls) && Limit() <= old(Limit())
      ensures ok && Wrap(bufferSize - avail) >= startThreshold ==> running
      ensures old(running) || Wrap(bufferSize - avail) < startThreshold ==> ok && running == old(running)
      ensures waitForAvailMin ==
              (old(waitForAvailMin) && (old(running) || Wrap(bufferSize - avail) < startThreshold || !ok))
      ensures capture ==> sink == old(sink) && old(stream) <= stream
      ensures !capture ==> stream == old(stream) && old(sink) <= sink
    {
      ok := true;
      if !running && Wrap(bufferSize - avail) >= startThreshold {
        ok := Start();
        if ok {
          waitForAvailMin := false;
        }
      }
    }

    /**
     * Sleep until there is room; a failed wait stops the device and resets the application pointer, which then is out
     * of step with the stream unless it was at the start of the boundary.
     */
    method SleepIfShort(count: u32, avail: nat) returns (verdict: Verdict)
      requires Valid() && avail <= boundary
      modifies this`running, this`waitForAvailMin, this`applPtr, this`lost, this`stalls
      ensures Valid()
      ensures verdict == Proceed(avail) || verdict == Retry || verdict == Stop(WaitFailed)
      ensures verdict.Proceed? <==>
                !old(running) || availMin <= avail || !(old(waitForAvailMin) || count > avail)
      ensures (old(lost) ==> lost) && (!old(lost) ==> (lost <==> verdict.Stop? && old(applPtr) % boundary != 0))
      ensures stalls <= old(stalls) && (verdict.Retry? ==> stalls < old(stalls))
      ensures verdict.Stop? ==> applPtr == 0 && !running
      ensures !verdict.Stop? ==> applPtr == old(applPtr) && running == old(running)
      ensures waitForAvailMin == (verdict.Proceed? && (old(waitForAvailMin) || (running && count > avail)))
    {
      if running {
        if !waitForAvailMin && count > avail {
          waitForAvailMin := true;
        }
        if waitForAvailMin && avail < availMin {
          waitForAvailMin := false;
          var err := Wait();
          if err < 0 {
            running := false;
            applPtr := 0;
            lost := lost || AppPos() % boundary != applPtr % boundary;
            return Stop(WaitFailed);
          }
          return Retry;
        }
      }
      verdict := Proceed(avail);
    }

    /**
     * The first half of a round of pcm_mmap_transfer: measure the space, start the device at the
     * threshold, sleep until there is room. `corner` says whether the space was measured in the corner.
     */
    method PrepareRound(count: u32) returns (verdict: Verdict, ghost corner: bool)
      requires Valid()
      modifies this, ring
      ensures Valid()
      ensures corner ==> !capture
      ensures old(lost) ==> lost
      ensures !old(lost) ==> (lost <==> verdict == Stop(WaitFailed) && old(applPtr) % boundary != 0)
      ensures !old(lost) && !corner && verdict.Proceed? ==> old(Room()) <= verdict.avail <= Room()
      ensures !old(lost) && corner ==> old(|stream| - |sink|) == bufferSize
      ensures !old(lost) && corner && old(running) && verdict.Proceed? && count > 0 ==> old(CornerNext(count))
      ensures old(running) && verdict.Proceed? ==> running && (count > verdict.avail ==> availMin <= verdict.avail)
      ensures old(running) && verdict.Retry? ==> running
      ensures !verdict.Stop? ==> stalls <= old(stalls)
      ensures verdict.Retry? ==> stalls < old(stalls)
      ensures verdict.Proceed? ==> (running <==> old(running) || Wrap(bufferSize - verdict.avail) >= startThreshold)
      ensures verdict == Stop(StartFailed) ==> !old(running)
      ensures !verdict.Stop? && old(Limit()) > 0 ==> Limit() < old(Limit()) || stalls < old(stalls)
      ensures verdict.Proceed? && availMin > 0 && (running || startThreshold <= bufferSize) && count > 0 ==>
                verdict.avail > 0
      ensures verdict.Stop? ==> verdict.outcome.StartFailed? || verdict.outcome.WaitFailed?
      ensures if verdict == Stop(WaitFailed) then applPtr == 0 && !running else applPtr == old(applPtr)
      ensures Transferred(capture, old(stream), old(sink), stream, sink, [])
      ensures !capture ==> |stream| - |sink| <= old(|stream| - |sink|)
      ensures verdict.Proceed? ==> verdict.avail <= boundary
    {
      var avail := AvailUpdate();
      corner := !capture && Corner(hwPtr, applPtr, bufferSize, boundary);
      assert avail == 0 ==> Wrap(bufferSize - avail) == bufferSize;
      assert corner && !lost ==> |stream| - |sink| == bufferSize && applPtr < bufferSize by {
        if corner && !lost {
          CornerIsFull();
        }
      }
      hide Wrap, Corner, Distance;

      var ok := StartAtThreshold(avail);
      if !ok {
        return Stop(StartFailed), corner;
      }
      verdict := SleepIfShort(count, avail);
    }

    /**
     * The second half of a round: move as many frames as are available, behind the frames moved so far. A count that is
     * negative as an int is below any space, and all of it is moved.
     */
    method MoveAvailable(buf: array<Frame>, done: u32, count: u32, avail: nat, ghost first: Snapshot<Frame>,
                         ghost applPtr0: u32)
      returns (moved: u32, ghost corner: bool)
      requires Valid() && buf != ring && done + count <= buf.Length && avail <= boundary
      requires MovedFrames(capture, first, Seen(buf), 0, done)
      requires 0 <= applPtr0 <= boundary && applPtr == Rest(applPtr0, done, boundary)
      modifies this`hwPtr, this`applPtr, this`stream, this`sink, this`stalls, this`lost, ring, buf
      ensures Valid() && stalls <= old(stalls)
      ensures moved == if count <= INT_MAX then Min(count, avail) else count
      ensures (old(lost) ==> lost) && (!old(lost) ==> (lost <==> corner)) && (corner ==> !capture)
      ensures !old(lost) && count <= INT_MAX && avail <= old(Room()) ==> !corner
      ensures !old(lost) && corner ==>
                MeetsCorner(|first.stream| - |first.sink|, applPtr0, done + count, bufferSize, boundary)
      ensures applPtr == Rest(applPtr0, done + moved, boundary)
      ensures MovedFrames(capture, first, Seen(buf), 0, done + moved)
    {
      moved, corner := 0, false;
      var frames: u32 := if ToInt(count) > avail then avail else count;
      if frames > 0 {
        ghost var second, fill, pieces := Seen(buf), |stream| - |sink|, [];
        moved, pieces, corner := TransferAreas(buf, done, frames);
        if corner && !old(lost) {
          MeetsCornerLater(|first.stream| - |first.sink|, applPtr0, done, frames, fill, done + count, bufferSize,
                           boundary);
        }
        RestAgain(applPtr0, done, moved, boundary);
        MovedTwice(capture, first, second, Seen(buf), 0, done, done + moved);
      }
    }

    /** What a round has moved: a number of frames that is negative as an int is taken for an error. */
    ghost predicate Decided(verdict: Verdict, count: u32, moved: u32) {
      match verdict
      case Proceed(avail) => count <= INT_MAX && moved == Min(count, avail)
      case Retry => moved == 0
      case Stop(outcome) =>
        && !outcome.Finished?
        && (if outcome.TransferFailed? then count > INT_MAX && moved == count else moved == 0)
    }

    /**
     * One round of pcm_mmap_transfer, behind the `done` frames moved since `first`: `moved` of the `count` frames
     * still to go are moved. `corner` says whether a piece was taken with the pointers in the corner.
     */
    method TryRound(buf: array<Frame>, done: u32, count: u32, ghost first: Snapshot<Frame>, ghost applPtr0: u32)
      returns (verdict: Verdict, moved: u32, ghost corner: bool)
      requires Valid() && buf != ring && 0 < count && done + count <= buf.Length
      requires MovedFrames(capture, first, Seen(buf), 0, done)
      requires 0 <= applPtr0 <= boundary && applPtr == Rest(applPtr0, done, boundary)
      modifies this, ring, buf
      ensures Valid() && Decided(verdict, count, moved)
      ensures (old(lost) ==> lost) && (corner ==> !capture) && (old(running) && !verdict.Stop? ==> running)
      ensures !old(lost) ==>
                (lost <==> corner || (verdict == Stop(WaitFailed) && old(applPtr) % boundary != 0))
      ensures !old(lost) && corner ==>
                var fill := |first.stream| - |first.sink|;
                MeetsCorner(fill, applPtr0, done + count, bufferSize, boundary) && fill + done + count > bufferSize
      ensures !old(lost) && old(running) && corner && count <= INT_MAX ==> old(CornerNext(count))
      ensures !lost && !capture && !verdict.Stop? ==>
                |stream| - |sink| <= if moved == 0 then old(|stream| - |sink|) else bufferSize
      ensures !lost && !capture && old(running) && verdict.Proceed? && 0 < moved < count && !old(CornerNext(count)) ==>
                Max(old(Room()), Max(availMin, 1)) <= moved <= bufferSize
      ensures if verdict == Stop(WaitFailed) then applPtr == 0 && !running
              else applPtr == Rest(applPtr0, done + moved, boundary)
      ensures verdict.Proceed? && availMin > 0 && (running || startThreshold <= bufferSize) ==> moved > 0
      ensures moved > 0 || verdict.Stop? || stalls <= old(stalls)
      ensures verdict.Retry? ==> stalls < old(stalls)
      ensures MovedFrames(capture, first, Seen(buf), 0, done + moved)
    {
      moved, corner := 0, false;
      ghost var second, full := Seen(buf), false;
      verdict, full := PrepareRound(count);
      DeviceMoved(capture, first, second, Seen(buf), 0, done);
      if verdict.Proceed? {
        moved, corner := MoveAvailable(buf, done, count, verdict.avail, first, applPtr0);
        if ToInt(moved) < 0 {
          verdict := Stop(TransferFailed);
        }
      }
    }

    /** Such a round on a running device takes no request into the reach of the corner that was not there before. */
    method TransferRound(buf: array<Frame>, done: u32, count: u32, ghost first: Snapshot<Frame>, ghost applPtr0: u32)
      returns (verdict: Verdict, moved: u32, ghost corner: bool)
      requires Valid() && buf != ring && 0 < count && done + count <= buf.Length
      requires MovedFrames(capture, first, Seen(buf), 0, done)
      requires 0 <= applPtr0 <= boundary && applPtr == Rest(applPtr0, done, boundary)
      modifies this, ring, buf
      ensures Valid() && Decided(verdict, count, moved)
      ensures (old(lost) ==> lost) && (corner ==> !capture) && (old(running) && !verdict.Stop? ==> running)
      ensures !old(lost) ==>
                (lost <==> corner || (verdict == Stop(WaitFailed) && old(applPtr) % boundary != 0))
      ensures !old(lost) && corner ==>
                var fill := |first.stream| - |first.sink|;
                MeetsCorner(fill, applPtr0, done + count, bufferSize, boundary) && fill + done + count > bufferSize
      ensures !old(lost) && old(running) && count <= INT_MAX ==>
                corner || (!verdict.Stop? && RoundsAhead(count - moved)) ==> old(RoundsAhead(count))
      ensures if verdict == Stop(WaitFailed) then applPtr == 0 && !running
              else applPtr == Rest(applPtr0, done + moved, boundary)
      ensures verdict.Proceed? && availMin > 0 && (running || startThreshold <= bufferSize) ==> moved > 0
      ensures moved > 0 || verdict.Stop? || stalls <= old(stalls)
      ensures verdict.Retry? ==> stalls < old(stalls)
      ensures MovedFrames(capture, first, Seen(buf), 0, done + moved)
    {
      verdict, moved, corner := TryRound(buf, done, count, first, applPtr0);
      hide RoundsMeetCorner, FullLater, MeetsCorner, Rest;
      RestAgain(applPtr0, done, moved, boundary);
      if !old(lost) && old(running) && count <= INT_MAX && (corner || (!verdict.Stop? && RoundsAhead(count - moved))) {
        RoundAhead(old(|stream| - |sink|), old(applPtr), moved, |stream| - |sink|, count, availMin, bufferSize,
                   boundary, corner);
      }
    }

    /**
     * pcm_mmap_transfer for a caller's buffer of `total` frames. `done` of them are transferred, in order; `corner`
     * says whether a piece was taken with the pointers in the corner. Exactly then frames are lost, or when a failed
     * wait resets a pointer that is not at the start of the boundary.
     */
    method MmapTransfer(buf: array<Frame>, total: u32) returns (outcome: Outcome, ghost done: nat, ghost corner: bool)
      requires Valid() && buf != ring && total <= buf.Length
      modifies this, ring, buf
      ensures Valid()
      ensures done <= total && (old(lost) ==> lost)
      ensures !old(lost) ==>
                (lost <==> corner || (outcome.WaitFailed? && Rest(old(applPtr), done, boundary) % boundary != 0))
      ensures capture ==> !corner
      ensures !old(lost) && corner ==> old(CornerAhead(total)) && old(|stream| - |sink|) + total > bufferSize
      ensures !old(lost) && corner && old(running) && total <= INT_MAX ==> old(RoundsAhead(total))
      ensures outcome.Finished? && availMin > 0 && (running || startThreshold <= bufferSize) ==> done == total
      ensures if total <= INT_MAX then !outcome.TransferFailed? else !outcome.Finished?
      ensures outcome.TransferFailed? ==> done == total
      ensures outcome.WaitFailed? ==> applPtr == 0 && !running
      ensures MovedFrames(capture, old(Seen(buf)), Seen(buf), 0, done)
    {
      var offset: u32, count: u32 := 0, total;
      done, corner, outcome := 0, false, Finished;
      ghost var first := Seen(buf);
      while count > 0
        invariant Valid() && offset == done && done + count == total
        invariant outcome.Finished? && (old(lost) ==> lost) && (!old(lost) ==> (lost <==> corner))
        invariant total > INT_MAX ==> count == total
        invariant old(running) ==> running
        invariant !old(lost) && old(running) && total <= INT_MAX && (corner || RoundsAhead(count)) ==>
                    old(RoundsAhead(total))
        invariant capture ==> !corner
        invariant !old(lost) && corner ==> old(CornerAhead(total)) && old(|stream| - |sink|) + total > bufferSize
        invariant applPtr == Rest(old(applPtr), done, boundary)
        invariant MovedFrames(capture, first, Seen(buf), 0, done)
        decreases count, stalls
      {
        ghost var hit;
        var verdict, moved;
        verdict, moved, hit := TransferRound(buf, offset, count, first, old(applPtr));
        corner := corner || hit;
        offset := offset + moved;
        count := count - moved;
        done := done + moved;
        if verdict.Stop? {
          outcome := verdict.outcome;
          break;
        }
        if verdict.Proceed? && moved == 0 {
          break;
        }
      }
    }
  }

  /** The memcpy of a piece between two different buffers. */
  method CopyFrames<Frame>(dst: array<Frame>, dstOffset: nat, src: array<Frame>, srcOffset: nat, frames: nat)
    requires dst != src && dstOffset + frames <= dst.Length && srcOffset + frames <= src.Length
    modifies dst
    ensures dst[dstOffset..dstOffset + frames] == src[srcOffset..srcOffset + frames]
    ensures forall k :: 0 <= k < dstOffset || dstOffset + frames <= k < dst.Length ==> dst[k] == old(dst[k])
  {
    for i := 0 to frames
      invariant forall k :: dstOffset <= k < dstOffset + i ==> dst[k] == src[srcOffset + (k - dstOffset)]
      invariant forall k :: 0 <= k < dstOffset || dstOffset + i <= k < dst.Length ==> dst[k] == old(dst[k])
    {
      dst[dstOffset + i] := src[srcOffset + i];
    }
  }
}
