/**
 * The pointer arithmetic of the memory-mapped PCM device (src/pcm.c), on 32-bit unsigned
 * pointers that run modulo `boundary`, a power-of-two multiple of the buffer size.
 */
module PcmPointers {
  import opened CIntegers

  function Pow2(k: nat): (p: int)
    ensures p >= 1
  {
    if k == 0 then 1 else 2 * Pow2(k - 1)
  }

  /** What pcm_open establishes about the two sizes. */
  ghost predicate LegalSizes(bufferSize: int, boundary: int) {
    SizesFit(bufferSize, boundary) && boundary % bufferSize == 0
  }

  /** Room for the signed computations on any legal pointers. */
  ghost predicate SizesFit(bufferSize: int, boundary: int) {
    && 0 < bufferSize
    && 2 * bufferSize <= boundary
    && boundary + bufferSize <= INT_MAX
  }

  /** The largest boundary pcm_open may pick: doubling it again would not fit an `int`. */
  ghost predicate IsBoundary(bufferSize: int, boundary: int, k: nat) {
    && boundary == bufferSize * Pow2(k)
    && INT_MAX - bufferSize < boundary * 2
    && (k == 0 || boundary <= INT_MAX - bufferSize)
  }

  /** The boundary after `n` turns of the loop, on 32 bits. */
  function Doubled(bufferSize: u32, n: nat): u32 {
    if n == 0 then bufferSize else Wrap(Doubled(bufferSize, n - 1) * 2)
  }

  /** The loop's guard after `n` turns. */
  predicate GoesOn(bufferSize: u32, n: nat) {
    Wrap(Doubled(bufferSize, n) * 2) <= Wrap(INT_MAX - bufferSize)
  }

  ghost predicate Ends(bufferSize: u32) {
    exists n: nat :: !GoesOn(bufferSize, n)
  }

  /** The doubling loop of pcm_open, for every size for which it ends. */
  method PickBoundary(bufferSize: u32) returns (boundary: u32, ghost k: nat)
    requires Ends(bufferSize)
    ensures boundary == Doubled(bufferSize, k) && !GoesOn(bufferSize, k)
    ensures forall j: nat :: j < k ==> GoesOn(bufferSize, j)
    ensures 0 < bufferSize <= INT_MAX ==> IsBoundary(bufferSize, boundary, k)
    ensures LegalSizes(bufferSize, boundary) <==> 0 < bufferSize && 3 * bufferSize <= INT_MAX
  {
    ghost var last: nat :| !GoesOn(bufferSize, last);
    boundary := bufferSize;
    k := 0;
    while Wrap(boundary * 2) <= Wrap(INT_MAX - bufferSize)
      invariant k <= last && boundary == Doubled(bufferSize, k)
      invariant forall j: nat :: j < k ==> GoesOn(bufferSize, j)
      decreases last - k
    {
      boundary := Wrap(boundary * 2);
      k := k + 1;
    }
    PickedBoundary(bufferSize, k);
  }

  lemma {:induction false} PickedBoundary(bufferSize: u32, k: nat)
    requires !GoesOn(bufferSize, k) && forall j: nat :: j < k ==> GoesOn(bufferSize, j)
    ensures 0 < bufferSize <= INT_MAX ==> IsBoundary(bufferSize, Doubled(bufferSize, k), k)
    ensures LegalSizes(bufferSize, Doubled(bufferSize, k)) <==> 0 < bufferSize && 3 * bufferSize <= INT_MAX
  {
    if 0 < bufferSize <= INT_MAX {
      DoubledInRange(bufferSize, k);
      WrapCases(Doubled(bufferSize, k) * 2);
      BoundaryIsMultiple(bufferSize, k);
    }
  }

  /** On a size that fits an int no turn wraps. */
  lemma {:induction false} DoubledInRange(bufferSize: u32, k: nat)
    requires 0 < bufferSize <= INT_MAX && forall j: nat :: j < k ==> GoesOn(bufferSize, j)
    ensures Doubled(bufferSize, k) == bufferSize * Pow2(k) && bufferSize <= Doubled(bufferSize, k) <= INT_MAX
    ensures k >= 1 ==> 2 * bufferSize <= Doubled(bufferSize, k) <= INT_MAX - bufferSize
  {
    if k > 0 {
      DoubledInRange(bufferSize, k - 1);
      BoundaryDoubles(bufferSize, k - 1);
      assert GoesOn(bufferSize, k - 1);
      WrapCases(Doubled(bufferSize, k - 1) * 2);
    }
  }

  /** For such a size the loop ends. */
  lemma EndsInRange(bufferSize: u32, n: nat)
    requires 0 < bufferSize <= INT_MAX && forall j: nat :: j < n ==> GoesOn(bufferSize, j)
    ensures Ends(bufferSize)
    decreases INT_MAX - Doubled(bufferSize, n)
  {
    DoubledInRange(bufferSize, n);
    if GoesOn(bufferSize, n) {
      DoubledInRange(bufferSize, n + 1);
      BoundaryDoubles(bufferSize, n);
      EndsInRange(bufferSize, n + 1);
    }
  }

  lemma PowerOf31()
    ensures Pow2(31) == 0x8000_0000
  {
    assert Pow2(5) == 32;
    assert Pow2(10) == 1024;
    assert Pow2(15) == 32768;
    assert Pow2(20) == 1048576;
    assert Pow2(25) == 33554432;
    assert Pow2(30) == 1073741824;
  }

  lemma {:induction false} DoubledIsWrapped(bufferSize: u32, n: nat)
    ensures Doubled(bufferSize, n) == Wrap(bufferSize * Pow2(n))
  {
    if n > 0 {
      DoubledIsWrapped(bufferSize, n - 1);
      BoundaryDoubles(bufferSize, n - 1);
      WrapTwice(bufferSize * Pow2(n - 1));
    }
  }

  lemma WrapTwice(x: int)
    ensures Wrap(Wrap(x) * 2) == Wrap(2 * x)
  {
  }

  lemma {:induction false} DoubledToZero(bufferSize: u32, n: nat)
    requires n >= 32
    ensures Doubled(bufferSize, n) == 0
  {
    if n == 32 {
      DoubledIsWrapped(bufferSize, 32);
      PowerOf31();
      assert bufferSize * Pow2(32) == bufferSize * TWO32 + 0;
      DivModUnique(bufferSize, 0, TWO32);
    } else {
      DoubledToZero(bufferSize, n - 1);
    }
  }

  /** The loop ends within 31 turns or never: then the boundary has become zero. A buffer of no frames never ends it. */
  lemma EndsExactly(bufferSize: u32)
    ensures Ends(bufferSize) <==> exists n: nat :: n < 31 && !GoesOn(bufferSize, n)
    ensures !Ends(0)
  {
    forall n: nat | !GoesOn(bufferSize, n)
      ensures n < 31
    {
      if n >= 31 {
        DoubledToZero(bufferSize, n + 1);
      }
    }
    forall n: nat
      ensures GoesOn(0, n)
    {
      DoubledIsWrapped(0, n + 1);
    }
  }

  lemma {:induction false} BoundaryDoubles(bufferSize: int, k: nat)
    ensures bufferSize * Pow2(k + 1) == 2 * (bufferSize * Pow2(k))
  {
  }

  lemma {:induction false} BoundaryIsMultiple(bufferSize: int, k: nat)
    requires bufferSize > 0
    ensures (bufferSize * Pow2(k)) % bufferSize == 0
  {
    DivModUnique(Pow2(k), 0, bufferSize);
  }

  /** The boundary is determined by the buffer size. */
  lemma BoundaryUnique(bufferSize: int, b: int, j: nat, c: int, k: nat)
    requires bufferSize > 0 && IsBoundary(bufferSize, b, j) && IsBoundary(bufferSize, c, k)
    ensures b == c && j == k
  {
    if j < k {
      BoundaryGrows(bufferSize, j, k);
    } else if k < j {
      BoundaryGrows(bufferSize, k, j);
    }
  }

  lemma {:induction false} BoundaryGrows(bufferSize: int, j: nat, k: nat)
    requires bufferSize > 0 && j < k
    ensures 2 * (bufferSize * Pow2(j)) <= bufferSize * Pow2(k)
  {
    Pow2Doubles(j, k);
    MulMonotone(bufferSize, 2 * Pow2(j), Pow2(k));
  }

  lemma {:induction false} Pow2Doubles(j: nat, k: nat)
    requires j < k
    ensures 2 * Pow2(j) <= Pow2(k)
    decreases k
  {
    if j < k - 1 {
      Pow2Doubles(j, k - 1);
    }
  }

  /** pcm_mmap_playback_avail, with every conversion between `int` and `unsigned int` spelled out. */
  function PlaybackAvail(hwPtr: u32, applPtr: u32, bufferSize: u32, boundary: u32): int {
    var avail := ToInt(Wrap(Wrap(hwPtr + bufferSize) - applPtr));
    if avail < 0 then ToInt(Wrap(avail + boundary))
    else if avail > ToInt(boundary) then ToInt(Wrap(avail - boundary))
    else avail
  }

  /** The piece that pcm_mmap_begin finds for playback: what request, space, buffer and the end of the ring allow. */
  function PieceFrames(hwPtr: u32, applPtr: u32, wanted: nat, bufferSize: u32, boundary: u32): int
    requires bufferSize > 0
  {
    var avail := Min(PlaybackAvail(hwPtr, applPtr, bufferSize, boundary), bufferSize);
    Min(Min(wanted, avail), bufferSize - applPtr % bufferSize)
  }

  /** pcm_mmap_capture_avail. */
  function CaptureAvail(hwPtr: u32, applPtr: u32, boundary: u32): int {
    var avail := ToInt(Wrap(hwPtr - applPtr));
    if avail < 0 then ToInt(Wrap(avail + boundary)) else avail
  }

  /** pcm_mmap_appl_forward: the application pointer may come to rest on `boundary` itself. */
  function ApplForward(applPtr: u32, frames: u32, boundary: u32): u32 {
    var appl := Wrap(applPtr + frames);
    if appl > boundary then Wrap(appl - boundary) else appl
  }

  ghost predicate LegalPointers(hwPtr: int, applPtr: int, boundary: int) {
    0 <= hwPtr < boundary && 0 <= applPtr <= boundary
  }

  /** How far `ahead` is in front of `behind`, around the boundary. */
  function Distance(ahead: int, behind: int, boundary: int): (d: int)
    requires boundary > 0
    ensures 0 <= d < boundary
  {
    (ahead - behind) % boundary
  }

  /** The buffer is exactly full and only the application pointer has wrapped. */
  predicate Corner(hwPtr: int, applPtr: int, bufferSize: int, boundary: int) {
    applPtr + boundary == hwPtr + bufferSize
  }

  /** Legal pointers are one of three multiples of the boundary away from their distance. */
  lemma DistanceCases(ahead: int, behind: int, boundary: int)
    requires boundary > 0 && -boundary <= ahead - behind <= boundary
    ensures Distance(ahead, behind, boundary) ==
            if ahead - behind < 0 then ahead - behind + boundary
            else if ahead - behind < boundary then ahead - behind
            else 0
  {
    var q := if ahead < behind then -1 else if ahead - behind < boundary then 0 else 1;
    DivModUnique(q, ahead - behind - q * boundary, boundary);
  }

  /** No conversion in the playback formula wraps: it adds or subtracts the boundary at most once. */
  lemma PlaybackAvailCases(hwPtr: u32, applPtr: u32, bufferSize: u32, boundary: u32)
    requires 0 < bufferSize <= boundary && boundary + bufferSize <= INT_MAX
    requires LegalPointers(hwPtr, applPtr, boundary)
    ensures PlaybackAvail(hwPtr, applPtr, bufferSize, boundary) ==
            var free := hwPtr + bufferSize - applPtr;
            if free < 0 then free + boundary else if free > boundary then free - boundary else free
  {
    WrapCases(hwPtr + bufferSize - applPtr);
  }

  /** A small number wraps to itself, a small negative one to its two's complement. */
  lemma WrapCases(x: int)
    requires -TWO32 <= x < TWO32
    ensures Wrap(x) == if x < 0 then x + TWO32 else x
  {
  }

  /** Playback space is exact if and only if the pointers are not in the corner. */
  lemma PlaybackAvailExact(hwPtr: u32, applPtr: u32, bufferSize: u32, boundary: u32)
    requires SizesFit(bufferSize, boundary) && LegalPointers(hwPtr, applPtr, boundary)
    requires Distance(applPtr, hwPtr, boundary) <= bufferSize
    ensures PlaybackAvail(hwPtr, applPtr, bufferSize, boundary) == bufferSize - Distance(applPtr, hwPtr, boundary)
       <==> !Corner(hwPtr, applPtr, bufferSize, boundary)
    ensures Corner(hwPtr, applPtr, bufferSize, boundary) ==>
              PlaybackAvail(hwPtr, applPtr, bufferSize, boundary) == boundary
    ensures Corner(hwPtr, applPtr, bufferSize, boundary)
       <==> Distance(applPtr, hwPtr, boundary) == bufferSize && applPtr < hwPtr
  {
    PlaybackAvailCases(hwPtr, applPtr, bufferSize, boundary);
    DistanceCases(applPtr, hwPtr, boundary);
  }

  /** For any legal pointers the playback result stays in range, and is zero only on a full buffer. */
  lemma PlaybackAvailRange(hwPtr: u32, applPtr: u32, bufferSize: u32, boundary: u32)
    requires SizesFit(bufferSize, boundary) && LegalPointers(hwPtr, applPtr, boundary)
    ensures 0 <= PlaybackAvail(hwPtr, applPtr, bufferSize, boundary) <= boundary
    ensures PlaybackAvail(hwPtr, applPtr, bufferSize, boundary) == 0 ==>
              Distance(applPtr, hwPtr, boundary) == bufferSize
  {
    PlaybackAvailCases(hwPtr, applPtr, bufferSize, boundary);
    DistanceCases(applPtr, hwPtr, boundary);
  }

  /** The captured frames waiting to be read are always counted exactly. */
  lemma CaptureAvailExact(hwPtr: u32, applPtr: u32, bufferSize: u32, boundary: u32)
    requires SizesFit(bufferSize, boundary) && LegalPointers(hwPtr, applPtr, boundary)
    ensures CaptureAvail(hwPtr, applPtr, boundary) == Distance(hwPtr, applPtr, boundary)
  {
    CaptureAvailCases(hwPtr, applPtr, boundary);
    DistanceCases(hwPtr, applPtr, boundary);
  }

  lemma CaptureAvailCases(hwPtr: u32, applPtr: u32, boundary: u32)
    requires 0 < boundary <= INT_MAX && LegalPointers(hwPtr, applPtr, boundary)
    ensures CaptureAvail(hwPtr, applPtr, boundary) ==
            var filled := hwPtr - applPtr;
            if filled < 0 then filled + boundary else filled
  {
    WrapCases(hwPtr - applPtr);
  }

  /** A full ring is in the corner exactly when the application pointer is within a buffer of its wrap. */
  lemma FullRingCorner(hwPtr: int, applPtr: int, bufferSize: int, boundary: int)
    requires SizesFit(bufferSize, boundary) && LegalPointers(hwPtr, applPtr, boundary)
    requires Distance(applPtr, hwPtr, boundary) == bufferSize
    ensures Corner(hwPtr, applPtr, bufferSize, boundary) <==> applPtr < bufferSize
  {
    DistanceCases(applPtr, hwPtr, boundary);
  }

  /** The corner is reachable: a 1024-frame buffer, full, around the boundary pcm_open picks for it. */
  lemma CornerExample()
    ensures var bufferSize, boundary := 1024, 0x4000_0000;
            var hwPtr, applPtr := 0x4000_0000 - 512, 512;
            && LegalSizes(bufferSize, boundary) && IsBoundary(bufferSize, boundary, 20)
            && LegalPointers(hwPtr, applPtr, boundary)
            && Distance(applPtr, hwPtr, boundary) == bufferSize
            && PlaybackAvail(hwPtr, applPtr, bufferSize, boundary) == boundary
  {
    assert Pow2(5) == 32;
    assert Pow2(10) == 1024;
    assert Pow2(15) == 32768;
    assert Pow2(20) == 1048576;
  }

  /** Forwarding wraps at most once. */
  lemma ApplForwardCases(applPtr: u32, frames: u32, bufferSize: u32, boundary: u32)
    requires 0 < bufferSize <= boundary && boundary + bufferSize <= INT_MAX
    requires 0 <= applPtr <= boundary && frames <= bufferSize
    ensures ApplForward(applPtr, frames, boundary) ==
            if applPtr + frames > boundary then applPtr + frames - boundary else applPtr + frames
  {
    WrapCases(applPtr + frames);
  }

  /** It keeps the pointer legal and in step with the absolute position `pos`. */
  lemma ApplForwardModulo(applPtr: u32, pos: nat, frames: u32, bufferSize: u32, boundary: u32)
    requires 0 < bufferSize <= boundary && boundary + bufferSize <= INT_MAX
    requires 0 <= applPtr <= boundary && frames <= bufferSize
    ensures 0 <= ApplForward(applPtr, frames, boundary) <= boundary
    ensures frames == 0 ==> ApplForward(applPtr, frames, boundary) == applPtr
    ensures applPtr % boundary == pos % boundary ==>
              ApplForward(applPtr, frames, boundary) % boundary == (pos + frames) % boundary
  {
    ApplForwardCases(applPtr, frames, bufferSize, boundary);
    if applPtr % boundary == pos % boundary {
      StepModulo(applPtr, pos, frames, boundary);
    }
  }

  lemma StepModulo(ptr: int, pos: int, frames: int, boundary: int)
    requires boundary > 0 && ptr % boundary == pos % boundary
    ensures (ptr + frames) % boundary == (pos + frames) % boundary
    ensures (ptr + frames - boundary) % boundary == (pos + frames) % boundary
  {
    ModSub(ptr, -frames, pos, -frames, boundary);
    ModShift(ptr + frames, -1, boundary);
  }

  /** A piece that ends at the end of the ring leaves the pointer at its start. */
  lemma ForwardOffset(applPtr: u32, frames: u32, bufferSize: u32, boundary: u32)
    requires LegalSizes(bufferSize, boundary) && 0 <= applPtr <= boundary && frames <= bufferSize
    requires applPtr % bufferSize + frames == bufferSize
    ensures ApplForward(applPtr, frames, boundary) % bufferSize == 0
  {
    ApplForwardModulo(applPtr, applPtr, frames, bufferSize, boundary);
    ModMod(ApplForward(applPtr, frames, boundary), applPtr + frames, boundary, bufferSize);
    ModFills(applPtr, frames, bufferSize);
  }

  /** Where the application pointer comes to rest after `moved` frames. */
  function Rest(applPtr: int, moved: nat, boundary: int): int
    requires boundary > 0
  {
    if moved == 0 then applPtr else (applPtr + moved - 1) % boundary + 1
  }

  lemma RestCases(applPtr: int, frames: int, boundary: int)
    requires 0 <= applPtr <= boundary && 0 < frames <= boundary
    ensures (applPtr + frames - 1) % boundary + 1 ==
            if applPtr + frames > boundary then applPtr + frames - boundary else applPtr + frames
  {
    var q := if applPtr + frames > boundary then 1 else 0;
    DivModUnique(q, applPtr + frames - 1 - q * boundary, boundary);
  }

  lemma RestAgain(applPtr: int, moved: nat, more: nat, boundary: int)
    requires boundary > 0
    ensures Rest(Rest(applPtr, moved, boundary), more, boundary) == Rest(applPtr, moved + more, boundary)
  {
    if moved > 0 && more > 0 {
      var r := (applPtr + moved - 1) % boundary;
      DivModUnique(0, r, boundary);
      StepModulo(r, applPtr + moved - 1, more, boundary);
    }
  }

  /** Forwarding follows it. */
  lemma ForwardRests(applPtr: u32, frames: u32, bufferSize: u32, boundary: u32)
    requires 0 < bufferSize <= boundary && boundary + bufferSize <= INT_MAX
    requires 0 <= applPtr <= boundary && frames <= bufferSize
    ensures ApplForward(applPtr, frames, boundary) == Rest(applPtr, frames, boundary)
  {
    ApplForwardCases(applPtr, frames, bufferSize, boundary);
    if frames > 0 {
      RestCases(applPtr, frames, boundary);
    }
  }

  /**
   * A request of `total` frames can meet the corner: behind some of them, but not all, the ring can be full with the
   * application pointer within a buffer of its wrap.
   */
  ghost predicate MeetsCorner(fill: int, applPtr: int, total: int, bufferSize: int, boundary: int)
    requires boundary > 0
  {
    exists d: nat {:trigger Rest(applPtr, d, boundary)} ::
      d < total && fill + d >= bufferSize && Rest(applPtr, d, boundary) < bufferSize
  }

  /** A smaller request on a ring no fuller meets the corner no earlier. */
  lemma MeetsCornerLater(fill: int, applPtr: int, moved: nat, rest: int, later: int, total: int, bufferSize: int,
                         boundary: int)
    requires boundary > 0 && later <= fill + moved && moved + rest <= total
    requires MeetsCorner(later, Rest(applPtr, moved, boundary), rest, bufferSize, boundary)
    ensures MeetsCorner(fill, applPtr, total, bufferSize, boundary)
  {
    var d: nat :| d < rest && later + d >= bufferSize && Rest(Rest(applPtr, moved, boundary), d, boundary) < bufferSize;
    RestAgain(applPtr, moved, d, boundary);
    assert Rest(applPtr, moved + d, boundary) < bufferSize;
  }

  // ---------------------------------------------------------------- rounds of pcm_mmap_transfer

  /** A round that does not sleep takes its first piece in the corner. */
  predicate CornerNow(fill: int, applPtr: int, count: int, availMin: int, bufferSize: int, boundary: int) {
    count > 0 && fill == bufferSize && applPtr < bufferSize && (availMin <= boundary || count <= boundary)
  }

  /**
   * `k` rounds can move `d` frames and leave the ring full: each moves what is available, which is a wakeup's `least`
   * at the fewest and a buffer at the most, and at first not less than the room there is.
   */
  predicate FullBehind(k: nat, d: nat, room: int, least: int, bufferSize: int) {
    k > 0 && Max(room, least) + (k - 1) * least <= d <= k * bufferSize
  }

  /** Behind some rounds, but not all frames, the ring can be full with the pointer within a buffer of its wrap. */
  ghost predicate FullLater(room: int, applPtr: int, total: int, least: int, bufferSize: int, boundary: int)
    requires boundary > 0
  {
    exists d: nat, k: nat ::
      FullBehind(k, d, room, least, bufferSize) && d < total && Rest(applPtr, d, boundary) < bufferSize
  }

  /** The requests of `total` frames that can meet the corner: it is there now, or behind some whole rounds. */
  ghost predicate RoundsMeetCorner(fill: int, applPtr: int, total: int, availMin: int, bufferSize: int, boundary: int)
    requires boundary > 0
  {
    || CornerNow(fill, applPtr, total, availMin, bufferSize, boundary)
    || FullLater(bufferSize - fill, applPtr, total, Max(availMin, 1), bufferSize, boundary)
  }

  /** Playing alone brings no request nearer the corner. */
  lemma LessFilled(later: int, fill: int, applPtr: int, total: int, availMin: int, bufferSize: int, boundary: int)
    requires boundary > 0 && later <= fill <= bufferSize
    requires RoundsMeetCorner(later, applPtr, total, availMin, bufferSize, boundary)
    ensures RoundsMeetCorner(fill, applPtr, total, availMin, bufferSize, boundary)
  {
    if !(total > 0 && later == bufferSize && applPtr < bufferSize) {
      var d: nat, k: nat :|
        && FullBehind(k, d, bufferSize - later, Max(availMin, 1), bufferSize)
        && d < total && Rest(applPtr, d, boundary) < bufferSize;
      assert FullBehind(k, d, bufferSize - fill, Max(availMin, 1), bufferSize);
    }
  }

  /** What meets the corner behind a round of `moved` frames meets it from before the round. */
  lemma RoundBefore(fill: int, applPtr: int, moved: nat, later: int, total: int, availMin: int, bufferSize: int,
                    boundary: int)
    requires boundary > 0 && later <= bufferSize && Max(bufferSize - fill, Max(availMin, 1)) <= moved <= bufferSize
    requires RoundsMeetCorner(later, Rest(applPtr, moved, boundary), total - moved, availMin, bufferSize, boundary)
    ensures RoundsMeetCorner(fill, applPtr, total, availMin, bufferSize, boundary)
  {
    var least := Max(availMin, 1);
    if later == bufferSize && Rest(applPtr, moved, boundary) < bufferSize && moved < total {
      assert FullBehind(1, moved, bufferSize - fill, least, bufferSize);
    } else {
      var d: nat, k: nat :|
        && FullBehind(k, d, bufferSize - later, least, bufferSize)
        && d < total - moved && Rest(Rest(applPtr, moved, boundary), d, boundary) < bufferSize;
      RestAgain(applPtr, moved, d, boundary);
      assert (k + 1) * bufferSize == k * bufferSize + bufferSize && k * least == (k - 1) * least + least;
      assert FullBehind(k + 1, moved + d, bufferSize - fill, least, bufferSize);
    }
  }

  /** A round that meets the corner, or leaves a rest that can, was part of a request that could from the start. */
  lemma RoundAhead(fill: int, applPtr: int, moved: nat, later: int, total: int, availMin: int, bufferSize: int,
                   boundary: int, corner: bool)
    requires boundary > 0
    requires corner ==> CornerNow(fill, applPtr, total, availMin, bufferSize, boundary)
    requires !corner ==>
               && fill <= bufferSize && later <= bufferSize && (moved == 0 ==> later <= fill)
               && RoundsMeetCorner(later, Rest(applPtr, moved, boundary), total - moved, availMin, bufferSize, boundary)
    requires !corner && 0 < moved < total && !CornerNow(fill, applPtr, total, availMin, bufferSize, boundary) ==>
               Max(bufferSize - fill, Max(availMin, 1)) <= moved <= bufferSize
    ensures RoundsMeetCorner(fill, applPtr, total, availMin, bufferSize, boundary)
  {
    if CornerNow(fill, applPtr, total, availMin, bufferSize, boundary) {
    } else if moved == 0 {
      LessFilled(later, fill, applPtr, total, availMin, bufferSize, boundary);
    } else {
      RoundBefore(fill, applPtr, moved, later, total, availMin, bufferSize, boundary);
    }
  }
}
