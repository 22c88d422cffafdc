/**
 * Which transfers can meet the corner of src/pcm.c:874. The playback loops run here against a schedule, which says how
 * many frames the device plays before each look at its pointer; the questions are about all schedules.
 */
module PcmSchedules {
  import opened CIntegers
  import opened PcmPointers

  /** The sizes and the two pointers of a playback ring. */
  datatype Ring = Ring(bufferSize: u32, boundary: u32, hwPtr: u32, applPtr: u32) {

    ghost predicate Legal() {
      SizesFit(bufferSize, boundary) && LegalPointers(hwPtr, applPtr, boundary) && Fill() <= bufferSize
    }

    predicate SizesOf(ring: Ring) {
      bufferSize == ring.bufferSize && boundary == ring.boundary
    }

    /** The unplayed frames. */
    function Fill(): nat
      requires boundary > 0
    {
      Distance(applPtr, hwPtr, boundary)
    }

    predicate InCorner() {
      Corner(hwPtr, applPtr, bufferSize, boundary)
    }

    /** The device plays up to `n` of the unplayed frames. */
    function Play(n: nat): Ring
      requires boundary > 0
    {
      this.(hwPtr := (hwPtr + Min(n, Fill())) % boundary)
    }

    function Space(): int {
      PlaybackAvail(hwPtr, applPtr, bufferSize, boundary)
    }

    function Forward(frames: u32): Ring {
      this.(applPtr := ApplForward(applPtr, frames, boundary))
    }

    lemma SpaceIsRoom()
      requires Legal()
      ensures Space() == if InCorner() then boundary else bufferSize - Fill()
      ensures InCorner() <==> Fill() == bufferSize && applPtr < bufferSize
    {
      PlaybackAvailExact(hwPtr, applPtr, bufferSize, boundary);
      if Fill() == bufferSize {
        FullRingCorner(hwPtr, applPtr, bufferSize, boundary);
      }
    }

    lemma PlayLegal(n: nat)
      requires Legal()
      ensures Play(n).Legal() && Play(n).Fill() == Fill() - Min(n, Fill())
    {
      var k, next := Min(n, Fill()), Play(n).hwPtr;
      DivModUnique(0, next, boundary);
      ModSub(applPtr, next, applPtr, hwPtr + k, boundary);
      DivModUnique(0, Fill(), boundary);
      ModSub(applPtr - hwPtr, k, Fill(), k, boundary);
      DivModUnique(0, Fill() - k, boundary);
    }

    lemma ForwardLegal(frames: nat)
      requires Legal() && frames <= bufferSize - Fill()
      ensures Forward(frames).Legal() && Forward(frames).Fill() == Fill() + frames
      ensures Forward(frames).applPtr == Rest(applPtr, frames, boundary)
    {
      ApplForwardModulo(applPtr, applPtr, frames, bufferSize, boundary);
      ForwardRests(applPtr, frames, bufferSize, boundary);
      DistanceGrows(Forward(frames).applPtr, hwPtr, applPtr, frames, boundary);
    }

    /** The next piece of a request outside the corner. */
    function Piece(wanted: nat): (frames: nat)
      requires Legal() && !InCorner()
      ensures frames <= wanted && frames <= bufferSize - Fill()
      ensures Fill() < bufferSize && wanted > 0 ==> frames > 0
    {
      SpaceIsRoom();
      PieceFrames(hwPtr, applPtr, wanted, bufferSize, boundary)
    }
  }

  lemma DistanceGrows(next: int, hwPtr: int, applPtr: int, frames: int, boundary: int)
    requires boundary > 0 && 0 <= frames && next % boundary == (applPtr + frames) % boundary
    requires Distance(applPtr, hwPtr, boundary) + frames < boundary
    ensures Distance(next, hwPtr, boundary) == Distance(applPtr, hwPtr, boundary) + frames
  {
    var fill := Distance(applPtr, hwPtr, boundary);
    ModSub(next, hwPtr, applPtr + frames, hwPtr, boundary);
    DivModUnique(0, fill, boundary);
    ModSub(applPtr - hwPtr, -frames, fill, -frames, boundary);
    DivModUnique(0, fill + frames, boundary);
  }

  // ---------------------------------------------------------------- pcm_mmap_transfer_areas

  /** How far a schedule takes a request: into the corner, or so that `left` frames are still to go. */
  datatype End = End(met: bool, left: nat, ring: Ring)

  /** One turn of the loop: a piece that is moved, or one taken in the corner. */
  datatype Turn = Caught | Placed(frames: nat, next: Ring)

  /** The device plays `n` frames, and the next piece of the request is measured, written and committed. */
  function OneTurn(ring: Ring, size: nat, n: nat): (turn: Turn)
    requires ring.Legal() && size > 0
    ensures var fill := ring.Fill() - Min(n, ring.Fill());
            && (turn.Caught? <==> fill == ring.bufferSize && ring.applPtr < ring.bufferSize)
            && (turn.Placed? ==>
                  && turn.frames <= size && turn.frames <= ring.bufferSize - fill
                  && (fill < ring.bufferSize ==> turn.frames > 0)
                  && turn.next.Legal() && turn.next.SizesOf(ring)
                  && turn.next.Fill() == fill + turn.frames
                  && turn.next.applPtr == Rest(ring.applPtr, turn.frames, ring.boundary))
  {
    ring.PlayLegal(n);
    var seen := ring.Play(n);
    seen.SpaceIsRoom();
    if seen.InCorner() then
      Caught
    else
      var frames := seen.Piece(size);
      seen.ForwardLegal(frames);
      Placed(frames, seen.Forward(frames))
  }

  /** The loop of pcm_mmap_transfer_areas; the device plays `moves[i]` frames before the i-th piece is measured. */
  function Areas(ring: Ring, size: nat, moves: seq<nat>): (end: End)
    requires ring.Legal()
    ensures end.ring.Legal() && end.ring.SizesOf(ring) && end.left <= size && (end.met ==> size > 0)
    decreases |moves|
  {
    if size == 0 || moves == [] then
      End(false, size, ring)
    else
      match OneTurn(ring, size, moves[0])
      case Caught => End(true, size, ring)
      case Placed(frames, next) => Areas(next, size - frames, moves[1..])
  }

  lemma AreasFirst(ring: Ring, size: nat, n: nat, rest: seq<nat>)
    requires ring.Legal() && size > 0
    ensures Areas(ring, size, [n] + rest) ==
            match OneTurn(ring, size, n)
            case Caught => End(true, size, ring)
            case Placed(frames, next) => Areas(next, size - frames, rest)
  {
    hide OneTurn;
    assert ([n] + rest)[1..] == rest;
  }

  ghost predicate AreasMayMeet(ring: Ring, size: nat)
    requires ring.Legal()
  {
    exists moves: seq<nat> :: Areas(ring, size, moves).met
  }

  /** pcm_mmap_transfer_areas can meet the corner under some schedule if and only if the request is such a one. */
  lemma MeetsCornerExactly(ring: Ring, size: nat)
    requires ring.Legal()
    ensures AreasMayMeet(ring, size) <==>
            MeetsCorner(ring.Fill(), ring.applPtr, size, ring.bufferSize, ring.boundary)
  {
    forall moves: seq<nat> | Areas(ring, size, moves).met
      ensures MeetsCorner(ring.Fill(), ring.applPtr, size, ring.bufferSize, ring.boundary)
    {
      MetIsAhead(ring, size, moves);
    }
    if MeetsCorner(ring.Fill(), ring.applPtr, size, ring.bufferSize, ring.boundary) {
      var d: nat :| d < size && ring.Fill() + d >= ring.bufferSize &&
                    Rest(ring.applPtr, d, ring.boundary) < ring.bufferSize;
      var moves := ScheduleInto(ring, size, d);
    }
  }

  lemma {:induction false} MetIsAhead(ring: Ring, size: nat, moves: seq<nat>)
    requires ring.Legal() && Areas(ring, size, moves).met
    ensures MeetsCorner(ring.Fill(), ring.applPtr, size, ring.bufferSize, ring.boundary)
    decreases |moves|
  {
    match OneTurn(ring, size, moves[0])
    case Caught =>
      assert Rest(ring.applPtr, 0, ring.boundary) < ring.bufferSize;
    case Placed(frames, next) =>
      MetIsAhead(next, size - frames, moves[1..]);
      MeetsCornerLater(ring.Fill(), ring.applPtr, frames, size - frames, next.Fill(), size, ring.bufferSize,
                       ring.boundary);
  }

  /** The device waits while there is room, and plays one frame at a time when the ring is full before the wrap. */
  lemma TurnTowards(ring: Ring, size: nat, d: nat) returns (n: nat)
    requires ring.Legal() && d < size && ring.Fill() + d >= ring.bufferSize
    requires Rest(ring.applPtr, d, ring.boundary) < ring.bufferSize
    ensures var turn := OneTurn(ring, size, n);
            turn.Placed? ==>
              && 0 < turn.frames <= d && turn.next.Fill() + d - turn.frames >= ring.bufferSize
              && Rest(turn.next.applPtr, d - turn.frames, ring.boundary) < ring.bufferSize
  {
    n := if ring.Fill() == ring.bufferSize && ring.applPtr >= ring.bufferSize then 1 else 0;
    var turn := OneTurn(ring, size, n);
    if turn.Placed? {
      RestAgain(ring.applPtr, turn.frames, d - turn.frames, ring.boundary);
    }
  }

  lemma {:induction false} ScheduleInto(ring: Ring, size: nat, d: nat) returns (moves: seq<nat>)
    requires ring.Legal() && d < size && ring.Fill() + d >= ring.bufferSize
    requires Rest(ring.applPtr, d, ring.boundary) < ring.bufferSize
    ensures Areas(ring, size, moves).met
    decreases d
  {
    var n := TurnTowards(ring, size, d);
    var rest := [];
    var turn := OneTurn(ring, size, n);
    if turn.Placed? {
      rest := ScheduleInto(turn.next, size - turn.frames, d - turn.frames);
    }
    moves := [n] + rest;
    assert Areas(ring, size, moves).met by { AreasFirst(ring, size, n, rest); }
  }

  /** The pointer rests behind the frames moved, and a request that fits does not meet the corner. */
  lemma {:induction false} AreasRests(ring: Ring, size: nat, moves: seq<nat>)
    requires ring.Legal()
    ensures var end := Areas(ring, size, moves);
            !end.met ==> end.ring.applPtr == Rest(ring.applPtr, size - end.left, ring.boundary)
    ensures size <= ring.bufferSize - ring.Fill() ==> !Areas(ring, size, moves).met
    decreases |moves|
  {
    hide OneTurn;
    if size > 0 && moves != [] {
      match OneTurn(ring, size, moves[0])
      case Caught =>
      case Placed(frames, next) =>
        AreasRests(next, size - frames, moves[1..]);
        RestAgain(ring.applPtr, frames, size - frames - Areas(ring, size, moves).left, ring.boundary);
    }
  }

  /** While the device waits, a request that fits fills the ring by its frames. */
  lemma {:induction false} ScheduleToFill(ring: Ring, size: nat) returns (moves: seq<nat>)
    requires ring.Legal() && size <= ring.bufferSize - ring.Fill()
    ensures var end := Areas(ring, size, moves);
            !end.met && end.left == 0 && end.ring.Fill() == ring.Fill() + size
    decreases size
  {
    if size == 0 {
      moves := [];
    } else {
      var turn := OneTurn(ring, size, 0);
      assert turn.Placed? && 0 < turn.frames && turn.next.Fill() == ring.Fill() + turn.frames;
      hide OneTurn, Areas, Distance;
      var rest := ScheduleToFill(turn.next, size - turn.frames);
      moves := [0] + rest;
      assert Areas(ring, size, moves) == Areas(turn.next, size - turn.frames, rest) by {
        AreasFirst(ring, size, 0, rest);
      }
    }
  }

  // ---------------------------------------------------------------- pcm_mmap_transfer

  /** What the device plays before a round measures the space, and before each piece of the round. */
  datatype Round = Round(before: nat, moves: seq<nat>)

  /** A round ends in the corner, with the loop, asleep, or with `frames` moved. */
  datatype RoundEnd = Met | Over | Slept(next: Ring) | Moved(frames: nat, next: Ring, waiting: bool)

  /** One round of pcm_mmap_transfer for a running device whose wait succeeds. */
  function OneRound(ring: Ring, count: nat, availMin: int, waiting: bool, round: Round): (end: RoundEnd)
    requires ring.Legal() && count > 0
    ensures end.Slept? ==> end.next.Legal() && end.next.SizesOf(ring)
    ensures end.Moved? ==> end.next.Legal() && end.next.SizesOf(ring) && end.frames <= count
  {
    ring.PlayLegal(round.before);
    var seen := ring.Play(round.before);
    seen.SpaceIsRoom();
    var avail := seen.Space();
    var short := waiting || count > avail;
    if short && avail < availMin then
      Slept(seen)
    else if avail == 0 then
      Over
    else
      var frames := Min(count, avail);
      var end := Areas(seen, frames, round.moves);
      if end.met then Met else if end.left > 0 then Over else Moved(frames, end.ring, short)
  }

  lemma RoundEnds(ring: Ring, count: nat, availMin: int, waiting: bool, round: Round)
    requires ring.Legal() && count > 0
    ensures match OneRound(ring, count, availMin, waiting, round)
            case Met => CornerNow(ring.Fill(), ring.applPtr, count, availMin, ring.bufferSize, ring.boundary)
            case Over => true
            case Slept(next) => next.Fill() <= ring.Fill() && next.applPtr == ring.applPtr
            case Moved(frames, next, short) =>
              || frames == count
              || CornerNow(ring.Fill(), ring.applPtr, count, availMin, ring.bufferSize, ring.boundary)
              || (&& Max(ring.bufferSize - ring.Fill(), Max(availMin, 1)) <= frames <= ring.bufferSize
                  && next.applPtr == Rest(ring.applPtr, frames, ring.boundary))
  {
    var seen := ring.Play(round.before);
    assert seen.Legal() && seen.Fill() <= ring.Fill() by { ring.PlayLegal(round.before); }
    seen.SpaceIsRoom();
    AreasRests(seen, Min(count, seen.Space()), round.moves);
    hide Areas, Rest, Ring.Space, Ring.InCorner;
  }

  /** The loop of pcm_mmap_transfer: does this schedule take it into the corner? */
  predicate TransferMeets(ring: Ring, count: nat, availMin: int, waiting: bool, rounds: seq<Round>)
    requires ring.Legal()
    decreases |rounds|
  {
    if count == 0 || rounds == [] then
      false
    else
      match OneRound(ring, count, availMin, waiting, rounds[0])
      case Met => true
      case Over => false
      case Slept(next) => TransferMeets(next, count, availMin, false, rounds[1..])
      case Moved(frames, next, short) => TransferMeets(next, count - frames, availMin, short, rounds[1..])
  }

  ghost predicate TransferMayMeet(ring: Ring, count: nat, availMin: int, waiting: bool)
    requires ring.Legal()
  {
    exists rounds: seq<Round> :: TransferMeets(ring, count, availMin, waiting, rounds)
  }

  /** So can pcm_mmap_transfer on a running device, if and only if the request meets the condition on its rounds. */
  lemma RoundsMeetCornerExactly(ring: Ring, total: nat, availMin: int, waiting: bool)
    requires ring.Legal() && total <= INT_MAX
    ensures TransferMayMeet(ring, total, availMin, waiting) <==>
            RoundsMeetCorner(ring.Fill(), ring.applPtr, total, availMin, ring.bufferSize, ring.boundary)
  {
    forall rounds: seq<Round> | TransferMeets(ring, total, availMin, waiting, rounds)
      ensures RoundsMeetCorner(ring.Fill(), ring.applPtr, total, availMin, ring.bufferSize, ring.boundary)
    {
      MetBehindRounds(ring, total, availMin, waiting, rounds);
    }
    if RoundsMeetCorner(ring.Fill(), ring.applPtr, total, availMin, ring.bufferSize, ring.boundary) {
      if CornerNow(ring.Fill(), ring.applPtr, total, availMin, ring.bufferSize, ring.boundary) {
        var rounds := RoundsAtOnce(ring, total, availMin, waiting);
      } else {
        var d: nat, k: nat :|
          && FullBehind(k, d, ring.bufferSize - ring.Fill(), Max(availMin, 1), ring.bufferSize)
          && d < total && Rest(ring.applPtr, d, ring.boundary) < ring.bufferSize;
        var rounds := RoundsInto(ring, total, availMin, waiting, d, k);
      }
    }
  }

  lemma {:induction false} MetBehindRounds(ring: Ring, count: nat, availMin: int, waiting: bool, rounds: seq<Round>)
    requires ring.Legal() && TransferMeets(ring, count, availMin, waiting, rounds)
    ensures RoundsMeetCorner(ring.Fill(), ring.applPtr, count, availMin, ring.bufferSize, ring.boundary)
    decreases |rounds|
  {
    RoundEnds(ring, count, availMin, waiting, rounds[0]);
    hide OneRound;
    match OneRound(ring, count, availMin, waiting, rounds[0])
    case Met =>
    case Slept(next) =>
      MetBehindRounds(next, count, availMin, false, rounds[1..]);
      LessFilled(next.Fill(), ring.Fill(), ring.applPtr, count, availMin, ring.bufferSize, ring.boundary);
    case Moved(frames, next, short) =>
      MetBehindRounds(next, count - frames, availMin, short, rounds[1..]);
      if !CornerNow(ring.Fill(), ring.applPtr, count, availMin, ring.bufferSize, ring.boundary) {
        RoundBefore(ring.Fill(), ring.applPtr, frames, next.Fill(), count, availMin, ring.bufferSize, ring.boundary);
      }
  }

  /** The corner is there already: the first round that does not wait takes a piece in it. */
  lemma {:induction false} RoundsAtOnce(ring: Ring, count: nat, availMin: int, waiting: bool)
    returns (rounds: seq<Round>)
    requires ring.Legal() && count > 0 && ring.Fill() == ring.bufferSize && ring.applPtr < ring.bufferSize
    requires availMin <= ring.boundary || count <= ring.boundary
    ensures TransferMeets(ring, count, availMin, waiting, rounds)
    decreases waiting
  {
    ring.PlayLegal(0);
    var seen := ring.Play(0);
    seen.SpaceIsRoom();
    if waiting && ring.boundary < availMin {
      var rest := RoundsAtOnce(seen, count, availMin, false);
      rounds := [Round(0, [])] + rest;
      assert rounds[1..] == rest;
    } else {
      rounds := [Round(0, [0])];
      seen.PlayLegal(0);
      seen.Play(0).SpaceIsRoom();
    }
  }

  /** A round can move any number of frames that it may, and leave the ring full. */
  lemma RoundOf(ring: Ring, count: nat, availMin: int, frames: nat) returns (round: Round, end: Ring)
    requires ring.Legal() && frames < count && 0 < frames <= ring.bufferSize
    requires availMin <= frames && ring.bufferSize - ring.Fill() <= frames
    ensures end.Legal() && end.SizesOf(ring) && end.Fill() == ring.bufferSize
    ensures end.applPtr == Rest(ring.applPtr, frames, ring.boundary)
    ensures forall waiting :: OneRound(ring, count, availMin, waiting, round) == Moved(frames, end, true)
  {
    var n := frames - (ring.bufferSize - ring.Fill());
    var seen := ring.Play(n);
    assert seen.Legal() && seen.Fill() == ring.bufferSize - frames by { ring.PlayLegal(n); }
    seen.SpaceIsRoom();
    var moves := ScheduleToFill(seen, frames);
    AreasRests(seen, frames, moves);
    round, end := Round(n, moves), Areas(seen, frames, moves).ring;
  }

  /** Each round moves so many frames that the others can still do the rest. */
  lemma {:induction false} RoundsInto(ring: Ring, count: nat, availMin: int, waiting: bool, d: nat, k: nat)
    returns (rounds: seq<Round>)
    requires ring.Legal() && d < count && Rest(ring.applPtr, d, ring.boundary) < ring.bufferSize
    requires FullBehind(k, d, ring.bufferSize - ring.Fill(), Max(availMin, 1), ring.bufferSize)
    ensures TransferMeets(ring, count, availMin, waiting, rounds)
    decreases k
  {
    var frames := FirstRound(k, d, ring.bufferSize - ring.Fill(), Max(availMin, 1), ring.bufferSize);
    var round, end := RoundOf(ring, count, availMin, frames);
    RestAgain(ring.applPtr, frames, d - frames, ring.boundary);
    var rest;
    if k == 1 {
      rest := RoundsAtOnce(end, count - frames, availMin, true);
    } else {
      rest := RoundsInto(end, count - frames, availMin, true, d - frames, k - 1);
    }
    rounds := [round] + rest;
    assert TransferMeets(ring, count, availMin, waiting, rounds) by {
      assert rounds[0] == round && rounds[1..] == rest;
    }
  }

  /** How many frames the first of `k` rounds moves. */
  lemma FirstRound(k: nat, d: nat, room: int, least: int, bufferSize: int) returns (frames: nat)
    requires FullBehind(k, d, room, least, bufferSize) && 0 <= room <= bufferSize && 1 <= least
    ensures Max(room, least) <= frames <= bufferSize && frames <= d
    ensures if k == 1 then frames == d else FullBehind(k - 1, d - frames, 0, least, bufferSize)
  {
    frames := Max(Max(room, least), d - (k - 1) * bufferSize);
    assert k * bufferSize == (k - 1) * bufferSize + bufferSize;
    if least > bufferSize {
      assert (k - 1) * least >= (k - 1) * bufferSize by { MulMonotone(k - 1, bufferSize, least); }
    } else {
      MulMonotone(k - 1, least, bufferSize);
    }
    if k > 1 {
      assert (k - 1) * least == (k - 2) * least + least;
    }
  }

  /** Not every request that pcm_mmap_transfer_areas takes into the corner can meet it in pcm_mmap_transfer. */
  lemma RoundsAvoidCorner()
    ensures var ring := Ring(4, 0x4000_0000, 0x4000_0000 - 4, 0x4000_0000 - 4);
            ring.Legal() && AreasMayMeet(ring, 12) && !TransferMayMeet(ring, 12, 4, false)
  {
    var ring := Ring(4, 0x4000_0000, 0x4000_0000 - 4, 0x4000_0000 - 4);
    assert Rest(ring.applPtr, 5, ring.boundary) == 1;
    MeetsCornerExactly(ring, 12);
    RoundsMeetCornerExactly(ring, 12, 4, false);
    WholeBuffers();
  }

  lemma WholeBuffers()
    ensures !FullLater(4, 0x4000_0000 - 4, 12, 4, 4, 0x4000_0000)
  {
    forall d: nat, k: nat | FullBehind(k, d, 4, 4, 4) && d < 12
      ensures Rest(0x4000_0000 - 4, d, 0x4000_0000) >= 4
    {
      assert d == 4 || d == 8;
    }
  }
}
