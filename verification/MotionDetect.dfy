/**
 * The motion detector of src/camera/motion_detect_c.c: a state that arms on a busy frame,
 * counts quiet frames after it, and reports motion when the frames have calmed down.
 */
module MotionDetect {
  import opened CIntegers

  /** A frame after resizing and cropping. */
  datatype Frame = Frame(width: int, height: int, pixels: seq<byte>)

  /** What the image routines make of two frames: rows of widthStep bytes, 255 where they differ. */
  datatype MotionImage = MotionImage(width: nat, rows: seq<seq<byte>>)

  type Comparison = (Frame, Frame) -> MotionImage

  /** Two thresholds on the number of changed pixels and two minimal delays, fixed at initialisation. */
  datatype Settings = Settings(minThr: int, maxThr: int, serverWaitTime: int, compareTimer: int, initTime: int)

  /** One frame that was not throttled away. */
  datatype Entry = Entry(frame: Frame, changes: nat, now: int, sent: bool)

  const SEND_STATE := 2

  // ------------------------------------------------------------------ specification over the history

  function ChangedInRow(row: seq<byte>): nat {
    if row == [] then 0 else ChangedInRow(row[..|row| - 1]) + if row[|row| - 1] == 255 then 1 else 0
  }

  function ChangedPixels(rows: seq<seq<byte>>, width: nat): nat
    requires forall row <- rows :: width <= |row|
  {
    if rows == [] then 0
    else ChangedPixels(rows[..|rows| - 1], width) + ChangedInRow(rows[|rows| - 1][..width])
  }

  ghost predicate LegalComparison(compare: Comparison) {
    && (forall f: Frame, g: Frame :: forall row <- compare(f, g).rows :: compare(f, g).width <= |row|)
    && (forall f: Frame :: ChangedPixels(compare(f, f).rows, compare(f, f).width) == 0)
  }

  /** What a frame is compared with: its predecessor, or itself when it is the first or of a new size. */
  ghost function Reference(log: seq<Entry>, frame: Frame): Frame {
    if log == [] then frame
    else
      var last := log[|log| - 1].frame;
      if last.width == frame.width && last.height == frame.height then last else frame
  }

  /** The number of changed pixels counted for a frame behind this history. */
  ghost function Changes(compare: Comparison, log: seq<Entry>, frame: Frame): nat
    requires LegalComparison(compare)
  {
    var motion := compare(Reference(log, frame), frame);
    ChangedPixels(motion.rows, motion.width)
  }

  /** The places in the first `width` columns with the value 255. */
  ghost function ChangedPlaces(rows: seq<seq<byte>>, width: nat): set<(int, int)>
    requires forall row <- rows :: width <= |row|
  {
    set j, i | 0 <= j < |rows| && 0 <= i < width && rows[j][i] == 255 :: (j, i)
  }

  ghost function PlacesInRow(row: seq<byte>, j: int): set<(int, int)> {
    set i | 0 <= i < |row| && row[i] == 255 :: (j, i)
  }

  lemma {:induction false} CountsRow(row: seq<byte>, j: int)
    ensures ChangedInRow(row) == |PlacesInRow(row, j)|
  {
    if row != [] {
      var last := |row| - 1;
      CountsRow(row[..last], j);
      assert PlacesInRow(row, j) ==
             PlacesInRow(row[..last], j) + if row[last] == 255 then {(j, last)} else {};
    }
  }

  /** The count is the number of those places. */
  lemma {:induction false} CountsPixels(rows: seq<seq<byte>>, width: nat)
    requires forall row <- rows :: width <= |row|
    ensures ChangedPixels(rows, width) == |ChangedPlaces(rows, width)|
  {
    if rows != [] {
      var last := |rows| - 1;
      var init, row := rows[..last], rows[last][..width];
      CountsPixels(init, width);
      CountsRow(row, last);
      assert ChangedPlaces(rows, width) == ChangedPlaces(init, width) + PlacesInRow(row, last);
    }
  }

  /** Changes are counted against the frame before when it has the same size; otherwise there are none. */
  lemma ComparedWith(compare: Comparison, log: seq<Entry>, frame: Frame)
    requires LegalComparison(compare)
    ensures Changes(compare, log, frame) ==
            if log != [] && log[|log| - 1].frame.width == frame.width && log[|log| - 1].frame.height == frame.height
            then
              var motion := compare(log[|log| - 1].frame, frame);
              |ChangedPlaces(motion.rows, motion.width)|
            else 0
  {
    var motion := compare(Reference(log, frame), frame);
    CountsPixels(motion.rows, motion.width);
  }

  /** The index after the last sent entry that is not the newest one. */
  function Since(log: seq<Entry>): (start: nat)
    ensures start <= |log|
    ensures log != [] ==> start < |log|
  {
    if |log| <= 1 then 0
    else if log[|log| - 2].sent then |log| - 1
    else Since(log[..|log| - 1])
  }

  /** The first entry from `start` on with more than maxThr changes, or |log|. */
  function ArmedAt(log: seq<Entry>, start: nat, cfg: Settings): (a: nat)
    requires start <= |log|
    ensures start <= a <= |log|
    ensures forall k :: start <= k < a ==> log[k].changes <= cfg.maxThr
    ensures a < |log| ==> log[a].changes > cfg.maxThr
    decreases |log| - start
  {
    if start == |log| || log[start].changes > cfg.maxThr then start else ArmedAt(log, start + 1, cfg)
  }

  /** How many entries at the end, not before `from`, have fewer than minThr changes. */
  function QuietRun(log: seq<Entry>, from: nat, cfg: Settings): (n: nat)
    requires from <= |log|
    ensures n <= |log| - from
    ensures forall k :: |log| - n <= k < |log| ==> log[k].changes < cfg.minThr
    ensures n < |log| - from ==> log[|log| - n - 1].changes >= cfg.minThr
  {
    if from < |log| && log[|log| - 1].changes < cfg.minThr then QuietRun(log[..|log| - 1], from, cfg) + 1 else 0
  }

  /** The detector's state as a function of its history: 0 before arming, then one more than the quiet run since. */
  function StateOf(log: seq<Entry>, cfg: Settings): nat {
    var a := ArmedAt(log, Since(log), cfg);
    if a == |log| then 0 else 1 + QuietRun(log, a + 1, cfg)
  }

  function LastTime(log: seq<Entry>, cfg: Settings): int {
    if log == [] then cfg.initTime + cfg.compareTimer else log[|log| - 1].now
  }

  function LastSendTime(log: seq<Entry>, cfg: Settings): int {
    if log == [] then cfg.initTime + cfg.serverWaitTime
    else if log[|log| - 1].sent then log[|log| - 1].now
    else LastSendTime(log[..|log| - 1], cfg)
  }

  /** The history obeys the rules: every entry was due, counted as specified, and sent exactly when it had to be. */
  ghost predicate Lawful(log: seq<Entry>, cfg: Settings, compare: Comparison)
    requires LegalComparison(compare)
  {
    forall k :: 0 <= k < |log| ==> LawfulAt(log, k, cfg, compare)
  }

  ghost predicate LawfulAt(log: seq<Entry>, k: nat, cfg: Settings, compare: Comparison)
    requires LegalComparison(compare) && k < |log|
  {
    && log[k].changes == Changes(compare, log[..k], log[k].frame)
    && log[k].now - LastTime(log[..k], cfg) >= cfg.compareTimer
    && (log[k].sent <==>
          StateOf(log[..k + 1], cfg) >= SEND_STATE && log[k].now - LastSendTime(log[..k], cfg) >= cfg.serverWaitTime)
  }

  function PreviousFrame(log: seq<Entry>): seq<Frame> {
    if log == [] then [] else [log[|log| - 1].frame]
  }

  function SentLast(log: seq<Entry>): bool {
    log != [] && log[|log| - 1].sent
  }

  /** The detector's fields agree with a lawful history. */
  ghost predicate InStep(log: seq<Entry>, cfg: Settings, compare: Comparison,
                         state: nat, lastSend: bool, lastTimer: int, lastMdTimer: int, frame1: seq<Frame>) {
    && LegalComparison(compare)
    && Lawful(log, cfg, compare)
    && state == StateOf(log, cfg)
    && lastSend == SentLast(log)
    && lastTimer == LastTime(log, cfg)
    && lastMdTimer == LastSendTime(log, cfg)
    && frame1 == PreviousFrame(log)
  }

  // ------------------------------------------------------------------ the detector

  class MotionDetection {
    const cfg: Settings
    const compare: Comparison
    var numberOfChanges: nat
    var state: nat
    var lastSend: bool
    var lastTimer: int
    var lastMdTimer: int
    var frame1: seq<Frame>   // at most one: the previous frame, absent before the first
    ghost var log: seq<Entry>

    ghost predicate Valid()
      reads this
    {
      InStep(log, cfg, compare, state, lastSend, lastTimer, lastMdTimer, frame1)
    }

    /** initMotionDetection: the thresholds shrink with the cropped part of the picture. */
    constructor (minThr: int, maxThr: int, cropRate: int, serverWaitTime: int, timer: int, nowTime: int,
                 compare: Comparison)
      requires LegalComparison(compare)
      ensures Valid() && log == []
      ensures cfg == Settings(CDiv(minThr * (100 - cropRate), 100), CDiv(maxThr * (100 - cropRate), 100),
                              serverWaitTime, timer, nowTime)
      ensures this.compare == compare
    {
      cfg := Settings(CDiv(minThr * (100 - cropRate), 100), CDiv(maxThr * (100 - cropRate), 100),
                      serverWaitTime, timer, nowTime);
      this.compare := compare;
      numberOfChanges, state, lastSend := 0, 0, false;
      lastTimer := nowTime + timer;
      lastMdTimer := nowTime + serverWaitTime;
      frame1 := [];
      log := [];
    }

    /** getDifference: count the pixels that are exactly 255, row by row. */
    method GetDifference(motion: MotionImage)
      requires forall row <- motion.rows :: motion.width <= |row|
      modifies this`numberOfChanges
      ensures numberOfChanges == old(numberOfChanges) + ChangedPixels(motion.rows, motion.width)
    {
      for j := 0 to |motion.rows|
        invariant numberOfChanges == old(numberOfChanges) + ChangedPixels(motion.rows[..j], motion.width)
      {
        var row := motion.rows[j];
        ghost var before := numberOfChanges;
        for i := 0 to motion.width
          invariant numberOfChanges == before + ChangedInRow(row[..i])
        {
          assert row[..i + 1][..i] == row[..i];
          if row[i] == 255 {
            numberOfChanges := numberOfChanges + 1;
          }
        }
        assert motion.rows[..j + 1][..j] == motion.rows[..j];
      }
      assert motion.rows[..|motion.rows|] == motion.rows;
    }

    /** updateState. */
    method UpdateState()
      modifies this`state
      ensures state == NextState(old(state), lastSend, numberOfChanges, cfg)
    {
      if state >= SEND_STATE && lastSend {
        state := 0;
      }
      if state == 0 && numberOfChanges > cfg.maxThr {
        state := 1;
      } else if state == 1 && numberOfChanges < cfg.minThr {
        state := 2;
      } else if state >= 2 {
        if numberOfChanges < cfg.minThr {
          state := state + 1;
        } else {
          state := 1;
        }
      }
    }

    /** setInputImage: compare with the previous frame of the same size, remember the new one, move the state. */
    method SetInputImage(frame2: Frame)
      requires LegalComparison(compare) && frame1 == PreviousFrame(log)
      modifies this`numberOfChanges, this`state, this`frame1
      ensures numberOfChanges == Changes(compare, log, frame2)
      ensures frame1 == [frame2]
      ensures state == NextState(old(state), lastSend, numberOfChanges, cfg)
    {
      var isNew := false;
      numberOfChanges := 0;
      if |frame1| == 0 {
        frame1 := [frame2];
        isNew := true;
      } else if frame1[0].width != frame2.width || frame1[0].height != frame2.height {
        frame1 := [frame2];
        isNew := true;
      }
      GetDifference(compare(frame1[0], frame2));
      if !isNew {
        frame1 := [frame2];
      }
      UpdateState();
    }

    /** getMotionResult: -1 for a throttled call, 1 when motion is reported, 0 otherwise. */
    method GetMotionResult(frame: Frame, nowTime: int) returns (result: int)
      requires Valid()
      modifies this
      ensures Valid()
      ensures result in {-1, 0, 1}
      ensures var last := if old(log) == [] then cfg.initTime + cfg.compareTimer else old(log)[|old(log)| - 1].now;
              result == -1 <==> nowTime - last < cfg.compareTimer
      ensures result == -1 ==> log == old(log) && state == old(state)
      ensures result != -1 ==>
                log == old(log) + [Entry(frame, Changes(compare, old(log), frame), nowTime, result == 1)]
    {
      hide StateOf, NextState, Lawful, LegalComparison;
      if nowTime - lastTimer < cfg.compareTimer {
        return -1;
      }
      lastTimer := nowTime;
      SetInputImage(frame);
      var isMove := state >= SEND_STATE;
      if isMove && nowTime - lastMdTimer >= cfg.serverWaitTime {
        lastMdTimer := nowTime;
        lastSend := true;
        result := 1;
      } else {
        lastSend := false;
        result := 0;
      }
      ghost var entry := Entry(frame, numberOfChanges, nowTime, result == 1);
      HistoryStep(log, entry, cfg, compare);
      log := log + [entry];
    }
  }

  /** One run of updateState, as a function. */
  function NextState(state: nat, lastSend: bool, changes: nat, cfg: Settings): nat {
    var s := if state >= SEND_STATE && lastSend then 0 else state;
    if s == 0 && changes > cfg.maxThr then 1
    else if s == 1 && changes < cfg.minThr then 2
    else if s >= 2 then (if changes < cfg.minThr then s + 1 else 1)
    else s
  }

  // ------------------------------------------------------------------ the state is a function of history

  /** ArmedAt only depends on the entries it passes. */
  lemma {:induction false} ArmedAtExtends(log: seq<Entry>, entry: Entry, start: nat, cfg: Settings)
    requires start <= |log|
    ensures ArmedAt(log + [entry], start, cfg) ==
            var a := ArmedAt(log, start, cfg);
            if a < |log| || entry.changes > cfg.maxThr then a else |log| + 1
    decreases |log| - start
  {
    if start < |log| && log[start].changes <= cfg.maxThr {
      ArmedAtExtends(log, entry, start + 1, cfg);
    }
  }

  /** A step of the state machine computes the state of the longer history. */
  lemma StateStep(log: seq<Entry>, entry: Entry, cfg: Settings)
    requires SentLast(log) ==> StateOf(log, cfg) >= SEND_STATE
    ensures StateOf(log + [entry], cfg) ==
            NextState(StateOf(log, cfg), SentLast(log), entry.changes, cfg)
  {
    SinceStep(log, entry);
    ArmedAtExtends(log, entry, Since(log + [entry]), cfg);
    var a := ArmedAt(log, Since(log + [entry]), cfg);
    if a < |log| {
      QuietRunStep(log, entry, a + 1, cfg);
    }
  }

  lemma {:induction false} SinceStep(log: seq<Entry>, entry: Entry)
    ensures Since(log + [entry]) == if log != [] && log[|log| - 1].sent then |log| else Since(log)
  {
    assert (log + [entry])[..|log|] == log;
  }

  lemma {:induction false} QuietRunStep(log: seq<Entry>, entry: Entry, from: nat, cfg: Settings)
    requires from <= |log|
    ensures QuietRun(log + [entry], from, cfg) ==
            if entry.changes < cfg.minThr then QuietRun(log, from, cfg) + 1 else 0
  {
    assert (log + [entry])[..|log|] == log;
  }

  lemma SentMeansReady(log: seq<Entry>, cfg: Settings, compare: Comparison)
    requires LegalComparison(compare) && Lawful(log, cfg, compare)
    ensures SentLast(log) ==> StateOf(log, cfg) >= SEND_STATE
  {
    if log != [] {
      assert LawfulAt(log, |log| - 1, cfg, compare);
      assert log[..|log|] == log;
    }
  }

  /** An entry recorded by the rules keeps the history lawful. */
  lemma HistoryGrows(log: seq<Entry>, entry: Entry, cfg: Settings, compare: Comparison)
    requires LegalComparison(compare) && Lawful(log, cfg, compare)
    requires LawfulAt(log + [entry], |log|, cfg, compare)
    ensures Lawful(log + [entry], cfg, compare)
  {
    var longer := log + [entry];
    forall k | 0 <= k < |longer|
      ensures LawfulAt(longer, k, cfg, compare)
    {
      if k < |log| {
        assert LawfulAt(log, k, cfg, compare);
        assert longer[..k] == log[..k] && longer[..k + 1] == log[..k + 1];
      }
    }
  }

  /** And it keeps the detector's fields in step with it. */
  lemma {:induction false} HistoryStep(log: seq<Entry>, entry: Entry, cfg: Settings, compare: Comparison)
    requires LegalComparison(compare) && Lawful(log, cfg, compare)
    requires entry.changes == Changes(compare, log, entry.frame)
    requires entry.now - LastTime(log, cfg) >= cfg.compareTimer
    requires var next := NextState(StateOf(log, cfg), SentLast(log), entry.changes, cfg);
             entry.sent <==> next >= SEND_STATE && entry.now - LastSendTime(log, cfg) >= cfg.serverWaitTime
    ensures InStep(log + [entry], cfg, compare, NextState(StateOf(log, cfg), SentLast(log), entry.changes, cfg),
                   entry.sent, entry.now, if entry.sent then entry.now else LastSendTime(log, cfg), [entry.frame])
  {
    var longer := log + [entry];
    SentMeansReady(log, cfg, compare);
    StateStep(log, entry, cfg);
    assert longer[..|log|] == log && longer[..|log| + 1] == longer;
    HistoryGrows(log, entry, cfg, compare);
  }

  // ------------------------------------------------------------------ what follows for whole runs

  /** Between two consecutive reports, and before the first, there is a busy frame; the reporting frame is quiet. */
  lemma BusyFrameBeforeEachSend(log: seq<Entry>, cfg: Settings, compare: Comparison, i: int, j: nat)
    requires LegalComparison(compare) && Lawful(log, cfg, compare)
    requires -1 <= i < j < |log| && log[j].sent && (i >= 0 ==> log[i].sent)
    ensures log[j].changes < cfg.minThr
    ensures exists m :: i < m < j && log[m].changes > cfg.maxThr
  {
    assert LawfulAt(log, j, cfg, compare);
    var upTo := log[..j + 1];
    var a := ArmedAt(upTo, Since(upTo), cfg);
    if i >= 0 {
      SinceAfter(upTo, i);
    }
    assert log[a].changes > cfg.maxThr;
  }

  /**
   * When a report is made, from the entries alone: exactly when the frame is quiet, a busy one came since the report
   * before, and the server wait time is over, which at first counts from a whole wait behind the start.
   */
  lemma ReportsExactly(log: seq<Entry>, cfg: Settings, compare: Comparison, i: int, k: nat)
    requires LegalComparison(compare) && Lawful(log, cfg, compare)
    requires -1 <= i < k < |log| && (i >= 0 ==> log[i].sent) && forall j :: i < j < k ==> !log[j].sent
    ensures log[k].sent <==>
            && (exists m :: i < m < k && log[m].changes > cfg.maxThr)
            && log[k].changes < cfg.minThr
            && log[k].now - (if i >= 0 then log[i].now else cfg.initTime + cfg.serverWaitTime) >= cfg.serverWaitTime
  {
    assert LawfulAt(log, k, cfg, compare);
    var upTo := log[..k + 1];
    LastReport(upTo, i, cfg);
    assert upTo[..k] == log[..k];
    var a := ArmedAt(upTo, i + 1, cfg);
    assert a < k ==> log[a].changes > cfg.maxThr;
  }

  /** The last report but for the newest entry decides where arming and the wait start. */
  lemma {:induction false} LastReport(log: seq<Entry>, i: int, cfg: Settings)
    requires -1 <= i < |log| - 1 && (i >= 0 ==> log[i].sent) && forall j :: i < j < |log| - 1 ==> !log[j].sent
    ensures Since(log) == i + 1
    ensures LastSendTime(log[..|log| - 1], cfg) == if i >= 0 then log[i].now else cfg.initTime + cfg.serverWaitTime
  {
    var shorter := log[..|log| - 1];
    if shorter != [] && i < |shorter| - 1 {
      LastReport(shorter, i, cfg);
    }
  }

  lemma {:induction false} SinceAfter(log: seq<Entry>, i: nat)
    requires i < |log| - 1 && log[i].sent
    ensures i < Since(log)
  {
    if !log[|log| - 2].sent {
      SinceAfter(log[..|log| - 1], i);
    }
  }

  /** Since arming, the state counts exactly the quiet frames at the end of the history. */
  lemma {:induction false} StateCountsQuietFrames(log: seq<Entry>, cfg: Settings, a: nat)
    requires a == ArmedAt(log, Since(log), cfg) < |log|
    ensures var n := StateOf(log, cfg) - 1;
            && 0 <= n < |log| - a
            && (forall k :: |log| - n <= k < |log| ==> log[k].changes < cfg.minThr)
            && (n < |log| - a - 1 ==> log[|log| - n - 1].changes >= cfg.minThr)
  {
    var n := QuietRun(log, a + 1, cfg);
  }

  function Sends(log: seq<Entry>): nat {
    if log == [] then 0 else Sends(log[..|log| - 1]) + if log[|log| - 1].sent then 1 else 0
  }

  lemma LawfulPrefix(log: seq<Entry>, cfg: Settings, compare: Comparison)
    requires LegalComparison(compare) && log != [] && Lawful(log, cfg, compare)
    ensures Lawful(log[..|log| - 1], cfg, compare)
  {
    var shorter := log[..|log| - 1];
    forall k | 0 <= k < |shorter|
      ensures LawfulAt(shorter, k, cfg, compare)
    {
      assert LawfulAt(log, k, cfg, compare);
      assert shorter[..k] == log[..k] && shorter[..k + 1] == log[..k + 1];
    }
  }

  /** The k-th processed frame is not before initTime + (k + 1) * compareTimer, whatever the calls. */
  lemma FramePacing(log: seq<Entry>, cfg: Settings, compare: Comparison)
    requires LegalComparison(compare) && Lawful(log, cfg, compare)
    ensures LastTime(log, cfg) >= cfg.initTime + (|log| + 1) * cfg.compareTimer
  {
    if log != [] {
      assert LawfulAt(log, |log| - 1, cfg, compare);
      LawfulPrefix(log, cfg, compare);
      FramePacing(log[..|log| - 1], cfg, compare);
      NextMultiple(|log|, cfg.compareTimer);
    }
  }

  /** The k-th report is not before initTime + (k + 1) * serverWaitTime, whatever the calls. */
  lemma {:induction false} SendPacing(log: seq<Entry>, cfg: Settings, compare: Comparison)
    requires LegalComparison(compare) && Lawful(log, cfg, compare)
    ensures LastSendTime(log, cfg) >= cfg.initTime + (Sends(log) + 1) * cfg.serverWaitTime
  {
    if log != [] {
      assert LawfulAt(log, |log| - 1, cfg, compare);
      LawfulPrefix(log, cfg, compare);
      SendPacing(log[..|log| - 1], cfg, compare);
      NextMultiple(Sends(log), cfg.serverWaitTime);
    }
  }

  lemma NextMultiple(n: int, t: int)
    ensures (n + 1) * t == n * t + t
  {
  }

  /** The first frame, and every frame of a new size, counts no changes: it cannot arm the detector. */
  lemma NewSizeDoesNotArm(log: seq<Entry>, entry: Entry, cfg: Settings, compare: Comparison)
    requires LegalComparison(compare) && cfg.maxThr >= 0
    requires entry.changes == Changes(compare, log, entry.frame)
    requires log == [] || log[|log| - 1].frame.width != entry.frame.width
             || log[|log| - 1].frame.height != entry.frame.height
    requires SentLast(log) ==> StateOf(log, cfg) >= SEND_STATE
    ensures StateOf(log + [entry], cfg) != 0 ==> StateOf(log, cfg) != 0 && !log[|log| - 1].sent
  {
    StateStep(log, entry, cfg);
  }
}
