/**
 * The wait/signal protocol of src/camera/callbackAudioQueue.c: one consumer thread and any
 * number of threads that push records or close the player. Every shared access is one step of
 * the machine; the mutex decides which steps are enabled, and the condition variable may wake
 * the consumer at any time.
 */
module AudioQueue {

  /** Where the consumer is: the loop of AudioOutputThreadProc and AudioQueueWait inside it. */
  datatype ConsumerPc =
    | Top          // test uThreadRunning
    | EnterWait    // pthread_mutex_lock
    | CheckSignal  // if (!uThreadSignal)
    | SetWait      // uThreadWait = 1
    | CallWait     // about to release the mutex and block
    | Blocked      // inside pthread_cond_wait, no wake pending
    | Woken        // inside pthread_cond_wait, waiting for the mutex
    | ClearWait    // uThreadWait = 0
    | ClearSignal  // uThreadSignal = 0
    | Unlock       // pthread_mutex_unlock
    | Drain        // pop until the queue is empty
    | Stopped

  /** Where a pushing or closing thread is: AudioQueueSignal after its push, or after clearing uThreadRunning. */
  datatype SignalerPc =
    | Idle
    | WantLock     // pthread_mutex_lock
    | SetSignal    // uThreadSignal = 1
    | TestWait     // if (uThreadWait)
    | Notify       // pthread_cond_signal
    | Release      // pthread_mutex_unlock

  datatype Owner = Free | Consumer | Signaler(id: nat)

  datatype State<Frame> = State(
    mutex: Owner,
    signal: bool,                       // uThreadSignal
    waiting: bool,                      // uThreadWait
    running: bool,                      // uThreadRunning
    consumer: ConsumerPc,
    signalers: map<nat, SignalerPc>,
    queue: seq<Frame>,                  // inside the convert library
    pushed: seq<Frame>,                 // every frame ever pushed
    popped: seq<Frame>,                 // every frame ever popped
    lateWaits: nat)                     // calls of AudioQueueWait finished after the player was closed

  datatype Step<Frame> =
    | ConsumerStep
    | SpuriousWake
    | SignalerStep(id: nat)             // the next statement of AudioQueueSignal
    | Push(id: nat, frame: Frame)       // pgDevAudioConvertPush succeeds
    | FailedPush(id: nat)
    | Close(id: nat)                    // pgDevAudioQueuePlayClose clears uThreadRunning
    | OtherPop                          // pgDevAudioQueueRecordPop from another thread

  function Init<Frame>(threads: set<nat>): State<Frame> {
    State(Free, false, false, true, Top, map p | p in threads :: Idle, [], [], [], 0)
  }

  predicate ConsumerEnabled(s: State) {
    match s.consumer
    case EnterWait | Woken => s.mutex == Free
    case Blocked | Stopped => false
    case _ => true
  }

  function ConsumerNext<Frame>(s: State<Frame>): State<Frame>
    requires ConsumerEnabled(s)
  {
    match s.consumer
    case Top => s.(consumer := if s.running then EnterWait else Stopped)
    case EnterWait => s.(mutex := Consumer, consumer := CheckSignal)
    case CheckSignal => s.(consumer := if s.signal then ClearSignal else SetWait)
    case SetWait => s.(waiting := true, consumer := CallWait)
    case CallWait => s.(mutex := Free, consumer := Blocked)
    case Woken => s.(mutex := Consumer, consumer := ClearWait)
    case ClearWait => s.(waiting := false, consumer := ClearSignal)
    case ClearSignal => s.(signal := false, consumer := Unlock)
    case Unlock => s.(mutex := Free, consumer := Drain, lateWaits := if s.running then 0 else s.lateWaits + 1)
    case Drain => if s.queue == [] then s.(consumer := Top) else Pop(s)
  }

  function Pop<Frame>(s: State<Frame>): State<Frame>
    requires s.queue != []
  {
    s.(queue := s.queue[1..], popped := s.popped + [s.queue[0]])
  }

  predicate SignalerEnabled(s: State, p: nat) {
    && p in s.signalers
    && s.signalers[p] != Idle
    && (s.signalers[p] == WantLock ==> s.mutex == Free)
  }

  function SignalerNext<Frame>(s: State<Frame>, p: nat): State<Frame>
    requires SignalerEnabled(s, p)
  {
    match s.signalers[p]
    case WantLock => s.(mutex := Signaler(p), signalers := s.signalers[p := SetSignal])
    case SetSignal => s.(signal := true, signalers := s.signalers[p := TestWait])
    case TestWait => s.(signalers := s.signalers[p := if s.waiting then Notify else Release])
    case Notify => s.(consumer := if s.consumer == Blocked then Woken else s.consumer,
                      signalers := s.signalers[p := Release])
    case Release => s.(mutex := Free, signalers := s.signalers[p := Idle])
  }

  predicate Enabled<Frame>(s: State<Frame>, step: Step<Frame>) {
    match step
    case ConsumerStep => ConsumerEnabled(s)
    case SpuriousWake => s.consumer == Blocked
    case SignalerStep(p) => SignalerEnabled(s, p)
    case Push(p, _) => p in s.signalers && s.signalers[p] == Idle
    case FailedPush(p) => p in s.signalers && s.signalers[p] == Idle
    case Close(p) => p in s.signalers && s.signalers[p] == Idle
    case OtherPop => s.queue != []
  }

  function Next<Frame>(s: State<Frame>, step: Step<Frame>): State<Frame>
    requires Enabled(s, step)
  {
    match step
    case ConsumerStep => ConsumerNext(s)
    case SpuriousWake => s.(consumer := Woken)
    case SignalerStep(p) => SignalerNext(s, p)
    case Push(p, frame) =>
      s.(queue := s.queue + [frame], pushed := s.pushed + [frame], signalers := s.signalers[p := WantLock])
    case FailedPush(p) => s
    case Close(p) => s.(running := false, signalers := s.signalers[p := WantLock])
    case OtherPop => Pop(s)
  }

  /** The steps can be taken one after the other, each one enabled when its turn comes. */
  ghost predicate CanRun<Frame>(s: State<Frame>, steps: seq<Step<Frame>>)
    decreases |steps|
  {
    steps == [] || (Enabled(s, steps[0]) && CanRun(Next(s, steps[0]), steps[1..]))
  }

  ghost function After<Frame>(s: State<Frame>, steps: seq<Step<Frame>>): State<Frame>
    requires CanRun(s, steps)
    decreases |steps|
  {
    if steps == [] then s else After(Next(s, steps[0]), steps[1..])
  }

  /** Some thread has closed the player. */
  ghost predicate Closes(steps: seq<Step>) {
    exists i :: 0 <= i < |steps| && steps[i].Close?
  }

  /** The frames pushed, in the order of their pushes. */
  function FramesPushed<Frame>(steps: seq<Step<Frame>>): seq<Frame> {
    if steps == [] then []
    else (if steps[0].Push? then [steps[0].frame] else []) + FramesPushed(steps[1..])
  }

  /** How many calls of AudioQueueWait the consumer finishes. */
  ghost function WaitsFinished<Frame>(s: State<Frame>, steps: seq<Step<Frame>>): nat
    requires CanRun(s, steps)
    decreases |steps|
  {
    if steps == [] then 0
    else
      (if steps[0].ConsumerStep? && s.consumer == Unlock then 1 else 0) + WaitsFinished(Next(s, steps[0]), steps[1..])
  }

  lemma ClosesFirst(steps: seq<Step>)
    requires steps != []
    ensures Closes(steps) <==> steps[0].Close? || Closes(steps[1..])
  {
    var rest := steps[1..];
    assert forall i :: 1 <= i < |steps| ==> steps[i] == rest[i - 1];
    assert forall i :: 0 <= i < |rest| ==> rest[i] == steps[i + 1];
  }

  /** The player runs until some thread closes it, and never again after that. */
  lemma {:induction false} RunsUntilClosed<Frame>(s: State<Frame>, steps: seq<Step<Frame>>)
    requires CanRun(s, steps)
    ensures After(s, steps).running <==> s.running && !Closes(steps)
    decreases |steps|
  {
    if steps != [] {
      ClosesFirst(steps);
      RunsUntilClosed(Next(s, steps[0]), steps[1..]);
    }
  }

  lemma NextPushed<Frame>(s: State<Frame>, step: Step<Frame>)
    requires Enabled(s, step)
    ensures Next(s, step).pushed == s.pushed + if step.Push? then [step.frame] else []
  {
  }

  /** What has been pushed is what the threads pushed. */
  lemma {:induction false} PushedByThreads<Frame>(s: State<Frame>, steps: seq<Step<Frame>>)
    requires CanRun(s, steps)
    ensures After(s, steps).pushed == s.pushed + FramesPushed(steps)
    decreases |steps|
  {
    hide Next, Enabled;
    if steps != [] {
      PushedByThreads(Next(s, steps[0]), steps[1..]);
      NextPushed(s, steps[0]);
      var first := if steps[0].Push? then [steps[0].frame] else [];
      assert (s.pushed + first) + FramesPushed(steps[1..]) == s.pushed + (first + FramesPushed(steps[1..]));
    }
  }

  // ------------------------------------------------------------------ the invariant

  predicate ConsumerHolds(pc: ConsumerPc) {
    pc in {CheckSignal, SetWait, CallWait, ClearWait, ClearSignal, Unlock}
  }

  predicate SignalerHolds(pc: SignalerPc) {
    pc in {SetSignal, TestWait, Notify, Release}
  }

  /** Inside the wait: from setting uThreadWait to clearing it again. */
  predicate InWait(pc: ConsumerPc) {
    pc in {CallWait, Blocked, Woken, ClearWait}
  }

  /** On the way to popping without blocking first. */
  predicate WillDrain(pc: ConsumerPc) {
    pc in {Woken, ClearWait, ClearSignal, Unlock, Drain}
  }

  /** Some thread has pushed or closed and has not yet raised the signal. */
  ghost predicate SignalComing(s: State) {
    exists p :: p in s.signalers && s.signalers[p] in {WantLock, SetSignal}
  }

  /** Some thread is between its push (or close) and the end of its notification. */
  ghost predicate InFlight(s: State) {
    exists p :: p in s.signalers && s.signalers[p] in {WantLock, SetSignal, TestWait, Notify}
  }

  /** The signal is up and its owner is about to look at uThreadWait or to notify. */
  ghost predicate WakeComing(s: State) {
    exists p :: p in s.signalers && s.signalers[p] in {TestWait, Notify}
  }

  ghost predicate MutexInv(s: State) {
    && (s.mutex == Consumer <==> ConsumerHolds(s.consumer))
    && (forall p :: p in s.signalers && SignalerHolds(s.signalers[p]) ==> s.mutex == Signaler(p))
    && (s.mutex.Signaler? ==> s.mutex.id in s.signalers && SignalerHolds(s.signalers[s.mutex.id]))
  }

  ghost predicate SignalInv(s: State) {
    && (s.waiting <==> InWait(s.consumer))
    && (s.consumer in {SetWait, CallWait} ==> !s.signal)
    && (s.consumer == Blocked && s.signal ==> WakeComing(s))
    && (s.queue != [] ==> s.signal || SignalComing(s) || WillDrain(s.consumer))
    && (!s.running ==> s.signal || SignalComing(s) || WillDrain(s.consumer) || s.consumer in {Top, Stopped})
  }

  ghost predicate HistoryInv(s: State) {
    && s.pushed == s.popped + s.queue
    && s.lateWaits <= 1
    && (s.lateWaits == 1 ==> !s.running && s.consumer in {Drain, Top, Stopped})
    && (s.consumer == Stopped ==> !s.running)
  }

  ghost predicate Inv(s: State) {
    MutexInv(s) && SignalInv(s) && HistoryInv(s)
  }

  lemma ConsumerKeepsInv<Frame>(s: State<Frame>)
    requires Inv(s) && ConsumerEnabled(s)
    ensures Inv(ConsumerNext(s))
  {
    ConsumerKeepsMutex(s);
    ConsumerKeepsSignal(s);
    ConsumerKeepsHistory(s);
  }

  lemma ConsumerKeepsSignal<Frame>(s: State<Frame>)
    requires MutexInv(s) && SignalInv(s) && ConsumerEnabled(s)
    ensures SignalInv(ConsumerNext(s))
  {
    SameSignalers(s, ConsumerNext(s));
  }

  lemma ConsumerKeepsHistory<Frame>(s: State<Frame>)
    requires HistoryInv(s) && ConsumerEnabled(s)
    ensures HistoryInv(ConsumerNext(s))
  {
    assert s.consumer == Drain && s.queue != [] ==> s.popped + s.queue == s.popped + [s.queue[0]] + s.queue[1..];
  }

  lemma ConsumerKeepsMutex<Frame>(s: State<Frame>)
    requires MutexInv(s) && ConsumerEnabled(s)
    ensures MutexInv(ConsumerNext(s))
  {
  }

  lemma SameSignalers<Frame>(s: State<Frame>, t: State<Frame>)
    requires t.signalers == s.signalers
    ensures SignalComing(s) <==> SignalComing(t)
    ensures WakeComing(s) <==> WakeComing(t)
  {
  }

  lemma SignalerKeepsInv<Frame>(s: State<Frame>, p: nat)
    requires Inv(s) && SignalerEnabled(s, p)
    ensures Inv(SignalerNext(s, p))
  {
    SignalerKeepsMutex(s, p);
    SignalerKeepsComing(s, p);
  }

  lemma SignalerKeepsMutex<Frame>(s: State<Frame>, p: nat)
    requires MutexInv(s) && SignalerEnabled(s, p)
    ensures MutexInv(SignalerNext(s, p))
  {
    var t := SignalerNext(s, p);
    assert forall q :: q in t.signalers && q != p ==> t.signalers[q] == s.signalers[q];
  }

  /** The signal stays announced until it is up, and a wake until it is given. */
  lemma SignalerKeepsComing<Frame>(s: State<Frame>, p: nat)
    requires SignalerEnabled(s, p)
    ensures var t := SignalerNext(s, p);
            && (SignalComing(s) ==> SignalComing(t) || t.signal)
            && (s.signalers[p] == SetSignal ==> WakeComing(t))
            && (WakeComing(s) ==>
                  WakeComing(t) || s.signalers[p] == Notify || (s.signalers[p] == TestWait && !s.waiting))
  {
    var t := SignalerNext(s, p);
    assert t.signalers[p] == t.signalers[p];
    if SignalComing(s) {
      var q :| q in s.signalers && s.signalers[q] in {WantLock, SetSignal};
      assert q != p ==> t.signalers[q] in {WantLock, SetSignal};
    }
    if WakeComing(s) {
      var q :| q in s.signalers && s.signalers[q] in {TestWait, Notify};
      assert q != p ==> t.signalers[q] in {TestWait, Notify};
    }
  }

  lemma StepKeepsInv<Frame>(s: State<Frame>, step: Step<Frame>)
    requires Inv(s) && Enabled(s, step)
    ensures Inv(Next(s, step))
  {
    var t := Next(s, step);
    match step
    case ConsumerStep => ConsumerKeepsInv(s);
    case SignalerStep(p) => SignalerKeepsInv(s, p);
    case SpuriousWake => assert SignalComing(s) ==> SignalComing(t);
    case FailedPush(_) =>
    case OtherPop =>
      assert s.popped + s.queue == s.popped + [s.queue[0]] + s.queue[1..];
      assert SignalComing(s) ==> SignalComing(t);
      assert WakeComing(s) ==> WakeComing(t);
    case Push(p, _) =>
      assert t.signalers[p] == WantLock;
      forall q | q in s.signalers && s.signalers[q] in {TestWait, Notify}
        ensures WakeComing(t)
      {
        assert t.signalers[q] == s.signalers[q];
      }
    case Close(p) =>
      assert t.signalers[p] == WantLock;
      forall q | q in s.signalers && s.signalers[q] in {TestWait, Notify}
        ensures WakeComing(t)
      {
        assert t.signalers[q] == s.signalers[q];
      }
  }

  lemma {:induction false} RunKeepsInv<Frame>(s: State<Frame>, steps: seq<Step<Frame>>)
    requires Inv(s) && CanRun(s, steps)
    ensures Inv(After(s, steps))
    decreases |steps|
  {
    if steps != [] {
      StepKeepsInv(s, steps[0]);
      RunKeepsInv(Next(s, steps[0]), steps[1..]);
    }
  }

  // ------------------------------------------------------------------ what holds in every run

  lemma InitInv<Frame>(threads: set<nat>)
    ensures Inv(Init<Frame>(threads))
  {
  }

  /**
   * No lost wakeup, in every reachable state: a consumer blocked although there is something to
   * pop, or although the player was closed, has a thread on its way to wake it.
   */
  lemma {:induction false} NoLostWakeup<Frame>(threads: set<nat>, steps: seq<Step<Frame>>)
    requires CanRun(Init(threads), steps)
    ensures var s := After(Init(threads), steps);
            && (s.consumer == Blocked && (s.queue != [] || Closes(steps)) ==> InFlight(s))
            && (s.waiting <==> InWait(s.consumer))
  {
    InitInv<Frame>(threads);
    RunKeepsInv(Init(threads), steps);
    RunsUntilClosed(Init(threads), steps);
    var s := After(Init(threads), steps);
    assert SignalComing(s) || WakeComing(s) ==> InFlight(s);
  }

  /** The protected fields are touched by one thread at a time, and frames leave in the order they were pushed. */
  lemma {:induction false} ExclusionAndOrder<Frame>(threads: set<nat>, steps: seq<Step<Frame>>, p: nat, q: nat)
    requires CanRun(Init(threads), steps)
    ensures var s := After(Init(threads), steps);
            && FramesPushed(steps) == s.popped + s.queue
            && (p in s.signalers && q in s.signalers && SignalerHolds(s.signalers[p]) && SignalerHolds(s.signalers[q])
                ==> p == q && !ConsumerHolds(s.consumer))
  {
    InitInv<Frame>(threads);
    RunKeepsInv(Init(threads), steps);
    PushedByThreads(Init(threads), steps);
  }

  /** After the player is closed the consumer finishes at most one more wait, and only then stops. */
  lemma {:induction false} AtMostOneLateWait<Frame>(threads: set<nat>, steps: seq<Step<Frame>>, more: seq<Step<Frame>>)
    requires CanRun(Init(threads), steps) && CanRun(After(Init(threads), steps), more)
    ensures Closes(steps) ==> WaitsFinished(After(Init(threads), steps), more) <= 1
    ensures After(Init(threads), steps).consumer == Stopped ==> Closes(steps)
  {
    InitInv<Frame>(threads);
    RunKeepsInv(Init(threads), steps);
    RunsUntilClosed(Init(threads), steps);
    if Closes(steps) {
      LateWaitsCounted(After(Init(threads), steps), more);
    }
  }

  /** After a close the machine counts every wait that is finished. */
  lemma {:induction false} LateWaitsCounted<Frame>(s: State<Frame>, more: seq<Step<Frame>>)
    requires Inv(s) && !s.running && CanRun(s, more)
    ensures s.lateWaits + WaitsFinished(s, more) <= 1
    decreases |more|
  {
    if more != [] {
      StepKeepsInv(s, more[0]);
      LateWaitsCounted(Next(s, more[0]), more[1..]);
    }
  }

  /** Every pushing or closing thread has returned. */
  ghost predicate Quiet(s: State) {
    forall p :: p in s.signalers ==> s.signalers[p] == Idle
  }

  /** The consumer's own steps to a wait on an empty queue, or to its end once the player is closed. */
  function StepsLeft(s: State): nat {
    |s.queue| + match s.consumer
                case Drain => if s.signal then 12 else 6
                case Top => if s.signal then 11 else 5
                case EnterWait => if s.signal then 10 else 4
                case CheckSignal => if s.signal then 9 else 3
                case SetWait => 2
                case CallWait => 1
                case Blocked | Stopped => 0
                case Woken => 10
                case ClearWait => 9
                case ClearSignal => 8
                case Unlock => if s.signal then 13 else 7
  }

  /** The consumer sleeps on an empty queue, or after a close has left its loop. */
  predicate Settled(s: State) {
    if s.running then s.queue == [] && s.consumer == Blocked else s.consumer == Stopped
  }

  lemma ConsumerAdvances<Frame>(s: State<Frame>)
    requires Inv(s) && Quiet(s) && !Settled(s)
    ensures ConsumerEnabled(s)
    ensures var t := ConsumerNext(s);
            Quiet(t) && t.running == s.running && t.pushed == s.pushed && StepsLeft(t) < StepsLeft(s)
  {
    assert !SignalComing(s) && !WakeComing(s);
    ConsumerStepCounts(s);
  }

  ghost function ConsumerSteps<Frame>(n: nat): seq<Step<Frame>> {
    if n == 0 then [] else [ConsumerStep] + ConsumerSteps(n - 1)
  }

  /**
   * From every reachable state in which the other threads have returned, the consumer by itself
   * settles within |queue| + 13 steps: asleep with all pushed frames popped, or out of its loop after a close.
   */
  lemma ConsumerSettles<Frame>(threads: set<nat>, steps: seq<Step<Frame>>) returns (n: nat)
    requires CanRun(Init(threads), steps)
    requires Quiet(After(Init(threads), steps))
    ensures var s := After(Init(threads), steps);
            && n <= |s.queue| + 13
            && CanRun(s, ConsumerSteps(n))
            && var t := After(s, ConsumerSteps(n));
               if Closes(steps) then t.consumer == Stopped
               else t.consumer == Blocked && t.queue == [] && t.popped == FramesPushed(steps)
  {
    InitInv<Frame>(threads);
    RunKeepsInv(Init(threads), steps);
    RunsUntilClosed(Init(threads), steps);
    PushedByThreads(Init(threads), steps);
    n := SettleFrom(After(Init(threads), steps));
    ghost var t := After(After(Init(threads), steps), ConsumerSteps(n));
    assert t.queue == [] ==> t.popped + t.queue == t.popped;
  }

  lemma SettleFrom<Frame>(s: State<Frame>) returns (n: nat)
    requires Inv(s) && Quiet(s)
    ensures n <= StepsLeft(s)
    ensures CanRun(s, ConsumerSteps(n))
    ensures var t := After(s, ConsumerSteps(n));
            Inv(t) && Settled(t) && t.running == s.running && t.pushed == s.pushed
    decreases StepsLeft(s)
  {
    if Settled(s) {
      n := 0;
    } else {
      ConsumerAdvances(s);
      ConsumerKeepsInv(s);
      var m := SettleFrom(ConsumerNext(s));
      n := m + 1;
      assert ConsumerSteps<Frame>(n)[1..] == ConsumerSteps<Frame>(m);
    }
  }

  // ------------------------------------------------------------------ all threads together

  /** A statement of the consumer or of a thread that has pushed or closed. */
  predicate OwnStep(step: Step) { step.ConsumerStep? || step.SignalerStep? }

  /** The statements a thread has left in AudioQueueSignal. */
  function StatementsLeft(pc: SignalerPc): nat {
    match pc
    case Idle => 0
    case Release => 1
    case Notify => 2
    case TestWait => 3
    case SetSignal => 4
    case WantLock => 5
  }

  ghost function AllStatementsLeft(signalers: map<nat, SignalerPc>): nat
    decreases |signalers|
  {
    if signalers == map[] then 0
    else
      var p :| p in signalers;
      StatementsLeft(signalers[p]) + AllStatementsLeft(signalers - {p})
  }

  /** Any thread can be counted first. */
  lemma {:induction false} CountFirst(signalers: map<nat, SignalerPc>, p: nat)
    requires p in signalers
    ensures AllStatementsLeft(signalers) == StatementsLeft(signalers[p]) + AllStatementsLeft(signalers - {p})
    decreases |signalers|
  {
    var q :| q in signalers && AllStatementsLeft(signalers) ==
                               StatementsLeft(signalers[q]) + AllStatementsLeft(signalers - {q});
    if q != p {
      CountFirst(signalers - {q}, p);
      CountFirst(signalers - {p}, q);
      assert signalers - {q} - {p} == signalers - {p} - {q};
    }
  }

  lemma {:induction false} CountChanged(signalers: map<nat, SignalerPc>, p: nat, pc: SignalerPc)
    requires p in signalers
    ensures AllStatementsLeft(signalers[p := pc]) + StatementsLeft(signalers[p]) ==
            AllStatementsLeft(signalers) + StatementsLeft(pc)
  {
    CountFirst(signalers, p);
    CountFirst(signalers[p := pc], p);
    assert signalers[p := pc] - {p} == signalers - {p};
  }

  /** A raised signal or a notification costs the consumer at most ten more steps. */
  ghost function Work(s: State): nat { 11 * AllStatementsLeft(s.signalers) + StepsLeft(s) }

  lemma WorkFalls<Frame>(s: State<Frame>, step: Step<Frame>)
    requires Enabled(s, step) && OwnStep(step)
    ensures Work(Next(s, step)) < Work(s)
    ensures Next(s, step).running == s.running && Next(s, step).pushed == s.pushed
  {
    if step.SignalerStep? {
      SignalerRaisesLittle(s, step.id);
      CountChanged(s.signalers, step.id, Next(s, step).signalers[step.id]);
    } else {
      ConsumerStepCounts(s);
    }
  }

  lemma SignalerRaisesLittle<Frame>(s: State<Frame>, p: nat)
    requires SignalerEnabled(s, p)
    ensures var t := SignalerNext(s, p);
            && StepsLeft(t) <= StepsLeft(s) + 10 && t.running == s.running && t.pushed == s.pushed
            && t.signalers == s.signalers[p := t.signalers[p]]
            && StatementsLeft(t.signalers[p]) < StatementsLeft(s.signalers[p])
  {
  }

  lemma ConsumerStepCounts<Frame>(s: State<Frame>)
    requires ConsumerEnabled(s)
    ensures var t := ConsumerNext(s);
            StepsLeft(t) < StepsLeft(s) && t.running == s.running && t.pushed == s.pushed && t.signalers == s.signalers
  {
  }

  /** Until all have returned and the consumer has settled, some thread can take a step. */
  lemma SomeoneAdvances<Frame>(s: State<Frame>)
    requires Inv(s)
    ensures Quiet(s) && Settled(s) <==> forall step: Step<Frame> :: OwnStep(step) ==> !Enabled(s, step)
  {
    if !Quiet(s) {
      var p :| p in s.signalers && s.signalers[p] != Idle;
      match s.mutex
      case Free => assert Enabled(s, SignalerStep(p));
      case Consumer => assert Enabled(s, ConsumerStep);
      case Signaler(q) => assert Enabled(s, SignalerStep(q));
    } else if !Settled(s) {
      ConsumerAdvances(s);
      assert Enabled(s, ConsumerStep);
    }
  }

  lemma {:induction false} OwnStepsSettle<Frame>(s: State<Frame>, more: seq<Step<Frame>>)
    requires Inv(s) && CanRun(s, more) && forall i :: 0 <= i < |more| ==> OwnStep(more[i])
    ensures var t := After(s, more);
            Inv(t) && |more| + Work(t) <= Work(s) && t.running == s.running && t.pushed == s.pushed
    decreases |more|
  {
    if more != [] {
      var step, rest := more[0], more[1..];
      assert OwnStep(step) && Enabled(s, step);
      StepKeepsInv(s, step);
      WorkFalls(s, step);
      assert forall i :: 0 <= i < |rest| ==> rest[i] == more[i + 1];
      OwnStepsSettle(Next(s, step), rest);
    }
  }

  /**
   * From every reachable state, pushers and closers in flight included: the threads by themselves take a bounded
   * number of steps, whatever the order, and they can take no more exactly when all have returned and the consumer
   * has settled. Then every pushed frame is popped, or the loop is left.
   */
  lemma {:induction false} EveryRunSettles<Frame>(threads: set<nat>, steps: seq<Step<Frame>>, more: seq<Step<Frame>>)
    requires CanRun(Init(threads), steps)
    requires CanRun(After(Init(threads), steps), more) && forall i :: 0 <= i < |more| ==> OwnStep(more[i])
    ensures var s := After(Init(threads), steps);
            var t := After(s, more);
            && |more| <= Work(s)
            && ((forall step: Step<Frame> :: OwnStep(step) ==> !Enabled(t, step)) <==>
                Quiet(t) && if Closes(steps) then t.consumer == Stopped else t.consumer == Blocked && t.queue == [])
            && (t.queue == [] ==> t.popped == FramesPushed(steps))
  {
    InitInv<Frame>(threads);
    RunKeepsInv(Init(threads), steps);
    RunsUntilClosed(Init(threads), steps);
    PushedByThreads(Init(threads), steps);
    var s := After(Init(threads), steps);
    var t := After(s, more);
    OwnStepsSettle(s, more);
    SomeoneAdvances(t);
    assert t.queue == [] ==> t.popped + t.queue == t.popped;
    hide Enabled, CanRun, After;
  }
}
