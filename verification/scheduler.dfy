/** The controller of the sketch: `setup`, which brings the sensor up,
    negotiates its mode and lays down the two schedule anchors, and `loop`,
    one measurement cycle per call.

    The sensor driver, the clock and the interrupt are inputs: each cycle is
    given the `millis()` samples it reads, the driver's answers and the
    position of the data-ready interrupt among the flag reads. */
module Scheduler {
  import opened Wrappers
  import opened Clock
  import opened Sunrise
  import opened Wait
  import ModeSwitch

  /** `MEASUREMENT_INTERVAL`: five minutes, in milliseconds. */
  const MEASUREMENT_INTERVAL: nat := 300000

  /** `MS_PER_H`: one hour, in milliseconds. */
  const MS_PER_H: nat := 3600000

  /** The mode the controller wants the sensor in: single-shot measurement. */
  const MEASUREMENT_MODE: MeasurementMode := Single

  /** The controller's globals: the software hour counter, which is the
      source of truth for the sensor's ABC clock, and the two anchors. */
  datatype State = State(hourCount: u16, nextHour: u32, nextMeasurement: u32)

  /** Why `setup` stopped for good. */
  datatype Halt = BeginFailed | ModeFailed(reason: ModeSwitch.FatalReason)

  /** How `setup` ended: with the controller's initial state, halted, or
      still negotiating when the supplied driver answers ran out. */
  datatype Startup =
    | Started(state: State, calls: seq<Action>)
    | Halted(reason: Halt, calls: seq<Action>)
    | Negotiating(calls: seq<Action>)

  /** `setup`: `Begin` (halt on failure), `Awake`, `switchMode`, `Sleep`,
      then the anchors from two further `millis()` samples: `hourSample`
      for `nextHour` and `measurementSample` for `nextMeasurement`. */
  function Setup(beginOk: bool, attempts: seq<ModeSwitch.Attempt>, hourSample: u32, measurementSample: u32): (r: Startup)
    ensures r.Started? <==>
      beginOk && ModeSwitch.SwitchMode(MEASUREMENT_MODE, attempts).outcome == ModeSwitch.Converged
    ensures !beginOk ==> r == Halted(BeginFailed, [Begin])
    ensures r.Halted? <==> !beginOk || ModeSwitch.SwitchMode(MEASUREMENT_MODE, attempts).outcome.Fatal?
    ensures r.Halted? && beginOk ==>
      r.reason.ModeFailed? && ModeSwitch.SwitchMode(MEASUREMENT_MODE, attempts).outcome == ModeSwitch.Fatal(r.reason.reason)
    ensures r.Started? ==>
      && r.state.hourCount == 0
      && Sub32(r.state.nextHour, hourSample) == MS_PER_H
      && r.state.nextMeasurement == measurementSample
    ensures r.Started? ==> |r.calls| > 0 && r.calls[0] == Begin && r.calls[|r.calls| - 1] == Sleep
    ensures beginOk ==>
      r.calls == [Begin, Awake] + ModeSwitch.SwitchMode(MEASUREMENT_MODE, attempts).calls + (if r.Started? then [Sleep] else [])
  {
    if !beginOk then Halted(BeginFailed, [Begin])
    else
      var n := ModeSwitch.SwitchMode(MEASUREMENT_MODE, attempts);
      var calls := [Begin, Awake] + n.calls;
      match n.outcome
      case Converged =>
        SubAfterAdd(hourSample, MS_PER_H);
        Started(State(0, Add32(hourSample, MS_PER_H), measurementSample), calls + [Sleep])
      case Fatal(reason) => Halted(ModeFailed(reason), calls)
      case Unfinished => Negotiating(calls)
  }

  /** A halted setup never puts the sensor back to sleep, and a started one
      does so exactly once, as its last call. */
  lemma {:induction false} SetupSleeps(beginOk: bool, attempts: seq<ModeSwitch.Attempt>, hourSample: u32, measurementSample: u32)
    ensures var r := Setup(beginOk, attempts, hourSample, measurementSample);
      && (r.Halted? ==> Count(r.calls, Sleep) == 0)
      && (r.Started? ==> Count(r.calls, Sleep) == 1)
  {
    var n := ModeSwitch.SwitchMode(MEASUREMENT_MODE, attempts);
    ModeSwitch.CallCounts(MEASUREMENT_MODE, attempts);
    assert !ModeSwitch.ModeCall(Sleep, MEASUREMENT_MODE);
    CountPositive(n.calls, Sleep);
    CountPositive([Begin, Awake], Sleep);
    CountOne(Sleep, Sleep);
    CountConcat([Begin, Awake], n.calls, Sleep);
    CountConcat([Begin, Awake] + n.calls, [Sleep], Sleep);
  }

  /** The driver call whose failure stopped `setup`. */
  function FailedCall(h: Halt): Action
  {
    match h
    case BeginFailed => Begin
    case ModeFailed(GetModeFailed) => GetMeasurementModeEE
    case ModeFailed(SetModeFailed) => SetMeasurementModeEE(MEASUREMENT_MODE)
    case ModeFailed(RestartFailed) => HardRestart
  }

  /** Fail-stop: a halted `setup` makes no call after the one that failed. */
  lemma {:induction false} SetupStopsAtFailedCall(beginOk: bool, attempts: seq<ModeSwitch.Attempt>, hourSample: u32, measurementSample: u32)
    requires Setup(beginOk, attempts, hourSample, measurementSample).Halted?
    ensures var r := Setup(beginOk, attempts, hourSample, measurementSample);
      |r.calls| > 0 && r.calls[|r.calls| - 1] == FailedCall(r.reason)
  {
    var r := Setup(beginOk, attempts, hourSample, measurementSample);
    if beginOk {
      var n := ModeSwitch.SwitchMode(MEASUREMENT_MODE, attempts);
      var closing := ModeSwitch.Closing(n.outcome, MEASUREMENT_MODE);
      assert r.calls == ([Begin, Awake] + ModeSwitch.Rounds(MEASUREMENT_MODE, n.rounds)) + closing;
      assert |closing| > 0 && closing[|closing| - 1] == FailedCall(r.reason);
    }
  }

  /** The first hour tick is due a full hour after setup, while the first
      measurement is due at once. */
  lemma {:induction false} FirstAnchors(beginOk: bool, attempts: seq<ModeSwitch.Attempt>, hourSample: u32, measurementSample: u32)
    requires Setup(beginOk, attempts, hourSample, measurementSample).Started?
    ensures var s := Setup(beginOk, attempts, hourSample, measurementSample).state;
      && !Reached(hourSample, s.nextHour)
      && Reached(Add32(hourSample, MS_PER_H), s.nextHour)
      && Reached(measurementSample, s.nextMeasurement)
  {
    var s := Setup(beginOk, attempts, hourSample, measurementSample).state;
    AddAfterSub(s.nextHour, hourSample);
    assert Sub32(s.nextHour, MS_PER_H) == hourSample;
    NotReachedBefore(s.nextHour, MS_PER_H);
  }

  /** What one call of `loop` is given. */
  datatype CycleEnv = CycleEnv(
    hourNow: u32,              // millis() at the hour check
    abcReported: u16,          // what GetABCTime() returns
    abcWriteOk: bool,          // whether SetABCTime() takes effect (the sketch ignores its result)
    startOk: bool,             // StartSingleMeasurement()
    awaitStart: u32,           // millis() sampled by awaitISR for its deadline
    irq: Option<nat>,          // first flag read in awaitISR preceded by a data-ready interrupt
    awaitClocks: seq<u32>,     // millis() samples of the awaitISR loop
    readOk: bool,              // ReadMeasurement()
    delayClocks: seq<u32>)     // millis() samples of the closing delayUntil

  /** The four ways a cycle can end; none of them halts the controller. */
  datatype Outcome = StartFailure | Timeout | ReadFailure | Measurement

  /** One completed cycle: the new controller state, the sensor's ABC hour
      counter afterwards, the outcome and every call made, in order. */
  datatype Cycle = Cycle(next: State, abcCounter: u16, outcome: Outcome, calls: seq<Action>)

  /** The hour check: once the clock reaches `nextHour`, count one hour and
      move the anchor on by exactly one hour. */
  function HourTick(s: State, now: u32): (r: State)
    ensures Reached(now, s.nextHour) ==>
      && r.hourCount == Inc16(s.hourCount)
      && Sub32(r.nextHour, s.nextHour) == MS_PER_H
    ensures !Reached(now, s.nextHour) ==> r.hourCount == s.hourCount && r.nextHour == s.nextHour
    ensures r.nextMeasurement == s.nextMeasurement
  {
    if Reached(now, s.nextHour) then s.(hourCount := Inc16(s.hourCount), nextHour := Add32(s.nextHour, MS_PER_H))
    else s
  }

  /** The calls of the ABC reconciliation and the sensor's counter after it. */
  datatype AbcSync = AbcSync(calls: seq<Action>, counter: u16)

  /** Read the sensor's ABC hour counter and push `hourCount` to it when the
      two differ. The controller's own counter is an input only: nothing
      here changes it. */
  function Reconcile(hourCount: u16, reported: u16, writeOk: bool): (r: AbcSync)
    ensures |r.calls| >= 1 && r.calls[0] == GetABCTime
    ensures Count(r.calls, GetABCTime) == 1
    ensures Count(r.calls, SetABCTime(hourCount)) == (if reported != hourCount then 1 else 0)
    ensures forall k :: 0 <= k < |r.calls| ==> r.calls[k] == GetABCTime || r.calls[k] == SetABCTime(hourCount)
    ensures r.counter == hourCount <==> reported == hourCount || writeOk
    ensures r.counter != hourCount ==> r.counter == reported
  {
    CountOne(GetABCTime, GetABCTime);
    CountOne(GetABCTime, SetABCTime(hourCount));
    CountPair(GetABCTime, SetABCTime(hourCount), GetABCTime);
    CountPair(GetABCTime, SetABCTime(hourCount), SetABCTime(hourCount));
    if reported != hourCount then
      AbcSync([GetABCTime, SetABCTime(hourCount)], if writeOk then hourCount else reported)
    else
      AbcSync([GetABCTime], reported)
  }

  /** `awaitISR()` as the cycle calls it: default timeout, and the flag
      false on entry because the cycle has just cleared it. */
  function Awaited(env: CycleEnv): (r: Option<AwaitExit>)
    ensures r.Some? && r.value.ready ==> env.irq.Some? && env.irq.value <= r.value.polls + 1
    ensures r.Some? && !r.value.ready ==>
      r.value.polls < |env.awaitClocks| && Reached(env.awaitClocks[r.value.polls], Add32(env.awaitStart, ISR_TIMEOUT))
  {
    AwaitIsr(ISR_TIMEOUT, env.awaitStart, false, env.irq, env.awaitClocks)
  }

  /** The outcome of the measurement part of a cycle and its calls. */
  datatype Measured = Measured(outcome: Outcome, calls: seq<Action>)

  /** Clear the ready flag, start a single measurement, wait for the ready
      interrupt and read the result. `None` when the supplied clock samples
      end inside `awaitISR`. */
  function Measure(env: CycleEnv): (r: Option<Measured>)
    ensures r.None? <==> env.startOk && Awaited(env).None?
    ensures r.Some? ==>
      && 2 <= |r.value.calls| <= 3
      && r.value.calls[0] == ClearReady
      && r.value.calls[1] == StartSingleMeasurement
      && (|r.value.calls| == 3 <==> r.value.outcome == ReadFailure || r.value.outcome == Measurement)
      && (|r.value.calls| == 3 ==> r.value.calls[2] == ReadMeasurement)
    ensures r.Some? ==> (r.value.outcome == StartFailure <==> !env.startOk)
    ensures r.Some? ==> (r.value.outcome == Timeout <==> env.startOk && !Awaited(env).value.ready)
    ensures r.Some? ==> (r.value.outcome == ReadFailure <==> env.startOk && Awaited(env).value.ready && !env.readOk)
    ensures r.Some? ==> (r.value.outcome == Measurement <==> env.startOk && Awaited(env).value.ready && env.readOk)
  {
    if !env.startOk then Some(Measured(StartFailure, [ClearReady, StartSingleMeasurement]))
    else
      match Awaited(env)
      case None => None
      case Some(e) =>
        if !e.ready then Some(Measured(Timeout, [ClearReady, StartSingleMeasurement]))
        else if !env.readOk then Some(Measured(ReadFailure, [ClearReady, StartSingleMeasurement, ReadMeasurement]))
        else Some(Measured(Measurement, [ClearReady, StartSingleMeasurement, ReadMeasurement]))
  }

  /** The body of `loop` up to its closing `delayUntil`: wake the sensor,
      tick the hour, reconcile the ABC counter, measure, put the sensor to
      sleep and move the measurement anchor on. `None` when the supplied
      clock samples end inside `awaitISR`. */
  function Step(s: State, env: CycleEnv): (r: Option<Cycle>)
    ensures r.Some? <==> Measure(env).Some?
    ensures r.Some? ==> r.value.outcome == Measure(env).value.outcome
    ensures r.Some? ==> r.value.next.nextMeasurement == Add32(s.nextMeasurement, MEASUREMENT_INTERVAL)
    ensures r.Some? && Reached(env.hourNow, s.nextHour) ==>
      r.value.next.hourCount == Inc16(s.hourCount) && r.value.next.nextHour == Add32(s.nextHour, MS_PER_H)
    ensures r.Some? && !Reached(env.hourNow, s.nextHour) ==>
      r.value.next.hourCount == s.hourCount && r.value.next.nextHour == s.nextHour
    ensures r.Some? ==>
      |r.value.calls| > 0 && r.value.calls[0] == Awake && r.value.calls[|r.value.calls| - 1] == Sleep
    ensures r.Some? ==>
      r.value.calls == [Awake] + Reconcile(r.value.next.hourCount, env.abcReported, env.abcWriteOk).calls + Measure(env).value.calls + [Sleep]
    ensures r.Some? ==>
      (r.value.abcCounter == r.value.next.hourCount <==> env.abcReported == r.value.next.hourCount || env.abcWriteOk)
  {
    var h := HourTick(s, env.hourNow);
    var abc := Reconcile(h.hourCount, env.abcReported, env.abcWriteOk);
    match Measure(env)
    case None => None
    case Some(m) =>
      Some(Cycle(h.(nextMeasurement := Add32(s.nextMeasurement, MEASUREMENT_INTERVAL)),
                 abc.counter, m.outcome, [Awake] + abc.calls + m.calls + [Sleep]))
  }

  /** The calls of a cycle: one wake and one sleep; one read of the ABC
      counter and a write of the (already ticked) hour count exactly when the
      sensor reported a different value, and no other write; the flag is
      cleared once, immediately before the only start of a measurement; and
      the result is read once exactly when the outcome is a read failure or a
      measurement. */
  lemma {:induction false} StepCalls(s: State, env: CycleEnv)
    requires Step(s, env).Some?
    ensures var c := Step(s, env).value;
      && Count(c.calls, Awake) == 1
      && Count(c.calls, Sleep) == 1
      && Count(c.calls, GetABCTime) == 1
      && Count(c.calls, SetABCTime(c.next.hourCount)) == (if env.abcReported != c.next.hourCount then 1 else 0)
      && (forall k :: 0 <= k < |c.calls| && c.calls[k].SetABCTime? ==> c.calls[k].hours == c.next.hourCount)
      && Count(c.calls, ClearReady) == 1
      && Count(c.calls, StartSingleMeasurement) == 1
      && (exists k :: 0 <= k < |c.calls| - 1 && c.calls[k] == ClearReady && c.calls[k + 1] == StartSingleMeasurement)
      && Count(c.calls, ReadMeasurement) == (if c.outcome == ReadFailure || c.outcome == Measurement then 1 else 0)
      && c.calls[1] == GetABCTime
      && (forall k :: 0 <= k < |c.calls| ==> CycleCall(c.calls[k], c.next.hourCount))
  {
    var h := HourTick(s, env.hourNow);
    var abc := Reconcile(h.hourCount, env.abcReported, env.abcWriteOk);
    var m := Measure(env).value;
    CycleCalls(abc, m, h.hourCount, env.abcReported, Step(s, env).value.calls);
  }

  /** `StepCalls` for any reconciliation and measurement calls of the
      shapes `Reconcile` and `Measure` produce. */
  lemma {:induction false} CycleCalls(abc: AbcSync, m: Measured, hourCount: u16, reported: u16, calls: seq<Action>)
    requires |abc.calls| >= 1 && abc.calls[0] == GetABCTime
    requires Count(abc.calls, GetABCTime) == 1
    requires Count(abc.calls, SetABCTime(hourCount)) == (if reported != hourCount then 1 else 0)
    requires forall k :: 0 <= k < |abc.calls| ==> abc.calls[k] == GetABCTime || abc.calls[k] == SetABCTime(hourCount)
    requires 2 <= |m.calls| <= 3
    requires m.calls[0] == ClearReady && m.calls[1] == StartSingleMeasurement
    requires |m.calls| == 3 ==> m.calls[2] == ReadMeasurement
    requires calls == [Awake] + abc.calls + m.calls + [Sleep]
    ensures Count(calls, Awake) == 1 && Count(calls, Sleep) == 1 && Count(calls, GetABCTime) == 1
    ensures Count(calls, SetABCTime(hourCount)) == (if reported != hourCount then 1 else 0)
    ensures forall k :: 0 <= k < |calls| && calls[k].SetABCTime? ==> calls[k].hours == hourCount
    ensures Count(calls, ClearReady) == 1 && Count(calls, StartSingleMeasurement) == 1
    ensures exists k :: 0 <= k < |calls| - 1 && calls[k] == ClearReady && calls[k + 1] == StartSingleMeasurement
    ensures Count(calls, ReadMeasurement) == |m.calls| - 2
    ensures calls[1] == GetABCTime
    ensures forall k :: 0 <= k < |calls| ==> CycleCall(calls[k], hourCount)
  {
    CycleCallCounts(abc, m, hourCount, calls);
    var i := 1 + |abc.calls|;
    assert calls[1] == abc.calls[0];
    assert calls[i] == ClearReady && calls[i + 1] == StartSingleMeasurement;
    forall k | 0 <= k < |calls|
      ensures CycleCall(calls[k], hourCount)
    {
      if 0 < k < i {
        assert calls[k] == abc.calls[k - 1];
      } else if i <= k < i + |m.calls| {
        assert calls[k] == m.calls[k - i];
      }
    }
  }

  /** The driver calls and flag writes a cycle can make; a write of the ABC
      counter carries the hour count. */
  predicate CycleCall(a: Action, hourCount: u16)
  {
    a in [Awake, Sleep, GetABCTime, SetABCTime(hourCount), ClearReady, StartSingleMeasurement, ReadMeasurement]
  }

  /** Each action occurs in a cycle's calls as often as in its parts. */
  lemma {:induction false} CycleCallCounts(abc: AbcSync, m: Measured, hourCount: u16, calls: seq<Action>)
    requires forall k :: 0 <= k < |abc.calls| ==> abc.calls[k] == GetABCTime || abc.calls[k] == SetABCTime(hourCount)
    requires 2 <= |m.calls| <= 3
    requires m.calls[0] == ClearReady && m.calls[1] == StartSingleMeasurement
    requires |m.calls| == 3 ==> m.calls[2] == ReadMeasurement
    requires calls == [Awake] + abc.calls + m.calls + [Sleep]
    ensures Count(calls, Awake) == 1 && Count(calls, Sleep) == 1
    ensures Count(calls, GetABCTime) == Count(abc.calls, GetABCTime)
    ensures Count(calls, SetABCTime(hourCount)) == Count(abc.calls, SetABCTime(hourCount))
    ensures Count(calls, ClearReady) == 1 && Count(calls, StartSingleMeasurement) == 1
    ensures Count(calls, ReadMeasurement) == |m.calls| - 2
  {
    OtherCount(abc, m, hourCount, calls, Awake);
    OtherCount(abc, m, hourCount, calls, Sleep);
    OtherCount(abc, m, hourCount, calls, ClearReady);
    OtherCount(abc, m, hourCount, calls, StartSingleMeasurement);
    OtherCount(abc, m, hourCount, calls, ReadMeasurement);
    PartsCount(abc.calls, m.calls, calls, GetABCTime);
    MeasuredCounts(m, GetABCTime);
    PartsCount(abc.calls, m.calls, calls, SetABCTime(hourCount));
    MeasuredCounts(m, SetABCTime(hourCount));
  }

  /** An action the ABC reconciliation does not make occurs in a cycle's
      calls as often as in the wake, measurement and sleep calls. */
  lemma {:induction false} OtherCount(abc: AbcSync, m: Measured, hourCount: u16, calls: seq<Action>, a: Action)
    requires forall k :: 0 <= k < |abc.calls| ==> abc.calls[k] == GetABCTime || abc.calls[k] == SetABCTime(hourCount)
    requires 2 <= |m.calls| <= 3
    requires m.calls[0] == ClearReady && m.calls[1] == StartSingleMeasurement
    requires |m.calls| == 3 ==> m.calls[2] == ReadMeasurement
    requires calls == [Awake] + abc.calls + m.calls + [Sleep]
    requires a != GetABCTime && a != SetABCTime(hourCount)
    ensures Count(calls, a) ==
      (if a == Awake then 1 else 0) + (if a == Sleep then 1 else 0)
      + (if a == ClearReady then 1 else 0) + (if a == StartSingleMeasurement then 1 else 0)
      + (if a == ReadMeasurement then |m.calls| - 2 else 0)
  {
    PartsCount(abc.calls, m.calls, calls, a);
    MeasuredCounts(m, a);
    AbcCounts(abc, hourCount, a);
  }

  /** The occurrences of one action in a cycle's calls, part by part. */
  lemma {:induction false} PartsCount(abcCalls: seq<Action>, mCalls: seq<Action>, calls: seq<Action>, a: Action)
    requires calls == [Awake] + abcCalls + mCalls + [Sleep]
    ensures Count(calls, a) ==
      (if a == Awake then 1 else 0) + Count(abcCalls, a) + Count(mCalls, a) + (if a == Sleep then 1 else 0)
  {
    CountOne(Awake, a);
    CountOne(Sleep, a);
    CountConcat4([Awake], abcCalls, mCalls, [Sleep], a);
  }

  /** Occurrences of one action in the calls of the measurement part. */
  lemma {:induction false} MeasuredCounts(m: Measured, a: Action)
    requires 2 <= |m.calls| <= 3
    requires m.calls[0] == ClearReady && m.calls[1] == StartSingleMeasurement
    requires |m.calls| == 3 ==> m.calls[2] == ReadMeasurement
    ensures Count(m.calls, a) ==
      (if a == ClearReady then 1 else 0) + (if a == StartSingleMeasurement then 1 else 0)
      + (if a == ReadMeasurement then |m.calls| - 2 else 0)
  {
    if |m.calls| == 2 {
      assert m.calls == [ClearReady, StartSingleMeasurement];
      CountPair(ClearReady, StartSingleMeasurement, a);
    } else {
      assert m.calls == [ClearReady, StartSingleMeasurement, ReadMeasurement];
      CountTriple(ClearReady, StartSingleMeasurement, ReadMeasurement, a);
    }
  }

  /** The ABC reconciliation makes no call other than its read and write. */
  lemma {:induction false} AbcCounts(abc: AbcSync, hourCount: u16, a: Action)
    requires forall k :: 0 <= k < |abc.calls| ==> abc.calls[k] == GetABCTime || abc.calls[k] == SetABCTime(hourCount)
    requires a != GetABCTime && a != SetABCTime(hourCount)
    ensures Count(abc.calls, a) == 0
  {
    CountPositive(abc.calls, a);
  }

  /** The hour counter and the hour anchor move together: a cycle changes
      either both or neither, and it changes them exactly when the clock
      sample of the hour check has reached the anchor. */
  lemma {:induction false} TickInLockstep(s: State, env: CycleEnv)
    requires Step(s, env).Some?
    ensures var n := Step(s, env).value.next;
      && (n.hourCount != s.hourCount <==> Reached(env.hourNow, s.nextHour))
      && (n.nextHour != s.nextHour <==> Reached(env.hourNow, s.nextHour))
  {
    var n := Step(s, env).value.next;
    if Reached(env.hourNow, s.nextHour) {
      SubAfterAdd(s.nextHour, MS_PER_H);
    }
  }

  /** A measurement is read only after a data-ready interrupt that arrived
      after this cycle cleared the flag and no later than the final read of
      the flag in `awaitISR`: the clear before the start means an event that
      came before it cannot satisfy the wait. An interrupt that arrives after
      the deadline sample but before that final read still counts. */
  lemma {:induction false} ReadOnlyAfterFreshInterrupt(s: State, env: CycleEnv)
    requires Step(s, env).Some?
    requires Step(s, env).value.outcome in {ReadFailure, Measurement}
    ensures env.startOk && env.irq.Some?
    ensures env.irq.value <= Awaited(env).value.polls + 1
  {
  }

  /** A failed start is a soft failure: the cycle still completes, with no
      wait and no read, puts the sensor to sleep and moves the measurement
      anchor on by one interval. */
  lemma {:induction false} StartFailureIsSoft(s: State, env: CycleEnv)
    requires !env.startOk
    ensures Step(s, env).Some?
    ensures var c := Step(s, env).value;
      && c.outcome == StartFailure
      && ReadMeasurement !in c.calls
      && c.calls[|c.calls| - 1] == Sleep
      && c.next.nextMeasurement == Add32(s.nextMeasurement, MEASUREMENT_INTERVAL)
  {
    var c := Step(s, env).value;
    StepCalls(s, env);
    CountPositive(c.calls, ReadMeasurement);
  }

  /** A timeout means the deadline, `awaitStart + 2000` wrapping, was
      reached by the clock with no data-ready event observed. */
  lemma {:induction false} TimeoutMeansDeadlinePassed(s: State, env: CycleEnv)
    requires Step(s, env).Some? && Step(s, env).value.outcome == Timeout
    ensures var e := Awaited(env).value;
      && (env.irq.None? || env.irq.value > e.polls + 1)
      && e.polls < |env.awaitClocks|
      && Reached(env.awaitClocks[e.polls], Add32(env.awaitStart, ISR_TIMEOUT))
      && forall j :: 0 <= j < e.polls ==> !Reached(env.awaitClocks[j], Add32(env.awaitStart, ISR_TIMEOUT))
  {
    AwaitFalseMeansTimedOut(ISR_TIMEOUT, env.awaitStart, false, env.irq, env.awaitClocks);
  }

  /** A call of `loop` that returned: its cycle, and the index of the clock
      sample at which the closing `delayUntil` returned. */
  datatype Pass = Pass(cycle: Cycle, woke: nat)

  /** One call of `loop`: the cycle, then `delayUntil(nextMeasurement)`.
      `None` when the supplied clock samples end inside either busy wait,
      that is, when `loop` has not returned within the observed time. The
      call returns at the first clock sample that reaches the measurement
      anchor the cycle moved on, and does not return while no sample does. */
  function Loop(s: State, env: CycleEnv): (r: Option<Pass>)
    ensures r.Some? ==> Step(s, env) == Some(r.value.cycle)
    ensures r.Some? ==>
      && r.value.woke < |env.delayClocks|
      && Reached(env.delayClocks[r.value.woke], r.value.cycle.next.nextMeasurement)
      && forall j :: 0 <= j < r.value.woke ==> !Reached(env.delayClocks[j], r.value.cycle.next.nextMeasurement)
    ensures r.None? <==>
      || Step(s, env).None?
      || forall j :: 0 <= j < |env.delayClocks| ==> !Reached(env.delayClocks[j], Step(s, env).value.next.nextMeasurement)
  {
    match Step(s, env)
    case None => None
    case Some(c) =>
      match DelayUntil(c.next.nextMeasurement, env.delayClocks)
      case None => None
      case Some(w) => Some(Pass(c, w))
  }

  /** `loop` returns exactly when its cycle ends and some later clock sample
      reaches the measurement anchor the cycle moved on. */
  lemma {:induction false} LoopReturnsWhenDue(s: State, env: CycleEnv)
    ensures Loop(s, env).Some? <==>
      && Step(s, env).Some?
      && exists j :: 0 <= j < |env.delayClocks| && Reached(env.delayClocks[j], Step(s, env).value.next.nextMeasurement)
  {
    if Loop(s, env).Some? {
      var w := Loop(s, env).value.woke;
      assert Reached(env.delayClocks[w], Step(s, env).value.next.nextMeasurement);
    }
  }

  /** The result of running `loop` over a sequence of cycle inputs until one
      call does not return: the final state, how many cycles completed, how
      many of them ticked the hour, and their outcomes in order. */
  datatype Run = Run(final: State, completed: nat, ticks: nat, outcomes: seq<Outcome>)

  /** 1 when the hour check of a cycle fires, 0 otherwise. */
  function Tick(s: State, env: CycleEnv): nat
  {
    if Reached(env.hourNow, s.nextHour) then 1 else 0
  }

  /** `f` is `s` after `cycles` measurement intervals and `ticks` hours:
      both anchors moved on by fixed increments only, and the hour counter
      advanced once per hour tick. */
  predicate Advanced(s: State, f: State, cycles: nat, ticks: nat)
  {
    && f.nextMeasurement == Shift(s.nextMeasurement, MEASUREMENT_INTERVAL, cycles)
    && f.nextHour == Shift(s.nextHour, MS_PER_H, ticks)
    && f.hourCount == (s.hourCount + ticks) % TWO_16
  }

  /** One cycle advances the state by one interval and by its own tick. */
  lemma {:induction false} StepAdvances(s: State, env: CycleEnv, n: State)
    requires Step(s, env).Some? && Step(s, env).value.next == n
    ensures Advanced(s, n, 1, Tick(s, env))
  {
  }

  /** The same for a cycle that `loop` completes. */
  lemma {:induction false} LoopAdvances(s: State, env: CycleEnv, p: Pass)
    requires Loop(s, env) == Some(p)
    ensures Advanced(s, p.cycle.next, 1, Tick(s, env))
  {
    StepAdvances(s, env, p.cycle.next);
  }

  /** No cycles, no ticks: nothing moves. */
  lemma {:induction false} AdvancedRefl(s: State)
    ensures Advanced(s, s, 0, 0)
  {
  }

  /** Advances add up. */
  lemma {:induction false} AdvancedTrans(s: State, n: State, f: State, k1: nat, t1: nat, k2: nat, t2: nat)
    requires Advanced(s, n, k1, t1) && Advanced(n, f, k2, t2)
    ensures Advanced(s, f, k1 + k2, t1 + t2)
  {
    ShiftShift(s.nextMeasurement, MEASUREMENT_INTERVAL, k1, k2);
    ShiftShift(s.nextHour, MS_PER_H, t1, t2);
    AddAdd16(s.hourCount, t1, t2);
  }

  /** Successive calls of `loop`, until one does not return within its
      supplied clock samples. */
  function RunCycles(s: State, envs: seq<CycleEnv>): Run
    decreases |envs|
  {
    if |envs| == 0 then Run(s, 0, 0, [])
    else
      match Loop(s, envs[0])
      case None => Run(s, 0, 0, [])
      case Some(Pass(c, _)) =>
        var rest := RunCycles(c.next, envs[1..]);
        Run(rest.final, 1 + rest.completed, Tick(s, envs[0]) + rest.ticks, [c.outcome] + rest.outcomes)
  }

  /** A run completes at most one cycle per input, records one outcome per
      completed cycle, and ticks the hour at most once per cycle. */
  lemma {:induction false} RunBounds(s: State, envs: seq<CycleEnv>)
    decreases |envs|
    ensures var r := RunCycles(s, envs);
      r.completed <= |envs| && |r.outcomes| == r.completed && r.ticks <= r.completed
  {
    if |envs| > 0 && Loop(s, envs[0]).Some? {
      RunBounds(Loop(s, envs[0]).value.cycle.next, envs[1..]);
    }
  }

  /** The anchors never depend on when a cycle ran or how it ended: after
      `completed` cycles the measurement anchor has moved on by exactly
      `completed` intervals, and the hour anchor by one hour for each of the
      `ticks` hour ticks, which the hour counter counts (modulo 2^16). */
  lemma {:induction false} RunAdvances(s: State, envs: seq<CycleEnv>, r: Run)
    decreases |envs|
    requires r == RunCycles(s, envs)
    ensures Advanced(s, r.final, r.completed, r.ticks)
  {
    if |envs| > 0 && Loop(s, envs[0]).Some? {
      var c := Loop(s, envs[0]).value.cycle;
      var rest := RunCycles(c.next, envs[1..]);
      RunAdvances(c.next, envs[1..], rest);
      assert r.final == rest.final && r.completed == 1 + rest.completed;
      assert r.ticks == Tick(s, envs[0]) + rest.ticks;
      RunStepAdvances(s, envs[0], c, rest, r);
    } else {
      AdvancedRefl(s);
    }
  }

  /** The inductive step of `RunAdvances`: one completed cycle in front of
      a run. */
  lemma {:induction false} RunStepAdvances(s: State, env: CycleEnv, c: Cycle, rest: Run, r: Run)
    requires Loop(s, env).Some? && Loop(s, env).value.cycle == c
    requires Advanced(c.next, rest.final, rest.completed, rest.ticks)
    requires r.final == rest.final && r.completed == 1 + rest.completed && r.ticks == Tick(s, env) + rest.ticks
    ensures Advanced(s, r.final, r.completed, r.ticks)
  {
    LoopAdvances(s, env, Loop(s, env).value);
    AdvancedTrans(s, c.next, rest.final, 1, Tick(s, env), rest.completed, rest.ticks);
  }

  /** Anti-drift: from the state `setup` lays down (see `Setup`), after any
      number of completed cycles, whatever their durations and outcomes, the
      measurement anchor is the setup sample plus that many intervals; the
      hour anchor is the setup hour sample plus one hour more than the hour
      ticks; and the hour counter is the number of ticks modulo 2^16. */
  lemma {:induction false} AnchorsSinceSetup(s: State, hourSample: u32, measurementSample: u32,
                                            envs: seq<CycleEnv>, r: Run)
    requires s.hourCount == 0 && Sub32(s.nextHour, hourSample) == MS_PER_H && s.nextMeasurement == measurementSample
    requires r == RunCycles(s, envs)
    ensures r.final.nextMeasurement == Shift(measurementSample, MEASUREMENT_INTERVAL, r.completed)
    ensures r.final.nextHour == Shift(hourSample, MS_PER_H, r.ticks + 1)
    ensures r.final.hourCount == r.ticks % TWO_16
  {
    RunAdvances(s, envs, r);
    AdvancedFromSetup(s, r.final, r.completed, r.ticks, hourSample, measurementSample);
  }

  /** Anti-drift in closed form, for a controller that `setup` started:
      after `k` completed cycles the measurement anchor is the setup sample
      plus `k * 300000` (mod 2^32), and the hour anchor is the setup hour
      sample plus `(ticks + 1) * 3600000` (mod 2^32). */
  lemma {:induction false} RunAfterSetup(beginOk: bool, attempts: seq<ModeSwitch.Attempt>, hourSample: u32,
                                        measurementSample: u32, envs: seq<CycleEnv>, r: Run)
    requires Setup(beginOk, attempts, hourSample, measurementSample).Started?
    requires r == RunCycles(Setup(beginOk, attempts, hourSample, measurementSample).state, envs)
    ensures r.final.nextMeasurement == Add32(measurementSample, r.completed * MEASUREMENT_INTERVAL)
    ensures r.final.nextHour == Add32(hourSample, (r.ticks + 1) * MS_PER_H)
    ensures r.final.hourCount == r.ticks % TWO_16
  {
    AnchorsSinceSetup(Setup(beginOk, attempts, hourSample, measurementSample).state, hourSample, measurementSample, envs, r);
    ShiftClosed(measurementSample, MEASUREMENT_INTERVAL, r.completed);
    ShiftClosed(hourSample, MS_PER_H, r.ticks + 1);
  }

  /** `AnchorsSinceSetup` for any state laid down as `setup` lays it down. */
  lemma {:induction false} AdvancedFromSetup(s: State, f: State, cycles: nat, ticks: nat, hourSample: u32, measurementSample: u32)
    requires s.hourCount == 0 && Sub32(s.nextHour, hourSample) == MS_PER_H && s.nextMeasurement == measurementSample
    requires Advanced(s, f, cycles, ticks)
    ensures f.nextMeasurement == Shift(measurementSample, MEASUREMENT_INTERVAL, cycles)
    ensures f.nextHour == Shift(hourSample, MS_PER_H, ticks + 1)
    ensures f.hourCount == ticks % TWO_16
  {
    AddAfterSub(s.nextHour, hourSample);
    assert s.nextHour == Shift(hourSample, MS_PER_H, 1);
    ShiftShift(hourSample, MS_PER_H, 1, ticks);
  }

  /** Two runs from the same state that complete the same number of cycles
      end with the same measurement anchor, however different their clock
      samples, driver answers and outcomes were. */
  lemma {:induction false} ScheduleIgnoresHistory(s: State, envs1: seq<CycleEnv>, envs2: seq<CycleEnv>)
    requires RunCycles(s, envs1).completed == RunCycles(s, envs2).completed
    ensures RunCycles(s, envs1).final.nextMeasurement == RunCycles(s, envs2).final.nextMeasurement
  {
    RunAdvances(s, envs1, RunCycles(s, envs1));
    RunAdvances(s, envs2, RunCycles(s, envs2));
  }
}
