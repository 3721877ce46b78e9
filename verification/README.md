# Sunrise-dev controller model

A Dafny model of the controller in the Arduino sketch `src/Sunrise-dev.cpp`.
The sketch drives a Senseair Sunrise CO2 sensor. At start-up it wakes the
sensor and makes sure the sensor's persisted measurement mode is
single-shot. It then lays down two schedule anchors on the free-running
`millis()` clock. Each pass of `loop` does the following, in order:

- wakes the sensor;
- when the clock has reached the hour anchor, ticks a software hour counter and moves the anchor on by one hour;
- reads the sensor's ABC (automatic baseline correction) hour counter, and writes the software counter to it only when the two differ;
- clears the interrupt-set ready flag;
- starts one measurement; only when the start succeeds does it wait for the data-ready interrupt, and only when that wait returns true does it read the result;
- puts the sensor back to sleep;
- busy-waits until the next anchor, five minutes after the previous one.

Modules, one per concern:

- `Clock` (clock.dfy) holds the target's integer widths. `unsigned long` is 32 bits and `uint16_t` is 16 bits, so additions wrap explicitly. It also holds the `(long)` cast and the wraparound-safe test `Reached(now, target)`, meaning `(long)(now - target) >= 0`, with its meaning proved. `Shift` moves an anchor on step by step, one wrapping addition at a time.
- `Sunrise` (sunrise.dfy) lists the driver calls the sketch makes as an `Action` trace, and defines `Count` over traces.
- `Wait` (wait.dfy) holds `awaitISR` and `delayUntil`. Each runs over a supplied sequence of `millis()` samples. The `volatile` flag is given by its value on entry plus the position of the first data-ready interrupt among the flag reads.
- `ModeSwitch` (mode_switch.dfy) holds `switchMode`, driven by one set of driver answers per iteration. The outcome is Converged, Fatal (the sketch spins for ever in `while(true);`) or Unfinished (the supplied answers ran out).
- `Scheduler` (scheduler.dfy) holds the following:
  - `setup`, with the anchors of lines 98–99;
  - the `loop` body as a step over the controller state `(hourCount, nextHour, nextMeasurement)`;
  - the closing `delayUntil`;
  - runs of many cycles, with the anti-drift theorems about them.

Inputs stand for everything outside the sketch: clock samples, driver results and the interrupt.

## Model

| member | source | states |
|---|---|---|
| Clock.Add32Wraps | src/Sunrise-dev.cpp:98 | `Clock.Add32`, unsigned 32-bit `+`, is the plain sum when it fits, the sum less 2^32 when it overflows once |
| Clock.Sub32 | src/Sunrise-dev.cpp:31 | unsigned 32-bit `-`: the plain difference when it is not negative, 2^32 plus the difference otherwise |
| Clock.Inc16 | src/Sunrise-dev.cpp:111 | `hourCount++` on a `uint16_t`: one more, except that 65535 wraps to 0 |
| Clock.Reached | src/Sunrise-dev.cpp:37 | `(long)(now - target) >= 0` holds iff the wrapping distance from target to now is below 2^31; its meaning as "now is less than 2^31 ms at or after target" is `Clock.ReachedMeansAhead` |
| Clock.Signed32 | src/Sunrise-dev.cpp:31 | the `(long)` cast lands in [-2^31, 2^31), is congruent to its argument modulo 2^32, and is non-negative exactly when the argument is below 2^31 |
| Clock.SubAfterAdd | src/Sunrise-dev.cpp:98 | going `d` ticks forward from a target, with wrap-around, and measuring back gives `d` |
| Clock.AddAfterSub | src/Sunrise-dev.cpp:31 | the target plus the measured distance lands back on now |
| Clock.ReachedWithin | src/Sunrise-dev.cpp:37 | every instant in [0, 2^31) ms at or after a target has reached it, also past a wrap of the clock |
| Clock.NotReachedBefore | src/Sunrise-dev.cpp:37 | no instant up to 2^31 ms before a target has reached it, also when the target lies just past a wrap |
| Clock.ReachedMeansAhead | src/Sunrise-dev.cpp:37 | reached iff now equals the target advanced by some distance below 2^31 on the wrapping clock, both directions |
| Clock.ReachedBothWays | src/Sunrise-dev.cpp:37 | two instants that have each reached the other are equal |
| Clock.AddAdd | src/Sunrise-dev.cpp:195 | two wrapping additions equal one wrapping addition of the sum |
| Clock.AddAdd16 | src/Sunrise-dev.cpp:111 | two wrapping increments of the 16-bit hour counter equal one increment by the sum |
| Clock.ShiftClosed | src/Sunrise-dev.cpp:195 | an anchor moved on `k` times by a fixed step equals the anchor plus `k * step` modulo 2^32 |
| Clock.ShiftShift | src/Sunrise-dev.cpp:195 | `k1` anchor moves followed by `k2` moves are `k1 + k2` moves |
| Wait.PollFrom | src/Sunrise-dev.cpp:31 | the wait loop from a given poll on: it exits at a poll that reads the flag set or a sample past the deadline, after polls that did neither, and returns the flag read after the loop; with no exit, no poll could have ended it |
| Wait.AwaitIsr | src/Sunrise-dev.cpp:28-33 | the deadline is start plus timeout, wrapping; the call returns at the first poll that sees the flag or a sample at or past the deadline; the result is the flag read once more; it has not returned exactly when every supplied poll kept waiting |
| Wait.AwaitFalseMeansTimedOut | src/Sunrise-dev.cpp:28-33 | a false result means the flag was clear on entry, no interrupt came before the final read, the last sample read reached the deadline and none before it did |
| Wait.AwaitSeesInterrupt | src/Sunrise-dev.cpp:31-32 | an interrupt arriving before any sample reaches the deadline makes the call return true at that very poll |
| Wait.StaleFlagEndsWait | src/Sunrise-dev.cpp:31 | a flag already set on entry ends the wait at once with true, before any clock sample |
| Wait.DelayFrom | src/Sunrise-dev.cpp:37 | the delay loop from a given poll on returns at the first sample that has reached the target |
| Wait.DelayUntil | src/Sunrise-dev.cpp:35-38 | `delayUntil` returns at the first clock sample that has reached the target and not before; it has not returned iff no sample reached it |
| Wait.DelayReturnsByFirstReach | src/Sunrise-dev.cpp:37 | once some sample has reached the target the call has returned, at that sample or earlier |
| ModeSwitch.IterationOutcome | src/Sunrise-dev.cpp:45-67 | one iteration: a failed read halts; a read equal to the desired mode returns; otherwise a failed write or restart halts; otherwise the loop goes round again; each case iff its condition |
| ModeSwitch.SwitchMode | src/Sunrise-dev.cpp:40-69 | every iteration before the last read a mismatch and wrote and restarted successfully; the outcome is decided by the first other iteration; the trace is the retrying rounds followed by the calls of the deciding iteration, with nothing after it |
| ModeSwitch.ConvergedIff | src/Sunrise-dev.cpp:51-54 | the negotiation returns iff some read reports the desired mode and every earlier iteration retried successfully |
| ModeSwitch.RetriedPrefix | src/Sunrise-dev.cpp:51-67 | every retrying iteration read a mismatch |
| ModeSwitch.RoundsCounts | src/Sunrise-dev.cpp:45-67 | `n` retrying iterations make `n` reads, `n` writes of the mode and `n` restarts, and no other call |
| ModeSwitch.ShapeCounts | src/Sunrise-dev.cpp:40-69 | the call counts of retrying iterations followed by a deciding one |
| ModeSwitch.ClosingCounts | src/Sunrise-dev.cpp:45-67 | the deciding iteration, when there is one, reads once, writes only when it read a mismatch, and restarts only when the restart itself failed |
| ModeSwitch.RoundCounts | src/Sunrise-dev.cpp:45-63 | a retrying iteration makes one read, one write and one restart |
| ModeSwitch.CallCounts | src/Sunrise-dev.cpp:40-69 | one read per iteration entered; exactly one write of the desired mode per mismatched read; one restart per write except a failed one; no other driver call, so no other mode is ever written |
| ModeSwitch.WriteThenRestart | src/Sunrise-dev.cpp:56-63 | every write comes straight after a read and is followed straight away by a restart, unless the write failed and was the last call |
| ModeSwitch.ShapeOrder | src/Sunrise-dev.cpp:56-63 | the read-write-restart order for any number of retrying rounds and any deciding iteration |
| ModeSwitch.ClosingOrder | src/Sunrise-dev.cpp:56-63 | the read-write-restart order for the deciding iteration alone |
| ModeSwitch.RoundThenOrder | src/Sunrise-dev.cpp:56-63 | the order is kept when a retrying round is put in front |
| ModeSwitch.ConvergesOnKeepingSensor | src/Sunrise-dev.cpp:40-69 | a sensor that keeps what it is told converges after one read when its mode is right, and otherwise after exactly one write and one restart |
| Scheduler.Setup | src/Sunrise-dev.cpp:82-99 | setup starts iff `Begin` succeeds and the negotiation converges, and halts iff `Begin` fails or the negotiation fails; a failed `Begin` halts after that call alone; a failed negotiation halts with its reason; after a successful `Begin` the trace is exactly `Begin`, `Awake`, the negotiation's calls, and `Sleep` when started; a started controller has hour count 0, `nextHour` one hour past its sample and `nextMeasurement` equal to its sample |
| Scheduler.SetupSleeps | src/Sunrise-dev.cpp:82-90 | a halted setup never puts the sensor to sleep; a started one does so exactly once |
| Scheduler.SetupStopsAtFailedCall | src/Sunrise-dev.cpp:82-86 | a halted setup makes no call after the one that failed: its last call is the failed `Begin`, mode read, mode write or restart |
| Scheduler.FirstAnchors | src/Sunrise-dev.cpp:98-99 | the first hour tick is not due at setup but is due one hour later; the first measurement is due at once |
| Scheduler.HourTick | src/Sunrise-dev.cpp:109-113 | when the clock has reached the hour anchor, the counter goes up by one (wrapping) and the anchor moves on by exactly one hour; otherwise neither changes; the measurement anchor is untouched. At most one tick per call, even when the check runs more than an hour late; `Scheduler.TickInLockstep` states the lockstep |
| Scheduler.Reconcile | src/Sunrise-dev.cpp:115-125 | one read of the ABC counter; `SetABCTime(hourCount)` exactly once on a mismatch and never on a match; no other call; the sensor ends at `hourCount` iff it already was or the write took effect, and otherwise keeps its old value |
| Scheduler.Awaited | src/Sunrise-dev.cpp:130-134 | `awaitISR()` with its default 2000 ms after the flag was cleared: a true result needs a data-ready interrupt after this cycle cleared the flag (line 130) and no later than the final read of the flag in `awaitISR` (line 32), so one arriving after the deadline sample can still count; a false result means a sample reached `start + 2000` |
| Scheduler.Measure | src/Sunrise-dev.cpp:130-185 | the flag is cleared, then the measurement started; a failed start is a StartFailure with no wait and no read; a false wait result is a Timeout with no read; a failed read is a ReadFailure; otherwise a Measurement; the result is read exactly in the last two cases |
| Scheduler.Step | src/Sunrise-dev.cpp:104-195 | the cycle ends with a result iff its measurement part does, with that outcome; it ticks counter and hour anchor by one hour iff the clock reached the anchor and leaves both alone otherwise; the measurement anchor moves on by 300000 ms whatever the outcome; the trace is, in order, `Awake`, the ABC reconciliation of the ticked counter (read, then a write on a mismatch), the measurement part (clear, start, then a read only after the wait), and `Sleep` |
| Scheduler.StepCalls | src/Sunrise-dev.cpp:104-193 | one wake, one sleep, one ABC read, a write of the ticked hour count exactly on a mismatch and no other write, one flag clear directly before the only start, a read exactly when the outcome is a read failure or a measurement, the ABC read as the second call, and no call outside wake, sleep, ABC read, ABC write of the ticked hour count, flag clear, start and read |
| Scheduler.CycleCalls | src/Sunrise-dev.cpp:104-193 | the call counts and orders of a cycle, from the shapes of its parts, and that every call is one of the cycle's driver calls or flag writes |
| Scheduler.CycleCallCounts | src/Sunrise-dev.cpp:104-193 | each call occurs in a cycle's trace as often as in its parts |
| Scheduler.OtherCount | src/Sunrise-dev.cpp:104-193 | calls that the ABC part does not make occur once each, and the read occurs once per read part |
| Scheduler.PartsCount | src/Sunrise-dev.cpp:104-193 | occurrences add up over wake, ABC part, measurement part and sleep |
| Scheduler.MeasuredCounts | src/Sunrise-dev.cpp:130-185 | the measurement part clears once, starts once, and reads once or not at all |
| Scheduler.AbcCounts | src/Sunrise-dev.cpp:115-125 | the ABC part makes no call other than its read and write |
| Scheduler.TickInLockstep | src/Sunrise-dev.cpp:109-113 | the hour counter and the hour anchor change together, in the same cycle, exactly when the hour check fires |
| Scheduler.ReadOnlyAfterFreshInterrupt | src/Sunrise-dev.cpp:130-143 | a measurement is read only after a data-ready interrupt that arrived after this cycle cleared the flag (line 130) and no later than the final read of the flag in `awaitISR` (line 32); an interrupt before the clear cannot satisfy the wait |
| Scheduler.StartFailureIsSoft | src/Sunrise-dev.cpp:131-195 | a failed start does not halt: the cycle completes without reading, ends with `Sleep` and moves the anchor on by one interval |
| Scheduler.TimeoutMeansDeadlinePassed | src/Sunrise-dev.cpp:134-179 | a Timeout means the clock reached `start + 2000` with no data-ready event observed |
| Scheduler.Loop | src/Sunrise-dev.cpp:102-197 | `loop` returns with the cycle `Step` computes, at the first clock sample of its closing `delayUntil` that reaches the moved-on measurement anchor, and not before it; it does not return iff the cycle does not end or no sample reaches that anchor |
| Scheduler.LoopReturnsWhenDue | src/Sunrise-dev.cpp:195-196 | `loop` returns iff its cycle ends and some clock sample after it reaches the moved-on measurement anchor |
| Scheduler.StepAdvances | src/Sunrise-dev.cpp:109-195 | one cycle moves the measurement anchor one interval on, and the hour anchor and counter by its own tick |
| Scheduler.LoopAdvances | src/Sunrise-dev.cpp:102-197 | the same for a call of `loop` that returns |
| Scheduler.AdvancedRefl | src/Sunrise-dev.cpp:195 | zero cycles move nothing |
| Scheduler.AdvancedTrans | src/Sunrise-dev.cpp:109-195 | the anchor moves of successive runs add up |
| Scheduler.RunCycles | src/Sunrise-dev.cpp:102-197 | the runtime calling `loop` again and again until one call does not return; `Scheduler.RunBounds` and `Scheduler.RunAdvances` state what a run promises |
| Scheduler.RunBounds | src/Sunrise-dev.cpp:102-197 | successive calls of `loop`: a run completes at most one cycle per input, records one outcome per completed cycle and ticks the hour at most once per cycle |
| Scheduler.RunAdvances | src/Sunrise-dev.cpp:109-195 | after any run, the measurement anchor has moved on by exactly one interval per completed cycle, and the hour anchor by one hour per tick; the counter counts the ticks modulo 2^16; the measured cycle durations and outcomes play no part |
| Scheduler.RunStepAdvances | src/Sunrise-dev.cpp:102-197 | a completed cycle in front of a run keeps the anchor moves additive |
| Scheduler.AnchorsSinceSetup | src/Sunrise-dev.cpp:98-99 | from a state laid down as setup lays it down: after `k` cycles and `t` ticks the measurement anchor is the setup sample moved on `k` intervals, the hour anchor the hour sample moved on `t + 1` hours, and the counter is `t` modulo 2^16 |
| Scheduler.AdvancedFromSetup | src/Sunrise-dev.cpp:98-99 | the same for any state that has advanced from the setup state |
| Scheduler.RunAfterSetup | src/Sunrise-dev.cpp:98-195 | anti-drift after a started setup: measurement anchor = setup sample + `k * 300000` mod 2^32, hour anchor = hour sample + `(t + 1) * 3600000` mod 2^32 |
| Scheduler.ScheduleIgnoresHistory | src/Sunrise-dev.cpp:195-196 | two runs from one state that complete equally many cycles end at the same measurement anchor, however their clock samples, driver answers and outcomes differed |

## Where the model follows the code

- Measurement interval: the 5-second and 1-minute variants on lines 10–11 are commented out, so `MEASUREMENT_INTERVAL` is 5 * 60 * 1000 = 300000 ms (line 12), and the model uses 300000.
- Hour anchor: `setup` reads `millis()` twice, once for `nextHour` (line 98) and once for `nextMeasurement` (line 99). The two samples may differ, and the model keeps them as two inputs.
- Hour check order: the hour check runs before the ABC reconciliation, so a tick in a cycle is pushed to the sensor in that same cycle. `Reconcile` gets the already ticked count.

## Left out

- Serial output and its formatting: all `Serial` calls, the `OUTPUT_TEXT` / `OUTPUT_CSV` blocks with the driver accessor calls inside them (`GetErrorStatusRaw`, `GetCO2`, `GetTemperature` and the like, lines 147-161), and the error messages; the call traces describe a build with neither defined. Soft failures are outcome values instead.
- Arduino runtime plumbing: `delay(2500)`, `Serial.begin`, `while(!Serial)`, `pinMode`, `attachInterrupt`, `Serial.flush`. These are hardware set-up with no effect on the controller's state.
- The sensor driver: `Sunrise.h` and its I2C protocol are not part of this model. Each driver call is an `Action` in the trace, and its result is an input. That covers `Begin`, `GetMeasurementModeEE`, `SetMeasurementModeEE`, `HardRestart`, `GetABCTime`, `StartSingleMeasurement` and `ReadMeasurement`. The measured CO2 and temperature values are not modelled, since no arithmetic is done on them.
- Real concurrency between `nrdyISR` and the main context. The `volatile` flag is modelled by its value on entry to a wait plus the first flag read that an interrupt precedes. The handler only sets the flag, so later interrupts change nothing.
- Elapsed time: `millis()` is a supplied sequence of samples. When the samples run out inside a busy wait, the call is reported as not yet returned (`None`); time does not otherwise pass.
- `measurementStartTime` and `measurementDuration` (lines 133, 137) feed printing only.
- The result of `SetABCTime` is ignored by the sketch. It is an input that only decides the sensor's counter after the cycle.
- Scheduler.RunAfterSetup: the anti-drift theorem counts completed calls of `loop` within the supplied inputs. A fatal halt in `setup` spins for ever, so it is modelled as an end state (`Halted`) rather than as non-termination.
- Scheduler.RunBounds: an endless run of `loop` is modelled by its finite prefixes, one per supplied list of cycle inputs.
- ModeSwitch.SwitchMode: a negotiation that never converges and never fails would loop for ever. It is seen through finite prefixes of driver answers, ending `Unfinished`.
