/** The two busy-wait primitives of the sketch: `awaitISR`, which polls the
    interrupt-set ready flag against a wrapping deadline, and `delayUntil`,
    which polls the clock until a target instant.

    Busy waiting is modelled over the supplied sequence of `millis()`
    samples: the i-th poll of the loop reads the i-th sample. When the
    samples run out before the loop exits, the result is `None`: the call has
    not returned within the observed time. */
module Wait {
  import opened Wrappers
  import opened Clock

  /** The default `timeout` argument of `awaitISR`, in milliseconds. */
  const ISR_TIMEOUT: nat := 2000

  /** The value of the `volatile` flag `isReady` at the main context's j-th
      read (from 0) during one wait. `ready0` is its value when the wait
      began; `irq`, when present, is the first read that a data-ready
      interrupt precedes. The interrupt handler only ever sets the flag, and
      a boolean holds at most one pending event, so later interrupts change
      nothing. */
  predicate ReadyAt(ready0: bool, irq: Option<nat>, j: nat)
  {
    ready0 || (irq.Some? && irq.value <= j)
  }

  /** Poll `j` ends the loop: either the flag read true, or the flag read
      false and the clock sample read next has reached the deadline. */
  predicate ExitsAt(deadline: u32, ready0: bool, irq: Option<nat>, clocks: seq<u32>, j: nat)
  {
    ReadyAt(ready0, irq, j) || (j < |clocks| && Reached(clocks[j], deadline))
  }

  /** Poll `j` reads the flag false and a clock sample before the deadline. */
  predicate KeepsWaiting(deadline: u32, ready0: bool, irq: Option<nat>, clocks: seq<u32>, j: nat)
  {
    !ReadyAt(ready0, irq, j) && j < |clocks| && !Reached(clocks[j], deadline)
  }

  /** How an `awaitISR` call returned: the value of the final read of the
      flag (the `return isReady`) and how many polls went round the loop
      before the one that ended it. */
  datatype AwaitExit = AwaitExit(ready: bool, polls: nat)

  /** The loop `while(!isReady && (long)(millis() - deadline) < 0L);`
      from poll `i` on. */
  function PollFrom(deadline: u32, ready0: bool, irq: Option<nat>, clocks: seq<u32>, i: nat): (r: Option<AwaitExit>)
    requires i <= |clocks|
    decreases |clocks| - i
    ensures r.Some? ==>
      && i <= r.value.polls <= |clocks|
      && ExitsAt(deadline, ready0, irq, clocks, r.value.polls)
      && r.value.ready == ReadyAt(ready0, irq, r.value.polls + 1)
      && forall j :: i <= j < r.value.polls ==> KeepsWaiting(deadline, ready0, irq, clocks, j)
    ensures r.None? ==>
      && !ReadyAt(ready0, irq, |clocks|)
      && forall j :: i <= j < |clocks| ==> KeepsWaiting(deadline, ready0, irq, clocks, j)
  {
    if ReadyAt(ready0, irq, i) then Some(AwaitExit(ReadyAt(ready0, irq, i + 1), i))
    else if i == |clocks| then None
    else if Reached(clocks[i], deadline) then Some(AwaitExit(ReadyAt(ready0, irq, i + 1), i))
    else PollFrom(deadline, ready0, irq, clocks, i + 1)
  }

  /** `awaitISR(timeout)`: `start` is the `millis()` sample taken by
      `timeout += millis()`, so the deadline is `start + timeout` wrapping.
      The loop ends at the first poll that reads the flag true or a clock
      sample that has reached the deadline, and the result is the flag read
      once more after the loop. */
  function AwaitIsr(timeout: u32, start: u32, ready0: bool, irq: Option<nat>, clocks: seq<u32>): (r: Option<AwaitExit>)
    ensures r.Some? ==>
      && r.value.polls <= |clocks|
      && ExitsAt(Add32(start, timeout), ready0, irq, clocks, r.value.polls)
      && r.value.ready == ReadyAt(ready0, irq, r.value.polls + 1)
      && forall j :: 0 <= j < r.value.polls ==> KeepsWaiting(Add32(start, timeout), ready0, irq, clocks, j)
    ensures r.None? <==>
      && !ReadyAt(ready0, irq, |clocks|)
      && forall j :: 0 <= j < |clocks| ==> KeepsWaiting(Add32(start, timeout), ready0, irq, clocks, j)
  {
    var r := PollFrom(Add32(start, timeout), ready0, irq, clocks, 0);
    assert r.Some? && r.value.polls < |clocks| ==>
      !KeepsWaiting(Add32(start, timeout), ready0, irq, clocks, r.value.polls);
    r
  }

  /** A `false` result means the deadline passed with no ready event
      observed: the flag was false on entry, no interrupt came before the
      final read, and the last clock sample read had reached the deadline
      while none before it had. */
  lemma {:induction false} AwaitFalseMeansTimedOut(timeout: u32, start: u32, ready0: bool, irq: Option<nat>, clocks: seq<u32>)
    requires AwaitIsr(timeout, start, ready0, irq, clocks).Some?
    requires !AwaitIsr(timeout, start, ready0, irq, clocks).value.ready
    ensures var e := AwaitIsr(timeout, start, ready0, irq, clocks).value;
      && !ready0
      && (irq.None? || irq.value > e.polls + 1)
      && e.polls < |clocks|
      && Reached(clocks[e.polls], Add32(start, timeout))
      && forall j :: 0 <= j < e.polls ==> !Reached(clocks[j], Add32(start, timeout))
  {
    var e := AwaitIsr(timeout, start, ready0, irq, clocks).value;
    forall j | 0 <= j < e.polls
      ensures !Reached(clocks[j], Add32(start, timeout))
    {
      assert KeepsWaiting(Add32(start, timeout), ready0, irq, clocks, j);
    }
  }

  /** An interrupt that arrives before the deadline is seen: if the first
      interrupt precedes read `k` and no clock sample before it has reached
      the deadline, the call returns true at exactly that poll. */
  lemma {:induction false} AwaitSeesInterrupt(timeout: u32, start: u32, irq: Option<nat>, clocks: seq<u32>)
    requires irq.Some? && irq.value <= |clocks|
    requires forall j :: 0 <= j < irq.value ==> !Reached(clocks[j], Add32(start, timeout))
    ensures AwaitIsr(timeout, start, false, irq, clocks) == Some(AwaitExit(true, irq.value))
  {
    var d, k := Add32(start, timeout), irq.value;
    var r := AwaitIsr(timeout, start, false, irq, clocks);
    assert ReadyAt(false, irq, |clocks|);
    assert !KeepsWaiting(d, false, irq, clocks, k);
    assert r.value.polls <= k;
  }

  /** Why the flag is cleared before each measurement: a flag still set on
      entry, say by a late interrupt of an earlier measurement, satisfies the
      wait at once, without a single clock sample. */
  lemma {:induction false} StaleFlagEndsWait(timeout: u32, start: u32, irq: Option<nat>, clocks: seq<u32>)
    ensures AwaitIsr(timeout, start, true, irq, clocks) == Some(AwaitExit(true, 0))
  {
  }

  /** `delayUntil(target)` from poll `i` on: the index of the first clock
      sample that has reached `target`. */
  function DelayFrom(target: u32, clocks: seq<u32>, i: nat): (r: Option<nat>)
    requires i <= |clocks|
    decreases |clocks| - i
    ensures r.Some? ==>
      && i <= r.value < |clocks|
      && Reached(clocks[r.value], target)
      && forall j :: i <= j < r.value ==> !Reached(clocks[j], target)
    ensures r.None? ==> forall j :: i <= j < |clocks| ==> !Reached(clocks[j], target)
  {
    if i == |clocks| then None
    else if Reached(clocks[i], target) then Some(i)
    else DelayFrom(target, clocks, i + 1)
  }

  /** `delayUntil(target)`: returns at the first clock sample that has
      reached `target`, and only then. */
  function DelayUntil(target: u32, clocks: seq<u32>): (r: Option<nat>)
    ensures r.Some? ==>
      && r.value < |clocks|
      && Reached(clocks[r.value], target)
      && forall j :: 0 <= j < r.value ==> !Reached(clocks[j], target)
    ensures r.None? <==> forall j :: 0 <= j < |clocks| ==> !Reached(clocks[j], target)
  {
    DelayFrom(target, clocks, 0)
  }

  /** `delayUntil` does not overshoot: once any sample has reached
      `target`, the call has returned at that sample or an earlier one. */
  lemma {:induction false} DelayReturnsByFirstReach(target: u32, clocks: seq<u32>, j: nat)
    requires j < |clocks| && Reached(clocks[j], target)
    ensures DelayUntil(target, clocks).Some? && DelayUntil(target, clocks).value <= j
  {
  }
}
