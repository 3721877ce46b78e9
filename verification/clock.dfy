/** Fixed-width arithmetic of the sketch and the wraparound-safe "reached"
    test on the free-running millisecond clock.

    On the AVR target `unsigned long` and `long` are both 32 bits wide and
    `uint16_t` is 16 bits, so `millis()` and the schedule anchors live in
    [0, 2^32) and the hour counter in [0, 2^16). Every addition and
    subtraction the sketch performs on them wraps, and is written out here
    with an explicit modulus. */
module Clock {

  const TWO_16: int := 0x1_0000
  const TWO_31: int := 0x8000_0000
  const TWO_32: int := 0x1_0000_0000

  /** An `unsigned long` on the target. */
  type u32 = x: int | 0 <= x < 0x1_0000_0000

  /** A `uint16_t`. */
  type u16 = x: int | 0 <= x < 0x1_0000

  /** Unsigned addition: the sum wraps past 2^32 - 1 back to 0. */
  function Add32(a: u32, b: nat): u32
  {
    (a + b) % TWO_32
  }

  /** `Add32` is the plain sum when it fits in 32 bits, and the sum less
      2^32 when it overflows once. */
  lemma Add32Wraps(a: u32, b: nat)
    ensures a + b < TWO_32 ==> Add32(a, b) == a + b
    ensures TWO_32 <= a + b < 2 * TWO_32 ==> Add32(a, b) == a + b - TWO_32
  {
  }

  /** Unsigned subtraction: a difference below 0 wraps to 2^32 + (a - b). */
  function Sub32(a: u32, b: u32): (r: u32)
    ensures b <= a ==> r == a - b
    ensures a < b ==> r == TWO_32 + a - b
  {
    (a - b) % TWO_32
  }

  /** `x++` on a `uint16_t`: 65535 wraps to 0. */
  function Inc16(a: u16): (r: u16)
    ensures r == if a == TWO_16 - 1 then 0 else a + 1
  {
    (a + 1) % TWO_16
  }

  /** The `(long)` cast of an `unsigned long`: the same 32 bits read as a
      two's-complement number. */
  function Signed32(x: u32): (r: int)
    ensures -TWO_31 <= r < TWO_31
    ensures r % TWO_32 == x
    ensures r >= 0 <==> x < TWO_31
  {
    if x < TWO_31 then x else x - TWO_32
  }

  /** `(long)(now - target) >= 0`: the clock has reached or passed `target`.
      This is the test of `delayUntil`, of the hour check in `loop` and,
      negated, the continue condition of `awaitISR`. */
  predicate Reached(now: u32, target: u32)
    ensures Reached(now, target) <==> Sub32(now, target) < TWO_31
  {
    Signed32(Sub32(now, target)) >= 0
  }

  /** Going forward `d` ticks and measuring the distance back recovers `d`,
      also when the addition wrapped. */
  lemma SubAfterAdd(target: u32, d: nat)
    requires d < TWO_32
    ensures Sub32(Add32(target, d), target) == d
  {
  }

  /** Going forward the measured distance from `target` lands on `now`. */
  lemma AddAfterSub(now: u32, target: u32)
    ensures Add32(target, Sub32(now, target)) == now
  {
  }

  /** Every instant less than 2^31 ms at or after `target`, counting forward
      through a wrap of the clock, has reached it. */
  lemma ReachedWithin(target: u32, d: nat)
    requires d < TWO_31
    ensures Reached(Add32(target, d), target)
  {
    SubAfterAdd(target, d);
  }

  /** No instant up to 2^31 ms before `target` has reached it, also when
      `target` itself lies just past a wrap. */
  lemma NotReachedBefore(target: u32, d: nat)
    requires 0 < d <= TWO_31
    ensures !Reached(Sub32(target, d), target)
  {
    assert Sub32(Sub32(target, d), target) == TWO_32 - d;
  }

  /** The wraparound-safe comparison agrees with its meaning: `now` has
      reached `target` iff `now` is `target` advanced by some distance in
      [0, 2^31) on the wrapping clock. */
  lemma ReachedMeansAhead(now: u32, target: u32)
    ensures Reached(now, target) <==> exists d: nat :: d < TWO_31 && Add32(target, d) == now
  {
    if Reached(now, target) {
      AddAfterSub(now, target);
      var d: nat := Sub32(now, target);
      assert d < TWO_31 && Add32(target, d) == now;
    }
    if exists d: nat :: d < TWO_31 && Add32(target, d) == now {
      var d: nat :| d < TWO_31 && Add32(target, d) == now;
      ReachedWithin(target, d);
    }
  }

  /** Two instants have each reached the other only when they are equal, so
      the comparison never calls two distinct instants both "not later". */
  lemma ReachedBothWays(a: u32, b: u32)
    ensures Reached(a, b) && Reached(b, a) <==> a == b
  {
  }

  /** Two successive wrapping additions are one wrapping addition of the sum:
      a fixed increment applied k times is k increments applied once. */
  lemma AddAdd(a: u32, x: nat, y: nat)
    ensures Add32(Add32(a, x), y) == Add32(a, x + y)
  {
  }

  /** The same for the 16-bit hour counter: two increments by `x` and `y`
      wrap to one increment by `x + y`. */
  lemma AddAdd16(h: u16, x: nat, y: nat)
    ensures ((h + x) % TWO_16 + y) % TWO_16 == (h + x + y) % TWO_16
  {
  }

  /** `a` moved on `k` times by `step`, one wrapping addition at a time, as
      a schedule anchor is. */
  function Shift(a: u32, step: nat, k: nat): u32
  {
    if k == 0 then a else Add32(Shift(a, step, k - 1), step)
  }

  /** `k` wrapping steps land where one wrapping addition of `k * step`
      does: no step is lost or doubled when the clock wraps. */
  lemma {:induction false} ShiftClosed(a: u32, step: nat, k: nat)
    ensures Shift(a, step, k) == Add32(a, k * step)
  {
    if k > 0 {
      ShiftClosed(a, step, k - 1);
      MulSucc(k - 1, step);
      StepOn(Shift(a, step, k - 1), a, (k - 1) * step, step, k * step);
    }
  }

  /** One more step from `a + before` lands on `a + total` when `total` is
      `before + step`. */
  lemma StepOn(x: u32, a: u32, before: nat, step: nat, total: nat)
    requires x == Add32(a, before) && total == before + step
    ensures Add32(x, step) == Add32(a, total)
  {
    AddAdd(a, before, step);
  }

  /** `(k + 1) * step` is `k * step` plus one more `step`. */
  lemma MulSucc(k: nat, step: nat)
    ensures k * step + step == (k + 1) * step
  {
  }

  /** `k1` steps followed by `k2` steps are `k1 + k2` steps. */
  lemma {:induction false} ShiftShift(a: u32, step: nat, k1: nat, k2: nat)
    ensures Shift(Shift(a, step, k1), step, k2) == Shift(a, step, k1 + k2)
  {
    if k2 > 0 {
      ShiftShift(a, step, k1, k2 - 1);
    }
  }
}
