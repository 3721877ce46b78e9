/** The face the sensor driver shows to the controller: the calls the sketch
    makes on the `Sunrise` object, recorded as actions so that the model can
    state which calls happen, how often and in what order. The driver's
    internals and its I2C protocol are not part of this model. */
module Sunrise {
  import opened Clock

  /** `measurementmode_t`: the sensor's persisted measurement mode. */
  datatype MeasurementMode = Continuous | Single

  /** One observable step of the controller: a driver call, or the main
      context's write `isReady = false` to the shared ready flag. */
  datatype Action =
    | Begin
    | Awake
    | Sleep
    | GetMeasurementModeEE
    | SetMeasurementModeEE(mode: MeasurementMode)
    | HardRestart
    | GetABCTime
    | SetABCTime(hours: u16)
    | ClearReady
    | StartSingleMeasurement
    | ReadMeasurement

  /** How many times `a` occurs in `xs`. */
  function Count(xs: seq<Action>, a: Action): nat
  {
    if |xs| == 0 then 0
    else (if xs[0] == a then 1 else 0) + Count(xs[1..], a)
  }

  /** Occurrences add up over concatenation. */
  lemma {:induction false} CountConcat(xs: seq<Action>, ys: seq<Action>, a: Action)
    ensures Count(xs + ys, a) == Count(xs, a) + Count(ys, a)
  {
    if |xs| == 0 {
      assert xs + ys == ys;
    } else {
      assert (xs + ys)[0] == xs[0];
      assert (xs + ys)[1..] == xs[1..] + ys;
      CountConcat(xs[1..], ys, a);
    }
  }

  /** The same over four parts. */
  lemma {:induction false} CountConcat4(w: seq<Action>, x: seq<Action>, y: seq<Action>, z: seq<Action>, a: Action)
    ensures Count(w + x + y + z, a) == Count(w, a) + Count(x, a) + Count(y, a) + Count(z, a)
  {
    CountConcat(w, x, a);
    CountConcat(w + x, y, a);
    CountConcat(w + x + y, z, a);
  }

  /** An action occurs at least once exactly when it is in the sequence. */
  lemma {:induction false} CountPositive(xs: seq<Action>, a: Action)
    ensures Count(xs, a) > 0 <==> a in xs
  {
    if |xs| > 0 {
      CountPositive(xs[1..], a);
      assert xs == [xs[0]] + xs[1..];
    }
  }

  /** Occurrences in a sequence of one action. */
  lemma {:induction false} CountOne(b: Action, a: Action)
    ensures Count([b], a) == (if b == a then 1 else 0)
  {
    assert [b][1..] == [];
  }

  /** Occurrences in a sequence of two actions. */
  lemma {:induction false} CountPair(x: Action, y: Action, a: Action)
    ensures Count([x, y], a) == (if x == a then 1 else 0) + (if y == a then 1 else 0)
  {
    assert [x, y][1..] == [y];
    CountOne(y, a);
  }

  /** Occurrences in a sequence of three actions. */
  lemma {:induction false} CountTriple(x: Action, y: Action, z: Action, a: Action)
    ensures Count([x, y, z], a) == (if x == a then 1 else 0) + (if y == a then 1 else 0) + (if z == a then 1 else 0)
  {
    assert [x, y, z][1..] == [y, z];
    CountPair(y, z, a);
  }
}
