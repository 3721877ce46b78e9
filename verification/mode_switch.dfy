/** `switchMode`: negotiating the sensor's persisted measurement mode.

    The loop reads the mode stored in the sensor's EEPROM; when it equals the
    desired mode it returns, otherwise it writes the desired mode and hard
    restarts the sensor (a new mode takes effect only after a restart), and
    goes round again. Any failed driver call prints an error and spins in
    `while(true);` for ever: a fail-stop halt.

    The driver's answers are supplied as one `Attempt` per loop iteration;
    the model returns how the loop ended and every driver call it made. */
module ModeSwitch {
  import opened Wrappers
  import opened Sunrise

  /** The driver's answers in one iteration of the loop: the result of
      `GetMeasurementModeEE` (`None` when the call failed), then of
      `SetMeasurementModeEE` and of `HardRestart`. The later fields are
      consulted only when the loop gets that far. */
  datatype Attempt = Attempt(read: Option<MeasurementMode>, setOk: bool, restartOk: bool)

  /** Which driver call failed and stopped the controller. */
  datatype FatalReason = GetModeFailed | SetModeFailed | RestartFailed

  /** How the loop ended: it returned, it halted, or the supplied answers ran
      out while it was still going round. */
  datatype Outcome = Converged | Fatal(reason: FatalReason) | Unfinished

  /** `rounds` counts the completed read-write-restart iterations. */
  datatype Negotiation = Negotiation(outcome: Outcome, rounds: nat, calls: seq<Action>)

  /** The read of `a` reported a stored mode other than `mode`. */
  predicate Mismatch(a: Attempt, mode: MeasurementMode)
  {
    a.read.Some? && a.read.value != mode
  }

  /** An iteration that read a stored mode other than `mode` and whose write
      and restart both succeeded, so that the loop went round again. */
  predicate Retried(a: Attempt, mode: MeasurementMode)
  {
    Mismatch(a, mode) && a.setOk && a.restartOk
  }

  /** How one iteration ends the loop, or `Unfinished` when it goes round
      again. The failed call, if any, is the first one that failed. */
  function IterationOutcome(a: Attempt, mode: MeasurementMode): (o: Outcome)
    ensures o == Unfinished <==> Retried(a, mode)
    ensures o == Converged <==> a.read == Some(mode)
    ensures o == Fatal(GetModeFailed) <==> a.read == None
    ensures o == Fatal(SetModeFailed) <==> Mismatch(a, mode) && !a.setOk
    ensures o == Fatal(RestartFailed) <==> Mismatch(a, mode) && a.setOk && !a.restartOk
  {
    match a.read
    case None => Fatal(GetModeFailed)
    case Some(stored) =>
      if stored == mode then Converged
      else if !a.setOk then Fatal(SetModeFailed)
      else if !a.restartOk then Fatal(RestartFailed)
      else Unfinished
  }

  /** The driver calls of one retrying iteration. */
  function Round(mode: MeasurementMode): seq<Action>
  {
    [GetMeasurementModeEE, SetMeasurementModeEE(mode), HardRestart]
  }

  /** The driver calls of `n` retrying iterations. */
  function Rounds(mode: MeasurementMode, n: nat): seq<Action>
  {
    if n == 0 then [] else Round(mode) + Rounds(mode, n - 1)
  }

  /** One more retrying iteration in front of a record. */
  lemma {:induction false} RoundsCons(mode: MeasurementMode, n: nat, closing: seq<Action>)
    ensures Round(mode) + (Rounds(mode, n) + closing) == Rounds(mode, n + 1) + closing
  {
  }

  /** The driver calls of the iteration that ended the loop: the last call is
      the one that decided the outcome, and nothing follows it. */
  function Closing(outcome: Outcome, mode: MeasurementMode): seq<Action>
  {
    match outcome
    case Converged => [GetMeasurementModeEE]
    case Fatal(GetModeFailed) => [GetMeasurementModeEE]
    case Fatal(SetModeFailed) => [GetMeasurementModeEE, SetMeasurementModeEE(mode)]
    case Fatal(RestartFailed) => Round(mode)
    case Unfinished => []
  }

  /** `switchMode(mode)` over the driver's answers, one per iteration: some
      number of retrying iterations, then the iteration that decides the
      outcome, whose calls close the record. */
  function SwitchMode(mode: MeasurementMode, attempts: seq<Attempt>): (r: Negotiation)
    decreases |attempts|
    ensures r.rounds <= |attempts|
    ensures forall i :: 0 <= i < r.rounds ==> Retried(attempts[i], mode)
    ensures r.outcome == Unfinished <==> r.rounds == |attempts|
    ensures r.outcome != Unfinished ==> r.outcome == IterationOutcome(attempts[r.rounds], mode)
    ensures r.calls == Rounds(mode, r.rounds) + Closing(r.outcome, mode)
  {
    if |attempts| == 0 then Negotiation(Unfinished, 0, [])
    else
      var o := IterationOutcome(attempts[0], mode);
      if o != Unfinished then Negotiation(o, 0, Closing(o, mode))
      else
        var rest := SwitchMode(mode, attempts[1..]);
        RoundsCons(mode, rest.rounds, Closing(rest.outcome, mode));
        Negotiation(rest.outcome, rest.rounds + 1, Round(mode) + rest.calls)
  }

  /** The loop returns normally exactly when some read reports the desired
      mode and every iteration before it read a different mode and then wrote
      and restarted successfully. */
  lemma {:induction false} ConvergedIff(mode: MeasurementMode, attempts: seq<Attempt>)
    ensures SwitchMode(mode, attempts).outcome == Converged <==>
      exists n :: 0 <= n < |attempts| && attempts[n].read == Some(mode)
        && forall i :: 0 <= i < n ==> Retried(attempts[i], mode)
  {
    var r := SwitchMode(mode, attempts);
    if r.outcome == Converged {
      assert attempts[r.rounds].read == Some(mode);
    }
    if exists n :: 0 <= n < |attempts| && attempts[n].read == Some(mode)
        && forall i :: 0 <= i < n ==> Retried(attempts[i], mode) {
      var n :| 0 <= n < |attempts| && attempts[n].read == Some(mode)
        && forall i :: 0 <= i < n ==> Retried(attempts[i], mode);
      assert !Retried(attempts[n], mode);
      assert r.rounds <= n;
    }
  }

  /** The number of `GetMeasurementModeEE` calls the loop made: one per
      iteration it entered. */
  function Reads(r: Negotiation): nat
  {
    if r.outcome == Unfinished then r.rounds else r.rounds + 1
  }

  /** How many of `attempts` read a stored mode other than `mode`. */
  function MismatchedReads(attempts: seq<Attempt>, mode: MeasurementMode): nat
  {
    if |attempts| == 0 then 0
    else
      MismatchedReads(attempts[..|attempts| - 1], mode)
      + (if Mismatch(attempts[|attempts| - 1], mode) then 1 else 0)
  }

  /** `n` retrying iterations read a mismatch each. */
  lemma {:induction false} RetriedPrefix(attempts: seq<Attempt>, mode: MeasurementMode, n: nat)
    requires n <= |attempts|
    requires forall i :: 0 <= i < n ==> Retried(attempts[i], mode)
    ensures MismatchedReads(attempts[..n], mode) == n
  {
    if n > 0 {
      assert attempts[..n][..n - 1] == attempts[..n - 1];
      RetriedPrefix(attempts, mode, n - 1);
    }
  }

  /** The driver calls a negotiation can make. */
  predicate ModeCall(a: Action, mode: MeasurementMode)
  {
    a == GetMeasurementModeEE || a == SetMeasurementModeEE(mode) || a == HardRestart
  }

  /** `n` retrying iterations make `n` reads, `n` writes and `n` restarts,
      and no other call. */
  lemma {:induction false} RoundsCounts(mode: MeasurementMode, n: nat)
    ensures Count(Rounds(mode, n), GetMeasurementModeEE) == n
    ensures Count(Rounds(mode, n), SetMeasurementModeEE(mode)) == n
    ensures Count(Rounds(mode, n), HardRestart) == n
    ensures forall a :: a in Rounds(mode, n) ==> ModeCall(a, mode)
  {
    if n > 0 {
      RoundsCounts(mode, n - 1);
      RoundCounts(mode);
      CountConcat(Round(mode), Rounds(mode, n - 1), GetMeasurementModeEE);
      CountConcat(Round(mode), Rounds(mode, n - 1), SetMeasurementModeEE(mode));
      CountConcat(Round(mode), Rounds(mode, n - 1), HardRestart);
    }
  }

  /** The closing iteration writes the mode when it read a mismatch. */
  function ClosingWrites(outcome: Outcome): nat
  {
    if outcome == Fatal(SetModeFailed) || outcome == Fatal(RestartFailed) then 1 else 0
  }

  /** Counts of the calls of `n` retrying iterations and a closing one. */
  lemma {:induction false} ShapeCounts(mode: MeasurementMode, n: nat, outcome: Outcome, calls: seq<Action>)
    requires calls == Rounds(mode, n) + Closing(outcome, mode)
    ensures Count(calls, GetMeasurementModeEE) == n + (if outcome == Unfinished then 0 else 1)
    ensures Count(calls, SetMeasurementModeEE(mode)) == n + ClosingWrites(outcome)
    ensures Count(calls, HardRestart) == n + (if outcome == Fatal(RestartFailed) then 1 else 0)
    ensures forall a :: a in calls ==> ModeCall(a, mode)
  {
    var closing := Closing(outcome, mode);
    RoundsCounts(mode, n);
    ClosingCounts(outcome, mode);
    CountConcat(Rounds(mode, n), closing, GetMeasurementModeEE);
    CountConcat(Rounds(mode, n), closing, SetMeasurementModeEE(mode));
    CountConcat(Rounds(mode, n), closing, HardRestart);
  }

  /** Counts of the calls of the closing iteration alone. */
  lemma {:induction false} ClosingCounts(outcome: Outcome, mode: MeasurementMode)
    ensures Count(Closing(outcome, mode), GetMeasurementModeEE) == (if outcome == Unfinished then 0 else 1)
    ensures Count(Closing(outcome, mode), SetMeasurementModeEE(mode)) == ClosingWrites(outcome)
    ensures Count(Closing(outcome, mode), HardRestart) == (if outcome == Fatal(RestartFailed) then 1 else 0)
    ensures forall a :: a in Closing(outcome, mode) ==> ModeCall(a, mode)
  {
    RoundCounts(mode);
    var two := [GetMeasurementModeEE, SetMeasurementModeEE(mode)];
    assert two[1..] == [SetMeasurementModeEE(mode)];
    assert two[1..][1..] == [];
  }

  /** Counts of the calls of one retrying iteration. */
  lemma {:induction false} RoundCounts(mode: MeasurementMode)
    ensures Count(Round(mode), GetMeasurementModeEE) == 1
    ensures Count(Round(mode), SetMeasurementModeEE(mode)) == 1
    ensures Count(Round(mode), HardRestart) == 1
  {
    var r := Round(mode);
    assert r[1..] == [SetMeasurementModeEE(mode), HardRestart];
    assert r[1..][1..] == [HardRestart];
    assert r[1..][1..][1..] == [];
  }

  /** Exactly one write per mismatch observed: the loop reads once per
      iteration, writes the desired mode once for every read that reported a
      different one, restarts once after every write except a failed one, and
      makes no driver call other than these three (in particular it never
      writes any other mode). */
  lemma {:induction false} CallCounts(mode: MeasurementMode, attempts: seq<Attempt>)
    ensures var r := SwitchMode(mode, attempts);
      && Reads(r) <= |attempts|
      && Count(r.calls, GetMeasurementModeEE) == Reads(r)
      && Count(r.calls, SetMeasurementModeEE(mode)) == MismatchedReads(attempts[..Reads(r)], mode)
      && Count(r.calls, HardRestart)
         == Count(r.calls, SetMeasurementModeEE(mode)) - (if r.outcome == Fatal(SetModeFailed) then 1 else 0)
      && forall a :: a in r.calls ==> ModeCall(a, mode)
  {
    var r := SwitchMode(mode, attempts);
    var n := r.rounds;
    ShapeCounts(mode, n, r.outcome, r.calls);
    RetriedPrefix(attempts, mode, n);
    if r.outcome != Unfinished {
      assert attempts[..n + 1][..n] == attempts[..n];
      assert Mismatch(attempts[n], mode) <==> ClosingWrites(r.outcome) == 1;
    }
  }

  /** In `calls`, every write of the mode comes straight after a read and
      is followed straight away by a hard restart, unless that write failed
      (the loop then ended with `outcome`) and was the last call. */
  predicate WritesBetweenReadAndRestart(calls: seq<Action>, outcome: Outcome)
  {
    forall k {:trigger calls[k]} :: 0 <= k < |calls| && calls[k].SetMeasurementModeEE? ==>
      && 0 < k && calls[k - 1] == GetMeasurementModeEE
      && ((k + 1 < |calls| && calls[k + 1] == HardRestart)
          || (k + 1 == |calls| && outcome == Fatal(SetModeFailed)))
  }

  /** Every write of the mode comes straight after a read and is followed
      straight away by a hard restart, unless that write itself failed and
      was the controller's last call. */
  lemma {:induction false} WriteThenRestart(mode: MeasurementMode, attempts: seq<Attempt>)
    ensures WritesBetweenReadAndRestart(SwitchMode(mode, attempts).calls, SwitchMode(mode, attempts).outcome)
  {
    var r := SwitchMode(mode, attempts);
    ShapeOrder(mode, r.rounds, r.outcome, r.calls);
  }

  /** The order property of `WriteThenRestart`, for any number of retrying
      iterations and any closing one. */
  lemma {:induction false} ShapeOrder(mode: MeasurementMode, n: nat, outcome: Outcome, calls: seq<Action>)
    requires calls == Rounds(mode, n) + Closing(outcome, mode)
    ensures WritesBetweenReadAndRestart(calls, outcome)
  {
    if n == 0 {
      assert calls == Closing(outcome, mode);
      ClosingOrder(outcome, mode);
    } else {
      var tail := Rounds(mode, n - 1) + Closing(outcome, mode);
      ShapeOrder(mode, n - 1, outcome, tail);
      assert calls == Round(mode) + tail;
      RoundThenOrder(mode, tail, outcome);
    }
  }

  /** The order property holds of the closing iteration alone. */
  lemma {:induction false} ClosingOrder(outcome: Outcome, mode: MeasurementMode)
    ensures WritesBetweenReadAndRestart(Closing(outcome, mode), outcome)
  {
    match outcome
    case Converged =>
    case Fatal(GetModeFailed) =>
    case Fatal(SetModeFailed) =>
    case Fatal(RestartFailed) =>
    case Unfinished =>
  }

  /** The order property survives a retrying iteration in front. */
  lemma {:induction false} RoundThenOrder(mode: MeasurementMode, tail: seq<Action>, outcome: Outcome)
    requires WritesBetweenReadAndRestart(tail, outcome)
    ensures WritesBetweenReadAndRestart(Round(mode) + tail, outcome)
  {
    var calls := Round(mode) + tail;
    forall k | 0 <= k < |calls| && calls[k].SetMeasurementModeEE?
      ensures 0 < k && calls[k - 1] == GetMeasurementModeEE
      ensures (k + 1 < |calls| && calls[k + 1] == HardRestart)
           || (k + 1 == |calls| && outcome == Fatal(SetModeFailed))
    {
      if k >= 3 {
        var j := k - 3;
        assert calls[k] == tail[j];
        assert 0 < j && tail[j - 1] == GetMeasurementModeEE;
        assert calls[k - 1] == tail[j - 1];
        if j + 1 < |tail| {
          assert calls[k + 1] == tail[j + 1];
        } else {
          assert k + 1 == |calls|;
        }
      } else {
        assert calls[0] == GetMeasurementModeEE && calls[2] == HardRestart;
        assert k == 1;
      }
    }
  }

  /** A sensor that keeps what it is told: every call succeeds, the first
      read reports the mode found in the EEPROM and every later read reports
      the mode written before it. */
  predicate KeepsWrites(attempts: seq<Attempt>, stored: MeasurementMode, mode: MeasurementMode)
  {
    && |attempts| >= 2
    && attempts[0].read == Some(stored)
    && forall i :: 0 <= i < |attempts| ==>
         attempts[i].setOk && attempts[i].restartOk && (i > 0 ==> attempts[i].read == Some(mode))
  }

  /** Against such a sensor the negotiation converges in one read when the
      stored mode is already right and after exactly one write and one
      restart otherwise. */
  lemma {:induction false} ConvergesOnKeepingSensor(attempts: seq<Attempt>, stored: MeasurementMode, mode: MeasurementMode)
    requires KeepsWrites(attempts, stored, mode)
    ensures var r := SwitchMode(mode, attempts);
      && r.outcome == Converged
      && r.rounds == (if stored == mode then 0 else 1)
      && r.calls == (if stored == mode then [] else Round(mode)) + [GetMeasurementModeEE]
  {
    if stored != mode {
      assert Retried(attempts[0], mode);
      assert attempts[1..][0].read == Some(mode);
    }
  }
}
