/** A ghost device: the bytes truly moved, next to the counters that a reset
    zeroes together. */
module Device {
  import opened Traffic
  import opened PeerRows
  import MonthRun

  datatype DeviceStep = Move(rx: nat, tx: nat) | Reset

  function MovedBy(step: DeviceStep): Bytes {
    match step case Move(rx, tx) => Bytes(rx, tx) case Reset => ZERO
  }

  function Moved(steps: seq<DeviceStep>): Bytes
    decreases |steps|
  {
    if steps == [] then ZERO else MovedBy(steps[0]).Plus(Moved(steps[1..]))
  }

  /** The counters after `steps`, starting from `counters`. */
  function CountersAfter(counters: Bytes, steps: seq<DeviceStep>): Bytes
    decreases |steps|
  {
    if steps == [] then counters
    else CountersAfter(if steps[0].Reset? then ZERO else counters.Plus(MovedBy(steps[0])), steps[1..])
  }

  predicate HasReset(steps: seq<DeviceStep>) {
    exists i :: 0 <= i < |steps| && steps[i].Reset?
  }

  function MovedBeforeLastReset(steps: seq<DeviceStep>): Bytes
    decreases |steps|
  {
    if !HasReset(steps) then ZERO else MovedBy(steps[0]).Plus(MovedBeforeLastReset(steps[1..]))
  }

  lemma ResetIsFirstOrLater(steps: seq<DeviceStep>)
    requires steps != []
    ensures HasReset(steps) <==> steps[0].Reset? || HasReset(steps[1..])
  {
    forall i | 0 <= i < |steps[1..]| && steps[1..][i].Reset? ensures steps[i + 1].Reset? {}
    forall i | 0 < i < |steps| && steps[i].Reset? ensures steps[1..][i - 1].Reset? {}
  }

  lemma {:induction false} CountersAreSinceLastReset(counters: Bytes, steps: seq<DeviceStep>)
    ensures MovedBeforeLastReset(steps).NonNegative()
    ensures MovedBeforeLastReset(steps).AtMost(Moved(steps))
    ensures CountersAfter(counters, steps) ==
            if HasReset(steps) then Moved(steps).Minus(MovedBeforeLastReset(steps)) else counters.Plus(Moved(steps))
    decreases |steps|
  {
    if steps != [] {
      var next := if steps[0].Reset? then ZERO else counters.Plus(MovedBy(steps[0]));
      CountersAreSinceLastReset(next, steps[1..]);
      ResetIsFirstOrLater(steps);
      var first, rest := steps[0], steps[1..];
      assert Moved(steps) == MovedBy(first).Plus(Moved(rest));
      if HasReset(rest) {
        assert MovedBeforeLastReset(steps) == MovedBy(first).Plus(MovedBeforeLastReset(rest));
      } else {
        assert MovedBeforeLastReset(rest) == ZERO;
        assert MovedBeforeLastReset(steps) == ZERO;
      }
    }
  }

  /** What the accounting misses of one interval: nothing without a reset;
      otherwise the bytes before the last reset, plus the previous sample when
      both counters had already overtaken it and the reset went unnoticed. */
  function Shortfall(prev: Bytes, steps: seq<DeviceStep>): Bytes {
    if !HasReset(steps) then ZERO
    else if Dropped(prev, CountersAfter(prev, steps)) then MovedBeforeLastReset(steps)
    else MovedBeforeLastReset(steps).Plus(prev)
  }

  lemma MovedNonNegative(steps: seq<DeviceStep>)
    ensures Moved(steps).NonNegative()
    decreases |steps|
  {
  }

  lemma DeltaPlusMissed(prev: Bytes, cur: Bytes, moved: Bytes, before: Bytes, reset: bool)
    requires prev.NonNegative() && moved.NonNegative() && before.NonNegative() && before.AtMost(moved)
    requires cur == if reset then moved.Minus(before) else prev.Plus(moved)
    ensures var missed := if !reset then ZERO else if Dropped(prev, cur) then before else before.Plus(prev);
            cur.NonNegative() && JointDelta(prev, cur).Plus(missed) == moved && missed.NonNegative()
  {
  }

  lemma JointDeltaMissesShortfall(prev: Bytes, steps: seq<DeviceStep>)
    requires prev.NonNegative()
    ensures var cur := CountersAfter(prev, steps);
            && cur.NonNegative()
            && JointDelta(prev, cur).Plus(Shortfall(prev, steps)) == Moved(steps)
            && Shortfall(prev, steps).NonNegative()
  {
    CountersAreSinceLastReset(prev, steps);
    MovedNonNegative(steps);
    DeltaPlusMissed(prev, CountersAfter(prev, steps), Moved(steps), MovedBeforeLastReset(steps), HasReset(steps));
  }

  /** The samples a pass sees after each interval. */
  function Samples(counters: Bytes, intervals: seq<seq<DeviceStep>>): (samples: seq<Bytes>)
    ensures |samples| == |intervals|
    decreases |intervals|
  {
    if intervals == [] then []
    else var cur := CountersAfter(counters, intervals[0]); [cur] + Samples(cur, intervals[1..])
  }

  function TotalMoved(intervals: seq<seq<DeviceStep>>): Bytes
    decreases |intervals|
  {
    if intervals == [] then ZERO else Moved(intervals[0]).Plus(TotalMoved(intervals[1..]))
  }

  function TotalShortfall(counters: Bytes, intervals: seq<seq<DeviceStep>>): Bytes
    decreases |intervals|
  {
    if intervals == [] then ZERO
    else Shortfall(counters, intervals[0])
           .Plus(TotalShortfall(CountersAfter(counters, intervals[0]), intervals[1..]))
  }

  lemma SumsRegroup(delta: Bytes, deltas: Bytes, missed: Bytes, misses: Bytes)
    ensures delta.Plus(deltas).Plus(missed.Plus(misses)) == delta.Plus(missed).Plus(deltas.Plus(misses))
  {
  }

  lemma NonNegativeCons(cur: Bytes, later: seq<Bytes>)
    requires cur.NonNegative() && AllNonNegative(later)
    ensures AllNonNegative([cur] + later)
  {
    var all := [cur] + later;
    forall i | 0 <= i < |all| ensures all[i].NonNegative() {
      if i > 0 {
        assert all[i] == later[i - 1];
      }
    }
  }

  lemma {:induction false} SamplesNonNegative(counters: Bytes, intervals: seq<seq<DeviceStep>>)
    requires counters.NonNegative()
    ensures AllNonNegative(Samples(counters, intervals))
    decreases |intervals|
  {
    if intervals != [] {
      var cur := CountersAfter(counters, intervals[0]);
      JointDeltaMissesShortfall(counters, intervals[0]);
      SamplesNonNegative(cur, intervals[1..]);
      NonNegativeCons(cur, Samples(cur, intervals[1..]));
    }
  }

  /** The accumulator and its shortfalls make up the bytes truly moved. */
  lemma {:induction false} DeltasAndShortfallsAreMoved(counters: Bytes, intervals: seq<seq<DeviceStep>>)
    requires counters.NonNegative()
    ensures TotalShortfall(counters, intervals).NonNegative()
    ensures SumDeltas(counters, Samples(counters, intervals)).Plus(TotalShortfall(counters, intervals)) ==
            TotalMoved(intervals)
    decreases |intervals|
  {
    if intervals == [] {
      assert SumDeltas(counters, Samples(counters, intervals)) == ZERO;
    } else {
      var cur, rest := CountersAfter(counters, intervals[0]), intervals[1..];
      JointDeltaMissesShortfall(counters, intervals[0]);
      DeltasAndShortfallsAreMoved(cur, rest);
      SumDeltasCons(counters, cur, Samples(cur, rest));
      var deltas := SumDeltas(cur, Samples(cur, rest));
      var missed, misses := Shortfall(counters, intervals[0]), TotalShortfall(cur, rest);
      SumsRegroup(JointDelta(counters, cur), deltas, missed, misses);
      assert Samples(counters, intervals) == [cur] + Samples(cur, rest);
      assert TotalShortfall(counters, intervals) == missed.Plus(misses);
      assert TotalMoved(intervals) == Moved(intervals[0]).Plus(TotalMoved(rest));
      assert SumDeltas(counters, Samples(counters, intervals)).Plus(TotalShortfall(counters, intervals)) ==
            TotalMoved(intervals);
    }
  }

  lemma SumDeltasCons(prev: Bytes, cur: Bytes, later: seq<Bytes>)
    ensures SumDeltas(prev, [cur] + later) == JointDelta(prev, cur).Plus(SumDeltas(cur, later))
  {
    assert ([cur] + later)[1..] == later;
  }

  /** A month whose baseline is taken at the current counters without a drop:
      after any number of complete passes its total plus the shortfalls is
      what the device moved since the first pass, so it never exceeds that. */
  lemma MonthTotalsAreSound(rows: Rows, month: int, first: Bytes, intervals: seq<seq<DeviceStep>>)
    requires MonthRun.FreshMonth(rows, month) && month - 1 in rows.monthly && first.NonNegative()
    requires rows.latest.Some? ==> !Dropped(rows.latest.value, first)
    ensures var after := RunMonth(rows, month, [first] + Samples(first, intervals));
            && month in after.monthly
            && after.monthly[month].Plus(TotalShortfall(first, intervals)) == TotalMoved(intervals)
            && after.monthly[month].AtMost(TotalMoved(intervals))
  {
    var samples := Samples(first, intervals);
    SamplesNonNegative(first, intervals);
    DeltasAndShortfallsAreMoved(first, intervals);
    var all := [first] + samples;
    assert all[1..] == samples;
    assert AllNonNegative(all) by { NonNegativeCons(first, samples); }
    MonthRun.MonthTotal(rows, month, all);
    var total := RunMonth(rows, month, all).monthly[month];
    assert total == ZERO.Plus(SumDeltas(first, samples)) == SumDeltas(first, samples);
  }
}
