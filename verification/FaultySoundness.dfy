/** Soundness against the ghost device when store calls fail. */
module FaultySoundness {
  import opened Common
  import opened Traffic
  import opened TrafficCalc
  import opened PeerRows
  import MonthRun
  import opened Device

  /** The pass gets as far as comparing counters. */
  predicate Reaches(f: Faults) {
    !f.loadBaseline && !f.loadSnapshot && !f.loadMonthly
  }

  /** A pass that re-anchors the month also stores its total and snapshot. */
  predicate ReanchorsWhole(rows: Rows, month: int, cur: Bytes, f: Faults) {
    month in rows.baselines && Reaches(f) && !f.reanchor && CountersDropped(InputFor(rows, month, cur)) ==>
      !f.saveMonthly && !f.saveSnapshot
  }

  /** The stored total was computed from counters `c1`, the snapshot is not
      above them, and the total is at most `bound`. */
  ghost predicate Covered(rows: Rows, month: int, c1: Bytes, bound: Bytes) {
    && month in rows.baselines && month in rows.monthly && rows.latest.Some?
    && var b, s := rows.baselines[month], rows.latest.value;
    && s.NonNegative() && b.counters.AtMost(s) && s.AtMost(c1)
    && rows.monthly[month] == b.offset.Plus(c1.Minus(b.counters))
    && rows.monthly[month].AtMost(bound)
  }

  /** `moved` is what the device moved so far. The steps since the snapshot are
      `pre + post`, and the stored total dates from the end of `pre`. */
  ghost predicate Accounted(rows: Rows, month: int, moved: Bytes, pre: seq<DeviceStep>, post: seq<DeviceStep>) {
    rows.latest.Some? && Covered(rows, month, CountersAfter(rows.latest.value, pre), moved.Minus(Moved(post)))
  }

  lemma {:induction false} MovedAppend(first: seq<DeviceStep>, second: seq<DeviceStep>)
    ensures Moved(first + second) == Moved(first).Plus(Moved(second))
    decreases |first|
  {
    var all := first + second;
    if first == [] {
      assert all == second;
      PlusZero(Moved(second));
    } else {
      assert all[0] == first[0] && all[1..] == first[1..] + second;
      MovedAppend(first[1..], second);
      PlusAssociative(MovedBy(first[0]), Moved(first[1..]), Moved(second));
    }
  }

  lemma {:induction false} CountersAppend(counters: Bytes, first: seq<DeviceStep>, second: seq<DeviceStep>)
    ensures CountersAfter(counters, first + second) == CountersAfter(CountersAfter(counters, first), second)
    decreases |first|
  {
    var all := first + second;
    if first == [] {
      assert all == second;
    } else {
      assert all[0] == first[0] && all[1..] == first[1..] + second;
      CountersAppend(if first[0].Reset? then ZERO else counters.Plus(MovedBy(first[0])), first[1..], second);
    }
  }

  /** Without a drop against the snapshot the growth since the stored total is
      covered by the steps since then, reset or not. */
  lemma GrowthIsCovered(s: Bytes, c1: Bytes, c2: Bytes, post: seq<DeviceStep>)
    requires s.NonNegative() && s.AtMost(c1) && c2 == CountersAfter(c1, post)
    ensures c2.NonNegative() && c2.Minus(c1).AtMost(Moved(post))
    ensures Dropped(s, c2) ==> c2.AtMost(Moved(post))
  {
    CountersAreSinceLastReset(c1, post);
    MovedNonNegative(post);
  }

  /** The offset after a reset is the snapshot's credit or the stored total. */
  lemma OffsetIsCovered(b: Baseline, s: Bytes, stored: Bytes, c2: Bytes)
    requires b.counters.AtMost(s) && s.NonNegative() && c2.NonNegative() && Dropped(s, c2)
    requires b.offset.Plus(s.Minus(b.counters)).AtMost(stored)
    ensures var res := ComputeMonthTraffic(MonthInput(b, c2, Some(s), Some(stored)));
            && res.reanchor && res.base.counters == ZERO
            && res.base.offset.AtMost(stored) && res.total == res.base.offset.Plus(c2)
  {
  }

  /** The pass writes nothing: a load fails, or the first write of its branch does. */
  predicate WritesNothing(f: Faults, dropped: bool) {
    !Reaches(f) || (if dropped then f.reanchor else f.saveMonthly)
  }

  lemma PassOutcome(rows: Rows, month: int, cur: Bytes, f: Faults)
    requires month in rows.baselines && rows.latest.Some? && ReanchorsWhole(rows, month, cur, f)
    requires rows.baselines[month].counters.AtMost(rows.latest.value)
    ensures var b, s := rows.baselines[month], rows.latest.value;
            var res := ComputeMonthTraffic(MonthInput(b, cur, Some(s), MonthlyOf(rows, month)));
            var total := b.offset.Plus(cur.Minus(b.counters));
            Collect(rows, month, cur, f) ==
            if WritesNothing(f, Dropped(s, cur)) then rows
            else if Dropped(s, cur) then
              Rows(rows.baselines[month := res.base], rows.monthly[month := res.total], Some(cur))
            else
              Rows(rows.baselines, rows.monthly[month := total], if f.saveSnapshot then rows.latest else Some(cur))
  {
    var b, s := rows.baselines[month], rows.latest.value;
    var x := InputFor(rows, month, cur);
    assert CountersDropped(x) <==> Dropped(s, cur);
    if !Dropped(s, cur) {
      assert ComputeMonthTraffic(x) == MonthResult(b.offset.Plus(cur.Minus(b.counters)), b, false);
    }
    assert Collect(rows, month, cur, f) ==
           if Reaches(f) then WriteResult(rows, month, cur, ComputeMonthTraffic(x), f) else rows;
  }

  /** `growth` is what the device moved since `c1` was read. */
  lemma CoveredStep(rows: Rows, month: int, c1: Bytes, bound: Bytes, cur: Bytes, growth: Bytes, f: Faults)
    requires Covered(rows, month, c1, bound) && ReanchorsWhole(rows, month, cur, f)
    requires cur.NonNegative() && cur.Minus(c1).AtMost(growth)
    requires Dropped(rows.latest.value, cur) ==> cur.AtMost(growth)
    requires !WritesNothing(f, Dropped(rows.latest.value, cur))
    ensures var dropped, after := Dropped(rows.latest.value, cur), Collect(rows, month, cur, f);
            && Covered(after, month, cur, bound.Plus(growth))
            && after.latest == if !dropped && f.saveSnapshot then rows.latest else Some(cur)
  {
    PassOutcome(rows, month, cur, f);
    var b, s, stored := rows.baselines[month], rows.latest.value, rows.monthly[month];
    if Dropped(s, cur) {
      OffsetIsCovered(b, s, stored, cur);
      assert stored.Plus(cur).AtMost(bound.Plus(growth));
    } else {
      assert b.offset.Plus(cur.Minus(b.counters)) == stored.Plus(cur.Minus(c1));
    }
  }

  lemma Rebase(moved: Bytes, p: Bytes, q: Bytes)
    ensures moved.Plus(q).Minus(p.Plus(q)) == moved.Minus(p)
    ensures moved.Minus(p).Plus(p.Plus(q)) == moved.Plus(q).Minus(ZERO)
  {
  }

  lemma AccountedStep(rows: Rows, month: int, moved: Bytes, pre: seq<DeviceStep>, post: seq<DeviceStep>,
                      steps: seq<DeviceStep>, f: Faults)
      returns (pre': seq<DeviceStep>, post': seq<DeviceStep>)
    requires Accounted(rows, month, moved, pre, post)
    requires var cur := CountersAfter(rows.latest.value, pre + post + steps);
             ReanchorsWhole(rows, month, cur, f)
    ensures var cur := CountersAfter(rows.latest.value, pre + post + steps);
            var after := Collect(rows, month, cur, f);
            && Accounted(after, month, moved.Plus(Moved(steps)), pre', post')
            && cur == CountersAfter(after.latest.value, pre' + post')
  {
    var s, since := rows.latest.value, post + steps;
    var c1, bound := CountersAfter(s, pre), moved.Minus(Moved(post));
    var cur := CountersAfter(s, pre + post + steps);
    assert pre + post + steps == pre + since;
    CountersAppend(s, pre, since);
    MovedAppend(post, steps);
    GrowthIsCovered(s, c1, cur, since);
    Rebase(moved, Moved(post), Moved(steps));
    if WritesNothing(f, Dropped(s, cur)) {
      PassOutcome(rows, month, cur, f);
      pre', post' := pre, since;
    } else {
      CoveredStep(rows, month, c1, bound, cur, Moved(since), f);
      pre', post' := if !Dropped(s, cur) && f.saveSnapshot then pre + since else [], [];
      assert pre' + post' == pre';
    }
  }

  datatype Interval = Interval(steps: seq<DeviceStep>, faults: Faults)

  /** Passes after each interval, the device counters starting at `counters`. */
  function RunIntervals(rows: Rows, month: int, counters: Bytes, intervals: seq<Interval>): Rows
    decreases |intervals|
  {
    if intervals == [] then rows
    else
      var cur := CountersAfter(counters, intervals[0].steps);
      RunIntervals(Collect(rows, month, cur, intervals[0].faults), month, cur, intervals[1..])
  }

  ghost predicate EveryReanchorWhole(rows: Rows, month: int, counters: Bytes, intervals: seq<Interval>)
    decreases |intervals|
  {
    intervals == [] ||
    var cur := CountersAfter(counters, intervals[0].steps);
    ReanchorsWhole(rows, month, cur, intervals[0].faults) &&
    EveryReanchorWhole(Collect(rows, month, cur, intervals[0].faults), month, cur, intervals[1..])
  }

  function IntervalsMoved(intervals: seq<Interval>): Bytes
    decreases |intervals|
  {
    if intervals == [] then ZERO else Moved(intervals[0].steps).Plus(IntervalsMoved(intervals[1..]))
  }

  lemma {:induction false} SoundFrom(rows: Rows, month: int, moved: Bytes, pre: seq<DeviceStep>,
                                     post: seq<DeviceStep>, counters: Bytes, intervals: seq<Interval>)
    requires Accounted(rows, month, moved, pre, post) && counters == CountersAfter(rows.latest.value, pre + post)
    requires EveryReanchorWhole(rows, month, counters, intervals)
    ensures var after := RunIntervals(rows, month, counters, intervals);
            month in after.monthly && after.monthly[month].AtMost(moved.Plus(IntervalsMoved(intervals)))
    decreases |intervals|
  {
    if intervals == [] {
      MovedNonNegative(post);
    } else {
      var steps, f := intervals[0].steps, intervals[0].faults;
      CountersAppend(rows.latest.value, pre + post, steps);
      var cur := CountersAfter(counters, steps);
      var pre', post' := AccountedStep(rows, month, moved, pre, post, steps, f);
      SoundFrom(Collect(rows, month, cur, f), month, moved.Plus(Moved(steps)), pre', post', cur, intervals[1..]);
    }
  }

  lemma SoundWhenAnchored(rows: Rows, month: int, intervals: seq<Interval>)
    requires MonthRun.Anchored(rows, month) && rows.latest.value.NonNegative()
    requires EveryReanchorWhole(rows, month, rows.latest.value, intervals)
    ensures var after := RunIntervals(rows, month, rows.latest.value, intervals);
            && month in after.monthly
            && after.monthly[month].AtMost(rows.monthly[month].Plus(IntervalsMoved(intervals)))
  {
    SoundFrom(rows, month, rows.monthly[month], [], [], rows.latest.value, intervals);
  }

  // ---- before the month has a total ----------------------------------------

  /** The month has a baseline that no snapshot is above; the passes since it was
      stored may all have failed. */
  ghost predicate Started(rows: Rows, month: int) {
    && month in rows.baselines && rows.baselines[month].counters.NonNegative()
    && (rows.latest.Some? ==> rows.latest.value.AtMost(rows.baselines[month].counters))
  }

  /** The same month as if a snapshot and the offset as a total had been stored with
      the baseline. */
  function Lifted(rows: Rows, month: int): Rows
    requires month in rows.baselines
  {
    Rows(rows.baselines,
         if month in rows.monthly then rows.monthly else rows.monthly[month := rows.baselines[month].offset],
         Some(rows.baselines[month].counters))
  }

  /** The lifted rows are the rows, or what the rows stand for in a started month. */
  ghost predicate StandsFor(rows: Rows, lifted: Rows, month: int) {
    rows == lifted || (Started(rows, month) && lifted == Lifted(rows, month))
  }

  lemma LiftedStep(rows: Rows, month: int, cur: Bytes)
    requires Started(rows, month) && cur.NonNegative()
    ensures var x, y := InputFor(rows, month, cur), InputFor(Lifted(rows, month), month, cur);
            && ComputeMonthTraffic(x) == ComputeMonthTraffic(y)
            && (CountersDropped(x) <==> CountersDropped(y)) && (CountersDropped(x) <==> ComputeMonthTraffic(x).reanchor)
            && (!CountersDropped(x) ==> ComputeMonthTraffic(x).base == x.base)
  {
  }

  lemma LiftedPass(rows: Rows, month: int, cur: Bytes, f: Faults)
    requires Started(rows, month) && cur.NonNegative() && ReanchorsWhole(rows, month, cur, f)
    ensures ReanchorsWhole(Lifted(rows, month), month, cur, f)
    ensures StandsFor(Collect(rows, month, cur, f), Collect(Lifted(rows, month), month, cur, f), month)
  {
    LiftedStep(rows, month, cur);
    var res := ComputeMonthTraffic(InputFor(rows, month, cur));
    var lifted := Lifted(rows, month);
    if Reaches(f) {
      assert Collect(rows, month, cur, f) == WriteResult(rows, month, cur, res, f);
      assert Collect(lifted, month, cur, f) == WriteResult(lifted, month, cur, res, f);
    }
  }

  lemma {:induction false} LiftedRun(rows: Rows, lifted: Rows, month: int, counters: Bytes, intervals: seq<Interval>)
    requires StandsFor(rows, lifted, month) && counters.NonNegative()
    requires EveryReanchorWhole(rows, month, counters, intervals)
    ensures EveryReanchorWhole(lifted, month, counters, intervals)
    ensures StandsFor(RunIntervals(rows, month, counters, intervals), RunIntervals(lifted, month, counters, intervals),
                      month)
    decreases |intervals|
  {
    if intervals != [] && rows != lifted {
      var cur, f := CountersAfter(counters, intervals[0].steps), intervals[0].faults;
      CountersAreSinceLastReset(counters, intervals[0].steps);
      MovedNonNegative(intervals[0].steps);
      LiftedPass(rows, month, cur, f);
      LiftedRun(Collect(rows, month, cur, f), Collect(lifted, month, cur, f), month, cur, intervals[1..]);
    }
  }

  /** A month at the counters `counters`: either anchored there with this total,
      or with its baseline stored there, without a drop, and no total yet. */
  ghost predicate Ready(rows: Rows, month: int, counters: Bytes, total: Bytes) {
    && counters.NonNegative()
    && if month in rows.monthly
       then MonthRun.Anchored(rows, month) && rows.latest.value == counters && rows.monthly[month] == total
       else Started(rows, month) && rows.baselines[month] == Baseline(counters, ZERO) && total == ZERO
  }

  /** Whatever store calls fail, in any order and number, from the moment the
      month's baseline is stored its total never exceeds what it had plus what the
      device moved since, as long as every pass that writes a re-anchored baseline
      completes. */
  lemma SoundDespiteFaults(rows: Rows, month: int, counters: Bytes, total: Bytes, intervals: seq<Interval>)
    requires Ready(rows, month, counters, total) && EveryReanchorWhole(rows, month, counters, intervals)
    ensures var after := RunIntervals(rows, month, counters, intervals);
            month in after.monthly ==> after.monthly[month].AtMost(total.Plus(IntervalsMoved(intervals)))
  {
    if month in rows.monthly {
      SoundWhenAnchored(rows, month, intervals);
    } else {
      var lifted := Lifted(rows, month);
      LiftedRun(rows, lifted, month, counters, intervals);
      PlusZero(counters);
      SoundWhenAnchored(lifted, month, intervals);
    }
  }
}
