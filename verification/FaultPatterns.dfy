/** Which patterns of store failures can make a month count more than the device
    moved, whatever the device does. */
module FaultPatterns {
  import opened Common
  import opened Traffic
  import opened TrafficCalc
  import opened PeerRows
  import opened MonthRun
  import opened Device
  import opened FaultySoundness

  /** On a drop the pass writes a re-anchored baseline. */
  predicate Reanchors(f: Faults) {
    Reaches(f) && !f.reanchor
  }

  /** And then loses its total or its snapshot. */
  predicate Splits(f: Faults) {
    Reanchors(f) && (f.saveMonthly || f.saveSnapshot)
  }

  predicate StoresTotal(f: Faults) {
    Reaches(f) && !f.saveMonthly
  }

  predicate SomeStoresTotal(fs: seq<Faults>) {
    fs != [] && (StoresTotal(fs[0]) || SomeStoresTotal(fs[1..]))
  }

  /** Some pass can re-anchor, and it or a later one can store a total. */
  predicate CountsAgain(fs: seq<Faults>) {
    fs != [] && ((Reanchors(fs[0]) && SomeStoresTotal(fs)) || CountsAgain(fs[1..]))
  }

  /** Some pass can be split and be followed by passes that count again. */
  predicate Harmful(fs: seq<Faults>) {
    fs != [] && ((Splits(fs[0]) && CountsAgain(fs[1..])) || Harmful(fs[1..]))
  }

  function Intervals(steps: seq<seq<DeviceStep>>, fs: seq<Faults>): (intervals: seq<Interval>)
    requires |steps| == |fs|
    ensures |intervals| == |fs|
    decreases |fs|
  {
    if fs == [] then [] else [Interval(steps[0], fs[0])] + Intervals(steps[1..], fs[1..])
  }

  /** The run of the device behaviour `steps` under the failures `fs`. */
  function Outcome(rows: Rows, month: int, counters: Bytes, steps: seq<seq<DeviceStep>>, fs: seq<Faults>): Rows
    requires |steps| == |fs|
  {
    RunIntervals(rows, month, counters, Intervals(steps, fs))
  }

  lemma OutcomeCons(rows: Rows, month: int, counters: Bytes, steps: seq<seq<DeviceStep>>, fs: seq<Faults>)
    requires |steps| == |fs| > 0
    ensures var cur := CountersAfter(counters, steps[0]);
            Outcome(rows, month, counters, steps, fs) ==
            Outcome(Collect(rows, month, cur, fs[0]), month, cur, steps[1..], fs[1..])
    ensures IntervalsMoved(Intervals(steps, fs)) ==
            Moved(steps[0]).Plus(IntervalsMoved(Intervals(steps[1..], fs[1..])))
  {
    var all := Intervals(steps, fs);
    assert all[0] == Interval(steps[0], fs[0]) && all[1..] == Intervals(steps[1..], fs[1..]);
  }

  lemma {:induction false} MovedIntervalsNonNegative(intervals: seq<Interval>)
    ensures IntervalsMoved(intervals).NonNegative()
    decreases |intervals|
  {
    if intervals != [] {
      MovedNonNegative(intervals[0].steps);
      MovedIntervalsNonNegative(intervals[1..]);
    }
  }

  ghost predicate AtMostAfter(rows: Rows, month: int, bound: Bytes) {
    month in rows.monthly ==> rows.monthly[month].AtMost(bound)
  }

  /** However the device behaves, the month gains at most what it moved. */
  ghost predicate AlwaysSound(rows: Rows, month: int, counters: Bytes, total: Bytes, fs: seq<Faults>) {
    forall steps: seq<seq<DeviceStep>> | |steps| == |fs| ::
      AtMostAfter(Outcome(rows, month, counters, steps, fs), month,
                  total.Plus(IntervalsMoved(Intervals(steps, fs))))
  }

  // ---- harmless patterns ---------------------------------------------------

  lemma {:induction false} NothingStored(rows: Rows, month: int, counters: Bytes, steps: seq<seq<DeviceStep>>,
                                         fs: seq<Faults>)
    requires |steps| == |fs| && month in rows.baselines && !SomeStoresTotal(fs)
    ensures Outcome(rows, month, counters, steps, fs).monthly == rows.monthly
    decreases |fs|
  {
    if fs != [] {
      OutcomeCons(rows, month, counters, steps, fs);
      var cur := CountersAfter(counters, steps[0]);
      NothingStored(Collect(rows, month, cur, fs[0]), month, cur, steps[1..], fs[1..]);
    }
  }

  /** After a split pass: offset and total are covered, the snapshot is stale. */
  ghost predicate Waiting(rows: Rows, month: int, cur: Bytes, bound: Bytes) {
    && month in rows.baselines && rows.baselines[month].counters == ZERO && cur.NonNegative() && rows.latest.Some?
    && rows.baselines[month].offset.Plus(cur).AtMost(bound) && AtMostAfter(rows, month, bound)
  }

  /** While no pass can re-anchor again the month stays covered. */
  lemma WaitingStep(rows: Rows, month: int, counters: Bytes, bound: Bytes, steps: seq<DeviceStep>, f: Faults)
    requires Waiting(rows, month, counters, bound) && !Reanchors(f)
    ensures var cur := CountersAfter(counters, steps);
            Waiting(Collect(rows, month, cur, f), month, cur, bound.Plus(Moved(steps)))
  {
    CountersAreSinceLastReset(counters, steps);
    MovedNonNegative(steps);
    var cur := CountersAfter(counters, steps);
    assert cur.NonNegative() && cur.AtMost(counters.Plus(Moved(steps)));
    var x := InputFor(rows, month, cur);
    if Reaches(f) {
      assert Collect(rows, month, cur, f) == WriteResult(rows, month, cur, ComputeMonthTraffic(x), f);
    }
  }

  lemma {:induction false} WaitingIsSound(rows: Rows, month: int, counters: Bytes, bound: Bytes,
                                          steps: seq<seq<DeviceStep>>, fs: seq<Faults>)
    requires |steps| == |fs| && Waiting(rows, month, counters, bound) && !CountsAgain(fs)
    ensures AtMostAfter(Outcome(rows, month, counters, steps, fs), month,
                        bound.Plus(IntervalsMoved(Intervals(steps, fs))))
    decreases |fs|
  {
    MovedIntervalsNonNegative(Intervals(steps, fs));
    if fs != [] && Reanchors(fs[0]) {
      NothingStored(rows, month, counters, steps, fs);
    } else if fs != [] {
      OutcomeCons(rows, month, counters, steps, fs);
      WaitingStep(rows, month, counters, bound, steps[0], fs[0]);
      var cur := CountersAfter(counters, steps[0]);
      WaitingIsSound(Collect(rows, month, cur, fs[0]), month, cur, bound.Plus(Moved(steps[0])), steps[1..], fs[1..]);
      PlusAssociative(bound, Moved(steps[0]), IntervalsMoved(Intervals(steps[1..], fs[1..])));
    }
  }

  /** The split itself is still covered. */
  lemma SplitIsCovered(rows: Rows, month: int, moved: Bytes, pre: seq<DeviceStep>, post: seq<DeviceStep>,
                       steps: seq<DeviceStep>, f: Faults)
    requires Accounted(rows, month, moved, pre, post)
    requires !ReanchorsWhole(rows, month, CountersAfter(rows.latest.value, pre + post + steps), f)
    ensures Splits(f)
    ensures var cur := CountersAfter(rows.latest.value, pre + post + steps);
            Waiting(Collect(rows, month, cur, f), month, cur, moved.Plus(Moved(steps)))
  {
    var s, since := rows.latest.value, post + steps;
    var c1, bound := CountersAfter(s, pre), moved.Minus(Moved(post));
    var cur := CountersAfter(s, pre + post + steps);
    assert pre + post + steps == pre + since;
    CountersAppend(s, pre, since);
    MovedAppend(post, steps);
    GrowthIsCovered(s, c1, cur, since);
    var b, stored := rows.baselines[month], rows.monthly[month];
    assert Dropped(s, cur);
    OffsetIsCovered(b, s, stored, cur);
    var res := ComputeMonthTraffic(InputFor(rows, month, cur));
    assert Collect(rows, month, cur, f) == WriteResult(rows, month, cur, res, f);
    SplitBound(moved, Moved(post), Moved(steps), stored, cur, res.base.offset);
    MovedNonNegative(steps);
    MovedNonNegative(post);
  }

  lemma SplitBound(moved: Bytes, p: Bytes, q: Bytes, stored: Bytes, cur: Bytes, offset: Bytes)
    requires stored.AtMost(moved.Minus(p)) && cur.AtMost(p.Plus(q)) && offset.AtMost(stored)
    ensures offset.Plus(cur).AtMost(moved.Plus(q))
    ensures p.NonNegative() && q.NonNegative() ==> stored.AtMost(moved.Plus(q))
  {
  }

  lemma {:induction false} HarmlessIsSound(rows: Rows, month: int, moved: Bytes, pre: seq<DeviceStep>,
                                           post: seq<DeviceStep>, counters: Bytes, steps: seq<seq<DeviceStep>>,
                                           fs: seq<Faults>)
    requires |steps| == |fs| && !Harmful(fs)
    requires Accounted(rows, month, moved, pre, post) && counters == CountersAfter(rows.latest.value, pre + post)
    ensures AtMostAfter(Outcome(rows, month, counters, steps, fs), month,
                        moved.Plus(IntervalsMoved(Intervals(steps, fs))))
    decreases |fs|
  {
    if fs == [] {
      MovedNonNegative(post);
    } else {
      var f := fs[0];
      CountersAppend(rows.latest.value, pre + post, steps[0]);
      var cur := CountersAfter(counters, steps[0]);
      var after, gained := Collect(rows, month, cur, f), moved.Plus(Moved(steps[0]));
      OutcomeCons(rows, month, counters, steps, fs);
      PlusAssociative(moved, Moved(steps[0]), IntervalsMoved(Intervals(steps[1..], fs[1..])));
      if ReanchorsWhole(rows, month, cur, f) {
        var pre', post' := AccountedStep(rows, month, moved, pre, post, steps[0], f);
        HarmlessIsSound(after, month, gained, pre', post', cur, steps[1..], fs[1..]);
      } else {
        SplitIsCovered(rows, month, moved, pre, post, steps[0], f);
        WaitingIsSound(after, month, cur, gained, steps[1..], fs[1..]);
      }
    }
  }

  // ---- harmful patterns ----------------------------------------------------

  /** An inflated offset over idle counters; the snapshot is the stale one or
      a new one at zero. */
  ghost predicate Inflated(rows: Rows, month: int, s: Bytes, least: Bytes) {
    && month in rows.baselines && rows.baselines[month].counters == ZERO
    && least.AtMost(rows.baselines[month].offset) && rows.latest in {Some(s), Some(ZERO)}
  }

  ghost predicate Exceeds(rows: Rows, month: int, least: Bytes) {
    month in rows.monthly && least.AtMost(rows.monthly[month])
  }

  lemma InflatedStep(rows: Rows, month: int, s: Bytes, least: Bytes, cur: Bytes, f: Faults)
    requires Inflated(rows, month, s, least) && s.NonNegative() && cur in {ZERO, s}
    ensures var after := Collect(rows, month, cur, f);
            && (cur == ZERO || StoresTotal(f) || Exceeds(rows, month, least.Plus(cur)) ==>
                  Inflated(after, month, s, least))
            && (StoresTotal(f) && (Reanchors(f) || cur == s) ==> Exceeds(after, month, least.Plus(cur)))
            && (Exceeds(rows, month, least.Plus(cur)) ==> Exceeds(after, month, least.Plus(cur)))
  {
    var x := InputFor(rows, month, cur);
    if Reaches(f) {
      assert Collect(rows, month, cur, f) == WriteResult(rows, month, cur, ComputeMonthTraffic(x), f);
    }
  }

  /** Intervals without traffic or resets keep an excess, whatever fails. */
  lemma {:induction false} IdleKeepsExcess(rows: Rows, month: int, s: Bytes, least: Bytes, cur: Bytes, fs: seq<Faults>)
      returns (steps: seq<seq<DeviceStep>>)
    requires Inflated(rows, month, s, least) && s.NonNegative() && cur in {ZERO, s}
    requires Exceeds(rows, month, least.Plus(cur))
    ensures |steps| == |fs| && IntervalsMoved(Intervals(steps, fs)) == ZERO
    ensures Exceeds(Outcome(rows, month, cur, steps, fs), month, least.Plus(cur))
    decreases |fs|
  {
    steps := [];
    if fs != [] {
      InflatedStep(rows, month, s, least, cur, fs[0]);
      var rest := IdleKeepsExcess(Collect(rows, month, cur, fs[0]), month, s, least, cur, fs[1..]);
      steps := [[]] + rest;
      assert steps[0] == [] && steps[1..] == rest;
      OutcomeCons(rows, month, cur, steps, fs);
    }
  }

  lemma MoveOnce(s: Bytes)
    requires s.NonNegative()
    ensures CountersAfter(ZERO, [Move(s.rx, s.tx)]) == s == Moved([Move(s.rx, s.tx)])
  {
    assert [Move(s.rx, s.tx)][1..] == [];
    PlusZero(s);
  }

  /** The device moves one snapshot's worth just before a total can be stored. */
  lemma {:induction false} StoredExcess(rows: Rows, month: int, s: Bytes, least: Bytes, fs: seq<Faults>)
      returns (steps: seq<seq<DeviceStep>>)
    requires Inflated(rows, month, s, least) && s.NonNegative() && SomeStoresTotal(fs)
    ensures |steps| == |fs|
    ensures Exceeds(Outcome(rows, month, ZERO, steps, fs), month, least.Plus(IntervalsMoved(Intervals(steps, fs))))
    decreases |fs|
  {
    var first: seq<DeviceStep> := if StoresTotal(fs[0]) then [Move(s.rx, s.tx)] else [];
    var cur := CountersAfter(ZERO, first);
    MoveOnce(s);
    InflatedStep(rows, month, s, least, cur, fs[0]);
    var after, rest := Collect(rows, month, cur, fs[0]), [];
    if StoresTotal(fs[0]) {
      rest := IdleKeepsExcess(after, month, s, least, s, fs[1..]);
    } else {
      rest := StoredExcess(after, month, s, least, fs[1..]);
    }
    steps := [first] + rest;
    assert steps[0] == first && steps[1..] == rest;
    OutcomeCons(rows, month, ZERO, steps, fs);
    PlusZero(IntervalsMoved(Intervals(rest, fs[1..])));
    PlusZero(s);
  }

  /** The rows a split pass leaves when the device has been reset and is idle. */
  ghost predicate SplitAt(rows: Rows, month: int, s: Bytes, total: Bytes) {
    && month in rows.baselines && rows.baselines[month] == Baseline(ZERO, total)
    && rows.latest == Some(s) && (month in rows.monthly ==> rows.monthly[month] == total)
  }

  lemma SplitStep(rows: Rows, month: int, s: Bytes, total: Bytes, f: Faults)
    requires SplitAt(rows, month, s, total) && s.NonNegative() && s != ZERO
    ensures var after := Collect(rows, month, ZERO, f);
            if Reanchors(f) then
              && Inflated(after, month, s, total.Plus(s))
              && (StoresTotal(f) ==> Exceeds(after, month, total.Plus(s).Plus(ZERO)))
            else after == rows
  {
    var x := InputFor(rows, month, ZERO);
    if Reaches(f) {
      assert Collect(rows, month, ZERO, f) == WriteResult(rows, month, ZERO, ComputeMonthTraffic(x), f);
    }
  }

  lemma {:induction false} CountedAgain(rows: Rows, month: int, s: Bytes, total: Bytes, fs: seq<Faults>)
      returns (steps: seq<seq<DeviceStep>>)
    requires SplitAt(rows, month, s, total) && s.NonNegative() && s != ZERO && CountsAgain(fs)
    ensures |steps| == |fs|
    ensures Exceeds(Outcome(rows, month, ZERO, steps, fs), month,
                    total.Plus(s).Plus(IntervalsMoved(Intervals(steps, fs))))
    decreases |fs|
  {
    SplitStep(rows, month, s, total, fs[0]);
    var after, rest := Collect(rows, month, ZERO, fs[0]), [];
    if !Reanchors(fs[0]) {
      rest := CountedAgain(rows, month, s, total, fs[1..]);
    } else if StoresTotal(fs[0]) {
      rest := IdleKeepsExcess(after, month, s, total.Plus(s), ZERO, fs[1..]);
    } else {
      CountingStores(fs);
      rest := StoredExcess(after, month, s, total.Plus(s), fs[1..]);
    }
    steps := [[]] + rest;
    assert steps[0] == [] && steps[1..] == rest;
    OutcomeCons(rows, month, ZERO, steps, fs);
    PlusZero(IntervalsMoved(Intervals(rest, fs[1..])));
  }

  lemma {:induction false} CountingStores(fs: seq<Faults>)
    requires CountsAgain(fs)
    ensures SomeStoresTotal(fs)
    decreases |fs|
  {
    if !(Reanchors(fs[0]) && SomeStoresTotal(fs)) {
      CountingStores(fs[1..]);
    }
  }

  /** A pass that sees the counters of its snapshot changes nothing. */
  lemma IdlePass(rows: Rows, month: int, f: Faults)
    requires Anchored(rows, month)
    ensures Collect(rows, month, rows.latest.value, f) == rows
  {
    var s := rows.latest.value;
    var x := InputFor(rows, month, s);
    assert ComputeMonthTraffic(x) == MonthResult(rows.monthly[month], rows.baselines[month], false);
    if Reaches(f) {
      assert Collect(rows, month, s, f) == WriteResult(rows, month, s, ComputeMonthTraffic(x), f);
    }
  }

  lemma ResetSplits(rows: Rows, month: int, f: Faults)
    requires Anchored(rows, month) && rows.latest.value.NonNegative() && rows.latest.value != ZERO && Splits(f)
    ensures SplitAt(Collect(rows, month, ZERO, f), month, rows.latest.value, rows.monthly[month])
  {
    var x := InputFor(rows, month, ZERO);
    assert Collect(rows, month, ZERO, f) == WriteResult(rows, month, ZERO, ComputeMonthTraffic(x), f);
  }

  /** Under a harmful pattern some device behaviour is charged the whole snapshot
      beyond what it moved. */
  lemma {:induction false} HarmfulExceeds(rows: Rows, month: int, fs: seq<Faults>) returns (steps: seq<seq<DeviceStep>>)
    requires Anchored(rows, month) && rows.latest.value.NonNegative() && rows.latest.value != ZERO && Harmful(fs)
    ensures |steps| == |fs|
    ensures Exceeds(Outcome(rows, month, rows.latest.value, steps, fs), month,
                    rows.monthly[month].Plus(rows.latest.value).Plus(IntervalsMoved(Intervals(steps, fs))))
    decreases |fs|
  {
    var s, total := rows.latest.value, rows.monthly[month];
    var first: seq<DeviceStep>, rest := [], [];
    if Splits(fs[0]) && CountsAgain(fs[1..]) {
      first := [Reset];
      assert first[1..] == [];
      ResetSplits(rows, month, fs[0]);
      rest := CountedAgain(Collect(rows, month, ZERO, fs[0]), month, s, total, fs[1..]);
    } else {
      IdlePass(rows, month, fs[0]);
      rest := HarmfulExceeds(rows, month, fs[1..]);
    }
    steps := [first] + rest;
    assert steps[0] == first && steps[1..] == rest;
    assert Moved(first) == ZERO;
    OutcomeCons(rows, month, s, steps, fs);
    PlusZero(IntervalsMoved(Intervals(rest, fs[1..])));
  }

  // ---- from a snapshot at zero ---------------------------------------------

  predicate StoresSnapshot(f: Faults) {
    StoresTotal(f) && !f.saveSnapshot
  }

  /** A harmful pattern follows a pass that can store a snapshot. */
  predicate HarmfulLater(fs: seq<Faults>) {
    fs != [] && ((StoresSnapshot(fs[0]) && Harmful(fs[1..])) || HarmfulLater(fs[1..]))
  }

  /** Nothing drops against a snapshot at zero. */
  lemma NoDropFromZero(rows: Rows, month: int, cur: Bytes, f: Faults)
    requires month in rows.baselines && rows.latest == Some(ZERO) && rows.baselines[month].counters.AtMost(ZERO)
    requires cur.NonNegative()
    ensures ReanchorsWhole(rows, month, cur, f)
    ensures Collect(rows, month, cur, f).latest == if StoresSnapshot(f) then Some(cur) else Some(ZERO)
  {
    var x := InputFor(rows, month, cur);
    assert !CountersDropped(x) && !ComputeMonthTraffic(x).reanchor;
    if Reaches(f) {
      assert Collect(rows, month, cur, f) == WriteResult(rows, month, cur, ComputeMonthTraffic(x), f);
    }
  }

  lemma {:induction false} HarmlessFromZero(rows: Rows, month: int, moved: Bytes, pre: seq<DeviceStep>,
                                            post: seq<DeviceStep>, counters: Bytes, steps: seq<seq<DeviceStep>>,
                                            fs: seq<Faults>)
    requires |steps| == |fs| && !HarmfulLater(fs) && rows.latest == Some(ZERO)
    requires Accounted(rows, month, moved, pre, post) && counters == CountersAfter(ZERO, pre + post)
    ensures AtMostAfter(Outcome(rows, month, counters, steps, fs), month,
                        moved.Plus(IntervalsMoved(Intervals(steps, fs))))
    decreases |fs|
  {
    if fs == [] {
      MovedNonNegative(post);
    } else {
      var f := fs[0];
      CountersAppend(ZERO, pre + post, steps[0]);
      CountersAreSinceLastReset(ZERO, pre + post + steps[0]);
      MovedNonNegative(pre + post + steps[0]);
      var cur := CountersAfter(counters, steps[0]);
      var after, gained := Collect(rows, month, cur, f), moved.Plus(Moved(steps[0]));
      OutcomeCons(rows, month, counters, steps, fs);
      PlusAssociative(moved, Moved(steps[0]), IntervalsMoved(Intervals(steps[1..], fs[1..])));
      NoDropFromZero(rows, month, cur, f);
      var pre', post' := AccountedStep(rows, month, moved, pre, post, steps[0], f);
      if StoresSnapshot(f) {
        HarmlessIsSound(after, month, gained, pre', post', cur, steps[1..], fs[1..]);
      } else {
        HarmlessFromZero(after, month, gained, pre', post', cur, steps[1..], fs[1..]);
      }
    }
  }

  lemma FirstSnapshot(rows: Rows, month: int, f: Faults)
    requires Anchored(rows, month) && rows.latest == Some(ZERO) && StoresSnapshot(f)
    ensures var after := Collect(rows, month, Bytes(1, 1), f);
            && Anchored(after, month) && after.latest == Some(Bytes(1, 1))
            && after.monthly[month] == rows.monthly[month].Plus(Bytes(1, 1))
  {
    AnchoredStep(rows, month, Bytes(1, 1));
    var x := InputFor(rows, month, Bytes(1, 1));
    assert Collect(rows, month, Bytes(1, 1), f) == WriteResult(rows, month, Bytes(1, 1), ComputeMonthTraffic(x), f);
  }

  lemma {:induction false} HarmfulFromZero(rows: Rows, month: int, fs: seq<Faults>)
      returns (steps: seq<seq<DeviceStep>>)
    requires Anchored(rows, month) && rows.latest == Some(ZERO) && HarmfulLater(fs)
    ensures |steps| == |fs|
    ensures Exceeds(Outcome(rows, month, ZERO, steps, fs), month,
                    rows.monthly[month].Plus(Bytes(1, 1)).Plus(IntervalsMoved(Intervals(steps, fs))))
    decreases |fs|
  {
    var total, one := rows.monthly[month], Bytes(1, 1);
    var first: seq<DeviceStep>, rest := [], [];
    if StoresSnapshot(fs[0]) && Harmful(fs[1..]) {
      first := [Move(1, 1)];
      MoveOnce(one);
      FirstSnapshot(rows, month, fs[0]);
      rest := HarmfulExceeds(Collect(rows, month, one, fs[0]), month, fs[1..]);
    } else {
      IdlePass(rows, month, fs[0]);
      rest := HarmfulFromZero(rows, month, fs[1..]);
    }
    steps := [first] + rest;
    assert steps[0] == first && steps[1..] == rest;
    OutcomeCons(rows, month, ZERO, steps, fs);
    PlusZero(IntervalsMoved(Intervals(rest, fs[1..])));
    AddOnce(total, one, IntervalsMoved(Intervals(rest, fs[1..])));
  }

  lemma AddOnce(total: Bytes, one: Bytes, moved: Bytes)
    ensures total.Plus(one).Plus(one).Plus(moved) == total.Plus(one).Plus(one.Plus(moved))
  {
  }

  // ---- before the month has a total ----------------------------------------

  /** A pass that splits nothing does to started rows what it does to the lifted
      ones, and leaves them started until it stores a snapshot. */
  lemma StartedPass(rows: Rows, month: int, cur: Bytes, f: Faults)
    requires Started(rows, month) && cur.NonNegative() && ReanchorsWhole(rows, month, cur, f)
    ensures ReanchorsWhole(Lifted(rows, month), month, cur, f)
    ensures var after, lifted := Collect(rows, month, cur, f), Collect(Lifted(rows, month), month, cur, f);
            if StoresSnapshot(f) && (CountersDropped(InputFor(rows, month, cur)) ==> !f.reanchor) then after == lifted
            else Started(after, month) && lifted == Lifted(after, month) && after.latest == rows.latest
  {
    LiftedStep(rows, month, cur);
    var res := ComputeMonthTraffic(InputFor(rows, month, cur));
    var lifted := Lifted(rows, month);
    if Reaches(f) {
      assert Collect(rows, month, cur, f) == WriteResult(rows, month, cur, res, f);
      assert Collect(lifted, month, cur, f) == WriteResult(lifted, month, cur, res, f);
    }
  }

  /** A split pass writes the same baseline, and leaves the snapshot. */
  lemma StartedSplit(rows: Rows, month: int, cur: Bytes, f: Faults)
    requires Started(rows, month) && cur.NonNegative() && !ReanchorsWhole(rows, month, cur, f)
    ensures Splits(f) && !ReanchorsWhole(Lifted(rows, month), month, cur, f)
    ensures var x := InputFor(rows, month, cur);
            var after := Collect(rows, month, cur, f);
            && x.base == rows.baselines[month] && CountersDropped(x)
            && after.baselines == rows.baselines[month := ComputeMonthTraffic(x).base]
            && after.monthly == (if f.saveMonthly then rows.monthly
                                 else rows.monthly[month := ComputeMonthTraffic(x).total])
            && after.latest == rows.latest
            && Collect(Lifted(rows, month), month, cur, f).baselines == after.baselines
            && Collect(Lifted(rows, month), month, cur, f).monthly ==
               (if f.saveMonthly then Lifted(rows, month).monthly else after.monthly)
  {
    LiftedStep(rows, month, cur);
    var x := InputFor(rows, month, cur);
    var res, lifted := ComputeMonthTraffic(x), Lifted(rows, month);
    assert Collect(rows, month, cur, f) == WriteResult(rows, month, cur, res, f);
    assert Collect(lifted, month, cur, f) == WriteResult(lifted, month, cur, res, f);
  }

  /** The lifted rows are accounted for, and the device counters follow from them. */
  ghost predicate LiftAccounted(rows: Rows, month: int, moved: Bytes, pre: seq<DeviceStep>, post: seq<DeviceStep>,
                                counters: Bytes) {
    && Started(rows, month) && Accounted(Lifted(rows, month), month, moved, pre, post)
    && counters == CountersAfter(rows.baselines[month].counters, pre + post)
  }

  lemma LiftAccountedBound(rows: Rows, month: int, moved: Bytes, pre: seq<DeviceStep>, post: seq<DeviceStep>,
                           counters: Bytes)
    requires LiftAccounted(rows, month, moved, pre, post, counters)
    ensures AtMostAfter(rows, month, moved)
  {
    MovedNonNegative(post);
  }

  lemma NextCounters(start: Bytes, pre: seq<DeviceStep>, post: seq<DeviceStep>, counters: Bytes, steps: seq<DeviceStep>)
    requires start.NonNegative() && counters == CountersAfter(start, pre + post)
    ensures CountersAfter(counters, steps) == CountersAfter(start, pre + post + steps)
    ensures CountersAfter(counters, steps).NonNegative()
  {
    CountersAppend(start, pre + post, steps);
    CountersAreSinceLastReset(start, pre + post + steps);
    MovedNonNegative(pre + post + steps);
  }

  /** With a snapshot below the baseline a split leaves the month waiting. */
  lemma {:induction false} HarmlessWhenStarted(rows: Rows, month: int, moved: Bytes, pre: seq<DeviceStep>,
                                               post: seq<DeviceStep>, counters: Bytes, steps: seq<seq<DeviceStep>>,
                                               fs: seq<Faults>)
    requires |steps| == |fs| && !Harmful(fs) && rows.latest.Some?
    requires LiftAccounted(rows, month, moved, pre, post, counters)
    ensures AtMostAfter(Outcome(rows, month, counters, steps, fs), month,
                        moved.Plus(IntervalsMoved(Intervals(steps, fs))))
    decreases |fs|
  {
    LiftAccountedBound(rows, month, moved, pre, post, counters);
    if fs != [] {
      var f, lifted := fs[0], Lifted(rows, month);
      NextCounters(rows.baselines[month].counters, pre, post, counters, steps[0]);
      var cur := CountersAfter(counters, steps[0]);
      var after, gained := Collect(rows, month, cur, f), moved.Plus(Moved(steps[0]));
      OutcomeCons(rows, month, counters, steps, fs);
      PlusAssociative(moved, Moved(steps[0]), IntervalsMoved(Intervals(steps[1..], fs[1..])));
      if ReanchorsWhole(rows, month, cur, f) {
        StartedPass(rows, month, cur, f);
        var pre', post' := AccountedStep(lifted, month, moved, pre, post, steps[0], f);
        if after == Collect(lifted, month, cur, f) {
          HarmlessIsSound(after, month, gained, pre', post', cur, steps[1..], fs[1..]);
        } else {
          HarmlessWhenStarted(after, month, gained, pre', post', cur, steps[1..], fs[1..]);
        }
      } else {
        StartedSplit(rows, month, cur, f);
        SplitIsCovered(lifted, month, moved, pre, post, steps[0], f);
        WaitingIsSound(after, month, cur, gained, steps[1..], fs[1..]);
      }
    }
  }

  /** Without a snapshot above zero a split writes what the stored total knows, and
      the month is started again from a baseline at zero. */
  lemma SplitStartsAgain(rows: Rows, month: int, moved: Bytes, pre: seq<DeviceStep>, post: seq<DeviceStep>,
                         counters: Bytes, steps: seq<DeviceStep>, f: Faults)
      returns (pre': seq<DeviceStep>, post': seq<DeviceStep>)
    requires LiftAccounted(rows, month, moved, pre, post, counters) && rows.latest in {None, Some(ZERO)}
    requires !ReanchorsWhole(rows, month, CountersAfter(counters, steps), f)
    ensures var cur := CountersAfter(counters, steps);
            var after := Collect(rows, month, cur, f);
            && LiftAccounted(after, month, moved.Plus(Moved(steps)), pre', post', cur)
            && after.latest == rows.latest && !StoresSnapshot(f)
  {
    var lifted, since := Lifted(rows, month), post + steps;
    var b, stored := rows.baselines[month], lifted.monthly[month];
    var c1, cur := CountersAfter(b.counters, pre), CountersAfter(counters, steps);
    NextCounters(b.counters, pre, post, counters, steps);
    assert pre + post + steps == pre + since;
    CountersAppend(b.counters, pre, since);
    MovedAppend(post, steps);
    StartedSplit(rows, month, cur, f);
    DropHasReset(b.counters, c1, since, cur);
    SplitOffset(b, rows.latest, MonthlyOf(rows, month), stored, cur);
    Rebase(moved, Moved(post), Moved(steps));
    var after, gained := Collect(rows, month, cur, f), moved.Plus(Moved(steps));
    if f.saveMonthly {
      pre', post' := [], since;
      assert pre' + post' == since;
      PlusZero(stored);
      StartedAgain(after, month, stored, stored, gained, pre', post', cur);
    } else {
      pre', post' := since, [];
      assert pre' + post' == since;
      StartedAgain(after, month, stored, stored.Plus(cur), gained, pre', post', cur);
    }
  }

  lemma StartedAgain(after: Rows, month: int, offset: Bytes, total: Bytes, gained: Bytes, pre: seq<DeviceStep>,
                     post: seq<DeviceStep>, cur: Bytes)
    requires month in after.baselines && after.baselines[month] == Baseline(ZERO, offset)
    requires after.latest in {None, Some(ZERO)}
    requires total == if month in after.monthly then after.monthly[month] else offset
    requires total == offset.Plus(CountersAfter(ZERO, pre)) && total.AtMost(gained.Minus(Moved(post)))
    requires CountersAfter(ZERO, pre).NonNegative() && cur == CountersAfter(ZERO, pre + post)
    ensures LiftAccounted(after, month, gained, pre, post, cur)
  {
    PlusZero(CountersAfter(ZERO, pre));
  }

  /** Counters below where they were have been reset, and count only since then. */
  lemma DropHasReset(c: Bytes, c1: Bytes, since: seq<DeviceStep>, cur: Bytes)
    requires c.NonNegative() && c.AtMost(c1) && cur == CountersAfter(c1, since) && Dropped(c, cur)
    ensures cur == CountersAfter(ZERO, since) && cur.NonNegative() && cur.AtMost(Moved(since))
  {
    CountersAreSinceLastReset(c1, since);
    CountersAreSinceLastReset(ZERO, since);
    MovedNonNegative(since);
  }

  /** The offset after a drop against the baseline is the stored total. */
  lemma SplitOffset(b: Baseline, prev: Option<Bytes>, month: Option<Bytes>, stored: Bytes, cur: Bytes)
    requires prev in {None, Some(ZERO)} && b.counters.NonNegative() && cur.NonNegative() && Dropped(b.counters, cur)
    requires b.offset.AtMost(stored) && stored == if month.Some? then month.value else b.offset
    ensures ComputeMonthTraffic(MonthInput(b, cur, prev, month)) ==
            MonthResult(stored.Plus(cur), Baseline(ZERO, stored), true)
  {
  }

  lemma {:induction false} HarmlessWithoutSnapshot(rows: Rows, month: int, moved: Bytes, pre: seq<DeviceStep>,
                                                   post: seq<DeviceStep>, counters: Bytes,
                                                   steps: seq<seq<DeviceStep>>, fs: seq<Faults>)
    requires |steps| == |fs| && !HarmfulLater(fs) && rows.latest in {None, Some(ZERO)}
    requires LiftAccounted(rows, month, moved, pre, post, counters)
    ensures AtMostAfter(Outcome(rows, month, counters, steps, fs), month,
                        moved.Plus(IntervalsMoved(Intervals(steps, fs))))
    decreases |fs|
  {
    LiftAccountedBound(rows, month, moved, pre, post, counters);
    if fs != [] {
      var f, lifted := fs[0], Lifted(rows, month);
      NextCounters(rows.baselines[month].counters, pre, post, counters, steps[0]);
      var cur := CountersAfter(counters, steps[0]);
      var after, gained := Collect(rows, month, cur, f), moved.Plus(Moved(steps[0]));
      OutcomeCons(rows, month, counters, steps, fs);
      PlusAssociative(moved, Moved(steps[0]), IntervalsMoved(Intervals(steps[1..], fs[1..])));
      if !ReanchorsWhole(rows, month, cur, f) {
        var pre', post' := SplitStartsAgain(rows, month, moved, pre, post, counters, steps[0], f);
        HarmlessWithoutSnapshot(after, month, gained, pre', post', cur, steps[1..], fs[1..]);
      } else {
        StartedPass(rows, month, cur, f);
        var pre', post' := AccountedStep(lifted, month, moved, pre, post, steps[0], f);
        if StoresSnapshot(f) && (CountersDropped(InputFor(rows, month, cur)) ==> !f.reanchor) {
          HarmlessIsSound(after, month, gained, pre', post', cur, steps[1..], fs[1..]);
        } else {
          HarmlessWithoutSnapshot(after, month, gained, pre', post', cur, steps[1..], fs[1..]);
        }
      }
    }
  }

  // ---- harm before the month has a total -----------------------------------

  lemma {:induction false} LaterIsHarmful(fs: seq<Faults>)
    requires HarmfulLater(fs)
    ensures fs != [] && Harmful(fs[1..]) && Harmful(fs)
    decreases |fs|
  {
    if !(StoresSnapshot(fs[0]) && Harmful(fs[1..])) {
      LaterIsHarmful(fs[1..]);
    }
  }

  /** A started month at its baseline, with nothing charged yet. */
  ghost predicate AtBaseline(rows: Rows, month: int, c: Bytes) {
    && Started(rows, month) && rows.baselines[month] == Baseline(c, ZERO)
    && (month in rows.monthly ==> rows.monthly[month] == ZERO)
  }

  /** A pass at the baseline either anchors the month there or leaves it there. */
  lemma IdleAtBaseline(rows: Rows, month: int, c: Bytes, f: Faults)
    requires AtBaseline(rows, month, c)
    ensures var after := Collect(rows, month, c, f);
            if StoresSnapshot(f) then
              Anchored(after, month) && after.latest == Some(c) && after.monthly[month] == ZERO
            else AtBaseline(after, month, c) && after.latest == rows.latest
  {
    PlusZero(c);
    StartedPass(rows, month, c, f);
    var x := InputFor(rows, month, c);
    assert !CountersDropped(x) && ComputeMonthTraffic(x) == MonthResult(ZERO, x.base, false);
    if Reaches(f) {
      assert Collect(rows, month, c, f) == WriteResult(rows, month, c, ComputeMonthTraffic(x), f);
    }
  }

  lemma ResetSplitsStarted(rows: Rows, month: int, c: Bytes, l: Bytes, f: Faults)
    requires AtBaseline(rows, month, c) && rows.latest == Some(l) && l.NonNegative() && l != ZERO && Splits(f)
    ensures SplitAt(Collect(rows, month, ZERO, f), month, l, ZERO)
  {
    var x := InputFor(rows, month, ZERO);
    assert CountersDropped(x);
    assert ComputeMonthTraffic(x) == MonthResult(ZERO, Baseline(ZERO, ZERO), true);
    assert Collect(rows, month, ZERO, f) == WriteResult(rows, month, ZERO, ComputeMonthTraffic(x), f);
  }

  lemma MoreExceeds(rows: Rows, month: int, least: Bytes, less: Bytes)
    requires Exceeds(rows, month, least) && less.AtMost(least)
    ensures Exceeds(rows, month, less)
  {
  }

  /** With an old snapshot above zero the harm is that snapshot. */
  lemma {:induction false} HarmfulWhenStarted(rows: Rows, month: int, c: Bytes, l: Bytes, fs: seq<Faults>)
      returns (steps: seq<seq<DeviceStep>>)
    requires AtBaseline(rows, month, c) && rows.latest == Some(l) && l.NonNegative() && l != ZERO && Harmful(fs)
    ensures |steps| == |fs|
    ensures Exceeds(Outcome(rows, month, c, steps, fs), month, l.Plus(IntervalsMoved(Intervals(steps, fs))))
    decreases |fs|
  {
    var first: seq<DeviceStep>, rest := [], [];
    PlusZero(l);
    PlusZero(c);
    if Splits(fs[0]) && CountsAgain(fs[1..]) {
      first := [Reset];
      assert first[1..] == [];
      ResetSplitsStarted(rows, month, c, l, fs[0]);
      rest := CountedAgain(Collect(rows, month, ZERO, fs[0]), month, l, ZERO, fs[1..]);
    } else {
      IdleAtBaseline(rows, month, c, fs[0]);
      var after := Collect(rows, month, c, fs[0]);
      if StoresSnapshot(fs[0]) {
        rest := HarmfulExceeds(after, month, fs[1..]);
        MoreExceeds(Outcome(after, month, c, rest, fs[1..]), month,
                    c.Plus(IntervalsMoved(Intervals(rest, fs[1..]))), l.Plus(IntervalsMoved(Intervals(rest, fs[1..]))));
      } else {
        rest := HarmfulWhenStarted(after, month, c, l, fs[1..]);
      }
    }
    steps := [first] + rest;
    assert steps[0] == first && steps[1..] == rest;
    assert Moved(first) == ZERO;
    OutcomeCons(rows, month, c, steps, fs);
    PlusZero(IntervalsMoved(Intervals(rest, fs[1..])));
  }

  lemma FirstSnapshotAtBaseline(rows: Rows, month: int, c: Bytes, f: Faults)
    requires AtBaseline(rows, month, c) && StoresSnapshot(f)
    ensures var cur := c.Plus(Bytes(1, 1));
            var after := Collect(rows, month, cur, f);
            && CountersAfter(c, [Move(1, 1)]) == cur && Moved([Move(1, 1)]) == Bytes(1, 1)
            && Anchored(after, month) && after.latest == Some(cur) && cur.NonNegative() && cur != ZERO
            && after.monthly[month] == Bytes(1, 1) && Bytes(1, 1).AtMost(cur)
  {
    assert [Move(1, 1)][1..] == [];
    var cur := c.Plus(Bytes(1, 1));
    var x := InputFor(rows, month, cur);
    assert !CountersDropped(x) && ComputeMonthTraffic(x) == MonthResult(Bytes(1, 1), x.base, false);
    assert Collect(rows, month, cur, f) == WriteResult(rows, month, cur, ComputeMonthTraffic(x), f);
  }

  lemma {:induction false} HarmfulWithoutSnapshot(rows: Rows, month: int, c: Bytes, fs: seq<Faults>)
      returns (steps: seq<seq<DeviceStep>>)
    requires AtBaseline(rows, month, c) && HarmfulLater(fs)
    ensures |steps| == |fs|
    ensures Exceeds(Outcome(rows, month, c, steps, fs), month, Bytes(1, 1).Plus(IntervalsMoved(Intervals(steps, fs))))
    decreases |fs|
  {
    var first: seq<DeviceStep>, rest, one := [], [], Bytes(1, 1);
    if StoresSnapshot(fs[0]) {
      LaterIsHarmful(fs);
      first := [Move(1, 1)];
      FirstSnapshotAtBaseline(rows, month, c, fs[0]);
      var cur := c.Plus(one);
      var after := Collect(rows, month, cur, fs[0]);
      rest := HarmfulExceeds(after, month, fs[1..]);
      var moved := IntervalsMoved(Intervals(rest, fs[1..]));
      MoreExceeds(Outcome(after, month, cur, rest, fs[1..]), month, one.Plus(cur).Plus(moved),
                  one.Plus(one.Plus(moved)));
    } else {
      IdleAtBaseline(rows, month, c, fs[0]);
      rest := HarmfulWithoutSnapshot(Collect(rows, month, c, fs[0]), month, c, fs[1..]);
    }
    steps := [first] + rest;
    assert steps[0] == first && steps[1..] == rest;
    OutcomeCons(rows, month, c, steps, fs);
    PlusZero(IntervalsMoved(Intervals(rest, fs[1..])));
  }

  // ---- the exact patterns --------------------------------------------------

  /** What a split would leave behind to be counted again is nothing. */
  ghost predicate NothingStale(rows: Rows) {
    rows.latest in {None, Some(ZERO)}
  }

  /** Where a month stands after its first charge, or at its baseline before it. */
  ghost predicate Begins(rows: Rows, month: int, counters: Bytes, total: Bytes) {
    Ready(rows, month, counters, total) && (rows.latest.Some? ==> rows.latest.value.NonNegative())
  }

  lemma HarmlessFromReady(rows: Rows, month: int, counters: Bytes, total: Bytes, steps: seq<seq<DeviceStep>>,
                          fs: seq<Faults>)
    requires Begins(rows, month, counters, total) && |steps| == |fs|
    requires !(if NothingStale(rows) then HarmfulLater(fs) else Harmful(fs))
    ensures AtMostAfter(Outcome(rows, month, counters, steps, fs), month,
                        total.Plus(IntervalsMoved(Intervals(steps, fs))))
  {
    PlusZero(counters);
    if month in rows.monthly {
      if NothingStale(rows) {
        HarmlessFromZero(rows, month, total, [], [], counters, steps, fs);
      } else {
        HarmlessIsSound(rows, month, total, [], [], counters, steps, fs);
      }
    } else if NothingStale(rows) {
      HarmlessWithoutSnapshot(rows, month, total, [], [], counters, steps, fs);
    } else {
      HarmlessWhenStarted(rows, month, total, [], [], counters, steps, fs);
    }
  }

  lemma HarmfulFromReady(rows: Rows, month: int, counters: Bytes, total: Bytes, fs: seq<Faults>)
      returns (steps: seq<seq<DeviceStep>>)
    requires Begins(rows, month, counters, total)
    requires if NothingStale(rows) then HarmfulLater(fs) else Harmful(fs)
    ensures |steps| == |fs|
    ensures !AtMostAfter(Outcome(rows, month, counters, steps, fs), month,
                         total.Plus(IntervalsMoved(Intervals(steps, fs))))
  {
    if month in rows.monthly {
      if NothingStale(rows) {
        steps := HarmfulFromZero(rows, month, fs);
      } else {
        steps := HarmfulExceeds(rows, month, fs);
      }
    } else if NothingStale(rows) {
      steps := HarmfulWithoutSnapshot(rows, month, counters, fs);
    } else {
      steps := HarmfulWhenStarted(rows, month, counters, rows.latest.value, fs);
    }
  }

  /** From the moment a month's baseline is stored, a pattern of failures is sound
      for every device behaviour exactly when no pass that can be split is followed
      by one that can re-anchor and, then or later, one that can store a total. Where
      there is no snapshot above zero yet, this takes a pass before them that can
      store one. */
  lemma AlwaysSoundIff(rows: Rows, month: int, counters: Bytes, total: Bytes, fs: seq<Faults>)
    requires Begins(rows, month, counters, total)
    ensures AlwaysSound(rows, month, counters, total, fs) <==>
            !(if NothingStale(rows) then HarmfulLater(fs) else Harmful(fs))
  {
    if (if NothingStale(rows) then HarmfulLater(fs) else Harmful(fs)) {
      var steps := HarmfulFromReady(rows, month, counters, total, fs);
    } else {
      forall steps: seq<seq<DeviceStep>> | |steps| == |fs|
        ensures AtMostAfter(Outcome(rows, month, counters, steps, fs), month,
                            total.Plus(IntervalsMoved(Intervals(steps, fs))))
      {
        HarmlessFromReady(rows, month, counters, total, steps, fs);
      }
    }
  }

  /** In particular one split pass is enough to break soundness once a complete
      one follows, and never before. */
  lemma SplitThenComplete(f: Faults)
    ensures Harmful([f, NO_FAULTS]) <==> Splits(f)
    ensures !Harmful([f])
  {
    assert [f, NO_FAULTS][1..] == [NO_FAULTS] && [NO_FAULTS][1..] == [] && [f][1..] == [];
    assert SomeStoresTotal([NO_FAULTS]) && CountsAgain([NO_FAULTS]);
    assert !Harmful([NO_FAULTS]);
  }
}
