/** Passes whose store calls fail part-way. */
module FailedWrites {
  import opened Common
  import opened Traffic
  import opened TrafficCalc
  import opened PeerRows
  import opened MonthRun
  import opened Device

  datatype Pass = Pass(cur: Bytes, faults: Faults)

  function RunPasses(rows: Rows, month: int, passes: seq<Pass>): Rows
    decreases |passes|
  {
    if passes == [] then rows
    else RunPasses(Collect(rows, month, passes[0].cur, passes[0].faults), month, passes[1..])
  }

  // ---- without drops -------------------------------------------------------

  ghost predicate Growing(from: Bytes, passes: seq<Pass>)
    decreases |passes|
  {
    passes == [] || (!Dropped(from, passes[0].cur) && Growing(passes[0].cur, passes[1..]))
  }

  /** The month has a baseline, and neither it nor the snapshot is above `low`. */
  ghost predicate NotAbove(rows: Rows, month: int, low: Bytes) {
    && month in rows.baselines && !Dropped(rows.baselines[month].counters, low)
    && (rows.latest.Some? ==> !Dropped(rows.latest.value, low))
  }

  /** Whatever fails, a pass without a drop can only replace the total and the
      snapshot, and the next complete pass replaces both again. */
  lemma PassIsForgotten(rows: Rows, month: int, cur: Bytes, f: Faults, last: Bytes)
    requires NotAbove(rows, month, cur) && !Dropped(cur, last)
    ensures var after := Collect(rows, month, cur, f);
            && NotAbove(after, month, cur)
            && CompleteCollect(after, month, last) == CompleteCollect(rows, month, last)
  {
    var after := Collect(rows, month, cur, f);
    assert after.baselines == rows.baselines;
    assert after.monthly[month := last] == rows.monthly[month := last];
    var total := ComputeMonthTraffic(InputFor(rows, month, last)).total;
    assert ComputeMonthTraffic(InputFor(after, month, last)).total == total;
    assert after.monthly[month := total] == rows.monthly[month := total];
  }

  /** Once the month has a baseline and while counters do not drop, a complete
      pass leaves exactly the rows it would have left had none of the earlier
      passes, with whatever faults, ever run. */
  lemma {:induction false} FaultsAreHarmlessWithoutDrops(rows: Rows, month: int, passes: seq<Pass>, last: Bytes)
    requires NotAbove(rows, month, if passes == [] then last else passes[0].cur)
    requires Growing(if passes == [] then last else passes[0].cur, passes + [Pass(last, NO_FAULTS)])
    ensures RunPasses(rows, month, passes + [Pass(last, NO_FAULTS)]) == CompleteCollect(rows, month, last)
    decreases |passes|
  {
    var final := Pass(last, NO_FAULTS);
    if passes == [] {
      assert (passes + [final])[1..] == [];
    } else {
      var rest := passes[1..];
      assert (passes + [final])[1..] == rest + [final];
      var next := if rest == [] then last else rest[0].cur;
      assert next == (rest + [final])[0].cur;
      GrowingReachesLast(passes[0].cur, rest, last);
      PassIsForgotten(rows, month, passes[0].cur, passes[0].faults, last);
      FaultsAreHarmlessWithoutDrops(Collect(rows, month, passes[0].cur, passes[0].faults), month, rest, last);
    }
  }

  lemma {:induction false} GrowingReachesLast(from: Bytes, passes: seq<Pass>, last: Bytes)
    requires Growing(from, passes + [Pass(last, NO_FAULTS)])
    ensures !Dropped(from, last)
    decreases |passes|
  {
    var all := passes + [Pass(last, NO_FAULTS)];
    if passes != [] {
      assert all[1..] == passes[1..] + [Pass(last, NO_FAULTS)];
      GrowingReachesLast(passes[0].cur, passes[1..], last);
    }
  }

  // ---- one lost pass -------------------------------------------------------

  const TOTAL_LOST := NO_FAULTS.(saveMonthly := true)
  const SNAPSHOT_LOST := NO_FAULTS.(saveSnapshot := true)

  /** A failed total is harmless exactly when the failed sample repeated the
      snapshot or the next sample is below neither of the two. */
  lemma LostTotalIsHarmlessIff(rows: Rows, month: int, c1: Bytes, c2: Bytes)
    requires Anchored(rows, month) && rows.latest.value.NonNegative() && c1.NonNegative() && c2.NonNegative()
    ensures var s := rows.latest.value;
            var lossy := CompleteCollect(Collect(rows, month, c1, TOTAL_LOST), month, c2);
            var intact := CompleteCollect(CompleteCollect(rows, month, c1), month, c2);
            lossy.monthly[month] == intact.monthly[month] <==>
            c1 == s || (!Dropped(c1, c2) && !Dropped(s, c2))
  {
    AnchoredStep(rows, month, c1);
    AnchoredStep(CompleteCollect(rows, month, c1), month, c2);
  }

  /** The stored total of the lost pass is recovered on a channel that had not
      moved since its baseline. */
  ghost predicate RecoveredOrUnchanged(base: Bytes, s: Bytes, c1: Bytes) {
    (base.rx == s.rx || c1.rx == s.rx) && (base.tx == s.tx || c1.tx == s.tx)
  }

  /** A failed snapshot is harmless exactly when the next sample is below
      neither the failed sample nor the old snapshot, or when the reset came
      only after the failed pass and the stored total stands in for it. */
  lemma LostSnapshotIsHarmlessIff(rows: Rows, month: int, c1: Bytes, c2: Bytes)
    requires Anchored(rows, month) && rows.latest.value.NonNegative() && c1.NonNegative() && c2.NonNegative()
    ensures var s := rows.latest.value;
            var lossy := CompleteCollect(Collect(rows, month, c1, SNAPSHOT_LOST), month, c2);
            var intact := CompleteCollect(CompleteCollect(rows, month, c1), month, c2);
            lossy.monthly[month] == intact.monthly[month] <==>
            || (!Dropped(c1, c2) && !Dropped(s, c2))
            || (!Dropped(s, c1) && Dropped(s, c2) && RecoveredOrUnchanged(rows.baselines[month].counters, s, c1))
  {
    AnchoredStep(rows, month, c1);
    AnchoredStep(CompleteCollect(rows, month, c1), month, c2);
  }

  /** A pass that re-anchors and then fails to store its total, followed by a
      second drop against the old snapshot: the old segment counts twice. */
  lemma StaleSnapshotCountsTwice(rows: Rows, month: int, c1: Bytes, c2: Bytes)
    requires Anchored(rows, month) && rows.latest.value.NonNegative() && c1.NonNegative() && c2.NonNegative()
    requires Dropped(rows.latest.value, c1) && Dropped(rows.latest.value, c2)
    ensures CompleteCollect(Collect(rows, month, c1, TOTAL_LOST), month, c2).monthly[month] ==
            rows.monthly[month].Plus(rows.latest.value).Plus(c2)
  {
  }

  /** When the snapshot fails instead of the total, the old segment also counts
      twice, but on a channel that had none the stored total is recovered. */
  lemma LostSnapshotCountsTwice(rows: Rows, month: int, c1: Bytes, c2: Bytes)
    requires Anchored(rows, month) && rows.latest.value.NonNegative() && c1.NonNegative() && c2.NonNegative()
    requires Dropped(rows.latest.value, c1) && Dropped(rows.latest.value, c2)
    ensures var s := rows.latest.value;
            CompleteCollect(Collect(rows, month, c1, SNAPSHOT_LOST), month, c2).monthly[month] ==
            rows.monthly[month].Plus(Bytes(if s.rx > 0 then s.rx else c1.rx, if s.tx > 0 then s.tx else c1.tx)).Plus(c2)
  {
  }

  /** So a total can exceed the bytes truly moved: 100 bytes before a reset and
      20 after it are stored as 220. */
  lemma StaleSnapshotExample()
    ensures var start := Rows(map[1 := Baseline(ZERO, ZERO)], map[1 := Bytes(100, 100)], Some(Bytes(100, 100)));
            var steps := [Reset, Move(10, 10), Move(10, 10)];
            var c1 := CountersAfter(Bytes(100, 100), steps[..2]);
            var c2 := CountersAfter(c1, steps[2..]);
            var after := CompleteCollect(Collect(start, 1, c1, TOTAL_LOST), 1, c2);
            && after.monthly[1] == Bytes(220, 220)
            && Bytes(100, 100).Plus(Moved(steps)) == Bytes(120, 120)
  {
    var steps := [Reset, Move(10, 10), Move(10, 10)];
    var before, after := steps[..2], steps[2..];
    assert before == [Reset, Move(10, 10)] && after == [Move(10, 10)];
    assert before[1..] == [Move(10, 10)] && steps[1..] == [Move(10, 10), Move(10, 10)];
    OneMove(ZERO);
    OneMove(Bytes(10, 10));
    assert CountersAfter(Bytes(100, 100), before) == CountersAfter(ZERO, before[1..]);
    assert steps[1..][1..] == after;
    assert Moved(steps[1..]) == Bytes(20, 20);
  }

  lemma OneMove(counters: Bytes)
    ensures CountersAfter(counters, [Move(10, 10)]) == counters.Plus(Bytes(10, 10))
    ensures Moved([Move(10, 10)]) == Bytes(10, 10)
  {
    var steps := [Move(10, 10)];
    assert steps[1..] == [];
  }
}
