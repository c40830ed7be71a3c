/** What runs of complete passes within one month store. */
module MonthRun {
  import opened Common
  import opened Traffic
  import opened TrafficCalc
  import opened PeerRows

  /** The stored total is the offset plus the growth of the snapshot over the
      baseline, and the snapshot is not below the baseline. */
  ghost predicate Anchored(rows: Rows, month: int) {
    && month in rows.baselines && month in rows.monthly && rows.latest.Some?
    && var b := rows.baselines[month];
    && b.counters.AtMost(rows.latest.value)
    && rows.monthly[month] == b.offset.Plus(rows.latest.value.Minus(b.counters))
  }

  /** From any rows whatever, one complete pass anchors the month. */
  lemma StabilisesInOneCollect(rows: Rows, month: int, cur: Bytes)
    requires cur.NonNegative()
    ensures var after := CompleteCollect(rows, month, cur);
            Anchored(after, month) && after.latest == Some(cur)
  {
  }

  /** Once anchored, a pass adds exactly the joint delta of the two samples. */
  lemma AnchoredStep(rows: Rows, month: int, cur: Bytes)
    requires Anchored(rows, month) && cur.NonNegative()
    ensures var after := CompleteCollect(rows, month, cur);
            && Anchored(after, month) && after.latest == Some(cur)
            && after.monthly == rows.monthly[month := rows.monthly[month].Plus(JointDelta(rows.latest.value, cur))]
            && after.baselines.Keys == rows.baselines.Keys
  {
  }

  /** The baseline, offset and snapshot form refines the plain accumulator over
      every run, and the run leaves the month anchored at the last sample. */
  lemma {:induction false} RefinesAccumulator(rows: Rows, month: int, samples: seq<Bytes>)
    requires Anchored(rows, month) && AllNonNegative(samples)
    ensures var after := RunMonth(rows, month, samples);
            && Anchored(after, month)
            && after.latest == Some(if samples == [] then rows.latest.value else samples[|samples| - 1])
            && after.monthly == rows.monthly[month :=
                 rows.monthly[month].Plus(SumDeltas(rows.latest.value, samples))]
    decreases |samples|
  {
    if samples == [] {
    } else {
      AnchoredStep(rows, month, samples[0]);
      RefinesAccumulator(CompleteCollect(rows, month, samples[0]), month, samples[1..]);
    }
  }

  /** What the first pass of a month charges to it. */
  function FirstCharge(hadPrevMonth: bool, prev: Option<Bytes>, cur: Bytes): Bytes {
    if prev.Some? && Dropped(prev.value, cur) then
      if hadPrevMonth then MaxBytes(prev.value, cur) else prev.value.Plus(cur)
    else
      if hadPrevMonth then ZERO else cur
  }

  ghost predicate FreshMonth(rows: Rows, month: int) {
    && month !in rows.baselines && month !in rows.monthly
    && (rows.latest.Some? ==> rows.latest.value.NonNegative())
  }

  lemma FirstOffset(baseline: int, prev: int)
    requires 0 <= baseline && 0 <= prev
    ensures OffsetAfterReset(0, baseline, Some(prev), None) == if prev >= baseline then prev - baseline else 0
  {
  }

  lemma FirstStepWithoutDrop(counters: Bytes, prev: Option<Bytes>, cur: Bytes)
    requires counters.AtMost(cur) && (prev.Some? ==> !Dropped(prev.value, cur))
    ensures ComputeMonthTraffic(MonthInput(Baseline(counters, ZERO), cur, prev, None)) ==
            MonthResult(cur.Minus(counters), Baseline(counters, ZERO), false)
  {
  }

  lemma FirstStepWithDrop(counters: Bytes, prev: Bytes, cur: Bytes)
    requires counters.NonNegative() && prev.NonNegative() && cur.NonNegative() && Dropped(prev, cur)
    ensures var offset := MaxBytes(counters, prev).Minus(counters);
            ComputeMonthTraffic(MonthInput(Baseline(counters, ZERO), cur, Some(prev), None)) ==
            MonthResult(offset.Plus(cur), Baseline(ZERO, offset), true)
  {
    FirstOffset(counters.rx, prev.rx);
    FirstOffset(counters.tx, prev.tx);
  }

  lemma FirstStepCharges(hadPrevMonth: bool, prev: Option<Bytes>, cur: Bytes)
    requires cur.NonNegative() && (prev.Some? ==> prev.value.NonNegative())
    ensures var counters := if hadPrevMonth then cur else ZERO;
            var res := ComputeMonthTraffic(MonthInput(Baseline(counters, ZERO), cur, prev, None));
            && res.total == FirstCharge(hadPrevMonth, prev, cur)
            && res.base.counters.AtMost(cur)
            && res.total == res.base.offset.Plus(cur.Minus(res.base.counters))
  {
    var counters := if hadPrevMonth then cur else ZERO;
    if prev.Some? && Dropped(prev.value, cur) {
      FirstStepWithDrop(counters, prev.value, cur);
      assert MaxBytes(counters, prev.value).Minus(counters).Plus(cur) == FirstCharge(hadPrevMonth, prev, cur);
    } else {
      FirstStepWithoutDrop(counters, prev, cur);
      PlusZero(cur);
    }
  }

  /** What the step is given on the first pass of a month. */
  function FirstInput(rows: Rows, month: int, cur: Bytes): MonthInput {
    MonthInput(Baseline(if month - 1 in rows.monthly then cur else ZERO, ZERO), cur, rows.latest, None)
  }

  lemma FirstCollectIsStep(rows: Rows, month: int, cur: Bytes)
    requires FreshMonth(rows, month)
    ensures var res := ComputeMonthTraffic(FirstInput(rows, month, cur));
            CompleteCollect(rows, month, cur) ==
            Rows(rows.baselines[month := res.base], rows.monthly[month := res.total], Some(cur))
  {
    var x := FirstInput(rows, month, cur);
    var based := rows.(baselines := rows.baselines[month := x.base]);
    assert InputFor(based, month, cur) == x;
    assert CompleteCollect(rows, month, cur) == WriteResult(based, month, cur, ComputeMonthTraffic(x), NO_FAULTS);
    assert !CountersDropped(x) ==> ComputeMonthTraffic(x).base == x.base;
  }

  lemma FirstCollectCharges(rows: Rows, month: int, cur: Bytes)
    requires FreshMonth(rows, month) && cur.NonNegative()
    ensures var after := CompleteCollect(rows, month, cur);
            && Anchored(after, month) && after.latest == Some(cur)
            && after.monthly == rows.monthly[month := FirstCharge(month - 1 in rows.monthly, rows.latest, cur)]
  {
    FirstCollectIsStep(rows, month, cur);
    FirstStepCharges(month - 1 in rows.monthly, rows.latest, cur);
  }

  /** What a first pass leaves behind whatever fails. The baseline is the current
      counters exactly when the previous month is known to have a total, and zero when
      it has none or the lookup fails; it stays when a later call fails. */
  lemma FirstPassUnderFaults(rows: Rows, month: int, cur: Bytes, f: Faults)
    requires FreshMonth(rows, month) && cur.NonNegative()
    ensures var after := Collect(rows, month, cur, f);
            var known := month - 1 in rows.monthly && !f.hasTraffic;
            var x := MonthInput(Baseline(if known then cur else ZERO, ZERO), cur, rows.latest, None);
            var res := ComputeMonthTraffic(x);
            var stored := f.loadSnapshot || f.loadMonthly || (res.reanchor && f.reanchor);
            if f.loadBaseline || f.saveBaseline then after == rows
            else if stored then after == rows.(baselines := rows.baselines[month := x.base])
            else
              && after.baselines == rows.baselines[month := res.base]
              && after.monthly == (if f.saveMonthly then rows.monthly
                                   else rows.monthly[month := FirstCharge(known, rows.latest, cur)])
              && after.latest == if f.saveMonthly || f.saveSnapshot then rows.latest else Some(cur)
  {
    var known := month - 1 in rows.monthly && !f.hasTraffic;
    FirstStepCharges(known, rows.latest, cur);
    var x := MonthInput(Baseline(if known then cur else ZERO, ZERO), cur, rows.latest, None);
    var res := ComputeMonthTraffic(x);
    if !BaselineFails(rows, month, f) {
      var based := rows.(baselines := rows.baselines[month := x.base]);
      assert WithBaseline(rows, month, cur, f.hasTraffic) == based && InputFor(based, month, cur) == x;
      assert !res.reanchor ==> res.base == x.base;
      assert based.baselines[month := res.base] == rows.baselines[month := res.base];
    }
  }

  /** The whole month in closed form: the first charge and then every joint delta. */
  lemma MonthTotal(rows: Rows, month: int, samples: seq<Bytes>)
    requires FreshMonth(rows, month) && AllNonNegative(samples) && samples != []
    ensures var after := RunMonth(rows, month, samples);
            && Anchored(after, month)
            && after.monthly == rows.monthly[month :=
                 FirstCharge(month - 1 in rows.monthly, rows.latest, samples[0])
                   .Plus(SumDeltas(samples[0], samples[1..]))]
  {
    FirstCollectCharges(rows, month, samples[0]);
    RefinesAccumulator(CompleteCollect(rows, month, samples[0]), month, samples[1..]);
  }

  lemma {:induction false} SumDeltasNonNegative(prev: Bytes, samples: seq<Bytes>)
    requires AllNonNegative(samples)
    ensures SumDeltas(prev, samples).NonNegative()
    decreases |samples|
  {
    if samples != [] {
      SumDeltasNonNegative(samples[0], samples[1..]);
    }
  }

  lemma {:induction false} SumDeltasAppend(prev: Bytes, first: seq<Bytes>, second: seq<Bytes>)
    ensures SumDeltas(prev, first + second) ==
            SumDeltas(prev, first).Plus(SumDeltas(if first == [] then prev else first[|first| - 1], second))
    decreases |first|
  {
    if first == [] {
      assert first + second == second;
    } else {
      var all := first + second;
      assert all[0] == first[0] && all[1..] == first[1..] + second;
      SumDeltasAppend(first[0], first[1..], second);
      var d := JointDelta(prev, first[0]);
      var last := first[|first| - 1];
      assert SumDeltas(prev, all) == d.Plus(SumDeltas(first[0], all[1..]));
      assert SumDeltas(prev, first) == d.Plus(SumDeltas(first[0], first[1..]));
    }
  }

  /** After one complete pass, from any rows, no later pass of the month lowers
      either channel's total. */
  lemma TotalsNeverFall(rows: Rows, month: int, first: Bytes, earlier: seq<Bytes>, later: seq<Bytes>)
    requires first.NonNegative() && AllNonNegative(earlier) && AllNonNegative(later)
    ensures var before := RunMonth(rows, month, [first] + earlier);
            var after := RunMonth(rows, month, [first] + earlier + later);
            month in before.monthly && month in after.monthly &&
            before.monthly[month].AtMost(after.monthly[month])
  {
    StabilisesInOneCollect(rows, month, first);
    var start := CompleteCollect(rows, month, first);
    assert ([first] + earlier)[1..] == earlier;
    assert ([first] + earlier + later)[1..] == earlier + later;
    RefinesAccumulator(start, month, earlier);
    RefinesAccumulator(start, month, earlier + later);
    SumDeltasAppend(first, earlier, later);
    SumDeltasNonNegative(if earlier == [] then first else earlier[|earlier| - 1], later);
  }

  /** Once the month is anchored, the stored-value fallback and the baseline
      half of the drop test change nothing for the rest of the month. */
  lemma {:induction false} FallbackIsRedundant(rows: Rows, month: int, samples: seq<Bytes>)
    requires Anchored(rows, month) && AllNonNegative(samples)
    ensures RunMonthWith(ComputeWithoutFallback, rows, month, samples) == RunMonth(rows, month, samples)
    decreases |samples|
  {
    if samples != [] {
      var cur := samples[0];
      assert ComputeWithoutFallback(InputFor(rows, month, cur)) == ComputeMonthTraffic(InputFor(rows, month, cur));
      AnchoredStep(rows, month, cur);
      FallbackIsRedundant(CompleteCollect(rows, month, cur), month, samples[1..]);
    }
  }

  /** Without an anchored month both parts matter: here a baseline above the
      counters and a larger stored total. */
  lemma FallbackMattersWhenUnanchored()
    ensures var x := MonthInput(Baseline(Bytes(1000, 2000), ZERO), ZERO, None, Some(Bytes(4000, 6000)));
            ComputeMonthTraffic(x).total == Bytes(4000, 6000) && ComputeWithoutFallback(x).total == ZERO
  {
  }

  /** Resetting a month makes its next complete pass store zero in exactly two
      cases: the previous month has a row and the counters did not drop, or it
      has none and every counter is still zero. In particular the first month
      ever tracked imports its counters again. */
  lemma ResetStartsAtZeroIff(rows: Rows, month: int, cur: Bytes)
    requires rows.latest.Some? ==> rows.latest.value.NonNegative()
    requires cur.NonNegative()
    ensures var after := CompleteCollect(ResetMonth(rows, month, false), month, cur);
            var dropped := rows.latest.Some? && Dropped(rows.latest.value, cur);
            month in after.monthly &&
            (after.monthly[month] == ZERO <==>
             !dropped && (month - 1 in rows.monthly || cur == ZERO))
  {
    FirstCollectCharges(ResetMonth(rows, month, false), month, cur);
  }

  /** Only the stored total knows what this channel had: the snapshot adds nothing
      to the offset, and the total is larger. */
  ghost predicate OnlyStoredKnows(offset: int, baseline: int, prev: Option<int>, stored: Option<int>) {
    SegmentBeforeReset(baseline, prev) == 0 && stored.Some? && stored.value > offset
  }

  /** A reset whose second delete fails deletes only the total. The next complete
      pass undoes it, unless it sees a drop and needs the total it can no longer
      read. */
  lemma HalfResetIsUndoneIff(rows: Rows, month: int, cur: Bytes)
    requires month in rows.baselines && cur.NonNegative()
    ensures var b, x := rows.baselines[month], InputFor(rows, month, cur);
            CompleteCollect(ResetMonth(rows, month, true), month, cur) == CompleteCollect(rows, month, cur) <==>
            !(CountersDropped(x) && (OnlyStoredKnows(b.offset.rx, b.counters.rx, RxOf(x.prev), RxOf(x.stored))
                                     || OnlyStoredKnows(b.offset.tx, b.counters.tx, TxOf(x.prev), TxOf(x.stored))))
  {
    var x, y := InputFor(rows, month, cur), InputFor(ResetMonth(rows, month, true), month, cur);
    var full, half := ComputeMonthTraffic(x), ComputeMonthTraffic(y);
    assert CountersDropped(x) <==> CountersDropped(y);
    assert CompleteCollect(rows, month, cur) == WriteResult(rows, month, cur, full, NO_FAULTS);
    assert CompleteCollect(ResetMonth(rows, month, true), month, cur) ==
           WriteResult(ResetMonth(rows, month, true), month, cur, half, NO_FAULTS);
    assert CompleteCollect(rows, month, cur).monthly[month] == full.total;
    assert CompleteCollect(ResetMonth(rows, month, true), month, cur).monthly[month] == half.total;
    assert (rows.monthly - {month})[month := half.total] == rows.monthly[month := half.total];
  }
}
