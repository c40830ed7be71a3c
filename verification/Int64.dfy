/** The accounting step in 64-bit machine arithmetic, and when it is exact. */
module Int64 {
  import opened Common
  import opened Traffic
  import opened TrafficCalc
  import opened PeerRows
  import opened MonthRun

  const TWO_63 := 0x8000_0000_0000_0000
  const MAX_INT64 := TWO_63 - 1
  const TWO_64 := 0x1_0000_0000_0000_0000

  /** The int64 a mathematical integer wraps around to. */
  function Wrap(x: int): int {
    (x + TWO_63) % TWO_64 - TWO_63
  }

  predicate Fits(x: int) {
    -TWO_63 <= x < TWO_63
  }

  lemma WrapIsIdentityIff(x: int)
    ensures Fits(Wrap(x))
    ensures Wrap(x) == x <==> Fits(x)
  {
  }

  function Delta64(prev: int, current: int): int {
    if current >= prev then Wrap(current - prev) else current
  }

  function Segment64(baseline: int, prev: Option<int>): int {
    if prev.Some? && prev.value >= baseline then Delta64(baseline, prev.value) else 0
  }

  function Offset64(offset: int, baseline: int, prev: Option<int>, stored: Option<int>): int {
    var moved := Wrap(offset + Segment64(baseline, prev));
    if moved == offset && stored.Some? && stored.value > moved then stored.value else moved
  }

  /** `ComputeMonthTraffic` with every addition and subtraction in int64. */
  function ComputeMonthTraffic64(x: MonthInput): MonthResult {
    if !CountersDropped(x) then
      MonthResult(
        Bytes(Wrap(x.base.offset.rx + Delta64(x.base.counters.rx, x.cur.rx)),
              Wrap(x.base.offset.tx + Delta64(x.base.counters.tx, x.cur.tx))),
        x.base, false)
    else
      var up := Offset64(x.base.offset.rx, x.base.counters.rx, RxOf(x.prev), RxOf(x.stored));
      var down := Offset64(x.base.offset.tx, x.base.counters.tx, TxOf(x.prev), TxOf(x.stored));
      MonthResult(
        Bytes(Wrap(up + Delta64(0, x.cur.rx)), Wrap(down + Delta64(0, x.cur.tx))),
        Baseline(ZERO, Bytes(up, down)), true)
  }

  ghost predicate Within(b: Bytes, limit: int) {
    b.NonNegative() && b.rx <= limit && b.tx <= limit
  }

  ghost predicate AllWithin(samples: seq<Bytes>, limit: int) {
    forall i :: 0 <= i < |samples| ==> Within(samples[i], limit)
  }

  /** Counters within `limit`, offset and total within `total`. */
  ghost predicate Bounded(rows: Rows, month: int, limit: int, total: int) {
    && Anchored(rows, month)
    && Within(rows.latest.value, limit) && Within(rows.baselines[month].counters, limit)
    && Within(rows.baselines[month].offset, total) && Within(rows.monthly[month], total)
  }

  lemma SegmentExact(baseline: int, prev: int)
    requires 0 <= baseline && 0 <= prev < TWO_63
    ensures Segment64(baseline, Some(prev)) == SegmentBeforeReset(baseline, Some(prev))
  {
    if prev >= baseline { WrapIsIdentityIff(prev - baseline); }
  }

  lemma ChannelExact(offset: int, baseline: int, prev: Option<int>, stored: Option<int>, cur: int)
    requires 0 <= offset && 0 <= baseline && 0 <= cur && (prev.Some? ==> 0 <= prev.value < TWO_63)
    requires OffsetAfterReset(offset, baseline, prev, stored) + cur < TWO_63
    ensures Offset64(offset, baseline, prev, stored) == OffsetAfterReset(offset, baseline, prev, stored)
    ensures Wrap(Offset64(offset, baseline, prev, stored) + Delta64(0, cur)) ==
            OffsetAfterReset(offset, baseline, prev, stored) + cur
  {
    if prev.Some? { SegmentExact(baseline, prev.value); }
    WrapIsIdentityIff(offset + SegmentBeforeReset(baseline, prev));
    WrapIsIdentityIff(cur);
    WrapIsIdentityIff(OffsetAfterReset(offset, baseline, prev, stored) + cur);
  }

  lemma GrowthExact(offset: int, baseline: int, cur: int)
    requires 0 <= offset && 0 <= baseline <= cur && offset + (cur - baseline) < TWO_63
    ensures Wrap(offset + Delta64(baseline, cur)) == offset + Delta(baseline, cur)
  {
    WrapIsIdentityIff(cur - baseline);
    WrapIsIdentityIff(offset + (cur - baseline));
  }

  /** Small inputs and a small result make every intermediate value exact. */
  lemma StepExact(x: MonthInput)
    requires x.base.offset.NonNegative() && x.base.counters.NonNegative() && x.cur.NonNegative()
    requires x.prev.Some? ==> Within(x.prev.value, TWO_63 - 1)
    requires Within(ComputeMonthTraffic(x).total, TWO_63 - 1)
    ensures ComputeMonthTraffic64(x) == ComputeMonthTraffic(x)
  {
    var b := x.base;
    if CountersDropped(x) {
      ChannelExact(b.offset.rx, b.counters.rx, RxOf(x.prev), RxOf(x.stored), x.cur.rx);
      ChannelExact(b.offset.tx, b.counters.tx, TxOf(x.prev), TxOf(x.stored), x.cur.tx);
    } else {
      GrowthExact(b.offset.rx, b.counters.rx, x.cur.rx);
      GrowthExact(b.offset.tx, b.counters.tx, x.cur.tx);
    }
  }

  /** For inputs in range, the int64 step is the mathematical one exactly when the
      mathematical total is in range. */
  lemma StepExactIff(x: MonthInput)
    requires x.base.offset.NonNegative() && x.base.counters.NonNegative() && x.cur.NonNegative()
    requires x.prev.Some? ==> Within(x.prev.value, MAX_INT64)
    ensures ComputeMonthTraffic64(x) == ComputeMonthTraffic(x) <==> Within(ComputeMonthTraffic(x).total, MAX_INT64)
  {
    TotalFits(x);
    if Within(ComputeMonthTraffic(x).total, MAX_INT64) {
      StepExact(x);
    } else if CountersDropped(x) {
      OffsetNonNegative(x.base.offset.rx, x.base.counters.rx, RxOf(x.prev), RxOf(x.stored));
      OffsetNonNegative(x.base.offset.tx, x.base.counters.tx, TxOf(x.prev), TxOf(x.stored));
    }
  }

  predicate BothFit(b: Bytes) {
    Fits(b.rx) && Fits(b.tx)
  }

  lemma TotalFits(x: MonthInput)
    ensures BothFit(ComputeMonthTraffic64(x).total)
  {
  }

  lemma OffsetNonNegative(offset: int, baseline: int, prev: Option<int>, stored: Option<int>)
    requires 0 <= offset
    ensures 0 <= OffsetAfterReset(offset, baseline, prev, stored)
  {
  }

  // ---- runs ----------------------------------------------------------------

  ghost predicate InRange(rows: Rows, month: int) {
    && Anchored(rows, month) && Within(rows.latest.value, MAX_INT64)
    && rows.baselines[month].counters.NonNegative() && rows.baselines[month].offset.NonNegative()
  }

  /** One pass from an anchored month is exact while the new total is in range. */
  lemma PassExact(rows: Rows, month: int, cur: Bytes)
    requires InRange(rows, month) && Within(cur, MAX_INT64)
    ensures var after := CompleteCollect(rows, month, cur);
            && InRange(after, month)
            && (Within(after.monthly[month], MAX_INT64) ==>
                  CollectWith(ComputeMonthTraffic64, rows, month, cur, NO_FAULTS) == after)
  {
    AnchoredStep(rows, month, cur);
    var x := InputFor(rows, month, cur);
    StepExactIff(x);
    OffsetNonNegative(x.base.offset.rx, x.base.counters.rx, RxOf(x.prev), RxOf(x.stored));
    OffsetNonNegative(x.base.offset.tx, x.base.counters.tx, TxOf(x.prev), TxOf(x.stored));
    var res := ComputeMonthTraffic(x);
    assert CompleteCollect(rows, month, cur) == WriteResult(rows, month, cur, res, NO_FAULTS);
    assert CompleteCollect(rows, month, cur).monthly[month] == res.total;
    assert CollectWith(ComputeMonthTraffic64, rows, month, cur, NO_FAULTS) ==
           WriteResult(rows, month, cur, ComputeMonthTraffic64(x), NO_FAULTS);
  }

  /** Whatever rows an int64 run starts from, the total it stores fits. */
  lemma {:induction false} RunFits(rows: Rows, month: int, samples: seq<Bytes>)
    requires samples != []
    ensures var after := RunMonthWith(ComputeMonthTraffic64, rows, month, samples);
            month in after.monthly && BothFit(after.monthly[month])
    decreases |samples|
  {
    var cur := samples[0];
    var after := CollectWith(ComputeMonthTraffic64, rows, month, cur, NO_FAULTS);
    if |samples| == 1 {
      var x := InputFor(WithBaseline(rows, month, cur, false), month, cur);
      TotalFits(x);
      assert after.monthly[month] == ComputeMonthTraffic64(x).total;
    } else {
      RunFits(after, month, samples[1..]);
    }
  }

  /** From an anchored month in range, the int64 run is the mathematical run
      exactly when the final total of the mathematical one is in range. */
  lemma {:induction false} RunExactIff(rows: Rows, month: int, samples: seq<Bytes>)
    requires InRange(rows, month) && Within(rows.monthly[month], MAX_INT64) && AllWithin(samples, MAX_INT64)
    ensures RunMonthWith(ComputeMonthTraffic64, rows, month, samples) == RunMonth(rows, month, samples) <==>
            Within(rows.monthly[month].Plus(SumDeltas(rows.latest.value, samples)), MAX_INT64)
    decreases |samples|
  {
    RefinesAccumulator(rows, month, samples);
    if samples == [] {
      PlusZero(rows.monthly[month]);
    } else {
      var cur, rest, prev := samples[0], samples[1..], rows.latest.value;
      var after := CompleteCollect(rows, month, cur);
      AnchoredStep(rows, month, cur);
      PassExact(rows, month, cur);
      SumDeltasNonNegative(cur, rest);
      PlusAssociative(rows.monthly[month], JointDelta(prev, cur), SumDeltas(cur, rest));
      if Within(after.monthly[month], MAX_INT64) {
        RunExactIff(after, month, rest);
      } else {
        RunFits(rows, month, samples);
      }
    }
  }

  lemma FirstPassExact(rows: Rows, month: int, cur: Bytes)
    requires FreshMonth(rows, month) && Within(cur, MAX_INT64)
    requires rows.latest.Some? ==> Within(rows.latest.value, MAX_INT64)
    ensures var after := CompleteCollect(rows, month, cur);
            && InRange(after, month)
            && (Within(after.monthly[month], MAX_INT64) ==>
                  CollectWith(ComputeMonthTraffic64, rows, month, cur, NO_FAULTS) == after)
  {
    var x := FirstInput(rows, month, cur);
    FirstCollectIsStep(rows, month, cur);
    FirstCollectCharges(rows, month, cur);
    StepExactIff(x);
    OffsetNonNegative(x.base.offset.rx, x.base.counters.rx, RxOf(x.prev), RxOf(x.stored));
    OffsetNonNegative(x.base.offset.tx, x.base.counters.tx, TxOf(x.prev), TxOf(x.stored));
    assert InputFor(rows.(baselines := rows.baselines[month := x.base]), month, cur) == x;
  }

  /** A whole month in int64 is exact exactly when its closed-form total, the
      first charge and all joint deltas, is in range: an overflow on the way is
      never hidden by the final value. */
  lemma MonthExactIff(rows: Rows, month: int, samples: seq<Bytes>)
    requires FreshMonth(rows, month) && samples != [] && AllWithin(samples, MAX_INT64)
    requires rows.latest.Some? ==> Within(rows.latest.value, MAX_INT64)
    ensures RunMonthWith(ComputeMonthTraffic64, rows, month, samples) == RunMonth(rows, month, samples) <==>
            Within(FirstCharge(month - 1 in rows.monthly, rows.latest, samples[0])
                     .Plus(SumDeltas(samples[0], samples[1..])), MAX_INT64)
  {
    var cur, rest := samples[0], samples[1..];
    var after := CompleteCollect(rows, month, cur);
    FirstCollectCharges(rows, month, cur);
    MonthTotal(rows, month, samples);
    FirstPassExact(rows, month, cur);
    SumDeltasNonNegative(cur, rest);
    if Within(after.monthly[month], MAX_INT64) {
      RunExactIff(after, month, rest);
    } else {
      RunFits(rows, month, samples);
    }
  }

  // ---- a bound in the number of passes -------------------------------------

  /** A later pass of the month raises the bound on totals by one counter limit. */
  lemma BoundedStep(rows: Rows, month: int, limit: int, total: int, cur: Bytes)
    requires Bounded(rows, month, limit, total) && Within(cur, limit)
    ensures Bounded(CompleteCollect(rows, month, cur), month, limit, total + limit)
  {
    AnchoredStep(rows, month, cur);
    var b, s := rows.baselines[month], rows.latest.value;
    var res := ComputeMonthTraffic(InputFor(rows, month, cur));
    assert CompleteCollect(rows, month, cur).baselines[month] == if res.reanchor then res.base else b;
    if Dropped(s, cur) {
      assert res.base == Baseline(ZERO, rows.monthly[month]);
    }
  }

  lemma FirstStepBounded(counters: Bytes, prev: Option<Bytes>, cur: Bytes, limit: int)
    requires counters.NonNegative() && counters.AtMost(cur) && Within(cur, limit)
    requires prev.Some? ==> Within(prev.value, limit)
    ensures var res := ComputeMonthTraffic(MonthInput(Baseline(counters, ZERO), cur, prev, None));
            && Within(res.total, 2 * limit) && Within(res.base.offset, 2 * limit) && Within(res.base.counters, limit)
  {
    if prev.Some? && Dropped(prev.value, cur) {
      FirstStepWithDrop(counters, prev.value, cur);
      var offset := MaxBytes(counters, prev.value).Minus(counters);
      assert Within(offset, limit) && Within(offset.Plus(cur), 2 * limit);
    } else {
      FirstStepWithoutDrop(counters, prev, cur);
    }
  }

  /** The first pass of a month charges at most two counter limits. */
  lemma BoundedFirst(rows: Rows, month: int, limit: int, cur: Bytes)
    requires FreshMonth(rows, month) && Within(cur, limit)
    requires rows.latest.Some? ==> Within(rows.latest.value, limit)
    ensures Bounded(CompleteCollect(rows, month, cur), month, limit, 2 * limit)
    ensures Within(ComputeMonthTraffic(FirstInput(rows, month, cur)).total, 2 * limit)
  {
    FirstCollectIsStep(rows, month, cur);
    FirstCollectCharges(rows, month, cur);
    FirstStepBounded(FirstInput(rows, month, cur).base.counters, rows.latest, cur, limit);
  }

  lemma PassLimits(passes: nat, limit: nat)
    requires passes > 0
    ensures (passes + 1) * limit == 2 * limit + (passes - 1) * limit
    ensures passes * limit == limit + (passes - 1) * limit
    ensures 0 <= (passes - 1) * limit
  {
  }

  lemma {:induction false} RunBounded(rows: Rows, month: int, limit: nat, total: int, samples: seq<Bytes>)
    requires Bounded(rows, month, limit, total) && AllWithin(samples, limit)
    ensures Bounded(RunMonth(rows, month, samples), month, limit, total + |samples| * limit)
    decreases |samples|
  {
    if samples != [] {
      PassLimits(|samples|, limit);
      BoundedStep(rows, month, limit, total, samples[0]);
      RunBounded(CompleteCollect(rows, month, samples[0]), month, limit, total + limit, samples[1..]);
    }
  }

  lemma MonthBounded(rows: Rows, month: int, limit: nat, samples: seq<Bytes>)
    requires FreshMonth(rows, month) && samples != [] && AllWithin(samples, limit)
    requires rows.latest.Some? ==> Within(rows.latest.value, limit)
    ensures Bounded(RunMonth(rows, month, samples), month, limit, (|samples| + 1) * limit)
  {
    PassLimits(|samples|, limit);
    BoundedFirst(rows, month, limit, samples[0]);
    RunBounded(CompleteCollect(rows, month, samples[0]), month, limit, 2 * limit, samples[1..]);
  }

  lemma ExactWhenTotalFits(rows: Rows, month: int, samples: seq<Bytes>)
    requires FreshMonth(rows, month) && samples != [] && AllWithin(samples, MAX_INT64)
    requires rows.latest.Some? ==> Within(rows.latest.value, MAX_INT64)
    requires var after := RunMonth(rows, month, samples);
             month in after.monthly ==> Within(after.monthly[month], MAX_INT64)
    ensures RunMonthWith(ComputeMonthTraffic64, rows, month, samples) == RunMonth(rows, month, samples)
  {
    MonthTotal(rows, month, samples);
    MonthExactIff(rows, month, samples);
  }

  /** k complete passes of a month with all counters in 0..limit keep every
      offset and total within (k + 1) * limit, and the int64 program computes
      the mathematical run as long as that is below 2^63. */
  lemma MonthExact(rows: Rows, month: int, limit: nat, samples: seq<Bytes>)
    requires FreshMonth(rows, month) && samples != [] && AllWithin(samples, limit)
    requires rows.latest.Some? ==> Within(rows.latest.value, limit)
    requires (|samples| + 1) * limit < TWO_63
    ensures Bounded(RunMonth(rows, month, samples), month, limit, (|samples| + 1) * limit)
    ensures RunMonthWith(ComputeMonthTraffic64, rows, month, samples) == RunMonth(rows, month, samples)
  {
    MonthBounded(rows, month, limit, samples);
    PassLimits(|samples|, limit);
    ExactWhenTotalFits(rows, month, samples);
  }

  /** The bound is needed: two passes can already leave the int64 range. */
  lemma OverflowExample()
    ensures var c := 0x6000_0000_0000_0000;
            var x := MonthInput(Baseline(ZERO, ZERO), Bytes(c, c - 1), Some(Bytes(c, c)), Some(Bytes(c, c)));
            ComputeMonthTraffic(x).total.rx == 2 * c && ComputeMonthTraffic64(x).total.rx < 0
  {
    var c := 0x6000_0000_0000_0000;
    OverflowOf(c, c - 1);
    assert Wrap(2 * c) < 0;
  }

  lemma OverflowOf(c: int, d: int)
    requires 0 < d < c < TWO_63
    ensures var x := MonthInput(Baseline(ZERO, ZERO), Bytes(c, d), Some(Bytes(c, c)), Some(Bytes(c, c)));
            ComputeMonthTraffic(x).total.rx == 2 * c && ComputeMonthTraffic64(x).total.rx == Wrap(2 * c)
  {
    WrapIsIdentityIff(c);
    assert Offset64(0, 0, Some(c), Some(c)) == c && Delta64(0, c) == c;
  }
}
