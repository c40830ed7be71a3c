/** Runs through several months: what all monthly totals together amount to. */
module Conservation {
  import opened Common
  import opened Traffic
  import opened PeerRows
  import opened MonthRun

  datatype Sample = Sample(month: int, cur: Bytes)

  function RunSamples(rows: Rows, samples: seq<Sample>): Rows
    decreases |samples|
  {
    if samples == [] then rows
    else RunSamples(CompleteCollect(rows, samples[0].month, samples[0].cur), samples[1..])
  }

  function Counters(samples: seq<Sample>): (cs: seq<Bytes>) {
    seq(|samples|, i requires 0 <= i < |samples| => samples[i].cur)
  }

  /** The clock does not go back, and counters are never negative. */
  ghost predicate Chronological(month: int, samples: seq<Sample>)
    decreases |samples|
  {
    samples == [] ||
    (month <= samples[0].month && samples[0].cur.NonNegative() && Chronological(samples[0].month, samples[1..]))
  }

  function LastMonth(month: int, samples: seq<Sample>): int {
    if samples == [] then month else samples[|samples| - 1].month
  }

  /** Growth that no month is charged for: the first pass of a month that
      follows its predecessor directly and sees no drop. */
  function BoundaryGap(month: int, prev: Bytes, s: Sample): Bytes {
    if s.month == month + 1 && !Dropped(prev, s.cur) then s.cur.Minus(prev) else ZERO
  }

  /** Charged beyond the joint delta: a drop seen by the first pass of a
      month, or a whole month without a pass, after which the counters are
      imported again. */
  function Overcharge(month: int, prev: Bytes, s: Sample): Bytes {
    if s.month == month + 1 && Dropped(prev, s.cur) then MaxBytes(prev, s.cur).Minus(s.cur)
    else if s.month > month + 1 then prev
    else ZERO
  }

  function Gaps(month: int, prev: Bytes, samples: seq<Sample>): Bytes
    decreases |samples|
  {
    if samples == [] then ZERO
    else BoundaryGap(month, prev, samples[0]).Plus(Gaps(samples[0].month, samples[0].cur, samples[1..]))
  }

  function Overcharges(month: int, prev: Bytes, samples: seq<Sample>): Bytes
    decreases |samples|
  {
    if samples == [] then ZERO
    else Overcharge(month, prev, samples[0]).Plus(Overcharges(samples[0].month, samples[0].cur, samples[1..]))
  }

  /** Sum of the totals stored for the months lo..hi. */
  function SumMonths(monthly: map<int, Bytes>, lo: int, hi: int): Bytes
    decreases hi - lo
  {
    if hi < lo then ZERO
    else SumMonths(monthly, lo, hi - 1).Plus(if hi in monthly then monthly[hi] else ZERO)
  }

  lemma {:induction false} SumMonthsFrame(a: map<int, Bytes>, b: map<int, Bytes>, lo: int, hi: int)
    requires forall m :: m <= hi ==> (m in a <==> m in b) && (m in a ==> a[m] == b[m])
    ensures SumMonths(a, lo, hi) == SumMonths(b, lo, hi)
    decreases hi - lo
  {
    if lo <= hi {
      SumMonthsFrame(a, b, lo, hi - 1);
    }
  }

  lemma {:induction false} SumMonthsSkipsEmpty(monthly: map<int, Bytes>, lo: int, mid: int, hi: int)
    requires lo <= mid + 1 && mid <= hi
    requires forall m :: m in monthly ==> m <= mid
    ensures SumMonths(monthly, lo, hi) == SumMonths(monthly, lo, mid)
    decreases hi - mid
  {
    if mid < hi {
      SumMonthsSkipsEmpty(monthly, lo, mid, hi - 1);
      assert hi !in monthly;
      PlusZero(SumMonths(monthly, lo, hi - 1));
    }
  }

  /** No row belongs to a month after `month`. */
  ghost predicate NothingAfter(rows: Rows, month: int) {
    (forall m :: m in rows.baselines ==> m <= month) && (forall m :: m in rows.monthly ==> m <= month)
  }

  /** One pass at or after `month`: the sum of the totals grows by the joint
      delta, less the gap and more the overcharge. */
  lemma ConservationStep(rows: Rows, lo: int, month: int, s: Sample)
    requires Anchored(rows, month) && NothingAfter(rows, month) && lo <= month <= s.month
    requires rows.latest.value.NonNegative() && s.cur.NonNegative()
    ensures var after := CompleteCollect(rows, s.month, s.cur);
            && Anchored(after, s.month) && NothingAfter(after, s.month) && after.latest == Some(s.cur)
            && SumMonths(after.monthly, lo, s.month).Plus(BoundaryGap(month, rows.latest.value, s)) ==
               SumMonths(rows.monthly, lo, month)
                 .Plus(JointDelta(rows.latest.value, s.cur))
                 .Plus(Overcharge(month, rows.latest.value, s))
  {
    var after, prev := CompleteCollect(rows, s.month, s.cur), rows.latest.value;
    var earlier := SumMonths(rows.monthly, lo, s.month - 1);
    if s.month == month {
      AnchoredStep(rows, month, s.cur);
      ContinuedMonth(earlier, rows.monthly[month], JointDelta(prev, s.cur));
    } else {
      assert s.month !in rows.baselines && s.month !in rows.monthly;
      FirstCollectCharges(rows, s.month, s.cur);
      SumMonthsSkipsEmpty(rows.monthly, lo, month, s.month - 1);
      NewMonth(earlier, month, prev, s);
    }
    SumMonthsFrame(rows.monthly, after.monthly, lo, s.month - 1);
    assert SumMonths(after.monthly, lo, s.month) == earlier.Plus(after.monthly[s.month]);
  }

  lemma ContinuedMonth(earlier: Bytes, total: Bytes, delta: Bytes)
    ensures earlier.Plus(total.Plus(delta)).Plus(ZERO) == earlier.Plus(total).Plus(delta).Plus(ZERO)
  {
  }

  lemma NewMonth(earlier: Bytes, month: int, prev: Bytes, s: Sample)
    requires s.month > month && prev.NonNegative() && s.cur.NonNegative()
    ensures earlier.Plus(FirstCharge(s.month == month + 1, Some(prev), s.cur)).Plus(BoundaryGap(month, prev, s)) ==
            earlier.Plus(JointDelta(prev, s.cur)).Plus(Overcharge(month, prev, s))
  {
  }

  lemma Regroup(last: Bytes, after: Bytes, before: Bytes, gap: Bytes, gaps: Bytes,
                delta: Bytes, deltas: Bytes, over: Bytes, overs: Bytes)
    requires after.Plus(gap) == before.Plus(delta).Plus(over)
    requires last.Plus(gaps) == after.Plus(deltas).Plus(overs)
    ensures last.Plus(gap.Plus(gaps)) == before.Plus(delta.Plus(deltas)).Plus(over.Plus(overs))
  {
  }

  lemma {:induction false} ConservationFrom(rows: Rows, lo: int, month: int, samples: seq<Sample>)
    requires Anchored(rows, month) && NothingAfter(rows, month) && lo <= month
    requires rows.latest.value.NonNegative() && Chronological(month, samples)
    ensures SumMonths(RunSamples(rows, samples).monthly, lo, LastMonth(month, samples))
              .Plus(Gaps(month, rows.latest.value, samples)) ==
            SumMonths(rows.monthly, lo, month)
              .Plus(SumDeltas(rows.latest.value, Counters(samples)))
              .Plus(Overcharges(month, rows.latest.value, samples))
    decreases |samples|
  {
    if samples != [] {
      var s, rest, prev := samples[0], samples[1..], rows.latest.value;
      var after := CompleteCollect(rows, s.month, s.cur);
      ConservationStep(rows, lo, month, s);
      ConservationFrom(after, lo, s.month, rest);
      assert Counters(samples)[0] == s.cur && Counters(samples)[1..] == Counters(rest);
      assert LastMonth(month, samples) == LastMonth(s.month, rest);
      assert SumDeltas(prev, Counters(samples)) == JointDelta(prev, s.cur).Plus(SumDeltas(s.cur, Counters(rest)));
      assert Gaps(month, prev, samples) == BoundaryGap(month, prev, s).Plus(Gaps(s.month, s.cur, rest));
      assert Overcharges(month, prev, samples) == Overcharge(month, prev, s).Plus(Overcharges(s.month, s.cur, rest));
      Regroup(SumMonths(RunSamples(after, rest).monthly, lo, LastMonth(s.month, rest)),
              SumMonths(after.monthly, lo, s.month), SumMonths(rows.monthly, lo, month),
              BoundaryGap(month, prev, s), Gaps(s.month, s.cur, rest),
              JointDelta(prev, s.cur), SumDeltas(s.cur, Counters(rest)),
              Overcharge(month, prev, s), Overcharges(s.month, s.cur, rest));
    }
  }

  /** From empty tables and over any months: all monthly totals plus the
      uncharged gaps are all joint deltas from zero plus the overcharges. */
  lemma {:induction false} TotalsAreConserved(samples: seq<Sample>)
    requires samples != [] && Chronological(samples[0].month, samples)
    ensures var first := samples[0];
            SumMonths(RunSamples(NO_ROWS, samples).monthly, first.month, LastMonth(first.month, samples))
              .Plus(Gaps(first.month, first.cur, samples[1..])) ==
            SumDeltas(ZERO, Counters(samples)).Plus(Overcharges(first.month, first.cur, samples[1..]))
  {
    var first, rest := samples[0], samples[1..];
    FirstCollectCharges(NO_ROWS, first.month, first.cur);
    var start := CompleteCollect(NO_ROWS, first.month, first.cur);
    assert start.monthly == map[first.month := first.cur];
    assert SumMonths(start.monthly, first.month, first.month) == first.cur by {
      assert SumMonths(start.monthly, first.month, first.month - 1) == ZERO;
    }
    ConservationFrom(start, first.month, first.month, rest);
    assert Counters(samples)[1..] == Counters(rest);
  }

  /** No month begins with a drop, and the counters were zero before every month
      that had no pass. */
  ghost predicate NothingOvercharged(month: int, prev: Bytes, samples: seq<Sample>)
    decreases |samples|
  {
    samples == [] ||
    ((samples[0].month == month + 1 ==> !Dropped(prev, samples[0].cur))
     && (samples[0].month > month + 1 ==> prev == ZERO)
     && NothingOvercharged(samples[0].month, samples[0].cur, samples[1..]))
  }

  lemma OverchargeNonNegative(month: int, prev: Bytes, s: Sample)
    requires prev.NonNegative() && s.cur.NonNegative()
    ensures Overcharge(month, prev, s).NonNegative()
    ensures Overcharge(month, prev, s) == ZERO <==>
            (s.month == month + 1 ==> !Dropped(prev, s.cur)) && (s.month > month + 1 ==> prev == ZERO)
  {
  }

  lemma {:induction false} NoOverchargesIff(month: int, prev: Bytes, samples: seq<Sample>)
    requires prev.NonNegative() && Chronological(month, samples)
    ensures Overcharges(month, prev, samples).NonNegative()
    ensures Overcharges(month, prev, samples) == ZERO <==> NothingOvercharged(month, prev, samples)
    decreases |samples|
  {
    if samples != [] {
      OverchargeNonNegative(month, prev, samples[0]);
      NoOverchargesIff(samples[0].month, samples[0].cur, samples[1..]);
    }
  }

  lemma SameSum(a: Bytes, b: Bytes, over: Bytes)
    requires a == b.Plus(over)
    ensures a == b <==> over == ZERO
  {
  }

  /** So totals and gaps make up the joint deltas exactly when no month begins with
      a drop and none is skipped after counters above zero. */
  lemma {:induction false} ConservationIsExactIff(samples: seq<Sample>)
    requires samples != [] && Chronological(samples[0].month, samples)
    ensures var first := samples[0];
            SumMonths(RunSamples(NO_ROWS, samples).monthly, first.month, LastMonth(first.month, samples))
              .Plus(Gaps(first.month, first.cur, samples[1..])) == SumDeltas(ZERO, Counters(samples)) <==>
            NothingOvercharged(first.month, first.cur, samples[1..])
  {
    var first := samples[0];
    TotalsAreConserved(samples);
    NoOverchargesIff(first.month, first.cur, samples[1..]);
    SameSum(SumMonths(RunSamples(NO_ROWS, samples).monthly, first.month, LastMonth(first.month, samples))
              .Plus(Gaps(first.month, first.cur, samples[1..])),
            SumDeltas(ZERO, Counters(samples)), Overcharges(first.month, first.cur, samples[1..]));
  }
}
