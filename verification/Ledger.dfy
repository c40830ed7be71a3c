/** All monthly totals against the bytes the device truly moved. */
module Ledger {
  import opened Traffic
  import PeerRows
  import opened Conservation
  import opened Device

  /** The pass after each interval, stamped with its month. */
  function Stamped(months: seq<int>, counters: seq<Bytes>): (samples: seq<Sample>)
    requires |months| == |counters|
    ensures |samples| == |months| && Counters(samples) == counters
    decreases |months|
  {
    if months == [] then [] else
      var rest := Stamped(months[1..], counters[1..]);
      var samples := [Sample(months[0], counters[0])] + rest;
      assert Counters(samples) == [counters[0]] + Counters(rest);
      samples
  }

  ghost predicate NonDecreasing(months: seq<int>) {
    forall i :: 0 < i < |months| ==> months[i - 1] <= months[i]
  }

  lemma {:induction false} StampedIsChronological(month: int, months: seq<int>, counters: seq<Bytes>)
    requires |months| == |counters| && NonDecreasing(months) && AllNonNegative(counters)
    requires months != [] ==> month <= months[0]
    ensures Chronological(month, Stamped(months, counters))
    decreases |months|
  {
    if months != [] {
      forall i | 0 < i < |months[1..]| ensures months[1..][i - 1] <= months[1..][i] {
        assert months[i] <= months[i + 1];
      }
      StampedIsChronological(months[0], months[1..], counters[1..]);
    }
  }

  /** From empty tables and idle counters, for any traffic, any resets and any
      months: what all months store, plus the uncharged gaps and the shortfalls,
      is what the device moved, plus the overcharges. */
  lemma LedgerBalances(months: seq<int>, intervals: seq<seq<DeviceStep>>)
    requires |months| == |intervals| > 0 && NonDecreasing(months)
    ensures var samples := Stamped(months, Samples(ZERO, intervals));
            var first := samples[0];
            SumMonths(RunSamples(PeerRows.NO_ROWS, samples).monthly, first.month, LastMonth(first.month, samples))
              .Plus(Gaps(first.month, first.cur, samples[1..]))
              .Plus(TotalShortfall(ZERO, intervals)) ==
            TotalMoved(intervals).Plus(Overcharges(first.month, first.cur, samples[1..]))
  {
    var counters := Samples(ZERO, intervals);
    var samples := Stamped(months, counters);
    SamplesNonNegative(ZERO, intervals);
    StampedIsChronological(months[0], months, counters);
    assert samples[0].month == months[0];
    TotalsAreConserved(samples);
    DeltasAndShortfallsAreMoved(ZERO, intervals);
    var first, rest := samples[0], samples[1..];
    MoveTerms(SumMonths(RunSamples(PeerRows.NO_ROWS, samples).monthly, first.month, LastMonth(first.month, samples)),
              Gaps(first.month, first.cur, rest), SumDeltas(ZERO, counters), TotalShortfall(ZERO, intervals),
              Overcharges(first.month, first.cur, rest), TotalMoved(intervals));
  }

  lemma MoveTerms(total: Bytes, gaps: Bytes, deltas: Bytes, missed: Bytes, over: Bytes, moved: Bytes)
    requires total.Plus(gaps) == deltas.Plus(over) && deltas.Plus(missed) == moved
    ensures total.Plus(gaps).Plus(missed) == moved.Plus(over)
  {
  }
}
