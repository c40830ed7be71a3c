/** What each name is charged over whole runs of the machine, against the bytes
    that moved under it, whichever peers carried the name. */
module PeerTotals {
  import opened Traffic
  import opened PeerRows
  import opened Conservation
  import opened Device
  import opened Ledger
  import opened FaultySoundness
  import opened Metering
  import FaultPatterns
  import Consistency
  import Lifecycle
  import PeerSystem

  // ---- one month, with failures --------------------------------------------

  /** The history of the name has samples of this month only, and no month reset. */
  ghost predicate VisitsIn(month: int, visits: seq<Visit>) {
    forall i :: 0 <= i < |visits| ==> visits[i].Visit? && visits[i].month == month
  }

  /** It has when every pass is of this month and no month is reset. */
  lemma {:induction false} HistoryStaysInMonth(w: World, params: PeerSystem.Params, events: seq<Event>, name: string,
                                               pending: seq<DeviceStep>, month: int)
    requires '.' in params.serverIPv4
    requires forall e :: e in events ==> !e.ClearMonth? && (e.Pass? ==> e.month == month)
    ensures VisitsIn(month, History(w, params, events, name, pending).0)
    decreases |events|
  {
    if events != [] {
      var e, after := events[0], Happens(w, params, events[0]);
      assert e in events && forall later :: later in events[1..] ==> later in events;
      var next := if e.Pass? && IsSampled(w.system, name) then [] else pending + StepsUnder(w.system, params, e, name);
      HistoryStaysInMonth(after, params, events[1..], name, next, month);
      assert e.Pass? ==> pending + [] == pending;
    }
  }

  function IntervalsOf(visits: seq<Visit>): seq<Interval>
    requires forall i :: 0 <= i < |visits| ==> visits[i].Visit?
    decreases |visits|
  {
    if visits == [] then [] else [Interval(visits[0].steps, visits[0].faults)] + IntervalsOf(visits[1..])
  }

  lemma {:induction false} ReplayIsIntervals(rows: Rows, month: int, counters: Bytes, visits: seq<Visit>)
    requires VisitsIn(month, visits)
    ensures Replay(rows, counters, visits) == RunIntervals(rows, month, counters, IntervalsOf(visits))
    ensures VisitsMoved(visits) == IntervalsMoved(IntervalsOf(visits))
    decreases |visits|
  {
    if visits != [] {
      var v := visits[0];
      var cur := CountersAfter(counters, v.steps);
      ReplayIsIntervals(Collect(rows, month, cur, v.faults), month, cur, visits[1..]);
      var all := IntervalsOf(visits);
      assert all[0] == Interval(v.steps, v.faults) && all[1..] == IntervalsOf(visits[1..]);
    }
  }

  /** The failures of the name's own samples. */
  function FaultsOf(visits: seq<Visit>): (fs: seq<Faults>)
    ensures |fs| == |visits|
    decreases |visits|
  {
    if visits == [] then []
    else [match visits[0] case Visit(_, _, f) => f case Cleared(_, _) => NO_FAULTS] + FaultsOf(visits[1..])
  }

  lemma {:induction false} IntervalsAreZipped(visits: seq<Visit>)
    requires forall i :: 0 <= i < |visits| ==> visits[i].Visit?
    ensures IntervalsOf(visits) == FaultPatterns.Intervals(StepsOf(visits), FaultsOf(visits))
    decreases |visits|
  {
    if visits != [] {
      IntervalsAreZipped(visits[1..]);
      assert StepsOf(visits)[1..] == StepsOf(visits[1..]) && FaultsOf(visits)[1..] == FaultsOf(visits[1..]);
    }
  }

  lemma AtMostMore(total: Bytes, visits: Bytes, rest: Bytes, under: Bytes, value: Bytes)
    requires visits.Plus(rest) == ZERO.Plus(under) && rest.NonNegative() && value.AtMost(total.Plus(visits))
    ensures value.AtMost(total.Plus(under))
  {
  }

  lemma BoundUnderName(w: World, params: PeerSystem.Params, events: seq<Event>, name: string, month: int, total: Bytes)
    requires Consistency.Orderly(w.system) && Lifecycle.GoodParams(params) && AllPossible(w, params, events)
    requires var visits := History(w, params, events, name, []).0;
             && VisitsIn(month, visits)
             && FaultPatterns.AtMostAfter(RunIntervals(w.rows(name), month, View(w.system, name), IntervalsOf(visits)),
                                          month, total.Plus(IntervalsMoved(IntervalsOf(visits))))
    ensures var after := Unfold(w, params, events).rows(name);
            month in after.monthly ==> after.monthly[month].AtMost(total.Plus(MovedUnder(w, params, events, name)))
  {
    var counters := View(w.system, name);
    HistoryIsTrue(w, params, events, name, counters, []);
    var (visits, rest) := History(w, params, events, name, []);
    ReplayIsIntervals(w.rows(name), month, counters, visits);
    MovedNonNegative(rest);
    var after := Unfold(w, params, events).rows(name);
    if month in after.monthly {
      AtMostMore(total, VisitsMoved(visits), Moved(rest), MovedUnder(w, params, events, name), after.monthly[month]);
    }
  }

  /** Over every run of requests, restarts, traffic and passes, from the moment the
      month's baseline is stored, with any failures for any peer: as long as no
      sample of this name's own splits a re-anchoring, the month never gains more
      under the name than moved under it. This holds through stops and starts,
      through revocations, refused and forgotten ones included, and through a new
      peer of a revoked name, which goes on from the total of the old one. */
  lemma TotalsAreSound(w: World, params: PeerSystem.Params, events: seq<Event>, name: string, month: int, total: Bytes)
    requires Consistency.Orderly(w.system) && Lifecycle.GoodParams(params) && AllPossible(w, params, events)
    requires Ready(w.rows(name), month, View(w.system, name), total)
    requires var visits := History(w, params, events, name, []).0;
             && VisitsIn(month, visits)
             && EveryReanchorWhole(w.rows(name), month, View(w.system, name), IntervalsOf(visits))
    ensures var after := Unfold(w, params, events).rows(name);
            month in after.monthly ==> after.monthly[month].AtMost(total.Plus(MovedUnder(w, params, events, name)))
  {
    var visits := History(w, params, events, name, []).0;
    SoundDespiteFaults(w.rows(name), month, View(w.system, name), total, IntervalsOf(visits));
    BoundUnderName(w, params, events, name, month, total);
  }

  /** And it holds with split re-anchorings too, as long as the failures of the
      name's own samples are not of a harmful pattern. */
  lemma TotalsAreSoundUnlessHarmful(w: World, params: PeerSystem.Params, events: seq<Event>, name: string, month: int,
                                    total: Bytes)
    requires Consistency.Orderly(w.system) && Lifecycle.GoodParams(params) && AllPossible(w, params, events)
    requires FaultPatterns.Begins(w.rows(name), month, View(w.system, name), total)
    requires var visits := History(w, params, events, name, []).0;
             && VisitsIn(month, visits)
             && !(if FaultPatterns.NothingStale(w.rows(name)) then FaultPatterns.HarmfulLater(FaultsOf(visits))
                  else FaultPatterns.Harmful(FaultsOf(visits)))
    ensures var after := Unfold(w, params, events).rows(name);
            month in after.monthly ==> after.monthly[month].AtMost(total.Plus(MovedUnder(w, params, events, name)))
  {
    var visits := History(w, params, events, name, []).0;
    var steps, fs := StepsOf(visits), FaultsOf(visits);
    IntervalsAreZipped(visits);
    FaultPatterns.HarmlessFromReady(w.rows(name), month, View(w.system, name), total, steps, fs);
    BoundUnderName(w, params, events, name, month, total);
  }

  // ---- complete passes -----------------------------------------------------

  /** The name's own samples are complete, none is of an earlier month than the one
      before it, and no month is reset. */
  ghost predicate VisitsFrom(month: int, visits: seq<Visit>)
    decreases |visits|
  {
    visits == [] ||
    (visits[0].Visit? && visits[0].faults == NO_FAULTS && month <= visits[0].month
     && VisitsFrom(visits[0].month, visits[1..]))
  }

  function MonthsOf(visits: seq<Visit>): (months: seq<int>)
    ensures |months| == |visits|
    decreases |visits|
  {
    if visits == [] then [] else [visits[0].month] + MonthsOf(visits[1..])
  }

  function StepsOf(visits: seq<Visit>): (steps: seq<seq<DeviceStep>>)
    ensures |steps| == |visits|
    decreases |visits|
  {
    if visits == [] then []
    else [match visits[0] case Visit(steps, _, _) => steps case Cleared(_, _) => []] + StepsOf(visits[1..])
  }

  lemma {:induction false} ReplayIsSamples(rows: Rows, month: int, counters: Bytes, visits: seq<Visit>)
    requires VisitsFrom(month, visits)
    ensures Replay(rows, counters, visits) ==
            RunSamples(rows, Stamped(MonthsOf(visits), Samples(counters, StepsOf(visits))))
    ensures VisitsMoved(visits) == TotalMoved(StepsOf(visits))
    ensures NonDecreasing(MonthsOf(visits)) && (visits != [] ==> month <= MonthsOf(visits)[0])
    decreases |visits|
  {
    if visits != [] {
      var v, later := visits[0], visits[1..];
      var cur := CountersAfter(counters, v.steps);
      ReplayIsSamples(CompleteCollect(rows, v.month, cur), v.month, cur, later);
      var months, steps := MonthsOf(visits), StepsOf(visits);
      assert months[0] == v.month && months[1..] == MonthsOf(later);
      assert steps[0] == v.steps && steps[1..] == StepsOf(later);
      var all := Samples(counters, steps);
      assert all[0] == cur && all[1..] == Samples(cur, StepsOf(later));
      var stamped := Stamped(months, all);
      assert stamped[0] == Sample(v.month, cur);
      assert stamped[1..] == Stamped(MonthsOf(later), Samples(cur, StepsOf(later)));
      forall i | 0 < i < |months| ensures months[i - 1] <= months[i] {
        if i > 1 {
          assert MonthsOf(later)[i - 2] <= MonthsOf(later)[i - 1];
        }
      }
    }
  }

  lemma MovedTerms(sum: Bytes, gaps: Bytes, missed: Bytes, visits: Bytes, rest: Bytes, under: Bytes, over: Bytes)
    requires sum.Plus(gaps).Plus(missed) == visits.Plus(over) && visits.Plus(rest) == ZERO.Plus(under)
    ensures sum.Plus(gaps).Plus(missed).Plus(rest) == under.Plus(over)
  {
  }

  /** From a name that was never seen, over every run in which its own samples are
      complete, with any months and any failures for other peers: all that its months
      store, plus the uncharged gaps, the shortfalls and what moved since the last
      sample, is what moved under the name plus the overcharges. */
  lemma LedgerOfEveryName(w: World, params: PeerSystem.Params, events: seq<Event>, name: string, month: int)
    requires Consistency.Orderly(w.system) && Lifecycle.GoodParams(params) && AllPossible(w, params, events)
    requires w.rows(name) == NO_ROWS && View(w.system, name) == ZERO
    requires var visits := History(w, params, events, name, []).0; visits != [] && VisitsFrom(month, visits)
    ensures var (visits, rest) := History(w, params, events, name, []);
            var samples := Stamped(MonthsOf(visits), Samples(ZERO, StepsOf(visits)));
            var first := samples[0];
            SumMonths(Unfold(w, params, events).rows(name).monthly, first.month, LastMonth(first.month, samples))
              .Plus(Gaps(first.month, first.cur, samples[1..]))
              .Plus(TotalShortfall(ZERO, StepsOf(visits)))
              .Plus(Moved(rest)) ==
            MovedUnder(w, params, events, name).Plus(Overcharges(first.month, first.cur, samples[1..]))
  {
    HistoryIsTrue(w, params, events, name, ZERO, []);
    var (visits, rest) := History(w, params, events, name, []);
    ReplayIsSamples(NO_ROWS, month, ZERO, visits);
    LedgerBalances(MonthsOf(visits), StepsOf(visits));
    var samples := Stamped(MonthsOf(visits), Samples(ZERO, StepsOf(visits)));
    var first := samples[0];
    MovedTerms(SumMonths(Unfold(w, params, events).rows(name).monthly, first.month, LastMonth(first.month, samples)),
               Gaps(first.month, first.cur, samples[1..]), TotalShortfall(ZERO, StepsOf(visits)), VisitsMoved(visits),
               Moved(rest), MovedUnder(w, params, events, name), Overcharges(first.month, first.cur, samples[1..]));
  }
}
