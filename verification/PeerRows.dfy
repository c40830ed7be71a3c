/** One peer's rows in the three traffic tables, and what one pass of the
    collector does to them (internal/monitor/collector.go). */
module PeerRows {
  import opened Common
  import opened Traffic
  import opened TrafficCalc

  /** `baselines` and `monthly` are keyed by month index; `latest` is the
      newest snapshot of the peer, whatever its month. */
  datatype Rows = Rows(baselines: map<int, Baseline>, monthly: map<int, Bytes>, latest: Option<Bytes>)

  const NO_ROWS := Rows(map[], map[], None)

  /** Which store calls of a pass return an error. */
  datatype Faults = Faults(
    loadBaseline: bool, hasTraffic: bool, saveBaseline: bool, loadSnapshot: bool,
    loadMonthly: bool, reanchor: bool, saveMonthly: bool, saveSnapshot: bool)

  const NO_FAULTS := Faults(false, false, false, false, false, false, false, false)

  function MonthlyOf(rows: Rows, month: int): Option<Bytes> {
    if month in rows.monthly then Some(rows.monthly[month]) else None
  }

  /** Baseline of a month seen for the first time. */
  function ResolveBaseline(rows: Rows, prevMonth: int, cur: Bytes, lookupFails: bool): Bytes {
    if !lookupFails && prevMonth in rows.monthly then cur else ZERO
  }

  function InputFor(rows: Rows, month: int, cur: Bytes): MonthInput
    requires month in rows.baselines
  {
    MonthInput(rows.baselines[month], cur, rows.latest, MonthlyOf(rows, month))
  }

  /** The writes after the step has been computed, in the collector's order. */
  function WriteResult(rows: Rows, month: int, cur: Bytes, res: MonthResult, f: Faults): Rows {
    if res.reanchor && f.reanchor then rows
    else
      var anchored := if res.reanchor then rows.(baselines := rows.baselines[month := res.base]) else rows;
      if f.saveMonthly then anchored
      else
        var totalled := anchored.(monthly := anchored.monthly[month := res.total]);
        if f.saveSnapshot then totalled else totalled.(latest := Some(cur))
  }

  /** The rows once the month is sure to have a baseline. */
  function WithBaseline(rows: Rows, month: int, cur: Bytes, lookupFails: bool): Rows {
    if month in rows.baselines then rows
    else rows.(baselines := rows.baselines[month :=
                 Baseline(ResolveBaseline(rows, month - 1, cur, lookupFails), ZERO)])
  }

  predicate BaselineFails(rows: Rows, month: int, f: Faults) {
    f.loadBaseline || (month !in rows.baselines && f.saveBaseline)
  }

  /** One pass over one peer, for any accounting step. */
  function CollectWith(compute: MonthInput -> MonthResult, rows: Rows, month: int, cur: Bytes, f: Faults): Rows {
    if BaselineFails(rows, month, f) then rows
    else
      var based := WithBaseline(rows, month, cur, f.hasTraffic);
      if f.loadSnapshot || f.loadMonthly then based
      else WriteResult(based, month, cur, compute(InputFor(based, month, cur)), f)
  }

  function Collect(rows: Rows, month: int, cur: Bytes, f: Faults): Rows {
    CollectWith(ComputeMonthTraffic, rows, month, cur, f)
  }

  /** A pass in which every store call succeeds. */
  function CompleteCollect(rows: Rows, month: int, cur: Bytes): Rows {
    Collect(rows, month, cur, NO_FAULTS)
  }

  function RunMonthWith(compute: MonthInput -> MonthResult, rows: Rows, month: int, samples: seq<Bytes>): Rows
    decreases |samples|
  {
    if samples == [] then rows
    else RunMonthWith(compute, CollectWith(compute, rows, month, samples[0], NO_FAULTS), month, samples[1..])
  }

  /** Complete passes over a run of samples of one month. */
  function RunMonth(rows: Rows, month: int, samples: seq<Bytes>): Rows {
    RunMonthWith(ComputeMonthTraffic, rows, month, samples)
  }

  /** The month's total and then its baseline are deleted, unless the second
      delete fails; the snapshots stay. */
  function ResetMonth(rows: Rows, month: int, secondDeleteFails: bool): Rows {
    var cleared := rows.(monthly := rows.monthly - {month});
    if secondDeleteFails then cleared else cleared.(baselines := cleared.baselines - {month})
  }

  // A monthly total is never stored without the baseline it was computed from.

  ghost predicate TotalsHaveBaselines(rows: Rows) {
    forall m :: m in rows.monthly ==> m in rows.baselines
  }

  datatype RowEvent =
    | Sampled(month: int, cur: Bytes, faults: Faults)
    | MonthReset(month: int, secondDeleteFails: bool)

  function ApplyEvent(rows: Rows, e: RowEvent): Rows {
    match e
    case Sampled(month, cur, f) => Collect(rows, month, cur, f)
    case MonthReset(month, secondDeleteFails) => ResetMonth(rows, month, secondDeleteFails)
  }

  function ApplyEvents(rows: Rows, events: seq<RowEvent>): Rows
    decreases |events|
  {
    if events == [] then rows else ApplyEvents(ApplyEvent(rows, events[0]), events[1..])
  }

  /** Holds over every run of samples, faults and resets, because baselines are
      written before totals and deleted after them. */
  lemma {:induction false} TotalsKeepBaselines(rows: Rows, events: seq<RowEvent>)
    requires TotalsHaveBaselines(rows)
    ensures TotalsHaveBaselines(ApplyEvents(rows, events))
    decreases |events|
  {
    if events != [] {
      TotalsKeepBaselines(ApplyEvent(rows, events[0]), events[1..]);
    }
  }
}
