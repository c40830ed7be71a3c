/** The accounting step (internal/monitor/traffic_calc.go). */
module TrafficCalc {
  import opened Common
  import opened Traffic

  /** A traffic_baselines row. */
  datatype Baseline = Baseline(counters: Bytes, offset: Bytes)

  /** `prev` is the latest snapshot and `stored` the month's total, if any. */
  datatype MonthInput = MonthInput(base: Baseline, cur: Bytes, prev: Option<Bytes>, stored: Option<Bytes>)

  datatype MonthResult = MonthResult(total: Bytes, base: Baseline, reanchor: bool)

  function RxOf(b: Option<Bytes>): Option<int> {
    match b case Some(v) => Some(v.rx) case None => None
  }

  function TxOf(b: Option<Bytes>): Option<int> {
    match b case Some(v) => Some(v.tx) case None => None
  }

  predicate CountersDropped(x: MonthInput) {
    if x.prev.Some? && Dropped(x.prev.value, x.cur) then true
    else Dropped(x.base.counters, x.cur)
  }

  function SegmentBeforeReset(baseline: int, prev: Option<int>): int {
    if prev.Some? && prev.value >= baseline then ClientUploadDelta(baseline, prev.value) else 0
  }

  /** One channel's offset after a reset. An offset that did not move falls
      back to a larger stored total. */
  function OffsetAfterReset(offset: int, baseline: int, prev: Option<int>, stored: Option<int>): int {
    var moved := offset + SegmentBeforeReset(baseline, prev);
    if moved == offset && stored.Some? && stored.value > moved then stored.value else moved
  }

  function ComputeMonthTraffic(x: MonthInput): MonthResult {
    if !CountersDropped(x) then
      MonthResult(
        Bytes(x.base.offset.rx + ClientUploadDelta(x.base.counters.rx, x.cur.rx),
              x.base.offset.tx + ClientDownloadDelta(x.base.counters.tx, x.cur.tx)),
        x.base, false)
    else
      var up := OffsetAfterReset(x.base.offset.rx, x.base.counters.rx, RxOf(x.prev), RxOf(x.stored));
      var down := OffsetAfterReset(x.base.offset.tx, x.base.counters.tx, TxOf(x.prev), TxOf(x.stored));
      MonthResult(
        Bytes(up + ClientUploadDelta(0, x.cur.rx), down + ClientDownloadDelta(0, x.cur.tx)),
        Baseline(ZERO, Bytes(up, down)), true)
  }

  /** The step without the stored-value fallback and without comparing the
      counters to the baseline. */
  function ComputeWithoutFallback(x: MonthInput): MonthResult {
    if x.prev.Some? && Dropped(x.prev.value, x.cur) then
      var up := x.base.offset.rx + SegmentBeforeReset(x.base.counters.rx, RxOf(x.prev));
      var down := x.base.offset.tx + SegmentBeforeReset(x.base.counters.tx, TxOf(x.prev));
      MonthResult(
        Bytes(up + ClientUploadDelta(0, x.cur.rx), down + ClientDownloadDelta(0, x.cur.tx)),
        Baseline(ZERO, Bytes(up, down)), true)
    else
      MonthResult(
        Bytes(x.base.offset.rx + ClientUploadDelta(x.base.counters.rx, x.cur.rx),
              x.base.offset.tx + ClientDownloadDelta(x.base.counters.tx, x.cur.tx)),
        x.base, false)
  }
}
