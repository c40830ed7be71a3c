/** Runs of the collector and of the month reset over the whole database, with
    changing configurations, statistics, months and failures. */
module DatabaseRuns {
  import opened Common
  import opened Traffic
  import opened PeerRows
  import Store
  import opened WgConf
  import opened Collector

  /** One tick of the collector, whose inputs may be unreadable, or one month
      reset. */
  datatype DbEvent =
    | Ticked(stats: Option<seq<PeerStats>>, config: Option<string>, month: int, faults: nat -> Faults)
    | Cleared(month: int, secondDeleteFails: bool)

  /** The samples a pass over `peers` takes under one name. */
  function SamplesFor(name: string, peers: seq<Peer>, byKey: map<string, Bytes>, month: int, faults: nat -> Faults)
    : seq<RowEvent>
    decreases |peers|
  {
    if peers == [] then []
    else
      var n := |peers| - 1;
      var p := peers[n];
      SamplesFor(name, peers[..n], byKey, month, faults) +
      if p.name == name && p.publicKey in byKey then [Sampled(month, byKey[p.publicKey], faults(n))] else []
  }

  /** What one event is to the rows of one name. */
  function EventsFor(name: string, e: DbEvent): seq<RowEvent> {
    match e
    case Ticked(stats, config, month, faults) =>
      if stats.Some? && config.Some?
      then SamplesFor(name, Parsed(config.value), ByKey(stats.value), month, faults) else []
    case Cleared(month, secondDeleteFails) => [MonthReset(month, secondDeleteFails)]
  }

  function EventsOf(name: string, events: seq<DbEvent>): seq<RowEvent>
    decreases |events|
  {
    if events == [] then [] else EventsFor(name, events[0]) + EventsOf(name, events[1..])
  }

  lemma {:induction false} ApplyEventsAppend(rows: Rows, a: seq<RowEvent>, b: seq<RowEvent>)
    ensures ApplyEvents(rows, a + b) == ApplyEvents(ApplyEvents(rows, a), b)
    decreases |a|
  {
    if a == [] {
      assert a + b == b;
    } else {
      assert (a + b)[0] == a[0] && (a + b)[1..] == a[1..] + b;
      ApplyEventsAppend(ApplyEvent(rows, a[0]), a[1..], b);
    }
  }

  lemma ApplyOne(rows: Rows, e: RowEvent)
    ensures ApplyEvents(rows, [e]) == ApplyEvent(rows, e)
  {
    assert [e][1..] == [];
  }

  lemma {:induction false} PassIsSamples(rows: Rows, name: string, peers: seq<Peer>, byKey: map<string, Bytes>,
                                         month: int, faults: nat -> Faults)
    ensures PassOver(rows, name, peers, byKey, month, faults) ==
            ApplyEvents(rows, SamplesFor(name, peers, byKey, month, faults))
    decreases |peers|
  {
    if peers != [] {
      var n := |peers| - 1;
      var p := peers[n];
      PassIsSamples(rows, name, peers[..n], byKey, month, faults);
      var earlier := SamplesFor(name, peers[..n], byKey, month, faults);
      if p.name == name && p.publicKey in byKey {
        var sample := Sampled(month, byKey[p.publicKey], faults(n));
        ApplyEventsAppend(rows, earlier, [sample]);
        ApplyOne(ApplyEvents(rows, earlier), sample);
      } else {
        assert earlier + [] == earlier;
      }
    }
  }

  /** One event on the database itself. */
  method Process(db: Store.Database, e: DbEvent)
    modifies db`baselines, db`monthly, db`snapshots
    ensures forall n :: db.RowsOf(n) == ApplyEvents(old(db.RowsOf(n)), EventsFor(n, e))
  {
    match e
    case Ticked(stats, config, month, faults) =>
      CollectAll(db, stats, config, month, faults);
      if stats.Some? && config.Some? {
        forall n ensures db.RowsOf(n) == ApplyEvents(old(db.RowsOf(n)), EventsFor(n, e)) {
          PassIsSamples(old(db.RowsOf(n)), n, Parsed(config.value), ByKey(stats.value), month, faults);
        }
      }
    case Cleared(month, secondDeleteFails) =>
      db.ResetMonthTraffic(month, secondDeleteFails);
      forall n ensures db.RowsOf(n) == ApplyEvents(old(db.RowsOf(n)), EventsFor(n, e)) {
        ApplyOne(old(db.RowsOf(n)), MonthReset(month, secondDeleteFails));
      }
  }

  lemma {:induction false} EventsOfAppend(name: string, events: seq<DbEvent>, e: DbEvent)
    ensures EventsOf(name, events + [e]) == EventsOf(name, events) + EventsFor(name, e)
    decreases |events|
  {
    var all := events + [e];
    if events == [] {
      assert all == [e] && all[1..] == [];
      assert EventsFor(name, e) + [] == EventsFor(name, e) == [] + EventsFor(name, e);
    } else {
      assert all[0] == events[0] && all[1..] == events[1..] + [e];
      EventsOfAppend(name, events[1..], e);
      var first, later, last := EventsFor(name, events[0]), EventsOf(name, events[1..]), EventsFor(name, e);
      assert first + later + last == first + (later + last);
    }
  }

  /** Any run over the database is, for every name at once, the run of that name's
      own samples and resets. No configuration need have distinct names. No total is
      ever stored without its baseline. */
  method ProcessAll(db: Store.Database, events: seq<DbEvent>)
    modifies db`baselines, db`monthly, db`snapshots
    ensures forall n :: db.RowsOf(n) == ApplyEvents(old(db.RowsOf(n)), EventsOf(n, events))
    ensures forall n :: TotalsHaveBaselines(old(db.RowsOf(n))) ==> TotalsHaveBaselines(db.RowsOf(n))
  {
    for i := 0 to |events|
      invariant forall n :: db.RowsOf(n) == ApplyEvents(old(db.RowsOf(n)), EventsOf(n, events[..i]))
    {
      Process(db, events[i]);
      assert events[..i + 1] == events[..i] + [events[i]];
      forall n ensures db.RowsOf(n) == ApplyEvents(old(db.RowsOf(n)), EventsOf(n, events[..i + 1])) {
        EventsOfAppend(n, events[..i], events[i]);
        ApplyEventsAppend(old(db.RowsOf(n)), EventsOf(n, events[..i]), EventsFor(n, events[i]));
      }
    }
    assert events[..|events|] == events;
    forall n | TotalsHaveBaselines(old(db.RowsOf(n))) ensures TotalsHaveBaselines(db.RowsOf(n)) {
      TotalsKeepBaselines(old(db.RowsOf(n)), EventsOf(n, events));
    }
  }
}
