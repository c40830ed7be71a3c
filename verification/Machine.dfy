/** The machine of operations, traffic and passes on the components themselves. */
module Machine {
  import opened Common
  import opened PeerSystem
  import opened Service
  import opened Runs
  import opened Metering
  import opened Traffic
  import Collector
  import Consistency
  import FaultySoundness
  import Lifecycle
  import PeerTotals

  /** A change of what the device has, or of the rows alone. */
  method Switch(svc: PeerService, op: Op)
    requires op.StopOp? || op.StartOp? || op.ReloadOp? || op.ResumeOp?
    requires '.' in svc.params.serverIPv4
    modifies svc.db`peers, svc.device
    ensures svc.State() == Apply(old(svc.State()), svc.params, op)
  {
    ghost var before := svc.State();
    match op
    case StopOp(name, junks, deviceOk) =>
      var _ := svc.Stop(name, junks, deviceOk);
      ApplyStop(before, svc.params, op);
    case StartOp(name, junks, deviceOk) =>
      var _ := svc.Start(name, junks, deviceOk);
      ApplyStart(before, svc.params, op);
    case ReloadOp =>
      svc.Reload();
      ApplyReload(before, svc.params, op);
    case ResumeOp(junks) =>
      svc.Resume(junks);
      ApplyResume(before, svc.params, op);
  }

  /** One request or restart. */
  method Perform(svc: PeerService, op: Op)
    requires '.' in svc.params.serverIPv4
    modifies svc.conf, svc.db`peers, svc.device, svc.clients
    ensures svc.State() == Apply(old(svc.State()), svc.params, op)
  {
    ghost var before := svc.State();
    match op
    case CreateOp(name, actor, secrets, deviceOk) =>
      var _ := svc.Create(name, actor, secrets, deviceOk);
      ApplyCreate(before, svc.params, op);
    case RevokeOp(name, deviceOk) =>
      var _ := svc.Revoke(name, deviceOk);
      ApplyRevoke(before, svc.params, op);
    case SetLimitOp(name, limit) =>
      var _ := svc.SetLimit(name, limit);
      ApplySetLimit(before, svc.params, op);
    case SyncOp(junks) => var _ := svc.SyncFromConfig(junks);
    case GetConfigOp(name, junk) =>
      var _ := svc.GetConfig(name, junk);
      ApplyGetConfig(before, svc.params, op);
    case _ => Switch(svc, op);
  }

  /** One event. The passes read the device and the configuration file as they are. */
  method Step(svc: PeerService, e: Event, ghost w: World)
    requires '.' in svc.params.serverIPv4
    requires w.system == svc.State() && forall n :: w.rows(n) == svc.db.RowsOf(n)
    modifies svc.conf, svc.db, svc.device, svc.clients
    ensures svc.State() == Happens(w, svc.params, e).system
    ensures forall n :: svc.db.RowsOf(n) == Happens(w, svc.params, e).rows(n)
  {
    match e
    case Request(op) => Perform(svc, op);
    case Transfer(key, rx, tx) => svc.device.Transfer(key, rx, tx);
    case Pass(month, faults) =>
      var stats := svc.device.GetPeerStats();
      Collector.CollectAll(svc.db, Some(stats), Some(svc.conf.text), month, faults);
    case ClearMonth(month, secondDeleteFails) => svc.db.ResetMonthTraffic(month, secondDeleteFails);
  }

  lemma {:induction false} UnfoldAppend(w: World, params: Params, events: seq<Event>, e: Event)
    requires '.' in params.serverIPv4
    ensures Unfold(w, params, events + [e]) == Happens(Unfold(w, params, events), params, e)
    decreases |events|
  {
    var all := events + [e];
    if events == [] {
      assert all == [e] && all[1..] == [];
    } else {
      assert all[0] == events[0] && all[1..] == events[1..] + [e];
      UnfoldAppend(Happens(w, params, events[0]), params, events[1..], e);
    }
  }

  /** Any run of the service, the device, the collector and the database together is
      a run of the machine, so all that is proved about its names holds of the rows
      in the database. */
  method RunAll(svc: PeerService, events: seq<Event>, ghost w: World)
    requires '.' in svc.params.serverIPv4
    requires w.system == svc.State() && forall n :: w.rows(n) == svc.db.RowsOf(n)
    modifies svc.conf, svc.db, svc.device, svc.clients
    ensures svc.State() == Unfold(w, svc.params, events).system
    ensures forall n :: svc.db.RowsOf(n) == Unfold(w, svc.params, events).rows(n)
  {
    ghost var now := w;
    for i := 0 to |events|
      invariant now == Unfold(w, svc.params, events[..i])
      invariant svc.State() == now.system && forall n :: svc.db.RowsOf(n) == now.rows(n)
    {
      Step(svc, events[i], now);
      assert events[..i + 1] == events[..i] + [events[i]];
      UnfoldAppend(w, svc.params, events[..i], events[i]);
      now := Happens(now, svc.params, events[i]);
    }
    assert events[..|events|] == events;
  }

  /** In particular what the database stores for any name: never more than was
      stored before and has moved under the name since, whatever store calls fail,
      as long as no sample of the name's own splits a re-anchoring. */
  method RunMetered(svc: PeerService, events: seq<Event>, ghost w: World, ghost name: string, ghost month: int,
                    ghost total: Bytes)
    requires Lifecycle.GoodParams(svc.params) && AllPossible(w, svc.params, events)
    requires w.system == svc.State() && forall n :: w.rows(n) == svc.db.RowsOf(n)
    requires Consistency.Orderly(w.system)
    requires FaultySoundness.Ready(w.rows(name), month, View(w.system, name), total)
    requires var visits := History(w, svc.params, events, name, []).0;
             && PeerTotals.VisitsIn(month, visits)
             && FaultySoundness.EveryReanchorWhole(w.rows(name), month, View(w.system, name),
                                                   PeerTotals.IntervalsOf(visits))
    modifies svc.conf, svc.db, svc.device, svc.clients
    ensures month in svc.db.RowsOf(name).monthly ==>
              svc.db.RowsOf(name).monthly[month].AtMost(total.Plus(MovedUnder(w, svc.params, events, name)))
  {
    PeerTotals.TotalsAreSound(w, svc.params, events, name, month, total);
    RunAll(svc, events, w);
  }
}
