/** The peer operations, the traffic on the device and the collector as one
    machine: what each name is charged against what moved under it. */
module Metering {
  import opened Common
  import opened Traffic
  import opened PeerRows
  import opened Device
  import FaultySoundness
  import opened WgConf
  import Store
  import opened PeerSystem
  import opened Consistency
  import opened Lifecycle
  import opened Leftovers
  import opened Runs
  import Collector

  // ---- the counters under a name -------------------------------------------

  /** What the device shows under a name, zero while it has no such peer. */
  function View(s: System, name: string): Bytes {
    if name in s.table && s.table[name].publicKey in s.device then s.device[s.table[name].publicKey] else ZERO
  }

  /** The device agrees to take the peer off. */
  ghost predicate TakesOff(s: System, op: Op, name: string) {
    && name in s.table && (op.RevokeOp? || op.StopOp?) && op.name == name && op.deviceOk
    && (op.StopOp? ==> s.table[name].enabled)
  }

  /** A row that a refused revoke left behind is dropped by a sync, or taken over by
      a create with another key. */
  ghost predicate ForgetsRow(s: System, params: Params, op: Op, name: string)
    requires '.' in params.serverIPv4
  {
    && IsLeftover(s, name)
    && (op.StopOp? || op.StartOp? || op.SyncOp? || op.ResumeOp?
        || (op.CreateOp? && op.name == name && CanCreate(s, params, name, op.deviceOk)))
  }

  /** The counters under the name are lost: the peer is taken off, its row is
      forgotten, or a restart begins anew or takes a disabled peer off. */
  ghost predicate LosesView(s: System, params: Params, op: Op, name: string)
    requires '.' in params.serverIPv4
  {
    || TakesOff(s, op, name) || ForgetsRow(s, params, op, name) || op.ReloadOp?
    || (op.ResumeOp? && name in s.table && !s.table[name].enabled)
  }

  lemma SyncedView(s: System, params: Params, junks: nat -> Junk.JunkParams, name: string)
    requires Orderly(s)
    ensures Sync(s, params, junks).Ok?
    ensures View(Sync(s, params, junks).value, name) == if IsLeftover(s, name) then ZERO else View(s, name)
    ensures name in Sync(s, params, junks).value.table <==> name in s.table && !IsLeftover(s, name)
  {
    SyncOfOrderly(s, params, junks);
    ConfiguredHaveRows(s);
  }

  /** A synced state: stopping a peer loses its counters and no others. */
  lemma StoppedView(s: System, other: string, deviceOk: bool, name: string)
    requires Orderly(s) && TableOk(s.table, Parsed(s.conf))
    ensures var after := FinishStop(s, FindPeer(Parsed(s.conf), other), other, deviceOk).0;
            View(after, name) ==
            if other == name && deviceOk && name in s.table && s.table[name].enabled then ZERO else View(s, name)
  {
    FindPeerFinds(Parsed(s.conf), other);
    if other in s.table {
      KeyForOrderly(s, other);
    }
  }

  /** Starting a peer loses none. */
  lemma StartedView(s: System, other: string, deviceOk: bool, name: string)
    ensures View(FinishStart(s, FindPeer(Parsed(s.conf), other), other, deviceOk).0, name) == View(s, name)
  {
    var found := FindPeer(Parsed(s.conf), other);
    SwitchesChangeFlags(s, found, other, deviceOk);
    StartAddsZero(s, found, other, deviceOk);
    AddedZeroView(s, FinishStart(s, found, other, deviceOk).0, name);
  }

  /** Counters stay, and keys that come are at zero. */
  ghost predicate OnlyAddsZero(before: map<string, Bytes>, after: map<string, Bytes>) {
    && before.Keys <= after.Keys
    && forall k :: k in after ==> after[k] == if k in before then before[k] else ZERO
  }

  lemma StartAddsZero(s: System, found: Option<Peer>, other: string, deviceOk: bool)
    ensures OnlyAddsZero(s.device, FinishStart(s, found, other, deviceOk).0.device)
  {
  }

  lemma AddedZeroView(s: System, after: System, name: string)
    requires SameButFlags(s.table, after.table) && OnlyAddsZero(s.device, after.device)
    ensures View(after, name) == View(s, name)
  {
  }

  lemma StopView(s: System, params: Params, op: Op, name: string)
    requires Orderly(s) && '.' in params.serverIPv4 && op.StopOp?
    ensures View(Apply(s, params, op), name) == if LosesView(s, params, op, name) then ZERO else View(s, name)
  {
    SyncedView(s, params, op.junks, name);
    SyncOfOrderly(s, params, op.junks);
    SwitchIsFinish(s, params, op.name, op.junks, op.deviceOk);
    StoppedView(Sync(s, params, op.junks).value, op.name, op.deviceOk, name);
    ApplyStop(s, params, op);
  }

  lemma StartView(s: System, params: Params, op: Op, name: string)
    requires Orderly(s) && '.' in params.serverIPv4 && op.StartOp?
    ensures View(Apply(s, params, op), name) == if LosesView(s, params, op, name) then ZERO else View(s, name)
  {
    SyncedView(s, params, op.junks, name);
    SyncOfOrderly(s, params, op.junks);
    SwitchIsFinish(s, params, op.name, op.junks, op.deviceOk);
    StartedView(Sync(s, params, op.junks).value, op.name, op.deviceOk, name);
    ApplyStart(s, params, op);
  }

  lemma EnabledKeepsKey(table: Store.PeerTable, name: string)
    requires KeysUnique(table) && name in table
    ensures table[name].publicKey in DisabledKeys(table) <==> !table[name].enabled
  {
    if table[name].publicKey in DisabledKeys(table) {
      var n :| n in table && !table[n].enabled && table[n].publicKey == table[name].publicKey;
    }
  }

  lemma WithoutDisabledView(s: System, name: string)
    requires KeysUnique(s.table)
    ensures View(ApplyDisabled(s), name) == if name in s.table && !s.table[name].enabled then ZERO else View(s, name)
  {
    if name in s.table {
      EnabledKeepsKey(s.table, name);
    }
  }

  lemma ResumeView(s: System, params: Params, op: Op, name: string)
    requires Orderly(s) && '.' in params.serverIPv4 && op.ResumeOp?
    ensures View(Apply(s, params, op), name) == if LosesView(s, params, op, name) then ZERO else View(s, name)
  {
    SyncedView(s, params, op.junks, name);
    SyncOfOrderly(s, params, op.junks);
    WithoutDisabledView(Sync(s, params, op.junks).value, name);
    ApplyResume(s, params, op);
  }

  lemma AddedView(s: System, after: System, other: string, key: string, name: string)
    requires KeysUnique(s.table) && Adds(s, after, other, key) && key !in s.device
    requires forall n :: n in s.table ==> s.table[n].publicKey != key
    ensures View(after, name) == if name == other then ZERO else View(s, name)
  {
  }

  lemma CreateLoses(s: System, params: Params, op: Op, name: string)
    requires '.' in params.serverIPv4 && op.CreateOp?
    ensures LosesView(s, params, op, name) <==>
            IsLeftover(s, name) && op.name == name && CanCreate(s, params, name, op.deviceOk)
    ensures op.name == name && CanCreate(s, params, name, op.deviceOk) && !LosesView(s, params, op, name) ==>
              View(s, name) == ZERO
  {
  }

  lemma CreatedView(s: System, params: Params, name: string, actor: string, secrets: Secrets, deviceOk: bool, n: string)
    requires Orderly(s) && GoodParams(params) && UnusedSecrets(s, secrets)
    ensures View(Create(s, params, name, actor, secrets, deviceOk).0, n) ==
            if n == name && CanCreate(s, params, name, deviceOk) then ZERO else View(s, n)
  {
    if CanCreate(s, params, name, deviceOk) {
      CreateAdds(s, params, name, actor, secrets);
      AddedView(s, Create(s, params, name, actor, secrets, true).0, name, secrets.publicKey, n);
    } else {
      CreateAddsNothing(s, params, name, actor, secrets, deviceOk);
    }
  }

  lemma CreateView(s: System, params: Params, op: Op, name: string)
    requires Orderly(s) && GoodParams(params) && Ordinary(s, params, op) && op.CreateOp?
    ensures View(Apply(s, params, op), name) == if LosesView(s, params, op, name) then ZERO else View(s, name)
  {
    CreateLoses(s, params, op, name);
    CreatedView(s, params, op.name, op.actor, op.secrets, op.deviceOk, name);
    ApplyCreate(s, params, op);
  }

  lemma RevokedView(s: System, after: System, other: string, deviceOk: bool, name: string)
    requires KeysUnique(s.table) && Revokes(s, after, other, deviceOk)
    ensures View(after, name) == if name == other && deviceOk then ZERO else View(s, name)
  {
  }

  lemma RevokeView(s: System, params: Params, op: Op, name: string)
    requires Orderly(s) && '.' in params.serverIPv4 && op.RevokeOp?
    ensures View(Apply(s, params, op), name) == if LosesView(s, params, op, name) then ZERO else View(s, name)
  {
    RevokeKeepsOrderly(s, params, op.name, op.deviceOk);
    RevokedView(s, Revoke(s, params, op.name, op.deviceOk).0, op.name, op.deviceOk, name);
    ApplyRevoke(s, params, op);
  }

  lemma ReloadView(s: System, params: Params, op: Op, name: string)
    requires '.' in params.serverIPv4 && op.ReloadOp?
    ensures View(Apply(s, params, op), name) == ZERO
  {
  }

  lemma QuietView(s: System, params: Params, op: Op, name: string)
    requires '.' in params.serverIPv4 && Ordinary(s, params, op)
    requires op.SetLimitOp? || op.GetConfigOp?
    ensures View(Apply(s, params, op), name) == View(s, name)
  {
    if op.SetLimitOp? {
      SetLimitKeepsAgreement(s, op.name, op.limit);
      ApplySetLimit(s, params, op);
    } else {
      GetConfigKeepsAgreement(s, params, op.name, op.junk);
      ApplyGetConfig(s, params, op);
    }
  }

  /** From every orderly state, what any operation does to the counters under any
      name: it zeroes them or leaves them alone. */
  lemma ViewFollows(s: System, params: Params, op: Op, name: string)
    requires Orderly(s) && GoodParams(params) && Ordinary(s, params, op)
    ensures View(Apply(s, params, op), name) == if LosesView(s, params, op, name) then ZERO else View(s, name)
  {
    if op.CreateOp? {
      CreateView(s, params, op, name);
    } else if op.RevokeOp? {
      RevokeView(s, params, op, name);
    } else if op.StopOp? {
      StopView(s, params, op, name);
    } else if op.StartOp? {
      StartView(s, params, op, name);
    } else if op.SyncOp? {
      SyncedView(s, params, op.junks, name);
      ApplySync(s, params, op);
    } else if op.ResumeOp? {
      ResumeView(s, params, op, name);
    } else if op.ReloadOp? {
      ReloadView(s, params, op, name);
    } else {
      QuietView(s, params, op, name);
    }
  }

  // ---- the machine ---------------------------------------------------------

  /** The system and, for each name, its rows in the traffic tables. No peer
      operation touches those, not even the revoke of the name. */
  datatype World = World(system: System, rows: string -> Rows)

  /** A request or a restart, bytes moved by the device for a key, a pass of the
      collector with the failures of each position, or a month reset. */
  datatype Event =
    | Request(op: Op)
    | Transfer(key: string, rx: nat, tx: nat)
    | Pass(month: int, faults: nat -> Faults)
    | ClearMonth(month: int, secondDeleteFails: bool)

  function Happens(w: World, params: Params, e: Event): World
    requires '.' in params.serverIPv4
  {
    match e
    case Request(op) => w.(system := Apply(w.system, params, op))
    case Transfer(key, rx, tx) =>
      var device := w.system.device;
      if key !in device then w
      else w.(system := w.system.(device := device[key := device[key].Plus(Bytes(rx, tx))]))
    case Pass(month, faults) =>
      var peers, device := Parsed(w.system.conf), w.system.device;
      w.(rows := n => Collector.PassOver(w.rows(n), n, peers, device, month, faults))
    case ClearMonth(month, secondDeleteFails) =>
      w.(rows := n => ResetMonth(w.rows(n), month, secondDeleteFails))
  }

  function Unfold(w: World, params: Params, events: seq<Event>): World
    requires '.' in params.serverIPv4
    decreases |events|
  {
    if events == [] then w else Unfold(Happens(w, params, events[0]), params, events[1..])
  }

  ghost predicate AllPossible(w: World, params: Params, events: seq<Event>)
    requires '.' in params.serverIPv4
    decreases |events|
  {
    events == [] ||
    ((events[0].Request? ==> Ordinary(w.system, params, events[0].op)) &&
     AllPossible(Happens(w, params, events[0]), params, events[1..]))
  }

  /** What an event is to the device, seen under one name. */
  ghost function StepsUnder(s: System, params: Params, e: Event, name: string): seq<DeviceStep>
    requires '.' in params.serverIPv4
  {
    match e
    case Request(op) => if LosesView(s, params, op, name) then [Reset] else []
    case Transfer(key, rx, tx) =>
      if name in s.table && s.table[name].publicKey == key && key in s.device then [Move(rx, tx)] else []
    case Pass(_, _) => []
    case ClearMonth(_, _) => []
  }

  /** The bytes that the device moves under one name over a run. */
  ghost function MovedUnder(w: World, params: Params, events: seq<Event>, name: string): Bytes
    requires '.' in params.serverIPv4
    decreases |events|
  {
    if events == [] then ZERO
    else Moved(StepsUnder(w.system, params, events[0], name))
           .Plus(MovedUnder(Happens(w, params, events[0]), params, events[1..], name))
  }

  lemma OneStep(c: Bytes, step: DeviceStep)
    ensures CountersAfter(c, [step]) == if step.Reset? then ZERO else c.Plus(MovedBy(step))
  {
    assert [step][1..] == [];
  }

  lemma TransferIsMove(s: System, params: Params, key: string, rx: nat, tx: nat, name: string)
    requires Orderly(s) && '.' in params.serverIPv4 && key in s.device
    ensures var after := s.(device := s.device[key := s.device[key].Plus(Bytes(rx, tx))]);
            && Orderly(after)
            && View(after, name) == CountersAfter(View(s, name), StepsUnder(s, params, Transfer(key, rx, tx), name))
  {
    OneStep(View(s, name), Move(rx, tx));
  }

  lemma RequestIsResetOrNothing(s: System, params: Params, op: Op, name: string)
    requires Orderly(s) && GoodParams(params) && Ordinary(s, params, op)
    ensures var after := Apply(s, params, op);
            && Orderly(after)
            && View(after, name) == CountersAfter(View(s, name), StepsUnder(s, params, Request(op), name))
  {
    StepStaysOrderly(s, params, op);
    ViewFollows(s, params, op, name);
    OneStep(View(s, name), Reset);
  }

  /** Every event keeps the system orderly, and moves the counters under a name as
      its steps say. */
  lemma WorldStep(w: World, params: Params, e: Event, name: string)
    requires Orderly(w.system) && GoodParams(params) && (e.Request? ==> Ordinary(w.system, params, e.op))
    ensures var after := Happens(w, params, e);
            && Orderly(after.system)
            && View(after.system, name) == CountersAfter(View(w.system, name), StepsUnder(w.system, params, e, name))
  {
    match e
    case Request(op) => RequestIsResetOrNothing(w.system, params, op, name);
    case Transfer(key, rx, tx) =>
      if key in w.system.device {
        TransferIsMove(w.system, params, key, rx, tx, name);
      }
    case Pass(month, faults) =>
    case ClearMonth(month, fails) =>
  }

  // ---- the history of one name ---------------------------------------------

  /** A sample taken after these steps, or a reset of a month. */
  datatype Visit =
    | Visit(steps: seq<DeviceStep>, month: int, faults: Faults)
    | Cleared(month: int, secondDeleteFails: bool)

  function Position(peers: seq<Peer>, name: string): (k: nat)
    ensures k <= |peers| && (k < |peers| ==> peers[k].name == name)
    ensures forall i :: 0 <= i < k ==> peers[i].name != name
    decreases |peers|
  {
    if peers == [] || peers[0].name == name then 0 else 1 + Position(peers[1..], name)
  }

  /** The configuration has the name and the device its key. */
  predicate IsSampled(s: System, name: string) {
    var k := Position(Parsed(s.conf), name);
    k < |Parsed(s.conf)| && Parsed(s.conf)[k].publicKey in s.device
  }

  lemma PassSamples(w: World, params: Params, month: int, faults: nat -> Faults, name: string)
    requires Orderly(w.system) && '.' in params.serverIPv4
    ensures var k := Position(Parsed(w.system.conf), name);
            Happens(w, params, Pass(month, faults)).rows(name) ==
            if IsSampled(w.system, name) then Collect(w.rows(name), month, View(w.system, name), faults(k))
            else w.rows(name)
  {
    var peers := Parsed(w.system.conf);
    var k := Position(peers, name);
    if k < |peers| {
      Collector.PassIsPerPeer(w.rows(name), peers, k, w.system.device, month, faults);
    } else {
      Collector.PassSkipsOthers(w.rows(name), name, peers, w.system.device, month, faults);
    }
  }

  /** The visits to one name, and the steps since the last of them. */
  ghost function History(w: World, params: Params, events: seq<Event>, name: string, pending: seq<DeviceStep>)
    : (seq<Visit>, seq<DeviceStep>)
    requires '.' in params.serverIPv4
    decreases |events|
  {
    if events == [] then ([], pending)
    else
      var e, after := events[0], Happens(w, params, events[0]);
      match e
      case Pass(month, faults) =>
        if IsSampled(w.system, name) then
          var (visits, rest) := History(after, params, events[1..], name, []);
          ([Visit(pending, month, faults(Position(Parsed(w.system.conf), name)))] + visits, rest)
        else History(after, params, events[1..], name, pending)
      case ClearMonth(month, fails) =>
        var (visits, rest) := History(after, params, events[1..], name, pending);
        ([Cleared(month, fails)] + visits, rest)
      case _ => History(after, params, events[1..], name, pending + StepsUnder(w.system, params, e, name))
  }

  /** The rows after a history that starts at the counters `counters`. */
  function Replay(rows: Rows, counters: Bytes, visits: seq<Visit>): Rows
    decreases |visits|
  {
    if visits == [] then rows
    else
      match visits[0]
      case Visit(steps, month, f) =>
        var cur := CountersAfter(counters, steps);
        Replay(Collect(rows, month, cur, f), cur, visits[1..])
      case Cleared(month, fails) => Replay(ResetMonth(rows, month, fails), counters, visits[1..])
  }

  function VisitsMoved(visits: seq<Visit>): Bytes
    decreases |visits|
  {
    if visits == [] then ZERO
    else (if visits[0].Visit? then Moved(visits[0].steps) else ZERO).Plus(VisitsMoved(visits[1..]))
  }

  lemma ShiftMoved(pending: Bytes, steps: Bytes, visits: Bytes, rest: Bytes, under: Bytes)
    requires visits.Plus(rest) == pending.Plus(steps).Plus(under)
    ensures visits.Plus(rest) == pending.Plus(steps.Plus(under))
  {
  }

  /** The history of the name tells its rows and every byte that moved under it. */
  ghost predicate Told(w: World, params: Params, events: seq<Event>, name: string, counters: Bytes,
                       pending: seq<DeviceStep>)
    requires '.' in params.serverIPv4
  {
    var (visits, rest) := History(w, params, events, name, pending);
    && Unfold(w, params, events).rows(name) == Replay(w.rows(name), counters, visits)
    && VisitsMoved(visits).Plus(Moved(rest)) == Moved(pending).Plus(MovedUnder(w, params, events, name))
  }

  lemma SampleIsTold(w: World, params: Params, events: seq<Event>, name: string, counters: Bytes,
                     pending: seq<DeviceStep>)
    requires Orderly(w.system) && '.' in params.serverIPv4
    requires events != [] && events[0].Pass? && IsSampled(w.system, name)
    requires View(w.system, name) == CountersAfter(counters, pending)
    requires Told(Happens(w, params, events[0]), params, events[1..], name, View(w.system, name), [])
    ensures Told(w, params, events, name, counters, pending)
  {
    var e, after, later := events[0], Happens(w, params, events[0]), events[1..];
    PassSamples(w, params, e.month, e.faults, name);
    var (visits, rest) := History(after, params, later, name, []);
    var visit := Visit(pending, e.month, e.faults(Position(Parsed(w.system.conf), name)));
    assert History(w, params, events, name, pending) == ([visit] + visits, rest);
    assert ([visit] + visits)[1..] == visits;
    assert Replay(w.rows(name), counters, [visit] + visits) == Replay(after.rows(name), View(w.system, name), visits);
    PlusZero(MovedUnder(after, params, later, name));
    PlusAssociative(Moved(pending), VisitsMoved(visits), Moved(rest));
  }

  lemma ClearIsTold(w: World, params: Params, events: seq<Event>, name: string, counters: Bytes,
                    pending: seq<DeviceStep>)
    requires '.' in params.serverIPv4 && events != [] && events[0].ClearMonth?
    requires Told(Happens(w, params, events[0]), params, events[1..], name, counters, pending)
    ensures Told(w, params, events, name, counters, pending)
  {
    var e, after, later := events[0], Happens(w, params, events[0]), events[1..];
    var (visits, rest) := History(after, params, later, name, pending);
    assert ([Cleared(e.month, e.secondDeleteFails)] + visits)[1..] == visits;
    PlusZero(MovedUnder(after, params, later, name));
    PlusZero(VisitsMoved(visits));
  }

  lemma StepsAreTold(w: World, params: Params, events: seq<Event>, name: string, counters: Bytes,
                     pending: seq<DeviceStep>)
    requires Orderly(w.system) && '.' in params.serverIPv4
    requires events != [] && !events[0].ClearMonth? && (events[0].Pass? ==> !IsSampled(w.system, name))
    requires var steps := StepsUnder(w.system, params, events[0], name);
             Told(Happens(w, params, events[0]), params, events[1..], name, counters, pending + steps)
    ensures Told(w, params, events, name, counters, pending)
  {
    var e, after, later := events[0], Happens(w, params, events[0]), events[1..];
    var steps := StepsUnder(w.system, params, e, name);
    if e.Pass? {
      PassSamples(w, params, e.month, e.faults, name);
      assert pending + steps == pending;
    }
    FaultySoundness.MovedAppend(pending, steps);
    var (visits, rest) := History(after, params, later, name, pending + steps);
    ShiftMoved(Moved(pending), Moved(steps), VisitsMoved(visits), Moved(rest), MovedUnder(after, params, later, name));
  }

  /** Over every run, restarts and forgotten revocations included, the history of
      every name is told. */
  lemma {:induction false} HistoryIsTrue(w: World, params: Params, events: seq<Event>, name: string, counters: Bytes,
                                         pending: seq<DeviceStep>)
    requires Orderly(w.system) && GoodParams(params) && AllPossible(w, params, events)
    requires View(w.system, name) == CountersAfter(counters, pending)
    ensures Told(w, params, events, name, counters, pending) && Orderly(Unfold(w, params, events).system)
    decreases |events|
  {
    if events == [] {
      PlusZero(Moved(pending));
    } else {
      var e, after, later := events[0], Happens(w, params, events[0]), events[1..];
      var steps := StepsUnder(w.system, params, e, name);
      WorldStep(w, params, e, name);
      FaultySoundness.CountersAppend(counters, pending, steps);
      if e.Pass? && IsSampled(w.system, name) {
        HistoryIsTrue(after, params, later, name, View(w.system, name), []);
        SampleIsTold(w, params, events, name, counters, pending);
      } else if e.ClearMonth? {
        HistoryIsTrue(after, params, later, name, counters, pending);
        ClearIsTold(w, params, events, name, counters, pending);
      } else {
        HistoryIsTrue(after, params, later, name, counters, pending + steps);
        StepsAreTold(w, params, events, name, counters, pending);
      }
    }
  }
}
