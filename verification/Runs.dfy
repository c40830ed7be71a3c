/** Runs of operations: what every run keeps, start-up, and failed revocations. */
module Runs {
  import opened Common
  import opened WgConf
  import opened ConfEdit
  import opened Junk
  import Traffic
  import Store
  import SyncTable
  import ClientFile
  import opened PeerSystem
  import opened Consistency
  import opened Lifecycle
  import opened Leftovers

  /** A request, of which the device may refuse a create, a revoke, a stop or a
      start; or the interface loads the configuration again; or the program starts. */
  datatype Op =
    | CreateOp(name: string, actor: string, secrets: Secrets, deviceOk: bool)
    | RevokeOp(name: string, deviceOk: bool)
    | StopOp(name: string, junks: nat -> JunkParams, deviceOk: bool)
    | StartOp(name: string, junks: nat -> JunkParams, deviceOk: bool)
    | SetLimitOp(name: string, limit: nat)
    | SyncOp(junks: nat -> JunkParams)
    | GetConfigOp(name: string, junk: JunkParams)
    | ReloadOp
    | ResumeOp(junks: nat -> JunkParams)

  /** A restart of the interface or the program. */
  function Restarted(s: System, params: Params, op: Op): System
    requires op.ReloadOp? || op.ResumeOp?
  {
    if op.ReloadOp? then Reload(s) else Resume(s, params, op.junks)
  }

  function Apply(s: System, params: Params, op: Op): System
    requires '.' in params.serverIPv4
  {
    match op
    case CreateOp(name, actor, secrets, deviceOk) => Create(s, params, name, actor, secrets, deviceOk).0
    case RevokeOp(name, deviceOk) => Revoke(s, params, name, deviceOk).0
    case StopOp(name, junks, deviceOk) => Stop(s, params, name, junks, deviceOk).0
    case StartOp(name, junks, deviceOk) => Start(s, params, name, junks, deviceOk).0
    case SetLimitOp(name, limit) => SetLimit(s, name, limit).0
    case SyncOp(junks) => (match Sync(s, params, junks) case Ok(synced) => synced case Err(_) => s)
    case GetConfigOp(name, junk) => GetConfig(s, params, name, junk).0
    case _ => Restarted(s, params, op)
  }

  // What each operation is, one lemma each: the proofs below use these equations
  // instead of the nine-way case distinction.

  lemma ApplyCreate(s: System, params: Params, op: Op)
    requires '.' in params.serverIPv4 && op.CreateOp?
    ensures Apply(s, params, op) == Create(s, params, op.name, op.actor, op.secrets, op.deviceOk).0
  {
  }

  lemma ApplyRevoke(s: System, params: Params, op: Op)
    requires '.' in params.serverIPv4 && op.RevokeOp?
    ensures Apply(s, params, op) == Revoke(s, params, op.name, op.deviceOk).0
  {
  }

  lemma ApplyStop(s: System, params: Params, op: Op)
    requires '.' in params.serverIPv4 && op.StopOp?
    ensures Apply(s, params, op) == Stop(s, params, op.name, op.junks, op.deviceOk).0
  {
  }

  lemma ApplyStart(s: System, params: Params, op: Op)
    requires '.' in params.serverIPv4 && op.StartOp?
    ensures Apply(s, params, op) == Start(s, params, op.name, op.junks, op.deviceOk).0
  {
  }

  lemma ApplySwitch(s: System, params: Params, op: Op)
    requires '.' in params.serverIPv4 && (op.StopOp? || op.StartOp?)
    ensures Apply(s, params, op) == if op.StopOp? then Stop(s, params, op.name, op.junks, op.deviceOk).0
                                    else Start(s, params, op.name, op.junks, op.deviceOk).0
  {
    if op.StopOp? {
      ApplyStop(s, params, op);
    } else {
      ApplyStart(s, params, op);
    }
  }

  lemma ApplySetLimit(s: System, params: Params, op: Op)
    requires '.' in params.serverIPv4 && op.SetLimitOp?
    ensures Apply(s, params, op) == SetLimit(s, op.name, op.limit).0
  {
  }

  lemma ApplySync(s: System, params: Params, op: Op)
    requires '.' in params.serverIPv4 && op.SyncOp? && Sync(s, params, op.junks).Ok?
    ensures Apply(s, params, op) == Sync(s, params, op.junks).value
  {
  }

  lemma ApplyGetConfig(s: System, params: Params, op: Op)
    requires '.' in params.serverIPv4 && op.GetConfigOp?
    ensures Apply(s, params, op) == GetConfig(s, params, op.name, op.junk).0
  {
  }

  lemma ApplyRestart(s: System, params: Params, op: Op)
    requires '.' in params.serverIPv4 && (op.ReloadOp? || op.ResumeOp?)
    ensures Apply(s, params, op) == Restarted(s, params, op)
  {
  }

  lemma RestartedReload(s: System, params: Params, op: Op)
    requires op.ReloadOp?
    ensures Restarted(s, params, op) == Reload(s)
  {
  }

  lemma RestartedResume(s: System, params: Params, op: Op)
    requires op.ResumeOp?
    ensures Restarted(s, params, op) == Resume(s, params, op.junks)
  {
  }

  lemma ApplyReload(s: System, params: Params, op: Op)
    requires '.' in params.serverIPv4 && op.ReloadOp?
    ensures Apply(s, params, op) == Reload(s)
  {
    ApplyRestart(s, params, op);
    RestartedReload(s, params, op);
  }

  lemma ApplyResume(s: System, params: Params, op: Op)
    requires '.' in params.serverIPv4 && op.ResumeOp?
    ensures Apply(s, params, op) == Resume(s, params, op.junks)
  {
    ApplyRestart(s, params, op);
    RestartedResume(s, params, op);
  }

  function Run(s: System, params: Params, ops: seq<Op>): System
    requires '.' in params.serverIPv4
    decreases |ops|
  {
    if ops == [] then s else Run(Apply(s, params, ops[0]), params, ops[1..])
  }

  /** Creates draw new keys, and a configuration asked for is that of a name on
      record or not one a stray client file would be turned into. */
  ghost predicate Ordinary(s: System, params: Params, op: Op) {
    && (op.CreateOp? ==> UnusedSecrets(s, op.secrets))
    && (op.GetConfigOp? ==> op.name in s.table || StrayIsHarmless(s, params, op.name))
  }

  ghost predicate AllOrdinary(s: System, params: Params, ops: seq<Op>)
    requires '.' in params.serverIPv4
    decreases |ops|
  {
    ops == [] || (Ordinary(s, params, ops[0]) && AllOrdinary(Apply(s, params, ops[0]), params, ops[1..]))
  }

  /** A text without peer blocks, an empty table and an idle device are consistent. */
  lemma FreshInstallIsConsistent(conf: string, files: ClientFile.Files)
    requires Parsed(conf) == []
    ensures Consistent(System(conf, map[], map[], files))
  {
    ConfDoc.ParsedIsBlocks(conf);
  }

  // ---- what every run keeps ------------------------------------------------

  lemma SwitchStepStaysOrderly(s: System, params: Params, op: Op)
    requires Orderly(s) && '.' in params.serverIPv4 && (op.StopOp? || op.StartOp?)
    ensures Orderly(Apply(s, params, op))
  {
    SwitchesKeepOrderly(s, params, op.name, op.junks, op.deviceOk);
    ApplySwitch(s, params, op);
  }

  lemma SyncStepStaysOrderly(s: System, params: Params, op: Op)
    requires Orderly(s) && '.' in params.serverIPv4 && op.SyncOp?
    ensures Orderly(Apply(s, params, op))
  {
    SyncOfOrderly(s, params, op.junks);
    ApplySync(s, params, op);
  }

  lemma ResumeStepStaysOrderly(s: System, params: Params, op: Op)
    requires Orderly(s) && '.' in params.serverIPv4 && op.ResumeOp?
    ensures Orderly(Apply(s, params, op))
  {
    ResumeIsSync(s, params, op.junks);
    ApplyResume(s, params, op);
  }

  lemma CreateStepStaysOrderly(s: System, params: Params, op: Op)
    requires Orderly(s) && GoodParams(params) && Ordinary(s, params, op) && op.CreateOp?
    ensures Orderly(Apply(s, params, op))
  {
    CreateKeepsOrderly(s, params, op.name, op.actor, op.secrets, op.deviceOk);
    ApplyCreate(s, params, op);
  }

  lemma OtherStepStaysOrderly(s: System, params: Params, op: Op)
    requires Orderly(s) && '.' in params.serverIPv4 && Ordinary(s, params, op)
    requires op.RevokeOp? || op.SetLimitOp? || op.GetConfigOp? || op.ReloadOp?
    ensures Orderly(Apply(s, params, op))
  {
    if op.RevokeOp? {
      RevokeKeepsOrderly(s, params, op.name, op.deviceOk);
      ApplyRevoke(s, params, op);
    } else if op.SetLimitOp? {
      SetLimitKeepsAgreement(s, op.name, op.limit);
      ApplySetLimit(s, params, op);
    } else if op.GetConfigOp? {
      GetConfigKeepsAgreement(s, params, op.name, op.junk);
      ApplyGetConfig(s, params, op);
    } else {
      ApplyReload(s, params, op);
    }
  }

  lemma StepStaysOrderly(s: System, params: Params, op: Op)
    requires Orderly(s) && GoodParams(params) && Ordinary(s, params, op)
    ensures Orderly(Apply(s, params, op))
  {
    if op.CreateOp? {
      CreateStepStaysOrderly(s, params, op);
    } else if op.StopOp? || op.StartOp? {
      SwitchStepStaysOrderly(s, params, op);
    } else if op.SyncOp? {
      SyncStepStaysOrderly(s, params, op);
    } else if op.ResumeOp? {
      ResumeStepStaysOrderly(s, params, op);
    } else {
      OtherStepStaysOrderly(s, params, op);
    }
  }

  /** Every run keeps the state orderly, with refused revocations, syncs that forget
      them and restarts anywhere in it: every configured peer has its row, and
      configured names, keys and IPv4 addresses stay pairwise distinct. */
  lemma {:induction false} RunsStayOrderly(s: System, params: Params, ops: seq<Op>)
    requires Orderly(s) && GoodParams(params) && AllOrdinary(s, params, ops)
    ensures Orderly(Run(s, params, ops))
    decreases |ops|
  {
    if ops != [] {
      StepStaysOrderly(s, params, ops[0]);
      RunsStayOrderly(Apply(s, params, ops[0]), params, ops[1..]);
    }
  }

  // ---- which runs keep account of every key --------------------------------

  /** The rows keep account of the keys on the device: no create takes over an
      enabled row left over, no sync drops one, and no reload puts a disabled peer
      on the device. */
  ghost predicate KeepsAccount(s: System, params: Params, op: Op)
    requires '.' in params.serverIPv4
  {
    && (op.CreateOp? ==> !TakesOverEnabled(s, params, op.name, op.deviceOk))
    && (op.StopOp? || op.StartOp? || op.SyncOp? || op.ReloadOp? || op.ResumeOp? ==> NoEnabledLeftover(s))
    && (op.ReloadOp? ==> AllConfiguredEnabled(s))
  }

  lemma SwitchStepIsTrackedIff(s: System, params: Params, op: Op)
    requires Tracked(s) && '.' in params.serverIPv4 && (op.StopOp? || op.StartOp?)
    ensures Tracked(Apply(s, params, op)) <==> KeepsAccount(s, params, op)
  {
    SwitchesKeepTrackedIff(s, params, op.name, op.junks, op.deviceOk);
    ApplySwitch(s, params, op);
  }

  lemma SyncStepIsTrackedIff(s: System, params: Params, op: Op)
    requires Tracked(s) && '.' in params.serverIPv4 && op.SyncOp?
    ensures Tracked(Apply(s, params, op)) <==> KeepsAccount(s, params, op)
  {
    SyncOfTracked(s, params, op.junks);
    ApplySync(s, params, op);
  }

  lemma ResumeStepIsTrackedIff(s: System, params: Params, op: Op)
    requires Tracked(s) && '.' in params.serverIPv4 && op.ResumeOp?
    ensures Tracked(Apply(s, params, op)) <==> KeepsAccount(s, params, op)
  {
    ResumeKeepsTrackedIff(s, params, op.junks);
    ApplyResume(s, params, op);
  }

  lemma CreateStepIsTrackedIff(s: System, params: Params, op: Op)
    requires Tracked(s) && GoodParams(params) && Ordinary(s, params, op) && op.CreateOp?
    ensures Tracked(Apply(s, params, op)) <==> KeepsAccount(s, params, op)
  {
    CreateKeepsTrackedIff(s, params, op.name, op.actor, op.secrets, op.deviceOk);
    ApplyCreate(s, params, op);
  }

  lemma OtherStepStaysTracked(s: System, params: Params, op: Op)
    requires Tracked(s) && '.' in params.serverIPv4 && Ordinary(s, params, op)
    requires op.RevokeOp? || op.SetLimitOp? || op.GetConfigOp?
    ensures Tracked(Apply(s, params, op)) && KeepsAccount(s, params, op)
  {
    if op.RevokeOp? {
      RevokeKeepsTracked(s, params, op.name, op.deviceOk);
      ApplyRevoke(s, params, op);
    } else if op.SetLimitOp? {
      SetLimitKeepsAgreement(s, op.name, op.limit);
      ApplySetLimit(s, params, op);
    } else {
      GetConfigKeepsAgreement(s, params, op.name, op.junk);
      ApplyGetConfig(s, params, op);
    }
  }

  lemma ReloadStepIsTrackedIff(s: System, params: Params, op: Op)
    requires Tracked(s) && '.' in params.serverIPv4 && op.ReloadOp?
    ensures Tracked(Apply(s, params, op)) <==> KeepsAccount(s, params, op)
  {
    ReloadKeepsTrackedIff(s);
    ApplyReload(s, params, op);
  }

  /** Every operation, refused by the device or not, keeps account of every key
      exactly when it is none of the few that lose one. */
  lemma StepKeepsTrackedIff(s: System, params: Params, op: Op)
    requires Tracked(s) && GoodParams(params) && Ordinary(s, params, op)
    ensures Tracked(Apply(s, params, op)) <==> KeepsAccount(s, params, op)
  {
    if op.CreateOp? {
      CreateStepIsTrackedIff(s, params, op);
    } else if op.StopOp? || op.StartOp? {
      SwitchStepIsTrackedIff(s, params, op);
    } else if op.SyncOp? {
      SyncStepIsTrackedIff(s, params, op);
    } else if op.ResumeOp? {
      ResumeStepIsTrackedIff(s, params, op);
    } else if op.ReloadOp? {
      ReloadStepIsTrackedIff(s, params, op);
    } else {
      OtherStepStaysTracked(s, params, op);
    }
  }

  // ---- start-up ------------------------------------------------------------

  lemma ReloadedKeys(peers: seq<Peer>, table: Store.PeerTable)
    requires Distinct(peers) && TableOk(table, peers)
    ensures KeysOf(peers) - DisabledKeys(table) == EnabledKeys(table)
  {
    forall k | k in KeysOf(peers) && k !in DisabledKeys(table)
      ensures k in EnabledKeys(table)
    {
      var i :| 0 <= i < |peers| && peers[i].publicKey == k;
      assert peers[i].name in table && table[peers[i].name].publicKey == k;
    }
    forall k | k in EnabledKeys(table)
      ensures k in KeysOf(peers) && k !in DisabledKeys(table)
    {
      var n :| n in table && table[n].enabled && table[n].publicKey == k;
      assert n in NamesOf(peers);
      var i :| 0 <= i < |peers| && peers[i].name == n;
      AgreementIsUnique(table, peers);
    }
  }

  lemma SyncedReload(table: Store.PeerTable, files: ClientFile.Files, dirs: seq<string>, peers: seq<Peer>,
                     junk: nat -> JunkParams)
    requires Distinct(peers) && SyncedTable(table, files, dirs, peers, junk).Some?
    ensures var after := SyncedTable(table, files, dirs, peers, junk).value;
            TableOk(after, peers) && KeysOf(peers) - DisabledKeys(after) == EnabledKeys(after)
  {
    var after := SyncedTable(table, files, dirs, peers, junk).value;
    assert TableOk(after, peers) by { SyncAgrees(table, files, dirs, peers, junk); }
    ReloadedKeys(peers, after);
  }

  lemma StartupAfterSync(s: System, params: Params, junk: nat -> JunkParams)
    requires ConfOk(s.conf) && Sync(Reload(s), params, junk).Ok?
    ensures Consistent(Startup(s, params, junk))
  {
    var peers := Parsed(s.conf);
    SyncedReload(s.table, s.files, params.clientDirs, peers, junk);
    assert Reload(s).device.Keys == KeysOf(peers);
  }

  lemma ConsistentIsClashFree(s: System, params: Params, junk: nat -> JunkParams)
    requires Consistent(s)
    ensures SyncTable.ClashFree(s.table, SyncRecords(s.files, params.clientDirs, Parsed(s.conf), junk))
  {
    ConsistentIff(s);
    AgreementIsClashFree(s.table, s.files, params.clientDirs, Parsed(s.conf), junk);
  }

  /** Whatever table is found, start-up ends in a consistent state exactly when
      no configured key is held under a name that the sync has not yet written.
      Peers that were stopped stay off the device. */
  lemma StartupRestoresConsistencyIff(s: System, params: Params, junk: nat -> JunkParams)
    requires ConfOk(s.conf)
    ensures Consistent(Startup(s, params, junk)) <==>
            SyncTable.ClashFree(s.table, SyncRecords(s.files, params.clientDirs, Parsed(s.conf), junk))
  {
    SyncIsExact(s.table, s.files, params.clientDirs, Parsed(s.conf), junk);
    if Sync(Reload(s), params, junk).Ok? {
      StartupAfterSync(s, params, junk);
    } else if Consistent(Startup(s, params, junk)) {
      ConsistentIsClashFree(Startup(s, params, junk), params, junk);
    }
  }

  /** Whatever happened before, a restart restores consistency from every orderly
      state: it also clears the keys that were forgotten on the device. */
  lemma RestartRestoresConsistency(s: System, params: Params, junk: nat -> JunkParams)
    requires Orderly(s)
    ensures Consistent(Startup(s, params, junk))
  {
    AgreementIsClashFree(s.table, s.files, params.clientDirs, Parsed(s.conf), junk);
    StartupRestoresConsistencyIff(s, params, junk);
  }

  /** After a restart the text and the files are as before, each enabled peer counts
      from zero and no disabled one is on the device; flags and keys are those on
      record. */
  lemma RestartStartsFromZero(s: System, params: Params, junk: nat -> JunkParams, name: string)
    requires Orderly(s)
    ensures var after := Startup(s, params, junk);
            && after.conf == s.conf && after.files == s.files
            && (name in after.table <==> name in NamesOf(Parsed(s.conf)))
            && (name in after.table ==>
                  && name in s.table && after.table[name].enabled == s.table[name].enabled
                  && var key := after.table[name].publicKey;
                  && key == s.table[name].publicKey
                  && (key in after.device <==> after.table[name].enabled)
                  && (key in after.device ==> after.device[key] == Traffic.ZERO))
  {
    var loaded, after := Reload(s), Startup(s, params, junk);
    RestartRestoresConsistency(s, params, junk);
    SyncOfOrderly(loaded, params, junk);
    ResumeIsSync(loaded, params, junk);
    if name in after.table {
      DisabledKeyNotEnabled(after.table, Parsed(s.conf), name);
      assert after.table[name].enabled ==> after.table[name].publicKey in EnabledKeys(after.table);
    }
  }

  // ---- runs in which refused revocations are retried -----------------------

  /** `pending` are the names whose revocation the device refused and has not
      accepted since. Until it does there is no sync, stop, start or program start,
      and no create of that name. An interface that reloads is followed by a program
      start, which settles everything. */
  predicate Disciplined(ops: seq<Op>, pending: set<string>)
    decreases |ops|
  {
    ops == [] ||
    match ops[0]
    case RevokeOp(name, ok) => Disciplined(ops[1..], if ok then pending - {name} else pending + {name})
    case CreateOp(name, _, _, _) => name !in pending && Disciplined(ops[1..], pending)
    case SetLimitOp(_, _) => Disciplined(ops[1..], pending)
    case GetConfigOp(_, _) => Disciplined(ops[1..], pending)
    case ReloadOp => |ops| >= 2 && ops[1].ResumeOp? && Disciplined(ops[2..], {})
    case _ => pending == {} && Disciplined(ops[1..], pending)
  }

  function PendingAfter(ops: seq<Op>, pending: set<string>): set<string>
    decreases |ops|
  {
    if ops == [] then pending
    else
      match ops[0]
      case RevokeOp(name, ok) => PendingAfter(ops[1..], if ok then pending - {name} else pending + {name})
      case ReloadOp => PendingAfter(ops[1..], {})
      case _ => PendingAfter(ops[1..], pending)
  }

  ghost predicate LeftoversAmong(s: System, pending: set<string>) {
    forall n :: IsLeftover(s, n) ==> n in pending
  }

  lemma SyncLeavesNone(s: System, params: Params, op: Op)
    requires Orderly(s) && '.' in params.serverIPv4 && op.SyncOp?
    ensures LeftoversAmong(Apply(s, params, op), {})
  {
    SyncOfOrderly(s, params, op.junks);
    ApplySync(s, params, op);
  }

  lemma ResumeLeavesNone(s: System, params: Params, op: Op)
    requires Orderly(s) && '.' in params.serverIPv4 && op.ResumeOp?
    ensures LeftoversAmong(Apply(s, params, op), {})
  {
    SyncOfOrderly(s, params, op.junks);
    ResumeIsSync(s, params, op.junks);
    ApplyResume(s, params, op);
  }

  lemma SwitchLeavesNone(s: System, params: Params, op: Op)
    requires Orderly(s) && '.' in params.serverIPv4 && (op.StopOp? || op.StartOp?)
    ensures LeftoversAmong(Apply(s, params, op), {})
  {
    SyncOfOrderly(s, params, op.junks);
    var synced := Sync(s, params, op.junks).value;
    SwitchIsFinish(s, params, op.name, op.junks, op.deviceOk);
    SwitchesChangeFlags(synced, FindPeer(Parsed(s.conf), op.name), op.name, op.deviceOk);
    ApplySwitch(s, params, op);
  }

  /** The names still pending after one operation. */
  function StillPending(op: Op, pending: set<string>): set<string> {
    if !op.RevokeOp? then pending
    else if op.deviceOk then pending - {op.name} else pending + {op.name}
  }

  lemma LeftoversFollow(s: System, params: Params, op: Op, pending: set<string>)
    requires Orderly(s) && GoodParams(params) && Ordinary(s, params, op) && LeftoversAmong(s, pending)
    requires !op.ReloadOp? && (op.SyncOp? || op.ResumeOp? || op.StopOp? || op.StartOp? ==> pending == {})
    ensures LeftoversAmong(Apply(s, params, op), StillPending(op, pending))
  {
    if op.RevokeOp? {
      RevokeLeaves(s, params, op.name, op.deviceOk, pending);
      ApplyRevoke(s, params, op);
    } else if op.CreateOp? || op.SetLimitOp? || op.GetConfigOp? {
      OthersLeave(s, params, op, pending);
    } else if op.SyncOp? {
      SyncLeavesNone(s, params, op);
    } else if op.ResumeOp? {
      ResumeLeavesNone(s, params, op);
    } else {
      SwitchLeavesNone(s, params, op);
    }
  }

  lemma PendingKeepsAccount(s: System, params: Params, op: Op, pending: set<string>)
    requires '.' in params.serverIPv4 && LeftoversAmong(s, pending) && !op.ReloadOp?
    requires op.CreateOp? ==> op.name !in pending
    requires op.SyncOp? || op.ResumeOp? || op.StopOp? || op.StartOp? ==> pending == {}
    ensures KeepsAccount(s, params, op)
  {
    if op.CreateOp? {
      assert !IsLeftover(s, op.name);
    }
  }

  lemma OthersLeave(s: System, params: Params, op: Op, pending: set<string>)
    requires Orderly(s) && GoodParams(params) && Ordinary(s, params, op) && LeftoversAmong(s, pending)
    requires op.CreateOp? || op.SetLimitOp? || op.GetConfigOp?
    ensures LeftoversAmong(Apply(s, params, op), pending)
  {
    if op.CreateOp? {
      CreateKeepsOrderly(s, params, op.name, op.actor, op.secrets, op.deviceOk);
      ApplyCreate(s, params, op);
    } else if op.SetLimitOp? {
      SetLimitKeepsAgreement(s, op.name, op.limit);
      ApplySetLimit(s, params, op);
    } else {
      GetConfigKeepsAgreement(s, params, op.name, op.junk);
      ApplyGetConfig(s, params, op);
    }
  }

  lemma RevokeLeaves(s: System, params: Params, name: string, ok: bool, pending: set<string>)
    requires Orderly(s) && LeftoversAmong(s, pending)
    ensures LeftoversAmong(Revoke(s, params, name, ok).0, if ok then pending - {name} else pending + {name})
  {
    RevokeKeepsOrderly(s, params, name, ok);
  }

  /** One step of a disciplined run that does not begin with a reload. */
  lemma DisciplinedStep(s: System, params: Params, ops: seq<Op>, pending: set<string>)
      returns (left: set<string>)
    requires Tracked(s) && GoodParams(params) && LeftoversAmong(s, pending)
    requires ops != [] && !ops[0].ReloadOp? && Ordinary(s, params, ops[0]) && Disciplined(ops, pending)
    ensures Tracked(Apply(s, params, ops[0])) && LeftoversAmong(Apply(s, params, ops[0]), left)
    ensures Disciplined(ops[1..], left) && PendingAfter(ops, pending) == PendingAfter(ops[1..], left)
  {
    left := StillPending(ops[0], pending);
    LeftoversFollow(s, params, ops[0], pending);
    PendingKeepsAccount(s, params, ops[0], pending);
    StepKeepsTrackedIff(s, params, ops[0]);
  }

  /** Over every such run the rows keep account of every key on the device, and only
      the pending names are left over. */
  lemma {:induction false} DisciplinedRunsStayTracked(s: System, params: Params, ops: seq<Op>, pending: set<string>)
    requires Tracked(s) && GoodParams(params) && AllOrdinary(s, params, ops)
    requires LeftoversAmong(s, pending) && Disciplined(ops, pending)
    ensures Tracked(Run(s, params, ops)) && LeftoversAmong(Run(s, params, ops), PendingAfter(ops, pending))
    decreases |ops|
  {
    if ops == [] {
    } else if ops[0].ReloadOp? {
      var after := Startup(s, params, ops[1].junks);
      assert ops[1..][0] == ops[1] && ops[1..][1..] == ops[2..];
      assert Apply(Apply(s, params, ops[0]), params, ops[1]) == after;
      RestartRestoresConsistency(s, params, ops[1].junks);
      ConsistentIff(after);
      DisciplinedRunsStayTracked(after, params, ops[2..], {});
      assert PendingAfter(ops, pending) == PendingAfter(ops[1..], {}) == PendingAfter(ops[2..], {});
    } else {
      var left := DisciplinedStep(s, params, ops, pending);
      DisciplinedRunsStayTracked(Apply(s, params, ops[0]), params, ops[1..], left);
    }
  }

  lemma NothingLeftIsConsistent(s: System)
    requires Tracked(s) && LeftoversAmong(s, {})
    ensures Consistent(s)
  {
    ConfiguredHaveRows(s);
    assert forall n :: n in s.table ==> !IsLeftover(s, n);
    ConsistentIff(s);
  }

  /** From a consistent state, every disciplined run that leaves no revocation
      pending ends consistent: configuration, table and device agree. */
  lemma RunsStayConsistent(s: System, params: Params, ops: seq<Op>)
    requires Consistent(s) && GoodParams(params) && AllOrdinary(s, params, ops)
    requires Disciplined(ops, {}) && PendingAfter(ops, {}) == {}
    ensures Consistent(Run(s, params, ops))
  {
    ConsistentIff(s);
    DisciplinedRunsStayTracked(s, params, ops, {});
    NothingLeftIsConsistent(Run(s, params, ops));
  }

  /** In particular every run in which the device refuses no revocation and the
      interface is not reloaded alone. */
  lemma {:induction false} AcceptedIsDisciplined(ops: seq<Op>)
    requires forall op :: op in ops ==> !op.ReloadOp? && (op.RevokeOp? ==> op.deviceOk)
    ensures Disciplined(ops, {}) && PendingAfter(ops, {}) == {}
    decreases |ops|
  {
    if ops != [] {
      AcceptedIsDisciplined(ops[1..]);
      assert {} - {if ops[0].RevokeOp? then ops[0].name else ""} == {};
    }
  }

  /** After any ordinary run from an orderly state a sync succeeds and leaves exactly
      the configured names; and after a disciplined one it restores consistency
      exactly when no row left over is enabled. */
  lemma SyncAfterRun(s: System, params: Params, ops: seq<Op>, pending: set<string>, junk: nat -> JunkParams)
    requires Orderly(s) && GoodParams(params) && AllOrdinary(s, params, ops)
    ensures var synced := Sync(Run(s, params, ops), params, junk);
            && synced.Ok? && TableOk(synced.value.table, Parsed(Run(s, params, ops).conf))
            && (Tracked(s) && LeftoversAmong(s, pending) && Disciplined(ops, pending) ==>
                  (Consistent(synced.value) <==> NoEnabledLeftover(Run(s, params, ops))))
  {
    RunsStayOrderly(s, params, ops);
    SyncOfOrderly(Run(s, params, ops), params, junk);
    if Tracked(s) && LeftoversAmong(s, pending) && Disciplined(ops, pending) {
      DisciplinedRunsStayTracked(s, params, ops, pending);
      SyncOfTracked(Run(s, params, ops), params, junk);
    }
  }

  // ---- revocations the device refuses --------------------------------------

  /** A revoke that failed at the device leaves the configuration cut. Repeating
      it completes it: the result is that of a revoke that never failed. */
  lemma RetriedRevokeCompletes(s: System, params: Params, name: string)
    requires Consistent(s) && name in s.table
    ensures var (failed, result) := Revoke(s, params, name, false);
            && result == Err(DeviceFailed)
            && Revoke(failed, params, name, true) == Revoke(s, params, name, true)
  {
    KeyForConfigured(s, name);
    FindPeerFinds(Parsed(s.conf), name);
    ParsedNamesAreNames(s.conf, name);
    RemovalFilters(s.conf, name);
    var failed := Revoke(s, params, name, false).0;
    assert failed == s.(conf := Removed(s.conf, name));
    NotAmongOthers(name, Parsed(s.conf));
    FindPeerFinds(Parsed(failed.conf), name);
  }

  lemma NotAmongOthers(name: string, peers: seq<Peer>)
    ensures name !in NamesOf(Without(name, peers))
  {
    WithoutMembers(name, peers);
    NamesOfMember(Without(name, peers), name);
  }

  lemma OnlyLeftover(s: System, params: Params, name: string)
    requires Consistent(s) && name in s.table
    ensures var failed := Revoke(s, params, name, false).0;
            && Tracked(failed) && failed.table == s.table && failed.device == s.device
            && forall n :: IsLeftover(failed, n) <==> n == name
  {
    ConsistentIff(s);
    RevokeKeepsOrderly(s, params, name, false);
  }

  /** A sync in between drops the row: the state is consistent again exactly when
      the peer was disabled. Otherwise its key stays on the device with no row.
      Either way, revoking it again finds nothing. */
  lemma SyncAfterFailedRevokeIff(s: System, params: Params, name: string, junk: nat -> JunkParams)
    requires Consistent(s) && name in s.table
    ensures var failed := Revoke(s, params, name, false).0;
            && Sync(failed, params, junk).Ok?
            && var synced := Sync(failed, params, junk).value;
            && (Consistent(synced) <==> !s.table[name].enabled)
            && (s.table[name].publicKey in synced.device <==> s.table[name].enabled)
            && Revoke(synced, params, name, true) == (synced, Err(PeerNotFound))
  {
    var failed := Revoke(s, params, name, false).0;
    OnlyLeftover(s, params, name);
    SyncOfTracked(failed, params, junk);
    assert NoEnabledLeftover(failed) <==> !s.table[name].enabled by {
      assert IsLeftover(failed, name);
    }
    DisabledKeyNotEnabled(s.table, Parsed(s.conf), name);
    assert s.table[name].enabled ==> s.table[name].publicKey in EnabledKeys(s.table);
    FindPeerFinds(Parsed(failed.conf), name);
  }
}
