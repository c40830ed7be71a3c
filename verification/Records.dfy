/** What the rows of the peers table say about a peer: its creator, its limit, its
    enabled flag and its text, after one operation and over whole runs. */
module Records {
  import opened Common
  import opened WgConf
  import ConfEdit
  import opened Junk
  import opened ClientFile
  import opened PeerSystem
  import opened Consistency
  import opened Lifecycle
  import opened Leftovers
  import opened Runs
  import ClientConfigs
  import FreeIP

  // ---- one sync ------------------------------------------------------------

  /** The text a sync leaves in a row: that of the first client file, if it is not
      empty, with parameters if they could be added, and else the text it had. */
  ghost predicate TextAfterSync(text: string, before: string, file: Option<string>, junk: JunkParams) {
    match file
    case None => text == before
    case Some(loaded) =>
      if loaded == "" then text == before
      else if EnsureJunkParams(loaded, junk).Ok? then text == EnsureJunkParams(loaded, junk).value
      else text == loaded
  }

  lemma SyncedText(files: Files, dirs: seq<string>, name: string, junk: JunkParams)
    ensures TextAfterSync(SyncedConfig(files, dirs, name, junk), "", LoadFrom(files, dirs, name), junk)
    ensures SyncedConfig(files, dirs, name, junk) == "" <==>
            LoadFrom(files, dirs, name).None? || LoadFrom(files, dirs, name).value == ""
  {
    var file := LoadFrom(files, dirs, name);
    if file.Some? && file.value != "" && EnsureJunkParams(file.value, junk).Ok? {
      EnsuredIsNotEmpty(file.value, junk);
    }
  }

  lemma EnsuredIsNotEmpty(text: string, junk: JunkParams)
    requires text != "" && EnsureJunkParams(text, junk).Ok?
    ensures EnsureJunkParams(text, junk).value != ""
  {
    if !HasJunkParams(text) {
      assert Injected(text, junk).Ok?;
    }
  }

  /** After a sync each configured name has the key and addresses of its block. A row
      that was there keeps its creator, its limit and its flag; a new one is enabled,
      was created by an import and has no limit. The text is that of the client file,
      else the one on record. */
  lemma SyncKeepsRecords(s: System, params: Params, junk: nat -> JunkParams, i: nat)
    requires ConfEdit.DistinctNames(Parsed(s.conf)) && Sync(s, params, junk).Ok? && i < |Parsed(s.conf)|
    ensures var after, p := Sync(s, params, junk).value, Parsed(s.conf)[i];
            && p.name in after.table
            && var row := after.table[p.name];
            && row.publicKey == p.publicKey && row.ipv4 == p.ipv4 && row.ipv6 == p.ipv6
            && (if p.name in s.table then
                  var before := s.table[p.name];
                  row.createdBy == before.createdBy && row.limit == before.limit && row.enabled == before.enabled
                else row.createdBy == "import" && row.limit == 0 && row.enabled)
            && TextAfterSync(row.clientConfig, if p.name in s.table then s.table[p.name].clientConfig else "",
                             LoadFrom(s.files, params.clientDirs, p.name), junk(i))
  {
    var peers := Parsed(s.conf);
    SyncIsExact(s.table, s.files, params.clientDirs, peers, junk);
    SyncedText(s.files, params.clientDirs, peers[i].name, junk(i));
  }

  // ---- creates -------------------------------------------------------------

  /** A create records who made the peer and sets no limit, unless it takes over a
      row left behind, whose creator and limit stay. */
  lemma CreateRecords(s: System, params: Params, name: string, actor: string, secrets: Secrets)
    requires Orderly(s) && GoodParams(params) && UnusedSecrets(s, secrets) && CanCreate(s, params, name, true)
    ensures var (after, result) := Create(s, params, name, actor, secrets, true);
            && result.Ok? && name in after.table
            && var row := after.table[name];
            && row.publicKey == secrets.publicKey && row.enabled && row.clientConfig == result.value
            && row.createdBy == (if name in s.table then s.table[name].createdBy else actor)
            && row.limit == (if name in s.table then s.table[name].limit else 0)
  {
    var octet := FreeIP.FreeOctet(params.serverIPv4, IPv4sOf(Parsed(s.conf))).value;
    CreateOverLeftover(s, params, name, actor, secrets, octet);
    var p := NewPeerAt(params, name, octet, secrets);
    ClientConfigs.ConfigForHasJunk(params, p, secrets);
    ClientConfigs.HasJunkIsNotEmpty(ConfigFor(params, p, secrets));
  }

  // ---- runs ----------------------------------------------------------------

  /** A configured peer with this creator, limit and flag. */
  ghost predicate Says(s: System, name: string, creator: string, limit: int, enabled: bool) {
    && name in ConfEdit.NamesOf(Parsed(s.conf)) && name in s.table
    && s.table[name].createdBy == creator && s.table[name].limit == limit && s.table[name].enabled == enabled
  }

  function LimitAfter(op: Op, name: string, limit: int): int {
    if op.SetLimitOp? && op.name == name then op.limit else limit
  }

  function FlagAfter(op: Op, name: string, enabled: bool): bool {
    if op.StopOp? && op.name == name && op.deviceOk then false
    else if op.StartOp? && op.name == name && op.deviceOk then true
    else enabled
  }

  lemma SyncSays(s: System, params: Params, junks: nat -> JunkParams, name: string, creator: string, limit: int,
                 enabled: bool)
    requires Orderly(s) && Says(s, name, creator, limit, enabled)
    ensures Sync(s, params, junks).Ok? && Says(Sync(s, params, junks).value, name, creator, limit, enabled)
  {
    SyncOfOrderly(s, params, junks);
    var i :| 0 <= i < |Parsed(s.conf)| && Parsed(s.conf)[i].name == name;
    SyncKeepsRecords(s, params, junks, i);
  }

  lemma SyncStepSays(s: System, params: Params, op: Op, name: string, creator: string, limit: int, enabled: bool)
    requires Orderly(s) && '.' in params.serverIPv4 && Says(s, name, creator, limit, enabled) && op.SyncOp?
    ensures Says(Apply(s, params, op), name, creator, limit, enabled)
  {
    SyncSays(s, params, op.junks, name, creator, limit, enabled);
    ApplySync(s, params, op);
  }

  lemma ResumeStepSays(s: System, params: Params, op: Op, name: string, creator: string, limit: int, enabled: bool)
    requires Orderly(s) && '.' in params.serverIPv4 && Says(s, name, creator, limit, enabled) && op.ResumeOp?
    ensures Says(Apply(s, params, op), name, creator, limit, enabled)
  {
    SyncSays(s, params, op.junks, name, creator, limit, enabled);
    ResumeIsSync(s, params, op.junks);
    ApplyResume(s, params, op);
  }

  lemma StopSays(synced: System, other: string, deviceOk: bool, name: string, creator: string, limit: int,
                 enabled: bool)
    requires Orderly(synced) && Says(synced, name, creator, limit, enabled)
    ensures var found := FindPeer(Parsed(synced.conf), other);
            Says(FinishStop(synced, found, other, deviceOk).0, name, creator, limit,
                 enabled && !(other == name && deviceOk))
  {
    FindPeerFinds(Parsed(synced.conf), other);
    if other == name {
      KeyForOrderly(synced, other);
    }
  }

  lemma StartSays(synced: System, other: string, deviceOk: bool, name: string, creator: string, limit: int,
                  enabled: bool)
    requires Says(synced, name, creator, limit, enabled)
    ensures var found := FindPeer(Parsed(synced.conf), other);
            Says(FinishStart(synced, found, other, deviceOk).0, name, creator, limit,
                 enabled || (other == name && deviceOk))
  {
    FindPeerFinds(Parsed(synced.conf), other);
  }

  lemma SwitchStepSays(s: System, params: Params, op: Op, name: string, creator: string, limit: int, enabled: bool)
    requires Orderly(s) && '.' in params.serverIPv4 && Says(s, name, creator, limit, enabled)
    requires op.StopOp? || op.StartOp?
    ensures Says(Apply(s, params, op), name, creator, limit, FlagAfter(op, name, enabled))
  {
    SyncSays(s, params, op.junks, name, creator, limit, enabled);
    SyncOfOrderly(s, params, op.junks);
    var synced := Sync(s, params, op.junks).value;
    SwitchIsFinish(s, params, op.name, op.junks, op.deviceOk);
    if op.StopOp? {
      StopSays(synced, op.name, op.deviceOk, name, creator, limit, enabled);
    } else {
      StartSays(synced, op.name, op.deviceOk, name, creator, limit, enabled);
    }
    ApplySwitch(s, params, op);
  }

  lemma CreateStepSays(s: System, params: Params, op: Op, name: string, creator: string, limit: int, enabled: bool)
    requires Orderly(s) && GoodParams(params) && Ordinary(s, params, op) && op.CreateOp?
    requires Says(s, name, creator, limit, enabled)
    ensures Says(Apply(s, params, op), name, creator, limit, enabled)
  {
    CreateKeepsOrderly(s, params, op.name, op.actor, op.secrets, op.deviceOk);
    ApplyCreate(s, params, op);
  }

  lemma OtherStepSays(s: System, params: Params, op: Op, name: string, creator: string, limit: int, enabled: bool)
    requires Orderly(s) && '.' in params.serverIPv4 && Says(s, name, creator, limit, enabled)
    requires op.RevokeOp? || op.SetLimitOp? || op.GetConfigOp? || op.ReloadOp?
    requires op.RevokeOp? ==> op.name != name
    ensures Says(Apply(s, params, op), name, creator, LimitAfter(op, name, limit), enabled)
  {
    if op.RevokeOp? {
      RevokeKeepsOrderly(s, params, op.name, op.deviceOk);
      ApplyRevoke(s, params, op);
    } else if op.SetLimitOp? {
      ApplySetLimit(s, params, op);
    } else if op.GetConfigOp? {
      GetConfigTouchesOnlyConfig(s, params, op.name, op.junk, name);
      ApplyGetConfig(s, params, op);
    } else {
      ApplyReload(s, params, op);
    }
  }

  lemma StepSays(s: System, params: Params, op: Op, name: string, creator: string, limit: int, enabled: bool)
    requires Orderly(s) && GoodParams(params) && Ordinary(s, params, op) && Says(s, name, creator, limit, enabled)
    requires op.RevokeOp? ==> op.name != name
    ensures Says(Apply(s, params, op), name, creator, LimitAfter(op, name, limit), FlagAfter(op, name, enabled))
  {
    if op.CreateOp? {
      CreateStepSays(s, params, op, name, creator, limit, enabled);
    } else if op.StopOp? || op.StartOp? {
      SwitchStepSays(s, params, op, name, creator, limit, enabled);
    } else if op.SyncOp? {
      SyncStepSays(s, params, op, name, creator, limit, enabled);
    } else if op.ResumeOp? {
      ResumeStepSays(s, params, op, name, creator, limit, enabled);
    } else {
      OtherStepSays(s, params, op, name, creator, limit, enabled);
    }
  }

  /** The last limit that was set, and the flag of the last stop or start that the
      device accepted. */
  function LastLimit(ops: seq<Op>, name: string, limit: int): int
    decreases |ops|
  {
    if ops == [] then limit else LastLimit(ops[1..], name, LimitAfter(ops[0], name, limit))
  }

  function LastFlag(ops: seq<Op>, name: string, enabled: bool): bool
    decreases |ops|
  {
    if ops == [] then enabled else LastFlag(ops[1..], name, FlagAfter(ops[0], name, enabled))
  }

  /** Over every run in which the peer is not revoked, its creator stays, its limit is
      the last one that was set for it, and it is enabled as the last stop or start of
      it says that the device accepted. */
  lemma {:induction false} RunSays(s: System, params: Params, ops: seq<Op>, name: string, creator: string, limit: int,
                                   enabled: bool)
    requires Orderly(s) && GoodParams(params) && AllOrdinary(s, params, ops) && Says(s, name, creator, limit, enabled)
    requires forall op :: op in ops && op.RevokeOp? ==> op.name != name
    ensures Says(Run(s, params, ops), name, creator, LastLimit(ops, name, limit), LastFlag(ops, name, enabled))
    decreases |ops|
  {
    if ops != [] {
      StepStaysOrderly(s, params, ops[0]);
      StepSays(s, params, ops[0], name, creator, limit, enabled);
      RunSays(Apply(s, params, ops[0]), params, ops[1..], name, creator, LimitAfter(ops[0], name, limit),
              FlagAfter(ops[0], name, enabled));
    }
  }
}
