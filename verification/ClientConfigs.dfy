/** Client configurations stay as they were handed out, over whole runs. */
module ClientConfigs {
  import opened Common
  import Text
  import opened WgConf
  import opened ConfEdit
  import FreeIP
  import opened Junk
  import Store
  import opened ClientFile
  import opened PeerSystem
  import opened Consistency
  import opened Lifecycle
  import opened Leftovers
  import opened Runs

  /** A client configuration of a configured peer that carries its parameters, is
      the one on record for the peer and is saved in every client directory. */
  ghost predicate Settled(s: System, params: Params, name: string, config: string) {
    && HasJunkParams(config) && name in s.table && name in NamesOf(Parsed(s.conf))
    && StoredConfig(s, params, name) == config && SavedEverywhere(s.files, params.clientDirs, name, config)
  }

  lemma HasJunkIsNotEmpty(config: string)
    requires HasJunkParams(config)
    ensures config != ""
  {
    assert Text.Split("", '\n') == [""] && !IsJunkLine("");
  }

  lemma ConfigForHasJunk(params: Params, p: Peer, secrets: Secrets)
    ensures HasJunkParams(ConfigFor(params, p, secrets))
  {
    BuiltConfigHasJunk(secrets.privateKey, p.ipv4, p.ipv6, params.dns1, params.dns2, params.serverPubKey,
                       p.preshared, params.endpoint, params.allowedIPs, secrets.junk);
  }

  lemma RecordedIsSettled(after: System, params: Params, name: string, table: Store.PeerTable, row: Store.PeerRecord,
                          files: Files)
    requires HasJunkParams(row.clientConfig) && name in NamesOf(Parsed(after.conf))
    requires after.table == Store.UpsertRow(table, name, row)
    requires after.files == SaveInAll(files, params.clientDirs, name, row.clientConfig)
    ensures Settled(after, params, name, row.clientConfig)
  {
    HasJunkIsNotEmpty(row.clientConfig);
    SaveReachesAll(files, params.clientDirs, name, row.clientConfig);
  }

  /** What a create hands out is settled. */
  lemma CreateSettles(s: System, params: Params, name: string, actor: string, secrets: Secrets)
    requires Orderly(s) && GoodParams(params) && UnusedSecrets(s, secrets)
    requires Create(s, params, name, actor, secrets, true).1.Ok?
    ensures var (after, result) := Create(s, params, name, actor, secrets, true);
            Settled(after, params, name, result.value)
  {
    if !CanCreate(s, params, name, true) {
      CreateRefused(s, params, name, actor, secrets, true);
    }
    var octet := FreeIP.FreeOctet(params.serverIPv4, IPv4sOf(Parsed(s.conf))).value;
    var p := NewPeerAt(params, name, octet, secrets);
    var config := ConfigFor(params, p, secrets);
    CreateOverLeftover(s, params, name, actor, secrets, octet);
    NamesOfAppend(Parsed(s.conf), p);
    ConfigForHasJunk(params, p, secrets);
    RecordedIsSettled(Create(s, params, name, actor, secrets, true).0, params, name, s.table,
                      Store.PeerRecord(p.publicKey, p.ipv4, p.ipv6, true, actor, config, 0), s.files);
  }

  /** So is what a request for a configuration hands out. */
  lemma GetConfigSettles(s: System, params: Params, name: string, junk: JunkParams)
    requires Orderly(s) && name in NamesOf(Parsed(s.conf)) && GetConfig(s, params, name, junk).1.Ok?
    ensures var (after, result) := GetConfig(s, params, name, junk);
            Settled(after, params, name, result.value)
  {
    var config := StoredConfig(s, params, name);
    var updated := EnsureJunkParams(config, junk).value;
    ConfiguredHaveRows(s);
    EnsureIsIdempotent(config, junk, junk);
    HasJunkIsNotEmpty(updated);
    SaveReachesAll(s.files, params.clientDirs, name, updated);
    if s.table[name].clientConfig == "" {
      LoadAfterSave(s.files, params.clientDirs, name, updated);
    }
  }

  /** Nothing that concerns this peer's configuration differs. */
  lemma SettledFrame(s: System, after: System, params: Params, name: string, config: string)
    requires Settled(s, params, name, config) && name in after.table && name in NamesOf(Parsed(after.conf))
    requires after.table[name].clientConfig == s.table[name].clientConfig && AgreeOn(s.files, after.files, name)
    ensures Settled(after, params, name, config)
  {
    LoadsAlike(s.files, after.files, params.clientDirs, name);
    forall i | 0 <= i < |params.clientDirs| && params.clientDirs[i] != ""
      ensures (params.clientDirs[i], name) in after.files && after.files[(params.clientDirs[i], name)] == config
    {
      var key := (params.clientDirs[i], name);
      assert key.1 == name;
    }
  }

  lemma SaveAgrees(files: Files, dirs: seq<string>, other: string, content: string, name: string)
    requires other != name
    ensures AgreeOn(files, SaveInAll(files, dirs, other, content), name)
    ensures AgreeOn(files, RemoveFrom(files, dirs, other), name)
  {
    forall k: (string, string) | k.1 == name
      ensures k in files <==> k in SaveInAll(files, dirs, other, content)
      ensures k in files ==> SaveInAll(files, dirs, other, content)[k] == files[k]
      ensures k in files <==> k in RemoveFrom(files, dirs, other)
      ensures k in files ==> RemoveFrom(files, dirs, other)[k] == files[k]
    {
      SaveTouchesOne(files, dirs, other, content, k);
      RemoveTouchesOne(files, dirs, other, k);
    }
  }

  /** A sync records the settled text again. */
  lemma SyncKeepsSettled(s: System, params: Params, name: string, config: string, junk: nat -> JunkParams)
    requires Orderly(s) && Settled(s, params, name, config)
    ensures Sync(s, params, junk).Ok? && Settled(Sync(s, params, junk).value, params, name, config)
  {
    var peers, dirs := Parsed(s.conf), params.clientDirs;
    SyncOfOrderly(s, params, junk);
    HasJunkIsNotEmpty(config);
    LoadsWhatWasSaved(s.files, dirs, name, config);
    var i :| 0 <= i < |peers| && peers[i].name == name;
    SyncedKeepsConfig(s.table, s.files, dirs, peers, junk, i);
  }

  lemma SyncedKeepsConfig(table: Store.PeerTable, files: Files, dirs: seq<string>, peers: seq<Peer>,
                          junk: nat -> JunkParams, i: nat)
    requires DistinctNames(peers) && i < |peers| && peers[i].name in table
    requires SyncedTable(table, files, dirs, peers, junk).Some?
    ensures var synced := SyncedConfig(files, dirs, peers[i].name, junk(i));
            var after := SyncedTable(table, files, dirs, peers, junk).value;
            peers[i].name in after &&
            after[peers[i].name].clientConfig == if synced != "" then synced else table[peers[i].name].clientConfig
  {
    SyncIsExact(table, files, dirs, peers, junk);
  }

  lemma RevokeKeepsSettled(s: System, params: Params, other: string, deviceOk: bool, name: string, config: string)
    requires Orderly(s) && Settled(s, params, name, config) && other != name
    ensures Settled(Revoke(s, params, other, deviceOk).0, params, name, config)
  {
    RevokeKeepsOrderly(s, params, other, deviceOk);
    SaveAgrees(s.files, params.clientDirs, other, "", name);
    SettledFrame(s, Revoke(s, params, other, deviceOk).0, params, name, config);
  }

  /** Stop and Start change no stored configuration and no file of the synced state. */
  lemma SwitchesKeepConfigs(synced: System, found: Option<Peer>, other: string, deviceOk: bool, n: string)
    requires n in synced.table
    ensures var stopped := FinishStop(synced, found, other, deviceOk).0;
            var started := FinishStart(synced, found, other, deviceOk).0;
            && n in stopped.table && n in started.table && stopped.files == started.files == synced.files
            && stopped.table[n].clientConfig == started.table[n].clientConfig == synced.table[n].clientConfig
  {
  }

  lemma SwitchesKeepSettled(s: System, params: Params, other: string, junks: nat -> JunkParams, deviceOk: bool,
                            name: string, config: string)
    requires Orderly(s) && Settled(s, params, name, config)
    ensures Settled(Stop(s, params, other, junks, deviceOk).0, params, name, config)
    ensures Settled(Start(s, params, other, junks, deviceOk).0, params, name, config)
  {
    SyncKeepsSettled(s, params, name, config, junks);
    var synced := Sync(s, params, junks).value;
    SwitchIsFinish(s, params, other, junks, deviceOk);
    SwitchesKeepConfigs(synced, FindPeer(Parsed(s.conf), other), other, deviceOk, name);
    SettledFrame(synced, Stop(s, params, other, junks, deviceOk).0, params, name, config);
    SettledFrame(synced, Start(s, params, other, junks, deviceOk).0, params, name, config);
  }

  lemma CreateTouchesOne(s: System, params: Params, existing: seq<Peer>, other: string, actor: string,
                         secrets: Secrets, deviceOk: bool, name: string)
    requires '.' in params.serverIPv4 && name in s.table && other != name
    ensures var after := CreateAmong(s, params, existing, other, actor, secrets, deviceOk).0;
            && name in after.table && after.table[name] == s.table[name] && AgreeOn(s.files, after.files, name)
  {
    var p, text := CreateIsFinish(s, params, existing, other, actor, secrets, deviceOk);
    FinishTouchesOne(s, params, p, text, actor, deviceOk, name);
  }

  lemma FinishTouchesOne(s: System, params: Params, p: Peer, text: string, actor: string, deviceOk: bool, name: string)
    requires name in s.table && p.name != name
    ensures var after := FinishCreate(s, params, p, text, actor, deviceOk).0;
            && name in after.table && after.table[name] == s.table[name] && AgreeOn(s.files, after.files, name)
  {
    SaveAgrees(s.files, params.clientDirs, p.name, text, name);
  }

  lemma CreateKeepsSettled(s: System, params: Params, other: string, actor: string, secrets: Secrets, deviceOk: bool,
                           name: string, config: string)
    requires Orderly(s) && GoodParams(params) && UnusedSecrets(s, secrets) && Settled(s, params, name, config)
    ensures Settled(Create(s, params, other, actor, secrets, deviceOk).0, params, name, config)
  {
    if other == name {
      CreateRefused(s, params, other, actor, secrets, deviceOk);
    } else {
      CreateKeepsOrderly(s, params, other, actor, secrets, deviceOk);
      CreateTouchesOne(s, params, Parsed(s.conf), other, actor, secrets, deviceOk, name);
      SettledFrame(s, Create(s, params, other, actor, secrets, deviceOk).0, params, name, config);
    }
  }

  lemma SetLimitKeepsSettled(s: System, params: Params, other: string, limit: nat, name: string, config: string)
    requires Settled(s, params, name, config)
    ensures Settled(SetLimit(s, other, limit).0, params, name, config)
  {
    SettledFrame(s, SetLimit(s, other, limit).0, params, name, config);
  }

  ghost predicate NeverRevoked(ops: seq<Op>, name: string) {
    forall op :: op in ops && op.RevokeOp? ==> op.name != name
  }

  lemma SwitchStepKeepsSettled(s: System, params: Params, op: Op, name: string, config: string)
    requires Orderly(s) && '.' in params.serverIPv4 && Settled(s, params, name, config) && (op.StopOp? || op.StartOp?)
    ensures Settled(Apply(s, params, op), params, name, config)
  {
    SwitchesKeepSettled(s, params, op.name, op.junks, op.deviceOk, name, config);
    ApplySwitch(s, params, op);
  }

  lemma SyncStepKeepsSettled(s: System, params: Params, op: Op, name: string, config: string)
    requires Orderly(s) && '.' in params.serverIPv4 && Settled(s, params, name, config) && op.SyncOp?
    ensures Settled(Apply(s, params, op), params, name, config)
  {
    SyncKeepsSettled(s, params, name, config, op.junks);
    ApplySync(s, params, op);
  }

  lemma ResumeStepKeepsSettled(s: System, params: Params, op: Op, name: string, config: string)
    requires Orderly(s) && '.' in params.serverIPv4 && Settled(s, params, name, config) && op.ResumeOp?
    ensures Settled(Apply(s, params, op), params, name, config)
  {
    SyncKeepsSettled(s, params, name, config, op.junks);
    ResumeIsSync(s, params, op.junks);
    SettledFrame(Sync(s, params, op.junks).value, Resume(s, params, op.junks), params, name, config);
    ApplyResume(s, params, op);
  }

  lemma CreateStepKeepsSettled(s: System, params: Params, op: Op, name: string, config: string)
    requires Orderly(s) && GoodParams(params) && Ordinary(s, params, op) && Settled(s, params, name, config)
    requires op.CreateOp?
    ensures Settled(Apply(s, params, op), params, name, config)
  {
    CreateKeepsSettled(s, params, op.name, op.actor, op.secrets, op.deviceOk, name, config);
    ApplyCreate(s, params, op);
  }

  lemma OtherStepKeepsSettled(s: System, params: Params, op: Op, name: string, config: string)
    requires Orderly(s) && '.' in params.serverIPv4 && Settled(s, params, name, config)
    requires op.RevokeOp? || op.SetLimitOp? || op.GetConfigOp? || op.ReloadOp?
    requires op.RevokeOp? ==> op.name != name
    ensures Settled(Apply(s, params, op), params, name, config)
  {
    if op.RevokeOp? {
      RevokeKeepsSettled(s, params, op.name, op.deviceOk, name, config);
      ApplyRevoke(s, params, op);
    } else if op.SetLimitOp? {
      SetLimitKeepsSettled(s, params, op.name, op.limit, name, config);
      ApplySetLimit(s, params, op);
    } else if op.GetConfigOp? {
      GetConfigKeepsSettled(s, params, op.name, op.junk, name, config);
      ApplyGetConfig(s, params, op);
    } else {
      SettledFrame(s, Reload(s), params, name, config);
      ApplyReload(s, params, op);
    }
  }

  lemma StepKeepsSettled(s: System, params: Params, op: Op, name: string, config: string)
    requires Orderly(s) && GoodParams(params) && Ordinary(s, params, op) && Settled(s, params, name, config)
    requires op.RevokeOp? ==> op.name != name
    ensures Settled(Apply(s, params, op), params, name, config)
  {
    if op.CreateOp? {
      CreateStepKeepsSettled(s, params, op, name, config);
    } else if op.StopOp? || op.StartOp? {
      SwitchStepKeepsSettled(s, params, op, name, config);
    } else if op.SyncOp? {
      SyncStepKeepsSettled(s, params, op, name, config);
    } else if op.ResumeOp? {
      ResumeStepKeepsSettled(s, params, op, name, config);
    } else {
      OtherStepKeepsSettled(s, params, op, name, config);
    }
  }

  lemma GetConfigKeepsSettled(s: System, params: Params, other: string, junk: JunkParams, name: string, config: string)
    requires Orderly(s) && Settled(s, params, name, config)
    ensures Settled(GetConfig(s, params, other, junk).0, params, name, config)
    ensures other == name ==> GetConfig(s, params, other, junk).1 == Ok(config)
  {
    var after := GetConfig(s, params, other, junk).0;
    HasJunkIsNotEmpty(config);
    if other == name {
      GetConfigSettles(s, params, name, junk);
    } else {
      var stored := StoredConfig(s, params, other);
      if stored != "" && EnsureJunkParams(stored, junk).Ok? {
        SaveAgrees(s.files, params.clientDirs, other, EnsureJunkParams(stored, junk).value, name);
      }
      SettledFrame(s, after, params, name, config);
    }
  }

  lemma {:induction false} RunKeepsSettled(s: System, params: Params, ops: seq<Op>, name: string, config: string)
    requires Orderly(s) && GoodParams(params) && AllOrdinary(s, params, ops) && Settled(s, params, name, config)
    requires NeverRevoked(ops, name)
    ensures Orderly(Run(s, params, ops)) && Settled(Run(s, params, ops), params, name, config)
    decreases |ops|
  {
    if ops != [] {
      StepKeepsSettled(s, params, ops[0], name, config);
      StepStaysOrderly(s, params, ops[0]);
      RunKeepsSettled(Apply(s, params, ops[0]), params, ops[1..], name, config);
    }
  }

  /** Once a create has handed out a configuration, every later request for it
      returns the identical text until the peer is revoked, whatever other
      operations run and whatever is drawn. */
  lemma CreatedConfigIsStable(s: System, params: Params, name: string, actor: string, secrets: Secrets, ops: seq<Op>,
                              junk: JunkParams)
    requires Orderly(s) && GoodParams(params) && Ordinary(s, params, CreateOp(name, actor, secrets, true))
    requires Create(s, params, name, actor, secrets, true).1.Ok?
    requires AllOrdinary(Create(s, params, name, actor, secrets, true).0, params, ops) && NeverRevoked(ops, name)
    ensures var (created, result) := Create(s, params, name, actor, secrets, true);
            GetConfig(Run(created, params, ops), params, name, junk).1 == result
  {
    var (created, result) := Create(s, params, name, actor, secrets, true);
    CreateSettles(s, params, name, actor, secrets);
    CreateKeepsOrderly(s, params, name, actor, secrets, true);
    RunKeepsSettled(created, params, ops, name, result.value);
    GetConfigKeepsSettled(Run(created, params, ops), params, name, junk, name, result.value);
  }

  /** Likewise from the first successful request on. */
  lemma RequestedConfigIsStable(s: System, params: Params, name: string, first: JunkParams, ops: seq<Op>,
                                junk: JunkParams)
    requires Orderly(s) && GoodParams(params) && name in NamesOf(Parsed(s.conf))
    requires GetConfig(s, params, name, first).1.Ok?
    requires AllOrdinary(GetConfig(s, params, name, first).0, params, ops) && NeverRevoked(ops, name)
    ensures var (asked, result) := GetConfig(s, params, name, first);
            GetConfig(Run(asked, params, ops), params, name, junk).1 == result
  {
    var (asked, result) := GetConfig(s, params, name, first);
    GetConfigSettles(s, params, name, first);
    ConfiguredHaveRows(s);
    GetConfigKeepsAgreement(s, params, name, first);
    RunKeepsSettled(asked, params, ops, name, result.value);
    GetConfigKeepsSettled(Run(asked, params, ops), params, name, junk, name, result.value);
  }

  /** After a complete revoke nothing is left to hand out. */
  lemma RevokedConfigIsGone(s: System, params: Params, name: string, junk: JunkParams)
    requires Orderly(s) && name in s.table
    ensures var after := Revoke(s, params, name, true).0;
            GetConfig(after, params, name, junk) == (after, Err(PeerNotFound))
  {
    RevokeKeepsOrderly(s, params, name, true);
    NothingAfterRemove(s.files, params.clientDirs, name);
    KeyForOrderly(s, name);
    var after := Revoke(s, params, name, true).0;
    FindPeerFinds(Parsed(after.conf), name);
  }

  // ---- what the texts say --------------------------------------------------

  ghost predicate OneLineParams(params: Params) {
    && '\n' !in params.dns1 && '\n' !in params.dns2 && '\n' !in params.serverPubKey
    && '\n' !in params.endpoint && '\n' !in params.allowedIPs
  }

  /** The lines of the client configuration of a peer. */
  function ClientLines(privKey: string, ipv4: string, ipv6: string, params: Params, preshared: string,
                       junk: JunkParams): seq<string> {
    ["[Interface]"] + ["PrivateKey" + " = " + privKey]
    + ["Address" + " = " + (ipv4 + "/32," + ipv6 + "/128")] + ["DNS" + " = " + (params.dns1 + "," + params.dns2)]
    + ["Jc = " + Text.Itoa(junk.jc), "Jmin = " + Text.Itoa(junk.jmin), "Jmax = " + Text.Itoa(junk.jmax)]
    + [""] + ["[Peer]"] + ["PublicKey" + " = " + params.serverPubKey] + ["PresharedKey" + " = " + preshared]
    + ["Endpoint" + " = " + params.endpoint] + ["AllowedIPs" + " = " + params.allowedIPs] + [""]
  }

  lemma ConfigLines(params: Params, p: Peer, secrets: Secrets)
    requires OneLineParams(params) && '\n' !in secrets.privateKey && '\n' !in p.preshared
    requires '\n' !in p.ipv4 && '\n' !in p.ipv6
    ensures Text.Split(ConfigFor(params, p, secrets), '\n') ==
            ClientLines(secrets.privateKey, p.ipv4, p.ipv6, params, p.preshared, secrets.junk)
  {
    BuiltLines(secrets.privateKey, p.ipv4, p.ipv6, params.dns1, params.dns2, params.serverPubKey,
               p.preshared, params.endpoint, params.allowedIPs, secrets.junk);
  }

  /** What a successful create makes of the secrets drawn, under a server
      `base.last`. The peer has the least address `base.i` that no configured peer has
      and an IPv6 address with the same i; the parsed configuration gains it with the
      public and the preshared key; and the text returned has, line by line, the
      private key, both addresses, the DNS servers, the parameters, the server's key,
      the preshared key, the endpoint and the allowed addresses. */
  lemma CreatedPeerAndText(s: System, params: Params, name: string, actor: string, secrets: Secrets, base: string,
                           last: string) returns (i: nat, ipv6: string)
    requires Orderly(s) && GoodParams(params) && UnusedSecrets(s, secrets) && CanCreate(s, params, name, true)
    requires OneLineParams(params) && '\n' !in secrets.privateKey
    requires params.serverIPv4 == base + "." + last && '.' !in last
    ensures 2 <= i <= 254 && ipv6 == FreeIP.ClientIPv6(params.serverIPv6, i)
    ensures var ipv4 := base + "." + Text.Itoa(i);
            && ipv4 !in IPv4sOf(Parsed(s.conf))
            && (forall j :: 2 <= j < i ==> base + "." + Text.Itoa(j) in IPv4sOf(Parsed(s.conf)))
            && AddressesOf(ipv4 + "/32," + ipv6 + "/128") == (ipv4, ipv6)
            && var (after, result) := Create(s, params, name, actor, secrets, true);
            && Parsed(after.conf) == Parsed(s.conf) +
                 [Peer(name, secrets.publicKey, secrets.preshared, ipv4 + "/32," + ipv6 + "/128", ipv4, ipv6)]
            && result.Ok?
            && Text.Split(result.value, '\n') ==
               ClientLines(secrets.privateKey, ipv4, ipv6, params, secrets.preshared, secrets.junk)
  {
    var peers := Parsed(s.conf);
    FreeIP.AllocatedIs(base, last, IPv4sOf(peers));
    i := FreeIP.FreeOctet(params.serverIPv4, IPv4sOf(peers)).value;
    ipv6 := FreeIP.ClientIPv6(params.serverIPv6, i);
    FreeIP.CandidateIs(base, last, i);
    FreeIP.NewAddressesReadBack(params.serverIPv4, params.serverIPv6, i);
    CreateOverLeftover(s, params, name, actor, secrets, i);
    var p := NewPeerAt(params, name, i, secrets);
    AddressesHaveNoNewline(params, i);
    ConfigLines(params, p, secrets);
  }

  lemma AddressesHaveNoNewline(params: Params, i: nat)
    requires GoodParams(params)
    ensures '\n' !in FreeIP.Candidate(params.serverIPv4, i) && '\n' !in FreeIP.ClientIPv6(params.serverIPv6, i)
  {
    FreeIP.ItoaIsWord(i);
  }

  /** The text on record for a name: that of its row, or else of its client file. */
  ghost predicate HasText(s: System, params: Params, name: string, text: string) {
    && text != ""
    && if name in s.table && s.table[name].clientConfig != "" then text == s.table[name].clientConfig
       else LoadFrom(s.files, params.clientDirs, name) == Some(text)
  }

  /** What a request answers. A text with parameters is returned as it is. One without
      is returned with parameters, or refused exactly when no `[Peer]` line follows an
      `[Interface]` line. Without a text the answer says whether the peer is
      configured. A refused request changes nothing. */
  lemma GetConfigAnswers(s: System, params: Params, name: string, junk: JunkParams, text: string)
    ensures var (after, answer) := GetConfig(s, params, name, junk);
            && (answer.Err? ==> after == s)
            && (HasText(s, params, name, text) && HasJunkParams(text) ==> answer == Ok(text))
            && (HasText(s, params, name, text) && !HasJunkParams(text) ==>
                  answer == match EnsureJunkParams(text, junk) case Ok(more) => Ok(more) case Err(_) => Err(JunkFailed))
            && ((forall t :: !HasText(s, params, name, t)) ==>
                  answer == Err(if name in NamesOf(Parsed(s.conf)) then ConfigMissing else PeerNotFound))
  {
    FindPeerFinds(Parsed(s.conf), name);
    var stored := StoredConfig(s, params, name);
    assert stored != "" ==> HasText(s, params, name, stored);
  }

  /** And a text that gets parameters keeps every line, in order, around them. */
  lemma GetConfigKeepsLines(s: System, params: Params, name: string, junk: JunkParams, text: string)
      returns (k: nat, count: nat)
    requires HasText(s, params, name, text) && !HasJunkParams(text) && GetConfig(s, params, name, junk).1.Ok?
    ensures FirstPeerLine(Text.Split(text, '\n'), k)
    ensures var lines := Text.Split(text, '\n');
            Text.Split(GetConfig(s, params, name, junk).1.value, '\n') + Text.EmptyLines(count) ==
            lines[..k] +
            ["Jc = " + Text.Itoa(junk.jc), "Jmin = " + Text.Itoa(junk.jmin), "Jmax = " + Text.Itoa(junk.jmax)] +
            ([""] + lines[k..]) + [""]
  {
    GetConfigAnswers(s, params, name, junk, text);
    k, count := EnsureInserts(text, junk);
  }
}
