/** What each single peer operation does to a consistent state. */
module Lifecycle {
  import opened Common
  import opened Text
  import Traffic
  import opened WgConf
  import opened ConfDoc
  import opened ConfEdit
  import opened ConfRoundTrip
  import opened FreeIP
  import opened Junk
  import opened Store
  import SyncTable
  import ClientFile
  import opened PeerSystem
  import opened Consistency

  /** Server addresses that print as words; the IPv6 one may be missing and has no
      dotted part. */
  ghost predicate GoodParams(params: Params) {
    && Word(params.serverIPv4) && '.' in params.serverIPv4
    && (params.serverIPv6 == "" || Word(params.serverIPv6)) && '.' !in params.serverIPv6
  }

  /** Newly drawn keys: printable, and the public one not configured yet. */
  ghost predicate FreshSecrets(peers: seq<Peer>, secrets: Secrets) {
    && secrets.publicKey != "" && EndsClean(secrets.publicKey) && EndsClean(secrets.preshared)
    && forall i :: 0 <= i < |peers| ==> peers[i].publicKey != secrets.publicKey
  }

  // ---- tables and keys -----------------------------------------------------

  lemma NamesOfAppend(peers: seq<Peer>, p: Peer)
    ensures NamesOf(peers + [p]) == NamesOf(peers) + {p.name}
  {
    var all := peers + [p];
    forall n | n in NamesOf(peers) + {p.name} ensures n in NamesOf(all) {
      if n in NamesOf(peers) {
        var i :| 0 <= i < |peers| && peers[i].name == n;
        assert all[i].name == n;
      } else {
        assert all[|peers|].name == n;
      }
    }
  }

  lemma DistinctAppend(peers: seq<Peer>, p: Peer)
    requires Distinct(peers) && p.name !in NamesOf(peers) && p.publicKey != ""
    requires forall i :: 0 <= i < |peers| ==> peers[i].publicKey != p.publicKey && peers[i].ipv4 != p.ipv4
    ensures Distinct(peers + [p])
  {
    forall i | 0 <= i < |peers| ensures peers[i].name != p.name {
      assert peers[i].name in NamesOf(peers);
    }
  }

  lemma TableAppend(table: PeerTable, peers: seq<Peer>, p: Peer, row: PeerRecord)
    requires TableOk(table, peers) && p.name !in NamesOf(peers) && RowFor(row, p)
    ensures TableOk(table[p.name := row], peers + [p])
  {
    NamesOfAppend(peers, p);
  }

  lemma TableWithout(table: PeerTable, peers: seq<Peer>, name: string)
    requires TableOk(table, peers)
    ensures TableOk(table - {name}, Without(name, peers))
  {
    var fewer := Without(name, peers);
    WithoutMembers(name, peers);
    forall n ensures n in NamesOf(fewer) <==> n in NamesOf(peers) && n != name {
      NamesOfMember(fewer, n);
      NamesOfMember(peers, n);
    }
    forall i | 0 <= i < |fewer| ensures fewer[i].name in table - {name} && RowFor(table[fewer[i].name], fewer[i]) {
      assert fewer[i] in fewer;
      var k :| 0 <= k < |peers| && peers[k] == fewer[i];
    }
  }

  /** A name's key is held by no other row. */
  lemma EnabledAfterDelete(table: PeerTable, name: string)
    requires KeysUnique(table) && name in table
    ensures EnabledKeys(table - {name}) == EnabledKeys(table) - {table[name].publicKey}
  {
    var after := table - {name};
    forall k | k in EnabledKeys(table) && k != table[name].publicKey ensures k in EnabledKeys(after) {
      var n :| n in table && table[n].enabled && table[n].publicKey == k;
      assert after[n] == table[n];
    }
  }

  lemma EnabledAfterSet(table: PeerTable, peers: seq<Peer>, name: string, enabled: bool)
    requires Distinct(peers) && TableOk(table, peers) && name in table
    ensures var after := table[name := table[name].(enabled := enabled)];
            && TableOk(after, peers)
            && EnabledKeys(after) == if enabled then EnabledKeys(table) + {table[name].publicKey}
                                     else EnabledKeys(table) - {table[name].publicKey}
  {
    var after := table[name := table[name].(enabled := enabled)];
    AgreementIsUnique(table, peers);
    if enabled {
      assert after[name].publicKey in EnabledKeys(after);
    }
    forall k | k in EnabledKeys(table) && k != table[name].publicKey ensures k in EnabledKeys(after) {
      var n :| n in table && table[n].enabled && table[n].publicKey == k;
      assert after[n] == table[n];
    }
  }

  lemma EnabledAfterInsert(table: PeerTable, name: string, row: PeerRecord)
    requires name !in table && row.enabled
    ensures EnabledKeys(table[name := row]) == EnabledKeys(table) + {row.publicKey}
  {
    var after := table[name := row];
    assert after[name].publicKey in EnabledKeys(after);
    forall k | k in EnabledKeys(table) ensures k in EnabledKeys(after) {
      var n :| n in table && table[n].enabled && table[n].publicKey == k;
      assert after[n] == table[n];
    }
  }

  lemma KeysComeFromPeers(table: PeerTable, peers: seq<Peer>, key: string)
    requires TableOk(table, peers) && forall i :: 0 <= i < |peers| ==> peers[i].publicKey != key
    ensures forall n :: n in table ==> table[n].publicKey != key
    ensures key !in EnabledKeys(table)
  {
    forall n | n in table ensures table[n].publicKey != key {
      assert n in NamesOf(peers);
      var i :| 0 <= i < |peers| && peers[i].name == n;
    }
  }

  lemma {:induction false} BlockNamesAreNames(lines: seq<string>)
    ensures forall i :: 0 <= i < |ToDoc(lines).blocks| ==> IsName(ToDoc(lines).blocks[i].name)
    decreases |lines|
  {
    if lines != [] {
      BlockNamesAreNames(lines[1..]);
    }
  }

  lemma ParsedNamesAreNames(content: string, name: string)
    requires name in NamesOf(Parsed(content))
    ensures IsName(name)
  {
    ParsedIsBlocks(content);
    var blocks := ToDoc(Split(content, '\n')).blocks;
    BlockNamesAreNames(Split(content, '\n'));
    var i :| 0 <= i < |Parsed(content)| && Parsed(content)[i].name == name;
    PeerOfKeepsName(blocks[i]);
  }

  // ---- Create --------------------------------------------------------------

  /** The peer a create adds is printable, new and has the least free address. */
  lemma NewPeerIsGood(params: Params, peers: seq<Peer>, name: string, octet: nat, secrets: Secrets)
    requires GoodParams(params) && FreshSecrets(peers, secrets) && ValidName(name)
    requires FreeOctet(params.serverIPv4, IPv4sOf(peers)) == Some(octet)
    ensures var p := NewPeerAt(params, name, octet, secrets);
            && Printable(p) && OneLineFields(p)
            && forall i :: 0 <= i < |peers| ==> peers[i].publicKey != p.publicKey && peers[i].ipv4 != p.ipv4
  {
    NewAddressesReadBack(params.serverIPv4, params.serverIPv6, octet);
    FreeOctetIsLeast(params.serverIPv4, IPv4sOf(peers), FIRST_OCTET);
    forall i | 0 <= i < |peers| ensures peers[i].ipv4 in IPv4sOf(peers) {
      assert IPv4sOf(peers)[i] == peers[i].ipv4;
    }
  }

  /** What a create needs to go through. */
  ghost predicate CanCreate(s: System, params: Params, name: string, deviceOk: bool)
    requires '.' in params.serverIPv4
  {
    && ValidName(name) && name !in NamesOf(Parsed(s.conf)) && deviceOk
    && FreeOctet(params.serverIPv4, IPv4sOf(Parsed(s.conf))).Some?
  }

  /** The state with a new peer appended, inserted and added to the device. */
  lemma AddedPeerIsConsistent(s: System, after: System, p: Peer, row: PeerRecord)
    requires Consistent(s) && Printable(p) && p.publicKey != "" && RowFor(row, p) && row.enabled
    requires p.name !in NamesOf(Parsed(s.conf))
    requires forall i :: 0 <= i < |Parsed(s.conf)| ==>
               Parsed(s.conf)[i].publicKey != p.publicKey && Parsed(s.conf)[i].ipv4 != p.ipv4
    requires after.conf == Appended(s.conf, p) && after.table == s.table[p.name := row]
    requires after.device == DeviceAdd(s.device, p.publicKey)
    ensures Consistent(after) && Parsed(after.conf) == Parsed(s.conf) + [p]
  {
    AppendRoundTrip(s.conf, p);
    DistinctAppend(Parsed(s.conf), p);
    TableAppend(s.table, Parsed(s.conf), p, row);
    EnabledAfterInsert(s.table, p.name, row);
  }

  lemma SamePeersStayConsistent(s: System, conf: string)
    requires Consistent(s) && Parsed(conf) == Parsed(s.conf) && WellFormed(conf)
    ensures Consistent(s.(conf := conf))
  {
  }

  lemma CreateSucceeds(s: System, params: Params, name: string, actor: string, secrets: Secrets, octet: nat)
    requires Consistent(s) && GoodParams(params) && FreshSecrets(Parsed(s.conf), secrets)
    requires ValidName(name) && name !in NamesOf(Parsed(s.conf))
    requires FreeOctet(params.serverIPv4, IPv4sOf(Parsed(s.conf))) == Some(octet)
    ensures var (after, result) := Create(s, params, name, actor, secrets, true);
            var p := NewPeerAt(params, name, octet, secrets);
            && Consistent(after) && result == Ok(ConfigFor(params, p, secrets))
            && Parsed(after.conf) == Parsed(s.conf) + [p]
            && after.device == s.device[p.publicKey := Traffic.ZERO]
  {
    var peers, p := Parsed(s.conf), NewPeerAt(params, name, octet, secrets);
    FindPeerFinds(peers, name);
    NewPeerIsGood(params, peers, name, octet, secrets);
    KeysComeFromPeers(s.table, peers, p.publicKey);
    var row := PeerRecord(p.publicKey, p.ipv4, p.ipv6, true, actor, ConfigFor(params, p, secrets), 0);
    AddedPeerIsConsistent(s, Create(s, params, name, actor, secrets, true).0, p, row);
  }

  /** A create the device rejects is undone: the configuration text is the old
      one with one newline at its end, and nothing else has changed. */
  lemma CreateRollsBack(s: System, params: Params, name: string, actor: string, secrets: Secrets, octet: nat)
    requires Consistent(s) && GoodParams(params) && FreshSecrets(Parsed(s.conf), secrets)
    requires ValidName(name) && name !in NamesOf(Parsed(s.conf))
    requires FreeOctet(params.serverIPv4, IPv4sOf(Parsed(s.conf))) == Some(octet)
    ensures var (after, result) := Create(s, params, name, actor, secrets, false);
            && result == Err(DeviceFailed)
            && after == s.(conf := OneNewline(s.conf))
            && Parsed(after.conf) == Parsed(s.conf) && Consistent(after)
  {
    var p := NewPeerAt(params, name, octet, secrets);
    FindPeerFinds(Parsed(s.conf), name);
    NewPeerIsGood(params, Parsed(s.conf), name, octet, secrets);
    RemovalUndoesAppend(s.conf, p);
    OneNewlineKeepsPeers(s.conf);
    SamePeersStayConsistent(s, OneNewline(s.conf));
  }

  lemma CreateRefused(s: System, params: Params, name: string, actor: string, secrets: Secrets, deviceOk: bool)
    requires '.' in params.serverIPv4
    requires !CanCreate(s, params, name, true)
    ensures Create(s, params, name, actor, secrets, deviceOk).0 == s
    ensures Create(s, params, name, actor, secrets, deviceOk).1.Err?
  {
    FindPeerFinds(Parsed(s.conf), name);
  }

  /** In a consistent state a create succeeds exactly when it can; otherwise,
      even after a rollback, the peers, the table, the device and the files are
      as before. Consistency is kept. */
  lemma CreateKeepsConsistent(s: System, params: Params, name: string, actor: string, secrets: Secrets, deviceOk: bool)
    requires Consistent(s) && GoodParams(params) && FreshSecrets(Parsed(s.conf), secrets)
    ensures var (after, result) := Create(s, params, name, actor, secrets, deviceOk);
            && Consistent(after)
            && (result.Ok? <==> CanCreate(s, params, name, deviceOk))
            && (result.Err? ==> Parsed(after.conf) == Parsed(s.conf) && after == s.(conf := after.conf))
  {
    var octet := FreeOctet(params.serverIPv4, IPv4sOf(Parsed(s.conf)));
    if !CanCreate(s, params, name, true) {
      CreateRefused(s, params, name, actor, secrets, deviceOk);
    } else if deviceOk {
      CreateSucceeds(s, params, name, actor, secrets, octet.value);
    } else {
      CreateRollsBack(s, params, name, actor, secrets, octet.value);
    }
  }

  /** Names are one to fifteen characters. */
  lemma ValidNameIs(name: string)
    ensures ValidName(name) <==> 1 <= |name| <= 15 && forall i :: 0 <= i < |name| ==> IsNameChar(name[i])
  {
  }

  /** What a create answers: the first reason to refuse it. */
  lemma CreateAnswers(s: System, params: Params, name: string, actor: string, secrets: Secrets, deviceOk: bool)
    requires '.' in params.serverIPv4 && forall n :: n in s.table ==> s.table[n].publicKey != secrets.publicKey
    ensures var answer := Create(s, params, name, actor, secrets, deviceOk).1;
            var full := FreeOctet(params.serverIPv4, IPv4sOf(Parsed(s.conf))).None?;
            if !ValidName(name) then answer == Err(InvalidName)
            else if name in NamesOf(Parsed(s.conf)) then answer == Err(PeerExists)
            else if full then answer == Err(NoFreeAddress)
            else if !deviceOk then answer == Err(DeviceFailed)
            else answer.Ok?
  {
    FindPeerFinds(Parsed(s.conf), name);
    CreateAmongAnswers(s, params, Parsed(s.conf), name, actor, secrets, deviceOk);
  }

  lemma CreateAmongAnswers(s: System, params: Params, existing: seq<Peer>, name: string, actor: string,
                           secrets: Secrets, deviceOk: bool)
    requires '.' in params.serverIPv4 && forall n :: n in s.table ==> s.table[n].publicKey != secrets.publicKey
    ensures var answer := CreateAmong(s, params, existing, name, actor, secrets, deviceOk).1;
            if !ValidName(name) then answer == Err(InvalidName)
            else if FindPeer(existing, name).Some? then answer == Err(PeerExists)
            else if FreeOctet(params.serverIPv4, IPv4sOf(existing)).None? then answer == Err(NoFreeAddress)
            else if !deviceOk then answer == Err(DeviceFailed)
            else answer.Ok?
  {
  }

  /** With fewer than 253 configured peers an address is always free. */
  lemma CreateFindsAddress(s: System, params: Params)
    requires '.' in params.serverIPv4 && |Parsed(s.conf)| < 253
    ensures FreeOctet(params.serverIPv4, IPv4sOf(Parsed(s.conf))).Some?
  {
    NeverFullBelow253(params.serverIPv4, IPv4sOf(Parsed(s.conf)));
  }

  // ---- Revoke, Stop, Start, SetLimit, GetConfig ----------------------------

  lemma KeyForConfigured(s: System, name: string)
    requires Consistent(s) && name in s.table
    ensures FindPeer(Parsed(s.conf), name).Some?
    ensures KeyFor(s, name) == s.table[name].publicKey == FindPeer(Parsed(s.conf), name).value.publicKey != ""
  {
    FindPeerFinds(Parsed(s.conf), name);
  }

  /** A complete revoke filters exactly the named peer out of the configuration,
      the table and the device. */
  lemma RevokeKeepsConsistent(s: System, params: Params, name: string)
    requires Consistent(s)
    ensures var (after, result) := Revoke(s, params, name, true);
            && Consistent(after)
            && (result.Ok? <==> name in NamesOf(Parsed(s.conf)))
            && Parsed(after.conf) == Without(name, Parsed(s.conf))
            && after.table == s.table - {name}
            && after.device == if name in s.table then s.device - {s.table[name].publicKey} else s.device
  {
    var peers := Parsed(s.conf);
    FindPeerFinds(peers, name);
    if name in s.table {
      KeyForConfigured(s, name);
      ParsedNamesAreNames(s.conf, name);
      RemovalFilters(s.conf, name);
      WithoutKeepsDistinct(name, peers);
      TableWithout(s.table, peers, name);
      AgreementIsUnique(s.table, peers);
      EnabledAfterDelete(s.table, name);
    } else {
      WithoutAbsent(name, peers);
      assert s.table - {name} == s.table;
    }
  }

  lemma {:induction false} WithoutAbsent(name: string, peers: seq<Peer>)
    requires name !in NamesOf(peers)
    ensures Without(name, peers) == peers
    decreases |peers|
  {
    if peers != [] {
      assert peers[0].name in NamesOf(peers);
      forall n | n in NamesOf(peers[1..]) ensures n in NamesOf(peers) {
        var i :| 0 <= i < |peers[1..]| && peers[1..][i].name == n;
        assert peers[i + 1].name == n;
      }
      WithoutAbsent(name, peers[1..]);
    }
  }

  lemma SetEnabledKeepsConsistent(s: System, name: string, enabled: bool)
    requires Consistent(s) && name in s.table
    ensures var key := s.table[name].publicKey;
            var device := if enabled then DeviceAdd(s.device, key) else DeviceRemove(s.device, key);
            Consistent(SetEnabled(s.(device := device), name, enabled).0)
  {
    var key := s.table[name].publicKey;
    var device := if enabled then DeviceAdd(s.device, key) else DeviceRemove(s.device, key);
    var table := s.table[name := s.table[name].(enabled := enabled)];
    assert TableOk(table, Parsed(s.conf)) && device.Keys == EnabledKeys(table) by {
      EnabledAfterSet(s.table, Parsed(s.conf), name, enabled);
    }
    StaysConsistent(s, s.(device := device, table := table));
  }

  lemma DisabledKeyNotEnabled(table: PeerTable, peers: seq<Peer>, name: string)
    requires Distinct(peers) && TableOk(table, peers) && name in table
    ensures !table[name].enabled ==> table[name].publicKey !in EnabledKeys(table)
  {
    AgreementIsUnique(table, peers);
  }

  lemma FinishStopKeepsConsistent(s: System, name: string, deviceOk: bool)
    requires Consistent(s)
    ensures var (after, result) := FinishStop(s, FindPeer(Parsed(s.conf), name), name, deviceOk);
            && Consistent(after) && after.conf == s.conf
            && (result == Err(PeerNotFound) <==> name !in s.table)
            && (result.Ok? ==> name in after.table && !after.table[name].enabled
                               && after.table[name].publicKey !in after.device)
            && (deviceOk && name in s.table ==> result.Ok?)
  {
    FindPeerFinds(Parsed(s.conf), name);
    if name in s.table {
      KeyForConfigured(s, name);
      SetEnabledKeepsConsistent(s, name, false);
      DisabledKeyNotEnabled(s.table, Parsed(s.conf), name);
    }
  }

  /** Stop and Start first sync; whatever the device answers, the state stays
      consistent, and a configured peer ends up disabled or enabled when the
      device cooperates. */
  lemma StopKeepsConsistent(s: System, params: Params, name: string, junk: nat -> JunkParams, deviceOk: bool)
    requires Consistent(s)
    ensures var (after, result) := Stop(s, params, name, junk, deviceOk);
            && Consistent(after) && after.conf == s.conf
            && (result == Err(PeerNotFound) <==> name !in s.table)
            && (result.Ok? ==> name in after.table && !after.table[name].enabled
                               && after.table[name].publicKey !in after.device)
            && (deviceOk && name in s.table ==> result.Ok?)
  {
    SyncKeepsConsistent(s, params, junk);
    FinishStopKeepsConsistent(Sync(s, params, junk).value, name, deviceOk);
  }

  lemma FinishStartKeepsConsistent(s: System, name: string, deviceOk: bool)
    requires Consistent(s)
    ensures var (after, result) := FinishStart(s, FindPeer(Parsed(s.conf), name), name, deviceOk);
            && Consistent(after) && after.conf == s.conf
            && (result == Err(PeerNotFound) <==> name !in s.table)
            && (result.Ok? ==> name in after.table && after.table[name].enabled
                               && after.table[name].publicKey in after.device)
            && (deviceOk && name in s.table ==> result.Ok?)
  {
    FindPeerFinds(Parsed(s.conf), name);
    if name in s.table {
      KeyForConfigured(s, name);
      SetEnabledKeepsConsistent(s, name, true);
      assert s.table[name].enabled ==> s.table[name].publicKey in EnabledKeys(s.table);
    }
  }

  lemma StartKeepsConsistent(s: System, params: Params, name: string, junk: nat -> JunkParams, deviceOk: bool)
    requires Consistent(s)
    ensures var (after, result) := Start(s, params, name, junk, deviceOk);
            && Consistent(after) && after.conf == s.conf
            && (result == Err(PeerNotFound) <==> name !in s.table)
            && (result.Ok? ==> name in after.table && after.table[name].enabled
                               && after.table[name].publicKey in after.device)
            && (deviceOk && name in s.table ==> result.Ok?)
  {
    SyncKeepsConsistent(s, params, junk);
    FinishStartKeepsConsistent(Sync(s, params, junk).value, name, deviceOk);
  }

  lemma StopTakesOff(s: System, params: Params, name: string, junk: nat -> JunkParams)
    requires Consistent(s) && name in s.table
    ensures var stopped := Stop(s, params, name, junk, true).0;
            && Consistent(stopped) && name in stopped.table
            && stopped.table[name].publicKey == s.table[name].publicKey
            && s.table[name].publicKey !in stopped.device
  {
    SyncKeepsConsistent(s, params, junk);
    StopKeepsConsistent(s, params, name, junk, true);
    KeyForConfigured(Sync(s, params, junk).value, name);
  }

  lemma StartPutsOn(s: System, params: Params, name: string, junk: nat -> JunkParams)
    requires Consistent(s) && name in s.table && s.table[name].publicKey !in s.device
    ensures var started, key := Start(s, params, name, junk, true).0, s.table[name].publicKey;
            key in started.device && started.device[key] == Traffic.ZERO
  {
    SyncKeepsConsistent(s, params, junk);
    StartKeepsConsistent(s, params, name, junk, true);
    KeyForConfigured(Sync(s, params, junk).value, name);
  }

  /** Stopping and starting an enabled peer zeroes its counters: the collector
      sees a joint drop. */
  lemma StopStartZeroesCounters(s: System, params: Params, name: string, junk: nat -> JunkParams,
                                other: nat -> JunkParams)
    requires Consistent(s) && name in s.table && s.table[name].enabled
    ensures var stopped := Stop(s, params, name, junk, true).0;
            var started := Start(stopped, params, name, other, true).0;
            var key := s.table[name].publicKey;
            key in s.device && key !in stopped.device && key in started.device && started.device[key] == Traffic.ZERO
  {
    StopTakesOff(s, params, name, junk);
    StartPutsOn(Stop(s, params, name, junk, true).0, params, name, other);
    assert s.table[name].publicKey in EnabledKeys(s.table);
  }

  lemma SetLimitKeepsConsistent(s: System, name: string, limit: nat)
    requires Consistent(s)
    ensures Consistent(SetLimit(s, name, limit).0)
  {
    if name in s.table {
      SameIdentityKeepsAgreement(s, s.table[name := s.table[name].(limit := limit)], s.files);
    }
  }

  lemma StoreConfigKeepsIdentity(table: PeerTable, name: string, config: string)
    requires name in table
    ensures SameIdentity(table, StoreConfig(table, name, config))
  {
  }

  lemma GetConfigKeepsConsistent(s: System, params: Params, name: string, junk: JunkParams)
    requires Consistent(s) && name in s.table
    ensures Consistent(GetConfig(s, params, name, junk).0)
  {
    var config := StoredConfig(s, params, name);
    if config != "" && EnsureJunkParams(config, junk).Ok? {
      var updated := EnsureJunkParams(config, junk).value;
      StoreConfigKeepsIdentity(s.table, name, updated);
      var table := if updated != config then StoreConfig(s.table, name, updated) else s.table;
      SameIdentityKeepsAgreement(s, table, ClientFile.SaveInAll(s.files, params.clientDirs, name, updated));
    }
  }

  /** Handing out a configuration never changes anything else on record: not the
      key, the addresses, the enabled flag, the creator or the limit. */
  lemma GetConfigTouchesOnlyConfig(s: System, params: Params, name: string, junk: JunkParams, n: string)
    requires n in s.table
    ensures var after := GetConfig(s, params, name, junk).0;
            && after.conf == s.conf && after.device == s.device && n in after.table
            && after.table[n] == s.table[n].(clientConfig := after.table[n].clientConfig)
            && (n != name ==> after.table[n] == s.table[n])
  {
  }

  // ---- requests for names that are not configured --------------------------

  /** No client file of that name needs parameters and could take them. */
  ghost predicate StrayIsHarmless(s: System, params: Params, name: string) {
    var file := ClientFile.LoadFrom(s.files, params.clientDirs, name);
    file.Some? ==> SyncStable(file.value)
  }

  lemma StrayRowIsStored(table: PeerTable, peers: seq<Peer>, name: string, config: string)
    requires Distinct(peers) && TableOk(table, peers) && name !in table
    ensures name in StoreConfig(table, name, config)
  {
    KeysComeFromPeers(table, peers, "");
  }

  /** Asking for the configuration of a name that is not configured keeps the
      state consistent exactly when there is no stray client file that would be
      given parameters: such a file becomes a row without a key. */
  lemma StrayRequestIsHarmlessIff(s: System, params: Params, name: string, junk: JunkParams)
    requires Consistent(s) && name !in s.table
    ensures Consistent(GetConfig(s, params, name, junk).0) <==> StrayIsHarmless(s, params, name)
  {
    var after, text := GetConfig(s, params, name, junk).0, StoredConfig(s, params, name);
    InjectionSucceedsIff(text, junk);
    if StrayIsHarmless(s, params, name) {
      assert after.table == s.table;
      SameIdentityKeepsAgreement(s, s.table, after.files);
    } else {
      InjectionAddsJunk(text, junk);
      StrayRowIsStored(s.table, Parsed(s.conf), name, EnsureJunkParams(text, junk).value);
      assert after.table.Keys != s.table.Keys;
    }
  }

  lemma StrayRowIsClashFree(table: PeerTable, name: string, row: PeerRecord, files: ClientFile.Files, dirs: seq<string>,
                            peers: seq<Peer>, junk: nat -> JunkParams)
    requires Distinct(peers) && TableOk(table, peers) && name !in table && row.publicKey == ""
    ensures SyncTable.ClashFree(table[name := row], SyncRecords(files, dirs, peers, junk))
  {
    AgreementIsUnique(table, peers);
    forall i, n | 0 <= i < |peers| && n in table && n != peers[i].name
      ensures table[n].publicKey != peers[i].publicKey
    {
      assert peers[i].name in table;
    }
  }

  /** The next sync prunes such a row and restores consistency. */
  lemma SyncDropsStrayRow(s: System, params: Params, name: string, row: PeerRecord, junk: nat -> JunkParams)
    requires Consistent(s) && name !in s.table && row.publicKey == ""
    ensures var stray := s.(table := s.table[name := row]);
            Sync(stray, params, junk).Ok? && Consistent(Sync(stray, params, junk).value)
  {
    var stray, peers := s.table[name := row], Parsed(s.conf);
    StrayRowIsClashFree(s.table, name, row, s.files, params.clientDirs, peers, junk);
    SyncIsExact(stray, s.files, params.clientDirs, peers, junk);
    SyncAgrees(stray, s.files, params.clientDirs, peers, junk);
    var after := SyncedTable(stray, s.files, params.clientDirs, peers, junk).value;
    AgreeingTablesAreAlike(s.table, after, peers);
    SameIdentityKeepsAgreement(s, after, s.files);
  }
}
