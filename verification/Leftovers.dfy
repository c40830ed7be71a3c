/** What each single peer operation does to a state in which revocations that
    the device refused have left rows behind. */
module Leftovers {
  import opened Common
  import opened WgConf
  import opened ConfEdit
  import ConfRoundTrip
  import opened FreeIP
  import opened Junk
  import opened Store
  import ClientFile
  import opened PeerSystem
  import opened Consistency
  import opened Lifecycle
  import opened Traffic

  /** Newly drawn keys that neither a row nor the device has. */
  ghost predicate UnusedSecrets(s: System, secrets: Secrets) {
    && FreshSecrets(Parsed(s.conf), secrets) && secrets.publicKey !in s.device
    && forall n :: n in s.table ==> s.table[n].publicKey != secrets.publicKey
  }

  // ---- Create --------------------------------------------------------------

  /** A create either changes nothing or goes on with a peer of that name and of
      the key drawn. */
  lemma CreateIsFinish(s: System, params: Params, existing: seq<Peer>, name: string, actor: string, secrets: Secrets,
                       deviceOk: bool) returns (p: Peer, text: string)
    requires '.' in params.serverIPv4
    ensures var (after, _) := CreateAmong(s, params, existing, name, actor, secrets, deviceOk);
            after == s || after == FinishCreate(s, params, p, text, actor, deviceOk).0
    ensures p.name == name && p.publicKey == secrets.publicKey
  {
    var octet := FreeOctet(params.serverIPv4, IPv4sOf(existing));
    p := NewPeerAt(params, name, if octet.Some? then octet.value else 0, secrets);
    text := ConfigFor(params, p, secrets);
  }

  lemma UpsertKeepsUnique(table: PeerTable, name: string, row: PeerRecord)
    requires KeysUnique(table) && row.publicKey != "" && forall n :: n in table ==> table[n].publicKey != row.publicKey
    ensures KeysUnique(UpsertRow(table, name, row))
  {
  }

  lemma EnabledAfterUpsert(table: PeerTable, name: string, row: PeerRecord)
    requires KeysUnique(table) && row.enabled && forall n :: n in table ==> table[n].publicKey != row.publicKey
    ensures EnabledKeys(UpsertRow(table, name, row)) == EnabledKeys(table) + {row.publicKey} <==>
            (name in table ==> !table[name].enabled)
  {
    var after := UpsertRow(table, name, row);
    assert after[name].publicKey in EnabledKeys(after);
    if name in table && table[name].enabled {
      assert table[name].publicKey in EnabledKeys(table) && table[name].publicKey !in EnabledKeys(after);
    } else {
      forall k | k in EnabledKeys(table) ensures k in EnabledKeys(after) {
        var n :| n in table && table[n].enabled && table[n].publicKey == k;
        assert after[n] == table[n];
      }
    }
  }

  lemma RowsAppend(table: PeerTable, peers: seq<Peer>, p: Peer, row: PeerRecord)
    requires RowsOk(table, peers) && p.name !in NamesOf(peers) && RowFor(row, p)
    ensures RowsOk(UpsertRow(table, p.name, row), peers + [p])
  {
    forall i | 0 <= i < |peers| ensures peers[i].name != p.name {
      assert peers[i].name in NamesOf(peers);
    }
  }

  lemma AddedPeerIsOrderly(s: System, after: System, p: Peer, row: PeerRecord)
    requires Orderly(s) && ConfRoundTrip.Printable(p) && p.publicKey != "" && RowFor(row, p)
    requires p.name !in NamesOf(Parsed(s.conf)) && forall n :: n in s.table ==> s.table[n].publicKey != p.publicKey
    requires forall i :: 0 <= i < |Parsed(s.conf)| ==>
               Parsed(s.conf)[i].publicKey != p.publicKey && Parsed(s.conf)[i].ipv4 != p.ipv4
    requires after.conf == Appended(s.conf, p) && after.table == UpsertRow(s.table, p.name, row)
    ensures Orderly(after) && Parsed(after.conf) == Parsed(s.conf) + [p]
  {
    ConfRoundTrip.AppendRoundTrip(s.conf, p);
    DistinctAppend(Parsed(s.conf), p);
    RowsAppend(s.table, Parsed(s.conf), p, row);
    UpsertKeepsUnique(s.table, p.name, row);
  }

  lemma CreateOverLeftover(s: System, params: Params, name: string, actor: string, secrets: Secrets, octet: nat)
    requires Orderly(s) && GoodParams(params) && UnusedSecrets(s, secrets)
    requires ValidName(name) && name !in NamesOf(Parsed(s.conf))
    requires FreeOctet(params.serverIPv4, IPv4sOf(Parsed(s.conf))) == Some(octet)
    ensures var (after, result) := Create(s, params, name, actor, secrets, true);
            var p := NewPeerAt(params, name, octet, secrets);
            var row := PeerRecord(p.publicKey, p.ipv4, p.ipv6, true, actor, ConfigFor(params, p, secrets), 0);
            && result == Ok(row.clientConfig) && Orderly(after) && Parsed(after.conf) == Parsed(s.conf) + [p]
            && after.table == UpsertRow(s.table, name, row) && after.device == s.device[p.publicKey := ZERO]
            && after.files == ClientFile.SaveInAll(s.files, params.clientDirs, name, row.clientConfig)
  {
    var peers, p := Parsed(s.conf), NewPeerAt(params, name, octet, secrets);
    FindPeerFinds(peers, name);
    NewPeerIsGood(params, peers, name, octet, secrets);
    var row := PeerRecord(p.publicKey, p.ipv4, p.ipv6, true, actor, ConfigFor(params, p, secrets), 0);
    AddedPeerIsOrderly(s, Create(s, params, name, actor, secrets, true).0, p, row);
  }

  lemma RolledBackStaysOrderly(s: System, params: Params, name: string, actor: string, secrets: Secrets, octet: nat)
    requires Orderly(s) && GoodParams(params) && UnusedSecrets(s, secrets)
    requires ValidName(name) && name !in NamesOf(Parsed(s.conf))
    requires FreeOctet(params.serverIPv4, IPv4sOf(Parsed(s.conf))) == Some(octet)
    ensures var after := Create(s, params, name, actor, secrets, false).0;
            Orderly(after) && after == s.(conf := after.conf) && Parsed(after.conf) == Parsed(s.conf)
  {
    var p := NewPeerAt(params, name, octet, secrets);
    FindPeerFinds(Parsed(s.conf), name);
    NewPeerIsGood(params, Parsed(s.conf), name, octet, secrets);
    ConfRoundTrip.RemovalUndoesAppend(s.conf, p);
    OneNewlineKeepsPeers(s.conf);
  }

  /** The name and its new key have been added, and no other row has changed. */
  ghost predicate Adds(s: System, after: System, name: string, key: string) {
    && NamesOf(Parsed(after.conf)) == NamesOf(Parsed(s.conf)) + {name}
    && name in after.table && after.table[name].publicKey == key && after.table[name].enabled
    && after.table.Keys == s.table.Keys + {name}
    && (forall n :: n in s.table && n != name ==> after.table[n] == s.table[n])
    && after.device == s.device[key := ZERO]
  }

  lemma AddedPeerAdds(s: System, after: System, p: Peer, row: PeerRecord)
    requires Parsed(after.conf) == Parsed(s.conf) + [p] && after.table == UpsertRow(s.table, p.name, row)
    requires row.publicKey == p.publicKey && row.enabled && after.device == s.device[p.publicKey := ZERO]
    ensures Adds(s, after, p.name, p.publicKey)
  {
    NamesOfAppend(Parsed(s.conf), p);
  }

  lemma CreateAdds(s: System, params: Params, name: string, actor: string, secrets: Secrets)
    requires Orderly(s) && GoodParams(params) && UnusedSecrets(s, secrets) && CanCreate(s, params, name, true)
    ensures var after := Create(s, params, name, actor, secrets, true).0;
            Orderly(after) && Adds(s, after, name, secrets.publicKey)
  {
    var octet := FreeOctet(params.serverIPv4, IPv4sOf(Parsed(s.conf))).value;
    CreateOverLeftover(s, params, name, actor, secrets, octet);
    var p := NewPeerAt(params, name, octet, secrets);
    var row := PeerRecord(p.publicKey, p.ipv4, p.ipv6, true, actor, ConfigFor(params, p, secrets), 0);
    AddedPeerAdds(s, Create(s, params, name, actor, secrets, true).0, p, row);
  }

  /** Only the text may have changed, and not what it configures. */
  ghost predicate AddsNothing(s: System, after: System) {
    after == s.(conf := after.conf) && NamesOf(Parsed(after.conf)) == NamesOf(Parsed(s.conf))
  }

  lemma CreateAddsNothing(s: System, params: Params, name: string, actor: string, secrets: Secrets, deviceOk: bool)
    requires Orderly(s) && GoodParams(params) && UnusedSecrets(s, secrets) && !CanCreate(s, params, name, deviceOk)
    ensures var after := Create(s, params, name, actor, secrets, deviceOk).0;
            Orderly(after) && AddsNothing(s, after)
  {
    if !CanCreate(s, params, name, true) {
      CreateRefused(s, params, name, actor, secrets, deviceOk);
    } else {
      var octet := FreeOctet(params.serverIPv4, IPv4sOf(Parsed(s.conf))).value;
      RolledBackStaysOrderly(s, params, name, actor, secrets, octet);
    }
  }

  /** Every create keeps the state orderly. It adds the name exactly when it can. */
  lemma CreateKeepsOrderly(s: System, params: Params, name: string, actor: string, secrets: Secrets, deviceOk: bool)
    requires Orderly(s) && GoodParams(params) && UnusedSecrets(s, secrets)
    ensures var after := Create(s, params, name, actor, secrets, deviceOk).0;
            && Orderly(after)
            && if CanCreate(s, params, name, deviceOk) then Adds(s, after, name, secrets.publicKey)
               else AddsNothing(s, after)
  {
    if CanCreate(s, params, name, deviceOk) {
      CreateAdds(s, params, name, actor, secrets);
    } else {
      CreateAddsNothing(s, params, name, actor, secrets, deviceOk);
    }
  }

  /** The create takes over a row whose key is on the device. */
  ghost predicate TakesOverEnabled(s: System, params: Params, name: string, deviceOk: bool)
    requires '.' in params.serverIPv4
  {
    CanCreate(s, params, name, deviceOk) && name in s.table && s.table[name].enabled
  }

  lemma AddedKeyIsTrackedIff(s: System, after: System, name: string, row: PeerRecord)
    requires Tracked(s) && Orderly(after) && after.table == UpsertRow(s.table, name, row) && row.enabled
    requires forall n :: n in s.table ==> s.table[n].publicKey != row.publicKey
    requires after.device == s.device[row.publicKey := ZERO]
    ensures Tracked(after) <==> (name in s.table ==> !s.table[name].enabled)
  {
    EnabledAfterUpsert(s.table, name, row);
    assert after.device.Keys == s.device.Keys + {row.publicKey};
  }

  /** A create keeps track of every key exactly unless it succeeds over an
      enabled row that a refused revoke left behind: that row's key is lost. */
  lemma CreateKeepsTrackedIff(s: System, params: Params, name: string, actor: string, secrets: Secrets, deviceOk: bool)
    requires Tracked(s) && GoodParams(params) && UnusedSecrets(s, secrets)
    ensures Tracked(Create(s, params, name, actor, secrets, deviceOk).0) <==>
            !TakesOverEnabled(s, params, name, deviceOk)
  {
    if CanCreate(s, params, name, deviceOk) {
      var octet := FreeOctet(params.serverIPv4, IPv4sOf(Parsed(s.conf))).value;
      CreateOverLeftover(s, params, name, actor, secrets, octet);
      var p := NewPeerAt(params, name, octet, secrets);
      var row := PeerRecord(p.publicKey, p.ipv4, p.ipv6, true, actor, ConfigFor(params, p, secrets), 0);
      AddedKeyIsTrackedIff(s, Create(s, params, name, actor, secrets, deviceOk).0, name, row);
    } else {
      CreateAddsNothing(s, params, name, actor, secrets, deviceOk);
    }
  }

  // ---- Revoke --------------------------------------------------------------

  lemma ConfiguredHaveRows(s: System)
    requires RowsOk(s.table, Parsed(s.conf))
    ensures NamesOf(Parsed(s.conf)) <= s.table.Keys
  {
    forall n | n in NamesOf(Parsed(s.conf)) ensures n in s.table {
      var i :| 0 <= i < |Parsed(s.conf)| && Parsed(s.conf)[i].name == n;
    }
  }

  lemma KeyForOrderly(s: System, name: string)
    requires Orderly(s) && name in s.table
    ensures KeyFor(s, name) == s.table[name].publicKey != ""
    ensures FindPeer(Parsed(s.conf), name).Some? <==> name in NamesOf(Parsed(s.conf))
  {
    FindPeerFinds(Parsed(s.conf), name);
  }

  lemma CutKeepsRows(table: PeerTable, peers: seq<Peer>, name: string)
    requires RowsOk(table, peers)
    ensures RowsOk(table, Without(name, peers)) && RowsOk(table - {name}, Without(name, peers))
    ensures NamesOf(Without(name, peers)) == NamesOf(peers) - {name}
  {
    var fewer := Without(name, peers);
    WithoutMembers(name, peers);
    forall i | 0 <= i < |fewer| ensures fewer[i].name in table - {name} && RowFor(table[fewer[i].name], fewer[i]) {
      assert fewer[i] in fewer;
      var k :| 0 <= k < |peers| && peers[k] == fewer[i];
    }
    forall n ensures n in NamesOf(fewer) <==> n in NamesOf(peers) && n != name {
      NamesOfMember(fewer, n);
      NamesOfMember(peers, n);
    }
  }

  lemma CutStaysOrderly(s: System, name: string)
    requires Orderly(s) && name in NamesOf(Parsed(s.conf))
    ensures var cut := s.(conf := Removed(s.conf, name));
            Orderly(cut) && NamesOf(Parsed(cut.conf)) == NamesOf(Parsed(s.conf)) - {name}
  {
    ParsedNamesAreNames(s.conf, name);
    RemovalFilters(s.conf, name);
    WithoutKeepsDistinct(name, Parsed(s.conf));
    CutKeepsRows(s.table, Parsed(s.conf), name);
  }

  lemma LeftoverDropped(s: System, name: string)
    requires Orderly(s) && name !in NamesOf(Parsed(s.conf))
    ensures RowsOk(s.table - {name}, Parsed(s.conf)) && KeysUnique(s.table - {name})
  {
    forall i | 0 <= i < |Parsed(s.conf)| ensures Parsed(s.conf)[i].name in s.table - {name} {
      assert Parsed(s.conf)[i].name in NamesOf(Parsed(s.conf));
    }
  }

  /** What a revoke does: the text without the name, then the device and the table. */
  ghost predicate Revokes(s: System, after: System, name: string, deviceOk: bool) {
    && NamesOf(Parsed(after.conf)) == NamesOf(Parsed(s.conf)) - {name}
    && after.table == (if deviceOk then s.table - {name} else s.table)
    && after.device == if deviceOk && name in s.table then s.device - {s.table[name].publicKey} else s.device
  }

  lemma RevokeOfRow(s: System, params: Params, name: string, deviceOk: bool)
    requires Orderly(s) && name in s.table
    ensures var after := Revoke(s, params, name, deviceOk).0;
            Orderly(after) && Revokes(s, after, name, deviceOk)
  {
    FindPeerFinds(Parsed(s.conf), name);
    KeyForOrderly(s, name);
    var configured := name in NamesOf(Parsed(s.conf));
    var cut := if configured then s.(conf := Removed(s.conf, name)) else s;
    assert Orderly(cut) && NamesOf(Parsed(cut.conf)) == NamesOf(Parsed(s.conf)) - {name} by {
      if configured { CutStaysOrderly(s, name); }
    }
    LeftoverDropped(cut, name);
  }

  /** Every revoke keeps the state orderly. One that the device refuses turns the
      peer's row into a leftover; one that it accepts leaves no row. */
  lemma RevokeKeepsOrderly(s: System, params: Params, name: string, deviceOk: bool)
    requires Orderly(s)
    ensures var after := Revoke(s, params, name, deviceOk).0;
            Orderly(after) && Revokes(s, after, name, deviceOk)
  {
    if name in s.table {
      RevokeOfRow(s, params, name, deviceOk);
    } else {
      FindPeerFinds(Parsed(s.conf), name);
      ConfiguredHaveRows(s);
      assert s.table - {name} == s.table;
    }
  }

  /** And keeps account of every key. */
  lemma RevokeKeepsTracked(s: System, params: Params, name: string, deviceOk: bool)
    requires Tracked(s)
    ensures Tracked(Revoke(s, params, name, deviceOk).0)
  {
    RevokeKeepsOrderly(s, params, name, deviceOk);
    if deviceOk && name in s.table {
      EnabledAfterDelete(s.table, name);
    } else {
      assert name !in s.table ==> s.table - {name} == s.table;
    }
  }

  // ---- the other operations ------------------------------------------------

  lemma SetLimitKeepsAgreement(s: System, name: string, limit: nat)
    ensures SetLimit(s, name, limit).1 == if name in s.table then Ok(()) else Err(PeerNotFound)
    ensures SetLimit(s, name, limit).0.conf == s.conf && SetLimit(s, name, limit).0.device == s.device
    ensures SameRows(s.table, SetLimit(s, name, limit).0.table)
    ensures Orderly(s) ==> Orderly(SetLimit(s, name, limit).0)
    ensures Tracked(s) ==> Tracked(SetLimit(s, name, limit).0)
  {
    if name in s.table {
      SameIdentityKeepsAgreement(s, s.table[name := s.table[name].(limit := limit)], s.files);
    }
  }

  lemma GetConfigKeepsAgreement(s: System, params: Params, name: string, junk: JunkParams)
    requires name in s.table || StrayIsHarmless(s, params, name)
    ensures var after := GetConfig(s, params, name, junk).0;
            && after.conf == s.conf && after.device == s.device && SameRows(s.table, after.table)
            && s.table.Keys == after.table.Keys
            && (Orderly(s) ==> Orderly(after)) && (Tracked(s) ==> Tracked(after))
  {
    var config := StoredConfig(s, params, name);
    InjectionSucceedsIff(config, junk);
    if config != "" && EnsureJunkParams(config, junk).Ok? {
      var updated := EnsureJunkParams(config, junk).value;
      if name in s.table {
        StoreConfigKeepsIdentity(s.table, name, updated);
      }
      var table := if updated != config then StoreConfig(s.table, name, updated) else s.table;
      SameIdentityKeepsAgreement(s, table, ClientFile.SaveInAll(s.files, params.clientDirs, name, updated));
    }
  }

  // ---- Stop and Start ------------------------------------------------------

  /** A key that the synced table lost stays on the device and out of the table. */
  lemma LostKeyStays(synced: System, name: string, deviceOk: bool, key: string)
    requires Distinct(Parsed(synced.conf)) && TableOk(synced.table, Parsed(synced.conf))
    requires key in synced.device && forall n :: n in synced.table ==> synced.table[n].publicKey != key
    ensures var found := FindPeer(Parsed(synced.conf), name);
            && !Tracked(FinishStop(synced, found, name, deviceOk).0)
            && !Tracked(FinishStart(synced, found, name, deviceOk).0)
  {
    var found := FindPeer(Parsed(synced.conf), name);
    FindPeerFinds(Parsed(synced.conf), name);
    var stopped := FinishStop(synced, found, name, deviceOk).0;
    var started := FinishStart(synced, found, name, deviceOk).0;
    assert key in stopped.device && key !in EnabledKeys(stopped.table);
    assert key in started.device && key !in EnabledKeys(started.table);
  }

  lemma EnabledLeftoverIsLost(s: System, params: Params, junk: nat -> JunkParams, name: string)
    requires Tracked(s) && IsLeftover(s, name) && s.table[name].enabled
    ensures Sync(s, params, junk).Ok?
    ensures var synced, key := Sync(s, params, junk).value, s.table[name].publicKey;
            && key in synced.device
            && forall n :: n in synced.table ==> synced.table[n].publicKey != key
  {
    SyncOfTracked(s, params, junk);
    assert s.table[name].publicKey in EnabledKeys(s.table);
    var synced := Sync(s, params, junk).value;
    SyncedRowsAgree(s.table, synced.table, Parsed(s.conf));
  }

  lemma FinishKeepsConf(synced: System, found: Option<Peer>, name: string, deviceOk: bool)
    ensures FinishStop(synced, found, name, deviceOk).0.conf == synced.conf
    ensures FinishStart(synced, found, name, deviceOk).0.conf == synced.conf
  {
  }

  lemma SwitchIsFinish(s: System, params: Params, name: string, junk: nat -> JunkParams, deviceOk: bool)
    requires Sync(s, params, junk).Ok?
    ensures var synced, found := Sync(s, params, junk).value, FindPeer(Parsed(s.conf), name);
            && Stop(s, params, name, junk, deviceOk) == FinishStop(synced, found, name, deviceOk)
            && Start(s, params, name, junk, deviceOk) == FinishStart(synced, found, name, deviceOk)
    ensures Stop(s, params, name, junk, deviceOk).0.conf == Start(s, params, name, junk, deviceOk).0.conf == s.conf
  {
    FinishKeepsConf(Sync(s, params, junk).value, FindPeer(Parsed(s.conf), name), name, deviceOk);
  }

  lemma SwitchStaysTracked(synced: System, name: string, deviceOk: bool)
    requires Consistent(synced)
    ensures var found := FindPeer(Parsed(synced.conf), name);
            && Tracked(FinishStop(synced, found, name, deviceOk).0)
            && Tracked(FinishStart(synced, found, name, deviceOk).0)
  {
    FinishStopKeepsConsistent(synced, name, deviceOk);
    FinishStartKeepsConsistent(synced, name, deviceOk);
    ConsistentIff(FinishStop(synced, FindPeer(Parsed(synced.conf), name), name, deviceOk).0);
    ConsistentIff(FinishStart(synced, FindPeer(Parsed(synced.conf), name), name, deviceOk).0);
  }

  /** Stop and Start begin with a sync, so they lose a key exactly when it does. */
  lemma SwitchesKeepTrackedIff(s: System, params: Params, name: string, junk: nat -> JunkParams, deviceOk: bool)
    requires Tracked(s)
    ensures Tracked(Stop(s, params, name, junk, deviceOk).0) <==> NoEnabledLeftover(s)
    ensures Tracked(Start(s, params, name, junk, deviceOk).0) <==> NoEnabledLeftover(s)
    ensures Stop(s, params, name, junk, deviceOk).0.conf == Start(s, params, name, junk, deviceOk).0.conf == s.conf
  {
    SyncOfTracked(s, params, junk);
    SwitchIsFinish(s, params, name, junk, deviceOk);
    var synced := Sync(s, params, junk).value;
    if NoEnabledLeftover(s) {
      SwitchStaysTracked(synced, name, deviceOk);
    } else {
      var n :| IsLeftover(s, n) && s.table[n].enabled;
      EnabledLeftoverIsLost(s, params, junk, n);
      LostKeyStays(synced, name, deviceOk, s.table[n].publicKey);
    }
  }

  /** The same rows, but for their enabled flags. */
  ghost predicate SameButFlags(before: PeerTable, after: PeerTable) {
    after.Keys == before.Keys && forall n :: n in after ==> after[n] == before[n].(enabled := after[n].enabled)
  }

  lemma FlagsKeepOrderly(s: System, after: System)
    requires Orderly(s) && after.conf == s.conf && SameButFlags(s.table, after.table)
    ensures Orderly(after)
  {
  }

  lemma SwitchesChangeFlags(synced: System, found: Option<Peer>, name: string, deviceOk: bool)
    ensures SameButFlags(synced.table, FinishStop(synced, found, name, deviceOk).0.table)
    ensures SameButFlags(synced.table, FinishStart(synced, found, name, deviceOk).0.table)
  {
  }

  lemma SwitchKeepsOrderly(synced: System, name: string, deviceOk: bool)
    requires Orderly(synced)
    ensures var found := FindPeer(Parsed(synced.conf), name);
            && Orderly(FinishStop(synced, found, name, deviceOk).0)
            && Orderly(FinishStart(synced, found, name, deviceOk).0)
  {
    var found := FindPeer(Parsed(synced.conf), name);
    FinishKeepsConf(synced, found, name, deviceOk);
    SwitchesChangeFlags(synced, found, name, deviceOk);
    FlagsKeepOrderly(synced, FinishStop(synced, found, name, deviceOk).0);
    FlagsKeepOrderly(synced, FinishStart(synced, found, name, deviceOk).0);
  }

  /** From an orderly state both keep it orderly, whatever was left over. */
  lemma SwitchesKeepOrderly(s: System, params: Params, name: string, junk: nat -> JunkParams, deviceOk: bool)
    requires Orderly(s)
    ensures Orderly(Stop(s, params, name, junk, deviceOk).0) && Stop(s, params, name, junk, deviceOk).0.conf == s.conf
    ensures Orderly(Start(s, params, name, junk, deviceOk).0) && Start(s, params, name, junk, deviceOk).0.conf == s.conf
  {
    SyncOfOrderly(s, params, junk);
    SwitchIsFinish(s, params, name, junk, deviceOk);
    SwitchKeepsOrderly(Sync(s, params, junk).value, name, deviceOk);
  }

  // ---- restarts ------------------------------------------------------------

  function KeysOf(peers: seq<Peer>): set<string> {
    set i | 0 <= i < |peers| :: peers[i].publicKey
  }

  ghost predicate AllConfiguredEnabled(s: System) {
    forall n :: n in NamesOf(Parsed(s.conf)) && n in s.table ==> s.table[n].enabled
  }

  lemma LeftoverKeyNotReloaded(s: System, n: string)
    requires Orderly(s) && IsLeftover(s, n)
    ensures s.table[n].publicKey !in KeysOf(Parsed(s.conf))
  {
    var peers := Parsed(s.conf);
    forall i | 0 <= i < |peers| ensures peers[i].publicKey != s.table[n].publicKey {
      assert peers[i].name in NamesOf(peers);
    }
  }

  lemma ConfiguredKeyReloaded(s: System, n: string)
    requires Orderly(s) && n in NamesOf(Parsed(s.conf))
    ensures n in s.table && s.table[n].publicKey in KeysOf(Parsed(s.conf))
  {
    var i :| 0 <= i < |Parsed(s.conf)| && Parsed(s.conf)[i].name == n;
    assert RowFor(s.table[n], Parsed(s.conf)[i]);
  }

  lemma DisabledKeyNotTracked(table: PeerTable, n: string)
    requires KeysUnique(table) && n in table && !table[n].enabled
    ensures table[n].publicKey !in EnabledKeys(table)
  {
  }

  lemma AllEnabledAreReloaded(s: System)
    requires Orderly(s) && NoEnabledLeftover(s) && AllConfiguredEnabled(s)
    ensures KeysOf(Parsed(s.conf)) == EnabledKeys(s.table)
  {
    var peers := Parsed(s.conf);
    forall k | k in KeysOf(peers) ensures k in EnabledKeys(s.table) {
      var i :| 0 <= i < |peers| && peers[i].publicKey == k;
      assert peers[i].name in NamesOf(peers) && RowFor(s.table[peers[i].name], peers[i]);
    }
    forall k | k in EnabledKeys(s.table) ensures k in KeysOf(peers) {
      var n :| n in s.table && s.table[n].enabled && s.table[n].publicKey == k;
      assert !IsLeftover(s, n);
      ConfiguredKeyReloaded(s, n);
    }
  }

  lemma ReloadedIffEnabled(s: System)
    requires Orderly(s)
    ensures KeysOf(Parsed(s.conf)) == EnabledKeys(s.table) <==> NoEnabledLeftover(s) && AllConfiguredEnabled(s)
  {
    if n :| IsLeftover(s, n) && s.table[n].enabled {
      LeftoverKeyNotReloaded(s, n);
      assert s.table[n].publicKey in EnabledKeys(s.table);
    } else if n :| n in NamesOf(Parsed(s.conf)) && n in s.table && !s.table[n].enabled {
      ConfiguredKeyReloaded(s, n);
      DisabledKeyNotTracked(s.table, n);
    } else {
      AllEnabledAreReloaded(s);
    }
  }

  /** An interface that loads the configuration again puts every configured peer on
      the device, so the rows keep account of its keys exactly when they are the
      enabled ones. */
  lemma ReloadKeepsTrackedIff(s: System)
    requires Orderly(s)
    ensures Orderly(Reload(s))
    ensures Tracked(Reload(s)) <==> NoEnabledLeftover(s) && AllConfiguredEnabled(s)
  {
    ReloadedIffEnabled(s);
    assert Reload(s).device.Keys == KeysOf(Parsed(s.conf));
  }

  lemma ResumeIsSync(s: System, params: Params, junk: nat -> JunkParams)
    requires Orderly(s)
    ensures Sync(s, params, junk).Ok?
    ensures var synced := Sync(s, params, junk).value;
            && Resume(s, params, junk) == synced.(device := s.device - DisabledKeys(synced.table))
            && Orderly(Resume(s, params, junk)) && Resume(s, params, junk).conf == s.conf
  {
    SyncOfOrderly(s, params, junk);
  }

  lemma NoDisabledOnDevice(s: System)
    requires Tracked(s)
    ensures s.device - DisabledKeys(s.table) == s.device
  {
    forall k | k in s.device ensures k !in DisabledKeys(s.table) {
      assert k in EnabledKeys(s.table);
    }
  }

  /** A program start begins with a sync and loses a key exactly when it does. */
  lemma ResumeKeepsTrackedIff(s: System, params: Params, junk: nat -> JunkParams)
    requires Tracked(s)
    ensures Tracked(Resume(s, params, junk)) <==> NoEnabledLeftover(s)
  {
    SyncOfTracked(s, params, junk);
    ResumeIsSync(s, params, junk);
    var synced := Sync(s, params, junk).value;
    if NoEnabledLeftover(s) {
      NoDisabledOnDevice(synced);
    } else {
      var n :| IsLeftover(s, n) && s.table[n].enabled;
      EnabledLeftoverIsLost(s, params, junk, n);
      assert s.table[n].publicKey in Resume(s, params, junk).device;
      assert s.table[n].publicKey !in EnabledKeys(synced.table);
    }
  }

  // ---- answers and cases off the usual path --------------------------------

  /** Stopping a stopped peer, or starting a started one, answers that it is done and
      asks the device for nothing. */
  lemma SwitchedAlready(synced: System, name: string, deviceOk: bool)
    requires name in NamesOf(Parsed(synced.conf)) && name in synced.table
    ensures var found, enabled := FindPeer(Parsed(synced.conf), name), synced.table[name].enabled;
            && (!enabled ==> FinishStop(synced, found, name, deviceOk) == (synced, Ok(())))
            && (enabled ==> FinishStart(synced, found, name, deviceOk) == (synced, Ok(())))
  {
    FindPeerFinds(Parsed(synced.conf), name);
  }

  /** A peer whose block has no key is stopped and revoked by the key on record. */
  lemma MissingKeyIsRecorded(s: System, params: Params, name: string, key: string)
    requires name in s.table && s.table[name].publicKey == key != "" && s.table[name].enabled
    requires FindPeer(Parsed(s.conf), name).Some? && FindPeer(Parsed(s.conf), name).value.publicKey == ""
    ensures Revoke(s, params, name, true).0.device == s.device - {key}
    ensures FinishStop(s, FindPeer(Parsed(s.conf), name), name, true).0.device == s.device - {key}
  {
  }

  /** A program start whose sync fails still takes the disabled peers off. */
  lemma ResumeWithoutSync(s: System, params: Params, junk: nat -> JunkParams)
    requires Sync(s, params, junk).Err?
    ensures var after := Resume(s, params, junk);
            && after == s.(device := after.device)
            && forall k :: k in after.device <==>
                 k in s.device &&
                 !exists n :: n in s.table && !s.table[n].enabled && s.table[n].publicKey == k && k != ""
  {
    var after := Resume(s, params, junk);
    forall k | k in s.device
      ensures k in DisabledKeys(s.table) <==>
              exists n :: n in s.table && !s.table[n].enabled && s.table[n].publicKey == k && k != ""
    {
    }
  }

  /** A create whose key another row holds is not undone: the block and the key stay,
      and there is no row and no file. */
  lemma CreateKeyConflict(s: System, params: Params, name: string, actor: string, secrets: Secrets)
    requires '.' in params.serverIPv4 && CanCreate(s, params, name, true)
    requires KeyTaken(s.table, name, secrets.publicKey)
    ensures var (after, answer) := Create(s, params, name, actor, secrets, true);
            var octet := FreeOctet(params.serverIPv4, IPv4sOf(Parsed(s.conf))).value;
            && answer == Err(KeyConflict)
            && after == s.(conf := Appended(s.conf, NewPeerAt(params, name, octet, secrets)),
                           device := DeviceAdd(s.device, secrets.publicKey))
  {
    FindPeerFinds(Parsed(s.conf), name);
  }

  /** The row that a stray client file becomes: enabled, imported, with the file's text
      and nothing else. */
  lemma StrayRowIs(s: System, params: Params, name: string, junk: JunkParams, text: string)
    requires name !in s.table && ClientFile.LoadFrom(s.files, params.clientDirs, name) == Some(text)
    requires text != "" && !HasJunkParams(text) && EnsureJunkParams(text, junk).Ok?
    requires !KeyTaken(s.table, name, "")
    ensures var after := GetConfig(s, params, name, junk).0;
            var row := PeerRecord("", "", "", true, "import", EnsureJunkParams(text, junk).value, 0);
            after.table == s.table[name := row]
  {
    InjectionAddsJunk(text, junk);
  }
}
