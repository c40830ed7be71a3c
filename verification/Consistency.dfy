/** When configuration, table and device agree, and what a sync does about it. */
module Consistency {
  import opened Common
  import Text
  import opened WgConf
  import opened ConfEdit
  import opened Junk
  import opened Store
  import opened SyncTable
  import opened ClientFile
  import opened PeerSystem

  /** Names, keys and IPv4 addresses are pairwise distinct and every peer has a key. */
  ghost predicate Distinct(peers: seq<Peer>) {
    && (forall i, j :: 0 <= i < j < |peers| ==>
          && peers[i].name != peers[j].name
          && peers[i].publicKey != peers[j].publicKey
          && peers[i].ipv4 != peers[j].ipv4)
    && forall i :: 0 <= i < |peers| ==> peers[i].publicKey != ""
  }

  ghost predicate ConfOk(conf: string) {
    WellFormed(conf) && Distinct(Parsed(conf))
  }

  ghost predicate RowFor(row: PeerRecord, p: Peer) {
    row.publicKey == p.publicKey && row.ipv4 == p.ipv4 && row.ipv6 == p.ipv6
  }

  /** Every configured peer has a row with its key and addresses. */
  ghost predicate RowsOk(table: PeerTable, peers: seq<Peer>) {
    forall i :: 0 <= i < |peers| ==> peers[i].name in table && RowFor(table[peers[i].name], peers[i])
  }

  /** And no other name has one. */
  ghost predicate TableOk(table: PeerTable, peers: seq<Peer>) {
    table.Keys == NamesOf(peers) && RowsOk(table, peers)
  }

  /** Every row has a key, and no two rows the same. */
  ghost predicate KeysUnique(table: PeerTable) {
    && (forall n :: n in table ==> table[n].publicKey != "")
    && forall a, b :: a in table && b in table && a != b ==> table[a].publicKey != table[b].publicKey
  }

  ghost function EnabledKeys(table: PeerTable): set<string> {
    set n | n in table && table[n].enabled :: table[n].publicKey
  }

  /** The device has exactly the keys of the enabled peers. */
  ghost predicate Consistent(s: System) {
    ConfOk(s.conf) && TableOk(s.table, Parsed(s.conf)) && s.device.Keys == EnabledKeys(s.table)
  }

  /** What every run keeps, whatever the device answers: rows may be left over,
      but every configured peer has its own, and no two share a key. */
  ghost predicate Orderly(s: System) {
    ConfOk(s.conf) && RowsOk(s.table, Parsed(s.conf)) && KeysUnique(s.table)
  }

  /** And the rows, left over or not, keep account of every key on the device. */
  ghost predicate Tracked(s: System) {
    Orderly(s) && s.device.Keys == EnabledKeys(s.table)
  }

  ghost predicate IsLeftover(s: System, name: string) {
    name in s.table && name !in NamesOf(Parsed(s.conf))
  }

  ghost predicate NoEnabledLeftover(s: System) {
    forall n :: IsLeftover(s, n) ==> !s.table[n].enabled
  }

  lemma AgreementIsUnique(table: PeerTable, peers: seq<Peer>)
    requires Distinct(peers) && TableOk(table, peers)
    ensures KeysUnique(table)
  {
    forall a, b | a in table && b in table && a != b ensures table[a].publicKey != table[b].publicKey {
      assert a in NamesOf(peers) && b in NamesOf(peers);
      var i :| 0 <= i < |peers| && peers[i].name == a;
      var j :| 0 <= j < |peers| && peers[j].name == b;
      assert i < j || j < i;
    }
    forall n | n in table ensures table[n].publicKey != "" {
      assert n in NamesOf(peers);
      var i :| 0 <= i < |peers| && peers[i].name == n;
    }
  }

  /** A state is consistent exactly when it is tracked and nothing is left over. */
  lemma ConsistentIff(s: System)
    ensures Consistent(s) <==> Tracked(s) && s.table.Keys == NamesOf(Parsed(s.conf))
  {
    if Consistent(s) {
      AgreementIsUnique(s.table, Parsed(s.conf));
    }
  }

  /** Only the table and the device have changed, and they agree again. */
  lemma StaysConsistent(s: System, after: System)
    requires Consistent(s) && after.conf == s.conf
    requires TableOk(after.table, Parsed(s.conf)) && after.device.Keys == EnabledKeys(after.table)
    ensures Consistent(after)
  {
  }

  // ---- finding and dropping peers ------------------------------------------

  lemma {:induction false} FindPeerFinds(peers: seq<Peer>, name: string)
    ensures FindPeer(peers, name).Some? <==> name in NamesOf(peers)
    ensures FindPeer(peers, name).Some? ==>
              exists i :: 0 <= i < |peers| && peers[i] == FindPeer(peers, name).value && peers[i].name == name
    decreases |peers|
  {
    if peers != [] {
      FindPeerFinds(peers[1..], name);
      forall i | 0 < i < |peers| ensures peers[1..][i - 1] == peers[i] {}
      assert NamesOf(peers) == {peers[0].name} + NamesOf(peers[1..]) by {
        forall n | n in NamesOf(peers) ensures n in {peers[0].name} + NamesOf(peers[1..]) {
          var i :| 0 <= i < |peers| && peers[i].name == n;
          if i > 0 { assert peers[1..][i - 1].name == n; }
        }
        forall n | n in NamesOf(peers[1..]) ensures n in NamesOf(peers) {
          var i :| 0 <= i < |peers[1..]| && peers[1..][i].name == n;
          assert peers[i + 1].name == n;
        }
      }
    }
  }

  /** The peer found is the first of its name. */
  lemma {:induction false} FindPeerIsFirst(peers: seq<Peer>, i: nat)
    requires i < |peers| && forall j :: 0 <= j < i ==> peers[j].name != peers[i].name
    ensures FindPeer(peers, peers[i].name) == Some(peers[i])
    decreases i
  {
    if i > 0 {
      assert peers[1..][i - 1] == peers[i];
      assert forall j :: 0 <= j < i - 1 ==> peers[1..][j] == peers[j + 1];
      FindPeerIsFirst(peers[1..], i - 1);
    }
  }

  lemma {:induction false} WithoutMembers(name: string, peers: seq<Peer>)
    ensures forall p :: p in Without(name, peers) <==> p in peers && p.name != name
    decreases |peers|
  {
    if peers != [] {
      WithoutMembers(name, peers[1..]);
      assert peers == [peers[0]] + peers[1..];
    }
  }

  lemma DistinctCons(p: Peer, rest: seq<Peer>, fewer: seq<Peer>)
    requires Distinct([p] + rest) && Distinct(fewer) && forall q :: q in fewer ==> q in rest
    ensures Distinct([p] + fewer)
  {
    var peers := [p] + rest;
    forall j | 0 <= j < |fewer|
      ensures p.name != fewer[j].name && p.publicKey != fewer[j].publicKey && p.ipv4 != fewer[j].ipv4
    {
      assert fewer[j] in rest;
      var k :| 0 <= k < |rest| && rest[k] == fewer[j];
      assert peers[0] == p && peers[k + 1] == fewer[j];
    }
    assert peers[0].publicKey != "";
  }

  lemma {:induction false} WithoutKeepsDistinct(name: string, peers: seq<Peer>)
    requires Distinct(peers)
    ensures Distinct(Without(name, peers))
    decreases |peers|
  {
    if peers != [] {
      var p, rest := peers[0], peers[1..];
      assert peers == [p] + rest;
      WithoutKeepsDistinct(name, rest);
      WithoutMembers(name, rest);
      DistinctCons(p, rest, Without(name, rest));
    }
  }

  lemma NamesOfMember(peers: seq<Peer>, n: string)
    ensures n in NamesOf(peers) <==> exists p :: p in peers && p.name == n
  {
    if n in NamesOf(peers) {
      var i :| 0 <= i < |peers| && peers[i].name == n;
      assert peers[i] in peers;
    }
  }

  // ---- sync ----------------------------------------------------------------

  lemma NamedIsName(files: Files, dirs: seq<string>, peers: seq<Peer>, junk: nat -> JunkParams, n: string)
    ensures Named(SyncRecords(files, dirs, peers, junk), n) <==> n in NamesOf(peers)
    ensures n in PeerNames(peers) <==> n in NamesOf(peers)
  {
    var records := SyncRecords(files, dirs, peers, junk);
    if i :| 0 <= i < |peers| && peers[i].name == n {
      assert records[i].name == n && PeerNames(peers)[i] == n;
    }
  }

  /** With distinct configured names a sync succeeds exactly when it is free of
      key clashes. Then the table has exactly the configured names, and each row
      is the record's on top of what the table had. */
  lemma SyncIsExact(table: PeerTable, files: Files, dirs: seq<string>, peers: seq<Peer>, junk: nat -> JunkParams)
    requires DistinctNames(peers)
    ensures var records := SyncRecords(files, dirs, peers, junk);
            var synced := SyncedTable(table, files, dirs, peers, junk);
            && (synced.Some? <==> ClashFree(table, records))
            && (synced.Some? ==>
                  && synced.value.Keys == NamesOf(peers)
                  && forall i :: 0 <= i < |peers| ==>
                       peers[i].name in synced.value && synced.value[peers[i].name] == SyncedRow(table, records[i]))
  {
    var records := SyncRecords(files, dirs, peers, junk);
    SyncSucceedsIff(table, records);
    if SyncRows(table, records).Some? {
      SyncRowsResult(table, records);
      forall n ensures n in SyncedTable(table, files, dirs, peers, junk).value <==> n in NamesOf(peers) {
        NamedIsName(files, dirs, peers, junk, n);
      }
      forall i | 0 <= i < |peers| ensures records[i].name == peers[i].name && peers[i].name in NamesOf(peers) {}
    }
  }

  /** A table whose keys are unique never clashes with the peers it has rows for. */
  lemma AgreementIsClashFree(table: PeerTable, files: Files, dirs: seq<string>, peers: seq<Peer>,
                             junk: nat -> JunkParams)
    requires Distinct(peers) && RowsOk(table, peers) && KeysUnique(table)
    ensures ClashFree(table, SyncRecords(files, dirs, peers, junk))
  {
    forall i, n | 0 <= i < |peers| && n in table && n != peers[i].name
      ensures table[n].publicKey != peers[i].publicKey
    {
      assert peers[i].name in table;
    }
  }

  lemma SyncAgrees(table: PeerTable, files: Files, dirs: seq<string>, peers: seq<Peer>, junk: nat -> JunkParams)
    requires DistinctNames(peers) && SyncedTable(table, files, dirs, peers, junk).Some?
    ensures var after := SyncedTable(table, files, dirs, peers, junk).value;
            && TableOk(after, peers)
            && forall n :: n in after ==> after[n].enabled == (n in table ==> table[n].enabled)
  {
    SyncIsExact(table, files, dirs, peers, junk);
    var after := SyncedTable(table, files, dirs, peers, junk).value;
    forall n | n in after ensures after[n].enabled == (n in table ==> table[n].enabled) {
      assert n in NamesOf(peers);
      var i :| 0 <= i < |peers| && peers[i].name == n;
    }
  }

  /** Tables that agree on keys, addresses and the enabled flag are alike. */
  ghost predicate SameIdentity(a: PeerTable, b: PeerTable) {
    && a.Keys == b.Keys
    && forall n :: n in a ==>
         && a[n].publicKey == b[n].publicKey && a[n].ipv4 == b[n].ipv4 && a[n].ipv6 == b[n].ipv6
         && a[n].enabled == b[n].enabled
  }

  lemma SameIdentityKeepsAgreement(s: System, table: PeerTable, files: Files)
    requires SameIdentity(s.table, table)
    ensures Consistent(s) ==> Consistent(s.(table := table, files := files))
    ensures Orderly(s) ==> Orderly(s.(table := table, files := files))
    ensures Tracked(s) ==> Tracked(s.(table := table, files := files))
  {
    assert EnabledKeys(table) == EnabledKeys(s.table);
  }

  lemma AgreeingTablesAreAlike(a: PeerTable, b: PeerTable, peers: seq<Peer>)
    requires TableOk(a, peers) && TableOk(b, peers) && forall n :: n in b ==> b[n].enabled == (n in a ==> a[n].enabled)
    ensures SameIdentity(a, b)
  {
    forall n | n in a
      ensures a[n].publicKey == b[n].publicKey && a[n].ipv4 == b[n].ipv4 && a[n].ipv6 == b[n].ipv6
              && a[n].enabled == b[n].enabled
    {
      var i :| 0 <= i < |peers| && peers[i].name == n;
    }
  }

  /** Every row of `after` was there, with the same key and enabled flag. */
  ghost predicate SameRows(before: PeerTable, after: PeerTable) {
    forall n :: n in after ==>
      n in before && after[n].publicKey == before[n].publicKey && after[n].enabled == before[n].enabled
  }

  lemma EnabledAfterPrune(table: PeerTable, after: PeerTable)
    requires KeysUnique(table) && SameRows(table, after)
    ensures EnabledKeys(after) == EnabledKeys(table) <==> forall n :: n in table && n !in after ==> !table[n].enabled
  {
    if n :| n in table && n !in after && table[n].enabled {
      assert table[n].publicKey in EnabledKeys(table) && table[n].publicKey !in EnabledKeys(after);
    } else {
      forall k | k in EnabledKeys(table) ensures k in EnabledKeys(after) {
        var n :| n in table && table[n].enabled && table[n].publicKey == k;
        assert n in after;
      }
    }
  }

  lemma SyncedRowsAgree(table: PeerTable, after: PeerTable, peers: seq<Peer>)
    requires RowsOk(table, peers) && TableOk(after, peers)
    requires forall n :: n in after ==> after[n].enabled == (n in table ==> table[n].enabled)
    ensures SameRows(table, after)
  {
    forall n | n in after
      ensures n in table && after[n].publicKey == table[n].publicKey && after[n].enabled == table[n].enabled
    {
      assert n in NamesOf(peers);
      var i :| 0 <= i < |peers| && peers[i].name == n;
    }
  }

  /** From an orderly state a sync succeeds and drops exactly the rows left over. */
  lemma SyncOfOrderly(s: System, params: Params, junk: nat -> JunkParams)
    requires Orderly(s)
    ensures Sync(s, params, junk).Ok?
    ensures var after := Sync(s, params, junk).value;
            && after == s.(table := after.table) && TableOk(after.table, Parsed(s.conf))
            && Orderly(after) && SameRows(s.table, after.table)
  {
    var peers := Parsed(s.conf);
    AgreementIsClashFree(s.table, s.files, params.clientDirs, peers, junk);
    SyncIsExact(s.table, s.files, params.clientDirs, peers, junk);
    SyncAgrees(s.table, s.files, params.clientDirs, peers, junk);
    var after := Sync(s, params, junk).value;
    SyncedRowsAgree(s.table, after.table, peers);
    AgreementIsUnique(after.table, peers);
  }

  /** From a tracked state the outcome is consistent exactly when no row left over
      was enabled; otherwise the device keeps a key that no row has. */
  lemma SyncOfTracked(s: System, params: Params, junk: nat -> JunkParams)
    requires Tracked(s)
    ensures Sync(s, params, junk).Ok?
    ensures var after := Sync(s, params, junk).value;
            && after == s.(table := after.table) && TableOk(after.table, Parsed(s.conf))
            && (Consistent(after) <==> NoEnabledLeftover(s))
            && (Tracked(after) <==> NoEnabledLeftover(s))
            && SameRows(s.table, after.table)
  {
    SyncOfOrderly(s, params, junk);
    EnabledAfterPrune(s.table, Sync(s, params, junk).value.table);
  }

  /** In a consistent state a sync succeeds and touches nothing but stored
      client configurations. */
  lemma SyncKeepsConsistent(s: System, params: Params, junk: nat -> JunkParams)
    requires Consistent(s)
    ensures Sync(s, params, junk).Ok?
    ensures var after := Sync(s, params, junk).value;
            && Consistent(after) && after == s.(table := after.table) && SameIdentity(s.table, after.table)
  {
    ConsistentIff(s);
    SyncOfTracked(s, params, junk);
    AgreeingTablesAreAlike(s.table, Sync(s, params, junk).value.table, Parsed(s.conf));
  }

  /** A client file's text that a sync records unchanged, whatever is drawn. */
  ghost predicate SyncStable(text: string) {
    text == "" || HasJunkParams(text) || !PeerAfterInterface(Text.Split(text, '\n'))
  }

  lemma StableFileSyncsSame(files: Files, dirs: seq<string>, name: string, a: JunkParams, b: JunkParams)
    requires LoadFrom(files, dirs, name).Some? ==> SyncStable(LoadFrom(files, dirs, name).value)
    ensures SyncedConfig(files, dirs, name, a) == SyncedConfig(files, dirs, name, b)
  {
    match LoadFrom(files, dirs, name)
    case None =>
    case Some(text) =>
      InjectionSucceedsIff(text, a);
      InjectionSucceedsIff(text, b);
  }

  lemma SecondSyncKeepsRow(table: PeerTable, once: PeerTable, files: Files, dirs: seq<string>, peers: seq<Peer>,
                           junk: nat -> JunkParams, other: nat -> JunkParams, i: nat)
    requires i < |peers| && peers[i].name in once
    requires once[peers[i].name] == SyncedRow(table, SyncRecords(files, dirs, peers, junk)[i])
    requires var n := peers[i].name;
             LoadFrom(files, dirs, n).Some? ==> SyncStable(LoadFrom(files, dirs, n).value)
    ensures SyncedRow(once, SyncRecords(files, dirs, peers, other)[i]) == once[peers[i].name]
  {
    StableFileSyncsSame(files, dirs, peers[i].name, junk(i), other(i));
    assert SyncRecords(files, dirs, peers, junk)[i] == SyncRecords(files, dirs, peers, other)[i];
  }

  ghost predicate RowsFrom(table: PeerTable, records: seq<SyncRecord>, after: PeerTable) {
    forall i :: 0 <= i < |records| ==>
      records[i].name in after && after[records[i].name] == SyncedRow(table, records[i])
  }

  lemma SyncGivesRows(table: PeerTable, files: Files, dirs: seq<string>, peers: seq<Peer>, junk: nat -> JunkParams)
    requires DistinctNames(peers) && SyncedTable(table, files, dirs, peers, junk).Some?
    ensures var after := SyncedTable(table, files, dirs, peers, junk).value;
            after.Keys == NamesOf(peers) && RowsFrom(table, SyncRecords(files, dirs, peers, junk), after)
  {
    SyncIsExact(table, files, dirs, peers, junk);
  }

  lemma AgreeingTableSyncs(table: PeerTable, files: Files, dirs: seq<string>, peers: seq<Peer>, junk: nat -> JunkParams)
    requires Distinct(peers) && TableOk(table, peers)
    ensures SyncedTable(table, files, dirs, peers, junk).Some?
  {
    AgreementIsUnique(table, peers);
    AgreementIsClashFree(table, files, dirs, peers, junk);
    SyncIsExact(table, files, dirs, peers, junk);
  }

  lemma SecondRowsAreSame(table: PeerTable, once: PeerTable, twice: PeerTable, files: Files, dirs: seq<string>,
                          peers: seq<Peer>, junk: nat -> JunkParams, other: nat -> JunkParams)
    requires once.Keys == twice.Keys == NamesOf(peers)
    requires RowsFrom(table, SyncRecords(files, dirs, peers, junk), once)
    requires RowsFrom(once, SyncRecords(files, dirs, peers, other), twice)
    requires forall n :: n in NamesOf(peers) && LoadFrom(files, dirs, n).Some? ==>
               SyncStable(LoadFrom(files, dirs, n).value)
    ensures twice == once
  {
    forall n | n in once ensures twice[n] == once[n] {
      assert n in NamesOf(peers);
      var i :| 0 <= i < |peers| && peers[i].name == n;
      SecondSyncKeepsRow(table, once, files, dirs, peers, junk, other, i);
    }
  }

  /** With unchanged client files that need no parameters, a second sync with
      other random draws changes nothing. */
  lemma SecondSyncChangesNothing(table: PeerTable, files: Files, dirs: seq<string>, peers: seq<Peer>,
                                 junk: nat -> JunkParams, other: nat -> JunkParams)
    requires Distinct(peers) && SyncedTable(table, files, dirs, peers, junk).Some?
    requires forall n :: n in NamesOf(peers) && LoadFrom(files, dirs, n).Some? ==>
               SyncStable(LoadFrom(files, dirs, n).value)
    ensures var once := SyncedTable(table, files, dirs, peers, junk).value;
            SyncedTable(once, files, dirs, peers, other) == Some(once)
  {
    var once := SyncedTable(table, files, dirs, peers, junk).value;
    assert TableOk(once, peers) by { SyncAgrees(table, files, dirs, peers, junk); }
    AgreeingTableSyncs(once, files, dirs, peers, other);
    SyncGivesRows(table, files, dirs, peers, junk);
    SyncGivesRows(once, files, dirs, peers, other);
    var twice := SyncedTable(once, files, dirs, peers, other).value;
    SecondRowsAreSame(table, once, twice, files, dirs, peers, junk, other);
  }
}
