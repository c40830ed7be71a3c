/** One pass of the traffic collector over all configured peers
    (internal/monitor/collector.go). */
module Collector {
  import opened Common
  import opened Traffic
  import opened TrafficCalc
  import opened PeerRows
  import opened Store
  import opened WgConf
  import ConfEdit

  datatype PeerStats = PeerStats(publicKey: string, counters: Bytes)

  /** The device's statistics by key; the last entry of a key wins. */
  function ByKey(stats: seq<PeerStats>): map<string, Bytes>
    decreases |stats|
  {
    if stats == [] then map[]
    else ByKey(stats[..|stats| - 1])[stats[|stats| - 1].publicKey := stats[|stats| - 1].counters]
  }

  /** A key has the counters of its last entry, if it has one. */
  lemma {:induction false} ByKeyIsLast(stats: seq<PeerStats>, key: string)
    ensures key !in ByKey(stats) <==> forall i :: 0 <= i < |stats| ==> stats[i].publicKey != key
    ensures key in ByKey(stats) ==>
              exists i :: 0 <= i < |stats| && stats[i].publicKey == key && ByKey(stats)[key] == stats[i].counters
                          && forall j :: i < j < |stats| ==> stats[j].publicKey != key
    decreases |stats|
  {
    if stats != [] {
      var n := |stats| - 1;
      ByKeyIsLast(stats[..n], key);
      if stats[n].publicKey != key && key in ByKey(stats) {
        var i :| 0 <= i < n && stats[..n][i].publicKey == key && ByKey(stats)[key] == stats[..n][i].counters
                 && forall j :: i < j < n ==> stats[..n][j].publicKey != key;
        assert stats[i] == stats[..n][i];
      }
    }
  }

  /** What a pass over `peers` does to the rows of `name`: one step for each
      listed peer of that name whose key the device knows. */
  function PassOver(rows: Rows, name: string, peers: seq<Peer>, byKey: map<string, Bytes>, month: int,
                    faults: nat -> Faults): Rows
    decreases |peers|
  {
    if peers == [] then rows
    else
      var n := |peers| - 1;
      var before := PassOver(rows, name, peers[..n], byKey, month, faults);
      var p := peers[n];
      if p.name == name && p.publicKey in byKey then Collect(before, month, byKey[p.publicKey], faults(n)) else before
  }

  /** The month's baseline, resolved and stored if it has none yet. */
  method LoadBaseline(db: Database, name: string, cur: Bytes, month: int, f: Faults)
      returns (baseline: Option<Baseline>)
    modifies db`baselines
    ensures baseline.None? <==> BaselineFails(old(db.RowsOf(name)), month, f)
    ensures forall n :: db.RowsOf(n) ==
              if n == name && baseline.Some? then WithBaseline(old(db.RowsOf(n)), month, cur, f.hasTraffic)
              else old(db.RowsOf(n))
    ensures baseline.Some? ==>
              month in db.RowsOf(name).baselines && db.RowsOf(name).baselines[month] == baseline.value
  {
    var loaded := db.GetTrafficBaseline(name, month, f.loadBaseline);
    if loaded.Err? {
      return None;
    }
    if loaded.value.Some? {
      return loaded.value;
    }
    var had := db.HasTrafficInMonth(name, month - 1, f.hasTraffic);
    var resolved := Baseline(if had == Ok(true) then cur else ZERO, ZERO);
    var err := db.SetTrafficBaseline(name, month, resolved, f.saveBaseline);
    baseline := if err then None else Some(resolved);
  }

  /** The writes, each only after the one before it succeeded. */
  method WriteRows(db: Database, p: Peer, cur: Bytes, month: int, result: MonthResult, f: Faults)
    modifies db`baselines, db`monthly, db`snapshots
    ensures forall n :: db.RowsOf(n) ==
              if n == p.name then WriteResult(old(db.RowsOf(n)), month, cur, result, f) else old(db.RowsOf(n))
    ensures old(db.snapshots) <= db.snapshots
  {
    if result.reanchor {
      var err := db.SetTrafficBaseline(p.name, month, result.base, f.reanchor);
      if err {
        return;
      }
    }
    var failed := db.SetMonthlyTraffic(p.name, month, result.total, f.saveMonthly);
    if failed {
      return;
    }
    var _ := db.SaveUsageSnapshot(Snapshot(p.name, p.publicKey, cur), f.saveSnapshot);
  }

  lemma PassOneMore(rows: Rows, name: string, peers: seq<Peer>, i: nat, byKey: map<string, Bytes>, month: int,
                    faults: nat -> Faults)
    requires i < |peers|
    ensures var before := PassOver(rows, name, peers[..i], byKey, month, faults);
            var p := peers[i];
            PassOver(rows, name, peers[..i + 1], byKey, month, faults) ==
            if p.name == name && p.publicKey in byKey then Collect(before, month, byKey[p.publicKey], faults(i))
            else before
  {
    assert peers[..i + 1][..i] == peers[..i];
  }

  /** One pass over one peer. */
  method CollectPeer(db: Database, p: Peer, cur: Bytes, month: int, f: Faults)
    modifies db`baselines, db`monthly, db`snapshots
    ensures forall n :: db.RowsOf(n) ==
              if n == p.name then Collect(old(db.RowsOf(n)), month, cur, f) else old(db.RowsOf(n))
    ensures old(db.snapshots) <= db.snapshots
  {
    var baseline := LoadBaseline(db, p.name, cur, month, f);
    if baseline.None? {
      return;
    }
    var prev := db.GetLatestUsageSnapshot(p.name, f.loadSnapshot);
    if prev.Err? {
      return;
    }
    var stored := db.GetPeerMonthlyTraffic(p.name, month, f.loadMonthly);
    if stored.Err? {
      return;
    }
    var input := MonthInput(baseline.value, cur, prev.value, stored.value);
    assert input == InputFor(db.RowsOf(p.name), month, cur);
    var result := ComputeMonthTraffic(input);
    WriteRows(db, p, cur, month, result, f);
  }

  /** The peers in their order, each with the faults of its position; a peer
      the device does not know is passed over. */
  method CollectPeers(db: Database, peers: seq<Peer>, byKey: map<string, Bytes>, month: int, faults: nat -> Faults)
    modifies db`baselines, db`monthly, db`snapshots
    ensures forall n :: db.RowsOf(n) == PassOver(old(db.RowsOf(n)), n, peers, byKey, month, faults)
    ensures old(db.snapshots) <= db.snapshots
  {
    for i := 0 to |peers|
      invariant forall n :: db.RowsOf(n) == PassOver(old(db.RowsOf(n)), n, peers[..i], byKey, month, faults)
      invariant old(db.snapshots) <= db.snapshots
    {
      var p := peers[i];
      forall n
        ensures PassOver(old(db.RowsOf(n)), n, peers[..i + 1], byKey, month, faults) ==
                if p.name == n && p.publicKey in byKey then Collect(db.RowsOf(n), month, byKey[p.publicKey], faults(i))
                else db.RowsOf(n)
      {
        PassOneMore(old(db.RowsOf(n)), n, peers, i, byKey, month, faults);
      }
      if p.publicKey !in byKey {
        continue;
      }
      CollectPeer(db, p, byKey[p.publicKey], month, faults(i));
    }
    assert peers[..|peers|] == peers;
  }

  method IndexByKey(stats: seq<PeerStats>) returns (byKey: map<string, Bytes>)
    ensures byKey == ByKey(stats)
  {
    byKey := map[];
    for i := 0 to |stats|
      invariant byKey == ByKey(stats[..i])
    {
      assert stats[..i + 1][..i] == stats[..i];
      byKey := byKey[stats[i].publicKey := stats[i].counters];
    }
    assert stats[..|stats|] == stats;
  }

  /** A pass: the device's statistics and the configuration text may be
      unreadable, and every store call may fail as `faults` says for the peer
      at that position. */
  method CollectAll(db: Database, stats: Option<seq<PeerStats>>, config: Option<string>, month: int,
                    faults: nat -> Faults)
    modifies db`baselines, db`monthly, db`snapshots
    ensures forall n :: db.RowsOf(n) ==
              if stats.Some? && config.Some?
              then PassOver(old(db.RowsOf(n)), n, Parsed(config.value), ByKey(stats.value), month, faults)
              else old(db.RowsOf(n))
    ensures old(db.snapshots) <= db.snapshots
  {
    if stats.None? {
      return;
    }
    var byKey := IndexByKey(stats.value);
    if config.None? {
      return;
    }
    var peers := ParseContent(config.value);
    CollectPeers(db, peers, byKey, month, faults);
  }

  // ---- independence of peers -----------------------------------------------

  lemma {:induction false} PassSkipsOthers(rows: Rows, name: string, peers: seq<Peer>, byKey: map<string, Bytes>,
                                           month: int, faults: nat -> Faults)
    requires forall i :: 0 <= i < |peers| ==> peers[i].name != name || peers[i].publicKey !in byKey
    ensures PassOver(rows, name, peers, byKey, month, faults) == rows
    decreases |peers|
  {
    if peers != [] {
      PassSkipsOthers(rows, name, peers[..|peers| - 1], byKey, month, faults);
    }
  }

  /** With distinct names a pass is one independent step per peer: a peer known
      to the device gets exactly its own step. */
  lemma {:induction false} PassIsPerPeer(rows: Rows, peers: seq<Peer>, k: nat, byKey: map<string, Bytes>,
                                         month: int, faults: nat -> Faults)
    requires ConfEdit.DistinctNames(peers) && k < |peers|
    ensures PassOver(rows, peers[k].name, peers, byKey, month, faults) ==
            if peers[k].publicKey in byKey then Collect(rows, month, byKey[peers[k].publicKey], faults(k)) else rows
    decreases |peers|
  {
    var n := |peers| - 1;
    var earlier := peers[..n];
    if k == n {
      PassSkipsOthers(rows, peers[k].name, earlier, byKey, month, faults);
    } else {
      assert earlier[k] == peers[k];
      PassIsPerPeer(rows, earlier, k, byKey, month, faults);
    }
  }

  /** The faults of a pass when they follow the peer and not its position. */
  function FaultsByName(peers: seq<Peer>, faultsOf: string -> Faults): nat -> Faults {
    (i: nat) => if i < |peers| then faultsOf(peers[i].name) else NO_FAULTS
  }

  /** So the order of the blocks in the configuration does not matter, whichever
      store calls fail for each peer. */
  lemma PassIgnoresOrder(rows: Rows, name: string, a: seq<Peer>, b: seq<Peer>, byKey: map<string, Bytes>, month: int,
                         faultsOf: string -> Faults)
    requires ConfEdit.DistinctNames(a) && ConfEdit.DistinctNames(b)
    requires forall p :: p in a <==> p in b
    ensures PassOver(rows, name, a, byKey, month, FaultsByName(a, faultsOf)) ==
            PassOver(rows, name, b, byKey, month, FaultsByName(b, faultsOf))
  {
    if i :| 0 <= i < |a| && a[i].name == name {
      assert a[i] in b;
      var j :| 0 <= j < |b| && b[j] == a[i];
      PassIsPerPeer(rows, a, i, byKey, month, FaultsByName(a, faultsOf));
      PassIsPerPeer(rows, b, j, byKey, month, FaultsByName(b, faultsOf));
    } else {
      forall j | 0 <= j < |b| ensures b[j].name != name {
        assert b[j] in a;
      }
      PassSkipsOthers(rows, name, a, byKey, month, FaultsByName(a, faultsOf));
      PassSkipsOthers(rows, name, b, byKey, month, FaultsByName(b, faultsOf));
    }
  }
}
