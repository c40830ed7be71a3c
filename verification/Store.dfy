/** The database tables (internal/store/store.go). */
module Store {
  import opened Common
  import opened Traffic
  import opened TrafficCalc
  import opened PeerRows

  // ---- the peers table -----------------------------------------------------

  /** A peers row; its primary key, the name, is the key of the table. */
  datatype PeerRecord = PeerRecord(publicKey: string, ipv4: string, ipv6: string, enabled: bool,
                                   createdBy: string, clientConfig: string, limit: int)

  type PeerTable = map<string, PeerRecord>

  /** Another row already holds this key, which the table keeps unique. */
  predicate KeyTaken(table: PeerTable, name: string, key: string) {
    exists n | n in table :: n != name && table[n].publicKey == key
  }

  function UpsertRow(table: PeerTable, name: string, r: PeerRecord): PeerTable {
    if name !in table then table[name := r]
    else
      var row := table[name];
      table[name := row.(publicKey := r.publicKey, ipv4 := r.ipv4, ipv6 := r.ipv6, enabled := r.enabled,
                         clientConfig := if r.clientConfig != "" then r.clientConfig else row.clientConfig,
                         limit := if r.limit > 0 then r.limit else row.limit)]
  }

  /** A peer as the configuration describes it. */
  datatype SyncRecord = SyncRecord(name: string, publicKey: string, ipv4: string, ipv6: string, clientConfig: string)

  /** The row a record leaves behind: identity from the record, everything else
      from the old row or the defaults of an import. */
  function SyncedRow(table: PeerTable, r: SyncRecord): PeerRecord {
    if r.name !in table then PeerRecord(r.publicKey, r.ipv4, r.ipv6, true, "import", r.clientConfig, 0)
    else
      var row := table[r.name];
      row.(publicKey := r.publicKey, ipv4 := r.ipv4, ipv6 := r.ipv6,
           clientConfig := if r.clientConfig != "" then r.clientConfig else row.clientConfig)
  }

  function SyncRow(table: PeerTable, r: SyncRecord): PeerTable {
    table[r.name := SyncedRow(table, r)]
  }

  /** All records in order, or nothing if one of them violates key uniqueness. */
  function SyncRows(table: PeerTable, records: seq<SyncRecord>): Option<PeerTable>
    decreases |records|
  {
    if records == [] then Some(table)
    else if KeyTaken(table, records[0].name, records[0].publicKey) then None
    else SyncRows(SyncRow(table, records[0]), records[1..])
  }

  function Prune(table: PeerTable, keep: seq<string>): PeerTable {
    map n | n in table && n in keep :: table[n]
  }

  // ---- the traffic tables --------------------------------------------------

  datatype Snapshot = Snapshot(peerName: string, publicKey: string, counters: Bytes)

  /** The rows of one peer in a table keyed by peer and month. */
  function MonthsOf<V>(table: map<(string, int), V>, name: string): map<int, V> {
    map k | k in table && k.0 == name :: k.1 := table[k]
  }

  lemma MonthsOfUpdate<V>(table: map<(string, int), V>, name: string, month: int, v: V, other: string)
    ensures MonthsOf(table[(name, month) := v], other) ==
            if other == name then MonthsOf(table, other)[month := v] else MonthsOf(table, other)
  {
    var after := table[(name, month) := v];
    forall m ensures m in MonthsOf(table, other) <==> (other, m) in table {
      if (other, m) in table { assert (other, m).0 == other; }
    }
    forall m ensures m in MonthsOf(after, other) <==> (other, m) in after {
      if (other, m) in after { assert (other, m).0 == other; }
    }
  }

  lemma MonthsOfHas<V>(table: map<(string, int), V>, name: string, month: int)
    ensures month in MonthsOf(table, name) <==> (name, month) in table
    ensures (name, month) in table ==> MonthsOf(table, name)[month] == table[(name, month)]
  {
    if (name, month) in table { assert (name, month).0 == name; }
  }

  /** The newest snapshot of a peer, whatever its month. */
  function LatestSnapshot(log: seq<Snapshot>, name: string): Option<Bytes>
    decreases |log|
  {
    if log == [] then None
    else if log[|log| - 1].peerName == name then Some(log[|log| - 1].counters)
    else LatestSnapshot(log[..|log| - 1], name)
  }

  lemma LatestAfterAppend(log: seq<Snapshot>, s: Snapshot, name: string)
    ensures LatestSnapshot(log + [s], name) ==
            if s.peerName == name then Some(s.counters) else LatestSnapshot(log, name)
  {
    assert (log + [s])[..|log|] == log;
  }

  /** The database. Every traffic method takes whether its statement fails. */
  class Database {
    var peers: PeerTable
    var baselines: map<(string, int), Baseline>
    var monthly: map<(string, int), Bytes>
    var snapshots: seq<Snapshot>

    constructor ()
      ensures peers == map[] && snapshots == [] && forall n :: RowsOf(n) == NO_ROWS
    {
      peers := map[];
      baselines := map[];
      monthly := map[];
      snapshots := [];
    }

    ghost function RowsOf(name: string): Rows
      reads this
    {
      Rows(MonthsOf(baselines, name), MonthsOf(monthly, name), LatestSnapshot(snapshots, name))
    }

    method GetTrafficBaseline(name: string, month: int, fails: bool) returns (r: Result<Option<Baseline>, bool>)
      ensures if fails then r.Err?
              else r == Ok(if month in RowsOf(name).baselines then Some(RowsOf(name).baselines[month]) else None)
    {
      MonthsOfHas(baselines, name, month);
      if fails {
        return Err(true);
      }
      r := Ok(if (name, month) in baselines then Some(baselines[(name, month)]) else None);
    }

    method SetTrafficBaseline(name: string, month: int, b: Baseline, fails: bool) returns (err: bool)
      modifies this`baselines
      ensures err == fails
      ensures fails ==> baselines == old(baselines)
      ensures forall n :: RowsOf(n) ==
                if n == name && !fails then old(RowsOf(n)).(baselines := old(RowsOf(n)).baselines[month := b])
                else old(RowsOf(n))
    {
      err := fails;
      if !fails {
        forall n { MonthsOfUpdate(baselines, name, month, b, n); }
        baselines := baselines[(name, month) := b];
      }
    }

    method HasTrafficInMonth(name: string, month: int, fails: bool) returns (r: Result<bool, bool>)
      ensures if fails then r.Err? else r == Ok(month in RowsOf(name).monthly)
    {
      MonthsOfHas(monthly, name, month);
      r := if fails then Err(true) else Ok((name, month) in monthly);
    }

    method GetLatestUsageSnapshot(name: string, fails: bool) returns (r: Result<Option<Bytes>, bool>)
      ensures if fails then r.Err? else r == Ok(RowsOf(name).latest)
    {
      r := if fails then Err(true) else Ok(LatestSnapshot(snapshots, name));
    }

    method GetPeerMonthlyTraffic(name: string, month: int, fails: bool) returns (r: Result<Option<Bytes>, bool>)
      ensures if fails then r.Err? else r == Ok(MonthlyOf(RowsOf(name), month))
    {
      MonthsOfHas(monthly, name, month);
      if fails {
        return Err(true);
      }
      r := Ok(if (name, month) in monthly then Some(monthly[(name, month)]) else None);
    }

    method SetMonthlyTraffic(name: string, month: int, total: Bytes, fails: bool) returns (err: bool)
      modifies this`monthly
      ensures err == fails
      ensures forall n :: RowsOf(n) ==
                if n == name && !fails then old(RowsOf(n)).(monthly := old(RowsOf(n)).monthly[month := total])
                else old(RowsOf(n))
    {
      err := fails;
      if !fails {
        forall n { MonthsOfUpdate(monthly, name, month, total, n); }
        monthly := monthly[(name, month) := total];
      }
    }

    /** Snapshots are only ever appended. */
    method SaveUsageSnapshot(s: Snapshot, fails: bool) returns (err: bool)
      modifies this`snapshots
      ensures err == fails
      ensures snapshots == if fails then old(snapshots) else old(snapshots) + [s]
      ensures forall n :: RowsOf(n) ==
                if n == s.peerName && !fails then old(RowsOf(n)).(latest := Some(s.counters)) else old(RowsOf(n))
    {
      err := fails;
      if !fails {
        forall n { LatestAfterAppend(snapshots, s, n); }
        snapshots := snapshots + [s];
      }
    }

    /** Two deletes in this order; the second may fail after the first. */
    method ResetMonthTraffic(month: int, secondDeleteFails: bool)
      modifies this`baselines, this`monthly
      ensures forall n :: RowsOf(n) == ResetMonth(old(RowsOf(n)), month, secondDeleteFails)
    {
      forall n
        ensures MonthsOf(map k | k in monthly && k.1 != month :: monthly[k], n) == MonthsOf(monthly, n) - {month}
      {
        MonthsOfDelete(monthly, month, n);
      }
      forall n ensures MonthsOf(map k | k in baselines && k.1 != month :: baselines[k], n)
                       == MonthsOf(baselines, n) - {month} {
        MonthsOfDelete(baselines, month, n);
      }
      monthly := map k | k in monthly && k.1 != month :: monthly[k];
      if !secondDeleteFails {
        baselines := map k | k in baselines && k.1 != month :: baselines[k];
      }
    }

    method UpsertPeer(name: string, r: PeerRecord) returns (ok: bool)
      modifies this`peers
      ensures ok <==> !KeyTaken(old(peers), name, r.publicKey)
      ensures peers == if ok then UpsertRow(old(peers), name, r) else old(peers)
    {
      ok := !KeyTaken(peers, name, r.publicKey);
      if ok {
        peers := UpsertRow(peers, name, r);
      }
    }

    method SetPeerLimit(name: string, limit: int) returns (found: bool)
      modifies this`peers
      ensures found <==> name in old(peers)
      ensures peers == if found then old(peers)[name := old(peers)[name].(limit := limit)] else old(peers)
    {
      found := name in peers;
      if found {
        peers := peers[name := peers[name].(limit := limit)];
      }
    }

    method SetPeerEnabled(name: string, enabled: bool) returns (found: bool)
      modifies this`peers
      ensures found <==> name in old(peers)
      ensures peers == if found then old(peers)[name := old(peers)[name].(enabled := enabled)] else old(peers)
    {
      found := name in peers;
      if found {
        peers := peers[name := peers[name].(enabled := enabled)];
      }
    }

    /** Every row once, in some order. */
    method ListPeers() returns (rows: seq<(string, PeerRecord)>)
      ensures forall i :: 0 <= i < |rows| ==> rows[i].0 in peers && rows[i].1 == peers[rows[i].0]
      ensures forall n :: n in peers ==> (n, peers[n]) in rows
      ensures forall i, j :: 0 <= i < j < |rows| ==> rows[i].0 != rows[j].0
    {
      rows := [];
      var names := peers.Keys;
      while names != {}
        invariant names <= peers.Keys
        invariant forall i :: 0 <= i < |rows| ==> rows[i].0 in peers && rows[i].1 == peers[rows[i].0]
        invariant forall n :: n in peers && n !in names ==> (n, peers[n]) in rows
        invariant forall i :: 0 <= i < |rows| ==> rows[i].0 !in names
        invariant forall i, j :: 0 <= i < j < |rows| ==> rows[i].0 != rows[j].0
        decreases |names|
      {
        var n :| n in names;
        rows := rows + [(n, peers[n])];
        names := names - {n};
      }
    }

    method DeletePeer(name: string)
      modifies this`peers
      ensures peers == old(peers) - {name}
    {
      peers := peers - {name};
    }

    /** One transaction: every record or none. */
    method SyncPeersFromConfig(records: seq<SyncRecord>) returns (ok: bool)
      modifies this`peers
      ensures ok <==> SyncRows(old(peers), records).Some?
      ensures peers == if ok then SyncRows(old(peers), records).value else old(peers)
    {
      var tx := peers;
      for i := 0 to |records|
        invariant peers == old(peers)
        invariant SyncRows(tx, records[i..]) == SyncRows(peers, records)
      {
        if KeyTaken(tx, records[i].name, records[i].publicKey) {
          return false;
        }
        tx := SyncRow(tx, records[i]);
      }
      peers := tx;
      ok := true;
    }

    method PrunePeersExcept(keep: seq<string>)
      modifies this`peers
      ensures peers == Prune(old(peers), keep)
    {
      if |keep| == 0 {
        peers := map[];
        return;
      }
      peers := map n | n in peers && n in keep :: peers[n];
    }
  }

  lemma MonthsOfDelete<V>(table: map<(string, int), V>, month: int, name: string)
    ensures MonthsOf(map k | k in table && k.1 != month :: table[k], name) == MonthsOf(table, name) - {month}
  {
    var after := map k | k in table && k.1 != month :: table[k];
    forall m ensures m in MonthsOf(table, name) <==> (name, m) in table { MonthsOfHas(table, name, m); }
    forall m ensures m in MonthsOf(after, name) <==> (name, m) in after { MonthsOfHas(after, name, m); }
  }
}
