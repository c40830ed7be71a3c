/** The peer service on its components: the configuration file, the database,
    the live device and the client files (internal/peer/service.go). Every
    method does to them what its function in PeerSystem says. */
module Service {
  import opened Common
  import opened Traffic
  import opened WgConf
  import FreeIP
  import opened Junk
  import opened Store
  import ClientFile
  import Collector
  import opened PeerSystem

  /** The WireGuard interface; whether it accepts a change is an input. */
  class LiveDevice {
    var counters: map<string, Bytes>

    constructor ()
      ensures counters == map[]
    {
      counters := map[];
    }

    /** The interface comes up with every given key, counters at zero. */
    method Load(peers: seq<Peer>)
      modifies this
      ensures counters == map i | 0 <= i < |peers| :: peers[i].publicKey := ZERO
    {
      counters := map i | 0 <= i < |peers| :: peers[i].publicKey := ZERO;
    }

    method AddPeer(key: string, accepts: bool)
      modifies this
      ensures counters == if accepts then DeviceAdd(old(counters), key) else old(counters)
    {
      if accepts && key !in counters {
        counters := counters[key := ZERO];
      }
    }

    method RemovePeer(key: string, accepts: bool)
      modifies this
      ensures counters == if accepts then DeviceRemove(old(counters), key) else old(counters)
    {
      if accepts {
        counters := counters - {key};
      }
    }

    /** The device moves bytes for a key it has. */
    method Transfer(key: string, rx: nat, tx: nat)
      modifies this
      ensures counters == if key in old(counters) then old(counters)[key := old(counters)[key].Plus(Bytes(rx, tx))]
                          else old(counters)
    {
      if key in counters {
        counters := counters[key := counters[key].Plus(Bytes(rx, tx))];
      }
    }

    /** One entry for each key. */
    method GetPeerStats() returns (stats: seq<Collector.PeerStats>)
      ensures Collector.ByKey(stats) == counters
    {
      stats := [];
      var keys := counters.Keys;
      while keys != {}
        invariant keys <= counters.Keys
        invariant Collector.ByKey(stats) == map k | k in counters && k !in keys :: counters[k]
        decreases |keys|
      {
        var k :| k in keys;
        var entry := Collector.PeerStats(k, counters[k]);
        assert (stats + [entry])[..|stats|] == stats;
        stats := stats + [entry];
        keys := keys - {k};
      }
    }
  }

  class PeerService {
    const params: Params
    const conf: ConfigFile
    const db: Database
    const device: LiveDevice
    const clients: ClientFile.FileSystem

    constructor (params: Params, conf: ConfigFile, db: Database, device: LiveDevice, clients: ClientFile.FileSystem)
      ensures this.params == params && this.conf == conf && this.db == db
      ensures this.device == device && this.clients == clients
    {
      this.params := params;
      this.conf := conf;
      this.db := db;
      this.device := device;
      this.clients := clients;
    }

    ghost function State(): System
      reads conf, db, device, clients
    {
      System(conf.text, db.peers, device.counters, clients.files)
    }

    /** The records and names a sync writes, the files read one by one. */
    method ReadRecords(peers: seq<Peer>, junk: nat -> JunkParams)
        returns (records: seq<SyncRecord>, names: seq<string>)
      ensures records == SyncRecords(clients.files, params.clientDirs, peers, junk)
      ensures names == PeerNames(peers)
    {
      records, names := [], [];
      for i := 0 to |peers|
        invariant |records| == i && records == SyncRecords(clients.files, params.clientDirs, peers, junk)[..i]
        invariant |names| == i && names == PeerNames(peers)[..i]
      {
        var config := ReadConfig(peers[i].name, junk(i));
        var p := peers[i];
        names := names + [p.name];
        records := records + [SyncRecord(p.name, p.publicKey, p.ipv4, p.ipv6, config)];
      }
    }

    method ReadConfig(name: string, junk: JunkParams) returns (config: string)
      ensures config == SyncedConfig(clients.files, params.clientDirs, name, junk)
    {
      var loaded := clients.Load(params.clientDirs, name);
      config := if loaded.Some? then loaded.value else "";
      if config != "" {
        var ensured := EnsureJunkParams(config, junk);
        if ensured.Ok? {
          config := ensured.value;
        }
      }
    }

    method SyncFromConfig(junk: nat -> JunkParams) returns (r: Result<(), Error>)
      modifies db`peers
      ensures match Sync(old(State()), params, junk)
              case Ok(synced) => r == Ok(()) && State() == synced
              case Err(e) => r == Err(e) && State() == old(State())
    {
      var peers := ParseContent(conf.text);
      var records, names := ReadRecords(peers, junk);
      var ok := db.SyncPeersFromConfig(records);
      if !ok {
        return Err(KeyConflict);
      }
      db.PrunePeersExcept(names);
      r := Ok(());
    }

    static method Find(peers: seq<Peer>, name: string) returns (found: Option<Peer>)
      ensures found == FindPeer(peers, name)
    {
      for i := 0 to |peers|
        invariant FindPeer(peers[i..], name) == FindPeer(peers, name)
      {
        if peers[i].name == name {
          return Some(peers[i]);
        }
      }
      found := None;
    }

    method FindConfigPeer(name: string) returns (found: Option<Peer>)
      ensures found == FindPeer(Parsed(conf.text), name)
    {
      var peers := ParseContent(conf.text);
      found := Find(peers, name);
    }

    static method UsedIPs(peers: seq<Peer>) returns (used: seq<string>)
      ensures used == IPv4sOf(peers)
    {
      used := [];
      for i := 0 to |peers|
        invariant used == IPv4sOf(peers)[..i]
      {
        used := used + [peers[i].ipv4];
      }
    }

    method CommitPeer(p: Peer, config: string, actor: string, deviceOk: bool) returns (r: Result<string, Error>)
      modifies conf, db`peers, device, clients
      ensures (State(), r) == FinishCreate(old(State()), params, p, config, actor, deviceOk)
    {
      conf.AppendPeer(p);
      device.AddPeer(p.publicKey, deviceOk);
      if !deviceOk {
        conf.RemovePeer(p.name);
        return Err(DeviceFailed);
      }
      var ok := db.UpsertPeer(p.name, PeerRecord(p.publicKey, p.ipv4, p.ipv6, true, actor, config, 0));
      if !ok {
        return Err(KeyConflict);
      }
      clients.SaveAll(params.clientDirs, p.name, config);
      r := Ok(config);
    }

    method Create(name: string, actor: string, secrets: Secrets, deviceOk: bool) returns (r: Result<string, Error>)
      requires '.' in params.serverIPv4
      modifies conf, db`peers, device, clients
      ensures (State(), r) == PeerSystem.Create(old(State()), params, name, actor, secrets, deviceOk)
    {
      if !ValidName(name) {
        return Err(InvalidName);
      }
      var existing := ParseContent(conf.text);
      var found := Find(existing, name);
      if found.Some? {
        return Err(PeerExists);
      }
      var used := UsedIPs(existing);
      var octet := FreeIP.FindFreeIP(params.serverIPv4, used);
      if octet.None? {
        return Err(NoFreeAddress);
      }
      var p := NewPeerAt(params, name, octet.value, secrets);
      r := CommitPeer(p, ConfigFor(params, p, secrets), actor, deviceOk);
    }

    method GetConfig(name: string, junk: JunkParams) returns (r: Result<string, Error>)
      modifies db`peers, clients
      ensures (State(), r) == PeerSystem.GetConfig(old(State()), params, name, junk)
    {
      var config := "";
      if name in db.peers && db.peers[name].clientConfig != "" {
        config := db.peers[name].clientConfig;
      } else {
        var loaded := clients.Load(params.clientDirs, name);
        if loaded.Some? {
          config := loaded.value;
        }
      }
      if config != "" {
        var ensured := EnsureJunkParams(config, junk);
        if ensured.Err? {
          return Err(JunkFailed);
        }
        var updated := ensured.value;
        if updated != config && name in db.peers {
          var _ := db.UpsertPeer(name, db.peers[name].(clientConfig := updated, limit := 0));
        } else if updated != config {
          var _ := db.UpsertPeer(name, PeerRecord("", "", "", true, "import", updated, 0));
        }
        clients.SaveAll(params.clientDirs, name, updated);
        return Ok(updated);
      }
      var found := FindConfigPeer(name);
      r := Err(if found.Some? then ConfigMissing else PeerNotFound);
    }

    method Revoke(name: string, deviceOk: bool) returns (r: Result<(), Error>)
      modifies conf, db`peers, device, clients
      ensures (State(), r) == PeerSystem.Revoke(old(State()), params, name, deviceOk)
    {
      var found := FindConfigPeer(name);
      var key := if found.Some? then found.value.publicKey else "";
      if found.None? && name !in db.peers {
        return Err(PeerNotFound);
      }
      if key == "" && name in db.peers {
        key := db.peers[name].publicKey;
      }
      if found.Some? {
        conf.RemovePeer(name);
      }
      if key != "" {
        device.RemovePeer(key, deviceOk);
        if !deviceOk {
          return Err(DeviceFailed);
        }
      }
      db.DeletePeer(name);
      clients.Remove(params.clientDirs, name);
      r := Ok(());
    }

    method SetEnabled(name: string, enabled: bool) returns (r: Result<(), Error>)
      modifies db`peers
      ensures (State(), r) == PeerSystem.SetEnabled(old(State()), name, enabled)
    {
      var found := db.SetPeerEnabled(name, enabled);
      r := if found then Ok(()) else Err(RowMissing);
    }

    method Stop(name: string, junk: nat -> JunkParams, deviceOk: bool) returns (r: Result<(), Error>)
      modifies db`peers, device
      ensures (State(), r) == PeerSystem.Stop(old(State()), params, name, junk, deviceOk)
    {
      r := SyncFromConfig(junk);
      if r.Err? {
        return;
      }
      var found := FindConfigPeer(name);
      if found.None? {
        return Err(PeerNotFound);
      }
      if name in db.peers && !db.peers[name].enabled {
        return Ok(());
      }
      var key := found.value.publicKey;
      if key == "" && name in db.peers {
        key := db.peers[name].publicKey;
      }
      if key == "" {
        return Err(PeerNotFound);
      }
      device.RemovePeer(key, deviceOk);
      if !deviceOk {
        return Err(DeviceFailed);
      }
      r := SetEnabled(name, false);
    }

    method Start(name: string, junk: nat -> JunkParams, deviceOk: bool) returns (r: Result<(), Error>)
      modifies db`peers, device
      ensures (State(), r) == PeerSystem.Start(old(State()), params, name, junk, deviceOk)
    {
      r := SyncFromConfig(junk);
      if r.Err? {
        return;
      }
      var found := FindConfigPeer(name);
      if found.None? {
        return Err(PeerNotFound);
      }
      if name in db.peers && db.peers[name].enabled {
        return Ok(());
      }
      device.AddPeer(found.value.publicKey, deviceOk);
      if !deviceOk {
        return Err(DeviceFailed);
      }
      r := SetEnabled(name, true);
    }

    method SetLimit(name: string, limit: nat) returns (r: Result<(), Error>)
      modifies db`peers
      ensures (State(), r) == PeerSystem.SetLimit(old(State()), name, limit)
    {
      if name !in db.peers {
        return Err(PeerNotFound);
      }
      var _ := db.SetPeerLimit(name, limit);
      r := Ok(());
    }

    /** Takes every disabled peer off the device. */
    method ApplyDisabledPeers()
      modifies device
      ensures State() == ApplyDisabled(old(State()))
    {
      var rows := db.ListPeers();
      for i := 0 to |rows|
        invariant device.counters == old(device.counters) - KeysToDrop(rows[..i])
      {
        var row := rows[i].1;
        assert rows[..i + 1][..i] == rows[..i];
        if row.enabled || row.publicKey == "" {
          continue;
        }
        device.RemovePeer(row.publicKey, true);
      }
      assert rows[..|rows|] == rows;
      ListedDisabledKeys(db.peers, rows);
    }

    /** The program starts; a failed sync is only logged. */
    method Resume(junk: nat -> JunkParams)
      modifies db`peers, device
      ensures State() == PeerSystem.Resume(old(State()), params, junk)
    {
      var _ := SyncFromConfig(junk);
      ApplyDisabledPeers();
    }

    /** The interface loads the configuration. */
    method Reload()
      modifies device
      ensures State() == PeerSystem.Reload(old(State()))
    {
      var peers := ParseContent(conf.text);
      device.Load(peers);
    }

    /** The interface comes up and then the program. */
    method Startup(junk: nat -> JunkParams)
      modifies db`peers, device
      ensures State() == PeerSystem.Startup(old(State()), params, junk)
    {
      Reload();
      Resume(junk);
    }
  }

  function KeysToDrop(rows: seq<(string, PeerRecord)>): set<string>
    decreases |rows|
  {
    if rows == [] then {}
    else
      var row := rows[|rows| - 1].1;
      KeysToDrop(rows[..|rows| - 1]) + if row.enabled || row.publicKey == "" then {} else {row.publicKey}
  }

  lemma {:induction false} KeysToDropMembers(rows: seq<(string, PeerRecord)>)
    ensures forall k :: k in KeysToDrop(rows) <==>
              exists i :: 0 <= i < |rows| && !rows[i].1.enabled && rows[i].1.publicKey == k && k != ""
    decreases |rows|
  {
    if rows != [] {
      KeysToDropMembers(rows[..|rows| - 1]);
    }
  }

  lemma ListedDisabledKeys(table: PeerTable, rows: seq<(string, PeerRecord)>)
    requires forall i :: 0 <= i < |rows| ==> rows[i].0 in table && rows[i].1 == table[rows[i].0]
    requires forall n :: n in table ==> (n, table[n]) in rows
    ensures KeysToDrop(rows) == DisabledKeys(table)
  {
    KeysToDropMembers(rows);
    forall k | k in DisabledKeys(table) ensures k in KeysToDrop(rows) {
      var n :| n in table && !table[n].enabled && table[n].publicKey != "" && table[n].publicKey == k;
      var i :| 0 <= i < |rows| && rows[i] == (n, table[n]);
    }
    forall k | k in KeysToDrop(rows) ensures k in DisabledKeys(table) {
      var i :| 0 <= i < |rows| && !rows[i].1.enabled && rows[i].1.publicKey == k && k != "";
      assert table[rows[i].0].publicKey == k;
    }
  }
}
