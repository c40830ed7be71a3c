/** What the peer operations do to the whole system, as functions on its state
    (internal/peer/service.go). */
module PeerSystem {
  import opened Common
  import opened Traffic
  import opened WgConf
  import opened FreeIP
  import opened Junk
  import opened Store
  import opened ClientFile

  datatype Params = Params(serverIPv4: string, serverIPv6: string, dns1: string, dns2: string,
                           serverPubKey: string, endpoint: string, allowedIPs: string, clientDirs: seq<string>)

  /** Configuration text, peers table, counters of the live device by key, and
      client files. */
  datatype System = System(conf: string, table: PeerTable, device: map<string, Bytes>, files: Files)

  datatype Error = InvalidName | PeerExists | NoFreeAddress | PeerNotFound | ConfigMissing | JunkFailed
                 | DeviceFailed | KeyConflict | RowMissing

  /** Random material drawn by one operation. */
  datatype Secrets = Secrets(privateKey: string, publicKey: string, preshared: string, junk: JunkParams)

  predicate ValidName(name: string) {
    IsName(name) && |name| <= 15
  }

  // ---- the device ----------------------------------------------------------

  /** Configuring a known key keeps its counters; a new key starts at zero. */
  function DeviceAdd(device: map<string, Bytes>, key: string): map<string, Bytes> {
    if key in device then device else device[key := ZERO]
  }

  function DeviceRemove(device: map<string, Bytes>, key: string): map<string, Bytes> {
    device - {key}
  }

  // ---- the configuration ---------------------------------------------------

  function FindPeer(peers: seq<Peer>, name: string): Option<Peer>
    decreases |peers|
  {
    if peers == [] then None
    else if peers[0].name == name then Some(peers[0])
    else FindPeer(peers[1..], name)
  }

  function IPv4sOf(peers: seq<Peer>): seq<string> {
    seq(|peers|, i requires 0 <= i < |peers| => peers[i].ipv4)
  }

  function PeerNames(peers: seq<Peer>): seq<string> {
    seq(|peers|, i requires 0 <= i < |peers| => peers[i].name)
  }

  // ---- SyncFromConfig ------------------------------------------------------

  /** The client configuration a sync records: the file's text, with junk
      parameters if it can carry them. */
  function SyncedConfig(files: Files, dirs: seq<string>, name: string, junk: JunkParams): string {
    match LoadFrom(files, dirs, name)
    case None => ""
    case Some(text) =>
      if text == "" then ""
      else match EnsureJunkParams(text, junk)
           case Ok(updated) => updated
           case Err(_) => text
  }

  function SyncRecords(files: Files, dirs: seq<string>, peers: seq<Peer>, junk: nat -> JunkParams)
    : (records: seq<SyncRecord>)
    ensures |records| == |peers|
    ensures forall i :: 0 <= i < |peers| ==>
              && records[i].name == peers[i].name && records[i].publicKey == peers[i].publicKey
              && records[i].ipv4 == peers[i].ipv4 && records[i].ipv6 == peers[i].ipv6
              && records[i].clientConfig == SyncedConfig(files, dirs, peers[i].name, junk(i))
  {
    seq(|peers|, i requires 0 <= i < |peers| =>
          SyncRecord(peers[i].name, peers[i].publicKey, peers[i].ipv4, peers[i].ipv6,
                     SyncedConfig(files, dirs, peers[i].name, junk(i))))
  }

  /** The table follows the peers: rows are added or updated and the others
      pruned, unless a key would be held twice. */
  function SyncedTable(table: PeerTable, files: Files, dirs: seq<string>, peers: seq<Peer>, junk: nat -> JunkParams)
    : Option<PeerTable>
  {
    match SyncRows(table, SyncRecords(files, dirs, peers, junk))
    case None => None
    case Some(updated) => Some(Prune(updated, PeerNames(peers)))
  }

  function Sync(s: System, params: Params, junk: nat -> JunkParams): Result<System, Error> {
    match SyncedTable(s.table, s.files, params.clientDirs, Parsed(s.conf), junk)
    case None => Err(KeyConflict)
    case Some(table) => Ok(s.(table := table))
  }

  // ---- Create --------------------------------------------------------------

  function NewPeerAt(params: Params, name: string, octet: nat, secrets: Secrets): Peer
    requires '.' in params.serverIPv4
  {
    var ipv4, ipv6 := Candidate(params.serverIPv4, octet), ClientIPv6(params.serverIPv6, octet);
    Peer(name, secrets.publicKey, secrets.preshared, AllowedIPsFor(ipv4, ipv6), ipv4, ipv6)
  }

  function ConfigFor(params: Params, p: Peer, secrets: Secrets): string {
    BuildClientConfig(secrets.privateKey, p.ipv4, p.ipv6, params.dns1, params.dns2, params.serverPubKey,
                      p.preshared, params.endpoint, params.allowedIPs, secrets.junk)
  }

  /** The steps once the device has been asked: undo the append, or go on to the
      table and the client files. */
  function FinishCreate(s: System, params: Params, p: Peer, config: string, actor: string, deviceOk: bool)
    : (System, Result<string, Error>)
  {
    var conf := Appended(s.conf, p);
    if !deviceOk then (s.(conf := Removed(conf, p.name)), Err(DeviceFailed))
    else
      var added := s.(conf := conf, device := DeviceAdd(s.device, p.publicKey));
      if KeyTaken(s.table, p.name, p.publicKey) then (added, Err(KeyConflict))
      else
        var row := PeerRecord(p.publicKey, p.ipv4, p.ipv6, true, actor, config, 0);
        (added.(table := UpsertRow(s.table, p.name, row),
                files := SaveInAll(s.files, params.clientDirs, p.name, config)), Ok(config))
  }

  /** Create among the existing peers of the configuration. */
  function CreateAmong(s: System, params: Params, existing: seq<Peer>, name: string, actor: string, secrets: Secrets,
                       deviceOk: bool): (System, Result<string, Error>)
    requires '.' in params.serverIPv4
  {
    var octet := FreeOctet(params.serverIPv4, IPv4sOf(existing));
    if !ValidName(name) then (s, Err(InvalidName))
    else if FindPeer(existing, name).Some? then (s, Err(PeerExists))
    else if octet.None? then (s, Err(NoFreeAddress))
    else
      var p := NewPeerAt(params, name, octet.value, secrets);
      FinishCreate(s, params, p, ConfigFor(params, p, secrets), actor, deviceOk)
  }

  /** Returns the client configuration; the state changes on some errors too. */
  function Create(s: System, params: Params, name: string, actor: string, secrets: Secrets, deviceOk: bool)
    : (System, Result<string, Error>)
    requires '.' in params.serverIPv4
  {
    CreateAmong(s, params, Parsed(s.conf), name, actor, secrets, deviceOk)
  }

  // ---- GetConfig -----------------------------------------------------------

  function StoredConfig(s: System, params: Params, name: string): string {
    if name in s.table && s.table[name].clientConfig != "" then s.table[name].clientConfig
    else match LoadFrom(s.files, params.clientDirs, name) case Some(text) => text case None => ""
  }

  /** The row an updated configuration is stored under; a failed upsert is ignored. */
  function StoreConfig(table: PeerTable, name: string, config: string): PeerTable {
    var row := if name in table then table[name].(clientConfig := config, limit := 0)
               else PeerRecord("", "", "", true, "import", config, 0);
    if KeyTaken(table, name, row.publicKey) then table else UpsertRow(table, name, row)
  }

  function GetConfig(s: System, params: Params, name: string, junk: JunkParams): (System, Result<string, Error>) {
    var config := StoredConfig(s, params, name);
    if config == "" then
      (s, Err(if FindPeer(Parsed(s.conf), name).Some? then ConfigMissing else PeerNotFound))
    else
      match EnsureJunkParams(config, junk)
      case Err(_) => (s, Err(JunkFailed))
      case Ok(updated) =>
        (s.(table := if updated != config then StoreConfig(s.table, name, updated) else s.table,
            files := SaveInAll(s.files, params.clientDirs, name, updated)), Ok(updated))
  }

  // ---- Revoke, Stop, Start, SetLimit ---------------------------------------

  /** The configured key, or the one in the table if there is none. */
  function KeyOf(found: Option<Peer>, table: PeerTable, name: string): string {
    if found.Some? && found.value.publicKey != "" then found.value.publicKey
    else if name in table then table[name].publicKey else ""
  }

  function KeyFor(s: System, name: string): string {
    KeyOf(FindPeer(Parsed(s.conf), name), s.table, name)
  }

  function Revoke(s: System, params: Params, name: string, deviceOk: bool): (System, Result<(), Error>) {
    var inConf := FindPeer(Parsed(s.conf), name).Some?;
    var key := KeyFor(s, name);
    if !inConf && name !in s.table then (s, Err(PeerNotFound))
    else
      var cut := if inConf then s.(conf := Removed(s.conf, name)) else s;
      if key != "" && !deviceOk then (cut, Err(DeviceFailed))
      else
        (cut.(device := if key != "" then DeviceRemove(s.device, key) else s.device,
              table := s.table - {name},
              files := RemoveFrom(s.files, params.clientDirs, name)), Ok(()))
  }

  function SetEnabled(s: System, name: string, enabled: bool): (System, Result<(), Error>) {
    if name in s.table then (s.(table := s.table[name := s.table[name].(enabled := enabled)]), Ok(()))
    else (s, Err(RowMissing))
  }

  function FinishStop(synced: System, found: Option<Peer>, name: string, deviceOk: bool): (System, Result<(), Error>) {
    var key := KeyOf(found, synced.table, name);
    if found.None? then (synced, Err(PeerNotFound))
    else if name in synced.table && !synced.table[name].enabled then (synced, Ok(()))
    else if key == "" then (synced, Err(PeerNotFound))
    else if !deviceOk then (synced, Err(DeviceFailed))
    else SetEnabled(synced.(device := DeviceRemove(synced.device, key)), name, false)
  }

  function Stop(s: System, params: Params, name: string, junk: nat -> JunkParams, deviceOk: bool)
    : (System, Result<(), Error>)
  {
    match Sync(s, params, junk)
    case Err(e) => (s, Err(e))
    case Ok(synced) => FinishStop(synced, FindPeer(Parsed(s.conf), name), name, deviceOk)
  }

  function FinishStart(synced: System, found: Option<Peer>, name: string, deviceOk: bool): (System, Result<(), Error>) {
    if found.None? then (synced, Err(PeerNotFound))
    else if name in synced.table && synced.table[name].enabled then (synced, Ok(()))
    else if !deviceOk then (synced, Err(DeviceFailed))
    else SetEnabled(synced.(device := DeviceAdd(synced.device, found.value.publicKey)), name, true)
  }

  function Start(s: System, params: Params, name: string, junk: nat -> JunkParams, deviceOk: bool)
    : (System, Result<(), Error>)
  {
    match Sync(s, params, junk)
    case Err(e) => (s, Err(e))
    case Ok(synced) => FinishStart(synced, FindPeer(Parsed(s.conf), name), name, deviceOk)
  }

  /** `limit` is the limit in bytes, 0 for none. */
  function SetLimit(s: System, name: string, limit: nat): (System, Result<(), Error>) {
    if name !in s.table then (s, Err(PeerNotFound))
    else (s.(table := s.table[name := s.table[name].(limit := limit)]), Ok(()))
  }

  // ---- start-up ------------------------------------------------------------

  /** The interface loads every configured peer with counters at zero. */
  function Reload(s: System): System {
    var peers := Parsed(s.conf);
    s.(device := map i | 0 <= i < |peers| :: peers[i].publicKey := ZERO)
  }

  function DisabledKeys(table: PeerTable): set<string> {
    set n | n in table && !table[n].enabled && table[n].publicKey != "" :: table[n].publicKey
  }

  function ApplyDisabled(s: System): System {
    s.(device := s.device - DisabledKeys(s.table))
  }

  /** The program starts; a failed sync is only logged. */
  function Resume(s: System, params: Params, junk: nat -> JunkParams): System {
    ApplyDisabled(match Sync(s, params, junk) case Ok(synced) => synced case Err(_) => s)
  }

  /** The interface comes up and then the program. */
  function Startup(s: System, params: Params, junk: nat -> JunkParams): System {
    Resume(Reload(s), params, junk)
  }
}
