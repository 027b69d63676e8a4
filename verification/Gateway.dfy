/** Start-up discovery of the default gateway (config-watcher/discovery.go). */
module Gateway {
  import opened Basics
  import opened Snmp
  import opened DeviceTable
  import S = DeviceStore

  /** The update that records working default credentials. */
  function FoundUpdates(version: string, sealed: string): map<Column, GoValue> {
    map[SnmpVersion := GoString(version), Community := GoString(sealed), Status := GoString("active")]
  }

  /** The update a probe of the gateway leads to; None when the working community cannot be encrypted. */
  function ProbeUpdates(net: Network, key: Key, ip: Ip, nonce: string): Option<map<Column, GoValue>> {
    match FirstWorking(net, ip, DEFAULT_CREDENTIALS)
    case None => Some(StatusUpdate("failed"))
    case Some(creds) =>
      match Encrypt(key, creds.community, nonce)
      case None => None
      case Some(sealed) => Some(FoundUpdates(creds.version, sealed))
  }

  /** `gateway` is the outcome of gateway detection. */
  function Discover(t: Table, net: Network, key: Key, isPrivate: Ip -> bool, gateway: Option<Ip>, nonce: string, now: int, later: int): Table {
    if gateway.None? || GetByIp(t, gateway.value) != NotFound then t
    else
      var ip := gateway.value;
      match Insert(t, Blank(ip, "pending", !isPrivate(ip), "gateway"), now)
      case None => t
      case Some(t1) =>
        match ProbeUpdates(net, key, ip, nonce)
        case None => t1
        case Some(updates) => Update(t1, t1.lastId, updates, later).0
  }

  method DiscoverGatewayDevice(store: S.DeviceStore, net: Network, key: Key, isPrivate: Ip -> bool, gateway: Option<Ip>,
                               nonce: string, now: int, later: int)
    requires Valid(store.table)
    modifies store
    ensures Valid(store.table)
    ensures store.table == Discover(old(store.table), net, key, isPrivate, gateway, nonce, now, later)
  {
    if gateway.None? {
      return;
    }
    var ip := gateway.value;
    if GetByIp(store.table, ip) != NotFound {
      return;
    }
    var id := store.Create(Blank(ip, "pending", !isPrivate(ip), "gateway"), now);
    if id.None? {
      return;
    }
    ProbeAndUpdate(store, net, key, id.value, ip, nonce, later);
  }

  method ProbeAndUpdate(store: S.DeviceStore, net: Network, key: Key, id: int, ip: Ip, nonce: string, now: int)
    requires Valid(store.table)
    modifies store
    ensures Valid(store.table)
    ensures match ProbeUpdates(net, key, ip, nonce)
            case None => store.table == old(store.table)
            case Some(updates) => store.table == Update(old(store.table), id, updates, now).0
  {
    var creds := ProbeDefaults(net, ip);
    if creds.None? {
      var outcome := store.Update(id, StatusUpdate("failed"), now);
      return;
    }
    var sealed := Encrypt(key, creds.value.community, nonce);
    if sealed.None? {
      return;
    }
    var outcome := store.Update(id, FoundUpdates(creds.value.version, sealed.value), now);
  }

  /** What discovery leaves of an untracked gateway, by what the network answers: it is failed exactly if no
      default credentials work, and active exactly if some do and their community can be encrypted; then it
      carries the version and community of the first that works. With a community that cannot be encrypted it
      stays pending. Without being active it has no version. */
  lemma DiscoveredGatewayExact(t: Table, net: Network, key: Key, isPrivate: Ip -> bool, ip: Ip, nonce: string, now: int, later: int)
    requires Valid(t) && GetByIp(t, ip) == NotFound
    ensures var t' := Discover(t, net, key, isPrivate, Some(ip), nonce, now, later);
            && |t'.rows| == |t.rows| + 1 && t'.rows[..|t.rows|] == t.rows && t'.lastId == t.lastId + 1
            && (var r := t'.rows[|t.rows|];
                && r.id == t.lastId + 1 && r.ip == ip && r.At(IsPublicIp) == Flag(!isPrivate(ip)) && r.Str(DiscoveredVia) == "gateway"
                && GatewayOutcome(r, net, key, ip, nonce))
  {
    hide Insert, Update, Valid, GatewayOutcome, FirstWorking;
    var d := Blank(ip, "pending", !isPrivate(ip), "gateway");
    GatewayInserted(t, d, now);
    var t1, n := Insert(t, d, now).value, |t.rows|;
    match FirstWorking(net, ip, DEFAULT_CREDENTIALS)
    case None => FailedOutcome(t1, n, net, key, nonce, later);
    case Some(creds) =>
      if Encrypt(key, creds.community, nonce).Some? {
        FoundOutcome(t1, n, net, key, creds, nonce, later);
      } else {
        PendingOutcome(t1.rows[n], net, key, creds, nonce);
      }
  }

  /** The outcome in terms of the three defaults, in the order they are tried. */
  predicate GatewayOutcome(r: Row, net: Network, key: Key, ip: Ip, nonce: string) {
    if net.answers(ip, V2c("public")) then Recorded(r, key, "v2c", "public", nonce)
    else if net.answers(ip, V2c("private")) then Recorded(r, key, "v2c", "private", nonce)
    else if net.answers(ip, V1("public")) then Recorded(r, key, "v1", "public", nonce)
    else r.At(Status) == Text("failed") && r.Str(SnmpVersion) == "" && r.Str(Community) == ""
  }

  predicate Recorded(r: Row, key: Key, version: string, community: string, nonce: string) {
    match Encrypt(key, community, nonce)
    case Some(sealed) => r.At(Status) == Text("active") && r.Str(SnmpVersion) == version && r.Str(Community) == sealed
    case None => r.At(Status) == Text("pending") && r.Str(SnmpVersion) == "" && r.Str(Community) == ""
  }

  predicate Fresh(r: Row, d: NewDevice) {
    && r.ip == d.ip && r.At(Status) == Text("pending") && r.Str(SnmpVersion) == "" && r.Str(Community) == ""
    && r.At(IsPublicIp) == Flag(d.isPublic) && r.Str(DiscoveredVia) == "gateway"
  }

  lemma GatewayInserted(t: Table, d: NewDevice, now: int)
    requires Valid(t) && GetByIp(t, d.ip) == NotFound && d == Blank(d.ip, "pending", d.isPublic, "gateway")
    ensures Insert(t, d, now).Some?
    ensures var t1 := Insert(t, d, now).value;
            && Valid(t1) && |t1.rows| == |t.rows| + 1 && t1.rows[..|t.rows|] == t.rows && t1.lastId == t.lastId + 1
            && t1.rows[|t.rows|].id == t1.lastId && Fresh(t1.rows[|t.rows|], d)
  {
    InsertSucceedsIff(t, d, now);
    InsertKeepsValid(t, d, now);
    InsertExact(t, d, now);
    hide Insert, Valid, Checks;
    InsertedRowReads(Insert(t, d, now).value.rows[|t.rows|], d);
  }

  lemma FailedOutcome(t1: Table, n: nat, net: Network, key: Key, nonce: string, later: int)
    requires Valid(t1) && n < |t1.rows| && FirstWorking(net, t1.rows[n].ip, DEFAULT_CREDENTIALS) == None
    requires t1.rows[n].Str(SnmpVersion) == "" && t1.rows[n].Str(Community) == ""
    ensures var r, t' := t1.rows[n], Update(t1, t1.rows[n].id, ProbeUpdates(net, key, t1.rows[n].ip, nonce).value, later).0;
            && |t'.rows| == |t1.rows| && t'.rows[..n] == t1.rows[..n] && t'.lastId == t1.lastId
            && KeptByProbe(t'.rows[n], r) && GatewayOutcome(t'.rows[n], net, key, r.ip, nonce)
  {
    hide Update, Valid;
    DefaultsInOrder(net, t1.rows[n].ip);
    StatusUpdateHitsItsRow(t1, n, "failed", later);
    WithNewStatusFrame(t1.rows[n], "failed", later);
  }

  predicate KeptByProbe(r': Row, r: Row) {
    r'.id == r.id && r'.ip == r.ip && r'.At(IsPublicIp) == r.At(IsPublicIp) && r'.Str(DiscoveredVia) == r.Str(DiscoveredVia)
  }

  lemma FoundOutcome(t1: Table, n: nat, net: Network, key: Key, creds: Credentials, nonce: string, later: int)
    requires Valid(t1) && n < |t1.rows| && FirstWorking(net, t1.rows[n].ip, DEFAULT_CREDENTIALS) == Some(creds)
    requires Encrypt(key, creds.community, nonce).Some?
    ensures var r, t' := t1.rows[n], Update(t1, t1.rows[n].id, ProbeUpdates(net, key, t1.rows[n].ip, nonce).value, later).0;
            && |t'.rows| == |t1.rows| && t'.rows[..n] == t1.rows[..n] && t'.lastId == t1.lastId
            && KeptByProbe(t'.rows[n], r) && GatewayOutcome(t'.rows[n], net, key, r.ip, nonce)
  {
    hide Update, Valid, GatewayOutcome;
    var r, sealed := t1.rows[n], Encrypt(key, creds.community, nonce).value;
    DefaultsInOrder(net, r.ip);
    FoundUpdateSucceeds(t1, n, creds.version, sealed, later);
    var t' := Update(t1, r.id, FoundUpdates(creds.version, sealed), later).0;
    UpdateFrame(t1, r.id, FoundUpdates(creds.version, sealed), later);
    OthersKept(t1, t', n);
    OutcomeOfFound(t'.rows[n], net, key, creds, nonce, r.ip);
  }

  lemma FoundUpdateSucceeds(t1: Table, n: nat, version: string, sealed: string, later: int)
    requires Valid(t1) && n < |t1.rows| && version in {"v1", "v2c"}
    ensures var (t', outcome) := Update(t1, t1.rows[n].id, FoundUpdates(version, sealed), later);
            && outcome == Updated && |t'.rows| == |t1.rows| && KeptByProbe(t'.rows[n], t1.rows[n])
            && t'.rows[n].At(SnmpVersion) == Text(version) && t'.rows[n].At(Status) == Text("active")
            && t'.rows[n].At(Community) == Text(sealed)
  {
    hide Update, Valid;
    var updates := FoundUpdates(version, sealed);
    assert SnmpVersion in updates;
    UpdateSucceedsIff(t1, n, updates, later);
    UpdateStores(t1, n, updates, later);
  }

  lemma OthersKept(t1: Table, t': Table, n: nat)
    requires Valid(t1) && n < |t1.rows| == |t'.rows|
    requires forall i :: 0 <= i < |t1.rows| ==> t1.rows[i].id != t1.rows[n].id ==> t'.rows[i] == t1.rows[i]
    ensures t'.rows[..n] == t1.rows[..n]
  {
    forall i | 0 <= i < n ensures t'.rows[i] == t1.rows[i] {
      assert t1.rows[i].id != t1.rows[n].id;
    }
  }

  lemma OutcomeOfFound(r: Row, net: Network, key: Key, creds: Credentials, nonce: string, ip: Ip)
    requires FirstWorking(net, ip, DEFAULT_CREDENTIALS) == Some(creds) && Encrypt(key, creds.community, nonce).Some?
    requires r.At(SnmpVersion) == Text(creds.version) && r.At(Status) == Text("active")
    requires r.At(Community) == Text(Encrypt(key, creds.community, nonce).value)
    ensures GatewayOutcome(r, net, key, ip, nonce)
  {
    hide FirstWorking, Encrypt;
    DefaultsInOrder(net, ip);
  }

  lemma PendingOutcome(r: Row, net: Network, key: Key, creds: Credentials, nonce: string)
    requires FirstWorking(net, r.ip, DEFAULT_CREDENTIALS) == Some(creds) && Encrypt(key, creds.community, nonce).None?
    requires r.At(Status) == Text("pending") && r.Str(SnmpVersion) == "" && r.Str(Community) == ""
    ensures GatewayOutcome(r, net, key, r.ip, nonce)
  {
    hide FirstWorking, Encrypt;
    DefaultsInOrder(net, r.ip);
  }

  /** A gateway that is not detected, or tracked already, changes nothing. */
  lemma KnownGatewayIsLeft(t: Table, net: Network, key: Key, isPrivate: Ip -> bool, gateway: Option<Ip>, nonce: string, now: int, later: int)
    requires gateway.None? || GetByIp(t, gateway.value) != NotFound
    ensures Discover(t, net, key, isPrivate, gateway, nonce, now, later) == t
  {
  }
}
