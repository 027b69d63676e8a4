/** The routing-table discovery sweep (config-watcher/discovery_sweep.go). */
module DiscoverySweep {
  import opened Basics
  import opened Snmp
  import opened DeviceTable
  import opened HealthCheck
  import S = DeviceStore

  const MAX_NEW_DEVICES_PER_SWEEP: nat := 10

  /** What a sweep meets: the network, the key, the duplication setting, and for each address the
      nonce and time its insertion would use. */
  datatype Env = Env(net: Network, key: Key, isPrivate: Ip -> bool, duplicate: bool, nonce: Ip -> string, clock: Ip -> int)

  predicate ShouldConsider(e: Env, t: Table, ip: Ip, parentIp: Ip) {
    ip != parentIp && e.isPrivate(ip) && GetByIp(t, ip) == NotFound
  }

  /** The row a sweep inserts. Duplication copies the version and community only, and copies nothing
      when the community cannot be encrypted, although the status still reports the probe. */
  function Discovered(e: Env, ip: Ip, creds: Credentials): NewDevice {
    if !e.duplicate then Blank(ip, "pending", false, "routing_table_sweep")
    else
      var d := Blank(ip, ProbedStatus(e.net, ip, creds), false, "routing_table_sweep");
      match Encrypt(e.key, creds.community, e.nonce(ip))
      case None => d
      case Some(community) => d.(version := creds.version, community := community)
  }

  /** One next hop: the table afterwards, and whether a row was inserted. */
  function VisitHop(e: Env, t: Table, parentIp: Ip, creds: Credentials, hop: Ip): (Table, bool) {
    if !ShouldConsider(e, t, hop, parentIp) then (t, false)
    else
      match Insert(t, Discovered(e, hop, creds), e.clock(hop))
      case None => (t, false)
      case Some(t1) => (t1, true)
  }

  function SweepHops(e: Env, t: Table, parentIp: Ip, creds: Credentials, hops: seq<Ip>, count: nat): (Table, nat)
    decreases |hops|
  {
    if hops == [] || count >= MAX_NEW_DEVICES_PER_SWEEP then (t, count)
    else
      var (t1, inserted) := VisitHop(e, t, parentIp, creds, hops[0]);
      SweepHops(e, t1, parentIp, creds, hops[1..], if inserted then count + 1 else count)
  }

  /** The credentials and next hops a parent contributes; None when it is skipped. */
  function Walked(e: Env, parent: Row): Option<(Credentials, seq<Ip>)> {
    match DecryptCredentials(parent, e.key)
    case None => None
    case Some(creds) =>
      match RouteNextHops(e.net, parent.ip, creds)
      case None => None
      case Some(hops) => Some((creds, hops))
  }

  function SweepParents(e: Env, t: Table, parents: seq<Row>, count: nat): (Table, nat)
    decreases |parents|
  {
    if parents == [] || count >= MAX_NEW_DEVICES_PER_SWEEP then (t, count)
    else
      match Walked(e, parents[0])
      case None => SweepParents(e, t, parents[1..], count)
      case Some((creds, hops)) =>
        var (t1, count1) := SweepHops(e, t, parents[0].ip, creds, hops, count);
        SweepParents(e, t1, parents[1..], count1)
  }

  /** One whole sweep, and how many devices it inserted. */
  function Sweep(e: Env, t: Table): (Table, nat) {
    match ListByStatus(t, "active")
    case None => (t, 0)
    case Some(parents) => SweepParents(e, t, parents, 0)
  }

  /** The body of the inner loop. */
  method ConsiderHop(store: S.DeviceStore, e: Env, parentIp: Ip, creds: Credentials, hop: Ip) returns (inserted: bool)
    requires Valid(store.table)
    modifies store
    ensures Valid(store.table)
    ensures (store.table, inserted) == VisitHop(e, old(store.table), parentIp, creds, hop)
  {
    if !ShouldConsider(e, store.table, hop, parentIp) {
      return false;
    }
    inserted := InsertDiscoveredDevice(store, e, hop, creds);
  }

  method InsertDiscoveredDevice(store: S.DeviceStore, e: Env, ip: Ip, creds: Credentials) returns (inserted: bool)
    requires Valid(store.table)
    modifies store
    ensures Valid(store.table)
    ensures match Insert(old(store.table), Discovered(e, ip, creds), e.clock(ip))
            case None => !inserted && store.table == old(store.table)
            case Some(t) => inserted && store.table == t
  {
    var d := Blank(ip, "pending", false, "routing_table_sweep");
    if e.duplicate {
      var community := Encrypt(e.key, creds.community, e.nonce(ip));
      if community.Some? {
        d := d.(version := creds.version, community := community.value);
      }
      if Verify(e.net, ip, creds) {
        d := d.(status := "active");
      } else {
        d := d.(status := "failed");
      }
    }
    var id := store.Create(d, e.clock(ip));
    return id.Some?;
  }

  /** `setting` is credential_duplication_enabled, None when it cannot be read. */
  method RunDiscoverySweep(store: S.DeviceStore, setting: Option<string>, env: Env) returns (newCount: nat)
    requires Valid(store.table)
    modifies store
    ensures Valid(store.table)
    ensures setting.None? ==> store.table == old(store.table) && newCount == 0
    ensures setting.Some? ==> (store.table, newCount) == Sweep(env.(duplicate := setting.value == "1"), old(store.table))
  {
    newCount := 0;
    if setting.None? {
      return;
    }
    var e := env.(duplicate := setting.value == "1");
    var listed := ListByStatus(store.table, "active");
    if listed.None? {
      return;
    }
    var parents := listed.value;
    ghost var outcome := Sweep(e, store.table);
    var i := 0;
    while i < |parents|
      invariant i <= |parents| && Valid(store.table)
      invariant SweepParents(e, store.table, parents[i..], newCount) == outcome
    {
      if newCount >= MAX_NEW_DEVICES_PER_SWEEP {
        return;
      }
      var parent := parents[i];
      assert parents[i..][1..] == parents[i + 1..];
      i := i + 1;
      var creds := DecryptCredentials(parent, e.key);
      if creds.None? {
        continue;
      }
      var hops := WalkRouteNextHops(e.net, parent.ip, creds.value);
      if hops.None? {
        continue;
      }
      newCount := VisitHops(store, e, parent.ip, creds.value, hops.value, newCount);
    }
  }

  /** The inner loop over one parent's next hops. */
  method VisitHops(store: S.DeviceStore, e: Env, parentIp: Ip, creds: Credentials, hops: seq<Ip>, count: nat) returns (newCount: nat)
    requires Valid(store.table)
    modifies store
    ensures Valid(store.table)
    ensures (store.table, newCount) == SweepHops(e, old(store.table), parentIp, creds, hops, count)
  {
    newCount := count;
    ghost var outcome := SweepHops(e, store.table, parentIp, creds, hops, count);
    var j := 0;
    while j < |hops|
      invariant j <= |hops| && Valid(store.table)
      invariant SweepHops(e, store.table, parentIp, creds, hops[j..], newCount) == outcome
    {
      if newCount >= MAX_NEW_DEVICES_PER_SWEEP {
        break;
      }
      var hop := hops[j];
      assert hops[j..][1..] == hops[j + 1..];
      j := j + 1;
      var inserted := ConsiderHop(store, e, parentIp, creds, hop);
      if inserted {
        newCount := newCount + 1;
      }
    }
  }
}
