/** The periodic status pass over the whole table (config-watcher/healthcheck.go). */
module HealthCheck {
  import opened Basics
  import opened Snmp
  import opened DeviceTable
  import S = DeviceStore

  /** decryptCredentials of config-watcher/discovery_sweep.go: None when a secret does not open. */
  function DecryptCredentials(r: Row, key: Key): Option<Credentials> {
    match (Decrypt(key, r.Str(Community)), Decrypt(key, r.Str(V3AuthKey)), Decrypt(key, r.Str(V3PrivKey)))
    case (Some(community), Some(authKey), Some(privKey)) =>
      Some(Credentials(r.Str(SnmpVersion), community, r.Str(V3User), authKey, privKey, r.Str(V3AuthProtocol), r.Str(V3PrivProtocol)))
    case _ => None
  }

  /** A row the pass probes: it has a version and credentials that decrypt. */
  predicate Probeable(r: Row, key: Key) {
    r.Str(SnmpVersion) != "" && DecryptCredentials(r, key).Some?
  }

  function ProbedStatus(net: Network, ip: Ip, creds: Credentials): string {
    if Verify(net, ip, creds) then "active" else "failed"
  }

  /** What one pass leaves of a row; `clock` gives the time of the write to each id. */
  function CheckedRow(r: Row, net: Network, key: Key, clock: int -> int): Row {
    if !Probeable(r, key) then r
    else
      var status := ProbedStatus(net, r.ip, DecryptCredentials(r, key).value);
      if status == r.Str(Status) then r else WithNewStatus(r, status, clock(r.id))
  }

  /** One pass over a table nobody else writes; a row that does not scan makes the listing fail. */
  function HealthPass(t: Table, net: Network, key: Key, clock: int -> int): Table {
    if AllScannable(t.rows) then t.(rows := seq(|t.rows|, i requires 0 <= i < |t.rows| => CheckedRow(t.rows[i], net, key, clock)))
    else t
  }

  /** The loop body: one device of the snapshot, whose row is still at index k. */
  method CheckDevice(store: S.DeviceStore, net: Network, key: Key, clock: int -> int, d: Row, ghost k: nat)
    requires Valid(store.table) && k < |store.table.rows| && store.table.rows[k] == d
    modifies store
    ensures Valid(store.table)
    ensures store.table == old(store.table).(rows := old(store.table).rows[k := CheckedRow(d, net, key, clock)])
  {
    if d.Str(SnmpVersion) == "" {
      return;
    }
    var creds := DecryptCredentials(d, key);
    if creds.None? {
      return;
    }
    var newStatus := "failed";
    if Verify(net, d.ip, creds.value) {
      newStatus := "active";
    }
    if newStatus == d.Str(Status) {
      return;
    }
    StatusUpdateHitsItsRow(store.table, k, newStatus, clock(d.id));
    var outcome := store.Update(d.id, StatusUpdate(newStatus), clock(d.id));
  }

  method CheckDeviceHealth(store: S.DeviceStore, net: Network, key: Key, clock: int -> int)
    requires Valid(store.table)
    modifies store
    ensures Valid(store.table)
    ensures store.table == HealthPass(old(store.table), net, key, clock)
  {
    var listed := List(store.table);
    if listed.None? {
      return;
    }
    var all := listed.value;
    ghost var before := store.table;
    for k := 0 to |all|
      invariant Valid(store.table)
      invariant store.table.lastId == before.lastId && |store.table.rows| == |all|
      invariant forall j :: 0 <= j < k ==> store.table.rows[j] == CheckedRow(all[j], net, key, clock)
      invariant forall j :: k <= j < |all| ==> store.table.rows[j] == all[j]
    {
      CheckDevice(store, net, key, clock, all[k], k);
    }
    assert store.table.rows == HealthPass(before, net, key, clock).rows;
  }

  /** What the pass does to one row: a probeable row becomes active exactly when its probe succeeds
      and failed otherwise, a row is rewritten only if its status differed, and no other column changes. */
  lemma CheckedRowExact(r: Row, net: Network, key: Key, clock: int -> int)
    requires Scannable(r)
    ensures var r' := CheckedRow(r, net, key, clock);
            && Scannable(r')
            && (Probeable(r, key) && Verify(net, r.ip, DecryptCredentials(r, key).value) ==> r'.At(Status) == Text("active"))
            && (Probeable(r, key) && !Verify(net, r.ip, DecryptCredentials(r, key).value) ==> r'.At(Status) == Text("failed"))
            && (!Probeable(r, key) ==> r' == r)
            && (r' != r ==> r'.At(Status) != r.At(Status) && r'.updatedAt == clock(r.id))
            && (forall c :: c != Status ==> r'.At(c) == r.At(c))
            && r'.id == r.id && r'.ip == r.ip && r'.createdAt == r.createdAt
  {
    if Probeable(r, key) {
      var status := ProbedStatus(net, r.ip, DecryptCredentials(r, key).value);
      WithNewStatusFrame(r, status, clock(r.id));
      assert r.At(Status).Text?;
    }
  }

  /** The same by what is stored: a row with a version, whatever its status, whose three secrets decrypt, becomes
      active exactly if its address answers a client that these credentials describe, and failed otherwise. */
  lemma CheckedByStoredClient(r: Row, net: Network, key: Key, clock: int -> int, community: string, authKey: string, privKey: string)
    requires Scannable(r) && r.Str(SnmpVersion) != ""
    requires Decrypt(key, r.Str(Community)) == Some(community)
    requires Decrypt(key, r.Str(V3AuthKey)) == Some(authKey) && Decrypt(key, r.Str(V3PrivKey)) == Some(privKey)
    ensures var creds := Credentials(r.Str(SnmpVersion), community, r.Str(V3User), authKey, privKey, r.Str(V3AuthProtocol), r.Str(V3PrivProtocol));
            CheckedRow(r, net, key, clock).At(Status) ==
              Text(if exists client :: Describes(creds, client) && net.answers(r.ip, client) then "active" else "failed")
  {
    hide CheckedRow, Verify, Describes, Scannable;
    CheckedRowExact(r, net, key, clock);
    VerifyIff(net, r.ip, Credentials(r.Str(SnmpVersion), community, r.Str(V3User), authKey, privKey, r.Str(V3AuthProtocol), r.Str(V3PrivProtocol)));
  }

  /** A row without a version, or with a secret that does not decrypt, is left as it is. */
  lemma UncheckableIsLeft(r: Row, net: Network, key: Key, clock: int -> int)
    requires r.Str(SnmpVersion) == "" || exists c :: c in {Community, V3AuthKey, V3PrivKey} && Decrypt(key, r.Str(c)).None?
    ensures CheckedRow(r, net, key, clock) == r
  {
  }

  /** Over the whole table: the listing order, ids and counter stay, and each row is checked on its own. */
  lemma HealthPassExact(t: Table, net: Network, key: Key, clock: int -> int, i: nat)
    requires AllScannable(t.rows) && i < |t.rows|
    ensures var t' := HealthPass(t, net, key, clock);
            var r, r' := t.rows[i], t'.rows[i];
            && |t'.rows| == |t.rows| && t'.lastId == t.lastId
            && (Probeable(r, key) ==> (r'.At(Status) == Text("active") <==> Verify(net, r.ip, DecryptCredentials(r, key).value)))
            && (r' != r ==> Probeable(r, key) && r'.At(Status) != r.At(Status))
            && (forall c :: c != Status ==> r'.At(c) == r.At(c))
  {
    CheckedRowExact(t.rows[i], net, key, clock);
  }

  /** A second pass with the same reachability writes nothing, not even a timestamp. */
  lemma HealthPassIdempotent(t: Table, net: Network, key: Key, clock: int -> int, later: int -> int)
    ensures HealthPass(HealthPass(t, net, key, clock), net, key, later) == HealthPass(t, net, key, clock)
  {
    if AllScannable(t.rows) {
      var t1 := HealthPass(t, net, key, clock);
      forall i | 0 <= i < |t.rows|
        ensures Scannable(t1.rows[i]) && CheckedRow(t1.rows[i], net, key, later) == t1.rows[i]
      {
        CheckedRowStable(t.rows[i], net, key, clock, later);
      }
      assert HealthPass(t1, net, key, later).rows == t1.rows;
    }
  }

  lemma CheckedRowStable(r: Row, net: Network, key: Key, clock: int -> int, later: int -> int)
    requires Scannable(r)
    ensures var r' := CheckedRow(r, net, key, clock);
            Scannable(r') && CheckedRow(r', net, key, later) == r'
  {
    var r' := CheckedRow(r, net, key, clock);
    CheckedRowExact(r, net, key, clock);
    SameCredentials(r, r', key);
  }

  lemma SameCredentials(r: Row, r': Row, key: Key)
    requires forall c :: c != Status ==> r'.At(c) == r.At(c)
    ensures DecryptCredentials(r', key) == DecryptCredentials(r, key)
    ensures r'.Str(SnmpVersion) == r.Str(SnmpVersion)
  {
  }

  /** The stored status is the one a probe of the stored credentials gives, where there is one. */
  predicate Settled(r: Row, net: Network, key: Key) {
    Probeable(r, key) ==> r.At(Status) == Text(ProbedStatus(net, r.ip, DecryptCredentials(r, key).value))
  }

  /** Settled rows are exactly the ones the next pass leaves alone. */
  lemma SettledIffLeftUnchanged(t: Table, net: Network, key: Key, clock: int -> int, i: nat)
    requires i < |t.rows|
    ensures Settled(t.rows[i], net, key) || !AllScannable(t.rows) <==> HealthPass(t, net, key, clock).rows[i] == t.rows[i]
  {
    if AllScannable(t.rows) {
      CheckedRowExact(t.rows[i], net, key, clock);
    }
  }

  /** A table with a row that does not scan is not checked at all. */
  lemma OneUnscannableRowStopsThePass(t: Table, net: Network, key: Key, clock: int -> int, i: nat)
    requires i < |t.rows| && !Scannable(t.rows[i])
    ensures HealthPass(t, net, key, clock) == t
  {
  }
}
