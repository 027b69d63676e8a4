/** The four writers of `status` and the health check agree: over fixed reachability, a row they have
    just written is a settled one, which the next health-check pass leaves alone. */
module StatusAgreement {
  import opened Basics
  import opened Snmp
  import opened DeviceTable
  import opened HealthCheck
  import opened ConfigApi
  import opened DiscoverySweep
  import opened SweepExact
  import Gateway

  // ---------------------------------------------------------------- POST

  lemma PostedRowIsSettled(t: Table, net: Network, key: Key, isPrivate: Ip -> bool, req: DeviceRequest, nonce: Column -> string, now: int)
    requires Sound(key) && PostedDevice(net, key, isPrivate, req, nonce).Some?
    ensures Settled(NewRow(t, PostedDevice(net, key, isPrivate, req, nonce).value, now), net, key)
  {
    var d := PostedDevice(net, key, isPrivate, req, nonce).value;
    var r := NewRow(t, d, now);
    InsertedRowReads(r, d);
    DecryptUndoesEncrypt(key, req.community, nonce(Community));
    DecryptUndoesEncrypt(key, req.v3AuthKey, nonce(V3AuthKey));
    DecryptUndoesEncrypt(key, req.v3PrivKey, nonce(V3PrivKey));
    assert DecryptCredentials(r, key) == Some(RequestCredentials(req));
  }

  // ---------------------------------------------------------------- gateway

  lemma GatewayRowIsSettled(t: Table, net: Network, key: Key, isPrivate: Ip -> bool, ip: Ip, nonce: string, now: int, later: int)
    requires Valid(t) && Sound(key) && GetByIp(t, ip) == NotFound
    ensures var t' := Gateway.Discover(t, net, key, isPrivate, Some(ip), nonce, now, later);
            && |t'.rows| == |t.rows| + 1
            && t'.rows[|t.rows|].ip == ip
            && Settled(t'.rows[|t.rows|], net, key)
  {
    hide Insert, Update, Settled, Valid, FirstWorking, Encrypt, NoV3Fields;
    GatewayInserts(t, Blank(ip, "pending", !isPrivate(ip), "gateway"), now);
    var t1 := Insert(t, Blank(ip, "pending", !isPrivate(ip), "gateway"), now).value;
    match FirstWorking(net, ip, DEFAULT_CREDENTIALS) {
      case None => FailedGatewaySettled(t1, |t.rows|, net, key, later);
      case Some(creds) =>
        if Encrypt(key, creds.community, nonce).Some? {
          GatewayUpdateSettles(t1, |t.rows|, net, key, creds, nonce, later);
        } else {
          UnversionedIsSettled(t1.rows[|t.rows|], net, key);
        }
    }
  }

  /** The first statement: a fresh blank row, last in the table. */
  lemma GatewayInserts(t: Table, d: NewDevice, now: int)
    requires Valid(t) && GetByIp(t, d.ip) == NotFound
    requires d == Blank(d.ip, "pending", d.isPublic, "gateway")
    ensures Insert(t, d, now).Some?
    ensures var t1 := Insert(t, d, now).value;
            && Valid(t1) && |t1.rows| == |t.rows| + 1 && t1.rows[|t.rows|].id == t1.lastId
            && t1.rows[|t.rows|].ip == d.ip && t1.rows[|t.rows|].Str(SnmpVersion) == "" && NoV3Fields(t1.rows[|t.rows|])
  {
    InsertSucceedsIff(t, d, now);
    InsertKeepsValid(t, d, now);
    InsertedRowReads(NewRow(t, d, now), d);
  }

  lemma UnversionedIsSettled(r: Row, net: Network, key: Key)
    requires r.Str(SnmpVersion) == ""
    ensures Settled(r, net, key)
  {
  }

  /** No default credentials work: the row gets the status failed, and has no version to be probed with. */
  lemma FailedGatewaySettled(t1: Table, n: nat, net: Network, key: Key, later: int)
    requires Valid(t1) && n < |t1.rows| && t1.rows[n].Str(SnmpVersion) == ""
    ensures var t' := Update(t1, t1.rows[n].id, StatusUpdate("failed"), later).0;
            |t'.rows| == |t1.rows| && t'.rows[n].ip == t1.rows[n].ip && Settled(t'.rows[n], net, key)
  {
    hide Update, Settled, Valid;
    StatusUpdateHitsItsRow(t1, n, "failed", later);
    WithNewStatusFrame(t1.rows[n], "failed", later);
    UnversionedIsSettled(WithNewStatus(t1.rows[n], "failed", later), net, key);
  }

  predicate NoV3Fields(r: Row) {
    && r.Str(V3User) == "" && r.Str(V3AuthKey) == "" && r.Str(V3PrivKey) == ""
    && r.Str(V3AuthProtocol) == "" && r.Str(V3PrivProtocol) == ""
  }

  /** The update after a successful probe records exactly the credentials that worked. */
  lemma GatewayUpdateSettles(t1: Table, n: nat, net: Network, key: Key, creds: Credentials, nonce: string, later: int)
    requires Valid(t1) && n < |t1.rows| && Sound(key)
    requires FirstWorking(net, t1.rows[n].ip, DEFAULT_CREDENTIALS) == Some(creds)
    requires Encrypt(key, creds.community, nonce).Some?
    requires NoV3Fields(t1.rows[n])
    ensures var t' := Update(t1, t1.rows[n].id, Gateway.ProbeUpdates(net, key, t1.rows[n].ip, nonce).value, later).0;
            |t'.rows| == |t1.rows| && t'.rows[n].ip == t1.rows[n].ip && Settled(t'.rows[n], net, key)
  {
    var r := t1.rows[n];
    var sealed := Encrypt(key, creds.community, nonce).value;
    FirstWorkingWorks(net, r.ip, DEFAULT_CREDENTIALS);
    DefaultsAreCommunityOnly(creds);
    GatewayUpdateSucceeds(t1, n, creds.version, sealed, later);
    DecryptUndoesEncrypt(key, creds.community, nonce);
    WorkingCommunitySettles(Update(t1, r.id, Gateway.FoundUpdates(creds.version, sealed), later).0.rows[n], net, key, creds);
  }

  lemma GatewayUpdateSucceeds(t1: Table, n: nat, version: string, sealed: string, later: int)
    requires Valid(t1) && n < |t1.rows| && version in {"v1", "v2c"} && NoV3Fields(t1.rows[n])
    ensures var (t', outcome) := Update(t1, t1.rows[n].id, Gateway.FoundUpdates(version, sealed), later);
            && outcome == Updated && |t'.rows| == |t1.rows| && t'.rows[n].ip == t1.rows[n].ip
            && t'.rows[n].At(SnmpVersion) == Text(version) && t'.rows[n].At(Status) == Text("active")
            && t'.rows[n].At(Community) == Text(sealed) && NoV3Fields(t'.rows[n])
  {
    var updates := Gateway.FoundUpdates(version, sealed);
    assert SnmpVersion in updates;
    UpdateHitsItsRow(t1, n, updates, later);
    hide Update, Valid;
    GatewayCells(t1.rows[n], version, sealed, later);
  }

  lemma BoundFoundUpdates(version: string, sealed: string)
    ensures var updates := Gateway.FoundUpdates(version, sealed);
            Bindable(updates) && BindAll(updates) == map[SnmpVersion := Text(version), Community := Text(sealed), Status := Text("active")]
  {
  }

  lemma GatewayCells(r: Row, version: string, sealed: string, later: int)
    requires version in {"v1", "v2c"} && NoV3Fields(r)
    ensures Bindable(Gateway.FoundUpdates(version, sealed))
    ensures var r' := UpdatedRow(r, Gateway.FoundUpdates(version, sealed), later);
            && Checks(r') && r'.ip == r.ip
            && r'.At(SnmpVersion) == Text(version) && r'.At(Status) == Text("active")
            && r'.At(Community) == Text(sealed) && NoV3Fields(r')
  {
    hide BindAll, Bindable, Gateway.FoundUpdates;
    BoundFoundUpdates(version, sealed);
    var r' := UpdatedRow(r, Gateway.FoundUpdates(version, sealed), later);
    assert r'.At(V3User) == r.At(V3User) && r'.At(V3AuthKey) == r.At(V3AuthKey) && r'.At(V3PrivKey) == r.At(V3PrivKey);
    assert r'.At(V3AuthProtocol) == r.At(V3AuthProtocol) && r'.At(V3PrivProtocol) == r.At(V3PrivProtocol);
  }

  lemma WorkingCommunitySettles(r: Row, net: Network, key: Key, creds: Credentials)
    requires creds == CommunityOnly(creds.version, creds.community) && Verify(net, r.ip, creds)
    requires r.At(SnmpVersion) == Text(creds.version) && r.At(Status) == Text("active")
    requires Decrypt(key, r.Str(Community)) == Some(creds.community) && NoV3Fields(r)
    ensures Settled(r, net, key)
  {
    assert DecryptCredentials(r, key) == Some(creds);
  }

  lemma DefaultsAreCommunityOnly(creds: Credentials)
    requires creds in DEFAULT_CREDENTIALS
    ensures creds == CommunityOnly(creds.version, creds.community) && creds.version in {"v1", "v2c"}
  {
  }

  // ---------------------------------------------------------------- PATCH

  /** A PATCH that touches SNMP fields and leaves the status to the probe. The row it writes is settled
      however the request ends, except that a NULL among its text columns makes every listing fail,
      and so stops the pass altogether. */
  lemma PatchedRowIsSettled(
      t: Table, net: Network, key: Key, i: nat, req: PatchRequest, nonce: Column -> string, now: int, later: int)
    requires Valid(t) && i < |t.rows|
    requires SnmpFieldsChanged(req) && Status !in req
    requires SecretsSeal(key, req, nonce)
    requires Update(t, t.rows[i].id, PatchUpdates(key, req, nonce), now).1 == Updated
    ensures var t' := Patch(t, net, key, t.rows[i].id, req, nonce, now, later).0;
            && |t'.rows| == |t.rows| && t'.rows[i].id == t.rows[i].id
            && (Settled(t'.rows[i], net, key) || !Scannable(t'.rows[i]))
  {
    hide Valid, Update, PatchUpdates, Settled, Scannable, DecryptCredentials, SnmpFieldsChanged, SecretsSeal, Reprobe;
    var id := t.rows[i].id;
    var t1 := Update(t, id, PatchUpdates(key, req, nonce), now).0;
    UpdateFrame(t, id, PatchUpdates(key, req, nonce), now);
    IndexByIdUnique(t1, id, i) by { ValidIsOrdered(t1); }
    if Scannable(t1.rows[i]) {
      ReprobedRowIsSettled(t1, net, key, i, later);
    }
  }

  lemma ValidIsOrdered(t: Table)
    requires Valid(t)
    ensures forall j, k :: 0 <= j < k < |t.rows| ==> t.rows[j].id < t.rows[k].id
  {
  }

  /** The probe after a PATCH leaves the row with the status its stored credentials earn; without
      credentials that decrypt there is nothing to agree with. */
  lemma ReprobedRowIsSettled(t1: Table, net: Network, key: Key, i: nat, later: int)
    requires Valid(t1) && i < |t1.rows| && Scannable(t1.rows[i])
    ensures var t' := Reprobe(t1, net, key, t1.rows[i], later).0;
            |t'.rows| == |t1.rows| && t'.rows[i].id == t1.rows[i].id && Settled(t'.rows[i], net, key)
  {
    hide Valid, Update;
    var d := t1.rows[i];
    if DecryptCredentials(d, key).Some? {
      var status := ProbeStatus(net, d.ip, DecryptCredentials(d, key).value);
      StatusUpdateHitsItsRow(t1, i, status, later);
      WithNewStatusFrame(d, status, later);
      SameCredentials(d, WithNewStatus(d, status, later), key);
    }
  }

  /** Hence the next pass leaves a row alone that such a PATCH has written. */
  lemma PatchedRowLeftUnchanged(
      t: Table, net: Network, key: Key, i: nat, req: PatchRequest, nonce: Column -> string, now: int, later: int, clock: int -> int)
    requires Valid(t) && i < |t.rows|
    requires SnmpFieldsChanged(req) && Status !in req
    requires SecretsSeal(key, req, nonce)
    requires Update(t, t.rows[i].id, PatchUpdates(key, req, nonce), now).1 == Updated
    ensures var t' := Patch(t, net, key, t.rows[i].id, req, nonce, now, later).0;
            |t'.rows| == |t.rows| && |HealthPass(t', net, key, clock).rows| == |t.rows|
            && HealthPass(t', net, key, clock).rows[i] == t'.rows[i]
  {
    var t' := Patch(t, net, key, t.rows[i].id, req, nonce, now, later).0;
    PatchedRowIsSettled(t, net, key, i, req, nonce, now, later);
    SettledIffLeftUnchanged(t', net, key, clock, i);
  }

  /** The credentials that PATCH probes are the old ones overridden by the supplied ones: a supplied
      secret counts as its plaintext, a supplied plain field as its value, the rest stay as stored. */
  lemma PatchProbesOverriddenCredentials(
      t: Table, key: Key, i: nat, req: PatchRequest, nonce: Column -> string, now: int, c: Column)
    requires Valid(t) && i < |t.rows| && Sound(key) && SecretsSeal(key, req, nonce)
    requires Update(t, t.rows[i].id, PatchUpdates(key, req, nonce), now).1 == Updated
    ensures var t1 := Update(t, t.rows[i].id, PatchUpdates(key, req, nonce), now).0;
            && |t1.rows| == |t.rows|
            && (c in SECRET_FIELDS && c in req ==> Decrypt(key, t1.rows[i].Str(c)) == Some(Plaintext(req[c])))
            && (c in PLAIN_FIELDS && c in req ==> Bind(c, req[c]) == Some(t1.rows[i].At(c)))
            && (c !in req || (c !in PLAIN_FIELDS && c !in SECRET_FIELDS) ==> t1.rows[i].At(c) == t.rows[i].At(c))
  {
    hide Update, Valid, PatchUpdates;
    UpdateStores(t, i, PatchUpdates(key, req, nonce), now);
    PatchUpdatesAt(key, req, nonce, c);
    if c in SECRET_FIELDS && c in req {
      DecryptUndoesEncrypt(key, Plaintext(req[c]), nonce(c));
    }
  }

  // ---------------------------------------------------------------- sweep

  /** The credentials a health check will read from a swept row: version and community only. */
  function Stripped(creds: Credentials): Credentials {
    CommunityOnly(creds.version, creds.community)
  }

  /** A credential set that says no more than its version and community. */
  predicate NothingBeyondCommunity(creds: Credentials) {
    creds.version == "v3" ==>
      && creds.v3User == "" && creds.v3AuthKey == "" && creds.v3PrivKey == ""
      && creds.v3AuthProtocol in {"", "NoAuth"} && creds.v3PrivProtocol in {"", "NoPriv"}
  }

  lemma SameClientIff(creds: Credentials)
    requires BuildClient(creds).Some?
    ensures BuildClient(Stripped(creds)) == BuildClient(creds) <==> NothingBeyondCommunity(creds)
  {
  }

  /** A swept row is settled whenever it was probed with credentials that the row can carry. A row
      whose community could not be encrypted carries no version, and is never probed again. */
  lemma SweptRowIsSettled(e: Env, r: Row, ip: Ip, creds: Credentials)
    requires Sound(e.key) && BuildClient(creds).Some?
    requires r.ip == ip && r.cells == CellsOf(Discovered(e, ip, creds))
    requires NothingBeyondCommunity(creds)
    ensures Settled(r, e.net, e.key)
  {
    InsertedRowReads(r, Discovered(e, ip, creds));
    SameClientIff(creds);
    if e.duplicate && Encrypt(e.key, creds.community, e.nonce(ip)).Some? {
      DecryptUndoesEncrypt(e.key, creds.community, e.nonce(ip));
      assert DecryptCredentials(r, e.key) == Some(Stripped(creds));
    }
  }

  /** The exact condition: for given credentials that build a client, duplicated and encrypted, the
      inserted row is settled over every reachability exactly when the credentials say nothing beyond
      version and community. In particular every v1 or v2c parent qualifies, and a v3 parent with a
      user or a passphrase does not: some network tells the two clients apart. */
  lemma SweptRowSettledIff(e: Env, ip: Ip, creds: Credentials)
    requires Sound(e.key) && BuildClient(creds).Some? && e.duplicate
    requires Encrypt(e.key, creds.community, e.nonce(ip)).Some?
    ensures NothingBeyondCommunity(creds) <==>
              forall net :: SweptSettled(e.(net := net), ip, creds)
  {
    if NothingBeyondCommunity(creds) {
      forall net ensures SweptSettled(e.(net := net), ip, creds) {
        var e' := e.(net := net);
        SweptRowIsSettled(e', SweptRow(e', ip, creds), ip, creds);
      }
    } else {
      var client := BuildClient(creds).value;
      var net := Network((_, c) => c == client, e.net.routes);
      var e' := e.(net := net);
      var r := SweptRow(e', ip, creds);
      SameClientIff(creds);
      InsertedRowReads(r, Discovered(e', ip, creds));
      DecryptUndoesEncrypt(e.key, creds.community, e.nonce(ip));
      assert DecryptCredentials(r, e.key) == Some(Stripped(creds));
      assert !SweptSettled(e', ip, creds);
    }
  }

  /** Over the whole table: whenever the credentials of every walked parent say nothing beyond version and
      community, the next pass leaves every row alone that the sweep has appended. */
  lemma {:induction false} SweptRowsLeftUnchanged(e: Env, t: Table, clock: int -> int, k: nat)
    requires Valid(t) && Sound(e.key)
    requires forall p :: p in ActiveRows(t) && Walked(e, p).Some? ==> NothingBeyondCommunity(Walked(e, p).value.0)
    requires |t.rows| <= k < |Sweep(e, t).0.rows|
    ensures var t' := Sweep(e, t).0;
            && Settled(t'.rows[k], e.net, e.key)
            && |HealthPass(t', e.net, e.key, clock).rows| == |t'.rows|
            && HealthPass(t', e.net, e.key, clock).rows[k] == t'.rows[k]
  {
    hide Settled, Walked, NothingBeyondCommunity, HealthPass, Sweep, AllScannable;
    var t' := Sweep(e, t).0;
    SweepUnreadable(e, t);
    var added := SweepAdded(e, t);
    var r := t'.rows[k];
    assert r == added[k - |t.rows|];
    var p :| p in ActiveRows(t) && BornOf(e, r, p);
    BornSettled(e, r, p);
    SettledIffLeftUnchanged(t', e.net, e.key, clock, k);
    PassKeepsCount(t', e.net, e.key, clock);
  }

  lemma SweepUnreadable(e: Env, t: Table)
    ensures !AllScannable(ActiveRows(t)) ==> Sweep(e, t) == (t, 0)
  {
  }

  lemma PassKeepsCount(t: Table, net: Network, key: Key, clock: int -> int)
    ensures |HealthPass(t, net, key, clock).rows| == |t.rows|
  {
  }

  lemma BornSettled(e: Env, r: Row, p: Row)
    requires Sound(e.key) && BornOf(e, r, p)
    requires NothingBeyondCommunity(Walked(e, p).value.0)
    ensures Settled(r, e.net, e.key)
  {
    hide Settled, NothingBeyondCommunity;
    SweptRowIsSettled(e, r, r.ip, Walked(e, p).value.0);
  }

  function SweptRow(e: Env, ip: Ip, creds: Credentials): Row {
    Row(1, ip, CellsOf(Discovered(e, ip, creds)), 0, 0)
  }

  predicate SweptSettled(e: Env, ip: Ip, creds: Credentials) {
    Settled(SweptRow(e, ip, creds), e.net, e.key)
  }

  // ---------------------------------------------------------------- NULLs

  /** PATCH binds no NULL: no plain field is given as nil. A nil secret counts as the empty string. */
  predicate NoNilField(req: PatchRequest) {
    forall c :: c in req && c in PLAIN_FIELDS ==> req[c] != GoNil
  }

  /** A successful update by PATCH keeps a readable row readable exactly when the body has no nil field. */
  lemma UpdateKeepsReadableIff(t: Table, key: Key, i: nat, req: PatchRequest, nonce: Column -> string, now: int)
    requires Valid(t) && i < |t.rows| && Scannable(t.rows[i]) && SecretsSeal(key, req, nonce)
    requires Update(t, t.rows[i].id, PatchUpdates(key, req, nonce), now).1 == Updated
    ensures var t1 := Update(t, t.rows[i].id, PatchUpdates(key, req, nonce), now).0;
            |t1.rows| == |t.rows| && (Scannable(t1.rows[i]) <==> NoNilField(req))
  {
    hide Update, Valid, PatchUpdates, Encrypt;
    UpdateStores(t, i, PatchUpdates(key, req, nonce), now);
    var r := Update(t, t.rows[i].id, PatchUpdates(key, req, nonce), now).0.rows[i];
    forall c ensures CellAfterPatch(t.rows[i], r, req, c) {
      PatchUpdatesAt(key, req, nonce, c);
    }
    CellsDecideReadable(t.rows[i], r, req);
  }

  /** What PATCH leaves in a column: the bound plain value, some text for a secret, or the old value. */
  predicate CellAfterPatch(before: Row, after: Row, req: PatchRequest, c: Column) {
    if c in req && c in SECRET_FIELDS then after.At(c).Text?
    else if c in req && c in PLAIN_FIELDS then Bind(c, req[c]) == Some(after.At(c))
    else after.At(c) == before.At(c)
  }

  lemma CellsDecideReadable(before: Row, after: Row, req: PatchRequest)
    requires Scannable(before) && forall c :: CellAfterPatch(before, after, req, c)
    ensures Scannable(after) <==> NoNilField(req)
  {
    forall c | c in TEXT_COLUMNS ensures after.At(c).Text? <==> !(c in req && c in PLAIN_FIELDS && req[c] == GoNil) {
      assert CellAfterPatch(before, after, req, c);
    }
    assert CellAfterPatch(before, after, req, IsPublicIp);
    assert PLAIN_FIELDS <= TEXT_COLUMNS;
  }

  /** The exact condition under which PATCH keeps the device list readable, for every request, however it
      ends: its body has no nil field, or it is not applied. A caller sees this before sending it. */
  lemma PatchKeepsListIff(
      t: Table, net: Network, key: Key, id: int, req: PatchRequest, nonce: Column -> string, now: int, later: int)
    requires Valid(t) && AllScannable(t.rows)
    ensures List(Patch(t, net, key, id, req, nonce, now, later).0).Some? <==>
              NoNilField(req) || !SecretsSeal(key, req, nonce) || Update(t, id, PatchUpdates(key, req, nonce), now).1 != Updated
  {
    hide Update, Valid, PatchUpdates, SecretsSeal, NoNilField, Scannable, DecryptCredentials, ProbeStatus, SnmpFieldsChanged;
    if SecretsSeal(key, req, nonce) && Update(t, id, PatchUpdates(key, req, nonce), now).1 == Updated {
      var t1 := Update(t, id, PatchUpdates(key, req, nonce), now).0;
      UpdateFrame(t, id, PatchUpdates(key, req, nonce), now);
      match IndexById(t.rows, id) {
        case None => NoRowNoUpdate(t, key, id, req, nonce, now);
        case Some(i) =>
          UpdateKeepsReadableIff(t, key, i, req, nonce, now);
          OthersUnchanged(t, t1, i);
          IndexByIdUnique(t1, id, i);
          if Scannable(t1.rows[i]) {
            SecondWriteKeepsReadable(t1, net, key, i, later);
          }
      }
    }
  }

  /** A successful update without a row is the empty one. */
  lemma NoRowNoUpdate(t: Table, key: Key, id: int, req: PatchRequest, nonce: Column -> string, now: int)
    requires SecretsSeal(key, req, nonce) && IndexById(t.rows, id).None?
    requires Update(t, id, PatchUpdates(key, req, nonce), now).1 == Updated
    ensures Update(t, id, PatchUpdates(key, req, nonce), now).0 == t && Get(t, id) == NotFound && NoNilField(req)
  {
    hide Encrypt;
    forall c | c in req && c in PLAIN_FIELDS ensures false {
      PatchUpdatesAt(key, req, nonce, c);
    }
  }

  lemma OthersUnchanged(t: Table, t1: Table, i: nat)
    requires Valid(t) && AllScannable(t.rows) && i < |t.rows| == |t1.rows|
    requires forall j :: 0 <= j < |t.rows| ==> t.rows[j].id != t.rows[i].id ==> t1.rows[j] == t.rows[j]
    ensures AllScannable(t1.rows) <==> Scannable(t1.rows[i])
  {
    hide Scannable;
    forall j | 0 <= j < |t.rows| && j != i ensures t1.rows[j] == t.rows[j] {
      assert t.rows[j].id != t.rows[i].id;
    }
  }

  /** The status write after a probe makes no row unreadable. */
  lemma SecondWriteKeepsReadable(t1: Table, net: Network, key: Key, i: nat, later: int)
    requires Valid(t1) && i < |t1.rows| && Scannable(t1.rows[i])
    ensures AllScannable(Reprobe(t1, net, key, t1.rows[i], later).0.rows) <==> AllScannable(t1.rows)
  {
    hide Update, Valid, Scannable, DecryptCredentials;
    var d := t1.rows[i];
    if DecryptCredentials(d, key).Some? {
      var status := ProbeStatus(net, d.ip, DecryptCredentials(d, key).value);
      StatusUpdateHitsItsRow(t1, i, status, later);
      WithNewStatusFrame(d, status, later);
      ReplacingKeepsReadable(t1.rows, i, WithNewStatus(d, status, later));
    }
  }

  lemma ReplacingKeepsReadable(rows: seq<Row>, i: nat, r: Row)
    requires i < |rows| && Scannable(rows[i]) && Scannable(r)
    ensures AllScannable(rows[i := r]) <==> AllScannable(rows)
  {
    hide Scannable;
    var rows' := rows[i := r];
    assert forall j :: 0 <= j < |rows| && j != i ==> rows'[j] == rows[j];
    if AllScannable(rows') {
      forall j | 0 <= j < |rows| ensures Scannable(rows[j]) {
        assert j != i ==> Scannable(rows'[j]);
      }
    }
  }

  /** At the input {"hostname": null}: the NULL is stored, the request ends in a server error, and from then
      on no listing succeeds, so no health check; nor, if the device is active, any sweep or reconcile. */
  lemma NullHostnameStopsEverything(
      t: Table, net: Network, key: Key, i: nat, nonce: Column -> string, now: int, later: int, e: Env, clock: int -> int)
    requires Valid(t) && AllScannable(t.rows) && i < |t.rows|
    ensures var (t', response) := Patch(t, net, key, t.rows[i].id, map[Hostname := GoNil], nonce, now, later);
            && response == ServerError && |t'.rows| == |t.rows| && t'.rows[i].At(Hostname) == Null
            && List(t').None? && HealthPass(t', net, key, clock) == t'
            && (t.rows[i].At(Status) == Text("active") ==> ListByStatus(t', "active").None? && Sweep(e, t') == (t', 0))
  {
    hide Valid, Update, Encrypt, CheckedRow, Sweep, Scannable;
    var req: PatchRequest := map[Hostname := GoNil];
    var r := t.rows[i];
    assert SecretsSeal(key, req, nonce) && Hostname in req && !NoNilField(req);
    assert PatchUpdates(key, req, nonce) == req;
    NullHostnameUpdates(t, i, now);
    UpdateStores(t, i, req, now);
    UpdateKeepsReadableIff(t, key, i, req, nonce, now);
    PatchKeepsListIff(t, net, key, r.id, req, nonce, now, later);
    var t' := Update(t, r.id, req, now).0;
    UpdateFrame(t, r.id, req, now);
    IndexByIdUnique(t', r.id, i);
    assert Patch(t, net, key, r.id, req, nonce, now, later) == (t', ServerError);
    if r.At(Status) == Text("active") {
      UnreadableParentStopsSweep(e, t', i);
    }
  }

  lemma UnreadableParentStopsSweep(e: Env, t: Table, i: nat)
    requires i < |t.rows| && !Scannable(t.rows[i]) && t.rows[i].At(Status) == Text("active")
    ensures ListByStatus(t, "active").None? && Sweep(e, t) == (t, 0)
  {
    hide Scannable;
    WithStatusExact(t.rows, "active");
    assert t.rows[i] in WithStatus(t.rows, "active");
  }

  lemma NullHostnameUpdates(t: Table, i: nat, now: int)
    requires Valid(t) && i < |t.rows|
    ensures Update(t, t.rows[i].id, map[Hostname := GoNil], now).1 == Updated
  {
    var updates: map<Column, GoValue> := map[Hostname := GoNil];
    assert Hostname in updates;
    UpdateHitsItsRow(t, i, updates, now);
    var r' := UpdatedRow(t.rows[i], updates, now);
    assert r'.At(SnmpVersion) == t.rows[i].At(SnmpVersion) && r'.At(Status) == t.rows[i].At(Status);
  }

  // ---------------------------------------------------------------- explicit status

  /** An explicit status in PATCH is stored as given and nothing is probed, whatever else the request holds. */
  lemma ExplicitStatusIsStored(
      t: Table, net: Network, key: Key, i: nat, req: PatchRequest, nonce: Column -> string, now: int, later: int)
    requires Valid(t) && i < |t.rows| && SecretsSeal(key, req, nonce) && Status in req
    requires Update(t, t.rows[i].id, PatchUpdates(key, req, nonce), now).1 == Updated
    ensures var t' := Patch(t, net, key, t.rows[i].id, req, nonce, now, later).0;
            && t' == Update(t, t.rows[i].id, PatchUpdates(key, req, nonce), now).0
            && |t'.rows| == |t.rows| && t'.rows[i].ip == t.rows[i].ip
            && Bind(Status, req[Status]) == Some(t'.rows[i].At(Status))
  {
    hide Valid, Update, PatchUpdates;
    UpdateStores(t, i, PatchUpdates(key, req, nonce), now);
    PatchUpdatesAt(key, req, nonce, Status);
  }

  /** So `active` does not always mean probed. An explicit active stands exactly until the next pass over a
      readable table, if the row has a version and credentials that decrypt and its probe fails. */
  lemma ExplicitActiveFalls(
      t: Table, net: Network, key: Key, i: nat, req: PatchRequest, nonce: Column -> string, now: int, later: int, clock: int -> int)
    requires Valid(t) && i < |t.rows| && SecretsSeal(key, req, nonce)
    requires Status in req && req[Status] == GoString("active")
    requires Update(t, t.rows[i].id, PatchUpdates(key, req, nonce), now).1 == Updated
    requires AllScannable(Patch(t, net, key, t.rows[i].id, req, nonce, now, later).0.rows)
    ensures var t' := Patch(t, net, key, t.rows[i].id, req, nonce, now, later).0;
            && |t'.rows| == |t.rows| == |HealthPass(t', net, key, clock).rows|
            && t'.rows[i].At(Status) == Text("active")
            && (HealthPass(t', net, key, clock).rows[i].At(Status) == Text("failed") <==>
                  Probeable(t'.rows[i], key) && !Verify(net, t'.rows[i].ip, DecryptCredentials(t'.rows[i], key).value))
  {
    hide Patch, Valid, Update, PatchUpdates, CheckedRow, DecryptCredentials;
    ExplicitStatusIsStored(t, net, key, i, req, nonce, now, later);
    var t' := Patch(t, net, key, t.rows[i].id, req, nonce, now, later).0;
    CheckedRowExact(t'.rows[i], net, key, clock);
  }
}
