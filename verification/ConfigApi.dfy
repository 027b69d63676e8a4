/** The device handlers of the REST API (config-api/handlers/devices.go), after request decoding. */
module ConfigApi {
  import opened Basics
  import opened Snmp
  import opened DeviceTable
  import opened HealthCheck
  import S = DeviceStore

  datatype Response = Created(row: Row) | Ok(row: Row) | NoContent | BadRequest | Missing | ServerError

  /** The decoded body of POST /devices. */
  datatype DeviceRequest = DeviceRequest(
    ip: Ip, hostname: string, version: string, community: string, v3User: string, v3AuthKey: string, v3PrivKey: string,
    v3AuthProtocol: string, v3PrivProtocol: string, group: string, status: string)

  function RequestCredentials(req: DeviceRequest): Credentials {
    Credentials(req.version, req.community, req.v3User, req.v3AuthKey, req.v3PrivKey, req.v3AuthProtocol, req.v3PrivProtocol)
  }

  function ProbeStatus(net: Network, ip: Ip, creds: Credentials): string {
    if creds.version == "" then "pending" else if !Verify(net, ip, creds) then "failed" else "active"
  }

  // ---------------------------------------------------------------- POST

  /** The row POST asks to insert; None when a secret cannot be encrypted. */
  function PostedDevice(net: Network, key: Key, isPrivate: Ip -> bool, req: DeviceRequest, nonce: Column -> string): Option<NewDevice> {
    match (Encrypt(key, req.community, nonce(Community)), Encrypt(key, req.v3AuthKey, nonce(V3AuthKey)), Encrypt(key, req.v3PrivKey, nonce(V3PrivKey)))
    case (Some(community), Some(authKey), Some(privKey)) =>
      Some(NewDevice(req.ip, req.hostname, req.version, community, req.v3User, authKey, privKey, req.v3AuthProtocol,
                     req.v3PrivProtocol, req.group, ProbeStatus(net, req.ip, RequestCredentials(req)), !isPrivate(req.ip), "manual"))
    case _ => None
  }

  /** What the status of a probe means: pending without a version, and otherwise active exactly if the address
      answers a client that the credentials describe, and failed if not. */
  ghost predicate Probed(status: string, net: Network, ip: Ip, creds: Credentials) {
    if creds.version == "" then status == "pending"
    else if exists client :: Describes(creds, client) && net.answers(ip, client) then status == "active"
    else status == "failed"
  }

  lemma ProbeStatusIsProbed(net: Network, ip: Ip, creds: Credentials, status: string)
    ensures status == ProbeStatus(net, ip, creds) <==> Probed(status, net, ip, creds)
  {
    VerifyIff(net, ip, creds);
  }

  ghost predicate PostSeals(key: Key, req: DeviceRequest, nonce: Column -> string) {
    && Encrypt(key, req.community, nonce(Community)).Some?
    && Encrypt(key, req.v3AuthKey, nonce(V3AuthKey)).Some? && Encrypt(key, req.v3PrivKey, nonce(V3PrivKey)).Some?
  }

  /** The row holds the request: its address and fields as given, its secrets encrypted, the status a probe of the
      requested credentials gives, the classification of the address, and its origin. */
  ghost predicate HoldsRequest(r: Row, net: Network, key: Key, isPrivate: Ip -> bool, req: DeviceRequest, nonce: Column -> string) {
    && Scannable(r) && r.ip == req.ip && r.At(IsPublicIp) == Flag(!isPrivate(req.ip)) && r.Str(DiscoveredVia) == "manual"
    && r.Str(Hostname) == req.hostname && r.Str(GroupName) == req.group && r.Str(SnmpVersion) == req.version
    && r.Str(V3User) == req.v3User && r.Str(V3AuthProtocol) == req.v3AuthProtocol && r.Str(V3PrivProtocol) == req.v3PrivProtocol
    && Encrypt(key, req.community, nonce(Community)) == Some(r.Str(Community))
    && Encrypt(key, req.v3AuthKey, nonce(V3AuthKey)) == Some(r.Str(V3AuthKey))
    && Encrypt(key, req.v3PrivKey, nonce(V3PrivKey)) == Some(r.Str(V3PrivKey))
    && Probed(r.Str(Status), net, req.ip, RequestCredentials(req))
  }

  /** The table after a POST: one more row, with the next id, that holds the request; or, if the address is
      missing or tracked, the version unknown, or a secret cannot be encrypted, the table as it was. */
  ghost predicate PostLeaves(
      t: Table, t': Table, net: Network, key: Key, isPrivate: Ip -> bool, req: DeviceRequest, nonce: Column -> string, now: int)
  {
    if req.ip != "" && PostSeals(key, req, nonce) && !Tracked(t, req.ip) && req.version in {"v1", "v2c", "v3", ""} then
      && t'.lastId == t.lastId + 1 && |t'.rows| == |t.rows| + 1 && t'.rows[..|t.rows|] == t.rows
      && (var r := t'.rows[|t.rows|];
          r.id == t.lastId + 1 && r.createdAt == r.updatedAt == now && HoldsRequest(r, net, key, isPrivate, req, nonce))
    else t' == t
  }

  lemma PostedRowHolds(t: Table, net: Network, key: Key, isPrivate: Ip -> bool, req: DeviceRequest, nonce: Column -> string, r: Row)
    requires PostedDevice(net, key, isPrivate, req, nonce).Some?
    requires r.cells == CellsOf(PostedDevice(net, key, isPrivate, req, nonce).value) && r.ip == req.ip
    ensures HoldsRequest(r, net, key, isPrivate, req, nonce)
  {
    hide Encrypt, Scannable, Probed;
    InsertedRowReads(r, PostedDevice(net, key, isPrivate, req, nonce).value);
    var status := ProbeStatus(net, req.ip, RequestCredentials(req));
    ProbeStatusIsProbed(net, req.ip, RequestCredentials(req), status);
    assert status != "";
  }

  /** What POST asks for and the INSERT does, together. */
  lemma PostExact(t: Table, net: Network, key: Key, isPrivate: Ip -> bool, req: DeviceRequest, nonce: Column -> string, now: int)
    requires Valid(t)
    ensures PostedDevice(net, key, isPrivate, req, nonce).Some? <==> PostSeals(key, req, nonce)
    ensures req.ip != "" && PostSeals(key, req, nonce) ==>
              var d := PostedDevice(net, key, isPrivate, req, nonce).value;
              PostLeaves(t, if Insert(t, d, now).Some? then Insert(t, d, now).value else t, net, key, isPrivate, req, nonce, now)
  {
    hide Encrypt, HoldsRequest, Insert;
    if PostSeals(key, req, nonce) {
      var d := PostedDevice(net, key, isPrivate, req, nonce).value;
      InsertSucceedsIff(t, d, now);
      if Insert(t, d, now).Some? {
        InsertExact(t, d, now);
        PostedRowHolds(t, net, key, isPrivate, req, nonce, Insert(t, d, now).value.rows[|t.rows|]);
      }
    }
  }

  lemma PostRefused(t: Table, net: Network, key: Key, isPrivate: Ip -> bool, req: DeviceRequest, nonce: Column -> string, now: int)
    requires req.ip == "" || !PostSeals(key, req, nonce)
    ensures PostLeaves(t, t, net, key, isPrivate, req, nonce, now)
  {
  }

  method CreateDevice(store: S.DeviceStore, net: Network, key: Key, isPrivate: Ip -> bool, req: DeviceRequest,
                      nonce: Column -> string, now: int)
    returns (response: Response)
    requires Valid(store.table)
    modifies store
    ensures Valid(store.table)
    ensures response.Created? || response == BadRequest || response == ServerError
    ensures !response.Created? ==> store.table == old(store.table)
    ensures response == BadRequest <==> req.ip == ""
    ensures response.Created? ==>
              && PostedDevice(net, key, isPrivate, req, nonce).Some?
              && Insert(old(store.table), PostedDevice(net, key, isPrivate, req, nonce).value, now) == Some(store.table)
              && response.row == NewRow(old(store.table), PostedDevice(net, key, isPrivate, req, nonce).value, now)
    ensures PostLeaves(old(store.table), store.table, net, key, isPrivate, req, nonce, now)
    ensures response.Created? <==> store.table != old(store.table)
    ensures req.ip != "" && !response.Created? ==>
              || PostedDevice(net, key, isPrivate, req, nonce).None?
              || Insert(old(store.table), PostedDevice(net, key, isPrivate, req, nonce).value, now).None?
  {
    hide PostLeaves, HoldsRequest;
    PostExact(store.table, net, key, isPrivate, req, nonce, now);
    if req.ip == "" || !PostSeals(key, req, nonce) {
      PostRefused(store.table, net, key, isPrivate, req, nonce, now);
    }
    if req.ip == "" {
      return BadRequest;
    }
    var community := Encrypt(key, req.community, nonce(Community));
    if community.None? {
      return ServerError;
    }
    var authKey := Encrypt(key, req.v3AuthKey, nonce(V3AuthKey));
    if authKey.None? {
      return ServerError;
    }
    var privKey := Encrypt(key, req.v3PrivKey, nonce(V3PrivKey));
    if privKey.None? {
      return ServerError;
    }
    var status := ProbeStatus(net, req.ip, RequestCredentials(req));
    var d := NewDevice(req.ip, req.hostname, req.version, community.value, req.v3User, authKey.value, privKey.value,
                       req.v3AuthProtocol, req.v3PrivProtocol, req.group, status, !isPrivate(req.ip), "manual");
    ghost var before := store.table;
    var id := store.Create(d, now);
    if id.None? {
      return ServerError;
    }
    InsertKeepsValid(before, d, now);
    IndexByIdUnique(store.table, id.value, |before.rows|);
    var found := Get(store.table, id.value);
    return Created(found.row);
  }

  // ---------------------------------------------------------------- PATCH

  /** The decoded body of PATCH: JSON keys are the column names, and any others are ignored. */
  type PatchRequest = map<Column, GoValue>

  const PLAIN_FIELDS: set<Column> := {Hostname, SnmpVersion, V3User, V3AuthProtocol, V3PrivProtocol, GroupName, Status}
  const SECRET_FIELDS: set<Column> := {Community, V3AuthKey, V3PrivKey}
  const SNMP_FIELDS: set<Column> := {SnmpVersion, Community, V3User, V3AuthKey, V3PrivKey, V3AuthProtocol, V3PrivProtocol}

  /** v.(string) of a JSON value: anything but a string counts as the empty string. */
  function Plaintext(v: GoValue): string {
    if v.GoString? then v.s else ""
  }

  function SealedField(key: Key, req: PatchRequest, c: Column, nonce: Column -> string): Option<string>
    requires c in req
  {
    Encrypt(key, Plaintext(req[c]), nonce(c))
  }

  predicate SecretsSeal(key: Key, req: PatchRequest, nonce: Column -> string) {
    forall c :: c in SECRET_FIELDS && c in req ==> SealedField(key, req, c, nonce).Some?
  }

  /** The updates map PATCH hands to the store: plain fields as they came, secrets encrypted. */
  function PatchUpdates(key: Key, req: PatchRequest, nonce: Column -> string): map<Column, GoValue>
    requires SecretsSeal(key, req, nonce)
  {
    (map c | c in req && c in PLAIN_FIELDS :: req[c])
    + (map c | c in req && c in SECRET_FIELDS :: GoString(SealedField(key, req, c, nonce).value))
  }

  lemma PatchUpdatesAt(key: Key, req: PatchRequest, nonce: Column -> string, c: Column)
    requires SecretsSeal(key, req, nonce)
    ensures var updates := PatchUpdates(key, req, nonce);
            if c in req && c in SECRET_FIELDS then c in updates && updates[c] == GoString(SealedField(key, req, c, nonce).value)
            else if c in req && c in PLAIN_FIELDS then c in updates && updates[c] == req[c]
            else c !in updates
  {
  }

  predicate SnmpFieldsChanged(req: PatchRequest) {
    exists c :: c in SNMP_FIELDS && c in req
  }

  /** Probing the row as it now stands and storing the outcome. */
  function Reprobe(t: Table, net: Network, key: Key, d: Row, later: int): (Table, Response) {
    match DecryptCredentials(d, key)
    case None => (t, ServerError)
    case Some(creds) =>
      var status := ProbeStatus(net, d.ip, creds);
      (Update(t, d.id, StatusUpdate(status), later).0, Ok(d.(cells := d.cells[Status := Text(status)])))
  }

  /** The table and response after a PATCH. The first update stays in place even when a later step
      answers with a server error. */
  function Patch(t: Table, net: Network, key: Key, id: int, req: PatchRequest, nonce: Column -> string, now: int, later: int): (Table, Response) {
    if !SecretsSeal(key, req, nonce) then (t, ServerError)
    else
      var (t1, outcome) := Update(t, id, PatchUpdates(key, req, nonce), now);
      if outcome == NoSuchRow then (t, Missing)
      else if outcome != Updated then (t, ServerError)
      else
        match Get(t1, id)
        case NotFound => (t1, ServerError)
        case ScanError => (t1, ServerError)
        case Found(d) =>
          if !SnmpFieldsChanged(req) || Status in req then (t1, Ok(d)) else Reprobe(t1, net, key, d, later)
  }

  /** The text PATCH takes from a JSON value that should be a secret. */
  function SecretText(v: GoValue): string {
    match v
    case GoString(s) => s
    case _ => ""
  }

  predicate PlainColumn(c: Column) {
    c in {Hostname, SnmpVersion, V3User, V3AuthProtocol, V3PrivProtocol, GroupName, Status}
  }

  predicate SecretColumn(c: Column) {
    c in {Community, V3AuthKey, V3PrivKey}
  }

  ghost predicate PatchSeals(key: Key, req: PatchRequest, nonce: Column -> string) {
    forall c :: c in req && SecretColumn(c) ==> Encrypt(key, SecretText(req[c]), nonce(c)).Some?
  }

  lemma SealsIff(key: Key, req: PatchRequest, nonce: Column -> string)
    ensures SecretsSeal(key, req, nonce) <==> PatchSeals(key, req, nonce)
  {
    hide Encrypt;
    forall c | c in req && SecretColumn(c) ensures SealedField(key, req, c, nonce) == Encrypt(key, SecretText(req[c]), nonce(c)) {
    }
  }

  /** Which columns an applied PATCH writes, and what: a plain field as given, a secret encrypted (anything but a
      string counting as empty), everything else not at all. */
  lemma PatchUpdatesExact(key: Key, req: PatchRequest, nonce: Column -> string, c: Column)
    requires SecretsSeal(key, req, nonce)
    ensures var updates := PatchUpdates(key, req, nonce);
            && (c in updates <==> c in req && (PlainColumn(c) || SecretColumn(c)))
            && (c in req && PlainColumn(c) ==> updates[c] == req[c])
            && (c in req && SecretColumn(c) ==> Some(updates[c]) == SealedValue(key, req[c], nonce(c)))
  {
    hide Encrypt;
    PatchUpdatesAt(key, req, nonce, c);
  }

  function SealedValue(key: Key, v: GoValue, nonce: string): Option<GoValue> {
    match Encrypt(key, SecretText(v), nonce)
    case Some(sealed) => Some(GoString(sealed))
    case None => None
  }

  /** The body names something to write. */
  predicate Writes(req: PatchRequest) {
    exists c :: c in req && (PlainColumn(c) || SecretColumn(c))
  }

  predicate PlainBinds(req: PatchRequest) {
    forall c :: c in req && PlainColumn(c) ==> !req[c].GoComposite?
  }

  lemma PatchUpdatesShape(key: Key, req: PatchRequest, nonce: Column -> string)
    requires SecretsSeal(key, req, nonce)
    ensures var updates := PatchUpdates(key, req, nonce);
            && (updates != map[] <==> Writes(req))
            && ((forall c :: c in updates ==> Updatable(c) && !updates[c].GoComposite?) <==> PlainBinds(req))
            && (forall texts :: Admits(updates, SnmpVersion, texts) <==> Admits(req, SnmpVersion, texts))
            && (forall texts :: Admits(updates, Status, texts) <==> Admits(req, Status, texts))
  {
    var updates := PatchUpdates(key, req, nonce);
    forall c ensures PatchedAs(key, req, nonce, updates, c) {
      PatchUpdatesExact(key, req, nonce, c);
    }
    hide PatchUpdates, SecretsSeal, PatchedAs, Writes, PlainBinds, Admits, Updatable;
    NamesSomething(key, req, nonce, updates);
    BindsPlainly(key, req, nonce, updates);
    AdmitsAlike(key, req, nonce, updates, SnmpVersion);
    AdmitsAlike(key, req, nonce, updates, Status);
  }

  lemma NamesSomething(key: Key, req: PatchRequest, nonce: Column -> string, updates: map<Column, GoValue>)
    requires forall c :: PatchedAs(key, req, nonce, updates, c)
    ensures updates != map[] <==> Writes(req)
  {
    hide Encrypt, SealedValue, PlainColumn, SecretColumn;
    if updates != map[] {
      var c :| c in updates;
      assert PatchedAs(key, req, nonce, updates, c);
    }
    if Writes(req) {
      var c :| c in req && (PlainColumn(c) || SecretColumn(c));
      assert PatchedAs(key, req, nonce, updates, c);
    }
  }

  lemma BindsPlainly(key: Key, req: PatchRequest, nonce: Column -> string, updates: map<Column, GoValue>)
    requires forall c :: PatchedAs(key, req, nonce, updates, c)
    ensures (forall c :: c in updates ==> Updatable(c) && !updates[c].GoComposite?) <==> PlainBinds(req)
  {
    hide Encrypt;
    if PlainBinds(req) {
      forall c | c in updates ensures Updatable(c) && !updates[c].GoComposite? {
        assert PatchedAs(key, req, nonce, updates, c);
      }
    }
    if forall c :: c in updates ==> Updatable(c) && !updates[c].GoComposite? {
      forall c | c in req && PlainColumn(c) ensures !req[c].GoComposite? {
        assert PatchedAs(key, req, nonce, updates, c);
      }
    }
  }

  lemma AdmitsAlike(key: Key, req: PatchRequest, nonce: Column -> string, updates: map<Column, GoValue>, c: Column)
    requires PatchedAs(key, req, nonce, updates, c) && PlainColumn(c)
    ensures forall texts :: Admits(updates, c, texts) <==> Admits(req, c, texts)
  {
    hide Encrypt, SealedValue;
  }

  ghost predicate PatchedAs(key: Key, req: PatchRequest, nonce: Column -> string, updates: map<Column, GoValue>, c: Column) {
    && (c in updates <==> c in req && (PlainColumn(c) || SecretColumn(c)))
    && (c in req && PlainColumn(c) ==> updates[c] == req[c])
    && (c in req && SecretColumn(c) ==> Some(updates[c]) == SealedValue(key, req[c], nonce(c)))
  }

  /** When a PATCH of an existing device is applied: exactly if its secrets can be encrypted, no plain field is an
      object or a list, and version and status, where named, are ones the CHECKs admit. Otherwise it answers a server
      error and changes nothing. */
  lemma PatchAppliedIff(t: Table, net: Network, key: Key, i: nat, req: PatchRequest, nonce: Column -> string, now: int, later: int)
    requires Valid(t) && i < |t.rows|
    ensures var applied := SecretsSeal(key, req, nonce) && Update(t, t.rows[i].id, PatchUpdates(key, req, nonce), now).1 == Updated;
            && (applied <==>
                  && PatchSeals(key, req, nonce) && PlainBinds(req)
                  && Admits(req, SnmpVersion, {"v1", "v2c", "v3", ""}) && Admits(req, Status, {"pending", "active", "failed"}))
            && (!applied ==> Patch(t, net, key, t.rows[i].id, req, nonce, now, later) == (t, ServerError))
  {
    hide Update, Valid, PatchUpdates, SecretsSeal, PatchSeals, PlainBinds, Admits, Reprobe;
    SealsIff(key, req, nonce);
    if SecretsSeal(key, req, nonce) {
      PatchUpdatesShape(key, req, nonce);
      UpdateSucceedsIff(t, i, PatchUpdates(key, req, nonce), now);
      UpdateFrame(t, t.rows[i].id, PatchUpdates(key, req, nonce), now);
      UpdateFindsRow(t, i, PatchUpdates(key, req, nonce), now);
    }
  }

  lemma UpdateFindsRow(t: Table, i: nat, updates: map<Column, GoValue>, now: int)
    requires Valid(t) && i < |t.rows|
    ensures Update(t, t.rows[i].id, updates, now).1 != NoSuchRow
  {
    IndexByIdUnique(t, t.rows[i].id, i);
  }

  /** The cell a plain value ends up as: the column's text affinity turns numbers and truth values into text. */
  predicate StoredAs(cell: Cell, v: GoValue) {
    match v
    case GoString(s) => cell == Text(s)
    case GoNil => cell == Null
    case GoBool(b) => cell == Text(if b then "1" else "0")
    case GoNumber(digits) => cell == Text(digits)
    case GoComposite => false
  }

  /** The row that an applied PATCH updates, column by column: named plain fields hold their values, named secrets
      their encryption, and everything else what it held. */
  lemma PatchedRowExact(t: Table, key: Key, i: nat, req: PatchRequest, nonce: Column -> string, now: int, c: Column)
    requires Valid(t) && i < |t.rows| && SecretsSeal(key, req, nonce)
    requires Update(t, t.rows[i].id, PatchUpdates(key, req, nonce), now).1 == Updated
    ensures var t1 := Update(t, t.rows[i].id, PatchUpdates(key, req, nonce), now).0;
            && |t1.rows| == |t.rows|
            && (if c in req && PlainColumn(c) then StoredAs(t1.rows[i].At(c), req[c])
                else if c in req && SecretColumn(c) then
                  Encrypt(key, SecretText(req[c]), nonce(c)).Some?
                  && t1.rows[i].At(c) == Text(Encrypt(key, SecretText(req[c]), nonce(c)).value)
                else t1.rows[i].At(c) == t.rows[i].At(c))
  {
    hide Update, Valid, PatchUpdates, Encrypt, SecretsSeal;
    UpdateStores(t, i, PatchUpdates(key, req, nonce), now);
    PatchUpdatesExact(key, req, nonce, c);
  }

  /** A PATCH of an id that no device has changes nothing; it answers 404 exactly if its secrets can be encrypted, it
      names something to write, and no plain field is an object or a list. */
  lemma PatchOfNoDevice(t: Table, net: Network, key: Key, id: int, req: PatchRequest, nonce: Column -> string, now: int, later: int)
    requires IndexById(t.rows, id).None?
    ensures var (t', response) := Patch(t, net, key, id, req, nonce, now, later);
            && t' == t
            && (response == Missing <==> PatchSeals(key, req, nonce) && Writes(req) && PlainBinds(req))
            && (response != Missing ==> response == ServerError)
  {
    hide Update, PatchUpdates, SecretsSeal, PatchSeals, PlainBinds, Writes, Admits, Reprobe;
    SealsIff(key, req, nonce);
    if SecretsSeal(key, req, nonce) {
      PatchUpdatesShape(key, req, nonce);
      UpdateOfNoRow(t, id, PatchUpdates(key, req, nonce), now);
    }
  }

  /** The body touches an SNMP setting and leaves the status to the probe. */
  predicate WantsProbe(req: PatchRequest) {
    && (SnmpVersion in req || Community in req || V3User in req || V3AuthKey in req || V3PrivKey in req
        || V3AuthProtocol in req || V3PrivProtocol in req)
    && Status !in req
  }

  /** After the update of an applied PATCH, the row being readable: without cause for a probe nothing more happens;
      with cause, but a secret that does not decrypt, the request fails after its update; otherwise the status of a
      probe of the stored credentials is written to that row, and answered. */
  lemma PatchProbesExactly(t: Table, net: Network, key: Key, i: nat, req: PatchRequest, nonce: Column -> string, now: int, later: int)
    requires Valid(t) && i < |t.rows| && SecretsSeal(key, req, nonce)
    requires Update(t, t.rows[i].id, PatchUpdates(key, req, nonce), now).1 == Updated
    requires var t1 := Update(t, t.rows[i].id, PatchUpdates(key, req, nonce), now).0; |t1.rows| == |t.rows| && Scannable(t1.rows[i])
    ensures var t1 := Update(t, t.rows[i].id, PatchUpdates(key, req, nonce), now).0;
            var (t', response) := Patch(t, net, key, t.rows[i].id, req, nonce, now, later);
            var creds := DecryptCredentials(t1.rows[i], key);
            if !WantsProbe(req) then (t', response) == (t1, Ok(t1.rows[i]))
            else if creds.None? then (t', response) == (t1, ServerError)
            else
              exists status :: Probed(status, net, t.rows[i].ip, creds.value)
                               && t' == t1.(rows := t1.rows[i := WithNewStatus(t1.rows[i], status, later)])
                               && response == Ok(t1.rows[i].(cells := t1.rows[i].cells[Status := Text(status)]))
  {
    hide Update, Valid, PatchUpdates, SecretsSeal, Scannable, DecryptCredentials, Probed;
    var id := t.rows[i].id;
    var t1 := Update(t, id, PatchUpdates(key, req, nonce), now).0;
    UpdateFrame(t, id, PatchUpdates(key, req, nonce), now);
    RowIsFound(t1, i);
    WantsProbeIff(req);
    if WantsProbe(req) && DecryptCredentials(t1.rows[i], key).Some? {
      var creds := DecryptCredentials(t1.rows[i], key).value;
      var status := ProbeStatus(net, t.rows[i].ip, creds);
      ProbeStatusIsProbed(net, t.rows[i].ip, creds, status);
      StatusUpdateHitsItsRow(t1, i, status, later);
    }
  }

  lemma RowIsFound(t: Table, i: nat)
    requires Valid(t) && i < |t.rows|
    ensures Get(t, t.rows[i].id) == if Scannable(t.rows[i]) then Found(t.rows[i]) else ScanError
  {
    hide Scannable;
    IndexByIdUnique(t, t.rows[i].id, i);
  }

  lemma WantsProbeIff(req: PatchRequest)
    ensures WantsProbe(req) <==> SnmpFieldsChanged(req) && Status !in req
  {
    if WantsProbe(req) {
      var c :| c in {SnmpVersion, Community, V3User, V3AuthKey, V3PrivKey, V3AuthProtocol, V3PrivProtocol} && c in req;
      assert c in SNMP_FIELDS;
    }
  }

  method CollectPlain(req: PatchRequest) returns (updates: map<Column, GoValue>)
    ensures updates == map c | c in req && c in PLAIN_FIELDS :: req[c]
  {
    updates := map[];
    var todo := PLAIN_FIELDS;
    while todo != {}
      invariant todo <= PLAIN_FIELDS
      invariant updates == map c | c in req && c in PLAIN_FIELDS && c !in todo :: req[c]
    {
      var c :| c in todo;
      if c in req {
        updates := updates[c := req[c]];
      }
      todo := todo - {c};
    }
  }

  /** The loop over a set of fields: None as soon as one cannot be encrypted, in whatever order they are visited. */
  method SealFields(key: Key, req: PatchRequest, fields: set<Column>, nonce: Column -> string) returns (r: Option<map<Column, GoValue>>)
    ensures r.Some? <==> forall c :: c in fields && c in req ==> SealedField(key, req, c, nonce).Some?
    ensures r.Some? ==> r.value == map c | c in req && c in fields :: GoString(SealedField(key, req, c, nonce).value)
  {
    hide Encrypt, Plaintext;
    var sealed: map<Column, GoValue> := map[];
    var todo := fields;
    while todo != {}
      invariant todo <= fields
      invariant forall c :: c in fields && c in req && c !in todo ==> SealedField(key, req, c, nonce).Some?
      invariant sealed == map c | c in req && c in fields && c !in todo :: GoString(SealedField(key, req, c, nonce).value)
    {
      var c :| c in todo;
      if c in req {
        var encrypted := Encrypt(key, Plaintext(req[c]), nonce(c));
        assert encrypted == SealedField(key, req, c, nonce);
        if encrypted.None? {
          return None;
        }
        sealed := sealed[c := GoString(encrypted.value)];
      }
      todo := todo - {c};
    }
    return Some(sealed);
  }

  method CollectSecrets(key: Key, req: PatchRequest, nonce: Column -> string) returns (r: Option<map<Column, GoValue>>)
    ensures r.Some? <==> SecretsSeal(key, req, nonce)
    ensures r.Some? ==>
              r.value == map c | c in req && c in SECRET_FIELDS :: GoString(SealedField(key, req, c, nonce).value)
  {
    r := SealFields(key, req, SECRET_FIELDS, nonce);
  }

  method UpdateDevice(store: S.DeviceStore, net: Network, key: Key, id: int, req: PatchRequest, nonce: Column -> string, now: int, later: int)
    returns (response: Response)
    requires Valid(store.table)
    modifies store
    ensures Valid(store.table)
    ensures (store.table, response) == Patch(old(store.table), net, key, id, req, nonce, now, later)
  {
    var plain := CollectPlain(req);
    var sealed := CollectSecrets(key, req, nonce);
    if sealed.None? {
      return ServerError;
    }
    var outcome := store.Update(id, plain + sealed.value, now);
    if outcome == NoSuchRow {
      return Missing;
    }
    if outcome != Updated {
      return ServerError;
    }
    var found := Get(store.table, id);
    if !found.Found? {
      return ServerError;
    }
    var d := found.row;
    if SnmpFieldsChanged(req) && Status !in req {
      var creds := DecryptCredentials(d, key);
      if creds.None? {
        return ServerError;
      }
      var status := ProbeStatus(net, d.ip, creds.value);
      StatusUpdateHitsItsRow(store.table, IndexById(store.table.rows, id).value, status, later);
      var second := store.Update(id, StatusUpdate(status), later);
      d := d.(cells := d.cells[Status := Text(status)]);
    }
    return Ok(d);
  }

  // ---------------------------------------------------------------- DELETE

  method DeleteDevice(store: S.DeviceStore, id: int) returns (response: Response)
    requires Valid(store.table)
    modifies store
    ensures Valid(store.table)
    ensures forall r :: r in store.table.rows <==> r in old(store.table.rows) && r.id != id
    ensures store.table.lastId == old(store.table.lastId)
    ensures response == if exists r :: r in old(store.table.rows) && r.id == id then NoContent else Missing
  {
    DeleteExact(store.table, id);
    DeleteKeepsValid(store.table, id);
    var found := store.Delete(id);
    return if found then NoContent else Missing;
  }
}
