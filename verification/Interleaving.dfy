/** Every actor that touches the devices table, cut into its SQL statements, and every interleaving of
    any number of them: gateway discovery, the sweep, the health check, POST, PATCH and DELETE. */
module Interleaving {
  import opened Basics
  import opened Snmp
  import opened DeviceTable
  import opened HealthCheck
  import opened ConfigApi
  import opened DiscoverySweep
  import Gateway
  import NetUtil

  /** Parents still to be walked, next hops of the current one still to be considered, devices inserted so far. */
  datatype SweepPoint = SweepPoint(parents: seq<Row>, parentIp: Ip, creds: Credentials, hops: seq<Ip>, duplicate: bool, count: nat)

  /** Where an actor stands between two statements. Rows and ids it holds may be stale. */
  datatype Actor =
    | Idle
    // config-watcher/discovery.go: the lookup found nothing; the row is inserted; the probe is over
    | GatewayLooked(ip: Ip)
    | GatewayInserted(id: int, ip: Ip)
    // a probe of `ip` is over and its outcome waits to be written to `id`; `rest` is what remains of a health-check snapshot
    | StatusPending(id: int, ip: Ip, updates: map<Column, GoValue>, rest: seq<Row>)
    // config-watcher/healthcheck.go: devices of the snapshot still to be checked
    | Checking(rest: seq<Row>)
    // config-watcher/discovery_sweep.go: between two next hops; or the next hop `ip` has passed every check,
    // the lookup included, and awaits insertion
    | Sweeping(at: SweepPoint)
    | SweepLooked(ip: Ip, at: SweepPoint)
    // config-api/handlers/devices.go
    | PostReady(device: NewDevice)
    | PatchWritten(id: int, req: PatchRequest)

  /** What never changes: the key and the address classification. */
  datatype World = World(key: Key, isPrivate: Ip -> bool)

  /** The table, the actors, and the history of id assignments. */
  datatype State = State(table: Table, actors: map<nat, Actor>, issued: map<int, Ip>)

  /** One statement or one network exchange of one actor. `fault` makes a statement fail without effect,
      and `net` is the network as that exchange meets it. */
  datatype Action =
    | StartGateway(ip: Ip)
    | StartCheck
    | StartSweep(duplicate: bool)
    | StartPost(probe: Network, body: DeviceRequest, nonces: Column -> string)
    | StartPatch(id: int, fields: PatchRequest, nonces: Column -> string)
    | DeleteById(id: int)
    | Advance(net: Network, nonce: string)

  datatype Event = Event(actor: nat, action: Action, fault: bool, now: int)

  function ActorOf(s: State, a: nat): Actor {
    if a in s.actors then s.actors[a] else Idle
  }

  function With(s: State, a: nat, actor: Actor): State {
    s.(actors := s.actors[a := actor])
  }

  /** An INSERT by some actor: the new state, and the id if it succeeded. */
  function InsertStep(s: State, d: NewDevice, e: Event): (State, Option<int>) {
    match if e.fault then None else Insert(s.table, d, e.now)
    case None => (s, None)
    case Some(t) => (s.(table := t, issued := s.issued[t.lastId := d.ip]), Some(t.lastId))
  }

  function UpdateStep(s: State, id: int, updates: map<Column, GoValue>, e: Event): State {
    if e.fault then s else s.(table := Update(s.table, id, updates, e.now).0)
  }

  function SweepNext(w: World, s: State, e: Event, at: SweepPoint, net: Network): State {
    if at.hops != [] && at.count < MAX_NEW_DEVICES_PER_SWEEP then
      var hop, rest := at.hops[0], at.(hops := at.hops[1..]);
      if hop == at.parentIp || !w.isPrivate(hop) || e.fault || GetByIp(s.table, hop) != NotFound then With(s, e.actor, Sweeping(rest))
      else With(s, e.actor, SweepLooked(hop, rest))
    else if at.parents != [] && at.count < MAX_NEW_DEVICES_PER_SWEEP then
      var parent, skip := at.parents[0], at.(parents := at.parents[1..], hops := []);
      match DecryptCredentials(parent, w.key)
      case None => With(s, e.actor, Sweeping(skip))
      case Some(creds) =>
        match RouteNextHops(net, parent.ip, creds)
        case None => With(s, e.actor, Sweeping(skip))
        case Some(hops) => With(s, e.actor, Sweeping(skip.(parentIp := parent.ip, creds := creds, hops := hops)))
    else With(s, e.actor, Idle)
  }

  function CheckNext(w: World, s: State, e: Event, rest: seq<Row>, net: Network): State {
    if rest == [] then With(s, e.actor, Idle)
    else
      var d := rest[0];
      if !Probeable(d, w.key) then With(s, e.actor, Checking(rest[1..]))
      else
        var status := ProbedStatus(net, d.ip, DecryptCredentials(d, w.key).value);
        if status == d.Str(Status) then With(s, e.actor, Checking(rest[1..]))
        else With(s, e.actor, StatusPending(d.id, d.ip, StatusUpdate(status), rest[1..]))
  }

  /** After the first update of a PATCH: the re-read, and the probe if one is due. */
  function PatchNext(w: World, s: State, e: Event, a: Actor, net: Network): State
    requires a.PatchWritten?
  {
    match if e.fault then NotFound else Get(s.table, a.id)
    case NotFound => With(s, e.actor, Idle)
    case ScanError => With(s, e.actor, Idle)
    case Found(d) =>
      if !SnmpFieldsChanged(a.req) || Status in a.req then With(s, e.actor, Idle)
      else
        match DecryptCredentials(d, w.key)
        case None => With(s, e.actor, Idle)
        case Some(creds) => With(s, e.actor, StatusPending(a.id, d.ip, StatusUpdate(ProbeStatus(net, d.ip, creds)), []))
  }

  function SweepInsert(w: World, s: State, e: Event, ip: Ip, at: SweepPoint, net: Network, nonce: string): State {
    var env := Env(net, w.key, w.isPrivate, at.duplicate, _ => nonce, _ => e.now);
    var (s1, id) := InsertStep(s, Discovered(env, ip, at.creds), e);
    With(s1, e.actor, Sweeping(if id.Some? then at.(count := at.count + 1) else at))
  }

  function Advanced(w: World, s: State, e: Event, a: Actor, net: Network, nonce: string): State {
    match a
    case Idle => s
    case GatewayLooked(ip) =>
      var (s1, id) := InsertStep(s, Blank(ip, "pending", !w.isPrivate(ip), "gateway"), e);
      With(s1, e.actor, if id.Some? then GatewayInserted(id.value, ip) else Idle)
    case GatewayInserted(id, ip) =>
      (match Gateway.ProbeUpdates(net, w.key, ip, nonce)
       case None => With(s, e.actor, Idle)
       case Some(updates) => With(s, e.actor, StatusPending(id, ip, updates, [])))
    case StatusPending(id, ip, updates, rest) => With(UpdateStep(s, id, updates, e), e.actor, Checking(rest))
    case Checking(rest) => CheckNext(w, s, e, rest, net)
    case Sweeping(at) => SweepNext(w, s, e, at, net)
    case SweepLooked(ip, at) => SweepInsert(w, s, e, ip, at, net, nonce)
    case PostReady(d) => With(InsertStep(s, d, e).0, e.actor, Idle)
    case PatchWritten(_, _) => PatchNext(w, s, e, a, net)
  }

  function SweepStart(rows: seq<Row>, duplicate: bool): SweepPoint {
    SweepPoint(rows, "", CommunityOnly("", ""), [], duplicate, 0)
  }

  /** The step relation, as a function of the event. A new activity starts only in an idle actor. */
  function Step(w: World, s: State, e: Event): State {
    var a := ActorOf(s, e.actor);
    match e.action
    case Advance(net, nonce) => Advanced(w, s, e, a, net, nonce)
    case StartGateway(ip) =>
      if a != Idle || e.fault || GetByIp(s.table, ip) != NotFound then s else With(s, e.actor, GatewayLooked(ip))
    case StartCheck =>
      (match if e.fault then None else List(s.table)
       case None => s
       case Some(rows) => if a != Idle then s else With(s, e.actor, Checking(rows)))
    case StartSweep(duplicate) =>
      (match if e.fault then None else ListByStatus(s.table, "active")
       case None => s
       case Some(rows) =>
         if a != Idle then s
         else With(s, e.actor, Sweeping(SweepStart(rows, duplicate))))
    case StartPost(net, req, nonce) =>
      (match PostedDevice(net, w.key, w.isPrivate, req, nonce)
       case None => s
       case Some(d) => if a != Idle || req.ip == "" then s else With(s, e.actor, PostReady(d)))
    case StartPatch(id, req, nonce) =>
      if a != Idle || e.fault || !SecretsSeal(w.key, req, nonce) then s
      else
        var (t, outcome) := Update(s.table, id, PatchUpdates(w.key, req, nonce), e.now);
        if outcome != Updated then s else With(s.(table := t), e.actor, PatchWritten(id, req))
    case DeleteById(id) => if e.fault then s else s.(table := Delete(s.table, id).0)
  }

  function Run(w: World, s: State, events: seq<Event>): State {
    if events == [] then s else Step(w, Run(w, s, events[..|events| - 1]), events[|events| - 1])
  }

  const INITIAL := State(Table([], 0), map[], map[])

  // ---------------------------------------------------------------- the invariant

  /** The table agrees with the history: the ids ever issued are 1 to lastId, every row still has the
      address its id was issued for, and is_public_ip is the classification of that address. */
  ghost predicate TableOk(w: World, t: Table, issued: map<int, Ip>) {
    && Valid(t)
    && (forall id :: id in issued <==> 1 <= id <= t.lastId)
    && (forall r :: r in t.rows ==> RowOk(w, r, issued))
  }

  ghost predicate RowOk(w: World, r: Row, issued: map<int, Ip>) {
    Issued(issued, r.id, r.ip) && r.At(IsPublicIp) == Flag(!w.isPrivate(r.ip))
  }

  ghost predicate Issued(issued: map<int, Ip>, id: int, ip: Ip) {
    id in issued && issued[id] == ip
  }

  /** What an actor holds is true history, even where it is stale. */
  ghost predicate ActorOk(w: World, issued: map<int, Ip>, a: Actor) {
    match a
    case Idle => true
    case GatewayLooked(_) => true
    case GatewayInserted(id, ip) => Issued(issued, id, ip)
    case StatusPending(id, ip, updates, rest) => Issued(issued, id, ip) && IsPublicIp !in updates && SnapshotOk(issued, rest)
    case Checking(rest) => SnapshotOk(issued, rest)
    case Sweeping(at) => at.count <= MAX_NEW_DEVICES_PER_SWEEP
    case SweepLooked(ip, at) => w.isPrivate(ip) && at.count < MAX_NEW_DEVICES_PER_SWEEP
    case PostReady(d) => d.isPublic == !w.isPrivate(d.ip)
    case PatchWritten(_, _) => true
  }

  ghost predicate SnapshotOk(issued: map<int, Ip>, rows: seq<Row>) {
    forall r :: r in rows ==> Issued(issued, r.id, r.ip)
  }

  ghost predicate Inv(w: World, s: State) {
    TableOk(w, s.table, s.issued) && forall a :: a in s.actors ==> ActorOk(w, s.issued, s.actors[a])
  }

  /** History only grows. */
  ghost predicate Extends(before: map<int, Ip>, after: map<int, Ip>) {
    forall id :: id in before ==> id in after && after[id] == before[id]
  }

  lemma ActorOkMonotone(w: World, before: map<int, Ip>, after: map<int, Ip>, a: Actor)
    requires ActorOk(w, before, a) && Extends(before, after)
    ensures ActorOk(w, after, a)
  {
  }

  lemma InsertKeepsOk(w: World, t: Table, issued: map<int, Ip>, d: NewDevice, now: int)
    requires TableOk(w, t, issued) && Insert(t, d, now).Some? && d.isPublic == !w.isPrivate(d.ip)
    ensures var t' := Insert(t, d, now).value;
            && TableOk(w, t', issued[t'.lastId := d.ip])
            && Extends(issued, issued[t'.lastId := d.ip])
            && t'.lastId == t.lastId + 1
  {
    InsertKeepsValid(t, d, now);
    InsertedRowReads(NewRow(t, d, now), d);
  }

  lemma UpdateKeepsOk(w: World, t: Table, issued: map<int, Ip>, id: int, updates: map<Column, GoValue>, now: int)
    requires TableOk(w, t, issued) && IsPublicIp !in updates
    ensures TableOk(w, Update(t, id, updates, now).0, issued)
  {
    UpdateFrame(t, id, updates, now);
    var t' := Update(t, id, updates, now).0;
    forall r | r in t'.rows ensures RowOk(w, r, issued) {
      var i :| 0 <= i < |t'.rows| && t'.rows[i] == r;
      assert RowOk(w, t.rows[i], issued);
    }
  }

  lemma DeleteKeepsOk(w: World, t: Table, issued: map<int, Ip>, id: int)
    requires TableOk(w, t, issued)
    ensures TableOk(w, Delete(t, id).0, issued)
  {
    DeleteKeepsValid(t, id);
    DeleteExact(t, id);
  }

  // ---------------------------------------------------------------- one step

  lemma WithKeepsInv(w: World, s: State, a: nat, actor: Actor)
    requires Inv(w, s) && ActorOk(w, s.issued, actor)
    ensures Inv(w, With(s, a, actor))
  {
  }

  lemma InsertStepKeepsInv(w: World, s: State, d: NewDevice, e: Event)
    requires Inv(w, s) && d.isPublic == !w.isPrivate(d.ip)
    ensures var (s1, id) := InsertStep(s, d, e);
            && Inv(w, s1) && Extends(s.issued, s1.issued) && s1.actors == s.actors
            && (id.Some? ==> Issued(s1.issued, id.value, d.ip))
  {
    if !e.fault && Insert(s.table, d, e.now).Some? {
      InsertKeepsOk(w, s.table, s.issued, d, e.now);
      var s1 := InsertStep(s, d, e).0;
      forall a | a in s1.actors ensures ActorOk(w, s1.issued, s1.actors[a]) {
        ActorOkMonotone(w, s.issued, s1.issued, s.actors[a]);
      }
    }
  }

  lemma UpdateStepKeepsInv(w: World, s: State, id: int, updates: map<Column, GoValue>, e: Event)
    requires Inv(w, s) && IsPublicIp !in updates
    ensures Inv(w, UpdateStep(s, id, updates, e)) && UpdateStep(s, id, updates, e).issued == s.issued
  {
    UpdateKeepsOk(w, s.table, s.issued, id, updates, e.now);
  }

  lemma ListedRowsOk(w: World, s: State, status: string)
    requires Inv(w, s)
    ensures SnapshotOk(s.issued, s.table.rows) && SnapshotOk(s.issued, WithStatus(s.table.rows, status))
  {
    WithStatusExact(s.table.rows, status);
    assert forall r :: r in s.table.rows ==> RowOk(w, r, s.issued);
  }

  lemma CheckNextKeepsInv(w: World, s: State, e: Event, rest: seq<Row>, net: Network)
    requires Inv(w, s) && SnapshotOk(s.issued, rest)
    ensures Inv(w, CheckNext(w, s, e, rest, net))
  {
    if rest == [] {
      WithKeepsInv(w, s, e.actor, Idle);
    } else {
      var d := rest[0];
      assert d in rest;
      assert SnapshotOk(s.issued, rest[1..]);
      WithKeepsInv(w, s, e.actor, Checking(rest[1..]));
      if Probeable(d, w.key) {
        var status := ProbedStatus(net, d.ip, DecryptCredentials(d, w.key).value);
        WithKeepsInv(w, s, e.actor, StatusPending(d.id, d.ip, StatusUpdate(status), rest[1..]));
      }
    }
  }

  lemma SweepNextKeepsInv(w: World, s: State, e: Event, at: SweepPoint, net: Network)
    requires Inv(w, s) && at.count <= MAX_NEW_DEVICES_PER_SWEEP
    ensures Inv(w, SweepNext(w, s, e, at, net))
  {
    hide TableOk, DecryptCredentials, RouteNextHops;
  }

  lemma PatchNextKeepsInv(w: World, s: State, e: Event, a: Actor, net: Network)
    requires Inv(w, s) && a.PatchWritten?
    ensures Inv(w, PatchNext(w, s, e, a, net))
  {
    WithKeepsInv(w, s, e.actor, Idle);
    var found := Get(s.table, a.id);
    if found.Found? {
      var d := found.row;
      assert d in s.table.rows && d.id == a.id;
      assert RowOk(w, d, s.issued);
      if DecryptCredentials(d, w.key).Some? {
        var status := ProbeStatus(net, d.ip, DecryptCredentials(d, w.key).value);
        WithKeepsInv(w, s, e.actor, StatusPending(a.id, d.ip, StatusUpdate(status), []));
      }
    }
  }

  lemma SweepInsertKeepsInv(w: World, s: State, e: Event, ip: Ip, at: SweepPoint, net: Network, nonce: string)
    requires Inv(w, s) && w.isPrivate(ip) && at.count < MAX_NEW_DEVICES_PER_SWEEP
    ensures Inv(w, SweepInsert(w, s, e, ip, at, net, nonce))
  {
    var env := Env(net, w.key, w.isPrivate, at.duplicate, _ => nonce, _ => e.now);
    var d := Discovered(env, ip, at.creds);
    assert d.ip == ip && !d.isPublic;
    InsertStepKeepsInv(w, s, d, e);
    var (s1, id) := InsertStep(s, d, e);
    WithKeepsInv(w, s1, e.actor, Sweeping(if id.Some? then at.(count := at.count + 1) else at));
  }

  lemma AdvancedKeepsInv(w: World, s: State, e: Event, a: Actor, net: Network, nonce: string)
    requires Inv(w, s) && ActorOk(w, s.issued, a)
    ensures Inv(w, Advanced(w, s, e, a, net, nonce))
  {
    hide Inv;
    match a
    case Idle =>
    case GatewayLooked(ip) =>
      var d := Blank(ip, "pending", !w.isPrivate(ip), "gateway");
      InsertStepKeepsInv(w, s, d, e);
      var (s1, id) := InsertStep(s, d, e);
      WithKeepsInv(w, s1, e.actor, if id.Some? then GatewayInserted(id.value, ip) else Idle);
    case GatewayInserted(id, ip) =>
      WithKeepsInv(w, s, e.actor, Idle);
      if Gateway.ProbeUpdates(net, w.key, ip, nonce).Some? {
        WithKeepsInv(w, s, e.actor, StatusPending(id, ip, Gateway.ProbeUpdates(net, w.key, ip, nonce).value, []));
      }
    case StatusPending(id, ip, updates, rest) =>
      UpdateStepKeepsInv(w, s, id, updates, e);
      WithKeepsInv(w, UpdateStep(s, id, updates, e), e.actor, Checking(rest));
    case Checking(rest) => CheckNextKeepsInv(w, s, e, rest, net);
    case Sweeping(at) => SweepNextKeepsInv(w, s, e, at, net);
    case SweepLooked(ip, at) => SweepInsertKeepsInv(w, s, e, ip, at, net, nonce);
    case PostReady(d) =>
      InsertStepKeepsInv(w, s, d, e);
      WithKeepsInv(w, InsertStep(s, d, e).0, e.actor, Idle);
    case PatchWritten(_, _) => PatchNextKeepsInv(w, s, e, a, net);
  }

  lemma UpdatedTableKeepsInv(w: World, s: State, id: int, updates: map<Column, GoValue>, now: int)
    requires Inv(w, s) && IsPublicIp !in updates
    ensures Inv(w, s.(table := Update(s.table, id, updates, now).0))
  {
    UpdateKeepsOk(w, s.table, s.issued, id, updates, now);
  }

  lemma DeletedTableKeepsInv(w: World, s: State, id: int)
    requires Inv(w, s)
    ensures Inv(w, s.(table := Delete(s.table, id).0))
  {
    DeleteKeepsOk(w, s.table, s.issued, id);
  }

  lemma ActorOfOk(w: World, s: State, a: nat)
    requires Inv(w, s)
    ensures ActorOk(w, s.issued, ActorOf(s, a))
  {
  }

  lemma StepKeepsInv(w: World, s: State, e: Event)
    requires Inv(w, s)
    ensures Inv(w, Step(w, s, e))
  {
    hide Inv, Update, Delete, PatchUpdates, SecretsSeal, PostedDevice;
    match e.action
    case Advance(net, nonce) =>
      ActorOfOk(w, s, e.actor);
      AdvancedKeepsInv(w, s, e, ActorOf(s, e.actor), net, nonce);
    case StartGateway(ip) => WithKeepsInv(w, s, e.actor, GatewayLooked(ip));
    case StartCheck =>
      ListedRowsOk(w, s, "active");
      WithKeepsInv(w, s, e.actor, Checking(s.table.rows));
    case StartSweep(duplicate) =>
      WithKeepsInv(w, s, e.actor, Sweeping(SweepStart(WithStatus(s.table.rows, "active"), duplicate)));
    case StartPost(net, req, nonce) => StartPostKeepsInv(w, s, e, net, req, nonce);
    case StartPatch(id, req, nonce) =>
      if SecretsSeal(w.key, req, nonce) {
        var updates := PatchUpdates(w.key, req, nonce);
        PatchUpdatesAt(w.key, req, nonce, IsPublicIp);
        UpdatedTableKeepsInv(w, s, id, updates, e.now);
        var t := Update(s.table, id, updates, e.now).0;
        WithKeepsInv(w, s.(table := t), e.actor, PatchWritten(id, req));
      }
    case DeleteById(id) => DeletedTableKeepsInv(w, s, id);
  }

  lemma StartPostKeepsInv(w: World, s: State, e: Event, net: Network, req: DeviceRequest, nonce: Column -> string)
    requires Inv(w, s) && e.action == StartPost(net, req, nonce)
    ensures Inv(w, Step(w, s, e))
  {
    if PostedDevice(net, w.key, w.isPrivate, req, nonce).Some? {
      WithKeepsInv(w, s, e.actor, PostReady(PostedDevice(net, w.key, w.isPrivate, req, nonce).value));
    }
  }

  /** Safety over all runs: in every state that any interleaving of the actors' statements reaches, with
      any faults and any network behaviour, addresses are pairwise distinct, every row still has the address
      its id was issued for, and is_public_ip is the classification of that address, the rows for which the
      sweep writes a constant included. */
  lemma {:induction false} ReachableStatesAreOk(w: World, events: seq<Event>)
    ensures Inv(w, Run(w, INITIAL, events))
  {
    if events != [] {
      ReachableStatesAreOk(w, events[..|events| - 1]);
      StepKeepsInv(w, Run(w, INITIAL, events[..|events| - 1]), events[|events| - 1]);
    }
  }

  /** For the repository's own classification: at every moment of every run, is_public_ip is true exactly of
      the addresses outside the reserved ranges. */
  lemma {:induction false} PublicColumnIsExact(parse: string -> Option<NetUtil.Addr>, key: Key, events: seq<Event>, r: Row)
    requires r in Run(World(key, NetUtil.Classifier(parse)), INITIAL, events).table.rows
    ensures r.At(IsPublicIp) == Flag(NetUtil.IsPublic(parse, r.ip))
    ensures r.At(IsPublicIp) == Flag(false) <==>
              (var addr := parse(r.ip); addr.Some? && addr.value.V4? && NetUtil.InReservedRange(NetUtil.Value(addr.value)))
  {
    hide Run, NetUtil.IsPrivate, NetUtil.InReservedRange, NetUtil.Value;
    var w := World(key, NetUtil.Classifier(parse));
    ReachableStatesAreOk(w, events);
    assert RowOk(w, r, Run(w, INITIAL, events).issued);
    NetUtil.IsPrivateIsRangeMembership(parse, r.ip);
  }

  // ---------------------------------------------------------------- ids over a run

  /** The table step of one event: rows keep their ids and addresses, and a row that was not there
      before has an id above every id issued so far. */
  ghost predicate IdsAdvance(t: Table, t': Table) {
    && t.lastId <= t'.lastId
    && (forall r' :: r' in t'.rows ==> t.lastId < r'.id || exists r :: r in t.rows && r.id == r'.id && r.ip == r'.ip)
  }

  lemma UpdateIdsAdvance(t: Table, id: int, updates: map<Column, GoValue>, now: int)
    requires Valid(t)
    ensures IdsAdvance(t, Update(t, id, updates, now).0)
  {
    UpdateFrame(t, id, updates, now);
    var t' := Update(t, id, updates, now).0;
    forall r' | r' in t'.rows ensures exists r :: r in t.rows && r.id == r'.id && r.ip == r'.ip {
      var i :| 0 <= i < |t'.rows| && t'.rows[i] == r';
      assert t.rows[i] in t.rows;
    }
  }

  lemma InsertIdsAdvance(s: State, d: NewDevice, e: Event)
    requires Valid(s.table)
    ensures IdsAdvance(s.table, InsertStep(s, d, e).0.table)
  {
  }

  /** A step changes the table by at most one INSERT, UPDATE or DELETE. */
  lemma StepTable(w: World, s: State, e: Event) returns (d: NewDevice, id: int, updates: map<Column, GoValue>)
    ensures var s' := Step(w, s, e);
            || (s'.table == s.table && s'.issued == s.issued)
            || (s'.table == InsertStep(s, d, e).0.table && s'.issued == InsertStep(s, d, e).0.issued)
            || (s'.table == Update(s.table, id, updates, e.now).0 && s'.issued == s.issued)
            || (s'.table == Delete(s.table, id).0 && s'.issued == s.issued)
  {
    hide Insert, Update, Delete, Bindable, SecretsSeal, PatchUpdates, Discovered, SweepNext, CheckNext, PatchNext;
    d, id, updates := Blank("", "", false, ""), 0, map[];
    var a := ActorOf(s, e.actor);
    match e.action
    case Advance(net, nonce) =>
      match a {
        case GatewayLooked(ip) => d := Blank(ip, "pending", !w.isPrivate(ip), "gateway");
        case StatusPending(i, ip, u, rest) => id, updates := i, u;
        case SweepLooked(ip, at) =>
          d := Discovered(Env(net, w.key, w.isPrivate, at.duplicate, _ => nonce, _ => e.now), ip, at.creds);
        case PostReady(device) => d := device;
        case Sweeping(at) => SweepNextReads(w, s, e, at, net);
        case Checking(rest) => CheckNextReads(w, s, e, rest, net);
        case PatchWritten(_, _) => PatchNextReads(w, s, e, a, net);
        case _ =>
      }
    case StartPatch(i, fields, nonces) =>
      id := i;
      if SecretsSeal(w.key, fields, nonces) {
        updates := PatchUpdates(w.key, fields, nonces);
      }
    case DeleteById(i) => id := i;
    case _ =>
  }

  lemma SweepNextReads(w: World, s: State, e: Event, at: SweepPoint, net: Network)
    ensures SweepNext(w, s, e, at, net).table == s.table && SweepNext(w, s, e, at, net).issued == s.issued
  {
  }

  lemma CheckNextReads(w: World, s: State, e: Event, rest: seq<Row>, net: Network)
    ensures var s' := CheckNext(w, s, e, rest, net);
            Allowance(ActorOf(s', e.actor)) == 0 && forall a :: a != e.actor ==> ActorOf(s', a) == ActorOf(s, a)
    ensures CheckNext(w, s, e, rest, net).table == s.table && CheckNext(w, s, e, rest, net).issued == s.issued
  {
  }

  lemma PatchNextReads(w: World, s: State, e: Event, a: Actor, net: Network)
    requires a.PatchWritten?
    ensures var s' := PatchNext(w, s, e, a, net);
            Allowance(ActorOf(s', e.actor)) == 0 && forall b :: b != e.actor ==> ActorOf(s', b) == ActorOf(s, b)
    ensures PatchNext(w, s, e, a, net).table == s.table && PatchNext(w, s, e, a, net).issued == s.issued
  {
  }

  lemma StepIdsAdvance(w: World, s: State, e: Event)
    requires Valid(s.table)
    ensures IdsAdvance(s.table, Step(w, s, e).table)
  {
    var d, id, updates := StepTable(w, s, e);
    InsertIdsAdvance(s, d, e);
    UpdateIdsAdvance(s.table, id, updates, e.now);
    DeleteIdsAdvance(s.table, id);
  }

  lemma DeleteIdsAdvance(t: Table, id: int)
    requires Valid(t)
    ensures IdsAdvance(t, Delete(t, id).0)
  {
    DeleteExact(t, id);
  }

  lemma IdsAdvanceTransitive(t: Table, t1: Table, t2: Table)
    requires IdsAdvance(t, t1) && IdsAdvance(t1, t2)
    ensures IdsAdvance(t, t2)
  {
  }

  lemma {:induction false} RunIdsAdvance(w: World, s: State, events: seq<Event>)
    requires Inv(w, s)
    ensures Inv(w, Run(w, s, events)) && IdsAdvance(s.table, Run(w, s, events).table)
  {
    if events != [] {
      var front := events[..|events| - 1];
      RunIdsAdvance(w, s, front);
      var before := Run(w, s, front);
      StepKeepsInv(w, before, events[|events| - 1]);
      StepIdsAdvance(w, before, events[|events| - 1]);
      IdsAdvanceTransitive(s.table, before.table, Run(w, s, events).table);
    }
  }

  /** Whatever happens between two moments of a run: a row with an id issued by the earlier moment was
      already in the table then, with the same address. So an id never changes its address, and an id
      whose row was deleted never comes back. */
  lemma {:induction false} IdsNeverReused(w: World, earlier: seq<Event>, later: seq<Event>, r': Row)
    requires r' in Run(w, Run(w, INITIAL, earlier), later).table.rows
    requires r'.id <= Run(w, INITIAL, earlier).table.lastId
    ensures exists r :: r in Run(w, INITIAL, earlier).table.rows && r.id == r'.id && r.ip == r'.ip
  {
    ReachableStatesAreOk(w, earlier);
    RunIdsAdvance(w, Run(w, INITIAL, earlier), later);
  }

  /** A probe outcome never lands on another device: when a pending status write of the gateway probe, the
      health check or a PATCH is finally executed, however stale it is by then, every row that differs
      afterwards has the address that was probed. */
  lemma StaleWriteHitsProbedDevice(w: World, events: seq<Event>, e: Event, net: Network, nonce: string, i: nat)
    requires e.action == Advance(net, nonce) && ActorOf(Run(w, INITIAL, events), e.actor).StatusPending?
    requires i < |Run(w, INITIAL, events).table.rows|
    ensures var s := Run(w, INITIAL, events);
            var s' := Step(w, s, e);
            && |s'.table.rows| == |s.table.rows|
            && (s'.table.rows[i] != s.table.rows[i] ==>
                  s.table.rows[i].ip == s'.table.rows[i].ip == ActorOf(s, e.actor).ip)
  {
    var s := Run(w, INITIAL, events);
    ReachableStatesAreOk(w, events);
    var a := ActorOf(s, e.actor);
    assert ActorOk(w, s.issued, a);
    UpdateFrame(s.table, a.id, a.updates, e.now);
    assert RowOk(w, s.table.rows[i], s.issued);
  }

  // ---------------------------------------------------------------- the cap, over a run

  /** How many rows the sweeps of an actor have inserted over a run, and how many sweeps it started. */
  function SweptBy(w: World, s: State, events: seq<Event>, a: nat): nat {
    if events == [] then 0
    else
      var before := Run(w, s, events[..|events| - 1]);
      var after := Run(w, s, events);
      SweptBy(w, s, events[..|events| - 1], a)
      + (if events[|events| - 1].actor == a && ActorOf(before, a).SweepLooked? && |after.table.rows| > |before.table.rows| then 1 else 0)
  }

  function SweepsBy(events: seq<Event>, a: nat): nat {
    if events == [] then 0
    else
      SweepsBy(events[..|events| - 1], a)
      + (if events[|events| - 1].actor == a && events[|events| - 1].action.StartSweep? then 1 else 0)
  }

  /** What the sweep an actor is in may still insert. */
  function Allowance(a: Actor): int {
    match a
    case Sweeping(at) => MAX_NEW_DEVICES_PER_SWEEP - at.count
    case SweepLooked(_, at) => MAX_NEW_DEVICES_PER_SWEEP - at.count
    case _ => 0
  }

  lemma StepAllowance(w: World, s: State, e: Event, a: nat)
    requires Allowance(ActorOf(s, a)) >= 0
    ensures var s' := Step(w, s, e);
            var inserted := if e.actor == a && ActorOf(s, a).SweepLooked? && |s'.table.rows| > |s.table.rows| then 1 else 0;
            var started := if e.actor == a && e.action.StartSweep? then MAX_NEW_DEVICES_PER_SWEEP else 0;
            Allowance(ActorOf(s', a)) + inserted <= Allowance(ActorOf(s, a)) + started
  {
    hide Advanced, Update, PostedDevice, SecretsSeal, PatchUpdates, GetByIp, List, ListByStatus;
    if e.action.Advance? {
      AdvancedAllowance(w, s, e, e.action.net, e.action.nonce);
    }
  }

  /** The same for a step that continues an activity: only the actor itself moves. */
  lemma AdvancedAllowance(w: World, s: State, e: Event, net: Network, nonce: string)
    ensures var before := ActorOf(s, e.actor);
            var s' := Advanced(w, s, e, before, net, nonce);
            var inserted := if before.SweepLooked? && |s'.table.rows| > |s.table.rows| then 1 else 0;
            && (Allowance(before) >= 0 ==> Allowance(ActorOf(s', e.actor)) + inserted <= Allowance(before))
            && forall a :: a != e.actor ==> ActorOf(s', a) == ActorOf(s, a)
  {
    hide Insert, Update, Discovered, GetByIp, DecryptCredentials, RouteNextHops, CheckNext, PatchNext, Gateway.ProbeUpdates;
    var before := ActorOf(s, e.actor);
    if before.Checking? {
      CheckNextReads(w, s, e, before.rest, net);
    }
    if before.PatchWritten? {
      PatchNextReads(w, s, e, before, net);
    }
  }

  lemma AllowanceIsNat(w: World, events: seq<Event>, a: nat)
    ensures Allowance(ActorOf(Run(w, INITIAL, events), a)) >= 0
  {
    ReachableStatesAreOk(w, events);
    ActorOfOk(w, Run(w, INITIAL, events), a);
  }

  /** The rate limit holds whatever else is going on: the sweeps of an actor insert at most ten devices
      for each sweep it started. */
  lemma {:induction false} SweepCapHoldsOverRuns(w: World, events: seq<Event>, a: nat)
    ensures SweptBy(w, INITIAL, events, a) + Allowance(ActorOf(Run(w, INITIAL, events), a)) <= 10 * SweepsBy(events, a)
    ensures SweptBy(w, INITIAL, events, a) <= 10 * SweepsBy(events, a)
  {
    AllowanceIsNat(w, events, a);
    if events != [] {
      var front, last := events[..|events| - 1], events[|events| - 1];
      SweepCapHoldsOverRuns(w, front, a);
      AllowanceIsNat(w, front, a);
      StepAllowance(w, Run(w, INITIAL, front), last, a);
    }
  }
}
