/** The devices table as a value, and each SQL statement of internal/store/devices.go as one
    atomic function on it (schema: internal/store/schema.go). */
module DeviceTable {
  import opened Basics
  import opened Snmp

  datatype Column =
    | Hostname | SnmpVersion | Community | V3User | V3AuthKey | V3PrivKey | V3AuthProtocol | V3PrivProtocol
    | GroupName | Status | IsPublicIp | DiscoveredVia
    | Id | IpAddress | CreatedAt | UpdatedAt
    | Unknown(name: string)

  predicate AllowedDeviceColumn(c: Column) {
    match c
    case Id | IpAddress | CreatedAt | UpdatedAt | Unknown(_) => false
    case _ => true
  }

  const TEXT_COLUMNS: set<Column> :=
    {Hostname, SnmpVersion, Community, V3User, V3AuthKey, V3PrivKey, V3AuthProtocol, V3PrivProtocol, GroupName, Status, DiscoveredVia}

  /** A stored value of a mutable column. */
  datatype Cell = Null | Text(text: string) | Flag(flag: bool)

  /** A Go value handed to the driver: numbers carry their text form, and maps and slices cannot be bound. */
  datatype GoValue = GoString(s: string) | GoNil | GoBool(b: bool) | GoNumber(digits: string) | GoComposite

  /** Binding a value to a column, with the column's type affinity. */
  function Bind(c: Column, v: GoValue): Option<Cell> {
    match v
    case GoString(s) => Some(Text(s))
    case GoNil => Some(Null)
    case GoBool(b) => Some(if c == IsPublicIp then Flag(b) else Text(if b then "1" else "0"))
    case GoNumber(digits) => Some(Text(digits))
    case GoComposite => None
  }

  datatype Row = Row(id: int, ip: Ip, cells: map<Column, Cell>, createdAt: int, updatedAt: int)
  {
    function At(c: Column): Cell {
      if c in cells then cells[c] else Null
    }

    /** The Go string a scanned text column yields; meaningful on scannable rows. */
    function Str(c: Column): string {
      if At(c).Text? then At(c).text else ""
    }
  }

  /** Scanning a NULL into a Go string or bool is an error. */
  predicate Scannable(r: Row) {
    (forall c :: c in TEXT_COLUMNS ==> r.At(c).Text?) && r.At(IsPublicIp).Flag?
  }

  predicate AllScannable(rows: seq<Row>) {
    forall i :: 0 <= i < |rows| ==> Scannable(rows[i])
  }

  /** The two CHECK constraints; a NULL passes both. */
  predicate Checks(r: Row) {
    && (r.At(SnmpVersion).Null? || r.At(SnmpVersion) in {Text("v1"), Text("v2c"), Text("v3"), Text("")})
    && (r.At(Status).Null? || r.At(Status) in {Text("pending"), Text("active"), Text("failed")})
  }

  /** Rows in id order, and the AUTOINCREMENT counter: the largest id ever assigned. */
  datatype Table = Table(rows: seq<Row>, lastId: int)

  ghost predicate Valid(t: Table) {
    && (forall i, j :: 0 <= i < j < |t.rows| ==> t.rows[i].id < t.rows[j].id && t.rows[i].ip != t.rows[j].ip)
    && (forall i :: 0 <= i < |t.rows| ==> 1 <= t.rows[i].id <= t.lastId && Checks(t.rows[i]))
    && 0 <= t.lastId
  }

  ghost predicate Tracked(t: Table, ip: Ip) {
    exists i :: 0 <= i < |t.rows| && t.rows[i].ip == ip
  }

  // ---------------------------------------------------------------- queries

  function IndexById(rows: seq<Row>, id: int): (r: Option<nat>)
    ensures r.Some? ==> r.value < |rows| && rows[r.value].id == id
    ensures r.None? ==> forall i :: 0 <= i < |rows| ==> rows[i].id != id
  {
    if rows == [] then None
    else if rows[|rows| - 1].id == id then Some(|rows| - 1)
    else IndexById(rows[..|rows| - 1], id)
  }

  function IndexByIp(rows: seq<Row>, ip: Ip): (r: Option<nat>)
    ensures r.Some? ==> r.value < |rows| && rows[r.value].ip == ip
    ensures r.None? ==> forall i :: 0 <= i < |rows| ==> rows[i].ip != ip
  {
    if rows == [] then None
    else if rows[|rows| - 1].ip == ip then Some(|rows| - 1)
    else IndexByIp(rows[..|rows| - 1], ip)
  }

  /** The outcome of a single-row query: found, no such row, or a row that does not scan. */
  datatype Lookup = Found(row: Row) | NotFound | ScanError

  function LookupAt(rows: seq<Row>, index: Option<nat>): Lookup
    requires index.Some? ==> index.value < |rows|
  {
    match index
    case None => NotFound
    case Some(i) => if Scannable(rows[i]) then Found(rows[i]) else ScanError
  }

  function Get(t: Table, id: int): Lookup {
    LookupAt(t.rows, IndexById(t.rows, id))
  }

  function GetByIp(t: Table, ip: Ip): Lookup {
    LookupAt(t.rows, IndexByIp(t.rows, ip))
  }

  function WithStatus(rows: seq<Row>, status: string): seq<Row> {
    if rows == [] then []
    else
      var rest, last := WithStatus(rows[..|rows| - 1], status), rows[|rows| - 1];
      if last.At(Status) == Text(status) then rest + [last] else rest
  }

  /** None when some selected row does not scan. */
  function List(t: Table): Option<seq<Row>> {
    if AllScannable(t.rows) then Some(t.rows) else None
  }

  function ListByStatus(t: Table, status: string): Option<seq<Row>> {
    var rows := WithStatus(t.rows, status);
    if AllScannable(rows) then Some(rows) else None
  }

  /** The rows of a status query are exactly the rows with that status, still in id order. */
  lemma {:induction false} WithStatusExact(rows: seq<Row>, status: string)
    ensures forall r :: r in WithStatus(rows, status) <==> r in rows && r.At(Status) == Text(status)
    ensures (forall i, j :: 0 <= i < j < |rows| ==> rows[i].id < rows[j].id)
              ==> forall i, j :: 0 <= i < j < |WithStatus(rows, status)| ==> WithStatus(rows, status)[i].id < WithStatus(rows, status)[j].id
  {
    if rows != [] {
      var front, last := rows[..|rows| - 1], rows[|rows| - 1];
      WithStatusExact(front, status);
      assert rows == front + [last];
      if forall i, j :: 0 <= i < j < |rows| ==> rows[i].id < rows[j].id {
        forall r | r in WithStatus(front, status) ensures r.id < last.id {
          assert r in front;
        }
      }
    }
  }

  lemma {:induction false} NoneWithStatus(rows: seq<Row>, status: string)
    requires forall r :: r in rows ==> r.At(Status) != Text(status)
    ensures WithStatus(rows, status) == []
  {
    if rows != [] {
      NoneWithStatus(rows[..|rows| - 1], status);
    }
  }

  // ---------------------------------------------------------------- INSERT

  /** The columns an INSERT supplies. */
  datatype NewDevice = NewDevice(
    ip: Ip, hostname: string, version: string, community: string, v3User: string, v3AuthKey: string, v3PrivKey: string,
    v3AuthProtocol: string, v3PrivProtocol: string, group: string, status: string, isPublic: bool, via: string)

  function Blank(ip: Ip, status: string, isPublic: bool, via: string): NewDevice {
    NewDevice(ip, "", "", "", "", "", "", "", "", "", status, isPublic, via)
  }

  function CellsOf(d: NewDevice): map<Column, Cell> {
    map[Hostname := Text(d.hostname), SnmpVersion := Text(d.version), Community := Text(d.community), V3User := Text(d.v3User),
        V3AuthKey := Text(d.v3AuthKey), V3PrivKey := Text(d.v3PrivKey), V3AuthProtocol := Text(d.v3AuthProtocol),
        V3PrivProtocol := Text(d.v3PrivProtocol), GroupName := Text(d.group),
        Status := Text(if d.status == "" then "pending" else d.status),
        IsPublicIp := Flag(d.isPublic), DiscoveredVia := Text(d.via)]
  }

  function NewRow(t: Table, d: NewDevice, now: int): Row {
    Row(t.lastId + 1, d.ip, CellsOf(d), now, now)
  }

  /** UNIQUE and CHECK violations reject the statement and consume no id. */
  function Insert(t: Table, d: NewDevice, now: int): Option<Table> {
    var r := NewRow(t, d, now);
    if IndexByIp(t.rows, d.ip).Some? || !Checks(r) then None
    else Some(Table(t.rows + [r], t.lastId + 1))
  }

  lemma InsertedRowScans(r: Row, d: NewDevice)
    requires r.cells == CellsOf(d)
    ensures Scannable(r)
  {
  }

  /** An inserted row reads back what was inserted, and scans. */
  lemma InsertedRowReads(r: Row, d: NewDevice)
    requires r.cells == CellsOf(d)
    ensures Scannable(r)
    ensures r.Str(Hostname) == d.hostname && r.Str(GroupName) == d.group && r.Str(DiscoveredVia) == d.via
    ensures r.Str(SnmpVersion) == d.version && r.Str(Community) == d.community && r.Str(V3User) == d.v3User
    ensures r.Str(V3AuthKey) == d.v3AuthKey && r.Str(V3PrivKey) == d.v3PrivKey
    ensures r.Str(V3AuthProtocol) == d.v3AuthProtocol && r.Str(V3PrivProtocol) == d.v3PrivProtocol
    ensures r.At(Status) == Text(if d.status == "" then "pending" else d.status) && r.At(IsPublicIp) == Flag(d.isPublic)
  {
    InsertedRowScans(r, d);
    hide Scannable;
  }

  lemma InsertKeepsValid(t: Table, d: NewDevice, now: int)
    requires Valid(t) && Insert(t, d, now).Some?
    ensures Valid(Insert(t, d, now).value)
    ensures Scannable(NewRow(t, d, now))
  {
  }

  /** A successful INSERT adds one row at the end, with the next id and the given address and time. */
  lemma InsertExact(t: Table, d: NewDevice, now: int)
    requires Valid(t) && Insert(t, d, now).Some?
    ensures var t' := Insert(t, d, now).value;
            && t'.lastId == t.lastId + 1 && |t'.rows| == |t.rows| + 1 && t'.rows[..|t.rows|] == t.rows
            && (var r := t'.rows[|t.rows|];
                && r.id == t.lastId + 1 && r.ip == d.ip && r.createdAt == r.updatedAt == now && r.cells == CellsOf(d))
  {
    assert (t.rows + [NewRow(t, d, now)])[..|t.rows|] == t.rows;
  }

  /** Inserting fails only for a tracked address or a value outside the CHECK sets. */
  lemma InsertSucceedsIff(t: Table, d: NewDevice, now: int)
    ensures Insert(t, d, now).Some? <==>
              !Tracked(t, d.ip) && d.version in {"v1", "v2c", "v3", ""} && d.status in {"pending", "active", "failed", ""}
  {
    var r := NewRow(t, d, now);
    assert r.At(SnmpVersion) == Text(d.version);
    assert r.At(Status) == Text(if d.status == "" then "pending" else d.status);
  }

  // ---------------------------------------------------------------- UPDATE

  datatype UpdateOutcome = Updated | NoSuchRow | InvalidColumn | StatementError

  /** UPDATE ... SET <cells>, updated_at = now WHERE id = <id>. */
  function Override(t: Table, id: int, cells: map<Column, Cell>, now: int): (Table, UpdateOutcome) {
    match IndexById(t.rows, id)
    case None => (t, NoSuchRow)
    case Some(i) =>
      var r := t.rows[i];
      var r' := r.(cells := r.cells + cells, updatedAt := now);
      if Checks(r') then (t.(rows := t.rows[i := r']), Updated) else (t, StatementError)
  }

  predicate Bindable(updates: map<Column, GoValue>) {
    forall c :: c in updates ==> Bind(c, updates[c]).Some?
  }

  function BindAll(updates: map<Column, GoValue>): map<Column, Cell>
    requires Bindable(updates)
  {
    map c | c in updates :: Bind(c, updates[c]).value
  }

  /** The meaning of DeviceStore.Update on its map of updates: an empty map is a no-op that does not
      even look for the row; a column outside the allowed list, or an unbindable value, rejects everything. */
  function Update(t: Table, id: int, updates: map<Column, GoValue>, now: int): (Table, UpdateOutcome) {
    if updates == map[] then (t, Updated)
    else if exists c :: c in updates && !AllowedDeviceColumn(c) then (t, InvalidColumn)
    else if !Bindable(updates) then (t, StatementError)
    else Override(t, id, BindAll(updates), now)
  }

  /** What an update may do to a table: nothing at all, or override the named columns of the one
      row with that id. Addresses, ids and the counter never change. */
  lemma UpdateFrame(t: Table, id: int, updates: map<Column, GoValue>, now: int)
    requires Valid(t)
    ensures var (t', o) := Update(t, id, updates, now);
            && Valid(t')
            && t'.lastId == t.lastId && |t'.rows| == |t.rows|
            && (o != Updated ==> t' == t)
            && (forall i :: 0 <= i < |t.rows| ==>
                  && t'.rows[i].id == t.rows[i].id && t'.rows[i].ip == t.rows[i].ip
                  && t'.rows[i].createdAt == t.rows[i].createdAt
                  && (t.rows[i].id != id ==> t'.rows[i] == t.rows[i])
                  && (forall c :: c !in updates ==> t'.rows[i].At(c) == t.rows[i].At(c)))
  {
  }

  function UpdatedRow(r: Row, updates: map<Column, GoValue>, now: int): Row
    requires Bindable(updates)
  {
    r.(cells := r.cells + BindAll(updates), updatedAt := now)
  }

  /** A well-formed update of an existing row replaces that row, or is refused by a CHECK. */
  lemma UpdateHitsItsRow(t: Table, i: nat, updates: map<Column, GoValue>, now: int)
    requires Valid(t) && i < |t.rows|
    requires updates != map[] && Bindable(updates) && forall c :: c in updates ==> AllowedDeviceColumn(c)
    ensures var r' := UpdatedRow(t.rows[i], updates, now);
            Update(t, t.rows[i].id, updates, now) ==
              (if Checks(r') then (t.(rows := t.rows[i := r']), Updated) else (t, StatementError))
  {
    IndexByIdUnique(t, t.rows[i].id, i);
  }

  /** A successful update stores every named column's value in the row with that id. */
  lemma UpdateStores(t: Table, i: nat, updates: map<Column, GoValue>, now: int)
    requires Valid(t) && i < |t.rows|
    requires Update(t, t.rows[i].id, updates, now).1 == Updated
    ensures var t' := Update(t, t.rows[i].id, updates, now).0;
            && |t'.rows| == |t.rows| && t'.rows[i].id == t.rows[i].id && t'.rows[i].ip == t.rows[i].ip
            && (forall c :: c in updates ==> Bind(c, updates[c]) == Some(t'.rows[i].At(c)))
            && (forall c :: c !in updates ==> t'.rows[i].At(c) == t.rows[i].At(c))
  {
    if updates != map[] {
      IndexByIdUnique(t, t.rows[i].id, i);
    }
  }

  /** The columns an update may name; the others identify the row or are kept by the database. */
  predicate Updatable(c: Column) {
    c in {Hostname, SnmpVersion, Community, V3User, V3AuthKey, V3PrivKey, V3AuthProtocol, V3PrivProtocol, GroupName,
          Status, IsPublicIp, DiscoveredVia}
  }

  /** The value a column would have after an update, as far as the CHECK constraints look at it. */
  predicate Admits(updates: map<Column, GoValue>, c: Column, texts: set<string>) {
    c in updates ==>
      match updates[c]
      case GoNil => true
      case GoString(s) => s in texts
      case GoNumber(digits) => digits in texts
      case _ => false
  }

  /** What becomes of an update of an existing row of a valid table, decided by the map alone: it succeeds exactly
      if it names updatable columns only, every value can be bound, and version and status, where named, are nil
      or among the texts the CHECKs admit. */
  lemma UpdateSucceedsIff(t: Table, i: nat, updates: map<Column, GoValue>, now: int)
    requires Valid(t) && i < |t.rows|
    ensures Update(t, t.rows[i].id, updates, now).1 == Updated <==>
              && (forall c :: c in updates ==> Updatable(c) && !updates[c].GoComposite?)
              && Admits(updates, SnmpVersion, {"v1", "v2c", "v3", ""})
              && Admits(updates, Status, {"pending", "active", "failed"})
    ensures Update(t, t.rows[i].id, updates, now).1 == InvalidColumn <==> exists c :: c in updates && !Updatable(c)
  {
    IndexByIdUnique(t, t.rows[i].id, i);
    BindableIff(updates);
    UpdatableIsAllowed();
    if updates != map[] && Bindable(updates) && forall c :: c in updates ==> AllowedDeviceColumn(c) {
      UpdateHitsItsRow(t, i, updates, now);
      UpdatedChecks(t.rows[i], updates, now);
    }
  }

  lemma UpdatableIsAllowed()
    ensures forall c :: Updatable(c) <==> AllowedDeviceColumn(c)
  {
  }

  lemma BindableIff(updates: map<Column, GoValue>)
    ensures Bindable(updates) <==> forall c :: c in updates ==> !updates[c].GoComposite?
  {
  }

  lemma UpdatedChecks(r: Row, updates: map<Column, GoValue>, now: int)
    requires Checks(r) && Bindable(updates)
    ensures Checks(UpdatedRow(r, updates, now)) <==>
              Admits(updates, SnmpVersion, {"v1", "v2c", "v3", ""}) && Admits(updates, Status, {"pending", "active", "failed"})
  {
    hide BindAll, Bindable;
    BoundAt(r, updates, now, SnmpVersion);
    BoundAt(r, updates, now, Status);
  }

  lemma BoundAt(r: Row, updates: map<Column, GoValue>, now: int, c: Column)
    requires Bindable(updates)
    ensures c in updates ==> Bind(c, updates[c]) == Some(UpdatedRow(r, updates, now).At(c))
    ensures c !in updates ==> UpdatedRow(r, updates, now).At(c) == r.At(c)
  {
  }

  /** Of an id that no row has, nothing is updated: an empty map is still a success, a well-formed one misses. */
  lemma UpdateOfNoRow(t: Table, id: int, updates: map<Column, GoValue>, now: int)
    requires IndexById(t.rows, id).None?
    ensures var (t', outcome) := Update(t, id, updates, now);
            && t' == t
            && (outcome == Updated <==> updates == map[])
            && (outcome == NoSuchRow <==>
                  updates != map[] && forall c :: c in updates ==> Updatable(c) && !updates[c].GoComposite?)
  {
    BindableIff(updates);
    UpdatableIsAllowed();
  }

  lemma UpdateKeepsValid(t: Table, id: int, updates: map<Column, GoValue>, now: int)
    requires Valid(t)
    ensures Valid(Update(t, id, updates, now).0)
  {
    UpdateFrame(t, id, updates, now);
  }

  /** Two updates of a device that both succeed leave the columns that one update with the
      overriding map would have left. */
  lemma UpdatesCompose(t: Table, id: int, first: map<Column, GoValue>, second: map<Column, GoValue>, now1: int, now2: int)
    requires Valid(t)
    requires Update(t, id, first, now1).1 == Updated
    requires Update(Update(t, id, first, now1).0, id, second, now2).1 == Updated
    requires second != map[]
    ensures Update(t, id, first + second, now2) == Update(Update(t, id, first, now1).0, id, second, now2)
  {
    hide Valid, Override, Bindable, BindAll, AllowedDeviceColumn;
    if first == map[] {
      assert first + second == second;
    } else {
      BothAreWellFormed(first, second);
      OverridesCompose(t, id, BindAll(first), BindAll(second), now1, now2);
    }
  }

  /** The overriding map of two well-formed updates is well-formed and binds to the overriding cells. */
  lemma BothAreWellFormed(first: map<Column, GoValue>, second: map<Column, GoValue>)
    requires second != map[] && Bindable(first) && Bindable(second)
    requires forall c :: (c in first ==> AllowedDeviceColumn(c)) && (c in second ==> AllowedDeviceColumn(c))
    ensures var both := first + second;
            && both != map[] && Bindable(both) && BindAll(both) == BindAll(first) + BindAll(second)
            && (forall c :: c in both ==> AllowedDeviceColumn(c))
  {
    hide Bind, AllowedDeviceColumn;
    var both := first + second;
    var c :| c in second;
    assert c in both;
    assert forall c :: c in both ==> both[c] == if c in second then second[c] else first[c];
  }

  lemma OverridesCompose(t: Table, id: int, first: map<Column, Cell>, second: map<Column, Cell>, now1: int, now2: int)
    requires Valid(t)
    requires Override(t, id, first, now1).1 == Updated
    requires Override(Override(t, id, first, now1).0, id, second, now2).1 == Updated
    ensures Override(t, id, first + second, now2) == Override(Override(t, id, first, now1).0, id, second, now2)
  {
    hide Checks;
    var t1 := Override(t, id, first, now1).0;
    var i := IndexById(t.rows, id).value;
    var r := t.rows[i];
    IndexByIdUnique(t1, id, i);
    assert (r.cells + first) + second == r.cells + (first + second);
    var r' := r.(cells := r.cells + (first + second), updatedAt := now2);
    assert t1.rows[i := r'] == t.rows[i := r'];
  }

  lemma IndexByIdUnique(t: Table, id: int, i: nat)
    requires forall j, k :: 0 <= j < k < |t.rows| ==> t.rows[j].id < t.rows[k].id
    requires i < |t.rows| && t.rows[i].id == id
    ensures IndexById(t.rows, id) == Some(i)
  {
    var k := IndexById(t.rows, id).value;
    assert t.rows[k].id == id;
  }

  /** The status update that the probing actors issue, aimed at the row at index i. */
  function StatusUpdate(status: string): map<Column, GoValue> {
    map[Status := GoString(status)]
  }

  function WithNewStatus(r: Row, status: string, now: int): Row {
    r.(cells := r.cells[Status := Text(status)], updatedAt := now)
  }

  lemma WithNewStatusFrame(r: Row, status: string, now: int)
    ensures var r' := WithNewStatus(r, status, now);
            && r'.At(Status) == Text(status) && r'.updatedAt == now
            && (forall c :: c != Status ==> r'.At(c) == r.At(c))
            && (Scannable(r) ==> Scannable(r'))
  {
  }

  lemma StatusUpdateHitsItsRow(t: Table, i: nat, status: string, now: int)
    requires Valid(t) && i < |t.rows|
    requires status in {"pending", "active", "failed"}
    ensures Update(t, t.rows[i].id, StatusUpdate(status), now)
         == (t.(rows := t.rows[i := WithNewStatus(t.rows[i], status, now)]), Updated)
  {
    var r := t.rows[i];
    IndexByIdUnique(t, r.id, i);
    assert Status in StatusUpdate(status);
    assert BindAll(StatusUpdate(status)) == map[Status := Text(status)];
    assert r.cells + map[Status := Text(status)] == r.cells[Status := Text(status)];
    var r' := WithNewStatus(r, status, now);
    assert r'.At(SnmpVersion) == r.At(SnmpVersion) && r'.At(Status) == Text(status);
    assert Checks(r');
  }

  // ---------------------------------------------------------------- DELETE

  /** DELETE ... WHERE id = <id>; false when no row matched. */
  function Delete(t: Table, id: int): (Table, bool) {
    match IndexById(t.rows, id)
    case None => (t, false)
    case Some(i) => (t.(rows := t.rows[..i] + t.rows[i + 1..]), true)
  }

  lemma DeleteExact(t: Table, id: int)
    requires Valid(t)
    ensures var (t', found) := Delete(t, id);
            && (forall r :: r in t'.rows <==> r in t.rows && r.id != id)
            && (found <==> exists r :: r in t.rows && r.id == id)
  {
    match IndexById(t.rows, id) {
      case None =>
        assert forall r :: r in t.rows ==> r.id != id;
      case Some(i) =>
        assert t.rows[i] in t.rows;
        assert t.rows == t.rows[..i] + [t.rows[i]] + t.rows[i + 1..];
    }
  }

  lemma DeleteKeepsValid(t: Table, id: int)
    requires Valid(t)
    ensures Valid(Delete(t, id).0) && Delete(t, id).0.lastId == t.lastId
  {
    match IndexById(t.rows, id) {
      case None =>
      case Some(i) =>
        var rows := Delete(t, id).0.rows;
        assert forall k :: 0 <= k < |rows| ==> rows[k] == t.rows[if k < i then k else k + 1];
    }
  }
}
