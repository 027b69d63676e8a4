/** The store object of internal/store/devices.go: its methods issue the statements of DeviceTable,
    and Update compiles a map into the text of an UPDATE with an argument list. */
module DeviceStore {
  import opened Basics
  import T = DeviceTable
  import opened DeviceTable

  /** An argument of a prepared statement: a column value, or the id of the WHERE clause. */
  datatype Arg = Value(v: GoValue) | RowId(id: int)

  /** UPDATE devices SET c1 = ?, ..., cn = ?, updated_at = CURRENT_TIMESTAMP WHERE id = ?
      with the placeholders numbered from the left. */
  datatype UpdateStatement = UpdateStatement(setColumns: seq<Column>)

  /** The assignments a clause and an argument list denote: placeholder i takes argument i, and a
      column assigned twice takes the later value. */
  function Assignments(columns: seq<Column>, args: seq<Arg>): Option<map<Column, GoValue>>
    requires |columns| <= |args|
  {
    if columns == [] then Some(map[])
    else
      var n := |columns| - 1;
      match (Assignments(columns[..n], args), args[n])
      case (Some(m), Value(v)) => Some(m[columns[n] := v])
      case _ => None
  }

  /** Executing the statement text against a table: a wrong number of arguments, an unbindable
      value or a violated CHECK is an error. */
  function Execute(t: Table, stmt: UpdateStatement, args: seq<Arg>, now: int): (Table, UpdateOutcome) {
    var n := |stmt.setColumns|;
    if |args| != n + 1 || !args[n].RowId? then (t, StatementError)
    else
      match Assignments(stmt.setColumns, args)
      case None => (t, StatementError)
      case Some(m) => if Bindable(m) then Override(t, args[n].id, BindAll(m), now) else (t, StatementError)
  }

  lemma {:induction false} AssignmentsIgnoreTail(columns: seq<Column>, args: seq<Arg>, more: seq<Arg>)
    requires |columns| <= |args|
    ensures Assignments(columns, args + more) == Assignments(columns, args)
  {
    if columns != [] {
      AssignmentsIgnoreTail(columns[..|columns| - 1], args, more);
    }
  }

  lemma AssignmentsExtend(columns: seq<Column>, args: seq<Arg>, col: Column, v: GoValue)
    requires |columns| == |args| && Assignments(columns, args).Some?
    ensures Assignments(columns + [col], args + [Value(v)]) == Some(Assignments(columns, args).value[col := v])
  {
    AssignmentsIgnoreTail(columns, args, [Value(v)]);
    assert (columns + [col])[..|columns|] == columns;
  }

  /** A clause and argument list that denote exactly the map, followed by the id, execute as the
      update the map means: every placeholder of the SET clause receives its own column's value and
      the WHERE placeholder receives the id. */
  lemma {:induction false} ExecuteMeansUpdate(
      t: Table, id: int, updates: map<Column, GoValue>, columns: seq<Column>, args: seq<Arg>, now: int)
    requires updates != map[] && forall c :: c in updates ==> AllowedDeviceColumn(c)
    requires |columns| == |args| && Assignments(columns, args) == Some(updates)
    ensures Execute(t, UpdateStatement(columns), args + [RowId(id)], now) == T.Update(t, id, updates, now)
  {
    AssignmentsIgnoreTail(columns, args, [RowId(id)]);
  }

  class DeviceStore {
    var table: Table

    constructor ()
      ensures table == Table([], 0)
      ensures Valid(table)
    {
      table := Table([], 0);
    }

    /** Returns the new id, or None when the INSERT is rejected. */
    method Create(d: NewDevice, now: int) returns (id: Option<int>)
      requires Valid(table)
      modifies this
      ensures Valid(table)
      ensures match T.Insert(old(table), d, now)
              case None => table == old(table) && id == None
              case Some(t) => table == t && id == Some(t.lastId)
    {
      var t := T.Insert(table, d, now);
      if t.None? {
        return None;
      }
      InsertKeepsValid(table, d, now);
      table := t.value;
      return Some(table.lastId);
    }

    /** The loop over the map is nondeterministic: it may visit the columns in any order. */
    method Update(id: int, updates: map<Column, GoValue>, now: int) returns (outcome: UpdateOutcome)
      requires Valid(table)
      modifies this
      ensures Valid(table)
      ensures (table, outcome) == T.Update(old(table), id, updates, now)
    {
      ghost var before := table;
      UpdateKeepsValid(before, id, updates, now);
      if |updates| == 0 {
        assert updates == map[];
        return Updated;
      }
      assert updates != map[];
      var setColumns: seq<Column> := [];
      var args: seq<Arg> := [];
      var todo := updates.Keys;
      ghost var done: map<Column, GoValue> := map[];
      while todo != {}
        invariant table == before
        invariant todo <= updates.Keys
        invariant |setColumns| == |args|
        invariant forall c :: c in updates && c !in todo ==> AllowedDeviceColumn(c)
        invariant done == map c | c in updates && c !in todo :: updates[c]
        invariant Assignments(setColumns, args) == Some(done)
      {
        var col :| col in todo;
        if !AllowedDeviceColumn(col) {
          return InvalidColumn;
        }
        AssignmentsExtend(setColumns, args, col, updates[col]);
        setColumns := setColumns + [col];
        args := args + [Value(updates[col])];
        done := done[col := updates[col]];
        todo := todo - {col};
      }
      assert done == updates;
      ExecuteMeansUpdate(table, id, updates, setColumns, args, now);
      args := args + [RowId(id)];
      var (t, o) := Execute(table, UpdateStatement(setColumns), args, now);
      table := t;
      return o;
    }

    method Delete(id: int) returns (found: bool)
      requires Valid(table)
      modifies this
      ensures Valid(table)
      ensures (table, found) == T.Delete(old(table), id)
    {
      DeleteKeepsValid(table, id);
      var (t, f) := T.Delete(table, id);
      table := t;
      return f;
    }
  }
}
