/** The `DBUtils` helper: one connection, the last prepared statement and the last result set
    held in fields, five statement methods that bind positional parameters and fold result rows,
    and `close()`. */
module DbUtils {
  import opened Wrappers
  import opened Jdbc
  import opened Reflection
  import opened RowMapping

  /** The column loop of `querySingleResult(sql, params)` over the current row: each column's
      value, read by its name, put into `record` under that name, NULL stored as `""`. */
  method ReadByName(rs: ResultSet, record: map<string, Object>) returns (r: Result<map<string, Object>, Error>)
    requires rs.Valid() && rs.onRow && rs.Open()
    ensures r == PutByName(record, rs.table.columns, rs.CurrentRow(), |rs.table.columns|)
  {
    var cols := rs.table.columns;
    var entries := record;
    var i := 0;
    while i < |cols|
      invariant 0 <= i <= |cols|
      invariant PutByName(record, cols, rs.CurrentRow(), i) == Ok(entries)
    {
      var name := cols[i].name;
      var got := rs.GetObject(name);
      if got.Err? {
        PutByNameFails(record, cols, rs.CurrentRow(), i + 1, |cols|);
        return Err(got.error);
      }
      var value := got.value;
      if value == Null {
        value := EmptyString;
      }
      entries := entries[name := value];
      i := i + 1;
    }
    return Ok(entries);
  }

  /** The column loop of `queryResultSet(sql, params)` over the current row: a new map, each
      column's value read by its catalog name and put under that name, or under `""` when it
      is NULL. */
  method ReadByCatalog(rs: ResultSet) returns (r: Result<map<string, Object>, Error>)
    requires rs.Valid() && rs.onRow && rs.Open()
    ensures r == CatalogRecord(rs.table.columns, rs.CurrentRow())
  {
    var cols := rs.table.columns;
    var entries: map<string, Object> := map[];
    var i := 0;
    while i < |cols|
      invariant 0 <= i <= |cols|
      invariant PutByCatalog(map[], cols, rs.CurrentRow(), i) == Ok(entries)
    {
      var name := cols[i].catalog;
      var got := rs.GetObject(name);
      if got.Err? {
        PutByCatalogFails(map[], cols, rs.CurrentRow(), i + 1, |cols|);
        return Err(got.error);
      }
      var value := got.value;
      if value == Null {
        name := "";
      }
      entries := entries[name := value];
      i := i + 1;
    }
    return Ok(entries);
  }

  /** `cls.newInstance()` and the column loop of the typed queries over the current row: each
      column's value read by its catalog name and set on the field of that name, or on the
      field `""` when it is NULL. */
  method BuildInstance(rs: ResultSet, cls: JClass) returns (r: Result<Instance, Error>)
    requires rs.Valid() && rs.onRow && rs.Open()
    ensures r.Ok? <==> BuildObject(cls, rs.table.columns, rs.CurrentRow()).Ok?
    ensures r.Err? ==> r.error == BuildObject(cls, rs.table.columns, rs.CurrentRow()).error
    ensures r.Ok? ==>
      fresh(r.value) && r.value.cls == cls &&
      r.value.fields == BuildObject(cls, rs.table.columns, rs.CurrentRow()).value
  {
    var resultObject :- NewInstance(cls);
    var cols := rs.table.columns;
    var i := 0;
    while i < |cols|
      invariant 0 <= i <= |cols|
      invariant AssignColumns(cls, cls.init, cols, rs.CurrentRow(), i) == Ok(resultObject.fields)
      modifies resultObject
    {
      var name := cols[i].catalog;
      var got := rs.GetObject(name);
      if got.Err? {
        AssignColumnsFails(cls, cls.init, cols, rs.CurrentRow(), i + 1, |cols|);
        return Err(got.error);
      }
      var value := got.value;
      if value == Null {
        name := "";
      }
      var updated := SetField(cls, resultObject.fields, name, value);
      if updated.Err? {
        AssignColumnsFails(cls, cls.init, cols, rs.CurrentRow(), i + 1, |cols|);
        return Err(updated.error);
      }
      resultObject.fields := updated.value;
      i := i + 1;
    }
    return Ok(resultObject);
  }

  /** The `while (resultSet.next())` loop of `querySingleResult(sql, params)`: the rows of a new
      cursor all folded into one map, so a later row overwrites the names of an earlier one. */
  method FoldRowsByName(rs: ResultSet) returns (r: Result<map<string, Object>, Error>)
    requires rs.Valid() && rs.position == 0 && !rs.onRow && rs.Open()
    modifies rs
    ensures r == SingleRecord(rs.table, |rs.table.rows|)
    ensures rs.closed == old(rs.closed)
    ensures r.Ok? ==> rs.position == |rs.table.rows| && !rs.onRow
  {
    var record: map<string, Object> := map[];
    var more := rs.Next();
    while more
      invariant rs.Valid() && rs.closed == old(rs.closed)
      invariant more == rs.onRow && (!more ==> rs.position == |rs.table.rows|)
      invariant SingleRecord(rs.table, if more then rs.position - 1 else rs.position) == Ok(record)
      decreases |rs.table.rows| - rs.position + (if more then 1 else 0)
    {
      var next := ReadByName(rs, record);
      if next.Err? {
        SingleRecordFails(rs.table, rs.position, |rs.table.rows|);
        return Err(next.error);
      }
      record := next.value;
      more := rs.Next();
    }
    return Ok(record);
  }

  /** The `while (resultSet.next())` loop of `queryResultSet(sql, params)`: one map per row of a
      new cursor, in cursor order. */
  method CollectRowsByCatalog(rs: ResultSet) returns (r: Result<seq<map<string, Object>>, Error>)
    requires rs.Valid() && rs.position == 0 && !rs.onRow && rs.Open()
    modifies rs
    ensures r == CatalogRecords(rs.table, |rs.table.rows|)
    ensures rs.closed == old(rs.closed)
    ensures r.Ok? ==> rs.position == |rs.table.rows| && !rs.onRow
  {
    var list: seq<map<string, Object>> := [];
    var more := rs.Next();
    while more
      invariant rs.Valid() && rs.closed == old(rs.closed)
      invariant more == rs.onRow && (!more ==> rs.position == |rs.table.rows|)
      invariant CatalogRecords(rs.table, if more then rs.position - 1 else rs.position) == Ok(list)
      decreases |rs.table.rows| - rs.position + (if more then 1 else 0)
    {
      var record := ReadByCatalog(rs);
      if record.Err? {
        CatalogRecordsFail(rs.table, rs.position, |rs.table.rows|);
        return Err(record.error);
      }
      list := list + [record.value];
      more := rs.Next();
    }
    return Ok(list);
  }

  /** The `while (resultSet.next())` loop of `querySingleResult(sql, params, cls)`: a new
      instance per row of a new cursor, the one built from the last row kept; null when the
      cursor has no rows. */
  method LastRowObject(rs: ResultSet, cls: JClass) returns (r: Result<Instance?, Error>)
    requires rs.Valid() && rs.position == 0 && !rs.onRow && rs.Open()
    modifies rs
    ensures r.Ok? <==> TypedSingle(cls, rs.table, |rs.table.rows|).Ok?
    ensures r.Err? ==> r.error == TypedSingle(cls, rs.table, |rs.table.rows|).error
    ensures r.Ok? ==> (r.value == null <==> TypedSingle(cls, rs.table, |rs.table.rows|).value.None?)
    ensures r.Ok? && r.value != null ==>
      fresh(r.value) && r.value.cls == cls &&
      r.value.fields == TypedSingle(cls, rs.table, |rs.table.rows|).value.value
    ensures rs.closed == old(rs.closed)
    ensures r.Ok? ==> rs.position == |rs.table.rows| && !rs.onRow
  {
    var resultObject: Instance? := null;
    var more := rs.Next();
    while more
      invariant rs.Valid() && rs.closed == old(rs.closed)
      invariant more == rs.onRow && (!more ==> rs.position == |rs.table.rows|)
      invariant resultObject != null ==> fresh(resultObject) && resultObject.cls == cls
      invariant TypedSingle(cls, rs.table, if more then rs.position - 1 else rs.position) ==
        Ok(if resultObject == null then None else Some(resultObject.fields))
      decreases |rs.table.rows| - rs.position + (if more then 1 else 0)
    {
      var built := BuildInstance(rs, cls);
      if built.Err? {
        TypedSingleFails(cls, rs.table, rs.position, |rs.table.rows|);
        return Err(built.error);
      }
      resultObject := built.value;
      more := rs.Next();
    }
    return Ok(resultObject);
  }

  /** The `while (resultSet.next())` loop of `queryResultSet(sql, params, cls)`: one new
      instance per row of a new cursor, in cursor order, no two the same object. */
  method CollectRowObjects(rs: ResultSet, cls: JClass) returns (r: Result<seq<Instance>, Error>)
    requires rs.Valid() && rs.position == 0 && !rs.onRow && rs.Open()
    modifies rs
    ensures r.Ok? <==> TypedList(cls, rs.table, |rs.table.rows|).Ok?
    ensures r.Err? ==> r.error == TypedList(cls, rs.table, |rs.table.rows|).error
    ensures r.Ok? ==> |r.value| == |TypedList(cls, rs.table, |rs.table.rows|).value|
    ensures r.Ok? ==> forall i :: 0 <= i < |r.value| ==>
      fresh(r.value[i]) && r.value[i].cls == cls &&
      r.value[i].fields == TypedList(cls, rs.table, |rs.table.rows|).value[i]
    ensures r.Ok? ==> forall i, j :: 0 <= i < j < |r.value| ==> r.value[i] != r.value[j]
    ensures rs.closed == old(rs.closed)
    ensures r.Ok? ==> rs.position == |rs.table.rows| && !rs.onRow
  {
    var list: seq<Instance> := [];
    ghost var built: seq<map<string, Object>> := [];
    var more := rs.Next();
    while more
      invariant rs.Valid() && rs.closed == old(rs.closed)
      invariant more == rs.onRow && (!more ==> rs.position == |rs.table.rows|)
      invariant TypedList(cls, rs.table, if more then rs.position - 1 else rs.position) == Ok(built)
      invariant |list| == |built|
      invariant forall i :: 0 <= i < |list| ==>
        fresh(list[i]) && list[i].cls == cls && list[i].fields == built[i]
      invariant forall i, j :: 0 <= i < j < |list| ==> list[i] != list[j]
      decreases |rs.table.rows| - rs.position + (if more then 1 else 0)
    {
      var next := BuildInstance(rs, cls);
      if next.Err? {
        TypedListFails(cls, rs.table, rs.position, |rs.table.rows|);
        return Err(next.error);
      }
      list := list + [next.value];
      built := built + [next.value.fields];
      more := rs.Next();
    }
    return Ok(list);
  }

  /** The resources `close()` tries to release. */
  datatype Resource = ResultSetResource | StatementResource | ConnectionResource

  class DBUtils {
    var connection: Connection?
    var pstmt: PreparedStatement?
    var resultSet: ResultSet?
    /** Every release `close()` has attempted, oldest first. */
    ghost var releases: seq<Resource>

    /** Driver registration and its console messages are not modelled; all fields start null. */
    constructor ()
      ensures connection == null && pstmt == null && resultSet == null && releases == []
    {
      connection := null;
      pstmt := null;
      resultSet := null;
      releases := [];
    }

    /** `getConnection()`: `attempt` is what `DriverManager.getConnection` does, reaching a
        database or throwing (`None`). A failure keeps the previous connection, and a success
        replaces it without closing it. */
    method GetConnection(attempt: Option<Database>) returns (c: Connection?)
      modifies this
      ensures attempt.Some? ==> fresh(connection) && connection.db == attempt.value && !connection.closed
      ensures attempt.None? ==> connection == old(connection)
      ensures c == connection
      ensures old(connection) != null ==> old(connection).closed == old(connection.closed)
      ensures pstmt == old(pstmt) && resultSet == old(resultSet) && releases == old(releases)
    {
      if attempt.Some? {
        connection := new Connection(attempt.value);
      }
      c := connection;
    }

    /** Whether `connection.prepareStatement(sql)` returns a statement. */
    predicate Prepares(sql: string)
      reads this, connection
    {
      connection != null && !connection.closed && connection.db.accepts(sql)
    }

    /** The parameter map of the prepared and fully bound statement, or the exception thrown
        while preparing or binding. */
    function Binding(sql: string, params: Option<seq<Object>>): Result<map<int, Object>, Error>
      reads this, connection
    {
      if connection == null then Err(NullPointer)
      else if connection.closed then Err(Sql(Closed))
      else if !connection.db.accepts(sql) then Err(Sql(Rejected))
      else BindParams(connection.db.placeholders(sql), params)
    }

    /** What `executeUpdate` reports for the bound statement. */
    function UpdateOutcome(sql: string, params: Option<seq<Object>>): Result<int, Error>
      reads this, connection
    {
      var bound :- Binding(sql, params);
      match connection.db.update(sql, bound)
      case None => Err(Sql(Rejected))
      case Some(count) => Ok(count)
    }

    /** The table `executeQuery` returns for the bound statement. */
    function QueryOutcome(sql: string, params: Option<seq<Object>>): Result<ResultTable, Error>
      reads this, connection
    {
      var bound :- Binding(sql, params);
      match connection.db.query(sql, bound)
      case None => Err(Sql(Rejected))
      case Some(t) => Ok(t)
    }

    /** What `querySingleResult(sql, params)` returns or throws. */
    function SingleResultOutcome(sql: string, params: Option<seq<Object>>): Result<map<string, Object>, Error>
      reads this, connection
    {
      var t :- QueryOutcome(sql, params);
      SingleRecord(t, |t.rows|)
    }

    /** What `queryResultSet(sql, params)` returns or throws. */
    function ResultSetOutcome(sql: string, params: Option<seq<Object>>): Result<seq<map<string, Object>>, Error>
      reads this, connection
    {
      var t :- QueryOutcome(sql, params);
      CatalogRecords(t, |t.rows|)
    }

    /** The fields of the object `querySingleResult(sql, params, cls)` returns (`None` for
        null), or what it throws. */
    function SingleObjectOutcome(sql: string, params: Option<seq<Object>>, cls: JClass): Result<Option<map<string, Object>>, Error>
      reads this, connection
    {
      var t :- QueryOutcome(sql, params);
      TypedSingle(cls, t, |t.rows|)
    }

    /** The fields of the objects `queryResultSet(sql, params, cls)` returns, or what it throws. */
    function ObjectsOutcome(sql: string, params: Option<seq<Object>>, cls: JClass): Result<seq<map<string, Object>>, Error>
      reads this, connection
    {
      var t :- QueryOutcome(sql, params);
      TypedList(cls, t, |t.rows|)
    }

    /** `pstmt = connection.prepareStatement(sql)` and the binding loop shared by all five
        statement methods: the k-th parameter (from 0) goes to position k + 1. The new
        statement replaces `pstmt` as soon as it is prepared, and the old one is not closed. */
    method PrepareAndBind(sql: string, params: Option<seq<Object>>) returns (r: Result<PreparedStatement, Error>)
      modifies this
      ensures connection == old(connection) && resultSet == old(resultSet) && releases == old(releases)
      ensures !old(Prepares(sql)) ==> pstmt == old(pstmt)
      ensures old(Prepares(sql)) ==>
        fresh(pstmt) && pstmt.conn == connection && pstmt.sql == sql && !pstmt.closed && pstmt.Open() &&
        pstmt.params == BoundPrefix(connection.db.placeholders(sql), params)
      ensures old(pstmt) != null ==> old(pstmt).closed == old(pstmt.closed)
      ensures r.Ok? <==> old(Binding(sql, params)).Ok?
      ensures r.Ok? ==> r.value == pstmt && pstmt.params == old(Binding(sql, params)).value
      ensures r.Err? ==> r.error == old(Binding(sql, params)).error
    {
      if connection == null {
        return Err(NullPointer);
      }
      var prepared := connection.PrepareStatement(sql);
      if prepared.Err? {
        return Err(prepared.error);
      }
      var stmt := prepared.value;
      pstmt := stmt;
      var index := 1;
      if params.Some? && |params.value| > 0 {
        var ps := params.value;
        var k := 0;
        while k < |ps|
          invariant 0 <= k <= |ps| && index == k + 1 && k <= stmt.Placeholders()
          invariant stmt.params == Positional(ps[..k]) && !stmt.closed && stmt.Open()
          invariant pstmt == stmt && connection == old(connection)
          invariant resultSet == old(resultSet) && releases == old(releases)
        {
          var bound := stmt.SetObject(index, ps[k]);
          if bound.Err? {
            return Err(bound.error);
          }
          assert ps[..k + 1][..k] == ps[..k];
          k := k + 1;
          index := index + 1;
        }
        assert ps[..|ps|] == ps;
      }
      return Ok(stmt);
    }

    /** `updateByPreParedStatement`: the count the driver reports for the bound statement;
        the initial -1 is never returned on its own. `next` is the server's state after a
        successful update. */
    method UpdateByPreparedStatement(sql: string, params: Option<seq<Object>>, next: Database) returns (r: Result<int, Error>)
      modifies this, connection
      ensures r == old(UpdateOutcome(sql, params))
      ensures connection == old(connection) && resultSet == old(resultSet) && releases == old(releases)
      ensures connection != null ==>
        connection.closed == old(connection.closed) &&
        connection.db == if r.Ok? then next else old(connection.db)
      ensures !old(Prepares(sql)) ==> pstmt == old(pstmt)
      ensures old(Prepares(sql)) ==>
        fresh(pstmt) && pstmt.conn == connection && pstmt.sql == sql && pstmt.Open() &&
        pstmt.params == BoundPrefix(old(connection.db).placeholders(sql), params)
      ensures old(pstmt) != null ==> old(pstmt).closed == old(pstmt.closed)
    {
      var result := -1;
      var stmt :- PrepareAndBind(sql, params);
      result :- stmt.ExecuteUpdate(next);
      return Ok(result);
    }

    /** `querySingleResult(sql, params)`: every row is folded into one map keyed by
        `getColumnName`, so the last row wins; a NULL value is stored as `""`. */
    method QuerySingleResult(sql: string, params: Option<seq<Object>>) returns (r: Result<map<string, Object>, Error>)
      modifies this
      ensures r == old(SingleResultOutcome(sql, params))
      ensures connection == old(connection) && releases == old(releases)
      ensures !old(Prepares(sql)) ==> pstmt == old(pstmt)
      ensures old(Prepares(sql)) ==>
        fresh(pstmt) && pstmt.conn == connection && pstmt.sql == sql && pstmt.Open() &&
        pstmt.params == BoundPrefix(connection.db.placeholders(sql), params)
      ensures old(QueryOutcome(sql, params)).Ok? ==>
        fresh(resultSet) && resultSet.stmt == pstmt && resultSet.Open() &&
        resultSet.table == old(QueryOutcome(sql, params)).value
      ensures r.Ok? ==> resultSet.position == |resultSet.table.rows| && !resultSet.onRow
      ensures old(QueryOutcome(sql, params)).Err? ==> resultSet == old(resultSet)
      ensures old(pstmt) != null ==> old(pstmt).closed == old(pstmt.closed)
      ensures old(resultSet) != null ==> old(resultSet).closed == old(resultSet.closed)
    {
      var stmt :- PrepareAndBind(sql, params);
      var rs :- stmt.ExecuteQuery();
      resultSet := rs;
      r := FoldRowsByName(rs);
    }

    /** `queryResultSet(sql, params)`: one new map per row, in cursor order, keyed by
        `getCatalogName`; a NULL value is stored under the key `""`. */
    method QueryResultSet(sql: string, params: Option<seq<Object>>) returns (r: Result<seq<map<string, Object>>, Error>)
      modifies this
      ensures r == old(ResultSetOutcome(sql, params))
      ensures connection == old(connection) && releases == old(releases)
      ensures !old(Prepares(sql)) ==> pstmt == old(pstmt)
      ensures old(Prepares(sql)) ==>
        fresh(pstmt) && pstmt.conn == connection && pstmt.sql == sql && pstmt.Open() &&
        pstmt.params == BoundPrefix(connection.db.placeholders(sql), params)
      ensures old(QueryOutcome(sql, params)).Ok? ==>
        fresh(resultSet) && resultSet.stmt == pstmt && resultSet.Open() &&
        resultSet.table == old(QueryOutcome(sql, params)).value
      ensures r.Ok? ==> resultSet.position == |resultSet.table.rows| && !resultSet.onRow
      ensures old(QueryOutcome(sql, params)).Err? ==> resultSet == old(resultSet)
      ensures old(pstmt) != null ==> old(pstmt).closed == old(pstmt.closed)
      ensures old(resultSet) != null ==> old(resultSet).closed == old(resultSet.closed)
    {
      var stmt :- PrepareAndBind(sql, params);
      var rs :- stmt.ExecuteQuery();
      resultSet := rs;
      r := CollectRowsByCatalog(rs);
    }

    /** `querySingleResult(sql, params, cls)`: a new instance per row, each column assigned to
        the field named by `getCatalogName`; the instance of the last row is returned, and null
        when there are no rows. */
    method QuerySingleObject(sql: string, params: Option<seq<Object>>, cls: JClass) returns (r: Result<Instance?, Error>)
      modifies this
      ensures r.Ok? <==> old(SingleObjectOutcome(sql, params, cls)).Ok?
      ensures r.Err? ==> r.error == old(SingleObjectOutcome(sql, params, cls)).error
      ensures r.Ok? ==> (r.value == null <==> old(SingleObjectOutcome(sql, params, cls)).value.None?)
      ensures r.Ok? && r.value != null ==>
        fresh(r.value) && r.value.cls == cls &&
        r.value.fields == old(SingleObjectOutcome(sql, params, cls)).value.value
      ensures connection == old(connection) && releases == old(releases)
      ensures !old(Prepares(sql)) ==> pstmt == old(pstmt)
      ensures old(Prepares(sql)) ==>
        fresh(pstmt) && pstmt.conn == connection && pstmt.sql == sql && pstmt.Open() &&
        pstmt.params == BoundPrefix(connection.db.placeholders(sql), params)
      ensures old(QueryOutcome(sql, params)).Ok? ==>
        fresh(resultSet) && resultSet.stmt == pstmt && resultSet.Open() &&
        resultSet.table == old(QueryOutcome(sql, params)).value
      ensures r.Ok? ==> resultSet.position == |resultSet.table.rows| && !resultSet.onRow
      ensures old(QueryOutcome(sql, params)).Err? ==> resultSet == old(resultSet)
      ensures old(pstmt) != null ==> old(pstmt).closed == old(pstmt.closed)
      ensures old(resultSet) != null ==> old(resultSet).closed == old(resultSet.closed)
    {
      var stmt :- PrepareAndBind(sql, params);
      var rs :- stmt.ExecuteQuery();
      resultSet := rs;
      r := LastRowObject(rs, cls);
    }

    /** `queryResultSet(sql, params, cls)`: one new instance per row, in cursor order, each
        column assigned to the field named by `getCatalogName`. */
    method QueryObjects(sql: string, params: Option<seq<Object>>, cls: JClass) returns (r: Result<seq<Instance>, Error>)
      modifies this
      ensures r.Ok? <==> old(ObjectsOutcome(sql, params, cls)).Ok?
      ensures r.Err? ==> r.error == old(ObjectsOutcome(sql, params, cls)).error
      ensures r.Ok? ==> |r.value| == |old(ObjectsOutcome(sql, params, cls)).value|
      ensures r.Ok? ==> forall i :: 0 <= i < |r.value| ==>
        fresh(r.value[i]) && r.value[i].cls == cls &&
        r.value[i].fields == old(ObjectsOutcome(sql, params, cls)).value[i]
      ensures r.Ok? ==> forall i, j :: 0 <= i < j < |r.value| ==> r.value[i] != r.value[j]
      ensures connection == old(connection) && releases == old(releases)
      ensures !old(Prepares(sql)) ==> pstmt == old(pstmt)
      ensures old(Prepares(sql)) ==>
        fresh(pstmt) && pstmt.conn == connection && pstmt.sql == sql && pstmt.Open() &&
        pstmt.params == BoundPrefix(connection.db.placeholders(sql), params)
      ensures old(QueryOutcome(sql, params)).Ok? ==>
        fresh(resultSet) && resultSet.stmt == pstmt && resultSet.Open() &&
        resultSet.table == old(QueryOutcome(sql, params)).value
      ensures r.Ok? ==> resultSet.position == |resultSet.table.rows| && !resultSet.onRow
      ensures old(QueryOutcome(sql, params)).Err? ==> resultSet == old(resultSet)
      ensures old(pstmt) != null ==> old(pstmt).closed == old(pstmt.closed)
      ensures old(resultSet) != null ==> old(resultSet).closed == old(resultSet.closed)
    {
      var stmt :- PrepareAndBind(sql, params);
      var rs :- stmt.ExecuteQuery();
      resultSet := rs;
      r := CollectRowObjects(rs, cls);
    }

    /** `close()`: tries the result set, then the statement, then the connection, skipping
        null fields and going on after a release that throws (`...Fails`). The fields keep
        their values. */
    method Close(resultSetFails: bool, statementFails: bool, connectionFails: bool)
      modifies this, resultSet, pstmt, connection
      ensures connection == old(connection) && pstmt == old(pstmt) && resultSet == old(resultSet)
      ensures resultSet != null ==> resultSet.closed == (old(resultSet.closed) || !resultSetFails)
      ensures pstmt != null ==> pstmt.closed == (old(pstmt.closed) || !statementFails)
      ensures connection != null ==> connection.closed == (old(connection.closed) || !connectionFails)
      ensures pstmt != null ==> pstmt.params == old(pstmt.params)
      ensures resultSet != null ==>
        resultSet.position == old(resultSet.position) && resultSet.onRow == old(resultSet.onRow)
      ensures connection != null ==> connection.db == old(connection.db)
      ensures pstmt != null && !statementFails ==> forall rs: ResultSet :: rs.stmt == pstmt ==> !rs.Open()
      ensures connection != null && !connectionFails ==>
        (forall s: PreparedStatement :: s.conn == connection ==> !s.Open()) &&
        (forall rs: ResultSet :: rs.stmt.conn == connection ==> !rs.Open())
      ensures releases == old(releases) +
        (if resultSet != null then [ResultSetResource] else []) +
        (if pstmt != null then [StatementResource] else []) +
        (if connection != null then [ConnectionResource] else [])
    {
      if resultSet != null {
        resultSet.Close(resultSetFails);
        releases := releases + [ResultSetResource];
      }
      if pstmt != null {
        pstmt.Close(statementFails);
        releases := releases + [StatementResource];
      }
      if connection != null {
        connection.Close(connectionFails);
        releases := releases + [ConnectionResource];
      }
    }
  }
}
