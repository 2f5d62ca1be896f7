/** The JDBC driver as DBUtils sees it: values, column metadata, result tables, and the
    connection, prepared statement and result set objects it calls. The database server itself
    is an oracle (`Database`) held by the connection. */
module Jdbc {
  import opened Wrappers

  /** A non-null SQL value as the driver hands it to Java. */
  datatype Value = IntValue(i: int) | StringValue(s: string) | BoolValue(b: bool)

  /** A Java `Object` reference: SQL NULL arrives as `Null`. */
  datatype Object = Null | Ref(value: Value)

  /** The string `""` that DBUtils substitutes for NULL in its single-row query. */
  const EmptyString: Object := Ref(StringValue(""))

  /** Why the driver throws `SQLException`. */
  datatype SqlCause =
    | ConnectionRefused
    | Closed
    | Rejected                          // the server refuses the SQL or its execution
    | ParameterIndexOutOfRange(index: int)
    | ColumnNotFound(columnLabel: string)

  /** The exceptions that escape DBUtils' statement and query methods. */
  datatype Error =
    | NullPointer                       // `connection` was never set
    | Sql(cause: SqlCause)
    | NoSuchField(name: string)         // `Class.getDeclaredField`
    | Instantiation                     // `Class.newInstance`
    | IllegalArgument(field: string)    // `Field.set` with a value of the wrong type

  /** `ResultSetMetaData` of one column: `getColumnName`, `getColumnLabel`, `getCatalogName`. */
  datatype Column = Column(name: string, columnLabel: string, catalog: string)

  type Row = seq<Object>

  datatype Table = Table(columns: seq<Column>, rows: seq<Row>) {
    predicate WellFormed() {
      forall r | r in rows :: |r| == |columns|
    }
  }

  /** What `executeQuery` returns: every row has one value per column. */
  type ResultTable = t: Table | t.WellFormed() witness Table([], [])

  /** ASCII letters folded to lower case; every other character is kept. */
  function LowerAscii(c: char): char {
    if 'A' <= c <= 'Z' then (c as int - 'A' as int + 'a' as int) as char else c
  }

  /** `a` and `b` are the same string ignoring the case of ASCII letters. */
  predicate EqualIgnoringCase(a: string, b: string) {
    |a| == |b| &&
    (a == [] || (LowerAscii(a[0]) == LowerAscii(b[0]) && EqualIgnoringCase(a[1..], b[1..])))
  }

  /** A getter's column argument names column `c` when it equals the column's label ignoring
      case, as the `ResultSet` contract requires. */
  predicate Labels(c: Column, columnLabel: string) {
    EqualIgnoringCase(c.columnLabel, columnLabel)
  }

  /** `ResultSet.findColumn(columnLabel)`: the first column with that label (0-based). */
  function FindColumn(columns: seq<Column>, columnLabel: string): (r: Option<nat>)
    ensures r.Some? ==> r.value < |columns| && Labels(columns[r.value], columnLabel)
    ensures r.Some? ==> forall j :: 0 <= j < r.value ==> !Labels(columns[j], columnLabel)
    ensures r.None? <==> !Resolves(columns, columnLabel)
  {
    if columns == [] then None
    else if Labels(columns[0], columnLabel) then Some(0)
    else match FindColumn(columns[1..], columnLabel)
      case None => None
      case Some(j) => Some(j + 1)
  }

  /** Some column carries the label `columnLabel`. */
  predicate Resolves(columns: seq<Column>, columnLabel: string) {
    exists j :: 0 <= j < |columns| && Labels(columns[j], columnLabel)
  }

  /** The value in `row` of the first column labelled `columnLabel` (`Null` if none is). */
  function Cell(columns: seq<Column>, row: Row, columnLabel: string): Object
    requires |row| == |columns|
  {
    if columns == [] then Null
    else if Labels(columns[0], columnLabel) then row[0]
    else Cell(columns[1..], row[1..], columnLabel)
  }

  /** `Cell` reads the column that `findColumn` reports. */
  lemma {:induction false} CellAtFoundColumn(columns: seq<Column>, row: Row, columnLabel: string)
    requires |row| == |columns| && Resolves(columns, columnLabel)
    ensures FindColumn(columns, columnLabel).Some?
    ensures Cell(columns, row, columnLabel) == row[FindColumn(columns, columnLabel).value]
  {
    if !Labels(columns[0], columnLabel) {
      var j :| 0 <= j < |columns| && Labels(columns[j], columnLabel);
      assert Labels(columns[1..][j - 1], columnLabel);
      CellAtFoundColumn(columns[1..], row[1..], columnLabel);
    }
  }

  /** `ResultSet.getObject(columnLabel)` on the current row. */
  function ColumnValue(columns: seq<Column>, row: Row, columnLabel: string): Result<Object, Error>
    requires |row| == |columns|
  {
    if Resolves(columns, columnLabel) then Ok(Cell(columns, row, columnLabel))
    else Err(Sql(ColumnNotFound(columnLabel)))
  }

  /** `getObject` returns the value of the first column whose label matches, and throws
      exactly when no column's label does. */
  lemma ColumnValueMeaning(columns: seq<Column>, row: Row, columnLabel: string)
    requires |row| == |columns|
    ensures ColumnValue(columns, row, columnLabel).Ok? <==> FindColumn(columns, columnLabel).Some?
    ensures ColumnValue(columns, row, columnLabel).Ok? ==>
      ColumnValue(columns, row, columnLabel).value == row[FindColumn(columns, columnLabel).value]
    ensures ColumnValue(columns, row, columnLabel).Err? ==>
      ColumnValue(columns, row, columnLabel).error == Sql(ColumnNotFound(columnLabel))
  {
    if Resolves(columns, columnLabel) {
      CellAtFoundColumn(columns, row, columnLabel);
    }
  }

  /** The state of the server behind a connection, as far as DBUtils can observe it. */
  datatype Database = Database(
    accepts: string -> bool,                                    // `prepareStatement` succeeds
    placeholders: string -> nat,                                // parameter markers in the SQL
    update: (string, map<int, Object>) -> Option<int>,          // `executeUpdate`; None: throws
    query: (string, map<int, Object>) -> Option<ResultTable>)   // `executeQuery`; None: throws

  /** A connection to a server whose state `db` changes with every update. Closing it closes
      every statement created on it, and their result sets (see `PreparedStatement.Open`). */
  class Connection {
    var db: Database
    var closed: bool

    constructor (db: Database)
      ensures this.db == db && !closed
    {
      this.db := db;
      closed := false;
    }

    method PrepareStatement(sql: string) returns (r: Result<PreparedStatement, Error>)
      ensures closed ==> r == Err(Sql(Closed))
      ensures !closed && !db.accepts(sql) ==> r == Err(Sql(Rejected))
      ensures !closed && db.accepts(sql) ==>
        r.Ok? && fresh(r.value) && r.value.conn == this && r.value.sql == sql &&
        r.value.params == map[] && !r.value.closed && r.value.Open()
    {
      if closed {
        return Err(Sql(Closed));
      }
      if !db.accepts(sql) {
        return Err(Sql(Rejected));
      }
      var s := new PreparedStatement(this, sql);
      return Ok(s);
    }

    /** `close()`; `fails` is whether the driver throws. Closing a closed connection is a no-op. */
    method Close(fails: bool)
      modifies this
      ensures closed == (old(closed) || !fails) && db == old(db)
      ensures !fails ==> forall s: PreparedStatement :: s.conn == this ==> !s.Open()
      ensures !fails ==> forall rs: ResultSet :: rs.stmt.conn == this ==> !rs.Open()
    {
      if !closed && !fails {
        closed := true;
      }
    }
  }

  /** A statement prepared on `conn`. `closed` records its own `close()`; it is open only while
      its connection is too. */
  class PreparedStatement {
    const conn: Connection
    const sql: string
    var params: map<int, Object>
    var closed: bool

    constructor (conn: Connection, sql: string)
      ensures this.conn == conn && this.sql == sql && params == map[] && !closed
    {
      this.conn := conn;
      this.sql := sql;
      params := map[];
      closed := false;
    }

    predicate Open()
      reads this, conn
    {
      !closed && !conn.closed
    }

    function Placeholders(): nat
      reads conn
    {
      conn.db.placeholders(sql)
    }

    /** `setObject(index, x)`: indices run from 1 to the number of parameter markers. */
    method SetObject(index: int, x: Object) returns (r: Result<(), Error>)
      modifies this
      ensures closed == old(closed)
      ensures r.Ok? <==> old(Open()) && 1 <= index <= Placeholders()
      ensures r.Err? ==>
        params == old(params) &&
        r.error == if !old(Open()) then Sql(Closed) else Sql(ParameterIndexOutOfRange(index))
      ensures r.Ok? ==> params == old(params)[index := x]
    {
      if !Open() {
        return Err(Sql(Closed));
      }
      if !(1 <= index <= Placeholders()) {
        return Err(Sql(ParameterIndexOutOfRange(index)));
      }
      params := params[index := x];
      return Ok(());
    }

    /** `executeUpdate()`: the count the server reports; `next` is the server's state once the
        update is done, which later statements on the same connection see. */
    method ExecuteUpdate(next: Database) returns (r: Result<int, Error>)
      modifies conn
      ensures !old(Open()) ==> r == Err(Sql(Closed))
      ensures old(Open()) && old(conn.db).update(sql, params).None? ==> r == Err(Sql(Rejected))
      ensures old(Open()) && old(conn.db).update(sql, params).Some? ==>
        r == Ok(old(conn.db).update(sql, params).value)
      ensures conn.db == (if r.Ok? then next else old(conn.db))
      ensures conn.closed == old(conn.closed)
    {
      if !Open() {
        return Err(Sql(Closed));
      }
      var count := conn.db.update(sql, params);
      if count.None? {
        return Err(Sql(Rejected));
      }
      conn.db := next;
      return Ok(count.value);
    }

    method ExecuteQuery() returns (r: Result<ResultSet, Error>)
      ensures !Open() ==> r == Err(Sql(Closed))
      ensures Open() && conn.db.query(sql, params).None? ==> r == Err(Sql(Rejected))
      ensures Open() && conn.db.query(sql, params).Some? ==>
        r.Ok? && fresh(r.value) && r.value.stmt == this &&
        r.value.table == conn.db.query(sql, params).value &&
        r.value.Valid() && r.value.position == 0 && !r.value.onRow && !r.value.closed && r.value.Open()
    {
      if !Open() {
        return Err(Sql(Closed));
      }
      var t := conn.db.query(sql, params);
      if t.None? {
        return Err(Sql(Rejected));
      }
      var rs := new ResultSet(this, t.value);
      return Ok(rs);
    }

    /** `close()`, which also closes the statement's result sets. */
    method Close(fails: bool)
      modifies this
      ensures closed == (old(closed) || !fails) && params == old(params)
      ensures !fails ==> !Open() && forall rs: ResultSet :: rs.stmt == this ==> !rs.Open()
    {
      if !closed && !fails {
        closed := true;
      }
    }
  }

  /** A forward-only cursor over a result table, produced by `stmt`. `position` counts the rows
      `next()` has moved past; while `onRow`, the current row is `table.rows[position - 1]`. */
  class ResultSet {
    const stmt: PreparedStatement
    const table: ResultTable
    var position: nat
    var onRow: bool
    var closed: bool

    ghost predicate Valid()
      reads this
    {
      position <= |table.rows| && (onRow ==> 1 <= position)
    }

    /** Open until its own `close()`, its statement's, or its connection's. */
    predicate Open()
      reads this, stmt, stmt.conn
    {
      !closed && stmt.Open()
    }

    constructor (stmt: PreparedStatement, t: ResultTable)
      ensures this.stmt == stmt && table == t && position == 0 && !onRow && !closed && Valid()
    {
      this.stmt := stmt;
      table := t;
      position := 0;
      onRow := false;
      closed := false;
    }

    /** `next()`: moves to the following row and tells whether there was one. */
    method Next() returns (more: bool)
      requires Valid() && Open()
      modifies this
      ensures Valid() && closed == old(closed)
      ensures more == (old(position) < |table.rows|) && onRow == more
      ensures position == if more then old(position) + 1 else old(position)
    {
      more := position < |table.rows|;
      if more {
        position := position + 1;
      }
      onRow := more;
    }

    function CurrentRow(): Row
      reads this
      requires Valid() && onRow
    {
      table.rows[position - 1]
    }

    /** `getObject(columnLabel)` on the current row (see `ColumnValueMeaning`). */
    function GetObject(columnLabel: string): Result<Object, Error>
      reads this, stmt, stmt.conn
      requires Valid() && onRow && Open()
    {
      ColumnValue(table.columns, CurrentRow(), columnLabel)
    }

    method Close(fails: bool)
      modifies this
      ensures closed == (old(closed) || !fails) && position == old(position) && onRow == old(onRow)
      ensures !fails ==> !Open()
    {
      if !closed && !fails {
        closed := true;
      }
    }
  }
}
