# DBUtils, modelled in Dafny

`DBUtils` is a small JDBC helper class. It holds one `Connection`, the last
`PreparedStatement` and the last `ResultSet` in three fields. It offers:

- `getConnection()`;
- one update method, `updateByPreParedStatement`;
- four query methods, which fold result rows into maps or into reflectively built objects;
- `close()`.

This project models that class and proves what each method returns, throws and leaves in
the fields.

Modules:

- `Wrappers`: `Option` and `Result`. An exception is a `Result.Err`.
- `Jdbc`: the part of JDBC the class uses. Values, result tables and column metadata are
  datatypes. The server's state is a `Database` value that answers `prepareStatement`, the
  number of parameter markers, `executeUpdate` and `executeQuery`. `Connection`,
  `PreparedStatement` and `ResultSet` are classes whose fields change in place:
  - the server state the connection holds, which a successful `executeUpdate` replaces;
  - each object's own closed flag;
  - the bound parameters;
  - the cursor position.

  A statement is open while neither it nor its connection is closed. A result set is open while
  neither it nor its statement is. So closing a connection also closes its statements and their
  result sets, as JDBC requires. Column lookup by label ignores case.
- `Reflection`: a class as its declared fields with their types and the values its no-arg
  constructor leaves in them, `newInstance()`, `getDeclaredField(name)` followed by
  `Field.set`, and an `Instance` class whose field map changes in place.
- `RowMapping`: pure specifications, written as folds over columns and rows, of what each
  method computes. The lemmas state those results without the fold.
- `DbUtils`: the `DBUtils` class itself. Its methods bind parameters and read rows with
  `while` loops, and each is proved equal to the specification in `RowMapping`.

Some points where the code does something other than read every column by its name and turn NULL into `""`:

- Only `querySingleResult(sql, params)` keys its map by `getColumnName` and turns a NULL
  value into `""`.
- The other three queries look a value up by `getCatalogName`, and on a NULL value they
  change the *key* to `""`, keeping the value as null.
  - In `queryResultSet(sql, params)` a NULL column is stored under the key `""`.
  - In the typed queries, a NULL column means a lookup of the field `""`. No class declares
    that field, so the typed query throws.
- `getObject(String)` resolves its argument as a column label, ignoring case: it takes the
  first column with that label and throws when there is none. A catalog name is usually the database name,
  not a label, so the catalog-name paths throw unless the driver reports a catalog equal to a
  label. `RowMapping.CatalogNameExample` shows both outcomes on one row.
- All five statement methods assign `pstmt` (and the query methods `resultSet`) without
  closing the object that was there before.
- Each statement method leaves its new statement open, and each query method leaves its new
  cursor open after the last row.
- The binding loop stops at the first `setObject` that throws. That leaves the new statement
  in `pstmt` with the parameters bound so far.

## Model

| member | source | states |
|---|---|---|
| DbUtils.DBUtils.constructor | src/main/java/DBUtils/DBUtils.java:26-40 | connection, statement and result set all start null, and nothing has been released |
| DbUtils.DBUtils.GetConnection | src/main/java/DBUtils/DBUtils.java:43-51 | a successful connect stores a new open connection and returns it; a failed one keeps and returns the previous field; the replaced connection is not closed and the other fields are untouched |
| DbUtils.DBUtils.PrepareAndBind | src/main/java/DBUtils/DBUtils.java:62-69 | succeeds exactly when the connection is non-null, open, accepts the SQL and has at least as many markers as parameters; the new statement replaces `pstmt` once prepared, is left open on the same connection, and holds parameter k+1 = k-th element for every element bound; the old statement stays as it was; the error is NullPointer, Closed, Rejected or the first out-of-range index |
| DbUtils.DBUtils.UpdateByPreparedStatement | src/main/java/DBUtils/DBUtils.java:60-72 | returns the update count the server reports for the statement bound with the parameters in order, or the exception from preparing, binding or executing; the -1 placeholder is never returned; a successful update installs the server's new state on the connection and a failed one leaves it; the new statement is left open; `resultSet` is untouched |
| DbUtils.DBUtils.QuerySingleResult | src/main/java/DBUtils/DBUtils.java:82-106 | returns the single-record fold of the queried table, or the exception; the new statement is left open; once the query runs, `resultSet` is a new open cursor of that statement over the queried table, and on success it stands after the last row; the previous statement and cursor keep their state |
| DbUtils.FoldRowsByName | src/main/java/DBUtils/DBUtils.java:95-104 | over a new open cursor, the loop's map equals the fold of every row by column name, the first failing `getObject` ending it with that exception; on success the cursor is past the last row and stays open |
| DbUtils.ReadByName | src/main/java/DBUtils/DBUtils.java:96-103 | one row: each column's value, read by its name, is put under that name with NULL read as `""`, or the exception of the first unresolvable name |
| DbUtils.DBUtils.QueryResultSet | src/main/java/DBUtils/DBUtils.java:116-142 | returns one map per row of the queried table, as the catalog-record fold specifies, or the exception; the new statement and cursor are left open, the cursor after the last row on success; the previous ones keep their state |
| DbUtils.CollectRowsByCatalog | src/main/java/DBUtils/DBUtils.java:129-140 | over a new open cursor, the list equals the per-row catalog records in cursor order; on success the cursor is past the last row and stays open |
| DbUtils.ReadByCatalog | src/main/java/DBUtils/DBUtils.java:130-139 | one row gives a new map, each value under its column's catalog name, or under `""` when it is NULL |
| DbUtils.DBUtils.QuerySingleObject | src/main/java/DBUtils/DBUtils.java:155-183 | returns null when the table has no rows, otherwise a new instance of the class whose fields are those the typed fold builds from the last row; the exception when any row fails; the new statement and cursor are left open, the cursor after the last row on success |
| DbUtils.LastRowObject | src/main/java/DBUtils/DBUtils.java:168-182 | over a new open cursor, the object built from the last row, null for no rows, the first exception otherwise; on success the cursor is past the last row and stays open |
| DbUtils.BuildInstance | src/main/java/DBUtils/DBUtils.java:170-180 | a new instance of the class whose fields equal the typed row mapping of the current row, or that mapping's exception |
| DbUtils.DBUtils.QueryObjects | src/main/java/DBUtils/DBUtils.java:194-222 | returns one new instance per row, pairwise distinct, in cursor order, each holding the fields the typed fold builds from its row; the exception when any row fails; the new statement and cursor are left open, the cursor after the last row on success |
| DbUtils.CollectRowObjects | src/main/java/DBUtils/DBUtils.java:207-220 | over a new open cursor, one new and distinct instance per row, in order, with the fields built from that row; on success the cursor is past the last row and stays open |
| DbUtils.DBUtils.Close | src/main/java/DBUtils/DBUtils.java:227-249 | tries result set, statement, connection in that order, skipping null fields; a release that throws leaves that object's own closed flag as it was and the next is still tried; a statement that closes takes its result sets with it, and a connection that closes takes all its statements and result sets; the fields keep their values, the connection keeps its server state, the cursor keeps its position, and the statement keeps its parameters |
| RowMapping.PositionalAt | src/main/java/DBUtils/DBUtils.java:63-69 | the positional map binds exactly indices 1..n, index k+1 holding the k-th parameter |
| RowMapping.BindParamsMeaning | src/main/java/DBUtils/DBUtils.java:85-91 | binding succeeds iff there are no more parameters than markers; a null or empty list binds nothing; otherwise the bound map is positional |
| RowMapping.PutByNameOverlay | src/main/java/DBUtils/DBUtils.java:96-103 | the column loop by name succeeds iff every name resolves, and its map is the starting map overlaid with that row's name-to-value map |
| RowMapping.SingleRecordLastRow | src/main/java/DBUtils/DBUtils.java:95-104 | folding rows into one map gives the empty map for no rows, fails iff some column name is not a label, and otherwise equals the last row's own map (last row wins) |
| RowMapping.ByNameMeaning | src/main/java/DBUtils/DBUtils.java:96-103 | a row read by name has exactly the column names as keys, no NULL value, and each column that is its own label under its name with NULL replaced by `""` |
| RowMapping.SingleRecordMeaning | src/main/java/DBUtils/DBUtils.java:95-105 | with at least one row and every column name a label, the untyped single result has all column names as keys, no NULL values, and the last row's value under each name that is its own column's label |
| RowMapping.PutByCatalogOk | src/main/java/DBUtils/DBUtils.java:131-138 | the column loop by catalog name succeeds iff every catalog name is a column label |
| RowMapping.PutByCatalogKeys | src/main/java/DBUtils/DBUtils.java:131-138 | the keys added are exactly the catalog names of non-NULL columns plus `""` for NULL ones |
| RowMapping.PutByCatalogValues | src/main/java/DBUtils/DBUtils.java:131-138 | a non-NULL column with a non-empty catalog name ends up stored under that name |
| RowMapping.PutByCatalogEmptyKey | src/main/java/DBUtils/DBUtils.java:134-137 | when no catalog name is empty, anything stored under `""` is NULL |
| RowMapping.CatalogRecordMeaning | src/main/java/DBUtils/DBUtils.java:130-139 | one row's map exists iff all catalog names are labels; its keys, the values under catalog names, and the NULL kept under `""` |
| RowMapping.CatalogRecordsPerRow | src/main/java/DBUtils/DBUtils.java:129-141 | the list fails iff there are rows and some catalog name is not a label; otherwise it has one entry per row, the i-th being row i's map |
| RowMapping.PutByNameFails | src/main/java/DBUtils/DBUtils.java:96-103 | once a column throws, the rest of the row's loop does not change the outcome |
| RowMapping.SingleRecordFails | src/main/java/DBUtils/DBUtils.java:95-104 | once a row throws, the remaining rows do not change the outcome |
| RowMapping.PutByCatalogFails | src/main/java/DBUtils/DBUtils.java:131-138 | once a column throws, the rest of the row's loop does not change the outcome |
| RowMapping.CatalogRecordsFail | src/main/java/DBUtils/DBUtils.java:129-140 | once a row throws, the remaining rows do not change the outcome |
| RowMapping.AssignColumnsFails | src/main/java/DBUtils/DBUtils.java:171-180 | once a field assignment throws, the rest of the row's loop does not change the outcome |
| RowMapping.TypedSingleFails | src/main/java/DBUtils/DBUtils.java:168-181 | once a row throws, the remaining rows do not change the typed single outcome |
| RowMapping.TypedListFails | src/main/java/DBUtils/DBUtils.java:207-220 | once a row throws, the remaining rows do not change the typed list outcome |
| RowMapping.AssignColumnsOk | src/main/java/DBUtils/DBUtils.java:171-180 | assigning a row's columns succeeds iff every column is assignable (label found, value non-NULL, declared field that takes it) |
| RowMapping.AssignColumnsFields | src/main/java/DBUtils/DBUtils.java:171-180 | after assignment, the keys are the starting ones plus the catalog names assigned; a field named by a catalog holds the value read under that name, every other field keeps its value |
| RowMapping.BuildObjectMeaning | src/main/java/DBUtils/DBUtils.java:170-180 | a typed row is built iff the class is instantiable and every column assignable; then every declared field holds the column named after it, or else the value the no-arg constructor (field initialisers included) left there |
| RowMapping.TypedRowFails | src/main/java/DBUtils/DBUtils.java:172-179 | a typed row fails when a catalog name is not a declared field, or when any column value is NULL (the field `""` is looked up) |
| RowMapping.TypedSingleLastRow | src/main/java/DBUtils/DBUtils.java:166-182 | the typed single result is null for no rows, succeeds iff every row builds, and is then the object built from the last row |
| RowMapping.TypedListPerRow | src/main/java/DBUtils/DBUtils.java:205-221 | the typed list succeeds iff every row builds, and then holds one object per row, in order |
| RowMapping.InitialiserExample | src/main/java/DBUtils/DBUtils.java:170-180 | `class User { int id; String status = "active"; }` read from `SELECT id` gets `id` from the row and keeps `status == "active"` from its initialiser |
| RowMapping.CatalogNameExample | src/main/java/DBUtils/DBUtils.java:210-217 | a row `{id: 7, name: "Ana"}` with catalog `mydb` throws ColumnNotFound("mydb"); with catalogs equal to the labels it maps to `{id: 7, name: "Ana"}` |
| Jdbc.FindColumn | src/main/java/DBUtils/DBUtils.java:98 | `findColumn(label)` is the first column whose label equals `label` ignoring case, and there is none exactly when no column's label matches |
| Jdbc.CellAtFoundColumn | src/main/java/DBUtils/DBUtils.java:133 | the value read for a label is the value in the column `findColumn` reports |
| Jdbc.ColumnValueMeaning | src/main/java/DBUtils/DBUtils.java:98 | `getObject(label)` on a row succeeds exactly when `findColumn` finds the label, returns the value in the column it finds, and otherwise throws ColumnNotFound(label) |
| RowMapping.LabelCaseExample | src/main/java/DBUtils/DBUtils.java:97-98 | a column named `id` whose label is `ID` is still found by its name, so the untyped single query maps `id` to its value |
| Jdbc.Connection.PrepareStatement | src/main/java/DBUtils/DBUtils.java:64 | a closed connection throws, an SQL string the server refuses throws, and otherwise a new open statement with no parameters bound |
| Jdbc.PreparedStatement.SetObject | src/main/java/DBUtils/DBUtils.java:67 | binding index i succeeds iff the statement is open and 1 <= i <= the number of markers, and then sets exactly parameter i |
| Jdbc.PreparedStatement.ExecuteUpdate | src/main/java/DBUtils/DBUtils.java:70 | on an open statement, the server's count for the SQL and bound parameters, and the server moves to its next state; a closed statement or refused update throws and leaves the server state as it was |
| Jdbc.PreparedStatement.ExecuteQuery | src/main/java/DBUtils/DBUtils.java:92 | a new open cursor of this statement, before the first row of the server's table for the SQL and bound parameters; a closed statement or refused query throws |
| Jdbc.ResultSet.Next | src/main/java/DBUtils/DBUtils.java:95 | on an open cursor, advances to the next row and reports whether there was one |
| Jdbc.ResultSet.Close | src/main/java/DBUtils/DBUtils.java:230 | the cursor is closed unless the release throws, and keeps its position |
| Jdbc.PreparedStatement.Close | src/main/java/DBUtils/DBUtils.java:237 | the statement is closed unless the release throws, its parameters are kept, and every result set it produced is then closed too |
| Jdbc.Connection.Close | src/main/java/DBUtils/DBUtils.java:244 | the connection is closed unless the release throws, and then every statement on it and every result set of those statements is closed too; the server state is kept either way |
| Reflection.SetFieldMeaning | src/main/java/DBUtils/DBUtils.java:177-179 | `getDeclaredField(name)` plus `Field.set` succeeds iff the field is declared and its type accepts the value; an undeclared name (always `""`) throws NoSuchField, a refused value IllegalArgument; on success only that field changes, to the value |
| Reflection.NewInstance | src/main/java/DBUtils/DBUtils.java:170 | a new instance whose fields hold what the no-arg constructor and field initialisers leave, or InstantiationException when the class cannot be instantiated |

## Left out

- The constructor's `Class.forName` driver registration and its console messages are not modelled. Registration failure is only printed, so it changes no state the model has.
- URL, database name, user name and password are not modelled. `getConnection` takes the outcome of `DriverManager.getConnection` as a parameter: a reached `Database` or a failure.
- `printStackTrace` in `getConnection` and `close` is not modelled. It is console output only.
- The SQL text is opaque. Whether it prepares, how many markers it has and what it returns are answered by the `Database` value, not by parsing SQL.
- Type conversions that `setObject` and `Field.set` perform (widening, unboxing, `String` to number) are not modelled. `Field.set` is reduced to an exact type check over four field kinds, and `setObject` accepts any value at a valid index.
- Jdbc.FindColumn: only ASCII letters are folded to lower case, not the rest of Unicode, and there is no driver-specific fallback from a label to the underlying column name.
- Getters and `next()` on a closed cursor (which throw in JDBC) lie outside the model's preconditions. DBUtils only calls them on the cursor it has just opened, so the model requires that cursor to be open.
- The server's next state after an update is a parameter of `UpdateByPreparedStatement`. The model does not compute what an update changes, so it cannot relate a later query to it.
- Reflection.NewInstance: the no-arg constructor is not run step by step. Each class carries the field values it leaves, and the model does not capture a constructor that throws something other than InstantiationException, or one with side effects outside the new object.
- Result set metadata beyond each column's name, label and catalog is not modelled.
- Thread safety and concurrent use of the shared fields are not modelled. The source takes no locks.
- The order in which `close()` releases resources is recorded in a ghost history, because nothing else in the model can observe the order.
