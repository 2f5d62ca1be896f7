/** What DBUtils computes from its parameters and from a result table, written as folds that
    follow its loops column by column and row by row, together with what those folds mean. */
module RowMapping {
  import opened Wrappers
  import opened Jdbc
  import opened Reflection

  // ---------------------------------------------------------------------------------------
  // Positional parameter binding

  /** `params != null && !params.isEmpty()` guards the binding loop: null and empty both bind
      nothing. */
  function EffectiveParams(params: Option<seq<Object>>): seq<Object> {
    if params.None? then [] else params.value
  }

  /** The parameter map left by `setObject(index++, param)` over `ps`, with `index` from 1. */
  function Positional(ps: seq<Object>): map<int, Object> {
    if ps == [] then map[] else Positional(ps[..|ps| - 1])[|ps| := ps[|ps| - 1]]
  }

  lemma {:induction false} PositionalAt(ps: seq<Object>)
    ensures forall k :: k in Positional(ps) <==> 1 <= k <= |ps|
    ensures forall k :: 0 <= k < |ps| ==> Positional(ps)[k + 1] == ps[k]
  {
    if ps != [] {
      var init := ps[..|ps| - 1];
      PositionalAt(init);
      assert forall k :: 0 <= k < |init| ==> init[k] == ps[k];
    }
  }

  /** The outcome of the binding loop on a statement with `placeholders` parameter markers:
      the driver throws at the first index past the last marker. */
  function BindParams(placeholders: nat, params: Option<seq<Object>>): Result<map<int, Object>, Error> {
    var ps := EffectiveParams(params);
    if |ps| <= placeholders then Ok(Positional(ps))
    else Err(Sql(ParameterIndexOutOfRange(placeholders + 1)))
  }

  /** The parameters a statement holds after the binding loop, whether or not it completes:
      every parameter, or as many as there are markers when the driver throws. */
  function BoundPrefix(placeholders: nat, params: Option<seq<Object>>): map<int, Object> {
    var ps := EffectiveParams(params);
    Positional(ps[..if |ps| <= placeholders then |ps| else placeholders])
  }

  lemma BindParamsMeaning(placeholders: nat, params: Option<seq<Object>>)
    ensures var ps := EffectiveParams(params);
      BindParams(placeholders, params).Ok? <==> |ps| <= placeholders
    ensures params.None? || params == Some([]) ==> BindParams(placeholders, params) == Ok(map[])
    ensures var ps := EffectiveParams(params);
      BindParams(placeholders, params).Ok? ==>
        var bound := BindParams(placeholders, params).value;
        (forall k :: k in bound <==> 1 <= k <= |ps|) &&
        forall k :: 0 <= k < |ps| ==> bound[k + 1] == ps[k]
  {
    PositionalAt(EffectiveParams(params));
  }

  // ---------------------------------------------------------------------------------------
  // querySingleResult(sql, params): one map, keyed by column name, last row wins

  function NullAsEmpty(x: Object): Object {
    if x.Null? then EmptyString else x
  }

  function NamesOf(cols: seq<Column>): set<string> {
    set i | 0 <= i < |cols| :: cols[i].name
  }

  predicate NamesResolve(cols: seq<Column>) {
    forall i :: 0 <= i < |cols| ==> Resolves(cols, cols[i].name)
  }

  /** `map.put(getColumnName(i), value)` for the first `n` columns of one row, a NULL value
      replaced by `""`. */
  function PutByName(m: map<string, Object>, cols: seq<Column>, row: Row, n: nat): Result<map<string, Object>, Error>
    requires |row| == |cols| && n <= |cols|
  {
    if n == 0 then Ok(m)
    else
      var m' :- PutByName(m, cols, row, n - 1);
      var x :- ColumnValue(cols, row, cols[n - 1].name);
      Ok(m'[cols[n - 1].name := NullAsEmpty(x)])
  }

  /** The map after the first `n` rows, all folded into the same map. */
  function SingleRecord(t: ResultTable, n: nat): Result<map<string, Object>, Error>
    requires n <= |t.rows|
  {
    if n == 0 then Ok(map[])
    else
      var m :- SingleRecord(t, n - 1);
      PutByName(m, t.columns, t.rows[n - 1], |t.columns|)
  }

  /** One row read by column name, stated without the fold: every name of the first `n`
      columns maps to the value `getObject` finds under it, NULL read as `""`. */
  function ByName(cols: seq<Column>, row: Row, n: nat): map<string, Object>
    requires |row| == |cols| && n <= |cols|
  {
    map k | k in NamesOf(cols[..n]) :: NullAsEmpty(Cell(cols, row, k))
  }

  lemma NamesOfSnoc(cols: seq<Column>, n: nat)
    requires 0 < n <= |cols|
    ensures NamesOf(cols[..n]) == NamesOf(cols[..n - 1]) + {cols[n - 1].name}
  {
  }

  lemma ByNameSnoc(cols: seq<Column>, row: Row, n: nat)
    requires |row| == |cols| && 0 < n <= |cols|
    ensures ByName(cols, row, n) == ByName(cols, row, n - 1)[cols[n - 1].name := NullAsEmpty(Cell(cols, row, cols[n - 1].name))]
  {
    NamesOfSnoc(cols, n);
  }

  lemma OverlayUpdate<K, V>(m: map<K, V>, b: map<K, V>, k: K, v: V)
    ensures (m + b)[k := v] == m + b[k := v]
  {
  }

  lemma {:induction false} PutByNameOverlay(m: map<string, Object>, cols: seq<Column>, row: Row, n: nat)
    requires |row| == |cols| && n <= |cols|
    ensures PutByName(m, cols, row, n).Ok? <==> forall i :: 0 <= i < n ==> Resolves(cols, cols[i].name)
    ensures PutByName(m, cols, row, n).Ok? ==> PutByName(m, cols, row, n).value == m + ByName(cols, row, n)
  {
    if n > 0 {
      PutByNameOverlay(m, cols, row, n - 1);
      var r := PutByName(m, cols, row, n - 1);
      var name := cols[n - 1].name;
      if r.Err? {
        assert PutByName(m, cols, row, n) == Err(r.error);
        var j :| 0 <= j < n - 1 && !Resolves(cols, cols[j].name);
      } else if !Resolves(cols, name) {
        assert PutByName(m, cols, row, n) == Err(Sql(ColumnNotFound(name)));
      } else {
        var v := NullAsEmpty(Cell(cols, row, name));
        assert PutByName(m, cols, row, n) == Ok(r.value[name := v]);
        ByNameSnoc(cols, row, n);
        OverlayUpdate(m, ByName(cols, row, n - 1), name, v);
      }
    }
  }

  lemma {:induction false} SingleRecordLastRow(t: ResultTable, n: nat)
    requires n <= |t.rows|
    ensures SingleRecord(t, n).Ok? <==> n == 0 || NamesResolve(t.columns)
    ensures n == 0 ==> SingleRecord(t, n) == Ok(map[])
    ensures n > 0 && NamesResolve(t.columns) ==>
      SingleRecord(t, n) == Ok(ByName(t.columns, t.rows[n - 1], |t.columns|))
  {
    if n > 0 {
      SingleRecordLastRow(t, n - 1);
      var cols := t.columns;
      var r := SingleRecord(t, n - 1);
      if r.Ok? {
        assert SingleRecord(t, n) == PutByName(r.value, cols, t.rows[n - 1], |cols|);
        PutByNameOverlay(r.value, cols, t.rows[n - 1], |cols|);
        if NamesResolve(cols) {
          var last := ByName(cols, t.rows[n - 1], |cols|);
          if n > 1 {
            ByNameKeys(cols, t.rows[n - 2], t.rows[n - 1]);
          }
          OverlayCovered(r.value, last);
        }
      } else {
        assert SingleRecord(t, n) == Err(r.error);
      }
    }
  }

  /** Every row read by name has the column names as its keys. */
  lemma ByNameKeys(cols: seq<Column>, row: Row, row': Row)
    requires |row| == |row'| == |cols|
    ensures ByName(cols, row, |cols|).Keys == ByName(cols, row', |cols|).Keys
  {
  }

  /** Overlaying a map whose keys cover the first one leaves just the overlay. */
  lemma OverlayCovered<K, V>(a: map<K, V>, b: map<K, V>)
    requires a == map[] || a.Keys == b.Keys
    ensures a + b == b
  {
  }

  /** Column `i` is labelled with its own name (ignoring case), and no earlier column carries
      that label, so `getObject(getColumnName(i))` reads column `i` itself. */
  predicate OwnLabel(cols: seq<Column>, i: nat)
    requires i < |cols|
  {
    Labels(cols[i], cols[i].name) && forall j :: 0 <= j < i ==> !Labels(cols[j], cols[i].name)
  }

  lemma CellAtOwnLabel(cols: seq<Column>, row: Row, i: nat)
    requires |row| == |cols| && i < |cols| && OwnLabel(cols, i)
    ensures Cell(cols, row, cols[i].name) == row[i]
  {
    CellAtFoundColumn(cols, row, cols[i].name);
  }

  /** `m` is the map one row read by name produces: every column name is a key, no value is
      NULL, and each column labelled with its own name has its value there, NULL read as `""`. */
  predicate NameRecord(m: map<string, Object>, cols: seq<Column>, row: Row)
    requires |row| == |cols|
  {
    m.Keys == NamesOf(cols) &&
    (forall k :: k in m ==> m[k] != Null) &&
    forall i {:trigger OwnLabel(cols, i)} :: 0 <= i < |cols| && OwnLabel(cols, i) ==>
      m[cols[i].name] == NullAsEmpty(row[i])
  }

  /** The untyped single-row query over a non-empty table whose column names are all labels:
      every column name, each mapped to the last row's value under that name, never a NULL.
      The empty and the failing cases are `SingleRecordLastRow`'s. */
  lemma SingleRecordMeaning(t: ResultTable)
    requires t.rows != [] && NamesResolve(t.columns)
    ensures SingleRecord(t, |t.rows|).Ok?
    ensures NameRecord(SingleRecord(t, |t.rows|).value, t.columns, t.rows[|t.rows| - 1])
  {
    SingleRecordLastRow(t, |t.rows|);
    ByNameMeaning(t.columns, t.rows[|t.rows| - 1]);
  }

  lemma ByNameMeaning(cols: seq<Column>, row: Row)
    requires |row| == |cols|
    ensures NameRecord(ByName(cols, row, |cols|), cols, row)
  {
    assert cols[..|cols|] == cols;
    forall i | 0 <= i < |cols| && OwnLabel(cols, i)
      ensures cols[i].name in NamesOf(cols) && NullAsEmpty(Cell(cols, row, cols[i].name)) == NullAsEmpty(row[i])
    {
      CellAtOwnLabel(cols, row, i);
    }
  }

  // ---------------------------------------------------------------------------------------
  // queryResultSet(sql, params): one map per row, keyed by catalog name

  /** A NULL value is stored under the key `""`; the value itself stays NULL. */
  function KeyFor(catalog: string, x: Object): string {
    if x.Null? then "" else catalog
  }

  /** The value `getObject(getCatalogName(i))` reads from `row`. */
  function CatalogValue(cols: seq<Column>, row: Row, i: nat): Object
    requires |row| == |cols| && i < |cols|
  {
    Cell(cols, row, cols[i].catalog)
  }

  /** The key column `i` is stored under. */
  function CatalogKey(cols: seq<Column>, row: Row, i: nat): string
    requires |row| == |cols| && i < |cols|
  {
    KeyFor(cols[i].catalog, CatalogValue(cols, row, i))
  }

  predicate CatalogResolves(cols: seq<Column>, i: nat)
    requires i < |cols|
  {
    Resolves(cols, cols[i].catalog)
  }

  predicate CatalogsResolve(cols: seq<Column>) {
    forall i :: 0 <= i < |cols| ==> CatalogResolves(cols, i)
  }

  /** The keys that the first `n` columns of `row` put into its map. */
  function CatalogKeys(cols: seq<Column>, row: Row, n: nat): set<string>
    requires |row| == |cols| && n <= |cols|
  {
    set i | 0 <= i < n :: CatalogKey(cols, row, i)
  }

  function PutByCatalog(m: map<string, Object>, cols: seq<Column>, row: Row, n: nat): Result<map<string, Object>, Error>
    requires |row| == |cols| && n <= |cols|
  {
    if n == 0 then Ok(m)
    else
      var m' :- PutByCatalog(m, cols, row, n - 1);
      var x :- ColumnValue(cols, row, cols[n - 1].catalog);
      Ok(m'[KeyFor(cols[n - 1].catalog, x) := x])
  }

  /** Each row starts from a new, empty map. */
  function CatalogRecord(cols: seq<Column>, row: Row): Result<map<string, Object>, Error>
    requires |row| == |cols|
  {
    PutByCatalog(map[], cols, row, |cols|)
  }

  function CatalogRecords(t: ResultTable, n: nat): Result<seq<map<string, Object>>, Error>
    requires n <= |t.rows|
  {
    if n == 0 then Ok([])
    else
      var list :- CatalogRecords(t, n - 1);
      var m :- CatalogRecord(t.columns, t.rows[n - 1]);
      Ok(list + [m])
  }

  /** Column `i` holds a value and a non-empty catalog name, so it is stored under that name. */
  predicate KeptUnderCatalog(cols: seq<Column>, row: Row, i: nat)
    requires |row| == |cols| && i < |cols|
  {
    cols[i].catalog != "" && CatalogValue(cols, row, i) != Null
  }

  predicate CatalogsNonEmpty(cols: seq<Column>, n: nat)
    requires n <= |cols|
  {
    forall i :: 0 <= i < n ==> cols[i].catalog != ""
  }

  /** Unfolds one step of `PutByCatalog`. */
  lemma PutByCatalogStep(m: map<string, Object>, cols: seq<Column>, row: Row, n: nat)
    requires |row| == |cols| && 0 < n <= |cols|
    ensures var r := PutByCatalog(m, cols, row, n - 1);
      PutByCatalog(m, cols, row, n) ==
        if r.Err? then Err(r.error)
        else if !CatalogResolves(cols, n - 1) then Err(Sql(ColumnNotFound(cols[n - 1].catalog)))
        else Ok(r.value[CatalogKey(cols, row, n - 1) := CatalogValue(cols, row, n - 1)])
  {
  }

  lemma {:induction false} PutByCatalogOk(m: map<string, Object>, cols: seq<Column>, row: Row, n: nat)
    requires |row| == |cols| && n <= |cols|
    ensures PutByCatalog(m, cols, row, n).Ok? <==> forall i :: 0 <= i < n ==> CatalogResolves(cols, i)
  {
    if n > 0 {
      PutByCatalogStep(m, cols, row, n);
      PutByCatalogOk(m, cols, row, n - 1);
    }
  }

  lemma {:induction false} PutByCatalogKeys(m: map<string, Object>, cols: seq<Column>, row: Row, n: nat)
    requires |row| == |cols| && n <= |cols|
    ensures PutByCatalog(m, cols, row, n).Ok? ==>
      PutByCatalog(m, cols, row, n).value.Keys == m.Keys + CatalogKeys(cols, row, n)
  {
    if n > 0 {
      PutByCatalogStep(m, cols, row, n);
      PutByCatalogKeys(m, cols, row, n - 1);
      CatalogKeysSnoc(cols, row, n);
    }
  }

  lemma {:induction false} PutByCatalogValues(m: map<string, Object>, cols: seq<Column>, row: Row, n: nat)
    requires |row| == |cols| && n <= |cols|
    ensures PutByCatalog(m, cols, row, n).Ok? ==>
      var r := PutByCatalog(m, cols, row, n).value;
      forall i {:trigger KeptUnderCatalog(cols, row, i)} :: 0 <= i < n && KeptUnderCatalog(cols, row, i) ==>
        cols[i].catalog in r && r[cols[i].catalog] == CatalogValue(cols, row, i)
  {
    if n > 0 {
      PutByCatalogStep(m, cols, row, n);
      PutByCatalogValues(m, cols, row, n - 1);
      var r := PutByCatalog(m, cols, row, n);
      if r.Ok? {
        var k, x := CatalogKey(cols, row, n - 1), CatalogValue(cols, row, n - 1);
        forall i | 0 <= i < n && KeptUnderCatalog(cols, row, i)
          ensures cols[i].catalog in r.value && r.value[cols[i].catalog] == CatalogValue(cols, row, i)
        {
          if i < n - 1 && cols[i].catalog == k {
            assert cols[n - 1].catalog == cols[i].catalog;
          }
        }
      }
    }
  }

  lemma {:induction false} PutByCatalogEmptyKey(m: map<string, Object>, cols: seq<Column>, row: Row, n: nat)
    requires |row| == |cols| && n <= |cols|
    requires CatalogsNonEmpty(cols, n) && ("" in m ==> m[""] == Null)
    ensures PutByCatalog(m, cols, row, n).Ok? && "" in PutByCatalog(m, cols, row, n).value ==>
      PutByCatalog(m, cols, row, n).value[""] == Null
  {
    if n > 0 {
      PutByCatalogStep(m, cols, row, n);
      assert CatalogsNonEmpty(cols, n - 1);
      PutByCatalogEmptyKey(m, cols, row, n - 1);
    }
  }

  lemma CatalogKeysSnoc(cols: seq<Column>, row: Row, n: nat)
    requires |row| == |cols| && 0 < n <= |cols|
    ensures CatalogKeys(cols, row, n) == CatalogKeys(cols, row, n - 1) + {CatalogKey(cols, row, n - 1)}
  {
  }

  /** One row of the untyped list query: built only when every catalog name is a column
      label; a column with a value is stored under its catalog name, and a NULL column under
      the key `""` with the NULL kept. */
  lemma CatalogRecordMeaning(cols: seq<Column>, row: Row)
    requires |row| == |cols|
    ensures CatalogRecord(cols, row).Ok? <==> CatalogsResolve(cols)
    ensures CatalogRecord(cols, row).Ok? ==>
      var r := CatalogRecord(cols, row).value;
      r.Keys == CatalogKeys(cols, row, |cols|) &&
      (forall i {:trigger KeptUnderCatalog(cols, row, i)} :: 0 <= i < |cols| && KeptUnderCatalog(cols, row, i) ==>
        cols[i].catalog in r && r[cols[i].catalog] == CatalogValue(cols, row, i)) &&
      (CatalogsNonEmpty(cols, |cols|) && "" in r ==> r[""] == Null)
  {
    PutByCatalogOk(map[], cols, row, |cols|);
    PutByCatalogKeys(map[], cols, row, |cols|);
    PutByCatalogValues(map[], cols, row, |cols|);
    if CatalogsNonEmpty(cols, |cols|) {
      PutByCatalogEmptyKey(map[], cols, row, |cols|);
    }
  }

  /** The untyped list query: one map per row, in cursor order. */
  lemma {:induction false} CatalogRecordsPerRow(t: ResultTable, n: nat)
    requires n <= |t.rows|
    ensures CatalogRecords(t, n).Ok? <==> n == 0 || CatalogsResolve(t.columns)
    ensures CatalogRecords(t, n).Ok? ==>
      var list := CatalogRecords(t, n).value;
      |list| == n && forall i :: 0 <= i < n ==> CatalogRecord(t.columns, t.rows[i]) == Ok(list[i])
  {
    if n > 0 {
      CatalogRecordsPerRow(t, n - 1);
      CatalogRecordMeaning(t.columns, t.rows[n - 1]);
    }
  }

  // ---------------------------------------------------------------------------------------
  // querySingleResult(sql, params, cls) and queryResultSet(sql, params, cls)

  function CatalogsOf(cols: seq<Column>): set<string> {
    set i | 0 <= i < |cols| :: cols[i].catalog
  }

  /** `getDeclaredField(name).set(obj, value)` for the first `n` columns, where `name` is the
      column's catalog name, or `""` when its value is NULL. */
  function AssignColumns(cls: JClass, obj: map<string, Object>, cols: seq<Column>, row: Row, n: nat): Result<map<string, Object>, Error>
    requires |row| == |cols| && n <= |cols|
  {
    if n == 0 then Ok(obj)
    else
      var o :- AssignColumns(cls, obj, cols, row, n - 1);
      var x :- ColumnValue(cols, row, cols[n - 1].catalog);
      SetField(cls, o, KeyFor(cols[n - 1].catalog, x), x)
  }

  /** A new instance per row, then every column assigned. */
  function BuildObject(cls: JClass, cols: seq<Column>, row: Row): Result<map<string, Object>, Error>
    requires |row| == |cols|
  {
    if !cls.instantiable then Err(Instantiation)
    else AssignColumns(cls, cls.init, cols, row, |cols|)
  }

  /** Column `i` can be assigned: its catalog name is a label, its value is not NULL, and a
      declared field of that name takes the value. */
  predicate Assignable(cls: JClass, cols: seq<Column>, row: Row, i: nat)
    requires |row| == |cols| && i < |cols|
  {
    var c := cols[i].catalog;
    Resolves(cols, c) && Cell(cols, row, c) != Null &&
    c in cls.fields && Accepts(cls.fields[c], Cell(cols, row, c))
  }

  function TypedSingle(cls: JClass, t: ResultTable, n: nat): Result<Option<map<string, Object>>, Error>
    requires n <= |t.rows|
  {
    if n == 0 then Ok(None)
    else
      var _ :- TypedSingle(cls, t, n - 1);
      var o :- BuildObject(cls, t.columns, t.rows[n - 1]);
      Ok(Some(o))
  }

  function TypedList(cls: JClass, t: ResultTable, n: nat): Result<seq<map<string, Object>>, Error>
    requires n <= |t.rows|
  {
    if n == 0 then Ok([])
    else
      var list :- TypedList(cls, t, n - 1);
      var o :- BuildObject(cls, t.columns, t.rows[n - 1]);
      Ok(list + [o])
  }

  lemma CatalogsOfSnoc(cols: seq<Column>, n: nat)
    requires 0 < n <= |cols|
    ensures CatalogsOf(cols[..n]) == CatalogsOf(cols[..n - 1]) + {cols[n - 1].catalog}
  {
  }

  /** Unfolds one step of `AssignColumns`. */
  lemma AssignColumnsStep(cls: JClass, obj: map<string, Object>, cols: seq<Column>, row: Row, n: nat)
    requires |row| == |cols| && 0 < n <= |cols|
    ensures var r := AssignColumns(cls, obj, cols, row, n - 1);
      AssignColumns(cls, obj, cols, row, n) ==
        if r.Err? then Err(r.error)
        else if !CatalogResolves(cols, n - 1) then Err(Sql(ColumnNotFound(cols[n - 1].catalog)))
        else SetField(cls, r.value, CatalogKey(cols, row, n - 1), CatalogValue(cols, row, n - 1))
  {
  }

  /** Assigning column `i` onto `o` succeeds exactly when the column is assignable. */
  lemma AssignColumnOk(cls: JClass, o: map<string, Object>, cols: seq<Column>, row: Row, i: nat)
    requires cls.Valid() && |row| == |cols| && i < |cols| && CatalogResolves(cols, i)
    ensures SetField(cls, o, CatalogKey(cols, row, i), CatalogValue(cols, row, i)).Ok? <==>
      Assignable(cls, cols, row, i)
  {
    var k, x := CatalogKey(cols, row, i), CatalogValue(cols, row, i);
    assert x.Null? ==> k !in cls.fields;
    SetFieldMeaning(cls, o, k, x);
  }

  lemma {:induction false} AssignColumnsOk(cls: JClass, obj: map<string, Object>, cols: seq<Column>, row: Row, n: nat)
    requires cls.Valid() && |row| == |cols| && n <= |cols|
    ensures AssignColumns(cls, obj, cols, row, n).Ok? <==> forall i :: 0 <= i < n ==> Assignable(cls, cols, row, i)
  {
    if n > 0 {
      AssignColumnsStep(cls, obj, cols, row, n);
      AssignColumnsOk(cls, obj, cols, row, n - 1);
      var r := AssignColumns(cls, obj, cols, row, n - 1);
      if r.Err? {
        assert AssignColumns(cls, obj, cols, row, n).Err?;
        var j :| 0 <= j < n - 1 && !Assignable(cls, cols, row, j);
      } else if !CatalogResolves(cols, n - 1) {
        assert AssignColumns(cls, obj, cols, row, n).Err?;
        assert !Assignable(cls, cols, row, n - 1);
      } else {
        AssignColumnOk(cls, r.value, cols, row, n - 1);
        assert AssignColumns(cls, obj, cols, row, n).Ok? <==> Assignable(cls, cols, row, n - 1);
        assert forall i :: 0 <= i < n - 1 ==> Assignable(cls, cols, row, i);
      }
    }
  }

  lemma {:induction false} AssignColumnsFields(cls: JClass, obj: map<string, Object>, cols: seq<Column>, row: Row, n: nat)
    requires cls.Valid() && |row| == |cols| && n <= |cols|
    ensures AssignColumns(cls, obj, cols, row, n).Ok? ==>
      var o := AssignColumns(cls, obj, cols, row, n).value;
      o.Keys == obj.Keys + CatalogsOf(cols[..n]) &&
      forall f :: f in o ==> o[f] == if f in CatalogsOf(cols[..n]) then Cell(cols, row, f) else obj[f]
  {
    if n > 0 {
      AssignColumnsStep(cls, obj, cols, row, n);
      AssignColumnsFields(cls, obj, cols, row, n - 1);
      CatalogsOfSnoc(cols, n);
    }
  }

  /** One typed row: built exactly when the class can be instantiated and every column can be
      assigned; then every declared field holds the value of the column named after it, or
      the value the constructor left there when no column is. */
  lemma BuildObjectMeaning(cls: JClass, cols: seq<Column>, row: Row)
    requires cls.Valid() && |row| == |cols|
    ensures BuildObject(cls, cols, row).Ok? <==>
      cls.instantiable && forall i :: 0 <= i < |cols| ==> Assignable(cls, cols, row, i)
    ensures BuildObject(cls, cols, row).Ok? ==>
      var o := BuildObject(cls, cols, row).value;
      o.Keys == cls.fields.Keys &&
      forall f :: f in o ==> o[f] == if f in CatalogsOf(cols) then Cell(cols, row, f) else cls.init[f]
  {
    if cls.instantiable {
      AssignColumnsOk(cls, cls.init, cols, row, |cols|);
      AssignColumnsFields(cls, cls.init, cols, row, |cols|);
      assert cols[..|cols|] == cols;
      var r := BuildObject(cls, cols, row);
      if r.Ok? {
        forall f | f in CatalogsOf(cols) ensures f in cls.fields {
          var i :| 0 <= i < |cols| && cols[i].catalog == f;
          assert Assignable(cls, cols, row, i);
        }
      }
    }
  }

  /** A typed row fails when a column's catalog name is not a declared field, and whenever a
      column value is NULL, since the field looked up is then `""`. */
  lemma TypedRowFails(cls: JClass, cols: seq<Column>, row: Row, i: nat)
    requires cls.Valid() && |row| == |cols| && i < |cols|
    requires cols[i].catalog !in cls.fields || Cell(cols, row, cols[i].catalog) == Null
    ensures BuildObject(cls, cols, row).Err?
  {
    BuildObjectMeaning(cls, cols, row);
    assert !Assignable(cls, cols, row, i);
  }

  /** The typed single-row query: null when there are no rows; otherwise it succeeds exactly
      when every row can be built, and returns the object built from the last row. */
  lemma {:induction false} TypedSingleLastRow(cls: JClass, t: ResultTable, n: nat)
    requires n <= |t.rows|
    ensures TypedSingle(cls, t, n).Ok? <==>
      forall i :: 0 <= i < n ==> BuildObject(cls, t.columns, t.rows[i]).Ok?
    ensures n == 0 ==> TypedSingle(cls, t, n) == Ok(None)
    ensures n > 0 && TypedSingle(cls, t, n).Ok? ==>
      TypedSingle(cls, t, n) == Ok(Some(BuildObject(cls, t.columns, t.rows[n - 1]).value))
  {
    if n > 0 {
      TypedSingleLastRow(cls, t, n - 1);
    }
  }

  /** The typed list query: one object per row, in cursor order, and nothing unless every row
      can be built. */
  lemma {:induction false} TypedListPerRow(cls: JClass, t: ResultTable, n: nat)
    requires n <= |t.rows|
    ensures TypedList(cls, t, n).Ok? <==>
      forall i :: 0 <= i < n ==> BuildObject(cls, t.columns, t.rows[i]).Ok?
    ensures TypedList(cls, t, n).Ok? ==>
      var list := TypedList(cls, t, n).value;
      |list| == n && forall i :: 0 <= i < n ==> BuildObject(cls, t.columns, t.rows[i]) == Ok(list[i])
  {
    if n > 0 {
      TypedListPerRow(cls, t, n - 1);
    }
  }

  // ---------------------------------------------------------------------------------------
  // An exception ends each fold: once a prefix fails, every longer prefix fails the same way.

  lemma {:induction false} PutByNameFails(m: map<string, Object>, cols: seq<Column>, row: Row, i: nat, n: nat)
    requires |row| == |cols| && i <= n <= |cols| && PutByName(m, cols, row, i).Err?
    ensures PutByName(m, cols, row, n) == PutByName(m, cols, row, i)
  {
    if n > i {
      PutByNameFails(m, cols, row, i, n - 1);
    }
  }

  lemma {:induction false} SingleRecordFails(t: ResultTable, i: nat, n: nat)
    requires i <= n <= |t.rows| && SingleRecord(t, i).Err?
    ensures SingleRecord(t, n) == SingleRecord(t, i)
  {
    if n > i {
      SingleRecordFails(t, i, n - 1);
    }
  }

  lemma {:induction false} PutByCatalogFails(m: map<string, Object>, cols: seq<Column>, row: Row, i: nat, n: nat)
    requires |row| == |cols| && i <= n <= |cols| && PutByCatalog(m, cols, row, i).Err?
    ensures PutByCatalog(m, cols, row, n) == PutByCatalog(m, cols, row, i)
  {
    if n > i {
      PutByCatalogFails(m, cols, row, i, n - 1);
    }
  }

  lemma {:induction false} CatalogRecordsFail(t: ResultTable, i: nat, n: nat)
    requires i <= n <= |t.rows| && CatalogRecords(t, i).Err?
    ensures CatalogRecords(t, n) == CatalogRecords(t, i)
  {
    if n > i {
      CatalogRecordsFail(t, i, n - 1);
    }
  }

  lemma {:induction false} AssignColumnsFails(cls: JClass, obj: map<string, Object>, cols: seq<Column>, row: Row, i: nat, n: nat)
    requires |row| == |cols| && i <= n <= |cols| && AssignColumns(cls, obj, cols, row, i).Err?
    ensures AssignColumns(cls, obj, cols, row, n) == AssignColumns(cls, obj, cols, row, i)
  {
    if n > i {
      AssignColumnsFails(cls, obj, cols, row, i, n - 1);
    }
  }

  lemma {:induction false} TypedSingleFails(cls: JClass, t: ResultTable, i: nat, n: nat)
    requires i <= n <= |t.rows| && TypedSingle(cls, t, i).Err?
    ensures TypedSingle(cls, t, n) == TypedSingle(cls, t, i)
  {
    if n > i {
      TypedSingleFails(cls, t, i, n - 1);
    }
  }

  lemma {:induction false} TypedListFails(cls: JClass, t: ResultTable, i: nat, n: nat)
    requires i <= n <= |t.rows| && TypedList(cls, t, i).Err?
    ensures TypedList(cls, t, n) == TypedList(cls, t, i)
  {
    if n > i {
      TypedListFails(cls, t, i, n - 1);
    }
  }

  /** A row `{id: 7, name: "Ana"}` read into a class with fields `id` and `name`: since the
      fields are looked up by catalog name, the row maps only when the driver reports each
      column's own name as its catalog; with the catalog `mydb` it fails. */
  lemma CatalogNameExample()
    ensures var cls := PlainClass(map["id" := IntField, "name" := StringField], true);
      var row := [Ref(IntValue(7)), Ref(StringValue("Ana"))];
      BuildObject(cls, [Column("id", "id", "mydb"), Column("name", "name", "mydb")], row)
        == Err(Sql(ColumnNotFound("mydb"))) &&
      BuildObject(cls, [Column("id", "id", "id"), Column("name", "name", "name")], row)
        == Ok(map["id" := Ref(IntValue(7)), "name" := Ref(StringValue("Ana"))])
  {
    var cls := PlainClass(map["id" := IntField, "name" := StringField], true);
    var row := [Ref(IntValue(7)), Ref(StringValue("Ana"))];
    var obj := cls.init;
    assert obj == map["id" := Ref(IntValue(0)), "name" := Null] by {
      assert obj.Keys == {"id", "name"};
    }
    CatalogMismatch(cls, obj, row);
    CatalogMatch(cls, obj, row);
  }

  lemma CatalogMismatch(cls: JClass, obj: map<string, Object>, row: Row)
    requires |row| == 2
    ensures AssignColumns(cls, obj, [Column("id", "id", "mydb"), Column("name", "name", "mydb")], row, 2)
      == Err(Sql(ColumnNotFound("mydb")))
  {
    var bad := [Column("id", "id", "mydb"), Column("name", "name", "mydb")];
    assert !Resolves(bad, "mydb") by {
      assert LowerAscii('n') != LowerAscii('m');
      assert !Labels(bad[0], "mydb") && !Labels(bad[1], "mydb");
    }
    AssignColumnsStep(cls, obj, bad, row, 1);
    AssignColumnsStep(cls, obj, bad, row, 2);
    assert AssignColumns(cls, obj, bad, row, 1) == Err(Sql(ColumnNotFound("mydb")));
  }

  lemma CatalogMatch(cls: JClass, obj: map<string, Object>, row: Row)
    requires |row| == 2 && cls.fields == map["id" := IntField, "name" := StringField]
    requires row == [Ref(IntValue(7)), Ref(StringValue("Ana"))]
    requires obj == map["id" := Ref(IntValue(0)), "name" := Null]
    ensures AssignColumns(cls, obj, [Column("id", "id", "id"), Column("name", "name", "name")], row, 2)
      == Ok(map["id" := Ref(IntValue(7)), "name" := Ref(StringValue("Ana"))])
  {
    var good := [Column("id", "id", "id"), Column("name", "name", "name")];
    assert Labels(good[0], "id") && Labels(good[1], "name");
    assert !Labels(good[0], "name");
    assert Cell(good, row, "id") == row[0];
    assert Cell(good, row, "name") == row[1];
    assert Resolves(good, "id") && Resolves(good, "name");
    AssignColumnsStep(cls, obj, good, row, 1);
    AssignColumnsStep(cls, obj, good, row, 2);
    assert AssignColumns(cls, obj, good, row, 1) == Ok(obj["id" := row[0]]);
    assert obj["id" := row[0]]["name" := row[1]] == map["id" := Ref(IntValue(7)), "name" := Ref(StringValue("Ana"))];
  }

  /** `class User { int id; String status = "active"; }` queried with `SELECT id` (catalog
      `id`): the field no column names keeps the value its initialiser gave it. */
  lemma InitialiserExample()
    ensures var cls := JClass(map["id" := IntField, "status" := StringField],
        map["id" := Ref(IntValue(0)), "status" := Ref(StringValue("active"))], true);
      BuildObject(cls, [Column("id", "id", "id")], [Ref(IntValue(7))])
        == Ok(map["id" := Ref(IntValue(7)), "status" := Ref(StringValue("active"))])
  {
    var cls := JClass(map["id" := IntField, "status" := StringField],
      map["id" := Ref(IntValue(0)), "status" := Ref(StringValue("active"))], true);
    var cols, row := [Column("id", "id", "id")], [Ref(IntValue(7))];
    assert Labels(cols[0], "id");
    assert Resolves(cols, "id") && Cell(cols, row, "id") == row[0];
    AssignColumnsStep(cls, cls.init, cols, row, 1);
    assert cls.init["id" := row[0]] == map["id" := Ref(IntValue(7)), "status" := Ref(StringValue("active"))];
  }

  /** `SELECT id AS ID`: the label differs from the column name only in case, and the getter
      still finds the column, so the untyped single query maps `id` to the value. */
  lemma LabelCaseExample()
    ensures var t: ResultTable := Table([Column("id", "ID", "mydb")], [[Ref(IntValue(7))]]);
      SingleRecord(t, 1) == Ok(map["id" := Ref(IntValue(7))])
  {
    var t: ResultTable := Table([Column("id", "ID", "mydb")], [[Ref(IntValue(7))]]);
    var cols, row := t.columns, t.rows[0];
    assert EqualIgnoringCase("ID", "id") by {
      assert EqualIgnoringCase("ID"[1..][1..], "id"[1..][1..]);
      assert LowerAscii('I') == LowerAscii('i') && LowerAscii('D') == LowerAscii('d');
    }
    assert Labels(cols[0], "id");
    assert Resolves(cols, "id");
    assert ColumnValue(cols, row, "id") == Ok(Ref(IntValue(7)));
    assert PutByName(map[], cols, row, 1) == Ok(map["id" := Ref(IntValue(7))]);
  }
}
