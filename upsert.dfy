/** The statement `DB.upsert` builds: one multi-row `INSERT` with an
    `ON DUPLICATE KEY UPDATE` clause, and the choice of the columns that
    clause updates. Both versions are here: the current one, which can drop
    unique and primary-key columns and then skips a call with nothing left
    to update, and the older one, which updates every column. */
module Upsert {
  import opened Rows

  /** A column of the table, with the two flags the filter reads
      (`c.unique is True`, `c.primary_key is True`). */
  datatype Column = Column(name: string, unique: bool, primaryKey: bool)

  /** `INSERT INTO t VALUES <values> ON DUPLICATE KEY UPDATE c = VALUES(c), ...`
      for every name `c` in `updateColumns`. Each update takes the column of
      the same name from the statement's `inserted` namespace, so the names
      determine the clause. */
  datatype UpsertStatement = UpsertStatement(values: seq<Record>, updateColumns: set<string>)

  /** Some column of the mapper has this name and is neither unique nor
      part of the primary key. */
  predicate Updatable(mapperColumns: seq<Column>, name: string) {
    exists c :: c in mapperColumns && c.name == name && !c.unique && !c.primaryKey
  }

  function ColumnNames(columns: seq<Column>): set<string> {
    set x | x in columns :: x.name
  }

  /** The keys of `update_dict`. `inserted` are the columns of
      `stmt.inserted`, that is every column of the table (not only those the
      rows carry); `mapperColumns` are the columns of the mapped class's
      mapper. */
  function UpdateColumns(inserted: seq<Column>, mapperColumns: seq<Column>, filterUniquePrimaryKeys: bool)
    : (r: set<string>)
    ensures r <= ColumnNames(inserted)
    ensures filterUniquePrimaryKeys ==> forall n :: n in r <==> n in ColumnNames(inserted) && Updatable(mapperColumns, n)
    ensures !filterUniquePrimaryKeys ==> r == ColumnNames(inserted)
  {
    if filterUniquePrimaryKeys then
      set x, c | x in inserted && c in mapperColumns && x.name == c.name && !c.unique && !c.primaryKey :: x.name
    else
      ColumnNames(inserted)
  }

  /** What `DB.upsert(t, rows, mfields, filter_unque_primary_keys=...)` sends
      to the database: a row that does not normalise raises before anything
      else; with no column left to update the call returns without a
      statement (`Ok(None)`). */
  function PlanUpsert(rows: seq<Row>, mfields: seq<Field>, inserted: seq<Column>, mapperColumns: seq<Column>,
                      filterUniquePrimaryKeys: bool)
    : (r: Result<Option<UpsertStatement>, RowError>)
    ensures r.Err? <==> exists i :: 0 <= i < |rows| && ToDict(rows[i], mfields, true, false).Err?
    ensures r.Err? ==> exists i :: (0 <= i < |rows| && ToDict(rows[i], mfields, true, false) == Err(r.error)
      && forall j :: 0 <= j < i ==> ToDict(rows[j], mfields, true, false).Ok?)
    ensures r.Ok? ==> (r.value.None? <==> UpdateColumns(inserted, mapperColumns, filterUniquePrimaryKeys) == {})
    ensures r.Ok? && r.value.Some? ==>
      var s := r.value.value;
      && |s.values| == |rows|
      && (forall i :: 0 <= i < |rows| ==> ToDict(rows[i], mfields, true, false) == Ok(s.values[i]))
      && s.updateColumns == UpdateColumns(inserted, mapperColumns, filterUniquePrimaryKeys)
      && s.updateColumns != {}
      && (filterUniquePrimaryKeys ==> forall n :: n in s.updateColumns ==> Updatable(mapperColumns, n))
  {
    match NormalizeAll(rows, mfields, true, false)
    case Err(e) => Err(e)
    case Ok(values) =>
      var columns := UpdateColumns(inserted, mapperColumns, filterUniquePrimaryKeys);
      if columns == {} then Ok(None) else Ok(Some(UpsertStatement(values, columns)))
  }

  /** The older `DB.upsert(t, rows, mfields)`: no filter and no emptiness
      check; every column of the table is updated, keys included. */
  function PlanLegacyUpsert(rows: seq<Row>, mfields: seq<Field>, inserted: seq<Column>)
    : (r: Result<UpsertStatement, RowError>)
    ensures r.Err? <==> exists i :: 0 <= i < |rows| && ToDict(rows[i], mfields, true, false).Err?
    ensures r.Err? ==> exists i :: (0 <= i < |rows| && ToDict(rows[i], mfields, true, false) == Err(r.error)
      && forall j :: 0 <= j < i ==> ToDict(rows[j], mfields, true, false).Ok?)
    ensures r.Ok? ==>
      && |r.value.values| == |rows|
      && (forall i :: 0 <= i < |rows| ==> ToDict(rows[i], mfields, true, false) == Ok(r.value.values[i]))
      && (forall x :: x in inserted ==> x.name in r.value.updateColumns)
      && r.value.updateColumns <= ColumnNames(inserted)
  {
    match NormalizeAll(rows, mfields, true, false)
    case Err(e) => Err(e)
    case Ok(values) => Ok(UpsertStatement(values, ColumnNames(inserted)))
  }

  /** Names that belong to one column each. */
  predicate DistinctColumnNames(columns: seq<Column>) {
    forall i, j :: 0 <= i < j < |columns| ==> columns[i].name != columns[j].name
  }

  /** With the filter on, a unique or primary-key column of the mapper is never
      updated (column names within a table are distinct). */
  lemma {:induction false} KeyColumnsNotUpdated(inserted: seq<Column>, mapperColumns: seq<Column>, c: Column)
    requires DistinctColumnNames(mapperColumns)
    requires c in mapperColumns && (c.unique || c.primaryKey)
    ensures c.name !in UpdateColumns(inserted, mapperColumns, true)
  {
    var i :| 0 <= i < |mapperColumns| && mapperColumns[i] == c;
    forall c' | c' in mapperColumns && c'.name == c.name
      ensures c' == c
    {
      var j :| 0 <= j < |mapperColumns| && mapperColumns[j] == c';
      assert j == i;
    }
  }

  /** With the filter off, the current `upsert` sends exactly the older
      version's statement, as long as the table has a column. */
  lemma {:induction false} UnfilteredIsLegacy(rows: seq<Row>, mfields: seq<Field>,
                                              inserted: seq<Column>, mapperColumns: seq<Column>)
    requires inserted != []
    ensures match PlanLegacyUpsert(rows, mfields, inserted)
      case Ok(s) => PlanUpsert(rows, mfields, inserted, mapperColumns, false) == Ok(Some(s))
      case Err(e) => PlanUpsert(rows, mfields, inserted, mapperColumns, false) == Err(e)
  {
    assert inserted[0].name in ColumnNames(inserted);
  }

  /** When every mapper column that shares a name with a table column is unique
      or a primary key, the filtered `upsert` returns before any statement is
      executed. */
  lemma {:induction false} OnlyKeyColumnsIsNoOp(rows: seq<Row>, mfields: seq<Field>,
                                                inserted: seq<Column>, mapperColumns: seq<Column>)
    requires forall i :: 0 <= i < |rows| ==> ToDict(rows[i], mfields, true, false).Ok?
    requires forall c :: c in mapperColumns && c.name in ColumnNames(inserted) ==> c.unique || c.primaryKey
    ensures PlanUpsert(rows, mfields, inserted, mapperColumns, true) == Ok(None)
  {
    assert UpdateColumns(inserted, mapperColumns, true) == {};
  }
}
