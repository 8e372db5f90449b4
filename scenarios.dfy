/** Worked examples that tie the pieces together on concrete rows: a dict row
    with a padded value, going through `__to_dict`,
    `__check_modelkeys` and `insert_ignore`. */
module Scenarios {
  import opened Text
  import opened Rows
  import opened Partition
  import opened Upsert
  import opened InsertIgnore

  /** `{'date': '2024-01-01', 'product_id': 5, 'value': ' 3.5 '}`. */
  const ExampleEntries: seq<(Key, Value)> :=
    [(Plain("date"), Str("2024-01-01")), (Plain("product_id"), Other(5)), (Plain("value"), Str(" 3.5 "))]
  const ExampleRaw: Record := map["date" := Str("2024-01-01"), "product_id" := Other(5), "value" := Str(" 3.5 ")]
  const ExampleClean: Record := map["date" := Str("2024-01-01"), "product_id" := Other(5), "value" := Str("3.5")]

  /** The cause fields `[Model.date, Model.product_id]`. */
  const ExampleCause: seq<Field> := [Field("date", "date"), Field("product_id", "product_id")]

  lemma ExampleDict()
    ensures ToMap(Named(ExampleEntries, false)) == ExampleRaw
  {
    var pairs := Named(ExampleEntries, false);
    assert pairs == [("date", Str("2024-01-01")), ("product_id", Other(5)), ("value", Str(" 3.5 "))];
    assert pairs[..2][..1] == pairs[..1];
    assert pairs[..1][..0] == [];
    assert ToMap(pairs[..1]) == map["date" := Str("2024-01-01")];
    assert ToMap(pairs[..2]) == map["date" := Str("2024-01-01"), "product_id" := Other(5)];
  }

  /** `'2024-01-01'` is kept and `' 3.5 '` loses its padding. */
  lemma ExampleValuesCleaned()
    ensures CleanValue(Str("2024-01-01")) == Str("2024-01-01")
    ensures CleanValue(Str(" 3.5 ")) == Str("3.5")
  {
    StripUnpadded("2024-01-01");
    assert StrippedAt(" 3.5 ", 1, 4);
    StripUnique(" 3.5 ", 1, 4);
  }

  lemma ExampleCleaned()
    ensures CleanValues(ExampleRaw) == ExampleClean
  {
    ExampleValuesCleaned();
    var rest := map["date" := Str("2024-01-01"), "product_id" := Other(5)];
    assert IsClean(rest);
    CleanValuesFixed(rest);
    CleanValuesUpdate(rest, "value", Str(" 3.5 "));
  }

  /** The dict row normalises to the cleaned record, with either key flavour. */
  lemma ExampleRowNormalized()
    ensures ToDict(DictRow(ExampleEntries), [], true, false) == Ok(ExampleClean)
    ensures ToDict(DictRow(ExampleEntries), [], true, true) == Ok(ExampleClean)
  {
    assert !HasAttrKey(ExampleEntries);
    assert Named(ExampleEntries, true) == Named(ExampleEntries, false);
    ExampleDict();
    ExampleCleaned();
  }

  /** With cause fields `date` and `product_id`, the cleaned record splits
      into the lookup part and the value to write. */
  lemma ExamplePartition()
    ensures CheckModelKeys(ExampleClean, ExampleCause)
      == (map["date" := Str("2024-01-01"), "product_id" := Other(5)], map["value" := Str("3.5")])
  {
    assert ModelKeys(ExampleCause) == {"date", "product_id"} by {
      assert ExampleCause[0].key == "date" && ExampleCause[1].key == "product_id";
    }
    PartitionUnique(ExampleClean, ExampleCause,
                    map["date" := Str("2024-01-01"), "product_id" := Other(5)], map["value" := Str("3.5")]);
  }

  /** A table whose only columns are its primary key `id` and the unique
      `code`: the filtered upsert has nothing to update and sends nothing,
      while the unfiltered one rewrites both keys. */
  const KeyOnlyTable: seq<Column> := [Column("id", false, true), Column("code", true, false)]

  lemma ExampleKeyOnlyUpsert(rows: seq<Row>)
    requires forall i :: 0 <= i < |rows| ==> ToDict(rows[i], [], true, false).Ok?
    ensures PlanUpsert(rows, [], KeyOnlyTable, KeyOnlyTable, true) == Ok(None)
    ensures var r := PlanUpsert(rows, [], KeyOnlyTable, KeyOnlyTable, false);
      r.Ok? && r.value.Some? && r.value.value.updateColumns == {"id", "code"}
  {
    assert ColumnNames(KeyOnlyTable) == {"id", "code"} by {
      assert KeyOnlyTable[0].name == "id" && KeyOnlyTable[1].name == "code";
    }
    OnlyKeyColumnsIsNoOp(rows, [], KeyOnlyTable, KeyOnlyTable);
  }

  /** A table with a unique `column`: a record clashes with one already held
      when both carry the same non-`NULL` value there (a MySQL unique index
      admits any number of `NULL`s). Values are compared exactly, which
      simplifies MySQL's comparison under the column's collation (by default
      case-insensitive, so `'A'` and `'a'` would clash there). */
  function UniqueOn(column: string): Storage {
    (held: seq<Record>, record: Record) =>
      if column in record && record[column] != Null
         && exists h :: h in held && column in h && h[column] == record[column]
      then IntegrityFailure else Accepted
  }

  /** A record that is `NULL` in the unique column never clashes. */
  lemma UniqueOnNull(column: string, held: seq<Record>, record: Record)
    requires column in record && record[column] == Null
    ensures UniqueOn(column)(held, record) == Accepted
  {
  }

  /** A record that carries the unique column is accepted by an empty table
      and clashes with itself. */
  lemma UniqueOnSelf(column: string, record: Record)
    requires column in record && record[column] != Null
    ensures UniqueOn(column)([], record) == Accepted
    ensures UniqueOn(column)([record], record) == IntegrityFailure
  {
    assert record in [record];
  }

  /** `insert_ignore` of the same row twice into an empty table unique on a
      column the row carries: the first call stores the cleaned record and
      reports an insertion, the second is ignored and reports none. */
  method InsertTwice(row: Row, column: string)
    returns (first: Result<bool, InsertError>, second: Result<bool, InsertError>, stored: seq<Record>)
    requires ToDict(row, [], true, true).Ok? && column in ToDict(row, [], true, true).value
    requires ToDict(row, [], true, true).value[column] != Null
    ensures first == Ok(true) && second == Ok(false)
    ensures stored == [ToDict(row, [], true, true).value]
  {
    var record := ToDict(row, [], true, true).value;
    UniqueOnSelf(column, record);
    var db := new Database([]);
    var storage := UniqueOn(column);
    first := db.InsertIgnoreOne(row, [], storage);
    assert db.committed + db.pending == [record];
    second := db.InsertIgnoreOne(row, [], storage);
    stored := db.committed;
  }

  /** The same row inserted twice when its unique column cleans to `NULL`:
      both calls insert, and the record is stored twice. */
  method InsertNullTwice(row: Row, column: string)
    returns (first: Result<bool, InsertError>, second: Result<bool, InsertError>, stored: seq<Record>)
    requires ToDict(row, [], true, true).Ok? && column in ToDict(row, [], true, true).value
    requires ToDict(row, [], true, true).value[column] == Null
    ensures first == Ok(true) && second == Ok(true)
    ensures stored == [ToDict(row, [], true, true).value, ToDict(row, [], true, true).value]
  {
    var record := ToDict(row, [], true, true).value;
    UniqueOnNull(column, [], record);
    UniqueOnNull(column, [record], record);
    var db := new Database([]);
    var storage := UniqueOn(column);
    first := db.InsertIgnoreOne(row, [], storage);
    assert db.committed + db.pending == [record];
    second := db.InsertIgnoreOne(row, [], storage);
    stored := db.committed;
  }

  /** The example row, inserted twice into a table unique on `product_id`. */
  method InsertExampleTwice() returns (first: Result<bool, InsertError>, second: Result<bool, InsertError>,
                                       stored: seq<Record>)
    ensures first == Ok(true) && second == Ok(false)
    ensures stored == [ExampleClean]
  {
    ExampleRowNormalized();
    first, second, stored := InsertTwice(DictRow(ExampleEntries), "product_id");
  }
}
