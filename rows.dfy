/** Row normalisation: `DB.clean_values` and `DB.__to_dict`, which turn every
    accepted row shape into one canonical dict from column name to cleaned
    value. */
module Rows {
  import opened Text

  datatype Option<+T> = None | Some(value: T)

  datatype Result<+T, +E> = Ok(value: T) | Err(error: E)

  /** A cell value: a Python `str`, `None`, or any other object (a number, a
      date, ...), which the helpers never look into. */
  datatype Value = Str(s: string) | Null | Other(code: int)

  /** A model attribute (an `InstrumentedAttribute`): `key` is its name on the
      mapped class, `name` the name of the table column behind it. */
  datatype Field = Field(key: string, name: string)

  /** A key of a dict row: a plain string or a model attribute. */
  datatype Key = Plain(text: string) | Attr(field: Field)

  /** The shapes `__to_dict` is given: a dict (its entries in insertion order),
      a list or tuple of values, a single string, or any other object. */
  datatype Row =
    | DictRow(entries: seq<(Key, Value)>)
    | ListRow(items: seq<Value>)
    | StrRow(text: string)
    | OtherRow

  /** The ways `__to_dict` fails:
      - UnknownRowType: the `RuntimeError("unknown type 'row'")` for a non-dict
        row without fields;
      - NotListOrStr: the `assert isinstance(row, (list, tuple, str))`;
      - LengthMismatch: the `assert len(mfields) == ...` of the list and string cases;
      - PlainKeyAmongAttributes: the `AttributeError` raised when a dict mixes
        attribute keys with plain string keys (a `str` has no `.key`/`.name`). */
  datatype RowError = UnknownRowType | NotListOrStr | LengthMismatch | PlainKeyAmongAttributes

  /** A canonical row. */
  type Record = map<string, Value>

  /** A value `clean_values` leaves alone: not a string that is empty or
      starts or ends with whitespace. */
  predicate IsCleanValue(v: Value) {
    v.Str? ==> v.s != [] && Unpadded(v.s)
  }

  predicate IsClean(d: Record) {
    forall k :: k in d ==> IsCleanValue(d[k])
  }

  /** One value of `clean_values`: `v.strip() or None` for a string, the value
      itself otherwise. */
  function CleanValue(v: Value): (r: Value)
    ensures IsCleanValue(r)
    ensures v.Str? ==> (r == Null <==> Blank(v.s))
    ensures v.Str? && !Blank(v.s) ==> r == Str(Strip(v.s))
    ensures !v.Str? ==> r == v
  {
    match v
    case Str(s) => var t := Strip(s); if t == [] then Null else Str(t)
    case _ => v
  }

  /** `clean_values`: the same keys, every value cleaned. */
  function CleanValues(d: Record): (r: Record)
    ensures r.Keys == d.Keys
    ensures forall k :: k in r ==> r[k] == CleanValue(d[k])
    ensures IsClean(r)
  {
    map k | k in d :: CleanValue(d[k])
  }

  /** `clean_values` works entry by entry: changing one entry of the input
      changes only that entry of the output. */
  lemma CleanValuesUpdate(d: Record, k: string, v: Value)
    ensures CleanValues(d[k := v]) == CleanValues(d)[k := CleanValue(v)]
  {
  }

  /** A clean value is a fixed point of cleaning. */
  lemma {:induction false} CleanValueFixed(v: Value)
    requires IsCleanValue(v)
    ensures CleanValue(v) == v
  {
    if v.Str? {
      StripUnpadded(v.s);
    }
  }

  /** `clean_values` is idempotent: a clean dict is returned unchanged, so
      cleaning an already cleaned dict changes nothing. */
  lemma {:induction false} CleanValuesFixed(d: Record)
    requires IsClean(d)
    ensures CleanValues(d) == d
  {
    forall k | k in d
      ensures CleanValue(d[k]) == d[k]
    {
      CleanValueFixed(d[k]);
    }
  }

  lemma CleanValuesIdempotent(d: Record)
    ensures CleanValues(CleanValues(d)) == CleanValues(d)
  {
    CleanValuesFixed(CleanValues(d));
  }

  /** No entry after position `i` has the key of entry `i`. */
  predicate LastFor<K(==), V>(pairs: seq<(K, V)>, i: int) {
    0 <= i < |pairs| && forall j :: i < j < |pairs| ==> pairs[j].0 != pairs[i].0
  }

  /** A Python dict built from key/value pairs in order (`dict(zip(...))` or a
      dict comprehension): it holds every key of the pairs and nothing else. */
  function ToMap<K(==), V>(pairs: seq<(K, V)>): (r: map<K, V>)
    ensures r.Keys == set p | p in pairs :: p.0
    decreases |pairs|
  {
    if pairs == [] then map[]
    else
      var n := |pairs| - 1;
      assert pairs == pairs[..n] + [pairs[n]];
      ToMap(pairs[..n])[pairs[n].0 := pairs[n].1]
  }

  /** When keys repeat, the dict keeps the value of the last occurrence. */
  lemma {:induction false} ToMapLast<K, V>(pairs: seq<(K, V)>, i: int)
    requires LastFor(pairs, i)
    ensures pairs[i].0 in ToMap(pairs) && ToMap(pairs)[pairs[i].0] == pairs[i].1
    decreases |pairs|
  {
    var n := |pairs| - 1;
    if i < n {
      assert LastFor(pairs[..n], i);
      ToMapLast(pairs[..n], i);
    }
  }

  /** The column a model attribute stands for: its `.key` or its `.name`. */
  function FieldName(f: Field, useKey: bool): string {
    if useKey then f.key else f.name
  }

  predicate HasAttrKey(entries: seq<(Key, Value)>) {
    exists i :: 0 <= i < |entries| && entries[i].0.Attr?
  }

  predicate AllAttrKeys(entries: seq<(Key, Value)>) {
    forall i :: 0 <= i < |entries| ==> entries[i].0.Attr?
  }

  /** The string a dict key ends up as: a plain key is kept, an attribute
      key becomes its `.key` (`useOrmKeys`) or its `.name`. */
  function KeyName(k: Key, useOrmKeys: bool): string {
    match k
    case Plain(text) => text
    case Attr(f) => FieldName(f, useOrmKeys)
  }

  function Named(entries: seq<(Key, Value)>, useOrmKeys: bool): (r: seq<(string, Value)>)
    ensures |r| == |entries|
    ensures forall i :: 0 <= i < |r| ==> r[i] == (KeyName(entries[i].0, useOrmKeys), entries[i].1)
  {
    seq(|entries|, i requires 0 <= i < |entries| => (KeyName(entries[i].0, useOrmKeys), entries[i].1))
  }

  /** The column names `__to_dict` zips with positional values. */
  function FieldNames(mfields: seq<Field>, useMfieldKeys: bool): (r: seq<string>)
    ensures |r| == |mfields|
    ensures forall i :: 0 <= i < |r| ==> r[i] == FieldName(mfields[i], useMfieldKeys)
  {
    seq(|mfields|, i requires 0 <= i < |mfields| => FieldName(mfields[i], useMfieldKeys))
  }

  function Zip(names: seq<string>, items: seq<Value>): (r: seq<(string, Value)>)
    requires |names| == |items|
    ensures |r| == |names|
    ensures forall i :: 0 <= i < |r| ==> r[i] == (names[i], items[i])
  {
    seq(|names|, i requires 0 <= i < |names| => (names[i], items[i]))
  }

  /** `DB.__to_dict(row, mfields, use_mfield_keys, use_orm_keys)`. An empty
      `mfields` stands for both `None` and an empty list, which the source
      treats alike (`elif mfields:`). */
  function ToDict(row: Row, mfields: seq<Field>, useMfieldKeys: bool, useOrmKeys: bool)
    : (r: Result<Record, RowError>)
    // A dict row fails only when it mixes attribute and plain keys; its keys
    // are renamed (or kept) one by one.
    ensures row.DictRow? ==>
      (r.Err? <==> HasAttrKey(row.entries) && !AllAttrKeys(row.entries))
      && (r.Err? ==> r.error == PlainKeyAmongAttributes)
      && (r.Ok? ==> r.value.Keys == set e | e in row.entries :: KeyName(e.0, useOrmKeys))
    // Any other row needs fields.
    ensures !row.DictRow? && mfields == [] ==> r == Err(UnknownRowType)
    ensures row.OtherRow? && mfields != [] ==> r == Err(NotListOrStr)
    ensures row.ListRow? && mfields != [] ==>
      (r.Err? <==> |mfields| != |row.items|) && (r.Err? ==> r.error == LengthMismatch)
    ensures row.StrRow? && mfields != [] ==>
      (r.Err? <==> |mfields| != 1) && (r.Err? ==> r.error == LengthMismatch)
    // A positional row has exactly one column per field name.
    ensures r.Ok? && !row.DictRow? ==>
      r.value.Keys == set f | f in mfields :: FieldName(f, useMfieldKeys)
    ensures r.Ok? ==> IsClean(r.value)
  {
    match row
    case DictRow(entries) =>
      if HasAttrKey(entries) && !AllAttrKeys(entries) then Err(PlainKeyAmongAttributes)
      else Ok(CleanValues(ToMap(Named(entries, useOrmKeys))))
    case ListRow(items) =>
      if mfields == [] then Err(UnknownRowType)
      else if |mfields| != |items| then Err(LengthMismatch)
      else Ok(CleanValues(ToMap(Zip(FieldNames(mfields, useMfieldKeys), items))))
    case StrRow(text) =>
      if mfields == [] then Err(UnknownRowType)
      else if |mfields| != 1 then Err(LengthMismatch)
      else Ok(CleanValues(ToMap(Zip(FieldNames(mfields, useMfieldKeys), [Str(text)]))))
    case OtherRow =>
      if mfields == [] then Err(UnknownRowType) else Err(NotListOrStr)
  }

  /** A dict row's value lands under its key's name, cleaned, unless a later
      entry ends up under the same name. */
  lemma {:induction false} DictRowValue(entries: seq<(Key, Value)>, mfields: seq<Field>,
                                        useMfieldKeys: bool, useOrmKeys: bool, i: int)
    requires !HasAttrKey(entries) || AllAttrKeys(entries)
    requires LastFor(Named(entries, useOrmKeys), i)
    ensures var r := ToDict(DictRow(entries), mfields, useMfieldKeys, useOrmKeys);
      r.Ok? && r.value[KeyName(entries[i].0, useOrmKeys)] == CleanValue(entries[i].1)
  {
    ToMapLast(Named(entries, useOrmKeys), i);
  }

  /** A dict keyed by model attributes is re-keyed by every attribute's `.key`
      when `use_orm_keys` is set and by its `.name` otherwise, whatever
      `mfields` holds. */
  lemma {:induction false} AttrDictRenamed(entries: seq<(Key, Value)>, mfields: seq<Field>,
                                           useMfieldKeys: bool, useOrmKeys: bool)
    requires AllAttrKeys(entries)
    ensures var r := ToDict(DictRow(entries), mfields, useMfieldKeys, useOrmKeys);
      && r.Ok?
      && r.value.Keys == (set e | e in entries :: if useOrmKeys then e.0.field.key else e.0.field.name)
      && forall i :: LastFor(Named(entries, useOrmKeys), i) ==>
           r.value[FieldName(entries[i].0.field, useOrmKeys)] == CleanValue(entries[i].1)
  {
    var r := ToDict(DictRow(entries), mfields, useMfieldKeys, useOrmKeys);
    forall i | LastFor(Named(entries, useOrmKeys), i)
      ensures r.value[FieldName(entries[i].0.field, useOrmKeys)] == CleanValue(entries[i].1)
    {
      DictRowValue(entries, mfields, useMfieldKeys, useOrmKeys, i);
    }
  }

  /** A list or tuple row: the value at position `i` lands, cleaned, under the
      name of field `i` (its `.key` with the default `use_mfield_keys`), unless
      a later field has the same name. */
  lemma {:induction false} PositionalRowValue(items: seq<Value>, mfields: seq<Field>,
                                              useMfieldKeys: bool, useOrmKeys: bool, i: int)
    requires mfields != [] && |mfields| == |items|
    requires 0 <= i < |mfields|
    requires forall j :: i < j < |mfields| ==> FieldName(mfields[j], useMfieldKeys) != FieldName(mfields[i], useMfieldKeys)
    ensures var r := ToDict(ListRow(items), mfields, useMfieldKeys, useOrmKeys);
      r.Ok? && r.value[FieldName(mfields[i], useMfieldKeys)] == CleanValue(items[i])
  {
    var pairs := Zip(FieldNames(mfields, useMfieldKeys), items);
    assert LastFor(pairs, i);
    ToMapLast(pairs, i);
  }

  /** A string row with exactly one field is the one-element list `[row]`. */
  lemma {:induction false} StrRowIsSingleton(text: string, mfields: seq<Field>,
                                             useMfieldKeys: bool, useOrmKeys: bool)
    requires |mfields| == 1
    ensures ToDict(StrRow(text), mfields, useMfieldKeys, useOrmKeys)
         == ToDict(ListRow([Str(text)]), mfields, useMfieldKeys, useOrmKeys)
         == Ok(map[FieldName(mfields[0], useMfieldKeys) := CleanValue(Str(text))])
  {
    var r := ToDict(ListRow([Str(text)]), mfields, useMfieldKeys, useOrmKeys);
    PositionalRowValue([Str(text)], mfields, useMfieldKeys, useOrmKeys, 0);
    assert mfields == [mfields[0]];
    var k := FieldName(mfields[0], useMfieldKeys);
    assert r.value.Keys == {k};
    assert r.value == map[k := CleanValue(Str(text))];
    assert ToDict(StrRow(text), mfields, useMfieldKeys, useOrmKeys) == r;
  }

  /** Field names that are pairwise different. */
  predicate DistinctNames(mfields: seq<Field>, useKey: bool) {
    forall i, j :: 0 <= i < j < |mfields| ==> FieldName(mfields[i], useKey) != FieldName(mfields[j], useKey)
  }

  /** A sequence without repeats has as many distinct elements as positions. */
  lemma {:induction false} DistinctCardinality<T>(s: seq<T>)
    requires forall i, j :: 0 <= i < j < |s| ==> s[i] != s[j]
    ensures |set x | x in s| == |s|
    decreases |s|
  {
    if s != [] {
      var n := |s| - 1;
      DistinctCardinality(s[..n]);
      assert (set x | x in s) == (set x | x in s[..n]) + {s[n]} by {
        assert s == s[..n] + [s[n]];
      }
      assert s[n] !in s[..n] by {
        forall j | 0 <= j < n
          ensures s[..n][j] != s[n]
        {
          assert s[..n][j] == s[j];
        }
      }
    }
  }

  lemma {:induction false} DistinctNamesCount(mfields: seq<Field>, useKey: bool)
    requires DistinctNames(mfields, useKey)
    ensures |set f | f in mfields :: FieldName(f, useKey)| == |mfields|
  {
    var names := FieldNames(mfields, useKey);
    DistinctCardinality(names);
    assert (set f | f in mfields :: FieldName(f, useKey)) == (set x | x in names) by {
      forall x | x in names
        ensures exists f :: f in mfields && FieldName(f, useKey) == x
      {
        var i :| 0 <= i < |names| && names[i] == x;
        assert mfields[i] in mfields;
      }
      forall f | f in mfields
        ensures FieldName(f, useKey) in names
      {
        var i :| 0 <= i < |mfields| && mfields[i] == f;
        assert names[i] == FieldName(f, useKey);
      }
    }
  }

  /** With pairwise different field names, a positional row of matching length
      becomes a dict with exactly one entry per field. */
  lemma {:induction false} PositionalRowSize(items: seq<Value>, mfields: seq<Field>,
                                             useMfieldKeys: bool, useOrmKeys: bool)
    requires mfields != [] && |mfields| == |items|
    requires DistinctNames(mfields, useMfieldKeys)
    ensures var r := ToDict(ListRow(items), mfields, useMfieldKeys, useOrmKeys);
      r.Ok? && |r.value| == |mfields|
  {
    DistinctNamesCount(mfields, useMfieldKeys);
  }

  /** `entries` is a dict with plain string keys whose contents are `d`. */
  predicate Spells(entries: seq<(Key, Value)>, d: Record) {
    !HasAttrKey(entries) && ToMap(Named(entries, false)) == d
  }

  /** Normalisation is idempotent: the canonical dict of any row, handed back
      as a plain dict row (as `upsert_with_select` hands it to
      `update_with_select` and `insert`), normalises to itself, whatever the
      fields and flags of the second call. */
  lemma {:induction false} NormalizeIdempotent(row: Row, mfields: seq<Field>, useMfieldKeys: bool, useOrmKeys: bool,
                                               entries: seq<(Key, Value)>,
                                               mfields': seq<Field>, useMfieldKeys': bool, useOrmKeys': bool)
    requires ToDict(row, mfields, useMfieldKeys, useOrmKeys).Ok?
    requires Spells(entries, ToDict(row, mfields, useMfieldKeys, useOrmKeys).value)
    ensures ToDict(DictRow(entries), mfields', useMfieldKeys', useOrmKeys')
         == ToDict(row, mfields, useMfieldKeys, useOrmKeys)
  {
    var d := ToDict(row, mfields, useMfieldKeys, useOrmKeys).value;
    assert Named(entries, useOrmKeys') == Named(entries, false);
    CleanValuesFixed(d);
  }

  /** `ToDict` of each row, in order. */
  function NormalizeEach(rows: seq<Row>, mfields: seq<Field>, useMfieldKeys: bool, useOrmKeys: bool)
    : (r: seq<Result<Record, RowError>>)
    ensures |r| == |rows|
    ensures forall i :: 0 <= i < |rows| ==> r[i] == ToDict(rows[i], mfields, useMfieldKeys, useOrmKeys)
  {
    seq(|rows|, i requires 0 <= i < |rows| => ToDict(rows[i], mfields, useMfieldKeys, useOrmKeys))
  }

  /** The values of a list of results, in order, or the first error. */
  function AllOk<T, E>(results: seq<Result<T, E>>): (r: Result<seq<T>, E>)
    ensures r.Ok? <==> forall i :: 0 <= i < |results| ==> results[i].Ok?
    ensures r.Ok? ==> |r.value| == |results| && forall i :: 0 <= i < |results| ==> results[i] == Ok(r.value[i])
    ensures r.Err? ==> exists i :: (0 <= i < |results| && results[i] == Err(r.error)
      && forall j :: 0 <= j < i ==> results[j].Ok?)
    decreases |results|
  {
    if results == [] then Ok([])
    else
      match results[0]
      case Err(e) => Err(e)
      case Ok(d) =>
        var rest := AllOk(results[1..]);
        assert forall i :: 0 < i < |results| ==> results[i] == results[1..][i - 1];
        match rest
        case Err(e) =>
          ghost var k :| 0 <= k < |results| - 1 && results[1..][k] == Err(e)
            && forall j :: 0 <= j < k ==> results[1..][j].Ok?;
          assert results[k + 1] == Err(e);
          Err(e)
        case Ok(ds) => Ok([d] + ds)
  }

  /** The normalisation of each row of a list, in order, as the list
      comprehensions of `upsert` and `insert_ignore_many_core` compute it: the
      first row that fails makes the whole list fail with its error. */
  function NormalizeAll(rows: seq<Row>, mfields: seq<Field>, useMfieldKeys: bool, useOrmKeys: bool)
    : (r: Result<seq<Record>, RowError>)
    ensures r.Ok? <==> forall i :: 0 <= i < |rows| ==> ToDict(rows[i], mfields, useMfieldKeys, useOrmKeys).Ok?
    ensures r.Ok? ==> (|r.value| == |rows|
      && forall i :: 0 <= i < |rows| ==> ToDict(rows[i], mfields, useMfieldKeys, useOrmKeys) == Ok(r.value[i]))
    ensures r.Err? ==> exists i :: (0 <= i < |rows|
      && ToDict(rows[i], mfields, useMfieldKeys, useOrmKeys) == Err(r.error)
      && forall j :: 0 <= j < i ==> ToDict(rows[j], mfields, useMfieldKeys, useOrmKeys).Ok?)
  {
    AllOk(NormalizeEach(rows, mfields, useMfieldKeys, useOrmKeys))
  }
}
