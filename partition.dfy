/** Key partitioning: `DB.__check_modelkeys`, which splits a canonical row into
    the entries that locate a record ("cause" entries, whose keys are the
    `.key` of a cause field) and the entries that are written to it. */
module Partition {
  import opened Rows

  /** `[n.key for n in cause_dict]`, as a set: only membership is asked of it. */
  function ModelKeys(causeFields: seq<Field>): set<string> {
    set f | f in causeFields :: f.key
  }

  /** `DB.__check_modelkeys(row, cause_dict)`: the pair
      `(cause_dict, to_insert_dict)`. */
  function CheckModelKeys(row: Record, causeFields: seq<Field>): (r: (Record, Record))
    ensures r.0.Keys !! r.1.Keys
    ensures r.0 + r.1 == row
    ensures r.0.Keys <= ModelKeys(causeFields)
    ensures r.1.Keys !! ModelKeys(causeFields)
  {
    var keys := ModelKeys(causeFields);
    var cause := map k | k in row && k in keys :: row[k];
    var rest := map k | k in row && k !in keys :: row[k];
    assert cause + rest == row;
    (cause, rest)
  }

  /** The split is the only one with those properties: any two maps that
      together make up the row, the first keyed by cause keys only and the
      second by none, are the pair `__check_modelkeys` returns. */
  lemma {:induction false} PartitionUnique(row: Record, causeFields: seq<Field>, cause: Record, rest: Record)
    requires cause + rest == row
    requires cause.Keys <= ModelKeys(causeFields)
    requires rest.Keys !! ModelKeys(causeFields)
    ensures CheckModelKeys(row, causeFields) == (cause, rest)
  {
    var (c, t) := CheckModelKeys(row, causeFields);
    assert c.Keys == cause.Keys;
    assert t.Keys == rest.Keys;
    assert c == cause;
    assert t == rest;
  }

  /** Splitting either part again leaves it whole on its own side. */
  lemma {:induction false} PartitionStable(row: Record, causeFields: seq<Field>)
    ensures var (cause, rest) := CheckModelKeys(row, causeFields);
      && CheckModelKeys(cause, causeFields) == (cause, map[])
      && CheckModelKeys(rest, causeFields) == (map[], rest)
  {
    var (cause, rest) := CheckModelKeys(row, causeFields);
    PartitionUnique(cause, causeFields, cause, map[]);
    PartitionUnique(rest, causeFields, map[], rest);
  }
}
