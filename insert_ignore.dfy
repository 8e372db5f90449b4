/** `DB.insert_ignore_many`: every row is normalised and added inside its own
    nested transaction; a row the storage rejects with an integrity error is
    skipped and the loop goes on; at the end one commit covers the batch. */
module InsertIgnore {
  import opened Rows

  /** What happens to one record added inside `with session.begin_nested()`:
      it is accepted, the nested transaction fails with an `IntegrityError`
      (a duplicate key, say), or some other exception escapes (the model
      class refusing a keyword, for one). */
  datatype AddOutcome = Accepted | IntegrityFailure | OtherFailure

  /** The storage layer, seen from the loop: the outcome of adding `record` to
      a session that already holds `held` (committed and pending records). */
  type Storage = (seq<Record>, Record) -> AddOutcome

  /** Why `insert_ignore_many` raises: a row `__to_dict` rejects, or an add
      that fails with anything but an integrity error. */
  datatype InsertError = BadRow(error: RowError) | AddFailed

  /** The records a run of the loop adds, in order, and the exception that
      ended it early, if any. */
  datatype Run = Run(added: seq<Record>, failure: Option<InsertError>)

  /** The loop of `insert_ignore_many` over the normalised rows
      (`NormalizeEach(rows, mfields, true, true)`), starting from a session
      holding `held`. The loop normalises a row only when it reaches it; since
      a run stops at the first row that does not normalise, the entries after
      it are never looked at. */
  function IgnoreAll(held: seq<Record>, results: seq<Result<Record, RowError>>, storage: Storage): (r: Run)
    ensures |r.added| <= |results|
    decreases |results|
  {
    if results == [] then Run([], None)
    else
      match results[0]
      case Err(e) => Run([], Some(BadRow(e)))
      case Ok(record) =>
        match storage(held, record)
        case Accepted =>
          var rest := IgnoreAll(held + [record], results[1..], storage);
          Run([record] + rest.added, rest.failure)
        case IntegrityFailure => IgnoreAll(held, results[1..], storage)
        case OtherFailure => Run([], Some(AddFailed))
  }

  /** A run over `front + back` is the run over `front` followed, if it ended
      normally, by the run over `back` from the session it left behind. */
  lemma {:induction false} IgnoreAllAppend(held: seq<Record>, front: seq<Result<Record, RowError>>,
                                           back: seq<Result<Record, RowError>>, storage: Storage)
    ensures var f := IgnoreAll(held, front, storage);
      var b := IgnoreAll(held + f.added, back, storage);
      IgnoreAll(held, front + back, storage)
        == if f.failure.None? then Run(f.added + b.added, b.failure) else f
    decreases |front|
  {
    if front == [] {
      assert front + back == back;
      assert held + [] == held;
    } else {
      var tail := front[1..];
      assert (front + back)[0] == front[0];
      assert (front + back)[1..] == tail + back;
      if front[0].Ok? {
        var record := front[0].value;
        var outcome := storage(held, record);
        if outcome == Accepted {
          IgnoreAllAppend(held + [record], tail, back, storage);
          var f := IgnoreAll(held + [record], tail, storage);
          assert IgnoreAll(held, front, storage) == Run([record] + f.added, f.failure);
          assert held + [record] + f.added == held + ([record] + f.added);
          var b := IgnoreAll(held + [record] + f.added, back, storage);
          assert [record] + (f.added + b.added) == [record] + f.added + b.added;
        } else if outcome == IntegrityFailure {
          IgnoreAllAppend(held, tail, back, storage);
        }
      }
    }
  }

  /** One more step of a run whose first `i` steps ended normally: an accepted
      row `i` extends the records added, a rejected one leaves them as they
      are, and a row that raises ends the whole run there. */
  lemma {:induction false} IgnoreAllPrefix(held: seq<Record>, results: seq<Result<Record, RowError>>, i: int,
                                           storage: Storage)
    requires 0 <= i < |results|
    requires IgnoreAll(held, results[..i], storage).failure.None?
    ensures var added := IgnoreAll(held, results[..i], storage).added;
      match results[i]
      case Err(e) => IgnoreAll(held, results, storage) == Run(added, Some(BadRow(e)))
      case Ok(record) =>
        match storage(held + added, record)
        case Accepted => IgnoreAll(held, results[..i + 1], storage) == Run(added + [record], None)
        case IntegrityFailure => IgnoreAll(held, results[..i + 1], storage) == Run(added, None)
        case OtherFailure => IgnoreAll(held, results, storage) == Run(added, Some(AddFailed))
  {
    IgnoreAllAppend(held, results[..i], results[i..], storage);
    IgnoreAllAppend(held, results[..i], [results[i]], storage);
    assert results[..i] + results[i..] == results;
    assert results[..i] + [results[i]] == results[..i + 1];
    assert results[i..][0] == results[i];
  }

  /** A row the storage rejects with an integrity error, wherever it stands,
      neither stops the run nor leaves a trace: the run goes on as if the row
      were not there. */
  lemma {:induction false} RejectedRowSkipped(held: seq<Record>, front: seq<Result<Record, RowError>>, record: Record,
                                              back: seq<Result<Record, RowError>>, storage: Storage)
    requires IgnoreAll(held, front, storage).failure.None?
    requires storage(held + IgnoreAll(held, front, storage).added, record) == IntegrityFailure
    ensures IgnoreAll(held, front + [Ok(record)] + back, storage) == IgnoreAll(held, front + back, storage)
  {
    IgnoreAllAppend(held, front, [Ok(record)] + back, storage);
    IgnoreAllAppend(held, front, back, storage);
    assert ([Ok(record)] + back)[0] == Ok(record) && ([Ok(record)] + back)[1..] == back;
    assert front + [Ok(record)] + back == front + ([Ok(record)] + back);
  }

  /** Every record a run adds is the normalisation of one of its rows. */
  lemma {:induction false} AddedComeFromRows(held: seq<Record>, results: seq<Result<Record, RowError>>,
                                             storage: Storage, k: int)
    requires 0 <= k < |IgnoreAll(held, results, storage).added|
    ensures exists i :: 0 <= i < |results| && results[i] == Ok(IgnoreAll(held, results, storage).added[k])
    decreases |results|
  {
    var record := results[0].value;
    var next := if storage(held, record) == Accepted then held + [record] else held;
    if storage(held, record) == Accepted && k == 0 {
      assert results[0] == Ok(record);
    } else {
      var k' := if storage(held, record) == Accepted then k - 1 else k;
      AddedComeFromRows(next, results[1..], storage, k');
      var i :| 0 <= i < |results| - 1 && results[1..][i] == Ok(IgnoreAll(next, results[1..], storage).added[k']);
      assert results[1..][i] == results[i + 1];
    }
  }

  /** Row `i` is reached (every row before it was accepted or rejected with an
      integrity error), normalises, and the storage accepts it. */
  ghost predicate AcceptedAt(held: seq<Record>, results: seq<Result<Record, RowError>>, storage: Storage, i: int) {
    && 0 <= i < |results|
    && IgnoreAll(held, results[..i], storage).failure.None?
    && results[i].Ok?
    && storage(held + IgnoreAll(held, results[..i], storage).added, results[i].value) == Accepted
  }

  /** A run adds something exactly when the storage accepts some row it
      reaches: this is the `is_inserted` flag `insert_ignore_many` returns. */
  lemma {:induction false} AddedIffSomeAccepted(held: seq<Record>, results: seq<Result<Record, RowError>>,
                                                storage: Storage)
    ensures IgnoreAll(held, results, storage).added != [] <==> exists i :: AcceptedAt(held, results, storage, i)
    decreases |results|
  {
    if i :| AcceptedAt(held, results, storage, i) {
      IgnoreAllAppend(held, results[..i], results[i..], storage);
      assert results[..i] + results[i..] == results;
      assert results[i..][0] == results[i];
    }
    if IgnoreAll(held, results, storage).added != [] {
      var record := results[0].value;
      assert results[..0] == [];
      if storage(held, record) == Accepted {
        assert held + [] == held;
        assert AcceptedAt(held, results, storage, 0);
      } else {
        AddedIffSomeAccepted(held, results[1..], storage);
        var i :| AcceptedAt(held, results[1..], storage, i);
        assert results[..i + 1][0] == results[0] && results[..i + 1][1..] == results[1..][..i];
        assert results[1..][i] == results[i + 1];
        assert AcceptedAt(held, results, storage, i + 1);
      }
    }
  }

  /** A run ends normally when every row normalises and the storage fails,
      if at all, only with integrity errors. */
  lemma {:induction false} NoFailureWhenAllAdmissible(held: seq<Record>, results: seq<Result<Record, RowError>>,
                                                      storage: Storage)
    requires forall i :: 0 <= i < |results| ==> results[i].Ok?
    requires forall h, record :: storage(h, record) != OtherFailure
    ensures IgnoreAll(held, results, storage).failure == None
    decreases |results|
  {
    if results != [] {
      var record := results[0].value;
      var next := if storage(held, record) == Accepted then held + [record] else held;
      NoFailureWhenAllAdmissible(next, results[1..], storage);
    }
  }

  /** The state of the session `DB` holds: the records already committed and
      those added in the open transaction. */
  class Database {
    var committed: seq<Record>
    var pending: seq<Record>

    constructor(committed: seq<Record>)
      ensures this.committed == committed && pending == []
    {
      this.committed := committed;
      pending := [];
    }

    /** `DB.insert_ignore_many(t, rows, mfields)`. On success the run's records
        are committed together with what was pending, and the result says
        whether any row was accepted; when it raises, nothing is committed
        and the records added so far stay pending. */
    method InsertIgnoreMany(rows: seq<Row>, mfields: seq<Field>, storage: Storage)
      returns (r: Result<bool, InsertError>)
      modifies this
      ensures var run := IgnoreAll(old(committed + pending), NormalizeEach(rows, mfields, true, true), storage);
        if run.failure.None? then
          && r == Ok(run.added != [])
          && committed == old(committed + pending) + run.added
          && pending == []
        else
          && r == Err(run.failure.value)
          && committed == old(committed)
          && pending == old(pending) + run.added
    {
      ghost var held0 := committed + pending;
      ghost var results := NormalizeEach(rows, mfields, true, true);
      ghost var added: seq<Record> := [];
      var isInserted := false;
      var i := 0;
      while i < |rows|
        invariant 0 <= i <= |rows|
        invariant committed == old(committed)
        invariant pending == old(pending) + added
        invariant committed + pending == held0 + added
        invariant isInserted == (added != [])
        invariant IgnoreAll(held0, results[..i], storage) == Run(added, None)
      {
        IgnoreAllPrefix(held0, results, i, storage);
        var normalized := ToDict(rows[i], mfields, true, true);
        assert normalized == results[i];
        if normalized.Err? {
          return Err(BadRow(normalized.error));
        }
        var record := normalized.value;
        var outcome := storage(committed + pending, record);
        if outcome == OtherFailure {
          return Err(AddFailed);
        }
        if outcome == Accepted {
          assert committed + (pending + [record]) == (committed + pending) + [record];
          assert held0 + (added + [record]) == (held0 + added) + [record];
          pending := pending + [record];
          added := added + [record];
          isInserted := true;
        }
        i := i + 1;
      }
      assert results[..i] == results;
      committed := committed + pending;
      pending := [];
      return Ok(isInserted);
    }

    /** `DB.insert_ignore(t, row, mfields)`: the batch of one row. */
    method InsertIgnoreOne(row: Row, mfields: seq<Field>, storage: Storage)
      returns (r: Result<bool, InsertError>)
      modifies this
      ensures match ToDict(row, mfields, true, true)
        case Err(e) => r == Err(BadRow(e)) && committed == old(committed) && pending == old(pending)
        case Ok(record) =>
          match storage(old(committed + pending), record)
          case Accepted => r == Ok(true) && committed == old(committed + pending) + [record] && pending == []
          case IntegrityFailure => r == Ok(false) && committed == old(committed + pending) && pending == []
          case OtherFailure => r == Err(AddFailed) && committed == old(committed) && pending == old(pending)
    {
      r := InsertIgnoreMany([row], mfields, storage);
      assert [row][1..] == [];
    }
  }
}
