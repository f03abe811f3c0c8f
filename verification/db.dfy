/**
 * The store: the three tables of the database as the state of one object, the two constraints
 * their DDL declares, and the validation pass that re-checks the whole staging table and
 * appends error records.
 */
module Db {
  import opened Wrappers
  import opened Records
  import opened Validation

  /**
   * The three tables: `duck_store_staging`, `duck_store` and `validation_errors`, each as the
   * sequence of its rows in insertion order.
   */
  class Store {
    var staging: seq<StagingRow>
    var analytic: seq<AnalyticRow>
    var errors: seq<ErrorRecord>

    /** The declared constraints: staging `id` is the primary key, analytic `hash` is UNIQUE. */
    ghost predicate Valid()
      reads this
    {
      IdsUnique(staging) && HashesUnique(analytic)
    }

    /** A freshly initialised database: the three tables exist and are empty. */
    constructor ()
      ensures Valid()
      ensures staging == [] && analytic == [] && errors == []
    {
      staging := [];
      analytic := [];
      errors := [];
    }

    /**
     * `INSERT INTO duck_store_staging`: the whole batch goes in, after the rows already there,
     * or, when an id would repeat, nothing does.
     */
    method InsertStaging(rows: seq<StagingRow>) returns (r: Result<(), Fault>)
      requires Valid()
      modifies this`staging
      ensures Valid()
      ensures r.Success? <==> IdsUnique(old(staging) + rows)
      ensures r.Success? ==> staging == old(staging) + rows
      ensures r.Failure? ==> r.error == PrimaryKeyViolation && staging == old(staging)
    {
      if !IdsUnique(staging + rows) {
        return Failure(PrimaryKeyViolation);
      }
      staging := staging + rows;
      return Success(());
    }

    /**
     * `INSERT INTO duck_store`: the whole batch goes in, or, when a hash would repeat one already
     * stored or one earlier in the batch, nothing does.
     */
    method InsertAnalytic(rows: seq<AnalyticRow>) returns (r: Result<(), Fault>)
      requires Valid()
      modifies this`analytic
      ensures Valid()
      ensures r.Success? <==> HashesUnique(old(analytic) + rows)
      ensures r.Success? ==> analytic == old(analytic) + rows
      ensures r.Failure? ==> r.error == UniqueViolation && analytic == old(analytic)
    {
      if !HashesUnique(analytic + rows) {
        return Failure(UniqueViolation);
      }
      analytic := analytic + rows;
      return Success(());
    }

    /**
     * `process_validation`: hands every row currently in staging to the validation library,
     * turns its report into error records, appends those (when there are any) to the error
     * table and returns the offending row ids. Staging and the analytic table are untouched;
     * a report entry that cannot be converted aborts before anything is written.
     */
    method ProcessValidation(validate: seq<StagingRow> -> seq<LibError>, errorId: nat -> Id)
      returns (r: Result<seq<string>, Fault>)
      requires Valid()
      modifies this`errors
      ensures Valid()
      ensures r.Success? <==> ValidateSpec(staging, validate(staging), errorId).Success?
      ensures r.Failure? ==>
        && r.error == ValidateSpec(staging, validate(staging), errorId).error
        && errors == old(errors)
      ensures r.Success? ==>
        && errors == old(errors) + ValidateSpec(staging, validate(staging), errorId).value
        && r.value == RowIds(ValidateSpec(staging, validate(staging), errorId).value)
    {
      var report := validate(staging);
      var result := DataValidate(staging, report, errorId);
      if result.Failure? {
        return Failure(result.error);
      }
      var (ids, records) := result.value;
      if |records| > 0 {
        errors := errors + records;
      }
      return Success(ids);
    }
  }

  /** A batch that carries an id already in staging is refused. */
  lemma StagingClashPersists(staging: seq<StagingRow>, rows: seq<StagingRow>, i: nat, j: nat)
    requires i < |staging| && j < |rows| && staging[i].id == rows[j].id
    ensures !IdsUnique(staging + rows)
  {
    assert (staging + rows)[i] == staging[i];
    assert (staging + rows)[|staging| + j] == rows[j];
  }

  /**
   * Appending rows whose ids are pairwise distinct and new to the table keeps the primary key:
   * a batch of fresh ids is always accepted.
   */
  lemma FreshIdsAccepted(staging: seq<StagingRow>, rows: seq<StagingRow>)
    requires IdsUnique(staging) && IdsUnique(rows)
    requires forall i, j :: 0 <= i < |staging| && 0 <= j < |rows| ==> staging[i].id != rows[j].id
    ensures IdsUnique(staging + rows)
  {
    var all := staging + rows;
    forall i, j | 0 <= i < j < |all| ensures all[i].id != all[j].id {
      if j < |staging| {
        assert all[i] == staging[i] && all[j] == staging[j];
      } else if i < |staging| {
        assert all[i] == staging[i] && all[j] == rows[j - |staging|];
      } else {
        assert all[i] == rows[i - |staging|] && all[j] == rows[j - |staging|];
      }
    }
  }

  /** A new row whose hash is already stored makes the analytic insert fail. */
  lemma AnalyticClash(analytic: seq<AnalyticRow>, rows: seq<AnalyticRow>, i: nat, j: nat)
    requires i < |analytic| && j < |rows| && analytic[i].source.hash == rows[j].source.hash
    ensures !HashesUnique(analytic + rows)
  {
    assert (analytic + rows)[i] == analytic[i];
    assert (analytic + rows)[|analytic| + j] == rows[j];
  }
}
