/**
 * The record dictionaries the storage layers accept (`upsert_record`,
 * `bulk_insert`): each key may be absent from the dictionary, and a
 * present value may be `None`.  Also the `{"inserted", "updated",
 * "skipped"}` counters both stores return.
 */
module Records {
  import opened Wrappers
  import opened Dates
  import opened Observations
  import opened InvestingTables

  /** A dictionary entry: the key is missing, or present with a value. */
  datatype Field<T> = Absent | Present(value: T)

  datatype InputRecord = InputRecord(
    date: Field<Date>,
    open: Field<Option<real>>,
    high: Field<Option<real>>,
    low: Field<Option<real>>,
    close: Field<Option<real>>,
    changePct: Field<Option<real>>)

  datatype Counts = Counts(inserted: nat, updated: nat, skipped: nat)

  const NoCounts := Counts(0, 0, 0)

  /** The keys `upsert_record` insists on, in the order it reports them missing. */
  function MissingFields(r: InputRecord): (missing: seq<string>)
    ensures missing == [] <==>
      r.date.Present? && r.open.Present? && r.high.Present? && r.low.Present? && r.close.Present?
    ensures |missing| <= 5
  {
    (if r.date.Absent? then ["date"] else [])
    + (if r.open.Absent? then ["open"] else [])
    + (if r.high.Absent? then ["high"] else [])
    + (if r.low.Absent? then ["low"] else [])
    + (if r.close.Absent? then ["close"] else [])
  }

  /** The dictionary both save paths build from a scraped row: every key present. */
  function FromObs(o: Obs): InputRecord {
    InputRecord(Present(o.date), Present(o.open), Present(o.high), Present(o.low),
      Present(o.close), Present(o.changePct))
  }

  /**
   * The first column, in the order a row's keys are read (date, open,
   * high, low, close, change_pct), that the frame does not have.
   */
  function FirstMissing(cols: seq<Column>): (r: Option<Column>)
    ensures r.None? <==> forall c: Column :: c in cols
    ensures r.Some? ==> r.value !in cols && forall c: Column :: Rank(c) < Rank(r.value) ==> c in cols
  {
    if DateCol !in cols then Some(DateCol)
    else if OpenCol !in cols then Some(OpenCol)
    else if HighCol !in cols then Some(HighCol)
    else if LowCol !in cols then Some(LowCol)
    else if CloseCol !in cols then Some(CloseCol)
    else if ChangeCol !in cols then Some(ChangeCol)
    else
      assert forall c: Column :: c in cols by {
        forall c: Column ensures c in cols {
          assert c.DateCol? || c.OpenCol? || c.HighCol? || c.LowCol? || c.CloseCol? || c.ChangeCol?;
        }
      }
      None
  }

  /**
   * The conversion loop of `save_to_database` and `save_to_csv`: one record
   * per row, field by field.  Indexing a row by a column the frame lacks
   * raises `KeyError` at the first row, reported here as that column; a
   * frame without rows is never indexed.
   */
  function ToRecords(f: Frame): (r: Result<seq<InputRecord>, Column>)
    ensures r.Err? <==> f.rows != [] && exists c: Column :: c !in f.columns
    ensures r.Err? ==> r.error !in f.columns && forall c: Column :: Rank(c) < Rank(r.error) ==> c in f.columns
    ensures r.Ok? ==> |r.value| == |f.rows| && forall i :: 0 <= i < |f.rows| ==> r.value[i] == FromObs(f.rows[i])
  {
    if f.rows == [] then Ok([])
    else
      match FirstMissing(f.columns)
      case Some(c) => Err(c)
      case None => Ok(seq(|f.rows|, i requires 0 <= i < |f.rows| => FromObs(f.rows[i])))
  }

  /** A converted row is never short of a required key. */
  lemma ToRecordsComplete(f: Frame)
    requires ToRecords(f).Ok?
    ensures forall i :: 0 <= i < |ToRecords(f).value| ==> MissingFields(ToRecords(f).value[i]) == []
  {
  }
}
