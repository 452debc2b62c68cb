/**
 * `CSVDataSource` (src/database/csv_source.py): the development store.
 * The DataFrame `_df` is the field `rows`, kept newest first; the CSV
 * file is the field `file`, the rows as last written.  Loading and
 * writing the file are the constructor's argument and `SaveCsv`.
 */
module CsvSource {
  import opened Wrappers
  import opened Dates
  import opened Sorting
  import opened Observations
  import opened Records

  /** Why `upsert_record` / `bulk_insert` raise. */
  datatype CsvError =
    | MissingRequired(fields: seq<string>)   // ValueError from upsert_record
    | MissingDateKey                         // KeyError on record["date"] in bulk_insert

  datatype Stats = Stats(totalRecords: nat, earliest: Option<Date>, latest: Option<Date>, sources: seq<string>)

  // ------------------------------------------------------ row-level meaning

  /** Position of the first row dated `d`. */
  function FirstIndex(rows: seq<Obs>, d: Date): (r: Option<nat>)
    ensures r.Some? ==> r.value < |rows| && rows[r.value].date == d
    ensures r.Some? ==> forall j :: 0 <= j < r.value ==> rows[j].date != d
    ensures r.None? ==> forall j :: 0 <= j < |rows| ==> rows[j].date != d
    decreases |rows|
  {
    if rows == [] then None
    else if rows[0].date == d then Some(0)
    else match FirstIndex(rows[1..], d)
      case None => None
      case Some(i) => Some(i + 1)
  }

  /** The row `upsert_record` leaves for an existing date: every supplied key overwritten. */
  function Updated(o: Obs, rec: InputRecord): Obs
    requires MissingFields(rec) == []
  {
    Obs(o.date, rec.open.value, rec.high.value, rec.low.value, rec.close.value,
      if rec.changePct.Present? then rec.changePct.value else o.changePct)
  }

  /** The row `upsert_record` adds for a new date: a missing `change_pct` is NaN. */
  function NewRow(rec: InputRecord): Obs
    requires MissingFields(rec) == []
  {
    Obs(rec.date.value, rec.open.value, rec.high.value, rec.low.value, rec.close.value,
      if rec.changePct.Present? then rec.changePct.value else None)
  }

  /** The row stored for the record's date once the upsert is done. */
  function Expected(rows: seq<Obs>, rec: InputRecord): Obs
    requires MissingFields(rec) == []
  {
    match FirstIndex(rows, rec.date.value)
    case Some(i) => Updated(rows[i], rec)
    case None => NewRow(rec)
  }

  /** `upsert_record` on the rows: overwrite the first row of that date, or insert in date order. */
  function UpsertRows(rows: seq<Obs>, rec: InputRecord): Result<seq<Obs>, CsvError> {
    var missing := MissingFields(rec);
    if missing != [] then Err(MissingRequired(missing))
    else match FirstIndex(rows, rec.date.value)
      case Some(i) => Ok(rows[i := Updated(rows[i], rec)])
      case None => Ok(Insert(NewRow(rec), rows, DateOf, true))
  }

  /** The stored row carries every value the record supplied. */
  predicate Reflects(o: Obs, rec: InputRecord)
    requires MissingFields(rec) == []
  {
    o.date == rec.date.value && o.open == rec.open.value && o.high == rec.high.value
    && o.low == rec.low.value && o.close == rec.close.value
    && (rec.changePct.Present? ==> o.changePct == rec.changePct.value)
  }

  /** Inserting a row with a new date: its date now leads to it. */
  lemma InsertFound(x: Obs, s: seq<Obs>)
    requires x.date !in DateSet(s)
    ensures var r := Insert(x, s, DateOf, true);
      FirstIndex(r, x.date).Some? && r[FirstIndex(r, x.date).value] == x
  {
    var r := Insert(x, s, DateOf, true);
    InsertMultiset(x, s, DateOf, true);
    assert x in multiset(r);
    var k :| 0 <= k < |r| && r[k] == x;
    var f := FirstIndex(r, x.date);
    assert f.Some?;
    var y := r[f.value];
    assert y in multiset(s) + multiset{x};
    forall z | z in s ensures z.date != x.date {
      var m :| 0 <= m < |s| && s[m] == z;
    }
  }

  /** What an accepted record leaves behind: its row, found by its date. */
  lemma {:induction false} UpsertFound(rows: seq<Obs>, rec: InputRecord)
    requires MissingFields(rec) == []
    ensures var r := UpsertRows(rows, rec).value;
      var f := FirstIndex(r, rec.date.value);
      f.Some? && r[f.value] == Expected(rows, rec) && Reflects(r[f.value], rec)
  {
    var d := rec.date.value;
    match FirstIndex(rows, d)
    case Some(i) =>
      var r := rows[i := Updated(rows[i], rec)];
      assert forall j :: 0 <= j < i ==> r[j] == rows[j];
      assert r[i].date == d;
      var f := FirstIndex(r, d);
      assert f.Some?;
      assert f.value == i;
    case None =>
      InsertFound(NewRow(rec), rows);
  }

  /** Overwriting the first row of the date keeps every other row and every date. */
  lemma UpsertDatesHeld(rows: seq<Obs>, rec: InputRecord, i: nat)
    requires MissingFields(rec) == [] && FirstIndex(rows, rec.date.value) == Some(i)
    ensures var r := UpsertRows(rows, rec).value;
      DateSet(r) == DateSet(rows) + {rec.date.value}
      && (forall o :: o in rows && o.date != rec.date.value ==> o in r)
      && |r| == |rows|
  {
    var d := rec.date.value;
    var r := UpsertRows(rows, rec).value;
    assert r == rows[i := Updated(rows[i], rec)];
    forall o | o in rows && o.date != d ensures o in r {
      var j :| 0 <= j < |rows| && rows[j] == o;
      assert r[j] == o;
    }
    forall e | e in DateSet(rows) ensures e in DateSet(r) {
      var j :| 0 <= j < |rows| && rows[j].date == e;
      assert r[j].date == e;
    }
    forall e | e in DateSet(r) ensures e in DateSet(rows) {
      var j :| 0 <= j < |r| && r[j].date == e;
      assert rows[j].date == e;
    }
  }

  /** Inserting a row of a new date adds that date and keeps every row. */
  lemma UpsertDatesNew(rows: seq<Obs>, rec: InputRecord)
    requires MissingFields(rec) == [] && FirstIndex(rows, rec.date.value).None?
    ensures var r := UpsertRows(rows, rec).value;
      DateSet(r) == DateSet(rows) + {rec.date.value}
      && (forall o :: o in rows ==> o in r)
      && |r| == |rows| + 1
  {
    var x := NewRow(rec);
    assert UpsertRows(rows, rec).value == Insert(x, rows, DateOf, true);
    InsertElements(x, rows, DateOf, true);
    InsertDates(x, rows);
  }

  /** Inserting a row adds its date to the dates held. */
  lemma {:induction false} InsertDates(x: Obs, rows: seq<Obs>)
    ensures DateSet(Insert(x, rows, DateOf, true)) == DateSet(rows) + {x.date}
    decreases |rows|
  {
    var r := Insert(x, rows, DateOf, true);
    DateSetTail(r);
    if rows != [] {
      DateSetTail(rows);
      if !InOrder(DateOf(x), DateOf(rows[0]), true) {
        assert r[1..] == Insert(x, rows[1..], DateOf, true);
        InsertDates(x, rows[1..]);
      } else {
        assert r[1..] == rows;
      }
    } else {
      assert r == [x];
      assert DateSet(r[1..]) == {};
    }
  }

  /** An upsert adds its date and loses none; rows of other dates stay as they were. */
  lemma UpsertDates(rows: seq<Obs>, rec: InputRecord)
    requires MissingFields(rec) == []
    ensures var r := UpsertRows(rows, rec).value;
      DateSet(r) == DateSet(rows) + {rec.date.value}
      && (forall o :: o in rows && o.date != rec.date.value ==> o in r)
      && |r| == if rec.date.value in DateSet(rows) then |rows| else |rows| + 1
  {
    match FirstIndex(rows, rec.date.value)
    case Some(i) => UpsertDatesHeld(rows, rec, i);
    case None => UpsertDatesNew(rows, rec);
  }

  /** Inserting a new date keeps the rows newest first, and keeps dates distinct if they were. */
  lemma UpsertOrderNew(rows: seq<Obs>, rec: InputRecord)
    requires MissingFields(rec) == [] && FirstIndex(rows, rec.date.value).None?
    ensures Sorted(rows, DateOf, true) ==> Sorted(UpsertRows(rows, rec).value, DateOf, true)
    ensures UniqueKeys(rows, DateOf) ==> UniqueKeys(UpsertRows(rows, rec).value, DateOf)
  {
    var x := NewRow(rec);
    var r := UpsertRows(rows, rec).value;
    assert r == Insert(x, rows, DateOf, true);
    if Sorted(rows, DateOf, true) { InsertSorted(x, rows, DateOf, true); }
    if UniqueKeys(rows, DateOf) {
      InsertMultiset(x, rows, DateOf, true);
      assert forall i :: 0 <= i < |rows| ==> DateOf(rows[i]) != DateOf(x);
      ConsUnique(x, rows, DateOf);
      assert multiset([x] + rows) == multiset(rows) + multiset{x};
      PermUnique([x] + rows, r, DateOf);
    }
  }

  /** An upsert keeps the rows newest first, and keeps dates distinct if they were. */
  lemma UpsertOrder(rows: seq<Obs>, rec: InputRecord)
    requires MissingFields(rec) == []
    ensures Sorted(rows, DateOf, true) ==> Sorted(UpsertRows(rows, rec).value, DateOf, true)
    ensures UniqueKeys(rows, DateOf) ==> UniqueKeys(UpsertRows(rows, rec).value, DateOf)
  {
    match FirstIndex(rows, rec.date.value)
    case Some(i) =>
      var r := UpsertRows(rows, rec).value;
      assert forall j :: 0 <= j < |r| ==> r[j].date == rows[j].date;
    case None =>
      UpsertOrderNew(rows, rec);
  }

  // ---------------------------------------------------------- bulk_insert

  /** The state of a `bulk_insert` loop: the rows, the three counters, and the error that ended it. */
  datatype Bulk = Bulk(rows: seq<Obs>, counts: Counts, error: Option<CsvError>)

  /** One iteration: a date already held is skipped or updated, a new one inserted. */
  function BulkStep(b: Bulk, rec: InputRecord, skipDuplicates: bool): Bulk {
    if b.error.Some? then b
    else if rec.date.Absent? then b.(error := Some(MissingDateKey))
    else
      var held := FirstIndex(b.rows, rec.date.value).Some?;
      if held && skipDuplicates then b.(counts := b.counts.(skipped := b.counts.skipped + 1))
      else match UpsertRows(b.rows, rec)
        case Err(e) => b.(error := Some(e))
        case Ok(rs) =>
          if held then Bulk(rs, b.counts.(updated := b.counts.updated + 1), None)
          else Bulk(rs, b.counts.(inserted := b.counts.inserted + 1), None)
  }

  /** The loop over the first `|recs|` records. */
  function BulkRun(rows: seq<Obs>, recs: seq<InputRecord>, skipDuplicates: bool): Bulk
    decreases |recs|
  {
    if recs == [] then Bulk(rows, NoCounts, None)
    else BulkStep(BulkRun(rows, recs[..|recs| - 1], skipDuplicates), recs[|recs| - 1], skipDuplicates)
  }

  /** The loop over one more record is one more step. */
  lemma {:induction false} BulkRunNext(rows: seq<Obs>, recs: seq<InputRecord>, i: nat, skipDuplicates: bool)
    requires i < |recs|
    ensures BulkRun(rows, recs[..i + 1], skipDuplicates)
         == BulkStep(BulkRun(rows, recs[..i], skipDuplicates), recs[i], skipDuplicates)
  {
    assert recs[..i + 1][..i] == recs[..i];
    assert recs[..i + 1][i] == recs[i];
  }

  /** Once a record fails, the later ones are never looked at. */
  lemma {:induction false} BulkRunStuck(rows: seq<Obs>, recs: seq<InputRecord>, k: nat, skipDuplicates: bool)
    requires k <= |recs| && BulkRun(rows, recs[..k], skipDuplicates).error.Some?
    ensures BulkRun(rows, recs, skipDuplicates) == BulkRun(rows, recs[..k], skipDuplicates)
    decreases |recs| - k
  {
    if k < |recs| {
      var p := recs[..|recs| - 1];
      assert p[..k] == recs[..k];
      BulkRunStuck(rows, p, k, skipDuplicates);
    } else {
      assert recs[..k] == recs;
    }
  }

  /** A completed bulk insert counts every record once, and grows the table by what it inserted. */
  lemma {:induction false} BulkCounts(rows: seq<Obs>, recs: seq<InputRecord>, skipDuplicates: bool)
    ensures var b := BulkRun(rows, recs, skipDuplicates);
      b.error.None? ==>
        b.counts.inserted + b.counts.updated + b.counts.skipped == |recs|
        && |b.rows| == |rows| + b.counts.inserted
    decreases |recs|
  {
    if recs != [] {
      var p := recs[..|recs| - 1];
      var rec := recs[|recs| - 1];
      BulkCounts(rows, p, skipDuplicates);
      var b := BulkRun(rows, p, skipDuplicates);
      if b.error.None? && rec.date.Present? && MissingFields(rec) == [] {
        UpsertDates(b.rows, rec);
      }
    }
  }

  /** The dates the records carry. */
  function RecordDates(recs: seq<InputRecord>): set<Date> {
    set i | 0 <= i < |recs| && recs[i].date.Present? :: recs[i].date.value
  }

  /** A completed bulk insert holds the dates it started with plus every record's date. */
  lemma {:induction false} BulkDates(rows: seq<Obs>, recs: seq<InputRecord>, skipDuplicates: bool)
    ensures var b := BulkRun(rows, recs, skipDuplicates);
      b.error.None? ==> DateSet(b.rows) == DateSet(rows) + RecordDates(recs)
    decreases |recs|
  {
    if recs != [] {
      var p := recs[..|recs| - 1];
      var rec := recs[|recs| - 1];
      BulkDates(rows, p, skipDuplicates);
      var b := BulkRun(rows, p, skipDuplicates);
      if b.error.None? && rec.date.Present? {
        var d := rec.date.value;
        RecordDatesSnoc(recs);
        if FirstIndex(b.rows, d).Some? {
          assert b.rows[FirstIndex(b.rows, d).value].date == d;
        }
        if MissingFields(rec) == [] {
          UpsertDates(b.rows, rec);
        }
      }
    }
  }

  /** The dates of the records: those before the last, and the last one's. */
  lemma {:induction false} RecordDatesSnoc(recs: seq<InputRecord>)
    requires recs != [] && recs[|recs| - 1].date.Present?
    ensures RecordDates(recs) == RecordDates(recs[..|recs| - 1]) + {recs[|recs| - 1].date.value}
  {
    var p := recs[..|recs| - 1];
    var d := recs[|recs| - 1].date.value;
    forall e | e in RecordDates(recs) ensures e in RecordDates(p) + {d} {
      var i :| 0 <= i < |recs| && recs[i].date.Present? && recs[i].date.value == e;
      if i < |p| { assert p[i] == recs[i]; }
    }
    forall e | e in RecordDates(p) ensures e in RecordDates(recs) {
      var i :| 0 <= i < |p| && p[i].date.Present? && p[i].date.value == e;
      assert recs[i] == p[i];
    }
  }

  /** Skipping duplicates never alters a row that was already stored. */
  lemma {:induction false} BulkSkipKeeps(rows: seq<Obs>, recs: seq<InputRecord>, o: Obs)
    requires o in rows
    ensures o in BulkRun(rows, recs, true).rows
    decreases |recs|
  {
    if recs != [] {
      var p := recs[..|recs| - 1];
      var rec := recs[|recs| - 1];
      BulkSkipKeeps(rows, p, o);
      var b := BulkRun(rows, p, true);
      if b.error.None? && rec.date.Present? && MissingFields(rec) == []
         && FirstIndex(b.rows, rec.date.value).None? {
        UpsertDates(b.rows, rec);
      }
    }
  }

  /** A bulk insert keeps the rows newest first, and keeps dates distinct if they were. */
  lemma {:induction false} BulkOrder(rows: seq<Obs>, recs: seq<InputRecord>, skipDuplicates: bool)
    ensures Sorted(rows, DateOf, true) ==> Sorted(BulkRun(rows, recs, skipDuplicates).rows, DateOf, true)
    ensures UniqueKeys(rows, DateOf) ==> UniqueKeys(BulkRun(rows, recs, skipDuplicates).rows, DateOf)
    decreases |recs|
  {
    if recs != [] {
      var p := recs[..|recs| - 1];
      var rec := recs[|recs| - 1];
      BulkOrder(rows, p, skipDuplicates);
      var b := BulkRun(rows, p, skipDuplicates);
      if b.error.None? && rec.date.Present? && MissingFields(rec) == [] {
        UpsertOrder(b.rows, rec);
      }
    }
  }

  /** A failed bulk insert keeps what the records before the failing one did: nothing is undone. */
  lemma {:induction false} BulkFailureKeepsEarlier(rows: seq<Obs>, recs: seq<InputRecord>, skipDuplicates: bool)
    requires BulkRun(rows, recs, skipDuplicates).error.Some?
    ensures exists k ::
              0 <= k < |recs|
              && BulkRun(rows, recs[..k], skipDuplicates).error.None?
              && BulkRun(rows, recs, skipDuplicates).rows == BulkRun(rows, recs[..k], skipDuplicates).rows
    decreases |recs|
  {
    var p := recs[..|recs| - 1];
    var b := BulkRun(rows, p, skipDuplicates);
    if b.error.Some? {
      BulkFailureKeepsEarlier(rows, p, skipDuplicates);
      var k :| 0 <= k < |p| && BulkRun(rows, p[..k], skipDuplicates).error.None?
        && b.rows == BulkRun(rows, p[..k], skipDuplicates).rows;
      assert p[..k] == recs[..k];
    } else {
      assert recs[..|recs| - 1] == p;
    }
  }

  // ------------------------------------------- update mode: the values left

  /** A date with nothing recorded: the row an upsert of a new date starts from. */
  function Blank(d: Date): Obs { Obs(d, None, None, None, None, None) }

  /** The row the store starts from for date `d`: its first row of that date, or a blank one. */
  function Base(rows: seq<Obs>, d: Date): (o: Obs)
    ensures o.date == d
  {
    match FirstIndex(rows, d)
    case Some(i) => rows[i]
    case None => Blank(d)
  }

  /** Every record has all the keys `upsert_record` insists on. */
  predicate AllComplete(recs: seq<InputRecord>) {
    forall i :: 0 <= i < |recs| ==> MissingFields(recs[i]) == []
  }

  /** No record of date `d` supplies a `change_pct`. */
  predicate NoPct(recs: seq<InputRecord>, d: Date) {
    forall i :: 0 <= i < |recs| && recs[i].date == Present(d) ==> recs[i].changePct.Absent?
  }

  /** The row `o` once every record of its date has overwritten it, in order. */
  function Refresh(o: Obs, recs: seq<InputRecord>): (r: Obs)
    requires AllComplete(recs)
    ensures r.date == o.date
    decreases |recs|
  {
    if recs == [] then o
    else
      var p := recs[..|recs| - 1];
      assert forall i :: 0 <= i < |p| ==> p[i] == recs[i];
      var rec := recs[|recs| - 1];
      if rec.date.value == o.date then Updated(Refresh(o, p), rec) else Refresh(o, p)
  }

  /** The prefix of complete records is complete, and mentions no date the whole does not. */
  lemma PrefixComplete(recs: seq<InputRecord>)
    requires recs != [] && AllComplete(recs)
    ensures AllComplete(recs[..|recs| - 1]) && recs[|recs| - 1].date.Present?
    ensures RecordDates(recs) == RecordDates(recs[..|recs| - 1]) + {recs[|recs| - 1].date.value}
  {
    var p := recs[..|recs| - 1];
    assert forall i :: 0 <= i < |p| ==> p[i] == recs[i];
    assert MissingFields(recs[|recs| - 1]) == [];
    RecordDatesSnoc(recs);
  }

  /** Records of other dates leave a row as it is. */
  lemma {:induction false} RefreshUntouched(o: Obs, recs: seq<InputRecord>)
    requires AllComplete(recs) && o.date !in RecordDates(recs)
    ensures Refresh(o, recs) == o
    decreases |recs|
  {
    if recs != [] {
      PrefixComplete(recs);
      RefreshUntouched(o, recs[..|recs| - 1]);
    }
  }

  /** When no record of its date supplies a `change_pct`, the row keeps its own. */
  lemma {:induction false} RefreshPct(o: Obs, recs: seq<InputRecord>)
    requires AllComplete(recs) && NoPct(recs, o.date)
    ensures Refresh(o, recs).changePct == o.changePct
    decreases |recs|
  {
    if recs != [] {
      var p := recs[..|recs| - 1];
      PrefixComplete(recs);
      assert forall i :: 0 <= i < |p| ==> p[i] == recs[i];
      RefreshPct(o, p);
    }
  }

  /**
   * Once a record of its date has been applied, a row's old values matter
   * only through its `change_pct`, and only when no record supplies one.
   */
  lemma {:induction false} RefreshAgree(o: Obs, q: Obs, recs: seq<InputRecord>)
    requires AllComplete(recs) && o.date == q.date && o.date in RecordDates(recs)
    requires NoPct(recs, o.date) ==> o.changePct == q.changePct
    ensures Refresh(o, recs) == Refresh(q, recs)
    decreases |recs|
  {
    var p := recs[..|recs| - 1];
    var rec := recs[|recs| - 1];
    PrefixComplete(recs);
    assert forall i :: 0 <= i < |p| ==> p[i] == recs[i];
    if rec.date.value != o.date {
      RefreshAgree(o, q, p);
    } else if o.date in RecordDates(p) {
      if rec.changePct.Absent? {
        RefreshAgree(o, q, p);
      } else if NoPct(p, o.date) ==> o.changePct == q.changePct {
        RefreshAgree(o, q, p);
      }
    } else {
      RefreshUntouched(o, p);
      RefreshUntouched(q, p);
    }
  }

  /** Applying the same records twice leaves the row they left the first time. */
  lemma RefreshIdempotent(o: Obs, recs: seq<InputRecord>)
    requires AllComplete(recs)
    ensures Refresh(Refresh(o, recs), recs) == Refresh(o, recs)
  {
    var q := Refresh(o, recs);
    if o.date !in RecordDates(recs) {
      RefreshUntouched(o, recs);
    } else {
      if NoPct(recs, o.date) { RefreshPct(o, recs); }
      RefreshAgree(q, o, recs);
    }
  }

  /** The last record of the row's date decides every value it supplies. */
  lemma {:induction false} RefreshLast(o: Obs, recs: seq<InputRecord>, i: nat)
    requires AllComplete(recs) && i < |recs| && recs[i].date == Present(o.date)
    requires forall j :: i < j < |recs| ==> recs[j].date != Present(o.date)
    ensures Reflects(Refresh(o, recs), recs[i])
    decreases |recs|
  {
    var p := recs[..|recs| - 1];
    PrefixComplete(recs);
    if i < |recs| - 1 {
      assert forall j :: 0 <= j < |p| ==> p[j] == recs[j];
      RefreshLast(o, p, i);
    }
  }

  /** Two row sequences with the same date at every position find a date at the same place. */
  lemma {:induction false} FirstIndexSameDates(a: seq<Obs>, b: seq<Obs>, d: Date)
    requires |a| == |b| && forall i :: 0 <= i < |a| ==> a[i].date == b[i].date
    ensures FirstIndex(a, d) == FirstIndex(b, d)
    decreases |a|
  {
    if a != [] {
      assert forall i :: 0 <= i < |a| - 1 ==> a[1..][i] == a[i + 1] && b[1..][i] == b[i + 1];
      FirstIndexSameDates(a[1..], b[1..], d);
    }
  }

  /** A held date is found. */
  lemma FirstIndexHeld(rows: seq<Obs>, d: Date)
    requires d in DateSet(rows)
    ensures FirstIndex(rows, d).Some?
  {
    var i :| 0 <= i < |rows| && rows[i].date == d;
  }

  /** Inserting a row of another date does not move the first row of `d` out of reach. */
  lemma {:induction false} InsertBase(x: Obs, s: seq<Obs>, d: Date)
    requires x.date != d
    ensures FirstIndex(Insert(x, s, DateOf, true), d).Some? <==> FirstIndex(s, d).Some?
    ensures Base(Insert(x, s, DateOf, true), d) == Base(s, d)
    decreases |s|
  {
    var r := Insert(x, s, DateOf, true);
    if s == [] || InOrder(DateOf(x), DateOf(s[0]), true) {
      assert r[1..] == s;
    } else if s[0].date != d {
      assert r[1..] == Insert(x, s[1..], DateOf, true);
      assert s[1..] == s[1..];
      InsertBase(x, s[1..], d);
    }
  }

  /** An upsert of another date leaves the first row of `d` as it was. */
  lemma UpsertOtherBase(rows: seq<Obs>, rec: InputRecord, d: Date)
    requires MissingFields(rec) == [] && rec.date.value != d
    ensures FirstIndex(UpsertRows(rows, rec).value, d).Some? <==> FirstIndex(rows, d).Some?
    ensures Base(UpsertRows(rows, rec).value, d) == Base(rows, d)
  {
    match FirstIndex(rows, rec.date.value)
    case Some(j) =>
      var r := rows[j := Updated(rows[j], rec)];
      FirstIndexSameDates(r, rows, d);
    case None =>
      InsertBase(NewRow(rec), rows, d);
  }

  /** A completed update-mode run had every record complete. */
  lemma {:induction false} BulkUpdateComplete(rows: seq<Obs>, recs: seq<InputRecord>)
    requires BulkRun(rows, recs, false).error.None?
    ensures AllComplete(recs)
    decreases |recs|
  {
    if recs != [] {
      var p := recs[..|recs| - 1];
      var rec := recs[|recs| - 1];
      var bp := BulkRun(rows, p, false);
      assert bp.error.None?;
      BulkUpdateComplete(rows, p);
      assert MissingFields(rec) == [];
      forall i | 0 <= i < |recs| ensures MissingFields(recs[i]) == [] {
        if i < |p| { assert recs[i] == p[i]; }
      }
    }
  }

  /** One update-mode step: the first row of the record's own date. */
  lemma LastWinsOwnDate(rows: seq<Obs>, recs: seq<InputRecord>)
    requires recs != [] && AllComplete(recs)
    requires var p := recs[..|recs| - 1];
      BulkRun(rows, p, false).error.None?
      && forall d :: FirstIndex(BulkRun(rows, p, false).rows, d).Some? ==>
           Base(BulkRun(rows, p, false).rows, d) == Refresh(Base(rows, d), p)
    ensures var rec := recs[|recs| - 1];
      var r := UpsertRows(BulkRun(rows, recs[..|recs| - 1], false).rows, rec).value;
      Base(r, rec.date.value) == Refresh(Base(rows, rec.date.value), recs)
  {
    var p := recs[..|recs| - 1];
    var rec := recs[|recs| - 1];
    PrefixComplete(recs);
    var d := rec.date.value;
    var bp := BulkRun(rows, p, false).rows;
    UpsertFound(bp, rec);
    if FirstIndex(bp, d).None? {
      BulkDates(rows, p, false);
      if d in DateSet(bp) { FirstIndexHeld(bp, d); }
      if d in DateSet(rows) { FirstIndexHeld(rows, d); }
      RefreshUntouched(Blank(d), p);
    }
  }

  /**
   * `bulk_insert(..., skip_duplicates=False)`: when it completes, the first
   * row of every date is what that date's records made of the row the
   * store started from (the record of a new date fills a blank one), and
   * rows of dates no record carries are still there.
   */
  lemma {:induction false} BulkUpdateLastWins(rows: seq<Obs>, recs: seq<InputRecord>)
    requires BulkRun(rows, recs, false).error.None?
    ensures AllComplete(recs)
    ensures forall d :: FirstIndex(BulkRun(rows, recs, false).rows, d).Some? ==>
      Base(BulkRun(rows, recs, false).rows, d) == Refresh(Base(rows, d), recs)
    ensures forall o :: o in rows && o.date !in RecordDates(recs) ==> o in BulkRun(rows, recs, false).rows
    decreases |recs|
  {
    BulkUpdateComplete(rows, recs);
    if recs != [] {
      var p := recs[..|recs| - 1];
      var rec := recs[|recs| - 1];
      PrefixComplete(recs);
      var bp := BulkRun(rows, p, false);
      assert bp.error.None?;
      BulkUpdateLastWins(rows, p);
      var r := BulkRun(rows, recs, false).rows;
      assert r == UpsertRows(bp.rows, rec).value;
      LastWinsOwnDate(rows, recs);
      forall d | FirstIndex(r, d).Some? ensures Base(r, d) == Refresh(Base(rows, d), recs) {
        if d != rec.date.value {
          UpsertOtherBase(bp.rows, rec, d);
        }
      }
      UpsertDates(bp.rows, rec);
    }
  }

  /** After a completed update-mode run, a date's row carries the values of that date's last record. */
  lemma BulkUpdateReflectsLast(rows: seq<Obs>, recs: seq<InputRecord>, i: nat)
    requires BulkRun(rows, recs, false).error.None?
    requires i < |recs| && recs[i].date.Present?
    requires forall j :: i < j < |recs| ==> recs[j].date != recs[i].date
    ensures MissingFields(recs[i]) == []
    ensures var b := BulkRun(rows, recs, false);
      FirstIndex(b.rows, recs[i].date.value).Some?
      && Reflects(b.rows[FirstIndex(b.rows, recs[i].date.value).value], recs[i])
  {
    var d := recs[i].date.value;
    var b := BulkRun(rows, recs, false);
    BulkUpdateLastWins(rows, recs);
    BulkDates(rows, recs, false);
    assert d in RecordDates(recs);
    FirstIndexHeld(b.rows, d);
    RefreshLast(Base(rows, d), recs, i);
  }

  /** Every position's row after each record overwrote the first row of its date. */
  function RefreshAll(s: seq<Obs>, recs: seq<InputRecord>): (r: seq<Obs>)
    requires AllComplete(recs)
    ensures |r| == |s| && forall j :: 0 <= j < |s| ==> r[j].date == s[j].date
  {
    seq(|s|, j requires 0 <= j < |s| => if FirstIndex(s, s[j].date) == Some(j) then Refresh(s[j], recs) else s[j])
  }

  /** One more record whose date is held: one more point update of its first row. */
  lemma RefreshAllNext(s: seq<Obs>, recs: seq<InputRecord>, j: nat)
    requires recs != [] && AllComplete(recs)
    requires FirstIndex(s, recs[|recs| - 1].date.value) == Some(j)
    ensures AllComplete(recs[..|recs| - 1])
    ensures var t := RefreshAll(s, recs[..|recs| - 1]);
      RefreshAll(s, recs) == t[j := Updated(t[j], recs[|recs| - 1])]
  {
    PrefixComplete(recs);
    var p := recs[..|recs| - 1];
    var rec := recs[|recs| - 1];
    var t := RefreshAll(s, p);
    var u := t[j := Updated(t[j], rec)];
    forall k | 0 <= k < |s| ensures RefreshAll(s, recs)[k] == u[k] {
      if k != j && FirstIndex(s, s[k].date) == Some(k) {
        assert s[k].date != rec.date.value;
      }
    }
  }

  /** When every record's date is already held, an update-mode run only updates. */
  lemma {:induction false} BulkHeld(s: seq<Obs>, recs: seq<InputRecord>)
    requires AllComplete(recs) && RecordDates(recs) <= DateSet(s)
    ensures BulkRun(s, recs, false) == Bulk(RefreshAll(s, recs), Counts(0, |recs|, 0), None)
    decreases |recs|
  {
    if recs == [] {
      assert RefreshAll(s, recs) == s;
    } else {
      var p := recs[..|recs| - 1];
      var rec := recs[|recs| - 1];
      PrefixComplete(recs);
      BulkHeld(s, p);
      var t := RefreshAll(s, p);
      var e := rec.date.value;
      FirstIndexHeld(s, e);
      var j := FirstIndex(s, e).value;
      FirstIndexSameDates(t, s, e);
      RefreshAllNext(s, recs, j);
    }
  }

  /**
   * Running the same update-mode batch again on the rows it produced
   * changes nothing: every record is counted as an update, none inserted.
   */
  lemma BulkIdempotent(rows: seq<Obs>, recs: seq<InputRecord>)
    requires BulkRun(rows, recs, false).error.None?
    ensures var b := BulkRun(rows, recs, false);
      BulkRun(b.rows, recs, false) == Bulk(b.rows, Counts(0, |recs|, 0), None)
  {
    var b := BulkRun(rows, recs, false).rows;
    BulkUpdateLastWins(rows, recs);
    BulkDates(rows, recs, false);
    BulkHeld(b, recs);
    forall k | 0 <= k < |b| ensures RefreshAll(b, recs)[k] == b[k] {
      if FirstIndex(b, b[k].date) == Some(k) {
        RefreshIdempotent(Base(rows, b[k].date), recs);
      }
    }
  }

  // ------------------------------------------------------------ the store

  /** Outside `[start, end]`: what `delete_by_date_range` keeps. */
  predicate Outside(d: Date, start: Date, end: Date) { Lt(d, start) || Lt(end, d) }

  /** Within `[start, end]`, both ends inclusive. */
  predicate Within(d: Date, start: Date, end: Date) { Le(start, d) && Le(d, end) }

  /** Within the optional bounds of `get_date_range`; a missing bound does not filter. */
  predicate InRange(d: Date, start: Option<Date>, end: Option<Date>) {
    (start.None? || Le(start.value, d)) && (end.None? || Le(d, end.value))
  }

  /** The rows within the optional bounds, sorted by date. */
  function RangeRows(rows: seq<Obs>, start: Option<Date>, end: Option<Date>, descending: bool): seq<Obs> {
    Sort(Filter(rows, (o: Obs) => InRange(o.date, start, end)), DateOf, descending)
  }

  /** Each row in range comes back as many times as the store holds it, and no other row does. */
  lemma RangeRowsCount(rows: seq<Obs>, start: Option<Date>, end: Option<Date>, descending: bool)
    ensures forall o :: multiset(RangeRows(rows, start, end, descending))[o]
                     == if InRange(o.date, start, end) then multiset(rows)[o] else 0
  {
    var p := (o: Obs) => InRange(o.date, start, end);
    SortSpec(Filter(rows, p), DateOf, descending);
    FilterMultiset(rows, p);
  }

  lemma {:induction false} RangeRowsSpec(rows: seq<Obs>, start: Option<Date>, end: Option<Date>, descending: bool)
    ensures forall o :: o in RangeRows(rows, start, end, descending) <==> o in rows && InRange(o.date, start, end)
    ensures Sorted(RangeRows(rows, start, end, descending), DateOf, descending)
    ensures UniqueKeys(rows, DateOf) ==> StrictlySorted(RangeRows(rows, start, end, descending), DateOf, descending)
  {
    var p := (o: Obs) => InRange(o.date, start, end);
    var kept := Filter(rows, p);
    SortSpec(kept, DateOf, descending);
    FilterMultiset(rows, p);
    forall o ensures o in RangeRows(rows, start, end, descending) <==> o in rows && p(o) {
      assert o in RangeRows(rows, start, end, descending) <==> o in multiset(kept);
      assert o in rows <==> multiset(rows)[o] > 0;
    }
    if UniqueKeys(rows, DateOf) {
      FilterUnique(rows, p, DateOf);
      SortStrict(kept, DateOf, descending);
    }
  }

  /** Rows with distinct dates cover as many dates as there are rows. */
  lemma {:induction false} UniqueDatesCount(s: seq<Obs>)
    ensures UniqueKeys(s, DateOf) ==> |DateSet(s)| == |s|
    decreases |s|
  {
    if s != [] && UniqueKeys(s, DateOf) {
      DateSetTail(s);
      assert forall i, j :: 0 <= i < j < |s| - 1 ==> s[1..][i] == s[i + 1] && s[1..][j] == s[j + 1];
      UniqueDatesCount(s[1..]);
      assert s[0].date !in DateSet(s[1..]);
    } else if s == [] {
      assert DateSet(s) == {};
    }
  }

  class CsvDataSource {
    /** `_df`, newest first. */
    var rows: seq<Obs>
    /** The rows of the CSV file, as last written. */
    var file: seq<Obs>

    ghost predicate Valid()
      reads this
    {
      Sorted(rows, DateOf, true)
    }

    /** `_load_csv`: the file's rows, sorted newest first; a missing file gives no rows. */
    constructor(loaded: seq<Obs>)
      ensures Valid()
      ensures rows == Sort(loaded, DateOf, true) && file == loaded
    {
      rows := Sort(loaded, DateOf, true);
      file := loaded;
      SortSpec(loaded, DateOf, true);
    }

    /** `_save_csv`: writes the rows, unless there are none. */
    method SaveCsv()
      modifies this
      ensures rows == old(rows)
      ensures file == if rows == [] then old(file) else rows
    {
      if rows != [] {
        file := rows;
      }
    }

    /** `get_by_date`: the first row of that date. */
    function GetByDate(d: Date): (r: Option<Obs>)
      reads this
      ensures r.Some? <==> d in DateSet(rows)
      ensures r.Some? ==> r.value in rows && r.value.date == d
      ensures r.Some? ==> exists i ::
                0 <= i < |rows| && rows[i] == r.value
                && forall j :: 0 <= j < i ==> rows[j].date != d
    {
      match FirstIndex(rows, d)
      case Some(i) => Some(rows[i])
      case None => None
    }

    /** `get_latest`: pandas `head(limit)`; a negative limit drops that many rows from the end. */
    function GetLatest(limit: int): (r: seq<Obs>)
      reads this
      ensures r <= rows
      ensures limit >= 0 ==> |r| == if limit < |rows| then limit else |rows|
      ensures limit < 0 ==> |r| == if -limit < |rows| then |rows| + limit else 0
      ensures Valid() ==> forall i, j :: 0 <= i < |r| <= j < |rows| ==> Le(rows[j].date, r[i].date)
    {
      var k := if limit >= 0 then (if limit < |rows| then limit else |rows|)
               else (if -limit < |rows| then |rows| + limit else 0);
      rows[..k]
    }

    /** `get_date_range`: the rows within the bounds, ascending only when `order_by.lower()` is "asc". */
    function GetDateRange(start: Option<Date>, end: Option<Date>, orderBy: string): (r: seq<Obs>)
      reads this
      ensures forall o :: o in r <==> o in rows && InRange(o.date, start, end)
      ensures forall o :: multiset(r)[o] == if InRange(o.date, start, end) then multiset(rows)[o] else 0
      ensures Sorted(r, DateOf, Strings.Lower(orderBy) != "asc")
      ensures UniqueKeys(rows, DateOf) ==> StrictlySorted(r, DateOf, Strings.Lower(orderBy) != "asc")
    {
      var descending := Strings.Lower(orderBy) != "asc";
      RangeRowsSpec(rows, start, end, descending);
      RangeRowsCount(rows, start, end, descending);
      RangeRows(rows, start, end, descending)
    }

    /** `upsert_record`: a record short of a required key is refused with nothing changed. */
    method UpsertRecord(rec: InputRecord) returns (r: Result<Obs, CsvError>)
      requires Valid()
      modifies this
      ensures Valid()
      ensures MissingFields(rec) != [] ==>
        r == Err(MissingRequired(MissingFields(rec))) && rows == old(rows) && file == old(file)
      ensures MissingFields(rec) == [] ==>
        rows == UpsertRows(old(rows), rec).value && file == rows
        && r == Ok(Expected(old(rows), rec)) && Reflects(r.value, rec)
        && GetByDate(rec.date.value) == Some(r.value)
    {
      var missing := MissingFields(rec);
      if missing != [] {
        return Err(MissingRequired(missing));
      }
      var d := rec.date.value;
      UpsertOrder(rows, rec);
      UpsertFound(rows, rec);
      ghost var before := rows;
      var idx := FirstIndex(rows, d);
      if idx.Some? {
        rows := rows[idx.value := Updated(rows[idx.value], rec)];
      } else {
        rows := Insert(NewRow(rec), rows, DateOf, true);
      }
      SaveCsv();
      var found := GetByDate(d);
      assert found == Some(Expected(before, rec));
      r := Ok(found.value);
    }

    /** `bulk_insert`: the loop of lookups and upserts with its three counters. */
    method BulkInsert(records: seq<InputRecord>, skipDuplicates: bool) returns (r: Result<Counts, CsvError>)
      requires Valid()
      modifies this
      ensures Valid()
      ensures rows == BulkRun(old(rows), records, skipDuplicates).rows
      ensures r == match BulkRun(old(rows), records, skipDuplicates).error
        case None => Ok(BulkRun(old(rows), records, skipDuplicates).counts)
        case Some(e) => Err(e)
      ensures file == rows || (file == old(file) && rows == old(rows))
    {
      if records == [] {
        return Ok(NoCounts);
      }
      var inserted, updated, skipped := 0, 0, 0;
      var i := 0;
      while i < |records|
        invariant 0 <= i <= |records|
        invariant Valid()
        invariant BulkRun(old(rows), records[..i], skipDuplicates) == Bulk(rows, Counts(inserted, updated, skipped), None)
        invariant file == rows || (file == old(file) && rows == old(rows))
      {
        var rec := records[i];
        BulkRunNext(old(rows), records, i, skipDuplicates);
        if rec.date.Absent? {
          BulkRunStuck(old(rows), records, i + 1, skipDuplicates);
          return Err(MissingDateKey);
        }
        var existing := GetByDate(rec.date.value);
        if existing.Some? && skipDuplicates {
          skipped := skipped + 1;
        } else {
          var u := UpsertRecord(rec);
          if u.Err? {
            BulkRunStuck(old(rows), records, i + 1, skipDuplicates);
            return Err(u.error);
          }
          if existing.Some? {
            updated := updated + 1;
          } else {
            inserted := inserted + 1;
          }
        }
        i := i + 1;
      }
      assert records[..i] == records;
      r := Ok(Counts(inserted, updated, skipped));
    }

    /** `get_statistics`: the row count and the date span; the CSV store names one source. */
    function GetStatistics(): (s: Stats)
      reads this
      ensures rows == [] ==> s == Stats(0, None, None, [])
      ensures rows != [] ==>
        s.totalRecords == |rows| && s.sources == ["csv"]
        && s.earliest.Some? && s.earliest.value in DateSet(rows)
        && s.latest.Some? && s.latest.value in DateSet(rows)
        && forall i :: 0 <= i < |rows| ==> Le(s.earliest.value, rows[i].date) && Le(rows[i].date, s.latest.value)
    {
      if rows == [] then Stats(0, None, None, [])
      else Stats(|rows|, Some(Earliest(rows)), Some(Latest(rows)), ["csv"])
    }

    /** `count_records`: the number of rows, the figure `get_statistics` reports; one per date when dates are distinct. */
    function CountRecords(): (n: nat)
      reads this
      ensures n == GetStatistics().totalRecords
      ensures n == 0 <==> GetStatistics().earliest.None?
      ensures UniqueKeys(rows, DateOf) ==> n == |DateSet(rows)|
    {
      UniqueDatesCount(rows);
      |rows|
    }

    /** `delete_by_date_range`: drops the rows within `[start, end]` and reports how many went. */
    method DeleteByDateRange(start: Date, end: Date) returns (n: nat)
      requires Valid()
      modifies this
      ensures Valid()
      ensures rows == Filter(old(rows), (o: Obs) => Outside(o.date, start, end))
      ensures forall o :: o in rows <==> o in old(rows) && !Within(o.date, start, end)
      ensures n == |old(rows)| - |rows| == |Filter(old(rows), (o: Obs) => Within(o.date, start, end))|
      ensures file == if n > 0 && rows != [] then rows else old(file)
    {
      var outside := (o: Obs) => Outside(o.date, start, end);
      var within := (o: Obs) => Within(o.date, start, end);
      FilterSplit(rows, outside, within);
      FilterSorted(rows, outside, DateOf, true);
      if rows == [] {
        return 0;
      }
      var initial := |rows|;
      rows := Filter(rows, outside);
      n := initial - |rows|;
      if n > 0 {
        SaveCsv();
      }
    }
  }
}
