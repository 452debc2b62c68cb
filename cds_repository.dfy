/**
 * `CDSRepository` (src/database/repositories/cds_repository.py): the
 * `cds_records` table behind the API, as a map from date to row.  Each
 * method is one transaction: a statement that fails leaves the table as
 * it was, since the session rolls back everything not yet committed.
 */
module CdsRepository {
  import opened Wrappers
  import opened Dates
  import opened Sorting
  import opened Records
  import opened Models

  datatype RepoError =
    | MissingRequired(fields: seq<string>)   // ValueError from upsert_record
    | NotNullViolation                       // a row without date or close: IntegrityError
    | NegativeLimit                          // PostgreSQL refuses LIMIT below zero
    | AttributeError(name: string)           // a class attribute the model does not map

  datatype Stats = Stats(totalRecords: nat, earliest: Option<Date>, latest: Option<Date>, sources: set<string>)

  /** A record the table accepts: it has a date and a non-null close. */
  predicate Storable(rec: InputRecord) {
    rec.date.Present? && rec.close.Present? && rec.close.value.Some?
  }

  function OrNone(f: Field<Option<real>>): Option<real> {
    if f.Present? then f.value else None
  }

  /** The row an INSERT of `rec` proposes; on a date conflict it replaces every non-key column. */
  function RowOf(rec: InputRecord, source: string): (r: CdsRecord)
    requires Storable(rec)
    ensures r.date == rec.date.value && Some(r.close) == rec.close.value
    ensures r.open == OrNone(rec.open) && r.high == OrNone(rec.high) && r.low == OrNone(rec.low)
    ensures r.changePct == OrNone(rec.changePct) && r.source == Some(source)
  {
    CdsRecord(rec.date.value, OrNone(rec.open), OrNone(rec.high), OrNone(rec.low),
      rec.close.value.value, OrNone(rec.changePct), Some(source))
  }

  // ------------------------------------------- bulk_insert, update mode

  /** Every record can be stored. */
  predicate AllStorable(recs: seq<InputRecord>) {
    forall i :: 0 <= i < |recs| ==> Storable(recs[i])
  }

  /** One upsert statement per record, in order. */
  function UpsertAll(table: map<Date, CdsRecord>, recs: seq<InputRecord>, source: string): map<Date, CdsRecord>
    requires AllStorable(recs)
    decreases |recs|
  {
    if recs == [] then table
    else
      var last := recs[|recs| - 1];
      UpsertAll(table, recs[..|recs| - 1], source)[last.date.value := RowOf(last, source)]
  }

  /** The dates the records carry. */
  function DatesOf(recs: seq<InputRecord>): set<Date>
    requires AllStorable(recs)
  {
    set i | 0 <= i < |recs| :: recs[i].date.value
  }

  /** Position `i` holds the last record with its date. */
  predicate IsLastRecord(recs: seq<InputRecord>, i: nat)
    requires AllStorable(recs)
  {
    i < |recs| && forall j :: i < j < |recs| ==> recs[j].date.value != recs[i].date.value
  }

  /**
   * After the upserts, a record's date holds the row of the last record
   * with that date; every other date keeps its row.
   */
  lemma {:induction false} UpsertAllLastWins(table: map<Date, CdsRecord>, recs: seq<InputRecord>, source: string, d: Date)
    requires AllStorable(recs)
    ensures var t := UpsertAll(table, recs, source);
      (d in t <==> d in table || d in DatesOf(recs))
      && (d !in DatesOf(recs) && d in table ==> t[d] == table[d])
      && (forall i: nat :: IsLastRecord(recs, i) && recs[i].date.value == d ==> t[d] == RowOf(recs[i], source))
    decreases |recs|
  {
    if recs != [] {
      var p := recs[..|recs| - 1];
      var last := recs[|recs| - 1];
      DropLast(recs);
      UpsertAllLastWins(table, p, source, d);
      forall i: nat | IsLastRecord(recs, i) && recs[i].date.value == d
        ensures UpsertAll(table, recs, source)[d] == RowOf(recs[i], source)
      {
        if i < |p| {
          assert p[i] == recs[i];
          assert last.date.value != d;
          assert IsLastRecord(p, i) by {
            forall j | i < j < |p| ensures p[j].date.value != p[i].date.value { assert p[j] == recs[j]; }
          }
        }
      }
    }
  }

  /** Every date the records carry has a last record. */
  lemma {:induction false} LastRecordExists(recs: seq<InputRecord>, d: Date)
    requires AllStorable(recs) && d in DatesOf(recs)
    ensures exists i: nat :: IsLastRecord(recs, i) && recs[i].date.value == d
    decreases |recs|
  {
    var p := recs[..|recs| - 1];
    var n := |recs| - 1;
    DropLast(recs);
    if recs[n].date.value == d {
      assert IsLastRecord(recs, n);
    } else {
      LastRecordExists(p, d);
      var i: nat :| IsLastRecord(p, i) && p[i].date.value == d;
      assert recs[i] == p[i];
      assert IsLastRecord(recs, i) by {
        forall j | i < j < |recs| ensures recs[j].date.value != recs[i].date.value {
          if j < n { assert recs[j] == p[j]; }
        }
      }
    }
  }

  /** Upserting the same batch a second time leaves the table as the first time did. */
  lemma UpsertAllIdempotent(table: map<Date, CdsRecord>, recs: seq<InputRecord>, source: string)
    requires AllStorable(recs)
    ensures UpsertAll(UpsertAll(table, recs, source), recs, source) == UpsertAll(table, recs, source)
  {
    var t1 := UpsertAll(table, recs, source);
    var t2 := UpsertAll(t1, recs, source);
    forall d ensures (d in t2 <==> d in t1) && (d in t1 ==> t2[d] == t1[d]) {
      UpsertAllLastWins(table, recs, source, d);
      UpsertAllLastWins(t1, recs, source, d);
      if d in DatesOf(recs) {
        LastRecordExists(recs, d);
      }
    }
  }

  // ----------------------------------------------- bulk_insert, skip mode

  /** `INSERT ... ON CONFLICT DO NOTHING` of all records: a date already held, even by an earlier record, is skipped. */
  function InsertNew(table: map<Date, CdsRecord>, recs: seq<InputRecord>, source: string): (r: (map<Date, CdsRecord>, nat))
    requires AllStorable(recs)
    ensures r.1 <= |recs|
    ensures forall i :: 0 <= i < |recs| ==> recs[i].date.value in r.0
    decreases |recs|
  {
    if recs == [] then (table, 0)
    else
      var last := recs[|recs| - 1];
      var (t, n) := InsertNew(table, recs[..|recs| - 1], source);
      if last.date.value in t then (t, n) else (t[last.date.value := RowOf(last, source)], n + 1)
  }

  /** Position `i` holds the first record with its date. */
  predicate IsFirstRecord(recs: seq<InputRecord>, i: nat)
    requires AllStorable(recs)
  {
    i < |recs| && forall j :: 0 <= j < i ==> recs[j].date.value != recs[i].date.value
  }

  /** Dropping the last record keeps the rest storable and drops at most its date. */
  lemma DropLast(recs: seq<InputRecord>)
    requires AllStorable(recs) && recs != []
    ensures AllStorable(recs[..|recs| - 1])
    ensures DatesOf(recs) == DatesOf(recs[..|recs| - 1]) + {recs[|recs| - 1].date.value}
  {
    var p := recs[..|recs| - 1];
    assert forall i :: 0 <= i < |p| ==> p[i] == recs[i];
    forall e | e in DatesOf(recs) ensures e in DatesOf(p) + {recs[|recs| - 1].date.value} {
      var i :| 0 <= i < |recs| && recs[i].date.value == e;
      if i < |p| { assert p[i] == recs[i]; }
    }
  }

  /** Skipping keeps every stored row, adds each new date once, and counts what it added. */
  lemma {:induction false} InsertNewKeys(table: map<Date, CdsRecord>, recs: seq<InputRecord>, source: string)
    requires AllStorable(recs)
    ensures var (t, n) := InsertNew(table, recs, source);
      (forall d :: d in t <==> d in table || d in DatesOf(recs))
      && (forall d :: d in table ==> t[d] == table[d])
      && |t.Keys| == |table.Keys| + n
    decreases |recs|
  {
    if recs != [] {
      var p := recs[..|recs| - 1];
      var last := recs[|recs| - 1];
      DropLast(recs);
      InsertNewKeys(table, p, source);
      var (t, n) := InsertNew(table, p, source);
      if last.date.value !in t {
        assert (t[last.date.value := RowOf(last, source)]).Keys == t.Keys + {last.date.value};
      }
    }
  }

  /** A new date gets the row of the first record that carries it. */
  lemma {:induction false} InsertNewFirst(table: map<Date, CdsRecord>, recs: seq<InputRecord>, source: string, i: nat)
    requires AllStorable(recs) && IsFirstRecord(recs, i) && recs[i].date.value !in table
    ensures InsertNew(table, recs, source).0[recs[i].date.value] == RowOf(recs[i], source)
    decreases |recs|
  {
    var p := recs[..|recs| - 1];
    var d := recs[i].date.value;
    DropLast(recs);
    InsertNewKeys(table, recs, source);
    if i < |p| {
      assert p[i] == recs[i];
      assert IsFirstRecord(p, i) by {
        forall j | 0 <= j < i ensures p[j].date.value != p[i].date.value { assert p[j] == recs[j]; }
      }
      InsertNewFirst(table, p, source, i);
      InsertNewKeys(table, p, source);
    } else {
      InsertNewKeys(table, p, source);
      forall j | 0 <= j < |p| ensures p[j].date.value != d {
        assert p[j] == recs[j];
      }
      assert d !in DatesOf(p);
    }
  }

  // ------------------------------------------------ ordering a selection

  /** `d` may precede every date of `s`. */
  predicate IsExtreme(d: Date, s: set<Date>, descending: bool) {
    d in s && forall e :: e in s ==> InOrder(d, e, descending)
  }

  /** A non-empty set of dates has a first element in either direction. */
  lemma {:induction false} ExtremeExists(s: set<Date>, descending: bool)
    requires s != {}
    ensures exists d :: IsExtreme(d, s, descending)
    decreases |s|
  {
    var x :| x in s;
    if s == {x} {
      assert IsExtreme(x, s, descending);
    } else {
      var rest := s - {x};
      assert rest != {};
      ExtremeExists(rest, descending);
      var y :| IsExtreme(y, rest, descending);
      InOrderTotal(x, y, descending);
      if InOrder(x, y, descending) {
        forall e | e in s ensures InOrder(x, e, descending) {
          if e != x { InOrderTrans(x, y, e, descending); }
        }
        assert IsExtreme(x, s, descending);
      } else {
        assert IsExtreme(y, s, descending);
      }
    }
  }

  /** The rows whose date `keep` selects, strictly ordered by date in the requested direction. */
  method Ordered(table: map<Date, CdsRecord>, keep: Date -> bool, descending: bool) returns (r: seq<CdsRecord>)
    requires WellKeyed(table)
    ensures StrictlySorted(r, RecordDate, descending)
    ensures forall i :: 0 <= i < |r| ==> r[i].date in table && keep(r[i].date) && table[r[i].date] == r[i]
    ensures forall d :: d in table && keep(d) ==> table[d] in r
  {
    var remaining := set d | d in table && keep(d);
    r := [];
    while remaining != {}
      invariant forall d :: d in remaining ==> d in table && keep(d)
      invariant forall i :: 0 <= i < |r| ==> r[i].date in table && keep(r[i].date) && table[r[i].date] == r[i]
      invariant forall i :: 0 <= i < |r| ==> r[i].date !in remaining
      invariant forall d :: d in table && keep(d) ==> d in remaining || table[d] in r
      invariant StrictlySorted(r, RecordDate, descending)
      invariant forall i, e :: 0 <= i < |r| && e in remaining ==>
                  if descending then Lt(e, r[i].date) else Lt(r[i].date, e)
      decreases |remaining|
    {
      ExtremeExists(remaining, descending);
      var d :| IsExtreme(d, remaining, descending);
      SnocStrict(r, table[d], descending);
      r := r + [table[d]];
      remaining := remaining - {d};
    }
  }

  /** A row dated after every row of a strictly ordered sequence may follow it. */
  lemma {:induction false} SnocStrict(r: seq<CdsRecord>, x: CdsRecord, descending: bool)
    requires StrictlySorted(r, RecordDate, descending)
    requires forall i :: 0 <= i < |r| ==> if descending then Lt(x.date, r[i].date) else Lt(r[i].date, x.date)
    ensures StrictlySorted(r + [x], RecordDate, descending)
  {
    var s := r + [x];
    forall i, j | 0 <= i < j < |s|
      ensures if descending then Lt(RecordDate(s[j]), RecordDate(s[i])) else Lt(RecordDate(s[i]), RecordDate(s[j]))
    {
      assert s[i] == r[i];
      if j < |r| { assert s[j] == r[j]; } else { assert s[j] == x; }
    }
  }

  /** Within `[start, end]`, both ends inclusive. */
  predicate Within(d: Date, start: Date, end: Date) { Le(start, d) && Le(d, end) }

  /** Within the optional bounds; a missing bound does not filter. */
  predicate InRange(d: Date, start: Option<Date>, end: Option<Date>) {
    (start.None? || Le(start.value, d)) && (end.None? || Le(d, end.value))
  }

  /** The ORM attributes of `CDSRecord`: the `date` column is mapped as `record_date`. */
  const MappedAttributes: set<string> :=
    {"id", "record_date", "open", "high", "low", "close", "change_pct", "created_at", "updated_at", "source"}

  /** The attribute `get_date_range` orders by, in either direction. */
  function OrderAttribute(orderBy: string): string { "date" }

  /**
   * `get_date_range` as written: building the ORDER BY reads the class
   * attribute `CDSRecord.date`, which raises before any query runs.
   */
  function GetDateRangeAsWritten(table: map<Date, CdsRecord>, start: Option<Date>, end: Option<Date>,
                                 orderBy: string): Result<seq<CdsRecord>, RepoError>
  {
    var attr := OrderAttribute(orderBy);
    if attr !in MappedAttributes then Err(AttributeError(attr))
    else Ok([])
  }

  /** No call of the written `get_date_range` returns rows. */
  lemma DateRangeAsWrittenFails(table: map<Date, CdsRecord>, start: Option<Date>, end: Option<Date>, orderBy: string)
    ensures GetDateRangeAsWritten(table, start, end, orderBy) == Err(AttributeError("date"))
  {
    assert "date" !in MappedAttributes by {
      assert "date" != "record_date" && "date" != "id" && "date" != "open" && "date" != "high";
    }
  }

  class CdsRepository {
    /** The `cds_records` table, keyed by its unique date. */
    var table: map<Date, CdsRecord>

    ghost predicate Valid()
      reads this
    {
      WellKeyed(table)
    }

    constructor(rows: map<Date, CdsRecord>)
      requires WellKeyed(rows)
      ensures Valid() && table == rows
    {
      table := rows;
    }

    /** `get_by_date`. */
    function GetByDate(d: Date): (r: Option<CdsRecord>)
      reads this
      ensures r.Some? <==> d in table
      ensures Valid() && r.Some? ==> r.value.date == d
    {
      if d in table then Some(table[d]) else None
    }

    /** `get_latest`: the `limit` newest rows, newest first. */
    method GetLatest(limit: int) returns (r: Result<seq<CdsRecord>, RepoError>)
      requires Valid()
      ensures limit < 0 <==> r == Err(NegativeLimit)
      ensures r.Ok? ==> |r.value| == if limit < |table| then limit else |table|
      ensures r.Ok? ==> StrictlySorted(r.value, RecordDate, true)
      ensures r.Ok? ==> forall i :: 0 <= i < |r.value| ==> r.value[i].date in table && table[r.value[i].date] == r.value[i]
      ensures r.Ok? ==> forall i, d :: 0 <= i < |r.value| && d in table && Lt(r.value[i].date, d) ==> table[d] in r.value
    {
      if limit < 0 {
        return Err(NegativeLimit);
      }
      var all := Ordered(table, (d: Date) => true, true);
      OrderedCount(table, all);
      var k := if limit < |all| then limit else |all|;
      NewestPrefix(all, k);
      r := Ok(all[..k]);
      forall i, d | 0 <= i < k && d in table && Lt(all[i].date, d) ensures table[d] in all[..k] {
        var j :| 0 <= j < |all| && all[j] == table[d];
        assert j < k;
        assert all[..k][j] == table[d];
      }
    }

    /** `get_date_range` with the ORDER BY on the mapped attribute: the rows within the bounds, ascending only for "asc". */
    method GetDateRange(start: Option<Date>, end: Option<Date>, orderBy: string) returns (r: seq<CdsRecord>)
      requires Valid()
      ensures StrictlySorted(r, RecordDate, Strings.Lower(orderBy) != "asc")
      ensures forall i :: 0 <= i < |r| ==> r[i].date in table && table[r[i].date] == r[i] && InRange(r[i].date, start, end)
      ensures forall d :: d in table && InRange(d, start, end) ==> table[d] in r
    {
      r := Ordered(table, (d: Date) => InRange(d, start, end), Strings.Lower(orderBy) != "asc");
    }

    /** `upsert_record`: insert the row, or replace every non-key column of the row with that date. */
    method UpsertRecord(rec: InputRecord, source: string) returns (r: Result<CdsRecord, RepoError>)
      requires Valid()
      modifies this
      ensures Valid()
      ensures MissingFields(rec) != [] ==> r == Err(MissingRequired(MissingFields(rec))) && table == old(table)
      ensures MissingFields(rec) == [] && !Storable(rec) ==> r == Err(NotNullViolation) && table == old(table)
      ensures MissingFields(rec) == [] && Storable(rec) ==>
        r == Ok(RowOf(rec, source)) && table == old(table)[rec.date.value := RowOf(rec, source)]
    {
      var missing := MissingFields(rec);
      if missing != [] {
        return Err(MissingRequired(missing));
      }
      if !Storable(rec) {
        return Err(NotNullViolation);
      }
      var row := RowOf(rec, source);
      table := table[rec.date.value := row];
      r := Ok(row);
    }

    /**
     * `bulk_insert`.  Skipping duplicates is one INSERT ... ON CONFLICT DO
     * NOTHING; otherwise one upsert per record, each counted as inserted.
     * A record without a date or close fails the transaction and nothing
     * is kept.
     */
    method BulkInsert(records: seq<InputRecord>, source: string, skipDuplicates: bool)
      returns (r: Result<Counts, RepoError>)
      requires Valid()
      modifies this
      ensures Valid()
      ensures records == [] ==> r == Ok(NoCounts) && table == old(table)
      ensures records != [] && !AllStorable(records) ==> r == Err(NotNullViolation) && table == old(table)
      ensures records != [] && AllStorable(records) && skipDuplicates ==>
        var (t, n) := InsertNew(old(table), records, source);
        table == t && r == Ok(Counts(n, 0, |records| - n))
      ensures records != [] && AllStorable(records) && !skipDuplicates ==>
        table == UpsertAll(old(table), records, source) && r == Ok(Counts(|records|, 0, 0))
    {
      if records == [] {
        return Ok(NoCounts);
      }
      if skipDuplicates {
        if !AllStorable(records) {
          return Err(NotNullViolation);
        }
        var (t, n) := InsertNew(table, records, source);
        InsertNewKeyed(table, records, source);
        table := t;
        return Ok(Counts(n, 0, |records| - n));
      }
      var before := table;
      var inserted := 0;
      var i := 0;
      while i < |records|
        invariant 0 <= i <= |records| && inserted == i
        invariant AllStorable(records[..i])
        invariant table == UpsertAll(before, records[..i], source)
        invariant WellKeyed(table)
      {
        var rec := records[i];
        if !Storable(rec) {
          table := before;
          return Err(NotNullViolation);
        }
        assert records[..i + 1][..i] == records[..i];
        assert records[..i + 1][i] == rec;
        table := table[rec.date.value := RowOf(rec, source)];
        inserted := inserted + 1;
        i := i + 1;
      }
      assert records[..i] == records;
      r := Ok(Counts(inserted, 0, 0));
    }

    /** `get_statistics`: row count, date span and the distinct non-empty sources. */
    method GetStatistics() returns (s: Stats)
      requires Valid()
      ensures table == map[] ==> s == Stats(0, None, None, {})
      ensures table != map[] ==>
        s.totalRecords == |table| && s.earliest.Some? && s.latest.Some?
        && s.earliest.value in table && s.latest.value in table
        && forall d :: d in table ==> Le(s.earliest.value, d) && Le(d, s.latest.value)
      ensures forall src :: src in s.sources <==>
                src != [] && exists d :: d in table && table[d].source == Some(src)
    {
      var sources := set d | d in table && table[d].source.Some? && table[d].source.value != [] :: table[d].source.value;
      if table == map[] {
        return Stats(0, None, None, {});
      }
      var keys := table.Keys;
      assert keys != {} by {
        var k :| k in table;
      }
      ExtremeExists(keys, false);
      ExtremeExists(keys, true);
      var lo :| IsExtreme(lo, keys, false);
      var hi :| IsExtreme(hi, keys, true);
      s := Stats(|table|, Some(lo), Some(hi), sources);
    }

    /** `count_records`: `COUNT(id)`, one row per stored date; zero exactly when nothing is stored. */
    function CountRecords(): (n: nat)
      reads this
      ensures n == |table.Keys|
      ensures n == 0 <==> table == map[]
    {
      |table|
    }

    /** `delete_by_date_range`: removes the rows within `[start, end]` and reports how many. */
    method DeleteByDateRange(start: Date, end: Date) returns (n: nat)
      requires Valid()
      modifies this
      ensures Valid()
      ensures forall d :: d in table <==> d in old(table) && !Within(d, start, end)
      ensures forall d :: d in table ==> table[d] == old(table)[d]
      ensures n == |old(table)| - |table| == |set d | d in old(table) && Within(d, start, end)|
    {
      var gone := set d | d in table && Within(d, start, end);
      var kept := map d | d in table && !Within(d, start, end) :: table[d];
      assert table.Keys == kept.Keys + gone;
      assert kept.Keys * gone == {};
      n := |gone|;
      table := kept;
    }
  }

  /** Every table row listed once, strictly by date: as many rows as the table holds. */
  lemma OrderedCount(table: map<Date, CdsRecord>, all: seq<CdsRecord>)
    requires StrictlySorted(all, RecordDate, true)
    requires forall i :: 0 <= i < |all| ==> all[i].date in table
    requires forall d :: d in table ==> table[d] in all
    requires WellKeyed(table)
    ensures |all| == |table|
  {
    var ds := set i | 0 <= i < |all| :: all[i].date;
    forall d | d in table ensures d in ds {
      var i :| 0 <= i < |all| && all[i] == table[d];
    }
    assert ds == table.Keys;
    DistinctDates(all);
  }

  /** In a newest-first sequence, the first `k` rows are newer than the rest. */
  lemma NewestPrefix(all: seq<CdsRecord>, k: nat)
    requires StrictlySorted(all, RecordDate, true) && k <= |all|
    ensures forall i, m :: 0 <= i < k <= m < |all| ==> Lt(all[m].date, all[i].date)
  {
    forall i, m | 0 <= i < k <= m < |all| ensures Lt(all[m].date, all[i].date) {
      assert Lt(RecordDate(all[m]), RecordDate(all[i]));
    }
  }

  /** The dates of a sequence of rows. */
  function RowDates(s: seq<CdsRecord>): set<Date> {
    set i | 0 <= i < |s| :: s[i].date
  }

  /** Rows with distinct dates number as many as their dates. */
  lemma {:induction false} DistinctDates(s: seq<CdsRecord>)
    requires StrictlySorted(s, RecordDate, true)
    ensures |set i | 0 <= i < |s| :: s[i].date| == |s|
    decreases |s|
  {
    assert RowDates(s) == set i | 0 <= i < |s| :: s[i].date;
    if s != [] {
      StrictTail(s);
      DistinctDates(s[1..]);
      RowDatesCons(s);
    }
  }

  /** The tail of a strictly newest-first sequence is strictly newest first, and older than its head. */
  lemma {:induction false} StrictTail(s: seq<CdsRecord>)
    requires StrictlySorted(s, RecordDate, true) && s != []
    ensures StrictlySorted(s[1..], RecordDate, true)
    ensures s[0].date !in RowDates(s[1..])
  {
    var t := s[1..];
    forall i, j | 0 <= i < j < |t| ensures Lt(RecordDate(t[j]), RecordDate(t[i])) {
      assert t[i] == s[i + 1] && t[j] == s[j + 1];
    }
    forall i | 0 <= i < |t| ensures t[i].date != s[0].date {
      assert t[i] == s[i + 1];
      assert Lt(RecordDate(s[i + 1]), RecordDate(s[0]));
    }
  }

  /** The dates of a sequence: its head's and its tail's. */
  lemma {:induction false} RowDatesCons(s: seq<CdsRecord>)
    requires s != []
    ensures RowDates(s) == RowDates(s[1..]) + {s[0].date}
  {
    var t := s[1..];
    forall e | e in RowDates(s) ensures e in RowDates(t) + {s[0].date} {
      var i :| 0 <= i < |s| && s[i].date == e;
      if i > 0 { assert t[i - 1] == s[i]; }
    }
    forall e | e in RowDates(t) ensures e in RowDates(s) {
      var i :| 0 <= i < |t| && t[i].date == e;
      assert s[i + 1] == t[i];
    }
  }

  /** The skip-mode insert keeps every row under its own date. */
  lemma {:induction false} InsertNewKeyed(table: map<Date, CdsRecord>, recs: seq<InputRecord>, source: string)
    requires AllStorable(recs) && WellKeyed(table)
    ensures WellKeyed(InsertNew(table, recs, source).0)
    decreases |recs|
  {
    if recs != [] {
      var p := recs[..|recs| - 1];
      assert AllStorable(p) by {
        forall i | 0 <= i < |p| ensures Storable(p[i]) { assert p[i] == recs[i]; }
      }
      InsertNewKeyed(table, p, source);
    }
  }
}
