/**
 * The query side of `GET /cds` (src/api/routes/cds.py): the `yyyy-MM-dd`
 * parser behind `parse_date_or_error`, the validation and defaulting of
 * `order`, `data_inicial` and `data_final`, and the list payload with its
 * `date_range` summary.
 *
 * `datetime.strptime(s, "%Y-%m-%d")` is modelled as CPython's `_strptime`
 * does it: the format becomes the regular expression
 * `(\d\d\d\d)-(1[0-2]|0[1-9]|[1-9])-(3[01]|[12]\d|0[1-9]|[1-9]| [1-9])`,
 * matched at the start of the string with backtracking; a match that does
 * not reach the end leaves "unconverted data", and the matched fields must
 * then name a real date.  Only the first failure is reported as "does not
 * match format"; the other two are a different `ValueError`.
 */
module CdsRoutes {
  import opened Wrappers
  import opened Strings
  import opened Dates
  import Models
  import CdsRepository

  // ------------------------------------------------------------ strptime

  /** How `datetime.strptime` fails, told apart as the route does, by the message. */
  datatype DateError =
    | BadFormat   // "does not match format"
    | BadValue    // "unconverted data remains", or no such day in that month or year

  /** A successful match of the pattern: the field values and where the match ends. */
  datatype Match = Match(year: nat, month: nat, day: nat, end: nat)

  predicate Between(c: char, lo: char, hi: char) { lo <= c <= hi }

  /**
   * The `%m` alternatives `1[0-2]`, `0[1-9]`, `[1-9]` that match at `i`,
   * in the order the regex tries them, as (length, value) pairs.
   */
  function MonthAlternatives(s: string, i: nat): (alts: seq<(nat, nat)>)
    ensures forall k :: 0 <= k < |alts| ==> 1 <= alts[k].1 <= 12 && 1 <= alts[k].0 <= 2
  {
    (if i + 1 < |s| && s[i] == '1' && Between(s[i + 1], '0', '2') then [(2, 10 + DigitValue(s[i + 1]))] else [])
    + (if i + 1 < |s| && s[i] == '0' && Between(s[i + 1], '1', '9') then [(2, DigitValue(s[i + 1]))] else [])
    + (if i < |s| && Between(s[i], '1', '9') then [(1, DigitValue(s[i]))] else [])
  }

  /**
   * The first `%d` alternative among `3[01]`, `[12]\d`, `0[1-9]`, `[1-9]`,
   * ` [1-9]` that matches at `i`, as a (length, value) pair.  It ends the
   * pattern, so the regex never backtracks into it.
   */
  function DayMatch(s: string, i: nat): (m: Option<(nat, nat)>)
    ensures m.Some? ==> 1 <= m.value.1 <= 31 && 1 <= m.value.0 <= 2 && i + m.value.0 <= |s|
  {
    if i + 1 < |s| && s[i] == '3' && Between(s[i + 1], '0', '1') then Some((2, 30 + DigitValue(s[i + 1])))
    else if i + 1 < |s| && Between(s[i], '1', '2') && IsDigit(s[i + 1]) then Some((2, 10 * DigitValue(s[i]) + DigitValue(s[i + 1])))
    else if i + 1 < |s| && s[i] == '0' && Between(s[i + 1], '1', '9') then Some((2, DigitValue(s[i + 1])))
    else if i < |s| && Between(s[i], '1', '9') then Some((1, DigitValue(s[i])))
    else if i + 1 < |s| && s[i] == ' ' && Between(s[i + 1], '1', '9') then Some((2, DigitValue(s[i + 1])))
    else None
  }

  /** Tries the month alternatives in turn, each followed by `-` and a day. */
  function TryMonths(s: string, year: nat, alts: seq<(nat, nat)>): (m: Option<Match>)
    requires forall k :: 0 <= k < |alts| ==> 1 <= alts[k].1 <= 12
    ensures m.Some? ==> m.value.year == year && 1 <= m.value.month <= 12 && 1 <= m.value.day <= 31 && m.value.end <= |s|
    decreases |alts|
  {
    if alts == [] then None
    else
      var j := 5 + alts[0].0;
      if j < |s| && s[j] == '-' && DayMatch(s, j + 1).Some? then
        var (len, day) := DayMatch(s, j + 1).value;
        Some(Match(year, alts[0].1, day, j + 1 + len))
      else TryMonths(s, year, alts[1..])
  }

  /** `re.match` of the `%Y-%m-%d` pattern against `s`. */
  function FormatMatch(s: string): (m: Option<Match>)
    ensures m.Some? ==> 1 <= m.value.month <= 12 && 1 <= m.value.day <= 31 && m.value.end <= |s|
  {
    if |s| < 5 || !AllDigits(s[..4]) || s[4] != '-' then None
    else TryMonths(s, DigitsValue(s[..4]), MonthAlternatives(s, 5))
  }

  /** `datetime.strptime(s, "%Y-%m-%d").date()`. */
  function StrpTime(s: string): (r: Result<Date, DateError>)
    ensures r.Ok? ==> IsValid(r.value)
    ensures r == Err(BadFormat) <==> FormatMatch(s).None?
  {
    match FormatMatch(s)
    case None => Err(BadFormat)
    case Some(m) =>
      var d := Date(m.year, m.month, m.day);
      if m.end != |s| || !IsValid(d) then Err(BadValue) else Ok(d)
  }

  /** Two zero-padded digits. */
  lemma PadTwo(n: nat)
    requires n < 100
    ensures PadDigits(n, 2) == [DigitChar(n / 10), DigitChar(n % 10)]
  {
    assert PadDigits(n / 10, 1) == PadDigits(n / 100, 0) + [DigitChar((n / 10) % 10)];
  }

  /** Every date `isoformat()` prints is read back by the parser as itself. */
  lemma {:induction false} IsoFormatParses(d: Date)
    requires IsValid(d)
    ensures StrpTime(IsoFormat(d)) == Ok(d)
  {
    var s := IsoFormat(d);
    assert s[..4] == PadDigits(d.year, 4);
    assert Pow10(4) == 10000;
    PadDigitsValue(d.year, 4);
    PadTwo(d.month);
    PadTwo(d.day);
    assert s[5..7] == PadDigits(d.month, 2);
    assert s[8..10] == PadDigits(d.day, 2);
    assert s[5] == DigitChar(d.month / 10) && s[6] == DigitChar(d.month % 10);
    assert s[8] == DigitChar(d.day / 10) && s[9] == DigitChar(d.day % 10);
    var alts := MonthAlternatives(s, 5);
    assert alts[0] == (2, d.month);
    var dm := DayMatch(s, 8);
    assert dm == Some((2, d.day));
  }

  /** A real date written without zero padding is accepted too. */
  lemma UnpaddedAccepted()
    ensures StrpTime("2025-1-5") == Ok(Date(2025, 1, 5))
  {
    assert "2025-1-5"[..4] == "2025";
    assert DigitsValue("2025") == 2025 by {
      assert "2025"[..3] == "202" && "202"[..2] == "20" && "20"[..1] == "2";
    }
    assert MonthAlternatives("2025-1-5", 5) == [(1, 1)];
  }

  /** Trailing characters after a complete date are a value error, not a format error. */
  lemma TrailingDataIsValueError()
    ensures StrpTime("2025-01-15x") == Err(BadValue)
  {
    var s := "2025-01-15x";
    assert MonthAlternatives(s, 5) == [(2, 1)];
    assert DayMatch(s, 8) == Some((2, 15));
  }

  /** A day the month does not have is a value error. */
  lemma ImpossibleDayIsValueError()
    ensures StrpTime("2025-02-30") == Err(BadValue)
  {
    var s := "2025-02-30";
    assert s[..4] == "2025";
    assert DigitsValue("2025") == 2025 by {
      assert "2025"[..3] == "202" && "202"[..2] == "20" && "20"[..1] == "2";
    }
    assert MonthAlternatives(s, 5) == [(2, 2)];
    assert DayMatch(s, 8) == Some((2, 30));
  }

  /** A thirteenth month is a format error: no month alternative can be followed by `-`. */
  lemma MonthThirteenIsFormatError()
    ensures StrpTime("2025-13-28") == Err(BadFormat)
  {
    var s := "2025-13-28";
    assert MonthAlternatives(s, 5) == [(1, 1)];
    assert s[6] != '-';
  }

  // ------------------------------------------------------ query handling

  /** Why a `GET /cds` request fails. */
  datatype Failure =
    | InvalidOrder(order: string)
    | InvalidDateFormat(param: string)
    | InvalidDateValue(param: string)
    | StartAfterEnd(start: Date, end: Date)
    | Overflow                                    // the ±30-day shift leaves the date range
    | ServerError(cause: CdsRepository.RepoError) // anything the query raises

  /** The HTTP status each failure is answered with. */
  function StatusCode(f: Failure): (code: nat)
    ensures code == 400 || code == 500
  {
    match f
    case Overflow => 500
    case ServerError(_) => 500
    case _ => 400
  }

  /** The days added to or taken from a lone bound. */
  const DefaultSpan: nat := 30

  /** `parse_date_or_error`: either message is a 400 naming the parameter. */
  function ParseDateOrError(s: string, param: string): (r: Result<Date, Failure>)
    ensures r.Ok? <==> StrpTime(s).Ok?
    ensures r.Ok? ==> IsValid(r.value) && StrpTime(s) == Ok(r.value)
    ensures r.Err? ==> StatusCode(r.error) == 400
    ensures r.Err? ==> (r.error.InvalidDateFormat? || r.error.InvalidDateValue?) && r.error.param == param
    ensures r.Err? ==> (r.error.InvalidDateFormat? <==> FormatMatch(s).None?)
  {
    match StrpTime(s)
    case Ok(d) => Ok(d)
    case Err(BadFormat) => Err(InvalidDateFormat(param))
    case Err(BadValue) => Err(InvalidDateValue(param))
  }

  /** A query parameter takes part only when it is a non-empty string. */
  predicate Given(p: Option<string>) { p.Some? && p.value != [] }

  /** A parameter that is absent or empty is no bound. */
  function ParseParam(p: Option<string>, param: string): (r: Result<Option<Date>, Failure>)
    ensures r.Ok? ==> (r.value.Some? <==> Given(p)) && (r.value.Some? ==> IsValid(r.value.value))
    ensures r.Ok? && r.value.Some? ==> StrpTime(p.value) == Ok(r.value.value)
    ensures r.Err? ==> Given(p) && StrpTime(p.value).Err?
    ensures r.Err? ==> (r.error.InvalidDateFormat? || r.error.InvalidDateValue?) && r.error.param == param
  {
    if !Given(p) then Ok(None)
    else match ParseDateOrError(p.value, param)
      case Ok(d) => Ok(Some(d))
      case Err(e) => Err(e)
  }

  /** The bounds the query runs with. */
  datatype Query = Query(start: Option<Date>, end: Option<Date>, order: string)

  /** A lone start gets an end 30 days later, a lone end a start 30 days earlier. */
  function Complete(start: Option<Date>, end: Option<Date>): (r: Result<(Option<Date>, Option<Date>), Failure>)
    requires start.Some? ==> IsValid(start.value)
    requires end.Some? ==> IsValid(end.value)
    ensures r.Err? ==> r.error == Overflow && start.Some? != end.Some?
    ensures r.Ok? ==> (r.value.0.Some? <==> start.Some? || end.Some?) && (r.value.0.Some? <==> r.value.1.Some?)
    ensures r.Ok? && r.value.0.Some? ==> IsValid(r.value.0.value) && IsValid(r.value.1.value)
    ensures r.Ok? && start.Some? ==> r.value.0 == start
    ensures r.Ok? && end.Some? ==> r.value.1 == end
    ensures r.Ok? && start.Some? != end.Some? ==> Le(r.value.0.value, r.value.1.value)
  {
    match (start, end)
    case (Some(s), None) =>
      (match AddDays(s, DefaultSpan)
       case None => Err(Overflow)
       case Some(e) => AddDaysLe(s, DefaultSpan); Ok((start, Some(e))))
    case (None, Some(e)) =>
      (match SubDays(e, DefaultSpan)
       case None => Err(Overflow)
       case Some(s) => SubDaysLe(e, DefaultSpan); Ok((Some(s), end)))
    case _ => Ok((start, end))
  }

  /**
   * The validation at the top of `get_cds_records`: `order` first, then
   * `data_inicial`, then `data_final`, then the defaulting, then the order
   * of the two bounds.
   */
  function ResolveQuery(dataInicial: Option<string>, dataFinal: Option<string>, order: string): (r: Result<Query, Failure>)
    ensures r == Err(InvalidOrder(order)) <==> order != "asc" && order != "desc"
    ensures r.Ok? ==> r.value.order == order && (order == "asc" || order == "desc")
    ensures r.Ok? ==> (r.value.start.Some? <==> Given(dataInicial) || Given(dataFinal))
    ensures r.Ok? ==> (r.value.start.Some? <==> r.value.end.Some?)
    ensures r.Ok? && r.value.start.Some? ==>
      IsValid(r.value.start.value) && IsValid(r.value.end.value) && Le(r.value.start.value, r.value.end.value)
    ensures r.Err? && r.error.StartAfterEnd? ==> Given(dataInicial) && Given(dataFinal)
    ensures r.Err? && r.error.Overflow? ==> Given(dataInicial) != Given(dataFinal)
  {
    if order != "asc" && order != "desc" then Err(InvalidOrder(order))
    else match ParseParam(dataInicial, "data_inicial")
      case Err(e) => Err(e)
      case Ok(start) =>
        match ParseParam(dataFinal, "data_final")
        case Err(e) => Err(e)
        case Ok(end) =>
          match Complete(start, end)
          case Err(e) => Err(e)
          case Ok((s, e)) =>
            if s.Some? && e.Some? && Lt(e.value, s.value) then Err(StartAfterEnd(s.value, e.value))
            else Ok(Query(s, e, order))
  }

  /** With only `data_inicial`, the range covers that day and the 30 after it. */
  lemma OnlyStartSpan(dataInicial: string, order: string)
    requires dataInicial != [] && (order == "asc" || order == "desc")
    requires StrpTime(dataInicial).Ok?
    ensures var d := StrpTime(dataInicial).value;
      var r := ResolveQuery(Some(dataInicial), None, order);
      (r.Err? <==> Ordinal(d) + DefaultSpan > MaxOrdinal)
      && (r.Ok? ==> r.value.start == Some(d) && Ordinal(r.value.end.value) == Ordinal(d) + DefaultSpan)
  {
    var d := StrpTime(dataInicial).value;
    AddDaysOrdinal(d, DefaultSpan);
  }

  /** With only `data_final`, the range covers that day and the 30 before it. */
  lemma OnlyEndSpan(dataFinal: string, order: string)
    requires dataFinal != [] && (order == "asc" || order == "desc")
    requires StrpTime(dataFinal).Ok?
    ensures var d := StrpTime(dataFinal).value;
      var r := ResolveQuery(None, Some(dataFinal), order);
      (r.Err? <==> Ordinal(d) - DefaultSpan < 1)
      && (r.Ok? ==> r.value.end == Some(d) && Ordinal(r.value.start.value) == Ordinal(d) - DefaultSpan)
  {
    var d := StrpTime(dataFinal).value;
    SubDaysOrdinal(d, DefaultSpan);
  }

  /** With neither date, a valid order leaves the query unbounded. */
  lemma NeitherUnbounded(dataInicial: Option<string>, dataFinal: Option<string>, order: string)
    requires !Given(dataInicial) && !Given(dataFinal) && (order == "asc" || order == "desc")
    ensures ResolveQuery(dataInicial, dataFinal, order) == Ok(Query(None, None, order))
  {
  }

  /** Two supplied dates are kept as given, and refused exactly when the start is later. */
  lemma BothKept(dataInicial: string, dataFinal: string, order: string)
    requires dataInicial != [] && dataFinal != [] && (order == "asc" || order == "desc")
    requires StrpTime(dataInicial).Ok? && StrpTime(dataFinal).Ok?
    ensures var s := StrpTime(dataInicial).value;
      var e := StrpTime(dataFinal).value;
      ResolveQuery(Some(dataInicial), Some(dataFinal), order)
        == if Lt(e, s) then Err(StartAfterEnd(s, e)) else Ok(Query(Some(s), Some(e), order))
  {
  }

  // ------------------------------------------------------------- payload

  /** `date_range_info`: the extreme dates returned and the bounds used, as ISO strings. */
  datatype RangeInfo = RangeInfo(earliest: string, latest: string,
                                 requestedStart: Option<string>, requestedEnd: Option<string>)

  /** `CDSListData`. */
  datatype ListData = ListData(total: nat, records: seq<Models.CdsRecord>, dateRange: Option<RangeInfo>)

  function IsoOf(d: Option<Date>): Option<string>
    requires d.Some? ==> IsValid(d.value)
  {
    match d
    case None => None
    case Some(v) => Some(IsoFormat(v))
  }

  /** The list payload built from the rows the repository returned. */
  function ListResponse(records: seq<Models.CdsRecord>, q: Query): (r: ListData)
    requires forall i :: 0 <= i < |records| ==> IsValid(records[i].date)
    requires q.start.Some? ==> IsValid(q.start.value)
    requires q.end.Some? ==> IsValid(q.end.value)
    ensures r.total == |records| && r.records == records
    ensures r.dateRange.None? <==> records == []
    ensures r.dateRange.Some? ==>
      (exists i :: 0 <= i < |records| && r.dateRange.value.earliest == IsoFormat(records[i].date)
            && forall k :: 0 <= k < |records| ==> Le(records[i].date, records[k].date))
      && (exists i :: 0 <= i < |records| && r.dateRange.value.latest == IsoFormat(records[i].date)
            && forall k :: 0 <= k < |records| ==> Le(records[k].date, records[i].date))
    ensures r.dateRange.Some? ==> r.dateRange.value.requestedStart == IsoOf(q.start)
                                  && r.dateRange.value.requestedEnd == IsoOf(q.end)
  {
    if records == [] then ListData(0, records, None)
    else
      RecordExtremes(records);
      var dates := RecordDates(records);
      ListData(|records|, records,
               Some(RangeInfo(IsoFormat(MinDate(dates)), IsoFormat(MaxDate(dates)), IsoOf(q.start), IsoOf(q.end))))
  }

  /** `[r.record_date for r in records]`. */
  function RecordDates(records: seq<Models.CdsRecord>): (ds: seq<Date>)
    ensures |ds| == |records| && forall i :: 0 <= i < |records| ==> ds[i] == records[i].date
  {
    seq(|records|, i requires 0 <= i < |records| => records[i].date)
  }

  /** The least and greatest of the dates are dates of returned rows. */
  lemma RecordExtremes(records: seq<Models.CdsRecord>)
    requires records != []
    ensures exists i :: 0 <= i < |records| && records[i].date == MinDate(RecordDates(records))
    ensures exists i :: 0 <= i < |records| && records[i].date == MaxDate(RecordDates(records))
  {
    var ds := RecordDates(records);
    var a :| 0 <= a < |ds| && ds[a] == MinDate(ds);
    assert records[a].date == MinDate(ds);
    var b :| 0 <= b < |ds| && ds[b] == MaxDate(ds);
    assert records[b].date == MaxDate(ds);
  }

  /**
   * When every returned row lies within the query's bounds, as the
   * repository promises, the summary's dates read back as bounds with
   * requested start <= earliest <= latest <= requested end.
   */
  lemma {:induction false} SummaryWithinRequest(records: seq<Models.CdsRecord>, q: Query)
    requires records != []
    requires forall i :: 0 <= i < |records| ==> IsValid(records[i].date)
    requires q.start.Some? ==> IsValid(q.start.value)
    requires q.end.Some? ==> IsValid(q.end.value)
    requires forall i :: 0 <= i < |records| ==> CdsRepository.InRange(records[i].date, q.start, q.end)
    ensures var info := ListResponse(records, q).dateRange.value;
      StrpTime(info.earliest).Ok? && StrpTime(info.latest).Ok?
      && Le(StrpTime(info.earliest).value, StrpTime(info.latest).value)
      && CdsRepository.InRange(StrpTime(info.earliest).value, q.start, q.end)
      && CdsRepository.InRange(StrpTime(info.latest).value, q.start, q.end)
  {
    var info := ListResponse(records, q).dateRange.value;
    var i :| 0 <= i < |records| && info.earliest == IsoFormat(records[i].date)
             && forall k :: 0 <= k < |records| ==> Le(records[i].date, records[k].date);
    var j :| 0 <= j < |records| && info.latest == IsoFormat(records[j].date)
             && forall k :: 0 <= k < |records| ==> Le(records[k].date, records[j].date);
    IsoFormatParses(records[i].date);
    IsoFormatParses(records[j].date);
  }

  /** What `GET /cds` answers: the payload, or the status of the first failure. */
  datatype Response = Success(data: ListData) | Failed(status: nat, failure: Failure)

  /**
   * `get_cds_records`: `fetch` stands for the repository's
   * `get_date_range`, called with the resolved bounds and the order.
   */
  function GetCdsRecords(dataInicial: Option<string>, dataFinal: Option<string>, order: string,
                         fetch: Query -> Result<seq<Models.CdsRecord>, CdsRepository.RepoError>): (r: Response)
    requires forall q :: fetch(q).Ok? ==> forall i :: 0 <= i < |fetch(q).value| ==> IsValid(fetch(q).value[i].date)
    ensures r.Failed? ==> r.status == StatusCode(r.failure)
    ensures r.Failed? && r.status == 400 ==> ResolveQuery(dataInicial, dataFinal, order).Err?
    ensures r.Success? <==> ResolveQuery(dataInicial, dataFinal, order).Ok?
                            && fetch(ResolveQuery(dataInicial, dataFinal, order).value).Ok?
    ensures r.Success? ==>
              r.data == ListResponse(fetch(ResolveQuery(dataInicial, dataFinal, order).value).value,
                                     ResolveQuery(dataInicial, dataFinal, order).value)
  {
    match ResolveQuery(dataInicial, dataFinal, order)
    case Err(f) => Failed(StatusCode(f), f)
    case Ok(q) =>
      match fetch(q)
      case Err(e) => Failed(500, ServerError(e))
      case Ok(records) =>
        Success(ListResponse(records, q))
  }

  /**
   * Against the repository's `get_date_range` as written, no request is
   * answered with data: the ones that pass validation all end in a 500.
   */
  lemma NoRecordsAsWritten(dataInicial: Option<string>, dataFinal: Option<string>, order: string,
                           table: map<Date, Models.CdsRecord>)
    ensures var r := GetCdsRecords(dataInicial, dataFinal, order,
                                   (q: Query) => CdsRepository.GetDateRangeAsWritten(table, q.start, q.end, q.order));
      r.Failed?
      && (ResolveQuery(dataInicial, dataFinal, order).Ok? ==>
            r.failure == ServerError(CdsRepository.AttributeError("date")) && r.status == 500)
  {
    var q := ResolveQuery(dataInicial, dataFinal, order);
    if q.Ok? {
      CdsRepository.DateRangeAsWrittenFails(table, q.value.start, q.value.end, q.value.order);
    }
  }
}
