/**
 * Python `datetime.date` as used by the store, the repository and the
 * query route: proleptic Gregorian dates from 0001-01-01 to 9999-12-31,
 * compared field by field, shifted by whole days with `timedelta`, and
 * printed by `isoformat()`.
 *
 * A date is a (year, month, day) triple.  `Ordinal` is Python's
 * `toordinal()` (0001-01-01 is day 1); it is the reference against which
 * the day-by-day shifts and the field-wise order are proved.
 */
module Dates {
  import opened Wrappers
  import opened Strings

  datatype Date = Date(year: int, month: int, day: int)

  const MinYear := 1
  const MaxYear := 9999
  /** `date.max.toordinal()`, the ordinal of 9999-12-31. */
  const MaxOrdinal := 3652059

  predicate IsLeap(y: int) {
    y % 4 == 0 && (y % 100 != 0 || y % 400 == 0)
  }

  function DaysInMonth(y: int, m: int): (n: int)
    requires 1 <= m <= 12
    ensures 28 <= n <= 31
  {
    if m == 2 then (if IsLeap(y) then 29 else 28)
    else if m == 4 || m == 6 || m == 9 || m == 11 then 30
    else 31
  }

  function DaysInYear(y: int): int {
    if IsLeap(y) then 366 else 365
  }

  /** A date Python can represent. */
  predicate IsValid(d: Date) {
    MinYear <= d.year <= MaxYear && 1 <= d.month <= 12 && 1 <= d.day <= DaysInMonth(d.year, d.month)
  }

  /** Python's `a < b` on dates: year, then month, then day. */
  predicate Lt(a: Date, b: Date) {
    a.year < b.year
    || (a.year == b.year && (a.month < b.month || (a.month == b.month && a.day < b.day)))
  }

  predicate Le(a: Date, b: Date) { Lt(a, b) || a == b }

  // ------------------------------------------------------------- ordinals

  /** Days in the months before `m` of year `y` (Python's `_days_before_month`). */
  function DaysBeforeMonth(y: int, m: int): int
    requires 1 <= m <= 13
  {
    var l := if IsLeap(y) then 1 else 0;
    if m == 1 then 0 else if m == 2 then 31
    else if m == 3 then 59 + l else if m == 4 then 90 + l
    else if m == 5 then 120 + l else if m == 6 then 151 + l
    else if m == 7 then 181 + l else if m == 8 then 212 + l
    else if m == 9 then 243 + l else if m == 10 then 273 + l
    else if m == 11 then 304 + l else if m == 12 then 334 + l
    else 365 + l
  }

  /** Days in the years before `y` (Python's `_days_before_year`). */
  function DaysBeforeYear(y: int): int
    requires y >= 1
  {
    var p := y - 1;
    p * 365 + p / 4 - p / 100 + p / 400
  }

  /** Python's `date.toordinal()`. */
  function Ordinal(d: Date): int
    requires IsValid(d)
  {
    DaysBeforeYear(d.year) + DaysBeforeMonth(d.year, d.month) + d.day
  }

  /** The cumulative month table agrees with the month lengths. */
  lemma MonthStep(y: int, m: int)
    requires 1 <= m <= 12
    ensures DaysBeforeMonth(y, m + 1) == DaysBeforeMonth(y, m) + DaysInMonth(y, m)
  {
  }

  /** The cumulative year formula agrees with the year lengths. */
  lemma YearStep(y: int)
    requires y >= 1
    ensures DaysBeforeYear(y + 1) == DaysBeforeYear(y) + DaysInYear(y)
  {
    var p := y - 1;
    assert y / 4 == p / 4 + (if y % 4 == 0 then 1 else 0);
    assert y / 100 == p / 100 + (if y % 100 == 0 then 1 else 0);
    assert y / 400 == p / 400 + (if y % 400 == 0 then 1 else 0);
  }

  lemma {:induction false} DaysBeforeYearMono(y1: int, y2: int)
    requires 1 <= y1 <= y2
    ensures DaysBeforeYear(y1) + 365 * (y2 - y1) <= DaysBeforeYear(y2)
    decreases y2 - y1
  {
    if y1 < y2 {
      YearStep(y1);
      DaysBeforeYearMono(y1 + 1, y2);
    }
  }

  lemma DaysBeforeMonthMono(y: int, m1: int, m2: int)
    requires 1 <= m1 < m2 <= 13
    ensures DaysBeforeMonth(y, m1) + 28 <= DaysBeforeMonth(y, m2)
  {
  }

  lemma OrdinalBounds(d: Date)
    requires IsValid(d)
    ensures 1 <= Ordinal(d) <= MaxOrdinal
  {
    if d != Date(MaxYear, 12, 31) {
      assert Lt(d, Date(MaxYear, 12, 31));
      OrdinalOrder(d, Date(MaxYear, 12, 31));
    }
  }

  lemma {:induction false} OrdinalBelowNextYear(d: Date)
    requires IsValid(d)
    ensures Ordinal(d) <= DaysBeforeYear(d.year + 1)
  {
    YearStep(d.year);
    if d.month < 12 {
      MonthStep(d.year, d.month);
      DaysBeforeMonthMono(d.year, d.month + 1, 13);
    }
  }

  /** The field-wise order of dates is the order of their ordinals. */
  lemma {:induction false} OrdinalOrder(a: Date, b: Date)
    requires IsValid(a) && IsValid(b)
    ensures Lt(a, b) <==> Ordinal(a) < Ordinal(b)
  {
    if a.year < b.year {
      EarlierYear(a, b);
    } else if b.year < a.year {
      EarlierYear(b, a);
    } else if a.month < b.month {
      EarlierMonth(a, b);
    } else if b.month < a.month {
      EarlierMonth(b, a);
    }
  }

  /** A date of an earlier year has a smaller ordinal. */
  lemma {:induction false} EarlierYear(x: Date, z: Date)
    requires IsValid(x) && IsValid(z) && x.year < z.year
    ensures Ordinal(x) < Ordinal(z)
  {
    OrdinalBelowNextYear(x);
    DaysBeforeYearMono(x.year + 1, z.year);
  }

  /** A date of an earlier month of the same year has a smaller ordinal. */
  lemma {:induction false} EarlierMonth(x: Date, z: Date)
    requires IsValid(x) && IsValid(z) && x.year == z.year && x.month < z.month
    ensures Ordinal(x) < Ordinal(z)
  {
    MonthStep(x.year, x.month);
    if x.month + 1 < z.month {
      DaysBeforeMonthMono(x.year, x.month + 1, z.month);
    }
  }

  /** Two dates with the same ordinal are the same date. */
  lemma OrdinalInjective(a: Date, b: Date)
    requires IsValid(a) && IsValid(b) && Ordinal(a) == Ordinal(b)
    ensures a == b
  {
    OrdinalOrder(a, b);
    OrdinalOrder(b, a);
  }

  // --------------------------------------------------------- day arithmetic

  /** `d + timedelta(days=1)`; `None` where Python raises OverflowError. */
  function NextDay(d: Date): (r: Option<Date>)
    requires IsValid(d)
    ensures r.Some? ==> IsValid(r.value) && Lt(d, r.value)
    ensures r.None? <==> d == Date(MaxYear, 12, 31)
  {
    if d.day < DaysInMonth(d.year, d.month) then Some(Date(d.year, d.month, d.day + 1))
    else if d.month < 12 then Some(Date(d.year, d.month + 1, 1))
    else if d.year < MaxYear then Some(Date(d.year + 1, 1, 1))
    else None
  }

  /** `d - timedelta(days=1)`; `None` where Python raises OverflowError. */
  function PrevDay(d: Date): (r: Option<Date>)
    requires IsValid(d)
    ensures r.Some? ==> IsValid(r.value) && Lt(r.value, d)
    ensures r.None? <==> d == Date(MinYear, 1, 1)
  {
    if d.day > 1 then Some(Date(d.year, d.month, d.day - 1))
    else if d.month > 1 then Some(Date(d.year, d.month - 1, DaysInMonth(d.year, d.month - 1)))
    else if d.year > MinYear then Some(Date(d.year - 1, 12, 31))
    else None
  }

  lemma {:induction false} NextDayOrdinal(d: Date)
    requires IsValid(d) && NextDay(d).Some?
    ensures Ordinal(NextDay(d).value) == Ordinal(d) + 1
  {
    if d.day == DaysInMonth(d.year, d.month) {
      if d.month < 12 {
        MonthStep(d.year, d.month);
      } else {
        YearStep(d.year);
      }
    }
  }

  lemma {:induction false} PrevDayOrdinal(d: Date)
    requires IsValid(d) && PrevDay(d).Some?
    ensures Ordinal(PrevDay(d).value) == Ordinal(d) - 1
  {
    if d.day == 1 {
      if d.month > 1 {
        MonthStep(d.year, d.month - 1);
      } else {
        YearStep(d.year - 1);
      }
    }
  }

  /** `d + timedelta(days=n)`, one day at a time; `None` on overflow. */
  function AddDays(d: Date, n: nat): (r: Option<Date>)
    requires IsValid(d)
    ensures r.Some? ==> IsValid(r.value)
    decreases n
  {
    if n == 0 then Some(d)
    else match NextDay(d)
      case None => None
      case Some(e) => AddDays(e, n - 1)
  }

  /** `d - timedelta(days=n)`, one day at a time; `None` on underflow. */
  function SubDays(d: Date, n: nat): (r: Option<Date>)
    requires IsValid(d)
    ensures r.Some? ==> IsValid(r.value)
    decreases n
  {
    if n == 0 then Some(d)
    else match PrevDay(d)
      case None => None
      case Some(e) => SubDays(e, n - 1)
  }

  /** Adding days is ordinal arithmetic, and overflows exactly past 9999-12-31. */
  lemma {:induction false} AddDaysOrdinal(d: Date, n: nat)
    requires IsValid(d)
    ensures AddDays(d, n).Some? <==> Ordinal(d) + n <= MaxOrdinal
    ensures AddDays(d, n).Some? ==> Ordinal(AddDays(d, n).value) == Ordinal(d) + n
    decreases n
  {
    OrdinalBounds(d);
    if n > 0 {
      match NextDay(d)
      case None =>
        assert Ordinal(d) == MaxOrdinal;
      case Some(e) =>
        NextDayOrdinal(d);
        AddDaysOrdinal(e, n - 1);
    }
  }

  /** Subtracting days is ordinal arithmetic, and underflows exactly before 0001-01-01. */
  lemma {:induction false} SubDaysOrdinal(d: Date, n: nat)
    requires IsValid(d)
    ensures SubDays(d, n).Some? <==> Ordinal(d) - n >= 1
    ensures SubDays(d, n).Some? ==> Ordinal(SubDays(d, n).value) == Ordinal(d) - n
    decreases n
  {
    if n > 0 {
      if PrevDay(d).None? {
        assert Ordinal(Date(MinYear, 1, 1)) == 1;
      } else {
        var e := PrevDay(d).value;
        PrevDayOrdinal(d);
        SubDaysOrdinal(e, n - 1);
      }
    }
  }

  /** Going forward `n` days and back `n` days returns to the same date. */
  lemma AddThenSub(d: Date, n: nat)
    requires IsValid(d) && AddDays(d, n).Some?
    ensures SubDays(AddDays(d, n).value, n) == Some(d)
  {
    var e := AddDays(d, n).value;
    AddDaysOrdinal(d, n);
    OrdinalBounds(d);
    SubDaysOrdinal(e, n);
    OrdinalInjective(SubDays(e, n).value, d);
  }

  /** A successful forward shift never moves backwards. */
  lemma AddDaysLe(d: Date, n: nat)
    requires IsValid(d) && AddDays(d, n).Some?
    ensures Le(d, AddDays(d, n).value)
    ensures n > 0 ==> Lt(d, AddDays(d, n).value)
  {
    var e := AddDays(d, n).value;
    AddDaysOrdinal(d, n);
    OrdinalOrder(d, e);
    if n == 0 { assert e == d; }
  }

  /** A successful backward shift never moves forwards. */
  lemma SubDaysLe(d: Date, n: nat)
    requires IsValid(d) && SubDays(d, n).Some?
    ensures Le(SubDays(d, n).value, d)
    ensures n > 0 ==> Lt(SubDays(d, n).value, d)
  {
    var e := SubDays(d, n).value;
    SubDaysOrdinal(d, n);
    OrdinalOrder(e, d);
    if n == 0 { assert e == d; }
  }

  // --------------------------------------------------------------- ordering

  lemma LtTrans(a: Date, b: Date, c: Date)
    requires Lt(a, b) && Lt(b, c)
    ensures Lt(a, c)
  {
  }

  lemma LtTotal(a: Date, b: Date)
    ensures Lt(a, b) || a == b || Lt(b, a)
  {
  }

  /** Python's `min()` over a non-empty list of dates. */
  function MinDate(ds: seq<Date>): (m: Date)
    requires ds != []
    ensures m in ds
    ensures forall i :: 0 <= i < |ds| ==> Le(m, ds[i])
    decreases |ds|
  {
    if |ds| == 1 then ds[0]
    else
      var m := MinDate(ds[1..]);
      assert forall i :: 1 <= i < |ds| ==> ds[i] == ds[1..][i - 1];
      if Lt(ds[0], m) then ds[0] else m
  }

  /** Python's `max()` over a non-empty list of dates. */
  function MaxDate(ds: seq<Date>): (m: Date)
    requires ds != []
    ensures m in ds
    ensures forall i :: 0 <= i < |ds| ==> Le(ds[i], m)
    decreases |ds|
  {
    if |ds| == 1 then ds[0]
    else
      var m := MaxDate(ds[1..]);
      assert forall i :: 1 <= i < |ds| ==> ds[i] == ds[1..][i - 1];
      if Lt(m, ds[0]) then ds[0] else m
  }

  // ------------------------------------------------------------- formatting

  /** `date.isoformat()`: `YYYY-MM-DD`, zero-padded. */
  function IsoFormat(d: Date): (s: string)
    requires IsValid(d)
    ensures |s| == 10 && s[4] == '-' && s[7] == '-'
  {
    PadDigits(d.year, 4) + "-" + PadDigits(d.month, 2) + "-" + PadDigits(d.day, 2)
  }
}
