/**
 * One daily observation of the Brazil 5-year CDS spread: the row shape
 * shared by the scraped table, the merge step and the CSV store.  Every
 * price field may be missing (pandas NaN / Python `None`).
 */
module Observations {
  import opened Wrappers
  import opened Dates

  datatype Obs = Obs(
    date: Date,
    open: Option<real>,
    high: Option<real>,
    low: Option<real>,
    close: Option<real>,
    changePct: Option<real>)

  /** The sort and lookup key of a row. */
  function DateOf(o: Obs): Date { o.date }

  /** The set of dates a sequence of rows covers. */
  function DateSet(s: seq<Obs>): set<Date> {
    set i | 0 <= i < |s| :: s[i].date
  }

  /** The dates of a sequence: its head's and its tail's. */
  lemma DateSetTail(s: seq<Obs>)
    requires s != []
    ensures DateSet(s) == {s[0].date} + DateSet(s[1..])
  {
    forall d | d in DateSet(s) ensures d in {s[0].date} + DateSet(s[1..]) {
      var i :| 0 <= i < |s| && s[i].date == d;
      if i > 0 { assert s[1..][i - 1] == s[i]; }
    }
    forall d | d in DateSet(s[1..]) ensures d in DateSet(s) {
      var i :| 0 <= i < |s[1..]| && s[1..][i].date == d;
      assert s[i + 1] == s[1..][i];
    }
  }

  /** Reordering rows keeps their dates. */
  lemma DateSetPerm(a: seq<Obs>, b: seq<Obs>)
    requires multiset(a) == multiset(b)
    ensures DateSet(a) == DateSet(b)
  {
    forall d | d in DateSet(a) ensures d in DateSet(b) {
      var i :| 0 <= i < |a| && a[i].date == d;
      assert a[i] in multiset(b);
    }
    forall d | d in DateSet(b) ensures d in DateSet(a) {
      var i :| 0 <= i < |b| && b[i].date == d;
      assert b[i] in multiset(a);
    }
  }

  lemma DateSetConcat(a: seq<Obs>, b: seq<Obs>)
    ensures DateSet(a + b) == DateSet(a) + DateSet(b)
  {
    var m := a + b;
    forall d | d in DateSet(m) ensures d in DateSet(a) + DateSet(b) {
      var i :| 0 <= i < |m| && m[i].date == d;
      if i >= |a| { assert b[i - |a|] == m[i]; }
    }
    forall d | d in DateSet(a) ensures d in DateSet(m) {
      var i :| 0 <= i < |a| && a[i].date == d;
      assert m[i] == a[i];
    }
    forall d | d in DateSet(b) ensures d in DateSet(m) {
      var i :| 0 <= i < |b| && b[i].date == d;
      assert m[|a| + i] == b[i];
    }
  }

  /** The dates of some rows, in row order. */
  function DateList(s: seq<Obs>): (ds: seq<Date>)
    ensures |ds| == |s| && forall i :: 0 <= i < |s| ==> ds[i] == s[i].date
  {
    seq(|s|, i requires 0 <= i < |s| => s[i].date)
  }

  /** The earliest date of some rows (`df["date"].min()`). */
  function Earliest(s: seq<Obs>): (d: Date)
    requires s != []
    ensures d in DateSet(s)
    ensures forall i :: 0 <= i < |s| ==> Le(d, s[i].date)
  {
    MinDate(DateList(s))
  }

  /** The latest date of some rows (`df["date"].max()`). */
  function Latest(s: seq<Obs>): (d: Date)
    requires s != []
    ensures d in DateSet(s)
    ensures forall i :: 0 <= i < |s| ==> Le(s[i].date, d)
  {
    MaxDate(DateList(s))
  }
}
